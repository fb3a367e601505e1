/**
  What the lists that the generator collects stand for on the descriptors: emitted names, referenced
  and returned types, nested messages, root types, selected files. Each is stated with quantifiers
  over services, methods and messages, or as the list for one descriptor together with the list for
  two sequences of them.
 */
module CodegenNames {
  import opened Options
  import opened Sequences
  import opened CodegenModel

  // ----- Names -------------------------------------------------------------------------------

  /** The types and constants of one service, in the order they are claimed. */
  lemma ServiceNames(cfg: Config, s: Service, i: nat)
    ensures var u := cfg.upperCamel(s.name);
            TypeIdents(cfg, s) ==
            [if u == "Self" then "Self_" else u, u + "Ext", u + "RegisterMarker", u + "Client", u + "Server"]
    ensures |ConstIdents(cfg, s)| == 1 + |s.methods|
    ensures ConstIdents(cfg, s)[0] == cfg.upper(cfg.snake(s.name)) + "_SERVICE_NAME"
    ensures i < |s.methods| ==>
              ConstIdents(cfg, s)[1 + i] ==
              cfg.upper(cfg.snake(s.name)) + "_" + cfg.upper(cfg.snake(s.methods[i].name)) + "_SPEC"
  {
  }

  lemma TypeNamed(cfg: Config, s: Service, ident: string)
    ensures ident in TypeIdents(cfg, s) <==> NamesService(cfg, s, ident, Type)
  {
  }

  lemma ConstNamed(cfg: Config, s: Service, ident: string)
    ensures ident in ConstIdents(cfg, s) <==> NamesService(cfg, s, ident, Const)
  {
    var cs := ConstIdents(cfg, s);
    if ident in cs {
      var i :| 0 <= i < |cs| && cs[i] == ident;
      if i > 0 {
        assert s.methods[i - 1] in s.methods;
      }
    }
    if m :| m in s.methods && ident == SpecConst(cfg, s, m) {
      var i :| 0 <= i < |s.methods| && s.methods[i] == m;
      assert cs[i + 1] == ident;
    }
  }

  /** The alias of a message is made from its last name, wherever the message is. */
  lemma AliasRule(cfg: Config, scope: string, name: string)
    requires '.' !in name
    ensures Alias(cfg, scope + "." + name) == "Owned" + cfg.upperCamel(name) + "View"
    ensures Alias(cfg, name) == "Owned" + cfg.upperCamel(name) + "View"
  {
    BareName(scope, name);
  }

  lemma {:induction false} BareName(scope: string, name: string)
    requires '.' !in name
    ensures AfterLastDot(scope + "." + name) == name && AfterLastDot(name) == name
  {
    var s := scope + "." + name;
    if scope == [] {
      assert s == ['.'] + name && s[1..] == name;
    } else {
      assert s[1..] == scope[1..] + "." + name;
      assert s[1..][|scope| - 1] == '.';
      BareName(scope[1..], name);
    }
    if name != [] {
      DropMembers(name, 1);
    }
  }

  /** The client methods of a service: two for each method, in order. */
  lemma {:induction false} ClientNames(cfg: Config, a: seq<RpcMethod>, b: seq<RpcMethod>, m: RpcMethod)
    ensures ServiceClientIdents(cfg, a + b) == ServiceClientIdents(cfg, a) + ServiceClientIdents(cfg, b)
    ensures ServiceClientIdents(cfg, [m]) == [cfg.snake(m.name), cfg.snake(m.name) + "_with_options"]
    decreases |b|
  {
    assert [m][..0] == [];
    if b == [] {
      assert a + b == a;
    } else {
      var n := |b| - 1;
      assert (a + b)[..|a| + n] == a + b[..n];
      ClientNames(cfg, a, b[..n], m);
    }
  }

  // ----- Items -------------------------------------------------------------------------------

  lemma ItemsNamed(package: string, idents: seq<string>, kind: Kind, it: Item)
    ensures it in ItemsOf(package, idents, kind) <==> it.package == package && it.kind == kind && it.ident in idents
  {
    if it.package == package && it.kind == kind && it.ident in idents {
      var i :| 0 <= i < |idents| && idents[i] == it.ident;
      assert ItemsOf(package, idents, kind)[i] == it;
    }
  }

  lemma ServiceItemsNamed(cfg: Config, package: string, s: Service, it: Item)
    ensures it in ServiceItems(cfg, package, s) <==> it.package == package && NamesService(cfg, s, it.ident, it.kind)
  {
    hide TypeIdents, ConstIdents, NamesService;
    ItemsNamed(package, TypeIdents(cfg, s), Type, it);
    ItemsNamed(package, ConstIdents(cfg, s), Const, it);
    TypeNamed(cfg, s, it.ident);
    ConstNamed(cfg, s, it.ident);
  }

  lemma {:induction false} FileItemsNamed(cfg: Config, package: string, ss: seq<Service>, it: Item)
    ensures it in FileItems(cfg, package, ss) <==>
            exists s :: s in ss && it.package == package && NamesService(cfg, s, it.ident, it.kind)
  {
    hide ServiceItems, NamesService;
    if ss != [] {
      var n := |ss| - 1;
      FileItemsNamed(cfg, package, ss[..n], it);
      ServiceItemsNamed(cfg, package, ss[n], it);
      assert ss == ss[..n] + [ss[n]];
    }
  }

  lemma {:induction false} BatchItemsNamed(cfg: Config, fs: seq<ProtoFile>, it: Item)
    ensures it in BatchItems(cfg, fs) <==>
            exists f, s :: f in fs && s in f.services && it.package == f.package
                           && NamesService(cfg, s, it.ident, it.kind)
  {
    hide FileItems, NamesService;
    if fs != [] {
      var n := |fs| - 1;
      BatchItemsNamed(cfg, fs[..n], it);
      FileItemsNamed(cfg, fs[n].package, fs[n].services, it);
      assert fs == fs[..n] + [fs[n]];
    }
  }

  lemma BatchItemsExact(cfg: Config, fs: seq<ProtoFile>)
    ensures ItemsExact(cfg, fs, BatchItems(cfg, fs))
  {
    hide BatchItems, NamesService;
    forall it
      ensures it in BatchItems(cfg, fs) <==>
              exists f, s :: f in fs && s in f.services && it.package == f.package
                             && NamesService(cfg, s, it.ident, it.kind)
    {
      BatchItemsNamed(cfg, fs, it);
    }
  }

  lemma {:induction false} FileItemsOfConcat(cfg: Config, package: string, a: seq<Service>, b: seq<Service>)
    ensures FileItems(cfg, package, a + b) == FileItems(cfg, package, a) + FileItems(cfg, package, b)
    decreases |b|
  {
    hide ServiceItems;
    if b == [] {
      assert a + b == a;
    } else {
      var n := |b| - 1;
      assert (a + b)[..|a| + n] == a + b[..n];
      FileItemsOfConcat(cfg, package, a, b[..n]);
    }
  }

  lemma {:induction false} ItemsOfConcat(cfg: Config, a: seq<ProtoFile>, b: seq<ProtoFile>)
    ensures BatchItems(cfg, a + b) == BatchItems(cfg, a) + BatchItems(cfg, b)
    decreases |b|
  {
    hide FileItems;
    if b == [] {
      assert a + b == a;
    } else {
      var n := |b| - 1;
      assert (a + b)[..|a| + n] == a + b[..n];
      ItemsOfConcat(cfg, a, b[..n]);
    }
  }

  /**
    Nothing is counted less often than it is emitted: the items of a batch are those of its services
    one after the other, and one service has its five types and its constants.
   */
  lemma OneServiceItems(cfg: Config, f: ProtoFile, s: Service)
    requires f.services == [s]
    ensures BatchItems(cfg, [f]) ==
            ItemsOf(f.package, TypeIdents(cfg, s), Type) + ItemsOf(f.package, ConstIdents(cfg, s), Const)
  {
    hide ServiceItems;
    assert [f][..0] == [] && [s][..0] == [];
    var items := ServiceItems(cfg, f.package, s);
    assert FileItems(cfg, f.package, [s]) == [] + items == items;
    assert BatchItems(cfg, [f]) == [] + FileItems(cfg, f.package, [s]);
    ServiceItemsAre(cfg, f.package, s);
  }

  lemma ServiceItemsAre(cfg: Config, package: string, s: Service)
    ensures ServiceItems(cfg, package, s) ==
            ItemsOf(package, TypeIdents(cfg, s), Type) + ItemsOf(package, ConstIdents(cfg, s), Const)
  {
  }

  // ----- Types -------------------------------------------------------------------------------

  lemma {:induction false} MethodRefsNamed(ms: seq<RpcMethod>, fqn: string)
    ensures fqn in MethodRefs(ms) <==> exists m :: m in ms && (m.input == Some(fqn) || m.output == Some(fqn))
  {
    if ms != [] {
      var n := |ms| - 1;
      MethodRefsNamed(ms[..n], fqn);
      assert ms == ms[..n] + [ms[n]];
    }
  }

  lemma {:induction false} ServiceRefsNamed(ss: seq<Service>, fqn: string)
    ensures fqn in ServiceRefs(ss) <==> NamedByMethod(ss, fqn)
  {
    hide MethodRefs;
    if ss != [] {
      var n := |ss| - 1;
      ServiceRefsNamed(ss[..n], fqn);
      MethodRefsNamed(ss[n].methods, fqn);
      assert ss == ss[..n] + [ss[n]];
    }
  }

  lemma {:induction false} OutputRefsNamed(ms: seq<RpcMethod>, fqn: string)
    ensures fqn in OutputRefs(ms) <==>
            exists m :: m in ms && (m.output == Some(fqn) || (m.output == None && fqn == ""))
  {
    if ms != [] {
      var n := |ms| - 1;
      OutputRefsNamed(ms[..n], fqn);
      assert ms == ms[..n] + [ms[n]];
    }
  }

  lemma {:induction false} OutputsNamed(ss: seq<Service>, fqn: string)
    ensures fqn in ServiceOutputs(ss) <==> ReturnedByMethod(ss, fqn)
  {
    hide OutputRefs;
    if ss != [] {
      var n := |ss| - 1;
      OutputsNamed(ss[..n], fqn);
      OutputRefsNamed(ss[n].methods, fqn);
      assert ss == ss[..n] + [ss[n]];
    }
  }

  // ----- Nested messages ---------------------------------------------------------------------

  lemma ChainCons(m: Message, ms: seq<Message>, chain: seq<Message>, prefix: string)
    requires m in ms && !m.mapEntry && IsChain(m.nested, chain)
    ensures IsChain(ms, [m] + chain)
    ensures prefix + Dotted([m] + chain) == prefix + "." + m.name + Dotted(chain)
  {
    var longer := [m] + chain;
    assert longer[1..] == chain;
    forall i | 0 < i < |longer|
      ensures longer[i] in longer[i - 1].nested
    {
      assert longer[i] == chain[i - 1];
      if i > 1 {
        assert chain[i - 1] in chain[i - 2].nested;
      }
    }
  }

  lemma ChainHead(ms: seq<Message>, chain: seq<Message>, prefix: string)
    requires IsChain(ms, chain)
    ensures chain[0] in ms && !chain[0].mapEntry
    ensures |chain| > 1 ==> IsChain(chain[0].nested, chain[1..])
    ensures prefix + Dotted(chain) == prefix + "." + chain[0].name + Dotted(chain[1..])
  {
    if |chain| > 1 {
      assert chain[1] in chain[0].nested;
      ChainTail(chain);
    }
    Regroup(prefix, chain[0].name, Dotted(chain[1..]));
  }

  lemma ChainTail(chain: seq<Message>)
    requires |chain| > 1 && chain[1] in chain[0].nested
    requires forall i :: 0 < i < |chain| ==> chain[i] in chain[i - 1].nested
    requires forall i :: 0 <= i < |chain| ==> !chain[i].mapEntry
    ensures IsChain(chain[0].nested, chain[1..])
  {
    var tail := chain[1..];
    forall i | 0 < i < |tail|
      ensures tail[i] in tail[i - 1].nested
    {
      assert chain[i + 1] in chain[i].nested;
    }
  }

  lemma Regroup(prefix: string, name: string, tail: string)
    ensures prefix + ("." + name + tail) == prefix + "." + name + tail
  {
  }

  /** Every collected name is spelled by a chain. */
  lemma {:induction false} CollectedHasChain(ms: seq<Message>, prefix: string, fqn: string)
    returns (chain: seq<Message>)
    requires fqn in NestedNames(ms, prefix)
    ensures IsChain(ms, chain) && fqn == prefix + Dotted(chain)
    decreases ms
  {
    var m := ms[0];
    if fqn in MessageNames(m, prefix) {
      if fqn == prefix + "." + m.name {
        chain := [m];
        assert chain[1..] == [] && Dotted(chain) == "." + m.name;
      } else {
        var below := CollectedHasChain(m.nested, prefix + "." + m.name, fqn);
        chain := [m] + below;
        ChainCons(m, ms, below, prefix);
      }
    } else {
      chain := CollectedHasChain(ms[1..], prefix, fqn);
    }
  }

  lemma {:induction false} MemberIsCollected(ms: seq<Message>, prefix: string, m: Message, fqn: string)
    requires m in ms && fqn in MessageNames(m, prefix)
    ensures fqn in NestedNames(ms, prefix)
    decreases |ms|
  {
    if ms[0] != m {
      MemberIsCollected(ms[1..], prefix, m, fqn);
    }
  }

  /** And every chain is collected. */
  lemma {:induction false} ChainIsCollected(ms: seq<Message>, prefix: string, chain: seq<Message>)
    requires IsChain(ms, chain)
    ensures prefix + Dotted(chain) in NestedNames(ms, prefix)
    decreases |chain|
  {
    hide IsChain;
    ChainHead(ms, chain, prefix);
    var m := chain[0];
    if |chain| > 1 {
      ChainIsCollected(m.nested, prefix + "." + m.name, chain[1..]);
    } else {
      assert chain[1..] == [] && Dotted([]) == "";
      assert prefix + "." + m.name + "" == prefix + "." + m.name;
    }
    assert prefix + Dotted(chain) in MessageNames(m, prefix);
    MemberIsCollected(ms, prefix, m, prefix + Dotted(chain));
  }

  lemma DefinedIsCollected(f: ProtoFile, fqn: string)
    ensures fqn in NestedNames(f.messages, Prefix(f.package)) <==> DefinedIn(f, fqn)
  {
    hide IsChain, Dotted, NestedNames;
    if fqn in NestedNames(f.messages, Prefix(f.package)) {
      var chain := CollectedHasChain(f.messages, Prefix(f.package), fqn);
    }
    if DefinedIn(f, fqn) {
      var chain :| IsChain(f.messages, chain)
                   && fqn == (if f.package == "" then "" else "." + f.package) + Dotted(chain);
      ChainIsCollected(f.messages, Prefix(f.package), chain);
    }
  }

  /** What a file asks for: what its methods return, and in all-messages mode what it defines. */
  lemma DemandNamed(cfg: Config, f: ProtoFile, fqn: string)
    ensures fqn in FileDemand(cfg, f) <==>
            ReturnedByMethod(f.services, fqn) || (cfg.allMessages && DefinedIn(f, fqn))
  {
    hide ServiceOutputs, NestedNames, ReturnedByMethod, DefinedIn;
    OutputsNamed(f.services, fqn);
    DefinedIsCollected(f, fqn);
  }

  // ----- Root types --------------------------------------------------------------------------

  /** What one file declares at its top level: messages, then enums. */
  lemma FileDeclares(f: ProtoFile, d: Decl)
    ensures |FileDecls(f)| == |f.messages| + |f.enums|
    ensures d in FileDecls(f) <==>
            && d.package == f.package
            && if d.isMessage then exists m :: m in f.messages && m.name == d.name else d.name in f.enums
  {
    var ds := FileDecls(f);
    if d.package == f.package && d.isMessage {
      if m :| m in f.messages && m.name == d.name {
        var i :| 0 <= i < |f.messages| && f.messages[i] == m;
        assert ds[i] == d;
      }
    }
    if d.package == f.package && !d.isMessage && d.name in f.enums {
      var i :| 0 <= i < |f.enums| && f.enums[i] == d.name;
      assert ds[|f.messages| + i] == d;
    }
    if d in ds {
      var i :| 0 <= i < |ds| && ds[i] == d;
      if i < |f.messages| {
        assert f.messages[i] in f.messages;
      } else {
        assert f.enums[i - |f.messages|] in f.enums;
      }
    }
  }

  /** The declarations of the generated files, and of no others. */
  lemma OneFileDecls(f: ProtoFile, names: seq<string>)
    ensures Decls([f], names) == if exists n :: n in names && f.name == Some(n) then FileDecls(f) else []
  {
    hide FileDecls;
    assert [f][..0] == [];
  }

  /** The view names that a message claims; an enum claims none. */
  lemma OneClaim(cfg: Config, package: string, name: string, isMessage: bool)
    ensures var n := cfg.typeNamePrefix + name;
            Claims(cfg, [Decl(package, name, isMessage)]) ==
            if !isMessage then []
            else if cfg.lazyViews then [(package, n + "View"), (package, n + "OwnedView"), (package, n + "LazyView")]
            else [(package, n + "View"), (package, n + "OwnedView")]
  {
    var d := Decl(package, name, isMessage);
    assert [d][..0] == [];
    assert Claims(cfg, [d]) == [] + ViewNames(cfg, d);
  }

  /** A root type is a declared name under its prefix, or a view name claimed exactly once. */
  lemma RootTypesNamed(cfg: Config, ds: seq<Decl>, package: string, ident: string)
    ensures (package, ident) in RootTypes(cfg, ds) <==>
            && !cfg.requireExtern
            && (|| (exists d :: d in ds && d.package == package && ident == cfg.typeNamePrefix + d.name)
                || multiset(Claims(cfg, ds))[(package, ident)] == 1)
  {
    hide Claims;
    if multiset(Claims(cfg, ds))[(package, ident)] == 1 {
      assert (package, ident) in multiset(Claims(cfg, ds));
    }
  }

  // ----- Selected files ----------------------------------------------------------------------

  ghost predicate IsFirst(files: seq<ProtoFile>, name: string, i: nat)
    requires i < |files|
  {
    files[i].name == Some(name) && forall j :: 0 <= j < i ==> files[j].name != Some(name)
  }

  /** The first file of that name. */
  lemma {:induction false} FindIsFirst(files: seq<ProtoFile>, name: string)
    ensures Find(files, name) == None <==> forall f :: f in files ==> f.name != Some(name)
    ensures forall i :: 0 <= i < |files| && IsFirst(files, name, i) ==> Find(files, name) == Some(files[i])
  {
    if files != [] {
      FindIsFirst(files[1..], name);
      assert files == [files[0]] + files[1..];
      forall i | 0 <= i < |files| && IsFirst(files, name, i)
        ensures Find(files, name) == Some(files[i])
      {
        if i > 0 {
          assert files[1..][i - 1] == files[i];
          assert forall j :: 0 <= j < i - 1 ==> files[1..][j] == files[j + 1];
        }
      }
    }
  }

  /** One name selects the first file that has it, and names select one after the other. */
  lemma {:induction false} SelectedRule(files: seq<ProtoFile>, a: seq<string>, b: seq<string>, name: string)
    ensures Selected(files, a + b) == Selected(files, a) + Selected(files, b)
    ensures Selected(files, [name]) == if Find(files, name).Some? then [Find(files, name).value] else []
    decreases |a|
  {
    hide Find;
    assert [name][1..] == [];
    if a == [] {
      assert a + b == b;
    } else {
      assert (a + b)[0] == a[0] && (a + b)[1..] == a[1..] + b;
      SelectedRule(files, a[1..], b, name);
    }
  }
}
