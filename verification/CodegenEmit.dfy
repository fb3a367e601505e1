/**
  The stateful main pass of connectrpc-codegen/src/codegen.rs: `BatchState` and the per-file
  emission, down to the theorem about whole batches.
 */
module CodegenEmit {
  import opened Options
  import opened Sequences
  import opened CodegenModel
  import CodegenNames
  import CodegenBatch

  /** The client methods of one service, checked for duplicates one RPC at a time. */
  method CheckMethodCollisions(cfg: Config, ms: seq<RpcMethod>) returns (ok: bool)
    ensures ok <==> NoDuplicates(ServiceClientIdents(cfg, ms))
  {
    hide ClientIdents;
    var seen: set<string> := {};
    for i := 0 to |ms|
      invariant seen == Elements(ServiceClientIdents(cfg, ms[..i]))
      invariant NoDuplicates(ServiceClientIdents(cfg, ms[..i]))
    {
      ghost var before := ServiceClientIdents(cfg, ms[..i]);
      var idents := ClientIdents(cfg, ms[i]);
      assert ms[..i + 1][..i] == ms[..i];
      assert ServiceClientIdents(cfg, ms[..i + 1]) == before + idents;
      TwoIdents(cfg, ms[i]);
      if idents[0] in seen || idents[1] in seen {
        ClashSpreads(cfg, ms, i);
        return false;
      }
      seen := seen + {idents[0], idents[1]};
      AppendFresh(before, idents[0]);
      AppendFresh(before + [idents[0]], idents[1]);
      assert before + [idents[0]] + [idents[1]] == before + idents;
    }
    assert ms[..|ms|] == ms;
    return true;
  }

  lemma TwoIdents(cfg: Config, m: RpcMethod)
    ensures |ClientIdents(cfg, m)| == 2 && ClientIdents(cfg, m)[0] != ClientIdents(cfg, m)[1]
  {
    assert |ClientIdents(cfg, m)[1]| > |ClientIdents(cfg, m)[0]|;
  }

  lemma {:induction false} ClientIdentsPrefix(cfg: Config, ms: seq<RpcMethod>, i: nat)
    requires i <= |ms|
    ensures ServiceClientIdents(cfg, ms[..i]) <= ServiceClientIdents(cfg, ms)
  {
    if i < |ms| {
      var n := |ms| - 1;
      ClientIdentsPrefix(cfg, ms[..n], i);
      assert ms[..n][..i] == ms[..i];
    } else {
      assert ms[..i] == ms;
    }
  }

  lemma ClashSpreads(cfg: Config, ms: seq<RpcMethod>, i: nat)
    requires i < |ms|
    requires var idents := ClientIdents(cfg, ms[i]);
             exists x :: x in idents && x in ServiceClientIdents(cfg, ms[..i])
    ensures !NoDuplicates(ServiceClientIdents(cfg, ms))
  {
    hide ClientIdents;
    var before, idents := ServiceClientIdents(cfg, ms[..i]), ClientIdents(cfg, ms[i]);
    assert ms[..i + 1][..i] == ms[..i];
    ClientIdentsPrefix(cfg, ms, i + 1);
    var all := ServiceClientIdents(cfg, ms);
    var x :| x in idents && x in before;
    var p :| 0 <= p < |before| && before[p] == x;
    var q :| 0 <= q < |idents| && idents[q] == x;
    assert before + idents <= all;
    assert all[p] == (before + idents)[p] && all[|before| + q] == (before + idents)[|before| + q];
  }

  /** Dedup state of a batch, and what it has emitted so far. */
  class BatchState {
    const cfg: Config
    const collidingAliases: set<(string, string)>
    const rootTypes: set<(string, string)>
    var encodableSeen: set<string>
    var aliasSeen: set<(string, string)>
    var moduleIdents: set<(string, string)>
    var items: seq<Item>
    var aliases: seq<(string, string)>
    var impls: seq<string>

    constructor (cfg: Config, collidingAliases: set<(string, string)>, rootTypes: set<(string, string)>)
      ensures this.cfg == cfg && this.collidingAliases == collidingAliases && this.rootTypes == rootTypes
      ensures Valid() && items == [] && aliasSeen == {} && encodableSeen == {}
    {
      this.cfg, this.collidingAliases, this.rootTypes := cfg, collidingAliases, rootTypes;
      encodableSeen, aliasSeen, moduleIdents := {}, {}, {};
      items, aliases, impls := [], [], [];
    }

    /** The dedup sets say exactly what has been emitted, and nothing was emitted twice. */
    ghost predicate Valid()
      reads this
    {
      && NoDuplicates(Keys(items)) && Elements(Keys(items)) == moduleIdents
      && NoDuplicates(aliases) && Elements(aliases) == aliasSeen
      && NoDuplicates(impls) && Elements(impls) == (set f | f in encodableSeen && !cfg.foreign(f))
      && (forall f :: f in encodableSeen ==> cfg.resolves(f))
    }

    predicate AliasCollides(package: string, fqn: string) {
      (package, Alias(cfg, fqn)) in rootTypes || (package, Alias(cfg, fqn)) in collidingAliases
    }

    function NewAliases(package: string, named: seq<string>): set<(string, string)> {
      set r | r in named && !AliasCollides(package, r) :: (package, r)
    }

    /** Emits the `Owned*View` aliases of one file. */
    method GenerateOwnedViewAliases(package: string, named: seq<string>) returns (ok: bool)
      requires Valid()
      modifies this`aliasSeen, this`aliases
      ensures Valid()
      ensures ok ==> aliasSeen == old(aliasSeen) + NewAliases(package, named)
      ensures !ok ==> exists r :: r in named && !cfg.resolves(r)
    {
      hide AliasCollides;
      for i := 0 to |named|
        invariant Valid()
        invariant aliasSeen == old(aliasSeen) + NewAliases(package, named[..i])
      {
        var r := named[i];
        assert named[..i + 1] == named[..i] + [r];
        if AliasCollides(package, r) {
          continue;
        }
        if (package, r) in aliasSeen {
          continue;
        }
        aliasSeen := aliasSeen + {(package, r)};
        AppendFresh(aliases, (package, r));
        aliases := aliases + [(package, r)];
        if !cfg.resolves(r) {
          return false;
        }
      }
      assert named[..|named|] == named;
      return true;
    }

    /** Emits the `Encodable` pair of one message, unless it has one or is foreign. */
    method EncodableImplPair(fqn: string) returns (ok: bool)
      requires Valid()
      modifies this`encodableSeen, this`impls
      ensures ok ==> Valid() && encodableSeen == old(encodableSeen) + {fqn}
      ensures !ok ==> !cfg.resolves(fqn)
    {
      if fqn in encodableSeen {
        return true;
      }
      assert fqn !in Elements(impls);
      encodableSeen := encodableSeen + {fqn};
      if !cfg.resolves(fqn) {
        return false;
      }
      if !cfg.foreign(fqn) {
        AppendFresh(impls, fqn);
        impls := impls + [fqn];
      }
      return true;
    }

    /** Emits the pairs for the output types of one file. */
    method GenerateEncodableViewImpls(outputs: seq<string>) returns (ok: bool)
      requires Valid()
      modifies this`encodableSeen, this`impls
      ensures ok ==> Valid() && encodableSeen == old(encodableSeen) + Elements(outputs)
      ensures !ok ==> exists r :: r in outputs && !cfg.resolves(r)
    {
      for i := 0 to |outputs|
        invariant Valid() && encodableSeen == old(encodableSeen) + Elements(outputs[..i])
      {
        ok := EncodableImplPair(outputs[i]);
        if !ok {
          return;
        }
        assert outputs[..i + 1] == outputs[..i] + [outputs[i]];
      }
      assert outputs[..|outputs|] == outputs;
      return true;
    }

    /** Emits the pairs for one message and its nested messages, skipping map entries. */
    method Recurse(m: Message, prefix: string) returns (ok: bool)
      requires Valid()
      modifies this`encodableSeen, this`impls
      ensures ok ==> Valid() && encodableSeen == old(encodableSeen) + Elements(MessageNames(m, prefix))
      ensures !ok ==> exists r :: r in MessageNames(m, prefix) && !cfg.resolves(r)
      decreases m, 1
    {
      if m.mapEntry {
        return true;
      }
      var fqn := prefix + "." + m.name;
      ok := EncodableImplPair(fqn);
      if ok {
        ok := RecurseAll(m.nested, fqn);
        ElementsOfConcat([fqn], NestedNames(m.nested, fqn));
      } else {
        assert fqn in MessageNames(m, prefix);
      }
    }

    method RecurseAll(ms: seq<Message>, prefix: string) returns (ok: bool)
      requires Valid()
      modifies this`encodableSeen, this`impls
      ensures ok ==> Valid() && encodableSeen == old(encodableSeen) + Elements(NestedNames(ms, prefix))
      ensures !ok ==> exists r :: r in NestedNames(ms, prefix) && !cfg.resolves(r)
      decreases ms, 0
    {
      if ms == [] {
        return true;
      }
      ok := Recurse(ms[0], prefix);
      if ok {
        ok := RecurseAll(ms[1..], prefix);
        ElementsOfConcat(MessageNames(ms[0], prefix), NestedNames(ms[1..], prefix));
      }
    }

    /** Claims the module-scope identifiers of one service. */
    method CheckModuleCollisions(package: string, s: Service) returns (ok: bool)
      requires Valid()
      modifies this`moduleIdents, this`items
      ensures ok ==> Valid() && items == old(items) + ServiceItems(cfg, package, s)
      ensures ok ==> forall t :: t in TypeIdents(cfg, s) ==> (package, t) !in rootTypes
      ensures !ok ==> || (exists t :: t in TypeIdents(cfg, s) && (package, t) in rootTypes)
                      || !NoDuplicates(Keys(old(items) + ServiceItems(cfg, package, s)))
    {
      hide TypeIdents, ConstIdents;
      var types := TypeIdents(cfg, s);
      if exists t :: t in types && (package, t) in rootTypes {
        return false;
      }
      var wanted := ServiceItems(cfg, package, s);
      for i := 0 to |wanted|
        invariant Valid() && items == old(items) + wanted[..i]
      {
        ghost var all := Keys(old(items) + wanted);
        assert forall j :: 0 <= j < |items| ==> all[j] == Keys(items)[j];
        assert all[|items|] == wanted[i].Key();
        if wanted[i].Key() in moduleIdents {
          return false;
        }
        moduleIdents := moduleIdents + {wanted[i].Key()};
        assert Keys(items + [wanted[i]]) == Keys(items) + [wanted[i].Key()];
        AppendFresh(Keys(items), wanted[i].Key());
        items := items + [wanted[i]];
        assert wanted[..i + 1] == wanted[..i] + [wanted[i]];
      }
      assert wanted[..|wanted|] == wanted;
      return true;
    }

    /** Emits one service, once its identifiers and types check out. */
    method GenerateService(package: string, s: Service) returns (ok: bool)
      requires Valid()
      modifies this`moduleIdents, this`items
      ensures ok ==> Valid() && items == old(items) + ServiceItems(cfg, package, s)
      ensures ok ==> ServiceAcceptable(cfg, package, s, rootTypes)
      ensures !ok ==> || !ServiceAcceptable(cfg, package, s, rootTypes)
                      || !NoDuplicates(Keys(old(items) + ServiceItems(cfg, package, s)))
    {
      ok := CheckMethodCollisions(cfg, s.methods);
      if !ok {
        return;
      }
      ok := CheckModuleCollisions(package, s);
      if !ok {
        return;
      }
      return forall m :: m in s.methods ==> cfg.resolves(OrEmpty(m.input)) && cfg.resolves(OrEmpty(m.output));
    }

    /** Emits the services of one file. */
    method GenerateServices(f: ProtoFile) returns (ok: bool)
      requires Valid()
      modifies this`moduleIdents, this`items
      ensures ok ==> Valid() && items == old(items) + FileItems(cfg, f.package, f.services)
      ensures ok ==> forall s :: s in f.services ==> ServiceAcceptable(cfg, f.package, s, rootTypes)
      ensures !ok ==> || (exists s :: s in f.services && !ServiceAcceptable(cfg, f.package, s, rootTypes))
                      || !NoDuplicates(Keys(old(items) + FileItems(cfg, f.package, f.services)))
    {
      hide ServiceItems, ServiceAcceptable;
      var ss := f.services;
      assert items == old(items) + [];
      for i := 0 to |ss|
        invariant Valid() && items == old(items) + FileItems(cfg, f.package, ss[..i])
        invariant forall s :: s in ss[..i] ==> ServiceAcceptable(cfg, f.package, s, rootTypes)
      {
        assert ss[..i + 1][..i] == ss[..i] && ss[..i + 1] == ss[..i] + [ss[i]];
        ghost var before := items;
        ok := GenerateService(f.package, ss[i]);
        if !ok {
          if !NoDuplicates(Keys(before + ServiceItems(cfg, f.package, ss[i]))) {
            assert before + ServiceItems(cfg, f.package, ss[i]) == old(items) + FileItems(cfg, f.package, ss[..i + 1]);
            FileItemsPrefix(cfg, f.package, ss, i + 1);
            DuplicateSpreads(
              old(items) + FileItems(cfg, f.package, ss[..i + 1]), old(items) + FileItems(cfg, f.package, ss));
          }
          return;
        }
        assert items == old(items) + FileItems(cfg, f.package, ss[..i + 1]);
      }
      assert ss[..|ss|] == ss;
      return true;
    }

    /** Emits everything one file contributes. */
    method GenerateConnectServices(f: ProtoFile) returns (ok: bool)
      requires Valid()
      modifies this
      ensures ok ==> Valid() && FileAcceptable(cfg, f, rootTypes)
      ensures ok ==> items == old(items) + FileItems(cfg, f.package, f.services)
      ensures ok ==> aliasSeen == old(aliasSeen) + NewAliases(f.package, ServiceRefs(f.services))
      ensures ok ==> encodableSeen == old(encodableSeen) + Elements(FileDemand(cfg, f))
      ensures !ok ==> || !FileAcceptable(cfg, f, rootTypes)
                      || !NoDuplicates(Keys(old(items) + FileItems(cfg, f.package, f.services)))
    {
      hide ServiceAcceptable, NestedNames, ServiceOutputs, ServiceRefs, FileItems;
      ok := GenerateOwnedViewAliases(f.package, ServiceRefs(f.services));
      if !ok {
        RefsResolve(cfg, f, rootTypes);
        return;
      }
      ok := GenerateEncodableViewImpls(ServiceOutputs(f.services));
      if !ok {
        return;
      }
      if cfg.allMessages {
        ok := RecurseAll(f.messages, Prefix(f.package));
        if !ok {
          return;
        }
      }
      ElementsOfConcat(
        ServiceOutputs(f.services), if cfg.allMessages then NestedNames(f.messages, Prefix(f.package)) else []);
      ok := GenerateServices(f);
    }
  }

  lemma {:induction false} FileItemsPrefix(cfg: Config, package: string, ss: seq<Service>, i: nat)
    requires i <= |ss|
    ensures FileItems(cfg, package, ss[..i]) <= FileItems(cfg, package, ss)
  {
    hide ServiceItems;
    if i < |ss| {
      var n := |ss| - 1;
      FileItemsPrefix(cfg, package, ss[..n], i);
      assert ss[..n][..i] == ss[..i];
    } else {
      assert ss[..i] == ss;
    }
  }

  lemma DuplicateSpreads(a: seq<Item>, b: seq<Item>)
    requires a <= b && !NoDuplicates(Keys(a))
    ensures !NoDuplicates(Keys(b))
  {
    var i, j :| 0 <= i < j < |Keys(a)| && Keys(a)[i] == Keys(a)[j];
    assert Keys(b)[i] == Keys(b)[j];
  }

  /** In an acceptable file every type named by a method resolves. */
  lemma RefsResolve(cfg: Config, f: ProtoFile, root: set<(string, string)>)
    ensures FileAcceptable(cfg, f, root) ==> forall r :: r in ServiceRefs(f.services) ==> cfg.resolves(r)
  {
    forall r | r in ServiceRefs(f.services) && FileAcceptable(cfg, f, root)
      ensures cfg.resolves(r)
    {
      var s, m := RefOrigin(f.services, r);
      assert ServiceAcceptable(cfg, f.package, s, root);
    }
  }

  lemma {:induction false} RefOrigin(ss: seq<Service>, r: string) returns (s: Service, m: RpcMethod)
    requires r in ServiceRefs(ss)
    ensures s in ss && m in s.methods && (m.input == Some(r) || m.output == Some(r))
  {
    var n := |ss| - 1;
    if r in MethodRefs(ss[n].methods) {
      s := ss[n];
      m := MethodOrigin(s.methods, r);
    } else {
      s, m := RefOrigin(ss[..n], r);
    }
  }

  lemma {:induction false} MethodOrigin(ms: seq<RpcMethod>, r: string) returns (m: RpcMethod)
    requires r in MethodRefs(ms)
    ensures m in ms && (m.input == Some(r) || m.output == Some(r))
  {
    var n := |ms| - 1;
    if r in MethodRefs(ms[..n]) {
      m := MethodOrigin(ms[..n], r);
    } else {
      m := ms[n];
    }
  }

  // ----- The whole batch ---------------------------------------------------------------------

  lemma {:induction false} BatchItemsPrefix(cfg: Config, fs: seq<ProtoFile>, i: nat)
    requires i <= |fs|
    ensures BatchItems(cfg, fs[..i]) <= BatchItems(cfg, fs)
  {
    hide FileItems;
    if i < |fs| {
      var n := |fs| - 1;
      BatchItemsPrefix(cfg, fs[..n], i);
      assert fs[..n][..i] == fs[..i];
    } else {
      assert fs[..i] == fs;
    }
  }

  lemma {:induction false} FileTypeOrigin(cfg: Config, package: string, ss: seq<Service>, it: Item) returns (s: Service)
    requires it in FileItems(cfg, package, ss) && it.kind == Type
    ensures s in ss && it.package == package && it.ident in TypeIdents(cfg, s)
  {
    hide TypeIdents, ConstIdents;
    var n := |ss| - 1;
    if it in ServiceItems(cfg, package, ss[n]) {
      s := ss[n];
    } else {
      s := FileTypeOrigin(cfg, package, ss[..n], it);
    }
  }

  lemma {:induction false} TypeOrigin(cfg: Config, fs: seq<ProtoFile>, it: Item) returns (f: ProtoFile, s: Service)
    requires it in BatchItems(cfg, fs) && it.kind == Type
    ensures f in fs && s in f.services && it.package == f.package && it.ident in TypeIdents(cfg, s)
  {
    hide FileItems, TypeIdents;
    var n := |fs| - 1;
    if it in FileItems(cfg, fs[n].package, fs[n].services) {
      f := fs[n];
      s := FileTypeOrigin(cfg, f.package, f.services, it);
    } else {
      f, s := TypeOrigin(cfg, fs[..n], it);
    }
  }

  /** Exactly the referenced messages whose alias nothing else wants have one. */
  ghost predicate AliasesExact(
    cfg: Config, fs: seq<ProtoFile>, root: set<(string, string)>, aliases: seq<(string, string)>)
  {
    && NoDuplicates(aliases)
    && forall p, fqn :: (p, fqn) in aliases <==>
         Referenced(fs, p, fqn) && !Contested(cfg, fs, p, Alias(cfg, fqn)) && (p, Alias(cfg, fqn)) !in root
  }

  /** Exactly the demanded local messages have an `Encodable` pair, and exactly one. */
  ghost predicate ImplsExact(cfg: Config, fs: seq<ProtoFile>, impls: seq<string>) {
    && NoDuplicates(impls)
    && forall fqn :: fqn in impls <==> Demanded(cfg, fs, fqn) && !cfg.foreign(fqn)
  }

  lemma NoCollisions(cfg: Config, fs: seq<ProtoFile>, root: set<(string, string)>, e: Emitted)
    requires Acceptable(cfg, fs, root)
    requires e.items == BatchItems(cfg, fs)
    requires AliasesExact(cfg, fs, root, e.aliases)
    ensures CollisionFree(cfg, e, root)
  {
    hide Alias, TypeIdents, BatchItems, Referenced;
    var ks := AliasKeys(cfg, e.aliases);
    forall i, j | 0 <= i < j < |ks|
      ensures ks[i] != ks[j]
    {
      var (p, a) := e.aliases[i];
      var (q, b) := e.aliases[j];
      assert (p, a) in e.aliases && (q, b) in e.aliases;
      assert (p, a) != (q, b);
    }
    forall it | it in e.items && it.kind == Type
      ensures it.Key() !in root && IsServiceType(cfg, fs, it.package, it.ident)
    {
      var f, s := TypeOrigin(cfg, fs, it);
      assert FileAcceptable(cfg, f, root);
      assert ServiceAcceptable(cfg, f.package, s, root);
    }
  }

  /**
    Runs the generator over a batch. It accepts exactly the batches in which nothing collides, and
    then no module gets two items of one name.
   */
  method EmitServiceFiles(cfg: Config, files: seq<ProtoFile>, names: seq<string>) returns (r: Option<Emitted>)
    ensures var fs, root := Selected(files, names), RootTypes(cfg, Decls(files, names));
            && (r.Some? <==> Acceptable(cfg, fs, root))
            && (r.Some? ==>
                && r.value.items == BatchItems(cfg, fs)
                && ItemsExact(cfg, fs, r.value.items)
                && CollisionFree(cfg, r.value, root)
                && AliasesExact(cfg, fs, root, r.value.aliases)
                && ImplsExact(cfg, fs, r.value.impls))
  {
    var fs := Selected(files, names);
    var colliding := CodegenBatch.CollectAliasCollisions(cfg, fs);
    var root := CodegenBatch.BuffaRootTypes(cfg, files, names);
    var batch := new BatchState(cfg, colliding, root);
    for i := 0 to |fs|
      invariant batch.Valid()
      invariant batch.items == BatchItems(cfg, fs[..i])
      invariant forall f :: f in fs[..i] ==> FileAcceptable(cfg, f, root)
      invariant batch.aliasSeen == AllAliases(batch, fs[..i])
      invariant batch.encodableSeen == AllDemand(cfg, fs[..i])
    {
      hide *;
      var f := fs[i];
      ghost var before := batch.items;
      OneMoreFile(batch, fs, i);
      if f.services != [] || (cfg.allMessages && f.messages != []) {
        var ok := batch.GenerateConnectServices(f);
        if !ok {
          Rejected(cfg, fs, i, root);
          return None;
        }
      } else {
        NothingToEmit(batch, f, root);
        assert batch.items + [] == batch.items;
      }
    }
    assert fs[..|fs|] == fs;
    var e := Emitted(batch.items, batch.aliases, batch.impls);
    ExactAliases(batch, fs, batch.aliases);
    ExactImpls(cfg, fs, batch.encodableSeen, batch.impls);
    CodegenNames.BatchItemsExact(cfg, fs);
    NoCollisions(cfg, fs, root, e);
    return Some(e);
  }

  function AllAliases(batch: BatchState, fs: seq<ProtoFile>): set<(string, string)> {
    set f, r | f in fs && r in ServiceRefs(f.services) && !batch.AliasCollides(f.package, r) :: (f.package, r)
  }

  function AllDemand(cfg: Config, fs: seq<ProtoFile>): set<string> {
    set f, r | f in fs && r in FileDemand(cfg, f) :: r
  }

  lemma OneMoreFile(batch: BatchState, fs: seq<ProtoFile>, i: nat)
    requires i < |fs|
    ensures fs[..i + 1] == fs[..i] + [fs[i]]
    ensures BatchItems(batch.cfg, fs[..i + 1]) ==
            BatchItems(batch.cfg, fs[..i]) + FileItems(batch.cfg, fs[i].package, fs[i].services)
    ensures AllAliases(batch, fs[..i + 1]) ==
            AllAliases(batch, fs[..i]) + batch.NewAliases(fs[i].package, ServiceRefs(fs[i].services))
    ensures AllDemand(batch.cfg, fs[..i + 1]) == AllDemand(batch.cfg, fs[..i]) + Elements(FileDemand(batch.cfg, fs[i]))
  {
    hide FileDemand, ServiceRefs, FileItems;
    assert fs[..i + 1][..i] == fs[..i];
    assert fs[..i + 1] == fs[..i] + [fs[i]];
  }

  lemma NothingToEmit(batch: BatchState, f: ProtoFile, root: set<(string, string)>)
    requires f.services == [] && (batch.cfg.allMessages ==> f.messages == [])
    ensures FileAcceptable(batch.cfg, f, root) && FileItems(batch.cfg, f.package, f.services) == []
    ensures batch.NewAliases(f.package, ServiceRefs(f.services)) == {}
    ensures Elements(FileDemand(batch.cfg, f)) == {}
  {
  }

  lemma Rejected(cfg: Config, fs: seq<ProtoFile>, i: nat, root: set<(string, string)>)
    requires i < |fs|
    requires || !FileAcceptable(cfg, fs[i], root)
             || !NoDuplicates(Keys(BatchItems(cfg, fs[..i]) + FileItems(cfg, fs[i].package, fs[i].services)))
    ensures !Acceptable(cfg, fs, root)
  {
    hide FileItems, FileAcceptable;
    if FileAcceptable(cfg, fs[i], root) {
      assert fs[..i + 1][..i] == fs[..i];
      BatchItemsPrefix(cfg, fs, i + 1);
      DuplicateSpreads(BatchItems(cfg, fs[..i + 1]), BatchItems(cfg, fs));
    }
  }

  lemma ExactAliases(batch: BatchState, fs: seq<ProtoFile>, aliases: seq<(string, string)>)
    requires NoDuplicates(aliases) && Elements(aliases) == AllAliases(batch, fs)
    requires forall k :: k in batch.collidingAliases <==> Contested(batch.cfg, fs, k.0, k.1)
    ensures AliasesExact(batch.cfg, fs, batch.rootTypes, aliases)
  {
    hide Alias, Contested, ServiceRefs, NamedByMethod;
    forall f, fqn | f in fs
      ensures fqn in ServiceRefs(f.services) <==> NamedByMethod(f.services, fqn)
    {
      CodegenNames.ServiceRefsNamed(f.services, fqn);
    }
    forall p, fqn
      ensures (p, fqn) in aliases <==>
         && Referenced(fs, p, fqn)
         && !Contested(batch.cfg, fs, p, Alias(batch.cfg, fqn))
         && (p, Alias(batch.cfg, fqn)) !in batch.rootTypes
    {
      var alias := Alias(batch.cfg, fqn);
      assert (p, fqn) in aliases <==> (p, fqn) in Elements(aliases);
      assert Contested(batch.cfg, fs, p, alias) <==> (p, alias) in batch.collidingAliases;
    }
  }

  lemma ExactImpls(cfg: Config, fs: seq<ProtoFile>, seen: set<string>, impls: seq<string>)
    requires NoDuplicates(impls) && Elements(impls) == (set f | f in seen && !cfg.foreign(f))
    requires seen == AllDemand(cfg, fs)
    ensures ImplsExact(cfg, fs, impls)
  {
    hide FileDemand, ReturnedByMethod, DefinedIn;
    forall f, fqn | f in fs
      ensures fqn in FileDemand(cfg, f) <==>
              ReturnedByMethod(f.services, fqn) || (cfg.allMessages && DefinedIn(f, fqn))
    {
      CodegenNames.DemandNamed(cfg, f, fqn);
    }
    forall fqn
      ensures fqn in impls <==> Demanded(cfg, fs, fqn) && !cfg.foreign(fqn)
    {
      assert fqn in impls <==> fqn in Elements(impls);
    }
  }
}
