/**
  The two pre-passes and the stateful main pass of connectrpc-codegen/src/codegen.rs over a batch of
  proto files. An accepted batch never emits two items of one name into one module, and exactly the
  batches without a collision are accepted.
 */
module CodegenBatch {
  import opened Options
  import opened Sequences
  import opened CodegenModel
  import CodegenNames

  // ----- Pre-pass: contested aliases ---------------------------------------------------------

  /** References and service types met so far by the pre-pass. */
  ghost predicate AliasScan(
    cfg: Config, refs: set<(string, string)>, types: set<(string, string)>,
    firstSeen: map<(string, string), string>, colliding: set<(string, string)>)
  {
    && (forall k :: k in firstSeen ==> (k.0, firstSeen[k]) in refs && Alias(cfg, firstSeen[k]) == k.1)
    && (forall r :: r in refs ==> (r.0, Alias(cfg, r.1)) in firstSeen)
    && (forall k :: k in colliding <==> k in types || Shared(cfg, refs, k))
  }

  ghost predicate Shared(cfg: Config, refs: set<(string, string)>, k: (string, string)) {
    exists a, b :: a in refs && b in refs && a != b && a.0 == b.0 == k.0
                   && Alias(cfg, a.1) == k.1 && Alias(cfg, b.1) == k.1
  }

  /** One more reference shares its alias exactly with the earlier references of that alias. */
  lemma SharedAfter(cfg: Config, refs: set<(string, string)>, r: (string, string), k: (string, string))
    ensures Shared(cfg, refs + {r}, k) <==>
            || Shared(cfg, refs, k)
            || (k == (r.0, Alias(cfg, r.1)) && exists a :: a in refs && a != r && a.0 == k.0 && Alias(cfg, a.1) == k.1)
  {
    hide Alias;
    var refs' := refs + {r};
    if Shared(cfg, refs, k) {
      var a, b :| a in refs && b in refs && a != b && a.0 == b.0 == k.0
                  && Alias(cfg, a.1) == k.1 && Alias(cfg, b.1) == k.1;
      assert a in refs' && b in refs';
    } else if Shared(cfg, refs', k) {
      var a, b :| a in refs' && b in refs' && a != b && a.0 == b.0 == k.0
                  && Alias(cfg, a.1) == k.1 && Alias(cfg, b.1) == k.1;
      assert a == r || b == r;
    }
    if k == (r.0, Alias(cfg, r.1)) && exists a :: a in refs && a != r && a.0 == k.0 && Alias(cfg, a.1) == k.1 {
      var a :| a in refs && a != r && a.0 == k.0 && Alias(cfg, a.1) == k.1;
      assert a in refs' && r in refs';
    }
  }

  method NoteReference(
    cfg: Config, r: (string, string), ghost refs: set<(string, string)>, ghost types: set<(string, string)>,
    firstSeen: map<(string, string), string>, colliding: set<(string, string)>)
    returns (firstSeen': map<(string, string), string>, colliding': set<(string, string)>)
    requires AliasScan(cfg, refs, types, firstSeen, colliding)
    ensures AliasScan(cfg, refs + {r}, types, firstSeen', colliding')
  {
    hide Alias, Shared;
    firstSeen', colliding' := firstSeen, colliding;
    var key := (r.0, Alias(cfg, r.1));
    ghost var refs' := refs + {r};
    if key in firstSeen {
      if firstSeen[key] != r.1 {
        colliding' := colliding' + {key};
        assert (r.0, firstSeen[key]) in refs;
      } else {
        assert r in refs && refs' == refs;
      }
    } else {
      firstSeen' := firstSeen'[key := r.1];
    }
    forall k
      ensures k in colliding' <==> k in types || Shared(cfg, refs', k)
    {
      SharedAfter(cfg, refs, r, k);
    }
  }

  function RefsOf(fs: seq<ProtoFile>): set<(string, string)> {
    set f, r | f in fs && r in ServiceRefs(f.services) :: (f.package, r)
  }

  function TypesOf(cfg: Config, fs: seq<ProtoFile>): set<(string, string)> {
    set f, s, t | f in fs && s in f.services && t in TypeIdents(cfg, s) :: (f.package, t)
  }

  function RefsHere(package: string, named: seq<string>): set<(string, string)> {
    set r | r in named :: (package, r)
  }

  function TypesHere(cfg: Config, f: ProtoFile): set<(string, string)> {
    set s, t | s in f.services && t in TypeIdents(cfg, s) :: (f.package, t)
  }

  lemma ScanOneMore(cfg: Config, fs: seq<ProtoFile>, f: ProtoFile)
    ensures RefsOf(fs + [f]) == RefsOf(fs) + RefsHere(f.package, ServiceRefs(f.services))
    ensures TypesOf(cfg, fs + [f]) == TypesOf(cfg, fs) + TypesHere(cfg, f)
  {
  }

  lemma ScanTypes(
    cfg: Config, refs: set<(string, string)>, types: set<(string, string)>, more: set<(string, string)>,
    firstSeen: map<(string, string), string>, colliding: set<(string, string)>)
    requires AliasScan(cfg, refs, types, firstSeen, colliding)
    ensures AliasScan(cfg, refs, types + more, firstSeen, colliding + more)
  {
    hide Alias, Shared;
  }

  method ScanFile(
    cfg: Config, f: ProtoFile, ghost refs: set<(string, string)>, ghost types: set<(string, string)>,
    firstSeen: map<(string, string), string>, colliding: set<(string, string)>)
    returns (firstSeen': map<(string, string), string>, colliding': set<(string, string)>)
    requires AliasScan(cfg, refs, types, firstSeen, colliding)
    ensures AliasScan(
              cfg, refs + RefsHere(f.package, ServiceRefs(f.services)), types + TypesHere(cfg, f),
              firstSeen', colliding')
  {
    hide AliasScan, TypesHere, ServiceRefs;
    firstSeen', colliding' := firstSeen, colliding + TypesHere(cfg, f);
    var named := ServiceRefs(f.services);
    ghost var types' := types + TypesHere(cfg, f);
    ScanTypes(cfg, refs, types, TypesHere(cfg, f), firstSeen, colliding);
    assert refs + RefsHere(f.package, named[..0]) == refs;
    for j := 0 to |named|
      invariant AliasScan(cfg, refs + RefsHere(f.package, named[..j]), types', firstSeen', colliding')
    {
      ghost var met := refs + RefsHere(f.package, named[..j]);
      firstSeen', colliding' := NoteReference(cfg, (f.package, named[j]), met, types', firstSeen', colliding');
      assert named[..j + 1] == named[..j] + [named[j]];
      assert met + {(f.package, named[j])} == refs + RefsHere(f.package, named[..j + 1]);
    }
    assert named[..|named|] == named;
  }

  /** The `(package, alias)` pairs that no alias may be emitted for. */
  method CollectAliasCollisions(cfg: Config, fs: seq<ProtoFile>) returns (colliding: set<(string, string)>)
    ensures forall k :: k in colliding <==> Contested(cfg, fs, k.0, k.1)
  {
    hide RefsHere, TypesHere, Contested, Shared, Alias;
    var firstSeen: map<(string, string), string> := map[];
    colliding := {};
    EmptyScan(cfg);
    for i := 0 to |fs|
      invariant AliasScan(cfg, RefsOf(fs[..i]), TypesOf(cfg, fs[..i]), firstSeen, colliding)
    {
      assert fs[..i + 1] == fs[..i] + [fs[i]];
      ScanOneMore(cfg, fs[..i], fs[i]);
      firstSeen, colliding := ScanFile(cfg, fs[i], RefsOf(fs[..i]), TypesOf(cfg, fs[..i]), firstSeen, colliding);
    }
    assert fs[..|fs|] == fs;
    forall k
      ensures k in colliding <==> Contested(cfg, fs, k.0, k.1)
    {
      ContestedIsShared(cfg, fs, k);
    }
  }

  lemma EmptyScan(cfg: Config)
    ensures RefsOf([]) == {} && TypesOf(cfg, []) == {} && AliasScan(cfg, {}, {}, map[], {})
  {
  }

  lemma ContestedIsShared(cfg: Config, fs: seq<ProtoFile>, k: (string, string))
    ensures Contested(cfg, fs, k.0, k.1) <==> k in TypesOf(cfg, fs) || Shared(cfg, RefsOf(fs), k)
  {
    hide Referenced, RefsOf, ServiceRefs, Alias;
    forall fqn
      ensures (k.0, fqn) in RefsOf(fs) <==> Referenced(fs, k.0, fqn)
    {
      ReferencedIsRef(fs, k.0, fqn);
    }
    if Shared(cfg, RefsOf(fs), k) {
      var a, b :| a in RefsOf(fs) && b in RefsOf(fs) && a != b && a.0 == b.0 == k.0
                  && Alias(cfg, a.1) == k.1 && Alias(cfg, b.1) == k.1;
      assert (k.0, a.1) == a && (k.0, b.1) == b;
    }
    if !IsServiceType(cfg, fs, k.0, k.1) && Contested(cfg, fs, k.0, k.1) {
      var a, b :| a != b && Alias(cfg, a) == k.1 && Alias(cfg, b) == k.1
                  && Referenced(fs, k.0, a) && Referenced(fs, k.0, b);
      assert (k.0, a) in RefsOf(fs) && (k.0, b) in RefsOf(fs);
    }
  }

  lemma ReferencedIsRef(fs: seq<ProtoFile>, package: string, fqn: string)
    ensures (package, fqn) in RefsOf(fs) <==> Referenced(fs, package, fqn)
  {
    hide ServiceRefs, NamedByMethod;
    forall f | f in fs
      ensures fqn in ServiceRefs(f.services) <==> NamedByMethod(f.services, fqn)
    {
      CodegenNames.ServiceRefsNamed(f.services, fqn);
    }
  }

  // ----- Pre-pass: root types ----------------------------------------------------------------

  /** Whether each view name has one claimant so far, or more. */
  ghost predicate ViewTally(claims: seq<(string, string)>, views: map<(string, string), bool>) {
    && (forall v :: v in views <==> v in claims)
    && (forall v :: v in views ==> (views[v] <==> multiset(claims)[v] == 1))
  }

  method TallyViews(
    names: seq<(string, string)>, ghost claims: seq<(string, string)>, views: map<(string, string), bool>)
    returns (views': map<(string, string), bool>)
    requires ViewTally(claims, views)
    ensures ViewTally(claims + names, views')
  {
    views' := views;
    assert claims + names[..0] == claims;
    for i := 0 to |names|
      invariant ViewTally(claims + names[..i], views')
    {
      ghost var before := claims + names[..i];
      assert claims + names[..i + 1] == before + [names[i]];
      assert multiset(before)[names[i]] > 0 <==> names[i] in before;
      views' := views'[names[i] := names[i] !in views'];
    }
    assert names[..|names|] == names;
  }

  method DeclareAll(
    cfg: Config, ds: seq<Decl>, ghost before: seq<Decl>, root: set<(string, string)>,
    views: map<(string, string), bool>)
    returns (root': set<(string, string)>, views': map<(string, string), bool>)
    requires root == Declared(cfg, before) && ViewTally(Claims(cfg, before), views)
    ensures root' == Declared(cfg, before + ds) && ViewTally(Claims(cfg, before + ds), views')
  {
    hide ViewNames, RustName, ViewTally;
    root', views' := root, views;
    assert before + ds[..0] == before;
    for j := 0 to |ds|
      invariant root' == Declared(cfg, before + ds[..j])
      invariant ViewTally(Claims(cfg, before + ds[..j]), views')
    {
      ghost var met := before + ds[..j];
      assert before + ds[..j + 1] == met + [ds[j]];
      assert (met + [ds[j]])[..|met|] == met;
      views' := TallyViews(ViewNames(cfg, ds[j]), Claims(cfg, met), views');
      root' := root' + {RustName(cfg, ds[j])};
      assert Declared(cfg, met + [ds[j]]) == Declared(cfg, met) + {RustName(cfg, ds[j])};
    }
    assert ds[..|ds|] == ds;
  }

  lemma RootFromTally(cfg: Config, ds: seq<Decl>, views: map<(string, string), bool>)
    requires !cfg.requireExtern && ViewTally(Claims(cfg, ds), views)
    ensures Declared(cfg, ds) + (set v | v in views && views[v]) == RootTypes(cfg, ds)
  {
    hide Declared, Claims;
  }

  lemma DeclsOneMore(files: seq<ProtoFile>, f: ProtoFile, names: seq<string>)
    ensures Decls(files + [f], names) ==
            Decls(files, names) + if f.name.Some? && f.name.value in names then FileDecls(f) else []
  {
    assert (files + [f])[..|files|] == files;
  }

  /** The names buffa puts at the root of each package's module. */
  method BuffaRootTypes(cfg: Config, files: seq<ProtoFile>, names: seq<string>) returns (root: set<(string, string)>)
    ensures root == RootTypes(cfg, Decls(files, names))
  {
    root := {};
    if cfg.requireExtern {
      return;
    }
    var views: map<(string, string), bool> := map[];
    NoDecls(cfg, names);
    hide *;
    for i := 0 to |files|
      invariant root == Declared(cfg, Decls(files[..i], names))
      invariant ViewTally(Claims(cfg, Decls(files[..i], names)), views)
    {
      assert files[..i + 1] == files[..i] + [files[i]];
      root, views := DeclareFile(cfg, files[i], names, files[..i], root, views);
    }
    assert files[..|files|] == files;
    RootFromTally(cfg, Decls(files, names), views);
    root := root + set v | v in views && views[v];
  }

  method DeclareFile(
    cfg: Config, f: ProtoFile, names: seq<string>, ghost before: seq<ProtoFile>, root: set<(string, string)>,
    views: map<(string, string), bool>)
    returns (root': set<(string, string)>, views': map<(string, string), bool>)
    requires root == Declared(cfg, Decls(before, names)) && ViewTally(Claims(cfg, Decls(before, names)), views)
    ensures root' == Declared(cfg, Decls(before + [f], names))
    ensures ViewTally(Claims(cfg, Decls(before + [f], names)), views')
  {
    hide *;
    root', views' := root, views;
    ghost var declared := Decls(before, names);
    DeclsOneMore(before, f, names);
    if f.name.Some? && f.name.value in names {
      root', views' := DeclareAll(cfg, FileDecls(f), declared, root, views);
    } else {
      assert declared + [] == declared;
    }
  }

  lemma NoDecls(cfg: Config, names: seq<string>)
    ensures Declared(cfg, Decls([], names)) == {} && ViewTally(Claims(cfg, Decls([], names)), map[])
  {
  }

  /** The order of files, and of the declarations in them, does not matter. */
  lemma RootTypesOrderIndependent(cfg: Config, a: seq<Decl>, b: seq<Decl>)
    requires multiset(a) == multiset(b)
    ensures RootTypes(cfg, a) == RootTypes(cfg, b)
  {
    forall d
      ensures d in a <==> d in b
    {
      assert d in multiset(a) <==> d in multiset(b);
    }
    ClaimsOrderIndependent(cfg, a, b);
    var ca, cb := Claims(cfg, a), Claims(cfg, b);
    forall v
      ensures v in ca <==> v in cb
    {
      assert v in multiset(ca) <==> v in multiset(cb);
    }
  }

  lemma {:induction false} ClaimsOfConcat(cfg: Config, a: seq<Decl>, b: seq<Decl>)
    ensures Claims(cfg, a + b) == Claims(cfg, a) + Claims(cfg, b)
  {
    if b == [] {
      assert a + b == a;
    } else {
      var n := |b| - 1;
      assert (a + b)[..|a| + n] == a + b[..n];
      ClaimsOfConcat(cfg, a, b[..n]);
    }
  }

  lemma ClaimsWithout(cfg: Config, b: seq<Decl>, i: nat)
    requires i < |b|
    ensures multiset(Claims(cfg, b)) == multiset(Claims(cfg, b[..i] + b[i + 1..])) + multiset(ViewNames(cfg, b[i]))
  {
    hide ViewNames;
    ClaimsOfConcat(cfg, b[..i], b[i + 1..]);
    assert b == b[..i + 1] + b[i + 1..];
    assert b[..i + 1][..i] == b[..i];
    assert Claims(cfg, b[..i + 1]) == Claims(cfg, b[..i]) + ViewNames(cfg, b[i]);
    hide Claims;
    ClaimsOfConcat(cfg, b[..i + 1], b[i + 1..]);
  }

  lemma {:induction false} ClaimsOrderIndependent(cfg: Config, a: seq<Decl>, b: seq<Decl>)
    requires multiset(a) == multiset(b)
    ensures multiset(Claims(cfg, a)) == multiset(Claims(cfg, b))
    decreases |a|
  {
    if a == [] {
      assert |multiset(b)| == 0;
      assert b == [];
    } else {
      var x := a[|a| - 1];
      assert x in multiset(b);
      var i :| 0 <= i < |b| && b[i] == x;
      RemoveOne(a, b, i);
      ClaimsOrderIndependent(cfg, a[..|a| - 1], b[..i] + b[i + 1..]);
      ClaimsWithout(cfg, b, i);
    }
  }
}
