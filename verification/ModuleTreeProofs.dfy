/** The printed module tree denotes exactly the entries it was built from. */
module ModuleTreeProofs {
  import opened Options
  import opened Sequences
  import opened Text
  import opened ModuleTree

  // ----- One insertion -----------------------------------------------------------------------

  function Added(base: seq<string>, path: seq<string>, file: string, q: seq<string>): seq<string> {
    if q == base + path then [file] else []
  }

  /** Other submodules have nothing at or below the module named `x`. */
  lemma SiblingsHaveNothing(cs: seq<Child>, base: seq<string>, x: string, q: seq<string>)
    requires base + [x] <= q
    requires forall i :: 0 <= i < |cs| ==> cs[i].name != x
    ensures FilesAt(EntriesBelow(cs, base), q) == []
  {
    forall i | 0 <= i < |cs|
      ensures !(base + [cs[i].name] <= q)
    {
      assert cs[i].name != x;
      assert q[|base|] == (base + [x])[|base|];
    }
    NothingBelow(cs, base, q);
  }

  lemma PathCons(base: seq<string>, path: seq<string>)
    requires path != []
    ensures base + path == base + [path[0]] + path[1..]
    ensures base + [path[0]] <= base + path
  {
    assert path == [path[0]] + path[1..];
    Associate(base, [path[0]], path[1..]);
  }

  lemma OwnFiles(n: Node, base: seq<string>, q: seq<string>)
    ensures FilesAt(EntriesAt(n, base), q) ==
            (if base == q then n.files else []) + FilesAt(EntriesBelow(n.children, base), q)
  {
    FilesOfModule(n.files, base, q);
    FilesOfConcat(FileEntries(n.files, base), EntriesBelow(n.children, base), q);
  }

  lemma ChildrenAreDeeper(cs: seq<Child>, base: seq<string>)
    ensures FilesAt(EntriesBelow(cs, base), base) == []
  {
    NothingBelow(cs, base, base);
  }

  /** Inserting adds one file at the end of its module, and nothing anywhere else. */
  lemma {:induction false} FilesOfInsert(
    n: Node, path: seq<string>, file: string, base: seq<string>, q: seq<string>)
    requires Ordered(n)
    ensures FilesAt(EntriesAt(Insert(n, path, file), base), q) ==
            FilesAt(EntriesAt(n, base), q) + Added(base, path, file, q)
    decreases |path|, 1, 0
  {
    hide EntriesAt, FilesAt;
    OwnFiles(n, base, q);
    OwnFiles(Insert(n, path, file), base, q);
    if path == [] {
      assert base + path == base;
      if q == base {
        ChildrenAreDeeper(n.children, base);
      }
    } else {
      FilesOfInsertBelow(n.children, path, file, base, q);
    }
  }

  lemma BelowCons(c: Child, cs: seq<Child>, base: seq<string>, q: seq<string>)
    ensures FilesAt(EntriesBelow([c] + cs, base), q) ==
            FilesAt(EntriesAt(c.node, base + [c.name]), q) + FilesAt(EntriesBelow(cs, base), q)
  {
    hide EntriesAt;
    assert ([c] + cs)[1..] == cs;
    FilesOfConcat(EntriesAt(c.node, base + [c.name]), EntriesBelow(cs, base), q);
  }

  lemma NothingInEmpty(base: seq<string>, q: seq<string>)
    ensures FilesAt(EntriesAt(EMPTY, base), q) == []
  {
    OwnFiles(EMPTY, base, q);
  }

  lemma {:induction false} FilesOfInsertBelow(
    cs: seq<Child>, path: seq<string>, file: string, base: seq<string>, q: seq<string>)
    requires path != [] && OrderedBelow(cs)
    ensures FilesAt(EntriesBelow(InsertBelow(cs, path, file), base), q) ==
            FilesAt(EntriesBelow(cs, base), q) + Added(base, path, file, q)
    decreases |path|, 0, |cs|
  {
    hide EntriesAt, FilesAt, EntriesBelow, Less;
    var x := path[0];
    var p := base + [x];
    PathCons(base, path);
    if cs == [] || Less(x, cs[0].name) {
      FilesOfInsert(EMPTY, path[1..], file, p, q);
      NothingInEmpty(p, q);
      BelowCons(Child(x, Insert(EMPTY, path[1..], file)), cs, base, q);
      if p <= q {
        NamesAfter(cs, x);
        SiblingsHaveNothing(cs, base, x, q);
      }
    } else if cs[0].name == x {
      var rest := cs[1..];
      assert cs == [cs[0]] + rest;
      FilesOfInsert(cs[0].node, path[1..], file, p, q);
      BelowCons(cs[0], rest, base, q);
      BelowCons(Child(x, Insert(cs[0].node, path[1..], file)), rest, base, q);
      if p <= q {
        NamesBehind(cs);
        SiblingsHaveNothing(rest, base, x, q);
      }
    } else {
      var rest := cs[1..];
      assert cs == [cs[0]] + rest;
      FilesOfInsertBelow(rest, path, file, base, q);
      BelowCons(cs[0], rest, base, q);
      BelowCons(cs[0], InsertBelow(rest, path, file), base, q);
    }
  }

  lemma NamesAfter(cs: seq<Child>, x: string)
    requires OrderedBelow(cs) && (cs == [] || Less(x, cs[0].name))
    ensures forall i :: 0 <= i < |cs| ==> cs[i].name != x
  {
    hide Less;
    forall i | 0 <= i < |cs|
      ensures cs[i].name != x
    {
      if i > 0 {
        LessIsTransitive(x, cs[0].name, cs[i].name);
      }
      LessIsTotal(x, cs[i].name);
    }
  }

  lemma NamesBehind(cs: seq<Child>)
    requires OrderedBelow(cs) && cs != []
    ensures forall i :: 0 <= i < |cs[1..]| ==> cs[1..][i].name != cs[0].name
  {
    hide Less;
    forall i | 0 <= i < |cs[1..]|
      ensures cs[1..][i].name != cs[0].name
    {
      LessIsTotal(cs[0].name, cs[i + 1].name);
    }
  }

  // ----- Modules are opened once -------------------------------------------------------------

  /** Everything opened below `path` lies strictly below it, through one of the given names. */
  lemma {:induction false} OpenedThrough(cs: seq<Child>, path: seq<string>, p: seq<string>) returns (i: nat)
    requires p in OpenedAt(cs, path)
    ensures i < |cs| && path + [cs[i].name] <= p
    decreases cs
  {
    var q := path + [cs[0].name];
    if p == q {
      i := 0;
    } else if p in OpenedAt(cs[0].node.children, q) {
      var j := OpenedThrough(cs[0].node.children, q, p);
      assert q == (q + [cs[0].node.children[j].name])[..|q|];
      i := 0;
    } else {
      var j := OpenedThrough(cs[1..], path, p);
      i := j + 1;
    }
  }

  lemma ConcatNoDuplicates<T>(a: seq<T>, b: seq<T>)
    requires NoDuplicates(a) && NoDuplicates(b) && forall x :: x in a ==> x !in b
    ensures NoDuplicates(a + b)
  {
    forall i, j | 0 <= i < j < |a + b|
      ensures (a + b)[i] != (a + b)[j]
    {
      if i < |a| <= j {
        assert (a + b)[i] in a && (a + b)[j] in b;
      }
    }
  }

  lemma {:induction false} OpenedOnce(cs: seq<Child>, path: seq<string>)
    requires OrderedBelow(cs)
    ensures NoDuplicates(OpenedAt(cs, path))
    decreases cs
  {
    hide Less;
    if cs != [] {
      var q := path + [cs[0].name];
      var below, after := OpenedAt(cs[0].node.children, q), OpenedAt(cs[1..], path);
      OpenedOnce(cs[0].node.children, q);
      OpenedOnce(cs[1..], path);
      forall p | p in below
        ensures p != q && q <= p
      {
        var j := OpenedThrough(cs[0].node.children, q, p);
        assert q == (q + [cs[0].node.children[j].name])[..|q|];
      }
      ConcatNoDuplicates([q], below);
      forall p | p in [q] + below
        ensures p !in after
      {
        if p in after {
          var j := OpenedThrough(cs[1..], path, p);
          NamesBehind(cs);
          SameName(path, cs[0].name, cs[1..][j].name, p);
        }
      }
      ConcatNoDuplicates([q] + below, after);
    }
  }

  lemma SameName(path: seq<string>, x: string, y: string, p: seq<string>)
    requires path + [x] <= p && path + [y] <= p
    ensures x == y
  {
    assert p[|path|] == (path + [x])[|path|] == (path + [y])[|path|];
  }

  // ----- Which modules are opened ------------------------------------------------------------

  /** A module on the way from `base` down `path`, `base` itself aside. */
  predicate OnWay(base: seq<string>, path: seq<string>, p: seq<string>) {
    |base| < |p| && p <= base + path
  }

  lemma OnWayCons(base: seq<string>, path: seq<string>, p: seq<string>)
    requires path != []
    ensures OnWay(base, path, p) <==> p == base + [path[0]] || OnWay(base + [path[0]], path[1..], p)
  {
    PathCons(base, path);
    var b := base + [path[0]];
    if OnWay(base, path, p) && |p| == |b| {
      assert p == (base + path)[..|b|] == b;
    }
  }

  lemma OpenedCons(c: Child, cs: seq<Child>, base: seq<string>, p: seq<string>)
    ensures p in OpenedAt([c] + cs, base) <==>
            || p == base + [c.name]
            || p in OpenedAt(c.node.children, base + [c.name])
            || p in OpenedAt(cs, base)
  {
    assert ([c] + cs)[1..] == cs;
  }

  /** Inserting opens the modules on the way, and keeps all others. */
  lemma {:induction false} OpenedOfInsert(n: Node, path: seq<string>, file: string, base: seq<string>, p: seq<string>)
    ensures p in OpenedAt(Insert(n, path, file).children, base) <==>
            p in OpenedAt(n.children, base) || OnWay(base, path, p)
    decreases |path|, 1, 0
  {
    hide OpenedAt;
    if path == [] {
      assert base + path == base;
    } else {
      OpenedOfInsertBelow(n.children, path, file, base, p);
    }
  }

  lemma {:induction false} OpenedOfInsertBelow(
    cs: seq<Child>, path: seq<string>, file: string, base: seq<string>, p: seq<string>)
    requires path != []
    ensures p in OpenedAt(InsertBelow(cs, path, file), base) <==> p in OpenedAt(cs, base) || OnWay(base, path, p)
    decreases |path|, 0, |cs|
  {
    hide OpenedAt, OnWay, Less;
    var b := base + [path[0]];
    OnWayCons(base, path, p);
    if cs == [] || Less(path[0], cs[0].name) {
      OpenedOfInsert(EMPTY, path[1..], file, b, p);
      OpenedCons(Child(path[0], Insert(EMPTY, path[1..], file)), cs, base, p);
      NothingOpened(b);
    } else {
      var rest := cs[1..];
      assert cs == [cs[0]] + rest;
      OpenedCons(cs[0], rest, base, p);
      if cs[0].name == path[0] {
        OpenedOfInsert(cs[0].node, path[1..], file, b, p);
        OpenedCons(Child(path[0], Insert(cs[0].node, path[1..], file)), rest, base, p);
      } else {
        OpenedOfInsertBelow(rest, path, file, base, p);
        OpenedCons(cs[0], InsertBelow(rest, path, file), base, p);
      }
    }
  }

  lemma NothingOpened(base: seq<string>)
    ensures OpenedAt(EMPTY.children, base) == []
  {
  }

  /** A package of the entries, or one of its ancestors. */
  ghost predicate IsModulePath(es: seq<(string, string)>, p: seq<string>) {
    p != [] && exists i :: 0 <= i < |es| && p <= Segments(es[i].1)
  }

  /** The modules of the tree are exactly the packages and their ancestors. */
  lemma {:induction false} OpenedInBuilt(es: seq<(string, string)>, p: seq<string>)
    ensures p in OpenedAt(Built(es).children, []) <==> IsModulePath(es, p)
    decreases |es|
  {
    hide Segments, OpenedAt, Insert;
    if es == [] {
      NothingOpened([]);
    } else {
      var n := |es| - 1;
      OpenedInBuilt(es[..n], p);
      OpenedOfInsert(Built(es[..n]), Segments(es[n].1), es[n].0, [], p);
      assert [] + Segments(es[n].1) == Segments(es[n].1);
      ModulePathsOneMore(es, p);
    }
  }

  lemma ModulePathsOneMore(es: seq<(string, string)>, p: seq<string>)
    requires es != []
    ensures var n := |es| - 1;
            IsModulePath(es, p) <==> IsModulePath(es[..n], p) || (p != [] && p <= Segments(es[n].1))
  {
    hide Segments;
    var n := |es| - 1;
    if IsModulePath(es[..n], p) {
      var i :| 0 <= i < n && p <= Segments(es[..n][i].1);
      assert p <= Segments(es[i].1);
    }
    if IsModulePath(es, p) {
      var i :| 0 <= i < |es| && p <= Segments(es[i].1);
      if i < n {
        assert p <= Segments(es[..n][i].1);
      }
    }
  }

  // ----- What is included where --------------------------------------------------------------

  /** The entries as they were given, each at its package. */
  function Wanted(es: seq<(string, string)>): (ws: seq<Entry>)
    ensures |ws| == |es|
    ensures forall i :: 0 <= i < |es| ==> ws[i] == Entry(es[i].0, Segments(es[i].1))
  {
    seq(|es|, i requires 0 <= i < |es| => Entry(es[i].0, Segments(es[i].1)))
  }

  lemma {:induction false} BuiltIsOrdered(es: seq<(string, string)>)
    ensures Ordered(Built(es))
    decreases |es|
  {
    if es != [] {
      var n := |es| - 1;
      BuiltIsOrdered(es[..n]);
      InsertKeepsOrder(Built(es[..n]), Segments(es[n].1), es[n].0);
    }
  }

  lemma {:induction false} FilesOfBuilt(es: seq<(string, string)>, q: seq<string>)
    ensures FilesAt(EntriesAt(Built(es), []), q) == FilesAt(Wanted(es), q)
    decreases |es|
  {
    hide Segments, EntriesAt;
    if es == [] {
      NothingInEmpty([], q);
    } else {
      var n := |es| - 1;
      var (file, package) := es[n];
      var path := Segments(package);
      FilesOfBuilt(es[..n], q);
      BuiltIsOrdered(es[..n]);
      FilesOfInsert(Built(es[..n]), path, file, [], q);
      assert [] + path == path;
      assert Wanted(es) == Wanted(es[..n]) + [Entry(file, path)];
      FilesOfConcat(Wanted(es[..n]), [Entry(file, path)], q);
      OneEntry(Entry(file, path), q);
    }
  }

  lemma OneEntry(e: Entry, q: seq<string>)
    ensures FilesAt([e], q) == if e.path == q then [e.file] else []
  {
    assert [e][1..] == [];
  }

  lemma {:induction false} FilesCount(es: seq<Entry>, e: Entry)
    ensures multiset(FilesAt(es, e.path))[e.file] == multiset(es)[e]
    decreases |es|
  {
    if es != [] {
      FilesCount(es[1..], e);
      assert es == [es[0]] + es[1..];
      assert multiset(es) == multiset{es[0]} + multiset(es[1..]);
    }
  }

  lemma SameEntries(a: seq<Entry>, b: seq<Entry>)
    requires forall q :: FilesAt(a, q) == FilesAt(b, q)
    ensures multiset(a) == multiset(b)
  {
    forall e: Entry
      ensures multiset(a)[e] == multiset(b)[e]
    {
      FilesCount(a, e);
      FilesCount(b, e);
    }
  }

  /** The tree holds the given entries, in order within each package. */
  lemma BuiltHoldsEntries(es: seq<(string, string)>)
    ensures var held := EntriesAt(Built(es), []);
            && (forall q :: FilesAt(held, q) == FilesAt(Wanted(es), q))
            && multiset(held) == multiset(Wanted(es))
  {
    hide FilesAt, EntriesAt, Wanted;
    forall q
      ensures FilesAt(EntriesAt(Built(es), []), q) == FilesAt(Wanted(es), q)
    {
      FilesOfBuilt(es, q);
    }
    SameEntries(EntriesAt(Built(es), []), Wanted(es));
  }

  // ----- Escaping ----------------------------------------------------------------------------

  /** Different modules are written differently. */
  ghost predicate Distinguishes(esc: Escape, es: seq<(string, string)>) {
    forall p, q :: IsModulePath(es, p) && IsModulePath(es, q) && Idents(esc, p) == Idents(esc, q) ==> p == q
  }

  function AllSegments(es: seq<(string, string)>): set<string> {
    set e, x | e in es && x in Segments(e.1) :: x
  }

  lemma SegmentIn(es: seq<(string, string)>, i: nat, k: nat)
    requires i < |es| && k < |Segments(es[i].1)|
    ensures Segments(es[i].1)[k] in AllSegments(es)
  {
    hide Segments;
    assert es[i] in es && Segments(es[i].1)[k] in Segments(es[i].1);
  }

  /** An escape that keeps the segments of the entries apart does. */
  lemma SegmentsApart(esc: Escape, es: seq<(string, string)>)
    requires forall x, y :: x in AllSegments(es) && y in AllSegments(es) && esc(x) == esc(y) ==> x == y
    ensures Distinguishes(esc, es)
  {
    hide Segments;
    forall p, q | IsModulePath(es, p) && IsModulePath(es, q) && Idents(esc, p) == Idents(esc, q)
      ensures p == q
    {
      var i :| 0 <= i < |es| && p <= Segments(es[i].1);
      var j :| 0 <= j < |es| && q <= Segments(es[j].1);
      assert |p| == |Idents(esc, p)| == |q|;
      forall k | 0 <= k < |p|
        ensures p[k] == q[k]
      {
        assert p[k] == Segments(es[i].1)[k] && q[k] == Segments(es[j].1)[k];
        SegmentIn(es, i, k);
        SegmentIn(es, j, k);
        assert esc(p[k]) == Idents(esc, p)[k] == Idents(esc, q)[k] == esc(q[k]);
      }
    }
  }

  lemma WrittenOnce(esc: Escape, ps: seq<seq<string>>)
    requires NoDuplicates(ps)
    ensures NoDuplicates(PathIdents(esc, ps)) <==>
            forall p, q :: p in ps && q in ps && Idents(esc, p) == Idents(esc, q) ==> p == q
  {
    hide Idents;
    var ids := PathIdents(esc, ps);
    if NoDuplicates(ids) {
      forall p, q | p in ps && q in ps && Idents(esc, p) == Idents(esc, q)
        ensures p == q
      {
        var i :| 0 <= i < |ps| && ps[i] == p;
        var j :| 0 <= j < |ps| && ps[j] == q;
        assert ids[i] == ids[j];
      }
    } else {
      var i, j :| 0 <= i < j < |ids| && ids[i] == ids[j];
      assert ps[i] in ps && ps[j] in ps && ps[i] != ps[j];
    }
  }

  lemma ModulesWrittenOnce(esc: Escape, es: seq<(string, string)>)
    ensures NoDuplicates(PathIdents(esc, OpenedAt(Built(es).children, []))) <==> Distinguishes(esc, es)
  {
    hide OpenedAt, Built, Idents, IsModulePath, PathIdents, Ordered;
    var ps := OpenedAt(Built(es).children, []);
    BuiltIsOrdered(es);
    OrderedChildren(Built(es));
    OpenedOnce(Built(es).children, []);
    WrittenOnce(esc, ps);
    forall p
      ensures p in ps <==> IsModulePath(es, p)
    {
      OpenedInBuilt(es, p);
    }
  }

  lemma EntryIdentsWithout(esc: Escape, b: seq<Entry>, i: nat)
    requires i < |b|
    ensures multiset(EntryIdents(esc, b)) ==
            multiset(EntryIdents(esc, b[..i] + b[i + 1..])) + multiset(EntryIdents(esc, [b[i]]))
  {
    var x, y, z := b[..i], [b[i]], b[i + 1..];
    assert b == x + (y + z);
    EntryIdentsOfConcat(esc, x, y + z);
    EntryIdentsOfConcat(esc, y, z);
    EntryIdentsOfConcat(esc, x, z);
  }

  lemma {:induction false} EntryIdentsRearranged(esc: Escape, a: seq<Entry>, b: seq<Entry>)
    requires multiset(a) == multiset(b)
    ensures multiset(EntryIdents(esc, a)) == multiset(EntryIdents(esc, b))
    decreases |a|
  {
    hide EntryIdents, Idents;
    if a == [] {
      assert |multiset(b)| == 0;
      assert b == [];
    } else {
      var n := |a| - 1;
      assert a[n] in multiset(b);
      var i :| 0 <= i < |b| && b[i] == a[n];
      RemoveOne(a, b, i);
      EntryIdentsRearranged(esc, a[..n], b[..i] + b[i + 1..]);
      EntryIdentsWithout(esc, b, i);
      assert a[..n] + a[n + 1..] == a[..n];
      EntryIdentsWithout(esc, a, n);
    }
  }

  lemma {:induction false} FilesOfEscaped(esc: Escape, es: seq<Entry>, p: seq<string>)
    requires forall e :: e in es && Idents(esc, e.path) == Idents(esc, p) ==> e.path == p
    ensures FilesAt(EntryIdents(esc, es), Idents(esc, p)) == FilesAt(es, p)
    decreases |es|
  {
    hide Idents;
    if es != [] {
      FilesOfEscaped(esc, es[1..], p);
      assert EntryIdents(esc, es)[1..] == EntryIdents(esc, es[1..]);
      assert es[0] in es;
    }
  }

  lemma {:induction false} NoFilesThere(es: seq<Entry>, q: seq<string>)
    requires forall e :: e in es ==> e.path != q
    ensures FilesAt(es, q) == []
    decreases |es|
  {
    if es != [] {
      assert es[0] in es;
      NoFilesThere(es[1..], q);
    }
  }

  /** Escaping that keeps the modules apart keeps the order within each of them. */
  lemma OrderKept(esc: Escape, es: seq<(string, string)>, held: seq<Entry>, q: seq<string>)
    requires Distinguishes(esc, es) && multiset(held) == multiset(Wanted(es))
    requires forall p :: FilesAt(held, p) == FilesAt(Wanted(es), p)
    ensures FilesAt(EntryIdents(esc, held), q) == FilesAt(EntryIdents(esc, Wanted(es)), q)
  {
    hide FilesAt, Distinguishes;
    SameMembers(held, Wanted(es));
    if e :| e in held && Idents(esc, e.path) == q {
      forall f | f in held && Idents(esc, f.path) == q
        ensures f.path == e.path
      {
        SamePath(esc, es, e, f);
      }
      FilesOfEscaped(esc, held, e.path);
      FilesOfEscaped(esc, Wanted(es), e.path);
    } else {
      NoFilesThere(EntryIdents(esc, held), q);
      NoFilesThere(EntryIdents(esc, Wanted(es)), q);
    }
  }

  lemma SamePath(esc: Escape, es: seq<(string, string)>, e: Entry, f: Entry)
    requires Distinguishes(esc, es) && e in Wanted(es) && f in Wanted(es) && Idents(esc, e.path) == Idents(esc, f.path)
    ensures e.path == f.path
  {
    hide Segments;
    assert |e.path| == |Idents(esc, e.path)| == |f.path|;
    if e.path != [] {
      var i :| 0 <= i < |es| && Wanted(es)[i] == e;
      var j :| 0 <= j < |es| && Wanted(es)[j] == f;
      assert e.path <= Segments(es[i].1) && f.path <= Segments(es[j].1);
      assert IsModulePath(es, e.path) && IsModulePath(es, f.path);
    }
  }

  // ----- The whole file ----------------------------------------------------------------------

  const START: Reader := Reader([], [], [])

  /** What a printed tree must mean, for the entries it was made from. */
  ghost predicate Denotes(esc: Escape, es: seq<(string, string)>, r: Option<Reader>) {
    && r.Some? && r.value.stack == []
    && multiset(r.value.entries) == multiset(EntryIdents(esc, Wanted(es)))
    && (NoDuplicates(r.value.modules) <==> Distinguishes(esc, es))
    && (Distinguishes(esc, es) ==>
          forall q :: FilesAt(r.value.entries, q) == FilesAt(EntryIdents(esc, Wanted(es)), q))
  }

  /**
    Reading the printed tree ends with every module closed and gives back exactly the input entries,
    whatever the escape. No module is met twice if and only if the escape keeps the modules apart, and
    then the order inside each package is kept too.
   */
  lemma Denotation(esc: Escape, es: seq<(string, string)>)
    ensures Denotes(esc, es, ReadAll(START, Lines(esc, Built(es))))
  {
    hide EntriesAt, FilesAt, OpenedAt, Lines, Built, ReadAll, Distinguishes, EntryIdents, PathIdents, Wanted;
    var n := Built(es);
    ReadModule(esc, n, [], START);
    var held, modules := EntriesAt(n, []), OpenedAt(n.children, []);
    var r := ReadAll(START, Lines(esc, n)).value;
    assert r.entries == EntryIdents(esc, held) && r.modules == PathIdents(esc, modules);
    BuiltHoldsEntries(es);
    EntryIdentsRearranged(esc, held, Wanted(es));
    ModulesWrittenOnce(esc, es);
    if Distinguishes(esc, es) {
      forall q
        ensures FilesAt(r.entries, q) == FilesAt(EntryIdents(esc, Wanted(es)), q)
      {
        OrderKept(esc, es, held, q);
      }
    }
  }

  lemma OrderedChildren(n: Node)
    requires Ordered(n)
    ensures OrderedBelow(n.children)
  {
  }

  /** The generated include file, line by line. */
  method GenerateIncludeFile(esc: Escape, es: seq<(string, string)>) returns (out: seq<Line>)
    ensures Denotes(esc, es, ReadAll(START, out))
  {
    hide *;
    var root := BuildTree(es);
    out := Emit(esc, [], root);
    assert [] + Lines(esc, root) == Lines(esc, root);
    Denotation(esc, es);
  }
}
