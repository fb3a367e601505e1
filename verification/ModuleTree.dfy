/**
  The module-tree emitter of connectrpc-build/src/lib.rs: a trie of packages, printed as nested
  modules, and a reader that gives the printed form its meaning.
 */
module ModuleTree {
  import opened Options
  import opened Sequences
  import opened Text

  // ----- The trie ----------------------------------------------------------------------------

  /** A module: the files it includes, and its submodules in the order of their names. */
  datatype Node = Node(files: seq<string>, children: seq<Child>)

  datatype Child = Child(name: string, node: Node)

  const EMPTY: Node := Node([], [])

  /** `str::split('.')`. */
  function SplitDots(s: string): (r: seq<string>)
    ensures r != []
  {
    if s == [] then [[]]
    else if s[0] == '.' then [[]] + SplitDots(s[1..])
    else var rest := SplitDots(s[1..]); [[s[0]] + rest[0]] + rest[1..]
  }

  function Segments(package: string): seq<string> {
    if package == [] then [] else SplitDots(package)
  }

  /** A package name is cut at its dots, and the empty one has no segments. */
  lemma {:induction false} SegmentsRule(a: string, b: string)
    requires '.' !in a
    ensures SplitDots(a + "." + b) == [a] + SplitDots(b) && SplitDots(a) == [a]
    ensures Segments([]) == [] && (a != [] ==> Segments(a) == [a])
    ensures b != [] ==> Segments(a + "." + b) == [a] + Segments(b)
  {
    var s := a + "." + b;
    if a == [] {
      assert s == ['.'] + b && s[1..] == b;
    } else {
      assert s[1..] == a[1..] + "." + b;
      SegmentsRule(a[1..], b);
      assert a == [a[0]] + a[1..];
    }
  }

  /** Adds a file at the module that `path` leads to, making modules on the way. */
  function Insert(n: Node, path: seq<string>, file: string): Node
    decreases |path|, 1, 0
  {
    if path == [] then n.(files := n.files + [file])
    else n.(children := InsertBelow(n.children, path, file))
  }

  /** The sorted map entry API: find the child of that name, or put a new one in its place. */
  function InsertBelow(cs: seq<Child>, path: seq<string>, file: string): seq<Child>
    requires path != []
    decreases |path|, 0, |cs|
  {
    if cs == [] || Less(path[0], cs[0].name) then [Child(path[0], Insert(EMPTY, path[1..], file))] + cs
    else if cs[0].name == path[0] then [Child(path[0], Insert(cs[0].node, path[1..], file))] + cs[1..]
    else [cs[0]] + InsertBelow(cs[1..], path, file)
  }

  function Built(es: seq<(string, string)>): Node {
    if es == [] then EMPTY
    else
      var (file, package) := es[|es| - 1];
      Insert(Built(es[..|es| - 1]), Segments(package), file)
  }

  // ----- The printed form --------------------------------------------------------------------

  datatype Line = Include(file: string) | Open(ident: string) | Close

  /** How a package segment is written as a module identifier. */
  type Escape = string -> string

  function Includes(files: seq<string>): (ls: seq<Line>)
    ensures |ls| == |files| && forall i :: 0 <= i < |files| ==> ls[i] == Include(files[i])
  {
    seq(|files|, i requires 0 <= i < |files| => Include(files[i]))
  }

  function Lines(esc: Escape, n: Node): seq<Line>
    decreases n, 1
  {
    Includes(n.files) + LinesBelow(esc, n.children)
  }

  function LinesBelow(esc: Escape, cs: seq<Child>): seq<Line>
    decreases cs, 0
  {
    if cs == [] then []
    else [Open(esc(cs[0].name))] + Lines(esc, cs[0].node) + [Close] + LinesBelow(esc, cs[1..])
  }

  method BuildTree(es: seq<(string, string)>) returns (root: Node)
    ensures root == Built(es)
  {
    root := EMPTY;
    for i := 0 to |es|
      invariant root == Built(es[..i])
    {
      assert es[..i + 1][..i] == es[..i];
      root := Insert(root, Segments(es[i].1), es[i].0);
    }
    assert es[..|es|] == es;
  }

  method EmitFiles(out: seq<Line>, files: seq<string>) returns (out': seq<Line>)
    ensures out' == out + Includes(files)
  {
    out' := out;
    for i := 0 to |files|
      invariant out' == out + Includes(files[..i])
    {
      assert Includes(files[..i + 1]) == Includes(files[..i]) + [Include(files[i])];
      out' := out' + [Include(files[i])];
    }
    assert files[..|files|] == files;
  }

  lemma Reassociate<T>(a: seq<T>, b: seq<T>, c: seq<T>, d: seq<T>, e: seq<T>)
    ensures a + (b + c + d + e) == a + b + c + d + e
  {
  }

  method EmitChildren(esc: Escape, out: seq<Line>, cs: seq<Child>) returns (out': seq<Line>)
    ensures out' == out + LinesBelow(esc, cs)
    decreases cs, 0
  {
    hide Lines;
    out' := out;
    for i := 0 to |cs|
      invariant out' + LinesBelow(esc, cs[i..]) == out + LinesBelow(esc, cs)
    {
      var id := esc(cs[i].name);
      assert cs[i..][1..] == cs[i + 1..];
      Reassociate(out', [Open(id)], Lines(esc, cs[i].node), [Close], LinesBelow(esc, cs[i + 1..]));
      out' := out' + [Open(id)];
      out' := Emit(esc, out', cs[i].node);
      out' := out' + [Close];
    }
    assert out' + [] == out';
  }

  method Emit(esc: Escape, out: seq<Line>, n: Node) returns (out': seq<Line>)
    ensures out' == out + Lines(esc, n)
    decreases n, 1
  {
    out' := EmitFiles(out, n.files);
    out' := EmitChildren(esc, out', n.children);
  }

  // ----- The meaning of the printed form -----------------------------------------------------

  /** A file and the module it is included into. */
  datatype Entry = Entry(file: string, path: seq<string>)

  /** Reading line by line: the open modules, the files included so far, the modules opened so far. */
  datatype Reader = Reader(stack: seq<string>, entries: seq<Entry>, modules: seq<seq<string>>)

  function Read(r: Reader, line: Line): Option<Reader> {
    match line
    case Include(f) => Some(r.(entries := r.entries + [Entry(f, r.stack)]))
    case Open(id) => Some(r.(stack := r.stack + [id], modules := r.modules + [r.stack + [id]]))
    case Close => if r.stack == [] then None else Some(r.(stack := r.stack[..|r.stack| - 1]))
  }

  function ReadAll(r: Reader, ls: seq<Line>): Option<Reader>
    decreases |ls|
  {
    if ls == [] then Some(r)
    else
      var next := Read(r, ls[0]);
      if next.None? then None else ReadAll(next.value, ls[1..])
  }

  function FileEntries(files: seq<string>, path: seq<string>): (es: seq<Entry>)
    ensures |es| == |files| && forall i :: 0 <= i < |files| ==> es[i] == Entry(files[i], path)
  {
    seq(|files|, i requires 0 <= i < |files| => Entry(files[i], path))
  }

  /** The files of a module and of all modules below it, under the packages' own names. */
  function EntriesAt(n: Node, path: seq<string>): seq<Entry>
    decreases n, 1
  {
    FileEntries(n.files, path) + EntriesBelow(n.children, path)
  }

  function EntriesBelow(cs: seq<Child>, path: seq<string>): seq<Entry>
    decreases cs, 0
  {
    if cs == [] then []
    else EntriesAt(cs[0].node, path + [cs[0].name]) + EntriesBelow(cs[1..], path)
  }

  /** The paths of all modules of a forest, in the order they are opened. */
  function OpenedAt(cs: seq<Child>, path: seq<string>): seq<seq<string>>
    decreases cs
  {
    if cs == [] then []
    else
      var p := path + [cs[0].name];
      [p] + OpenedAt(cs[0].node.children, p) + OpenedAt(cs[1..], path)
  }

  function Idents(esc: Escape, path: seq<string>): (ids: seq<string>)
    ensures |ids| == |path| && forall i :: 0 <= i < |path| ==> ids[i] == esc(path[i])
  {
    seq(|path|, i requires 0 <= i < |path| => esc(path[i]))
  }

  function PathIdents(esc: Escape, ps: seq<seq<string>>): (r: seq<seq<string>>)
    ensures |r| == |ps| && forall i :: 0 <= i < |ps| ==> r[i] == Idents(esc, ps[i])
  {
    seq(|ps|, i requires 0 <= i < |ps| => Idents(esc, ps[i]))
  }

  /** Entries as they are written, every path segment escaped. */
  function EntryIdents(esc: Escape, es: seq<Entry>): (r: seq<Entry>)
    ensures |r| == |es| && forall i :: 0 <= i < |es| ==> r[i] == Entry(es[i].file, Idents(esc, es[i].path))
  {
    seq(|es|, i requires 0 <= i < |es| => Entry(es[i].file, Idents(esc, es[i].path)))
  }

  lemma IdentsOfConcat(esc: Escape, a: seq<string>, b: seq<string>)
    ensures Idents(esc, a + b) == Idents(esc, a) + Idents(esc, b)
  {
  }

  lemma IdentOf(esc: Escape, x: string)
    ensures Idents(esc, [x]) == [esc(x)]
  {
  }

  lemma EntryIdentsOfConcat(esc: Escape, a: seq<Entry>, b: seq<Entry>)
    ensures EntryIdents(esc, a + b) == EntryIdents(esc, a) + EntryIdents(esc, b)
  {
  }

  lemma PathIdentsOfConcat(esc: Escape, a: seq<seq<string>>, b: seq<seq<string>>)
    ensures PathIdents(esc, a + b) == PathIdents(esc, a) + PathIdents(esc, b)
  {
  }

  lemma {:induction false} ReadConcat(r: Reader, a: seq<Line>, b: seq<Line>)
    ensures ReadAll(r, a + b) == if ReadAll(r, a).None? then None else ReadAll(ReadAll(r, a).value, b)
    decreases |a|
  {
    if a == [] {
      assert a + b == b;
    } else {
      assert (a + b)[1..] == a[1..] + b;
      if Read(r, a[0]).Some? {
        ReadConcat(Read(r, a[0]).value, a[1..], b);
      }
    }
  }

  lemma FileEntriesCons(files: seq<string>, path: seq<string>)
    requires files != []
    ensures FileEntries(files, path) == [Entry(files[0], path)] + FileEntries(files[1..], path)
  {
  }

  lemma FileEntryIdents(esc: Escape, files: seq<string>, path: seq<string>)
    ensures EntryIdents(esc, FileEntries(files, path)) == FileEntries(files, Idents(esc, path))
  {
  }

  lemma {:induction false} ReadIncludes(r: Reader, files: seq<string>)
    ensures ReadAll(r, Includes(files)) == Some(r.(entries := r.entries + FileEntries(files, r.stack)))
    decreases |files|
  {
    if files == [] {
      assert r.entries + [] == r.entries;
    } else {
      var e := Entry(files[0], r.stack);
      var next := r.(entries := r.entries + [e]);
      assert Includes(files)[1..] == Includes(files[1..]);
      ReadIncludes(next, files[1..]);
      FileEntriesCons(files, r.stack);
      Associate(r.entries, [e], FileEntries(files[1..], r.stack));
    }
  }

  lemma ReadLine(r: Reader, line: Line)
    ensures ReadAll(r, [line]) == Read(r, line)
  {
    assert [line][1..] == [];
  }

  /** What reading the printed form of a module adds, its path being `path`. */
  function Gained(esc: Escape, r: Reader, es: seq<Entry>, ms: seq<seq<string>>): Reader {
    Reader(r.stack, r.entries + EntryIdents(esc, es), r.modules + PathIdents(esc, ms))
  }

  lemma GainedTwice(
    esc: Escape, r: Reader, es: seq<Entry>, ms: seq<seq<string>>, es': seq<Entry>, ms': seq<seq<string>>)
    ensures Gained(esc, Gained(esc, r, es, ms), es', ms') == Gained(esc, r, es + es', ms + ms')
  {
    hide EntryIdents, PathIdents;
    EntryIdentsOfConcat(esc, es, es');
    PathIdentsOfConcat(esc, ms, ms');
    Associate(r.entries, EntryIdents(esc, es), EntryIdents(esc, es'));
    Associate(r.modules, PathIdents(esc, ms), PathIdents(esc, ms'));
  }

  /** Printing a module and reading it gives its files back, and leaves the stack as it was. */
  lemma {:induction false} ReadModule(esc: Escape, n: Node, path: seq<string>, r: Reader)
    requires r.stack == Idents(esc, path)
    ensures ReadAll(r, Lines(esc, n)) == Some(Gained(esc, r, EntriesAt(n, path), OpenedAt(n.children, path)))
    decreases n, 1
  {
    hide ReadAll, OpenedAt, Gained, Idents;
    ReadFiles(esc, n.files, path, r);
    var r1 := Gained(esc, r, FileEntries(n.files, path), []);
    ReadConcat(r, Includes(n.files), LinesBelow(esc, n.children));
    ReadBelow(esc, n.children, path, r1);
    GainedTwice(esc, r, FileEntries(n.files, path), [], EntriesBelow(n.children, path), OpenedAt(n.children, path));
    assert [] + OpenedAt(n.children, path) == OpenedAt(n.children, path);
  }

  lemma ReadFiles(esc: Escape, files: seq<string>, path: seq<string>, r: Reader)
    requires r.stack == Idents(esc, path)
    ensures ReadAll(r, Includes(files)) == Some(Gained(esc, r, FileEntries(files, path), []))
    ensures Gained(esc, r, FileEntries(files, path), []).stack == r.stack
  {
    hide ReadAll;
    ReadIncludes(r, files);
    FileEntryIdents(esc, files, path);
    assert r.modules + PathIdents(esc, []) == r.modules;
  }

  lemma {:induction false} ReadBelow(esc: Escape, cs: seq<Child>, path: seq<string>, r: Reader)
    requires r.stack == Idents(esc, path)
    ensures ReadAll(r, LinesBelow(esc, cs)) == Some(Gained(esc, r, EntriesBelow(cs, path), OpenedAt(cs, path)))
    decreases cs, 0
  {
    hide Lines, EntriesAt, ReadAll, Idents, EntryIdents, PathIdents;
    if cs == [] {
      NothingToRead(r);
      NothingGained(esc, r);
    } else {
      var c := cs[0];
      var p := path + [c.name];
      var r1 := Reader(r.stack + [esc(c.name)], r.entries, r.modules + [r.stack + [esc(c.name)]]);
      IdentsOfConcat(esc, path, [c.name]);
      IdentOf(esc, c.name);
      ReadModule(esc, c.node, p, r1);
      var es, ms := EntriesAt(c.node, p), OpenedAt(c.node.children, p);
      var r2 := Gained(esc, r1, es, ms);
      var r3 := Gained(esc, r, es, [p] + ms);
      OneModule(esc, p);
      PathIdentsOfConcat(esc, [p], ms);
      Associate(r.modules, [r1.stack], PathIdents(esc, ms));
      assert r1.stack[..|r1.stack| - 1] == r.stack;
      ReadChild(r, r1, r2, r3, esc(c.name), Lines(esc, c.node), LinesBelow(esc, cs[1..]));
      ReadBelow(esc, cs[1..], path, r3);
      GainedTwice(esc, r, es, [p] + ms, EntriesBelow(cs[1..], path), OpenedAt(cs[1..], path));
    }
  }

  lemma NothingGained(esc: Escape, r: Reader)
    ensures Gained(esc, r, [], []) == r
  {
    assert r.entries + EntryIdents(esc, []) == r.entries && r.modules + PathIdents(esc, []) == r.modules;
  }

  lemma OneModule(esc: Escape, p: seq<string>)
    ensures PathIdents(esc, [p]) == [Idents(esc, p)]
  {
  }

  lemma NothingToRead(r: Reader)
    ensures ReadAll(r, []) == Some(r)
  {
  }

  lemma ReadChild(r: Reader, r1: Reader, r2: Reader, r3: Reader, id: string, body: seq<Line>, rest: seq<Line>)
    requires Read(r, Open(id)) == Some(r1) && ReadAll(r1, body) == Some(r2) && Read(r2, Close) == Some(r3)
    ensures ReadAll(r, [Open(id)] + body + [Close] + rest) == ReadAll(r3, rest)
  {
    hide Read;
    ReadLine(r, Open(id));
    ReadLine(r2, Close);
    ReadConcat(r, [Open(id)] + body + [Close], rest);
    ReadConcat(r, [Open(id)] + body, [Close]);
    ReadConcat(r, [Open(id)], body);
  }

  // ----- What insertion means ----------------------------------------------------------------

  /** The files included into one module, in order. */
  function FilesAt(es: seq<Entry>, q: seq<string>): seq<string> {
    if es == [] then []
    else (if es[0].path == q then [es[0].file] else []) + FilesAt(es[1..], q)
  }

  lemma {:induction false} FilesOfConcat(a: seq<Entry>, b: seq<Entry>, q: seq<string>)
    ensures FilesAt(a + b, q) == FilesAt(a, q) + FilesAt(b, q)
    decreases |a|
  {
    if a == [] {
      assert a + b == b;
    } else {
      assert (a + b)[1..] == a[1..] + b;
      FilesOfConcat(a[1..], b, q);
    }
  }

  lemma {:induction false} FilesOfModule(files: seq<string>, path: seq<string>, q: seq<string>)
    ensures FilesAt(FileEntries(files, path), q) == if path == q then files else []
    decreases |files|
  {
    if files != [] {
      assert FileEntries(files, path)[1..] == FileEntries(files[1..], path);
      FilesOfModule(files[1..], path, q);
    }
  }

  lemma LongerIsNoPrefix(path: seq<string>, x: string, q: seq<string>)
    requires !(path <= q)
    ensures !(path + [x] <= q)
  {
    assert (path + [x])[..|path|] == path;
  }

  /** A module only includes files into itself and its descendants. */
  lemma {:induction false} NothingOutside(n: Node, path: seq<string>, q: seq<string>)
    requires !(path <= q)
    ensures FilesAt(EntriesAt(n, path), q) == []
    decreases n, 1
  {
    FilesOfModule(n.files, path, q);
    FilesOfConcat(FileEntries(n.files, path), EntriesBelow(n.children, path), q);
    forall i | 0 <= i < |n.children|
      ensures !(path + [n.children[i].name] <= q)
    {
      LongerIsNoPrefix(path, n.children[i].name, q);
    }
    NothingBelow(n.children, path, q);
  }

  /** Nor do the submodules of one that `q` does not lead to. */
  lemma {:induction false} NothingBelow(cs: seq<Child>, path: seq<string>, q: seq<string>)
    requires forall i :: 0 <= i < |cs| ==> !(path + [cs[i].name] <= q)
    ensures FilesAt(EntriesBelow(cs, path), q) == []
    decreases cs, 0
  {
    hide EntriesAt;
    if cs != [] {
      var p := path + [cs[0].name];
      NothingOutside(cs[0].node, p, q);
      FilesOfConcat(EntriesAt(cs[0].node, p), EntriesBelow(cs[1..], path), q);
      NothingBelow(cs[1..], path, q);
    }
  }

  /** Submodules strictly in order of their names, all the way down. */
  predicate Ordered(n: Node)
    decreases n, 1
  {
    OrderedBelow(n.children)
  }

  predicate OrderedBelow(cs: seq<Child>)
    decreases cs, 0
  {
    cs == [] ||
    (&& Ordered(cs[0].node) && OrderedBelow(cs[1..])
     && forall i :: 0 < i < |cs| ==> Less(cs[0].name, cs[i].name))
  }

  lemma {:induction false} InsertKeepsOrder(n: Node, path: seq<string>, file: string)
    requires Ordered(n)
    ensures Ordered(Insert(n, path, file))
    decreases |path|, 1, 0
  {
    if path != [] {
      InsertBelowKeepsOrder(n.children, path, file);
    }
  }

  lemma {:induction false} InsertBelowKeepsOrder(cs: seq<Child>, path: seq<string>, file: string)
    requires path != [] && OrderedBelow(cs)
    ensures var r := InsertBelow(cs, path, file);
            && OrderedBelow(r)
            && forall c :: c in r ==> c.name == path[0] || exists d :: d in cs && d.name == c.name
    decreases |path|, 0, |cs|
  {
    hide Less;
    var x := path[0];
    if cs == [] || Less(x, cs[0].name) {
      InsertKeepsOrder(EMPTY, path[1..], file);
      forall i | 0 <= i < |cs|
        ensures Less(x, cs[i].name)
      {
        if i > 0 { LessIsTransitive(x, cs[0].name, cs[i].name); }
      }
    } else if cs[0].name == x {
      InsertKeepsOrder(cs[0].node, path[1..], file);
    } else {
      InsertBelowKeepsOrder(cs[1..], path, file);
      LessIsTotal(cs[0].name, x);
      var r := InsertBelow(cs[1..], path, file);
      forall i | 0 <= i < |r|
        ensures Less(cs[0].name, r[i].name)
      {
        if r[i].name != x {
          var d :| d in cs[1..] && d.name == r[i].name;
        }
      }
    }
  }
}
