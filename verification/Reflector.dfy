/**
  The descriptor index of connectrpc-reflection/src/reflector.rs: the import closure over a possibly
  cyclic graph of files, and the merging of descriptor sets.
 */
module Reflector {
  import opened Options
  import opened Sequences
  import opened Wire
  import opened Framing

  datatype FileDescriptor = FileDescriptor(name: Option<string>, dependency: seq<string>)

  /** `file_by_name` of the descriptor pool. */
  type Pool = map<string, FileDescriptor>

  /** The pool finds a file under the file's own name. */
  predicate Indexed(pool: Pool) {
    forall n :: n in pool ==> pool[n].name == Some(n)
  }

  // ----- Reachability ------------------------------------------------------------------------

  predicate Imports(pool: Pool, a: string, b: string) {
    a in pool && b in pool && b in pool[a].dependency
  }

  /** A chain of resolvable imports. */
  predicate IsPath(pool: Pool, path: seq<string>) {
    && path != [] && path[0] in pool
    && forall i :: 0 <= i < |path| - 1 ==> Imports(pool, path[i], path[i + 1])
  }

  ghost predicate Reachable(pool: Pool, a: string, b: string) {
    exists path :: IsPath(pool, path) && path[0] == a && path[|path| - 1] == b
  }

  lemma ReachableExtends(pool: Pool, a: string, b: string, c: string)
    requires Reachable(pool, a, b) && Imports(pool, b, c)
    ensures Reachable(pool, a, c)
  {
    var path :| IsPath(pool, path) && path[0] == a && path[|path| - 1] == b;
    var longer := path + [c];
    assert IsPath(pool, longer) && longer[0] == a && longer[|longer| - 1] == c;
  }

  lemma {:induction false} ClosedContainsPath(pool: Pool, s: set<string>, path: seq<string>)
    requires IsPath(pool, path) && path[0] in s
    requires forall a, b :: a in s && Imports(pool, a, b) ==> b in s
    ensures path[|path| - 1] in s
    decreases |path|
  {
    if |path| > 1 {
      assert Imports(pool, path[0], path[1]);
      var tail := path[1..];
      forall i | 0 <= i < |tail| - 1
        ensures Imports(pool, tail[i], tail[i + 1])
      {
        assert Imports(pool, path[i + 1], path[i + 1 + 1]);
      }
      ClosedContainsPath(pool, s, tail);
    }
  }

  // ----- Closure -----------------------------------------------------------------------------

  /** The imports of a file that the pool knows, in order. */
  function Resolved(pool: Pool, deps: seq<string>): (fs: seq<FileDescriptor>)
    requires Indexed(pool)
    ensures forall f :: f in fs <==> exists d :: d in deps && d in pool && pool[d] == f
  {
    if deps == [] then []
    else (if deps[0] in pool then [pool[deps[0]]] else []) + Resolved(pool, deps[1..])
  }

  /** The payloads of a list of files, leaving out those that have none. */
  function Payloads(bytes: map<string, seq<byte>>, names: seq<string>): seq<seq<byte>> {
    if names == [] then []
    else
      var n := names[|names| - 1];
      Payloads(bytes, names[..|names| - 1]) + (if n in bytes then [bytes[n]] else [])
  }

  ghost predicate InPool(pool: Pool, f: FileDescriptor) {
    f.name.Some? && f.name.value in pool && pool[f.name.value] == f
  }

  /** Everything on the stack is reachable, and what the seen files import is seen or stacked. */
  ghost predicate Exploring(pool: Pool, root: string, seen: set<string>, stack: seq<FileDescriptor>) {
    && root in pool && seen <= pool.Keys
    && (forall f :: f in stack ==> InPool(pool, f) && Reachable(pool, root, f.name.value))
    && (forall n :: n in seen ==> Reachable(pool, root, n))
    && (forall a, b :: a in seen && Imports(pool, a, b) ==> b in seen || pool[b] in stack)
    && (root in seen || pool[root] in stack)
  }

  lemma Expand(pool: Pool, root: string, seen: set<string>, stack: seq<FileDescriptor>, f: FileDescriptor)
    requires Indexed(pool) && root in pool
    requires Exploring(pool, root, seen, stack + [f])
    requires f.name.value !in seen
    ensures Exploring(pool, root, seen + {f.name.value}, stack + Resolved(pool, f.dependency))
  {
    var n := f.name.value;
    assert f in stack + [f];
    var stack' := stack + Resolved(pool, f.dependency);
    forall g | g in Resolved(pool, f.dependency)
      ensures InPool(pool, g) && Reachable(pool, root, g.name.value)
    {
      var d :| d in f.dependency && d in pool && pool[d] == g;
      ReachableExtends(pool, root, n, d);
    }
    forall a, b | a in seen + {n} && Imports(pool, a, b)
      ensures b in seen + {n} || pool[b] in stack'
    {
      if a == n {
        assert pool[b] in Resolved(pool, f.dependency);
      } else if b !in seen {
        assert pool[b] in stack + [f];
        if pool[b] == f {
          assert pool[b].name == Some(b);
        }
      }
    }
  }

  /** The files met so far, as a set, as a list and as payloads. */
  ghost predicate Recorded(bytes: map<string, seq<byte>>, seen: set<string>, order: seq<string>, out: seq<seq<byte>>) {
    seen == Elements(order) && NoDuplicates(order) && out == Payloads(bytes, order)
  }

  lemma RecordOne(bytes: map<string, seq<byte>>, seen: set<string>, order: seq<string>, out: seq<seq<byte>>, n: string)
    requires Recorded(bytes, seen, order, out) && n !in seen
    ensures Recorded(bytes, seen + {n}, order + [n], if n in bytes then out + [bytes[n]] else out)
  {
    AppendFresh(order, n);
    assert (order + [n])[..|order|] == order;
  }

  lemma OneLessToSee(all: set<string>, seen: set<string>, n: string)
    requires n in all && n !in seen
    ensures |all - (seen + {n})| < |all - seen|
  {
    assert all - (seen + {n}) == (all - seen) - {n};
  }

  /** One turn of the loop, for the file taken off the stack. */
  method Visit(
    pool: Pool, bytes: map<string, seq<byte>>, ghost root: string, f: FileDescriptor, rest: seq<FileDescriptor>,
    seen: set<string>, out: seq<seq<byte>>, ghost order: seq<string>)
    returns (stack: seq<FileDescriptor>, seen': set<string>, out': seq<seq<byte>>, ghost order': seq<string>)
    requires Indexed(pool) && root in pool
    requires Exploring(pool, root, seen, rest + [f]) && Recorded(bytes, seen, order, out)
    ensures Exploring(pool, root, seen', stack) && Recorded(bytes, seen', order', out')
    ensures order <= order' && (order == [] ==> f.name.Some? && order' == [f.name.value])
    ensures |pool.Keys - seen'| < |pool.Keys - seen| || (seen' == seen && stack == rest)
  {
    hide *;
    stack, seen', out', order' := rest, seen, out, order;
    TopOfStack(pool, root, seen, rest, f);
    if f.name.None? {
      return;
    }
    var name := f.name.value;
    if name in seen {
      NotFirst(bytes, seen, order, out, name);
      return;
    }
    Expand(pool, root, seen, stack, f);
    RecordOne(bytes, seen, order, out, name);
    OneLessToSee(pool.Keys, seen, name);
    seen', order' := seen + {name}, order + [name];
    if name in bytes {
      out' := out + [bytes[name]];
    }
    stack := stack + Resolved(pool, f.dependency);
  }

  /**
    The payloads of a file of the pool and of everything it imports, directly or not. `order` names
    the files in the order of the output.
   */
  method Closure(pool: Pool, bytes: map<string, seq<byte>>, fd: FileDescriptor)
    returns (out: seq<seq<byte>>, ghost order: seq<string>)
    requires Indexed(pool) && InPool(pool, fd)
    ensures out == Payloads(bytes, order)
    ensures order != [] && fd.name == Some(order[0])
    ensures NoDuplicates(order)
    ensures forall n :: n in order <==> Reachable(pool, fd.name.value, n)
  {
    ghost var root := fd.name.value;
    var seen: set<string> := {};
    out, order := [], [];
    var stack := [fd];
    Start(pool, fd);
    while stack != []
      invariant Exploring(pool, root, seen, stack)
      invariant Recorded(bytes, seen, order, out)
      invariant if order == [] then stack == [fd] else order[0] == root
      decreases |pool.Keys - seen|, |stack|
    {
      hide Exploring, Recorded;
      var f, rest := stack[|stack| - 1], stack[..|stack| - 1];
      assert stack == rest + [f];
      stack, seen, out, order := Visit(pool, bytes, root, f, rest, seen, out, order);
    }
    Explored(pool, root, seen);
  }

  lemma NotFirst(bytes: map<string, seq<byte>>, seen: set<string>, order: seq<string>, out: seq<seq<byte>>, n: string)
    requires Recorded(bytes, seen, order, out) && n in seen
    ensures order != []
  {
  }

  lemma Start(pool: Pool, fd: FileDescriptor)
    requires Indexed(pool) && InPool(pool, fd)
    ensures Exploring(pool, fd.name.value, {}, [fd])
  {
    assert IsPath(pool, [fd.name.value]);
  }

  lemma TopOfStack(pool: Pool, root: string, seen: set<string>, stack: seq<FileDescriptor>, f: FileDescriptor)
    requires Indexed(pool) && Exploring(pool, root, seen, stack + [f])
    ensures f.name.Some? && f.name.value in pool
    ensures f.name.value in seen ==> Exploring(pool, root, seen, stack)
  {
    assert f in stack + [f];
    if f.name.value in seen {
      forall a, b | a in seen && Imports(pool, a, b)
        ensures b in seen || pool[b] in stack
      {
        if pool[b] == f { assert pool[b].name == Some(b); }
      }
    }
  }

  lemma Explored(pool: Pool, root: string, seen: set<string>)
    requires root in pool && Exploring(pool, root, seen, [])
    ensures forall n :: n in seen <==> Reachable(pool, root, n)
  {
    forall n | Reachable(pool, root, n)
      ensures n in seen
    {
      var path :| IsPath(pool, path) && path[0] == root && path[|path| - 1] == n;
      ClosedContainsPath(pool, seen, path);
    }
  }

  /** With a payload for every pool file, the output has exactly one entry per reachable file. */
  lemma {:induction false} PayloadsComplete(bytes: map<string, seq<byte>>, names: seq<string>)
    requires forall n :: n in names ==> n in bytes
    ensures |Payloads(bytes, names)| == |names|
    ensures forall i :: 0 <= i < |names| ==> Payloads(bytes, names)[i] == bytes[names[i]]
  {
    if names != [] {
      PayloadsComplete(bytes, names[..|names| - 1]);
    }
  }

  // ----- Merging sets ------------------------------------------------------------------------

  datatype ReflectionError =
    | MalformedFraming(offset: nat)
    | Decode
    | CountMismatch
    | UnnamedFile(index: nat)
    | SharedPool
    | Link

  /** Registers values under names; a name that is taken keeps its value. */
  function Merge<V>(m: map<string, V>, names: seq<string>, vs: seq<V>): map<string, V>
    requires |names| == |vs|
    decreases |names|
  {
    if names == [] then m
    else Merge(if names[0] in m then m else m[names[0] := vs[0]], names[1..], vs[1..])
  }

  /** First registration wins, within a set and across sets. */
  lemma {:induction false} FirstWins<V>(m: map<string, V>, names: seq<string>, vs: seq<V>)
    requires |names| == |vs|
    ensures Merge(m, names, vs).Keys == m.Keys + Elements(names)
    ensures forall n :: n in m ==> Merge(m, names, vs)[n] == m[n]
    ensures forall i :: 0 <= i < |names| && names[i] !in m && names[i] !in names[..i] ==>
              Merge(m, names, vs)[names[i]] == vs[i]
    decreases |names|
  {
    if names != [] {
      var m' := if names[0] in m then m else m[names[0] := vs[0]];
      FirstWins(m', names[1..], vs[1..]);
      forall i | 0 <= i < |names| && names[i] !in m && names[i] !in names[..i]
        ensures Merge(m, names, vs)[names[i]] == vs[i]
      {
        if i > 0 {
          assert names[0] in names[..i];
          assert names[1..][..i - 1] == names[..i][1..];
          assert names[1..][i - 1] == names[i];
        }
      }
    }
  }

  class Index {
    var pool: Pool
    var responseBytes: map<string, seq<byte>>

    constructor ()
      ensures pool == map[] && responseBytes == map[] && Valid()
    {
      pool, responseBytes := map[], map[];
    }

    /** Every file of the pool has a payload, and is found under its own name. */
    ghost predicate Valid()
      reads this
    {
      pool.Keys == responseBytes.Keys && Indexed(pool)
    }

    /**
      Merges the set in `bytes`. `decoded` is what the descriptor crate makes of the same bytes,
      `linked` the number of its files that link, and `shared` whether the pool has other owners.
     */
    method AddDescriptorSetBytes(bytes: seq<byte>, decoded: Option<seq<FileDescriptor>>, linked: nat, shared: bool)
      returns (r: Option<ReflectionError>)
      requires Valid()
      requires decoded.Some? ==> linked <= |decoded.value|
      modifies this
      ensures r.None? <==>
                && FilesFrom(bytes, 0).Some? && decoded.Some?
                && |decoded.value| == |FilesFrom(bytes, 0).value|
                && (forall i :: 0 <= i < |decoded.value| ==> decoded.value[i].name.Some?)
                && !shared && linked == |decoded.value|
      ensures r == Some(Link) ==>
                && !shared && decoded.Some? && linked < |decoded.value|
                && (forall i :: 0 <= i < |decoded.value| ==> decoded.value[i].name.Some?)
                && pool == Merge(old(pool), Names(decoded.value)[..linked], decoded.value[..linked])
                && responseBytes == old(responseBytes)
      ensures forall o: nat :: r == Some(MalformedFraming(o)) <==> SplitFrom(bytes, 0) == Err(o)
      ensures r == Some(Decode) <==> SplitFrom(bytes, 0).Ok? && decoded.None?
      ensures r == Some(CountMismatch) <==>
                SplitFrom(bytes, 0).Ok? && decoded.Some? && |SplitFrom(bytes, 0).value| != |decoded.value|
      ensures forall i: nat :: r == Some(UnnamedFile(i)) ==>
                && decoded.Some? && i < |decoded.value| && decoded.value[i].name.None?
                && forall j :: 0 <= j < i ==> decoded.value[j].name.Some?
      ensures r == Some(SharedPool) ==> shared
      ensures r.Some? && r.value != Link ==> pool == old(pool) && responseBytes == old(responseBytes)
      ensures r.None? ==>
        && Valid()
        && decoded.Some? && FilesFrom(bytes, 0).Some?
        && var fs, raw := decoded.value, FilesFrom(bytes, 0).value;
        && |fs| == |raw| && (forall i :: 0 <= i < |fs| ==> fs[i].name.Some?)
        && pool == Merge(old(pool), Names(fs), fs)
        && responseBytes == Merge(old(responseBytes), Names(fs), raw)
    {
      var split := SplitDescriptorSet(bytes);
      if split.Err? {
        return Some(MalformedFraming(split.error));
      }
      if decoded.None? {
        return Some(Decode);
      }
      var fs, slices := decoded.value, split.value;
      if |slices| != |fs| {
        return Some(CountMismatch);
      }
      for index := 0 to |fs|
        invariant forall i :: 0 <= i < index ==> fs[i].name.Some?
      {
        if fs[index].name.None? {
          return Some(UnnamedFile(index));
        }
      }
      if shared {
        return Some(SharedPool);
      }
      var names := Names(fs);
      pool := Merge(pool, names[..linked], fs[..linked]);
      if linked < |fs| {
        return Some(Link);
      }
      SlicesAreOrdered(bytes, 0);
      var raw := Cut(bytes, slices);
      FirstWins(pool, [], []);
      assert names[..linked] == names && fs[..linked] == fs;
      FirstWins(old(pool), names, fs);
      FirstWins(responseBytes, names, raw);
      MergeIndexed(old(pool), fs);
      responseBytes := Merge(responseBytes, names, raw);
      return None;
    }

    /** Every file reachable from a known name is answered with its payload, each exactly once. */
    method FileByFilename(name: string) returns (r: Option<seq<seq<byte>>>, ghost order: seq<string>)
      requires Valid()
      ensures r.Some? <==> name in pool
      ensures r.Some? ==>
        && |r.value| == |order| > 0 && order[0] == name && NoDuplicates(order)
        && (forall n :: n in order <==> Reachable(pool, name, n))
        && (forall i :: 0 <= i < |order| ==> order[i] in responseBytes && r.value[i] == responseBytes[order[i]])
    {
      order := [];
      if name !in pool {
        return None, [];
      }
      var out;
      out, order := Closure(pool, responseBytes, pool[name]);
      forall n | n in order
        ensures n in responseBytes
      {
        var path :| IsPath(pool, path) && path[0] == name && path[|path| - 1] == n;
        if |path| > 1 {
          assert Imports(pool, path[|path| - 2], path[|path| - 2 + 1]);
        }
      }
      PayloadsComplete(responseBytes, order);
      return Some(out), order;
    }
  }

  function Names(fs: seq<FileDescriptor>): (ns: seq<string>)
    requires forall i :: 0 <= i < |fs| ==> fs[i].name.Some?
    ensures |ns| == |fs| && forall i :: 0 <= i < |fs| ==> Some(ns[i]) == fs[i].name
  {
    seq(|fs|, i requires 0 <= i < |fs| => fs[i].name.value)
  }

  lemma {:induction false} MergeIndexed(pool: Pool, fs: seq<FileDescriptor>)
    requires Indexed(pool) && forall i :: 0 <= i < |fs| ==> fs[i].name.Some?
    ensures Indexed(Merge(pool, Names(fs), fs))
    decreases |fs|
  {
    if fs != [] {
      var n := fs[0].name.value;
      var pool' := if n in pool then pool else pool[n := fs[0]];
      assert Names(fs)[1..] == Names(fs[1..]);
      MergeIndexed(pool', fs[1..]);
    }
  }
}
