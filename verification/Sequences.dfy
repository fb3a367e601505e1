/** Facts about sequences that several component models share. */
module Sequences {

  predicate NoDuplicates<T(==)>(s: seq<T>) {
    forall i, j :: 0 <= i < j < |s| ==> s[i] != s[j]
  }

  function Elements<T>(s: seq<T>): set<T> {
    set x | x in s
  }

  lemma Associate<T>(a: seq<T>, b: seq<T>, c: seq<T>)
    ensures a + (b + c) == a + b + c
  {
  }

  lemma DropConcat<T>(a: seq<T>, b: seq<T>, k: nat)
    requires k <= |a|
    ensures (a + b)[k..] == a[k..] + b
  {
  }

  lemma DropMembers<T>(s: seq<T>, k: nat)
    requires k <= |s|
    ensures forall x :: x in s[k..] ==> x in s
  {
  }

  lemma ElementsOfConcat<T>(a: seq<T>, b: seq<T>)
    ensures Elements(a + b) == Elements(a) + Elements(b)
  {
  }

  lemma AppendFresh<T>(s: seq<T>, x: T)
    requires NoDuplicates(s) && x !in s
    ensures NoDuplicates(s + [x])
    ensures Elements(s + [x]) == Elements(s) + {x}
  {
  }

  /** Taking the last element of one arrangement out of the other. */
  lemma RemoveOne<T>(a: seq<T>, b: seq<T>, i: nat)
    requires a != [] && multiset(a) == multiset(b) && i < |b| && b[i] == a[|a| - 1]
    ensures multiset(a[..|a| - 1]) == multiset(b[..i] + b[i + 1..])
  {
    assert a == a[..|a| - 1] + [b[i]];
    assert b == b[..i] + [b[i]] + b[i + 1..];
    assert multiset(a[..|a| - 1]) == multiset(a) - multiset{b[i]};
    assert multiset(b[..i] + b[i + 1..]) == multiset(b) - multiset{b[i]};
  }

  lemma {:induction false} CountedOnce<T>(s: seq<T>)
    ensures NoDuplicates(s) <==> forall x :: x in s ==> multiset(s)[x] == 1
  {
    if s != [] {
      var n := |s| - 1;
      var p := s[..n];
      assert s == p + [s[n]];
      CountedOnce(p);
      if NoDuplicates(s) {
        assert s[n] !in p;
        forall x | x in s
          ensures multiset(s)[x] == 1
        {
        }
      } else if NoDuplicates(p) {
        var i :| 0 <= i < n && s[i] == s[n];
        assert p[i] in p;
        assert multiset(s)[s[n]] == multiset(p)[s[n]] + 1;
      } else {
        var x :| x in p && multiset(p)[x] != 1;
        assert multiset(p)[x] > 1;
        assert multiset(s)[x] >= multiset(p)[x];
      }
    }
  }

  lemma SameMembers<T>(a: seq<T>, b: seq<T>)
    requires multiset(a) == multiset(b)
    ensures forall x :: x in a <==> x in b
  {
    forall x
      ensures x in a <==> x in b
    {
      assert x in multiset(a) <==> x in multiset(b);
    }
  }

  /** Being free of duplicates does not depend on the arrangement. */
  lemma NoDuplicatesRearranged<T>(a: seq<T>, b: seq<T>)
    requires multiset(a) == multiset(b)
    ensures NoDuplicates(a) <==> NoDuplicates(b)
  {
    CountedOnce(a);
    CountedOnce(b);
    SameMembers(a, b);
  }
}
