/**
  The compression registry of connectrpc/src/compression.rs: the cached accept-encoding header and
  the negotiation of a response encoding between two registries.
 */
module Negotiation {
  import opened Options
  import opened Text
  import opened Sequences

  // ----- Tokens and order --------------------------------------------------------------------

  /** A `tchar` of section 5.6.2 of RFC 9110. */
  predicate IsTchar(c: char) {
    || 'a' <= c <= 'z' || 'A' <= c <= 'Z' || '0' <= c <= '9'
    || c == '!' || c == '#' || c == '$' || c == '%' || c == '&' || c == '\'' || c == '*' || c == '+'
    || c == '-' || c == '.' || c == '^' || c == '_' || c == '`' || c == '|' || c == '~'
  }

  predicate IsHttpToken(s: string) {
    s != [] && forall i :: 0 <= i < |s| ==> IsTchar(s[i])
  }

  lemma TcharSpelled(c: char)
    ensures IsTchar(c) <==>
            || c in "!#$%&'*+-.^_`|~"
            || c in "0123456789"
            || c in "ABCDEFGHIJKLMNOPQRSTUVWXYZ"
            || c in "abcdefghijklmnopqrstuvwxyz"
  {
    Consecutive("0123456789", '0', c);
    Consecutive("ABCDEFGHIJKLMNOPQRSTUVWXYZ", 'A', c);
    Consecutive("abcdefghijklmnopqrstuvwxyz", 'a', c);
  }

  lemma Consecutive(s: string, first: char, c: char)
    requires first as int + |s| < 0xD800 && forall i :: 0 <= i < |s| ==> s[i] as int == first as int + i
    ensures c in s <==> first as int <= c as int < first as int + |s|
  {
    if first as int <= c as int < first as int + |s| {
      assert s[c as int - first as int] == c;
    }
  }

  predicate Sorted(s: seq<string>) {
    forall i, j :: 0 <= i < j < |s| ==> Less(s[i], s[j])
  }

  /** A strictly sorted list is determined by its elements. */
  lemma {:induction false} SortedIsUnique(a: seq<string>, b: seq<string>)
    requires Sorted(a) && Sorted(b) && Elements(a) == Elements(b)
    ensures a == b
    decreases |a|
  {
    NoElements(a);
    NoElements(b);
    if a != [] {
      HeadIsLeast(a, b);
      HeadIsLeast(b, a);
      LessIsTotal(a[0], b[0]);
      TailElements(a);
      TailElements(b);
      SortedIsUnique(a[1..], b[1..]);
      assert a == [a[0]] + a[1..] && b == [b[0]] + b[1..];
    }
  }

  lemma NoElements(a: seq<string>)
    ensures Elements(a) == {} <==> a == []
  {
    if a != [] {
      assert a[0] in Elements(a);
    }
  }

  lemma HeadIsLeast(a: seq<string>, b: seq<string>)
    requires Sorted(a) && a != [] && b != [] && Elements(a) == Elements(b)
    ensures a[0] == b[0] || Less(a[0], b[0])
  {
    assert b[0] in Elements(a);
    var i :| 0 <= i < |a| && a[i] == b[0];
  }

  lemma TailElements(a: seq<string>)
    requires Sorted(a) && a != []
    ensures Elements(a[1..]) == Elements(a) - {a[0]}
  {
    forall i | 0 < i < |a|
      ensures a[i] != a[0]
    {
      LessIsTotal(a[0], a[i]);
    }
    assert a == [a[0]] + a[1..];
  }

  // ----- Sorting the keys --------------------------------------------------------------------

  method InsertSorted(s: seq<string>, x: string) returns (r: seq<string>)
    requires Sorted(s) && x !in s
    ensures Sorted(r) && Elements(r) == Elements(s) + {x}
  {
    var i := 0;
    while i < |s| && Less(s[i], x)
      invariant i <= |s|
      invariant forall j :: 0 <= j < i ==> Less(s[j], x)
    {
      i := i + 1;
    }
    r := s[..i] + [x] + s[i..];
    forall j | i <= j < |s|
      ensures Less(x, s[j])
    {
      LessIsTotal(x, s[i]);
      if j > i {
        LessIsTransitive(x, s[i], s[j]);
      }
    }
    assert s == s[..i] + s[i..];
  }

  /** The keys of a registry in sorted order, whatever order the hash map yields them in. */
  method SortKeys(keys: set<string>) returns (r: seq<string>)
    ensures Sorted(r) && Elements(r) == keys
  {
    r := [];
    var left := keys;
    while left != {}
      invariant left <= keys && Sorted(r) && Elements(r) == keys - left
      decreases left
    {
      var x :| x in left;
      assert x !in Elements(r);
      r := InsertSorted(r, x);
      left := left - {x};
    }
  }

  // ----- Header text -------------------------------------------------------------------------

  function Join(ts: seq<string>): string {
    if ts == [] then [] else if |ts| == 1 then ts[0] else ts[0] + ", " + Join(ts[1..])
  }

  /** `str::split(',')`. */
  function Split(s: string): (ts: seq<string>)
    ensures ts != []
  {
    if s == [] then [[]]
    else if s[0] == ',' then [[]] + Split(s[1..])
    else var rest := Split(s[1..]); [[s[0]] + rest[0]] + rest[1..]
  }

  function Trim(s: string): string
    decreases |s|
  {
    if s != [] && IsWhitespace(s[0]) then Trim(s[1..])
    else if s != [] && IsWhitespace(s[|s| - 1]) then Trim(s[..|s| - 1])
    else s
  }

  /** The encodings a header lists. */
  function Listed(header: string): (es: seq<string>) {
    TrimAll(Split(header))
  }

  function TrimAll(parts: seq<string>): (es: seq<string>)
    ensures |es| == |parts| && forall i :: 0 <= i < |parts| ==> es[i] == Trim(parts[i])
  {
    seq(|parts|, i requires 0 <= i < |parts| => Trim(parts[i]))
  }

  lemma {:induction false} SplitToken(t: string, rest: string)
    requires CommaFree(t)
    ensures Split(t + "," + rest) == [t] + Split(rest)
    ensures Split(t) == [t]
  {
    if t == [] {
      assert t + "," + rest == "," + rest;
      assert ("," + rest)[1..] == rest;
    } else {
      assert (t + "," + rest)[1..] == t[1..] + "," + rest;
      SplitToken(t[1..], rest);
      assert t == [t[0]] + t[1..];
    }
  }

  lemma TrimToken(t: string)
    requires IsHttpToken(t)
    ensures Trim(t) == t && Trim(" " + t) == t
  {
    assert IsTchar(t[0]) && IsTchar(t[|t| - 1]);
    assert (" " + t)[1..] == t;
  }

  lemma {:induction false} TrimLeft(a: string, t: string)
    requires (forall i :: 0 <= i < |a| ==> IsWhitespace(a[i])) && (t == [] || !IsWhitespace(t[0]))
    ensures t == [] || Trim(a + t) == Trim(t)
  {
    if a == [] {
      assert a + t == t;
    } else if t != [] {
      assert (a + t)[1..] == a[1..] + t;
      TrimLeft(a[1..], t);
    }
  }

  lemma {:induction false} TrimRight(t: string, b: string)
    requires t != [] && !IsWhitespace(t[0]) && !IsWhitespace(t[|t| - 1])
    requires forall i :: 0 <= i < |b| ==> IsWhitespace(b[i])
    ensures Trim(t + b) == t
    decreases |b|
  {
    if b == [] {
      assert t + b == t;
    } else {
      assert (t + b)[..|t + b| - 1] == t + b[..|b| - 1];
      TrimRight(t, b[..|b| - 1]);
    }
  }

  lemma {:induction false} TrimNothing(a: string)
    requires forall i :: 0 <= i < |a| ==> IsWhitespace(a[i])
    ensures Trim(a) == []
  {
    if a != [] {
      TrimNothing(a[1..]);
    }
  }

  /** Trimming takes the whitespace off both ends, and nothing else. */
  lemma TrimRule(a: string, t: string, b: string)
    requires forall i :: 0 <= i < |a| ==> IsWhitespace(a[i])
    requires forall i :: 0 <= i < |b| ==> IsWhitespace(b[i])
    requires t == [] || (!IsWhitespace(t[0]) && !IsWhitespace(t[|t| - 1]))
    ensures Trim(a + t + b) == t
  {
    hide Trim;
    if t == [] {
      TrimNothing(a + t + b);
    } else {
      assert a + t + b == a + (t + b);
      TrimLeft(a, t + b);
      TrimRight(t, b);
    }
  }

  /** A header is read piece by piece between its commas, each piece trimmed. */
  lemma ListedCons(a: string, rest: string)
    requires CommaFree(a)
    ensures Listed(a + "," + rest) == [Trim(a)] + Listed(rest)
    ensures Listed(a) == [Trim(a)]
  {
    hide Split, Trim;
    SplitToken(a, rest);
    TrimAllCons(a, Split(rest));
  }

  lemma TrimAllCons(a: string, parts: seq<string>)
    ensures TrimAll([a] + parts) == [Trim(a)] + TrimAll(parts)
    ensures TrimAll([a]) == [Trim(a)]
  {
    hide Trim;
  }

  predicate CommaFree(s: string) {
    forall i :: 0 <= i < |s| ==> s[i] != ','
  }

  lemma TokenIsCommaFree(t: string)
    requires IsHttpToken(t)
    ensures CommaFree(t) && CommaFree(" " + t)
  {
    forall i | 0 <= i < |t|
      ensures t[i] != ','
    {
      assert IsTchar(t[i]);
    }
  }

  lemma NoComma(lead: string, t: string)
    requires IsHttpToken(t) && (lead == "" || lead == " ")
    ensures CommaFree(lead + t) && Trim(lead + t) == t
  {
    hide CommaFree, Trim, IsHttpToken;
    TokenIsCommaFree(t);
    TrimToken(t);
    if lead == "" {
      assert lead + t == t;
    }
  }

  lemma Regroup(lead: string, t: string, tail: string)
    ensures lead + (t + ", " + tail) == lead + t + "," + (" " + tail)
  {
    assert ", " == "," + " ";
    assert ", " + tail == "," + (" " + tail);
    assert lead + (t + ", " + tail) == lead + t + (", " + tail);
  }

  /** Splitting the joined header gives the names back. */
  lemma {:induction false} ListedOfJoin(ts: seq<string>, lead: string)
    requires ts != [] && (lead == "" || lead == " ")
    requires forall t :: t in ts ==> IsHttpToken(t)
    ensures Listed(lead + Join(ts)) == ts
    decreases |ts|
  {
    hide Listed, Trim, IsHttpToken, CommaFree;
    NoComma(lead, ts[0]);
    if |ts| == 1 {
      ListedCons(lead + ts[0], "");
      assert ts == [ts[0]];
    } else {
      ListedOfJoin(ts[1..], " ");
      ListedCons(lead + ts[0], " " + Join(ts[1..]));
      Regroup(lead, ts[0], Join(ts[1..]));
      assert ts == [ts[0]] + ts[1..];
    }
  }

  // ----- The registry ------------------------------------------------------------------------

  class Registry {
    var providers: set<string>
    var acceptEncoding: Option<string>

    constructor ()
      ensures Valid() && providers == {}
    {
      providers, acceptEncoding := {}, None;
    }

    /** The cached header is the sorted list of the registered names. */
    ghost predicate Valid()
      reads this
    {
      && (forall t :: t in providers ==> IsHttpToken(t))
      && (providers == {} <==> acceptEncoding.None?)
      && (acceptEncoding.Some? ==> IsHeaderOf(providers, acceptEncoding.value))
    }

    method Register(name: string)
      requires Valid() && IsHttpToken(name)
      modifies this
      ensures Valid() && providers == old(providers) + {name}
    {
      providers := providers + {name};
      RebuildAcceptEncoding();
    }

    method RebuildAcceptEncoding()
      requires forall t :: t in providers ==> IsHttpToken(t)
      modifies this`acceptEncoding
      ensures Valid()
    {
      var encodings := SortKeys(providers);
      if encodings == [] {
        assert providers == {};
        acceptEncoding := None;
      } else {
        assert encodings[0] in providers;
        acceptEncoding := Some(Join(encodings));
        assert Sorted(encodings) && Elements(encodings) == providers;
      }
    }

    /** The first listed encoding other than identity that this registry supports. */
    method NegotiateEncoding(accept: Option<string>, request: Option<string>) returns (r: Option<string>)
      ensures accept.Some? ==> r == FirstSupported(providers, Listed(accept.value))
      ensures accept.None? ==>
                r == if request.Some? && request.value != "identity" && request.value in providers
                     then request else None
    {
      if accept.Some? {
        var listed := Listed(accept.value);
        for i := 0 to |listed|
          invariant FirstSupported(providers, listed[i..]) == FirstSupported(providers, listed)
        {
          assert listed[i..][1..] == listed[i + 1..];
          if listed[i] == "identity" {
            continue;
          }
          if listed[i] in providers {
            return Some(listed[i]);
          }
        }
        return None;
      }
      if request.Some? && request.value != "identity" && request.value in providers {
        return request;
      }
      return None;
    }
  }

  ghost predicate IsHeaderOf(keys: set<string>, header: string) {
    exists ts :: Sorted(ts) && Elements(ts) == keys && header == Join(ts)
  }

  function FirstSupported(providers: set<string>, listed: seq<string>): Option<string> {
    if listed == [] then None
    else if listed[0] != "identity" && listed[0] in providers then Some(listed[0])
    else FirstSupported(providers, listed[1..])
  }

  /** The first supported name of a list that is not identity stands at `i`. */
  ghost predicate FirstAt(providers: set<string>, listed: seq<string>, i: nat) {
    && i < |listed| && listed[i] != "identity" && listed[i] in providers
    && forall j :: 0 <= j < i ==> listed[j] == "identity" || listed[j] !in providers
  }

  lemma FirstAtBehind(providers: set<string>, listed: seq<string>, i: nat)
    requires listed != [] && (listed[0] == "identity" || listed[0] !in providers)
    ensures FirstAt(providers, listed, i + 1) <==> FirstAt(providers, listed[1..], i)
    ensures !FirstAt(providers, listed, 0)
  {
    var rest := listed[1..];
    assert forall j :: 0 <= j < |rest| ==> rest[j] == listed[j + 1];
    if FirstAt(providers, rest, i) {
      assert forall j :: 0 < j < i + 1 ==> listed[j] == rest[j - 1];
    }
  }

  /** The choice follows the order of the list. */
  lemma {:induction false} FirstSupportedIs(providers: set<string>, listed: seq<string>, e: string)
    ensures FirstSupported(providers, listed) == Some(e) <==>
            exists i: nat :: FirstAt(providers, listed, i) && listed[i] == e
  {
    if listed != [] {
      if listed[0] != "identity" && listed[0] in providers {
        assert FirstAt(providers, listed, 0);
      } else {
        var rest := listed[1..];
        FirstSupportedIs(providers, rest, e);
        if i: nat :| FirstAt(providers, rest, i) && rest[i] == e {
          FirstAtBehind(providers, listed, i);
          assert listed[i + 1] == e;
        }
        if i: nat :| FirstAt(providers, listed, i) && listed[i] == e {
          FirstAtBehind(providers, listed, 0);
          FirstAtBehind(providers, listed, i - 1);
          assert rest[i - 1] == e;
        }
      }
    }
  }

  // ----- Two registries ----------------------------------------------------------------------

  /** The encodings both sides support, identity aside. */
  function Shared(client: set<string>, server: set<string>): set<string> {
    client * server - {"identity"}
  }

  lemma {:induction false} FirstSupportedIsLeast(server: set<string>, ts: seq<string>)
    requires Sorted(ts)
    ensures var r := FirstSupported(server, ts);
            && (r.None? <==> Shared(Elements(ts), server) == {})
            && (r.Some? ==> r.value in Shared(Elements(ts), server)
                            && forall t :: t in Shared(Elements(ts), server) ==> t == r.value || Less(r.value, t))
    decreases |ts|
  {
    hide Less;
    NoElements(ts);
    if ts != [] {
      FirstSupportedIsLeast(server, ts[1..]);
      TailElements(ts);
      assert ts[0] in Elements(ts);
      forall t | t in Elements(ts)
        ensures t == ts[0] || Less(ts[0], t)
      {
        var i :| 0 <= i < |ts| && ts[i] == t;
      }
      if ts[0] != "identity" && ts[0] in server {
        assert ts[0] in Shared(Elements(ts), server);
      } else {
        assert Shared(Elements(ts), server) == Shared(Elements(ts[1..]), server);
      }
    }
  }

  /**
    The header of a registry lists exactly its names, sorted; so a server that negotiates on the
    header of a client answers with the least encoding they share, and only when there is one.
   */
  lemma NegotiationFindsLeastShared(client: set<string>, header: string, server: set<string>)
    requires client != {} && (forall t :: t in client ==> IsHttpToken(t)) && IsHeaderOf(client, header)
    ensures Sorted(Listed(header)) && Elements(Listed(header)) == client
    ensures var r := FirstSupported(server, Listed(header));
            && (r.Some? <==> Shared(client, server) != {})
            && (r.Some? ==> r.value in Shared(client, server)
                            && forall t :: t in Shared(client, server) ==> t == r.value || Less(r.value, t))
  {
    hide Listed, FirstSupported, IsHttpToken;
    var ts :| Sorted(ts) && Elements(ts) == client && header == Join(ts);
    assert ts != [];
    assert forall t :: t in ts ==> t in client;
    ListedOfJoin(ts, "");
    assert "" + header == header;
    FirstSupportedIsLeast(server, ts);
  }

  /**
    A server answers a client that sends its own cached header: with the least encoding they share,
    whatever the request was encoded with. A client without any encoding sends no header, and then
    only the request's own encoding is left.
   */
  method NegotiateBetween(client: Registry, server: Registry, request: Option<string>) returns (r: Option<string>)
    requires client.Valid() && server.Valid()
    ensures client.providers != {} ==>
              && (r.Some? <==> Shared(client.providers, server.providers) != {})
              && (r.Some? ==>
                    && r.value in Shared(client.providers, server.providers)
                    && forall t :: t in Shared(client.providers, server.providers) ==> t == r.value || Less(r.value, t))
    ensures client.providers == {} ==>
              && (r.Some? <==> request.Some? && request.value != "identity" && request.value in server.providers)
              && (r.Some? ==> r == request)
  {
    hide Listed, FirstSupported, IsHttpToken;
    r := server.NegotiateEncoding(client.acceptEncoding, request);
    if client.acceptEncoding.Some? {
      NegotiationFindsLeastShared(client.providers, client.acceptEncoding.value, server.providers);
    }
  }

  /** A registry has only one header: the order of registration does not show. */
  lemma HeaderIsUnique(keys: set<string>, a: string, b: string)
    requires IsHeaderOf(keys, a) && IsHeaderOf(keys, b)
    ensures a == b
  {
    var ts :| Sorted(ts) && Elements(ts) == keys && a == Join(ts);
    var us :| Sorted(us) && Elements(us) == keys && b == Join(us);
    SortedIsUnique(ts, us);
  }
}
