/**
  Theorems about the prose sanitizer: its output is fully escaped, it is idempotent, its
  fixed points are exactly the fully escaped lines, and it only inserts.
 */
module InlineProofs {
  import opened Options
  import opened Sequences
  import opened InlineSpec

  // ----- Backtick runs -----------------------------------------------------------------------

  /**
    Whether a run of exactly `n` backticks ends in `s`, when `open` backticks stand right before
    `s`. Unlike `TickCloser` it can be asked in the middle of a run.
   */
  predicate HasRun(s: string, open: nat, n: nat) {
    if s == [] then open == n
    else if s[0] == '`' then HasRun(s[1..], open + 1, n)
    else open == n || HasRun(s[1..], 0, n)
  }

  lemma {:induction false} HasRunAcrossTicks(s: string, open: nat, n: nat)
    ensures var k := TickRun(s); HasRun(s, open, n) == HasRun(s[k..], open + k, n)
  {
    var k := TickRun(s);
    if k > 0 {
      HasRunAcrossTicks(s[1..], open + 1, n);
      assert s[1..][k - 1..] == s[k..];
    }
  }

  lemma {:induction false} CloserIffRun(s: string, n: nat)
    requires n > 0
    ensures TickCloser(s, n).Some? <==> HasRun(s, 0, n)
    decreases |s|
  {
    if s == [] {
    } else if s[0] == '`' {
      var k := TickRun(s);
      HasRunAcrossTicks(s, 0, n);
      if k < |s| {
        CloserIffRun(s[k..], n);
      }
    } else {
      CloserIffRun(s[1..], n);
    }
  }

  lemma {:induction false} SameRunsAfter(p: string, x: string, y: string, open: nat, n: nat)
    requires forall m: nat :: HasRun(x, m, n) == HasRun(y, m, n)
    ensures HasRun(p + x, open, n) == HasRun(p + y, open, n)
  {
    if p == [] {
      assert p + x == x && p + y == y;
    } else {
      assert (p + x)[1..] == p[1..] + x && (p + y)[1..] == p[1..] + y;
      if p[0] == '`' {
        SameRunsAfter(p[1..], x, y, open + 1, n);
      } else {
        SameRunsAfter(p[1..], x, y, 0, n);
      }
    }
  }

  /** A backtick-free string that is not empty ends the open run, and nothing else. */
  lemma {:induction false} BreakEndsRun(p: string, x: string, open: nat, n: nat)
    requires n > 0 && p != [] && '`' !in p
    ensures HasRun(p + x, open, n) == (open == n || HasRun(x, 0, n))
  {
    assert (p + x)[0] == p[0] && (p + x)[1..] == p[1..] + x;
    if |p| == 1 {
      assert p[1..] + x == x;
    } else {
      BreakEndsRun(p[1..], x, 0, n);
    }
  }

  /** A bare URL may hold backticks; the angle brackets around it stand outside every run. */
  lemma WrappingKeepsRuns(u: string, x: string, y: string, open: nat, n: nat)
    requires n > 0
    requires u != [] && u[0] != '`'
    requires y == [] || y[0] != '`'
    requires forall m: nat :: HasRun(x, m, n) == HasRun(y, m, n)
    ensures HasRun("<" + u + ">" + x, open, n) == HasRun(u + y, open, n)
  {
    forall m: nat
      ensures HasRun(">" + x, m, n) == HasRun(y, m, n)
    {
      BreakEndsRun(">", x, m, n);
    }
    SameRunsAfter(u, ">" + x, y, 0, n);
    BreakEndsRun("<", u + (">" + x), open, n);
    assert "<" + u + ">" + x == "<" + (u + (">" + x));
    assert (u + y)[0] == u[0];
  }

  lemma ChunkKeepsRuns(c: Chunk, rest: string, out: string, open: nat, n: nat)
    requires n > 0 && Admissible(c)
    requires c.Wrapped? ==> rest == [] || rest[0] != '`'
    requires forall m: nat :: HasRun(out, m, n) == HasRun(rest, m, n)
    ensures HasRun(c.Render() + out, open, n) == HasRun(c.Source() + rest, open, n)
  {
    if c.Escaped? {
      BreakEndsRun(['\\', c.c], out, open, n);
      BreakEndsRun([c.c], rest, open, n);
    } else if c.Wrapped? {
      WrappingKeepsRuns(c.text, out, rest, open, n);
    } else {
      SameRunsAfter(c.Source(), out, rest, open, n);
    }
  }

  lemma SanitizedOfEmpty()
    ensures Sanitized([]) == []
  {
  }

  lemma SanitizedTurn(s: string)
    requires s != []
    ensures var c := NextChunk(s); Sanitized(s) == c.Render() + Sanitized(s[|c.Source()|..])
  {
    hide NextChunk;
  }

  lemma UrlStops(s: string)
    requires s != [] && NextChunk(s).Wrapped?
    ensures var n := |NextChunk(s).text|; n == |s| || StopsUrl(s[n]) || IsSentencePunctuation(s[n])
  {
    hide TickCloser, LinkEnd, AutolinkEnd, HasScheme, UrlSpan, TrimPunctuation;
    assert NextChunk(s).text == s[..UrlEnd(s)];
  }

  /** One turn of the scan: what it takes off the line, and what it leaves. */
  lemma Turn(s: string) returns (c: Chunk, rest: string)
    requires s != []
    ensures c == NextChunk(s) && rest == s[|c.Source()|..] && |rest| < |s|
    ensures s == c.Source() + rest
    ensures Sanitized(s) == c.Render() + Sanitized(rest)
    ensures Admissible(c)
    ensures c.Source()[0] == s[0]
    ensures c.Wrapped? ==> rest == [] || StopsUrl(rest[0]) || IsSentencePunctuation(rest[0])
  {
    hide NextChunk, Sanitized;
    c := NextChunk(s);
    rest := s[|c.Source()|..];
    SanitizedTurn(s);
    if c.Wrapped? {
      UrlStops(s);
    }
  }

  /** Insertions never split, join or add a backtick run. */
  lemma {:induction false} SanitizedKeepsRuns(s: string, open: nat, n: nat)
    requires n > 0
    ensures HasRun(Sanitized(s), open, n) == HasRun(s, open, n)
    decreases |s|
  {
    hide Sanitized, NextChunk, HasRun;
    SanitizedOfEmpty();
    if s != [] {
      var c, rest := Turn(s);
      forall m: nat
        ensures HasRun(Sanitized(rest), m, n) == HasRun(rest, m, n)
      {
        SanitizedKeepsRuns(rest, m, n);
      }
      ChunkKeepsRuns(c, rest, Sanitized(rest), open, n);
    }
  }

  // ----- The head of the output --------------------------------------------------------------

  lemma TickHead(s: string)
    ensures Sanitized(s) == [] <==> s == []
    ensures s != [] ==> (Sanitized(s)[0] == '`' <==> s[0] == '`')
  {
    if s != [] {
      var c := NextChunk(s);
      assert c.Source()[0] == s[0];
      assert Sanitized(s)[0] == c.Render()[0];
    }
  }

  predicate IsPlain(c: char) {
    c != '`' && c != '\\' && c != 'h' && !IsBracket(c)
  }

  lemma PlainStep(s: string)
    requires s != [] && IsPlain(s[0])
    ensures Sanitized(s) == [s[0]] + Sanitized(s[1..])
  {
    assert NextChunk(s) == Plain(s[0]);
  }

  lemma PlainHead(s: string)
    requires s != []
    ensures Sanitized(s) != [] && (IsPlain(Sanitized(s)[0]) <==> IsPlain(s[0]))
  {
    var c, rest := Turn(s);
    assert Sanitized(s)[0] == c.Render()[0];
    if IsPlain(s[0]) {
      PlainStep(s);
    }
  }

  lemma PrefixOfCons(p: string, a: char, x: string)
    requires p != []
    ensures p <= [a] + x <==> p[0] == a && p[1..] <= x
  {
    assert ([a] + x)[1..] == x;
  }

  /** Characters that no rule touches come out where they went in. */
  lemma {:induction false} PlainPrefix(p: string, s: string)
    requires forall i :: 0 <= i < |p| ==> IsPlain(p[i])
    ensures p <= Sanitized(s) <==> p <= s
  {
    hide Sanitized, NextChunk;
    SanitizedOfEmpty();
    if p != [] && s != [] {
      PlainHead(s);
      if IsPlain(s[0]) {
        PlainStep(s);
        PlainPrefix(p[1..], s[1..]);
        PrefixOfCons(p, s[0], s[1..]);
        PrefixOfCons(p, s[0], Sanitized(s[1..]));
        assert s == [s[0]] + s[1..];
      }
    }
  }

  /** Sanitizing what follows an `h` neither makes nor breaks a URL scheme. */
  lemma SchemeAfterH(s: string)
    ensures HasScheme("h" + Sanitized(s)) <==> HasScheme("h" + s)
  {
    hide Sanitized, HasScheme;
    PlainPrefix("ttp://", s);
    PlainPrefix("ttps://", s);
    SchemeFromTail(s);
    SchemeFromTail(Sanitized(s));
  }

  lemma SchemeFromTail(x: string)
    ensures HasScheme("h" + x) <==> "ttp://" <= x || "ttps://" <= x
  {
    assert "http://"[1..] == "ttp://" && "https://"[1..] == "ttps://";
    PrefixOfCons("http://", 'h', x);
    PrefixOfCons("https://", 'h', x);
  }

  // ----- Lookahead is local ------------------------------------------------------------------

  lemma {:induction false} TickRunLocal(p: string, x: string)
    requires forall i :: 0 <= i < |p| ==> p[i] == '`'
    requires x == [] || x[0] != '`'
    ensures TickRun(p + x) == |p|
  {
    if p == [] {
      assert p + x == x;
    } else {
      assert (p + x)[1..] == p[1..] + x;
      TickRunLocal(p[1..], x);
    }
  }

  lemma {:induction false} TickCloserLocal(p: string, x: string, y: string, n: nat)
    requires n > 0
    requires TickCloser(p + x, n) == Some(|p|)
    requires y == [] || y[0] != '`'
    ensures TickCloser(p + y, n) == Some(|p|)
    decreases |p|
  {
    hide TickRun;
    var s := p + x;
    if p == [] {
      assert false by { CloserIsPositive(s, n); }
    } else if s[0] == '`' {
      var k := TickRun(s);
      if k == n {
        assert forall i :: 0 <= i < |p| ==> p[i] == s[i];
        TickRunLocal(p, y);
      } else {
        CloserIsPositive(s[k..], n);
        assert 0 < k < |p|;
        DropConcat(p, x, k);
        DropConcat(p, y, k);
        TickCloserLocal(p[k..], x, y, n);
        RunInside(p, x, y);
      }
    } else {
      DropConcat(p, x, 1);
      DropConcat(p, y, 1);
      TickCloserLocal(p[1..], x, y, n);
    }
  }

  lemma {:induction false} CloserIsPositive(s: string, n: nat)
    requires n > 0 && TickCloser(s, n).Some?
    ensures TickCloser(s, n).value > 0
  {
  }

  lemma {:induction false} RunInside(p: string, x: string, y: string)
    requires TickRun(p + x) < |p|
    ensures TickRun(p + y) == TickRun(p + x)
  {
    if p[0] == '`' {
      assert (p + x)[1..] == p[1..] + x && (p + y)[1..] == p[1..] + y;
      RunInside(p[1..], x, y);
    }
  }

  lemma {:induction false} LabelEndLocal(p: string, x: string, y: string)
    requires LabelEnd(p + x).Some? && LabelEnd(p + x).value < |p|
    ensures LabelEnd(p + y) == LabelEnd(p + x)
  {
    if (p + x)[0] != ']' {
      assert (p + x)[1..] == p[1..] + x && (p + y)[1..] == p[1..] + y;
      LabelEndLocal(p[1..], x, y);
    }
  }

  lemma {:induction false} CloseParenLocal(p: string, x: string, y: string, depth: nat)
    requires depth > 0
    requires CloseParen(p + x, depth).Some? && CloseParen(p + x, depth).value < |p|
    ensures CloseParen(p + y, depth) == CloseParen(p + x, depth)
  {
    assert (p + x)[1..] == p[1..] + x && (p + y)[1..] == p[1..] + y;
    if p[0] == '(' {
      CloseParenLocal(p[1..], x, y, depth + 1);
    } else if p[0] != ')' {
      CloseParenLocal(p[1..], x, y, depth);
    } else if depth > 1 {
      CloseParenLocal(p[1..], x, y, depth - 1);
    }
  }

  lemma LinkEndLocal(p: string, x: string, y: string)
    requires p != [] && LinkEnd(p + x) == Some(|p| - 1)
    ensures LinkEnd(p + y) == Some(|p| - 1)
  {
    hide LabelEnd, CloseParen;
    var j := LabelEnd((p + x)[1..]).value;
    DropConcat(p, x, 1);
    DropConcat(p, y, 1);
    LabelEndLocal(p[1..], x, y);
    DropConcat(p, x, j + 3);
    DropConcat(p, y, j + 3);
    CloseParenLocal(p[j + 3..], x, y, 1);
  }

  lemma {:induction false} IndexOfFirst(p: string, x: string, c: char)
    requires c !in p
    ensures IndexOf(p + [c] + x, c) == Some(|p|)
  {
    if p != [] {
      assert (p + [c] + x)[1..] == p[1..] + [c] + x;
      IndexOfFirst(p[1..], x, c);
    } else {
      assert p + [c] + x == [c] + x;
    }
  }

  lemma {:induction false} IndexOfAbsentBefore(s: string, c: char)
    requires IndexOf(s, c).Some?
    ensures c !in s[..IndexOf(s, c).value]
  {
    if s[0] != c {
      IndexOfAbsentBefore(s[1..], c);
      var k := IndexOf(s, c).value;
      assert s[..k] == [s[0]] + s[1..][..k - 1];
    }
  }

  lemma AutolinkEndLocal(u: string, x: string)
    requires HasScheme(u) && '>' !in u
    ensures AutolinkEnd("<" + u + ">" + x) == Some(|u| + 1)
  {
    var t := "<" + u + ">" + x;
    assert t[1..] == u + [('>')] + x;
    IndexOfFirst(u, x, '>');
  }

  // ----- One turn of the scan, replayed on the output ----------------------------------------

  /** What the scan recognises when it meets the rendering of `c` again. */
  function Settled(c: Chunk): Chunk {
    match c
    case Escaped(b) => AuthorEscape(['\\', b])
    case Wrapped(u) => Autolink("<" + u + ">")
    case _ => c
  }

  /** The closing run is a whole run: the character after it is not a backtick. */
  lemma {:induction false} CloserStopsRun(s: string, n: nat)
    requires TickCloser(s, n).Some?
    ensures var e := TickCloser(s, n).value; e < |s| ==> s[e] != '`'
    decreases |s|
  {
    if s[0] == '`' {
      var k := TickRun(s);
      if k != n {
        CloserStopsRun(s[k..], n);
      }
    } else {
      CloserStopsRun(s[1..], n);
    }
  }

  lemma SpanReplay(ticks: string, body: string, x: string, y: string)
    requires ticks != [] && forall i :: 0 <= i < |ticks| ==> ticks[i] == '`'
    requires TickCloser(body + x, |ticks|) == Some(|body|)
    requires body != [] && body[0] != '`'
    requires y == [] || y[0] != '`'
    ensures NextChunk(ticks + body + y) == CodeSpan(ticks + body)
  {
    var t := ticks + body + y;
    assert t == ticks + (body + y);
    TickRunLocal(ticks, body + y);
    assert t[|ticks|..] == body + y;
    TickCloserLocal(body, x, y, |ticks|);
    assert t[..|ticks| + |body|] == ticks + body;
  }

  lemma LoneReplay(ticks: string, rest: string)
    requires ticks != [] && forall i :: 0 <= i < |ticks| ==> ticks[i] == '`'
    requires rest == [] || rest[0] != '`'
    requires TickCloser(rest, |ticks|) == None
    ensures NextChunk(ticks + Sanitized(rest)) == LoneTicks(ticks)
  {
    hide Sanitized;
    var t, n := ticks + Sanitized(rest), |ticks|;
    TickHead(rest);
    TickRunLocal(ticks, Sanitized(rest));
    assert t[n..] == Sanitized(rest) && t[..n] == ticks;
    CloserIffRun(rest, n);
    SanitizedKeepsRuns(rest, 0, n);
    CloserIffRun(Sanitized(rest), n);
  }

  lemma TicksReplay(s: string, c: Chunk, rest: string)
    requires s != [] && s[0] == '`' && c == NextChunk(s) && rest == s[|c.Source()|..]
    ensures NextChunk(c.Render() + Sanitized(rest)) == c
  {
    hide Sanitized, TickCloser, TickRun;
    var n := TickRun(s);
    var ticks := s[..n];
    match TickCloser(s[n..], n) {
      case Some(end) =>
        var body := s[n..n + end];
        CloserStopsRun(s[n..], n);
        CloserIsPositive(s[n..], n);
        assert s[n..] == body + rest;
        TickHead(rest);
        assert c.text == ticks + body;
        SpanReplay(ticks, body, rest, Sanitized(rest));
      case None =>
        LoneReplay(ticks, rest);
    }
  }

  /** A scheme at the head of `s` lies inside any prefix that reaches up to the first `>`. */
  lemma SchemeWithin(s: string, u: string)
    requires HasScheme(s) && u <= s && '>' !in u
    requires |u| < |s| && s[|u|] == '>'
    ensures HasScheme(u)
  {
    var k := if "http://" <= s then 7 else 8;
    assert forall i :: 0 <= i < k ==> s[i] in "https:/";
    assert s[|u|] == '>';
    assert k <= |u|;
    assert u[..k] == s[..k];
  }

  lemma AutolinkReplay(s: string, c: Chunk, x: string)
    requires s != [] && c == NextChunk(s) && c.Autolink?
    ensures NextChunk(c.text + x) == c
  {
    hide IndexOf;
    var e := AutolinkEnd(s).value;
    IndexOfAbsentBefore(s[1..], '>');
    var u := s[1..e];
    assert s[1..][..e - 1] == u && c.text == "<" + u + ">";
    SchemeWithin(s[1..], u);
    AutolinkEndLocal(u, x);
    assert (c.text + x)[..|c.text|] == c.text;
  }

  lemma WrappedReplay(u: string, x: string)
    requires Admissible(Wrapped(u))
    ensures NextChunk(Wrapped(u).Render() + x) == Autolink(Wrapped(u).Render())
  {
    hide IndexOf;
    AutolinkEndLocal(u, x);
    var t := "<" + u + ">" + x;
    assert t[..|u| + 2] == "<" + u + ">";
  }

  lemma LinkReplay(s: string, c: Chunk, rest: string, x: string)
    requires s != [] && c == NextChunk(s) && c.Link? && s == c.text + rest
    ensures NextChunk(c.text + x) == c
  {
    hide LinkEnd;
    LinkEndLocal(c.text, rest, x);
    assert (c.text + x)[..|c.text|] == c.text;
  }

  lemma PlainReplay(s: string)
    requires s != [] && NextChunk(s).Plain?
    ensures NextChunk([s[0]] + Sanitized(s[1..])) == Plain(s[0])
  {
    hide Sanitized, HasScheme;
    if s[0] == 'h' {
      SchemeAfterH(s[1..]);
      assert s == "h" + s[1..];
    }
  }

  lemma EscapeReplay(s: string, c: Chunk, rest: string)
    requires s != [] && c == NextChunk(s) && c.AuthorEscape? && rest == s[|c.text|..]
    ensures NextChunk(c.text + Sanitized(rest)) == c
  {
    hide Sanitized;
    SanitizedOfEmpty();
    if |s| == 1 {
      assert c.text + Sanitized(rest) == s;
    } else {
      assert (c.text + Sanitized(rest))[..2] == c.text;
    }
  }

  /** The output is cut at the same places as the line. */
  lemma Replay(s: string, c: Chunk, rest: string)
    requires s != [] && c == NextChunk(s) && rest == s[|c.Source()|..]
    ensures NextChunk(c.Render() + Sanitized(rest)) == Settled(c)
  {
    hide Sanitized;
    match c {
      case LoneTicks(_) => TicksReplay(s, c, rest);
      case CodeSpan(_) => TicksReplay(s, c, rest);
      case AuthorEscape(_) => EscapeReplay(s, c, rest);
      case Link(_) => LinkReplay(s, c, rest, Sanitized(rest));
      case Autolink(_) => AutolinkReplay(s, c, Sanitized(rest));
      case Wrapped(u) => WrappedReplay(u, Sanitized(rest));
      case Escaped(b) => assert (['\\', b] + Sanitized(rest))[..2] == ['\\', b];
      case Plain(_) => PlainReplay(s);
    }
  }

  // ----- Theorems ----------------------------------------------------------------------------

  lemma SafeTicks(t: string)
    requires t != [] && t[0] == '`'
    ensures !NextChunk(t).Escaped? && !NextChunk(t).Wrapped?
    ensures FullyEscaped(t) <==> FullyEscaped(t[|NextChunk(t).Source()|..])
  {
    hide TickRun, TickCloser, LinkEnd, AutolinkEnd, HasScheme, UrlEnd;
    var n := TickRun(t);
    var end := TickCloser(t[n..], n);
    var c := TickSpan(t);
    assert NextChunk(t) == c;
    assert |c.text| == if end.Some? then n + end.value else n;
  }

  /** A line is fully escaped when its first chunk needs no insertion and the rest is. */
  lemma SafeIff(t: string)
    requires t != []
    ensures var c := NextChunk(t);
            FullyEscaped(t) <==> !c.Escaped? && !c.Wrapped? && FullyEscaped(t[|c.Source()|..])
  {
    hide TickSpan, TickRun, TickCloser, LinkEnd, AutolinkEnd, HasScheme, UrlEnd;
    if t[0] == '`' {
      SafeTicks(t);
    } else if t[0] == '\\' && |t| == 1 {
      assert t[1..] == [];
    } else {
      SchemeHead(t);
    }
  }

  lemma SchemeHead(t: string)
    ensures HasScheme(t) ==> t[0] == 'h'
  {
  }

  /** Every bracket of the output is escaped or part of a complete construct. */
  lemma {:induction false} SanitizedIsSafe(s: string)
    ensures FullyEscaped(Sanitized(s))
    decreases |s|
  {
    hide Sanitized, NextChunk;
    SanitizedOfEmpty();
    if s != [] {
      var c, rest := Turn(s);
      SanitizedIsSafe(rest);
      Replay(s, c, rest);
      var t := c.Render() + Sanitized(rest);
      assert Settled(c).Source() == c.Render();
      assert t[|c.Render()|..] == Sanitized(rest);
      SafeIff(t);
    }
  }

  /** Safe lines are left alone. */
  lemma {:induction false} SafeIsFixed(t: string)
    requires FullyEscaped(t)
    ensures Sanitized(t) == t
    decreases |t|
  {
    hide FullyEscaped, NextChunk;
    if t != [] {
      var c, rest := Turn(t);
      SafeIff(t);
      SafeIsFixed(rest);
    }
  }

  /** The sanitizer changes nothing exactly on the safe lines. */
  lemma FixedIffSafe(t: string)
    ensures Sanitized(t) == t <==> FullyEscaped(t)
  {
    SanitizedIsSafe(t);
    if FullyEscaped(t) {
      SafeIsFixed(t);
    }
  }

  lemma SanitizedIdempotent(s: string)
    ensures Sanitized(Sanitized(s)) == Sanitized(s)
  {
    SanitizedIsSafe(s);
    SafeIsFixed(Sanitized(s));
  }

  // ----- Losslessness ------------------------------------------------------------------------

  function Sources(cs: seq<Chunk>): string {
    if cs == [] then [] else cs[0].Source() + Sources(cs[1..])
  }

  function Renders(cs: seq<Chunk>): string {
    if cs == [] then [] else cs[0].Render() + Renders(cs[1..])
  }

  /**
    The line is the concatenation of its chunks, the output is the concatenation of their
    renderings, and a rendering differs from its chunk only by the admissible insertions.
   */
  lemma {:induction false} SanitizedIsLossless(s: string)
    ensures Sources(Chunks(s)) == s
    ensures Renders(Chunks(s)) == Sanitized(s)
    ensures forall c :: c in Chunks(s) ==> Admissible(c)
    decreases |s|
  {
    if s != [] {
      var c := NextChunk(s);
      SanitizedIsLossless(s[|c.Source()|..]);
      assert Chunks(s)[1..] == Chunks(s[|c.Source()|..]);
    }
  }

  /** Drops the characters that the sanitizer may insert. */
  function Bare(s: string): string {
    if s == [] then [] else (if s[0] in "\\<>" then [] else [s[0]]) + Bare(s[1..])
  }

  lemma {:induction false} BareConcat(a: string, b: string)
    ensures Bare(a + b) == Bare(a) + Bare(b)
  {
    if a == [] {
      assert a + b == b;
    } else {
      assert (a + b)[1..] == a[1..] + b;
      BareConcat(a[1..], b);
    }
  }

  lemma RenderKeepsText(c: Chunk)
    requires Admissible(c)
    ensures Bare(c.Render()) == Bare(c.Source())
  {
    if c.Escaped? {
      assert ['\\', c.c] == "\\" + [c.c];
      BareConcat("\\", [c.c]);
    } else if c.Wrapped? {
      BareConcat("<" + c.text, ">");
      BareConcat("<", c.text);
    }
  }

  /** Up to backslashes and angle brackets, the output is the input. */
  lemma {:induction false} SanitizedKeepsText(s: string)
    ensures Bare(Sanitized(s)) == Bare(s)
    decreases |s|
  {
    hide Sanitized, NextChunk;
    SanitizedOfEmpty();
    if s != [] {
      var c, rest := Turn(s);
      SanitizedKeepsText(rest);
      BareConcat(c.Source(), rest);
      BareConcat(c.Render(), Sanitized(rest));
      RenderKeepsText(c);
    }
  }
}
