/**
  What the prose sanitizer of connectrpc-codegen/src/comments.rs does with each construct, stated on
  the text itself: the constructs are spelled out with quantifiers and literal characters, without
  the finders that the scan uses. Every line starts in one of these ways, so the rules fix the
  sanitized form of every line.
 */
module InlineRules {
  import opened Options
  import opened Sequences
  import opened InlineSpec
  import InlineProofs

  lemma OneChunk(s: string, c: Chunk, rest: string)
    requires s != [] && NextChunk(s) == c && s == c.Source() + rest
    ensures Sanitized(s) == c.Render() + Sanitized(rest)
  {
    hide NextChunk, Sanitized;
    InlineProofs.SanitizedTurn(s);
    assert s[|c.Source()|..] == rest;
  }

  // ----- Links -------------------------------------------------------------------------------

  function Count(s: string, c: char): nat {
    if s == [] then 0 else (if s[0] == c then 1 else 0) + Count(s[1..], c)
  }

  /** Parentheses pair up: no prefix closes more than it opens, and in the end all are closed. */
  ghost predicate Balanced(url: string) {
    && Count(url, '(') == Count(url, ')')
    && forall k :: 0 <= k <= |url| ==> Count(url[..k], ')') <= Count(url[..k], '(')
  }

  /** The parentheses of `u` stay within `depth` open ones and close all of them but one. */
  ghost predicate LeavesOne(u: string, depth: nat) {
    && depth + Count(u, '(') == 1 + Count(u, ')')
    && forall k :: 0 <= k <= |u| ==> Count(u[..k], ')') < depth + Count(u[..k], '(')
  }

  lemma CountPrefix(u: string, k: nat, c: char)
    requires u != [] && 0 < k <= |u|
    ensures Count(u[..k], c) == (if u[0] == c then 1 else 0) + Count(u[1..][..k - 1], c)
  {
    assert u[..k][1..] == u[1..][..k - 1];
  }

  function DepthAfter(c: char, depth: nat): nat
    requires depth > 0
  {
    if c == '(' then depth + 1 else if c == ')' then depth - 1 else depth
  }

  lemma LeavesOneStep(u: string, depth: nat)
    requires u != [] && depth > 0
    ensures LeavesOne(u, depth) <==> DepthAfter(u[0], depth) > 0 && LeavesOne(u[1..], DepthAfter(u[0], depth))
  {
    var d := DepthAfter(u[0], depth);
    CountPrefix(u, |u|, '(');
    CountPrefix(u, |u|, ')');
    assert u[..|u|] == u && u[1..][..|u| - 1] == u[1..];
    if LeavesOne(u, depth) {
      forall k | 0 <= k <= |u[1..]|
        ensures Count(u[1..][..k], ')') < d + Count(u[1..][..k], '(')
      {
        CountPrefix(u, k + 1, '(');
        CountPrefix(u, k + 1, ')');
        assert Count(u[..k + 1], ')') < depth + Count(u[..k + 1], '(');
      }
      assert u[1..][..0] == [];
      assert Count(u[1..][..0], ')') < d + Count(u[1..][..0], '(');
    }
    if d > 0 && LeavesOne(u[1..], d) {
      forall k | 0 <= k <= |u|
        ensures Count(u[..k], ')') < depth + Count(u[..k], '(')
      {
        if k > 0 {
          CountPrefix(u, k, '(');
          CountPrefix(u, k, ')');
          assert Count(u[1..][..k - 1], ')') < d + Count(u[1..][..k - 1], '(');
        } else {
          assert u[..0] == [];
        }
      }
    }
  }

  /** The search stops exactly at the parenthesis that leaves none open. */
  lemma {:induction false} CloseParenIff(s: string, depth: nat, e: nat)
    requires depth > 0
    ensures CloseParen(s, depth) == Some(e) <==> e < |s| && s[e] == ')' && LeavesOne(s[..e], depth)
    decreases |s|
  {
    hide LeavesOne;
    if s != [] {
      if e > 0 && e <= |s| {
        LeavesOneStep(s[..e], depth);
        assert s[..e][1..] == s[1..][..e - 1];
      }
      LeavesNothing(depth);
      assert s[..0] == [];
      var d := DepthAfter(s[0], depth);
      if d > 0 && e > 0 {
        CloseParenIff(s[1..], d, e - 1);
      }
    }
  }

  lemma LeavesNothing(depth: nat)
    ensures LeavesOne([], depth) <==> depth == 1
  {
  }

  lemma BalancedLeavesOne(url: string)
    ensures LeavesOne(url, 1) <==> Balanced(url)
  {
  }

  lemma {:induction false} LabelEndIff(s: string, j: nat)
    ensures LabelEnd(s) == Some(j) <==> j < |s| && s[j] == ']' && '[' !in s[..j] && ']' !in s[..j]
  {
    if s != [] {
      assert s[..0] == [];
      if j > 0 {
        LabelEndIff(s[1..], j - 1);
        if j <= |s| {
          assert s[..j] == [s[0]] + s[1..][..j - 1];
        }
      }
    }
  }

  /** A complete inline link at the head of a text. */
  ghost predicate IsLink(text: string, name: string, url: string) {
    && text == "[" + name + "](" + url + ")"
    && '[' !in name && ']' !in name && Balanced(url)
  }

  lemma LinkEndOf(name: string, url: string, rest: string)
    requires '[' !in name && ']' !in name && Balanced(url)
    ensures var text := "[" + name + "](" + url + ")"; LinkEnd(text + rest) == Some(|text| - 1)
  {
    hide LabelEnd, CloseParen, Balanced;
    var text := "[" + name + "](" + url + ")";
    var s := text + rest;
    var j := |name|;
    assert s[1..] == name + ("](" + url + ")" + rest);
    assert s[1..][..j] == name && s[1..][j] == ']';
    LabelEndIff(s[1..], j);
    assert s[j + 2] == '(';
    assert s[j + 3..] == url + (")" + rest);
    assert s[j + 3..][..|url|] == url && s[j + 3..][|url|] == ')';
    BalancedLeavesOne(url);
    CloseParenIff(s[j + 3..], 1, |url|);
  }

  lemma LinkOfEnd(s: string) returns (name: string, url: string)
    requires s != [] && s[0] == '[' && LinkEnd(s).Some?
    ensures IsLink(s[..LinkEnd(s).value + 1], name, url)
  {
    hide LabelEnd, CloseParen, Balanced;
    var j := LabelEnd(s[1..]).value;
    LabelEndIff(s[1..], j);
    name := s[1..][..j];
    var e := CloseParen(s[j + 3..], 1).value;
    CloseParenIff(s[j + 3..], 1, e);
    url := s[j + 3..][..e];
    BalancedLeavesOne(url);
    var text := s[..j + 3 + e + 1];
    assert text == s[..1] + s[1..j + 1] + s[j + 1..j + 3] + s[j + 3..j + 3 + e] + s[j + 3 + e..j + 3 + e + 1];
    assert s[j + 1..j + 3] == "](" && s[j + 3 + e..j + 3 + e + 1] == ")" && s[..1] == "[";
    assert s[1..j + 1] == name && s[j + 3..j + 3 + e] == url;
  }

  /** A complete inline link is left as it is. */
  lemma LinkRule(name: string, url: string, rest: string)
    requires '[' !in name && ']' !in name && Balanced(url)
    ensures var text := "[" + name + "](" + url + ")"; Sanitized(text + rest) == text + Sanitized(rest)
  {
    hide LinkEnd, Sanitized, TickSpan, Balanced;
    var text := "[" + name + "](" + url + ")";
    LinkEndOf(name, url, rest);
    assert (text + rest)[0] == '[' && (text + rest)[..|text|] == text;
    OneChunk(text + rest, Link(text), rest);
  }

  lemma LinkEndGivesLink(rest: string)
    requires LinkEnd("[" + rest).Some?
    ensures exists name, url, k :: 0 <= k <= |rest| && IsLink("[" + rest[..k], name, url)
  {
    hide LinkEnd, IsLink;
    var s := "[" + rest;
    var name, url := LinkOfEnd(s);
    var e := LinkEnd(s).value;
    assert s[..e + 1] == "[" + rest[..e];
  }

  /** Any other opening bracket is escaped. */
  lemma OpenBracketRule(rest: string)
    requires forall name, url, k :: 0 <= k <= |rest| ==> !IsLink("[" + rest[..k], name, url)
    ensures Sanitized("[" + rest) == "\\[" + Sanitized(rest)
  {
    hide LinkEnd, Sanitized, TickSpan, IsLink;
    var s := "[" + rest;
    if LinkEnd(s).Some? {
      LinkEndGivesLink(rest);
      assert false;
    }
    OneChunk(s, Escaped('['), rest);
  }

  /** So is one whose label is not followed by a parenthesis. */
  lemma NoUrlRule(name: string, rest: string)
    requires '[' !in name && ']' !in name && (rest == [] || rest[0] != '(')
    ensures Sanitized("[" + name + "]" + rest) == "\\[" + Sanitized(name + "]" + rest)
  {
    hide LabelEnd, Sanitized, TickSpan;
    var s, tail := "[" + name + "]" + rest, name + "]" + rest;
    assert s[1..] == tail && s[0] == '[' && tail[..|name|] == name && tail[|name|] == ']';
    LabelEndIff(tail, |name|);
    assert rest != [] ==> s[|name| + 2] == rest[0];
    assert LinkEnd(s) == None;
    OneChunk(s, Escaped('['), tail);
  }

  // ----- Autolinks and bare URLs -------------------------------------------------------------

  predicate StartsUrl(s: string) {
    "http://" <= s || "https://" <= s
  }

  /** A URL in angle brackets is left as it is. */
  lemma AutolinkRule(url: string, rest: string)
    requires StartsUrl(url) && '>' !in url
    ensures Sanitized("<" + url + ">" + rest) == "<" + url + ">" + Sanitized(rest)
  {
    hide AutolinkEnd, Sanitized, TickSpan;
    var text := "<" + url + ">";
    var s := text + rest;
    InlineProofs.AutolinkEndLocal(url, rest);
    assert s[0] == '<' && s[..|text|] == text;
    OneChunk(s, Autolink(text), rest);
  }

  /** Any other opening angle bracket is escaped. */
  lemma OpenAngleRule(rest: string)
    requires !StartsUrl(rest) || '>' !in rest
    ensures Sanitized("<" + rest) == "\\<" + Sanitized(rest)
  {
    hide Sanitized, TickSpan, IndexOf;
    var s := "<" + rest;
    assert s[1..] == rest;
    assert AutolinkEnd(s) == None;
    OneChunk(s, Escaped('<'), rest);
  }

  predicate EndsUrl(c: char) {
    c in [' ', '\t', '\n', '\r', 12 as char, ')', '<', '>']
  }

  predicate IsSentenceEnd(c: char) {
    c in ".,;:!?"
  }

  /** The sanitizer's two character classes, as spelled out here. */
  lemma UrlClasses()
    ensures forall c :: EndsUrl(c) <==> StopsUrl(c)
    ensures forall c :: IsSentenceEnd(c) <==> IsSentencePunctuation(c)
    ensures forall c :: IsSentenceEnd(c) ==> !EndsUrl(c)
  {
  }

  lemma {:induction false} UrlSpanIs(u: string, rest: string)
    requires (forall i :: 0 <= i < |u| ==> !EndsUrl(u[i])) && (rest == [] || EndsUrl(rest[0]))
    ensures UrlSpan(u + rest) == |u|
  {
    if u == [] {
      assert u + rest == rest;
    } else {
      DropConcat(u, rest, 1);
      UrlSpanIs(u[1..], rest);
    }
  }

  lemma {:induction false} TrimIs(s: string, n: nat, m: nat)
    requires m <= n <= |s| && (forall i :: m <= i < n ==> IsSentenceEnd(s[i]))
    requires m > 0 && !IsSentenceEnd(s[m - 1])
    ensures TrimPunctuation(s, n) == m
    decreases n - m
  {
    if n > m {
      assert IsSentencePunctuation(s[n - 1]);
      TrimIs(s, n - 1, m);
    } else {
      assert !IsSentencePunctuation(s[m - 1]);
    }
  }

  /**
    A bare URL goes up to whitespace, a closing parenthesis or an angle bracket; sentence punctuation
    at its end stays outside. It is put in angle brackets.
   */
  lemma BareUrlRule(url: string, dots: string, rest: string)
    requires StartsUrl(url) && !IsSentenceEnd(url[|url| - 1])
    requires forall i :: 0 <= i < |url| ==> !EndsUrl(url[i])
    requires forall i :: 0 <= i < |dots| ==> IsSentenceEnd(dots[i])
    requires rest == [] || EndsUrl(rest[0])
    ensures Sanitized(url + dots + rest) == "<" + url + ">" + Sanitized(dots + rest)
  {
    hide Sanitized, TickSpan, UrlEnd, HasScheme, StartsUrl, EndsUrl, IsSentenceEnd;
    var s := url + dots + rest;
    Associate(url, dots, rest);
    assert s[..|url|] == url;
    SchemeOfUrl(url, s);
    UrlEndOf(url, dots, rest);
    OneChunk(s, Wrapped(url), dots + rest);
  }

  lemma UrlEndOf(url: string, dots: string, rest: string)
    requires url != [] && !IsSentenceEnd(url[|url| - 1])
    requires forall i :: 0 <= i < |url| ==> !EndsUrl(url[i])
    requires forall i :: 0 <= i < |dots| ==> IsSentenceEnd(dots[i])
    requires rest == [] || EndsUrl(rest[0])
    ensures UrlEnd(url + dots + rest) == |url|
  {
    UrlClasses();
    hide UrlSpan, TrimPunctuation, EndsUrl, IsSentenceEnd;
    var s := url + dots + rest;
    UrlSpanIs(url + dots, rest);
    assert s[|url| - 1] == url[|url| - 1];
    assert forall i :: |url| <= i < |url + dots| ==> s[i] == dots[i - |url|];
    TrimIs(s, |url + dots|, |url|);
  }

  lemma SchemeOfUrl(url: string, s: string)
    requires StartsUrl(url) && url <= s
    ensures HasScheme(s) && s[0] == 'h' && url != []
  {
    var p := if "http://" <= url then "http://" else "https://";
    assert p <= s;
    assert s[0] == p[0];
  }

  /** Every text that starts like a URL has this form. */
  lemma BareUrlParts(s: string) returns (url: string, dots: string, rest: string)
    requires StartsUrl(s)
    ensures s == url + dots + rest && StartsUrl(url) && !IsSentenceEnd(url[|url| - 1])
    ensures forall i :: 0 <= i < |url| ==> !EndsUrl(url[i])
    ensures forall i :: 0 <= i < |dots| ==> IsSentenceEnd(dots[i])
    ensures rest == [] || EndsUrl(rest[0])
  {
    UrlClasses();
    hide UrlSpan, TrimPunctuation, EndsUrl, StopsUrl, IsSentenceEnd, IsSentencePunctuation;
    var n, m := UrlSpan(s), UrlEnd(s);
    UrlEndKeepsScheme(s);
    url, dots, rest := s[..m], s[m..n], s[n..];
    assert s == url + dots + rest;
    assert forall i :: 0 <= i < |url| ==> url[i] == s[i];
    assert url[|url| - 1] == s[m - 1];
  }

  // ----- Code spans --------------------------------------------------------------------------

  /** A run of exactly `n` backticks of `s` that ends at `e`, with none next to it. */
  ghost predicate WholeRun(s: string, e: nat, n: nat) {
    && n <= e <= |s|
    && (forall i :: e - n <= i < e ==> s[i] == '`')
    && (e < |s| ==> s[e] != '`') && (n < e ==> s[e - n - 1] != '`')
  }

  ghost predicate IsRest(s: string, k: nat, t: string) {
    |s| == k + |t| && forall i :: 0 <= i < |t| ==> t[i] == s[k + i]
  }

  lemma RunInRest(s: string, k: nat, t: string, e: nat, n: nat)
    requires IsRest(s, k, t) && 0 < n && k + n <= e && WholeRun(s, e, n)
    ensures WholeRun(t, e - k, n)
  {
    assert forall i :: e - k - n <= i < e - k ==> t[i] == s[k + i] == '`';
    if e < |s| {
      assert t[e - k] == s[k + (e - k)];
    }
    if k + n < e {
      assert t[e - k - n - 1] == s[k + (e - k - n - 1)];
    }
  }

  lemma RunOfRest(s: string, k: nat, t: string, e: nat, n: nat)
    requires IsRest(s, k, t) && 0 < k && 0 < n && k + n <= e && WholeRun(t, e - k, n)
    requires t != [] && t[0] == '`' ==> s[k - 1] != '`'
    ensures WholeRun(s, e, n)
  {
    forall i | e - n <= i < e
      ensures s[i] == '`'
    {
      assert t[i - k] == s[k + (i - k)];
    }
    if e < |s| {
      assert t[e - k] == s[k + (e - k)];
    }
    if k + n < e {
      assert t[e - k - n - 1] == s[k + (e - k - n - 1)];
    } else {
      assert t[0] == '`';
    }
  }

  /** Runs behind the head of `s` are the runs of the rest, if the rest starts none by itself. */
  lemma RunsBehind(s: string, k: nat, e: nat, n: nat)
    requires 0 < k <= |s| && 0 < n && (k < |s| && s[k] == '`' ==> s[k - 1] != '`')
    requires k + n <= e <= |s|
    ensures WholeRun(s, e, n) <==> WholeRun(s[k..], e - k, n)
  {
    hide WholeRun;
    if WholeRun(s, e, n) {
      RunInRest(s, k, s[k..], e, n);
    }
    if WholeRun(s[k..], e - k, n) {
      RunOfRest(s, k, s[k..], e, n);
    }
  }

  /** The closer is the first whole run of that length. */
  lemma {:induction false} TickCloserIff(s: string, n: nat, e: nat)
    requires n > 0
    ensures TickCloser(s, n) == Some(e) <==> WholeRun(s, e, n) && forall d :: 0 <= d < e ==> !WholeRun(s, d, n)
    decreases |s|
  {
    hide TickRun;
    if s != [] {
      var k := if s[0] == '`' then TickRun(s) else 1;
      assert k > 0;
      FirstRun(s, k, n);
      if !(s[0] == '`' && k == n) {
        var rest := s[k..];
        forall d | k + n <= d <= |s|
          ensures WholeRun(s, d, n) <==> WholeRun(rest, d - k, n)
        {
          RunsBehind(s, k, d, n);
        }
        forall d: nat | WholeRun(s, d, n)
          ensures d >= k + n
        {
        }
        if e >= k {
          TickCloserIff(rest, n, e - k);
        }
        if TickCloser(rest, n).Some? {
          TickCloserIff(rest, n, TickCloser(rest, n).value);
        }
        LaterRuns(s, rest, k, n, e);
      }
    }
  }

  /** Inside the head of `s` there is no run but the one that is the head. */
  lemma FirstRun(s: string, k: nat, n: nat)
    requires s != [] && n > 0 && k == if s[0] == '`' then TickRun(s) else 1
    ensures s[0] == '`' && k == n ==> WholeRun(s, n, n)
    ensures forall d: nat :: WholeRun(s, d, n) ==> d >= k + n || (s[0] == '`' && d == k == n)
    ensures k < |s| && s[k] == '`' ==> s[k - 1] != '`'
    ensures k > 0
  {
    hide TickRun;
    if s[0] == '`' {
      assert k > 0;
    }
    forall d: nat | WholeRun(s, d, n)
      ensures d >= k + n || (s[0] == '`' && d == k == n)
    {
      assert s[d - 1] == '`' && s[d - n] == '`';
    }
  }

  lemma LaterRuns(s: string, rest: string, k: nat, n: nat, e: nat)
    requires 0 < k <= |s| && rest == s[k..] && n > 0
    requires forall d :: k + n <= d <= |s| ==> (WholeRun(s, d, n) <==> WholeRun(rest, d - k, n))
    requires forall d: nat :: WholeRun(s, d, n) ==> d >= k + n
    ensures WholeRun(s, e, n) && (forall d :: 0 <= d < e ==> !WholeRun(s, d, n)) <==>
            e >= k && WholeRun(rest, e - k, n) && forall d :: 0 <= d < e - k ==> !WholeRun(rest, d, n)
  {
    if WholeRun(s, e, n) && forall d :: 0 <= d < e ==> !WholeRun(s, d, n) {
      forall d | 0 <= d < e - k
        ensures !WholeRun(rest, d, n)
      {
        assert !WholeRun(s, d + k, n);
      }
    }
    if e >= k && WholeRun(rest, e - k, n) && forall d :: 0 <= d < e - k ==> !WholeRun(rest, d, n) {
      assert e >= k + n;
      forall d | k + n <= d < e
        ensures !WholeRun(s, d, n)
      {
        assert !WholeRun(rest, d - k, n);
      }
    }
  }

  predicate AllTicks(s: string) {
    forall i :: 0 <= i < |s| ==> s[i] == '`'
  }

  /** A code span goes from a backtick run to the next whole run of the same length, and stays as it is. */
  lemma CodeSpanRule(ticks: string, body: string, rest: string)
    requires ticks != [] && AllTicks(ticks) && (body == [] || body[0] != '`')
    requires var text := body + rest;
             WholeRun(text, |body|, |ticks|) && forall d :: 0 <= d < |body| ==> !WholeRun(text, d, |ticks|)
    ensures Sanitized(ticks + body + rest) == ticks + body + Sanitized(rest)
  {
    hide Sanitized, TickCloser, TickRun, WholeRun;
    var s, n := ticks + body + rest, |ticks|;
    BodyIsThere(body, rest, n);
    TickCloserIff(body + rest, n, |body|);
    Associate(ticks, body, rest);
    InlineProofs.TickRunLocal(ticks, body + rest);
    assert s[0] == '`' && s[n..] == body + rest && s[..n + |body|] == ticks + body;
    OneChunk(s, CodeSpan(ticks + body), rest);
  }

  lemma BodyIsThere(body: string, rest: string, n: nat)
    requires n > 0 && WholeRun(body + rest, |body|, n)
    ensures body != []
  {
  }

  /** A backtick run that no later run matches stays as it is, and the text behind it is prose. */
  lemma LoneTicksRule(ticks: string, rest: string)
    requires ticks != [] && AllTicks(ticks) && (rest == [] || rest[0] != '`')
    requires forall e :: 0 <= e <= |rest| ==> !WholeRun(rest, e, |ticks|)
    ensures Sanitized(ticks + rest) == ticks + Sanitized(rest)
  {
    hide Sanitized, TickCloser, TickRun;
    var s, n := ticks + rest, |ticks|;
    InlineProofs.TickRunLocal(ticks, rest);
    if TickCloser(rest, n).Some? {
      TickCloserIff(rest, n, TickCloser(rest, n).value);
      assert false;
    }
    assert s[0] == '`' && s[n..] == rest && s[..n] == ticks;
    OneChunk(s, LoneTicks(ticks), rest);
  }

  // ----- Single characters -------------------------------------------------------------------

  /** A backslash and what it escapes stay together. */
  lemma BackslashRule(c: char, rest: string)
    ensures Sanitized(['\\', c] + rest) == ['\\', c] + Sanitized(rest)
    ensures Sanitized("\\") == "\\"
  {
    hide Sanitized, TickSpan;
    var s := ['\\', c] + rest;
    assert s[..2] == ['\\', c];
    OneChunk(s, AuthorEscape(['\\', c]), rest);
    OneChunk("\\", AuthorEscape("\\"), []);
    InlineProofs.SanitizedOfEmpty();
  }

  /** Closing brackets are escaped. */
  lemma CloseBracketRule(c: char, rest: string)
    requires c == ']' || c == '>'
    ensures Sanitized([c] + rest) == ['\\', c] + Sanitized(rest)
  {
    hide Sanitized, TickSpan;
    OneChunk([c] + rest, Escaped(c), rest);
  }

  /** Every other character is left alone, an `h` too if no URL starts with it. */
  lemma PlainRule(c: char, rest: string)
    requires c !in "`\\[]<>" && !StartsUrl([c] + rest)
    ensures Sanitized([c] + rest) == [c] + Sanitized(rest)
  {
    hide Sanitized, TickSpan;
    OneChunk([c] + rest, Plain(c), rest);
  }
}
