/** The line-level sanitizer loses nothing: every source line comes out once, in order. */
module FenceContent {
  import opened Options
  import opened Sequences
  import opened InlineSpec
  import opened FenceSpec
  import opened Text
  import FenceOpeners
  import FenceProofs

  /** The emitted opener keeps the author's indentation, run and annotation. */
  ghost predicate KeepsOpener(f: Fence, out: string) {
    exists info :: out == Repeat(' ', f.indent) + (Repeat(f.ch, f.len) + info)
                   && Inert(info) && Kept(Tokens(f.info)) <= Tokens(info)
  }

  /** Three backticks, maybe behind whitespace: a line that could close a fence. */
  ghost predicate TicksBehindSpace(x: string) {
    exists k :: 0 <= k <= |x| && (forall i :: 0 <= i < k ==> IsWhitespace(x[i])) && "```" <= x[k..]
  }

  /** The line loses its four spaces or its tab, unless that would lay backticks bare. */
  ghost predicate LosesIndent(src: string, out: string) {
    exists x :: (src == "    " + x || src == "\t" + x) && out == if TicksBehindSpace(x) then src else x
  }

  /**
    What a source line turns into, given what the CommonMark reader of the source makes of it: fence
    content stays verbatim, an opener keeps its annotation, code loses one level of indentation, and
    prose is escaped.
   */
  ghost predicate Carries(r: Reader, src: string, out: string) {
    if r.Inside? then out == src
    else if FenceMarker(src).Some? then KeepsOpener(FenceMarker(src).value, out)
    else if IsIndented(src) then LosesIndent(src, out)
    else out == Sanitized(src)
  }

  /** A line the sanitizer may add: a `text` opener or a bare closing run. */
  predicate IsAddedFence(line: string) {
    var m := FenceMarker(line);
    m.Some? && (m.value.info == "text" || m.value.info == [])
  }

  /** `out` is `raw`, line by line, with nothing but fence lines added. */
  ghost predicate Accounts(r: Reader, raw: seq<string>, out: seq<string>)
    decreases |raw| + |out|
  {
    if out == [] then raw == []
    else
      || (raw != [] && Carries(r, raw[0], out[0]) && Accounts(Read(r, raw[0]), raw[1..], out[1..]))
      || (IsAddedFence(out[0]) && Accounts(r, raw, out[1..]))
  }

  lemma AnnotationKept(info: string)
    ensures Kept(Tokens(info)) <= Tokens(InertInfo(info))
  {
    hide Tokens, Join, Kept;
    var kept := Kept(Tokens(info));
    if kept != [] {
      FenceOpeners.KeptMembers(Tokens(info));
      var ts := if "ignore" in kept then kept else kept + ["ignore"];
      FenceOpeners.TokensOfJoin(ts);
    }
  }

  lemma OpenerCarries(line: string)
    requires FenceMarker(line).Some?
    ensures KeepsOpener(FenceMarker(line).value, Opener(FenceMarker(line).value))
  {
    hide FenceMarker, InertInfo, Tokens, Kept;
    var f := FenceMarker(line).value;
    FenceOpeners.InertInfoIsInert(f.info);
    AnnotationKept(f.info);
    assert Opener(f) == Repeat(' ', f.indent) + (Repeat(f.ch, f.len) + InertInfo(f.info));
  }

  lemma {:induction false} TrimFindsTicks(x: string)
    ensures "```" <= TrimStart(x) <==> TicksBehindSpace(x)
  {
    if "```" <= x {
      assert x[0] == '`' && x[0..] == x;
    } else if x != [] && IsWhitespace(x[0]) {
      TrimFindsTicks(x[1..]);
      if TicksBehindSpace(x[1..]) {
        var k :| 0 <= k <= |x[1..]| && (forall i :: 0 <= i < k ==> IsWhitespace(x[1..][i])) && "```" <= x[1..][k..];
        assert x[1..][k..] == x[k + 1..];
        assert forall i :: 0 < i < k + 1 ==> x[i] == x[1..][i - 1];
      }
      if TicksBehindSpace(x) {
        var k :| 0 <= k <= |x| && (forall i :: 0 <= i < k ==> IsWhitespace(x[i])) && "```" <= x[k..];
        assert k > 0 by { assert x[0..] == x; }
        assert x[1..][k - 1..] == x[k..];
      }
    } else {
      assert x[0..] == x;
    }
  }

  /** One level of indentation goes, from every line that is no fence run behind it. */
  lemma StripIndentRule(x: string)
    ensures IsIndented("    " + x) && StripIndent("    " + x) == if TicksBehindSpace(x) then "    " + x else x
    ensures IsIndented("\t" + x) && StripIndent("\t" + x) == if TicksBehindSpace(x) then "\t" + x else x
  {
    hide TrimStart, TicksBehindSpace;
    TrimFindsTicks(x);
    assert ("    " + x)[4..] == x && ("\t" + x)[1..] == x;
    assert ("\t" + x)[0] == '\t';
  }

  lemma StripCarries(line: string)
    requires IsIndented(line)
    ensures LosesIndent(line, StripIndent(line))
    ensures FenceMarker(line) == None
  {
    hide StripIndent, TicksBehindSpace;
    if "    " <= line {
      assert line == "    " + line[4..];
      StripIndentRule(line[4..]);
    } else {
      assert line == "\t" + line[1..];
      StripIndentRule(line[1..]);
    }
  }

  lemma TakeLine(r: Reader, raw: seq<string>, line: string, rest: seq<string>)
    requires raw != [] && Carries(r, raw[0], line) && Accounts(Read(r, raw[0]), raw[1..], rest)
    ensures Accounts(r, raw, [line] + rest)
  {
    hide Carries, Read;
    assert ([line] + rest)[1..] == rest;
  }

  lemma TakeFence(r: Reader, raw: seq<string>, line: string, rest: seq<string>)
    requires IsAddedFence(line) && Accounts(r, raw, rest)
    ensures Accounts(r, raw, [line] + rest)
  {
    hide Carries, Read, IsAddedFence;
    assert ([line] + rest)[1..] == rest;
  }

  lemma FenceLinesAreFences()
    ensures IsAddedFence("```") && IsAddedFence("```text")
  {
    FenceOpeners.SyntheticMarkers();
  }

  lemma RunIsFence(ch: char, len: nat)
    requires len >= 3 && (ch == '`' || ch == '~')
    ensures IsAddedFence(Repeat(ch, len))
  {
    hide FenceMarker;
    assert Repeat(' ', 0) + (Repeat(ch, len) + []) == Repeat(ch, len);
    FenceOpeners.MarkerOfParts(0, ch, len, [], Repeat(ch, len));
  }

  lemma OnlyFence(r: Reader, line: string)
    requires IsAddedFence(line)
    ensures Accounts(r, [], [line])
  {
    TakeFence(r, [], line, []);
    assert [line] + [] == [line];
  }

  lemma NothingLeft(st: Block, r: Reader)
    requires FenceProofs.Legal(st)
    ensures Accounts(r, [], Closing(st))
  {
    if st.Author? {
      RunIsFence(st.ch, st.len);
      OnlyFence(r, Repeat(st.ch, st.len));
    } else if st.Synthetic? {
      FenceLinesAreFences();
      OnlyFence(r, "```");
    }
  }

  lemma OpenerAccounts(raw: seq<string>, rest: seq<string>)
    requires raw != [] && FenceMarker(raw[0]).Some? && Accounts(Read(Outside, raw[0]), raw[1..], rest)
    ensures Accounts(Outside, raw, [Opener(FenceMarker(raw[0]).value)] + rest)
  {
    hide Accounts, Read, FenceMarker, Opener, KeepsOpener;
    OpenerCarries(raw[0]);
    TakeLine(Outside, raw, Opener(FenceMarker(raw[0]).value), rest);
  }

  lemma IndentedAccounts(raw: seq<string>, rest: seq<string>)
    requires raw != [] && IsIndented(raw[0]) && Accounts(Read(Outside, raw[0]), raw[1..], rest)
    ensures Accounts(Outside, raw, [StripIndent(raw[0])] + rest)
    ensures Accounts(Outside, raw, ["```text", StripIndent(raw[0])] + rest)
  {
    hide Accounts, Read, FenceMarker, StripIndent, IsIndented;
    var out := StripIndent(raw[0]);
    StripCarries(raw[0]);
    TakeLine(Outside, raw, out, rest);
    FenceLinesAreFences();
    TakeFence(Outside, raw, "```text", [out] + rest);
    assert ["```text", out] + rest == ["```text"] + ([out] + rest);
  }

  lemma PlainAccounts(raw: seq<string>, rest: seq<string>)
    requires raw != [] && !IsIndented(raw[0]) && FenceMarker(raw[0]) == None
    requires Accounts(Read(Outside, raw[0]), raw[1..], rest)
    ensures Accounts(Outside, raw, [Sanitized(raw[0])] + rest)
  {
    hide Accounts, Read, FenceMarker, IsIndented, Sanitized;
    TakeLine(Outside, raw, Sanitized(raw[0]), rest);
  }

  /** What one source line adds to an account of the lines after it. */
  lemma ProseAccounts(raw: seq<string>, rest: seq<string>)
    requires raw != [] && Accounts(Read(Outside, raw[0]), raw[1..], rest)
    ensures Accounts(Outside, raw, ProseLine(raw[0]).0 + rest)
  {
    hide Accounts, Read, FenceMarker, IsIndented, Sanitized, StripIndent, Opener;
    if FenceMarker(raw[0]).Some? {
      OpenerAccounts(raw, rest);
    } else if IsIndented(raw[0]) {
      IndentedAccounts(raw, rest);
    } else {
      PlainAccounts(raw, rest);
    }
  }

  lemma StepAccounts(st: Block, raw: seq<string>, rest: seq<string>)
    requires raw != [] && Accounts(Read(FenceProofs.AuthorView(st), raw[0]), raw[1..], rest)
    ensures Accounts(FenceProofs.AuthorView(st), raw, Step(st, raw[0], raw[1..]).0 + rest)
  {
    hide Accounts, Read, ProseLine, FenceMarker, StripIndent, IsIndented;
    var line := raw[0];
    match st {
      case Prose => ProseAccounts(raw, rest);
      case Author(_, _) => TakeLine(FenceProofs.AuthorView(st), raw, line, rest);
      case Synthetic =>
        if IsIndented(line) {
          IndentedAccounts(raw, rest);
        } else if line == [] && NextIsIndented(raw[1..]) {
          BlankCarries();
          TakeLine(Outside, raw, [], rest);
        } else {
          ProseAccounts(raw, rest);
          FenceLinesAreFences();
          TakeFence(Outside, raw, "```", ProseLine(line).0 + rest);
          Associate(["```"], ProseLine(line).0, rest);
        }
    }
  }

  lemma BlankCarries()
    ensures Carries(Outside, [], [])
  {
    assert FenceMarker([]) == None;
  }

  /** Every source line comes out once, in order, and only fence lines are added. */
  lemma {:induction false} EveryLineAccountedFor(st: Block, raw: seq<string>)
    requires FenceProofs.Legal(st)
    ensures Accounts(FenceProofs.AuthorView(st), raw, SanitizedLines(st, raw))
    decreases |raw|
  {
    hide Accounts, Step;
    if raw == [] {
      NothingLeft(st, FenceProofs.AuthorView(st));
    } else {
      var (out, next) := Step(st, raw[0], raw[1..]);
      FenceProofs.StepInStep(st, raw[0], raw[1..]);
      EveryLineAccountedFor(next, raw[1..]);
      StepAccounts(st, raw, SanitizedLines(next, raw[1..]));
    }
  }
}
