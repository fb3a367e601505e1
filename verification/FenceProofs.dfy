/**
  Theorems about the line-level sanitizer, on lines that stand in no list item or block quote: the
  CommonMark reader stays in step with it exactly when every opener is readable; then it ends outside
  every fence, and it meets only inert openers and unindented, fully escaped text exactly when no
  source line hides its indentation behind one to three spaces and a tab and no opener's word becomes
  an `ignore-` target on being read.
 */
module FenceProofs {
  import opened Options
  import opened Sequences
  import opened InlineSpec
  import opened FenceSpec
  import opened FenceOpeners
  import InlineProofs

  // ----- Content of the synthetic fence ------------------------------------------------------

  lemma {:induction false} TrimReachesRun(n: nat, s: string)
    requires "```" <= s
    ensures "```" <= TrimStart(Repeat(' ', n) + s)
  {
    var line := Repeat(' ', n) + s;
    if n == 0 {
      assert line == s;
    } else {
      assert line[1..] == Repeat(' ', n - 1) + s;
      TrimReachesRun(n - 1, s);
    }
  }

  lemma TickMarkerTrims(s: string)
    requires FenceMarker(s).Some? && FenceMarker(s).value.ch == '`'
    ensures "```" <= TrimStart(s)
  {
    var f := FenceMarker(s).value;
    var tail := Repeat('`', f.len) + f.info;
    MarkerParts(s);
    assert tail[0] == tail[1] == tail[2] == '`';
    TrimReachesRun(f.indent, tail);
  }

  /** De-indented content never closes the synthetic fence. */
  lemma StrippedIsContent(line: string)
    requires IsIndented(line)
    ensures !ClosesWith(StripIndent(line), '`', 3)
  {
    var s := StripIndent(line);
    if FenceMarker(s).Some? && FenceMarker(s).value.ch == '`' {
      TickMarkerTrims(s);
    }
  }

  // ----- Prose lines -------------------------------------------------------------------------

  lemma RepeatCons(n: nat, x: string)
    requires n > 0
    ensures Repeat(' ', n) + x == [' '] + (Repeat(' ', n - 1) + x)
  {
  }

  lemma {:induction false} SpacesPass(n: nat, s: string)
    ensures Sanitized(Repeat(' ', n) + s) == Repeat(' ', n) + Sanitized(s)
  {
    hide Sanitized, NextChunk;
    var line := Repeat(' ', n) + s;
    if n == 0 {
      assert line == s && Repeat(' ', 0) + Sanitized(s) == Sanitized(s);
    } else {
      assert line[1..] == Repeat(' ', n - 1) + s;
      SpacesPass(n - 1, s);
      InlineProofs.PlainStep(line);
      RepeatCons(n, s);
      RepeatCons(n, Sanitized(s));
    }
  }

  lemma {:induction false} TickRunIsLeadingRun(s: string)
    ensures TickRun(s) == LeadingRun(s, '`')
  {
    if s != [] {
      TickRunIsLeadingRun(s[1..]);
    }
  }

  lemma {:induction false} BareKeepsTicks(s: string)
    ensures '`' in s <==> '`' in InlineProofs.Bare(s)
  {
    if s != [] {
      BareKeepsTicks(s[1..]);
      assert s == [s[0]] + s[1..];
    }
  }

  lemma TicksKept(s: string)
    ensures '`' in Sanitized(s) <==> '`' in s
  {
    BareKeepsTicks(s);
    BareKeepsTicks(Sanitized(s));
    InlineProofs.SanitizedKeepsText(s);
  }

  lemma TicksThenTail(n: nat, x: string, y: string)
    requires n > 0 && (y == [] || y[0] != '`')
    requires '`' in x <==> '`' in y
    requires x == [] || x[0] != '`'
    ensures TickRun(Repeat('`', n) + x) == TickRun(Repeat('`', n) + y) == n
    ensures '`' in (Repeat('`', n) + x)[n..] <==> '`' in (Repeat('`', n) + y)[n..]
  {
    var ticks := Repeat('`', n);
    InlineProofs.TickRunLocal(ticks, x);
    InlineProofs.TickRunLocal(ticks, y);
    assert (ticks + x)[n..] == x && (ticks + y)[n..] == y;
  }

  /** A chunk that starts with backticks goes at least as far as its opening run. */
  lemma TickChunk(s: string, c: Chunk)
    requires s != [] && s[0] == '`' && c == NextChunk(s)
    ensures var n := TickRun(s);
            && c.Render() == c.Source() && n <= |c.Source()|
            && (n < |c.Source()| || n == |s| || s[n] != '`')
  {
    hide TickSpan, TickRun, LinkEnd, AutolinkEnd, HasScheme, UrlEnd;
    assert c == TickSpan(s);
  }

  /** Splits a chunk that starts with backticks after its opening run. */
  lemma OpeningTicks(s: string, c: Chunk, rest: string) returns (n: nat, body: string)
    requires s != [] && s[0] == '`' && c == NextChunk(s) && rest == s[|c.Source()|..]
    ensures n == TickRun(s) && c.Render() == Repeat('`', n) + body && s == Repeat('`', n) + (body + rest)
    ensures body == [] || body[0] != '`'
    ensures body == [] ==> rest == [] || rest[0] != '`'
  {
    hide TickRun, NextChunk;
    TickChunk(s, c);
    n := TickRun(s);
    var text := c.Source();
    assert s == text + rest && text == s[..|text|];
    assert text[..n] == s[..n] == Repeat('`', n);
    body := text[n..];
    assert text == text[..n] + body;
    assert text + rest == text[..n] + (body + rest);
    assert body != [] ==> body[0] == s[n];
  }

  /** Sanitizing keeps the opening backtick run, and whether a backtick follows it. */
  lemma OpeningTicksKept(s: string)
    requires s != [] && s[0] == '`'
    ensures TickRun(Sanitized(s)) == TickRun(s)
    ensures var n := TickRun(s); '`' in Sanitized(s)[n..] <==> '`' in s[n..]
  {
    hide Sanitized, NextChunk, TickRun;
    var c, rest := InlineProofs.Turn(s);
    var n, body := OpeningTicks(s, c, rest);
    InlineProofs.TickHead(rest);
    TicksKept(rest);
    Associate(Repeat('`', n), body, Sanitized(rest));
    TicksThenTail(n, body + Sanitized(rest), body + rest);
  }

  /** What makes `rest` no marker after its indentation. */
  predicate NoMarkerAt(rest: string) {
    || rest == []
    || (rest[0] != '`' && rest[0] != '~')
    || LeadingRun(rest, rest[0]) < 3
    || (rest[0] == '`' && '`' in rest[LeadingRun(rest, '`')..])
  }

  lemma {:induction false} RunAtLeast3(s: string, c: char)
    ensures LeadingRun(s, c) >= 3 <==> [c, c, c] <= s
  {
    if |s| >= 3 {
      assert s[1..][1..] == s[2..] && s[2..][1..] == s[3..];
    }
  }

  lemma RunTooShort(rest: string)
    requires NoMarkerAt(rest)
    ensures NoMarkerAt(Sanitized(rest))
  {
    hide Sanitized;
    var t := Sanitized(rest);
    InlineProofs.TickHead(rest);
    if rest != [] && rest[0] == '`' {
      OpeningTicksKept(rest);
      TickRunIsLeadingRun(rest);
      TickRunIsLeadingRun(t);
    } else if rest != [] {
      InlineProofs.PlainPrefix("~~~", rest);
      InlineProofs.PlainPrefix("~", rest);
      RunAtLeast3(rest, '~');
      RunAtLeast3(t, '~');
    }
  }

  lemma NoMarkerIff(indent: nat, s: string)
    requires indent <= 3 && (s == [] || (s[0] != ' ' && s[0] != '\t'))
    ensures FenceMarker(Repeat(' ', indent) + s) == None <==> NoMarkerAt(s)
  {
    IndentOf(indent, s, Repeat(' ', indent) + s);
  }

  lemma {:induction false} BlankKept(s: string)
    ensures Blank(Sanitized(s)) <==> Blank(s)
  {
    hide Sanitized;
    InlineProofs.TickHead(s);
    if s != [] {
      var t := Sanitized(s);
      InlineProofs.PlainPrefix(" ", s);
      InlineProofs.PlainPrefix("\t", s);
      if s[0] == ' ' || s[0] == '\t' {
        InlineProofs.PlainStep(s);
        BlankKept(s[1..]);
        BlankCons(s[0], s[1..]);
        BlankCons(s[0], Sanitized(s[1..]));
        assert s == [s[0]] + s[1..];
      } else {
        assert t[0] != ' ' && t[0] != '\t';
      }
    }
  }

  lemma BlankCons(c: char, s: string)
    requires c == ' ' || c == '\t'
    ensures Blank([c] + s) <==> Blank(s)
  {
    if Blank([c] + s) {
      assert forall i :: 0 <= i < |s| ==> s[i] == ([c] + s)[i + 1];
    }
  }

  lemma {:induction false} ColumnGrows(s: string, col: nat)
    ensures TextColumn(s, col) >= col
  {
    if s != [] {
      ColumnGrows(s[1..], if s[0] == ' ' then col + 1 else col / 4 * 4 + 4);
    }
  }

  lemma {:induction false} ColumnAfterSpaces(n: nat, x: string, col: nat)
    ensures TextColumn(Repeat(' ', n) + x, col) == TextColumn(x, col + n)
  {
    var s := Repeat(' ', n) + x;
    if n == 0 {
      assert s == x;
    } else {
      assert s[1..] == Repeat(' ', n - 1) + x;
      ColumnAfterSpaces(n - 1, x, col + 1);
    }
  }

  lemma ColumnByRun(line: string)
    ensures var n := LeadingRun(line, ' ');
            TextColumn(line, 0) >= 4 <==> n >= 4 || (n < |line| && line[n] == '\t')
  {
    hide LeadingRun, TextColumn;
    var n := LeadingRun(line, ' ');
    var x := line[n..];
    RunIsRepeat(line, ' ');
    ColumnAfterSpaces(n, x, 0);
    if x != [] && x[0] == '\t' {
      ColumnAfterTab(x, n);
    } else {
      ColumnOfText(x, n);
    }
  }

  /** Text is indented when it stands behind four spaces, or behind a tab with fewer before it. */
  lemma IndentedTextIff(line: string)
    ensures IndentedText(line) <==> !Blank(line) && (IsIndented(line) || HiddenIndent(line))
  {
    hide Blank, TextColumn, LeadingRun;
    ColumnByRun(line);
    RunWithin(line, "    ");
    TabAt(line);
  }

  lemma ColumnAfterTab(x: string, col: nat)
    requires x != [] && x[0] == '\t'
    ensures TextColumn(x, col) >= 4
  {
    ColumnGrows(x[1..], col / 4 * 4 + 4);
  }

  lemma ColumnOfText(x: string, col: nat)
    requires x == [] || (x[0] != ' ' && x[0] != '\t')
    ensures TextColumn(x, col) == col
  {
  }

  /** Which of the indentations with a tab a line has is told by its leading spaces. */
  lemma TabAt(line: string)
    ensures var n := LeadingRun(line, ' ');
            var tab := n < |line| && line[n] == '\t';
            && ("\t" <= line <==> tab && n == 0)
            && (" \t" <= line <==> tab && n == 1)
            && ("  \t" <= line <==> tab && n == 2)
            && ("   \t" <= line <==> tab && n == 3)
  {
    hide LeadingRun;
    TabBehind(line, 0, "\t");
    TabBehind(line, 1, " \t");
    TabBehind(line, 2, "  \t");
    TabBehind(line, 3, "   \t");
  }

  lemma TabBehind(line: string, k: nat, p: string)
    requires |p| == k + 1 && p[k] == '\t' && forall i :: 0 <= i < k ==> p[i] == ' '
    ensures p <= line <==> LeadingRun(line, ' ') == k && k < |line| && line[k] == '\t'
  {
    hide LeadingRun;
    var n := LeadingRun(line, ' ');
    if p <= line {
      assert line[k] == p[k] == '\t';
      assert forall i :: 0 <= i < k ==> line[i] == p[i] == ' ';
      assert n == k;
    }
    if n == k && k < |line| && line[k] == '\t' {
      assert p == line[..k + 1];
    }
  }

  /** A line that hides its indentation is prose to the sanitizer. */
  lemma HiddenIsProse(line: string)
    requires HiddenIndent(line)
    ensures FenceMarker(line) == None && !IsIndented(line)
  {
    TabAt(line);
    RunWithin(line, "    ");
  }

  /** Sanitized prose is still no marker, and it is indented exactly if it was behind a hidden indent. */
  lemma ProseStaysProse(line: string)
    requires FenceMarker(line) == None && !IsIndented(line)
    ensures FenceMarker(Sanitized(line)) == None && !IsIndented(Sanitized(line))
    ensures IndentedText(Sanitized(line)) <==> HiddenIndent(line)
  {
    hide Sanitized, FenceMarker, Blank, IndentedText;
    InlineProofs.PlainPrefix("    ", line);
    InlineProofs.PlainPrefix("\t", line);
    InlineProofs.PlainPrefix(" \t", line);
    InlineProofs.PlainPrefix("  \t", line);
    InlineProofs.PlainPrefix("   \t", line);
    BlankKept(line);
    IndentedTextIff(Sanitized(line));
    ProseIsNoMarker(line);
  }

  lemma ProseIsNoMarker(line: string)
    requires FenceMarker(line) == None && !IsIndented(line)
    ensures FenceMarker(Sanitized(line)) == None
  {
    hide Sanitized, NextChunk;
    var n := LeadingRun(line, ' ');
    var rest := line[n..];
    assert line == Repeat(' ', n) + rest;
    RunWithin(line, "    ");
    SpacesPass(n, rest);
    var t := Sanitized(rest);
    InlineProofs.TickHead(rest);
    InlineProofs.PlainPrefix(" ", rest);
    InlineProofs.PlainPrefix("\t", rest);
    if rest != [] && rest[0] == '\t' {
      assert n > 0;
      TabIsNoMarker(n, t);
    } else {
      NoMarkerIff(n, rest);
      RunTooShort(rest);
      NoMarkerIff(n, t);
    }
  }

  lemma TabIsNoMarker(n: nat, t: string)
    requires t != [] && t[0] == '\t'
    ensures FenceMarker(Repeat(' ', n) + t) == None
  {
    var line := Repeat(' ', n) + t;
    RunOf(' ', n, t);
    assert line[n..] == t;
  }

  // ----- One source line ---------------------------------------------------------------------

  lemma {:induction false} ReadConcat(r: Reader, a: seq<string>, b: seq<string>)
    ensures ReadAll(r, a + b) == ReadAll(ReadAll(r, a), b)
    ensures SafeLines(r, a + b) <==> SafeLines(r, a) && SafeLines(ReadAll(r, a), b)
    decreases |a|
  {
    if a == [] {
      assert a + b == b;
    } else {
      assert (a + b)[1..] == a[1..] + b;
      ReadConcat(Read(r, a[0]), a[1..], b);
    }
  }

  lemma ReadTwo(r: Reader, a: string, b: string)
    ensures ReadAll(r, [a, b]) == Read(Read(r, a), b)
    ensures SafeLines(r, [a, b]) <==> SafeAt(r, a) && SafeAt(Read(r, a), b)
  {
    assert [a, b][1..] == [b] && [b][1..] == [];
    assert ReadAll(Read(r, a), [b]) == Read(Read(r, a), b);
    assert SafeLines(Read(r, a), [b]) <==> SafeAt(Read(r, a), b);
  }

  /** The part of the block that the source alone decides. */
  function AuthorView(st: Block): Reader {
    if st.Author? then Inside(st.ch, st.len) else Outside
  }

  predicate Legal(st: Block) {
    st.Author? ==> st.len >= 3 && (st.ch == '`' || st.ch == '~')
  }

  lemma ReadOne(r: Reader, a: string)
    ensures ReadAll(r, [a]) == Read(r, a)
    ensures SafeLines(r, [a]) <==> SafeAt(r, a)
  {
    assert [a][1..] == [];
  }

  lemma OpenerInStep(line: string)
    requires FenceMarker(line).Some?
    ensures var f := FenceMarker(line).value;
            && (ReadAll(Outside, [Opener(f)]) == Inside(f.ch, f.len) <==> Readable(f))
            && (SafeLines(Outside, [Opener(f)]) <==> ReadInert(f))
  {
    OpenerIsRead(line);
    ReadOne(Outside, Opener(FenceMarker(line).value));
  }

  lemma IndentedInStep(line: string)
    requires IsIndented(line)
    ensures ReadAll(Outside, ["```text", StripIndent(line)]) == Inside('`', 3)
    ensures SafeLines(Outside, ["```text", StripIndent(line)])
  {
    hide FenceMarker, StripIndent, Resolved, Tokens;
    SyntheticMarkers();
    FixedInfos();
    StrippedIsContent(line);
    ReadTwo(Outside, "```text", StripIndent(line));
  }

  lemma PlainLineInStep(line: string)
    requires FenceMarker(line) == None && !IsIndented(line)
    ensures ReadAll(Outside, [Sanitized(line)]) == Outside
    ensures SafeLines(Outside, [Sanitized(line)]) <==> Harmless(line)
  {
    ProseStaysProse(line);
    InlineProofs.SanitizedIsSafe(line);
    ReadOne(Outside, Sanitized(line));
  }

  lemma ProseLineInStep(line: string)
    ensures var (out, next) := ProseLine(line);
            var ok := FenceMarker(line).Some? ==> Readable(FenceMarker(line).value);
            && (ReadAll(Outside, out) == View(next) <==> ok)
            && (SafeLines(Outside, out) <==> Harmless(line))
            && AuthorView(next) == Read(Outside, line)
            && Legal(next)
  {
    hide HiddenIndent;
    if HiddenIndent(line) {
      HiddenIsProse(line);
    }
    if FenceMarker(line).Some? {
      MarkerParts(line);
      OpenerInStep(line);
    } else if IsIndented(line) {
      IndentedInStep(line);
    } else {
      PlainLineInStep(line);
    }
  }

  /** Inside the synthetic fence a source line either stays content or closes it first. */
  lemma SyntheticInStep(line: string, rest: seq<string>)
    ensures var (out, next) := Step(Synthetic, line, rest);
            var ok := FenceMarker(line).Some? ==> Readable(FenceMarker(line).value);
            && (ReadAll(Inside('`', 3), out) == View(next) <==> ok)
            && (SafeLines(Inside('`', 3), out) <==> Harmless(line))
            && AuthorView(next) == Read(Outside, line)
            && Legal(next)
  {
    hide ProseLine, Readable, StripIndent;
    if HiddenIndent(line) {
      HiddenIsProse(line);
    }
    if IsIndented(line) {
      StrippedIsContent(line);
      ReadOne(Inside('`', 3), StripIndent(line));
    } else if line == [] && NextIsIndented(rest) {
      ReadOne(Inside('`', 3), line);
    } else {
      SyntheticMarkers();
      ProseLineInStep(line);
      ReadOne(Inside('`', 3), "```");
      ReadConcat(Inside('`', 3), ["```"], ProseLine(line).0);
    }
  }

  lemma StepInStep(st: Block, line: string, rest: seq<string>)
    requires Legal(st)
    ensures var (out, next) := Step(st, line, rest);
            var ok := !st.Author? && FenceMarker(line).Some? ==> Readable(FenceMarker(line).value);
            && (ReadAll(View(st), out) == View(next) <==> ok)
            && (SafeLines(View(st), out) <==> st.Author? || Harmless(line))
            && AuthorView(next) == Read(AuthorView(st), line)
            && Legal(next)
  {
    match st {
      case Prose => ProseLineInStep(line);
      case Author(_, _) => ReadOne(View(st), line);
      case Synthetic => SyntheticInStep(line, rest);
    }
  }

  // ----- Theorems ----------------------------------------------------------------------------

  /** Rustdoc's reader agrees with the sanitizer after every line iff every opener is readable. */
  lemma {:induction false} InStepIffReadable(st: Block, raw: seq<string>)
    requires Legal(st)
    ensures InStep(st, raw) <==> OpenersReadable(AuthorView(st), raw)
    decreases |raw|
  {
    if raw != [] {
      StepInStep(st, raw[0], raw[1..]);
      InStepIffReadable(Step(st, raw[0], raw[1..]).1, raw[1..]);
    }
  }

  lemma ClosingIsRead(st: Block)
    requires Legal(st)
    ensures ReadAll(View(st), Closing(st)) == Outside && SafeLines(View(st), Closing(st))
  {
    match st {
      case Prose =>
      case Author(ch, len) =>
        ClosingRunCloses(ch, len);
        assert Closing(st)[1..] == [];
      case Synthetic =>
        SyntheticMarkers();
        assert Closing(st)[1..] == [];
    }
  }

  /**
    Fence safety: on every comment whose openers are readable, the reader ends outside any fence. All
    it met was safe, openers inert and other text unindented and fully escaped, if and only if every
    source line outside a fence is harmless: no hidden indentation, and no opener with a word that is
    read as a target.
   */
  lemma {:induction false} FenceSafety(st: Block, raw: seq<string>)
    requires Legal(st) && OpenersReadable(AuthorView(st), raw)
    ensures ReadAll(View(st), SanitizedLines(st, raw)) == Outside
    ensures SafeLines(View(st), SanitizedLines(st, raw)) <==> AllHarmless(AuthorView(st), raw)
    decreases |raw|
  {
    hide Harmless, SafeAt, Step, Read, Legal;
    if raw == [] {
      ClosingIsRead(st);
    } else {
      var (out, next) := Step(st, raw[0], raw[1..]);
      StepInStep(st, raw[0], raw[1..]);
      FenceSafety(next, raw[1..]);
      ReadConcat(View(st), out, SanitizedLines(next, raw[1..]));
    }
  }

  /** Both failures at once: the reader keeps in step and meets only safe lines in exactly these comments. */
  lemma SafeIffReadableAndHarmless(raw: seq<string>)
    ensures InStep(Prose, raw) && SafeLines(Outside, SanitizedLines(Prose, raw)) <==>
            OpenersReadable(Outside, raw) && AllHarmless(Outside, raw)
  {
    hide InStep, SafeLines, SanitizedLines, OpenersReadable, AllHarmless;
    InStepIffReadable(Prose, raw);
    if OpenersReadable(Outside, raw) {
      FenceSafety(Prose, raw);
    }
  }

  /** A line that is not harmless makes the output unsafe, if the openers before it are readable. */
  lemma {:induction false} HarmIsMet(st: Block, before: seq<string>, line: string, after: seq<string>)
    requires Legal(st) && OpenersReadable(AuthorView(st), before) && ReadAll(AuthorView(st), before) == Outside
    requires !Harmless(line)
    ensures !SafeLines(View(st), SanitizedLines(st, before + [line] + after))
    decreases |before|
  {
    hide SafeAt, Read, Legal, Harmless, Step;
    var raw := before + [line] + after;
    if before == [] {
      assert raw[0] == line && raw[1..] == after;
    } else {
      assert raw[0] == before[0] && raw[1..] == before[1..] + [line] + after;
    }
    var (out, next) := Step(st, raw[0], raw[1..]);
    StepInStep(st, raw[0], raw[1..]);
    ReadConcat(View(st), out, SanitizedLines(next, raw[1..]));
    if before != [] {
      HarmIsMet(next, before[1..], line, after);
    }
  }
}
