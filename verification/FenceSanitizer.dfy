/**
  The loops of connectrpc-codegen/src/comments.rs over a whole comment (`sanitize_comment`,
  `fence_info`), proved against `FenceSpec`, and the comments on which its promises fail.
 */
module FenceSanitizer {
  import opened Options
  import opened Sequences
  import opened InlineSpec
  import opened FenceSpec
  import InlineProofs
  import InlineSanitizer
  import FenceOpeners
  import FenceProofs
  import FenceContent

  lemma KeptStep(split: seq<string>, k: nat)
    requires k < |split|
    ensures Kept(split[k..]) == (if TargetsIgnore(split[k]) then [] else [split[k]]) + Kept(split[k + 1..])
  {
    hide TargetsIgnore;
    assert split[k..][1..] == split[k + 1..];
  }

  lemma KeptNothing(split: seq<string>)
    ensures Kept(split[|split|..]) == []
  {
  }

  /** The loop that drops the `ignore-<target>` tokens. */
  method KeepTokens(split: seq<string>) returns (tokens: seq<string>, droppedTargetIgnore: bool)
    ensures tokens == Kept(split)
    ensures droppedTargetIgnore <==> |tokens| < |split|
  {
    droppedTargetIgnore, tokens := false, [];
    hide TargetsIgnore, Kept;
    assert split[0..] == split;
    for k := 0 to |split|
      invariant tokens + Kept(split[k..]) == Kept(split)
      invariant |tokens| <= k && (droppedTargetIgnore <==> |tokens| < k)
    {
      KeptStep(split, k);
      Associate(tokens, if TargetsIgnore(split[k]) then [] else [split[k]], Kept(split[k + 1..]));
      if TargetsIgnore(split[k]) {
        droppedTargetIgnore := true;
      } else {
        tokens := tokens + [split[k]];
      }
    }
    KeptNothing(split);
  }

  method FenceInfo(info: string) returns (r: string)
    ensures r == InertInfo(info)
    ensures Inert(r)
  {
    FenceOpeners.InertInfoIsInert(info);
    var tokens, droppedTargetIgnore := KeepTokens(Tokens(info));
    if tokens == [] {
      return if droppedTargetIgnore then "rust,ignore" else "text";
    }
    if "ignore" !in tokens {
      tokens := tokens + ["ignore"];
    }
    r := Join(tokens);
  }

  /** The pair of variables the loop keeps, as a block. */
  function BlockOf(inCodeBlock: bool, openFence: Option<(char, nat)>): Block {
    match openFence
    case Some((ch, len)) => Author(ch, len)
    case None => if inCodeBlock then Synthetic else Prose
  }

  method NextIndented(raw: seq<string>, from: nat) returns (r: bool)
    requires from <= |raw|
    ensures r == NextIsIndented(raw[from..])
  {
    var i := from;
    while i < |raw| && raw[i] == []
      invariant from <= i <= |raw|
      invariant NextIsIndented(raw[i..]) == NextIsIndented(raw[from..])
    {
      i := i + 1;
      assert raw[i - 1..][1..] == raw[i..];
    }
    return i < |raw| && IsIndented(raw[i]);
  }

  /** What the loop does with a line that is not inside any block. */
  method ClassifyLine(line: string) returns (out: seq<string>, inCodeBlock: bool, openFence: Option<(char, nat)>)
    ensures out == ProseLine(line).0
    ensures BlockOf(inCodeBlock, openFence) == ProseLine(line).1
    ensures openFence.Some? ==> !inCodeBlock
  {
    inCodeBlock, openFence := false, None;
    var marker := FenceMarker(line);
    if marker.Some? {
      var fence := marker.value;
      openFence := Some((fence.ch, fence.len));
      var info := FenceInfo(fence.info);
      out := [Repeat(' ', fence.indent) + (Repeat(fence.ch, fence.len) + info)];
    } else if IsIndented(line) {
      inCodeBlock := true;
      out := ["```text", StripIndent(line)];
    } else {
      var prose := InlineSanitizer.SanitizeLine(line);
      out := [prose];
    }
  }

  /** Sanitizes the lines of a proto comment for rustdoc. */
  method SanitizeComment(raw: seq<string>) returns (lines: seq<string>)
    ensures lines == SanitizedLines(Prose, raw)
    ensures FenceContent.Accounts(Outside, raw, lines)
    ensures OpenersReadable(Outside, raw) ==>
              ReadAll(Outside, lines) == Outside && (SafeLines(Outside, lines) <==> AllHarmless(Outside, raw))
  {
    lines := [];
    var inCodeBlock := false;
    var openFence: Option<(char, nat)> := None;
    for idx := 0 to |raw|
      invariant openFence.Some? ==> !inCodeBlock
      invariant lines + SanitizedLines(BlockOf(inCodeBlock, openFence), raw[idx..]) == SanitizedLines(Prose, raw)
    {
      ghost var before := lines;
      ghost var st := BlockOf(inCodeBlock, openFence);
      var line := raw[idx];
      assert raw[idx..][1..] == raw[idx + 1..];
      ghost var (out, next) := Step(st, line, raw[idx + 1..]);
      var done := false;
      if openFence.Some? {
        var open := openFence.value;
        var marker := FenceMarker(line);
        if marker.Some? && marker.value.Closes(open.0, open.1) {
          openFence := None;
        }
        lines := lines + [line];
        done := true;
      } else if inCodeBlock {
        if IsIndented(line) {
          lines := lines + [StripIndent(line)];
          done := true;
        } else {
          if line == [] {
            done := NextIndented(raw, idx + 1);
          }
          lines := lines + (if done then [[]] else ["```"]);
        }
      }
      if !done {
        var classified, code, fence := ClassifyLine(line);
        lines, inCodeBlock, openFence := lines + classified, code, fence;
      }
      assert BlockOf(inCodeBlock, openFence) == next;
      assert lines == before + out;
      Associate(before, out, SanitizedLines(next, raw[idx + 1..]));
    }
    ghost var st := BlockOf(inCodeBlock, openFence);
    if inCodeBlock {
      lines := lines + ["```"];
    }
    if openFence.Some? {
      lines := lines + [Repeat(openFence.value.0, openFence.value.1)];
    }
    FenceContent.EveryLineAccountedFor(Prose, raw);
    if OpenersReadable(Outside, raw) {
      FenceProofs.FenceSafety(Prose, raw);
    }
  }

  // ----- Where the promises fail -------------------------------------------------------------

  lemma FlushOpener(ch: char, n: nat, info: string, line: string)
    requires n >= 3 && (ch == '~' || (ch == '`' && '`' !in info))
    requires line == Repeat(ch, n) + info && (info == [] || info[0] != ch)
    ensures FenceMarker(line) == Some(Fence(0, ch, n, info))
  {
    hide FenceMarker, LeadingRun;
    assert Repeat(' ', 0) + line == line;
    FenceOpeners.MarkerOfParts(0, ch, n, info, line);
    FenceOpeners.NoRun(info, ch);
  }

  /** There are unreadable openers: the first kept token of this one starts with a tilde. */
  lemma UnreadableOpenerExists()
    ensures FenceMarker("~~~ ~rust") == Some(Fence(0, '~', 3, " ~rust"))
    ensures !Readable(Fence(0, '~', 3, " ~rust"))
  {
    hide FenceMarker, Tokens, Kept;
    FlushOpener('~', 3, " ~rust", "~~~ ~rust");
    assert " " + "~rust" == " ~rust";
    OneKeptToken("~rust");
  }

  lemma OneKeptToken(t: string)
    requires IsToken(t) && t[0] != 'i'
    ensures Kept(Tokens(" " + t)) == [t]
  {
    FenceOpeners.TokensOfJoin([t]);
    assert (" " + t)[1..] == t == Join([t]);
    assert Tokens(" " + t) == [t];
  }

  /** The tildes of this opener's token join the run, and the target behind them is live again. */
  lemma LiveOpenerExists()
    ensures FenceMarker("~~~ ~ignore-x") == Some(Fence(0, '~', 3, " ~ignore-x"))
    ensures Opener(Fence(0, '~', 3, " ~ignore-x")) == "~~~~ignore-x,ignore"
    ensures FenceMarker("~~~~ignore-x,ignore") == Some(Fence(0, '~', 4, "ignore-x,ignore"))
    ensures !Inert("ignore-x,ignore")
  {
    hide FenceMarker, Inert, Opener;
    HiddenTargetLine();
    HiddenTargetSource();
    HiddenTargetEmitted();
    HiddenTargetIsLive();
  }

  lemma HiddenTargetSource()
    ensures FenceMarker("~~~ ~ignore-x") == Some(Fence(0, '~', 3, " ~ignore-x"))
  {
    hide FenceMarker;
    FlushOpener('~', 3, " ~ignore-x", "~~~ ~ignore-x");
  }

  lemma HiddenTargetEmitted()
    ensures FenceMarker("~~~~ignore-x,ignore") == Some(Fence(0, '~', 4, "ignore-x,ignore"))
  {
    hide FenceMarker;
    assert Repeat('~', 4) == "~~~~";
    FlushOpener('~', 4, "ignore-x,ignore", "~~~~ignore-x,ignore");
  }

  lemma HiddenTargetLine()
    ensures Opener(Fence(0, '~', 3, " ~ignore-x")) == "~~~~ignore-x,ignore"
  {
    hide InertInfo, Opener, Tokens, TargetsIgnore;
    HiddenTarget();
    assert "~~~" + "~ignore-x,ignore" == "~~~~ignore-x,ignore";
    TildeOpenerText(" ~ignore-x", "~ignore-x,ignore");
  }

  lemma TildeOpenerText(info: string, emitted: string)
    requires InertInfo(info) == emitted
    ensures Opener(Fence(0, '~', 3, info)) == "~~~" + emitted
  {
    hide InertInfo;
    assert Repeat(' ', 0) == "" && Repeat('~', 3) == "~~~";
    assert "" + ("~~~" + emitted) == "~~~" + emitted;
  }

  lemma HiddenTargetIsLive()
    ensures !Inert("ignore-x,ignore")
  {
    hide Tokens, TargetsIgnore, InertInfo;
    HiddenTarget();
    assert "ignore-x" in Tokens("ignore-x,ignore");
  }

  lemma HiddenTarget()
    ensures InertInfo(" ~ignore-x") == "~ignore-x,ignore"
    ensures Tokens("ignore-x,ignore") == ["ignore-x", "ignore"] && TargetsIgnore("ignore-x")
    ensures "ignore-x,ignore" != "text"
  {
    hide Tokens, Kept;
    OneKeptToken("~ignore-x");
    assert " " + "~ignore-x" == " ~ignore-x";
    assert "~ignore-x"[0] != "ignore"[0];
    JoinTwo("~ignore-x", "ignore");
    JoinTwo("ignore-x", "ignore");
    assert "ignore-x" + "," + "ignore" == "ignore-x,ignore";
    FenceOpeners.TokensOfJoin(["ignore-x", "ignore"]);
    assert "ignore-x"[..7] == "ignore-";
  }

  lemma JoinTwo(a: string, b: string)
    ensures Join([a, b]) == a + "," + b
  {
    assert [a, b][1..] == [b];
  }

  /** A backslash hides the target of this readable opener from the sanitizer, but not from the reader. */
  lemma EscapedTargetExists()
    ensures var f := Fence(0, '`', 3, "rust,ignore\\-x");
            && FenceMarker("```rust,ignore\\-x") == Some(f)
            && Readable(f) && WrittenInert(f) && !ReadInert(f)
            && FenceMarker(Opener(f)).Some? && !Inert(Resolved(FenceMarker(Opener(f)).value.info))
  {
    hide FenceMarker, Opener, Inert, Resolved, WrittenInert, ReadInert, Tokens, Kept, TargetsIgnore, LeadingRun;
    var f := Fence(0, '`', 3, "rust,ignore\\-x");
    EscapedTargetMarker();
    FenceOpeners.WrittenInertUnlessHidden(f);
    EscapedTargetIsRead();
    FenceOpeners.OpenerIsRead("```rust,ignore\\-x");
  }

  lemma EscapedTargetMarker()
    ensures FenceMarker("```rust,ignore\\-x") == Some(Fence(0, '`', 3, "rust,ignore\\-x"))
  {
    hide FenceMarker;
    FlushOpener('`', 3, "rust,ignore\\-x", "```rust,ignore\\-x");
  }

  lemma EscapedTargetIsRead()
    ensures !ReadInert(Fence(0, '`', 3, "rust,ignore\\-x"))
  {
    hide Tokens, TargetsIgnore, Resolved, LeadingRun, Join;
    var t := "ignore\\-x";
    EscapedTarget();
    JoinTwo("rust", t);
    assert "rust" + "," + t == "rust,ignore\\-x";
    FenceOpeners.TokensOfJoin(["rust", t]);
    FenceOpeners.KeptMembers(["rust", t]);
    assert t in Kept(["rust", t]);
  }

  lemma EscapedTarget()
    ensures !TargetsIgnore("ignore\\-x") && TargetsIgnore(Resolved("ignore\\-x"))
  {
    var t := "ignore\\-x";
    assert t[6] == '\\';
    FenceOpeners.ResolvedEscape('-', "x");
    assert ['\\', '-'] + "x" == "\\-x";
    ResolvedBehind("ignore", "\\-x");
    assert t == "ignore" + "\\-x";
    assert "ignore-" == "ignore" + "-";
  }

  lemma {:induction false} ResolvedBehind(p: string, x: string)
    requires '\\' !in p
    ensures Resolved(p + x) == p + Resolved(x)
  {
    if p == [] {
      assert p + x == x;
    } else {
      assert p + x == [p[0]] + (p[1..] + x);
      FenceOpeners.ResolvedCons(p[0], p[1..] + x);
      DropMembers(p, 1);
      ResolvedBehind(p[1..], x);
    }
  }

  /** Text behind a space and a tab comes out as it went in: four columns in, and code after a blank line. */
  lemma HiddenIndentExists()
    ensures var raw := ["Foo.", "", " \tpanic!();"];
            && SanitizedLines(Prose, raw) == raw
            && OpenersReadable(Outside, raw)
            && TextColumn(raw[2], 0) == 4
            && !SafeLines(Outside, SanitizedLines(Prose, raw))
  {
    hide SafeLines, SanitizedLines, OpenersReadable, AllHarmless, TextColumn, IsIndented, Sanitized;
    var a, c := "Foo.", " \tpanic!();";
    UnmarkedLines();
    assert [a, "", c] == [a] + ["", c] && ["", c] == [""] + [c] && [c] == [c] + [];
    PlainComment(a, ["", c]);
    PlainComment("", [c]);
    PlainComment(c, []);
    NoLines();
    TabbedPanic();
    FenceProofs.FenceSafety(Prose, [a, "", c]);
  }

  lemma NoLines()
    ensures SanitizedLines(Prose, []) == [] && OpenersReadable(Outside, [])
  {
  }

  lemma TabbedPanic()
    ensures TextColumn(" \tpanic!();", 0) == 4 && HiddenIndent(" \tpanic!();")
  {
    assert Repeat(' ', 1) + "\tpanic!();" == " \tpanic!();" && "\tpanic!();"[1..] == "panic!();";
    FenceProofs.ColumnAfterSpaces(1, "\tpanic!();", 0);
    FenceProofs.ColumnOfText("panic!();", 4);
    var c := " \tpanic!();";
    assert c[2] == 'p' && c[..2] == " \t";
  }

  lemma UnmarkedLines()
    ensures !IsIndented("Foo.") && !IsIndented("") && !IsIndented(" \tpanic!();")
  {
    assert "Foo."[0] == 'F' && " \tpanic!();"[1] == '\t' && " \tpanic!();"[0] == ' ';
  }

  /** A line without any character that the sanitizer reacts to. */
  lemma PlainComment(line: string, rest: seq<string>)
    requires forall i :: 0 <= i < |line| ==> InlineProofs.IsPlain(line[i]) && line[i] != '~'
    requires !IsIndented(line)
    ensures SanitizedLines(Prose, [line] + rest) == [line] + SanitizedLines(Prose, rest)
    ensures OpenersReadable(Outside, [line] + rest) <==> OpenersReadable(Outside, rest)
    ensures AllHarmless(Outside, [line] + rest) <==> !HiddenIndent(line) && AllHarmless(Outside, rest)
  {
    hide Sanitized, HiddenIndent;
    PlainIsKept(line);
    assert FenceMarker(line) == None;
    assert ([line] + rest)[1..] == rest;
  }

  lemma {:induction false} PlainIsKept(line: string)
    requires forall i :: 0 <= i < |line| ==> InlineProofs.IsPlain(line[i])
    ensures Sanitized(line) == line
  {
    if line != [] {
      InlineProofs.PlainStep(line);
      PlainIsKept(line[1..]);
    }
  }

  lemma StepsOfClosedFence(line: string)
    requires FenceMarker(line).Some?
    ensures var f := FenceMarker(line).value;
            SanitizedLines(Prose, [line, Repeat(f.ch, f.len)]) == [Opener(f), Repeat(f.ch, f.len)]
  {
    var f := FenceMarker(line).value;
    var run := Repeat(f.ch, f.len);
    FenceOpeners.MarkerParts(line);
    FenceOpeners.ClosingRunCloses(f.ch, f.len);
    assert [line, run][1..] == [run] && [run][1..] == [];
    assert SanitizedLines(Author(f.ch, f.len), [run]) == [run];
  }

  /**
    Behind every unreadable opener the promise fails: the info token lengthens the emitted run, a
    closing run of the author's length no longer closes it, and rustdoc ends inside the fence.
   */
  lemma UnreadableOpenerSwallowsComment(line: string)
    requires FenceMarker(line).Some? && !Readable(FenceMarker(line).value)
    ensures var f := FenceMarker(line).value;
            ReadAll(Outside, SanitizedLines(Prose, [line, Repeat(f.ch, f.len)])).Inside?
  {
    var f := FenceMarker(line).value;
    var run := Repeat(f.ch, f.len);
    StepsOfClosedFence(line);
    FenceOpeners.OpenerIsRead(line);
    FenceOpeners.MarkerParts(line);
    FenceOpeners.MarkerOfParts(0, f.ch, f.len, [], run);
    FenceProofs.ReadTwo(Outside, Opener(f), run);
  }
}
