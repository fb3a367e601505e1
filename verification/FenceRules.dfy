/**
  What the line-level sanitizer of connectrpc-codegen/src/comments.rs does with each kind of block,
  stated on whole stretches of a comment: a prose line, a fenced block with and without its closer, an
  indented block. Markers, closers, info strings and indentation are spelled out on the text.
 */
module FenceRules {
  import opened Options
  import opened Sequences
  import opened InlineSpec
  import opened FenceSpec
  import InlineProofs
  import FenceOpeners
  import FenceProofs
  import FenceContent

  // ----- Markers and closers -----------------------------------------------------------------

  /** The line is these parts, one behind the other, and no shorter run would do. */
  predicate IsMarker(line: string, indent: nat, ch: char, len: nat, info: string) {
    && indent <= 3 && len >= 3 && (ch == '`' || ch == '~')
    && line == Repeat(' ', indent) + (Repeat(ch, len) + info)
    && (info == [] || info[0] != ch) && (ch == '`' ==> '`' !in info)
  }

  /** Exactly the lines of that form are markers. */
  lemma MarkerIff(line: string, f: Fence)
    ensures FenceMarker(line) == Some(f) <==> IsMarker(line, f.indent, f.ch, f.len, f.info)
  {
    hide FenceMarker, LeadingRun;
    if FenceMarker(line) == Some(f) {
      FenceOpeners.MarkerParts(line);
    }
    if IsMarker(line, f.indent, f.ch, f.len, f.info) {
      FenceOpeners.MarkerOfParts(f.indent, f.ch, f.len, f.info, line);
      FenceOpeners.NoRun(f.info, f.ch);
    }
  }

  /** A closer: up to three spaces, a run at least as long as the opener's, and blanks. */
  ghost predicate IsCloser(line: string, ch: char, len: nat) {
    exists indent: nat, n: nat, tail: string ::
      indent <= 3 && n >= len && Blank(tail) && line == Repeat(' ', indent) + (Repeat(ch, n) + tail)
  }

  lemma CloserIsRead(line: string, ch: char, len: nat, indent: nat, n: nat, tail: string)
    requires len >= 3 && (ch == '`' || ch == '~')
    requires indent <= 3 && n >= len && Blank(tail) && line == Repeat(' ', indent) + (Repeat(ch, n) + tail)
    ensures ClosesWith(line, ch, len)
  {
    hide FenceMarker, LeadingRun;
    FenceOpeners.NoRun(tail, ch);
    FenceOpeners.MarkerOfParts(indent, ch, n, tail, line);
  }

  lemma CloserIff(line: string, ch: char, len: nat)
    requires len >= 3 && (ch == '`' || ch == '~')
    ensures ClosesWith(line, ch, len) <==> IsCloser(line, ch, len)
  {
    if ClosesWith(line, ch, len) {
      var f := FenceMarker(line).value;
      FenceOpeners.MarkerParts(line);
      assert Blank(f.info);
    }
    hide ClosesWith, Blank;
    if IsCloser(line, ch, len) {
      var indent: nat, n: nat, tail: string :|
        indent <= 3 && n >= len && Blank(tail) && line == Repeat(' ', indent) + (Repeat(ch, n) + tail);
      CloserIsRead(line, ch, len, indent, n, tail);
    }
  }

  // ----- Info strings ------------------------------------------------------------------------

  lemma {:induction false} TokensOfConcat(a: string, c: char, b: string)
    requires c == ',' || c == ' ' || c == '\t'
    ensures Tokens(a + [c] + b) == Tokens(a) + Tokens(b)
    decreases |a|
  {
    var s := a + [c] + b;
    if a == [] {
      assert s == [c] + b && s[1..] == b;
    } else if IsSeparator(a[0]) {
      assert s[1..] == a[1..] + [c] + b;
      TokensOfConcat(a[1..], c, b);
    } else {
      var n := WordLen(a);
      var w, x := a[..n], a[n..];
      assert a == w + x && s == w + (x + [c] + b);
      FenceOpeners.TokensOfWord(w, x);
      FenceOpeners.TokensOfWord(w, x + [c] + b);
      TokensOfConcat(x, c, b);
      Associate([w], Tokens(x), Tokens(b));
    }
  }

  /** Commas, spaces and tabs separate tokens; what stands between them is one, unless it is empty. */
  lemma TokensRule(a: string, c: char, b: string, w: string)
    requires c in ", \t" && w != [] && ',' !in w && ' ' !in w && '\t' !in w
    ensures Tokens(a + [c] + b) == Tokens(a) + Tokens(b)
    ensures Tokens(w) == [w] && Tokens([]) == []
  {
    TokensOfConcat(a, c, b);
    FenceOpeners.TokensOfOne(w);
  }

  /** Tokens that start with `ignore-` go, all others stay in their order. */
  lemma {:induction false} KeptRule(a: seq<string>, b: seq<string>, t: string)
    ensures Kept(a + b) == Kept(a) + Kept(b)
    ensures Kept([t]) == if "ignore-" <= t then [] else [t]
    decreases |a|
  {
    if a == [] {
      assert a + b == b;
    } else {
      assert (a + b)[1..] == a[1..] + b;
      KeptRule(a[1..], b, t);
    }
  }

  lemma {:induction false} NothingKept(ts: seq<string>)
    requires forall t :: t in ts ==> "ignore-" <= t
    ensures Kept(ts) == []
  {
    if ts != [] {
      assert ts[0] in ts && forall t :: t in ts[1..] ==> t in ts;
      NothingKept(ts[1..]);
    }
  }

  lemma {:induction false} JoinOneMore(ts: seq<string>, t: string)
    requires ts != []
    ensures Join(ts + [t]) == Join(ts) + "," + t
  {
    assert (ts + [t])[1..] == ts[1..] + [t];
    if |ts| > 1 {
      JoinOneMore(ts[1..], t);
    } else {
      assert Join([t]) == t;
    }
  }

  /**
    An info string without tokens becomes `text`, one of nothing but `ignore-` targets becomes
    `rust,ignore`, and otherwise what is kept is joined by commas, with `ignore` at the end unless it
    is there already.
   */
  lemma InfoRule(info: string)
    ensures Tokens(info) == [] ==> InertInfo(info) == "text"
    ensures Tokens(info) != [] && (forall t :: t in Tokens(info) ==> "ignore-" <= t) ==>
              InertInfo(info) == "rust,ignore"
    ensures var ks := Kept(Tokens(info));
            ks != [] ==> InertInfo(info) == Join(ks) + if "ignore" in ks then "" else ",ignore"
  {
    hide Tokens;
    if forall t :: t in Tokens(info) ==> "ignore-" <= t {
      NothingKept(Tokens(info));
    }
    var ks := Kept(Tokens(info));
    if ks != [] && "ignore" !in ks {
      JoinOneMore(ks, "ignore");
      assert Join(ks) + "," + "ignore" == Join(ks) + ",ignore";
    } else {
      assert Join(ks) + "" == Join(ks);
    }
  }

  /** A single language word keeps its place in front of `ignore`. */
  lemma LanguageRule(w: string)
    requires w != [] && ',' !in w && ' ' !in w && '\t' !in w && w != "ignore" && !("ignore-" <= w)
    ensures InertInfo(w) == w + ",ignore"
  {
    FenceOpeners.TokensOfOne(w);
    KeptRule([], [], w);
    InfoRule(w);
    assert Join([w]) == w;
  }

  // ----- Prose -------------------------------------------------------------------------------

  lemma Unfold(st: Block, line: string, rest: seq<string>)
    ensures var (out, next) := Step(st, line, rest);
            SanitizedLines(st, [line] + rest) == out + SanitizedLines(next, rest)
  {
    assert ([line] + rest)[1..] == rest;
  }

  /** A prose line is escaped. */
  lemma ProseRule(line: string, rest: seq<string>)
    requires FenceMarker(line) == None && !IsIndented(line)
    ensures SanitizedLines(Prose, [line] + rest) == [Sanitized(line)] + SanitizedLines(Prose, rest)
  {
    hide SanitizedLines;
    Unfold(Prose, line, rest);
  }

  // ----- Author fences -----------------------------------------------------------------------

  /** Inside a fence every line that does not close it passes through. */
  lemma {:induction false} ContentRule(ch: char, len: nat, content: seq<string>, rest: seq<string>)
    requires len >= 3 && (ch == '`' || ch == '~')
    requires forall line :: line in content ==> !IsCloser(line, ch, len)
    ensures SanitizedLines(Author(ch, len), content + rest) == content + SanitizedLines(Author(ch, len), rest)
    decreases |content|
  {
    hide SanitizedLines, IsCloser;
    if content == [] {
      assert content + rest == rest;
      assert content + SanitizedLines(Author(ch, len), rest) == SanitizedLines(Author(ch, len), rest);
    } else {
      var line, more := content[0], content[1..];
      assert content == [line] + more;
      assert content + rest == [line] + (more + rest);
      CloserIff(line, ch, len);
      Unfold(Author(ch, len), line, more + rest);
      ContentRule(ch, len, more, rest);
      Associate([line], more, SanitizedLines(Author(ch, len), rest));
    }
  }

  /** A fenced block up to its closer: only the info string changes, and prose follows. */
  lemma FenceRule(
    line: string, indent: nat, ch: char, len: nat, info: string, content: seq<string>, close: string, rest: seq<string>)
    requires IsMarker(line, indent, ch, len, info)
    requires (forall c :: c in content ==> !IsCloser(c, ch, len)) && IsCloser(close, ch, len)
    ensures SanitizedLines(Prose, [line] + (content + ([close] + rest))) ==
            [Repeat(' ', indent) + (Repeat(ch, len) + InertInfo(info))] +
            (content + ([close] + SanitizedLines(Prose, rest)))
  {
    hide SanitizedLines, IsCloser, InertInfo;
    MarkerIff(line, Fence(indent, ch, len, info));
    Unfold(Prose, line, content + ([close] + rest));
    ContentRule(ch, len, content, [close] + rest);
    CloserIff(close, ch, len);
    Unfold(Author(ch, len), close, rest);
  }

  /** A fenced block without a closer is closed at the end of the comment, with the opener's own run. */
  lemma UnclosedFenceRule(line: string, indent: nat, ch: char, len: nat, info: string, content: seq<string>)
    requires IsMarker(line, indent, ch, len, info) && forall c :: c in content ==> !IsCloser(c, ch, len)
    ensures SanitizedLines(Prose, [line] + content) ==
            [Repeat(' ', indent) + (Repeat(ch, len) + InertInfo(info))] + (content + [Repeat(ch, len)])
  {
    hide SanitizedLines, IsCloser, InertInfo;
    MarkerIff(line, Fence(indent, ch, len, info));
    Unfold(Prose, line, content);
    ContentRule(ch, len, content, []);
    assert content + [] == content;
    AtTheEnd(Author(ch, len));
  }

  lemma AtTheEnd(st: Block)
    ensures SanitizedLines(st, []) == Closing(st)
  {
  }

  // ----- Indented blocks ---------------------------------------------------------------------

  /** The lines of an indented block: indented ones, and empty ones that an indented one follows. */
  ghost predicate IsCode(block: seq<string>) {
    && block != [] && IsIndented(block[|block| - 1])
    && forall i :: 0 <= i < |block| ==> IsIndented(block[i]) || block[i] == []
  }

  /** What follows does not continue the block: its first line that is not empty is not indented. */
  ghost predicate EndsCode(rest: seq<string>) {
    forall i :: 0 <= i < |rest| && IsIndented(rest[i]) ==>
      exists j :: 0 <= j < i && rest[j] != [] && !IsIndented(rest[j])
  }

  function Dedented(block: seq<string>): (r: seq<string>)
    ensures |r| == |block|
    ensures forall i :: 0 <= i < |r| ==> r[i] == if block[i] == [] then [] else StripIndent(block[i])
  {
    seq(|block|, i requires 0 <= i < |block| => if block[i] == [] then [] else StripIndent(block[i]))
  }

  lemma {:induction false} NextInCode(block: seq<string>, rest: seq<string>)
    requires IsCode(block)
    ensures NextIsIndented(block + rest)
    decreases |block|
  {
    if block[0] == [] {
      assert |block| > 1;
      assert (block + rest)[1..] == block[1..] + rest;
      NextInCode(block[1..], rest);
    }
  }

  lemma {:induction false} NextAfterCode(rest: seq<string>)
    requires EndsCode(rest)
    ensures !NextIsIndented(rest)
  {
    if rest != [] {
      assert !IsIndented(rest[0]);
      if rest[0] == [] {
        forall i | 0 <= i < |rest[1..]| && IsIndented(rest[1..][i])
          ensures exists j :: 0 <= j < i && rest[1..][j] != [] && !IsIndented(rest[1..][j])
        {
          var j :| 0 <= j < i + 1 && rest[j] != [] && !IsIndented(rest[j]);
          assert rest[1..][j - 1] == rest[j];
        }
        NextAfterCode(rest[1..]);
      }
    }
  }

  /** The block closes in front of what does not continue it, and prose rules hold from there. */
  lemma CodeEnds(rest: seq<string>)
    requires EndsCode(rest)
    ensures SanitizedLines(Synthetic, rest) == ["```"] + SanitizedLines(Prose, rest)
  {
    if rest == [] {
      AtTheEnd(Synthetic);
      AtTheEnd(Prose);
    } else {
      assert !IsIndented(rest[0]);
      NextAfterCode(rest);
      assert rest == [rest[0]] + rest[1..];
      Unfold(Synthetic, rest[0], rest[1..]);
      Unfold(Prose, rest[0], rest[1..]);
    }
  }

  lemma CodeTail(block: seq<string>)
    requires IsCode(block) && |block| > 1
    ensures IsCode(block[1..])
  {
    hide IsIndented;
  }

  lemma SyntheticKeeps(line: string, rest: seq<string>)
    requires IsIndented(line) || (line == [] && NextIsIndented(rest))
    ensures Step(Synthetic, line, rest) == ([if line == [] then [] else StripIndent(line)], Synthetic)
  {
    hide StripIndent, NextIsIndented;
  }

  lemma {:induction false} CodeGoesOn(block: seq<string>, rest: seq<string>)
    requires IsCode(block)
    ensures SanitizedLines(Synthetic, block + rest) == Dedented(block) + SanitizedLines(Synthetic, rest)
    decreases |block|
  {
    hide SanitizedLines, StripIndent, IsIndented, ProseLine, Step, Dedented, NextIsIndented;
    var line, more := block[0], block[1..];
    assert block + rest == [line] + (more + rest);
    Unfold(Synthetic, line, more + rest);
    DedentedCons(block);
    EmptyIsNotIndented();
    if more == [] {
      SyntheticKeeps(line, more + rest);
      assert more + rest == rest && Dedented(more) == [];
    } else {
      CodeTail(block);
      NextInCode(more, rest);
      SyntheticKeeps(line, more + rest);
      CodeGoesOn(more, rest);
      Associate([if line == [] then [] else StripIndent(line)], Dedented(more), SanitizedLines(Synthetic, rest));
    }
  }

  lemma DedentedCons(block: seq<string>)
    requires block != []
    ensures Dedented(block) == [if block[0] == [] then [] else StripIndent(block[0])] + Dedented(block[1..])
  {
    hide StripIndent;
  }

  lemma EmptyIsNotIndented()
    ensures !IsIndented([])
  {
  }

  /**
    An indented block, empty lines inside it included, comes out as one `text` fence around its
    de-indented lines. Empty lines at its end stay outside.
   */
  lemma CodeBlockRule(block: seq<string>, rest: seq<string>)
    requires IsCode(block) && IsIndented(block[0]) && EndsCode(rest)
    ensures SanitizedLines(Prose, block + rest) ==
            ["```text"] + (Dedented(block) + (["```"] + SanitizedLines(Prose, rest)))
  {
    hide SanitizedLines, StripIndent, IsIndented, EndsCode;
    var line, more := block[0], block[1..];
    assert block + rest == [line] + (more + rest);
    IndentedIsNoMarker(line);
    Unfold(Prose, line, more + rest);
    Unfold(Synthetic, line, more + rest);
    CodeGoesOn(block, rest);
    CodeEnds(rest);
    assert ["```text", StripIndent(line)] == ["```text"] + [StripIndent(line)];
    Associate(["```text"], [StripIndent(line)], SanitizedLines(Synthetic, more + rest));
  }

  lemma IndentedIsNoMarker(line: string)
    requires IsIndented(line)
    ensures FenceMarker(line) == None
  {
  }

  /** One indented line: it loses its four spaces or its tab, unless backticks would be laid bare. */
  lemma OneCodeLineRule(x: string)
    requires !FenceContent.TicksBehindSpace(x)
    ensures SanitizedLines(Prose, ["    " + x]) == ["```text", x, "```"]
    ensures SanitizedLines(Prose, ["\t" + x]) == ["```text", x, "```"]
  {
    FenceContent.StripIndentRule(x);
    OneCodeLine("    " + x);
    OneCodeLine("\t" + x);
  }

  lemma OneCodeLine(line: string)
    requires IsIndented(line)
    ensures SanitizedLines(Prose, [line]) == ["```text", StripIndent(line), "```"]
  {
    hide SanitizedLines, StripIndent, IsIndented;
    EmptyIsNotIndented();
    CodeBlockRule([line], []);
    AtTheEnd(Prose);
    assert [line] + [] == [line];
    assert Dedented([line]) == [StripIndent(line)];
  }
}
