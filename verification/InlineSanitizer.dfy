/**
  The scanning loops of connectrpc-codegen/src/comments.rs (`sanitize_line` and its finders) over
  one line and an index, proved against the suffix functions of `InlineSpec`.
 */
module InlineSanitizer {
  import opened Options
  import opened InlineSpec

  // ----- Lookahead, indexed from the start of the line ----------------------------------------

  function CloserFrom(bytes: string, i: nat, run: nat): Option<nat>
    requires i <= |bytes|
  {
    Shift(TickCloser(bytes[i..], run), i)
  }

  lemma CloserFromTicks(bytes: string, i: nat, run: nat)
    requires i < |bytes| && bytes[i] == '`'
    ensures var k := i + TickRun(bytes[i..]);
            i < k <= |bytes| && CloserFrom(bytes, i, run) == if k - i == run then Some(k) else CloserFrom(bytes, k, run)
  {
    var k := i + TickRun(bytes[i..]);
    assert bytes[i..][k - i..] == bytes[k..];
  }

  lemma CloserFromEnd(bytes: string, run: nat)
    ensures CloserFrom(bytes, |bytes|, run) == None
  {
  }

  lemma CloserFromOther(bytes: string, i: nat, run: nat)
    requires i < |bytes| && bytes[i] != '`'
    ensures CloserFrom(bytes, i, run) == CloserFrom(bytes, i + 1, run)
  {
    assert bytes[i..][1..] == bytes[i + 1..];
  }

  method FindBacktickCloser(bytes: string, from: nat, runLen: nat) returns (r: Option<nat>)
    requires from <= |bytes|
    ensures r == CloserFrom(bytes, from, runLen)
  {
    hide TickCloser, TickRun;
    var i := from;
    while i < |bytes|
      invariant i <= |bytes|
      invariant CloserFrom(bytes, i, runLen) == CloserFrom(bytes, from, runLen)
    {
      if bytes[i] == '`' {
        CloserFromTicks(bytes, i, runLen);
        var start := i;
        i := SkipTicks(bytes, i);
        if i - start == runLen {
          return Some(i);
        }
      } else {
        CloserFromOther(bytes, i, runLen);
        i := i + 1;
      }
    }
    CloserFromEnd(bytes, runLen);
    return None;
  }

  /** The inner loop that two of the scans share: past the backtick run at `from`. */
  method SkipTicks(bytes: string, from: nat) returns (i: nat)
    requires from <= |bytes|
    ensures i == from + TickRun(bytes[from..]) && i <= |bytes|
  {
    i := from;
    while i < |bytes| && bytes[i] == '`'
      invariant from <= i <= |bytes|
      invariant i + TickRun(bytes[i..]) == from + TickRun(bytes[from..])
    {
      i := i + 1;
      assert bytes[i - 1..][1..] == bytes[i..];
    }
  }

  /** First loop of the link finder: the `]` of the label, unless a `[` comes first. */
  lemma LabelEndStep(bytes: string, j: nat)
    requires j < |bytes|
    ensures LabelEnd(bytes[j..]) ==
            if bytes[j] == '[' then None else if bytes[j] == ']' then Some(0) else Shift(LabelEnd(bytes[j + 1..]), 1)
  {
    assert bytes[j..][1..] == bytes[j + 1..];
  }

  lemma NoLabelEnd(bytes: string)
    ensures LabelEnd(bytes[|bytes|..]) == None
  {
  }

  method FindLabelEnd(bytes: string, start: nat) returns (r: Option<nat>)
    requires start <= |bytes|
    ensures r == Shift(LabelEnd(bytes[start..]), start)
  {
    hide LabelEnd;
    NoLabelEnd(bytes);
    var j := start;
    while j < |bytes| && bytes[j] != ']'
      invariant start <= j <= |bytes|
      invariant Shift(LabelEnd(bytes[j..]), j) == Shift(LabelEnd(bytes[start..]), start)
    {
      LabelEndStep(bytes, j);
      if bytes[j] == '[' {
        return None;
      }
      j := j + 1;
    }
    if j < |bytes| {
      LabelEndStep(bytes, j);
      return Some(j);
    }
    return None;
  }

  function ParenFrom(bytes: string, k: nat, depth: nat): Option<nat>
    requires k <= |bytes| && depth > 0
  {
    Shift(CloseParen(bytes[k..], depth), k)
  }

  lemma ParenFromStep(bytes: string, k: nat, depth: nat)
    requires k < |bytes| && depth > 0
    ensures ParenFrom(bytes, k, depth) ==
            if bytes[k] == '(' then ParenFrom(bytes, k + 1, depth + 1)
            else if bytes[k] != ')' then ParenFrom(bytes, k + 1, depth)
            else if depth == 1 then Some(k)
            else ParenFrom(bytes, k + 1, depth - 1)
  {
    assert bytes[k..][1..] == bytes[k + 1..];
  }

  lemma ParenFromEnd(bytes: string, depth: nat)
    requires depth > 0
    ensures ParenFrom(bytes, |bytes|, depth) == None
  {
  }

  /** Second loop of the link finder: the `)` that closes the URL. */
  method FindUrlClose(bytes: string, start: nat) returns (r: Option<nat>)
    requires start <= |bytes|
    ensures r == ParenFrom(bytes, start, 1)
  {
    hide CloseParen;
    var depth, k := 1, start;
    while k < |bytes|
      invariant start <= k <= |bytes| && depth > 0
      invariant ParenFrom(bytes, k, depth) == ParenFrom(bytes, start, 1)
    {
      ParenFromStep(bytes, k, depth);
      if bytes[k] == '(' {
        depth := depth + 1;
      } else if bytes[k] == ')' {
        depth := depth - 1;
        if depth == 0 {
          return Some(k);
        }
      }
      k := k + 1;
    }
    ParenFromEnd(bytes, depth);
    return None;
  }

  method FindInlineLinkEnd(bytes: string, start: nat) returns (r: Option<nat>)
    requires start < |bytes| && bytes[start] == '['
    ensures r == Shift(LinkEnd(bytes[start..]), start)
  {
    hide LabelEnd, CloseParen;
    var closeBracket := FindLabelEnd(bytes, start + 1);
    assert bytes[start..][1..] == bytes[start + 1..];
    if closeBracket.None? || closeBracket.value + 1 >= |bytes| || bytes[closeBracket.value + 1] != '(' {
      return None;
    }
    assert bytes[start..][closeBracket.value + 2 - start..] == bytes[closeBracket.value + 2..];
    r := FindUrlClose(bytes, closeBracket.value + 2);
  }

  method FindAutolinkEnd(bytes: string, start: nat) returns (r: Option<nat>)
    requires start < |bytes| && bytes[start] == '<'
    ensures r == Shift(AutolinkEnd(bytes[start..]), start)
  {
    var rest := bytes[start + 1..];
    assert bytes[start..][1..] == rest;
    if !HasScheme(rest) {
      return None;
    }
    return Shift(IndexOf(rest, '>'), start + 1);
  }

  /** First loop of the URL finder: up to whitespace, `)` or an angle bracket. */
  method FindUrlStop(bytes: string, start: nat) returns (j: nat)
    requires start <= |bytes|
    ensures j == start + UrlSpan(bytes[start..]) <= |bytes|
  {
    hide StopsUrl;
    j := start;
    while j < |bytes| && !StopsUrl(bytes[j])
      invariant start <= j <= |bytes|
      invariant j + UrlSpan(bytes[j..]) == start + UrlSpan(bytes[start..])
    {
      j := j + 1;
      assert bytes[j - 1..][1..] == bytes[j..];
    }
  }

  method FindBareUrlEnd(bytes: string, start: nat) returns (r: Option<nat>)
    requires start <= |bytes|
    ensures r == if HasScheme(bytes[start..]) then Some(start + UrlEnd(bytes[start..])) else None
  {
    hide HasScheme, IsSentencePunctuation, UrlSpan;
    ghost var s := bytes[start..];
    if !HasScheme(bytes[start..]) {
      return None;
    }
    var j := FindUrlStop(bytes, start);
    while j > start && IsSentencePunctuation(bytes[j - 1])
      invariant start <= j <= |bytes|
      invariant TrimPunctuation(s, j - start) == UrlEnd(s)
    {
      j := j - 1;
    }
    return Some(j);
  }

  // ----- The scan ----------------------------------------------------------------------------

  /** The branches of the scan that start at a backtick. */
  method ScanTicks(line: string, i: nat) returns (piece: string, next: nat)
    requires i < |line| && line[i] == '`'
    ensures piece == NextChunk(line[i..]).Render()
    ensures next == i + |NextChunk(line[i..]).Source()| <= |line|
  {
    hide TickRun, TickCloser;
    next := SkipTicks(line, i);
    var closer := FindBacktickCloser(line, next, next - i);
    assert line[i..][next - i..] == line[next..];
    if closer.Some? {
      next := closer.value;
    }
    piece := line[i..next];
    assert piece == line[i..][..next - i];
  }

  method ScanLink(line: string, i: nat) returns (piece: string, next: nat)
    requires i < |line| && line[i] == '['
    ensures piece == NextChunk(line[i..]).Render()
    ensures next == i + |NextChunk(line[i..]).Source()| <= |line|
  {
    var link := FindInlineLinkEnd(line, i);
    if link.Some? {
      piece, next := line[i..link.value + 1], link.value + 1;
      assert piece == line[i..][..next - i];
    } else {
      piece, next := "\\[", i + 1;
    }
  }

  method ScanAutolink(line: string, i: nat) returns (piece: string, next: nat)
    requires i < |line| && line[i] == '<'
    ensures piece == NextChunk(line[i..]).Render()
    ensures next == i + |NextChunk(line[i..]).Source()| <= |line|
  {
    var autolink := FindAutolinkEnd(line, i);
    if autolink.Some? {
      piece, next := line[i..autolink.value + 1], autolink.value + 1;
      assert piece == line[i..][..next - i];
    } else {
      piece, next := "\\<", i + 1;
    }
  }

  method ScanUrl(line: string, i: nat) returns (piece: string, next: nat)
    requires i < |line| && line[i] == 'h'
    ensures piece == NextChunk(line[i..]).Render()
    ensures next == i + |NextChunk(line[i..]).Source()| <= |line|
  {
    hide UrlEnd, HasScheme;
    var url := FindBareUrlEnd(line, i);
    if url.Some? {
      UrlEndKeepsScheme(line[i..]);
      piece, next := "<" + line[i..url.value] + ">", url.value;
      assert line[i..url.value] == line[i..][..next - i];
    } else {
      piece, next := "h", i + 1;
    }
  }

  /** One turn of the scan: what it appends to the output and where it moves the index. */
  method ScanChunk(line: string, i: nat) returns (piece: string, next: nat)
    requires i < |line|
    ensures piece == NextChunk(line[i..]).Render()
    ensures next == i + |NextChunk(line[i..]).Source()| <= |line|
  {
    match line[i]
    case '`' =>
      piece, next := ScanTicks(line, i);
    case '\\' =>
      next := if i + 1 < |line| then i + 2 else i + 1;
      piece := line[i..next];
      assert piece == line[i..][..next - i];
    case '[' =>
      piece, next := ScanLink(line, i);
    case ']' =>
      piece, next := "\\]", i + 1;
    case '<' =>
      piece, next := ScanAutolink(line, i);
    case '>' =>
      piece, next := "\\>", i + 1;
    case 'h' =>
      piece, next := ScanUrl(line, i);
    case c =>
      piece, next := [c], i + 1;
  }

  function SanitizedFrom(line: string, i: nat): string
    requires i <= |line|
  {
    Sanitized(line[i..])
  }

  lemma SanitizedFromStep(line: string, i: nat, next: nat)
    requires i < |line| && next == i + |NextChunk(line[i..]).Source()|
    ensures next <= |line| && SanitizedFrom(line, i) == NextChunk(line[i..]).Render() + SanitizedFrom(line, next)
  {
    assert line[i..][next - i..] == line[next..];
  }

  lemma SanitizedFromEnds(line: string)
    ensures SanitizedFrom(line, 0) == Sanitized(line)
    ensures SanitizedFrom(line, |line|) == []
  {
    assert line[0..] == line;
  }

  /** Escapes one prose line for rustdoc. */
  method SanitizeLine(line: string) returns (out: string)
    ensures out == Sanitized(line)
  {
    hide Sanitized, SanitizedFrom, NextChunk;
    out := [];
    var i := 0;
    SanitizedFromEnds(line);
    while i < |line|
      invariant 0 <= i <= |line|
      invariant out + SanitizedFrom(line, i) == Sanitized(line)
    {
      var piece, next := ScanChunk(line, i);
      SanitizedFromStep(line, i, next);
      assert out + (piece + SanitizedFrom(line, next)) == out + piece + SanitizedFrom(line, next);
      out, i := out + piece, next;
    }
  }
}
