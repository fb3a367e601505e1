/**
  The line-level sanitizer of connectrpc-codegen/src/comments.rs as a state machine over the lines
  of a comment, and a reader for the result: fenced code blocks (section 4.5 of the CommonMark
  specification), tab stops (section 2.2) and indented code (section 4.4) as rustdoc sees them on
  lines that stand in no list item or block quote.
 */
module FenceSpec {
  import opened Options
  import opened Text
  import opened InlineSpec

  // ----- Fence markers -----------------------------------------------------------------------

  function Repeat(c: char, n: nat): (s: string)
    ensures |s| == n && forall i :: 0 <= i < n ==> s[i] == c
  {
    seq(n, _ => c)
  }

  /** Length of the run of `c` that `s` starts with. */
  function LeadingRun(s: string, c: char): (n: nat)
    ensures n <= |s|
    ensures forall i :: 0 <= i < n ==> s[i] == c
    ensures n < |s| ==> s[n] != c
  {
    if s != [] && s[0] == c then 1 + LeadingRun(s[1..], c) else 0
  }

  /** The sanitizer's own test for an indented line. */
  predicate IsIndented(line: string) {
    "    " <= line || "\t" <= line
  }

  datatype Fence = Fence(indent: nat, ch: char, len: nat, info: string) {
    predicate Closes(openCh: char, openLen: nat) {
      ch == openCh && len >= openLen && forall i :: 0 <= i < |info| ==> info[i] == ' ' || info[i] == '\t'
    }
  }

  function FenceMarker(line: string): Option<Fence> {
    if IsIndented(line) then None else
      var indent := LeadingRun(line, ' ');
      var rest := line[indent..];
      if rest == [] || (rest[0] != '`' && rest[0] != '~') then None else
        var ch := rest[0];
        var len := LeadingRun(rest, ch);
        var info := rest[len..];
        if len < 3 || (ch == '`' && '`' in info) then None else Some(Fence(indent, ch, len, info))
  }

  // ----- Info strings ------------------------------------------------------------------------

  predicate IsSeparator(c: char) {
    c == ',' || c == ' ' || c == '\t'
  }

  function WordLen(s: string): (n: nat)
    ensures n <= |s|
    ensures forall i :: 0 <= i < n ==> !IsSeparator(s[i])
    ensures n < |s| ==> IsSeparator(s[n])
  {
    if s == [] || IsSeparator(s[0]) then 0 else 1 + WordLen(s[1..])
  }

  /** A non-empty piece of an info string. */
  predicate IsToken(t: string) {
    t != [] && forall i :: 0 <= i < |t| ==> !IsSeparator(t[i])
  }

  function Tokens(s: string): (ts: seq<string>)
    ensures forall t :: t in ts ==> IsToken(t)
    decreases |s|
  {
    if s == [] then []
    else if IsSeparator(s[0]) then Tokens(s[1..])
    else [s[..WordLen(s)]] + Tokens(s[WordLen(s)..])
  }

  predicate TargetsIgnore(t: string) {
    "ignore-" <= t
  }

  function Kept(ts: seq<string>): seq<string> {
    if ts == [] then []
    else (if TargetsIgnore(ts[0]) then [] else [ts[0]]) + Kept(ts[1..])
  }

  function Join(ts: seq<string>): string {
    if ts == [] then [] else if |ts| == 1 then ts[0] else ts[0] + "," + Join(ts[1..])
  }

  /** The info string emitted for a fence opener. */
  function InertInfo(info: string): string {
    var kept := Kept(Tokens(info));
    if kept == [] then (if Tokens(info) != [] then "rust,ignore" else "text")
    else Join(if "ignore" in kept then kept else kept + ["ignore"])
  }

  /** An info string that keeps the block from being compiled, as the source describes rustdoc. */
  predicate Inert(info: string) {
    || info == "text"
    || ("ignore" in Tokens(info) && forall t :: t in Tokens(info) ==> !TargetsIgnore(t))
  }

  // ----- Indented blocks ---------------------------------------------------------------------

  function TrimStart(s: string): string {
    if s != [] && IsWhitespace(s[0]) then TrimStart(s[1..]) else s
  }

  function StripIndent(line: string): string {
    var stripped := if "    " <= line then line[4..] else if "\t" <= line then line[1..] else line;
    if "```" <= TrimStart(stripped) then line else stripped
  }

  predicate NextIsIndented(rest: seq<string>) {
    rest != [] && if rest[0] == [] then NextIsIndented(rest[1..]) else IsIndented(rest[0])
  }

  // ----- The sanitizer -----------------------------------------------------------------------

  /** Where the sanitizer stands between two source lines. */
  datatype Block = Prose | Author(ch: char, len: nat) | Synthetic

  function Opener(f: Fence): string {
    Repeat(' ', f.indent) + (Repeat(f.ch, f.len) + InertInfo(f.info))
  }

  function ProseLine(line: string): (seq<string>, Block) {
    match FenceMarker(line)
    case Some(f) => ([Opener(f)], Author(f.ch, f.len))
    case None =>
      if IsIndented(line) then (["```text", StripIndent(line)], Synthetic)
      else ([Sanitized(line)], Prose)
  }

  predicate ClosesWith(line: string, ch: char, len: nat) {
    var m := FenceMarker(line);
    m.Some? && m.value.Closes(ch, len)
  }

  /** The lines emitted for one source line, and the block it leaves the sanitizer in. */
  function Step(st: Block, line: string, rest: seq<string>): (seq<string>, Block) {
    match st
    case Author(ch, len) => ([line], if ClosesWith(line, ch, len) then Prose else st)
    case Synthetic =>
      if IsIndented(line) then ([StripIndent(line)], Synthetic)
      else if line == [] && NextIsIndented(rest) then ([[]], Synthetic)
      else (["```"] + ProseLine(line).0, ProseLine(line).1)
    case Prose => ProseLine(line)
  }

  /** The lines that close what is still open at the end of the comment. */
  function Closing(st: Block): seq<string> {
    match st
    case Prose => []
    case Author(ch, len) => [Repeat(ch, len)]
    case Synthetic => ["```"]
  }

  function SanitizedLines(st: Block, raw: seq<string>): seq<string>
    decreases |raw|
  {
    if raw == [] then Closing(st) else
      var (out, next) := Step(st, raw[0], raw[1..]);
      out + SanitizedLines(next, raw[1..])
  }

  // ----- The reader --------------------------------------------------------------------------

  datatype Reader = Outside | Inside(ch: char, len: nat)

  /** The column at which the text of `s` starts when `s` starts at `col`; tab stops are four apart. */
  function TextColumn(s: string, col: nat): nat {
    if s == [] then col
    else if s[0] == ' ' then TextColumn(s[1..], col + 1)
    else if s[0] == '\t' then TextColumn(s[1..], col / 4 * 4 + 4)
    else col
  }

  predicate Blank(s: string) {
    forall i :: 0 <= i < |s| ==> s[i] == ' ' || s[i] == '\t'
  }

  /** The ASCII punctuation characters of section 2.1. */
  predicate IsPunctuation(c: char) {
    '!' <= c <= '/' || ':' <= c <= '@' || '[' <= c <= '`' || '{' <= c <= '~'
  }

  /** An info string as it is read: a backslash before ASCII punctuation goes (section 2.4). */
  function Resolved(s: string): string
    decreases |s|
  {
    if s == [] then []
    else if s[0] == '\\' && |s| > 1 && IsPunctuation(s[1]) then [s[1]] + Resolved(s[2..])
    else [s[0]] + Resolved(s[1..])
  }

  /** A line that is code wherever it does not continue a paragraph: text four columns in or more. */
  predicate IndentedText(line: string) {
    !Blank(line) && TextColumn(line, 0) >= 4
  }

  function Read(r: Reader, line: string): Reader {
    match r
    case Inside(ch, len) => if ClosesWith(line, ch, len) then Outside else r
    case Outside =>
      var m := FenceMarker(line);
      if m.Some? then Inside(m.value.ch, m.value.len) else Outside
  }

  function ReadAll(r: Reader, lines: seq<string>): Reader
    decreases |lines|
  {
    if lines == [] then r else ReadAll(Read(r, lines[0]), lines[1..])
  }

  /** Outside a fence, an opener must be inert, and other text neither indented nor unescaped. */
  predicate SafeAt(r: Reader, line: string) {
    r.Outside? ==>
      match FenceMarker(line)
      case Some(f) => Inert(Resolved(f.info))
      case None => !IndentedText(line) && FullyEscaped(line)
  }

  predicate SafeLines(r: Reader, lines: seq<string>)
    decreases |lines|
  {
    lines == [] || (SafeAt(r, lines[0]) && SafeLines(Read(r, lines[0]), lines[1..]))
  }

  /** What rustdoc should be reading when the sanitizer is in block `st`. */
  function View(st: Block): Reader {
    match st
    case Prose => Outside
    case Author(ch, len) => Inside(ch, len)
    case Synthetic => Inside('`', 3)
  }

  /** Rustdoc's reader agrees with the sanitizer after every source line. */
  predicate InStep(st: Block, raw: seq<string>)
    decreases |raw|
  {
    raw != [] ==>
      var (out, next) := Step(st, raw[0], raw[1..]);
      ReadAll(View(st), out) == View(next) && InStep(next, raw[1..])
  }

  /**
    The emitted opener is read back with the length it was written with. It is not when a tilde
    fence's first kept info token starts with a tilde: the token then lengthens the run.
   */
  predicate Readable(f: Fence) {
    var kept := Kept(Tokens(f.info));
    f.ch == '~' && kept != [] ==> !("~" <= kept[0])
  }

  /** The words the reader finds in the emitted opener: the first one may lose tildes to the run. */
  function ReadWords(f: Fence): seq<string> {
    var kept := Kept(Tokens(f.info));
    if f.ch == '~' && kept != [] then [kept[0][LeadingRun(kept[0], '~')..]] + kept[1..] else kept
  }

  /** None of those words is an `ignore-` target as it is written. */
  predicate WrittenInert(f: Fence) {
    forall t :: t in ReadWords(f) ==> !TargetsIgnore(t)
  }

  /** Nor does any of them become one when its escapes are resolved: the emitted opener is inert. */
  predicate ReadInert(f: Fence) {
    forall t :: t in ReadWords(f) ==> !TargetsIgnore(Resolved(t))
  }

  /** Every opener that the CommonMark reader meets in the source is readable. */
  predicate OpenersReadable(r: Reader, raw: seq<string>)
    decreases |raw|
  {
    raw != [] ==>
      && (r.Outside? && FenceMarker(raw[0]).Some? ==> Readable(FenceMarker(raw[0]).value))
      && OpenersReadable(Read(r, raw[0]), raw[1..])
  }

  /** Text behind one to three spaces and a tab: indented for CommonMark, prose for the sanitizer. */
  predicate HiddenIndent(line: string) {
    !Blank(line) && (" \t" <= line || "  \t" <= line || "   \t" <= line)
  }

  /** A source line that is emitted safely outside a fence. */
  predicate Harmless(line: string) {
    var m := FenceMarker(line);
    !HiddenIndent(line) && (m.Some? ==> ReadInert(m.value))
  }

  predicate AllHarmless(r: Reader, raw: seq<string>)
    decreases |raw|
  {
    raw != [] ==>
      && (r.Outside? ==> Harmless(raw[0]))
      && AllHarmless(Read(r, raw[0]), raw[1..])
  }
}
