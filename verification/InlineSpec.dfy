/**
  The meaning of the prose sanitizer of connectrpc-codegen/src/comments.rs, on suffixes of one line.

  A line is a `string`. The source scans UTF-8 bytes, but it only ever compares them with ASCII
  bytes and copies everything else, so characters and bytes give the same chunks.
 */
module InlineSpec {
  import opened Options

  // ----- Lookahead ---------------------------------------------------------------------------

  /** Length of the backtick run that `s` starts with. */
  function TickRun(s: string): (n: nat)
    ensures n <= |s|
    ensures forall i :: 0 <= i < n ==> s[i] == '`'
    ensures n < |s| ==> s[n] != '`'
  {
    if s != [] && s[0] == '`' then 1 + TickRun(s[1..]) else 0
  }

  /** Past-the-end index of the first whole run of exactly `run` backticks. */
  function TickCloser(s: string, run: nat): (r: Option<nat>)
    ensures r.Some? ==> r.value <= |s|
    decreases |s|
  {
    if s == [] then None
    else if s[0] == '`' then
      var n := TickRun(s);
      if n == run then Some(n) else Shift(TickCloser(s[n..], run), n)
    else Shift(TickCloser(s[1..], run), 1)
  }

  /** Index of the `]` that ends a link label; a `[` before it ends the search. */
  function LabelEnd(s: string): (r: Option<nat>)
    ensures r.Some? ==> r.value < |s| && s[r.value] == ']'
  {
    if s == [] || s[0] == '[' then None
    else if s[0] == ']' then Some(0)
    else Shift(LabelEnd(s[1..]), 1)
  }

  /** Index of the `)` that brings the nesting depth down to zero. */
  function CloseParen(s: string, depth: nat): (r: Option<nat>)
    requires depth > 0
    ensures r.Some? ==> r.value < |s| && s[r.value] == ')'
  {
    if s == [] then None
    else if s[0] == '(' then Shift(CloseParen(s[1..], depth + 1), 1)
    else if s[0] == ')' then if depth == 1 then Some(0) else Shift(CloseParen(s[1..], depth - 1), 1)
    else Shift(CloseParen(s[1..], depth), 1)
  }

  /** If `s` starts with a complete `[text](url)`, the index of its closing parenthesis. */
  function LinkEnd(s: string): (r: Option<nat>)
    requires s != []
    ensures r.Some? ==> 0 < r.value < |s|
  {
    match LabelEnd(s[1..])
    case None => None
    case Some(j) =>
      if j + 2 < |s| && s[j + 2] == '(' then Shift(CloseParen(s[j + 3..], 1), j + 3) else None
  }

  predicate HasScheme(s: string) {
    "http://" <= s || "https://" <= s
  }

  function IndexOf(s: string, c: char): (r: Option<nat>)
    ensures r.Some? ==> r.value < |s| && s[r.value] == c
  {
    if s == [] then None
    else if s[0] == c then Some(0)
    else Shift(IndexOf(s[1..], c), 1)
  }

  /** If `s` starts with `<http(s)://...>`, the index of the `>`. */
  function AutolinkEnd(s: string): (r: Option<nat>)
    requires s != []
    ensures r.Some? ==> 0 < r.value < |s|
  {
    if HasScheme(s[1..]) then Shift(IndexOf(s[1..], '>'), 1) else None
  }

  predicate IsAsciiWhitespace(c: char) {
    c == ' ' || c == '\t' || c == '\n' || c == '\r' || c == 12 as char
  }

  predicate StopsUrl(c: char) {
    IsAsciiWhitespace(c) || c == ')' || c == '<' || c == '>'
  }

  predicate IsSentencePunctuation(c: char) {
    c == '.' || c == ',' || c == ';' || c == ':' || c == '!' || c == '?'
  }

  function UrlSpan(s: string): (n: nat)
    ensures n <= |s|
    ensures forall i :: 0 <= i < n ==> !StopsUrl(s[i])
    ensures n < |s| ==> StopsUrl(s[n])
  {
    if s == [] || StopsUrl(s[0]) then 0 else 1 + UrlSpan(s[1..])
  }

  function TrimPunctuation(s: string, n: nat): (m: nat)
    requires n <= |s|
    ensures m <= n
    ensures m > 0 ==> !IsSentencePunctuation(s[m - 1])
    ensures forall i :: m <= i < n ==> IsSentencePunctuation(s[i])
  {
    if n > 0 && IsSentencePunctuation(s[n - 1]) then TrimPunctuation(s, n - 1) else n
  }

  /** Length of the bare URL that `s` starts with. */
  function UrlEnd(s: string): nat {
    TrimPunctuation(s, UrlSpan(s))
  }

  // ----- Chunks ------------------------------------------------------------------------------

  /** What one turn of the scan recognises. Only the last two kinds are rendered with insertions. */
  datatype Chunk =
    | Plain(c: char)
    | LoneTicks(text: string)
    | CodeSpan(text: string)
    | AuthorEscape(text: string)
    | Link(text: string)
    | Autolink(text: string)
    | Escaped(c: char)
    | Wrapped(text: string)
  {
    function Source(): string {
      match this
      case Plain(c) => [c]
      case Escaped(c) => [c]
      case _ => text
    }

    function Render(): string {
      match this
      case Plain(c) => [c]
      case Escaped(c) => ['\\', c]
      case Wrapped(_) => "<" + text + ">"
      case _ => text
    }
  }

  predicate IsBracket(c: char) {
    c == '[' || c == ']' || c == '<' || c == '>'
  }

  /** A chunk is inserted into only to escape a bracket or to wrap a bare URL. */
  predicate Admissible(c: Chunk) {
    match c
    case Escaped(b) => IsBracket(b)
    case Wrapped(u) => HasScheme(u) && forall i :: 0 <= i < |u| ==> !StopsUrl(u[i])
    case _ => c.Render() == c.Source()
  }

  lemma UrlEndKeepsScheme(s: string)
    requires HasScheme(s)
    ensures HasScheme(s[..UrlEnd(s)])
    ensures 0 < UrlEnd(s) <= |s|
  {
    var k := if "http://" <= s then 7 else 8;
    assert s[0] == 'h' && s[1] == 't' && s[2] == 't' && s[3] == 'p' && s[4] in ":s" && s[5] in "/:" && s[6] == '/';
    assert s[k - 1] == '/';
    assert k <= UrlSpan(s);
    assert k <= UrlEnd(s);
    assert s[..UrlEnd(s)][..k] == s[..k];
  }

  /** A backtick run, together with its closer if it has one. */
  function TickSpan(s: string): (c: Chunk)
    requires s != [] && s[0] == '`'
    ensures c.CodeSpan? || c.LoneTicks?
    ensures TickRun(s) <= |c.text| <= |s| && c.text == s[..|c.text|]
  {
    var n := TickRun(s);
    match TickCloser(s[n..], n) {
      case Some(end) => CodeSpan(s[..n + end])
      case None => LoneTicks(s[..n])
    }
  }

  function NextChunk(s: string): (c: Chunk)
    requires s != []
    ensures 0 < |c.Source()| <= |s| && c.Source() == s[..|c.Source()|]
    ensures c.Escaped? ==> IsBracket(c.c)
    ensures c.Wrapped? ==> HasScheme(c.text) && forall i :: 0 <= i < |c.text| ==> !StopsUrl(c.text[i])
  {
    var b := s[0];
    if b == '`' then TickSpan(s)
    else if b == '\\' then AuthorEscape(if |s| == 1 then s else s[..2])
    else if b == '[' then
      match LinkEnd(s) {
        case Some(end) => Link(s[..end + 1])
        case None => Escaped('[')
      }
    else if b == '<' then
      match AutolinkEnd(s) {
        case Some(end) => Autolink(s[..end + 1])
        case None => Escaped('<')
      }
    else if b == ']' || b == '>' then Escaped(b)
    else if b == 'h' && HasScheme(s) then UrlEndKeepsScheme(s); Wrapped(s[..UrlEnd(s)])
    else Plain(b)
  }

  function Chunks(s: string): seq<Chunk>
    decreases |s|
  {
    if s == [] then [] else
      var c := NextChunk(s);
      [c] + Chunks(s[|c.Source()|..])
  }

  /** The sanitized form of one prose line. */
  function Sanitized(s: string): string
    decreases |s|
  {
    if s == [] then [] else
      var c := NextChunk(s);
      c.Render() + Sanitized(s[|c.Source()|..])
  }

  // ----- What the output must be -------------------------------------------------------------

  /**
    Every `[`, `]`, `<` and `>` of `t` is escaped or belongs to a complete code span, inline link or
    autolink, and no bare URL is left. What counts as a complete construct is decided by the
    sanitizer's own finders, which are looser than CommonMark's: `<http://a b>` passes for an
    autolink, and the text of a link may hold raw angle brackets.
   */
  predicate FullyEscaped(t: string)
    decreases |t|
  {
    if t == [] then true
    else if t[0] == '`' then
      var n := TickRun(t);
      match TickCloser(t[n..], n) {
        case Some(end) => FullyEscaped(t[n + end..])
        case None => FullyEscaped(t[n..])
      }
    else if t[0] == '\\' then |t| == 1 || FullyEscaped(t[2..])
    else if t[0] == '[' then LinkEnd(t).Some? && FullyEscaped(t[LinkEnd(t).value + 1..])
    else if t[0] == '<' then AutolinkEnd(t).Some? && FullyEscaped(t[AutolinkEnd(t).value + 1..])
    else !IsBracket(t[0]) && !HasScheme(t) && FullyEscaped(t[1..])
  }
}
