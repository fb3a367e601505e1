/**
  The gzip header parser of connectrpc/src/compression.rs, against the member header of section 2.3
  of RFC 1952.
 */
module GzipHeader {
  import opened Options
  import opened Wire

  predicate Bit(flags: byte, mask: nat)
    requires mask > 0
  {
    flags / mask % 2 == 1
  }

  const FHCRC: nat := 2
  const FEXTRA: nat := 4
  const FNAME: nat := 8
  const FCOMMENT: nat := 16

  function Le16(lo: byte, hi: byte): nat {
    lo as int + 256 * hi as int
  }

  // ----- The grammar -------------------------------------------------------------------------

  /** An optional extra field: its length in two bytes, low byte first, then that many bytes. */
  predicate ExtraField(present: bool, s: seq<byte>) {
    if present then |s| >= 2 && |s| == 2 + s[0] as int + 256 * s[1] as int else s == []
  }

  /** An optional zero-terminated string. */
  predicate TextField(present: bool, s: seq<byte>) {
    if present then s != [] && s[|s| - 1] == 0 && 0 !in s[..|s| - 1] else s == []
  }

  predicate ChecksumField(present: bool, s: seq<byte>) {
    |s| == if present then 2 else 0
  }

  /**
    Magic, deflate method, and the optional fields that the flags select, in their order: bit 2 the
    extra field, bit 3 the name, bit 4 the comment, bit 1 the checksum.
   */
  predicate IsHeader(h: seq<byte>) {
    && |h| >= 10 && h[0] == 0x1F && h[1] == 0x8B && h[2] == 8
    && exists a, b, c ::
         && 10 <= a <= b <= c <= |h|
         && ExtraField(h[3] as int / 4 % 2 == 1, h[10..a])
         && TextField(h[3] as int / 8 % 2 == 1, h[a..b])
         && TextField(h[3] as int / 16 % 2 == 1, h[b..c])
         && ChecksumField(h[3] as int / 2 % 2 == 1, h[c..])
  }

  /** The same with the parser's names for the flags. */
  ghost predicate IsFlagged(h: seq<byte>, a: nat, b: nat, c: nat) {
    && 10 <= a <= b <= c <= |h|
    && ExtraField(Bit(h[3], FEXTRA), h[10..a])
    && TextField(Bit(h[3], FNAME), h[a..b])
    && TextField(Bit(h[3], FCOMMENT), h[b..c])
    && ChecksumField(Bit(h[3], FHCRC), h[c..])
  }

  lemma FlaggedIff(h: seq<byte>)
    requires |h| >= 10
    ensures IsHeader(h) <==>
            h[0] == 0x1F && h[1] == 0x8B && h[2] == 8 && exists a: nat, b: nat, c: nat :: IsFlagged(h, a, b, c)
  {
    FlagBits(h[3]);
    hide Bit, ExtraField, TextField, ChecksumField;
    if a: nat, b: nat, c: nat :| IsFlagged(h, a, b, c) {
      assert ExtraField(h[3] as int / 4 % 2 == 1, h[10..a]);
    }
    if IsHeader(h) {
      var a, b, c :| 10 <= a <= b <= c <= |h|
        && ExtraField(h[3] as int / 4 % 2 == 1, h[10..a]) && TextField(h[3] as int / 8 % 2 == 1, h[a..b])
        && TextField(h[3] as int / 16 % 2 == 1, h[b..c]) && ChecksumField(h[3] as int / 2 % 2 == 1, h[c..]);
      assert IsFlagged(h, a, b, c);
    }
  }

  lemma FlagBits(flags: byte)
    ensures Bit(flags, FEXTRA) == (flags as int / 4 % 2 == 1) && Bit(flags, FNAME) == (flags as int / 8 % 2 == 1)
    ensures Bit(flags, FCOMMENT) == (flags as int / 16 % 2 == 1) && Bit(flags, FHCRC) == (flags as int / 2 % 2 == 1)
  {
  }

  // ----- The parser --------------------------------------------------------------------------

  function SkipExtra(data: seq<byte>, present: bool, pos: nat): Option<nat> {
    if !present then Some(pos)
    else if pos + 2 > |data| then None
    else Some(pos + 2 + Le16(data[pos], data[pos + 1]))
  }

  function SkipText(data: seq<byte>, present: bool, pos: nat): Option<nat>
    decreases |data| - pos
  {
    if !present then Some(pos)
    else if pos >= |data| then None
    else if data[pos] == 0 then Some(pos + 1)
    else SkipText(data, present, pos + 1)
  }

  function HeaderLen(data: seq<byte>): Option<nat> {
    if |data| < 10 || data[0] != 0x1F || data[1] != 0x8B || data[2] != 8 then None else
      var a := SkipExtra(data, Bit(data[3], FEXTRA), 10);
      if a.None? then None else
      var b := SkipText(data, Bit(data[3], FNAME), a.value);
      if b.None? then None else
      var c := SkipText(data, Bit(data[3], FCOMMENT), b.value);
      if c.None? then None else
      var end := c.value + if Bit(data[3], FHCRC) then 2 else 0;
      if end > |data| then None else Some(end)
  }

  method FindTerminator(data: seq<byte>, from: nat) returns (pos: nat)
    ensures pos >= from
    ensures SkipText(data, true, from) == if pos < |data| then Some(pos + 1) else None
  {
    pos := from;
    while pos < |data| && data[pos] != 0
      invariant pos >= from && SkipText(data, true, pos) == SkipText(data, true, from)
    {
      pos := pos + 1;
    }
  }

  method GzipHeaderLen(data: seq<byte>) returns (r: Option<nat>)
    ensures r == HeaderLen(data)
  {
    hide Bit, SkipText;
    if |data| < 10 || data[0] != 0x1F || data[1] != 0x8B || data[2] != 8 {
      return None;
    }
    var flags: byte := data[3];
    var pos: nat := 10;
    if Bit(flags, FEXTRA) {
      if pos + 2 > |data| {
        return None;
      }
      var xlen := Le16(data[pos], data[pos + 1]);
      pos := pos + 2 + xlen;
    }
    NoText(data, pos);
    if Bit(flags, FNAME) {
      pos := FindTerminator(data, pos);
      if pos >= |data| {
        return None;
      }
      pos := pos + 1;
    }
    NoText(data, pos);
    if Bit(flags, FCOMMENT) {
      pos := FindTerminator(data, pos);
      if pos >= |data| {
        return None;
      }
      pos := pos + 1;
    }
    if Bit(flags, FHCRC) {
      pos := pos + 2;
    }
    return if pos > |data| then None else Some(pos);
  }

  lemma NoText(data: seq<byte>, pos: nat)
    ensures SkipText(data, false, pos) == Some(pos)
  {
  }

  // ----- Agreement ---------------------------------------------------------------------------

  lemma ExtraIff(data: seq<byte>, present: bool, pos: nat, end: nat)
    requires pos <= |data|
    ensures SkipExtra(data, present, pos) == Some(end) && end <= |data|
            <==> pos <= end <= |data| && ExtraField(present, data[pos..end])
  {
  }

  lemma {:induction false} TextIff(data: seq<byte>, present: bool, pos: nat, end: nat)
    requires pos <= |data|
    ensures SkipText(data, present, pos) == Some(end) && end <= |data|
            <==> pos <= end <= |data| && TextField(present, data[pos..end])
    decreases |data| - pos
  {
    if present && pos < |data| {
      if data[pos] == 0 {
        if pos < end <= |data| && TextField(true, data[pos..end]) {
          TextStops(data[pos..end]);
        }
      } else {
        TextIff(data, present, pos + 1, end);
        if pos + 1 < end <= |data| {
          TextCons(data[pos..end]);
          assert data[pos..end][1..] == data[pos + 1..end];
        }
      }
    }
  }

  lemma TextStops(s: seq<byte>)
    requires TextField(true, s) && s[0] == 0
    ensures |s| == 1
  {
  }

  lemma TextCons(s: seq<byte>)
    requires |s| > 1 && s[0] != 0
    ensures TextField(true, s) <==> TextField(true, s[1..])
  {
    var p, q := s[..|s| - 1], s[1..][..|s| - 2];
    assert p == [s[0]] + q;
  }

  lemma {:induction false} SkipTextInBounds(data: seq<byte>, present: bool, pos: nat)
    requires SkipText(data, present, pos).Some?
    ensures var end := SkipText(data, present, pos).value;
            end >= pos && (end <= |data| ==> pos <= |data|) && (present ==> end <= |data|)
    decreases |data| - pos
  {
    if present && data[pos] != 0 {
      SkipTextInBounds(data, present, pos + 1);
    }
  }

  /** The parser accepts exactly the headers, and reports where they end. */
  lemma HeaderLenIff(data: seq<byte>, end: nat)
    ensures HeaderLen(data) == Some(end) <==> end <= |data| && IsHeader(data[..end])
  {
    if HeaderLen(data) == Some(end) {
      ParsedIsHeader(data, end);
    }
    if end <= |data| && IsHeader(data[..end]) {
      HeaderIsParsed(data, end);
    }
  }

  lemma ParsedIsHeader(data: seq<byte>, end: nat)
    requires HeaderLen(data) == Some(end)
    ensures end <= |data| && IsHeader(data[..end])
  {
    hide SkipExtra, SkipText, ExtraField, TextField, Bit, IsHeader;
    var flags := data[3];
    var a := SkipExtra(data, Bit(flags, FEXTRA), 10).value;
    var b := SkipText(data, Bit(flags, FNAME), a).value;
    var c := SkipText(data, Bit(flags, FCOMMENT), b).value;
    SkipTextInBounds(data, Bit(flags, FNAME), a);
    SkipTextInBounds(data, Bit(flags, FCOMMENT), b);
    ExtraIff(data, Bit(flags, FEXTRA), 10, a);
    TextIff(data, Bit(flags, FNAME), a, b);
    TextIff(data, Bit(flags, FCOMMENT), b, c);
    var h := data[..end];
    SliceOfPrefix(data, end, 10, a);
    SliceOfPrefix(data, end, a, b);
    SliceOfPrefix(data, end, b, c);
    assert IsFlagged(h, a, b, c);
    FlaggedIff(h);
  }

  lemma SliceOfPrefix(data: seq<byte>, end: nat, i: nat, j: nat)
    requires i <= j <= end <= |data|
    ensures data[..end][i..j] == data[i..j]
  {
  }

  lemma HeaderIsParsed(data: seq<byte>, end: nat)
    requires end <= |data| && IsHeader(data[..end])
    ensures HeaderLen(data) == Some(end)
  {
    var h := data[..end];
    FlaggedIff(h);
    hide IsHeader, IsFlagged;
    var a: nat, b: nat, c: nat :| IsFlagged(h, a, b, c);
    FlaggedIsParsed(data, end, a, b, c);
  }

  lemma FlaggedIsParsed(data: seq<byte>, end: nat, a: nat, b: nat, c: nat)
    requires 10 <= end <= |data| && IsFlagged(data[..end], a, b, c)
    requires data[0] == 0x1F && data[1] == 0x8B && data[2] == 8
    ensures HeaderLen(data) == Some(end)
  {
    hide SkipExtra, SkipText, ExtraField, TextField, Bit;
    var flags := data[3];
    SliceOfPrefix(data, end, 10, a);
    SliceOfPrefix(data, end, a, b);
    SliceOfPrefix(data, end, b, c);
    ExtraIff(data, Bit(flags, FEXTRA), 10, a);
    TextIff(data, Bit(flags, FNAME), a, b);
    TextIff(data, Bit(flags, FCOMMENT), b, c);
  }
}
