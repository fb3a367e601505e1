/**
  The framing walk of connectrpc-reflection/src/reflector.rs: cutting a wire-format
  `FileDescriptorSet` into the byte ranges of its files.
 */
module Framing {
  import opened Options
  import opened Sequences
  import opened Wire

  /** Half-open byte range. */
  datatype Slice = Slice(lo: nat, hi: nat)

  // ----- Reading one field -------------------------------------------------------------------

  function Power(i: nat): (p: nat)
    ensures p > 0
  {
    if i == 0 then 1 else 128 * Power(i - 1)
  }

  /** Value of the first `i` digits of the varint at the head of `s`, as the loop adds them up. */
  function Sum(s: seq<byte>, i: nat): nat
    requires i <= |s|
  {
    if i == 0 then 0 else Sum(s, i - 1) + (if i == 10 then s[i - 1] % 2 else s[i - 1] % 128) * Power(i - 1)
  }

  lemma {:induction false} ReadFromDigit(s: seq<byte>, i: nat)
    requires i <= 9 && i <= |s| && forall j :: 0 <= j < i ==> s[j] >= 128
    ensures var r, q := ReadVarintAt(s, 0), ReadVarintAt(s[i..], i);
            && (r.Some? <==> q.Some?)
            && (r.Some? ==> r.value == (Sum(s, i) + Power(i) * q.value.0, i + q.value.1))
    decreases i
  {
    hide ReadVarintAt;
    if i > 0 {
      ReadFromDigit(s, i - 1);
      NextDigit(s, i - 1);
      var q := ReadVarintAt(s[i..], i);
      if q.Some? {
        Distribute(Power(i - 1), s[i - 1] % 128, q.value.0);
      }
    } else {
      assert s[0..] == s;
    }
  }

  lemma NextDigit(s: seq<byte>, i: nat)
    requires i < 9 && i < |s| && s[i] >= 128
    ensures var r, q := ReadVarintAt(s[i..], i), ReadVarintAt(s[i + 1..], i + 1);
            && (r.Some? <==> q.Some?)
            && (r.Some? ==> r.value == (s[i] % 128 + 128 * q.value.0, 1 + q.value.1))
  {
    assert s[i..][1..] == s[i + 1..];
  }

  lemma Distribute(p: nat, d: nat, v: nat)
    ensures p * (d + 128 * v) == d * p + 128 * p * v
  {
  }

  /** What the loop can return once it stands at digit `i`. */
  lemma DigitDecides(s: seq<byte>, i: nat)
    requires i <= 9 && i <= |s| && forall j :: 0 <= j < i ==> s[j] >= 128
    ensures i == |s| ==> ReadVarintAt(s, 0) == None
    ensures i < |s| && s[i] < 128 ==> ReadVarintAt(s, 0) == Some((Sum(s, i + 1), i + 1))
    ensures i == 9 < |s| && s[i] >= 128 ==> ReadVarintAt(s, 0) == None
  {
    hide ReadVarintAt, Power;
    ReadFromDigit(s, i);
    LastDigit(s[i..], i);
  }

  lemma LastDigit(t: seq<byte>, i: nat)
    requires i <= 9
    ensures t == [] ==> ReadVarintAt(t, i) == None
    ensures t != [] && t[0] < 128 ==> ReadVarintAt(t, i) == Some((if i == 9 then t[0] % 2 else t[0] % 128, 1))
    ensures t != [] && t[0] >= 128 && i == 9 ==> ReadVarintAt(t, i) == None
  {
    if t != [] {
      assert ReadVarintAt(t[1..], 10) == None;
    }
  }

  method ReadVarint(bytes: seq<byte>, pos: nat) returns (value: Option<nat>, pos': nat)
    requires pos <= |bytes|
    ensures var r := ReadVarintAt(bytes[pos..], 0);
            if r.Some? then value == Some(r.value.0) && pos' == pos + r.value.1 else value == None
  {
    hide ReadVarintAt;
    ghost var s := bytes[pos..];
    var sum: int, power: int, i: nat := 0, 1, 0;
    while i < 10
      invariant i <= 10 && pos + i <= |bytes|
      invariant forall j :: 0 <= j < i ==> s[j] >= 128
      invariant sum == Sum(s, i) && power == Power(i)
      invariant i == 10 ==> ReadVarintAt(s, 0) == None
    {
      DigitDecides(s, i);
      if pos + i >= |bytes| {
        return None, pos + i;
      }
      var b: int := bytes[pos + i];
      var digit := if i == 9 then b % 2 else b % 128;
      sum := sum + digit * power;
      if b < 128 {
        return Some(sum), pos + i + 1;
      }
      power, i := 128 * power, i + 1;
    }
    return None, pos + i;
  }

  /** What the walk does with the field at the head of `s`: its length, and its payload if wanted. */
  datatype Frame = Malformed | Frame(len: nat, payload: Option<Slice>)

  function FrameAt(s: seq<byte>): (f: Frame)
    ensures f.Frame? ==> 0 < f.len <= |s|
    ensures f.Frame? && f.payload.Some? ==> 0 < f.payload.value.lo <= f.payload.value.hi == f.len
  {
    match ReadVarintAt(s, 0)
    case None => Malformed
    case Some((tag, k)) =>
      var rest := s[k..];
      match tag % 8
      case 0 => (
        match ReadVarintAt(rest, 0)
        case None => Malformed
        case Some((_, j)) => Frame(k + j, None))
      case 1 => if k + 8 <= |s| then Frame(k + 8, None) else Malformed
      case 2 => (
        match ReadVarintAt(rest, 0)
        case None => Malformed
        case Some((n, j)) =>
          if k + j + n > |s| then Malformed
          else Frame(k + j + n, if tag / 8 == 1 then Some(Slice(k + j, k + j + n)) else None))
      case 5 => if k + 4 <= |s| then Frame(k + 4, None) else Malformed
      case _ => Malformed
  }

  /**
    A field by the wire format: a varint that holds number and type, then a varint, eight bytes, a
    varint and as many bytes as it says, or four bytes. The bytes of field 1 are its payload.
   */
  ghost predicate IsField(s: seq<byte>, k: nat, len: nat, payload: Option<Slice>) {
    && IsVarint(s, k)
    && var tag := Base128(s[..k]) % U64;
    && var body := s[k..];
    && (tag % 8 == 2 && tag / 8 == 1 <==> payload.Some?)
    && match tag % 8 {
         case 0 => k < len && IsVarint(body, len - k)
         case 1 => len == k + 8 <= |s|
         case 2 => exists j: nat ::
                     && IsVarint(body, j) && len == k + j + Base128(body[..j]) % U64 <= |s|
                     && (payload.Some? ==> payload.value == Slice(k + j, len))
         case 5 => len == k + 4 <= |s|
         case _ => false
       }
  }

  lemma FrameIsField(s: seq<byte>) returns (k: nat)
    requires FrameAt(s).Frame?
    ensures IsField(s, k, FrameAt(s).len, FrameAt(s).payload)
  {
    hide ReadVarintAt, IsVarint, Base128;
    var (tag, n) := ReadVarintAt(s, 0).value;
    ReadVarintIff(s, tag, n);
    k := n;
    var rest := s[k..];
    if tag % 8 == 0 || tag % 8 == 2 {
      var (v, j) := ReadVarintAt(rest, 0).value;
      ReadVarintIff(rest, v, j);
    }
  }

  lemma FieldIsFrame(s: seq<byte>, k: nat, len: nat, payload: Option<Slice>)
    requires IsField(s, k, len, payload)
    ensures FrameAt(s) == Frame(len, payload)
  {
    hide ReadVarintAt, Base128;
    var tag := Base128(s[..k]) % U64;
    ReadVarintIff(s, tag, k);
    var body := s[k..];
    if tag % 8 == 0 {
      ReadVarintIff(body, Base128(body[..len - k]) % U64, len - k);
    } else if tag % 8 == 2 {
      var j: nat :| IsVarint(body, j) && len == k + j + Base128(body[..j]) % U64 <= |s|
                    && (payload.Some? ==> payload.value == Slice(k + j, len));
      ReadVarintIff(body, Base128(body[..j]) % U64, j);
    }
  }

  /** The walk takes exactly the fields of the wire format, groups aside. */
  lemma FrameIff(s: seq<byte>, len: nat, payload: Option<Slice>)
    ensures FrameAt(s) == Frame(len, payload) <==> exists k: nat :: IsField(s, k, len, payload)
  {
    hide IsField;
    if FrameAt(s) == Frame(len, payload) {
      var k := FrameIsField(s);
    }
    if k: nat :| IsField(s, k, len, payload) {
      FieldIsFrame(s, k, len, payload);
    }
  }

  /** The slices found from `pos` on, or the offset of the first field that is not framed. */
  function SplitFrom(bytes: seq<byte>, pos: nat): Result<seq<Slice>, nat>
    requires pos <= |bytes|
    decreases |bytes| - pos
  {
    if pos == |bytes| then Ok([])
    else
      match FrameAt(bytes[pos..])
      case Malformed => Err(pos)
      case Frame(len, payload) =>
        match SplitFrom(bytes, pos + len)
        case Err(o) => Err(o)
        case Ok(rest) =>
          Ok((if payload.Some? then [Slice(pos + payload.value.lo, pos + payload.value.hi)] else []) + rest)
  }

  method ReadFrame(bytes: seq<byte>, start: nat) returns (f: Frame)
    requires start < |bytes|
    ensures f == FrameAt(bytes[start..])
  {
    hide ReadVarintAt;
    var tag, pos := ReadVarint(bytes, start);
    if tag.None? {
      return Malformed;
    }
    assert bytes[start..][pos - start..] == bytes[pos..];
    match tag.value % 8 {
      case 0 =>
        var value, next := ReadVarint(bytes, pos);
        return if value.None? then Malformed else Frame(next - start, None);
      case 1 => pos := pos + 8;
      case 2 =>
        var len, next := ReadVarint(bytes, pos);
        if len.None? || next + len.value > |bytes| {
          return Malformed;
        }
        var end := next + len.value;
        return Frame(end - start, if tag.value / 8 == 1 then Some(Slice(next - start, end - start)) else None);
      case 5 => pos := pos + 4;
      case _ => return Malformed;
    }
    return if pos > |bytes| then Malformed else Frame(pos - start, None);
  }

  /** The verdict on the whole, given the slices found so far and the verdict on the rest. */
  function Behind(files: seq<Slice>, r: Result<seq<Slice>, nat>): Result<seq<Slice>, nat> {
    match r
    case Ok(rest) => Ok(files + rest)
    case Err(o) => Err(o)
  }

  /** Cuts the set into the ranges of its files. */
  method SplitDescriptorSet(bytes: seq<byte>) returns (r: Result<seq<Slice>, nat>)
    ensures r == SplitFrom(bytes, 0)
  {
    hide FrameAt;
    var files: seq<Slice> := [];
    var pos := 0;
    assert SplitFrom(bytes, 0).Ok? ==> [] + SplitFrom(bytes, 0).value == SplitFrom(bytes, 0).value;
    while pos < |bytes|
      invariant pos <= |bytes|
      invariant Behind(files, SplitFrom(bytes, pos)) == SplitFrom(bytes, 0)
      decreases |bytes| - pos
    {
      var f := ReadFrame(bytes, pos);
      if f.Malformed? {
        return Err(pos);
      }
      var found := if f.payload.Some? then [Slice(pos + f.payload.value.lo, pos + f.payload.value.hi)] else [];
      if SplitFrom(bytes, pos + f.len).Ok? {
        Associate(files, found, SplitFrom(bytes, pos + f.len).value);
      }
      files, pos := files + found, pos + f.len;
    }
    assert files + [] == files;
    return Ok(files);
  }

  // ----- Any input ---------------------------------------------------------------------------

  /** In bounds, in order and never overlapping, with at least a tag between two slices. */
  predicate Ordered(rs: seq<Slice>, lo: nat, hi: nat) {
    && (forall i :: 0 <= i < |rs| ==> lo < rs[i].lo <= rs[i].hi <= hi)
    && (forall i, j :: 0 <= i < j < |rs| ==> rs[i].hi < rs[j].lo)
  }

  lemma {:induction false} SlicesAreOrdered(bytes: seq<byte>, pos: nat)
    requires pos <= |bytes| && SplitFrom(bytes, pos).Ok?
    ensures Ordered(SplitFrom(bytes, pos).value, pos, |bytes|)
    decreases |bytes| - pos
  {
    hide FrameAt;
    if pos < |bytes| {
      var f := FrameAt(bytes[pos..]);
      SlicesAreOrdered(bytes, pos + f.len);
    }
  }

  lemma {:induction false} ReadVarintLocal(s: seq<byte>, t: seq<byte>, i: nat)
    requires ReadVarintAt(s, i).Some?
    requires ReadVarintAt(s, i).value.1 <= |t| && t <= s
    ensures ReadVarintAt(t, i) == ReadVarintAt(s, i)
    decreases |s|
  {
    if s[0] >= 128 {
      ReadVarintLocal(s[1..], t[1..], i + 1);
    }
  }

  lemma FrameLocal(s: seq<byte>, t: seq<byte>)
    requires t <= s && FrameAt(s).Frame? && FrameAt(s).len <= |t|
    ensures FrameAt(t) == FrameAt(s)
  {
    hide ReadVarintAt;
    ReadVarintLocal(s, t, 0);
    var (tag, k) := ReadVarintAt(s, 0).value;
    assert t[k..] <= s[k..];
    if tag % 8 == 0 || tag % 8 == 2 {
      ReadVarintLocal(s[k..], t[k..], 0);
    }
  }

  /** The offset of an error is where framing first fails: everything before it splits cleanly. */
  lemma {:induction false} ErrorIsFirst(bytes: seq<byte>, pos: nat)
    requires pos <= |bytes| && SplitFrom(bytes, pos).Err?
    ensures var o := SplitFrom(bytes, pos).error;
            && pos <= o < |bytes|
            && FrameAt(bytes[o..]).Malformed?
            && SplitFrom(bytes[..o], pos).Ok?
    decreases |bytes| - pos
  {
    hide FrameAt;
    var o := SplitFrom(bytes, pos).error;
    var f := FrameAt(bytes[pos..]);
    if f.Frame? {
      ErrorIsFirst(bytes, pos + f.len);
      assert bytes[..o][pos..] <= bytes[pos..];
      FrameLocal(bytes[pos..], bytes[..o][pos..]);
    }
  }

  // ----- Encoded fields ----------------------------------------------------------------------

  datatype WireField =
    | Varint(number: nat, value: nat)
    | Fixed64(number: nat, data: seq<byte>)
    | Delimited(number: nat, data: seq<byte>)
    | Fixed32(number: nat, data: seq<byte>)
  {
    predicate Legal() {
      && number * 8 + 7 < U64
      && match this
         case Varint(_, v) => v < U64
         case Fixed64(_, d) => |d| == 8
         case Delimited(_, d) => |d| < U64
         case Fixed32(_, d) => |d| == 4
    }

    function Bytes(): seq<byte> {
      match this
      case Varint(_, v) => EncodeTag(Tag(number, 0)) + EncodeVarint(v)
      case Fixed64(_, d) => EncodeTag(Tag(number, 1)) + d
      case Delimited(_, d) => BytesField(number, d)
      case Fixed32(_, d) => EncodeTag(Tag(number, 5)) + d
    }

    /** The file this field carries, if it is one of the set's `file` entries. */
    function Files(): seq<seq<byte>> {
      if Delimited? && number == 1 then [data] else []
    }
  }

  function SetBytes(fs: seq<WireField>): seq<byte> {
    if fs == [] then [] else fs[0].Bytes() + SetBytes(fs[1..])
  }

  function SetFiles(fs: seq<WireField>): seq<seq<byte>> {
    if fs == [] then [] else fs[0].Files() + SetFiles(fs[1..])
  }

  function Cut(bytes: seq<byte>, rs: seq<Slice>): seq<seq<byte>>
    requires InBounds(bytes, rs)
  {
    seq(|rs|, i requires 0 <= i < |rs| => bytes[rs[i].lo..rs[i].hi])
  }

  lemma ReadTag(number: nat, wireType: nat, rest: seq<byte>)
    requires wireType < 8 && number * 8 + 7 < U64
    ensures var tag := EncodeTag(Tag(number, wireType));
            ReadVarintAt(tag + rest, 0) == Some((number * 8 + wireType, |tag|)) && (tag + rest)[|tag|..] == rest
    ensures (number * 8 + wireType) / 8 == number && (number * 8 + wireType) % 8 == wireType
  {
    ReadEncoded(number * 8 + wireType, rest);
  }

  lemma FrameOfFixed(number: nat, wireType: nat, d: seq<byte>, rest: seq<byte>)
    requires number * 8 + 7 < U64 && ((wireType == 1 && |d| == 8) || (wireType == 5 && |d| == 4))
    ensures var f := EncodeTag(Tag(number, wireType)) + d; FrameAt(f + rest) == Frame(|f|, None)
  {
    hide ReadVarintAt, EncodeTag;
    var tag := EncodeTag(Tag(number, wireType));
    assert tag + d + rest == tag + (d + rest);
    ReadTag(number, wireType, d + rest);
  }

  lemma FrameOfVarint(number: nat, v: nat, rest: seq<byte>)
    requires number * 8 + 7 < U64 && v < U64
    ensures var f := EncodeTag(Tag(number, 0)) + EncodeVarint(v); FrameAt(f + rest) == Frame(|f|, None)
  {
    hide ReadVarintAt, EncodeTag, EncodeVarint;
    var tag, e := EncodeTag(Tag(number, 0)), EncodeVarint(v);
    assert tag + e + rest == tag + (e + rest);
    ReadTag(number, 0, e + rest);
    ReadEncoded(v, rest);
  }

  lemma FrameOfDelimited(number: nat, d: seq<byte>, rest: seq<byte>)
    requires number * 8 + 7 < U64 && |d| < U64
    ensures var f := BytesField(number, d);
            FrameAt(f + rest) == Frame(|f|, if number == 1 then Some(Slice(|f| - |d|, |f|)) else None)
  {
    hide ReadVarintAt, EncodeTag, EncodeVarint;
    var tag, e := EncodeTag(Tag(number, 2)), EncodeVarint(|d|);
    assert BytesField(number, d) + rest == tag + (e + (d + rest));
    ReadTag(number, 2, e + (d + rest));
    ReadEncoded(|d|, d + rest);
  }

  lemma FrameOfField(f: WireField, rest: seq<byte>)
    requires f.Legal()
    ensures FrameAt(f.Bytes() + rest) == Frame(|f.Bytes()|,
              if f.Delimited? && f.number == 1 then Some(Slice(|f.Bytes()| - |f.data|, |f.Bytes()|)) else None)
    ensures f.Delimited? ==> |f.data| <= |f.Bytes()| && f.Bytes()[|f.Bytes()| - |f.data|..] == f.data
  {
    match f {
      case Varint(n, v) => FrameOfVarint(n, v, rest);
      case Fixed64(n, d) => FrameOfFixed(n, 1, d, rest);
      case Delimited(n, d) => FrameOfDelimited(n, d, rest);
      case Fixed32(n, d) => FrameOfFixed(n, 5, d, rest);
    }
  }

  predicate InBounds(bytes: seq<byte>, rs: seq<Slice>) {
    forall i :: 0 <= i < |rs| ==> rs[i].lo <= rs[i].hi <= |bytes|
  }

  lemma CutCons(bytes: seq<byte>, r: Slice, rs: seq<Slice>)
    requires r.lo <= r.hi <= |bytes| && InBounds(bytes, rs)
    ensures InBounds(bytes, [r] + rs) && Cut(bytes, [r] + rs) == [bytes[r.lo..r.hi]] + Cut(bytes, rs)
  {
  }

  lemma SplitStep(p: seq<byte>, b: seq<byte>, rest: seq<byte>, len: nat, payload: Option<Slice>)
    requires b != [] && FrameAt(b + rest) == Frame(len, payload) && len == |b|
    requires SplitFrom(p + b + rest, |p| + |b|).Ok?
    ensures SplitFrom(p + b + rest, |p|) ==
            Ok((if payload.Some? then [Slice(|p| + payload.value.lo, |p| + payload.value.hi)] else [])
               + SplitFrom(p + b + rest, |p| + |b|).value)
  {
    hide FrameAt;
    assert (p + b + rest)[|p|..] == b + rest;
  }

  /** The files cut out from `pos` on. */
  function FilesFrom(bytes: seq<byte>, pos: nat): Option<seq<seq<byte>>>
    requires pos <= |bytes|
  {
    var r := SplitFrom(bytes, pos);
    if r.Ok? && InBounds(bytes, r.value) then Some(Cut(bytes, r.value)) else None
  }

  lemma FilesStep(p: seq<byte>, b: seq<byte>, rest: seq<byte>)
    requires b != [] && FrameAt(b + rest) == Frame(|b|, None)
    requires FilesFrom(p + b + rest, |p| + |b|).Some?
    ensures FilesFrom(p + b + rest, |p|) == FilesFrom(p + b + rest, |p| + |b|)
  {
    hide FrameAt, SplitFrom, Cut, InBounds;
    SplitStep(p, b, rest, |b|, None);
    var tail := SplitFrom(p + b + rest, |p| + |b|).value;
    assert [] + tail == tail;
  }

  lemma FilesStepFile(p: seq<byte>, b: seq<byte>, rest: seq<byte>, d: seq<byte>)
    requires b != [] && |d| <= |b| && b[|b| - |d|..] == d
    requires FrameAt(b + rest) == Frame(|b|, Some(Slice(|b| - |d|, |b|)))
    requires FilesFrom(p + b + rest, |p| + |b|).Some?
    ensures FilesFrom(p + b + rest, |p|) == Some([d] + FilesFrom(p + b + rest, |p| + |b|).value)
  {
    hide FrameAt, SplitFrom, Cut, InBounds;
    var bytes, at := p + b + rest, Slice(|b| - |d|, |b|);
    SplitStep(p, b, rest, |b|, Some(at));
    assert bytes[|p| + at.lo..|p| + at.hi] == b[at.lo..];
    CutCons(bytes, Slice(|p| + at.lo, |p| + at.hi), SplitFrom(bytes, |p| + |b|).value);
  }

  /** Splitting an encoded set gives exactly the payloads of its `file` entries, in order. */
  lemma {:induction false} SplitOfEncoded(p: seq<byte>, fs: seq<WireField>)
    requires forall f :: f in fs ==> f.Legal()
    ensures FilesFrom(p + SetBytes(fs), |p|) == Some(SetFiles(fs))
    decreases |fs|
  {
    hide FrameAt, FilesFrom, SetBytes, SetFiles;
    var bytes := p + SetBytes(fs);
    if fs == [] {
      NothingToSplit(bytes);
      EmptySet();
      assert bytes == p;
    } else {
      var f, rest := fs[0], SetBytes(fs[1..]);
      var b := f.Bytes();
      SetCons(fs);
      Associate(p, b, rest);
      SplitOfEncoded(p + b, fs[1..]);
      FrameOfField(f, rest);
      if f.Delimited? && f.number == 1 {
        FilesStepFile(p, b, rest, f.data);
      } else {
        FilesStep(p, b, rest);
        assert [] + SetFiles(fs[1..]) == SetFiles(fs[1..]);
      }
    }
  }

  lemma EmptySet()
    ensures SetBytes([]) == [] && SetFiles([]) == []
  {
  }

  lemma SetCons(fs: seq<WireField>)
    requires fs != []
    ensures SetBytes(fs) == fs[0].Bytes() + SetBytes(fs[1..])
    ensures SetFiles(fs) == (if fs[0].Delimited? && fs[0].number == 1 then [fs[0].data] else []) + SetFiles(fs[1..])
  {
  }

  lemma NothingToSplit(bytes: seq<byte>)
    ensures FilesFrom(bytes, |bytes|) == Some([])
  {
    assert SplitFrom(bytes, |bytes|) == Ok([]);
    assert Cut(bytes, []) == [];
  }
}
