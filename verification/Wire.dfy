/**
  Protobuf wire primitives: base-128 varints, tags and length-delimited fields. Two decoders of
  varints are modelled: the one of the buffa crate, and the hand-written one of
  connectrpc-reflection/src/reflector.rs.
 */
module Wire {
  import opened Options

  type byte = b: int | 0 <= b < 256

  const U64: nat := 0x1_0000_0000_0000_0000

  function EncodeVarint(n: nat): (s: seq<byte>)
    ensures |s| > 0
  {
    if n < 128 then [n] else [n % 128 + 128] + EncodeVarint(n / 128)
  }

  /** How large a varint may still be when `i` of its ten bytes are behind the cursor. */
  function Room(i: nat): (r: nat)
    requires i <= 9
    ensures r >= 2
    decreases 9 - i
  {
    if i == 9 then 2 else 128 * Room(i + 1)
  }

  lemma RoomIsU64()
    ensures Room(0) == U64
  {
    assert Room(8) == 256 && Room(7) == 0x8000 && Room(6) == 0x40_0000 && Room(5) == 0x2000_0000;
    assert Room(4) == 0x10_0000_0000 && Room(3) == 0x800_0000_0000 && Room(2) == 0x4_0000_0000_0000;
    assert Room(1) == 0x200_0000_0000_0000;
  }

  // ----- The buffa decoder -------------------------------------------------------------------

  /** Value and length of the varint at the head of `s`; an overflowing tenth byte is an error. */
  function DecodeVarintAt(s: seq<byte>, i: nat): (r: Option<(nat, nat)>)
    ensures r.Some? ==> 0 < r.value.1 <= |s|
    decreases |s|
  {
    if s == [] || i > 9 || (i == 9 && s[0] > 1) then None
    else if s[0] < 128 then Some((s[0], 1))
    else
      match DecodeVarintAt(s[1..], i + 1)
      case None => None
      case Some((v, k)) => Some((s[0] - 128 + 128 * v, k + 1))
  }

  function DecodeVarint(s: seq<byte>): (r: Option<(nat, nat)>)
    ensures r.Some? ==> 0 < r.value.1 <= |s|
  {
    DecodeVarintAt(s, 0)
  }

  /** The number that bytes stand for, seven bits each, the lowest first. */
  function Base128(s: seq<byte>): nat {
    if s == [] then 0 else s[0] % 128 + 128 * Base128(s[1..])
  }

  /** A varint of `k` bytes at the head of `s`: the high bit is set on all of them but the last. */
  predicate IsVarint(s: seq<byte>, k: nat) {
    && 0 < k <= |s| && k <= 10 && s[k - 1] < 128
    && forall i :: 0 <= i < k - 1 ==> s[i] >= 128
  }

  lemma Base128Cons(s: seq<byte>, k: nat)
    requires 0 < k <= |s|
    ensures Base128(s[..k]) == s[0] % 128 + 128 * Base128(s[1..][..k - 1])
  {
    assert s[..k][1..] == s[1..][..k - 1];
  }

  lemma IsVarintCons(s: seq<byte>, k: nat)
    requires 1 < k <= |s| && k <= 10
    ensures IsVarint(s, k) <==> s[0] >= 128 && IsVarint(s[1..], k - 1)
  {
    var t := s[1..];
    assert forall j :: 0 <= j < |t| ==> t[j] == s[j + 1];
    if s[0] >= 128 && IsVarint(t, k - 1) {
      forall i | 0 <= i < k - 1
        ensures s[i] >= 128
      {
        assert i > 0 ==> s[i] == t[i - 1];
      }
    }
  }

  lemma {:induction false} DecodedIsVarint(s: seq<byte>, i: nat)
    requires DecodeVarintAt(s, i).Some?
    ensures var (v, k) := DecodeVarintAt(s, i).value;
            IsVarint(s, k) && i + k <= 10 && (i + k == 10 ==> s[k - 1] <= 1) && v == Base128(s[..k])
    decreases |s|
  {
    hide IsVarint, Base128;
    var (v, k) := DecodeVarintAt(s, i).value;
    Base128Cons(s, k);
    if s[0] >= 128 {
      DecodedIsVarint(s[1..], i + 1);
      IsVarintCons(s, k);
    } else {
      OneByteVarint(s);
    }
  }

  lemma OneByteVarint(s: seq<byte>)
    requires s != [] && s[0] < 128
    ensures IsVarint(s, 1) && Base128(s[1..][..0]) == 0
  {
  }

  lemma {:induction false} VarintIsDecoded(s: seq<byte>, i: nat, k: nat)
    requires IsVarint(s, k) && i + k <= 10 && (i + k == 10 ==> s[k - 1] <= 1)
    ensures DecodeVarintAt(s, i) == Some((Base128(s[..k]), k))
    decreases |s|
  {
    hide Base128;
    Base128Cons(s, k);
    if k > 1 {
      IsVarintCons(s, k);
      VarintIsDecoded(s[1..], i + 1, k - 1);
    } else {
      OneByteVarint(s);
    }
  }

  /** Exactly the varints of at most ten bytes and 64 bits are decoded, to the number they stand for. */
  lemma DecodeVarintIff(s: seq<byte>, v: nat, k: nat)
    ensures DecodeVarint(s) == Some((v, k)) <==>
            IsVarint(s, k) && (k == 10 ==> s[9] <= 1) && v == Base128(s[..k])
  {
    if DecodeVarint(s).Some? {
      DecodedIsVarint(s, 0);
    }
    if IsVarint(s, k) && (k == 10 ==> s[9] <= 1) {
      VarintIsDecoded(s, 0, k);
    }
  }

  /** The encoding is the shortest one: its last byte is only zero for the number zero. */
  lemma {:induction false} EncodeIsShortest(n: nat)
    ensures var s := EncodeVarint(n); s[|s| - 1] == 0 ==> n == 0 && |s| == 1
    decreases n
  {
    if n >= 128 {
      EncodeIsShortest(n / 128);
    }
  }

  lemma {:induction false} DecodeEncodedAt(n: nat, i: nat, rest: seq<byte>)
    requires i <= 9 && n < Room(i)
    ensures DecodeVarintAt(EncodeVarint(n) + rest, i) == Some((n, |EncodeVarint(n)|))
    decreases n
  {
    var s := EncodeVarint(n) + rest;
    if n >= 128 {
      assert s[1..] == EncodeVarint(n / 128) + rest;
      DecodeEncodedAt(n / 128, i + 1, rest);
    }
  }

  lemma DecodeEncoded(n: nat, rest: seq<byte>)
    requires n < U64
    ensures DecodeVarint(EncodeVarint(n) + rest) == Some((n, |EncodeVarint(n)|))
  {
    RoomIsU64();
    DecodeEncodedAt(n, 0, rest);
  }

  /** More input does not change a varint that is already complete. */
  lemma {:induction false} DecodeVarintMonotone(p: seq<byte>, s: seq<byte>, i: nat)
    requires p <= s && DecodeVarintAt(p, i).Some?
    ensures DecodeVarintAt(s, i) == DecodeVarintAt(p, i)
    decreases |p|
  {
    if p[0] >= 128 {
      DecodeVarintMonotone(p[1..], s[1..], i + 1);
    }
  }

  // ----- The hand-written decoder ------------------------------------------------------------

  /** As above, but the high bits of a tenth byte are dropped. */
  function ReadVarintAt(s: seq<byte>, i: nat): (r: Option<(nat, nat)>)
    ensures r.Some? ==> 0 < r.value.1 <= |s|
    decreases |s|
  {
    if s == [] || i > 9 then None
    else
      var digit := if i == 9 then s[0] % 2 else s[0] % 128;
      if s[0] < 128 then Some((digit, 1))
      else
        match ReadVarintAt(s[1..], i + 1)
        case None => None
        case Some((v, k)) => Some((digit + 128 * v, k + 1))
  }

  lemma {:induction false} ReadEncodedAt(n: nat, i: nat, rest: seq<byte>)
    requires i <= 9 && n < Room(i)
    ensures ReadVarintAt(EncodeVarint(n) + rest, i) == Some((n, |EncodeVarint(n)|))
    decreases n
  {
    var s := EncodeVarint(n) + rest;
    if n >= 128 {
      assert s[1..] == EncodeVarint(n / 128) + rest;
      ReadEncodedAt(n / 128, i + 1, rest);
    }
  }

  lemma ReadEncoded(n: nat, rest: seq<byte>)
    requires n < U64
    ensures ReadVarintAt(EncodeVarint(n) + rest, 0) == Some((n, |EncodeVarint(n)|))
  {
    RoomIsU64();
    ReadEncodedAt(n, 0, rest);
  }

  /** What is read always fits the machine word. */
  lemma {:induction false} ReadFits(s: seq<byte>, i: nat)
    requires i <= 9 && ReadVarintAt(s, i).Some?
    ensures ReadVarintAt(s, i).value.0 < Room(i)
    decreases |s|
  {
    if s[0] >= 128 {
      ReadFits(s[1..], i + 1);
    }
  }

  lemma ModTimes128(d: nat, x: nat, m: nat)
    requires d < 128 && m > 0
    ensures (d + 128 * x) % (128 * m) == d + 128 * (x % m)
  {
    var q, r := x / m, x % m;
    assert x == m * q + r;
    assert d + 128 * x == (128 * m) * q + (d + 128 * r);
    ModUnique(d + 128 * x, 128 * m, q, d + 128 * r);
  }

  lemma ModUnique(n: nat, m: nat, q: nat, r: nat)
    requires m > 0 && n == m * q + r && r < m
    ensures n % m == r
  {
    var k := n / m - q;
    assert n == m * (n / m) + n % m;
    assert m * k == r - n % m;
    assert k > 0 ==> m * k >= m;
    assert k < 0 ==> m * k + m <= 0;
  }

  /** The hand-written decoder takes the same bytes to the same number, cut to 64 bits. */
  lemma {:induction false} ReadIsVarint(s: seq<byte>, i: nat)
    requires i <= 9 && ReadVarintAt(s, i).Some?
    ensures var (v, k) := ReadVarintAt(s, i).value;
            IsVarint(s, k) && i + k <= 10 && v == Base128(s[..k]) % Room(i)
    decreases |s|
  {
    hide IsVarint, Base128;
    var (v, k) := ReadVarintAt(s, i).value;
    Base128Cons(s, k);
    if s[0] >= 128 {
      RoomShrinks(i);
      hide Room;
      ReadIsVarint(s[1..], i + 1);
      IsVarintCons(s, k);
      ModTimes128(s[0] % 128, Base128(s[1..][..k - 1]), Room(i + 1));
    } else {
      OneByteVarint(s);
      OneDigit(s[0], i);
    }
  }

  lemma RoomShrinks(i: nat)
    requires i < 9
    ensures Room(i) == 128 * Room(i + 1)
  {
  }

  lemma OneDigit(d: byte, i: nat)
    requires i <= 9 && d < 128
    ensures (d % 128 + 128 * 0) % Room(i) == if i == 9 then d % 2 else d
  {
    if i < 9 {
      assert Room(i) >= 256;
      hide Room;
      ModUnique(d, Room(i), 0, d);
    }
  }

  lemma {:induction false} VarintIsRead(s: seq<byte>, i: nat, k: nat)
    requires IsVarint(s, k) && i + k <= 10
    ensures ReadVarintAt(s, i).Some? && ReadVarintAt(s, i).value.1 == k
    decreases |s|
  {
    if k > 1 {
      IsVarintCons(s, k);
      VarintIsRead(s[1..], i + 1, k - 1);
    }
  }

  lemma ReadVarintIff(s: seq<byte>, v: nat, k: nat)
    ensures ReadVarintAt(s, 0) == Some((v, k)) <==> IsVarint(s, k) && v == Base128(s[..k]) % U64
  {
    hide Base128;
    RoomIsU64();
    if ReadVarintAt(s, 0).Some? {
      ReadIsVarint(s, 0);
    }
    if IsVarint(s, k) {
      VarintIsRead(s, 0, k);
    }
  }

  // ----- Tags and fields ---------------------------------------------------------------------

  datatype Tag = Tag(field: nat, wireType: nat)

  function EncodeTag(t: Tag): seq<byte> {
    EncodeVarint(t.field * 8 + t.wireType)
  }

  /** Field number, wire type and length of the tag at the head of `s`. */
  function DecodeTag(s: seq<byte>): (r: Option<(Tag, nat)>)
    ensures r.Some? ==> 0 < r.value.1 <= |s|
  {
    match DecodeVarint(s)
    case None => None
    case Some((v, k)) =>
      if v >= 0x1_0000_0000 || v / 8 == 0 || v % 8 > 5 then None else Some((Tag(v / 8, v % 8), k))
  }

  /** Exactly the tags of 32 bits with a field number and one of the six wire types are decoded. */
  lemma DecodeTagIff(s: seq<byte>, t: Tag, k: nat)
    ensures DecodeTag(s) == Some((t, k)) <==>
            && IsVarint(s, k) && (k == 10 ==> s[9] <= 1)
            && Base128(s[..k]) == 8 * t.field + t.wireType && Base128(s[..k]) < 0x1_0000_0000
            && t.field > 0 && t.wireType in {0, 1, 2, 3, 4, 5}
  {
    hide DecodeVarint, IsVarint, Base128;
    if DecodeVarint(s).Some? {
      DecodeVarintIff(s, DecodeVarint(s).value.0, DecodeVarint(s).value.1);
    }
    DecodeVarintIff(s, 8 * t.field + t.wireType, k);
  }

  lemma DecodeEncodedTag(t: Tag, rest: seq<byte>)
    requires 0 < t.field && t.wireType <= 5 && t.field * 8 + t.wireType < 0x1_0000_0000
    ensures DecodeTag(EncodeTag(t) + rest) == Some((t, |EncodeTag(t)|))
  {
    DecodeEncoded(t.field * 8 + t.wireType, rest);
  }

  lemma DecodeTagMonotone(p: seq<byte>, s: seq<byte>)
    requires p <= s && DecodeTag(p).Some?
    ensures DecodeTag(s) == DecodeTag(p)
  {
    DecodeVarintMonotone(p, s, 0);
  }

  /** A length-delimited field. */
  function BytesField(field: nat, data: seq<byte>): seq<byte> {
    EncodeTag(Tag(field, 2)) + EncodeVarint(|data|) + data
  }
}
