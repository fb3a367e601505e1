/**
  The base64 form of error-detail values (connectrpc/src/error.rs): section 4 of RFC 4648 without
  padding on encode, and a decode that accepts either the unpadded or the padded form (section 3.2).
 */
module Base64 {
  import opened Options
  import opened Wire

  type sextet = x: int | 0 <= x < 64

  function CharOf(x: sextet): byte {
    if x < 26 then 65 + x
    else if x < 52 then 97 + (x - 26)
    else if x < 62 then 48 + (x - 52)
    else if x == 62 then 43
    else 47
  }

  function SextetOf(c: byte): Option<sextet> {
    if 65 <= c <= 90 then Some(c - 65)
    else if 97 <= c <= 122 then Some(c - 97 + 26)
    else if 48 <= c <= 57 then Some(c - 48 + 52)
    else if c == 43 then Some(62)
    else if c == 47 then Some(63)
    else None
  }

  lemma AlphabetRoundTrip(x: sextet, c: byte)
    ensures SextetOf(CharOf(x)) == Some(x)
    ensures SextetOf(c) == Some(x) <==> c == CharOf(x)
  {
  }

  /** The alphabet of section 4 of RFC 4648: capitals, small letters, digits, plus and slash. */
  lemma AlphabetSpelled(i: nat)
    ensures i < 26 ==> CharOf(i) == 'A' as int + i
    ensures i < 26 ==> CharOf(26 + i) == 'a' as int + i
    ensures i < 10 ==> CharOf(52 + i) == '0' as int + i
    ensures CharOf(62) == '+' as int && CharOf(63) == '/' as int
  {
  }

  /** The bits of a byte string, six at a time, with zero bits to fill the last sextet. */
  function Pack(b: seq<byte>): seq<sextet>
    decreases |b|
  {
    if |b| == 0 then []
    else if |b| == 1 then [b[0] / 4, b[0] % 4 * 16]
    else if |b| == 2 then [b[0] / 4, b[0] % 4 * 16 + b[1] / 16, b[1] % 16 * 4]
    else [b[0] / 4, b[0] % 4 * 16 + b[1] / 16, b[1] % 16 * 4 + b[2] / 64, b[2] % 64] + Pack(b[3..])
  }

  function Chars(x: seq<sextet>): (s: seq<byte>)
    ensures |s| == |x| && forall i :: 0 <= i < |s| ==> s[i] == CharOf(x[i])
  {
    seq(|x|, i requires 0 <= i < |x| => CharOf(x[i]))
  }

  function Encode(b: seq<byte>): seq<byte> {
    Chars(Pack(b))
  }

  /** The sextets of a string, or None when a character is outside the alphabet. */
  function Sextets(s: seq<byte>): (r: Option<seq<sextet>>)
    ensures r.Some? ==> |r.value| == |s|
  {
    if s == [] then Some([])
    else
      match (SextetOf(s[0]), Sextets(s[1..]))
      case (Some(x), Some(xs)) => Some([x] + xs)
      case _ => None
  }

  function Byte0(x: sextet, y: sextet): byte { x as int * 4 + y as int / 16 }

  function Byte1(y: sextet, z: sextet): byte { y as int % 16 * 16 + z as int / 4 }

  function Byte2(z: sextet, w: sextet): byte { z as int % 4 * 64 + w as int }

  /** The bytes of a sextet string; leftover bits must be zero. */
  function Bytes(x: seq<sextet>): Option<seq<byte>>
    decreases |x|
  {
    if |x| == 0 then Some([])
    else if |x| == 1 then None
    else if |x| == 2 then (if x[1] % 16 == 0 then Some([Byte0(x[0], x[1])]) else None)
    else if |x| == 3 then
      (if x[2] % 4 == 0 then Some([Byte0(x[0], x[1]), Byte1(x[1], x[2])]) else None)
    else
      match Bytes(x[4..])
      case None => None
      case Some(rest) => Some([Byte0(x[0], x[1]), Byte1(x[1], x[2]), Byte2(x[2], x[3])] + rest)
  }

  function DecodeUnpadded(s: seq<byte>): Option<seq<byte>> {
    match Sextets(s)
    case None => None
    case Some(x) => Bytes(x)
  }

  const EQUALS: byte := 61

  function PaddingLen(s: seq<byte>): (n: nat)
    ensures n <= 2 && n <= |s|
  {
    var n := |s|;
    if n >= 2 && s[n - 1] == EQUALS && s[n - 2] == EQUALS then 2
    else if n >= 1 && s[n - 1] == EQUALS then 1
    else 0
  }

  /** Decoding with canonical padding required. */
  function DecodePadded(s: seq<byte>): Option<seq<byte>> {
    if |s| % 4 != 0 then None else DecodeUnpadded(s[..|s| - PaddingLen(s)])
  }

  function DecodeLenient(s: seq<byte>): Option<seq<byte>> {
    if DecodeUnpadded(s).Some? then DecodeUnpadded(s) else DecodePadded(s)
  }

  /** The padding that completes the encoding of `n` bytes to a multiple of four characters. */
  function Padding(n: nat): seq<byte> {
    if n % 3 == 1 then [EQUALS, EQUALS] else if n % 3 == 2 then [EQUALS] else []
  }

  /** Three bytes and their four sextets are the same 24 bits; one or two bytes are filled up with zeros. */
  lemma PackRule(a: byte, b: byte, c: byte, rest: seq<byte>)
    ensures var p := Pack([a, b, c] + rest);
            && |p| >= 4 && p[4..] == Pack(rest)
            && p[0] as int * 0x40000 + p[1] as int * 0x1000 + p[2] as int * 0x40 + p[3] as int ==
               a as int * 0x10000 + b as int * 0x100 + c as int
    ensures var p := Pack([a, b]);
            && |p| == 3
            && p[0] as int * 0x1000 + p[1] as int * 0x40 + p[2] as int == (a as int * 0x100 + b as int) * 4
    ensures var p := Pack([a]); |p| == 2 && p[0] as int * 0x40 + p[1] as int == a as int * 16
    ensures Pack([]) == []
  {
    assert ([a, b, c] + rest)[3..] == rest;
  }

  /** Equals signs fill the last group of four. */
  lemma PaddingSpelled(n: nat)
    ensures EQUALS == '=' as int
    ensures n % 3 == 0 ==> Padding(n) == []
    ensures n % 3 == 1 ==> Padding(n) == ['=' as int, '=' as int]
    ensures n % 3 == 2 ==> Padding(n) == ['=' as int]
  {
  }

  // ----- Sextet strings ----------------------------------------------------------------------

  lemma PackByte(a: byte, b: byte, c: byte)
    ensures a / 4 < 64 && a % 4 * 16 + b / 16 < 64 && b % 16 * 4 + c / 64 < 64
    ensures Byte0(a / 4, a % 4 * 16 + b / 16) == a
    ensures Byte1(a % 4 * 16 + b / 16, b % 16 * 4 + c / 64) == b
    ensures Byte2(b % 16 * 4 + c / 64, c % 64) == c
  {
  }

  lemma BlockBytes(x: sextet, y: sextet, z: sextet, w: sextet, rest: seq<sextet>)
    requires Bytes(rest).Some?
    ensures Bytes([x, y, z, w] + rest) == Some([Byte0(x, y), Byte1(y, z), Byte2(z, w)] + Bytes(rest).value)
  {
    hide Byte0, Byte1, Byte2;
    assert ([x, y, z, w] + rest)[4..] == rest;
  }

  lemma {:induction false} BytesOfPacked(b: seq<byte>)
    ensures Bytes(Pack(b)) == Some(b)
    decreases |b|
  {
    hide Byte0, Byte1, Byte2;
    if |b| == 1 {
      PackByte(b[0], 0, 0);
      assert b == [b[0]];
    } else if |b| == 2 {
      PackByte(b[0], b[1], 0);
      assert b == [b[0], b[1]];
    } else if |b| >= 3 {
      BytesOfPacked(b[3..]);
      PackByte(b[0], b[1], b[2]);
      BlockBytes(b[0] / 4, b[0] % 4 * 16 + b[1] / 16, b[1] % 16 * 4 + b[2] / 64, b[2] % 64, Pack(b[3..]));
      assert b == [b[0], b[1], b[2]] + b[3..];
    }
  }

  lemma UnpackSextets(x: sextet, y: sextet, z: sextet, w: sextet)
    ensures Byte0(x, y) / 4 == x
    ensures Byte0(x, y) % 4 * 16 + Byte1(y, z) / 16 == y
    ensures Byte1(y, z) % 16 * 4 + Byte2(z, w) / 64 == z
    ensures Byte2(z, w) % 64 == w
    ensures y as int % 16 == 0 ==> Byte0(x, y) % 4 * 16 == y
    ensures z as int % 4 == 0 ==> Byte1(y, z) % 16 * 4 == z
  {
  }

  /** Only the packed form of some bytes is accepted. */
  lemma {:induction false} PackedOfBytes(x: seq<sextet>)
    requires Bytes(x).Some?
    ensures Pack(Bytes(x).value) == x
    decreases |x|
  {
    hide Byte0, Byte1, Byte2;
    if |x| == 2 {
      UnpackSextets(x[0], x[1], 0, 0);
    } else if |x| == 3 {
      UnpackSextets(x[0], x[1], x[2], 0);
    } else if |x| >= 4 {
      PackedOfBytes(x[4..]);
      UnpackSextets(x[0], x[1], x[2], x[3]);
      var b := Bytes(x).value;
      assert b[3..] == Bytes(x[4..]).value;
      assert x == [x[0], x[1], x[2], x[3]] + x[4..];
    }
  }

  lemma {:induction false} SextetsOfChars(x: seq<sextet>)
    ensures Sextets(Chars(x)) == Some(x)
  {
    hide CharOf, SextetOf;
    if x != [] {
      SextetsOfChars(x[1..]);
      AlphabetRoundTrip(x[0], CharOf(x[0]));
      assert Chars(x)[1..] == Chars(x[1..]);
      assert x == [x[0]] + x[1..];
    }
  }

  lemma {:induction false} CharsOfSextets(s: seq<byte>)
    requires Sextets(s).Some?
    ensures Chars(Sextets(s).value) == s
  {
    hide CharOf, SextetOf;
    if s != [] {
      CharsOfSextets(s[1..]);
      AlphabetRoundTrip(SextetOf(s[0]).value, s[0]);
      assert s == [s[0]] + s[1..];
    }
  }

  // ----- Theorems ----------------------------------------------------------------------------

  /** The unpadded decoder accepts exactly the encodings. */
  lemma UnpaddedIff(s: seq<byte>, b: seq<byte>)
    ensures DecodeUnpadded(s) == Some(b) <==> s == Encode(b)
  {
    if s == Encode(b) {
      SextetsOfChars(Pack(b));
      BytesOfPacked(b);
    }
    if DecodeUnpadded(s) == Some(b) {
      var x := Sextets(s).value;
      CharsOfSextets(s);
      PackedOfBytes(x);
    }
  }

  lemma {:induction false} EncodeLength(b: seq<byte>)
    ensures |Encode(b)| % 4 == (if |b| % 3 == 0 then 0 else |b| % 3 + 1)
    decreases |b|
  {
    if |b| >= 3 {
      PackedLength(b);
      hide Pack;
      EncodeLength(b[3..]);
    }
  }

  lemma PackedLength(b: seq<byte>)
    requires |b| >= 3
    ensures |Pack(b)| == 4 + |Pack(b[3..])|
  {
  }

  lemma EncodeHasNoEquals(b: seq<byte>)
    ensures EQUALS !in Encode(b)
  {
    hide Pack;
  }

  /** Where the padding of an encoding ends up. */
  lemma PaddingOf(e: seq<byte>, n: nat)
    requires EQUALS !in e
    ensures PaddingLen(e + Padding(n)) == |Padding(n)|
    ensures (e + Padding(n))[..|e|] == e
  {
    if e != [] {
      assert e[|e| - 1] in e;
      assert (e + Padding(n))[|e| - 1] == e[|e| - 1];
    }
  }

  lemma PaddingTail(s: seq<byte>)
    ensures s == s[..|s| - PaddingLen(s)] + seq(PaddingLen(s), _ => EQUALS)
  {
  }

  /** The padded decoder accepts exactly the padded encodings. */
  lemma PaddedIff(s: seq<byte>, b: seq<byte>)
    ensures DecodePadded(s) == Some(b) <==> s == Encode(b) + Padding(|b|)
  {
    hide Encode, DecodeUnpadded, PaddingLen;
    EncodeLength(b);
    EncodeHasNoEquals(b);
    var n := PaddingLen(s);
    UnpaddedIff(s[..|s| - n], b);
    PaddingTail(s);
    assert Padding(|b|) == seq(|Padding(|b|)|, _ => EQUALS);
    if s == Encode(b) + Padding(|b|) {
      PaddingOf(Encode(b), |b|);
    }
  }

  /** The lenient decoder accepts exactly the encoding of a byte string, padded or not. */
  lemma LenientIff(s: seq<byte>, b: seq<byte>)
    ensures DecodeLenient(s) == Some(b) <==> s == Encode(b) || s == Encode(b) + Padding(|b|)
  {
    UnpaddedIff(s, b);
    PaddedIff(s, b);
    if DecodeUnpadded(s).Some? {
      var c := DecodeUnpadded(s).value;
      UnpaddedIff(s, c);
      EncodeHasNoEquals(c);
      if s == Encode(b) + Padding(|b|) {
        assert forall p :: p in Padding(|b|) ==> p in s;
        assert Padding(|b|) == [];
      }
    }
  }
}
