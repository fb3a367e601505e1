/**
  The gzip container of connectrpc/src/compression.rs: the compression loop, and the decompression
  loop that never lets its buffer grow past the limit by more than one byte. Deflate itself and
  CRC-32 are arbitrary; only the contract of their streaming interface is assumed.
 */
module Gzip {
  import opened Options
  import opened Wire
  import opened GzipHeader

  // ----- Streaming codecs --------------------------------------------------------------------

  datatype Status = Progress | StreamEnd | Stalled | Fault

  /** One call of the codec: its next state, how much it read, what it wrote, and how it ended. */
  datatype Turn<S> = Turn(state: S, consumed: nat, produced: seq<byte>, status: Status)

  /** A codec call on some input with a number of free output bytes. */
  type Codec<!S> = (S, seq<byte>, nat) -> Turn<S>

  /** The interface contract: stay within both buffers, and make progress unless stopping. */
  ghost predicate WellBehaved<S(!new)>(codec: Codec<S>) {
    forall st, input, free ::
      var t := codec(st, input, free);
      && t.consumed <= |input| && |t.produced| <= free
      && (t.status == Progress ==> t.consumed > 0 || t.produced != [])
  }

  /** What a codec in state `st` will make of the input that is left: `source` becomes `target`. */
  type Meaning<!S> = (S, seq<byte>, seq<byte>) -> bool

  /**
    A decompressor works towards its meaning, whatever follows the source: given room, a call either
    finishes with exactly the source read and the target written, or takes matching prefixes off both.
    It has to stop by itself, because the stream it reads marks its own end.
   */
  ghost predicate Faithful<S(!new)>(codec: Codec<S>, means: Meaning<S>) {
    forall st, source, target, tail, free | free > 0 && means(st, source, target) ::
      Advances(means, codec(st, source + tail, free), source, target)
  }

  /**
    A compressor does so when the input it is offered is all there is: it may read the whole of it at
    once, since the end of the input is what ends the stream.
   */
  ghost predicate Finishing<S(!new)>(codec: Codec<S>, means: Meaning<S>) {
    forall st, source, target, free | free > 0 && means(st, source, target) ::
      Advances(means, codec(st, source, free), source, target)
  }

  ghost predicate Advances<S(!new)>(means: Meaning<S>, t: Turn<S>, source: seq<byte>, target: seq<byte>) {
    && t.consumed <= |source| && t.produced <= target
    && (|| (t.status == StreamEnd && t.consumed == |source| && t.produced == target)
        || (t.status == Progress && means(t.state, source[t.consumed..], target[|t.produced|..])))
  }

  // ----- The frame ---------------------------------------------------------------------------

  const FIXED_HEADER: seq<byte> := [0x1F, 0x8B, 0x08, 0x00, 0x00, 0x00, 0x00, 0x00, 0x00, 0xFF]

  const U32: nat := 0x1_0000_0000

  function Le32(n: nat): seq<byte> {
    [n % 256, n / 256 % 256, n / 256 / 256 % 256, n / 256 / 256 / 256 % 256]
  }

  function FromLe32(s: seq<byte>): nat
    requires |s| == 4
  {
    s[0] as int + 256 * s[1] as int + 0x1_0000 * s[2] as int + 0x100_0000 * s[3] as int
  }

  lemma Le32RoundTrip(n: nat)
    requires n < U32
    ensures FromLe32(Le32(n)) == n
  {
    var a := n / 256;
    var b := a / 256;
    var c := b / 256;
    assert n == 256 * a + n % 256 && a == 256 * b + a % 256 && b == 256 * c + b % 256;
    assert c % 256 == c;
  }

  type Checksum = seq<byte> -> nat

  function Trailer(crc: Checksum, d: seq<byte>): seq<byte> {
    Le32(crc(d) % U32) + Le32(|d| % U32)
  }

  /** Behind the stream: checksum and size in four bytes each, the lowest byte first. */
  ghost predicate TrailerSays(t: seq<byte>, sum: nat, size: nat) {
    && |t| >= 8
    && t[0] as int + 0x100 * t[1] as int + 0x1_0000 * t[2] as int + 0x100_0000 * t[3] as int == sum
    && t[4] as int + 0x100 * t[5] as int + 0x1_0000 * t[6] as int + 0x100_0000 * t[7] as int == size
  }

  lemma TrailerIsSaid(crc: Checksum, d: seq<byte>)
    ensures |Trailer(crc, d)| == 8 && TrailerSays(Trailer(crc, d), crc(d) % 0x1_0000_0000, |d| % 0x1_0000_0000)
  {
    var t := Trailer(crc, d);
    assert t[..4] == Le32(crc(d) % U32) && t[4..8] == Le32(|d| % U32);
    Le32RoundTrip(crc(d) % U32);
    Le32RoundTrip(|d| % U32);
  }

  // ----- Compression -------------------------------------------------------------------------

  /** Compresses `data`, which the compressor means to turn into `z`. */
  method CompressInner<S(!new)>(
    codec: Codec<S>, st0: S, crc: Checksum, data: seq<byte>, ghost means: Meaning<S>, ghost z: seq<byte>)
    returns (frame: seq<byte>)
    requires WellBehaved(codec) && Finishing(codec, means) && means(st0, data, z)
    ensures frame == FIXED_HEADER + z + Trailer(crc, data)
    ensures frame[..10] == [0x1F, 0x8B, 0x08, 0x00, 0x00, 0x00, 0x00, 0x00, 0x00, 0xFF]
    ensures |frame| == 10 + |z| + 8 && frame[10..10 + |z|] == z
    ensures TrailerSays(frame[10 + |z|..], crc(data) % 0x1_0000_0000, |data| % 0x1_0000_0000)
  {
    TrailerIsSaid(crc, data);
    hide TrailerSays;
    var n := |data|;
    var capacity := 18 + n + (n + 7) / 8 + (n + 63) / 64 + 5;
    var output, st, consumed: nat := FIXED_HEADER, st0, 0;
    ghost var left := z;
    var done := false;
    while !done
      invariant consumed <= |data| && |output| <= capacity
      invariant output + left == FIXED_HEADER + z
      invariant if done then left == [] else means(st, data[consumed..], left)
      decreases !done, |data| - consumed + |left|
    {
      if |output| == capacity {
        capacity := |output| + 4096;
      }
      var t := codec(st, data[consumed..], capacity - |output|);
      assert Advances(means, t, data[consumed..], left);
      assert data[consumed..][t.consumed..] == data[consumed + t.consumed..];
      assert left == t.produced + left[|t.produced|..];
      ghost var before := output;
      output, st, consumed := output + t.produced, t.state, consumed + t.consumed;
      assert before + (t.produced + left[|t.produced|..]) == output + left[|t.produced|..];
      left := left[|t.produced|..];
      done := t.status == StreamEnd;
    }
    assert output + [] == output;
    frame := output + Le32(crc(data) % U32) + Le32(|data| % U32);
    assert frame == output + Trailer(crc, data);
    assert frame[10 + |z|..] == Trailer(crc, data);
  }

  // ----- Decompression -----------------------------------------------------------------------

  datatype GzipError = Malformed | ResourceExhausted

  function InitialCapacity(inputLen: nat, multiplier: nat, limit: nat): nat {
    var guess := if inputLen * multiplier > 256 then inputLen * multiplier else 256;
    if guess < limit + 1 then guess else limit + 1
  }

  /** First capacity: a multiple of the input, at least 256, but never more than one over the limit. */
  lemma InitialCapacityRule(inputLen: nat, multiplier: nat, limit: nat)
    ensures var c := InitialCapacity(inputLen, multiplier, limit);
            && c <= limit + 1
            && (c < limit + 1 ==> c >= 256 && c >= inputLen * multiplier && (c == 256 || c == inputLen * multiplier))
            && (c == limit + 1 ==> c <= 256 || c <= inputLen * multiplier)
  {
  }

  /** The check of what follows the deflate stream. */
  function CheckTrailer(crc: Checksum, d: seq<byte>, tail: seq<byte>): Result<seq<byte>, GzipError> {
    if |tail| < 8 then Err(Malformed)
    else if FromLe32(tail[..4]) != crc(d) % U32 || FromLe32(tail[4..8]) != |d| % U32 then Err(Malformed)
    else Ok(d)
  }

  lemma CheckTrailerIff(crc: Checksum, d: seq<byte>, tail: seq<byte>)
    ensures CheckTrailer(crc, d, tail) ==
            if TrailerSays(tail, crc(d) % 0x1_0000_0000, |d| % 0x1_0000_0000) then Ok(d) else Err(Malformed)
  {
  }

  /** Buffer capacity and free bytes offered in each call of the decompressor. */
  type Offers = seq<(nat, nat)>

  ghost predicate Bounded(offers: Offers, limit: nat) {
    forall o :: o in offers ==> o.0 <= limit + 1 && o.1 > 0
  }

  /** Room for more output, never reserving past one byte over the limit. */
  function Grown(len: nat, limit: nat): (capacity: nat)
    requires len <= limit
    ensures len < capacity <= limit + 1
  {
    var additional := if len > 4096 then len else 4096;
    len + if additional < limit + 1 - len then additional else limit + 1 - len
  }

  /** The buffer doubles, by at least 4096 bytes, unless the limit stops it. */
  lemma GrowthRule(len: nat, limit: nat)
    requires len <= limit
    ensures var c := Grown(len, limit);
            && (c < limit + 1 ==> c >= len + 4096 && c >= 2 * len && (c == len + 4096 || c == 2 * len))
            && (c == limit + 1 ==> c <= len + 4096 || c <= 2 * len)
  {
  }

  /** The decompressor stands at `rest`, which it will turn into what is missing of `d`. */
  ghost predicate OnTrack<S(!new)>(
    means: Meaning<S>, st: S, stream: seq<byte>, consumed: nat, output: seq<byte>, z: seq<byte>, d: seq<byte>)
  {
    && consumed <= |z| && z <= stream && output <= d
    && means(st, z[consumed..], d[|output|..])
  }

  lemma Follow<S(!new)>(
    codec: Codec<S>, means: Meaning<S>, st: S, stream: seq<byte>, consumed: nat, output: seq<byte>,
    z: seq<byte>, d: seq<byte>, free: nat)
    requires Faithful(codec, means) && free > 0
    requires OnTrack(means, st, stream, consumed, output, z, d)
    ensures consumed <= |stream|
    ensures var t := codec(st, stream[consumed..], free);
            || (t.status == StreamEnd && consumed + t.consumed == |z| && output + t.produced == d)
            || (t.status == Progress
                && OnTrack(means, t.state, stream, consumed + t.consumed, output + t.produced, z, d))
  {
    var source, target, tail := z[consumed..], d[|output|..], stream[|z|..];
    assert stream[consumed..] == source + tail;
    var t := codec(st, stream[consumed..], free);
    assert Advances(means, t, source, target);
    assert d == output + target;
    assert target == t.produced + target[|t.produced|..];
    assert source[t.consumed..] == z[consumed + t.consumed..];
    assert target[|t.produced|..] == d[|output| + |t.produced|..];
  }

  /** Runs the decompressor over `stream`, keeping the output within the limit. */
  method Inflate<S(!new)>(
    codec: Codec<S>, st0: S, stream: seq<byte>, initial: nat, limit: nat,
    ghost means: Meaning<S>, ghost z: seq<byte>, ghost d: seq<byte>)
    returns (r: Result<(seq<byte>, nat), GzipError>, ghost offers: Offers)
    requires WellBehaved(codec) && initial <= limit + 1
    ensures Bounded(offers, limit)
    ensures r.Ok? ==> |r.value.0| <= limit && r.value.1 <= |stream|
    ensures Faithful(codec, means) && OnTrack(means, st0, stream, 0, [], z, d) ==>
              r == if |d| > limit then Err(ResourceExhausted) else Ok((d, |z|))
  {
    var output: seq<byte>, capacity, st, consumed: nat := [], initial, st0, 0;
    offers := [];
    ghost var known := Faithful(codec, means) && OnTrack(means, st0, stream, 0, [], z, d);
    while true
      invariant consumed <= |stream| && |output| <= capacity <= limit + 1
      invariant Bounded(offers, limit)
      invariant known ==> OnTrack(means, st, stream, consumed, output, z, d)
      decreases |stream| - consumed + limit + 1 - |output|
    {
      if capacity == |output| {
        if |output| > limit {
          return Err(ResourceExhausted), offers;
        }
        capacity := Grown(|output|, limit);
      }
      offers := offers + [(capacity, capacity - |output|)];
      var t := codec(st, stream[consumed..], capacity - |output|);
      if known {
        Follow(codec, means, st, stream, consumed, output, z, d, capacity - |output|);
      }
      st, consumed, output := t.state, consumed + t.consumed, output + t.produced;
      match t.status {
        case StreamEnd => break;
        case Progress =>
        case Stalled => return Err(Malformed), offers;
        case Fault => return Err(Malformed), offers;
      }
    }
    if |output| > limit {
      return Err(ResourceExhausted), offers;
    }
    return Ok((output, consumed)), offers;
  }

  /**
    Decompresses a gzip frame. Whatever the decompressor does, data is only returned within the limit
    and when the bytes behind some cut carry its checksum and size. The ghost parameters name a stream
    `z` that may stand for `d`; when it does, and the frame carries it, the answer is fixed.
   */
  method DecompressInner<S(!new)>(
    codec: Codec<S>, st0: S, crc: Checksum, data: seq<byte>, limit: nat,
    ghost means: Meaning<S>, ghost z: seq<byte>, ghost d: seq<byte>)
    returns (r: Result<seq<byte>, GzipError>, ghost offers: Offers)
    requires WellBehaved(codec)
    ensures Bounded(offers, limit)
    ensures HeaderLen(data).None? ==> r == Err(Malformed)
    ensures r.Ok? ==>
              && |r.value| <= limit && HeaderLen(data).Some?
              && exists cut :: HeaderLen(data).value <= cut <= |data|
                               && TrailerSays(data[cut..], crc(r.value) % 0x1_0000_0000, |r.value| % 0x1_0000_0000)
    ensures HeaderLen(data).Some? && HeaderLen(data).value <= |data| && z <= data[HeaderLen(data).value..] ==>
              Faithful(codec, means) && means(st0, z, d) ==>
              var tail := data[HeaderLen(data).value + |z|..];
              r == if |d| > limit then Err(ResourceExhausted)
                   else if TrailerSays(tail, crc(d) % 0x1_0000_0000, |d| % 0x1_0000_0000) then Ok(d)
                   else Err(Malformed)
  {
    hide HeaderLen, Faithful, WellBehaved, TrailerSays, CheckTrailer;
    offers := [];
    var start := GzipHeaderLen(data);
    if start.None? {
      return Err(Malformed), offers;
    }
    StartInBounds(data);
    var stream := data[start.value..];
    var inflated;
    inflated, offers := Inflate(codec, st0, stream, InitialCapacity(|data|, 2, limit), limit, means, z, d);
    assert z[0..] == z && d[0..] == d;
    if inflated.Err? {
      return Err(inflated.error), offers;
    }
    var (output, consumed) := inflated.value;
    assert stream[consumed..] == data[start.value + consumed..];
    CheckTrailerIff(crc, output, stream[consumed..]);
    r := CheckTrailer(crc, output, stream[consumed..]);
  }

  lemma StartInBounds(data: seq<byte>)
    requires HeaderLen(data).Some?
    ensures HeaderLen(data).value <= |data|
  {
  }

  // ----- Round trip --------------------------------------------------------------------------

  lemma FixedHeaderIsHeader(rest: seq<byte>)
    ensures HeaderLen(FIXED_HEADER + rest) == Some(10)
  {
    var data := FIXED_HEADER + rest;
    assert data[0] == 0x1F && data[1] == 0x8B && data[2] == 8 && data[3] == 0;
  }

  /**
    What was compressed comes back when it fits the limit and is refused when it does not, for every
    pair of codecs that invert each other. `MarkingPairMeetsContracts` names such a pair.
   */
  method RoundTrip<C(!new), D(!new)>(
    deflate: Codec<C>, c0: C, inflate: Codec<D>, d0: D, crc: Checksum, data: seq<byte>, limit: nat,
    ghost encodes: Meaning<C>, ghost decodes: Meaning<D>, ghost z: seq<byte>)
    returns (r: Result<seq<byte>, GzipError>, ghost offers: Offers)
    requires WellBehaved(deflate) && Finishing(deflate, encodes) && encodes(c0, data, z)
    requires WellBehaved(inflate) && Faithful(inflate, decodes) && decodes(d0, z, data)
    ensures r == if |data| <= limit then Ok(data) else Err(ResourceExhausted)
    ensures Bounded(offers, limit)
  {
    hide Faithful, Finishing, WellBehaved, HeaderLen, TrailerSays;
    var frame := CompressInner(deflate, c0, crc, data, encodes, z);
    var trailer := Trailer(crc, data);
    assert frame == FIXED_HEADER + (z + trailer);
    FixedHeaderIsHeader(z + trailer);
    assert frame[10..] == z + trailer && frame[10 + |z|..] == trailer;
    TrailerIsSaid(crc, data);
    r, offers := DecompressInner(inflate, d0, crc, frame, limit, decodes, z, data);
  }

  // ----- A pair of codecs --------------------------------------------------------------------

  /** A stream format that marks its own end: a one before every byte, and a zero at the end. */
  function Marked(d: seq<byte>): (z: seq<byte>)
    ensures z != []
  {
    if d == [] then [0] else [1, d[0]] + Marked(d[1..])
  }

  /** What the compressor still has to write, once it has read its input. */
  type Pending = Option<seq<byte>>

  /** Reads all of its input in the first call, like a compressor that is told to finish. */
  function MarkingCompressor(st: Pending, input: seq<byte>, free: nat): Turn<Pending> {
    var read := if st.None? then |input| else 0;
    var pending := if st.None? then Marked(input) else st.value;
    if free == 0 then Turn(st, 0, [], Stalled)
    else if |pending| <= free then Turn(Some([]), read, pending, StreamEnd)
    else Turn(Some(pending[free..]), read, pending[..free], Progress)
  }

  predicate MarkingEncodes(st: Pending, source: seq<byte>, target: seq<byte>) {
    match st
    case None => target == Marked(source)
    case Some(pending) => source == [] && target == pending
  }

  function MarkingDecompressor(st: (), input: seq<byte>, free: nat): Turn<()> {
    if input != [] && input[0] == 0 then Turn(st, 1, [], StreamEnd)
    else if |input| >= 2 && free > 0 then Turn(st, 2, [input[1]], Progress)
    else Turn(st, 0, [], Stalled)
  }

  predicate MarkingDecodes(st: (), source: seq<byte>, target: seq<byte>) {
    source == Marked(target)
  }

  lemma MarkingDecompressorIsFaithful()
    ensures Faithful(MarkingDecompressor, MarkingDecodes)
  {
    forall st, source, target, tail, free | free > 0 && MarkingDecodes(st, source, target)
      ensures Advances(MarkingDecodes, MarkingDecompressor(st, source + tail, free), source, target)
    {
      if target != [] {
        assert (source + tail)[0] == 1 && (source + tail)[1] == target[0];
        assert source[2..] == Marked(target[1..]);
      }
    }
  }

  /** The contracts of both codecs can be met, together, and with a meaning for all data. */
  lemma MarkingPairMeetsContracts()
    ensures WellBehaved(MarkingCompressor) && Finishing(MarkingCompressor, MarkingEncodes)
    ensures WellBehaved(MarkingDecompressor) && Faithful(MarkingDecompressor, MarkingDecodes)
    ensures forall d :: MarkingEncodes(None, d, Marked(d)) && MarkingDecodes((), Marked(d), d)
  {
    MarkingDecompressorIsFaithful();
  }
}
