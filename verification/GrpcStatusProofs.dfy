/** Round trips and truncation of the `google.rpc.Status` codec. */
module GrpcStatusProofs {
  import opened Options
  import opened Sequences
  import opened Wire
  import opened GrpcStatus
  import Base64
  import Utf8

  /** What a detail looks like once it has been through the wire. */
  function Canonical(d: ErrorDetail): ErrorDetail {
    ErrorDetail(FullUrl(d.typeUrl), Some(Base64.Encode(ValueBytes(d.value))), None)
  }

  function Canonicals(ds: seq<ErrorDetail>): (cs: seq<ErrorDetail>)
    ensures |cs| == |ds| && forall i :: 0 <= i < |ds| ==> cs[i] == Canonical(ds[i])
  {
    seq(|ds|, i requires 0 <= i < |ds| => Canonical(ds[i]))
  }

  // ----- Round trip --------------------------------------------------------------------------

  lemma FullUrlIsValid(url: seq<byte>)
    requires Utf8.Valid(url)
    ensures Utf8.Valid(FullUrl(url)) && SLASH in FullUrl(url)
  {
    hide Utf8.Valid;
    Utf8.AsciiIsValid(URL_PREFIX);
    Utf8.ConcatIsValid(URL_PREFIX, url);
    assert URL_PREFIX[19] == SLASH;
    assert (URL_PREFIX + url)[19] == SLASH;
  }

  lemma ReadUrl(url: seq<byte>, rest: seq<byte>)
    requires Utf8.Valid(url) && |url| < U64
    ensures DecodedAny(BytesField(1, url) + rest, None, None) == DecodedAny(rest, Some(url), None)
  {
    hide Parse, BytesField, Utf8.Valid;
    ParseBytesField(1, url, rest);
    var f := BytesField(1, url);
    assert (f + rest)[|f|..] == rest;
  }

  lemma ReadValue(url: seq<byte>, value: seq<byte>)
    requires |value| < U64
    ensures DecodedAny(BytesField(2, value), Some(url), None) == Finish(Some(url), Some(value))
  {
    hide Parse, BytesField;
    var f := BytesField(2, value);
    ParseBytesField(2, value, []);
    assert f + [] == f && f[|f|..] == [];
    assert DecodedAny([], Some(url), Some(value)) == Finish(Some(url), Some(value));
  }

  lemma AnyRoundTrip(d: ErrorDetail)
    requires Utf8.Valid(d.typeUrl) && |AnyBytes(d)| < U64
    ensures DecodedAny(AnyBytes(d), None, None) == Some(Canonical(d))
  {
    hide Utf8.Valid, DecodedAny, Parse, Base64.Encode, Base64.DecodeLenient;
    var url := FullUrl(d.typeUrl);
    FullUrlIsValid(d.typeUrl);
    assert AnyBytes(d) == BytesField(1, url) + AnyBytes(d)[|BytesField(1, url)|..];
    var rest := AnyBytes(d)[|BytesField(1, url)|..];
    ReadUrl(url, rest);
    if d.value.Some? && Base64.DecodeLenient(d.value.value).Some? {
      ReadValue(url, Base64.DecodeLenient(d.value.value).value);
    } else {
      NothingLeft(url);
    }
  }

  lemma NothingLeft(url: seq<byte>)
    ensures DecodedAny([], Some(url), None) == Finish(Some(url), None)
  {
  }

  lemma DetailsStep(number: nat, data: seq<byte>, rest: seq<byte>)
    requires 1 <= number <= 15 && |data| < U64
    ensures DecodedDetails(BytesField(number, data) + rest) == FieldDetails(number, data) + DecodedDetails(rest)
  {
    hide Parse, BytesField, FieldDetails;
    var f := BytesField(number, data);
    ParseBytesField(number, data, rest);
    assert (f + rest)[|f|..] == rest;
  }

  lemma {:induction false} DetailsRoundTrip(ds: seq<ErrorDetail>)
    requires |DetailBytes(ds)| < U64
    requires forall d :: d in ds ==> Utf8.Valid(d.typeUrl)
    ensures DecodedDetails(DetailBytes(ds)) == Canonicals(ds)
  {
    hide Utf8.Valid, AnyBytes, DecodedAny, Canonical;
    if ds != [] {
      var any := AnyBytes(ds[0]);
      FieldLonger(3, any);
      DetailsRoundTrip(ds[1..]);
      DetailsStep(3, any, DetailBytes(ds[1..]));
      AnyRoundTrip(ds[0]);
    }
  }

  lemma HeadIsSkipped(err: ConnectError, rest: seq<byte>)
    requires err.code < U64 && |HeadBytes(err)| < U64
    ensures DecodedDetails(HeadBytes(err) + rest) == DecodedDetails(rest)
  {
    hide EncodeTag, EncodeVarint, Parse, BytesField, DecodedDetails;
    var f := EncodeTag(Tag(1, 0)) + EncodeVarint(err.code);
    if err.message.Some? {
      var m := BytesField(2, err.message.value);
      Associate(f, m, rest);
      CodeStep(err.code, m + rest);
      FieldLonger(2, err.message.value);
      DetailsStep(2, err.message.value, rest);
      assert [] + DecodedDetails(rest) == DecodedDetails(rest);
    } else {
      assert HeadBytes(err) == f;
      CodeStep(err.code, rest);
    }
  }

  lemma CodeStep(code: nat, rest: seq<byte>)
    requires code < U64
    ensures DecodedDetails(EncodeTag(Tag(1, 0)) + EncodeVarint(code) + rest) == DecodedDetails(rest)
  {
    hide EncodeTag, EncodeVarint, Parse;
    var f := EncodeTag(Tag(1, 0)) + EncodeVarint(code);
    assert (f + rest)[|f|..] == rest;
    ParseCode(code, rest);
  }

  /** Decoding an encoded error gives one canonical detail per detail, in order. */
  lemma StatusRoundTrip(err: ConnectError)
    requires WellTyped(err) && |StatusBytes(err)| < U64
    ensures DecodedDetails(StatusBytes(err)) == Canonicals(err.details)
  {
    hide HeadBytes, DetailBytes, DecodedDetails, Canonicals, Utf8.Valid;
    HeadIsSkipped(err, DetailBytes(err.details));
    DetailsRoundTrip(err.details);
  }

  /** Canonical details survive unchanged. */
  lemma CanonicalIsStable(d: ErrorDetail)
    requires Utf8.Valid(d.typeUrl)
    ensures Canonical(Canonical(d)) == Canonical(d) && Utf8.Valid(Canonical(d).typeUrl)
  {
    hide Base64.Encode, Base64.DecodeLenient, Utf8.Valid;
    FullUrlIsValid(d.typeUrl);
    var b := ValueBytes(d.value);
    Base64.LenientIff(Base64.Encode(b), b);
  }

  /** A second round trip is the identity. */
  lemma SecondRoundTrip(err: ConnectError)
    requires WellTyped(err) && |StatusBytes(err)| < U64
    requires |StatusBytes(err.(details := DecodedDetails(StatusBytes(err))))| < U64
    ensures var err2 := err.(details := DecodedDetails(StatusBytes(err)));
            DecodedDetails(StatusBytes(err2)) == err2.details
  {
    hide StatusBytes, DecodedDetails, Canonical, Utf8.Valid;
    StatusRoundTrip(err);
    var err2 := err.(details := DecodedDetails(StatusBytes(err)));
    forall i | 0 <= i < |err.details|
      ensures Canonical(err2.details[i]) == err2.details[i] && Utf8.Valid(err2.details[i].typeUrl)
    {
      CanonicalIsStable(err.details[i]);
    }
    StatusRoundTrip(err2);
  }

  // ----- Truncation --------------------------------------------------------------------------

  lemma ParseMonotone(p: seq<byte>, s: seq<byte>)
    requires p <= s && (Parse(p).Skip? || Parse(p).Field? || Parse(p).Fixed?)
    ensures Parse(s) == Parse(p)
  {
    hide DecodeTag, DecodeVarint;
    DecodeTagMonotone(p, s);
    var (tag, k) := DecodeTag(p).value;
    assert p[k..] <= s[k..];
    if tag.wireType == 0 || tag.wireType == 2 {
      VarintMonotone(p[k..], s[k..]);
    }
  }

  lemma VarintMonotone(p: seq<byte>, s: seq<byte>)
    requires p <= s && DecodeVarint(p).Some?
    ensures DecodeVarint(s) == DecodeVarint(p)
  {
    DecodeVarintMonotone(p, s, 0);
  }

  /** Cutting a message short only drops details from the end, whatever the bytes are. */
  lemma {:induction false} TruncationMonotone(p: seq<byte>, s: seq<byte>)
    requires p <= s
    ensures DecodedDetails(p) <= DecodedDetails(s)
    decreases |p|
  {
    hide Parse, FieldDetails;
    if p != [] {
      var step := Parse(p);
      if step.Skip? || step.Field? || (step.Fixed? && step.len <= |p|) {
        ParseMonotone(p, s);
        TruncationMonotone(p[step.len..], s[step.len..]);
      }
    }
  }

  lemma {:induction false} CutVarint(n: nat, j: nat, i: nat)
    requires j < |EncodeVarint(n)|
    ensures DecodeVarintAt(EncodeVarint(n)[..j], i) == None
    decreases n
  {
    if n >= 128 && j > 0 {
      assert EncodeVarint(n)[..j][1..] == EncodeVarint(n / 128)[..j - 1];
      CutVarint(n / 128, j - 1, i + 1);
    }
  }

  /** A detail field that is cut anywhere is not read at all. */
  lemma CutField(data: seq<byte>, m: nat)
    requires |data| < U64 && 0 < m < |BytesField(3, data)|
    ensures var step := Parse(BytesField(3, data)[..m]); step.BadBody? || step.Short?
  {
    hide DecodeTag, DecodeVarint, EncodeVarint;
    var tag, len := EncodeTag(Tag(3, 2)), EncodeVarint(|data|);
    assert tag == [26] by { OneByteTag(); }
    var cut := BytesField(3, data)[..m];
    var rest := cut[1..];
    assert cut == tag + rest;
    DecodeEncodedTag(Tag(3, 2), rest);
    if m - 1 < |len| {
      assert rest == len[..m - 1];
      CutVarint(|data|, m - 1, 0);
      NoVarint(len[..m - 1]);
    } else {
      assert rest == len + data[..m - 1 - |len|];
      DecodeEncoded(|data|, data[..m - 1 - |len|]);
    }
  }

  lemma OneByteTag()
    ensures EncodeTag(Tag(3, 2)) == [26]
  {
  }

  lemma NoVarint(s: seq<byte>)
    requires DecodeVarintAt(s, 0) == None
    ensures DecodeVarint(s) == None
  {
  }

  lemma FirstBytes(ds: seq<ErrorDetail>, k: nat)
    requires 0 < k <= |ds|
    ensures DetailBytes(ds[..k]) == BytesField(3, AnyBytes(ds[0])) + DetailBytes(ds[1..][..k - 1])
    ensures DetailBytes(ds) == BytesField(3, AnyBytes(ds[0])) + DetailBytes(ds[1..])
    ensures Canonicals(ds[..k]) == [Canonical(ds[0])] + Canonicals(ds[1..][..k - 1])
  {
    hide AnyBytes, BytesField, Canonical, DetailBytes, Canonicals;
    assert ds[..k][1..] == ds[1..][..k - 1];
    DetailCons(ds[..k]);
    DetailCons(ds);
  }

  lemma DetailCons(ds: seq<ErrorDetail>)
    requires ds != []
    ensures DetailBytes(ds) == BytesField(3, AnyBytes(ds[0])) + DetailBytes(ds[1..])
    ensures Canonicals(ds) == [Canonical(ds[0])] + Canonicals(ds[1..])
  {
    hide AnyBytes, BytesField, Canonical;
  }

  /** A cut inside the first detail leaves none. */
  lemma CutFirst(any: seq<byte>, rest: seq<byte>, m: nat)
    requires |any| < U64 && m < |BytesField(3, any)|
    ensures DecodedDetails((BytesField(3, any) + rest)[..m]) == []
  {
    hide Parse, BytesField;
    if m > 0 {
      assert (BytesField(3, any) + rest)[..m] == BytesField(3, any)[..m];
      CutField(any, m);
    }
  }

  /** A cut behind the first detail reads that and what the rest is cut to. */
  lemma CutLater(d: ErrorDetail, rest: seq<byte>, m: nat)
    requires Utf8.Valid(d.typeUrl) && |AnyBytes(d)| < U64
    requires |BytesField(3, AnyBytes(d))| <= m <= |BytesField(3, AnyBytes(d)) + rest|
    ensures var f := BytesField(3, AnyBytes(d));
            DecodedDetails((f + rest)[..m]) == [Canonical(d)] + DecodedDetails(rest[..m - |f|])
  {
    hide AnyBytes, DecodedAny, Canonical, Parse, BytesField, Utf8.Valid, DecodedDetails;
    var f := BytesField(3, AnyBytes(d));
    assert (f + rest)[..m] == f + rest[..m - |f|];
    DetailsStep(3, AnyBytes(d), rest[..m - |f|]);
    AnyRoundTrip(d);
  }

  lemma {:induction false} CutDetails(ds: seq<ErrorDetail>, k: nat, m: nat)
    requires |DetailBytes(ds)| < U64
    requires forall d :: d in ds ==> Utf8.Valid(d.typeUrl)
    requires k < |ds| && |DetailBytes(ds[..k])| <= m < |DetailBytes(ds[..k + 1])|
    ensures m <= |DetailBytes(ds)|
    ensures DecodedDetails(DetailBytes(ds)[..m]) == Canonicals(ds[..k])
    decreases k
  {
    hide AnyBytes, Canonical, BytesField, Utf8.Valid, DecodedDetails, Canonicals, DetailBytes;
    var any := AnyBytes(ds[0]);
    FieldLonger(3, any);
    FirstBytes(ds, k + 1);
    if k == 0 {
      NoDetails();
      assert ds[1..][..0] == [] && ds[..0] == [];
      CutFirst(any, DetailBytes(ds[1..]), m);
    } else {
      FirstBytes(ds, k);
      CutDetails(ds[1..], k - 1, m - |BytesField(3, any)|);
      CutLater(ds[0], DetailBytes(ds[1..]), m);
    }
  }

  /** An error with its first `k` details only. */
  function FirstDetails(err: ConnectError, k: nat): ConnectError
    requires k <= |err.details|
  {
    err.(details := err.details[..k])
  }

  /** Among the first `k` details, the number of those whose field ends within `n` bytes. */
  function WholeAmong(err: ConnectError, n: nat, k: nat): (w: nat)
    requires k <= |err.details|
    ensures w <= k
  {
    if k == 0 || |StatusBytes(FirstDetails(err, k))| <= n then k else WholeAmong(err, n, k - 1)
  }

  /** The number of details whose field ends within the first `n` bytes. */
  function WholeDetails(err: ConnectError, n: nat): (w: nat)
    ensures w <= |err.details|
  {
    WholeAmong(err, n, |err.details|)
  }

  /** The last of them ends within the bytes, and the next one does not. */
  lemma {:induction false} WholeAmongEnd(err: ConnectError, n: nat, k: nat)
    requires k <= |err.details|
    ensures var w := WholeAmong(err, n, k);
            && (w > 0 ==> |StatusBytes(FirstDetails(err, w))| <= n)
            && (w < k ==> n < |StatusBytes(FirstDetails(err, w + 1))|)
  {
    hide StatusBytes, FirstDetails;
    if k > 0 && |StatusBytes(FirstDetails(err, k))| > n {
      WholeAmongEnd(err, n, k - 1);
    }
  }

  /** A cut behind the head, inside the field of detail `k`. */
  lemma CutStatus(err: ConnectError, k: nat, n: nat)
    requires WellTyped(err) && |StatusBytes(err)| < U64 && k < |err.details|
    requires |StatusBytes(FirstDetails(err, k))| <= n < |StatusBytes(FirstDetails(err, k + 1))|
    ensures n <= |StatusBytes(err)|
    ensures DecodedDetails(StatusBytes(err)[..n]) == Canonicals(err.details[..k])
  {
    hide DetailBytes, DecodedDetails, Canonicals, Utf8.Valid;
    var h := HeadBytes(err);
    assert HeadBytes(FirstDetails(err, k)) == h && HeadBytes(FirstDetails(err, k + 1)) == h;
    hide HeadBytes;
    CutDetails(err.details, k, n - |h|);
    assert StatusBytes(err)[..n] == h + DetailBytes(err.details)[..n - |h|];
    HeadIsSkipped(err, DetailBytes(err.details)[..n - |h|]);
  }

  /** A cut inside the code and message fields leaves no detail. */
  lemma CutHead(err: ConnectError, n: nat)
    requires WellTyped(err) && |StatusBytes(err)| < U64 && n <= |HeadBytes(err)|
    ensures DecodedDetails(StatusBytes(err)[..n]) == []
  {
    hide DecodedDetails, HeadBytes, DetailBytes;
    var h := HeadBytes(err);
    HeadIsSkipped(err, []);
    assert h + [] == h && StatusBytes(err)[..n] == h[..n];
    NoDetails();
    TruncationMonotone(h[..n], h);
  }

  lemma NoDetails()
    ensures DecodedDetails([]) == [] && Canonicals([]) == [] && DetailBytes([]) == []
  {
  }

  /**
    The details read from the first `n` bytes of an encoded error, wherever they end, are the canonical
    forms of exactly those whose field ends within them.
   */
  lemma TruncatedStatus(err: ConnectError, n: nat)
    requires WellTyped(err) && |StatusBytes(err)| < U64 && n <= |StatusBytes(err)|
    ensures var w := WholeDetails(err, n);
            && (w > 0 ==> |StatusBytes(FirstDetails(err, w))| <= n)
            && (w < |err.details| ==> n < |StatusBytes(FirstDetails(err, w + 1))|)
            && DecodedDetails(StatusBytes(err)[..n]) == Canonicals(err.details[..w])
  {
    hide HeadBytes, DetailBytes, DecodedDetails, Canonicals, WholeAmong;
    var k, h := WholeDetails(err, n), HeadBytes(err);
    WholeAmongEnd(err, n, |err.details|);
    NoDetails();
    if n < |h| {
      HeadFirst(err, k);
      CutHead(err, n);
      assert err.details[..0] == [];
    } else if k < |err.details| {
      HeadAlone(err);
      CutStatus(err, k, n);
    } else {
      assert err.details[..k] == err.details;
      if k == 0 {
        HeadAlone(err);
        assert StatusBytes(err) == h;
      }
      assert FirstDetails(err, k) == err;
      assert StatusBytes(err)[..n] == StatusBytes(err);
      StatusRoundTrip(err);
    }
  }

  /** Whatever details there are, the head comes first. */
  lemma HeadFirst(err: ConnectError, k: nat)
    requires k <= |err.details|
    ensures |HeadBytes(err)| <= |StatusBytes(FirstDetails(err, k))|
  {
    hide DetailBytes;
  }

  lemma HeadAlone(err: ConnectError)
    ensures StatusBytes(FirstDetails(err, 0)) == HeadBytes(err)
    ensures err.details == [] ==> StatusBytes(err) == HeadBytes(err)
  {
    assert err.details[..0] == [] && DetailBytes([]) == [];
    assert HeadBytes(FirstDetails(err, 0)) == HeadBytes(err);
  }

  // ----- Fields the decoders do not know -----------------------------------------------------

  lemma TagIsRead(number: nat, wireType: nat, rest: seq<byte>)
    requires 0 < number < 0x2000_0000 && wireType <= 5
    ensures var tag := EncodeTag(Tag(number, wireType));
            DecodeTag(tag + rest) == Some((Tag(number, wireType), |tag|)) && (tag + rest)[|tag|..] == rest
  {
    hide EncodeTag, DecodeTag;
    DecodeEncodedTag(Tag(number, wireType), rest);
  }

  lemma ParseVarint(number: nat, n: nat, rest: seq<byte>)
    requires 0 < number < 0x2000_0000 && n < U64
    ensures var f := EncodeTag(Tag(number, 0)) + EncodeVarint(n); Parse(f + rest) == Skip(|f|)
  {
    hide EncodeTag, DecodeTag, EncodeVarint, DecodeVarint;
    Associate(EncodeTag(Tag(number, 0)), EncodeVarint(n), rest);
    TagIsRead(number, 0, EncodeVarint(n) + rest);
    DecodeEncoded(n, rest);
  }

  lemma ParseBytes(number: nat, data: seq<byte>, rest: seq<byte>)
    requires 0 < number < 0x2000_0000 && |data| < U64
    ensures var f := EncodeTag(Tag(number, 2)) + EncodeVarint(|data|) + data;
            Parse(f + rest) == Field(number, data, |f|)
  {
    hide EncodeTag, DecodeTag, EncodeVarint, DecodeVarint;
    var tag, len := EncodeTag(Tag(number, 2)), EncodeVarint(|data|);
    assert tag + len + data + rest == tag + (len + (data + rest));
    TagIsRead(number, 2, len + (data + rest));
    DecodeEncoded(|data|, data + rest);
    assert (len + (data + rest))[|len|..|len| + |data|] == data;
  }

  lemma StepOver(f: seq<byte>, rest: seq<byte>)
    requires f != []
    requires var step := Parse(f + rest);
             (step.Skip? || step.Fixed? || (step.Field? && step.number != 3)) && step.len == |f|
    ensures DecodedDetails(f + rest) == DecodedDetails(rest)
  {
    hide Parse, DecodedAny;
    var step := Parse(f + rest);
    DropConcat(f, rest, |f|);
    assert f[|f|..] + rest == rest && f + rest != [];
    if step.Field? {
      assert [] + DecodedDetails(rest) == DecodedDetails(rest);
    }
  }

  lemma FixedIsParsed(number: nat, wireType: nat, body: seq<byte>)
    requires 0 < number < 0x2000_0000 && (wireType == 1 || wireType == 5)
    ensures var tag := EncodeTag(Tag(number, wireType));
            Parse(tag + body) == if wireType == 1 then Fixed(8, |tag| + 8) else Fixed(4, |tag| + 4)
  {
    hide EncodeTag, DecodeTag;
    TagIsRead(number, wireType, body);
  }

  /**
    Fields that a status does not have are stepped over, and the details behind them are found:
    varints, other numbers' bytes, and fields of eight or four bytes.
   */
  lemma UnknownIsSkipped(number: nat, n: nat, data: seq<byte>, rest: seq<byte>)
    requires 0 < number < 0x2000_0000 && n < U64 && |data| < U64
    ensures DecodedDetails(EncodeTag(Tag(number, 0)) + EncodeVarint(n) + rest) == DecodedDetails(rest)
    ensures number != 3 ==>
              DecodedDetails(EncodeTag(Tag(number, 2)) + EncodeVarint(|data|) + data + rest) == DecodedDetails(rest)
    ensures |data| == 8 ==> DecodedDetails(EncodeTag(Tag(number, 1)) + data + rest) == DecodedDetails(rest)
    ensures |data| == 4 ==> DecodedDetails(EncodeTag(Tag(number, 5)) + data + rest) == DecodedDetails(rest)
  {
    hide Parse, EncodeTag, EncodeVarint, DecodedDetails;
    ParseVarint(number, n, rest);
    StepOver(EncodeTag(Tag(number, 0)) + EncodeVarint(n), rest);
    if number != 3 {
      ParseBytes(number, data, rest);
      StepOver(EncodeTag(Tag(number, 2)) + EncodeVarint(|data|) + data, rest);
    }
    if |data| == 8 {
      Associate(EncodeTag(Tag(number, 1)), data, rest);
      FixedIsParsed(number, 1, data + rest);
      StepOver(EncodeTag(Tag(number, 1)) + data, rest);
    }
    if |data| == 4 {
      Associate(EncodeTag(Tag(number, 5)), data, rest);
      FixedIsParsed(number, 5, data + rest);
      StepOver(EncodeTag(Tag(number, 5)) + data, rest);
    }
  }

  /** A group, or what is no tag, ends the search. */
  lemma GroupEndsSearch(
    number: nat, wireType: nat, rest: seq<byte>, typeUrl: Option<seq<byte>>, value: Option<seq<byte>>)
    requires 0 < number < 0x2000_0000 && (wireType == 3 || wireType == 4)
    ensures var s := EncodeTag(Tag(number, wireType)) + rest;
            DecodedDetails(s) == [] && DecodedAny(s, typeUrl, value) == Finish(typeUrl, value)
    ensures DecodeTag(rest) == None && rest != [] ==>
              DecodedDetails(rest) == [] && DecodedAny(rest, typeUrl, value) == None
  {
    hide EncodeTag, DecodeTag, Finish;
    TagIsRead(number, wireType, rest);
    assert EncodeTag(Tag(number, wireType)) + rest != [];
  }

  /**
    Inside an `Any` the last type URL and the last value count, a type URL that is not UTF-8 spoils
    it, other fields are skipped, and a fixed-width field ends the reading.
   */
  lemma AnyRule(number: nat, data: seq<byte>, rest: seq<byte>, typeUrl: Option<seq<byte>>, value: Option<seq<byte>>)
    requires 0 < number < 0x2000_0000 && |data| < U64
    ensures var f := EncodeTag(Tag(number, 2)) + EncodeVarint(|data|) + data;
            DecodedAny(f + rest, typeUrl, value) ==
            if number == 1 then (if Utf8.Valid(data) then DecodedAny(rest, Some(data), value) else None)
            else if number == 2 then DecodedAny(rest, typeUrl, Some(data))
            else DecodedAny(rest, typeUrl, value)
    ensures var f := EncodeTag(Tag(number, 0)) + EncodeVarint(|data|);
            DecodedAny(f + rest, typeUrl, value) == DecodedAny(rest, typeUrl, value)
    ensures |data| == 8 ==>
              DecodedAny(EncodeTag(Tag(number, 1)) + data + rest, typeUrl, value) == Finish(typeUrl, value)
    ensures |data| == 4 ==>
              DecodedAny(EncodeTag(Tag(number, 5)) + data + rest, typeUrl, value) == Finish(typeUrl, value)
    ensures DecodedAny([], typeUrl, value) == Finish(typeUrl, value)
  {
    AnyAfterBytes(number, data, rest, typeUrl, value);
    AnyAfterVarint(number, |data|, rest, typeUrl, value);
    if |data| == 8 {
      AnyAtFixed(number, 1, data + rest, typeUrl, value);
      Associate(EncodeTag(Tag(number, 1)), data, rest);
    }
    if |data| == 4 {
      AnyAtFixed(number, 5, data + rest, typeUrl, value);
      Associate(EncodeTag(Tag(number, 5)), data, rest);
    }
  }

  lemma AnyAfterBytes(
    number: nat, data: seq<byte>, rest: seq<byte>, typeUrl: Option<seq<byte>>, value: Option<seq<byte>>)
    requires 0 < number < 0x2000_0000 && |data| < U64
    ensures var f := EncodeTag(Tag(number, 2)) + EncodeVarint(|data|) + data;
            DecodedAny(f + rest, typeUrl, value) ==
            if number == 1 then (if Utf8.Valid(data) then DecodedAny(rest, Some(data), value) else None)
            else if number == 2 then DecodedAny(rest, typeUrl, Some(data))
            else DecodedAny(rest, typeUrl, value)
  {
    hide Parse, EncodeTag, EncodeVarint, Utf8.Valid, Finish;
    var f := EncodeTag(Tag(number, 2)) + EncodeVarint(|data|) + data;
    ParseBytes(number, data, rest);
    DropConcat(f, rest, |f|);
    assert f[|f|..] + rest == rest;
  }

  lemma AnyAfterVarint(number: nat, n: nat, rest: seq<byte>, typeUrl: Option<seq<byte>>, value: Option<seq<byte>>)
    requires 0 < number < 0x2000_0000 && n < U64
    ensures var f := EncodeTag(Tag(number, 0)) + EncodeVarint(n);
            DecodedAny(f + rest, typeUrl, value) == DecodedAny(rest, typeUrl, value)
  {
    hide Parse, EncodeTag, EncodeVarint, Utf8.Valid, Finish;
    var f := EncodeTag(Tag(number, 0)) + EncodeVarint(n);
    ParseVarint(number, n, rest);
    DropConcat(f, rest, |f|);
    assert f[|f|..] + rest == rest;
  }

  lemma AnyAtFixed(number: nat, wireType: nat, body: seq<byte>, typeUrl: Option<seq<byte>>, value: Option<seq<byte>>)
    requires 0 < number < 0x2000_0000 && (wireType == 1 || wireType == 5)
    ensures DecodedAny(EncodeTag(Tag(number, wireType)) + body, typeUrl, value) == Finish(typeUrl, value)
  {
    hide EncodeTag, DecodeTag, Finish, Utf8.Valid;
    TagIsRead(number, wireType, body);
    assert EncodeTag(Tag(number, wireType)) + body != [];
  }
}
