/**
  The `google.rpc.Status` codec of connectrpc/src/grpc_status.rs: a byte-buffer encoder and two
  cursor-driven decoders, proved against functions on byte strings.
 */
module GrpcStatus {
  import opened Options
  import opened Sequences
  import opened Wire
  import Base64
  import Utf8

  // ----- Data --------------------------------------------------------------------------------

  /** Strings are their UTF-8 bytes; `debug` is a JSON document the codec never looks at. */
  datatype ErrorDetail = ErrorDetail(typeUrl: seq<byte>, value: Option<seq<byte>>, debug: Option<seq<byte>>)

  datatype ConnectError = ConnectError(code: nat, message: Option<seq<byte>>, details: seq<ErrorDetail>)

  const SLASH: byte := 0x2F

  /** "type.googleapis.com/" */
  const URL_PREFIX: seq<byte> :=
    [0x74, 0x79, 0x70, 0x65, 0x2E, 0x67, 0x6F, 0x6F, 0x67, 0x6C, 0x65,
     0x61, 0x70, 0x69, 0x73, 0x2E, 0x63, 0x6F, 0x6D, 0x2F]

  function Ascii(s: string): (r: seq<byte>)
    ensures |r| == |s| && forall i :: 0 <= i < |s| ==> s[i] < 128 as char ==> r[i] == s[i] as int
  {
    seq(|s|, i requires 0 <= i < |s| => if s[i] < 128 as char then s[i] as int else 0)
  }

  /** What Rust's types guarantee: codes are the gRPC ones and type URLs are UTF-8. */
  ghost predicate WellTyped(err: ConnectError) {
    && err.code <= 16
    && forall d :: d in err.details ==> Utf8.Valid(d.typeUrl)
  }

  // ----- Encoding ----------------------------------------------------------------------------

  /** A bare type name gets the standard `Any` prefix. */
  function FullUrl(typeUrl: seq<byte>): seq<byte> {
    if SLASH in typeUrl then typeUrl else URL_PREFIX + typeUrl
  }

  /** The bytes of a detail value; empty when it is absent or not base64. */
  function ValueBytes(value: Option<seq<byte>>): seq<byte> {
    if value.Some? && Base64.DecodeLenient(value.value).Some? then Base64.DecodeLenient(value.value).value else []
  }

  function AnyBytes(d: ErrorDetail): seq<byte> {
    BytesField(1, FullUrl(d.typeUrl)) +
    (if d.value.Some? && Base64.DecodeLenient(d.value.value).Some?
     then BytesField(2, Base64.DecodeLenient(d.value.value).value) else [])
  }

  function DetailBytes(ds: seq<ErrorDetail>): seq<byte> {
    if ds == [] then [] else BytesField(3, AnyBytes(ds[0])) + DetailBytes(ds[1..])
  }

  /** The code and message fields. */
  function HeadBytes(err: ConnectError): seq<byte> {
    EncodeTag(Tag(1, 0)) + EncodeVarint(err.code) +
    (if err.message.Some? then BytesField(2, err.message.value) else [])
  }

  function StatusBytes(err: ConnectError): seq<byte> {
    HeadBytes(err) + DetailBytes(err.details)
  }

  method WriteBytesField(buf: seq<byte>, field: nat, data: seq<byte>) returns (buf': seq<byte>)
    ensures buf' == buf + BytesField(field, data)
  {
    buf' := buf + EncodeTag(Tag(field, 2));
    buf' := buf' + EncodeVarint(|data|);
    buf' := buf' + data;
  }

  /** The message holds this type URL as its field 1 and, if there is a value, that as its field 2. */
  ghost predicate SaysAny(s: seq<byte>, url: seq<byte>, value: Option<seq<byte>>) {
    && Parse(s).Field? && Parse(s).number == 1 && Parse(s).data == url
    && var rest := s[Parse(s).len..];
    && if value.None? then rest == [] else Parse(rest) == Field(2, value.value, |rest|)
  }

  /** The message holds this code as its field 1 and, if there is a text, that as its field 2. */
  ghost predicate SaysHead(s: seq<byte>, code: nat, message: Option<seq<byte>>) {
    && s != [] && s[0] == 0x08
    && DecodeTag(s).Some? && DecodeTag(s).value.0 == Tag(1, 0)
    && var body := s[DecodeTag(s).value.1..];
    && DecodeVarint(body).Some? && DecodeVarint(body).value.0 == code
    && var rest := body[DecodeVarint(body).value.1..];
    && (message.Some? ==> Parse(rest).Field? && Parse(rest).number == 2 && Parse(rest).data == message.value)
    && (message.None? && rest != [] ==> Parse(rest).Field? && Parse(rest).number == 3)
  }

  lemma AnyIsSaid(typeUrl: seq<byte>, value: Option<seq<byte>>)
    requires |AnyBytes(ErrorDetail(typeUrl, value, None))| < U64
    ensures SaysAny(
              AnyBytes(ErrorDetail(typeUrl, value, None)),
              if Ascii("/")[0] in typeUrl then typeUrl else Ascii("type.googleapis.com/") + typeUrl,
              if value.Some? then Base64.DecodeLenient(value.value) else None)
  {
    hide Parse, BytesField, Base64.DecodeLenient;
    PrefixSpelled();
    var url := FullUrl(typeUrl);
    var decoded := if value.Some? then Base64.DecodeLenient(value.value) else None;
    var f := BytesField(1, url);
    var rest := if decoded.Some? then BytesField(2, decoded.value) else [];
    FieldLonger(1, url);
    assert AnyBytes(ErrorDetail(typeUrl, value, None)) == f + rest;
    ParseBytesField(1, url, rest);
    assert (f + rest)[|f|..] == rest;
    if decoded.Some? {
      FieldLonger(2, decoded.value);
      ParseBytesField(2, decoded.value, []);
      assert rest + [] == rest;
    }
  }

  lemma PrefixSpelled()
    ensures Ascii("type.googleapis.com/") == URL_PREFIX && Ascii("/") == [SLASH]
  {
  }

  lemma FieldLonger(number: nat, data: seq<byte>)
    ensures |data| < |BytesField(number, data)|
  {
  }

  lemma SaidInOrder(
    s: seq<byte>, tag: seq<byte>, v: seq<byte>, rest: seq<byte>, code: nat, message: Option<seq<byte>>)
    requires s == tag + (v + rest) && tag == [0x08]
    requires DecodeTag(s) == Some((Tag(1, 0), |tag|)) && DecodeVarint(v + rest) == Some((code, |v|))
    requires message.Some? ==> Parse(rest).Field? && Parse(rest).number == 2 && Parse(rest).data == message.value
    requires message.None? && rest != [] ==> Parse(rest).Field? && Parse(rest).number == 3
    ensures SaysHead(s, code, message)
  {
    hide Parse, DecodeVarint, DecodeTag;
    DropConcat(tag, v + rest, |tag|);
    DropConcat(v, rest, |v|);
    assert tag[|tag|..] + (v + rest) == v + rest && v[|v|..] + rest == rest;
  }

  lemma HeadIsSaid(err: ConnectError)
    requires err.code < U64 && |StatusBytes(err)| < U64
    ensures SaysHead(StatusBytes(err), err.code, err.message)
  {
    hide Parse, BytesField, EncodeTag, EncodeVarint, DecodeVarint, DecodeTag, DetailBytes, SaysHead;
    var tag, v := EncodeTag(Tag(1, 0)), EncodeVarint(err.code);
    var m := if err.message.Some? then BytesField(2, err.message.value) else [];
    var ds := DetailBytes(err.details);
    Associate(tag, v, m);
    Associate(tag + v, m, ds);
    Associate(tag, v, m + ds);
    CodeTagIsOneByte();
    DecodeEncodedTag(Tag(1, 0), v + (m + ds));
    DecodeEncoded(err.code, m + ds);
    MessageIsSaid(err.message, m, err.details);
    SaidInOrder(StatusBytes(err), tag, v, m + ds, err.code, err.message);
  }

  lemma MessageIsSaid(message: Option<seq<byte>>, m: seq<byte>, details: seq<ErrorDetail>)
    requires m == if message.Some? then BytesField(2, message.value) else []
    requires |m + DetailBytes(details)| < U64
    ensures var rest := m + DetailBytes(details);
            && (message.Some? ==> Parse(rest).Field? && Parse(rest).number == 2 && Parse(rest).data == message.value)
            && (message.None? && rest != [] ==> Parse(rest).Field? && Parse(rest).number == 3)
  {
    hide Parse, BytesField, DetailBytes;
    var ds := DetailBytes(details);
    if message.Some? {
      FieldLonger(2, message.value);
      ParseBytesField(2, message.value, ds);
    } else {
      assert m + ds == ds;
      if ds != [] {
        DetailsAreSaid(details);
      }
    }
  }

  lemma CodeTagIsOneByte()
    ensures EncodeTag(Tag(1, 0)) == [0x08]
  {
  }

  lemma DetailsAreSaid(ds: seq<ErrorDetail>)
    requires DetailBytes(ds) != [] && |DetailBytes(ds)| < U64
    ensures var step := Parse(DetailBytes(ds)); step.Field? && step.number == 3
  {
    hide Parse, BytesField, AnyBytes;
    FieldLonger(3, AnyBytes(ds[0]));
    ParseBytesField(3, AnyBytes(ds[0]), DetailBytes(ds[1..]));
  }

  method EncodeAny(typeUrl: seq<byte>, value: Option<seq<byte>>) returns (buf: seq<byte>)
    ensures forall debug :: buf == AnyBytes(ErrorDetail(typeUrl, value, debug))
    ensures |buf| < U64 ==>
              SaysAny(
                buf, if Ascii("/")[0] in typeUrl then typeUrl else Ascii("type.googleapis.com/") + typeUrl,
                if value.Some? then Base64.DecodeLenient(value.value) else None)
  {
    hide Base64.DecodeLenient, BytesField, Parse, Ascii;
    if |AnyBytes(ErrorDetail(typeUrl, value, None))| < U64 {
      AnyIsSaid(typeUrl, value);
    }
    buf := [];
    if SLASH in typeUrl {
      buf := WriteBytesField(buf, 1, typeUrl);
    } else {
      buf := WriteBytesField(buf, 1, URL_PREFIX + typeUrl);
    }
    if value.Some? {
      var decoded := Base64.DecodeLenient(value.value);
      if decoded.Some? {
        buf := WriteBytesField(buf, 2, decoded.value);
      }
    }
  }

  method Encode(err: ConnectError) returns (buf: seq<byte>)
    ensures buf == StatusBytes(err)
    ensures err.code < U64 && |buf| < U64 ==> SaysHead(buf, err.code, err.message)
  {
    if err.code < U64 && |StatusBytes(err)| < U64 {
      HeadIsSaid(err);
    }
    hide SaysHead, DetailBytes;
    buf := EncodeTag(Tag(1, 0));
    buf := buf + EncodeVarint(err.code);
    if err.message.Some? {
      buf := WriteBytesField(buf, 2, err.message.value);
    }
    assert buf == HeadBytes(err);
    buf := WriteDetails(buf, err.details);
  }

  method WriteDetails(buf: seq<byte>, details: seq<ErrorDetail>) returns (buf': seq<byte>)
    ensures buf' == buf + DetailBytes(details)
  {
    hide BytesField, AnyBytes, SaysAny, Ascii;
    buf' := buf;
    assert details[0..] == details;
    for i := 0 to |details|
      invariant buf' + DetailBytes(details[i..]) == buf + DetailBytes(details)
    {
      assert details[i..][1..] == details[i + 1..];
      var any := EncodeAny(details[i].typeUrl, details[i].value);
      assert any == AnyBytes(details[i]);
      Associate(buf', BytesField(3, any), DetailBytes(details[i + 1..]));
      buf' := WriteBytesField(buf', 3, any);
    }
    assert buf' + [] == buf';
  }

  // ----- Decoding ----------------------------------------------------------------------------

  /** One field at the head of a buffer, as far as the decoders tell fields apart. */
  datatype Step =
    | BadTag
    | BadBody(tag: Tag)
    | Short(tag: Tag)
    | Skip(len: nat)
    | Field(number: nat, data: seq<byte>, len: nat)
    | Fixed(width: nat, len: nat)
    | Group

  function Parse(s: seq<byte>): (r: Step)
    ensures r.Skip? || r.Field? || r.Fixed? ==> 0 < r.len
    ensures r.Skip? || r.Field? ==> r.len <= |s|
    ensures r.Field? ==> |r.data| < r.len
  {
    match DecodeTag(s)
    case None => BadTag
    case Some((tag, k)) =>
      var rest := s[k..];
      match tag.wireType
      case 0 => (
        match DecodeVarint(rest)
        case None => BadBody(tag)
        case Some((_, j)) => Skip(k + j))
      case 2 => (
        match DecodeVarint(rest)
        case None => BadBody(tag)
        case Some((n, j)) =>
          if |rest| - j < n then Short(tag) else Field(tag.field, rest[j..j + n], k + j + n))
      case 1 => Fixed(8, k + 8)
      case 5 => Fixed(4, k + 4)
      case _ => Group
  }

  // ----- One field ---------------------------------------------------------------------------

  lemma ParseBytesField(number: nat, data: seq<byte>, rest: seq<byte>)
    requires 1 <= number <= 15 && |data| < U64
    ensures Parse(BytesField(number, data) + rest) == Field(number, data, |BytesField(number, data)|)
  {
    hide EncodeTag, EncodeVarint, DecodeTag, DecodeVarint;
    var tag, len := EncodeTag(Tag(number, 2)), EncodeVarint(|data|);
    var s := BytesField(number, data) + rest;
    assert s == tag + (len + (data + rest));
    DecodeEncodedTag(Tag(number, 2), len + (data + rest));
    assert s[|tag|..] == len + (data + rest);
    DecodeEncoded(|data|, data + rest);
    assert (len + (data + rest))[|len|..|len| + |data|] == data;
  }

  lemma ParseCode(code: nat, rest: seq<byte>)
    requires code < U64
    ensures var f := EncodeTag(Tag(1, 0)) + EncodeVarint(code); Parse(f + rest) == Skip(|f|)
  {
    hide EncodeTag, EncodeVarint, DecodeTag, DecodeVarint;
    var tag, v := EncodeTag(Tag(1, 0)), EncodeVarint(code);
    assert tag + v + rest == tag + (v + rest);
    DecodeEncodedTag(Tag(1, 0), v + rest);
    assert (tag + (v + rest))[|tag|..] == v + rest;
    DecodeEncoded(code, rest);
  }

  // ----- Details -----------------------------------------------------------------------------

  /** The detail an `Any` stands for, once its last type URL and value are known. */
  function Finish(typeUrl: Option<seq<byte>>, value: Option<seq<byte>>): Option<ErrorDetail> {
    if typeUrl.None? then None
    else Some(ErrorDetail(typeUrl.value, Some(Base64.Encode(if value.Some? then value.value else [])), None))
  }

  function DecodedAny(s: seq<byte>, typeUrl: Option<seq<byte>>, value: Option<seq<byte>>): Option<ErrorDetail>
    decreases |s|
  {
    if s == [] then Finish(typeUrl, value)
    else
      match Parse(s)
      case BadTag => None
      case BadBody(_) => None
      case Short(_) => Finish(typeUrl, value)
      case Fixed(_, _) => Finish(typeUrl, value)
      case Group => Finish(typeUrl, value)
      case Skip(n) => DecodedAny(s[n..], typeUrl, value)
      case Field(number, data, n) =>
        if number == 1 then (if Utf8.Valid(data) then DecodedAny(s[n..], Some(data), value) else None)
        else if number == 2 then DecodedAny(s[n..], typeUrl, Some(data))
        else DecodedAny(s[n..], typeUrl, value)
  }

  /** What one length-delimited field of a status contributes. */
  function FieldDetails(number: nat, data: seq<byte>): seq<ErrorDetail> {
    if number == 3 && DecodedAny(data, None, None).Some? then [DecodedAny(data, None, None).value] else []
  }

  /** The details found in a status message; anything malformed ends the search. */
  function DecodedDetails(s: seq<byte>): seq<ErrorDetail>
    decreases |s|
  {
    if s == [] then []
    else
      match Parse(s)
      case Skip(n) => DecodedDetails(s[n..])
      case Fixed(_, n) => if n <= |s| then DecodedDetails(s[n..]) else []
      case Field(number, data, n) =>
        FieldDetails(number, data) + DecodedDetails(s[n..])
      case _ => []
  }

  method DecodeAny(data: seq<byte>) returns (r: Option<ErrorDetail>)
    ensures r == DecodedAny(data, None, None)
  {
    var typeUrl: Option<seq<byte>> := None;
    var value: Option<seq<byte>> := None;
    var buf := data;
    while buf != []
      invariant DecodedAny(buf, typeUrl, value) == DecodedAny(data, None, None)
      decreases |buf|
    {
      hide Parse, Finish;
      var step := Parse(buf);
      match step {
        case BadTag => return None;
        case BadBody(_) => return None;
        case Short(_) => break;
        case Fixed(_, _) => break;
        case Group => break;
        case Skip(n) => buf := buf[n..];
        case Field(number, field, n) =>
          if number == 1 {
            if !Utf8.Valid(field) {
              return None;
            }
            typeUrl := Some(field);
          } else if number == 2 {
            value := Some(field);
          }
          buf := buf[n..];
      }
    }
    r := Finish(typeUrl, value);
  }

  method DecodeDetailField(number: nat, field: seq<byte>) returns (found: seq<ErrorDetail>)
    ensures found == FieldDetails(number, field)
  {
    found := [];
    if number == 3 {
      var detail := DecodeAny(field);
      if detail.Some? {
        found := [detail.value];
      }
    }
  }

  method DecodeDetails(data: seq<byte>) returns (details: seq<ErrorDetail>)
    ensures details == DecodedDetails(data)
  {
    details := [];
    var buf := data;
    while buf != []
      invariant details + DecodedDetails(buf) == DecodedDetails(data)
      decreases |buf|
    {
      hide Parse, FieldDetails;
      var step := Parse(buf);
      match step {
        case Skip(n) =>
          buf := buf[n..];
        case Fixed(_, n) =>
          if n > |buf| {
            break;
          }
          buf := buf[n..];
        case Field(number, field, n) =>
          var found := DecodeDetailField(number, field);
          Associate(details, found, DecodedDetails(buf[n..]));
          details := details + found;
          buf := buf[n..];
        case _ => break;
      }
    }
  }
}
