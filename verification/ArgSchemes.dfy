/** Transport header keys and the argument scheme carried in the headers. */
module ArgSchemes {
  import opened Basics
  import opened Payloads
  import opened PayloadLaws

  /** The schemes that can be parsed back; custom ones cannot. */
  datatype ArgScheme = Raw | Json | Http | Thrift | StreamingThrift

  function Ascii(b: Bytes): (s: Str)
    requires forall i :: 0 <= i < |b| ==> b[i] < 0x80
    ensures s == b
  {
    AsciiIsUtf8(b);
    b
  }

  /** "as" */
  const ARG_SCHEME_KEY: Str := Ascii([97, 115])
  /** "cn" */
  const CALLER_NAME_KEY: Str := Ascii([99, 110])

  /** "raw", "json", "http", "thrift", "sthrift" */
  function SchemeName(s: ArgScheme): (name: Str)
    ensures |name| <= 7
  {
    match s
    case Raw => Ascii([114, 97, 119])
    case Json => Ascii([106, 115, 111, 110])
    case Http => Ascii([104, 116, 116, 112])
    case Thrift => Ascii([116, 104, 114, 105, 102, 116])
    case StreamingThrift => Ascii([115, 116, 104, 114, 105, 102, 116])
  }

  function ParseScheme(name: Str): Result<ArgScheme> {
    if name == SchemeName(Raw) then Ok(Raw)
    else if name == SchemeName(Json) then Ok(Json)
    else if name == SchemeName(Http) then Ok(Http)
    else if name == SchemeName(Thrift) then Ok(Thrift)
    else if name == SchemeName(StreamingThrift) then Ok(StreamingThrift)
    else Err(CodecError)
  }

  lemma SchemeRoundTrip(s: ArgScheme)
    ensures ParseScheme(SchemeName(s)) == Ok(s)
  {
    hide IsUtf8;
    assert SchemeName(Raw)[0] == 114 && SchemeName(Json)[0] == 106 && SchemeName(Http)[0] == 104;
    assert SchemeName(Thrift)[0] == 116 && SchemeName(StreamingThrift)[0] == 115;
  }

  /** `get_args_scheme`, and with `expected` the check of `ArgSchemeChecker`. */
  function CheckScheme(headers: Headers, expected: Option<ArgScheme>): Result<ArgScheme> {
    if ARG_SCHEME_KEY !in headers then Err(CodecError)
    else
      var scheme :- ParseScheme(headers[ARG_SCHEME_KEY]);
      if expected.Some? && scheme != expected.value then Err(CodecError) else Ok(scheme)
  }

  /** Refused schemes: the "as" header is missing, its value is none of the five names, or it
      names another scheme than the one expected. */
  lemma SchemeRefusedIff(headers: Headers, expected: Option<ArgScheme>)
    ensures CheckScheme(headers, expected).Err? <==>
              || [97, 115] !in headers
              || (forall s :: headers[[97, 115]] != SchemeName(s))
              || (expected.Some? && headers[[97, 115]] != SchemeName(expected.value))
    ensures CheckScheme(headers, expected).Err? ==> CheckScheme(headers, expected) == Err(CodecError)
    ensures CheckScheme(headers, expected).Ok? ==>
              headers[[97, 115]] == SchemeName(CheckScheme(headers, expected).value)
  {
    hide IsUtf8, SchemeName;
    if [97, 115] in headers {
      if s :| headers[[97, 115]] == SchemeName(s) {
        SchemeRoundTrip(s);
      }
    }
    if expected.Some? {
      SchemeRoundTrip(expected.value);
    }
  }

  /** The scheme names, as text. */
  lemma SchemeNamesAsText(s: ArgScheme)
    ensures AsText(SchemeName(s)) == match s
                                     case Raw => "raw"
                                     case Json => "json"
                                     case Http => "http"
                                     case Thrift => "thrift"
                                     case StreamingThrift => "sthrift"
  {
    hide IsUtf8;
  }

  /** ASCII bytes as characters. */
  function AsText(b: Bytes): string {
    seq(|b|, i requires 0 <= i < |b| => b[i] as char)
  }

  /** The headers of an outgoing call. */
  function CallHeaders(service: Str, scheme: ArgScheme): (h: Headers)
    ensures ARG_SCHEME_KEY in h && h[ARG_SCHEME_KEY] == SchemeName(scheme)
    ensures |h| == 2
  {
    assert ARG_SCHEME_KEY[0] != CALLER_NAME_KEY[0];
    map[ARG_SCHEME_KEY := SchemeName(scheme), CALLER_NAME_KEY := service]
  }

  const NO_TRACING := Tracing(0, 0, 0, 0)
  const DEFAULT_TTL: uint32 := 60_000

  function OutgoingRequest(service: Str, scheme: ArgScheme): Fields {
    RequestFields(DEFAULT_TTL, NO_TRACING, service, CallHeaders(service, scheme))
  }

  function OutgoingResponse(code: ResponseCode, service: Str, scheme: ArgScheme): Fields {
    ResponseFields(code, NO_TRACING, CallHeaders(service, scheme))
  }

  lemma PairsOfTwo(headers: Headers, order: seq<Str>)
    requires |order| == 2 && forall i :: 0 <= i < |order| ==> order[i] in headers
    ensures var parts := [order[0], headers[order[0]], order[1], headers[order[1]]];
            && (EncodePairs(headers, order).Ok? <==> forall i :: 0 <= i < 4 ==> |parts[i]| <= 0xFF)
            && (EncodePairs(headers, order).Ok? ==>
                  |EncodePairs(headers, order).value| == 4 + |parts[0]| + |parts[1]| + |parts[2]| + |parts[3]|)
  {
    hide IsUtf8;
    var parts := [order[0], headers[order[0]], order[1], headers[order[1]]];
    assert parts[0] == order[0] && parts[1] == headers[order[0]];
    assert parts[2] == order[1] && parts[3] == headers[order[1]];
    var last := order[1..];
    assert last[0] == order[1] && last[1..] == [];
    assert EncodePairs(headers, []) == Ok([]);
    assert EncodePairs(headers, last).Ok? <==> |parts[2]| <= 0xFF && |parts[3]| <= 0xFF;
    assert EncodePairs(headers, last).Ok? ==> |EncodePairs(headers, last).value| == 2 + |parts[2]| + |parts[3]|;
    assert EncodePairs(headers, order).Ok? <==>
             |parts[0]| <= 0xFF && |parts[1]| <= 0xFF && EncodePairs(headers, last).Ok?;
  }

  lemma CallHeadersLength(service: Str, scheme: ArgScheme, order: seq<Str>)
    requires Enumerates(order, CallHeaders(service, scheme))
    ensures EncodeSmallHeaders(CallHeaders(service, scheme), order).Ok? <==> |service| <= 0xFF
    ensures EncodeSmallHeaders(CallHeaders(service, scheme), order).Ok? ==>
              |EncodeSmallHeaders(CallHeaders(service, scheme), order).value| == 9 + |SchemeName(scheme)| + |service|
  {
    hide EncodePairs, SchemeName, Ascii, IsUtf8;
    var h := CallHeaders(service, scheme);
    EnumerationLength(order, h.Keys);
    PairsOfTwo(h, order);
    assert order[0] in h && order[1] in h && order[0] != order[1];
    var parts := [order[0], h[order[0]], order[1], h[order[1]]];
    assert |parts[0]| == 2 && |parts[2]| == 2;
    assert |parts[1]| + |parts[3]| == |SchemeName(scheme)| + |service|;
    assert (parts[1] == service && parts[3] == SchemeName(scheme)) || (parts[3] == service && parts[1] == SchemeName(scheme));
  }

  /** Length of the encoded fields of an outgoing call, whatever the header order. */
  function RequestFieldsLength(service: Str, scheme: ArgScheme): nat {
    39 + 2 * |service| + |SchemeName(scheme)|
  }

  function ResponseFieldsLength(service: Str, scheme: ArgScheme): nat {
    35 + |service| + |SchemeName(scheme)|
  }

  /** The fields of an outgoing call fail to encode exactly when the service name is longer than
      255 bytes, and are small otherwise: the limit of the first frame cannot underflow and
      always leaves room for arguments. */
  lemma OutgoingRequestIsSmall(service: Str, scheme: ArgScheme, order: seq<Str>)
    requires Enumerates(order, CallHeaders(service, scheme))
    ensures var e := EncodeFields(OutgoingRequest(service, scheme), order);
            && (e.Ok? <==> |service| <= 0xFF)
            && (e.Ok? ==> |e.value| == RequestFieldsLength(service, scheme) <= 556)
            && e != Err(Panic)
  {
    hide EncodeSmallHeaders, EncodeTracing, U32, SchemeName;
    CallHeadersLength(service, scheme, order);
    EncodeHeadersFailure(CallHeaders(service, scheme), order);
  }

  lemma OutgoingResponseIsSmall(code: ResponseCode, service: Str, scheme: ArgScheme, order: seq<Str>)
    requires Enumerates(order, CallHeaders(service, scheme))
    ensures var e := EncodeFields(OutgoingResponse(code, service, scheme), order);
            && (e.Ok? <==> |service| <= 0xFF)
            && (e.Ok? ==> |e.value| == ResponseFieldsLength(service, scheme) <= 297)
            && e != Err(Panic)
  {
    hide EncodeSmallHeaders, EncodeTracing, SchemeName;
    CallHeadersLength(service, scheme, order);
    EncodeHeadersFailure(CallHeaders(service, scheme), order);
  }

  lemma {:induction false} EncodePairsFailure(headers: Headers, order: seq<Str>)
    requires forall i :: 0 <= i < |order| ==> order[i] in headers
    ensures EncodePairs(headers, order) != Err(Panic)
    decreases |order|
  {
    if order != [] {
      EncodePairsFailure(headers, order[1..]);
    }
  }

  lemma EncodeHeadersFailure(headers: Headers, order: seq<Str>)
    requires forall i :: 0 <= i < |order| ==> order[i] in headers
    ensures EncodeSmallHeaders(headers, order) != Err(Panic)
  {
    hide EncodePairs;
    EncodePairsFailure(headers, order);
  }

  /** What the fragmenter puts in front of the arguments: a time to live of a minute, empty
      tracing, and the scheme and caller headers and no others. */
  lemma OutgoingCalls(code: ResponseCode, service: Str, scheme: ArgScheme)
    ensures OutgoingRequest(service, scheme).ttl == 60000
    ensures OutgoingRequest(service, scheme).service == service
    ensures OutgoingResponse(code, service, scheme).code == code
    ensures forall f :: f == OutgoingRequest(service, scheme) || f == OutgoingResponse(code, service, scheme) ==>
              && f.tracing == Tracing(0, 0, 0, 0)
              && f.headers.Keys == {[97, 115], [99, 110]}
              && f.headers[[97, 115]] == SchemeName(scheme)
              && f.headers[[99, 110]] == service
  {
    hide SchemeName, IsUtf8;
    var h := CallHeaders(service, scheme);
    var a: Bytes, c: Bytes := [97, 115], [99, 110];
    assert ARG_SCHEME_KEY == a && CALLER_NAME_KEY == c;
  }
}
