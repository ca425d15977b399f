/** Call payloads as byte strings: what each codec writes and what it reads back. */
module Payloads {
  import opened Basics
  import opened Frames

  const MAX_FRAME_ARGS := 3
  /** The longest payload `encode_args` lets through. */
  const MAX_PAYLOAD := FRAME_MAX_LENGTH - FRAME_HEADER_LENGTH

  /** One argument position of one frame; an empty argument is `None`. */
  type Slot = Option<Bytes>

  type Flags = x: uint8 | x < 4
  const NO_FLAGS: Flags := 0x00
  const MORE_FRAGMENTS_FOLLOW: Flags := 0x01

  predicate HasMore(flags: Flags) { flags % 2 == 1 }

  type TraceFlags = x: uint8 | x < 2

  datatype Tracing = Tracing(spanId: uint64, parentId: uint64, traceId: uint64, traceFlags: TraceFlags)

  datatype ChecksumType = NoChecksum | Crc32 | Farmhash | Crc32C

  datatype ResponseCode = ResponseOk | ResponseError

  type Headers = map<Str, Str>

  /** The fields in front of the arguments of a `call req` and of a `call res`. */
  datatype Fields =
    | RequestFields(ttl: uint32, tracing: Tracing, service: Str, headers: Headers)
    | ResponseFields(code: ResponseCode, tracing: Tracing, headers: Headers)

  datatype Kind = Request | Response

  function KindOf(f: Fields): Kind { if f.RequestFields? then Request else Response }

  /** Type of a message's first frame, and of its later ones. */
  function FirstType(kind: Kind): FrameType { if kind.Request? then CallRequest else CallResponse }

  function ContinueType(kind: Kind): FrameType {
    if kind.Request? then CallRequestContinue else CallResponseContinue
  }

  datatype CallArgs = CallArgs(checksumType: ChecksumType, checksum: Option<uint32>, args: seq<Slot>)

  datatype Call = Call(flags: Flags, fields: Fields, args: CallArgs)

  datatype CallContinue = CallContinue(flags: Flags, args: CallArgs)

  // Strings and headers

  function EncodeSmallString(s: Str): Result<Bytes> {
    if |s| > 0xFF then Err(CodecError) else Ok([|s|] + s)
  }

  /** `order` is one of the orders in which a hash map may enumerate its keys. */
  ghost predicate Enumerates(order: seq<Str>, headers: Headers) {
    && (forall i :: 0 <= i < |order| ==> order[i] in headers)
    && (forall k :: k in headers ==> k in order)
    && (forall i, j :: 0 <= i < j < |order| ==> order[i] != order[j])
  }

  function EncodePairs(headers: Headers, order: seq<Str>): Result<Bytes>
    requires forall i :: 0 <= i < |order| ==> order[i] in headers
  {
    if order == [] then Ok([])
    else
      var key :- EncodeSmallString(order[0]);
      var value :- EncodeSmallString(headers[order[0]]);
      var rest :- EncodePairs(headers, order[1..]);
      Ok(key + value + rest)
  }

  function EncodeSmallHeaders(headers: Headers, order: seq<Str>): Result<Bytes>
    requires forall i :: 0 <= i < |order| ==> order[i] in headers
  {
    if |headers| > 0xFF then Err(CodecError)
    else
      var pairs :- EncodePairs(headers, order);
      Ok([|headers|] + pairs)
  }

  function ReadU8(src: Bytes): Result<(uint8, Bytes)> {
    if |src| < 1 then Err(Panic) else Ok((src[0], src[1..]))
  }

  function ReadU32(src: Bytes): Result<(uint32, Bytes)> {
    if |src| < 4 then Err(Panic) else Ok((GetU32(src), src[4..]))
  }

  function ReadU64(src: Bytes): Result<(uint64, Bytes)> {
    if |src| < 8 then Err(Panic) else Ok((GetU64(src), src[8..]))
  }

  function DecodeSmallString(src: Bytes): Result<(Str, Bytes)> {
    var (len, src) :- ReadU8(src);
    if len > |src| then Err(Panic)
    else if !IsUtf8(src[..len]) then Err(CodecError)
    else Ok((src[..len], src[len..]))
  }

  /** Reads `n` pairs into `headers`; a repeated key overwrites. */
  function DecodePairs(n: nat, src: Bytes, headers: Headers): Result<(Headers, Bytes)> {
    if n == 0 then Ok((headers, src))
    else
      var (key, src) :- DecodeSmallString(src);
      var (value, src) :- DecodeSmallString(src);
      DecodePairs(n - 1, src, headers[key := value])
  }

  function DecodeSmallHeaders(src: Bytes): Result<(Headers, Bytes)> {
    var (n, src) :- ReadU8(src);
    DecodePairs(n, src, map[])
  }

  // Tracing and fields

  function EncodeTracing(t: Tracing): (b: Bytes)
    ensures |b| == 25
  {
    U64(t.spanId) + U64(t.parentId) + U64(t.traceId) + [t.traceFlags]
  }

  function DecodeTracing(src: Bytes): Result<(Tracing, Bytes)> {
    var (spanId, src) :- ReadU64(src);
    var (parentId, src) :- ReadU64(src);
    var (traceId, src) :- ReadU64(src);
    var (bits, src) :- ReadU8(src);
    if bits >= 2 then Err(CodecError) else Ok((Tracing(spanId, parentId, traceId, bits), src))
  }

  function CodeByte(c: ResponseCode): uint8 { if c.ResponseOk? then 0x00 else 0x01 }

  function EncodeFields(f: Fields, order: seq<Str>): Result<Bytes>
    requires forall i :: 0 <= i < |order| ==> order[i] in f.headers
  {
    match f
    case RequestFields(ttl, tracing, service, headers) =>
      var serviceBytes :- EncodeSmallString(service);
      var headerBytes :- EncodeSmallHeaders(headers, order);
      Ok(U32(ttl) + EncodeTracing(tracing) + serviceBytes + headerBytes)
    case ResponseFields(code, tracing, headers) =>
      var headerBytes :- EncodeSmallHeaders(headers, order);
      Ok([CodeByte(code)] + EncodeTracing(tracing) + headerBytes)
  }

  function DecodeFields(kind: Kind, src: Bytes): Result<(Fields, Bytes)> {
    match kind
    case Request =>
      var (ttl, src) :- ReadU32(src);
      var (tracing, src) :- DecodeTracing(src);
      var (service, src) :- DecodeSmallString(src);
      var (headers, src) :- DecodeSmallHeaders(src);
      Ok((RequestFields(ttl, tracing, service, headers), src))
    case Response =>
      var (code, src) :- ReadU8(src);
      if code >= 2 then Err(CodecError)
      else
        var (tracing, src) :- DecodeTracing(src);
        var (headers, src) :- DecodeSmallHeaders(src);
        Ok((ResponseFields(if code == 0 then ResponseOk else ResponseError, tracing, headers), src))
  }

  // Checksum and arguments

  function ChecksumCode(t: ChecksumType): uint8 {
    match t
    case NoChecksum => 0x00
    case Crc32 => 0x01
    case Farmhash => 0x02
    case Crc32C => 0x03
  }

  function EncodeChecksum(t: ChecksumType, value: Option<uint32>): Result<Bytes> {
    if t.NoChecksum? then Ok([ChecksumCode(t)])
    else if value.None? then Err(CodecError)
    else Ok([ChecksumCode(t)] + U32(value.value))
  }

  function DecodeChecksum(src: Bytes): Result<((ChecksumType, Option<uint32>), Bytes)> {
    var (code, src) :- ReadU8(src);
    if code == 0 then Ok(((NoChecksum, None), src))
    else if code > 3 then Err(CodecError)
    else
      var (value, src) :- ReadU32(src);
      Ok(((if code == 1 then Crc32 else if code == 2 then Farmhash else Crc32C, Some(value)), src))
  }

  function SlotBytes(slot: Slot): Bytes {
    match slot
    case None => U16(0)
    case Some(arg) => U16(AsU16(|arg|)) + arg
  }

  function SlotsBytes(slots: seq<Slot>): Bytes {
    if slots == [] then [] else SlotBytes(slots[0]) + SlotsBytes(slots[1..])
  }

  /** `encode_args` on a destination that already holds `before` bytes. */
  function EncodeArgs(before: nat, slots: seq<Slot>): Result<Bytes> {
    if |slots| == 0 || |slots| > MAX_FRAME_ARGS then Err(CodecError)
    else if before + |SlotsBytes(slots)| > MAX_PAYLOAD then Err(CodecError)
    else Ok(SlotsBytes(slots))
  }

  function DecodeArg(src: Bytes): Result<(Slot, Bytes)> {
    if |src| < 2 then Err(CodecError)
    else
      var len := GetU16(src);
      if len == 0 then Ok((None, src[2..]))
      else if AsU16(|src|) < 2 then Err(Panic)
      else if len > AsU16(|src|) - 2 then Err(CodecError)
      else Ok((Some(src[2..2 + len]), src[2 + len..]))
  }

  function DecodeSlots(src: Bytes, max: nat): Result<seq<Slot>>
    decreases max
  {
    if src == [] then Ok([])
    else if max == 0 then Err(CodecError)
    else
      var (slot, src) :- DecodeArg(src);
      var rest :- DecodeSlots(src, max - 1);
      Ok([slot] + rest)
  }

  /** `decode_args`: it consumes everything or fails. */
  function DecodeArgs(src: Bytes): Result<seq<Slot>> {
    if src == [] then Err(CodecError) else DecodeSlots(src, MAX_FRAME_ARGS)
  }

  function EncodeCallArgs(before: nat, a: CallArgs): Result<Bytes> {
    var checksum :- EncodeChecksum(a.checksumType, a.checksum);
    var args :- EncodeArgs(before + |checksum|, a.args);
    Ok(checksum + args)
  }

  function DecodeCallArgs(src: Bytes): Result<CallArgs> {
    var (checksum, src) :- DecodeChecksum(src);
    var args :- DecodeArgs(src);
    Ok(CallArgs(checksum.0, checksum.1, args))
  }

  // Calls

  function EncodeCall(c: Call, order: seq<Str>): Result<Bytes>
    requires forall i :: 0 <= i < |order| ==> order[i] in c.fields.headers
  {
    var fields :- EncodeFields(c.fields, order);
    var args :- EncodeCallArgs(1 + |fields|, c.args);
    Ok([c.flags] + fields + args)
  }

  function DecodeFlags(src: Bytes): Result<(Flags, Bytes)> {
    var (bits, src) :- ReadU8(src);
    if bits >= 4 then Err(CodecError) else Ok((bits, src))
  }

  function DecodeCall(kind: Kind, src: Bytes): Result<Call> {
    var (flags, src) :- DecodeFlags(src);
    var (fields, src) :- DecodeFields(kind, src);
    var args :- DecodeCallArgs(src);
    Ok(Call(flags, fields, args))
  }

  /** The first frame as the fragmenter writes it, from fields that are already bytes. */
  function EncodeWithFields(flags: Flags, fields: Bytes, a: CallArgs): Result<Bytes> {
    var args :- EncodeCallArgs(1 + |fields|, a);
    Ok([flags] + fields + args)
  }

  function EncodeContinue(c: CallContinue): Result<Bytes> {
    var args :- EncodeCallArgs(1, c.args);
    Ok([c.flags] + args)
  }

  function DecodeContinue(src: Bytes): Result<CallContinue> {
    var (flags, src) :- DecodeFlags(src);
    var args :- DecodeCallArgs(src);
    Ok(CallContinue(flags, args))
  }
}

/** The payload codecs are inverse to each other. */
module PayloadLaws {
  import opened Basics
  import opened Frames
  import opened Payloads

  lemma SmallStringRoundTrip(s: Str, tail: Bytes)
    requires EncodeSmallString(s).Ok?
    ensures DecodeSmallString(EncodeSmallString(s).value + tail) == Ok((s, tail))
  {
    var all := EncodeSmallString(s).value + tail;
    assert all[1..] == s + tail;
    assert (s + tail)[..|s|] == s && (s + tail)[|s|..] == tail;
  }

  function Restrict(headers: Headers, order: seq<Str>): Headers
    requires forall i :: 0 <= i < |order| ==> order[i] in headers
  {
    map k | k in order :: headers[k]
  }

  lemma RestrictCons(headers: Headers, order: seq<Str>, acc: Headers)
    requires order != [] && forall i :: 0 <= i < |order| ==> order[i] in headers
    ensures acc[order[0] := headers[order[0]]] + Restrict(headers, order[1..]) == acc + Restrict(headers, order)
  {
    assert order == [order[0]] + order[1..];
  }

  /** Reading back the pairs written in any order restores each of them. */
  lemma {:induction false} PairsRoundTrip(headers: Headers, order: seq<Str>, tail: Bytes, acc: Headers)
    requires forall i :: 0 <= i < |order| ==> order[i] in headers
    requires EncodePairs(headers, order).Ok?
    ensures DecodePairs(|order|, EncodePairs(headers, order).value + tail, acc)
         == Ok((acc + Restrict(headers, order), tail))
    decreases |order|
  {
    if order == [] {
      assert EncodePairs(headers, order).value + tail == tail;
      assert acc + Restrict(headers, order) == acc;
    } else {
      var k := order[0];
      var key, value := EncodeSmallString(k).value, EncodeSmallString(headers[k]).value;
      var rest := EncodePairs(headers, order[1..]).value;
      Assoc4(key, value, rest, tail);
      SmallStringRoundTrip(k, value + (rest + tail));
      SmallStringRoundTrip(headers[k], rest + tail);
      PairsRoundTrip(headers, order[1..], tail, acc[k := headers[k]]);
      RestrictCons(headers, order, acc);
    }
  }

  lemma {:induction false} EnumerationLength(order: seq<Str>, keys: set<Str>)
    requires forall i :: 0 <= i < |order| ==> order[i] in keys
    requires forall k :: k in keys ==> k in order
    requires forall i, j :: 0 <= i < j < |order| ==> order[i] != order[j]
    ensures |order| == |keys|
    decreases |order|
  {
    if order == [] {
      assert keys == {};
    } else {
      forall k | k in keys - {order[0]} ensures k in order[1..] {
        assert k in order;
      }
      EnumerationLength(order[1..], keys - {order[0]});
    }
  }

  lemma RestrictAll(headers: Headers, order: seq<Str>)
    requires Enumerates(order, headers)
    ensures map[] + Restrict(headers, order) == headers
  {
  }

  /** Every enumeration order of a header map decodes to the same map. */
  lemma HeadersRoundTrip(headers: Headers, order: seq<Str>, tail: Bytes)
    requires Enumerates(order, headers)
    requires EncodeSmallHeaders(headers, order).Ok?
    ensures DecodeSmallHeaders(EncodeSmallHeaders(headers, order).value + tail) == Ok((headers, tail))
  {
    var pairs := EncodePairs(headers, order).value;
    Assoc([|headers|], pairs, tail);
    EnumerationLength(order, headers.Keys);
    PairsRoundTrip(headers, order, tail, map[]);
    RestrictAll(headers, order);
  }

  lemma TracingRoundTrip(t: Tracing, tail: Bytes)
    ensures DecodeTracing(EncodeTracing(t) + tail) == Ok((t, tail))
  {
    hide U64, GetU64;
    var flags := [t.traceFlags];
    var c := flags + tail;
    var b := U64(t.traceId) + c;
    var a := U64(t.parentId) + b;
    Assoc4(U64(t.spanId) + U64(t.parentId), U64(t.traceId), flags, tail);
    Assoc(U64(t.spanId), U64(t.parentId), b);
    U64RoundTrip(t.spanId, a);
    U64RoundTrip(t.parentId, b);
    U64RoundTrip(t.traceId, c);
    assert c[1..] == tail;
  }

  /** Fields survive, and the decoder leaves whatever follows them untouched. */
  lemma FieldsRoundTrip(f: Fields, order: seq<Str>, tail: Bytes)
    requires Enumerates(order, f.headers)
    requires EncodeFields(f, order).Ok?
    ensures DecodeFields(KindOf(f), EncodeFields(f, order).value + tail) == Ok((f, tail))
  {
    hide EncodeTracing, DecodeTracing, EncodeSmallString, DecodeSmallString, U32;
    hide EncodeSmallHeaders, DecodeSmallHeaders;
    var headerBytes := EncodeSmallHeaders(f.headers, order).value;
    var h := headerBytes + tail;
    HeadersRoundTrip(f.headers, order, tail);
    match f {
      case RequestFields(ttl, tracing, service, headers) =>
        var serviceBytes := EncodeSmallString(service).value;
        var s := serviceBytes + h;
        SmallStringRoundTrip(service, h);
        TracingRoundTrip(tracing, s);
        U32RoundTrip(ttl, EncodeTracing(tracing) + s);
        Assoc(U32(ttl) + EncodeTracing(tracing), serviceBytes, headerBytes);
        Assoc4(U32(ttl), EncodeTracing(tracing), serviceBytes + headerBytes, tail);
        Assoc(serviceBytes, headerBytes, tail);
      case ResponseFields(code, tracing, headers) =>
        TracingRoundTrip(tracing, h);
        Assoc4([CodeByte(code)], EncodeTracing(tracing), headerBytes, tail);
        assert ([CodeByte(code)] + (EncodeTracing(tracing) + h))[1..] == EncodeTracing(tracing) + h;
    }
  }

  lemma ChecksumRoundTrip(t: ChecksumType, value: Option<uint32>, tail: Bytes)
    requires EncodeChecksum(t, value).Ok?
    ensures DecodeChecksum(EncodeChecksum(t, value).value + tail)
         == Ok(((t, if t.NoChecksum? then None else value), tail))
  {
    var all := EncodeChecksum(t, value).value + tail;
    if t.NoChecksum? {
      assert all[1..] == tail;
    } else {
      assert all[1..] == U32(value.value) + tail;
      U32RoundTrip(value.value, tail);
    }
  }

  /** `Some(empty)` is written like `None`, so it reads back as `None`. */
  function Normal(slot: Slot): Slot { if slot == Some([]) then None else slot }

  function NormalAll(slots: seq<Slot>): seq<Slot> {
    seq(|slots|, i requires 0 <= i < |slots| => Normal(slots[i]))
  }

  lemma ArgRoundTrip(slot: Slot, tail: Bytes)
    requires |SlotBytes(slot) + tail| <= 0xFFFF
    ensures DecodeArg(SlotBytes(slot) + tail) == Ok((Normal(slot), tail))
  {
    var all := SlotBytes(slot) + tail;
    match slot {
      case None =>
        assert all[2..] == tail;
      case Some(arg) =>
        assert GetU16(all) == |arg|;
        assert all[2..2 + |arg|] == arg;
        assert all[2 + |arg|..] == tail;
    }
  }

  lemma {:induction false} SlotsRoundTrip(slots: seq<Slot>, max: nat)
    requires |slots| <= max
    requires |SlotsBytes(slots)| <= 0xFFFF
    ensures DecodeSlots(SlotsBytes(slots), max) == Ok(NormalAll(slots))
    decreases |slots|
  {
    if slots == [] {
      assert NormalAll(slots) == [];
    } else {
      ArgRoundTrip(slots[0], SlotsBytes(slots[1..]));
      SlotsRoundTrip(slots[1..], max - 1);
      assert NormalAll(slots) == [Normal(slots[0])] + NormalAll(slots[1..]);
    }
  }

  /** Whenever `encode_args` succeeds no length was truncated, and `decode_args` gives the
      normalised arguments back. */
  lemma ArgsRoundTrip(before: nat, slots: seq<Slot>)
    requires EncodeArgs(before, slots).Ok?
    ensures forall i :: 0 <= i < |slots| && slots[i].Some? ==> AsU16(|slots[i].value|) == |slots[i].value|
    ensures DecodeArgs(EncodeArgs(before, slots).value) == Ok(NormalAll(slots))
  {
    SlotsRoundTrip(slots, MAX_FRAME_ARGS);
    forall i | 0 <= i < |slots| && slots[i].Some?
      ensures AsU16(|slots[i].value|) == |slots[i].value|
    {
      SlotWithinSlots(slots, i);
    }
  }

  lemma {:induction false} SlotWithinSlots(slots: seq<Slot>, i: nat)
    requires i < |slots|
    ensures |SlotBytes(slots[i])| <= |SlotsBytes(slots)|
    decreases |slots|
  {
    if i > 0 {
      SlotWithinSlots(slots[1..], i - 1);
    }
  }

  lemma ArgReencodes(src: Bytes)
    requires |src| <= 0xFFFF
    requires DecodeArg(src).Ok?
    ensures SlotBytes(DecodeArg(src).value.0) + DecodeArg(src).value.1 == src
  {
    var (slot, rest) := DecodeArg(src).value;
    assert U16(GetU16(src)) == src[..2];
    match slot {
      case None =>
        assert src == src[..2] + src[2..];
      case Some(arg) =>
        assert rest == src[2..][|arg|..] && arg == src[2..][..|arg|];
        assert src[2..] == arg + rest;
        assert src == src[..2] + src[2..];
        Assoc(src[..2], arg, rest);
    }
  }

  lemma {:induction false} SlotsReencode(src: Bytes, max: nat)
    requires |src| <= 0xFFFF
    requires DecodeSlots(src, max).Ok?
    ensures |DecodeSlots(src, max).value| <= max
    ensures SlotsBytes(DecodeSlots(src, max).value) == src
    ensures src != [] ==> DecodeSlots(src, max).value != []
    decreases max
  {
    if src != [] {
      var (slot, rest) := DecodeArg(src).value;
      ArgReencodes(src);
      SlotsReencode(rest, max - 1);
      var slots := DecodeSlots(src, max).value;
      assert slots[1..] == DecodeSlots(rest, max - 1).value;
    }
  }

  /** Whenever `decode_args` succeeds on bytes that fit the frame behind `before` others,
      `encode_args` reproduces those bytes. */
  lemma ArgsReencode(before: nat, src: Bytes)
    requires before + |src| <= MAX_PAYLOAD
    requires DecodeArgs(src).Ok?
    ensures EncodeArgs(before, DecodeArgs(src).value) == Ok(src)
  {
    SlotsReencode(src, MAX_FRAME_ARGS);
  }

  /** What is left of call arguments after the wire. */
  function NormalArgs(a: CallArgs): CallArgs {
    CallArgs(a.checksumType, if a.checksumType.NoChecksum? then None else a.checksum, NormalAll(a.args))
  }

  lemma CallArgsRoundTrip(before: nat, a: CallArgs)
    requires EncodeCallArgs(before, a).Ok?
    ensures DecodeCallArgs(EncodeCallArgs(before, a).value) == Ok(NormalArgs(a))
    ensures before + |EncodeCallArgs(before, a).value| <= MAX_PAYLOAD
  {
    var checksum := EncodeChecksum(a.checksumType, a.checksum).value;
    var args := EncodeArgs(before + |checksum|, a.args).value;
    ChecksumRoundTrip(a.checksumType, a.checksum, args);
    ArgsRoundTrip(before + |checksum|, a.args);
  }

  /** Requests and responses survive encoding under every enumeration of their headers. */
  lemma CallRoundTrip(c: Call, order: seq<Str>)
    requires Enumerates(order, c.fields.headers)
    requires EncodeCall(c, order).Ok?
    ensures DecodeCall(KindOf(c.fields), EncodeCall(c, order).value) == Ok(c.(args := NormalArgs(c.args)))
    ensures |EncodeCall(c, order).value| <= MAX_PAYLOAD
  {
    hide EncodeFields, DecodeFields, EncodeCallArgs, DecodeCallArgs;
    var fields := EncodeFields(c.fields, order).value;
    var args := EncodeCallArgs(1 + |fields|, c.args).value;
    var wire := EncodeCall(c, order).value;
    assert wire[1..] == fields + args;
    FieldsRoundTrip(c.fields, order, args);
    CallArgsRoundTrip(1 + |fields|, c.args);
  }

  lemma ContinueRoundTrip(c: CallContinue)
    requires EncodeContinue(c).Ok?
    ensures DecodeContinue(EncodeContinue(c).value) == Ok(c.(args := NormalArgs(c.args)))
    ensures |EncodeContinue(c).value| <= MAX_PAYLOAD
  {
    var args := EncodeCallArgs(1, c.args).value;
    assert EncodeContinue(c).value[1..] == args;
    CallArgsRoundTrip(1, c.args);
  }

  /** The pre-encoded form of the first frame is byte-identical to encoding the whole call,
      failures included. */
  lemma PreEncodedRefinesCall(c: Call, order: seq<Str>)
    requires Enumerates(order, c.fields.headers)
    requires EncodeFields(c.fields, order).Ok?
    ensures EncodeWithFields(c.flags, EncodeFields(c.fields, order).value, c.args) == EncodeCall(c, order)
  {
  }
}
