/** The payload formats, written out position by position and without the codecs' own helpers. */
module WireFormat {
  import opened Basics
  import opened Frames
  import opened Payloads
  import opened PayloadLaws
  import opened Fragmentation

  /** The number in network order that `n` bytes spell from position `i` on. */
  function Number(b: Bytes, i: nat, n: nat): nat
    requires i + n <= |b|
  {
    if n == 0 then 0 else Number(b, i, n - 1) * 0x100 + b[i + n - 1]
  }

  lemma {:induction false} NumberShifts(a: Bytes, b: Bytes, c: Bytes, i: nat, n: nat)
    requires i + n <= |b|
    ensures Number(a + b + c, |a| + i, n) == Number(b, i, n)
    decreases n
  {
    if n > 0 {
      NumberShifts(a, b, c, i, n - 1);
    }
  }

  lemma NumberOfTwo(b: Bytes, i: nat)
    requires i + 2 <= |b|
    ensures Number(b, i, 2) == b[i] as int * 0x100 + b[i + 1]
  {
    assert Number(b, i, 1) == b[i];
  }

  lemma NumberOfFour(b: Bytes, i: nat)
    requires i + 4 <= |b|
    ensures Number(b, i, 4) == Number(b, i, 2) * 0x1_0000 + Number(b, i + 2, 2)
  {
    NumberOfTwo(b, i + 2);
    assert Number(b, i, 3) == Number(b, i, 2) * 0x100 + b[i + 2];
  }

  lemma NumberOfEight(b: Bytes, i: nat)
    requires i + 8 <= |b|
    ensures Number(b, i, 8) == Number(b, i, 4) * 0x1_0000_0000 + Number(b, i + 4, 4)
  {
    assert Number(b, i, 5) == Number(b, i, 4) * 0x100 + b[i + 4];
    assert Number(b, i, 6) == Number(b, i, 5) * 0x100 + b[i + 5];
    assert Number(b, i, 7) == Number(b, i, 6) * 0x100 + b[i + 6];
    assert Number(b, i + 4, 1) == b[i + 4];
    assert Number(b, i + 4, 2) == Number(b, i + 4, 1) * 0x100 + b[i + 5];
    assert Number(b, i + 4, 3) == Number(b, i + 4, 2) * 0x100 + b[i + 6];
  }

  /** Fixed-width numbers are written in network order. */
  lemma NumbersAreSpelled(x: uint16, y: uint32, z: uint64)
    ensures Number(U16(x), 0, 2) == x
    ensures Number(U32(y), 0, 4) == y
    ensures Number(U64(z), 0, 8) == z
  {
    NumberOfTwo(U16(x), 0);
    U32IsSpelled(y);
    U32IsSpelled(z / 0x1_0000_0000);
    U32IsSpelled(z % 0x1_0000_0000);
    NumberOfEight(U64(z), 0);
    var hi, lo := U32(z / 0x1_0000_0000), U32(z % 0x1_0000_0000);
    NumberShifts([], hi, lo, 0, 4);
    NumberShifts(hi, lo, [], 0, 4);
    assert [] + hi + lo == hi + lo && hi + lo + [] == hi + lo;
  }

  lemma U32IsSpelled(y: uint32)
    ensures Number(U32(y), 0, 4) == y
  {
    NumberOfTwo(U32(y), 0);
    NumberOfTwo(U32(y), 2);
    NumberOfFour(U32(y), 0);
  }

  /** Span, parent and trace id of eight bytes each, and a byte of flags, from position `i` on. */
  ghost predicate TracingAt(b: Bytes, i: nat, t: Tracing) {
    && i + 25 <= |b|
    && Number(b, i, 8) == t.spanId
    && Number(b, i + 8, 8) == t.parentId
    && Number(b, i + 16, 8) == t.traceId
    && b[i + 24] == t.traceFlags
  }

  lemma TracingLayout(a: Bytes, t: Tracing, c: Bytes)
    ensures TracingAt(a + EncodeTracing(t) + c, |a|, t)
  {
    hide U64;
    var s, p, r, f := U64(t.spanId), U64(t.parentId), U64(t.traceId), [t.traceFlags];
    NumbersAreSpelled(0, 0, t.spanId);
    NumbersAreSpelled(0, 0, t.parentId);
    NumbersAreSpelled(0, 0, t.traceId);
    var b := a + EncodeTracing(t) + c;
    assert b == a + s + (p + r + f + c);
    NumberShifts(a, s, p + r + f + c, 0, 8);
    assert b == (a + s) + p + (r + f + c);
    NumberShifts(a + s, p, r + f + c, 0, 8);
    assert b == (a + s + p) + r + (f + c);
    NumberShifts(a + s + p, r, f + c, 0, 8);
  }

  /** Key and value, each behind a byte of length, in the order of the map's enumeration. */
  function HeaderList(headers: Headers, order: seq<Str>): Bytes
    requires forall i :: 0 <= i < |order| ==> order[i] in headers
    requires forall i :: 0 <= i < |order| ==> |order[i]| <= 255 && |headers[order[i]]| <= 255
  {
    if order == [] then []
    else
      var k, v := order[0], headers[order[0]];
      [|k|] + k + [|v|] + v + HeaderList(headers, order[1..])
  }

  lemma {:induction false} PairsLayout(headers: Headers, order: seq<Str>)
    requires forall i :: 0 <= i < |order| ==> order[i] in headers
    ensures EncodePairs(headers, order).Ok? <==>
              forall i :: 0 <= i < |order| ==> |order[i]| <= 255 && |headers[order[i]]| <= 255
    ensures EncodePairs(headers, order).Ok? ==> EncodePairs(headers, order).value == HeaderList(headers, order)
    ensures EncodePairs(headers, order).Err? ==> EncodePairs(headers, order) == Err(CodecError)
    decreases |order|
  {
    hide IsUtf8;
    if order != [] {
      var rest := order[1..];
      PairsLayout(headers, rest);
      assert forall i :: 0 <= i < |rest| ==> rest[i] == order[i + 1];
      if EncodePairs(headers, order).Ok? {
        forall i | 0 <= i < |order| ensures |order[i]| <= 255 && |headers[order[i]]| <= 255 {
          if i > 0 {
            assert order[i] == rest[i - 1];
          }
        }
        var k, v := order[0], headers[order[0]];
        Assoc([|k|] + k, [|v|], v);
      }
    }
  }

  /** Fields of a request: four bytes of time to live, tracing, the service behind a byte of
      length, and the headers behind a byte of count. */
  lemma RequestLayout(f: Fields, order: seq<Str>)
    requires f.RequestFields? && Enumerates(order, f.headers) && EncodeFields(f, order).Ok?
    ensures forall i :: 0 <= i < |order| ==> |order[i]| <= 255 && |f.headers[order[i]]| <= 255
    ensures |f.service| <= 255 && |f.headers| <= 255
    ensures var b, n := EncodeFields(f, order).value, |f.service|;
            && |b| == 31 + n + |HeaderList(f.headers, order)|
            && Number(b, 0, 4) == f.ttl
            && TracingAt(b, 4, f.tracing)
            && b[29] == n && b[30..30 + n] == f.service
            && b[30 + n] == |f.headers| && b[31 + n..] == HeaderList(f.headers, order)
  {
    hide U32, EncodeTracing, EncodePairs, HeaderList, IsUtf8, Number, TracingAt;
    PairsLayout(f.headers, order);
    NumbersAreSpelled(0, f.ttl, 0);
    var list := HeaderList(f.headers, order);
    var s, h := [|f.service|] + f.service, [|f.headers|] + list;
    var b := EncodeFields(f, order).value;
    Assoc(U32(f.ttl) + EncodeTracing(f.tracing), s, h);
    TracingLayout(U32(f.ttl), f.tracing, s + h);
    assert [] + U32(f.ttl) + (EncodeTracing(f.tracing) + (s + h)) == b;
    NumberShifts([], U32(f.ttl), EncodeTracing(f.tracing) + (s + h), 0, 4);
    assert b[29..] == s + h;
  }

  /** Fields of a response: the code, tracing, and the headers behind a byte of count. */
  lemma ResponseLayout(f: Fields, order: seq<Str>)
    requires f.ResponseFields? && Enumerates(order, f.headers) && EncodeFields(f, order).Ok?
    ensures forall i :: 0 <= i < |order| ==> |order[i]| <= 255 && |f.headers[order[i]]| <= 255
    ensures |f.headers| <= 255
    ensures var b := EncodeFields(f, order).value;
            && |b| == 27 + |HeaderList(f.headers, order)|
            && b[0] == (if f.code == ResponseOk then 0x00 else 0x01)
            && TracingAt(b, 1, f.tracing)
            && b[26] == |f.headers| && b[27..] == HeaderList(f.headers, order)
  {
    hide EncodeTracing, EncodePairs, HeaderList, IsUtf8, TracingAt;
    PairsLayout(f.headers, order);
    var h := [|f.headers|] + HeaderList(f.headers, order);
    TracingLayout([CodeByte(f.code)], f.tracing, h);
  }

  /** Fields are written exactly when the service name, every header key and value, and the number
      of headers each fit a byte. */
  lemma FieldsVerdict(f: Fields, order: seq<Str>)
    requires Enumerates(order, f.headers)
    ensures EncodeFields(f, order).Ok? <==>
              && (f.RequestFields? ==> |f.service| <= 255)
              && |f.headers| <= 255
              && forall k :: k in f.headers ==> |k| <= 255 && |f.headers[k]| <= 255
    ensures EncodeFields(f, order).Err? ==> EncodeFields(f, order) == Err(CodecError)
  {
    hide EncodePairs, EncodeTracing, U32, IsUtf8;
    PairsLayout(f.headers, order);
  }

  /** Where the `i`-th argument of a frame begins. */
  function Offset(slots: seq<Slot>, i: nat): nat
    requires i <= |slots|
  {
    if i == 0 then 0 else Offset(slots, i - 1) + 2 + Length(slots[i - 1])
  }

  function Length(slot: Slot): nat { if slot.Some? then |slot.value| else 0 }

  lemma {:induction false} OffsetShifts(slots: seq<Slot>, i: nat)
    requires 0 < i <= |slots|
    ensures Offset(slots, i) == 2 + Length(slots[0]) + Offset(slots[1..], i - 1)
    decreases i
  {
    if i > 1 {
      OffsetShifts(slots, i - 1);
    } else {
      assert Offset(slots, 0) == 0;
    }
  }

  lemma {:induction false} SlotsLength(slots: seq<Slot>)
    ensures |SlotsBytes(slots)| == Offset(slots, |slots|)
    decreases |slots|
  {
    if slots != [] {
      SlotsLength(slots[1..]);
      OffsetShifts(slots, |slots|);
    }
  }

  /** At position `o` the argument's length, cast to two bytes, and then its bytes. */
  ghost predicate SlotAt(b: Bytes, o: nat, slot: Slot) {
    && o + 2 + Length(slot) <= |b|
    && b[o] as int * 0x100 + b[o + 1] == Length(slot) % 0x1_0000
    && b[o + 2..o + 2 + Length(slot)] == if slot.Some? then slot.value else []
  }

  lemma SlotAtStart(slot: Slot, rest: Bytes)
    ensures SlotAt(SlotBytes(slot) + rest, 0, slot)
    ensures |SlotBytes(slot)| == 2 + Length(slot)
  {
  }

  lemma SlotAtBehind(a: Bytes, b: Bytes, o: nat, slot: Slot)
    requires SlotAt(b, o, slot)
    ensures SlotAt(a + b, |a| + o, slot)
  {
    var n := 2 + Length(slot);
    assert (a + b)[|a| + o + 2..|a| + o + n] == b[o + 2..o + n];
  }

  lemma {:induction false} SlotLayout(slots: seq<Slot>, i: nat)
    requires i < |slots|
    ensures SlotAt(SlotsBytes(slots), Offset(slots, i), slots[i])
    decreases i
  {
    hide SlotBytes, SlotAt;
    var head, rest := SlotBytes(slots[0]), SlotsBytes(slots[1..]);
    SlotAtStart(slots[0], rest);
    if i > 0 {
      SlotLayout(slots[1..], i - 1);
      OffsetShifts(slots, i);
      SlotAtBehind(head, rest, Offset(slots[1..], i - 1), slots[i]);
    }
  }

  /** Arguments are written exactly when there are one to three of them and the payload stays
      within 65518 bytes; each is then its length in two bytes and its bytes, in order. */
  lemma ArgsLayout(before: nat, slots: seq<Slot>)
    ensures EncodeArgs(before, slots).Ok? <==>
              1 <= |slots| <= 3 && before + Offset(slots, |slots|) <= 65518
    ensures EncodeArgs(before, slots).Err? ==> EncodeArgs(before, slots) == Err(CodecError)
    ensures EncodeArgs(before, slots).Ok? ==>
              |EncodeArgs(before, slots).value| == Offset(slots, |slots|)
    ensures EncodeArgs(before, slots).Ok? ==> forall i :: 0 <= i < |slots| ==>
              && SlotAt(EncodeArgs(before, slots).value, Offset(slots, i), slots[i])
              && Length(slots[i]) < 0x1_0000
  {
    hide SlotsBytes, Offset;
    SlotsLength(slots);
    forall i | 0 <= i < |slots| ensures SlotAt(SlotsBytes(slots), Offset(slots, i), slots[i]) {
      SlotLayout(slots, i);
    }
  }

  /** The checksum is its type's code, followed by four bytes of value unless there is none. The
      length the fragmenter reckons with is the one written. */
  lemma ChecksumLayout(t: ChecksumType, value: uint32)
    ensures EncodeChecksum(NoChecksum, None) == Ok([0x00])
    ensures t != NoChecksum ==> EncodeChecksum(t, None) == Err(CodecError)
    ensures var b := EncodeChecksum(t, Some(value)).value;
            && EncodeChecksum(t, Some(value)).Ok?
            && |b| == ChecksumLength(t) == (if t == NoChecksum then 1 else 5)
            && b[0] == (match t
                        case NoChecksum => 0x00
                        case Crc32 => 0x01
                        case Farmhash => 0x02
                        case Crc32C => 0x03)
            && (t != NoChecksum ==> Number(b, 1, 4) == value)
  {
    hide Number, U32;
    NumbersAreSpelled(0, value, 0);
    var code := [ChecksumCode(t)];
    NumberShifts(code, U32(value), [], 0, 4);
    assert code + U32(value) + [] == code + U32(value);
  }

  /** A first frame without a checksum: flags, fields, a zero and the arguments. */
  lemma FirstFrameLayout(flags: Flags, fields: Bytes, slots: seq<Slot>)
    requires EncodeWithFields(flags, fields, CallArgs(NoChecksum, None, slots)).Ok?
    ensures EncodeArgs(|fields| + 2, slots).Ok?
    ensures var w, n := EncodeWithFields(flags, fields, CallArgs(NoChecksum, None, slots)).value, |fields|;
            && |w| >= n + 2
            && w[0] == flags && w[1..n + 1] == fields && w[n + 1] == 0x00
            && w[n + 2..] == EncodeArgs(n + 2, slots).value
  {
    hide SlotsBytes;
  }

  /** A continuation without a checksum: flags, a zero and the arguments. */
  lemma ContinuationLayout(flags: Flags, slots: seq<Slot>)
    requires EncodeContinue(CallContinue(flags, CallArgs(NoChecksum, None, slots))).Ok?
    ensures EncodeArgs(2, slots).Ok?
    ensures var w := EncodeContinue(CallContinue(flags, CallArgs(NoChecksum, None, slots))).value;
            && |w| >= 2
            && w[0] == flags && w[1] == 0x00
            && w[2..] == EncodeArgs(2, slots).value
  {
    hide SlotsBytes;
  }

  // What the decoders refuse

  /** Flag, trace flag, response code and checksum bytes outside their ranges are errors, and
      reading past the end is a panic. */
  lemma BytesRefused(kind: Kind, src: Bytes)
    ensures src == [] ==> DecodeCall(kind, src) == Err(Panic) && DecodeContinue(src) == Err(Panic)
    ensures src != [] && src[0] > 0x03 ==>
              DecodeCall(kind, src) == Err(CodecError) && DecodeContinue(src) == Err(CodecError)
              && DecodeChecksum(src) == Err(CodecError)
    ensures src != [] && src[0] > 0x01 ==> DecodeFields(Response, src) == Err(CodecError)
    ensures DecodeTracing(src).Ok? <==> |src| >= 25 && src[24] <= 0x01
    ensures DecodeTracing(src).Err? ==> DecodeTracing(src) == Err(if |src| < 25 then Panic else CodecError)
  {
    hide DecodeFields, DecodeCallArgs, GetU64;
    ResponseCodeRefused(src);
  }

  lemma ResponseCodeRefused(src: Bytes)
    ensures src != [] && src[0] > 0x01 ==> DecodeFields(Response, src) == Err(CodecError)
  {
    hide DecodeTracing, DecodeSmallHeaders;
  }

  /** A string is read exactly when its announced bytes are there and are UTF-8. */
  lemma StringVerdict(src: Bytes)
    ensures DecodeSmallString(src) ==
              if src == [] || src[0] as int + 1 > |src| then Err(Panic)
              else if !IsUtf8(src[1..1 + src[0]]) then Err(CodecError)
              else Ok((src[1..1 + src[0]], src[1 + src[0]..]))
  {
    hide IsUtf8;
    if src != [] && src[0] as int + 1 <= |src| {
      assert src[1..][..src[0]] == src[1..1 + src[0]];
      assert src[1..][src[0]..] == src[1 + src[0]..];
    }
  }

  lemma {:induction false} SlotsVerdict(src: Bytes, max: nat)
    requires |src| <= 0xFFFF
    ensures DecodeSlots(src, max).Err? ==> DecodeSlots(src, max) == Err(CodecError)
    decreases max
  {
    if src != [] && max > 0 && DecodeArg(src).Ok? {
      ArgReencodes(src);
      SlotsVerdict(DecodeArg(src).value.1, max - 1);
    }
  }

  /** Which bytes are arguments: those that some one to three arguments are written as. Any other
      bytes that fit a frame are refused, and never by a panic. */
  lemma ArgsVerdict(src: Bytes)
    requires |src| <= 0xFFFF
    ensures DecodeArgs(src).Ok? <==> exists slots :: 1 <= |slots| <= 3 && SlotsBytes(slots) == src
    ensures DecodeArgs(src).Err? ==> DecodeArgs(src) == Err(CodecError)
  {
    hide SlotsBytes, DecodeSlots;
    SlotsVerdict(src, 3);
    if DecodeArgs(src).Ok? {
      SlotsReencode(src, 3);
      assert SlotsBytes(DecodeArgs(src).value) == src;
    }
    forall slots | 1 <= |slots| <= 3 && SlotsBytes(slots) == src ensures DecodeArgs(src).Ok? {
      SlotsRoundTrip(slots, 3);
      SlotsLength(slots);
      OffsetShifts(slots, |slots|);
    }
  }
}
