/** The frame codec: a 16-byte header followed by the payload, decoded incrementally. */
module Frames {
  import opened Basics

  const FRAME_HEADER_LENGTH := 16
  const FRAME_MAX_LENGTH := 0xFFFF - 1

  datatype FrameType =
    | InitRequest | InitResponse
    | CallRequest | CallResponse
    | CallRequestContinue | CallResponseContinue
    | Cancel | Claim
    | PingRequest | PingResponse
    | ErrorFrame

  datatype TFrame = TFrame(frameType: FrameType, payload: Bytes)
  datatype TFrameId = TFrameId(id: uint32, frame: TFrame)

  function TypeCode(t: FrameType): uint8 {
    match t
    case InitRequest => 0x1
    case InitResponse => 0x2
    case CallRequest => 0x3
    case CallResponse => 0x4
    case CallRequestContinue => 0x13
    case CallResponseContinue => 0x14
    case Cancel => 0xc0
    case Claim => 0xc1
    case PingRequest => 0xd0
    case PingResponse => 0xd1
    case ErrorFrame => 0xff
  }

  function TypeFromCode(code: uint8): Option<FrameType> {
    if code == 0x1 then Some(InitRequest)
    else if code == 0x2 then Some(InitResponse)
    else if code == 0x3 then Some(CallRequest)
    else if code == 0x4 then Some(CallResponse)
    else if code == 0x13 then Some(CallRequestContinue)
    else if code == 0x14 then Some(CallResponseContinue)
    else if code == 0xc0 then Some(Cancel)
    else if code == 0xc1 then Some(Claim)
    else if code == 0xd0 then Some(PingRequest)
    else if code == 0xd1 then Some(PingResponse)
    else if code == 0xff then Some(ErrorFrame)
    else None
  }

  /** Bytes of the header when the length field holds `len`. */
  function Header(len: uint16, t: FrameType, id: uint32): (b: Bytes)
    ensures |b| == FRAME_HEADER_LENGTH
  {
    U16(len) + [TypeCode(t), 0] + U32(id) + [0, 0, 0, 0, 0, 0, 0, 0]
  }

  /** The wire form of a frame. The payload length is cast to u16 before the header
      length is added, and that addition can overflow. */
  function EncodeFrame(f: TFrameId): Result<Bytes> {
    var size := AsU16(|f.frame.payload|);
    if size + FRAME_HEADER_LENGTH > 0xFFFF then Err(Panic)
    else Ok(Header(size + FRAME_HEADER_LENGTH, f.frame.frameType, f.id) + f.frame.payload)
  }

  /** Payloads whose length survives the cast and the addition. */
  predicate Encodable(f: TFrameId) { |f.frame.payload| <= 0xFFFF - FRAME_HEADER_LENGTH }

  /** A length prefix that is absent, or announces more than is buffered. */
  predicate IsBuffering(src: Bytes) { |src| < 2 || GetU16(src) > |src| }

  datatype Decoded = NeedMore | Got(frame: TFrameId) | Malformed

  /** One call of the decoder on buffer `src`, and the buffer it leaves behind. */
  function DecodeFrame(src: Bytes): (Decoded, Bytes) {
    if IsBuffering(src) then (NeedMore, src)
    else if GetU16(src) < FRAME_HEADER_LENGTH then (Malformed, src[2..])
    else
      match TypeFromCode(src[2])
      case None => (Malformed, src[3..])
      case Some(t) =>
        var size := GetU16(src);
        (Got(TFrameId(GetU32(src[4..]), TFrame(t, src[FRAME_HEADER_LENGTH..size]))), src[size..])
  }

  /** The frame format, position by position: two bytes of length, the type code, a zero, four
      bytes of id, eight zeros and the payload, all numbers in network order. The length is the
      frame's own exactly when the payload is short enough. */
  ghost predicate HasFrameLayout(w: Bytes, item: TFrameId) {
    && |w| == 16 + |item.frame.payload|
    && w[0] as int * 0x100 + w[1] as int == |item.frame.payload| % 0x1_0000 + 16
    && (|item.frame.payload| <= 65519 <==> w[0] as int * 0x100 + w[1] as int == |w|)
    && w[2] == (match item.frame.frameType
                case InitRequest => 0x01
                case InitResponse => 0x02
                case CallRequest => 0x03
                case CallResponse => 0x04
                case CallRequestContinue => 0x13
                case CallResponseContinue => 0x14
                case Cancel => 0xc0
                case Claim => 0xc1
                case PingRequest => 0xd0
                case PingResponse => 0xd1
                case ErrorFrame => 0xff)
    && w[3] == 0
    && w[4] as int * 0x100_0000 + w[5] as int * 0x1_0000 + w[6] as int * 0x100 + w[7] as int == item.id
    && (forall i :: 8 <= i < 16 ==> w[i] == 0)
    && w[16..] == item.frame.payload
  }

  lemma FrameLayout(item: TFrameId)
    requires EncodeFrame(item).Ok?
    ensures HasFrameLayout(EncodeFrame(item).value, item)
  {
    var w := EncodeFrame(item).value;
    assert w[4..8] == U32(item.id);
    assert w[8..16] == [0, 0, 0, 0, 0, 0, 0, 0];
    forall i | 8 <= i < 16 ensures w[i] == 0 {
      assert w[i] == w[8..16][i - 8];
    }
    forall i | 4 <= i < 8 ensures w[i] == U32(item.id)[i - 4] {
      assert w[i] == w[4..8][i - 4];
    }
  }

  method Encode(item: TFrameId, dst: BytesMut) returns (r: Result<()>)
    modifies dst
    ensures r.Ok? <==> EncodeFrame(item).Ok?
    ensures r.Ok? ==> dst.data == old(dst.data) + EncodeFrame(item).value
    ensures r.Err? ==> r == Err(Panic) && dst.data == old(dst.data)
    ensures r.Err? <==> |item.frame.payload| % 0x1_0000 > 65519
    ensures r.Ok? ==> old(dst.data) <= dst.data &&
                      HasFrameLayout(dst.data[|old(dst.data)|..], item)
  {
    var size: uint16 := AsU16(|item.frame.payload|);
    if size + FRAME_HEADER_LENGTH > 0xFFFF {
      return Err(Panic);
    }
    dst.Put(U16(size + FRAME_HEADER_LENGTH));
    dst.Put([TypeCode(item.frame.frameType)]);
    dst.Put([0]);
    dst.Put(U32(item.id));
    ghost var before := dst.data;
    for i := 0 to 8
      invariant dst.data == before + seq(i, _ => 0)
    {
      dst.Put([0]);
    }
    dst.Put(item.frame.payload);
    assert seq(8, _ => 0) == [0, 0, 0, 0, 0, 0, 0, 0];
    assert dst.data == old(dst.data) + EncodeFrame(item).value;
    FrameLayout(item);
    assert dst.data[|old(dst.data)|..] == EncodeFrame(item).value;
    return Ok(());
  }

  /** `Ok(None)` asks for more bytes. Every buffer read succeeds: no read passes the end. */
  method Decode(src: BytesMut) returns (r: Result<Option<TFrameId>>)
    modifies src
    ensures var (d, rest) := DecodeFrame(old(src.data));
            && src.data == rest
            && r == (match d
                     case NeedMore => Ok(None)
                     case Got(f) => Ok(Some(f))
                     case Malformed => Err(CodecError))
  {
    if IsBuffering(src.data) {
      return Ok(None);
    }
    ghost var all := src.data;
    var sizeBytes := src.SplitTo(2);
    var size := GetU16(sizeBytes);
    if size < FRAME_HEADER_LENGTH {
      return Err(CodecError);
    }
    var code := src.SplitTo(1);
    assert all == sizeBytes + code + src.data;
    var frameType := TypeFromCode(code[0]);
    if frameType == None {
      assert all[3..] == src.data;
      return Err(CodecError);
    }
    var _ := src.SplitTo(1);
    assert all[4..] == src.data;
    var idBytes := src.SplitTo(4);
    assert GetU32(idBytes) == GetU32(all[4..]);
    var _ := src.SplitTo(8);
    assert all[16..] == src.data;
    var payload := src.SplitTo(size - FRAME_HEADER_LENGTH);
    assert payload == all[16..size] && src.data == all[size..];
    return Ok(Some(TFrameId(GetU32(idBytes), TFrame(frameType.value, payload))));
  }

  /** What a reader has produced so far: the frames, the unconsumed bytes, and
      whether a malformed frame ended the stream. */
  datatype Stream = Stream(frames: seq<TFrameId>, buffer: Bytes, failed: bool)

  /** Decoding `buf` until it asks for more or fails. */
  function Drain(buf: Bytes): Stream
    decreases |buf|
  {
    var (d, rest) := DecodeFrame(buf);
    match d
    case NeedMore => Stream([], buf, false)
    case Malformed => Stream([], rest, true)
    case Got(f) =>
      var s := Drain(rest);
      s.(frames := [f] + s.frames)
  }

  /** One chunk arrives: it is appended to the buffer, which is then drained. */
  function FeedChunk(s: Stream, chunk: Bytes): Stream {
    if s.failed then s
    else var t := Drain(s.buffer + chunk); t.(frames := s.frames + t.frames)
  }

  function Feed(s: Stream, chunks: seq<Bytes>): Stream
    decreases |chunks|
  {
    if chunks == [] then s else Feed(FeedChunk(s, chunks[0]), chunks[1..])
  }

  const EMPTY_STREAM := Stream([], [], false)

  /** The reader's loop around the decoder for one chunk. */
  method ReadChunk(src: BytesMut, chunk: Bytes) returns (frames: seq<TFrameId>, failed: bool)
    modifies src
    ensures FeedChunk(Stream([], old(src.data), false), chunk) == Stream(frames, src.data, failed)
  {
    src.Put(chunk);
    frames, failed := [], false;
    ghost var all := src.data;
    while true
      invariant var t := Drain(src.data); Drain(all) == t.(frames := frames + t.frames)
      decreases |src.data|
    {
      ghost var before := src.data;
      var r := Decode(src);
      match r {
        case Err(_) =>
          failed := true;
          return;
        case Ok(None) =>
          return;
        case Ok(Some(f)) =>
          Assoc(frames, [f], Drain(src.data).frames);
          frames := frames + [f];
      }
    }
  }

  /** A decision the decoder has taken is not changed by bytes that arrive later. */
  lemma DecodeFrameExtends(src: Bytes, more: Bytes)
    requires DecodeFrame(src).0 != NeedMore
    ensures DecodeFrame(src + more) == (DecodeFrame(src).0, DecodeFrame(src).1 + more)
  {
    var size := GetU16(src);
    assert GetU16(src + more) == size;
    assert (src + more)[2..] == src[2..] + more;
    if size >= FRAME_HEADER_LENGTH {
      assert (src + more)[3..] == src[3..] + more;
      assert (src + more)[4..] == src[4..] + more;
      assert (src + more)[4..][2..] == src[4..][2..] + more;
      assert (src + more)[FRAME_HEADER_LENGTH..size] == src[FRAME_HEADER_LENGTH..size];
      assert (src + more)[size..] == src[size..] + more;
    }
  }

  /** Draining early and then continuing with the rest equals draining everything at once. */
  lemma {:induction false} DrainExtends(buf: Bytes, more: Bytes)
    ensures Drain(buf).failed ==>
              Drain(buf + more).failed && Drain(buf + more).frames == Drain(buf).frames
    ensures !Drain(buf).failed ==>
              var t := Drain(Drain(buf).buffer + more);
              Drain(buf + more) == t.(frames := Drain(buf).frames + t.frames)
    decreases |buf|
  {
    var (d, rest) := DecodeFrame(buf);
    match d {
      case NeedMore =>
      case Malformed =>
        DecodeFrameExtends(buf, more);
      case Got(f) =>
        DecodeFrameExtends(buf, more);
        DrainExtends(rest, more);
        if !Drain(rest).failed {
          Assoc([f], Drain(rest).frames, Drain(Drain(rest).buffer + more).frames);
        }
    }
  }

  lemma {:induction false} FeedIsDrain(s: Stream, chunks: seq<Bytes>)
    requires !s.failed && Drain(s.buffer) == Stream([], s.buffer, false)
    ensures var whole := Drain(s.buffer + Flatten(chunks));
            && Feed(s, chunks).frames == s.frames + whole.frames
            && Feed(s, chunks).failed == whole.failed
            && (!whole.failed ==> Feed(s, chunks).buffer == whole.buffer)
    decreases |chunks|
  {
    if chunks == [] {
      assert s.buffer + Flatten(chunks) == s.buffer;
    } else {
      var s' := FeedChunk(s, chunks[0]);
      Assoc(s.buffer, chunks[0], Flatten(chunks[1..]));
      DrainExtends(s.buffer + chunks[0], Flatten(chunks[1..]));
      if s'.failed {
        FeedFailed(s', chunks[1..]);
      } else {
        DrainIsDry(s.buffer + chunks[0]);
        FeedIsDrain(s', chunks[1..]);
        Assoc(s.frames, Drain(s.buffer + chunks[0]).frames, Drain(s'.buffer + Flatten(chunks[1..])).frames);
      }
    }
  }

  lemma {:induction false} FeedFailed(s: Stream, chunks: seq<Bytes>)
    requires s.failed
    ensures Feed(s, chunks) == s
    decreases |chunks|
  {
    if chunks != [] {
      FeedFailed(s, chunks[1..]);
    }
  }

  lemma {:induction false} DrainIsDry(buf: Bytes)
    requires !Drain(buf).failed
    ensures Drain(Drain(buf).buffer) == Stream([], Drain(buf).buffer, false)
    decreases |buf|
  {
    var (d, rest) := DecodeFrame(buf);
    if d.Got? {
      DrainIsDry(rest);
    }
  }

  /** Chunking does not matter: for every byte stream, well formed or not, any two ways of
      cutting it into chunks give the same frames, the same verdict and the same leftover. */
  lemma ChunkingIndependence(a: seq<Bytes>, b: seq<Bytes>)
    requires Flatten(a) == Flatten(b)
    ensures Feed(EMPTY_STREAM, a).frames == Feed(EMPTY_STREAM, b).frames
    ensures Feed(EMPTY_STREAM, a).failed == Feed(EMPTY_STREAM, b).failed
    ensures !Feed(EMPTY_STREAM, a).failed ==>
              Feed(EMPTY_STREAM, a).buffer == Feed(EMPTY_STREAM, b).buffer
  {
    FeedIsDrain(EMPTY_STREAM, a);
    FeedIsDrain(EMPTY_STREAM, b);
  }

  /** The decoder undoes the encoder and leaves the bytes behind the frame alone. */
  lemma FrameRoundTrip(f: TFrameId, tail: Bytes)
    requires Encodable(f)
    ensures EncodeFrame(f).Ok?
    ensures DecodeFrame(EncodeFrame(f).value + tail) == (Got(f), tail)
  {
    var size := |f.frame.payload| + FRAME_HEADER_LENGTH;
    var wire := EncodeFrame(f).value;
    var all := wire + tail;
    assert |wire| == size;
    assert GetU16(all) == size;
    assert all[2] == TypeCode(f.frame.frameType);
    assert all[4..] == U32(f.id) + ([0, 0, 0, 0, 0, 0, 0, 0] + f.frame.payload + tail);
    U32RoundTrip(f.id, [0, 0, 0, 0, 0, 0, 0, 0] + f.frame.payload + tail);
    assert all[FRAME_HEADER_LENGTH..size] == f.frame.payload;
    assert all[size..] == tail;
  }

  /** The bytes a sender puts on the wire for a list of frames. */
  function EncodeAll(frames: seq<TFrameId>): Result<Bytes> {
    if frames == [] then Ok([])
    else
      var first :- EncodeFrame(frames[0]);
      var rest :- EncodeAll(frames[1..]);
      Ok(first + rest)
  }

  lemma DrainEmpty()
    ensures Drain([]) == EMPTY_STREAM
  {
  }

  lemma {:induction false} DrainEncoded(frames: seq<TFrameId>)
    requires forall i :: 0 <= i < |frames| ==> Encodable(frames[i])
    ensures EncodeAll(frames).Ok? && Drain(EncodeAll(frames).value) == Stream(frames, [], false)
    decreases |frames|
  {
    hide EncodeFrame, DecodeFrame;
    if frames == [] {
      DrainEmpty();
    } else {
      DrainEncoded(frames[1..]);
      FrameRoundTrip(frames[0], EncodeAll(frames[1..]).value);
    }
  }

  /** However the encoding of a list of frames is cut, the reader gets exactly those frames
      and has nothing left over. */
  lemma StreamRoundTrip(frames: seq<TFrameId>, chunks: seq<Bytes>)
    requires forall i :: 0 <= i < |frames| ==> Encodable(frames[i])
    ensures EncodeAll(frames).Ok?
    ensures Flatten(chunks) == EncodeAll(frames).value ==>
              Feed(EMPTY_STREAM, chunks) == Stream(frames, [], false)
  {
    FeedIsDrain(EMPTY_STREAM, chunks);
    DrainEncoded(frames);
    assert [] + Flatten(chunks) == Flatten(chunks);
  }

  /** Exactly when the decoder waits, and exactly when it rejects: with the announced bytes at
      hand, a frame is malformed when it is shorter than its header or of an unknown type. */
  lemma DecoderVerdict(src: Bytes)
    ensures DecodeFrame(src).0 == NeedMore <==> |src| < 2 || src[0] as int * 0x100 + src[1] as int > |src|
    ensures DecodeFrame(src).0 == NeedMore ==> DecodeFrame(src).1 == src
    ensures DecodeFrame(src).0 == Malformed <==>
              && |src| >= 2 && src[0] as int * 0x100 + src[1] as int <= |src|
              && (|| src[0] as int * 0x100 + src[1] as int < 16
                  || src[2] !in {0x01, 0x02, 0x03, 0x04, 0x13, 0x14, 0xc0, 0xc1, 0xd0, 0xd1, 0xff})
  {
  }
}
