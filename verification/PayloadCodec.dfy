/** The payload codecs as they run: encoders append to a buffer, decoders consume one. */
module PayloadCodec {
  import opened Basics
  import opened Frames
  import opened Payloads

  /** What an encoder does to its buffer. A failed one may leave a partial write behind. */
  ghost predicate Appends(before: Bytes, spec: Result<Bytes>, r: Result<()>, after: Bytes) {
    match spec
    case Ok(b) => r.Ok? && after == before + b
    case Err(e) => r == Err(e) && before <= after
  }

  /** What a decoder does to its buffer. A failed one leaves it partly consumed. */
  ghost predicate Consumes<T>(spec: Result<(T, Bytes)>, r: Result<T>, after: Bytes) {
    match spec
    case Ok((value, rest)) => r == Ok(value) && after == rest
    case Err(e) => r == Err(e)
  }

  method PutSmallString(s: Str, dst: BytesMut) returns (r: Result<()>)
    modifies dst
    ensures Appends(old(dst.data), EncodeSmallString(s), r, dst.data)
  {
    if |s| > 0xFF {
      return Err(CodecError);
    }
    dst.Put([|s|]);
    dst.Put(s);
    Assoc(old(dst.data), [|s|], s);
    return Ok(());
  }

  /** One key and its value; the spec is a single step of `EncodePairs`. */
  method PutPair(key: Str, value: Str, dst: BytesMut) returns (r: Result<()>)
    modifies dst
    ensures Appends(old(dst.data), EncodePair(key, value), r, dst.data)
  {
    hide EncodeSmallString;
    var _ :- PutSmallString(key, dst);
    ghost var before := dst.data;
    r := PutSmallString(value, dst);
    if r.Ok? {
      Assoc(old(dst.data), EncodeSmallString(key).value, EncodeSmallString(value).value);
    } else {
      assert old(dst.data) <= before <= dst.data;
    }
  }

  function EncodePair(key: Str, value: Str): (r: Result<Bytes>)
    ensures r.Err? ==> r.error == CodecError
  {
    var k :- EncodeSmallString(key);
    var v :- EncodeSmallString(value);
    Ok(k + v)
  }

  /** The order in which the map is walked is arbitrary; `order` records it. */
  method PutPairs(headers: Headers, dst: BytesMut) returns (r: Result<()>, ghost order: seq<Str>)
    modifies dst
    ensures Enumerates(order, headers)
    ensures Appends(old(dst.data), EncodePairs(headers, order), r, dst.data)
  {
    hide EncodePair, EncodePairs, PartlyDone, Enumerates;
    ghost var start := dst.data;
    var left := headers.Keys;
    ghost var done: seq<Str> := [];
    PairsEmpty(headers, start);
    PartlyDoneStarts(headers);
    while left != {}
      invariant PartlyDone(headers, done, left)
      invariant left <= headers.Keys && forall i :: 0 <= i < |done| ==> done[i] in headers
      invariant EncodePairs(headers, done).Ok? && dst.data == start + EncodePairs(headers, done).value
      decreases |left|
    {
      var key :| key in left;
      PartlyDoneStep(headers, done, key, left);
      left := left - {key};
      ghost var before := dst.data;
      r := PutPair(key, headers[key], dst);
      PairsSnoc(headers, done, key);
      if r.Err? {
        order := Completed(headers, done, key, left);
        assert start <= before <= dst.data;
        return r, order;
      }
      Assoc(start, EncodePairs(headers, done).value, EncodePair(key, headers[key]).value);
      done := done + [key];
    }
    PartlyDoneEnds(headers, done);
    return Ok(()), done;
  }

  method PutSmallHeaders(headers: Headers, dst: BytesMut) returns (r: Result<()>, ghost order: seq<Str>)
    modifies dst
    ensures Enumerates(order, headers)
    ensures Appends(old(dst.data), EncodeSmallHeaders(headers, order), r, dst.data)
  {
    if |headers| > 0xFF {
      order := AnyOrder(headers, headers.Keys);
      return Err(CodecError), order;
    }
    dst.Put([|headers|]);
    r, order := PutPairs(headers, dst);
    if r.Ok? {
      Assoc(old(dst.data), [|headers|], EncodePairs(headers, order).value);
    }
  }

  /** `done` lists, without repetition, the keys that are not in `left`. */
  ghost predicate PartlyDone(headers: Headers, done: seq<Str>, left: set<Str>) {
    && left <= headers.Keys
    && (forall i :: 0 <= i < |done| ==> done[i] in headers && done[i] !in left)
    && (forall k :: k in headers ==> k in done || k in left)
    && (forall i, j :: 0 <= i < j < |done| ==> done[i] != done[j])
  }

  lemma PartlyDoneStarts(headers: Headers)
    ensures PartlyDone(headers, [], headers.Keys)
  {
  }

  lemma PartlyDoneStep(headers: Headers, done: seq<Str>, key: Str, left: set<Str>)
    requires PartlyDone(headers, done, left) && key in left
    ensures PartlyDone(headers, done + [key], left - {key})
    ensures forall i :: 0 <= i < |done + [key]| ==> (done + [key])[i] in headers
  {
    assert forall k :: k in done ==> k in done + [key];
    assert (done + [key])[|done|] == key;
  }

  lemma PartlyDoneEnds(headers: Headers, done: seq<Str>)
    requires PartlyDone(headers, done, {})
    ensures Enumerates(done, headers)
  {
  }

  lemma PairsEmpty(headers: Headers, start: Bytes)
    ensures EncodePairs(headers, []) == Ok([]) && start == start + []
  {
  }

  /** A walk that fails at `key` is the beginning of a complete one that fails alike. */
  lemma Completed(headers: Headers, done: seq<Str>, key: Str, left: set<Str>) returns (order: seq<Str>)
    requires PartlyDone(headers, done + [key], left) && key in headers
    requires forall i :: 0 <= i < |done| ==> done[i] in headers
    requires EncodePairs(headers, done + [key]).Err?
    ensures Enumerates(order, headers) && EncodePairs(headers, order) == Err(CodecError)
  {
    hide EncodePairs;
    var rest := AnyOrder(headers, left);
    order := done + [key] + rest;
    PairsFail(headers, done + [key], rest);
  }

  /** Any finite set of keys can be listed. */
  ghost function AnyOrder(headers: Headers, keys: set<Str>): (order: seq<Str>)
    requires keys <= headers.Keys
    ensures forall i :: 0 <= i < |order| ==> order[i] in keys
    ensures forall k :: k in keys ==> k in order
    ensures forall i, j :: 0 <= i < j < |order| ==> order[i] != order[j]
    decreases |keys|
  {
    if keys == {} then []
    else
      var k :| k in keys;
      var rest := AnyOrder(headers, keys - {k});
      assert forall q :: q in keys ==> q == k || q in rest;
      [k] + rest
  }

  lemma {:induction false} PairsSnoc(headers: Headers, done: seq<Str>, key: Str)
    requires key in headers && forall i :: 0 <= i < |done| ==> done[i] in headers
    requires EncodePairs(headers, done).Ok?
    ensures var pair := EncodePair(key, headers[key]);
            EncodePairs(headers, done + [key]) ==
              if pair.Ok? then Ok(EncodePairs(headers, done).value + pair.value) else Err(CodecError)
    decreases |done|
  {
    hide EncodeSmallString;
    var k, v := EncodeSmallString(key), EncodeSmallString(headers[key]);
    SmallStringFailure(key);
    SmallStringFailure(headers[key]);
    if done == [] {
      assert EncodePairs(headers, []) == Ok([]);
      assert (done + [key])[1..] == [];
      if k.Ok? && v.Ok? {
        assert k.value + v.value + [] == [] + (k.value + v.value);
      }
    } else {
      assert (done + [key])[1..] == done[1..] + [key];
      PairsSnoc(headers, done[1..], key);
      if k.Ok? && v.Ok? {
        Assoc(EncodeSmallString(done[0]).value + EncodeSmallString(headers[done[0]]).value,
              EncodePairs(headers, done[1..]).value, k.value + v.value);
      }
    }
  }

  lemma SmallStringFailure(s: Str)
    ensures EncodeSmallString(s).Err? ==> EncodeSmallString(s) == Err(CodecError)
  {
  }

  /** A string that is too long fails the whole map, whatever comes after it. */
  lemma {:induction false} PairsFail(headers: Headers, done: seq<Str>, rest: seq<Str>)
    requires forall i :: 0 <= i < |done| ==> done[i] in headers
    requires forall i :: 0 <= i < |rest| ==> rest[i] in headers
    requires EncodePairs(headers, done).Err?
    ensures EncodePairs(headers, done + rest) == Err(CodecError)
    decreases |done|
  {
    assert (done + rest)[1..] == done[1..] + rest;
    if EncodePairs(headers, done[1..]).Err? {
      PairsFail(headers, done[1..], rest);
    }
  }

  method PutTracing(t: Tracing, dst: BytesMut)
    modifies dst
    ensures dst.data == old(dst.data) + EncodeTracing(t)
  {
    dst.Put(U64(t.spanId));
    dst.Put(U64(t.parentId));
    dst.Put(U64(t.traceId));
    dst.Put([t.traceFlags]);
  }

  method PutFields(f: Fields, dst: BytesMut) returns (r: Result<()>, ghost order: seq<Str>)
    modifies dst
    ensures Enumerates(order, f.headers)
    ensures Appends(old(dst.data), EncodeFields(f, order), r, dst.data)
  {
    hide EncodeTracing, EncodeSmallString, EncodeSmallHeaders, U32;
    ghost var start := dst.data;
    match f {
      case RequestFields(ttl, tracing, service, headers) =>
        dst.Put(U32(ttl));
        PutTracing(tracing, dst);
        Assoc(start, U32(ttl), EncodeTracing(tracing));
        ghost var fixed := dst.data;
        r := PutSmallString(service, dst);
        if r.Err? {
          order := AnyOrder(headers, headers.Keys);
          return;
        }
        Assoc(start, U32(ttl) + EncodeTracing(tracing), EncodeSmallString(service).value);
        ghost var named := dst.data;
        r, order := PutSmallHeaders(headers, dst);
        if r.Ok? {
          Assoc(start, U32(ttl) + EncodeTracing(tracing) + EncodeSmallString(service).value,
                EncodeSmallHeaders(headers, order).value);
        } else {
          assert start <= fixed <= named <= dst.data;
        }
      case ResponseFields(code, tracing, headers) =>
        dst.Put([CodeByte(code)]);
        PutTracing(tracing, dst);
        Assoc(start, [CodeByte(code)], EncodeTracing(tracing));
        ghost var fixed := dst.data;
        r, order := PutSmallHeaders(headers, dst);
        if r.Ok? {
          Assoc(start, [CodeByte(code)] + EncodeTracing(tracing), EncodeSmallHeaders(headers, order).value);
        } else {
          assert start <= fixed <= dst.data;
        }
    }
  }

  method PutArgs(args: seq<Slot>, dst: BytesMut) returns (r: Result<()>)
    modifies dst
    ensures Appends(old(dst.data), EncodeArgs(|old(dst.data)|, args), r, dst.data)
  {
    if |args| == 0 || |args| > MAX_FRAME_ARGS {
      return Err(CodecError);
    }
    for i := 0 to |args|
      invariant dst.data == old(dst.data) + SlotsBytes(args[..i])
    {
      ghost var before := dst.data;
      match args[i] {
        case None =>
          dst.Put(U16(0));
        case Some(arg) =>
          dst.Put(U16(AsU16(|arg|)));
          dst.Put(arg);
          Assoc(before, U16(AsU16(|arg|)), arg);
      }
      assert dst.data == before + SlotBytes(args[i]);
      SlotsSnoc(args[..i], args[i]);
      assert args[..i + 1] == args[..i] + [args[i]];
      Assoc(old(dst.data), SlotsBytes(args[..i]), SlotBytes(args[i]));
    }
    assert args[..|args|] == args;
    if |dst.data| > MAX_PAYLOAD {
      return Err(CodecError);
    }
    return Ok(());
  }

  lemma {:induction false} SlotsSnoc(slots: seq<Slot>, slot: Slot)
    ensures SlotsBytes(slots + [slot]) == SlotsBytes(slots) + SlotBytes(slot)
    decreases |slots|
  {
    hide SlotBytes;
    if slots == [] {
      assert (slots + [slot])[1..] == [];
      assert SlotBytes(slot) + [] == [] + SlotBytes(slot);
    } else {
      assert (slots + [slot])[1..] == slots[1..] + [slot];
      SlotsSnoc(slots[1..], slot);
      Assoc(SlotBytes(slots[0]), SlotsBytes(slots[1..]), SlotBytes(slot));
    }
  }

  method PutCallArgs(a: CallArgs, dst: BytesMut) returns (r: Result<()>)
    modifies dst
    ensures Appends(old(dst.data), EncodeCallArgs(|old(dst.data)|, a), r, dst.data)
  {
    hide SlotsBytes;
    dst.Put([ChecksumCode(a.checksumType)]);
    if a.checksumType != NoChecksum {
      if a.checksum == None {
        return Err(CodecError);
      }
      dst.Put(U32(a.checksum.value));
      Assoc(old(dst.data), [ChecksumCode(a.checksumType)], U32(a.checksum.value));
    }
    ghost var checksum, before := EncodeChecksum(a.checksumType, a.checksum).value, dst.data;
    assert before == old(dst.data) + checksum;
    r := PutArgs(a.args, dst);
    if r.Ok? {
      Assoc(old(dst.data), checksum, SlotsBytes(a.args));
    } else {
      assert old(dst.data) <= before <= dst.data;
    }
  }

  /** The first frame of a message, from fields that are already encoded. */
  method EncodeWithFieldsBytes(flags: Flags, fields: Bytes, args: CallArgs) returns (r: Result<Bytes>)
    ensures r == EncodeWithFields(flags, fields, args)
  {
    hide EncodeCallArgs;
    var dst := new BytesMut([]);
    dst.Put([flags]);
    dst.Put(fields);
    assert |dst.data| == 1 + |fields|;
    var _ :- PutCallArgs(args, dst);
    assert dst.data == [flags] + fields + EncodeCallArgs(1 + |fields|, args).value;
    return Ok(dst.data);
  }

  method EncodeCallBytes(c: Call) returns (r: Result<Bytes>)
    ensures exists order :: Enumerates(order, c.fields.headers) && r == EncodeCall(c, order)
  {
    hide EncodeCallArgs, EncodeFields;
    var dst := new BytesMut([]);
    dst.Put([c.flags]);
    ghost var order;
    var ok;
    ok, order := PutFields(c.fields, dst);
    if ok.Err? {
      r := Err(ok.error);
      assert r == EncodeCall(c, order);
      return;
    }
    assert dst.data == [c.flags] + EncodeFields(c.fields, order).value;
    ok := PutCallArgs(c.args, dst);
    r := if ok.Err? then Err(ok.error) else Ok(dst.data);
    assert r == EncodeCall(c, order);
  }

  method EncodeContinueBytes(c: CallContinue) returns (r: Result<Bytes>)
    ensures r == EncodeContinue(c)
  {
    hide EncodeCallArgs;
    var dst := new BytesMut([]);
    dst.Put([c.flags]);
    var _ :- PutCallArgs(c.args, dst);
    assert dst.data == [c.flags] + EncodeCallArgs(1, c.args).value;
    return Ok(dst.data);
  }

  // Decoders

  /** `Buf::get_*` and `copy_to_bytes`: reading past the end panics. */
  method Take(n: nat, src: BytesMut) returns (r: Result<Bytes>)
    modifies src
    ensures Consumes(if n > |old(src.data)| then Err(Panic) else Ok((old(src.data)[..n], old(src.data)[n..])),
                     r, src.data)
  {
    if n > |src.data| {
      return Err(Panic);
    }
    var b := src.SplitTo(n);
    return Ok(b);
  }

  method TakeSmallString(src: BytesMut) returns (r: Result<Str>)
    modifies src
    ensures Consumes(DecodeSmallString(old(src.data)), r, src.data)
  {
    var len :- Take(1, src);
    var bytes :- Take(len[0], src);
    if !IsUtf8(bytes) {
      return Err(CodecError);
    }
    return Ok(bytes);
  }

  method TakeSmallHeaders(src: BytesMut) returns (r: Result<Headers>)
    modifies src
    ensures Consumes(DecodeSmallHeaders(old(src.data)), r, src.data)
  {
    hide DecodeSmallString;
    var n :- Take(1, src);
    var headers: Headers := map[];
    ghost var start := src.data;
    for i := 0 to n[0]
      invariant DecodePairs(n[0], start, map[]) == DecodePairs(n[0] - i, src.data, headers)
    {
      var key :- TakeSmallString(src);
      var value :- TakeSmallString(src);
      headers := headers[key := value];
    }
    return Ok(headers);
  }

  method TakeTracing(src: BytesMut) returns (r: Result<Tracing>)
    modifies src
    ensures Consumes(DecodeTracing(old(src.data)), r, src.data)
  {
    ghost var a := src.data;
    var spanId :- Take(8, src);
    ghost var b := src.data;
    assert GetU64(spanId) == GetU64(a);
    var parentId :- Take(8, src);
    ghost var c := src.data;
    assert GetU64(parentId) == GetU64(b);
    var traceId :- Take(8, src);
    assert GetU64(traceId) == GetU64(c);
    var bits :- Take(1, src);
    if bits[0] >= 2 {
      return Err(CodecError);
    }
    return Ok(Tracing(GetU64(spanId), GetU64(parentId), GetU64(traceId), bits[0]));
  }

  method TakeFields(kind: Kind, src: BytesMut) returns (r: Result<Fields>)
    modifies src
    ensures Consumes(DecodeFields(kind, old(src.data)), r, src.data)
  {
    hide DecodeTracing, DecodeSmallString, DecodeSmallHeaders;
    match kind {
      case Request =>
        var ttl :- Take(4, src);
        assert GetU32(ttl) == GetU32(old(src.data));
        var tracing :- TakeTracing(src);
        var service :- TakeSmallString(src);
        var headers :- TakeSmallHeaders(src);
        return Ok(RequestFields(GetU32(ttl), tracing, service, headers));
      case Response =>
        var code :- Take(1, src);
        if code[0] >= 2 {
          return Err(CodecError);
        }
        var tracing :- TakeTracing(src);
        var headers :- TakeSmallHeaders(src);
        return Ok(ResponseFields(if code[0] == 0 then ResponseOk else ResponseError, tracing, headers));
    }
  }

  method TakeArg(src: BytesMut) returns (r: Result<Slot>)
    modifies src
    ensures Consumes(DecodeArg(old(src.data)), r, src.data)
  {
    var remaining := |src.data|;
    if remaining < 2 {
      return Err(CodecError);
    }
    var lenBytes := src.SplitTo(2);
    var len := GetU16(lenBytes);
    if len == 0 {
      return Ok(None);
    }
    if AsU16(remaining) < 2 {
      return Err(Panic);
    }
    if len > AsU16(remaining) - 2 {
      return Err(CodecError);
    }
    var arg := src.SplitTo(len);
    assert arg == old(src.data)[2..2 + len] && src.data == old(src.data)[2 + len..];
    return Ok(Some(arg));
  }

  method TakeArgs(src: BytesMut) returns (r: Result<seq<Slot>>)
    modifies src
    ensures r == DecodeArgs(old(src.data))
    ensures r.Ok? ==> src.data == []
  {
    hide DecodeArg;
    if |src.data| == 0 {
      return Err(CodecError);
    }
    var args: seq<Slot> := [];
    assert forall slots: seq<Slot> :: [] + slots == slots;
    while src.data != [] && |args| < MAX_FRAME_ARGS
      invariant |args| <= MAX_FRAME_ARGS
      invariant var rest := DecodeSlots(src.data, MAX_FRAME_ARGS - |args|);
                DecodeSlots(old(src.data), MAX_FRAME_ARGS) ==
                  if rest.Ok? then Ok(args + rest.value) else rest
      decreases MAX_FRAME_ARGS - |args|
    {
      ghost var done := args;
      var arg :- TakeArg(src);
      args := args + [arg];
      ghost var rest := DecodeSlots(src.data, MAX_FRAME_ARGS - |args|);
      if rest.Ok? {
        Assoc(done, [arg], rest.value);
      }
    }
    if src.data != [] {
      return Err(CodecError);
    }
    assert args + [] == args;
    return Ok(args);
  }

  method TakeCallArgs(src: BytesMut) returns (r: Result<CallArgs>)
    modifies src
    ensures r == DecodeCallArgs(old(src.data))
  {
    hide DecodeArgs;
    var code :- Take(1, src);
    if code[0] > 3 {
      return Err(CodecError);
    }
    if code[0] == 0 {
      var args :- TakeArgs(src);
      return Ok(CallArgs(NoChecksum, None, args));
    }
    ghost var rest := src.data;
    var value :- Take(4, src);
    assert GetU32(value) == GetU32(rest);
    var args :- TakeArgs(src);
    return Ok(CallArgs(if code[0] == 1 then Crc32 else if code[0] == 2 then Farmhash else Crc32C,
                       Some(GetU32(value)), args));
  }

  method DecodeCallBytes(kind: Kind, src: BytesMut) returns (r: Result<Call>)
    modifies src
    ensures r == DecodeCall(kind, old(src.data))
  {
    hide DecodeFields, DecodeCallArgs;
    var bits :- Take(1, src);
    if bits[0] >= 4 {
      return Err(CodecError);
    }
    var fields :- TakeFields(kind, src);
    var args :- TakeCallArgs(src);
    return Ok(Call(bits[0], fields, args));
  }

  method DecodeContinueBytes(src: BytesMut) returns (r: Result<CallContinue>)
    modifies src
    ensures r == DecodeContinue(old(src.data))
  {
    hide DecodeCallArgs;
    var bits :- Take(1, src);
    if bits[0] >= 4 {
      return Err(CodecError);
    }
    var args :- TakeCallArgs(src);
    return Ok(CallContinue(bits[0], args));
  }
}
