/** Bytes, fixed-width integers, results and the mutable byte buffer shared by every codec. */
module Basics {

  type uint8 = x: int | 0 <= x < 0x100
  type uint16 = x: int | 0 <= x < 0x1_0000
  type uint32 = x: int | 0 <= x < 0x1_0000_0000
  type uint64 = x: int | 0 <= x < 0x1_0000_0000_0000_0000
  type Bytes = seq<uint8>

  datatype Option<+T> = None | Some(value: T)

  /** `Panic` stands for an abort: a read past the end of a
      buffer, an arithmetic overflow, or a branch the program leaves unimplemented. */
  datatype Failure = CodecError | ConnectionError | ChannelError | Panic

  datatype Result<+T> = Ok(value: T) | Err(error: Failure) {
    predicate IsFailure() { Err? }

    function PropagateFailure<U>(): Result<U>
      requires Err?
    {
      Err(error)
    }

    function Extract(): T
      requires Ok?
    {
      value
    }
  }

  /** The `as u16` cast. */
  function AsU16(n: nat): uint16 { n % 0x1_0000 }

  function U16(x: uint16): (b: Bytes)
    ensures |b| == 2
  {
    [x / 0x100, x % 0x100]
  }

  function U32(x: uint32): (b: Bytes)
    ensures |b| == 4
  {
    U16(x / 0x1_0000) + U16(x % 0x1_0000)
  }

  function U64(x: uint64): (b: Bytes)
    ensures |b| == 8
  {
    U32(x / 0x1_0000_0000) + U32(x % 0x1_0000_0000)
  }

  function GetU16(b: Bytes): uint16
    requires |b| >= 2
  {
    b[0] as int * 0x100 + b[1]
  }

  function GetU32(b: Bytes): uint32
    requires |b| >= 4
  {
    GetU16(b) as int * 0x1_0000 + GetU16(b[2..])
  }

  function GetU64(b: Bytes): uint64
    requires |b| >= 8
  {
    GetU32(b) as int * 0x1_0000_0000 + GetU32(b[4..])
  }

  lemma U32RoundTrip(x: uint32, tail: Bytes)
    ensures GetU32(U32(x) + tail) == x
    ensures (U32(x) + tail)[4..] == tail
  {
    assert (U32(x) + tail)[2..] == U16(x % 0x1_0000) + tail;
  }

  lemma U64RoundTrip(x: uint64, tail: Bytes)
    ensures GetU64(U64(x) + tail) == x
    ensures (U64(x) + tail)[8..] == tail
  {
    var hi, lo := x / 0x1_0000_0000, x % 0x1_0000_0000;
    assert U64(x) + tail == U32(hi) + (U32(lo) + tail);
    U32RoundTrip(hi, U32(lo) + tail);
    U32RoundTrip(lo, tail);
  }

  lemma Assoc<T>(a: seq<T>, b: seq<T>, c: seq<T>)
    ensures a + (b + c) == a + b + c
  {
  }

  lemma Assoc4<T>(a: seq<T>, b: seq<T>, c: seq<T>, d: seq<T>)
    ensures a + b + c + d == a + (b + (c + d))
  {
  }

  function Flatten<T>(parts: seq<seq<T>>): seq<T> {
    if parts == [] then [] else parts[0] + Flatten(parts[1..])
  }

  lemma {:induction false} FlattenConcat<T>(a: seq<seq<T>>, b: seq<seq<T>>)
    ensures Flatten(a + b) == Flatten(a) + Flatten(b)
  {
    if a == [] {
      assert a + b == b;
    } else {
      FlattenConcat(a[1..], b);
      assert (a + b)[1..] == a[1..] + b;
      Assoc(a[0], Flatten(a[1..]), Flatten(b));
    }
  }

  /** Length of the well-formed UTF-8 scalar that opens `b`, or 0 when there is none
      (section 4 of RFC 3629). */
  function ScalarLength(b: Bytes): (n: nat)
    ensures n <= |b|
  {
    if |b| >= 1 && b[0] < 0x80 then 1
    else if |b| >= 2 && 0xC2 <= b[0] <= 0xDF && IsTail(b[1]) then 2
    else if |b| >= 3 && IsTail(b[2]) &&
            (|| (b[0] == 0xE0 && 0xA0 <= b[1] <= 0xBF)
             || (b[0] == 0xED && 0x80 <= b[1] <= 0x9F)
             || (0xE1 <= b[0] <= 0xEF && b[0] != 0xED && IsTail(b[1]))) then 3
    else if |b| >= 4 && IsTail(b[2]) && IsTail(b[3]) &&
            (|| (b[0] == 0xF0 && 0x90 <= b[1] <= 0xBF)
             || (b[0] == 0xF4 && 0x80 <= b[1] <= 0x8F)
             || (0xF1 <= b[0] <= 0xF3 && IsTail(b[1]))) then 4
    else 0
  }

  predicate IsTail(x: uint8) { 0x80 <= x <= 0xBF }

  predicate IsUtf8(b: Bytes) {
    b == [] || (ScalarLength(b) > 0 && IsUtf8(b[ScalarLength(b)..]))
  }

  /** A Rust `String`: bytes that are valid UTF-8. */
  type Str = b: Bytes | IsUtf8(b) witness []

  lemma {:induction false} AsciiIsUtf8(b: Bytes)
    requires forall i :: 0 <= i < |b| ==> b[i] < 0x80
    ensures IsUtf8(b)
  {
    if b != [] {
      AsciiIsUtf8(b[1..]);
    }
  }

  /** A byte buffer that encoders append to and decoders consume from the front. */
  class BytesMut {
    var data: Bytes

    constructor (data: Bytes)
      ensures this.data == data
    {
      this.data := data;
    }

    method Put(b: Bytes)
      modifies this
      ensures data == old(data) + b
    {
      data := data + b;
    }

    /** Removes and returns the first `n` bytes. */
    method SplitTo(n: nat) returns (b: Bytes)
      requires n <= |data|
      modifies this
      ensures |b| == n && old(data) == b + data
    {
      b := data[..n];
      data := data[n..];
    }
  }
}
