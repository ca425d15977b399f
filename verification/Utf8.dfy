/** `IsUtf8` is validity as the standard defines it: the bytes are the encodings of some Unicode
    scalar values, one after another (section 3 of RFC 3629). */
module Utf8 {
  import opened Basics

  predicate IsScalar(v: int) { 0 <= v < 0xD800 || 0xE000 <= v < 0x11_0000 }

  /** The encoding of one scalar value. */
  function EncodeScalar(v: int): Bytes
    requires IsScalar(v)
  {
    if v < 0x80 then [v]
    else if v < 0x800 then [0xC0 + v / 0x40, 0x80 + v % 0x40]
    else if v < 0x1_0000 then [0xE0 + v / 0x1000, 0x80 + v / 0x40 % 0x40, 0x80 + v % 0x40]
    else [0xF0 + v / 0x4_0000, 0x80 + v / 0x1000 % 0x40, 0x80 + v / 0x40 % 0x40, 0x80 + v % 0x40]
  }

  function EncodeText(text: seq<int>): Bytes
    requires forall i :: 0 <= i < |text| ==> IsScalar(text[i])
  {
    if text == [] then [] else EncodeScalar(text[0]) + EncodeText(text[1..])
  }

  lemma ScalarIsRecognised(v: int, tail: Bytes)
    requires IsScalar(v)
    ensures ScalarLength(EncodeScalar(v) + tail) == |EncodeScalar(v)| > 0
    ensures (EncodeScalar(v) + tail)[|EncodeScalar(v)|..] == tail
  {
  }

  /** Digits in base 64 are recovered by division. */
  lemma Digits(a: int, b: int, c: int, d: int)
    requires 0 <= b < 0x40 && 0 <= c < 0x40 && 0 <= d < 0x40
    ensures var v := a * 0x4_0000 + b * 0x1000 + c * 0x40 + d;
            v / 0x4_0000 == a && v / 0x1000 % 0x40 == b && v / 0x40 % 0x40 == c && v % 0x40 == d
  {
    var v := a * 0x4_0000 + b * 0x1000 + c * 0x40 + d;
    assert v / 0x40 == a * 0x1000 + b * 0x40 + c;
    assert v / 0x1000 == a * 0x40 + b;
  }

  lemma ThreeBytes(x: int, y: int, z: int) returns (v: int)
    requires 0 <= x < 0x10 && 0 <= y < 0x40 && 0 <= z < 0x40
    requires x == 0 ==> y >= 0x20
    requires x == 0xD ==> y < 0x20
    ensures IsScalar(v) && EncodeScalar(v) == [0xE0 + x, 0x80 + y, 0x80 + z]
  {
    v := x * 0x1000 + y * 0x40 + z;
    assert 0x800 <= v < 0x1_0000;
    assert v < 0xD800 || v >= 0xE000;
    Digits(0, x, y, z);
    assert v / 0x1000 == x;
  }

  lemma FourBytes(w: int, x: int, y: int, z: int) returns (v: int)
    requires 0 <= w <= 4 && 0 <= x < 0x40 && 0 <= y < 0x40 && 0 <= z < 0x40
    requires w == 0 ==> x >= 0x10
    requires w == 4 ==> x < 0x10
    ensures IsScalar(v) && EncodeScalar(v) == [0xF0 + w, 0x80 + x, 0x80 + y, 0x80 + z]
  {
    v := w * 0x4_0000 + x * 0x1000 + y * 0x40 + z;
    assert 0x1_0000 <= v < 0x11_0000;
    Digits(w, x, y, z);
  }

  lemma RecognisedIsScalar(b: Bytes) returns (v: int)
    requires ScalarLength(b) > 0
    ensures IsScalar(v) && EncodeScalar(v) == b[..ScalarLength(b)]
  {
    var n := ScalarLength(b);
    if n == 1 {
      v := b[0];
    } else if n == 2 {
      v := (b[0] as int - 0xC0) * 0x40 + (b[1] as int - 0x80);
    } else {
      hide EncodeScalar, IsScalar;
      if n == 3 {
        v := ThreeBytes(b[0] as int - 0xE0, b[1] as int - 0x80, b[2] as int - 0x80);
        assert b[..3] == [b[0], b[1], b[2]];
      } else {
        v := FourBytes(b[0] as int - 0xF0, b[1] as int - 0x80, b[2] as int - 0x80, b[3] as int - 0x80);
        assert b[..4] == [b[0], b[1], b[2], b[3]];
      }
    }
  }

  lemma {:induction false} TextIsUtf8(text: seq<int>)
    requires forall i :: 0 <= i < |text| ==> IsScalar(text[i])
    ensures IsUtf8(EncodeText(text))
    decreases |text|
  {
    if text != [] {
      TextIsUtf8(text[1..]);
      ScalarIsRecognised(text[0], EncodeText(text[1..]));
    }
  }

  lemma {:induction false} Utf8IsText(b: Bytes) returns (text: seq<int>)
    requires IsUtf8(b)
    ensures forall i :: 0 <= i < |text| ==> IsScalar(text[i])
    ensures EncodeText(text) == b
    decreases |b|
  {
    if b == [] {
      text := [];
    } else {
      var n := ScalarLength(b);
      var v := RecognisedIsScalar(b);
      var rest := Utf8IsText(b[n..]);
      text := [v] + rest;
      assert text[1..] == rest;
      assert b == b[..n] + b[n..];
    }
  }

  /** Bytes are valid exactly when they encode some text. */
  lemma ValidIff(b: Bytes)
    ensures IsUtf8(b) <==>
              exists text: seq<int> :: (forall i :: 0 <= i < |text| ==> IsScalar(text[i])) && EncodeText(text) == b
  {
    if IsUtf8(b) {
      var text := Utf8IsText(b);
    }
    forall text: seq<int> | (forall i :: 0 <= i < |text| ==> IsScalar(text[i])) && EncodeText(text) == b
      ensures IsUtf8(b)
    {
      TextIsUtf8(text);
    }
  }
}
