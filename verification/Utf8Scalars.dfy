/** UTF-8 (RFC 3629, section 3) as the encoding of scalar values, and the byte-wise check of Characters against it. */
module Utf8Scalars {
  import opened Arithmetic
  import opened Characters

  /** A Unicode scalar value: no surrogate. */
  predicate IsScalar(scalar: int) {
    0 <= scalar < 0xD800 || 0xE000 <= scalar < 0x110000
  }

  function Encoded(scalar: int): Bytes
    requires IsScalar(scalar)
  {
    if scalar < 0x80 then [scalar]
    else if scalar < 0x800 then [0xC0 + scalar / 64, 0x80 + scalar % 64]
    else if scalar < 0x10000 then [0xE0 + scalar / 4096, 0x80 + scalar / 64 % 64, 0x80 + scalar % 64]
    else [0xF0 + scalar / 262144, 0x80 + scalar / 4096 % 64, 0x80 + scalar / 64 % 64, 0x80 + scalar % 64]
  }

  function EncodedText(scalars: seq<int>): Bytes
    requires forall scalar :: scalar in scalars ==> IsScalar(scalar)
  {
    if scalars == [] then [] else Encoded(scalars[0]) + EncodedText(scalars[1..])
  }

  /** An encoded scalar is recognised by its first bytes. */
  lemma WidthOfEncoded(scalar: int, rest: Bytes)
    requires IsScalar(scalar)
    ensures ScalarWidth(Encoded(scalar) + rest) == |Encoded(scalar)|
  {
    hide ScalarWidth, Encoded;
    var text := Encoded(scalar) + rest;
    EncodedBytes(scalar);
    WidthByBytes(text, |Encoded(scalar)|);
  }

  /** Lead and continuation bytes of an encoded scalar. */
  ghost predicate WellFormed(text: Bytes, width: nat) {
    1 <= width <= 4 && width <= |text| &&
    (width == 1 ==> text[0] < 0x80) && (width == 2 ==> 0xC2 <= text[0] <= 0xDF) &&
    (width == 3 ==> 0xE0 <= text[0] <= 0xEF && (text[0] == 0xE0 ==> text[1] >= 0xA0) &&
                    (text[0] == 0xED ==> text[1] <= 0x9F)) &&
    (width == 4 ==> 0xF0 <= text[0] <= 0xF4 && (text[0] == 0xF0 ==> text[1] >= 0x90) &&
                    (text[0] == 0xF4 ==> text[1] <= 0x8F)) &&
    forall i :: 1 <= i < width ==> 0x80 <= text[i] <= 0xBF
  }

  lemma EncodedBytes(scalar: int)
    requires IsScalar(scalar)
    ensures WellFormed(Encoded(scalar), |Encoded(scalar)|)
  {
  }

  lemma WidthByBytes(text: Bytes, width: nat)
    requires WellFormed(text, width)
    ensures ScalarWidth(text) == width
  {
  }

  lemma TwoBytes(a: int, b: int)
    requires 0xC2 <= a <= 0xDF && 0x80 <= b <= 0xBF
    ensures var scalar := 64 * (a - 0xC0) + (b - 0x80);
            IsScalar(scalar) && Encoded(scalar) == [a, b]
  {
  }

  lemma ThreeBytes(a: int, b: int, c: int)
    requires 0xE0 <= a <= 0xEF && 0x80 <= b <= 0xBF && 0x80 <= c <= 0xBF
    requires (a == 0xE0 ==> b >= 0xA0) && (a == 0xED ==> b <= 0x9F)
    ensures var scalar := 4096 * (a - 0xE0) + 64 * (b - 0x80) + (c - 0x80);
            IsScalar(scalar) && Encoded(scalar) == [a, b, c]
  {
    var scalar := 4096 * (a - 0xE0) + 64 * (b - 0x80) + (c - 0x80);
    var upper := 64 * (a - 0xE0) + (b - 0x80);
    Divides(scalar, 4096, a - 0xE0, 64 * (b - 0x80) + (c - 0x80));
    Divides(scalar, 64, upper, c - 0x80);
    Divides(upper, 64, a - 0xE0, b - 0x80);
  }

  lemma FourBytes(a: int, b: int, c: int, d: int)
    requires 0xF0 <= a <= 0xF4 && 0x80 <= b <= 0xBF && 0x80 <= c <= 0xBF && 0x80 <= d <= 0xBF
    requires (a == 0xF0 ==> b >= 0x90) && (a == 0xF4 ==> b <= 0x8F)
    ensures var scalar := 262144 * (a - 0xF0) + 4096 * (b - 0x80) + 64 * (c - 0x80) + (d - 0x80);
            IsScalar(scalar) && Encoded(scalar) == [a, b, c, d]
  {
    var scalar := 262144 * (a - 0xF0) + 4096 * (b - 0x80) + 64 * (c - 0x80) + (d - 0x80);
    var upper := 64 * (a - 0xF0) + (b - 0x80);
    var middle := 64 * upper + (c - 0x80);
    Divides(scalar, 262144, a - 0xF0, 4096 * (b - 0x80) + 64 * (c - 0x80) + (d - 0x80));
    Divides(scalar, 4096, upper, 64 * (c - 0x80) + (d - 0x80));
    Divides(scalar, 64, middle, d - 0x80);
    Divides(upper, 64, a - 0xF0, b - 0x80);
    Divides(middle, 64, upper, c - 0x80);
  }

  /** What is recognised is the encoding of a scalar. */
  lemma ScalarAtFront(text: Bytes) returns (scalar: int)
    requires text != [] && ScalarWidth(text) > 0
    ensures IsScalar(scalar) && Encoded(scalar) == text[..ScalarWidth(text)]
  {
    hide Encoded, IsScalar;
    var width := ScalarWidth(text);
    var a: int := text[0];
    var b: int := if width > 1 then text[1] else 0x80;
    var c: int := if width > 2 then text[2] else 0x80;
    var d: int := if width > 3 then text[3] else 0x80;
    if width == 1 {
      scalar := a;
      OneByte(a);
    } else if width == 2 {
      scalar := 64 * (a - 0xC0) + (b - 0x80);
      TwoBytes(a, b);
    } else if width == 3 {
      scalar := 4096 * (a - 0xE0) + 64 * (b - 0x80) + (c - 0x80);
      ThreeBytes(a, b, c);
    } else {
      scalar := 262144 * (a - 0xF0) + 4096 * (b - 0x80) + 64 * (c - 0x80) + (d - 0x80);
      FourBytes(a, b, c, d);
    }
  }

  lemma OneByte(a: int)
    requires 0 <= a < 0x80
    ensures IsScalar(a) && Encoded(a) == [a]
  {
  }

  /** Text is valid exactly when it is the encoding of a list of scalars. */
  lemma ValidIsEncoded(text: Bytes)
    ensures ValidUtf8(text) <==>
              exists scalars: seq<int> :: (forall scalar :: scalar in scalars ==> IsScalar(scalar)) &&
                                          EncodedText(scalars) == text
  {
    if ValidUtf8(text) { var scalars := ScalarsOf(text); }
    if scalars: seq<int> :| (forall scalar :: scalar in scalars ==> IsScalar(scalar)) && EncodedText(scalars) == text {
      EncodedIsValid(scalars);
    }
  }

  lemma {:induction false} ScalarsOf(text: Bytes) returns (scalars: seq<int>)
    requires ValidUtf8(text)
    ensures (forall scalar :: scalar in scalars ==> IsScalar(scalar)) && EncodedText(scalars) == text
    decreases |text|
  {
    hide ScalarWidth, Encoded, IsScalar;
    if text == [] {
      scalars := [];
    } else {
      var width := ScalarWidth(text);
      var first := ScalarAtFront(text);
      var rest := ScalarsOf(text[width..]);
      scalars := [first] + rest;
      assert scalars[1..] == rest && text == text[..width] + text[width..];
    }
  }

  lemma {:induction false} EncodedIsValid(scalars: seq<int>)
    requires forall scalar :: scalar in scalars ==> IsScalar(scalar)
    ensures ValidUtf8(EncodedText(scalars))
  {
    hide ScalarWidth, Encoded, IsScalar;
    if scalars != [] {
      EncodedIsValid(scalars[1..]);
      var first, rest := Encoded(scalars[0]), EncodedText(scalars[1..]);
      WidthOfEncoded(scalars[0], rest);
      EncodedNotEmpty(scalars[0]);
      assert (first + rest)[|first|..] == rest;
    }
  }

  lemma EncodedNotEmpty(scalar: int)
    requires IsScalar(scalar)
    ensures Encoded(scalar) != []
  {
  }
}
