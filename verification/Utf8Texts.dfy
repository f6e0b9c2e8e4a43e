// What valid UTF-8 is: the encodings of the Unicode scalar values (RFC 3629, section 3).

module Utf8Texts {
  import opened Bytes
  import opened Sequences

  /** A code point that is not a surrogate. */
  type Scalar = n: int | 0 <= n <= 0xD7FF || 0xE000 <= n <= 0x10FFFF witness 0

  /** The table of RFC 3629: leading bits, and six bits of the number in each further byte. */
  function ScalarBytes(n: Scalar): (s: Bytes)
    ensures 1 <= |s| <= 4
  {
    if n <= 0x7F then [n]
    else if n <= 0x7FF then [0xC0 + n / 0x40, 0x80 + n % 0x40]
    else if n <= 0xFFFF then [0xE0 + n / 0x1000, 0x80 + n / 0x40 % 0x40, 0x80 + n % 0x40]
    else [0xF0 + n / 0x4_0000, 0x80 + n / 0x1000 % 0x40, 0x80 + n / 0x40 % 0x40, 0x80 + n % 0x40]
  }

  function Utf8(text: seq<Scalar>): Bytes
  {
    if text == [] then [] else ScalarBytes(text[0]) + Utf8(text[1..])
  }

  lemma WidthOfScalar(n: Scalar, rest: Bytes)
    ensures CharWidth(ScalarBytes(n) + rest) == |ScalarBytes(n)|
  {
    var s := ScalarBytes(n) + rest;
    assert forall i | 0 <= i < |ScalarBytes(n)| :: s[i] == ScalarBytes(n)[i];
  }

  /** Every sequence that the check takes for a character is that of a scalar value. */
  lemma ScalarOfWidth(s: Bytes) returns (n: Scalar)
    requires CharWidth(s) > 0
    ensures ScalarBytes(n) == s[..CharWidth(s)]
  {
    match CharWidth(s) {
      case 1 => n := s[0] as int;
      case 2 => n := TwoBytes(s[0], s[1]);
      case 3 => n := ThreeBytes(s[0], s[1], s[2]);
      case _ => n := FourBytes(s[0], s[1], s[2], s[3]);
    }
  }

  lemma LowBits(high: int, low: int)
    requires 0 <= low < 0x40
    ensures (high * 0x40 + low) / 0x40 == high && (high * 0x40 + low) % 0x40 == low
  {
  }

  lemma Shifted(n: int)
    ensures n / 0x1000 == n / 0x40 / 0x40 && n / 0x4_0000 == n / 0x1000 / 0x40
  {
  }

  lemma TwoBytes(a: Byte, b: Byte) returns (n: Scalar)
    requires 0xC2 <= a <= 0xDF && Continuation(b)
    ensures ScalarBytes(n) == [a, b]
  {
    n := (a as int - 0xC0) * 0x40 + (b as int - 0x80);
  }

  lemma ThreeBytes(a: Byte, b: Byte, c: Byte) returns (n: Scalar)
    requires 0xE0 <= a <= 0xEF && Continuation(b) && Continuation(c)
    requires (a == 0xE0 ==> 0xA0 <= b) && (a == 0xED ==> b <= 0x9F)
    ensures ScalarBytes(n) == [a, b, c]
  {
    var x, y, z := a as int - 0xE0, b as int - 0x80, c as int - 0x80;
    LowBits(x * 0x40 + y, z);
    LowBits(x, y);
    n := (x * 0x40 + y) * 0x40 + z;
    Shifted(n);
  }

  lemma FourBytes(a: Byte, b: Byte, c: Byte, d: Byte) returns (n: Scalar)
    requires 0xF0 <= a <= 0xF4 && Continuation(b) && Continuation(c) && Continuation(d)
    requires (a == 0xF0 ==> 0x90 <= b) && (a == 0xF4 ==> b <= 0x8F)
    ensures ScalarBytes(n) == [a, b, c, d]
  {
    var w, x, y, z := a as int - 0xF0, b as int - 0x80, c as int - 0x80, d as int - 0x80;
    LowBits((w * 0x40 + x) * 0x40 + y, z);
    LowBits(w * 0x40 + x, y);
    LowBits(w, x);
    n := ((w * 0x40 + x) * 0x40 + y) * 0x40 + z;
    Shifted(n);
  }

  lemma {:induction false} TextIsValid(text: seq<Scalar>)
    ensures ValidUtf8(Utf8(text))
  {
    if text != [] {
      var rest := Utf8(text[1..]);
      WidthOfScalar(text[0], rest);
      assert (ScalarBytes(text[0]) + rest)[|ScalarBytes(text[0])|..] == rest;
      TextIsValid(text[1..]);
    }
  }

  lemma {:induction false} ValidIsText(s: Bytes) returns (text: seq<Scalar>)
    requires ValidUtf8(s)
    ensures Utf8(text) == s
  {
    if s == [] {
      text := [];
    } else {
      var n := ScalarOfWidth(s);
      var more := ValidIsText(s[CharWidth(s)..]);
      text := [n] + more;
      assert text[1..] == more;
      assert s == s[..CharWidth(s)] + s[CharWidth(s)..];
    }
  }

  /** A header value is recorded exactly if it encodes some text. */
  lemma Utf8Exactly(s: Bytes)
    ensures ValidUtf8(s) <==> exists text :: Utf8(text) == s
  {
    if ValidUtf8(s) {
      var text := ValidIsText(s);
    }
    if text :| Utf8(text) == s {
      TextIsValid(text);
    }
  }
}
