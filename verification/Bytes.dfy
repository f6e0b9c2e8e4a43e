// Bytes, big-endian integers and UTF-8, as the wire code sees them.

module Bytes {

  type Byte = b: int | 0 <= b < 0x100
  type Bytes = seq<Byte>

  type U16 = n: int | 0 <= n < 0x1_0000
  type U32 = n: int | 0 <= n < 0x1_0000_0000

  /** A big-endian byte string as a number: `from_be_bytes`. */
  function Number(s: Bytes): nat
  {
    if s == [] then 0 else Number(s[..|s| - 1]) * 0x100 + s[|s| - 1] as int
  }

  lemma NumberSnoc(s: Bytes, b: Byte)
    ensures Number(s + [b]) == Number(s) * 0x100 + b as int
  {
    assert (s + [b])[..|s|] == s;
  }

  /** `(n as u16).to_be_bytes()` */
  function BigEndian16(n: U16): (s: Bytes)
    ensures |s| == 2 && Number(s) == n
  {
    NumberSnoc([], n as int / 0x100);
    NumberSnoc([] + [n as int / 0x100], n as int % 0x100);
    [] + [n as int / 0x100] + [n as int % 0x100]
  }

  /** `(n as u32).to_be_bytes()` */
  function BigEndian32(n: U32): (s: Bytes)
    ensures |s| == 4 && Number(s) == n
  {
    var high := BigEndian16(n as int / 0x1_0000);
    NumberSnoc(high, n as int / 0x100 % 0x100);
    NumberSnoc(high + [n as int / 0x100 % 0x100], n as int % 0x100);
    high + [n as int / 0x100 % 0x100] + [n as int % 0x100]
  }

  /** Printing the number that was read gives the bytes back. */
  lemma BigEndianOfNumber(s: Bytes)
    requires |s| == 2
    ensures Number(s) < 0x1_0000 && BigEndian16(Number(s)) == s
  {
    assert s[..1] == [s[0]];
    assert Number(s[..1]) == s[0] as int;
  }

  /** The bytes of an ASCII literal. */
  function Ascii(s: string): (r: Bytes)
    requires forall i | 0 <= i < |s| :: s[i] as int < 0x80
    ensures |r| == |s| && forall i | 0 <= i < |s| :: r[i] == s[i] as int
  {
    seq(|s|, i requires 0 <= i < |s| => s[i] as int)
  }

  // ---------------------------------------------------------------------------------------------
  // UTF-8 (RFC 3629, section 4), which `str::from_utf8` checks.

  predicate Continuation(b: Byte) { 0x80 <= b <= 0xBF }

  /** The length of the well-formed sequence at the front of `s`, or 0 if there is none. */
  function CharWidth(s: Bytes): (n: nat)
    ensures n <= |s|
  {
    if |s| >= 1 && s[0] < 0x80 then 1
    else if |s| >= 2 && 0xC2 <= s[0] <= 0xDF && Continuation(s[1]) then 2
    else if |s| >= 3 && 0xE0 <= s[0] <= 0xEF && Continuation(s[1]) && Continuation(s[2])
            && (s[0] == 0xE0 ==> 0xA0 <= s[1]) && (s[0] == 0xED ==> s[1] <= 0x9F) then 3
    else if |s| >= 4 && 0xF0 <= s[0] <= 0xF4 && Continuation(s[1]) && Continuation(s[2]) && Continuation(s[3])
            && (s[0] == 0xF0 ==> 0x90 <= s[1]) && (s[0] == 0xF4 ==> s[1] <= 0x8F) then 4
    else 0
  }

  predicate ValidUtf8(s: Bytes)
  {
    s == [] || (CharWidth(s) > 0 && ValidUtf8(s[CharWidth(s)..]))
  }

  /** A Rust `str`. */
  type Str = s: Bytes | ValidUtf8(s) witness []

  lemma {:induction false} AsciiIsUtf8(s: Bytes)
    requires forall i | 0 <= i < |s| :: s[i] < 0x80
    ensures ValidUtf8(s)
  {
    if s != [] {
      AsciiIsUtf8(s[1..]);
    }
  }
}
