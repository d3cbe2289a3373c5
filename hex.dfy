/**
 * Hexadecimal text as the encoder writes and reads it: the digit alphabet,
 * the zero-padded upper-case rendering produced by Rust's `{:0NX}` format,
 * and the value of a digit string as `u8::from_str_radix(_, 16)` reads it.
 */
module Hexadecimal {

  /** An unsigned 8-bit value (Rust `u8`). */
  type byte = b: int | 0 <= b < 0x100

  /** An unsigned 16-bit value (Rust `u16`). */
  type uint16 = a: int | 0 <= a < 0x1_0000

  predicate IsUpperHexDigit(c: char) {
    '0' <= c <= '9' || 'A' <= c <= 'F'
  }

  /** A digit `from_str_radix(_, 16)` accepts: either case. */
  predicate IsHexDigit(c: char) {
    IsUpperHexDigit(c) || 'a' <= c <= 'f'
  }

  predicate AllHexDigits(s: string) {
    forall i | 0 <= i < |s| :: IsHexDigit(s[i])
  }

  predicate AllUpperHexDigits(s: string) {
    forall i | 0 <= i < |s| :: IsUpperHexDigit(s[i])
  }

  function DigitValue(c: char): (d: nat)
    requires IsHexDigit(c)
    ensures d < 16
  {
    if '0' <= c <= '9' then c as int - '0' as int
    else if 'A' <= c <= 'F' then c as int - 'A' as int + 10
    else c as int - 'a' as int + 10
  }

  /** The upper-case digit of value `d`, the one `{:X}` prints. */
  function HexDigit(d: nat): (c: char)
    requires d < 16
    ensures IsUpperHexDigit(c) && DigitValue(c) == d
  {
    if d < 10 then ('0' as int + d) as char else ('A' as int + d - 10) as char
  }

  lemma DigitOfValue(c: char)
    requires IsUpperHexDigit(c)
    ensures HexDigit(DigitValue(c)) == c
  {
  }

  function Pow16(n: nat): (p: nat)
    ensures p >= 1
  {
    if n == 0 then 1 else 16 * Pow16(n - 1)
  }

  /** The value of a string of hex digits, most significant digit first. */
  function ValueOf(s: string): (v: nat)
    requires AllHexDigits(s)
    ensures v < Pow16(|s|)
  {
    if s == [] then 0 else 16 * ValueOf(s[..|s| - 1]) + DigitValue(s[|s| - 1])
  }

  /**
   * `format!("{:0width$X}", v)`: upper-case hex digits of `v`, left-padded
   * with zeros to at least `width` digits (at least one digit when `width`
   * is 0). Exactly `width` digits are written whenever `v` fits in `width`
   * digits; HexValue shows that the digits read back as `v`.
   */
  function Hex(v: nat, width: nat): (s: string)
    ensures |s| >= 1 && |s| >= width
    ensures 1 <= width && v < Pow16(width) ==> |s| == width
    decreases v + width
  {
    (if v < 16 && width <= 1 then "" else Hex(v / 16, if width == 0 then 0 else width - 1))
      + [HexDigit(v % 16)]
  }

  /** The rendering is all upper-case digits, and its value is `v`. */
  lemma {:induction false} HexValue(v: nat, width: nat)
    ensures AllUpperHexDigits(Hex(v, width)) && AllHexDigits(Hex(v, width))
    ensures ValueOf(Hex(v, width)) == v
    decreases v + width
  {
    var s := Hex(v, width);
    var rest := if v < 16 && width <= 1 then "" else Hex(v / 16, if width == 0 then 0 else width - 1);
    if !(v < 16 && width <= 1) {
      HexValue(v / 16, if width == 0 then 0 else width - 1);
    }
    assert s == rest + [HexDigit(v % 16)] && s[..|s| - 1] == rest;
  }

  /** The last digit of a rendering at least two digits wide, and the digits before it. */
  lemma HexSnoc(v: nat, width: nat, w: nat, d: nat)
    requires width >= 2 && d < 16 && v == 16 * w + d
    ensures Hex(v, width) == Hex(w, width - 1) + [HexDigit(d)]
  {
    assert v / 16 == w && v % 16 == d;
  }

  /** A string of upper-case digits is the `{:0NX}` rendering of its own value. */
  lemma {:induction false} HexOfValue(s: string)
    requires |s| >= 1 && AllUpperHexDigits(s)
    ensures AllHexDigits(s) && Hex(ValueOf(s), |s|) == s
  {
    var init, last := s[..|s| - 1], s[|s| - 1];
    assert s == init + [last];
    var d := DigitValue(last);
    DigitOfValue(last);
    assert ValueOf(s) == 16 * ValueOf(init) + d;
    if |s| == 1 {
      assert ValueOf(init) == 0;
      assert Hex(ValueOf(s), 1) == [HexDigit(d)];
    } else {
      HexOfValue(init);
      HexSnoc(ValueOf(s), |s|, ValueOf(init), d);
    }
  }

  /** Two digits: the value of a pair, most significant digit first. */
  lemma PairValue(s: string)
    requires |s| == 2 && AllHexDigits(s)
    ensures ValueOf(s) == 16 * DigitValue(s[0]) + DigitValue(s[1])
  {
    assert s[..1][..0] == [];
  }

  /** `{:04X}` of an address is `{:02X}` of its high byte then of its low byte. */
  lemma HexWord(a: uint16)
    ensures Hex(a, 4) == Hex(a / 0x100, 2) + Hex(a % 0x100, 2)
  {
    var hi, lo := Hex(a / 0x100, 2), Hex(a % 0x100, 2);
    HexValue(a / 0x100, 2);
    HexValue(a % 0x100, 2);
    var s := hi + lo;
    assert AllUpperHexDigits(s);
    PairValue(hi);
    PairValue(lo);
    assert s[..3][..2] == hi;
    assert s[..2][..1] == hi[..1];
    assert hi[..1][..0] == [];
    assert ValueOf(s) == a;
    HexOfValue(s);
  }

  /**
   * One byte as its two upper-case digits, high digit first. This is
   * `Hex(b, 2)` (see `ByteTextIsHex`) written without recursion, so that
   * proofs about whole data fields need not unfold `Hex` once per byte.
   */
  function ByteText(b: byte): (s: string)
    ensures |s| == 2
  {
    [HexDigit(b / 16), HexDigit(b % 16)]
  }

  /** ByteText is the `{:02X}` rendering of a byte. */
  lemma ByteTextIsHex(b: byte)
    ensures ByteText(b) == Hex(b, 2)
  {
    assert Hex(b, 2) == Hex(b / 16, 1) + [HexDigit(b % 16)];
  }

  /**
   * The data field: every byte as two upper-case digits, in order
   * (`bytes.iter().map(|b| format!("{:02X}", b)).collect()` joined).
   */
  function HexEncode(bs: seq<byte>): (s: string)
    ensures |s| == 2 * |bs|
  {
    if bs == [] then "" else ByteText(bs[0]) + HexEncode(bs[1..])
  }

  /** The data field of four bytes, which spares the worked examples the evaluation of `HexEncode` on literals. */
  lemma HexEncodeOfFour(bs: seq<byte>)
    requires |bs| == 4
    ensures HexEncode(bs) == ByteText(bs[0]) + ByteText(bs[1]) + ByteText(bs[2]) + ByteText(bs[3])
  {
    assert HexEncode(bs[3..]) == ByteText(bs[3]) + HexEncode(bs[4..]);
    assert HexEncode(bs[2..]) == ByteText(bs[2]) + HexEncode(bs[3..]);
    assert HexEncode(bs[1..]) == ByteText(bs[1]) + HexEncode(bs[2..]);
  }

  lemma {:induction false} HexEncodeDigits(bs: seq<byte>)
    ensures AllUpperHexDigits(HexEncode(bs)) && AllHexDigits(HexEncode(bs))
  {
    if bs != [] {
      HexEncodeDigits(bs[1..]);
    }
  }

  lemma {:induction false} HexEncodeConcat(x: seq<byte>, y: seq<byte>)
    ensures HexEncode(x + y) == HexEncode(x) + HexEncode(y)
  {
    if x != [] {
      assert (x + y)[0] == x[0] && (x + y)[1..] == x[1..] + y;
      HexEncodeConcat(x[1..], y);
      assert HexEncode(x + y) == ByteText(x[0]) + HexEncode(x[1..] + y);
    } else {
      assert x + y == y;
    }
  }
}
