/**
 * `parse_hex_string`: a text of hex-digit pairs decoded into bytes, each
 * pair read most significant digit first. Text whose length is odd decodes
 * to no bytes at all. Rust's `String::len` counts the bytes of the UTF-8
 * encoding, not characters, so that is the length tested here.
 */
module Parse {
  import opened Hexadecimal

  /** The number of bytes UTF-8 takes to encode one character. */
  function Utf8Width(c: char): (n: nat)
    ensures 1 <= n <= 4
    ensures n == 1 <==> c as int < 0x80
  {
    if c as int < 0x80 then 1
    else if c as int < 0x800 then 2
    else if c as int < 0x1_0000 then 3
    else 4
  }

  /** `String::len`: the length of the text's UTF-8 encoding in bytes. */
  function Utf8Length(s: string): nat {
    if s == [] then 0 else Utf8Width(s[0]) + Utf8Length(s[1..])
  }

  /** Hex digits are ASCII, so the byte length of hex text is its character count. */
  lemma {:induction false} HexTextLength(s: string)
    requires AllHexDigits(s)
    ensures Utf8Length(s) == |s|
  {
    if s != [] {
      assert IsHexDigit(s[0]);
      HexTextLength(s[1..]);
    }
  }

  /**
   * What the decoder needs of its input: when the byte length is even,
   * every character is a hex digit. Otherwise some two-byte slice is either
   * not on character boundaries (`get` fails) or holds a non-digit
   * (`from_str_radix` fails), and the program stops. Text whose byte length
   * is odd is never looked at.
   */
  predicate Parsable(s: string) {
    Utf8Length(s) % 2 == 0 ==> AllHexDigits(s)
  }

  /** The bytes of a text of hex-digit pairs, first pair first. */
  function Pairs(s: string): (bs: seq<byte>)
    requires |s| % 2 == 0 && AllHexDigits(s)
    ensures |bs| == |s| / 2
  {
    if s == [] then []
    else
      assert Pow16(2) == 0x100;
      [ValueOf(s[..2])] + Pairs(s[2..])
  }

  function ParseHex(s: string): seq<byte>
    requires Parsable(s)
  {
    if Utf8Length(s) % 2 != 0 then []
    else
      HexTextLength(s);
      Pairs(s)
  }

  /** Text of odd byte length yields the empty byte sequence, not an error. */
  lemma ParseHexOdd(s: string)
    requires Utf8Length(s) % 2 != 0
    ensures ParseHex(s) == []
  {
  }

  /**
   * Bytes, not characters, decide the parity: "é" (two bytes) must be
   * digits and is not, while "éA" (three bytes) is odd and yields nothing.
   */
  lemma NonAsciiParity()
    ensures Utf8Length("\U{E9}") == 2 && !Parsable("\U{E9}")
    ensures Utf8Length("\U{E9}A") == 3 && Parsable("\U{E9}A") && ParseHex("\U{E9}A") == []
  {
    assert !IsHexDigit("\U{E9}"[0]);
  }

  /**
   * Even-length text yields half as many bytes, byte `k` being the value
   * of characters `2k` and `2k + 1`.
   */
  lemma {:induction false} ParseHexAt(s: string, k: nat)
    requires |s| % 2 == 0 && AllHexDigits(s) && k < |s| / 2
    ensures |ParseHex(s)| == |s| / 2
    ensures ParseHex(s)[k] == ValueOf(s[2 * k..2 * k + 2])
    ensures ParseHex(s)[k] == 16 * DigitValue(s[2 * k]) + DigitValue(s[2 * k + 1])
  {
    HexTextLength(s);
    var rest := s[2..];
    assert ParseHex(s) == [ValueOf(s[..2])] + ParseHex(rest);
    if k == 0 {
      assert s[0..2] == s[..2];
    } else {
      ParseHexAt(rest, k - 1);
      assert rest[2 * (k - 1)..2 * (k - 1) + 2] == s[2 * k..2 * k + 2];
    }
    PairValue(s[2 * k..2 * k + 2]);
  }

  /** Decoding the `{:02X}` rendering of bytes gives the bytes back. */
  lemma {:induction false} ParseHexEncode(bs: seq<byte>)
    ensures Parsable(HexEncode(bs)) && ParseHex(HexEncode(bs)) == bs
  {
    HexEncodeDigits(bs);
    HexTextLength(HexEncode(bs));
    if bs != [] {
      var s := HexEncode(bs);
      HexValue(bs[0], 2);
      ByteTextIsHex(bs[0]);
      assert s == ByteText(bs[0]) + HexEncode(bs[1..]);
      assert s[..2] == Hex(bs[0], 2);
      assert s[2..] == HexEncode(bs[1..]);
      ParseHexEncode(bs[1..]);
    }
  }

  /**
   * Re-encoding decoded upper-case text gives the text back: the decoder
   * loses nothing.
   */
  lemma {:induction false} HexEncodeParse(s: string)
    requires |s| % 2 == 0 && AllUpperHexDigits(s)
    ensures Parsable(s) && HexEncode(ParseHex(s)) == s
  {
    HexTextLength(s);
    if s != [] {
      var bs := ParseHex(s);
      assert bs == [ValueOf(s[..2])] + Pairs(s[2..]);
      assert bs[1..] == ParseHex(s[2..]);
      HexOfValue(s[..2]);
      ByteTextIsHex(bs[0]);
      HexEncodeParse(s[2..]);
      assert s == s[..2] + s[2..];
    }
  }

  /**
   * The decoding loop of `parse_hex_string`: one `from_str_radix` per pair
   * of bytes, pushed onto the result in order. Past the parity test the
   * text is all hex digits, so byte offsets and character offsets agree.
   */
  method ParseHexString(hexString: string) returns (bytes: seq<byte>)
    requires Parsable(hexString)
    ensures bytes == ParseHex(hexString)
    ensures Utf8Length(hexString) % 2 != 0 ==> bytes == []
    ensures Utf8Length(hexString) % 2 == 0 ==> |bytes| == |hexString| / 2
    ensures Utf8Length(hexString) % 2 == 0 ==>
      forall k | 0 <= k < |bytes| :: bytes[k] == ValueOf(hexString[2 * k..2 * k + 2])
  {
    var len := Utf8Length(hexString);
    if len % 2 != 0 {
      return [];
    }
    HexTextLength(hexString);
    bytes := [];
    for i := 0 to len / 2
      invariant |bytes| == i
      invariant forall k | 0 <= k < i :: bytes[k] == ValueOf(hexString[2 * k..2 * k + 2])
    {
      var pos := i * 2;
      var byteString := hexString[pos..pos + 2];
      assert Pow16(|byteString|) == 0x100;
      var b: byte := ValueOf(byteString);
      bytes := bytes + [b];
    }
    forall k | 0 <= k < |bytes|
      ensures bytes[k] == ParseHex(hexString)[k]
    {
      ParseHexAt(hexString, k);
    }
    if bytes != [] {
      ParseHexAt(hexString, 0);
    }
  }

  /** The worked example that accompanies `parse_hex_string`. */
  lemma ParseExample()
    ensures ParseHex("02AB1D00") == [0x02, 0xAB, 0x1D, 0x00]
  {
  }
}
