/**
 * The Intel HEX record checksum: the two's-complement negation of the low
 * byte of the sum of the record's bytes, so that the record's bytes and the
 * checksum together sum to zero modulo 256.
 */
module RecordChecksum {
  import opened Hexadecimal

  /** The exact (unbounded) sum of the bytes. */
  function Sum(bs: seq<byte>): nat
  {
    if bs == [] then 0 else bs[0] + Sum(bs[1..])
  }

  /** Rust's `!` on a `u8`: every bit flipped. */
  function Complement(b: byte): (r: byte)
    ensures b + r == 0xFF
  {
    0xFF - b
  }

  /**
   * `!(sum as u8) + 1` with wrapping `u8` arithmetic: the byte that brings
   * the sum of `bs` to zero modulo 256.
   */
  function Checksum(bs: seq<byte>): (c: byte)
    ensures (Sum(bs) + c) % 0x100 == 0
    ensures c == (0x100 - Sum(bs) % 0x100) % 0x100
  {
    (Complement(Sum(bs) % 0x100) + 1) % 0x100
  }

  /** No other byte completes the sum to zero. */
  lemma ChecksumUnique(bs: seq<byte>, c: byte)
    requires (Sum(bs) + c) % 0x100 == 0
    ensures c == Checksum(bs)
  {
    var q, r := Sum(bs) / 0x100, Sum(bs) % 0x100;
    assert Sum(bs) + c == 0x100 * q + (r + c);
    assert (r + c) % 0x100 == 0;
    if r + c != 0 {
      assert r + c == 0x100;
    }
  }

  lemma {:induction false} SumAppend(bs: seq<byte>, x: seq<byte>)
    ensures Sum(bs + x) == Sum(bs) + Sum(x)
  {
    if bs == [] {
      assert bs + x == x;
    } else {
      assert (bs + x)[1..] == bs[1..] + x;
      SumAppend(bs[1..], x);
    }
  }

  /** A record with its checksum byte appended sums to zero modulo 256. */
  lemma ChecksumAppended(bs: seq<byte>)
    ensures Sum(bs + [Checksum(bs)]) % 0x100 == 0
  {
    SumAppend(bs, [Checksum(bs)]);
  }

  /**
   * Adding a byte to a `u32` accumulator with wrap-around keeps its low
   * byte equal to that of the exact sum.
   */
  lemma WrappingAddLowByte(acc: nat, exact: nat, b: byte)
    requires acc % 0x100 == exact % 0x100
    ensures (acc + b) % 0x1_0000_0000 % 0x100 == (exact + b) % 0x100
  {
    var s := acc + b;
    var q, r := s / 0x1_0000_0000, s % 0x1_0000_0000;
    assert s == 0x100 * (0x100_0000 * q) + r;
    assert r % 0x100 == s % 0x100;
    var qa, qe := acc / 0x100, exact / 0x100;
    assert acc == 0x100 * qa + acc % 0x100;
    assert exact == 0x100 * qe + acc % 0x100;
    assert s == 0x100 * qa + (acc % 0x100 + b);
    assert exact + b == 0x100 * qe + (acc % 0x100 + b);
  }

  /**
   * `calc_checksum`: a `u32` accumulator (wrapping, as a release build
   * does) summed over the bytes, then `!(sum & 0xFF) + 1` in `u8`.
   */
  method CalcChecksum(bytes: seq<byte>) returns (c: byte)
    ensures c == Checksum(bytes)
    ensures (Sum(bytes) + c) % 0x100 == 0
  {
    var sum: nat := 0;
    for i := 0 to |bytes|
      invariant sum < 0x1_0000_0000
      invariant sum % 0x100 == Sum(bytes[..i]) % 0x100
    {
      assert bytes[..i + 1] == bytes[..i] + [bytes[i]];
      SumAppend(bytes[..i], [bytes[i]]);
      WrappingAddLowByte(sum, Sum(bytes[..i]), bytes[i]);
      sum := (sum + bytes[i]) % 0x1_0000_0000;
    }
    assert bytes[..|bytes|] == bytes;
    var sumAsByte: byte := sum % 0x100;
    c := (Complement(sumAsByte) + 1) % 0x100;
  }

  /** The sum of four bytes, which spares the worked example below the evaluation of `Sum` on literals. */
  lemma SumOfFour(bs: seq<byte>)
    requires |bs| == 4
    ensures Sum(bs) == bs[0] as int + bs[1] as int + bs[2] as int + bs[3] as int
  {
    assert Sum(bs[3..]) == bs[3] + Sum(bs[4..]);
    assert Sum(bs[2..]) == bs[2] + Sum(bs[3..]);
    assert Sum(bs[1..]) == bs[1] + Sum(bs[2..]);
  }

  /** The sum of the worked example below, taken four bytes at a time. */
  lemma ChecksumOfGroups(header: seq<byte>, d1: seq<byte>, d2: seq<byte>, d3: seq<byte>, d4: seq<byte>)
    requires header == [0x10, 0x01, 0x00, 0x00]
    requires d1 == [0x21, 0x46, 0x01, 0x36] && d2 == [0x01, 0x21, 0x47, 0x01]
    requires d3 == [0x36, 0x00, 0x7E, 0xFE] && d4 == [0x09, 0xD2, 0x19, 0x01]
    ensures Checksum(header + d1 + d2 + d3 + d4) == 0x40
  {
    SumOfFour(header);
    SumOfFour(d1);
    SumOfFour(d2);
    SumOfFour(d3);
    SumOfFour(d4);
    SumAppend(header, d1);
    SumAppend(header + d1, d2);
    SumAppend(header + d1 + d2, d3);
    SumAppend(header + d1 + d2 + d3, d4);
  }

  /**
   * The worked example that accompanies `calc_checksum`: a 20-byte data
   * record, four header bytes then sixteen data bytes, whose checksum is
   * 0x40.
   */
  lemma ChecksumExample()
    ensures Checksum([0x10, 0x01, 0x00, 0x00, 0x21, 0x46, 0x01, 0x36, 0x01, 0x21,
                      0x47, 0x01, 0x36, 0x00, 0x7E, 0xFE, 0x09, 0xD2, 0x19, 0x01]) == 0x40
  {
    var header: seq<byte> := [0x10, 0x01, 0x00, 0x00];
    var d1: seq<byte> := [0x21, 0x46, 0x01, 0x36];
    var d2: seq<byte> := [0x01, 0x21, 0x47, 0x01];
    var d3: seq<byte> := [0x36, 0x00, 0x7E, 0xFE];
    var d4: seq<byte> := [0x09, 0xD2, 0x19, 0x01];
    ChecksumOfGroups(header, d1, d2, d3, d4);
    assert header + d1 + d2 + d3 + d4
        == [0x10, 0x01, 0x00, 0x00, 0x21, 0x46, 0x01, 0x36, 0x01, 0x21,
            0x47, 0x01, 0x36, 0x00, 0x7E, 0xFE, 0x09, 0xD2, 0x19, 0x01];
  }

  lemma ChecksumEmpty()
    ensures Checksum([]) == 0
  {
  }
}
