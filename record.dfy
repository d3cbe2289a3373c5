/**
 * `convert_to_line`: one Intel HEX record rendered as a text line,
 * `:LLAAAATT<data>CC`, where the checksum `CC` is taken over the length,
 * the two address bytes, the type and the data.
 */
module Record {
  import opened Hexadecimal
  import opened RecordChecksum
  import opened Parse

  /** The largest data field the line formatter is meant to accept. */
  const MaxDataLength := 0x10

  /** Record type 00, a data record: the only type the encoder emits. */
  const DataRecordType: byte := 0x00

  /**
   * The bytes the checksum is taken over (`checksum_bytes`): the length
   * cast to `u8`, the address high and low bytes, the type, then the data.
   */
  function Frame(data: seq<byte>, address: uint16, recordType: byte): (f: seq<byte>)
    ensures |f| == 4 + |data| && f[4..] == data
    ensures f[0] == |data| % 0x100 && f[3] == recordType
    ensures f[1] == address / 0x100 && f[2] == address % 0x100
  {
    [|data| % 0x100, address / 0x100, address % 0x100, recordType] + data
  }

  /**
   * The line `convert_to_line` returns: the length printed with `{:02X}`
   * (from the full length, which only the checksum truncates), the address
   * with `{:04X}`, the type, every data byte, and the checksum.
   */
  function Line(data: seq<byte>, address: uint16, recordType: byte): string
  {
    ":" + Hex(|data|, 2) + Hex(address, 4) + Hex(recordType, 2) + HexEncode(data)
        + Hex(Checksum(Frame(data, address, recordType)), 2)
  }

  /**
   * What makes `line` the data line of an Intel HEX record for `data` at
   * `address`: a colon, then upper-case hex digits that decode to the
   * length, the address (high byte first), the type, the data, and a final
   * byte that brings the sum of all decoded bytes to zero modulo 256.
   */
  predicate IsRecordLine(line: string, data: seq<byte>, address: uint16, recordType: byte)
  {
    |line| == 11 + 2 * |data| && line[0] == ':' && AllUpperHexDigits(line[1..]) &&
    var bytes := ParseHex(line[1..]);
    |bytes| == 5 + |data| &&
    bytes[0] == |data| && bytes[1] == address / 0x100 && bytes[2] == address % 0x100 &&
    bytes[3] == recordType && bytes[4..4 + |data|] == data &&
    Sum(bytes) % 0x100 == 0
  }

  /**
   * The formatting steps of `convert_to_line`: the checksum bytes pushed
   * one by one, the checksum computed, and the fields appended to the line.
   */
  method ConvertToLine(bytes: seq<byte>, address: uint16, typeByte: byte) returns (line: string)
    ensures line == Line(bytes, address, typeByte)
  {
    var checksumBytes: seq<byte> := [];
    checksumBytes := checksumBytes + [|bytes| % 0x100];
    checksumBytes := checksumBytes + [address / 0x100];
    checksumBytes := checksumBytes + [address % 0x100];
    checksumBytes := checksumBytes + [typeByte];
    for i := 0 to |bytes|
      invariant checksumBytes == Frame(bytes, address, typeByte)[..4 + i]
    {
      checksumBytes := checksumBytes + [bytes[i]];
    }
    assert checksumBytes == Frame(bytes, address, typeByte);
    var checksum := CalcChecksum(checksumBytes);
    line := ":";
    line := line + Hex(|bytes|, 2);
    line := line + Hex(address, 4);
    line := line + Hex(typeByte, 2);
    var byteStrs := HexEncode(bytes);
    line := line + byteStrs;
    line := line + Hex(checksum, 2);
  }

  lemma HexEncodeSingle(b: byte)
    ensures HexEncode([b]) == Hex(b, 2)
  {
    assert [b][1..] == [];
    ByteTextIsHex(b);
  }

  /** The four header bytes render as the length, address and type fields. */
  lemma HeaderText(n: byte, address: uint16, recordType: byte)
    ensures HexEncode([n, address / 0x100, address % 0x100, recordType])
         == Hex(n, 2) + Hex(address, 4) + Hex(recordType, 2)
  {
    var hi: byte, lo: byte := address / 0x100, address % 0x100;
    assert [n, hi, lo, recordType] == [n] + ([hi] + [lo]) + [recordType];
    HexEncodeConcat([n] + ([hi] + [lo]), [recordType]);
    HexEncodeConcat([n], [hi] + [lo]);
    HexEncodeConcat([hi], [lo]);
    HexEncodeSingle(n);
    HexEncodeSingle(hi);
    HexEncodeSingle(lo);
    HexEncodeSingle(recordType);
    HexWord(address);
  }

  /** Regrouping the fields of a line: the three header fields, the data, the checksum. */
  lemma RegroupFields(a: string, b: string, c: string, d: string, e: string)
    ensures ":" + a + b + c + d + e == ":" + ((a + b + c) + d + e)
  {
  }

  /**
   * For a length that fits in one byte, the line is a colon followed by
   * the `{:02X}` rendering of the checksum bytes and the checksum itself.
   */
  lemma LineAsFrame(data: seq<byte>, address: uint16, recordType: byte)
    requires |data| <= 0xFF
    ensures Line(data, address, recordType)
         == ":" + HexEncode(Frame(data, address, recordType) + [Checksum(Frame(data, address, recordType))])
  {
    var f := Frame(data, address, recordType);
    var header := [|data|, address / 0x100, address % 0x100, recordType];
    var c := Checksum(f);
    assert HexEncode(f + [c]) == HexEncode(header) + HexEncode(data) + HexEncode([c]) by {
      assert f == header + data;
      HexEncodeConcat(f, [c]);
      HexEncodeConcat(header, data);
    }
    HexEncodeSingle(c);
    HeaderText(|data|, address, recordType);
    RegroupFields(Hex(|data|, 2), Hex(address, 4), Hex(recordType, 2), HexEncode(data), Hex(c, 2));
  }

  /**
   * A line whose data fits the one-byte length field is a well-formed
   * record: it decodes field by field to what was formatted, and its
   * checksum cancels the other bytes.
   */
  lemma LineIsRecord(data: seq<byte>, address: uint16, recordType: byte)
    requires |data| <= 0xFF
    ensures IsRecordLine(Line(data, address, recordType), data, address, recordType)
  {
    var line := Line(data, address, recordType);
    var f := Frame(data, address, recordType);
    var g := f + [Checksum(f)];
    assert g[0] == |data| && g[1] == address / 0x100 && g[2] == address % 0x100 && g[3] == recordType;
    assert g[4..4 + |data|] == data;
    assert Sum(g) % 0x100 == 0 by {
      ChecksumAppended(f);
    }
    assert line[1..] == HexEncode(g) by {
      LineAsFrame(data, address, recordType);
    }
    assert AllUpperHexDigits(line[1..]) && ParseHex(line[1..]) == g by {
      HexEncodeDigits(g);
      ParseHexEncode(g);
    }
  }

  datatype RecordError = InvalidRecordLength

  datatype Result<T> = Success(value: T) | Failure(error: RecordError)

  /**
   * The formatter with its length guard in force: more than sixteen data
   * bytes are refused instead of being formatted.
   */
  function FormatRecord(data: seq<byte>, address: uint16, recordType: byte): (r: Result<string>)
    ensures r.Success? <==> |data| <= MaxDataLength
    ensures r.Failure? ==> r.error == InvalidRecordLength
    ensures r.Success? ==> IsRecordLine(r.value, data, address, recordType)
  {
    if |data| > MaxDataLength then Failure(InvalidRecordLength)
    else
      LineIsRecord(data, address, recordType);
      Success(Line(data, address, recordType))
  }

  /**
   * Within the guard's limit the checked formatter returns exactly the
   * line `convert_to_line` builds.
   */
  lemma FormatRecordAgrees(data: seq<byte>, address: uint16, recordType: byte)
    requires |data| <= MaxDataLength
    ensures FormatRecord(data, address, recordType) == Success(Line(data, address, recordType))
  {
  }

  /**
   * The guard in `convert_to_line` discards its result, so oversized data
   * is still formatted: 256 data bytes give a non-empty line whose length
   * field has three digits and whose checksum counts the length as zero,
   * which is not a record line at all.
   */
  lemma OversizedLineMalformed(data: seq<byte>, address: uint16, recordType: byte)
    requires |data| == 0x100
    ensures Line(data, address, recordType) != ""
    ensures |Line(data, address, recordType)| == 12 + 2 * |data|
    ensures !IsRecordLine(Line(data, address, recordType), data, address, recordType)
    ensures Frame(data, address, recordType)[0] == 0
  {
    assert |Hex(0x100, 2)| == 3;
  }

  /** The first half of the data field of the worked example below. */
  lemma ExampleDataFront(d1: seq<byte>, d2: seq<byte>)
    requires d1 == [0x21, 0x46, 0x01, 0x36] && d2 == [0x01, 0x21, 0x47, 0x01]
    ensures HexEncode(d1 + d2) == "21460136" + "01214701"
  {
    assert HexEncode(d1) == "21460136" by {
      HexEncodeOfFour(d1);
    }
    assert HexEncode(d2) == "01214701" by {
      HexEncodeOfFour(d2);
    }
    HexEncodeConcat(d1, d2);
  }

  /** The second half of the data field of the worked example below. */
  lemma ExampleDataBack(d3: seq<byte>, d4: seq<byte>)
    requires d3 == [0x36, 0x00, 0x7E, 0xFE] && d4 == [0x09, 0xD2, 0x19, 0x01]
    ensures HexEncode(d3 + d4) == "36007EFE" + "09D21901"
  {
    assert HexEncode(d3) == "36007EFE" by {
      HexEncodeOfFour(d3);
    }
    assert HexEncode(d4) == "09D21901" by {
      HexEncodeOfFour(d4);
    }
    HexEncodeConcat(d3, d4);
  }

  /** The line assembled from the texts of its fields. */
  lemma LineOfFields(data: seq<byte>, address: uint16, recordType: byte,
                     lengthText: string, addressText: string, typeText: string, dataText: string, checksumText: string)
    requires Hex(|data|, 2) == lengthText && Hex(address, 4) == addressText && Hex(recordType, 2) == typeText
    requires HexEncode(data) == dataText && Hex(Checksum(Frame(data, address, recordType)), 2) == checksumText
    ensures Line(data, address, recordType) == ":" + lengthText + addressText + typeText + dataText + checksumText
  {
  }

  /** The header fields and checksum of the worked example below. */
  lemma ExampleFields()
    ensures Hex(0x10, 2) == "10" && Hex(0x0100, 4) == "0100" && Hex(0x00, 2) == "00" && Hex(0x40, 2) == "40"
  {
  }

  /** The worked example below, its data given in four groups of four bytes. */
  lemma LineOfGroups(d1: seq<byte>, d2: seq<byte>, d3: seq<byte>, d4: seq<byte>)
    requires d1 == [0x21, 0x46, 0x01, 0x36] && d2 == [0x01, 0x21, 0x47, 0x01]
    requires d3 == [0x36, 0x00, 0x7E, 0xFE] && d4 == [0x09, 0xD2, 0x19, 0x01]
    ensures Line(d1 + d2 + d3 + d4, 0x0100, DataRecordType)
         == ":" + "10" + "0100" + "00" + ("21460136" + "01214701" + "36007EFE" + "09D21901") + "40"
  {
    var data := d1 + d2 + d3 + d4;
    assert HexEncode(data) == "21460136" + "01214701" + "36007EFE" + "09D21901" by {
      ExampleDataFront(d1, d2);
      ExampleDataBack(d3, d4);
      assert data == (d1 + d2) + (d3 + d4);
      HexEncodeConcat(d1 + d2, d3 + d4);
    }
    var header: seq<byte> := [0x10, 0x01, 0x00, 0x00];
    assert Checksum(Frame(data, 0x0100, DataRecordType)) == 0x40 by {
      assert Frame(data, 0x0100, DataRecordType) == header + d1 + d2 + d3 + d4;
      ChecksumOfGroups(header, d1, d2, d3, d4);
    }
    ExampleFields();
    LineOfFields(data, 0x0100, DataRecordType, "10", "0100", "00",
                 "21460136" + "01214701" + "36007EFE" + "09D21901", "40");
  }

  /** The data bytes of the worked example below in four groups of four. */
  lemma ExampleDataGroups()
    ensures [0x21, 0x46, 0x01, 0x36, 0x01, 0x21, 0x47, 0x01, 0x36, 0x00, 0x7E, 0xFE, 0x09, 0xD2, 0x19, 0x01]
         == [0x21, 0x46, 0x01, 0x36] + [0x01, 0x21, 0x47, 0x01] + [0x36, 0x00, 0x7E, 0xFE] + [0x09, 0xD2, 0x19, 0x01]
  {
  }

  /**
   * The worked example that accompanies `convert_to_line`: sixteen data
   * bytes at address 0x0100 make the line
   * `:10010000214601360121470136007EFE09D2190140`, written here field by
   * field (the data field in groups of four bytes).
   */
  lemma LineExample()
    ensures Line([0x21, 0x46, 0x01, 0x36, 0x01, 0x21, 0x47, 0x01,
                  0x36, 0x00, 0x7E, 0xFE, 0x09, 0xD2, 0x19, 0x01], 0x0100, DataRecordType)
         == ":" + "10" + "0100" + "00" + ("21460136" + "01214701" + "36007EFE" + "09D21901") + "40"
  {
    ExampleDataGroups();
    LineOfGroups([0x21, 0x46, 0x01, 0x36], [0x01, 0x21, 0x47, 0x01],
                 [0x36, 0x00, 0x7E, 0xFE], [0x09, 0xD2, 0x19, 0x01]);
  }
}
