/**
 * The body of `main` without its I/O: the text lines are decoded and
 * concatenated into one buffer, the buffer is cut into windows of at most
 * sixteen bytes, and every window becomes one data record whose address is
 * the window's offset truncated to sixteen bits.
 */
module Convert {
  import opened Hexadecimal
  import opened Parse
  import opened Record

  /** Every line is text the decoder accepts. */
  predicate AllParsable(lines: seq<string>) {
    forall i | 0 <= i < |lines| :: Parsable(lines[i])
  }

  /** The buffer the lines decode to, first line first. */
  function Concat(lines: seq<string>): seq<byte>
    requires AllParsable(lines)
  {
    if lines == [] then []
    else Concat(lines[..|lines| - 1]) + ParseHex(lines[|lines| - 1])
  }

  lemma AllParsableAppend(a: seq<string>, b: seq<string>)
    requires AllParsable(a) && AllParsable(b)
    ensures AllParsable(a + b)
  {
    forall i | 0 <= i < |a + b|
      ensures Parsable((a + b)[i])
    {
      if i >= |a| {
        assert (a + b)[i] == b[i - |a|];
      }
    }
  }

  /** Decoding is line by line: a file split in two decodes to the two halves joined. */
  lemma {:induction false} ConcatAppend(a: seq<string>, b: seq<string>)
    requires AllParsable(a) && AllParsable(b)
    ensures AllParsable(a + b) && Concat(a + b) == Concat(a) + Concat(b)
    decreases |b|
  {
    AllParsableAppend(a, b);
    if b == [] {
      assert a + b == a;
    } else {
      var b' := b[..|b| - 1];
      var ab := a + b;
      assert ab[..|ab| - 1] == a + b' && ab[|ab| - 1] == b[|b| - 1];
      ConcatAppend(a, b');
      assert Concat(ab) == Concat(a + b') + ParseHex(b[|b| - 1]);
    }
  }

  /** The text lines `{:02X}` would print for each group of bytes. */
  function HexLines(groups: seq<seq<byte>>): (lines: seq<string>)
    ensures |lines| == |groups|
  {
    seq(|groups|, k requires 0 <= k < |groups| => HexEncode(groups[k]))
  }

  /** The groups of bytes joined in order. */
  function Flatten(groups: seq<seq<byte>>): seq<byte>
  {
    if groups == [] then [] else groups[0] + Flatten(groups[1..])
  }

  lemma {:induction false} FlattenSnoc(groups: seq<seq<byte>>, g: seq<byte>)
    ensures Flatten(groups + [g]) == Flatten(groups) + g
  {
    if groups == [] {
      assert [g][1..] == [];
    } else {
      assert (groups + [g])[1..] == groups[1..] + [g];
      FlattenSnoc(groups[1..], g);
    }
  }

  /**
   * Lines of hex text decode to the bytes they were printed from: the
   * buffer of a file of `{:02X}`-rendered groups is the groups joined.
   */
  lemma {:induction false} ConcatHexLines(groups: seq<seq<byte>>)
    ensures AllParsable(HexLines(groups)) && Concat(HexLines(groups)) == Flatten(groups)
    decreases |groups|
  {
    var lines := HexLines(groups);
    forall i | 0 <= i < |lines|
      ensures Parsable(lines[i])
    {
      ParseHexEncode(groups[i]);
    }
    if groups != [] {
      var init := groups[..|groups| - 1];
      var last := groups[|groups| - 1];
      assert lines[..|lines| - 1] == HexLines(init);
      ConcatHexLines(init);
      ParseHexEncode(last);
      assert groups == init + [last];
      FlattenSnoc(init, last);
    }
  }

  /**
   * The first loop of `main`: each line decoded by `parse_hex_string` and
   * appended to the buffer.
   */
  method ConcatLines(lines: seq<string>) returns (bytes: seq<byte>)
    requires AllParsable(lines)
    ensures bytes == Concat(lines)
  {
    bytes := [];
    for i := 0 to |lines|
      invariant bytes == Concat(lines[..i])
    {
      var parsed := ParseHexString(lines[i]);
      assert lines[..i + 1][..i] == lines[..i];
      bytes := bytes + parsed;
    }
    assert lines[..|lines|] == lines;
  }

  /** `size_to_write`: a full window, or what is left when that is less. */
  function ChunkSize(bytesLeft: nat): (size: nat)
    ensures size <= bytesLeft && size <= 0x10
    ensures bytesLeft > 0 ==> size > 0
    ensures bytesLeft >= 0x10 ==> size == 0x10
  {
    if bytesLeft < 0x10 then bytesLeft else 0x10
  }

  /** The windows the buffer is cut into, front to back. */
  function Windows(buf: seq<byte>): seq<seq<byte>>
    decreases |buf|
  {
    if buf == [] then []
    else
      var size := ChunkSize(|buf|);
      [buf[..size]] + Windows(buf[size..])
  }

  /** There are ⌈n/16⌉ windows. */
  lemma {:induction false} WindowsCount(buf: seq<byte>)
    ensures |Windows(buf)| == (|buf| + 0xF) / 0x10
    decreases |buf|
  {
    if buf != [] {
      WindowsCount(buf[ChunkSize(|buf|)..]);
    }
  }

  /** Window `k` is the bytes from offset `16k`, sixteen of them or the rest. */
  lemma {:induction false} WindowsAt(buf: seq<byte>, k: nat)
    requires k < |Windows(buf)|
    ensures 0x10 * k < |buf|
    ensures Windows(buf)[k] == buf[0x10 * k..0x10 * k + ChunkSize(|buf| - 0x10 * k)]
    decreases |buf|
  {
    if k > 0 {
      var rest := buf[0x10..];
      WindowsAt(rest, k - 1);
      assert rest[0x10 * (k - 1)..0x10 * (k - 1) + ChunkSize(|rest| - 0x10 * (k - 1))]
          == buf[0x10 * k..0x10 * k + ChunkSize(|buf| - 0x10 * k)];
    }
  }

  /** Every window is full except the last, which holds one to sixteen bytes. */
  lemma WindowsSizes(buf: seq<byte>)
    ensures forall k | 0 <= k < |Windows(buf)| :: 1 <= |Windows(buf)[k]| <= 0x10
    ensures forall k | 0 <= k < |Windows(buf)| - 1 :: |Windows(buf)[k]| == 0x10
  {
    forall k | 0 <= k < |Windows(buf)|
      ensures 1 <= |Windows(buf)[k]| <= 0x10
    {
      WindowsAt(buf, k);
    }
    forall k | 0 <= k < |Windows(buf)| - 1
      ensures |Windows(buf)[k]| == 0x10
    {
      WindowsAt(buf, k);
      WindowsAt(buf, k + 1);
    }
  }

  /** The windows joined in order are the buffer: no byte lost, none repeated. */
  lemma {:induction false} WindowsFlatten(buf: seq<byte>)
    ensures Flatten(Windows(buf)) == buf
    decreases |buf|
  {
    if buf != [] {
      var size := ChunkSize(|buf|);
      WindowsFlatten(buf[size..]);
      assert buf == buf[..size] + buf[size..];
    }
  }

  /** One record to print: a window and the sixteen-bit address it is printed at. */
  datatype Chunk = Chunk(data: seq<byte>, address: uint16)

  /** Window `k` goes to address `16k` truncated to sixteen bits (`address & 0xFFFF`). */
  function Chunks(buf: seq<byte>): (chunks: seq<Chunk>)
    ensures |chunks| == |Windows(buf)|
  {
    var windows := Windows(buf);
    seq(|windows|, k requires 0 <= k < |windows| => Chunk(windows[k], (0x10 * k) % 0x1_0000))
  }

  /**
   * Chunk `k` exists exactly when offset `16k` is inside the buffer, and
   * holds the bytes from there, sixteen of them or the rest.
   */
  lemma ChunksAt(buf: seq<byte>, k: nat)
    ensures k < |Chunks(buf)| <==> 0x10 * k < |buf|
    ensures 0x10 * k < |buf| ==>
      Chunks(buf)[k] == Chunk(buf[0x10 * k..0x10 * k + ChunkSize(|buf| - 0x10 * k)], (0x10 * k) % 0x1_0000)
  {
    WindowsCount(buf);
    if 0x10 * k < |buf| {
      WindowsAt(buf, k);
    }
  }

  /** Each chunk formatted as a record line of type `recordType`, in order. */
  function Render(chunks: seq<Chunk>, recordType: byte): (lines: seq<string>)
    ensures |lines| == |chunks|
  {
    seq(|chunks|, k requires 0 <= k < |chunks| => Line(chunks[k].data, chunks[k].address, recordType))
  }

  /** The lines printed: the buffer's chunks formatted as records of type `recordType`. */
  function DataLines(buf: seq<byte>, recordType: byte): (lines: seq<string>)
    ensures |lines| == |Windows(buf)|
  {
    Render(Chunks(buf), recordType)
  }

  /** A buffer of `16 * count + size` bytes, `size` between 1 and 16, has `count + 1` windows. */
  lemma LastWindowCount(n: nat, count: nat, size: nat)
    requires n == 0x10 * count + size && 1 <= size <= 0x10
    ensures (n + 0xF) / 0x10 == count + 1
  {
  }

  /**
   * At an offset that is a multiple of sixteen inside the buffer, the data
   * line numbered `offset / 16` is the window there formatted at
   * `offset & 0xFFFF`, and it is the last line exactly when the window
   * reaches the end of the buffer.
   */
  lemma DataLinesAt(buf: seq<byte>, recordType: byte, offset: nat)
    requires offset < |buf| && offset % 0x10 == 0
    ensures offset / 0x10 < |DataLines(buf, recordType)|
    ensures DataLines(buf, recordType)[offset / 0x10]
         == Line(buf[offset..offset + ChunkSize(|buf| - offset)], offset % 0x1_0000, recordType)
    ensures offset + ChunkSize(|buf| - offset) == |buf| <==> offset / 0x10 + 1 == |DataLines(buf, recordType)|
  {
    var k := offset / 0x10;
    assert offset == 0x10 * k;
    ChunksAt(buf, k);
    var chunk := Chunks(buf)[k];
    assert chunk.data == buf[offset..offset + ChunkSize(|buf| - offset)] && chunk.address == offset % 0x1_0000;
    assert DataLines(buf, recordType)[k] == Line(chunk.data, chunk.address, recordType);
    WindowsCount(buf);
    if offset + ChunkSize(|buf| - offset) == |buf| {
      LastWindowCount(|buf|, k, ChunkSize(|buf| - offset));
    }
  }

  /**
   * Every printed line is a well-formed data record for its window, and is
   * what the formatter with its length guard in force returns.
   */
  lemma DataLinesRecords(buf: seq<byte>, k: nat)
    requires k < |DataLines(buf, DataRecordType)|
    ensures IsRecordLine(DataLines(buf, DataRecordType)[k], Windows(buf)[k], (0x10 * k) % 0x1_0000, DataRecordType)
    ensures FormatRecord(Windows(buf)[k], (0x10 * k) % 0x1_0000, DataRecordType)
         == Success(DataLines(buf, DataRecordType)[k])
  {
    WindowsSizes(buf);
    FormatRecordAgrees(Windows(buf)[k], (0x10 * k) % 0x1_0000, DataRecordType);
  }

  /** `bytes_to_write`: the window copied out of the buffer one byte at a time. */
  method CopyWindow(bytes: seq<byte>, address: nat, size: nat) returns (window: seq<byte>)
    requires address + size <= |bytes|
    ensures window == bytes[address..address + size]
  {
    window := [];
    for i := 0 to size
      invariant window == bytes[address..address + i]
    {
      assert bytes[address..address + i + 1] == bytes[address..address + i] + [bytes[address + i]];
      window := window + [bytes[address + i]];
    }
  }

  /**
   * One turn of the second loop of `main` at a multiple of sixteen: the
   * size to write (sixteen bytes or what is left), the window copied out,
   * and the line `convert_to_line` makes of it at `address & 0xFFFF`.
   * That line is the next data line, and the window is the last one exactly
   * when it reaches the end of the buffer.
   */
  method NextRecord(bytes: seq<byte>, address: nat, bytesLeft: nat, recordType: byte) returns (line: string, size: nat)
    requires address < |bytes| && address % 0x10 == 0
    requires bytesLeft == |bytes| - address
    ensures size == ChunkSize(|bytes| - address)
    ensures address / 0x10 < |DataLines(bytes, recordType)|
    ensures line == DataLines(bytes, recordType)[address / 0x10]
    ensures address + size == |bytes| <==> address / 0x10 + 1 == |DataLines(bytes, recordType)|
  {
    size := 0x10;
    if bytesLeft < 0x10 {
      size := bytesLeft;
    }
    var bytesToWrite := CopyWindow(bytes, address, size);
    var addressLower: uint16 := address % 0x1_0000;
    line := ConvertToLine(bytesToWrite, addressLower, recordType);
    assert bytesToWrite == bytes[address..address + ChunkSize(|bytes| - address)];
    DataLinesAt(bytes, recordType, address);
  }

  /**
   * The second loop of `main`: `bytes_left` and `address` walk the buffer,
   * each window is formatted at `address & 0xFFFF`, and the lines are
   * collected in order instead of printed. `main` passes record type 00.
   */
  method EncodeBuffer(bytes: seq<byte>, recordType: byte) returns (lines: seq<string>)
    ensures lines == DataLines(bytes, recordType)
    ensures |lines| == (|bytes| + 0xF) / 0x10
  {
    lines := [];
    var bytesLeft: nat := |bytes|;
    var address: nat := 0;
    while bytesLeft > 0
      invariant address + bytesLeft == |bytes|
      invariant |lines| <= |DataLines(bytes, recordType)|
      invariant lines == DataLines(bytes, recordType)[..|lines|]
      invariant bytesLeft > 0 ==> address == 0x10 * |lines|
      invariant bytesLeft == 0 ==> |lines| == |DataLines(bytes, recordType)|
      decreases bytesLeft
    {
      var line, sizeToWrite := NextRecord(bytes, address, bytesLeft, recordType);
      assert DataLines(bytes, recordType)[..|lines| + 1] == lines + [line];
      lines := lines + [line];
      address := address + sizeToWrite;
      bytesLeft := bytesLeft - sizeToWrite;
    }
    WindowsCount(bytes);
  }

  /** `main` without its I/O: decode and join the lines, then print the records. */
  method Convert(lines: seq<string>) returns (records: seq<string>)
    requires AllParsable(lines)
    ensures records == DataLines(Concat(lines), DataRecordType)
    ensures |records| == (|Concat(lines)| + 0xF) / 0x10
  {
    var bytes := ConcatLines(lines);
    records := EncodeBuffer(bytes, DataRecordType);
  }

  /**
   * Seventeen bytes make two records: sixteen bytes at 0x0000 and the last
   * byte alone at 0x0010.
   */
  lemma SeventeenBytes(buf: seq<byte>)
    requires |buf| == 0x11
    ensures Windows(buf) == [buf[..0x10], buf[0x10..]]
    ensures Chunks(buf) == [Chunk(buf[..0x10], 0x0000), Chunk(buf[0x10..], 0x0010)]
  {
    var rest := buf[0x10..];
    assert Windows(rest) == [rest] by {
      assert rest[..ChunkSize(1)] == rest && rest[ChunkSize(1)..] == [];
    }
  }

  /**
   * No extended-address record is ever written: the chunk at offset
   * 0x10000 is given address 0x0000 again, the address of the first one.
   */
  lemma AddressWraps(buf: seq<byte>)
    requires |buf| > 0x1_0000
    ensures |Chunks(buf)| > 0x1000
    ensures Chunks(buf)[0x1000] == Chunk(buf[0x1_0000..0x1_0000 + ChunkSize(|buf| - 0x1_0000)], 0x0000)
    ensures Chunks(buf)[0].address == Chunks(buf)[0x1000].address
  {
    ChunksAt(buf, 0x1000);
    ChunksAt(buf, 0);
  }
}
