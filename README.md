# hexxor in Dafny: an Intel HEX data-record encoder

hexxor reads lines of hexadecimal text and decodes each line into bytes. It
joins the bytes into one buffer and cuts the buffer into windows of at most
sixteen bytes. Each window becomes one Intel HEX data record (type 00), a
line of the form `:LLAAAATT<data>CC`:

- `LL` is the data length.
- `AAAA` is the window's offset truncated to sixteen bits.
- `TT` is the record type.
- `CC` is the checksum: the two's-complement negation of the low byte of the
  sum of the length, the two address bytes, the type and the data.

The model follows the Rust source (`src/main.rs`) function by function. Each
loop of the source becomes a Dafny method with loop invariants. Each method
is proved against a specification function, and lemmas state what the
encoder promises about those functions.

- `hex.dfy` (`Hexadecimal`) covers the text side:
  - `byte` and `uint16` for Rust's `u8` and `u16`;
  - the digit alphabet;
  - `Hex(v, width)`, Rust's `{:0NX}` formatting;
  - `ValueOf`, the value of a digit string as `u8::from_str_radix(_, 16)` reads it;
  - `HexEncode`, the joined `{:02X}` rendering of a byte sequence.
- `checksum.dfy` (`RecordChecksum`) models `calc_checksum`. The `u32`
  accumulator wraps modulo 2^32 and `!b + 1` wraps modulo 256, as in a
  release build.
- `parse.dfy` (`Parse`) models `parse_hex_string`.
- `record.dfy` (`Record`) models `convert_to_line`, together with
  `IsRecordLine`, what it means for a line to be a well-formed data record.
- `convert.dfy` (`Convert`) models the body of `main` without its I/O:
  - the loop that decodes and joins the lines;
  - the loop that walks the buffer with `bytes_left` and `address`.

  The printed lines are returned as a sequence instead of being printed.

Two behaviours of the code are kept as written:

- Text whose length is odd decodes to no bytes rather than failing. The
  length is Rust's `String::len`, the number of bytes of the UTF-8
  encoding, so `Parse.Utf8Length` counts bytes and not characters.
- The length check at the top of `convert_to_line` has no effect, so
  oversized data is still formatted. This appears under Findings, with the
  guarded formatter beside it.

## Model

| member | source | states |
|---|---|---|
| Hexadecimal.Hex | src/main.rs:40-46 | `{:0NX}` writes at least `width` digits and at least one, and exactly `width` when the value fits in `width` digits |
| Hexadecimal.HexValue | src/main.rs:40-46 | the `{:0NX}` rendering consists of upper-case hex digits whose value, read back most significant digit first, is the number formatted |
| Hexadecimal.HexOfValue | src/main.rs:95 | a string of upper-case digits is the zero-padded rendering, at its own width, of the value `from_str_radix` reads from it |
| Hexadecimal.HexWord | src/main.rs:42 | the `{:04X}` address field is the `{:02X}` rendering of the high byte followed by that of the low byte |
| Hexadecimal.HexEncodeConcat | src/main.rs:44-45 | the joined byte strings of two byte sequences laid end to end are the two joined strings laid end to end |
| RecordChecksum.Checksum | src/main.rs:12-19 | the checksum brings the sum of the bytes to zero modulo 256, and equals `(256 - sum % 256) % 256` |
| RecordChecksum.ChecksumUnique | src/main.rs:17-18 | no other byte brings the sum to zero modulo 256 |
| RecordChecksum.WrappingAddLowByte | src/main.rs:13-16 | adding a byte to the wrapping `u32` accumulator keeps its low byte equal to the low byte of the exact sum |
| RecordChecksum.CalcChecksum | src/main.rs:12-19 | the accumulating loop with a wrapping `u32` sum, then `!(sum & 0xFF) + 1`, returns the checksum: the byte that makes the total zero modulo 256 |
| RecordChecksum.ChecksumAppended | src/main.rs:31-39 | a byte sequence with its checksum appended sums to zero modulo 256 |
| RecordChecksum.ChecksumEmpty | src/main.rs:12-19 | the checksum of no bytes is 0 |
| RecordChecksum.ChecksumExample | src/main.rs:21-25 | the checksum of the 20 bytes `10 01 00 00 21 46 01 36 01 21 47 01 36 00 7E FE 09 D2 19 01` is 0x40 |
| Parse.HexTextLength | src/main.rs:88 | for text made of hex digits, the UTF-8 byte length `len()` tests equals the number of characters |
| Parse.NonAsciiParity | src/main.rs:88-95 | parity is taken over UTF-8 bytes: `"é"` (two bytes) is not acceptable input, since its one two-byte slice is no hex pair, while `"éA"` (three bytes) is odd and decodes to no bytes |
| Parse.ParseHexString | src/main.rs:87-99 | the decoding loop returns no bytes for text of odd UTF-8 length; otherwise it returns half as many bytes as characters, byte `k` being the value of characters `2k` and `2k+1` |
| Parse.ParseHexOdd | src/main.rs:88-90 | text of odd UTF-8 length decodes to the empty sequence |
| Parse.ParseHexAt | src/main.rs:91-97 | even-length hex text decodes to `len/2` bytes, byte `k` being `16 * digit(s[2k]) + digit(s[2k+1])` |
| Parse.ParseHexEncode | src/main.rs:91-97 | decoding the `{:02X}` rendering of any bytes gives those bytes back |
| Parse.HexEncodeParse | src/main.rs:91-97 | rendering the bytes decoded from even-length upper-case text gives the text back |
| Parse.ParseExample | src/main.rs:101-110 | `"02AB1D00"` decodes to `[0x02, 0xAB, 0x1D, 0x00]` |
| Record.ConvertToLine | src/main.rs:27-48 | pushing the checksum bytes, computing their checksum and appending the fields builds the line `:` length, address, type, data, checksum |
| Record.HeaderText | src/main.rs:41-43 | the three header fields as printed are the `{:02X}` rendering of the four header bytes |
| Record.LineAsFrame | src/main.rs:40-47 | for a length that fits in a byte, the line is `:` followed by the rendering of the checksum bytes and the checksum, two upper-case digits per byte |
| Record.LineIsRecord | src/main.rs:31-47 | such a line has length 11 + 2n, starts with `:`, and its digits decode to the length, the address high byte first, the type, the data in order, and a last byte that brings the sum of all decoded bytes to zero modulo 256 |
| Record.FormatRecord | src/main.rs:28-30 | the formatter with its guard in force succeeds exactly when there are at most 16 data bytes, fails with `InvalidRecordLength` otherwise, and a success is a well-formed record line |
| Record.FormatRecordAgrees | src/main.rs:27-48 | within 16 data bytes the guarded formatter returns exactly the line `convert_to_line` builds |
| Record.OversizedLineMalformed | src/main.rs:28-30 | with the guard discarded, 256 data bytes still give a non-empty line: its length field has three digits, the checksum counts the length as 0, and the line is not a record line |
| Record.LineExample | src/main.rs:50-56 | the sixteen bytes `21 46 01 36 01 21 47 01 36 00 7E FE 09 D2 19 01` at address 0x0100, type 00, give `:10010000214601360121470136007EFE09D2190140` |
| Convert.ConcatLines | src/main.rs:115-118 | appending each decoded line to the buffer yields the lines' bytes joined, first line first |
| Convert.ConcatAppend | src/main.rs:116-118 | decoding is line by line: two groups of lines decode to their two buffers joined |
| Convert.ConcatHexLines | src/main.rs:115-118 | lines holding the `{:02X}` rendering of byte groups decode to those groups joined |
| Convert.ChunkSize | src/main.rs:122-125 | the size to write is never more than what is left nor more than 16, is positive while bytes are left, and is 16 whenever at least 16 are left |
| Convert.WindowsCount | src/main.rs:119-135 | a buffer of n bytes is cut into ⌈n/16⌉ windows |
| Convert.WindowsAt | src/main.rs:122-129 | window `k` starts at offset `16k` inside the buffer and holds the sixteen bytes from there, or the rest |
| Convert.WindowsSizes | src/main.rs:122-125 | every window holds 1 to 16 bytes, and every window but the last holds exactly 16 |
| Convert.WindowsFlatten | src/main.rs:126-129 | the windows joined in order are the buffer: no byte lost, repeated or reordered |
| Convert.ChunksAt | src/main.rs:120-133 | chunk `k` exists exactly when offset `16k` lies in the buffer, and pairs the window there with address `16k mod 65536` |
| Convert.DataLinesAt | src/main.rs:126-132 | at an offset that is a multiple of 16, the data line numbered `offset/16` is the window there formatted at `offset & 0xFFFF`, and it is the last line exactly when the window reaches the end of the buffer |
| Convert.DataLinesRecords | src/main.rs:131 | every line the loop prints is a well-formed data record for its window and address, and is what the guarded formatter returns for it |
| Convert.CopyWindow | src/main.rs:126-129 | the copying loop yields exactly the bytes from `address` to `address + size` |
| Convert.NextRecord | src/main.rs:122-131 | one turn of the loop at offset `16k` writes `min(16, bytes left)` bytes and produces data line `k`, which is the last line exactly when the window reaches the end |
| Convert.EncodeBuffer | src/main.rs:119-135 | the `bytes_left`/`address` loop terminates and emits, in order, the data line of every window: ⌈n/16⌉ lines |
| Convert.Convert | src/main.rs:115-135 | `main` without its I/O emits the data records of the joined buffer of the decoded lines |
| Convert.SeventeenBytes | src/main.rs:119-135 | seventeen bytes give two records: sixteen bytes at 0x0000, then the last byte alone at 0x0010 |
| Convert.AddressWraps | src/main.rs:130 | beyond 64 KiB the address wraps: the chunk at offset 0x10000 gets address 0x0000 again, and no extended-address record is written |

## Left out

- `read_file` (src/main.rs:58-71) and the hard-coded path (src/main.rs:113) are file I/O, as is its test (src/main.rs:73-85), which needs an external file. `Convert.Convert` starts from the lines already read.
- `println!` at src/main.rs:131 is console output. The lines are returned as a sequence in order.
- The panics in `parse_hex_string` (src/main.rs:94-95) are not modelled. `Parse.ParseHexString` requires text whose UTF-8 length is odd or which is made only of hex digits. Text of even UTF-8 length that holds any other character always reaches one of the two `expect`s: some two-byte slice either splits a character or holds a non-digit (a `+` before a digit aside, as the next line says).
- `u8::from_str_radix` also accepts a leading `+` sign. The model does not: `+F` is not a digit pair here. Lower-case digits are accepted, as in the source.
- Overflow panics of a debug build are not modelled, only release-build wrapping:
  - `!sum_as_byte + 0x01` (src/main.rs:18) overflows when the low byte of the sum is 0; it is modelled modulo 256.
  - `sum += *x as u32` (src/main.rs:15) is modelled modulo 2^32.
- The `usize` arithmetic of `main` (`address`, `bytes_left`) is unbounded here: a buffer cannot come near the `usize` limit.
- The unfinished part of `main` (the `TODO` at src/main.rs:134) is not modelled, and neither are the extended-address and end-of-file records the program never writes.
- Convert.EncodeBuffer: takes the record type as a parameter. `main` always passes 0x00, which is what `Convert.Convert` passes.

## Findings

| source | as written | input that shows it | evidently intended | confidence | as-written member | corrected member |
|---|---|---|---|---|---|---|
| src/main.rs:28-30 | the empty `String` built when there are more than 16 bytes is dropped, and formatting carries on | 256 data bytes: the length field prints `100`, the checksum counts the length as 0, and the line is not a well-formed record | data longer than 16 bytes is refused instead of formatted | high; not executed | Record.OversizedLineMalformed | Record.FormatRecord |

`main` only ever passes windows of at most 16 bytes, so the discarded guard
never fires in this program. `Convert.DataLinesRecords` shows that every line
it prints is exactly what `Record.FormatRecord` returns.
