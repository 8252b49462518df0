# hum-extract decoder model

A Dafny model of `hum-extract.py`, a decoder for the sonar recordings a
fishfinder writes. A recording consists of three kinds of file:

- a `.DAT` header;
- per-channel `.IDX` index files;
- per-channel `.SON` data files.

The model covers the decoding core.

- **Opcode table** (`Tags`, `tags.dfy`). `FIELDS` lists the labels of the record tag stream. Each label gives a one-byte opcode and the width of the big-endian value that follows it. `FIELD_MAP` is the dictionary filled from that list.
- **Record parser** (`Records`, `records.dfy`). `parse_record` works in four steps:
  1. It checks the magic `C0 DE AB 21`.
  2. It walks the tags through the dictionary.
  3. It stops at the terminator `0x21` or at an unknown opcode.
  4. It accepts the rest of the record as the body only if its length equals the last `0xA0` (data length) value, or 0 when there is none.

  The model has a method, `ParseRecord`, that mirrors the loop. It is proved equal to the function `Decode`. `Decode` is in turn proved a bijection with an encoder on the records it accepts.
- **Index decoder and record slicer** (`Index`, `index.dfy`). `idx2pointers` reads 4-byte big-endian (id, offset) pairs. `pointers2records` cuts the data file at those offsets. Python's read semantics are kept:
  - a seek past the end reads nothing;
  - `read(-1)` reads to the end, and any length below -1 raises `ValueError`, so a next offset lower by two or more ends the slicing with an error;
  - the index loop stops only on an empty read.
- **Header decoder** (`Header`, `header.dfy`). `process_recording` selects a struct layout by the version byte and unpacks the start of the `.DAT` file with it:
  - 0xC1: 64 bytes, big-endian;
  - 0xC3: 96 bytes, little-endian.

  struct's `unpack`/`pack` are modelled for the codes the layouts use.
- **Base name** (`Names`, `names.dfy`). Line 169 splits the file name on `.` into a base name and an extension.
- **Image grouping** (`Images`, `images.dfy`). Parsed record bodies are grouped into runs of equal length, and each run becomes a `w×h` raster.

File reads are modelled as slicing byte sequences (`Bytes.ReadAt`). Bytes are the `byte` newtype, 0..255. Python exceptions become `Err` values of a `Result`:

- the `assert`s;
- `IndexError` from `record[p]` or `partitions[-1]`;
- `struct.error`;
- the tuple-unpacking `ValueError`.

Some behaviours of the code are easy to misread; the model follows the code in each:

- **No `0xA0` tag.** A record without one must have an empty body, because `bodylen` starts at 0 and the assertion on line 102 still applies.
- **Unknown opcode.** The walk stops at an unknown opcode, and the body then starts *after* that opcode byte (lines 82, 99–100), not at it.
- **Northing and easting** are unpacked unsigned (`I`), not signed.
- **Index remainder.** A trailing index remainder of 5–7 bytes yields one more entry, whose offset comes from the 1–3 leftover bytes. `if not r1 or not r2` stops only on an empty read.
- **Unsupported header version** ends in `assert(False)` (an error), not in a fallback layout.

## Model

| member | source | states |
|---|---|---|
| Bytes.ReadAt | hum-extract.py:128-132 | seek then read: the read fails exactly when n < -1; otherwise a position at or past the end gives no bytes, n = -1 reads to the end, and n >= 0 gives at most n bytes from the position |
| Bytes.BigEndian | hum-extract.py:86 | `int.from_bytes(..., 'big')` (also lines 118-119); its contract is stated by `Bytes.BigEndianOfEncoding`, `Bytes.EncodingOfBigEndian` and `Bytes.BigEndianWord` |
| Bytes.BigEndianOfEncoding | hum-extract.py:86 | `int.from_bytes(..., 'big')` inverts the w-byte big-endian encoding of every value below 256^w |
| Bytes.EncodingOfBigEndian | hum-extract.py:86 | every byte string is the big-endian encoding of its `int.from_bytes` value at its own width |
| Bytes.LittleEndian | hum-extract.py:146 | the unsigned words of the 0xC3 layout, unpacked in native order (line 153) and read here as little-endian; its contract is stated by `Bytes.LittleEndianOfEncoding` and `Bytes.EncodingOfLittleEndian` |
| Bytes.LittleEndianOfEncoding | hum-extract.py:146 | the little-endian reading inverts the little-endian encoding of every value below 256^w |
| Bytes.EncodingOfLittleEndian | hum-extract.py:146 | every byte string is the little-endian encoding of its value |
| Bytes.BigEndianWord | hum-extract.py:118-119 | a 4-byte big-endian word is a·2^24 + b·2^16 + c·2^8 + d |
| Tags.LookupSpec | hum-extract.py:60-62 | the dictionary filled from the list in order has no entry for an opcode iff no label has it; otherwise it holds a label with that opcode after which no label has it (later assignments win) |
| Tags.Lookup | hum-extract.py:60-62 | `FIELD_MAP.get(opc)`, the dictionary filled from the list; its contract is stated by `Tags.LookupSpec` |
| Tags.BuildFieldMap | hum-extract.py:60-62 | the filling loop produces a map whose keys are exactly the table's opcodes and whose entries are what the dictionary holds |
| Tags.TableShape | hum-extract.py:12-59 | the 34 opcodes are pairwise distinct, every width is 0, 1 or 4, and 0x21 is the only zero-width label |
| Tags.LookupTable | hum-extract.py:60-62 | looking up any table label's opcode yields that label |
| Tags.LookupMember | hum-extract.py:60-62 | the same for a label given by value |
| Tags.LookupWidth | hum-extract.py:83-93 | a found label is in the table with width 0, 1 or 4, zero exactly for 0x21; the lookup yields the terminator iff opc = 0x21 and the data-length label iff opc = 0xA0 |
| Tags.TableMatchesWidths | hum-extract.py:12-59 | the dictionary knows exactly the opcodes of an independent range table (4 bytes for 0x80–0x8F, 0x92, 0x95, 0x98–0xA0; 1 byte for 0x50, 0x51, 0x53, 0x54, 0x56, 0x57; 0 for 0x21), with the same widths |
| Records.DecodeTags | hum-extract.py:80-103 | the tag walk from cursor p; its contracts are stated by `Records.DecodeTagsBody`, `Records.KnownTagStep`, `Records.TruncatedAt`, `Records.LengthMismatchFails` and the round trip `Records.EncodeOfDecode` |
| Records.DeclaredLength | hum-extract.py:75-91 | `bodylen`: 0 at the start, overwritten by each 0xA0 tag's value; its contract is stated by `Records.DeclaredLengthSpec` and `Records.LastDataLength` |
| Records.DeclaredLengthSpec | hum-extract.py:75 | the expected body length is 0 when no 0xA0 tag was seen; when some 0xA0 tag was seen, it is the value of an 0xA0 tag with no 0xA0 tag after it |
| Records.LastDataLength | hum-extract.py:75-91 | if tag i is 0xA0 and no later tag is, the expected body length is exactly tag i's value (`bodylen = data`, later tags overwriting earlier ones) |
| Records.DecodeTagsBody | hum-extract.py:80-103 | a successful walk returns a body whose length equals the declared length and which is the suffix of the record starting strictly after the cursor |
| Records.Finish | hum-extract.py:100-102 | `body = record[p:]` and the length assertion; its contract is stated by `Records.DecodeTagsBody` and `Records.LengthMismatchFails` |
| Records.KnownTagStep | hum-extract.py:83-87 | at a known non-terminator opcode whose following width bytes are the big-endian encoding of a value, the walk moves the cursor by 1 + the table width and collects exactly that tag and value |
| Records.Decode | hum-extract.py:65-72 | a record without the 4-byte magic fails with BadMagic; a success has the magic, more than 4 bytes and the declared body length |
| Records.ParseRecord | hum-extract.py:67-103 | the cursor loop over the opcode dictionary returns exactly `Decode(record)` |
| Records.EncodeField | hum-extract.py:85-87 | a tag takes 1 + its table width bytes |
| Records.DecodeOfEncode | hum-extract.py:67-103 | every well-formed record (known tags with fitting values, an ending byte the walk stops at, the declared body length) is decoded from its encoding |
| Records.EncodeOfDecode | hum-extract.py:67-103 | whatever the parser accepts is well-formed and is exactly the encoding of the record it returned |
| Records.TruncatedTagStream | hum-extract.py:81 | a record cut anywhere inside a tag, before its ending byte, fails with the index error of reading past the end |
| Records.TruncatedAt | hum-extract.py:81-87 | at the end of the record, or at a known opcode whose value runs past the end, the walk fails |
| Records.LengthMismatchFails | hum-extract.py:92-102 | a record of known tags ended by the terminator or by an unknown opcode, whose body length differs from the declared length (the last 0xA0 value, or 0), fails the line-102 assertion with exactly those two lengths |
| Records.TerminatorOnly | hum-extract.py:92-103 | `C0 DE AB 21 21` decodes to no tags, ended by the terminator, with an empty body |
| Records.UnknownOpcodeFirst | hum-extract.py:94-102 | `C0 DE AB 21 FF 21` stops at the unknown opcode 0xFF; the one byte after it is the body, and without an 0xA0 tag the length check fails (0 declared, 1 found) |
| Index.Pointers | hum-extract.py:110-121 | what idx2pointers yields; its contract is stated by `Index.PointersShape` and `Index.PointersOfEncoded` |
| Index.PointersShape | hum-extract.py:114-120 | an n-byte index yields n div 8 entries, plus one when 5–7 bytes remain; entry k has the big-endian id of bytes 8k..8k+4 and the big-endian offset of bytes 8k+4..min(8k+8, n) |
| Index.IdxToPointers | hum-extract.py:110-121 | the read loop returns exactly `Pointers(idx)` |
| Index.PointersOfEncoded | hum-extract.py:118-120 | the entries decoded from the 8-byte big-endian encoding of any ids and offsets below 2^32 are those entries |
| Index.TwoEntryIndex | hum-extract.py:114-120 | `00000001 00000000 00000002 00000010` decodes to (1, 0), (2, 16) |
| Index.RecordAt | hum-extract.py:128-132 | the read for entry i; its contract is stated by `Index.SliceOfOrdered` and `Index.UnorderedSlices` |
| Index.Slices | hum-extract.py:127-134 | all the reads in entry order; its contract is stated by `Index.SlicesReads` and `Index.SlicesTileData` |
| Index.SlicesReads | hum-extract.py:127-134 | the slicing succeeds iff every read does, and then gives one record per entry, record i being what read i returned |
| Index.PointersToRecords | hum-extract.py:123-135 | the loop returns exactly `Slices(data, pointers)`: one record per entry, in entry order, each read from its offset to the next entry's offset (the last to the end of the file), or the `ValueError` of the first read whose length is below -1; on success the counter s is the sum of the record lengths (the source keeps s but never reads or returns it) |
| Index.SliceOfOrdered | hum-extract.py:128-132 | with non-decreasing offsets inside the file, read i succeeds with exactly `data[off_i..off_{i+1}]`, and the last with `data[off_last..]` |
| Index.SlicesTileData | hum-extract.py:127-134 | with non-decreasing offsets inside the file, every read succeeds, the records joined are `data[off_0..]` and s is its length |
| Bytes.Concat | hum-extract.py:208 | `b''.join(part)`; its contract is stated by `Index.TotalIsConcatLength`, `Index.SlicesTileData` and `Images.RasterSize` |
| Index.TotalIsConcatLength | hum-extract.py:134 | the running sum of lengths is the length of the records joined |
| Index.UnorderedSlices | hum-extract.py:128-132 | an offset past the end gives an empty record when the read length is at least -1; a next offset exactly one lower gives `read(-1)`, which reads to the end of the file; a next offset two or more lower makes that read, and the whole slicing, fail with `ValueError` |
| Header.Unpack | hum-extract.py:153 | `unpack` of a buffer of exactly calcsize bytes gives one value per code, each fitting its code |
| Header.UnpackOfPack | hum-extract.py:153 | unpacking packed values gives the values back |
| Header.PackOfUnpack | hum-extract.py:153 | packing unpacked values gives the bytes back |
| Header.UnpackAt | hum-extract.py:153 | item k is decoded from the bytes at the sum of the earlier codes' sizes |
| Header.DatFormat | hum-extract.py:142-146 | the two `DATSTRUCT` strings, `B B H 4I I I I 12s` then 5 or 13 `I`, as one layout with t trailing words; its contract is stated by `Header.DatCode`, `Header.DatOffsets` and `Header.DatSize` |
| Header.Layout | hum-extract.py:140-150 | the version branch: 0xC1 big-endian with 2 trailing words, 0xC3 little-endian with 10, anything else the `assert(False)`; its contract is stated by `Header.ProcessRecordingErrors` and `Header.ProcessRecordingValid` |
| Header.DatCode | hum-extract.py:142-146 | both layouts are B B H, seven I, 12s, then I words: 14 items plus the trailing words |
| Header.DatOffsets | hum-extract.py:142-146 | item k starts at byte 0, 1, 2, then 4(k−2) up to the name at 32, then 44 + 4(k−11) |
| Header.DatSize | hum-extract.py:142-152 | a layout with t trailing words is 56 + 4t bytes: 64 for 0xC1, 96 for 0xC3 |
| Header.ProcessRecording | hum-extract.py:137-154 | the header decoder; its contracts are stated by `Header.ProcessRecordingErrors`, `Header.ProcessRecordingValid`, `Header.HeaderFields` and the round trips `Header.ProcessRecordingOfEncode` and `Header.EncodeOfProcessRecording` |
| Header.ProcessRecordingErrors | hum-extract.py:137-152 | decoding succeeds iff the file is non-empty and starts with 0xC1 and has at least 64 bytes, or with 0xC3 and at least 96; an empty file, another version, and a short file each give their own error |
| Header.ProcessRecordingValid | hum-extract.py:137-154 | a decoded header carries the file's version byte, 2 trailing words for 0xC1 and 10 for 0xC3, and fields within their widths |
| Header.HeaderFields | hum-extract.py:142-153 | water type at byte 1, a0 at 2..4, a1–a4 at 4..20, timestamp 20..24, northing 24..28, easting 28..32, the 12-byte name at 32..44, records 44..48, record period 48..52, line size 52..56, all unsigned in the version's byte order |
| Header.HeaderTrailer | hum-extract.py:142-153 | trailing word i is the unsigned word at bytes 56+4i..60+4i |
| Header.FieldValue | hum-extract.py:153 | every integer item of a decoded header is the word at its offset in the version's byte order |
| Header.EncodeDat | hum-extract.py:142-146 | a header encodes to 56 + 4 bytes per trailing word |
| Header.ProcessRecordingOfEncode | hum-extract.py:137-154 | every valid header is decoded from its encoding |
| Header.EncodeOfProcessRecording | hum-extract.py:137-154 | a decoded header is valid and encodes back to the first 64 or 96 bytes of the file; later bytes are not read |
| Header.MakeDat | hum-extract.py:153 | `Dat._make` on the unpacked values; its contract is stated by `Header.MakeOfValues` and `Header.ValuesOfMake` |
| Header.MakeOfValues | hum-extract.py:153 | `Dat._make` of a header's values gives the header |
| Header.ValuesOfMake | hum-extract.py:153 | the values of `Dat._make(vs)` are vs |
| Names.Split | hum-extract.py:169 | `str.split` always yields at least one piece |
| Names.JoinOfSplit | hum-extract.py:169 | joining the pieces with the separator gives the string back |
| Names.SplitShape | hum-extract.py:169 | there is one piece more than separators, and no piece contains the separator |
| Names.BaseName | hum-extract.py:169 | `basename, ext = name.split('.')`; its contract is stated by `Names.BaseNameSpec` and `Names.BaseNameOfJoin` |
| Names.BaseNameSpec | hum-extract.py:169 | the name splits into base and extension iff it holds exactly one '.', and is then base + "." + ext with no '.' in either; no '.' and several '.' give the two unpacking errors |
| Names.BaseNameOfJoin | hum-extract.py:169 | any base and extension without '.' come back from their joined name |
| Images.RecordBodies | hum-extract.py:191 | the list of parsed bodies; its contract is stated by `Images.RecordBodiesSpec` and `Images.BodyLengths` |
| Images.RecordBodiesSpec | hum-extract.py:191 | the bodies are produced iff every record parses, body i then being record i's body; otherwise the error is the first failing record's |
| Images.BodyLengths | hum-extract.py:191 | every body has the length its record declared |
| Images.Partition | hum-extract.py:192-200 | the grouping fails exactly when the first body is empty; otherwise its parts, joined, are the bodies in order, each part is non-empty with equal-length members, and neighbouring parts differ in length |
| Images.AppendPart | hum-extract.py:196-198 | starting a part for a body of a new length keeps the run-partition invariant |
| Images.ExtendLast | hum-extract.py:199-200 | adding a body of the last part's length to that part keeps the invariant |
| Images.RunPartitionUnique | hum-extract.py:192-200 | a list of bodies has only one run partition, so the loop's result is determined by the bodies |
| Images.LastPart | hum-extract.py:192-200 | the last part is the maximal run of trailing bodies with the last body's length |
| Images.NoPartsNoBodies | hum-extract.py:192-200 | there are no parts exactly when there are no bodies |
| Images.RasterSize | hum-extract.py:203-208 | a uniform part of h bodies of width w joins into exactly w·h bytes |
| Images.PartitionRasters | hum-extract.py:203-209 | every part of a run partition supplies exactly the w·h pixels `Image.frombytes` needs |

## Left out

- `wsg2gps` (hum-extract.py:105-108): floating-point trigonometry used only for display.
- Timestamp formatting with `strftime`/`gmtime` (line 168): a library call; the timestamp is kept as the unpacked integer.
- The water-type name lookup (line 171) and every `print`, including the `print_headers` output of `parse_record`: display only. The decoded tags are collected in `Record.fields` instead of printed.
- Argument parsing (lines 156-160), `glob` and the pairing of `.IDX`/`.idx` with `.SON` files (lines 179-188): file-system plumbing. File contents are parameters of type `seq<byte>`.
- `open`, `seek` and `read`: replaced by `ReadAt` on byte sequences, which keeps the clamping, `read(-1)` reading to the end, and the `ValueError` for lengths below -1.
- UTF-8 decoding of the header's file name (line 169): a library call. `Names` works on already decoded characters.
- PIL `Image.frombytes`/`show` (lines 202, 209-210): a foreign library and UI. Only the size of the pixel data handed to it is modelled.
- Header.ProcessRecording: the 0xC3 layout is unpacked with the machine's native order in the source; it is modelled as little-endian, the order of the machines the tool runs on. Native alignment adds no padding, because every item of the layout is naturally aligned.
