/**
 * The recording header (the .DAT file).
 * process_recording picks a fixed struct layout by the first byte and
 * unpacks the file's first bytes with it: 0xC1 is 64 bytes big-endian,
 * 0xC3 is 96 bytes little-endian, and the two layouts differ only in how
 * many trailing words they carry.
 */
module Header {
  import opened Bytes
  import opened Wrappers

  /** Byte order of a struct format: `>` is big-endian; the 0xC3 layout is read little-endian. */
  datatype Order = BigEndianOrder | LittleEndianOrder

  /** The struct format codes the layouts use: unsigned char, unsigned short, unsigned int, an n-byte string. */
  datatype Code = B | H | I | S(n: nat)

  /** One unpacked item: an unsigned integer or a byte string. */
  datatype Value = Int(n: nat) | Str(bytes: seq<byte>)

  function Size(c: Code): nat
  {
    match c
    case B => 1
    case H => 2
    case I => 4
    case S(n) => n
  }

  /** The byte size of a format (struct's calcsize; no code here needs padding). */
  function CalcSize(fmt: seq<Code>): nat
  {
    if fmt == [] then 0 else Size(fmt[0]) + CalcSize(fmt[1..])
  }

  function Word(order: Order, s: seq<byte>): nat
  {
    match order
    case BigEndianOrder => BigEndian(s)
    case LittleEndianOrder => LittleEndian(s)
  }

  function ToWord(order: Order, v: nat, w: nat): (s: seq<byte>)
    ensures |s| == w
  {
    match order
    case BigEndianOrder => ToBigEndian(v, w)
    case LittleEndianOrder => ToLittleEndian(v, w)
  }

  /** A value fits a code: a string of its length, or an integer below 256 to the code's width. */
  predicate Fits(c: Code, v: Value)
  {
    if c.S? then v.Str? && |v.bytes| == c.n else v.Int? && v.n < Pow256(Size(c))
  }

  /** The values fit the format item by item. */
  predicate Conforms(fmt: seq<Code>, vs: seq<Value>)
  {
    |vs| == |fmt| && forall k :: 0 <= k < |fmt| ==> Fits(fmt[k], vs[k])
  }

  function UnpackOne(c: Code, order: Order, s: seq<byte>): (v: Value)
    requires |s| == Size(c)
    ensures Fits(c, v)
  {
    if c.S? then Str(s) else Int(Word(order, s))
  }

  function PackOne(c: Code, order: Order, v: Value): (s: seq<byte>)
    requires Fits(c, v)
    ensures |s| == Size(c)
  {
    if c.S? then v.bytes else ToWord(order, v.n, Size(c))
  }

  /** struct.unpack for a buffer of exactly the format's size: one value per code, in order. */
  function Unpack(fmt: seq<Code>, order: Order, data: seq<byte>): (vs: seq<Value>)
    requires |data| == CalcSize(fmt)
    ensures Conforms(fmt, vs)
  {
    if fmt == [] then []
    else
      var w := Size(fmt[0]);
      [UnpackOne(fmt[0], order, data[..w])] + Unpack(fmt[1..], order, data[w..])
  }

  /** struct.pack: the values' encodings end to end. */
  function Pack(fmt: seq<Code>, order: Order, vs: seq<Value>): (data: seq<byte>)
    requires Conforms(fmt, vs)
    ensures |data| == CalcSize(fmt)
  {
    if fmt == [] then []
    else
      ConformsTail(fmt, vs);
      PackOne(fmt[0], order, vs[0]) + Pack(fmt[1..], order, vs[1..])
  }

  /** Values that conform to a format still conform once both lose their first item. */
  lemma ConformsTail(fmt: seq<Code>, vs: seq<Value>)
    requires Conforms(fmt, vs) && fmt != []
    ensures Conforms(fmt[1..], vs[1..])
  {
    forall k | 0 <= k < |fmt| - 1 ensures Fits(fmt[1..][k], vs[1..][k]) {
      assert Fits(fmt[k + 1], vs[k + 1]);
    }
  }

  lemma UnpackPackOne(c: Code, order: Order, v: Value)
    requires Fits(c, v)
    ensures UnpackOne(c, order, PackOne(c, order, v)) == v
  {
    if !c.S? {
      match order
      case BigEndianOrder => BigEndianOfEncoding(v.n, Size(c));
      case LittleEndianOrder => LittleEndianOfEncoding(v.n, Size(c));
    }
  }

  lemma PackUnpackOne(c: Code, order: Order, s: seq<byte>)
    requires |s| == Size(c)
    ensures PackOne(c, order, UnpackOne(c, order, s)) == s
  {
    if !c.S? {
      match order
      case BigEndianOrder => EncodingOfBigEndian(s);
      case LittleEndianOrder => EncodingOfLittleEndian(s);
    }
  }

  /** Unpacking a buffer that starts with the first item's bytes: that item, then the rest unpacked. */
  lemma UnpackCons(fmt: seq<Code>, order: Order, head: seq<byte>, tail: seq<byte>)
    requires fmt != [] && |head| == Size(fmt[0]) && |tail| == CalcSize(fmt[1..])
    ensures |head + tail| == CalcSize(fmt)
    ensures Unpack(fmt, order, head + tail) == [UnpackOne(fmt[0], order, head)] + Unpack(fmt[1..], order, tail)
  {
    var data := head + tail;
    assert data[..|head|] == head && data[|head|..] == tail;
  }

  /** Unpacking what was packed gives back the values. */
  lemma {:induction false} UnpackOfPack(fmt: seq<Code>, order: Order, vs: seq<Value>)
    requires Conforms(fmt, vs)
    ensures Unpack(fmt, order, Pack(fmt, order, vs)) == vs
  {
    if fmt != [] {
      ConformsTail(fmt, vs);
      var head := PackOne(fmt[0], order, vs[0]);
      var tail := Pack(fmt[1..], order, vs[1..]);
      assert Pack(fmt, order, vs) == head + tail;
      UnpackCons(fmt, order, head, tail);
      UnpackPackOne(fmt[0], order, vs[0]);
      UnpackOfPack(fmt[1..], order, vs[1..]);
      assert vs == [vs[0]] + vs[1..];
    }
  }

  /** Packing what was unpacked gives back the bytes. */
  lemma {:induction false} PackOfUnpack(fmt: seq<Code>, order: Order, data: seq<byte>)
    requires |data| == CalcSize(fmt)
    ensures Pack(fmt, order, Unpack(fmt, order, data)) == data
  {
    if fmt != [] {
      var w := Size(fmt[0]);
      var head, tail := data[..w], data[w..];
      var vs := Unpack(fmt, order, data);
      assert data == head + tail;
      UnpackCons(fmt, order, head, tail);
      var rest := Unpack(fmt[1..], order, tail);
      assert vs[0] == UnpackOne(fmt[0], order, head) && vs[1..] == rest;
      PackUnpackOne(fmt[0], order, head);
      PackOfUnpack(fmt[1..], order, tail);
    }
  }

  /** The byte offset of item k: the size of the codes before it. */
  function Offset(fmt: seq<Code>, k: nat): nat
    requires k <= |fmt|
  {
    if k == 0 then 0 else Size(fmt[0]) + Offset(fmt[1..], k - 1)
  }

  lemma {:induction false} OffsetBounds(fmt: seq<Code>, k: nat)
    requires k < |fmt|
    ensures Offset(fmt, k) + Size(fmt[k]) <= CalcSize(fmt)
    ensures Offset(fmt, k + 1) == Offset(fmt, k) + Size(fmt[k])
  {
    if k > 0 {
      OffsetBounds(fmt[1..], k - 1);
      assert fmt[1..][k - 1] == fmt[k];
    }
  }

  /** The offset past the last item is the size of the whole format. */
  lemma {:induction false} OffsetEnd(fmt: seq<Code>)
    ensures Offset(fmt, |fmt|) == CalcSize(fmt)
  {
    if fmt != [] {
      OffsetEnd(fmt[1..]);
    }
  }

  /** Item k is decoded from the Size(fmt[k]) bytes at its offset. */
  lemma {:induction false} UnpackAt(fmt: seq<Code>, order: Order, data: seq<byte>, k: nat)
    requires |data| == CalcSize(fmt) && k < |fmt|
    ensures Offset(fmt, k) + Size(fmt[k]) <= |data|
    ensures Unpack(fmt, order, data)[k] == UnpackOne(fmt[k], order, data[Offset(fmt, k)..Offset(fmt, k) + Size(fmt[k])])
    decreases k, 1
  {
    OffsetBounds(fmt, k);
    if k == 0 {
      assert data[0..Size(fmt[0])] == data[..Size(fmt[0])];
    } else {
      UnpackAtLater(fmt, order, data, k);
    }
  }

  lemma {:induction false} UnpackAtLater(fmt: seq<Code>, order: Order, data: seq<byte>, k: nat)
    requires |data| == CalcSize(fmt) && 0 < k < |fmt|
    ensures Offset(fmt, k) + Size(fmt[k]) <= |data|
    ensures Unpack(fmt, order, data)[k] == UnpackOne(fmt[k], order, data[Offset(fmt, k)..Offset(fmt, k) + Size(fmt[k])])
    decreases k, 0
  {
    var rest := data[Size(fmt[0])..];
    UnpackStep(fmt, order, data, k);
    UnpackAt(fmt[1..], order, rest, k - 1);
    ItemShift(fmt, data, k);
  }

  /** Item k's bytes, found in the data after the first item, are its bytes in the whole data. */
  lemma ItemShift(fmt: seq<Code>, data: seq<byte>, k: nat)
    requires |data| == CalcSize(fmt) && 0 < k < |fmt|
    ensures Size(fmt[0]) <= |data| && fmt[1..][k - 1] == fmt[k]
    ensures Offset(fmt[1..], k - 1) + Size(fmt[k]) <= |data| - Size(fmt[0])
    ensures Offset(fmt, k) + Size(fmt[k]) <= |data|
    ensures data[Size(fmt[0])..][Offset(fmt[1..], k - 1)..Offset(fmt[1..], k - 1) + Size(fmt[k])]
      == data[Offset(fmt, k)..Offset(fmt, k) + Size(fmt[k])]
  {
    var w := Size(fmt[0]);
    var n := Size(fmt[k]);
    assert fmt[1..][k - 1] == fmt[k];
    assert |data| == w + CalcSize(fmt[1..]);
    var o := Offset(fmt[1..], k - 1);
    assert o + n <= CalcSize(fmt[1..]) by {
      OffsetBounds(fmt[1..], k - 1);
    }
    assert Offset(fmt, k) == w + o;
    SliceOfSuffix(data, w, o, o + n);
  }

  lemma UnpackStep(fmt: seq<Code>, order: Order, data: seq<byte>, k: nat)
    requires |data| == CalcSize(fmt) && 0 < k < |fmt|
    ensures Size(fmt[0]) <= |data|
    ensures fmt[1..][k - 1] == fmt[k]
    ensures Unpack(fmt, order, data)[k] == Unpack(fmt[1..], order, data[Size(fmt[0])..])[k - 1]
  {
  }

  /** The layout of both header versions with t trailing words: B B H 4I I I I 12s, then 3 + t words. */
  function DatFormat(t: nat): seq<Code>
  {
    [B, B, H, I, I, I, I, I, I, I, S(12), I, I, I] + seq(t, _ => I)
  }

  /** The code of item k of every layout. */
  function CodeAt(k: nat): Code
  {
    if k < 2 then B else if k == 2 then H else if k == 10 then S(12) else I
  }

  /** Where item k starts: bytes 0, 1, 2, then words from 4, the name at 32, then words from 44. */
  function FieldOffset(k: nat): nat
  {
    if k <= 2 then k else if k <= 10 then 4 * (k - 2) else 44 + 4 * (k - 11)
  }

  lemma DatCode(t: nat, k: nat)
    requires k < 14 + t
    ensures |DatFormat(t)| == 14 + t
    ensures DatFormat(t)[k] == CodeAt(k)
  {
  }

  lemma {:induction false} DatOffsets(t: nat, k: nat)
    requires k <= 14 + t
    ensures Offset(DatFormat(t), k) == FieldOffset(k)
  {
    if k > 0 {
      DatOffsets(t, k - 1);
      DatCode(t, k - 1);
      OffsetBounds(DatFormat(t), k - 1);
    }
  }

  /** The whole layout: 56 bytes before the trailing words, 4 bytes each after. */
  lemma DatSize(t: nat)
    ensures CalcSize(DatFormat(t)) == 56 + 4 * t
  {
    DatOffsets(t, 14 + t);
    DatCode(t, 0);
    OffsetEnd(DatFormat(t));
  }

  /** Layout for a version byte: 0xC1 is big-endian with 2 trailing words, 0xC3 little-endian with 10. */
  function Layout(version: byte): Option<(Order, nat)>
  {
    if version == 0xC1 then Some((BigEndianOrder, 2))
    else if version == 0xC3 then Some((LittleEndianOrder, 10))
    else None
  }

  /** The Dat named tuple; `trailer` holds f0, f1, ... */
  datatype Dat = Dat(
    version: nat, waterType: nat, a0: nat, a1: nat, a2: nat, a3: nat, a4: nat,
    timestamp: nat, northing: nat, easting: nat, filename: seq<byte>,
    records: nat, recordPeriod: nat, lineSize: nat, trailer: seq<nat>)

  datatype HeaderError =
    | Empty                              // no version byte to read
    | UnsupportedVersion(version: byte)  // neither 0xC1 nor 0xC3
    | ShortHeader(need: nat, got: nat)   // fewer bytes than the layout's size

  /** Unpacked values that fit a layout. */
  predicate DatValues(vs: seq<Value>)
  {
    |vs| >= 14 && Conforms(DatFormat(|vs| - 14), vs)
  }

  /** Integer item k of unpacked layout values. */
  function IntAt(vs: seq<Value>, k: nat): nat
    requires DatValues(vs) && k < |vs| && k != 10
  {
    DatCode(|vs| - 14, k);
    assert Fits(DatFormat(|vs| - 14)[k], vs[k]);
    vs[k].n
  }

  /** Dat._make: the unpacked values by name. */
  function MakeDat(vs: seq<Value>): Dat
    requires DatValues(vs)
  {
    DatCode(|vs| - 14, 10);
    assert Fits(DatFormat(|vs| - 14)[10], vs[10]);
    Dat(IntAt(vs, 0), IntAt(vs, 1), IntAt(vs, 2), IntAt(vs, 3), IntAt(vs, 4), IntAt(vs, 5), IntAt(vs, 6),
        IntAt(vs, 7), IntAt(vs, 8), IntAt(vs, 9), vs[10].bytes,
        IntAt(vs, 11), IntAt(vs, 12), IntAt(vs, 13),
        seq(|vs| - 14, i requires 0 <= i < |vs| - 14 => IntAt(vs, 14 + i)))
  }

  /** The values a Dat packs back to, in layout order. */
  function Values(h: Dat): seq<Value>
  {
    [Int(h.version), Int(h.waterType), Int(h.a0), Int(h.a1), Int(h.a2), Int(h.a3), Int(h.a4),
     Int(h.timestamp), Int(h.northing), Int(h.easting), Str(h.filename),
     Int(h.records), Int(h.recordPeriod), Int(h.lineSize)]
    + seq(|h.trailer|, i requires 0 <= i < |h.trailer| => Int(h.trailer[i]))
  }

  /**
   * process_recording: read the version byte, pick the layout, and unpack
   * the layout's size in bytes from the start of the file; bytes past the
   * layout are not read.
   */
  function ProcessRecording(file: seq<byte>): Result<Dat, HeaderError>
  {
    if |file| == 0 then Err(Empty)
    else match Layout(file[0])
      case None => Err(UnsupportedVersion(file[0]))
      case Some((order, t)) =>
        var size := CalcSize(DatFormat(t));
        if |file| < size then Err(ShortHeader(size, |file|))
        else Ok(MakeDat(Unpack(DatFormat(t), order, file[..size])))
  }

  /** Which byte values a Dat can carry: a known version with its trailer, and every field within its width. */
  predicate ValidDat(h: Dat)
  {
    ((h.version == 0xC1 && |h.trailer| == 2) || (h.version == 0xC3 && |h.trailer| == 10)) && Widths(h)
  }

  /** Every integer field below 256 to its width, and a 12-byte name. */
  predicate Widths(h: Dat)
  {
    h.version < 0x100 && h.waterType < 0x100 && h.a0 < 0x1_0000 &&
    h.a1 < 0x1_0000_0000 && h.a2 < 0x1_0000_0000 && h.a3 < 0x1_0000_0000 && h.a4 < 0x1_0000_0000 &&
    h.timestamp < 0x1_0000_0000 && h.northing < 0x1_0000_0000 && h.easting < 0x1_0000_0000 &&
    |h.filename| == 12 &&
    h.records < 0x1_0000_0000 && h.recordPeriod < 0x1_0000_0000 && h.lineSize < 0x1_0000_0000 &&
    forall i :: 0 <= i < |h.trailer| ==> h.trailer[i] < 0x1_0000_0000
  }

  /** The header bytes of a Dat: its values packed in its version's layout. */
  function EncodeDat(h: Dat): (file: seq<byte>)
    requires ValidDat(h)
    ensures |file| == 56 + 4 * |h.trailer|
  {
    ValidConforms(h);
    DatSize(|h.trailer|);
    Pack(DatFormat(|h.trailer|), Layout(h.version as byte).value.0, Values(h))
  }

  lemma PowWidths()
    ensures Pow256(1) == 0x100 && Pow256(2) == 0x1_0000 && Pow256(4) == 0x1_0000_0000
  {
    assert Pow256(3) == 0x100_0000;
  }

  lemma ValidConforms(h: Dat)
    requires ValidDat(h)
    ensures DatValues(Values(h)) && |Values(h)| == 14 + |h.trailer|
  {
    var t := |h.trailer|;
    var vs := Values(h);
    PowWidths();
    forall k | 0 <= k < 14 + t ensures Fits(DatFormat(t)[k], vs[k]) {
      DatCode(t, k);
    }
  }

  lemma MakeOfValues(h: Dat)
    requires ValidDat(h)
    ensures DatValues(Values(h)) && MakeDat(Values(h)) == h
  {
    ValidConforms(h);
  }

  lemma ValuesOfMake(vs: seq<Value>)
    requires DatValues(vs)
    ensures Values(MakeDat(vs)) == vs
  {
    var t := |vs| - 14;
    var ws := Values(MakeDat(vs));
    forall k | 0 <= k < |vs| ensures ws[k] == vs[k] {
      DatCode(t, k);
      assert Fits(DatFormat(t)[k], vs[k]);
    }
  }

  /** A one-byte item is the byte itself in either order. */
  lemma OneByte(order: Order, s: seq<byte>)
    requires |s| == 1
    ensures Word(order, s) == s[0] as nat
    ensures ToWord(order, s[0] as nat, 1) == s
  {
    assert s[..0] == [] && s[1..] == [];
  }

  /** Values unpacked by a layout make a Dat whose fields fit their widths. */
  lemma WidthsOfMake(vs: seq<Value>)
    requires DatValues(vs)
    ensures Widths(MakeDat(vs)) && |MakeDat(vs).trailer| == |vs| - 14
  {
    var t := |vs| - 14;
    PowWidths();
    forall k | 0 <= k < |vs| ensures Fits(CodeAt(k), vs[k]) {
      DatCode(t, k);
    }
  }

  /** How process_recording fails: no byte, an unknown version, or fewer bytes than the layout. */
  lemma ProcessRecordingErrors(file: seq<byte>)
    ensures ProcessRecording(file).Ok? <==>
      |file| > 0 && ((file[0] == 0xC1 && |file| >= 64) || (file[0] == 0xC3 && |file| >= 96))
    ensures |file| == 0 ==> ProcessRecording(file) == Err(Empty)
    ensures |file| > 0 && file[0] != 0xC1 && file[0] != 0xC3 ==>
      ProcessRecording(file) == Err(UnsupportedVersion(file[0]))
    ensures 0 < |file| < 64 && file[0] == 0xC1 ==> ProcessRecording(file) == Err(ShortHeader(64, |file|))
    ensures 0 < |file| < 96 && file[0] == 0xC3 ==> ProcessRecording(file) == Err(ShortHeader(96, |file|))
  {
    DatSize(2);
    DatSize(10);
  }

  /** A decoded header carries the file's version byte, its version's trailer, and fields within their widths. */
  lemma ProcessRecordingValid(file: seq<byte>)
    requires ProcessRecording(file).Ok?
    ensures ProcessRecording(file).value.version == file[0] as nat
    ensures |ProcessRecording(file).value.trailer| == (if file[0] == 0xC1 then 2 else 10)
    ensures ValidDat(ProcessRecording(file).value)
  {
    var t := Layout(file[0]).value.1;
    var order := Layout(file[0]).value.0;
    var vs := Unpack(DatFormat(t), order, file[..CalcSize(DatFormat(t))]);
    FieldAt(file, 0);
    OneByte(order, file[0..1]);
    WidthsOfMake(vs);
  }

  /** Item k of a decoded header comes from the bytes at FieldOffset(k) of the file. */
  lemma FieldAt(file: seq<byte>, k: nat)
    requires ProcessRecording(file).Ok?
    requires k < 14 + Layout(file[0]).value.1
    ensures FieldOffset(k) + Size(CodeAt(k)) <= |file|
    ensures
      var t := Layout(file[0]).value.1;
      var order := Layout(file[0]).value.0;
      CalcSize(DatFormat(t)) <= |file| &&
      Unpack(DatFormat(t), order, file[..CalcSize(DatFormat(t))])[k]
        == UnpackOne(CodeAt(k), order, file[FieldOffset(k)..FieldOffset(k) + Size(CodeAt(k))])
  {
    var t := Layout(file[0]).value.1;
    var order := Layout(file[0]).value.0;
    var fmt := DatFormat(t);
    assert CalcSize(fmt) <= |file|;
    assert k < |fmt| && fmt[k] == CodeAt(k) && Offset(fmt, k) == FieldOffset(k) by {
      DatCode(t, k);
      DatOffsets(t, k);
    }
    UnpackPrefix(fmt, order, file, k);
  }

  /** Item k unpacked from the front of a longer file comes from its bytes at the item's offset. */
  lemma UnpackPrefix(fmt: seq<Code>, order: Order, file: seq<byte>, k: nat)
    requires CalcSize(fmt) <= |file| && k < |fmt|
    ensures Offset(fmt, k) + Size(fmt[k]) <= CalcSize(fmt)
    ensures Unpack(fmt, order, file[..CalcSize(fmt)])[k]
      == UnpackOne(fmt[k], order, file[Offset(fmt, k)..Offset(fmt, k) + Size(fmt[k])])
  {
    var size := CalcSize(fmt);
    UnpackAt(fmt, order, file[..size], k);
    SliceOfSlice(file, 0, size, Offset(fmt, k), Offset(fmt, k) + Size(fmt[k]));
    assert file[0..size] == file[..size];
  }

  /** Integer item k of a decoded header is the word at FieldOffset(k) in the version's byte order. */
  lemma FieldValue(file: seq<byte>, k: nat)
    requires ProcessRecording(file).Ok?
    requires k < 14 + Layout(file[0]).value.1 && k != 10
    ensures FieldOffset(k) + Size(CodeAt(k)) <= |file|
    ensures
      var vs := Values(ProcessRecording(file).value);
      |vs| == 14 + Layout(file[0]).value.1 &&
      vs[k] == Int(Word(Layout(file[0]).value.0, file[FieldOffset(k)..FieldOffset(k) + Size(CodeAt(k))]))
  {
    var t := Layout(file[0]).value.1;
    var vs := Unpack(DatFormat(t), Layout(file[0]).value.0, file[..CalcSize(DatFormat(t))]);
    FieldAt(file, k);
    DatCode(t, k);
    WidthsOfMake(vs);
    ValuesOfMake(vs);
  }

  /**
   * The fixed layout: water type at byte 1, a0 at 2..4, a1..a4 at 4..20,
   * timestamp 20..24, northing 24..28, easting 28..32, the 12-byte name at
   * 32..44, records 44..48, record period 48..52, line size 52..56, and
   * trailing word i at 56 + 4i, each unsigned in the version's byte order.
   */
  lemma HeaderFields(file: seq<byte>)
    requires ProcessRecording(file).Ok?
    ensures |file| >= 56
    ensures
      var h := ProcessRecording(file).value;
      var order := Layout(file[0]).value.0;
      h.waterType == file[1] as nat &&
      h.a0 == Word(order, file[2..4]) &&
      h.a1 == Word(order, file[4..8]) && h.a2 == Word(order, file[8..12]) &&
      h.a3 == Word(order, file[12..16]) && h.a4 == Word(order, file[16..20]) &&
      h.timestamp == Word(order, file[20..24]) &&
      h.northing == Word(order, file[24..28]) &&
      h.easting == Word(order, file[28..32]) &&
      h.filename == file[32..44] &&
      h.records == Word(order, file[44..48]) &&
      h.recordPeriod == Word(order, file[48..52]) &&
      h.lineSize == Word(order, file[52..56])
  {
    assert |file| >= 56 by {
      DatSize(Layout(file[0]).value.1);
    }
    var h := ProcessRecording(file).value;
    var order := Layout(file[0]).value.0;
    HeaderLead(file, h, order);
    HeaderCalibration(file, h, order);
    HeaderPosition(file, h, order);
    HeaderCounts(file, h, order);
  }

  /** Water type and the first two calibration words. */
  lemma HeaderLead(file: seq<byte>, h: Dat, order: Order)
    requires ProcessRecording(file) == Ok(h) && Layout(file[0]).Some? && order == Layout(file[0]).value.0
    requires |file| >= 56
    ensures h.waterType == file[1] as nat
    ensures h.a0 == Word(order, file[2..4])
    ensures h.a1 == Word(order, file[4..8])
  {
    assert h.waterType == Word(order, file[1..2]) by { FieldValue(file, 1); }
    assert Word(order, file[1..2]) == file[1] as nat by {
      OneByte(order, file[1..2]);
      assert file[1..2][0] == file[1];
    }
    assert h.a0 == Word(order, file[2..4]) by { FieldValue(file, 2); }
    assert h.a1 == Word(order, file[4..8]) by { FieldValue(file, 3); }
  }

  /** The calibration words a2..a4. */
  lemma HeaderCalibration(file: seq<byte>, h: Dat, order: Order)
    requires ProcessRecording(file) == Ok(h) && Layout(file[0]).Some? && order == Layout(file[0]).value.0
    requires |file| >= 56
    ensures h.a2 == Word(order, file[8..12])
    ensures h.a3 == Word(order, file[12..16])
    ensures h.a4 == Word(order, file[16..20])
  {
    assert h.a2 == Word(order, file[8..12]) by { FieldValue(file, 4); }
    assert h.a3 == Word(order, file[12..16]) by { FieldValue(file, 5); }
    assert h.a4 == Word(order, file[16..20]) by { FieldValue(file, 6); }
  }

  /** Timestamp, northing, easting and the file name. */
  lemma HeaderPosition(file: seq<byte>, h: Dat, order: Order)
    requires ProcessRecording(file) == Ok(h) && Layout(file[0]).Some? && order == Layout(file[0]).value.0
    requires |file| >= 56
    ensures h.timestamp == Word(order, file[20..24])
    ensures h.northing == Word(order, file[24..28])
    ensures h.easting == Word(order, file[28..32])
    ensures h.filename == file[32..44]
  {
    assert h.timestamp == Word(order, file[20..24]) by { FieldValue(file, 7); }
    assert h.northing == Word(order, file[24..28]) by { FieldValue(file, 8); }
    assert h.easting == Word(order, file[28..32]) by { FieldValue(file, 9); }
    assert h.filename == file[32..44] by { FieldAt(file, 10); }
  }

  /** Number of records, record period and line size. */
  lemma HeaderCounts(file: seq<byte>, h: Dat, order: Order)
    requires ProcessRecording(file) == Ok(h) && Layout(file[0]).Some? && order == Layout(file[0]).value.0
    requires |file| >= 56
    ensures h.records == Word(order, file[44..48])
    ensures h.recordPeriod == Word(order, file[48..52])
    ensures h.lineSize == Word(order, file[52..56])
  {
    assert h.records == Word(order, file[44..48]) by { FieldValue(file, 11); }
    assert h.recordPeriod == Word(order, file[48..52]) by { FieldValue(file, 12); }
    assert h.lineSize == Word(order, file[52..56]) by { FieldValue(file, 13); }
  }

  lemma HeaderTrailer(file: seq<byte>, i: nat)
    requires ProcessRecording(file).Ok?
    requires i < |ProcessRecording(file).value.trailer|
    ensures 60 + 4 * i <= |file|
    ensures ProcessRecording(file).value.trailer[i] == Word(Layout(file[0]).value.0, file[56 + 4 * i..60 + 4 * i])
  {
    var h := ProcessRecording(file).value;
    FieldValue(file, 14 + i);
    assert Values(h)[14 + i] == Int(h.trailer[i]);
    assert FieldOffset(14 + i) == 56 + 4 * i && Size(CodeAt(14 + i)) == 4;
  }

  lemma PackFirst(fmt: seq<Code>, order: Order, vs: seq<Value>)
    requires Conforms(fmt, vs) && fmt != []
    ensures Size(fmt[0]) <= |Pack(fmt, order, vs)|
    ensures Pack(fmt, order, vs)[..Size(fmt[0])] == PackOne(fmt[0], order, vs[0])
  {
  }

  /** Decoding an encoded header gives it back. */
  lemma ProcessRecordingOfEncode(h: Dat)
    requires ValidDat(h)
    ensures ProcessRecording(EncodeDat(h)) == Ok(h)
  {
    var t := |h.trailer|;
    var order := Layout(h.version as byte).value.0;
    var file := EncodeDat(h);
    ValidConforms(h);
    assert file[0] == h.version as byte by {
      DatCode(t, 0);
      PackFirst(DatFormat(t), order, Values(h));
      OneByte(order, [h.version as byte]);
      assert file[0] == file[..1][0];
    }
    assert Layout(file[0]) == Some((order, t));
    assert CalcSize(DatFormat(t)) == |file| by {
      DatSize(t);
    }
    assert Unpack(DatFormat(t), order, file[..|file|]) == Values(h) by {
      assert file[..|file|] == file;
      UnpackOfPack(DatFormat(t), order, Values(h));
    }
    MakeOfValues(h);
  }

  /** A decoded header encodes back to the bytes it was read from. */
  lemma EncodeOfProcessRecording(file: seq<byte>)
    requires ProcessRecording(file).Ok?
    ensures ValidDat(ProcessRecording(file).value)
    ensures
      var e := EncodeDat(ProcessRecording(file).value);
      |e| <= |file| && e == file[..|e|]
  {
    var t := Layout(file[0]).value.1;
    var order := Layout(file[0]).value.0;
    var chunk := file[..CalcSize(DatFormat(t))];
    var vs := Unpack(DatFormat(t), order, chunk);
    ProcessRecordingValid(file);
    ValuesOfMake(vs);
    PackOfUnpack(DatFormat(t), order, chunk);
    DatSize(t);
  }
}
