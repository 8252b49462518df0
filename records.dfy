/**
 * One sonar record of a data file: the magic prefix C0 DE AB 21, a stream
 * of tags driven by the opcode table, and the trailing body whose length the
 * 0xA0 tag declares.
 */
module Records {
  import opened Bytes
  import opened Wrappers
  import opened Tags

  /** Every record starts with these four bytes. */
  const MAGIC: seq<byte> := [0xC0, 0xDE, 0xAB, 0x21]

  /** One decoded tag: its table label and the big-endian value after it. */
  datatype Field = Field(tag: Label, value: nat)

  /** How the tag walk stopped: at the terminator 0x21, or at an opcode the table does not know. */
  datatype Ending = Terminated | UnknownOpcode(opc: byte)

  /** The tags the walk decoded (the source prints them), how it stopped, and the body it returns. */
  datatype Record = Record(fields: seq<Field>, ending: Ending, body: seq<byte>)

  /**
   * The failures of the decoder: the magic assertion, the index error of
   * reading an opcode past the end, and the body-length assertion.
   */
  datatype ParseError = BadMagic | Truncated | LengthMismatch(declared: nat, actual: nat)

  /** The body length the walk expects after `fields`: the value of the last 0xA0 tag, or 0. */
  function DeclaredLength(fields: seq<Field>): nat
  {
    if fields == [] then 0
    else if fields[|fields| - 1].tag == DataLength then fields[|fields| - 1].value
    else DeclaredLength(fields[..|fields| - 1])
  }

  /**
   * The declared length is 0 when no tag is 0xA0, and otherwise the value of
   * an 0xA0 tag with no other 0xA0 tag after it.
   */
  lemma {:induction false} DeclaredLengthSpec(fields: seq<Field>)
    ensures (forall i :: 0 <= i < |fields| ==> fields[i].tag != DataLength) ==> DeclaredLength(fields) == 0
    ensures (exists i :: 0 <= i < |fields| && fields[i].tag == DataLength) ==>
      exists i :: 0 <= i < |fields| && fields[i].tag == DataLength && fields[i].value == DeclaredLength(fields) &&
        forall j :: i < j < |fields| ==> fields[j].tag != DataLength
  {
    if fields != [] && fields[|fields| - 1].tag != DataLength {
      var front := fields[..|fields| - 1];
      assert forall i :: 0 <= i < |front| ==> front[i] == fields[i];
      DeclaredLengthSpec(front);
    }
  }

  /** When tag i is the last 0xA0 tag, its value is the declared body length (bodylen = data, later tags winning). */
  lemma {:induction false} LastDataLength(fields: seq<Field>, i: nat)
    requires i < |fields| && fields[i].tag == DataLength
    requires forall j :: i < j < |fields| ==> fields[j].tag != DataLength
    ensures DeclaredLength(fields) == fields[i].value
  {
    if i < |fields| - 1 {
      var front := fields[..|fields| - 1];
      assert forall k :: 0 <= k < |front| ==> front[k] == fields[k];
      LastDataLength(front, i);
    }
  }

  /** The end of the walk: the body is accepted only when its length is the declared one. */
  function Finish(fields: seq<Field>, ending: Ending, body: seq<byte>): Result<Record, ParseError>
  {
    if |body| == DeclaredLength(fields) then Ok(Record(fields, ending, body))
    else Err(LengthMismatch(DeclaredLength(fields), |body|))
  }

  /**
   * The tag walk from cursor p, `fields` holding the tags decoded so far: a
   * known opcode is followed by its table width of value bytes, the
   * terminator or an unknown opcode ends the walk, and running out of bytes
   * before either fails.
   */
  function DecodeTags(record: seq<byte>, p: nat, fields: seq<Field>): Result<Record, ParseError>
    requires p <= |record|
    decreases |record| - p
  {
    if p == |record| then Err(Truncated)
    else
      var opc := record[p];
      match Lookup(FIELDS, opc)
      case None => Finish(fields, UnknownOpcode(opc), record[p + 1..])
      case Some(tag) =>
        if p + 1 + tag.len > |record| then Err(Truncated)
        else if tag == HeaderEnd then Finish(fields, Terminated, record[p + 1..])
        else DecodeTags(record, p + 1 + tag.len,
                        fields + [Field(tag, BigEndian(record[p + 1..p + 1 + tag.len]))])
  }

  /**
   * A successful walk returns a body of the declared length that is a suffix
   * of the record starting strictly after the cursor.
   */
  lemma {:induction false} DecodeTagsBody(record: seq<byte>, p: nat, fields: seq<Field>)
    requires p <= |record|
    ensures DecodeTags(record, p, fields).Ok? ==>
      var r := DecodeTags(record, p, fields).value;
      |r.body| == DeclaredLength(r.fields) && |r.body| < |record| - p &&
      r.body == record[|record| - |r.body|..]
    decreases |record| - p
  {
    if p < |record| {
      match Lookup(FIELDS, record[p])
      case None =>
      case Some(tag) =>
        if p + 1 + tag.len <= |record| && tag != HeaderEnd {
          DecodeTagsBody(record, p + 1 + tag.len, fields + [Field(tag, BigEndian(record[p + 1..p + 1 + tag.len]))]);
        }
    }
  }

  /** A known, non-terminator tag that fits in the record moves the walk past its value. */
  lemma DecodeTagsStep(record: seq<byte>, p: nat, fields: seq<Field>, tag: Label, value: nat)
    requires p < |record| && Lookup(FIELDS, record[p]) == Some(tag)
    requires tag != HeaderEnd && p + 1 + tag.len <= |record|
    requires value == BigEndian(record[p + 1..p + 1 + tag.len])
    ensures DecodeTags(record, p, fields) == DecodeTags(record, p + 1 + tag.len, fields + [Field(tag, value)])
  {
  }

  /** What parse_record makes of one record's bytes. */
  function Decode(record: seq<byte>): (r: Result<Record, ParseError>)
    ensures r.Ok? ==> |record| > 4 && record[..4] == MAGIC
    ensures r.Ok? ==> |r.value.body| == DeclaredLength(r.value.fields)
    ensures |record| < 4 || record[..4] != MAGIC ==> r == Err(BadMagic)
  {
    if |record| < 4 || record[..4] != MAGIC then Err(BadMagic)
    else
      DecodeTagsBody(record, 4, []);
      DecodeTags(record, 4, [])
  }

  /**
   * parse_record: checks the magic, walks the tags through the opcode
   * dictionary, and checks the remaining bytes against the declared length.
   */
  method ParseRecord(record: seq<byte>, fieldMap: map<byte, Label>) returns (r: Result<Record, ParseError>)
    requires Represents(fieldMap, FIELDS)
    ensures r == Decode(record)
  {
    var p := 0;
    var head := record[Min(p, |record|)..Min(p + |MAGIC|, |record|)];
    p := p + |MAGIC|;
    if head != MAGIC {
      return Err(BadMagic);
    }
    assert |head| == 4;
    assert record[..4] == head;
    ghost var goal := Decode(record);
    assert goal == DecodeTags(record, 4, []);
    var fields: seq<Field> := [];
    var bodylen := 0;
    var foundEnd := false;
    var ending := Terminated;
    while !foundEnd
      invariant bodylen == DeclaredLength(fields)
      invariant !foundEnd && p <= |record| ==> goal == DecodeTags(record, p, fields)
      invariant !foundEnd && p > |record| ==> goal == Err(Truncated)
      invariant foundEnd ==> p <= |record| && ending == Terminated
      invariant foundEnd ==> goal == Finish(fields, Terminated, record[p..])
      decreases if p <= |record| then |record| - p + 1 else 0
    {
      if p >= |record| {
        // record[p] raises IndexError
        return Err(Truncated);
      }
      var opc := record[p];
      ghost var p0, fields0 := p, fields;
      p := p + 1;
      assert opc in fieldMap <==> Lookup(FIELDS, opc).Some?;
      if opc in fieldMap {
        var field := fieldMap[opc];
        assert Lookup(FIELDS, opc) == Some(field);
        var rawdata := record[p..Min(p + field.len, |record|)];
        assert p0 + 1 + field.len <= |record| ==> rawdata == record[p0 + 1..p0 + 1 + field.len];
        var data := BigEndian(rawdata);
        p := p + field.len;
        if field == DataLength {
          bodylen := data;
        } else if field == HeaderEnd {
          foundEnd := true;
        }
        if field != HeaderEnd {
          fields := fields + [Field(field, data)];
          if p <= |record| {
            DecodeTagsStep(record, p0, fields0, field, data);
            assert goal == DecodeTags(record, p, fields);
          }
        }
      } else {
        ending := UnknownOpcode(opc);
        break;
      }
    }
    var body := record[p..];
    if |body| != bodylen {
      return Err(LengthMismatch(bodylen, |body|));
    }
    return Ok(Record(fields, ending, body));
  }

  /** The bytes of one tag: its opcode, then its value in big-endian over the table width. */
  function EncodeField(f: Field): (e: seq<byte>)
    ensures |e| == 1 + f.tag.len
  {
    [f.tag.opc] + ToBigEndian(f.value, f.tag.len)
  }

  function EncodeFields(fields: seq<Field>): seq<byte>
  {
    if fields == [] then [] else EncodeField(fields[0]) + EncodeFields(fields[1..])
  }

  /** The byte that ended the walk. */
  function EndByte(e: Ending): byte
  {
    match e
    case Terminated => HeaderEnd.opc
    case UnknownOpcode(opc) => opc
  }

  /** The record bytes a decoded record came from: magic, tags, ending byte, body. */
  function Encode(r: Record): seq<byte>
  {
    MAGIC + EncodeFields(r.fields) + [EndByte(r.ending)] + r.body
  }

  /**
   * A tag the walk can decode: the label the dictionary holds under its
   * opcode, other than the terminator, with a value that fits its width.
   */
  predicate KnownField(f: Field)
  {
    Lookup(FIELDS, f.tag.opc) == Some(f.tag) && f.tag != HeaderEnd && f.value < Pow256(f.tag.len)
  }

  /** The records the decoder accepts, described without running it. */
  predicate WellFormed(r: Record)
  {
    (forall i :: 0 <= i < |r.fields| ==> KnownField(r.fields[i])) &&
    (r.ending.UnknownOpcode? ==> Lookup(FIELDS, r.ending.opc).None?) &&
    |r.body| == DeclaredLength(r.fields)
  }

  /** Where e + rest sits in a record, e's tail and rest sit right after the position of e's head. */
  lemma SplitAt(record: seq<byte>, p: nat, e: seq<byte>, rest: seq<byte>)
    requires |e| >= 1 && p + |e| + |rest| <= |record|
    requires record[p..p + |e| + |rest|] == e + rest
    ensures record[p] == e[0]
    ensures record[p + 1..p + |e|] == e[1..]
    ensures record[p + |e|..p + |e| + |rest|] == rest
  {
    var n := |e| + |rest|;
    var whole := record[p..p + n];
    SliceOfSlice(record, p, p + n, 1, |e|);
    assert whole[1..|e|] == e[1..];
    SliceOfSlice(record, p, p + n, |e|, n);
    assert whole[|e|..n] == rest;
  }

  /** The walk steps over the encoding of known tags one tag at a time, collecting them in order. */
  lemma {:induction false} DecodeTagsOverFields(record: seq<byte>, p: nat, e: nat, acc: seq<Field>, fs: seq<Field>)
    requires AllKnown(fs)
    requires e == p + |EncodeFields(fs)| <= |record|
    requires record[p..e] == EncodeFields(fs)
    ensures DecodeTags(record, p, acc) == DecodeTags(record, e, acc + fs)
    decreases |fs|, 1
  {
    if fs == [] {
      assert acc + fs == acc;
    } else {
      OverFields(record, p, e, acc, fs, DecodeTags(record, e, acc + fs));
    }
  }

  /** The step of DecodeTagsOverFields: the first tag, then the rest of the list. */
  lemma {:induction false} OverFields(record: seq<byte>, p: nat, e: nat, acc: seq<Field>, fs: seq<Field>, res: Result<Record, ParseError>)
    requires fs != [] && AllKnown(fs)
    requires e == p + |EncodeFields(fs)| <= |record|
    requires record[p..e] == EncodeFields(fs)
    requires DecodeTags(record, e, acc + fs) == res
    ensures DecodeTags(record, p, acc) == res
    decreases |fs|, 0
  {
    var f, rest := fs[0], fs[1..];
    var q := p + 1 + f.tag.len;
    var acc' := acc + [f];
    assert acc' + rest == acc + fs by {
      AppendAssoc(acc, [f], rest);
      assert [f] + rest == fs;
    }
    OverFirstField(record, p, acc, fs);
    DecodeTagsOverFields(record, q, e, acc', rest);
  }

  /** Every tag of the list is known, stated one tag at a time along the list. */
  predicate AllKnown(fs: seq<Field>)
  {
    fs == [] || (KnownField(fs[0]) && AllKnown(fs[1..]))
  }

  lemma {:induction false} AllKnownOf(fs: seq<Field>)
    requires forall i :: 0 <= i < |fs| ==> KnownField(fs[i])
    ensures AllKnown(fs)
  {
    if fs != [] {
      assert forall i :: 0 <= i < |fs| - 1 ==> fs[1..][i] == fs[i + 1];
      AllKnownOf(fs[1..]);
    }
  }

  /** The walk over the first of the encoded known tags, and what is left to walk after it. */
  lemma OverFirstField(record: seq<byte>, p: nat, acc: seq<Field>, fs: seq<Field>)
    requires fs != [] && KnownField(fs[0])
    requires p + |EncodeFields(fs)| <= |record|
    requires record[p..p + |EncodeFields(fs)|] == EncodeFields(fs)
    ensures p + 1 + fs[0].tag.len + |EncodeFields(fs[1..])| == p + |EncodeFields(fs)|
    ensures record[p + 1 + fs[0].tag.len..p + |EncodeFields(fs)|] == EncodeFields(fs[1..])
    ensures DecodeTags(record, p, acc) == DecodeTags(record, p + 1 + fs[0].tag.len, acc + [fs[0]])
  {
    var f := fs[0];
    var head := EncodeField(f);
    var tail := EncodeFields(fs[1..]);
    assert EncodeFields(fs) == head + tail;
    SplitAt(record, p, head, tail);
    assert head[0] == f.tag.opc && head[1..] == ToBigEndian(f.value, f.tag.len);
    KnownTagStep(record, p, acc, f);
  }

  /** From the first tag on, the walk collects exactly the known tags encoded there. */
  lemma DecodeTagsFromStart(record: seq<byte>, fs: seq<Field>)
    requires forall i :: 0 <= i < |fs| ==> KnownField(fs[i])
    requires 4 + |EncodeFields(fs)| <= |record|
    requires record[4..4 + |EncodeFields(fs)|] == EncodeFields(fs)
    ensures DecodeTags(record, 4, []) == DecodeTags(record, 4 + |EncodeFields(fs)|, fs)
  {
    AllKnownOf(fs);
    DecodeTagsOverFields(record, 4, 4 + |EncodeFields(fs)|, [], fs);
    assert [] + fs == fs;
  }

  /** The walk steps over one known tag encoded at p. */
  lemma KnownTagStep(record: seq<byte>, p: nat, acc: seq<Field>, f: Field)
    requires KnownField(f) && p + 1 + f.tag.len <= |record|
    requires record[p] == f.tag.opc
    requires record[p + 1..p + 1 + f.tag.len] == ToBigEndian(f.value, f.tag.len)
    ensures DecodeTags(record, p, acc) == DecodeTags(record, p + 1 + f.tag.len, acc + [f])
  {
    BigEndianOfEncoding(f.value, f.tag.len);
    DecodeTagsStep(record, p, acc, f.tag, f.value);
  }

  /**
   * Round trip, encoding side: every well-formed record is decoded from its
   * encoding, tags, ending and body alike.
   */
  lemma DecodeOfEncode(r: Record)
    requires WellFormed(r)
    ensures Decode(Encode(r)) == Ok(r)
  {
    var record := Encode(r);
    var p := 4 + |EncodeFields(r.fields)|;
    EncodeLayout(r);
    assert Decode(record) == DecodeTags(record, 4, []);
    DecodeTagsFromStart(record, r.fields);
    DecodeTagsEnd(record, p, r);
  }

  /** Where the parts of an encoded record sit. */
  lemma EncodeLayout(r: Record)
    ensures |Encode(r)| == 5 + |EncodeFields(r.fields)| + |r.body|
    ensures Encode(r)[..4] == MAGIC
    ensures Encode(r)[4..4 + |EncodeFields(r.fields)|] == EncodeFields(r.fields)
    ensures Encode(r)[4 + |EncodeFields(r.fields)|] == EndByte(r.ending)
    ensures Encode(r)[5 + |EncodeFields(r.fields)|..] == r.body
  {
  }

  /** The walk that reaches the ending byte of a well-formed record returns that record. */
  lemma DecodeTagsEnd(record: seq<byte>, p: nat, r: Record)
    requires WellFormed(r)
    requires p < |record| && record[p] == EndByte(r.ending) && record[p + 1..] == r.body
    ensures DecodeTags(record, p, r.fields) == Ok(r)
  {
    LookupWidth(record[p]);
    LookupSpec(FIELDS, record[p]);
  }

  /** The walk that succeeds has consumed exactly the encoding of the tags it collected. */
  lemma {:induction false} DecodeTagsInverse(record: seq<byte>, p: nat, acc: seq<Field>, r: Record)
    requires p <= |record| && DecodeTags(record, p, acc) == Ok(r)
    ensures |acc| <= |r.fields| && r.fields[..|acc|] == acc
    ensures record[p..] == EncodeFields(r.fields[|acc|..]) + [EndByte(r.ending)] + r.body
    decreases |record| - p
  {
    assert p < |record|;
    var opc := record[p];
    match Lookup(FIELDS, opc)
    case None =>
      InverseEnd(record, p, acc, r, UnknownOpcode(opc));
    case Some(tag) =>
      assert tag.opc == opc by {
        LookupSpec(FIELDS, opc);
      }
      if tag == HeaderEnd {
        InverseEnd(record, p, acc, r, Terminated);
      } else {
        var q := p + 1 + tag.len;
        var raw := record[p + 1..q];
        var f := Field(tag, BigEndian(raw));
        assert q <= |record| && DecodeTags(record, q, acc + [f]) == Ok(r) by {
          DecodeTagsStep(record, p, acc, tag, f.value);
        }
        DecodeTagsInverse(record, q, acc + [f], r);
        assert ToBigEndian(f.value, tag.len) == raw by {
          EncodingOfBigEndian(raw);
        }
        InverseStep(record, p, acc, f, r);
      }
  }

  /** The walk that ends at p has consumed just the ending byte there. */
  lemma InverseEnd(record: seq<byte>, p: nat, acc: seq<Field>, r: Record, ending: Ending)
    requires p < |record| && record[p] == EndByte(ending)
    requires Finish(acc, ending, record[p + 1..]) == Ok(r)
    ensures |acc| <= |r.fields| && r.fields[..|acc|] == acc
    ensures record[p..] == EncodeFields(r.fields[|acc|..]) + [EndByte(r.ending)] + r.body
  {
    assert r.fields[|acc|..] == [];
    assert record[p..] == [record[p]] + record[p + 1..];
  }

  /** Every tag a successful walk collects is a known one, and an unknown opcode that ended it is absent from the table. */
  lemma {:induction false} DecodeTagsKnown(record: seq<byte>, p: nat, acc: seq<Field>, r: Record)
    requires p <= |record| && DecodeTags(record, p, acc) == Ok(r)
    ensures |acc| <= |r.fields|
    ensures forall i :: |acc| <= i < |r.fields| ==> KnownField(r.fields[i])
    ensures r.ending.UnknownOpcode? ==> Lookup(FIELDS, r.ending.opc).None?
    decreases |record| - p
  {
    assert p < |record|;
    var opc := record[p];
    match Lookup(FIELDS, opc)
    case None =>
    case Some(tag) =>
      if tag != HeaderEnd {
        var q := p + 1 + tag.len;
        var f := Field(tag, BigEndian(record[p + 1..q]));
        assert q <= |record| && DecodeTags(record, q, acc + [f]) == Ok(r) by {
          DecodeTagsStep(record, p, acc, tag, f.value);
        }
        assert KnownField(f) by {
          LookupSpec(FIELDS, opc);
        }
        DecodeTagsKnown(record, q, acc + [f], r);
        DecodeTagsInverse(record, q, acc + [f], r);
        KnownStep(acc, f, r.fields);
      }
  }

  /** Extends "every collected tag is known" by one known tag in front. */
  lemma KnownStep(acc: seq<Field>, f: Field, fields: seq<Field>)
    requires KnownField(f)
    requires |acc| + 1 <= |fields| && fields[..|acc| + 1] == acc + [f]
    requires forall i :: |acc| + 1 <= i < |fields| ==> KnownField(fields[i])
    ensures forall i :: |acc| <= i < |fields| ==> KnownField(fields[i])
  {
    assert fields[|acc|] == fields[..|acc| + 1][|acc|] == f;
  }

  /** One known tag in front of what the rest of the walk consumed. */
  lemma InverseStep(record: seq<byte>, p: nat, acc: seq<Field>, f: Field, r: Record)
    requires p + 1 + f.tag.len <= |record|
    requires record[p] == f.tag.opc
    requires ToBigEndian(f.value, f.tag.len) == record[p + 1..p + 1 + f.tag.len]
    requires |acc| + 1 <= |r.fields| && r.fields[..|acc| + 1] == acc + [f]
    requires record[p + 1 + f.tag.len..] == EncodeFields(r.fields[|acc| + 1..]) + [EndByte(r.ending)] + r.body
    ensures r.fields[..|acc|] == acc
    ensures record[p..] == EncodeFields(r.fields[|acc|..]) + [EndByte(r.ending)] + r.body
  {
    var q := p + 1 + f.tag.len;
    assert r.fields[..|acc|] == r.fields[..|acc| + 1][..|acc|];
    assert r.fields[|acc|] == r.fields[..|acc| + 1][|acc|] == f;
    var tail := r.fields[|acc|..];
    assert tail[0] == f && tail[1..] == r.fields[|acc| + 1..];
    assert EncodeFields(tail) == EncodeField(f) + EncodeFields(r.fields[|acc| + 1..]);
    SplitSuffix(record, p, q);
    assert record[p..q] == [record[p]] + record[p + 1..q];
  }

  /**
   * Round trip, decoding side: whatever the decoder accepts is well-formed
   * and is exactly the encoding of what it returned.
   */
  lemma EncodeOfDecode(record: seq<byte>)
    requires Decode(record).Ok?
    ensures WellFormed(Decode(record).value)
    ensures Encode(Decode(record).value) == record
  {
    var r := Decode(record).value;
    assert |record| > 4 && record[..4] == MAGIC && DecodeTags(record, 4, []) == Ok(r);
    assert WellFormed(r) by {
      DecodeTagsKnown(record, 4, [], r);
    }
    var tail := EncodeFields(r.fields) + [EndByte(r.ending)] + r.body;
    assert record[4..] == tail by {
      DecodeTagsInverse(record, 4, [], r);
      assert r.fields[0..] == r.fields;
    }
    assert Encode(r) == MAGIC + tail by {
      AppendAssoc(MAGIC + EncodeFields(r.fields), [EndByte(r.ending)], r.body);
      AppendAssoc(MAGIC, EncodeFields(r.fields), [EndByte(r.ending)] + r.body);
      AppendAssoc(EncodeFields(r.fields), [EndByte(r.ending)], r.body);
    }
    assert record == record[..4] + record[4..];
  }

  /**
   * A record that stops anywhere before its ending byte, even inside a tag's
   * value, fails with the index error of reading past the end.
   */
  lemma TruncatedTagStream(fs: seq<Field>, f: Field, k: nat)
    requires forall i :: 0 <= i < |fs| ==> KnownField(fs[i])
    requires KnownField(f) && k < |EncodeField(f)|
    ensures Decode(MAGIC + EncodeFields(fs) + EncodeField(f)[..k]) == Err(Truncated)
  {
    var e := EncodeFields(fs);
    var tail := EncodeField(f)[..k];
    var record := MAGIC + e + tail;
    var p := 4 + |e|;
    assert record[..4] == MAGIC && record[4..p] == e && |record| == p + k by {
      ConcatParts(MAGIC, e, tail);
    }
    assert k > 0 ==> record[p] == f.tag.opc by {
      if k > 0 {
        ConcatParts(MAGIC, e, tail);
        assert record[p] == record[p..][0] == tail[0];
      }
    }
    TruncatedAfterFields(record, fs, f);
  }

  /** A record whose tags are followed by the start of one more tag that does not fit fails. */
  lemma TruncatedAfterFields(record: seq<byte>, fs: seq<Field>, f: Field)
    requires forall i :: 0 <= i < |fs| ==> KnownField(fs[i])
    requires KnownField(f)
    requires 4 + |EncodeFields(fs)| <= |record| < 4 + |EncodeFields(fs)| + 1 + f.tag.len
    requires record[..4] == MAGIC && record[4..4 + |EncodeFields(fs)|] == EncodeFields(fs)
    requires 4 + |EncodeFields(fs)| < |record| ==> record[4 + |EncodeFields(fs)|] == f.tag.opc
    ensures Decode(record) == Err(Truncated)
  {
    var p := 4 + |EncodeFields(fs)|;
    DecodeTagsFromStart(record, fs);
    TruncatedAt(record, p, fs, f);
  }

  /** At the end of the record, or at a known opcode whose value does not fit, the walk fails. */
  lemma TruncatedAt(record: seq<byte>, p: nat, acc: seq<Field>, f: Field)
    requires KnownField(f) && p <= |record| < p + 1 + f.tag.len
    requires p < |record| ==> record[p] == f.tag.opc
    ensures DecodeTags(record, p, acc) == Err(Truncated)
  {
  }

  /** Magic followed by the terminator alone is a record with no tags and an empty body. */
  lemma TerminatorOnly()
    ensures Decode([0xC0, 0xDE, 0xAB, 0x21, 0x21]) == Ok(Record([], Terminated, []))
  {
    var record: seq<byte> := [0xC0, 0xDE, 0xAB, 0x21, 0x21];
    assert record[..4] == MAGIC;
    LookupWidth(0x21);
  }

  /**
   * The length check after the walk: a record of known tags ended by the
   * terminator or by an unknown opcode, whose body is not as long as the
   * last 0xA0 tag (or 0) declares, fails with the declared and actual lengths.
   */
  lemma LengthMismatchFails(r: Record)
    requires forall i :: 0 <= i < |r.fields| ==> KnownField(r.fields[i])
    requires r.ending.UnknownOpcode? ==> Lookup(FIELDS, r.ending.opc).None?
    requires |r.body| != DeclaredLength(r.fields)
    ensures Decode(Encode(r)) == Err(LengthMismatch(DeclaredLength(r.fields), |r.body|))
  {
    var record := Encode(r);
    var p := 4 + |EncodeFields(r.fields)|;
    EncodeLayout(r);
    assert Decode(record) == DecodeTags(record, 4, []);
    DecodeTagsFromStart(record, r.fields);
    LookupWidth(record[p]);
    LookupSpec(FIELDS, record[p]);
  }

  /**
   * An unknown opcode right after the magic stops the walk; the byte after
   * it is then a body of length 1 where no 0xA0 tag declared one, so the
   * length check fails.
   */
  lemma UnknownOpcodeFirst()
    ensures Decode([0xC0, 0xDE, 0xAB, 0x21, 0xFF, 0x21]) == Err(LengthMismatch(0, 1))
  {
    var record: seq<byte> := [0xC0, 0xDE, 0xAB, 0x21, 0xFF, 0x21];
    assert record[..4] == MAGIC;
    TableMatchesWidths(0xFF);
  }
}
