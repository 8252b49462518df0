/**
 * The opcode table of the sonar record's tag stream: each label names a
 * one-byte opcode and the width of the big-endian value that follows it.
 */
module Tags {
  import opened Bytes
  import opened Wrappers

  /**
   * The captions the table gives its tags. The decoder only ever prints
   * them, so the model carries them as tokens; `Caption.Text` records the
   * table's wording for reference and no other member uses it.
   */
  datatype Caption =
    | SampleNumber | TimeMs | UtmEasting | UtmNorthing | Heading | Speed | Depth | Beam | FreqKhz
    | SentLen | BeamId | UtmZone | SonarFrequency | Declination | BodyLength | End | Unknown
  {
    /** The caption as the table writes it. */
    function Text(): string
    {
      match this
      case SampleNumber => "Sample number"
      case TimeMs => "Time ms"
      case UtmEasting => "UTM Easting"
      case UtmNorthing => "UTM Northing"
      case Heading => "heading .1 DEG"
      case Speed => "speed .1 ms-1"
      case Depth => "Depth .1 m"
      case Beam => "beam? (first is channel name?)"
      case FreqKhz => "freq KHz"
      case SentLen => "sentlen"
      case BeamId => "Beam ID"
      case UtmZone => "UTM Zone X"
      case SonarFrequency => "Sonar frequency"
      case Declination => "Magnetic declanation .1 Deg"
      case BodyLength => "Data length Bytes"
      case End => "HEADER END"
      case Unknown => "Unknown field"
    }
  }

  datatype Label = Label(opc: byte, len: nat, name: Caption)

  /** The tag whose value is the byte length of the record's trailing body. */
  const DataLength := Label(0xA0, 4, BodyLength)
  /** The zero-width tag that ends the tag stream. */
  const HeaderEnd := Label(0x21, 0, End)

  /** The table, in the order the dictionary is filled from it. */
  const FIELDS: seq<Label> := [
    Label(0x80, 4, SampleNumber),
    Label(0x81, 4, TimeMs),
    Label(0x82, 4, UtmEasting),
    Label(0x83, 4, UtmNorthing),
    Label(0x84, 4, Heading),
    Label(0x85, 4, Speed),
    Label(0x86, 4, Depth),
    Label(0x87, 4, Beam),
    Label(0x88, 4, FreqKhz),
    Label(0x89, 4, Unknown),
    Label(0x8A, 4, Unknown),
    Label(0x8B, 4, Unknown),
    Label(0x8C, 4, SentLen),
    Label(0x8D, 4, Unknown),
    Label(0x8E, 4, Unknown),
    Label(0x8F, 4, Unknown),
    Label(0x50, 1, BeamId),
    Label(0x51, 1, UtmZone),
    Label(0x92, 4, SonarFrequency),
    Label(0x95, 4, Declination),
    Label(0x53, 1, Unknown),
    Label(0x54, 1, Unknown),
    Label(0x56, 1, Unknown),
    Label(0x57, 1, Unknown),
    Label(0x98, 4, Unknown),
    Label(0x99, 4, Unknown),
    Label(0x9A, 4, Unknown),
    Label(0x9B, 4, Unknown),
    Label(0x9C, 4, Unknown),
    Label(0x9D, 4, Unknown),
    Label(0x9E, 4, Unknown),
    Label(0x9F, 4, Unknown),
    DataLength,
    HeaderEnd
  ]

  /**
   * The entry a dictionary filled from `fields` in order holds under opc:
   * the last label with that opcode, or None when no label has it.
   */
  function Lookup(fields: seq<Label>, opc: byte): Option<Label>
  {
    if fields == [] then None
    else if fields[|fields| - 1].opc == opc then Some(fields[|fields| - 1])
    else Lookup(fields[..|fields| - 1], opc)
  }

  /**
   * Lookup finds nothing exactly when no label has the opcode; otherwise it
   * yields a label with that opcode after which no other label has it.
   */
  lemma {:induction false} LookupSpec(fields: seq<Label>, opc: byte)
    ensures Lookup(fields, opc).None? <==> forall i :: 0 <= i < |fields| ==> fields[i].opc != opc
    ensures Lookup(fields, opc).Some? ==>
      Lookup(fields, opc).value.opc == opc &&
      exists i :: 0 <= i < |fields| && fields[i] == Lookup(fields, opc).value &&
        forall j :: i < j < |fields| ==> fields[j].opc != opc
  {
    if fields != [] && fields[|fields| - 1].opc != opc {
      var init := fields[..|fields| - 1];
      LookupSpec(init, opc);
      assert forall i :: 0 <= i < |init| ==> init[i] == fields[i];
    }
  }

  /** m holds exactly what the dictionary filled from `fields` holds. */
  ghost predicate Represents(m: map<byte, Label>, fields: seq<Label>)
  {
    forall opc :: (opc in m <==> Lookup(fields, opc).Some?) &&
                  (opc in m ==> Lookup(fields, opc) == Some(m[opc]))
  }

  /** Fills the opcode dictionary from the table, one label after another. */
  method BuildFieldMap(fields: seq<Label>) returns (m: map<byte, Label>)
    ensures forall opc :: opc in m <==> exists i :: 0 <= i < |fields| && fields[i].opc == opc
    ensures Represents(m, fields)
  {
    m := map[];
    for i := 0 to |fields|
      invariant Represents(m, fields[..i])
    {
      assert fields[..i + 1][..i] == fields[..i];
      m := m[fields[i].opc := fields[i]];
    }
    assert fields[..|fields|] == fields;
    forall opc | opc in m ensures exists i :: 0 <= i < |fields| && fields[i].opc == opc {
      LookupSpec(fields, opc);
    }
    forall opc | exists i :: 0 <= i < |fields| && fields[i].opc == opc ensures opc in m {
      LookupSpec(fields, opc);
    }
  }

  /** No two labels of the table share an opcode. */
  predicate UniqueOpcodes(fields: seq<Label>)
  {
    forall i, j :: 0 <= i < j < |fields| ==> fields[i].opc != fields[j].opc
  }

  /**
   * The table's shape: opcodes are unique, every width is 0, 1 or 4, and the
   * terminator 0x21 is the only zero-width entry.
   */
  lemma TableShape()
    ensures forall i :: 0 <= i < |FIELDS| ==> Position(FIELDS[i].opc) == i
    ensures UniqueOpcodes(FIELDS)
    ensures forall i :: 0 <= i < |FIELDS| ==> FIELDS[i].len in {0, 1, 4}
    ensures forall i :: 0 <= i < |FIELDS| ==> (FIELDS[i].len == 0 <==> FIELDS[i].opc == 0x21)
  {
    TablePositions();
  }

  lemma TablePositions()
    ensures forall i :: 0 <= i < |FIELDS| ==> Position(FIELDS[i].opc) == i
  {
    assert forall i :: 0 <= i < |FIELDS| ==> Position(FIELDS[i].opc) == i;
  }

  /** The table position of a table opcode, written out by opcode range. */
  function Position(opc: byte): int
  {
    if 0x80 <= opc <= 0x8F then opc as int - 0x80
    else if opc == 0x50 then 16
    else if opc == 0x51 then 17
    else if opc == 0x92 then 18
    else if opc == 0x95 then 19
    else if opc == 0x53 then 20
    else if opc == 0x54 then 21
    else if opc == 0x56 then 22
    else if opc == 0x57 then 23
    else if 0x98 <= opc <= 0x9F then opc as int - 0x98 + 24
    else if opc == 0xA0 then 32
    else if opc == 0x21 then 33
    else -1
  }

  /** Looking up a table label's own opcode yields that label. */
  lemma {:induction false} LookupTable(i: nat)
    requires i < |FIELDS|
    ensures Lookup(FIELDS, FIELDS[i].opc) == Some(FIELDS[i])
  {
    TableShape();
    LookupSpec(FIELDS, FIELDS[i].opc);
  }

  /** Looking up the opcode of any table label yields that label. */
  lemma LookupMember(tag: Label)
    requires tag in FIELDS
    ensures Lookup(FIELDS, tag.opc) == Some(tag)
  {
    var i :| 0 <= i < |FIELDS| && FIELDS[i] == tag;
    LookupTable(i);
  }

  /** Whatever the dictionary yields is a table label with a valid width. */
  lemma LookupWidth(opc: byte)
    ensures Lookup(FIELDS, opc).Some? ==>
      var f := Lookup(FIELDS, opc).value;
      f in FIELDS && f.len in {0, 1, 4} && (f.len == 0 <==> opc == 0x21)
    ensures Lookup(FIELDS, opc) == Some(HeaderEnd) <==> opc == 0x21
    ensures Lookup(FIELDS, opc) == Some(DataLength) <==> opc == 0xA0
  {
    TableShape();
    LookupSpec(FIELDS, opc);
    LookupTable(|FIELDS| - 1);
    LookupTable(|FIELDS| - 2);
  }

  /**
   * The widths written out by opcode range: 4 bytes for 0x80-0x8F, 0x92,
   * 0x95 and 0x98-0xA0, 1 byte for 0x50, 0x51, 0x53, 0x54, 0x56, 0x57, and
   * no payload for the terminator 0x21.
   */
  function WidthOf(opc: byte): Option<nat>
  {
    if 0x80 <= opc <= 0x8F || opc == 0x92 || opc == 0x95 || 0x98 <= opc <= 0xA0 then Some(4)
    else if opc == 0x50 || opc == 0x51 || opc == 0x53 || opc == 0x54 || opc == 0x56 || opc == 0x57 then Some(1)
    else if opc == 0x21 then Some(0)
    else None
  }

  /** The dictionary knows exactly the opcodes of the range table, with the same widths. */
  lemma TableMatchesWidths(opc: byte)
    ensures Lookup(FIELDS, opc).Some? <==> WidthOf(opc).Some?
    ensures Lookup(FIELDS, opc).Some? ==> Lookup(FIELDS, opc).value.len == WidthOf(opc).value
  {
    TableShape();
    var k := Position(opc);
    if 0 <= k < |FIELDS| && FIELDS[k].opc == opc {
      LookupTable(k);
    } else {
      LookupSpec(FIELDS, opc);
      assert WidthOf(opc).None?;
    }
  }
}
