/**
 * The index file and the record slicer: the index is a run of 8-byte
 * entries (4-byte big-endian id, 4-byte big-endian offset), and each offset
 * marks where a record of the data file starts.
 */
module Index {
  import opened Bytes
  import opened Wrappers

  /** One index entry: the record's sequence id and its byte offset in the data file. */
  datatype Ptr = Ptr(id: nat, offset: nat)

  /**
   * What idx2pointers yields for the rest of an index file: nothing when at
   * most 4 bytes are left (the second read comes back empty); otherwise an
   * entry from the next 4 bytes and the up to 4 bytes after them.
   */
  function Pointers(idx: seq<byte>): seq<Ptr>
    decreases |idx|
  {
    if |idx| <= 4 then []
    else [Ptr(BigEndian(idx[..4]), BigEndian(idx[4..Min(8, |idx|)]))] + Pointers(idx[Min(8, |idx|)..])
  }

  /**
   * How many entries an index file of n bytes yields: one per full 8-byte
   * group, and one more when 5 to 7 bytes are left over.
   */
  function EntryCount(n: nat): nat
  {
    n / 8 + (if n % 8 > 4 then 1 else 0)
  }

  /**
   * Entry k holds the big-endian id of bytes 8k..8k+4 and the big-endian
   * offset of the (possibly short) group of bytes 8k+4..8k+8.
   */
  lemma {:induction false} PointersShape(idx: seq<byte>)
    ensures |Pointers(idx)| == EntryCount(|idx|)
    ensures forall k :: 0 <= k < |Pointers(idx)| ==>
      Pointers(idx)[k] == Ptr(BigEndian(idx[8 * k..8 * k + 4]), BigEndian(idx[8 * k + 4..Min(8 * k + 8, |idx|)]))
    decreases |idx|
  {
    var ps := Pointers(idx);
    if |idx| <= 4 {
    } else if |idx| < 8 {
      assert Pointers(idx[|idx|..]) == [];
    } else {
      var rest := idx[8..];
      PointersShape(rest);
      assert EntryCount(|idx|) == 1 + EntryCount(|rest|);
      forall k | 1 <= k < |ps|
        ensures ps[k] == Ptr(BigEndian(idx[8 * k..8 * k + 4]), BigEndian(idx[8 * k + 4..Min(8 * k + 8, |idx|)]))
      {
        assert ps[k] == Pointers(rest)[k - 1];
        ShiftedGroup(idx, k);
      }
    }
  }

  /** Group k - 1 of the bytes after the first group is group k of the whole file. */
  lemma ShiftedGroup(idx: seq<byte>, k: nat)
    requires 1 <= k && 8 * k + 4 < |idx|
    ensures idx[8..][8 * (k - 1)..8 * (k - 1) + 4] == idx[8 * k..8 * k + 4]
    ensures idx[8..][8 * (k - 1) + 4..Min(8 * (k - 1) + 8, |idx| - 8)] == idx[8 * k + 4..Min(8 * k + 8, |idx|)]
  {
    var j := k - 1;
    assert idx[8..] == idx[8..|idx|];
    SliceOfSlice(idx, 8, |idx|, 8 * j, 8 * j + 4);
    SliceOfSlice(idx, 8, |idx|, 8 * j + 4, Min(8 * j + 8, |idx| - 8));
  }

  /** idx2pointers: reads entries in file order until a read comes back empty. */
  method IdxToPointers(idx: seq<byte>) returns (pointers: seq<Ptr>)
    ensures pointers == Pointers(idx)
  {
    pointers := [];
    var pos := 0;
    while true
      invariant pos <= |idx|
      invariant Pointers(idx) == pointers + Pointers(idx[pos..])
      decreases |idx| - pos
    {
      var r1 := ReadAt(idx, pos, 4).value;
      var r2 := ReadAt(idx, pos + |r1|, 4).value;
      if |r1| == 0 || |r2| == 0 {
        assert Pointers(idx[pos..]) == [] by {
          ReadStep(idx, pos);
        }
        assert pointers + [] == pointers;
        break;
      }
      var entry := Ptr(BigEndian(r1), BigEndian(r2));
      var next := pos + |r1| + |r2|;
      assert pos < next <= |idx| && Pointers(idx[pos..]) == [entry] + Pointers(idx[next..]) by {
        ReadStep(idx, pos);
      }
      AppendAssoc(pointers, [entry], Pointers(idx[next..]));
      pointers := pointers + [entry];
      pos := next;
    }
  }

  /** One turn of the read loop: two reads that stop it exactly when at most 4 bytes are left, or one entry. */
  lemma ReadStep(idx: seq<byte>, pos: nat)
    requires pos <= |idx|
    ensures
      var r1 := ReadAt(idx, pos, 4).value;
      var r2 := ReadAt(idx, pos + |r1|, 4).value;
      ((|r1| == 0 || |r2| == 0) <==> |idx| - pos <= 4) &&
      (|idx| - pos <= 4 ==> Pointers(idx[pos..]) == []) &&
      (|idx| - pos > 4 ==>
        pos + |r1| + |r2| <= |idx| && |r1| + |r2| > 0 &&
        Pointers(idx[pos..]) == [Ptr(BigEndian(r1), BigEndian(r2))] + Pointers(idx[pos + |r1| + |r2|..]))
  {
    var left := idx[pos..];
    if |left| > 4 {
      var r1 := ReadAt(idx, pos, 4).value;
      var r2 := ReadAt(idx, pos + |r1|, 4).value;
      assert r1 == left[..4] by {
        SliceOfSlice(idx, pos, |idx|, 0, 4);
        assert idx[pos..|idx|] == left;
      }
      assert r2 == left[4..Min(8, |left|)] by {
        SliceOfSlice(idx, pos, |idx|, 4, Min(8, |left|));
        assert idx[pos..|idx|] == left;
      }
      assert left[Min(8, |left|)..] == idx[pos + |r1| + |r2|..];
    }
  }

  /** The index file that holds the given entries, each as two 4-byte big-endian words. */
  function EncodeIndex(ptrs: seq<Ptr>): seq<byte>
  {
    if ptrs == [] then [] else ToBigEndian(ptrs[0].id, 4) + ToBigEndian(ptrs[0].offset, 4) + EncodeIndex(ptrs[1..])
  }

  /** Reading back an encoded index yields its entries, when every id and offset fits in 32 bits. */
  lemma {:induction false} PointersOfEncoded(ptrs: seq<Ptr>)
    requires forall i :: 0 <= i < |ptrs| ==> ptrs[i].id < Pow256(4) && ptrs[i].offset < Pow256(4)
    ensures Pointers(EncodeIndex(ptrs)) == ptrs
  {
    if ptrs != [] {
      var a := ToBigEndian(ptrs[0].id, 4);
      var b := ToBigEndian(ptrs[0].offset, 4);
      var rest := EncodeIndex(ptrs[1..]);
      var idx := EncodeIndex(ptrs);
      assert idx == a + b + rest;
      ConcatParts(a, b, rest);
      BigEndianOfEncoding(ptrs[0].id, 4);
      BigEndianOfEncoding(ptrs[0].offset, 4);
      PointersOfEncoded(ptrs[1..]);
      assert ReadAt(idx, 0, 4).value == a;
      assert ReadAt(idx, 4, 4).value == b;
      assert Pointers(idx) == [ptrs[0]] + Pointers(rest);
      assert ptrs == [ptrs[0]] + ptrs[1..];
    }
  }

  /**
   * Record i of the data file as pointers2records reads it: seek to its
   * offset, then read up to the next entry's offset, or to the end of the
   * file for the last entry.
   */
  function RecordAt(data: seq<byte>, ptrs: seq<Ptr>, i: nat): Result<seq<byte>, ReadError>
    requires i < |ptrs|
  {
    if i < |ptrs| - 1 then ReadAt(data, ptrs[i].offset, ptrs[i + 1].offset - ptrs[i].offset)
    else ReadAt(data, ptrs[i].offset, -1)
  }

  /** No offset lies more than one byte above its successor's, so every read length is at least -1. */
  predicate Readable(ptrs: seq<Ptr>)
  {
    forall i :: 0 <= i < |ptrs| - 1 ==> ptrs[i].offset <= ptrs[i + 1].offset + 1
  }

  /**
   * The records of the data file, one per index entry, in index order; the
   * ValueError of a read length below -1 when some offset drops by two or more.
   */
  function Slices(data: seq<byte>, ptrs: seq<Ptr>): Result<seq<seq<byte>>, ReadError>
  {
    if Readable(ptrs) then Ok(seq(|ptrs|, i requires 0 <= i < |ptrs| => RecordAt(data, ptrs, i).value))
    else Err(NegativeReadLength)
  }

  /** The slicing succeeds iff every read does, and then record i is what read i returned. */
  lemma SlicesReads(data: seq<byte>, ptrs: seq<Ptr>)
    ensures Slices(data, ptrs).Ok? <==> forall i :: 0 <= i < |ptrs| ==> RecordAt(data, ptrs, i).Ok?
    ensures Slices(data, ptrs).Ok? ==>
      |Slices(data, ptrs).value| == |ptrs| &&
      forall i :: 0 <= i < |ptrs| ==> Slices(data, ptrs).value[i] == RecordAt(data, ptrs, i).value
  {
    if !Readable(ptrs) {
      var i :| 0 <= i < |ptrs| - 1 && ptrs[i].offset > ptrs[i + 1].offset + 1;
      assert RecordAt(data, ptrs, i).Err?;
    }
  }

  /** The running total of record lengths, summed in record order. */
  function TotalLength(rs: seq<seq<byte>>): nat
  {
    if rs == [] then 0 else TotalLength(rs[..|rs| - 1]) + |rs[|rs| - 1]|
  }

  /**
   * pointers2records: one read per index entry, stopping at the first read
   * that raises. `total` is the byte counter s, which the source keeps but
   * never reads or returns.
   */
  method PointersToRecords(data: seq<byte>, pointers: seq<Ptr>)
    returns (r: Result<seq<seq<byte>>, ReadError>, total: nat)
    ensures r == Slices(data, pointers)
    ensures r.Ok? ==> total == TotalLength(r.value)
  {
    var records: seq<seq<byte>> := [];
    total := 0;
    SlicesReads(data, pointers);
    for i := 0 to |pointers|
      invariant |records| == i
      invariant forall j :: 0 <= j < i ==> RecordAt(data, pointers, j) == Ok(records[j])
      invariant total == TotalLength(records)
    {
      var raw;
      if i < |pointers| - 1 {
        raw := ReadAt(data, pointers[i].offset, pointers[i + 1].offset - pointers[i].offset);
      } else {
        raw := ReadAt(data, pointers[i].offset, -1);
      }
      if raw.Err? {
        assert RecordAt(data, pointers, i).Err?;
        return Err(raw.error), total;
      }
      assert (records + [raw.value])[..i] == records;
      records := records + [raw.value];
      total := total + |raw.value|;
    }
    assert Slices(data, pointers).value == records;
    r := Ok(records);
  }

  /** Offsets that never go down, the last one inside the data file. */
  predicate Ordered(data: seq<byte>, ptrs: seq<Ptr>)
  {
    (forall i :: 0 <= i < |ptrs| - 1 ==> ptrs[i].offset <= ptrs[i + 1].offset) &&
    (|ptrs| > 0 ==> ptrs[|ptrs| - 1].offset <= |data|)
  }

  lemma {:induction false} OrderedBounds(data: seq<byte>, ptrs: seq<Ptr>, i: nat, j: nat)
    requires Ordered(data, ptrs) && i <= j < |ptrs|
    ensures ptrs[i].offset <= ptrs[j].offset <= |data|
    decreases |ptrs| - i
  {
    if i < j {
      OrderedBounds(data, ptrs, i + 1, j);
    } else if j < |ptrs| - 1 {
      OrderedBounds(data, ptrs, j + 1, |ptrs| - 1);
    }
  }

  /** Ordered offsets never give a read length below -1. */
  lemma OrderedReadable(data: seq<byte>, ptrs: seq<Ptr>)
    requires Ordered(data, ptrs)
    ensures Readable(ptrs)
  {
  }

  /** With ordered offsets, record i is exactly the bytes from its offset to the next one. */
  lemma SliceOfOrdered(data: seq<byte>, ptrs: seq<Ptr>, i: nat)
    requires Ordered(data, ptrs) && i < |ptrs|
    ensures ptrs[i].offset <= |data|
    ensures i < |ptrs| - 1 ==> ptrs[i].offset <= ptrs[i + 1].offset <= |data|
    ensures i < |ptrs| - 1 ==> RecordAt(data, ptrs, i) == Ok(data[ptrs[i].offset..ptrs[i + 1].offset])
    ensures i == |ptrs| - 1 ==> RecordAt(data, ptrs, i) == Ok(data[ptrs[i].offset..])
  {
    OrderedBounds(data, ptrs, i, |ptrs| - 1);
    if i < |ptrs| - 1 {
      OrderedBounds(data, ptrs, i, i + 1);
      OrderedBounds(data, ptrs, i + 1, |ptrs| - 1);
    }
  }

  /** The first k records, joined, are the data from the first offset to the k-th one. */
  lemma {:induction false} ConcatPrefix(data: seq<byte>, ptrs: seq<Ptr>, k: nat)
    requires Ordered(data, ptrs) && 0 < |ptrs| && k < |ptrs|
    ensures ptrs[0].offset <= ptrs[k].offset <= |data|
    ensures Slices(data, ptrs).Ok?
    ensures Concat(Slices(data, ptrs).value[..k]) == data[ptrs[0].offset..ptrs[k].offset]
  {
    OrderedBounds(data, ptrs, 0, k);
    OrderedReadable(data, ptrs);
    SlicesReads(data, ptrs);
    var s := Slices(data, ptrs).value;
    if k == 0 {
      assert s[..0] == [];
    } else {
      ConcatPrefix(data, ptrs, k - 1);
      SliceOfOrdered(data, ptrs, k - 1);
      ConcatSnoc(s, k);
      JoinSlices(data, ptrs[0].offset, ptrs[k - 1].offset, ptrs[k].offset);
    }
  }

  lemma ConcatSnoc(rs: seq<seq<byte>>, k: nat)
    requires 0 < k <= |rs|
    ensures Concat(rs[..k]) == Concat(rs[..k - 1]) + rs[k - 1]
  {
    assert rs[..k][..k - 1] == rs[..k - 1];
  }

  lemma {:induction false} TotalIsConcatLength(rs: seq<seq<byte>>)
    ensures TotalLength(rs) == |Concat(rs)|
  {
    if rs != [] {
      TotalIsConcatLength(rs[..|rs| - 1]);
    }
  }

  /**
   * With ordered offsets every read succeeds, the records tile the data
   * file from the first offset to its end, and the byte counter ends at
   * that length.
   */
  lemma SlicesTileData(data: seq<byte>, ptrs: seq<Ptr>)
    requires Ordered(data, ptrs) && 0 < |ptrs|
    ensures ptrs[0].offset <= |data|
    ensures Slices(data, ptrs).Ok?
    ensures Concat(Slices(data, ptrs).value) == data[ptrs[0].offset..]
    ensures TotalLength(Slices(data, ptrs).value) == |data| - ptrs[0].offset
  {
    var last := |ptrs| - 1;
    ConcatPrefix(data, ptrs, last);
    SliceOfOrdered(data, ptrs, last);
    SlicesReads(data, ptrs);
    var s := Slices(data, ptrs).value;
    assert s[..last + 1] == s;
    ConcatSnoc(s, last + 1);
    SplitSuffix(data, ptrs[0].offset, ptrs[last].offset);
    TotalIsConcatLength(s);
  }

  /**
   * Untrusted offsets: an offset past the end of the file gives an empty
   * record as long as the read length is not refused; a successor offset
   * exactly one lower gives read(-1), which reads to the end of the file;
   * one lower by two or more makes that read, and so the whole slicing, fail.
   */
  lemma UnorderedSlices(data: seq<byte>, ptrs: seq<Ptr>, i: nat)
    requires i < |ptrs|
    ensures ptrs[i].offset >= |data| && (i == |ptrs| - 1 || ptrs[i + 1].offset + 1 >= ptrs[i].offset) ==>
      RecordAt(data, ptrs, i) == Ok([])
    ensures i < |ptrs| - 1 && ptrs[i + 1].offset + 1 == ptrs[i].offset <= |data| ==>
      RecordAt(data, ptrs, i) == Ok(data[ptrs[i].offset..])
    ensures i < |ptrs| - 1 && ptrs[i + 1].offset + 1 < ptrs[i].offset ==>
      RecordAt(data, ptrs, i) == Err(NegativeReadLength) && Slices(data, ptrs) == Err(NegativeReadLength)
  {
  }

  /** The two entries 00000001 00000000 and 00000002 00000010. */
  lemma TwoEntryIndex()
    ensures Pointers([0, 0, 0, 1, 0, 0, 0, 0, 0, 0, 0, 2, 0, 0, 0, 0x10]) == [Ptr(1, 0), Ptr(2, 16)]
  {
    var idx: seq<byte> := [0, 0, 0, 1, 0, 0, 0, 0, 0, 0, 0, 2, 0, 0, 0, 0x10];
    var rest := idx[8..];
    assert idx[..4] == [0, 0, 0, 1] && idx[4..8] == [0, 0, 0, 0];
    assert rest[..4] == [0, 0, 0, 2] && rest[4..8] == [0, 0, 0, 0x10];
    assert rest[8..] == [];
    BigEndianWord(0, 0, 0, 1);
    BigEndianWord(0, 0, 0, 0);
    BigEndianWord(0, 0, 0, 2);
    BigEndianWord(0, 0, 0, 0x10);
    assert Pointers(rest) == [Ptr(2, 16)];
  }
}
