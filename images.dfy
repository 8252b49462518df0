/**
 * The image stage: record bodies are grouped into runs of equal length,
 * and each run becomes a raster `len(part[0])` wide and `len(part)` high
 * whose pixels are the bodies joined end to end.
 */
module Images {
  import opened Bytes
  import opened Wrappers
  import opened Records

  type Body = seq<byte>

  /**
   * The bodies of one data file's records, parsed in order; the first
   * record that does not parse stops the whole run with its error.
   */
  function RecordBodies(records: seq<seq<byte>>): Result<seq<Body>, ParseError>
  {
    if records == [] then Ok([])
    else match Decode(records[0])
      case Err(e) => Err(e)
      case Ok(rec) =>
        match RecordBodies(records[1..])
        case Err(e) => Err(e)
        case Ok(rest) => Ok([rec.body] + rest)
  }

  /**
   * The run succeeds iff every record parses, and then body i is record
   * i's body; otherwise its error is that of the first record that fails.
   */
  lemma {:induction false} RecordBodiesSpec(records: seq<seq<byte>>)
    ensures RecordBodies(records).Ok? <==> forall i :: 0 <= i < |records| ==> Decode(records[i]).Ok?
    ensures RecordBodies(records).Ok? ==>
      |RecordBodies(records).value| == |records| &&
      forall i :: 0 <= i < |records| ==> RecordBodies(records).value[i] == Decode(records[i]).value.body
    ensures RecordBodies(records).Err? ==>
      exists i :: 0 <= i < |records| && Decode(records[i]) == Err(RecordBodies(records).error) &&
        forall j :: 0 <= j < i ==> Decode(records[j]).Ok?
  {
    if records != [] {
      var tail := records[1..];
      RecordBodiesSpec(tail);
      assert forall i :: 0 < i < |records| ==> records[i] == tail[i - 1];
      if Decode(records[0]).Ok? && RecordBodies(tail).Err? {
        var i :| 0 <= i < |tail| && Decode(tail[i]) == Err(RecordBodies(tail).error) &&
          forall j :: 0 <= j < i ==> Decode(tail[j]).Ok?;
        assert Decode(records[i + 1]) == Err(RecordBodies(records).error);
      }
    }
  }

  /** Every parsed body has the length its record declared in its last 0xA0 tag (0 without one). */
  lemma BodyLengths(records: seq<seq<byte>>, i: nat)
    requires RecordBodies(records).Ok? && i < |records|
    ensures Decode(records[i]).Ok? && i < |RecordBodies(records).value|
    ensures |RecordBodies(records).value[i]| == DeclaredLength(Decode(records[i]).value.fields)
  {
    RecordBodiesSpec(records);
  }

  /** The grouping appends to partitions[-1] while there is none yet: the first body had length 0. */
  datatype PartitionError = EmptyFirstBody

  /** The parts one after another. */
  function Flatten(parts: seq<seq<Body>>): seq<Body>
  {
    if parts == [] then [] else Flatten(parts[..|parts| - 1]) + parts[|parts| - 1]
  }

  /** A non-empty group of bodies that all have the first one's length. */
  predicate Uniform(part: seq<Body>)
  {
    part != [] && forall i :: 0 <= i < |part| ==> |part[i]| == |part[0]|
  }

  /**
   * The parts split the bodies, in order, into maximal runs of equal
   * length: each part is uniform and neighbouring parts differ in length.
   */
  predicate IsRunPartition(bodies: seq<Body>, parts: seq<seq<Body>>)
  {
    Flatten(parts) == bodies &&
    (forall k :: 0 <= k < |parts| ==> Uniform(parts[k])) &&
    (forall k :: 0 < k < |parts| ==> |parts[k - 1][0]| != |parts[k][0]|)
  }

  /** The partition loop: a new part whenever a body's length differs from the previous one's. */
  method Partition(bodies: seq<Body>) returns (r: Result<seq<seq<Body>>, PartitionError>)
    ensures r.Err? <==> |bodies| > 0 && |bodies[0]| == 0
    ensures r.Ok? ==> IsRunPartition(bodies, r.value)
  {
    var partitions: seq<seq<Body>> := [];
    var lastLen := 0;
    for i := 0 to |bodies|
      invariant IsRunPartition(bodies[..i], partitions)
      invariant i == 0 <==> partitions == []
      invariant partitions == [] ==> lastLen == 0
      invariant partitions != [] ==> lastLen == |partitions[|partitions| - 1][0]|
      invariant i > 0 ==> |bodies[0]| != 0
    {
      var l := |bodies[i]|;
      if l != lastLen {
        partitions := AppendPart(bodies[..i], partitions, bodies[i]);
        lastLen := l;
      } else {
        if partitions == [] {
          return Err(EmptyFirstBody);
        }
        partitions := ExtendLast(bodies[..i], partitions, bodies[i]);
      }
      assert bodies[..i] + [bodies[i]] == bodies[..i + 1];
    }
    assert bodies[..|bodies|] == bodies;
    return Ok(partitions);
  }

  /** partitions.append([body]) */
  function AppendPart(done: seq<Body>, parts: seq<seq<Body>>, body: Body): (r: seq<seq<Body>>)
    requires IsRunPartition(done, parts)
    requires parts != [] ==> |parts[|parts| - 1][0]| != |body|
    ensures IsRunPartition(done + [body], r)
    ensures r != [] && |r[|r| - 1][0]| == |body|
  {
    var r := parts + [[body]];
    assert r[..|r| - 1] == parts;
    r
  }

  /** partitions[-1].append(body) */
  function ExtendLast(done: seq<Body>, parts: seq<seq<Body>>, body: Body): (r: seq<seq<Body>>)
    requires IsRunPartition(done, parts)
    requires parts != [] && |parts[|parts| - 1][0]| == |body|
    ensures IsRunPartition(done + [body], r)
    ensures |r| == |parts| && |r[|r| - 1][0]| == |body|
  {
    var n := |parts|;
    var r := parts[..n - 1] + [parts[n - 1] + [body]];
    assert r[..n - 1] == parts[..n - 1];
    assert Flatten(parts) == Flatten(parts[..n - 1]) + parts[n - 1];
    r
  }

  /** How many bodies at the end of the list have length w. */
  function Trailing(bodies: seq<Body>, w: nat): nat
  {
    if bodies == [] || |bodies[|bodies| - 1]| != w then 0
    else 1 + Trailing(bodies[..|bodies| - 1], w)
  }

  /** A uniform block after a body of another length is exactly the trailing run. */
  lemma {:induction false} TrailingOfBlock(front: seq<Body>, part: seq<Body>, w: nat)
    requires forall i :: 0 <= i < |part| ==> |part[i]| == w
    requires front != [] ==> |front[|front| - 1]| != w
    ensures Trailing(front + part, w) == |part|
  {
    if part == [] {
      assert front + part == front;
    } else {
      var n := |part|;
      assert (front + part)[..|front| + n - 1] == front + part[..n - 1];
      TrailingOfBlock(front, part[..n - 1], w);
    }
  }

  lemma FlattenLast(parts: seq<seq<Body>>)
    requires parts != [] && parts[|parts| - 1] != []
    ensures Flatten(parts) != []
    ensures Flatten(parts)[|Flatten(parts)| - 1] == parts[|parts| - 1][|parts[|parts| - 1]| - 1]
  {
  }

  /** The prefix of a run partition without its last part is a run partition of the bodies before it. */
  lemma RunPrefix(bodies: seq<Body>, parts: seq<seq<Body>>)
    requires IsRunPartition(bodies, parts) && parts != []
    ensures IsRunPartition(Flatten(parts[..|parts| - 1]), parts[..|parts| - 1])
    ensures bodies == Flatten(parts[..|parts| - 1]) + parts[|parts| - 1]
  {
  }

  /** The last part of a run partition is the run of bodies at the end with the last body's length. */
  lemma LastPart(bodies: seq<Body>, parts: seq<seq<Body>>)
    requires IsRunPartition(bodies, parts) && parts != []
    ensures bodies != []
    ensures |parts[|parts| - 1]| == Trailing(bodies, |bodies[|bodies| - 1]|)
    ensures parts[|parts| - 1] == bodies[|bodies| - |parts[|parts| - 1]|..]
  {
    var n := |parts|;
    var last := parts[n - 1];
    var front := Flatten(parts[..n - 1]);
    var w := |last[0]|;
    RunPrefix(bodies, parts);
    if n > 1 {
      RunPrefix(front, parts[..n - 1]);
      assert parts[..n - 1][n - 2] == parts[n - 2];
      FlattenLast(parts[..n - 1]);
    }
    TrailingOfBlock(front, last, w);
    assert bodies[|bodies| - 1] == last[|last| - 1];
  }

  /** There is only one run partition of a list of bodies. */
  lemma {:induction false} RunPartitionUnique(bodies: seq<Body>, p: seq<seq<Body>>, q: seq<seq<Body>>)
    requires IsRunPartition(bodies, p) && IsRunPartition(bodies, q)
    ensures p == q
    decreases |bodies|
  {
    if p == [] || q == [] {
      NoPartsNoBodies(bodies, p);
      NoPartsNoBodies(bodies, q);
    } else {
      LastPart(bodies, p);
      LastPart(bodies, q);
      RunPrefix(bodies, p);
      RunPrefix(bodies, q);
      var pl := p[|p| - 1];
      var front := bodies[..|bodies| - |pl|];
      assert Flatten(p[..|p| - 1]) == front;
      assert Flatten(q[..|q| - 1]) == front;
      RunPartitionUnique(front, p[..|p| - 1], q[..|q| - 1]);
      assert p == p[..|p| - 1] + [pl];
      assert q == q[..|q| - 1] + [q[|q| - 1]];
    }
  }

  /** A run partition has no parts exactly when there are no bodies. */
  lemma NoPartsNoBodies(bodies: seq<Body>, parts: seq<seq<Body>>)
    requires IsRunPartition(bodies, parts)
    ensures parts == [] <==> bodies == []
  {
    if parts != [] {
      FlattenLast(parts);
    }
  }

  /** A uniform part of h bodies of width w joins into exactly w * h pixels. */
  lemma {:induction false} RasterSize(part: seq<Body>)
    requires Uniform(part)
    ensures |Concat(part)| == |part[0]| * |part|
  {
    var n := |part|;
    var w := |part[0]|;
    var front := part[..n - 1];
    assert |Concat(part)| == |Concat(front)| + w;
    if n == 1 {
      assert front == [];
    } else {
      assert Uniform(front) && front[0] == part[0];
      RasterSize(front);
      assert w * (n - 1) + w == w * n;
    }
  }

  /** Every part of the partition the loop builds can be shown as a w x h raster. */
  lemma PartitionRasters(bodies: seq<Body>, parts: seq<seq<Body>>, k: nat)
    requires IsRunPartition(bodies, parts) && k < |parts|
    ensures |Concat(parts[k])| == |parts[k][0]| * |parts[k]|
  {
    RasterSize(parts[k]);
  }
}
