/**
 * Byte buffers and the integer decodings the recording format uses:
 * unsigned big-endian (`int.from_bytes(b, 'big')`, struct `>I`) and
 * unsigned little-endian (struct `I` on a little-endian host), together with
 * their encoders and the clamping semantics of reading from a binary file.
 */
module Bytes {
  import opened Wrappers

  newtype byte = x: int | 0 <= x < 256

  function Min(a: int, b: int): int { if a <= b then a else b }

  /** 256^n: one more than the largest value that fits in n bytes. */
  function Pow256(n: nat): (r: nat)
    ensures r >= 1
  {
    if n == 0 then 1 else 256 * Pow256(n - 1)
  }

  /** The unsigned big-endian integer of s; the empty sequence is 0. */
  function BigEndian(s: seq<byte>): (r: nat)
    ensures r < Pow256(|s|)
  {
    if s == [] then 0
    else
      var r0 := BigEndian(s[..|s| - 1]);
      assert r0 * 256 <= (Pow256(|s| - 1) - 1) * 256;
      r0 * 256 + s[|s| - 1] as int
  }

  /** The unsigned little-endian integer of s; the empty sequence is 0. */
  function LittleEndian(s: seq<byte>): (r: nat)
    ensures r < Pow256(|s|)
  {
    if s == [] then 0
    else
      var r0 := LittleEndian(s[1..]);
      assert 256 * r0 <= 256 * (Pow256(|s| - 1) - 1);
      s[0] as int + 256 * r0
  }

  /** The w-byte big-endian encoding of v (v is taken modulo 256^w). */
  function ToBigEndian(v: nat, w: nat): (s: seq<byte>)
    ensures |s| == w
  {
    if w == 0 then [] else ToBigEndian(v / 256, w - 1) + [(v % 256) as byte]
  }

  /** The w-byte little-endian encoding of v (v is taken modulo 256^w). */
  function ToLittleEndian(v: nat, w: nat): (s: seq<byte>)
    ensures |s| == w
  {
    if w == 0 then [] else [(v % 256) as byte] + ToLittleEndian(v / 256, w - 1)
  }

  lemma DivModByte(q: nat, b: byte)
    ensures (q * 256 + b as int) / 256 == q
    ensures (q * 256 + b as int) % 256 == b as int
  {
  }

  /** Decoding a w-byte encoding gives back any value that fits in w bytes. */
  lemma {:induction false} BigEndianOfEncoding(v: nat, w: nat)
    requires v < Pow256(w)
    ensures BigEndian(ToBigEndian(v, w)) == v
  {
    if w > 0 {
      var s := ToBigEndian(v, w);
      var q := v / 256;
      assert q < Pow256(w - 1) && v == q * 256 + v % 256 by {
        SplitByte(v, Pow256(w - 1));
      }
      assert s[..w - 1] == ToBigEndian(q, w - 1) && s[w - 1] as int == v % 256 by {
        ToBigEndianSnoc(v, w);
      }
      BigEndianOfEncoding(q, w - 1);
      BigEndianSnoc(s);
    }
  }

  lemma ToBigEndianSnoc(v: nat, w: nat)
    requires w > 0
    ensures ToBigEndian(v, w)[..w - 1] == ToBigEndian(v / 256, w - 1)
    ensures ToBigEndian(v, w)[w - 1] as int == v % 256
  {
  }

  lemma BigEndianSnoc(s: seq<byte>)
    requires s != []
    ensures BigEndian(s) == BigEndian(s[..|s| - 1]) * 256 + s[|s| - 1] as int
  {
  }

  /** A value below 256 p splits into a quotient below p and a last byte. */
  lemma SplitByte(v: nat, p: nat)
    requires v < 256 * p
    ensures v / 256 < p && v == (v / 256) * 256 + v % 256
  {
  }

  /** Encoding a decoded sequence at its own width gives back the sequence. */
  lemma {:induction false} EncodingOfBigEndian(s: seq<byte>)
    ensures ToBigEndian(BigEndian(s), |s|) == s
  {
    if s != [] {
      var init := s[..|s| - 1];
      DivModByte(BigEndian(init), s[|s| - 1]);
      EncodingOfBigEndian(init);
      assert s == init + [s[|s| - 1]];
    }
  }

  lemma {:induction false} LittleEndianOfEncoding(v: nat, w: nat)
    requires v < Pow256(w)
    ensures LittleEndian(ToLittleEndian(v, w)) == v
  {
    if w > 0 {
      var s := ToLittleEndian(v, w);
      var q := v / 256;
      SplitByte(v, Pow256(w - 1));
      assert s == [(v % 256) as byte] + ToLittleEndian(q, w - 1);
      assert s[1..] == ToLittleEndian(q, w - 1);
      LittleEndianOfEncoding(q, w - 1);
      assert LittleEndian(s) == s[0] as int + 256 * LittleEndian(s[1..]);
    }
  }

  lemma {:induction false} EncodingOfLittleEndian(s: seq<byte>)
    ensures ToLittleEndian(LittleEndian(s), |s|) == s
  {
    if s != [] {
      DivModByte(LittleEndian(s[1..]), s[0]);
      EncodingOfLittleEndian(s[1..]);
      assert s == [s[0]] + s[1..];
    }
  }

  /** BufferedReader.read refuses every length below -1 with a ValueError. */
  datatype ReadError = NegativeReadLength

  /**
   * seek(pos) then read(n) on a binary file holding data: a seek beyond
   * the end leaves nothing to read, n = -1 reads up to the end of the file,
   * n >= 0 reads at most n bytes, and any other n is refused.
   */
  function ReadAt(data: seq<byte>, pos: nat, n: int): (r: Result<seq<byte>, ReadError>)
    ensures r.Err? <==> n < -1
    ensures pos >= |data| && n >= -1 ==> r == Ok([])
    ensures pos <= |data| && n == -1 ==> r == Ok(data[pos..])
    ensures pos <= |data| && 0 <= n ==> r == Ok(data[pos..Min(pos + n, |data|)])
  {
    var start := Min(pos, |data|);
    if n < -1 then Err(NegativeReadLength)
    else if n == -1 then
      assert start == |data| ==> data[start..] == [];
      Ok(data[start..])
    else
      assert start == |data| ==> data[start..Min(start + n, |data|)] == [];
      Ok(data[start..Min(start + n, |data|)])
  }

  /** b''.join(parts): the byte strings end to end. */
  function Concat(parts: seq<seq<byte>>): seq<byte>
  {
    if parts == [] then [] else Concat(parts[..|parts| - 1]) + parts[|parts| - 1]
  }

  /** A slice of a slice is a slice of the original sequence. */
  lemma SliceOfSuffix<T>(s: seq<T>, i: nat, k: nat, l: nat)
    requires i <= |s| && k <= l <= |s| - i
    ensures s[i..][k..l] == s[i + k..i + l]
  {
    var b := s[i..][k..l];
    var c := s[i + k..i + l];
    forall t | 0 <= t < |b| ensures b[t] == c[t] {
      assert b[t] == s[i..][k + t];
    }
  }

  lemma SliceOfSlice<T>(s: seq<T>, i: nat, j: nat, k: nat, l: nat)
    requires i <= j <= |s| && k <= l <= j - i
    ensures s[i..j][k..l] == s[i + k..i + l]
  {
    var a := s[i..j];
    var b := a[k..l];
    var c := s[i + k..i + l];
    assert |b| == |c|;
    forall t | 0 <= t < |b| ensures b[t] == c[t] {
      assert b[t] == a[k + t];
      assert a[k + t] == s[i + k + t];
    }
  }

  lemma AppendAssoc<T>(a: seq<T>, b: seq<T>, c: seq<T>)
    ensures a + b + c == a + (b + c)
  {
  }

  /** Two adjacent slices join into one. */
  lemma JoinSlices<T>(s: seq<T>, a: nat, b: nat, c: nat)
    requires a <= b <= c <= |s|
    ensures s[a..b] + s[b..c] == s[a..c]
  {
    SplitSuffix(s[..c], a, b);
    assert s[..c][a..] == s[a..c];
    assert s[..c][a..b] == s[a..b];
    assert s[..c][b..] == s[b..c];
  }

  /** The value of one 4-byte big-endian word. */
  lemma BigEndianWord(a: byte, b: byte, c: byte, d: byte)
    ensures BigEndian([a, b, c, d]) == a as int * 0x100_0000 + b as int * 0x1_0000 + c as int * 0x100 + d as int
  {
    assert [a][..0] == [];
    assert BigEndian([a]) == a as int;
    assert [a, b][..1] == [a];
    assert BigEndian([a, b]) == a as int * 0x100 + b as int;
    assert [a, b, c][..2] == [a, b];
    assert BigEndian([a, b, c]) == a as int * 0x1_0000 + b as int * 0x100 + c as int;
    assert [a, b, c, d][..3] == [a, b, c];
  }

  /** A suffix splits at any later position. */
  lemma SplitSuffix<T>(s: seq<T>, p: nat, q: nat)
    requires p <= q <= |s|
    ensures s[p..] == s[p..q] + s[q..]
  {
    assert s[p..] == s[p..q] + s[q..] by {
      assert |s[p..]| == |s[p..q] + s[q..]|;
      forall t | 0 <= t < |s| - p ensures s[p..][t] == (s[p..q] + s[q..])[t] {
        if t < q - p {
          assert (s[p..q] + s[q..])[t] == s[p..q][t];
        } else {
          assert (s[p..q] + s[q..])[t] == s[q..][t - (q - p)];
        }
      }
    }
  }

  /** The three parts of a concatenation are slices of it. */
  lemma ConcatParts<T>(a: seq<T>, b: seq<T>, c: seq<T>)
    ensures (a + b + c)[..|a|] == a
    ensures (a + b + c)[|a|..|a| + |b|] == b
    ensures (a + b + c)[|a| + |b|..] == c
  {
    var s := a + b + c;
    assert s[..|a|] == a;
    assert s[|a|..|a| + |b|] == b;
    assert s[|a| + |b|..] == c;
  }
}
