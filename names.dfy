/**
 * The base name of a recording: the header's file name is split on '.'
 * and must come apart into exactly a base name and an extension. The name
 * is taken here as already-decoded characters.
 */
module Names {
  import opened Wrappers

  /** str.split(sep): the pieces between the occurrences of sep; there is always at least one. */
  function Split(s: string, sep: char): (parts: seq<string>)
    ensures |parts| >= 1
  {
    if s == [] then [[]]
    else
      var rest := Split(s[1..], sep);
      if s[0] == sep then [[]] + rest
      else [[s[0]] + rest[0]] + rest[1..]
  }

  /** sep.join(parts). */
  function Join(parts: seq<string>, sep: char): string
    requires |parts| >= 1
  {
    if |parts| == 1 then parts[0] else parts[0] + [sep] + Join(parts[1..], sep)
  }

  function Count(s: string, c: char): nat
  {
    if s == [] then 0 else (if s[0] == c then 1 else 0) + Count(s[1..], c)
  }

  /** Splitting loses nothing: joining the pieces with the separator gives the string back. */
  lemma {:induction false} JoinOfSplit(s: string, sep: char)
    ensures Join(Split(s, sep), sep) == s
  {
    if s != [] {
      var rest := Split(s[1..], sep);
      JoinOfSplit(s[1..], sep);
      if s[0] == sep {
        assert ([[]] + rest)[1..] == rest;
      } else {
        var parts := [[s[0]] + rest[0]] + rest[1..];
        if |rest| == 1 {
          assert parts == [[s[0]] + rest[0]];
        } else {
          assert parts[1..] == rest[1..];
          assert Join(rest, sep) == rest[0] + [sep] + Join(rest[1..], sep);
        }
        assert s == [s[0]] + s[1..];
      }
    }
  }

  /** One piece more than separators, and no piece contains the separator. */
  lemma {:induction false} SplitShape(s: string, sep: char)
    ensures |Split(s, sep)| == Count(s, sep) + 1
    ensures forall k :: 0 <= k < |Split(s, sep)| ==> sep !in Split(s, sep)[k]
  {
    if s != [] {
      SplitShape(s[1..], sep);
      var rest := Split(s[1..], sep);
      var parts := Split(s, sep);
      if s[0] != sep {
        forall k | 0 <= k < |parts| ensures sep !in parts[k] {
          if k == 0 {
            assert sep !in rest[0];
          } else {
            assert parts[k] == rest[k];
          }
        }
      } else {
        forall k | 0 <= k < |parts| ensures sep !in parts[k] {
          if k > 0 {
            assert parts[k] == rest[k - 1];
          }
        }
      }
    }
  }

  /** A string without the separator is a single piece. */
  lemma {:induction false} SplitNone(s: string, sep: char)
    requires sep !in s
    ensures Split(s, sep) == [s]
  {
    if s != [] {
      SplitNone(s[1..], sep);
      assert s == [s[0]] + s[1..];
    }
  }

  /** Splitting a + [sep] + b, with no separator in a, gives a piece for a and then b's pieces. */
  lemma {:induction false} SplitAtFirst(a: string, sep: char, b: string)
    requires sep !in a
    ensures Split(a + [sep] + b, sep) == [a] + Split(b, sep)
  {
    if a == [] {
      assert (a + [sep] + b)[1..] == b;
    } else {
      SplitAtFirst(a[1..], sep, b);
      assert (a + [sep] + b)[1..] == a[1..] + [sep] + b;
      assert a == [a[0]] + a[1..];
    }
  }

  /** Unpacking the split into two names fails with one of Python's two ValueErrors. */
  datatype NameError = NotEnoughValues | TooManyValues

  /** basename, ext = name.split('.') */
  function BaseName(name: string): Result<(string, string), NameError>
  {
    var parts := Split(name, '.');
    if |parts| < 2 then Err(NotEnoughValues)
    else if |parts| > 2 then Err(TooManyValues)
    else Ok((parts[0], parts[1]))
  }

  /** The name splits iff it holds exactly one '.', and then it is base + "." + ext with no '.' in either. */
  lemma BaseNameSpec(name: string)
    ensures BaseName(name).Ok? <==> Count(name, '.') == 1
    ensures Count(name, '.') == 0 ==> BaseName(name) == Err(NotEnoughValues)
    ensures Count(name, '.') > 1 ==> BaseName(name) == Err(TooManyValues)
    ensures BaseName(name).Ok? ==>
      var (base, ext) := BaseName(name).value;
      name == base + "." + ext && '.' !in base && '.' !in ext
  {
    SplitShape(name, '.');
    JoinOfSplit(name, '.');
    var parts := Split(name, '.');
    if |parts| == 2 {
      assert parts[1..] == [parts[1]];
    }
  }

  /** Any base and extension without '.' come back from their joined name. */
  lemma BaseNameOfJoin(base: string, ext: string)
    requires '.' !in base && '.' !in ext
    ensures BaseName(base + "." + ext) == Ok((base, ext))
  {
    SplitAtFirst(base, '.', ext);
    SplitNone(ext, '.');
  }
}
