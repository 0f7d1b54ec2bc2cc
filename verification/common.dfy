/** Small shared vocabulary: optional values, the two chart years, and Python-style slicing. */
module Common {

  /** A value that may be absent: a missing JSON key, an HTML element `find_*` did not find,
      or a SELECT whose `fetchone()` returned nothing. */
  datatype Option<T> = None | Some(value: T) {
    /** The value, or `default` when absent (Python's `dict.get(key, default)`). */
    function GetOr(default: T): T {
      match this
      case Some(v) => v
      case None => default
    }
  }

  /** The two chart years. Each year has its own table; the enum replaces the
      table names the program builds from strings. */
  datatype Year = Y2020 | Y2021 {
    function Other(): Year {
      match this
      case Y2020 => Y2021
      case Y2021 => Y2020
    }
  }

  function Min(a: int, b: int): int {
    if a <= b then a else b
  }

  /** Python's `s[from:from + len]` for a non-negative start: clipped at the end of `s`,
      and empty when `from` is past the end. */
  function Slice<T>(s: seq<T>, from: nat, len: nat): (r: seq<T>)
    ensures |r| == if from >= |s| then 0 else Min(len, |s| - from)
    ensures forall k :: 0 <= k < |r| ==> r[k] == s[from + k]
  {
    if from >= |s| then [] else s[from .. Min(from + len, |s|)]
  }

  lemma SliceSnoc<T>(s: seq<T>, a: nat, b: nat)
    requires a <= b < |s|
    ensures s[a..b + 1] == s[a..b] + [s[b]]
  {
  }

  /** A prefix and the slice right after it make up the longer prefix: consecutive windows
      neither overlap nor leave a gap. The caller names the sum `end` itself, so the result
      speaks of the term the caller already holds (a cursor value, say). */
  lemma SliceTiles<T>(s: seq<T>, pos: nat, len: nat, end: nat)
    requires end == pos + len
    ensures Slice(s, 0, pos) + Slice(s, pos, len) == Slice(s, 0, end)
  {
    var left, right, whole := Slice(s, 0, pos), Slice(s, pos, len), Slice(s, 0, end);
    assert |left + right| == |whole|;
    forall k | 0 <= k < |whole|
      ensures (left + right)[k] == whole[k]
    {
      if k >= |left| {
        assert (left + right)[k] == right[k - |left|] == s[pos + (k - |left|)];
      }
    }
  }

  /** Taking one more element from the front of `[x] + s` takes `x`, then the same from `s`.
      As with SliceTiles, the caller names the larger length `len'` itself. */
  lemma SliceCons<T>(x: T, s: seq<T>, len: nat, len': nat)
    requires len' == len + 1
    ensures Slice([x] + s, 0, len') == [x] + Slice(s, 0, len)
  {
  }

  /** Dropping the last element of a concatenation with a non-empty right part. */
  lemma InitOfAppend<T>(a: seq<T>, b: seq<T>)
    requires b != []
    ensures (a + b)[..|a + b| - 1] == a + b[..|b| - 1]
    ensures (a + b)[|a + b| - 1] == b[|b| - 1]
  {
  }

  lemma AppendAssoc<T>(x: seq<T>, y: seq<T>, z: seq<T>)
    ensures (x + y) + z == x + (y + z)
  {
  }

  lemma SplitAt<T>(s: seq<T>, i: nat)
    requires i < |s|
    ensures s == s[..i] + [s[i]] + s[i + 1..]
  {
  }

  lemma IndexMiddle<T>(a: seq<T>, b: seq<T>, c: seq<T>, j: nat)
    requires j < |b|
    ensures |a| + j < |a + b + c| && (a + b + c)[|a| + j] == b[j]
  {
  }

  lemma DropAppend<T>(a: seq<T>, b: seq<T>)
    ensures (a + b)[|a|..] == b
  {
  }
}
