/**
 * Images as integer matrices: a sequence of rows of equal length, with the
 * sums that make "number of label hits" a checkable quantity, and NumPy's
 * wrap-around cast to `int16`.
 */
module Matrix {

  type Image = seq<seq<int>>

  /** Number of columns; an image without rows has none. */
  function Width(m: Image): nat
  {
    if |m| == 0 then 0 else |m[0]|
  }

  /** Every row has the same length. */
  predicate IsImage(m: Image)
  {
    forall i :: 0 <= i < |m| ==> |m[i]| == Width(m)
  }

  /** `m` has shape `(rows, cols)`. */
  predicate IsMatrix(m: Image, rows: nat, cols: nat)
  {
    |m| == rows && forall i :: 0 <= i < |m| ==> |m[i]| == cols
  }

  lemma SliceIsMatrix(m: Image, cols: nat, lo: nat, hi: nat)
    requires IsMatrix(m, |m|, cols) && lo <= hi <= |m|
    ensures IsMatrix(m[lo..hi], hi - lo, cols)
  {
    forall i | 0 <= i < hi - lo
      ensures |m[lo..hi][i]| == cols
    {
      assert m[lo..hi][i] == m[lo + i];
    }
  }

  /** Every pixel lies in `[lo, hi]`. */
  predicate ValuesIn(m: Image, lo: int, hi: int)
  {
    forall i, j :: 0 <= i < |m| && 0 <= j < |m[i]| ==> lo <= m[i][j] <= hi
  }

  /** Every pixel of `m` is a pixel of `src`. */
  predicate ValuesDrawnFrom(m: Image, src: Image)
  {
    forall i, j :: 0 <= i < |m| && 0 <= j < |m[i]| ==>
      exists a :: 0 <= a < |src| && m[i][j] in src[a]
  }

  /** An all-zero image of the given shape, as `np.zeros` allocates. */
  function Zeros(rows: nat, cols: nat): (z: Image)
    ensures IsMatrix(z, rows, cols) && ValuesIn(z, 0, 0)
  {
    seq(rows, _ => seq(cols, _ => 0))
  }

  function Sum(s: seq<int>): int
  {
    if |s| == 0 then 0 else s[0] + Sum(s[1..])
  }

  /** Sum of all pixels. */
  function Total(m: Image): int
  {
    if |m| == 0 then 0 else Sum(m[0]) + Total(m[1..])
  }

  lemma {:induction false} SumConcat(a: seq<int>, b: seq<int>)
    ensures Sum(a + b) == Sum(a) + Sum(b)
  {
    if |a| > 0 {
      assert (a + b)[1..] == a[1..] + b;
      SumConcat(a[1..], b);
    } else {
      assert a + b == b;
    }
  }

  lemma {:induction false} TotalConcat(a: Image, b: Image)
    ensures Total(a + b) == Total(a) + Total(b)
  {
    if |a| > 0 {
      assert (a + b)[1..] == a[1..] + b;
      TotalConcat(a[1..], b);
    } else {
      assert a + b == b;
    }
  }

  /** A sum of `n` values from `[0, hi]` lies in `[0, n * hi]`. */
  lemma {:induction false} SumBounds(s: seq<int>, hi: int)
    requires hi >= 0
    requires forall i :: 0 <= i < |s| ==> 0 <= s[i] <= hi
    ensures 0 <= Sum(s) <= |s| * hi
  {
    if |s| > 0 {
      SumBounds(s[1..], hi);
    }
  }

  /**
   * NumPy's unsafe cast of an integer to `int16`: the one value in
   * `[-32768, 32767]` congruent to `v` modulo 2^16.
   */
  function ToInt16(v: int): (r: int)
    ensures -32768 <= r <= 32767
    ensures (v - r) % 65536 == 0
  {
    (v + 32768) % 65536 - 32768
  }

  /** The cast changes nothing for values already in the `int16` range. */
  lemma ToInt16InRange(v: int)
    requires -32768 <= v <= 32767
    ensures ToInt16(v) == v
  {
  }

  /** An image written into an `int16` buffer, cell by cell. */
  function Int16Image(m: Image): (r: Image)
    ensures |r| == |m| && forall i :: 0 <= i < |m| ==> |r[i]| == |m[i]|
    ensures ValuesIn(r, -32768, 32767)
  {
    seq(|m|, i requires 0 <= i < |m| => seq(|m[i]|, j requires 0 <= j < |m[i]| => ToInt16(m[i][j])))
  }

  /** Images whose pixels fit in `int16` are stored unchanged. */
  lemma Int16ImageInRange(m: Image)
    requires ValuesIn(m, -32768, 32767)
    ensures Int16Image(m) == m
  {
    var r := Int16Image(m);
    forall i | 0 <= i < |m|
      ensures r[i] == m[i]
    {
      forall j | 0 <= j < |m[i]|
        ensures r[i][j] == m[i][j]
      {
        ToInt16InRange(m[i][j]);
      }
    }
  }
}
