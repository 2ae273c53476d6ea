/**
 * `cv2.resize(src, [cols, rows], interpolation=cv2.INTER_NEAREST)`: every
 * output pixel copies the source pixel at `floor(i * src / dst)` along each
 * axis. Note the size argument lists columns first.
 */
module NearestResize {
  import opened Matrix
  import opened Arith

  /** The source position nearest-neighbour resampling reads for output position `i`. */
  function SourceIndex(i: nat, src: nat, dst: nat): (s: nat)
    requires 1 <= src && i < dst
    ensures s < src
    ensures s * dst <= i * src < (s + 1) * dst
  {
    var s := (i * src) / dst;
    FloorDivBounds(i * src, dst);
    IndexInRange(s, i, src, dst);
    s
  }

  lemma FloorDivBounds(a: nat, d: nat)
    requires d >= 1
    ensures (a / d) * d <= a < (a / d + 1) * d
  {
  }

  lemma IndexInRange(s: nat, i: nat, src: nat, dst: nat)
    requires 1 <= src && i < dst && s * dst <= i * src
    ensures s < src
  {
    if s >= src {
      MulMonotone(src, s, dst);
      MulStrictMonotone(i, dst, src);
    }
  }

  /** The image resampled to exactly `rows x cols`. */
  function Resize(m: Image, rows: nat, cols: nat): (r: Image)
    requires IsImage(m) && |m| >= 1 && Width(m) >= 1
    requires rows >= 1 && cols >= 1
    ensures IsMatrix(r, rows, cols)
    ensures forall i, j :: 0 <= i < rows && 0 <= j < cols ==>
      r[i][j] == m[SourceIndex(i, |m|, rows)][SourceIndex(j, Width(m), cols)]
  {
    seq(rows, i requires 0 <= i < rows =>
      seq(cols, j requires 0 <= j < cols =>
        m[SourceIndex(i, |m|, rows)][SourceIndex(j, Width(m), cols)]))
  }

  /** Resampling introduces no new values. */
  lemma ResizeValuesDrawnFromSource(m: Image, rows: nat, cols: nat)
    requires IsImage(m) && |m| >= 1 && Width(m) >= 1
    requires rows >= 1 && cols >= 1
    ensures ValuesDrawnFrom(Resize(m, rows, cols), m)
  {
    var r := Resize(m, rows, cols);
    forall i, j | 0 <= i < |r| && 0 <= j < |r[i]|
      ensures exists a :: 0 <= a < |m| && r[i][j] in m[a]
    {
      var a := SourceIndex(i, |m|, rows);
      assert r[i][j] == m[a][SourceIndex(j, Width(m), cols)];
    }
  }

  /** Resampling bounds: values stay within any range the source keeps. */
  lemma ResizeKeepsBounds(m: Image, rows: nat, cols: nat, lo: int, hi: int)
    requires IsImage(m) && |m| >= 1 && Width(m) >= 1
    requires rows >= 1 && cols >= 1 && ValuesIn(m, lo, hi)
    ensures ValuesIn(Resize(m, rows, cols), lo, hi)
  {
  }

  lemma SourceIndexIdentity(i: nat, n: nat)
    requires i < n
    ensures SourceIndex(i, n, n) == i
  {
    var s := SourceIndex(i, n, n);
    assert s * n <= i * n < (s + 1) * n;
  }

  /** Resampling to the image's own shape returns it unchanged. */
  lemma ResizeToSameShape(m: Image)
    requires IsImage(m) && |m| >= 1 && Width(m) >= 1
    ensures Resize(m, |m|, Width(m)) == m
  {
    var r := Resize(m, |m|, Width(m));
    forall i | 0 <= i < |m|
      ensures r[i] == m[i]
    {
      SourceIndexIdentity(i, |m|);
      forall j | 0 <= j < Width(m)
        ensures r[i][j] == m[i][j]
      {
        SourceIndexIdentity(j, Width(m));
      }
    }
  }

  /**
   * When shrinking, distinct output positions read distinct source positions,
   * in the same order: no source row or column is used twice.
   */
  lemma {:induction false} SourceIndexStrictWhenShrinking(i: nat, i': nat, src: nat, dst: nat)
    requires 1 <= dst <= src && i < i' < dst
    ensures SourceIndex(i, src, dst) < SourceIndex(i', src, dst)
  {
    var s, s' := SourceIndex(i, src, dst), SourceIndex(i', src, dst);
    MulMonotone(i + 1, i', src);
    assert (i + 1) * src == i * src + src;
    // s' * dst + dst > i' * src >= i * src + src >= i * src + dst >= s * dst + dst
    assert s' * dst + dst > s * dst + dst;
    if s' <= s {
      MulMonotone(s', s, dst);
    }
  }
}
