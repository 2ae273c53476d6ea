/**
 * `get_exported_ilastik_label_from_file` (ilastikss/munge.py) after the
 * image is read: optional binarisation to one class, then, when asked, sum
 * pooling by an integer factor `k` on both axes followed by a
 * nearest-neighbour resample to an exact size.
 */
module LabelExtractor {
  import opened Matrix
  import opened Rounding
  import opened Pooling
  import opened NearestResize

  /**
   * The `rescale_xy` argument, whose Python type decides the branch: a
   * number (a ratio), a tuple, or a list.
   */
  datatype RescaleArg = Scalar(r: real) | Tuple(items: seq<int>) | List(items: seq<int>)

  /** What happens after masking: nothing, or pooling by `factor` then resampling to `rows x cols`. */
  datatype Plan = Keep | Rescale(factor: int, rows: int, cols: int)

  /**
   * The branch chosen for `arg` can compute its block factor: a ratio is
   * positive (zero divides by zero, a negative one gives a factor below 1),
   * and the row target of a pair is positive for the same reasons.
   */
  predicate ArgDefined(arg: RescaleArg)
  {
    match arg
    case Scalar(r) => r > 0.0
    case Tuple(items) => |items| == 2 ==> items[0] > 0
    case List(_) => true
  }

  /**
   * The branch selection: a number below 1 is a ratio, a tuple of length 2 is
   * an explicit `(rows, cols)` target; anything else — a number of at least 1,
   * a tuple of another length, any list — leaves the image at full size.
   */
  function PlanFor(arg: RescaleArg, rows: nat, cols: nat): (p: Plan)
    requires ArgDefined(arg)
    ensures p.Rescale? <==> (arg.Scalar? && arg.r < 1.0) || (arg.Tuple? && |arg.items| == 2)
    ensures arg.Tuple? && |arg.items| == 2 ==>
      && p.rows == arg.items[0] && p.cols == arg.items[1]
      && p.factor == RoundHalfEven(rows as real / arg.items[0] as real)
    ensures arg.Scalar? && arg.r < 1.0 ==>
      && p.rows as real <= rows as real * arg.r < p.rows as real + 1.0
      && p.cols as real <= cols as real * arg.r < p.cols as real + 1.0
      && p.factor == RoundHalfEven(1.0 / arg.r) && p.factor >= 1
  {
    match arg
    case Scalar(r) =>
      if r < 1.0 then Rescale(RoundHalfEven(1.0 / r), Truncate(rows as real * r), Truncate(cols as real * r))
      else Keep
    case Tuple(items) =>
      if |items| == 2 then Rescale(RoundHalfEven(rows as real / items[0] as real), items[0], items[1])
      else Keep
    case List(_) => Keep
  }

  /**
   * What `munge.py` needs to run to the end on `img`: a rectangular image,
   * a defined factor, and for a rescale a factor of at least 1, a positive
   * target size and a non-empty image.
   */
  predicate Extractable(img: Image, arg: RescaleArg)
  {
    && IsImage(img)
    && ArgDefined(arg)
    && var p := PlanFor(arg, |img|, Width(img));
       p.Rescale? ==> p.factor >= 1 && p.rows >= 1 && p.cols >= 1 && |img| >= 1 && Width(img) >= 1
  }

  function MaskRow(row: seq<int>, labelId: int): (r: seq<int>)
    ensures |r| == |row|
  {
    seq(|row|, j requires 0 <= j < |row| => if row[j] == labelId then 1 else 0)
  }

  /**
   * `exp_data == label` for a positive label (a 0/1 image marking that
   * class); any other label keeps every class.
   */
  function Mask(img: Image, labelId: int): (r: Image)
    ensures |r| == |img| && forall i :: 0 <= i < |img| ==> |r[i]| == |img[i]|
    ensures labelId > 0 ==> ValuesIn(r, 0, 1)
    ensures labelId > 0 ==> forall i, j :: 0 <= i < |img| && 0 <= j < |img[i]| ==> (r[i][j] == 1 <==> img[i][j] == labelId)
    ensures labelId <= 0 ==> r == img
    ensures IsImage(img) ==> IsImage(r) && Width(r) == Width(img)
  {
    if labelId > 0 then seq(|img|, i requires 0 <= i < |img| => MaskRow(img[i], labelId))
    else img
  }

  /** The number of pixels of `img` equal to `v`. */
  function Hits(img: Image, v: int): nat
  {
    if |img| == 0 then 0 else multiset(img[0])[v] + Hits(img[1..], v)
  }

  lemma {:induction false} MaskRowCounts(row: seq<int>, labelId: int)
    ensures Sum(MaskRow(row, labelId)) == multiset(row)[labelId]
  {
    if |row| > 0 {
      assert MaskRow(row, labelId)[1..] == MaskRow(row[1..], labelId);
      MaskRowCounts(row[1..], labelId);
      assert row == [row[0]] + row[1..];
      assert multiset(row) == multiset{row[0]} + multiset(row[1..]);
    }
  }

  /** A positive label's mask adds up to the number of pixels of that class. */
  lemma {:induction false} MaskCountsHits(img: Image, labelId: int)
    requires labelId > 0
    ensures Total(Mask(img, labelId)) == Hits(img, labelId)
  {
    if |img| > 0 {
      assert Mask(img, labelId)[1..] == Mask(img[1..], labelId);
      MaskCountsHits(img[1..], labelId);
      MaskRowCounts(img[0], labelId);
    }
  }

  lemma MaskIsImage(img: Image, labelId: int)
    requires IsImage(img)
    ensures IsImage(Mask(img, labelId)) && Width(Mask(img, labelId)) == Width(img)
  {
  }

  /** The plane the extractor returns for `img`. */
  function Extract(img: Image, arg: RescaleArg, labelId: int): (r: Image)
    requires Extractable(img, arg)
    ensures IsImage(r)
    ensures PlanFor(arg, |img|, Width(img)).Keep? ==> IsMatrix(r, |img|, Width(img))
    ensures PlanFor(arg, |img|, Width(img)).Rescale? ==>
      IsMatrix(r, PlanFor(arg, |img|, Width(img)).rows, PlanFor(arg, |img|, Width(img)).cols)
  {
    var masked := Mask(img, labelId);
    MaskIsImage(img, labelId);
    match PlanFor(arg, |img|, Width(img))
    case Keep => masked
    case Rescale(k, rows, cols) =>
      CeilDivPositive(|masked|, k);
      CeilDivPositive(Width(masked), k);
      Resize(Pool(masked, k), rows, cols)
  }

  /**
   * Without a rescale the mask is returned as is; with label 0 (or any
   * non-positive label) that is the image itself.
   */
  lemma ExtractWithoutRescale(img: Image, arg: RescaleArg, labelId: int)
    requires Extractable(img, arg)
    requires (arg.Scalar? && arg.r >= 1.0) || (arg.Tuple? && |arg.items| != 2) || arg.List?
    ensures Extract(img, arg, labelId) == Mask(img, labelId)
    ensures labelId <= 0 ==> Extract(img, arg, labelId) == img
  {
  }

  /** With a positive label every extracted cell counts at most `k*k` hits (at most 1 unscaled). */
  lemma {:induction false} ExtractCountsBounded(img: Image, arg: RescaleArg, labelId: int)
    requires Extractable(img, arg) && labelId > 0
    ensures PlanFor(arg, |img|, Width(img)).Keep? ==> ValuesIn(Extract(img, arg, labelId), 0, 1)
    ensures PlanFor(arg, |img|, Width(img)).Rescale? ==>
      var k := PlanFor(arg, |img|, Width(img)).factor;
      ValuesIn(Extract(img, arg, labelId), 0, k * k)
  {
    var p := PlanFor(arg, |img|, Width(img));
    if p.Rescale? {
      var masked := Mask(img, labelId);
      MaskIsImage(img, labelId);
      PoolBounds(masked, p.factor, 1);
      CeilDivPositive(|masked|, p.factor);
      CeilDivPositive(Width(masked), p.factor);
      ResizeKeepsBounds(Pool(masked, p.factor), p.rows, p.cols, 0, p.factor * p.factor);
    }
  }

  /** Every rescaled cell is one of the pooled cells. */
  lemma {:induction false} ExtractDrawsFromPooled(img: Image, arg: RescaleArg, labelId: int)
    requires Extractable(img, arg) && PlanFor(arg, |img|, Width(img)).Rescale?
    ensures
      var k := PlanFor(arg, |img|, Width(img)).factor;
      ValuesDrawnFrom(Extract(img, arg, labelId), Pool(Mask(img, labelId), k))
  {
    var p := PlanFor(arg, |img|, Width(img));
    var masked := Mask(img, labelId);
    MaskIsImage(img, labelId);
    CeilDivPositive(|masked|, p.factor);
    CeilDivPositive(Width(masked), p.factor);
    ResizeValuesDrawnFromSource(Pool(masked, p.factor), p.rows, p.cols);
  }

  /**
   * When the pooled shape is already the target shape the resample is the
   * identity, so the plane holds exactly the hits of the mask.
   */
  lemma {:induction false} ExtractKeepsCountWhenExact(img: Image, arg: RescaleArg, labelId: int)
    requires Extractable(img, arg) && PlanFor(arg, |img|, Width(img)).Rescale?
    requires
      var p := PlanFor(arg, |img|, Width(img));
      CeilDiv(|img|, p.factor) == p.rows && CeilDiv(Width(img), p.factor) == p.cols
    ensures Total(Extract(img, arg, labelId)) == Total(Mask(img, labelId))
    ensures labelId > 0 ==> Total(Extract(img, arg, labelId)) == Hits(img, labelId)
  {
    var p := PlanFor(arg, |img|, Width(img));
    var masked := Mask(img, labelId);
    MaskIsImage(img, labelId);
    CeilDivPositive(|masked|, p.factor);
    CeilDivPositive(Width(masked), p.factor);
    var pooled := Pool(masked, p.factor);
    ResizeToSameShape(pooled);
    PoolPreservesTotal(masked, p.factor);
    if labelId > 0 {
      MaskCountsHits(img, labelId);
    }
  }

  /**
   * Asking for the image's own size is a no-op apart from the masking: the
   * factor rounds to 1, pooling by 1 and resampling to the same shape are
   * both the identity.
   */
  lemma ExtractToOwnSize(img: Image, labelId: int)
    requires IsImage(img) && |img| >= 1 && Width(img) >= 1
    ensures Extractable(img, Tuple([|img|, Width(img)]))
    ensures Extract(img, Tuple([|img|, Width(img)]), labelId) == Mask(img, labelId)
  {
    var arg := Tuple([|img|, Width(img)]);
    assert |img| as real / |img| as real == 1.0;
    RoundHalfEvenOfInteger(1);
    var masked := Mask(img, labelId);
    MaskIsImage(img, labelId);
    PoolByOne(masked);
    ResizeToSameShape(masked);
  }
}
