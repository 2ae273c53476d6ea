/**
 * Sum pooling as `skimage.measure.block_reduce(image, (k, k), func=np.sum)`
 * performs it: the image is cut into `k x k` blocks from the top-left corner,
 * the ragged last blocks padded with zeros, and every block replaced by the
 * sum of its pixels. It is built separably — each row pooled in runs of `k`,
 * then bands of `k` pooled rows added — and proved equal to the block sums.
 */
module Pooling {
  import opened Matrix
  import opened Rounding
  import opened Arith

  function Min(a: int, b: int): int
  {
    if a <= b then a else b
  }

  /** One row pooled in runs of `k`; the last run may be shorter. */
  function PoolRow(row: seq<int>, k: nat): (r: seq<int>)
    requires k >= 1
    ensures |r| == CeilDiv(|row|, k)
    decreases |row|
  {
    if |row| == 0 then []
    else if |row| <= k then [Sum(row)]
    else [Sum(row[..k])] + PoolRow(row[k..], k)
  }

  /** Pooling a row keeps its sum. */
  lemma {:induction false} PoolRowSum(row: seq<int>, k: nat)
    requires k >= 1
    ensures Sum(PoolRow(row, k)) == Sum(row)
    decreases |row|
  {
    if |row| > k {
      PoolRowSum(row[k..], k);
      SumConcat([Sum(row[..k])], PoolRow(row[k..], k));
      assert row == row[..k] + row[k..];
      SumConcat(row[..k], row[k..]);
    } else if |row| > 0 {
      assert [Sum(row)][1..] == [];
    }
  }

  /** Cell `J` of a pooled row is the sum of the source run it covers. */
  lemma {:induction false} PoolRowCell(row: seq<int>, k: nat, J: nat)
    requires k >= 1 && J < CeilDiv(|row|, k)
    ensures 0 <= J * k <= Min((J + 1) * k, |row|) <= |row|
    ensures PoolRow(row, k)[J] == Sum(row[J * k..Min((J + 1) * k, |row|)])
    decreases |row|
  {
    BlockBounds(J, |row|, k);
    var lo, hi := J * k, Min((J + 1) * k, |row|);
    if |row| <= k {
      assert J == 0;
      BlockOrigin(J, k);
      assert row[lo..hi] == row;
    } else if J == 0 {
      BlockOrigin(J, k);
      assert row[lo..hi] == row[..k];
    } else {
      PoolRowCell(row[k..], k, J - 1);
      BlockShift(J, k);
      var lo', hi' := (J - 1) * k, Min(J * k, |row| - k);
      assert lo' + k == lo && hi' + k == hi;
      assert row[k..][lo'..hi'] == row[lo..hi];
    }
  }

  /** Pixel-wise sum of two rows of equal length. */
  function Plus(a: seq<int>, b: seq<int>): (r: seq<int>)
    requires |a| == |b|
    ensures |r| == |a|
  {
    seq(|a|, i requires 0 <= i < |a| => a[i] + b[i])
  }

  lemma {:induction false} SumPlus(a: seq<int>, b: seq<int>)
    requires |a| == |b|
    ensures Sum(Plus(a, b)) == Sum(a) + Sum(b)
  {
    if |a| > 0 {
      assert Plus(a, b)[1..] == Plus(a[1..], b[1..]);
      SumPlus(a[1..], b[1..]);
    }
  }

  lemma {:induction false} SumZeros(n: nat)
    ensures Sum(seq(n, _ => 0)) == 0
  {
    if n > 0 {
      assert seq(n, _ => 0)[1..] == seq(n - 1, _ => 0);
      SumZeros(n - 1);
    }
  }

  /** The pixel-wise sum of a band of rows of the given width. */
  function AddRows(band: Image, width: nat): (r: seq<int>)
    requires IsMatrix(band, |band|, width)
    ensures |r| == width
  {
    if |band| == 0 then seq(width, _ => 0)
    else Plus(band[0], AddRows(band[1..], width))
  }

  /** Adding the rows of a band keeps the band's total. */
  lemma {:induction false} AddRowsTotal(band: Image, width: nat)
    requires IsMatrix(band, |band|, width)
    ensures Sum(AddRows(band, width)) == Total(band)
  {
    if |band| == 0 {
      SumZeros(width);
    } else {
      AddRowsTotal(band[1..], width);
      SumPlus(band[0], AddRows(band[1..], width));
    }
  }

  /** Column `j` of a band, top to bottom. */
  function Column(band: Image, j: nat): (c: seq<int>)
    requires forall i :: 0 <= i < |band| ==> j < |band[i]|
    ensures |c| == |band|
  {
    seq(|band|, i requires 0 <= i < |band| => band[i][j])
  }

  /** Cell `j` of a band's sum is the sum of column `j`. */
  lemma {:induction false} AddRowsCell(band: Image, width: nat, j: nat)
    requires IsMatrix(band, |band|, width) && j < width
    ensures AddRows(band, width)[j] == Sum(Column(band, j))
  {
    if |band| > 0 {
      AddRowsCell(band[1..], width, j);
      assert Column(band, j)[1..] == Column(band[1..], j);
    }
  }

  /** Bands of `k` rows replaced by their sums; the last band may be shorter. */
  function PoolBands(m: Image, k: nat, width: nat): (r: Image)
    requires k >= 1 && IsMatrix(m, |m|, width)
    ensures IsMatrix(r, CeilDiv(|m|, k), width)
    decreases |m|
  {
    if |m| == 0 then []
    else if |m| <= k then [AddRows(m, width)]
    else [AddRows(m[..k], width)] + PoolBands(m[k..], k, width)
  }

  lemma {:induction false} PoolBandsTotal(m: Image, k: nat, width: nat)
    requires k >= 1 && IsMatrix(m, |m|, width)
    ensures Total(PoolBands(m, k, width)) == Total(m)
    decreases |m|
  {
    if |m| > k {
      PoolBandsTotal(m[k..], k, width);
      AddRowsTotal(m[..k], width);
      TotalConcat([AddRows(m[..k], width)], PoolBands(m[k..], k, width));
      assert m == m[..k] + m[k..];
      TotalConcat(m[..k], m[k..]);
    } else if |m| > 0 {
      AddRowsTotal(m, width);
      assert [AddRows(m, width)][1..] == [];
    }
  }

  /** Band `I` of the pooled image is the sum of the source rows it covers. */
  lemma {:induction false} PoolBandsCell(m: Image, k: nat, width: nat, I: nat)
    requires k >= 1 && IsMatrix(m, |m|, width) && I < CeilDiv(|m|, k)
    ensures 0 <= I * k <= Min((I + 1) * k, |m|) <= |m|
    ensures IsMatrix(m[I * k..Min((I + 1) * k, |m|)], Min((I + 1) * k, |m|) - I * k, width)
    ensures PoolBands(m, k, width)[I] == AddRows(m[I * k..Min((I + 1) * k, |m|)], width)
    decreases |m|
  {
    BlockBounds(I, |m|, k);
    var lo, hi := I * k, Min((I + 1) * k, |m|);
    SliceIsMatrix(m, width, lo, hi);
    if |m| <= k {
      assert I == 0;
      BlockOrigin(I, k);
      assert m[lo..hi] == m;
    } else if I == 0 {
      BlockOrigin(I, k);
      assert m[lo..hi] == m[..k];
    } else {
      SliceIsMatrix(m, width, k, |m|);
      PoolBandsCell(m[k..], k, width, I - 1);
      BlockShift(I, k);
      var lo', hi' := (I - 1) * k, Min(I * k, |m| - k);
      assert lo' + k == lo && hi' + k == hi;
      assert m[k..][lo'..hi'] == m[lo..hi];
    }
  }

  /** Every row of `m` pooled in runs of `k`. */
  function PoolEachRow(m: Image, k: nat): (r: Image)
    requires k >= 1 && IsImage(m)
    ensures IsMatrix(r, |m|, CeilDiv(Width(m), k))
    ensures forall i :: 0 <= i < |m| ==> r[i] == PoolRow(m[i], k)
  {
    seq(|m|, i requires 0 <= i < |m| => PoolRow(m[i], k))
  }

  lemma {:induction false} PoolEachRowTotal(m: Image, k: nat)
    requires k >= 1 && IsImage(m)
    ensures Total(PoolEachRow(m, k)) == Total(m)
    decreases |m|
  {
    if |m| > 0 {
      var rest := m[1..];
      assert IsImage(rest) by {
        if |rest| > 0 {
          assert Width(rest) == |m[1]| == Width(m);
        }
      }
      PoolEachRowTotal(rest, k);
      assert PoolEachRow(m, k)[1..] == PoolEachRow(rest, k);
      PoolRowSum(m[0], k);
    }
  }

  /** `block_reduce(m, (k, k), func=np.sum)`. */
  function Pool(m: Image, k: nat): (r: Image)
    requires k >= 1 && IsImage(m)
    ensures IsMatrix(r, CeilDiv(|m|, k), CeilDiv(Width(m), k))
  {
    PoolBands(PoolEachRow(m, k), k, CeilDiv(Width(m), k))
  }

  /** Sum pooling loses no hits: the pooled image has the source's total. */
  lemma PoolPreservesTotal(m: Image, k: nat)
    requires k >= 1 && IsImage(m)
    ensures Total(Pool(m, k)) == Total(m)
  {
    PoolBandsTotal(PoolEachRow(m, k), k, CeilDiv(Width(m), k));
    PoolEachRowTotal(m, k);
  }

  /** The sums of the runs `m[i][clo..chi]` for the rows `i` in `[lo, hi)`. */
  function RunSums(m: Image, lo: nat, hi: nat, clo: nat, chi: nat): (r: seq<int>)
    requires IsImage(m) && lo <= hi <= |m| && clo <= chi <= Width(m)
    ensures |r| == hi - lo
  {
    seq(hi - lo, d requires 0 <= d < hi - lo => Sum(m[lo + d][clo..chi]))
  }

  /**
   * The sum of the block of `m` at block row `I`, block column `J`: the
   * pixels in rows `[I*k, (I+1)*k)` and columns `[J*k, (J+1)*k)`, clipped to
   * the image (the clipped-off part is the zero padding).
   */
  function BlockSum(m: Image, k: nat, I: nat, J: nat): int
    requires k >= 1 && IsImage(m)
    requires I < CeilDiv(|m|, k) && J < CeilDiv(Width(m), k)
  {
    CeilDivIndex(I, |m|, k);
    CeilDivIndex(J, Width(m), k);
    Sum(RunSums(m, I * k, Min((I + 1) * k, |m|), J * k, Min((J + 1) * k, Width(m))))
  }

  /** Column `J` of a band of row-pooled rows holds the runs' sums. */
  lemma PooledColumn(m: Image, k: nat, lo: nat, hi: nat, J: nat, clo: nat, chi: nat)
    requires k >= 1 && IsImage(m) && lo <= hi <= |m|
    requires J < CeilDiv(Width(m), k) && clo == J * k && chi == Min((J + 1) * k, Width(m))
    requires clo <= chi <= Width(m)
    ensures Column(PoolEachRow(m, k)[lo..hi], J) == RunSums(m, lo, hi, clo, chi)
  {
    var band := PoolEachRow(m, k)[lo..hi];
    var runs := RunSums(m, lo, hi, clo, chi);
    forall d | 0 <= d < hi - lo
      ensures Column(band, J)[d] == runs[d]
    {
      assert band[d] == PoolRow(m[lo + d], k);
      assert |m[lo + d]| == Width(m);
      PoolRowCell(m[lo + d], k, J);
    }
  }

  lemma BlockOrigin(i: nat, k: nat)
    requires i == 0
    ensures i * k == 0 && (i + 1) * k == k
  {
  }

  lemma BlockShift(i: nat, k: nat)
    requires i >= 1
    ensures 0 <= (i - 1) * k && (i - 1) * k + k == i * k && i * k + k == (i + 1) * k
  {
  }

  /** Block `i` of `k` items within `n` items spans a range inside `[0, n]`. */
  lemma BlockBounds(i: nat, n: nat, k: nat)
    requires k >= 1 && i < CeilDiv(n, k)
    ensures 0 <= i * k < Min((i + 1) * k, n) <= n
    ensures Min((i + 1) * k, n) - i * k <= k
  {
    CeilDivIndex(i, n, k);
    assert (i + 1) * k == i * k + k;
  }

  /** Every pooled cell is the sum of its `k x k` block. */
  lemma {:induction false} PoolCell(m: Image, k: nat, I: nat, J: nat)
    requires k >= 1 && IsImage(m)
    requires I < CeilDiv(|m|, k) && J < CeilDiv(Width(m), k)
    ensures Pool(m, k)[I][J] == BlockSum(m, k, I, J)
  {
    var w := CeilDiv(Width(m), k);
    var p := PoolEachRow(m, k);
    BlockBounds(I, |m|, k);
    BlockBounds(J, Width(m), k);
    var lo, hi := I * k, Min((I + 1) * k, |m|);
    var clo, chi := J * k, Min((J + 1) * k, Width(m));
    var band := p[lo..hi];
    PoolBandsCell(p, k, w, I);
    AddRowsCell(band, w, J);
    PooledColumn(m, k, lo, hi, J, clo, chi);
  }

  /** Each run of at most `k` pixels from `[0, hi]` sums into `[0, k*hi]`. */
  lemma RunSumsBounds(m: Image, lo: nat, hi': nat, clo: nat, chi: nat, k: nat, hi: nat)
    requires IsImage(m) && lo <= hi' <= |m| && clo <= chi <= Width(m)
    requires chi - clo <= k && ValuesIn(m, 0, hi)
    ensures forall d :: 0 <= d < hi' - lo ==> 0 <= RunSums(m, lo, hi', clo, chi)[d] <= k * hi
  {
    var runs := RunSums(m, lo, hi', clo, chi);
    forall d | 0 <= d < hi' - lo
      ensures 0 <= runs[d] <= k * hi
    {
      var run := m[lo + d][clo..chi];
      SumBounds(run, hi);
      MulMonotone(|run|, k, hi);
    }
  }

  /** A cell of the pooled image is bounded by the block's size times `hi`. */
  lemma {:induction false} PoolCellBounds(m: Image, k: nat, hi: nat, I: nat, J: nat)
    requires k >= 1 && IsImage(m) && ValuesIn(m, 0, hi)
    requires I < CeilDiv(|m|, k) && J < CeilDiv(Width(m), k)
    ensures 0 <= BlockSum(m, k, I, J) <= k * k * hi
  {
    BlockBounds(I, |m|, k);
    BlockBounds(J, Width(m), k);
    var lo, hi' := I * k, Min((I + 1) * k, |m|);
    var clo, chi := J * k, Min((J + 1) * k, Width(m));
    var runs := RunSums(m, lo, hi', clo, chi);
    RunSumsBounds(m, lo, hi', clo, chi, k, hi);
    SumBounds(runs, k * hi);
    MulMonotone(|runs|, k, k * hi);
    MulAssociative(k, k, hi);
  }

  /**
   * Pooling pixels from `[0, hi]` gives cells in `[0, k*k*hi]`; for a 0/1
   * mask a cell counts at most `k*k` hits.
   */
  lemma PoolBounds(m: Image, k: nat, hi: nat)
    requires k >= 1 && IsImage(m) && ValuesIn(m, 0, hi)
    ensures ValuesIn(Pool(m, k), 0, k * k * hi)
  {
    var r := Pool(m, k);
    forall I, J | 0 <= I < |r| && 0 <= J < |r[I]|
      ensures 0 <= r[I][J] <= k * k * hi
    {
      PoolCell(m, k, I, J);
      PoolCellBounds(m, k, hi, I, J);
    }
  }

  lemma {:induction false} PoolRowByOne(row: seq<int>)
    ensures PoolRow(row, 1) == row
  {
    if |row| > 1 {
      PoolRowByOne(row[1..]);
      assert row[..1][1..] == [];
      assert Sum(row[..1]) == row[0];
      assert row == [row[0]] + row[1..];
    } else if |row| == 1 {
      assert row[1..] == [];
      assert Sum(row) == row[0];
      assert row == [row[0]];
    }
  }

  lemma {:induction false} PoolBandsByOne(m: Image, width: nat)
    requires IsMatrix(m, |m|, width)
    ensures PoolBands(m, 1, width) == m
  {
    if |m| > 0 {
      assert AddRows([m[0]], width) == m[0] by {
        assert [m[0]][1..] == [];
      }
      if |m| > 1 {
        PoolBandsByOne(m[1..], width);
        assert m[..1] == [m[0]];
        assert m == [m[0]] + m[1..];
      } else {
        assert m == [m[0]];
      }
    }
  }

  /** Pooling by a factor of 1 changes nothing. */
  lemma PoolByOne(m: Image)
    requires IsImage(m)
    ensures Pool(m, 1) == m
  {
    var rows := PoolEachRow(m, 1);
    forall i | 0 <= i < |m|
      ensures rows[i] == m[i]
    {
      PoolRowByOne(m[i]);
    }
    assert rows == m;
    CeilDivByOne(Width(m));
    PoolBandsByOne(m, Width(m));
  }
}
