/** The integer roundings the extractor applies to its scale arithmetic. */
module Rounding {

  /**
   * NumPy's `np.round` to zero decimals: the nearest integer, a tie going to
   * the even neighbour.
   */
  function RoundHalfEven(x: real): (r: int)
    ensures x - 0.5 <= r as real <= x + 0.5
    ensures (r as real == x - 0.5 || r as real == x + 0.5) ==> r % 2 == 0
  {
    var f := x.Floor;
    var d := x - f as real;
    if d < 0.5 then f
    else if d > 0.5 then f + 1
    else if f % 2 == 0 then f
    else f + 1
  }

  /** Python's `int(x)` for `x >= 0`: truncation, which is the floor there. */
  function Truncate(x: real): (r: int)
    requires x >= 0.0
    ensures 0 <= r && r as real <= x < r as real + 1.0
  {
    x.Floor
  }

  /** `ceil(a / k)`: the number of blocks of `k` that `a` items fill, the last one possibly short. */
  function CeilDiv(a: nat, k: nat): nat
    requires k >= 1
    decreases a
  {
    if a == 0 then 0 else if a <= k then 1 else 1 + CeilDiv(a - k, k)
  }

  /** `CeilDiv(a, k)` is the least `r` with `a <= r * k`. */
  lemma {:induction false} CeilDivBounds(a: nat, k: nat)
    requires k >= 1
    ensures (CeilDiv(a, k) - 1) * k < a <= CeilDiv(a, k) * k
    decreases a
  {
    if a > k {
      CeilDivBounds(a - k, k);
      var r := CeilDiv(a - k, k);
      assert (r + 1) * k == r * k + k;
      assert r * k == (r - 1) * k + k;
    }
  }

  /** A non-empty extent has at least one block. */
  lemma CeilDivPositive(a: nat, k: nat)
    requires k >= 1 && a >= 1
    ensures CeilDiv(a, k) >= 1
  {
  }

  /** Block `i` of `CeilDiv(a, k)` starts inside the `a` items. */
  lemma {:induction false} CeilDivIndex(i: nat, a: nat, k: nat)
    requires k >= 1 && i < CeilDiv(a, k)
    ensures i * k < a
    decreases a
  {
    if a > k && i > 0 {
      CeilDivIndex(i - 1, a - k, k);
      assert i * k == (i - 1) * k + k;
    }
  }

  /** Rounding a whole number gives it back. */
  lemma RoundHalfEvenOfInteger(n: int)
    ensures RoundHalfEven(n as real) == n
  {
  }

  /** Dividing by 1 rounds nothing up. */
  lemma {:induction false} CeilDivByOne(a: nat)
    ensures CeilDiv(a, 1) == a
  {
    if a > 1 {
      CeilDivByOne(a - 1);
    }
  }
}
