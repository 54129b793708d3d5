/** The 0/1 knapsack problem as the solver in src/main.rs sees it: item values and
    weights are 32-bit signed integers, capacities are machine words (`usize`), and a
    selection is a vector of 0/1 flags, one per item in the original order.

    `Best(values, weights, i, w)` is the dynamic-programming recurrence of the table
    `dp[i][w]`; the lemmas below show that it is the maximum total value over all
    selections of the first `i` items whose total weight fits in `w`, and that the
    backtracking walk `Backtrack` reconstructs a selection that reaches it. */
module KnapsackSpec {

  /** Rust's `i32`. */
  newtype I32 = x: int | -0x8000_0000 <= x < 0x8000_0000

  const I32_MAX: int := 0x7fff_ffff

  /** Rust's `usize` on a 64-bit target is 2^64 values wide. */
  const USIZE_MODULUS: int := 0x1_0000_0000_0000_0000

  /** The cast `x as usize` of an `i32`: sign extension, so a negative weight becomes
      a number at least 2^64 - 2^31, larger than any capacity a table could have. */
  function AsUsize(x: I32): (r: nat)
    ensures x >= 0 ==> r == x as int
    ensures x < 0 ==> r >= USIZE_MODULUS - 0x8000_0000
  {
    if x >= 0 then x as nat else x as int + USIZE_MODULUS
  }

  function Max(a: int, b: int): (r: int)
  {
    if a >= b then a else b
  }

  /** Sum of the positive parts of the first `i` values: the most any selection of the
      first `i` items can be worth. */
  function PositiveSum(values: seq<I32>, i: nat): (r: int)
    requires i <= |values|
    ensures r >= 0
  {
    if i == 0 then 0
    else PositiveSum(values, i - 1) + (if values[i - 1] > 0 then values[i - 1] as int else 0)
  }

  /** The recurrence that fills `dp[i][w]`: row 0 is all zeros; item `i - 1` is either
      skipped, or taken when its weight (as a `usize`) fits in `w`, whichever is worth
      more. */
  function Best(values: seq<I32>, weights: seq<I32>, i: nat, w: nat): (r: int)
    requires |values| == |weights| && i <= |values|
  {
    if i == 0 then 0
    else if AsUsize(weights[i - 1]) <= w then
      Max(Best(values, weights, i - 1, w),
          Best(values, weights, i - 1, w - AsUsize(weights[i - 1])) + values[i - 1] as int)
    else
      Best(values, weights, i - 1, w)
  }

  /** A selection vector for `n` items: `n` flags, each 0 or 1. */
  predicate IsSelection(s: seq<I32>, n: nat)
  {
    |s| == n && forall k :: 0 <= k < |s| ==> s[k] == 0 || s[k] == 1
  }

  /** Total weight (each weight read as a `usize`) of the items flagged 1 in `s`;
      flag `k` refers to item `k`. */
  function WeightOf(s: seq<I32>, weights: seq<I32>): (r: nat)
    requires |s| <= |weights|
  {
    if s == [] then 0
    else WeightOf(s[..|s| - 1], weights) + (if s[|s| - 1] == 1 then AsUsize(weights[|s| - 1]) else 0)
  }

  /** Total value of the items flagged 1 in `s`. */
  function ValueOf(s: seq<I32>, values: seq<I32>): (r: int)
    requires |s| <= |values|
  {
    if s == [] then 0
    else ValueOf(s[..|s| - 1], values) + (if s[|s| - 1] == 1 then values[|s| - 1] as int else 0)
  }

  /** When the table value changes from row `i - 1` to row `i`, item `i - 1` was taken:
      it fits, and the value is the one reached by taking it. This is why the
      subtraction `w -= weights[i - 1] as usize` of the backtrack never underflows. */
  lemma TakenItemFits(values: seq<I32>, weights: seq<I32>, i: nat, w: nat)
    requires |values| == |weights| && 0 < i <= |values|
    requires Best(values, weights, i, w) != Best(values, weights, i - 1, w)
    ensures AsUsize(weights[i - 1]) <= w
    ensures Best(values, weights, i, w)
            == Best(values, weights, i - 1, w - AsUsize(weights[i - 1])) + values[i - 1] as int
  {
  }

  /** Whether the walk takes item `i - 1` at cell `(i, w)`: the table value changes
      between rows `i - 1` and `i`. */
  predicate Takes(values: seq<I32>, weights: seq<I32>, i: nat, w: nat)
    requires |values| == |weights| && 0 < i <= |values|
  {
    Best(values, weights, i, w) != Best(values, weights, i - 1, w)
  }

  /** The capacity the walk continues with after cell `(i, w)`. */
  function Remaining(values: seq<I32>, weights: seq<I32>, i: nat, w: nat): (r: nat)
    requires |values| == |weights| && 0 < i <= |values|
  {
    if Takes(values, weights, i, w) then
      TakenItemFits(values, weights, i, w);
      w - AsUsize(weights[i - 1])
    else w
  }

  /** The backtracking walk from cell `(i, w)` down to row 0: item `i - 1` is selected
      exactly when the table value changes between rows `i - 1` and `i`, and then its
      weight is given back from the remaining capacity. */
  function Backtrack(values: seq<I32>, weights: seq<I32>, i: nat, w: nat): (s: seq<I32>)
    requires |values| == |weights| && i <= |values|
    ensures IsSelection(s, i)
  {
    if i == 0 then []
    else Backtrack(values, weights, i - 1, Remaining(values, weights, i, w)) + [if Takes(values, weights, i, w) then 1 else 0]
  }

  /** No selection of the first `i` items that fits in `w` is worth more than `Best`. */
  lemma {:induction false} BestIsUpperBound(values: seq<I32>, weights: seq<I32>, i: nat, w: nat, s: seq<I32>)
    requires |values| == |weights| && i <= |values|
    requires |s| == i && WeightOf(s, weights) <= w
    ensures ValueOf(s, values) <= Best(values, weights, i, w)
  {
    if i > 0 {
      var prefix := s[..i - 1];
      var c := AsUsize(weights[i - 1]);
      if s[i - 1] == 1 {
        assert WeightOf(s, weights) == WeightOf(prefix, weights) + c;
        BestIsUpperBound(values, weights, i - 1, w - c, prefix);
      } else {
        assert WeightOf(s, weights) == WeightOf(prefix, weights);
        BestIsUpperBound(values, weights, i - 1, w, prefix);
      }
    }
  }

  /** One step of the walk, read off a walk `full` that passes through cell `(i, w)`:
      its flag for item `i - 1` says whether the item is taken, it continues from
      `(i - 1, Remaining(i, w))`, and a taken item fits in `w` and is paid for out of it. */
  lemma BacktrackStep(values: seq<I32>, weights: seq<I32>, full: seq<I32>, i: nat, w: nat)
    requires |values| == |weights| && 0 < i <= |values|
    requires i <= |full| && full[..i] == Backtrack(values, weights, i, w)
    ensures full[i - 1] == (if Takes(values, weights, i, w) then 1 else 0)
    ensures full[..i - 1] == Backtrack(values, weights, i - 1, Remaining(values, weights, i, w))
    ensures Takes(values, weights, i, w) ==>
              AsUsize(weights[i - 1]) <= w && Remaining(values, weights, i, w) == w - AsUsize(weights[i - 1])
    ensures !Takes(values, weights, i, w) ==> Remaining(values, weights, i, w) == w
  {
  }

  /** The backtracked selection of the first `i` items fits in `w` and is worth
      exactly `Best`: so `Best` is attained, and it is the maximum. */
  lemma {:induction false} BacktrackIsOptimal(values: seq<I32>, weights: seq<I32>, i: nat, w: nat)
    requires |values| == |weights| && i <= |values|
    ensures WeightOf(Backtrack(values, weights, i, w), weights) <= w
    ensures ValueOf(Backtrack(values, weights, i, w), values) == Best(values, weights, i, w)
  {
    if i > 0 {
      var rest := Backtrack(values, weights, i - 1, Remaining(values, weights, i, w));
      BacktrackIsOptimal(values, weights, i - 1, Remaining(values, weights, i, w));
      if Takes(values, weights, i, w) {
        TakenItemFits(values, weights, i, w);
        AppendFlag(rest, 1, values, weights);
      } else {
        AppendFlag(rest, 0, values, weights);
      }
    }
  }

  /** Appending the flag of the next item to a selection adds that item's weight and
      value when the flag is 1, and nothing otherwise. */
  lemma AppendFlag(s: seq<I32>, f: I32, values: seq<I32>, weights: seq<I32>)
    requires |s| < |values| == |weights|
    ensures WeightOf(s + [f], weights) == WeightOf(s, weights) + (if f == 1 then AsUsize(weights[|s|]) else 0)
    ensures ValueOf(s + [f], values) == ValueOf(s, values) + (if f == 1 then values[|s|] as int else 0)
  {
  }

  /** The totals of a selection of the first `n` items read only the first `n` entries,
      so entries past them make no difference. */
  lemma {:induction false} PrefixTotals(s: seq<I32>, values: seq<I32>, weights: seq<I32>, n: nat)
    requires |s| <= n <= |values| && n <= |weights|
    ensures WeightOf(s, weights[..n]) == WeightOf(s, weights)
    ensures ValueOf(s, values[..n]) == ValueOf(s, values)
  {
    if s != [] {
      PrefixTotals(s[..|s| - 1], values, weights, n);
    }
  }

  /** A larger capacity never lowers the table value. */
  lemma {:induction false} BestMonotoneInCapacity(values: seq<I32>, weights: seq<I32>, i: nat, w: nat, w': nat)
    requires |values| == |weights| && i <= |values|
    requires w <= w'
    ensures Best(values, weights, i, w) <= Best(values, weights, i, w')
  {
    if i > 0 {
      var c := AsUsize(weights[i - 1]);
      BestMonotoneInCapacity(values, weights, i - 1, w, w');
      if c <= w {
        BestMonotoneInCapacity(values, weights, i - 1, w - c, w' - c);
      }
    }
  }

  /** Allowing more items never lowers the table value. */
  lemma {:induction false} BestMonotoneInItems(values: seq<I32>, weights: seq<I32>, i: nat, j: nat, w: nat)
    requires |values| == |weights| && i <= j <= |values|
    ensures Best(values, weights, i, w) <= Best(values, weights, j, w)
  {
    if i < j {
      BestMonotoneInItems(values, weights, i, j - 1, w);
    }
  }

  /** With no zero weight among the items, nothing fits in capacity 0. */
  lemma {:induction false} BestAtZeroCapacity(values: seq<I32>, weights: seq<I32>, i: nat)
    requires |values| == |weights| && i <= |values|
    requires forall k :: 0 <= k < |weights| ==> weights[k] != 0
    ensures Best(values, weights, i, 0) == 0
  {
    if i > 0 {
      BestAtZeroCapacity(values, weights, i - 1);
    }
  }

  /** Every table value lies between 0 (the empty selection) and the sum of the
      positive values of the items it may use. */
  lemma {:induction false} BestBounds(values: seq<I32>, weights: seq<I32>, i: nat, w: nat)
    requires |values| == |weights| && i <= |values|
    ensures 0 <= Best(values, weights, i, w) <= PositiveSum(values, i)
  {
    if i > 0 {
      BestBounds(values, weights, i - 1, w);
      var c := AsUsize(weights[i - 1]);
      if c <= w {
        BestBounds(values, weights, i - 1, w - c);
      }
    }
  }

  /** The candidate `dp[i - 1][w - weights[i - 1]] + values[i - 1]` that the fill
      compares with skipping item `i - 1` at cell `(i, w)`. */
  function TakeValue(values: seq<I32>, weights: seq<I32>, i: nat, w: nat): (r: int)
    requires |values| == |weights| && 0 < i <= |values| && AsUsize(weights[i - 1]) <= w
  {
    Best(values, weights, i - 1, w - AsUsize(weights[i - 1])) + values[i - 1] as int
  }

  /** No `i32` addition of the fill of a table of capacity `W` overflows. (No candidate
      can fall below `i32::MIN`, since every table value is at least 0.) */
  ghost predicate NoOverflow(values: seq<I32>, weights: seq<I32>, W: nat)
    requires |values| == |weights|
  {
    forall i, w :: 0 < i <= |values| && AsUsize(weights[i - 1]) <= w <= W ==> TakeValue(values, weights, i, w) <= I32_MAX
  }

  /** If the best value of the first `i` items at capacity `W` exceeds `i32::MAX`, some
      take candidate in column `W` already does. */
  lemma {:induction false} OverflowWitness(values: seq<I32>, weights: seq<I32>, i: nat, W: nat)
    requires |values| == |weights| && i <= |values|
    requires Best(values, weights, i, W) > I32_MAX
    ensures exists j :: 0 < j <= i && AsUsize(weights[j - 1]) <= W && TakeValue(values, weights, j, W) > I32_MAX
  {
    if Best(values, weights, i - 1, W) > I32_MAX {
      OverflowWitness(values, weights, i - 1, W);
    } else {
      assert TakeValue(values, weights, i, W) > I32_MAX;
    }
  }

  /** The fill overflows an `i32` exactly when the optimal value `dp[n][W]` does not fit
      in one: every candidate is bounded by its own cell, hence by `dp[n][W]`, and the
      first row whose column `W` exceeds the bound got there through a candidate. */
  lemma NoOverflowIffOptimumFits(values: seq<I32>, weights: seq<I32>, W: nat)
    requires |values| == |weights|
    ensures NoOverflow(values, weights, W) <==> Best(values, weights, |values|, W) <= I32_MAX
  {
    var n := |values|;
    if Best(values, weights, n, W) <= I32_MAX {
      forall i, w | 0 < i <= n && AsUsize(weights[i - 1]) <= w <= W
        ensures TakeValue(values, weights, i, w) <= I32_MAX
      {
        BestMonotoneInCapacity(values, weights, i, w, W);
        BestMonotoneInItems(values, weights, i, n, W);
      }
    } else {
      OverflowWitness(values, weights, n, W);
    }
  }
}
