/** The solver `knapsack` of src/main.rs: it fills an `(n + 1) x (W + 1)` table row by
    row with the recurrence `Best`, then walks it back from `dp[n][W]` to mark the
    selected items. The two phases are written as two methods that `Knapsack` runs in
    turn on the same table. */
module KnapsackSolver {
  import opened KnapsackSpec

  /** The table holds the recurrence: `dp[i][w] == Best(values, weights, i, w)` for every
      cell of an `(|values| + 1) x (W + 1)` table. */
  ghost predicate Filled(dp: array2<I32>, values: seq<I32>, weights: seq<I32>, W: nat)
    reads dp
    requires |values| == |weights|
  {
    dp.Length0 == |values| + 1 && dp.Length1 == W + 1 &&
    forall i, w {:trigger dp[i, w]} :: 0 <= i < dp.Length0 && 0 <= w < dp.Length1 ==> dp[i, w] as int == Best(values, weights, i, w)
  }

  /** Fill phase: a fresh table of zeros, then row `i` from row `i - 1` for `i` from 1
      to `n`, each row for `w` from 0 to `W`. */
  method FillTable(n: nat, W: nat, values: seq<I32>, weights: seq<I32>) returns (dp: array2<I32>)
    requires |values| == n && |weights| == n
    requires NoOverflow(values, weights, W)
    ensures fresh(dp)
    ensures Filled(dp, values, weights, W)
  {
    dp := new I32[n + 1, W + 1]((_, _) => 0);
    for i := 1 to n + 1
      invariant forall r, c {:trigger dp[r, c]} :: 0 <= r < i && 0 <= c <= W ==> dp[r, c] as int == Best(values, weights, r, c)
    {
      for w := 0 to W + 1
        invariant forall r, c {:trigger dp[r, c]} :: 0 <= r < i && 0 <= c <= W ==> dp[r, c] as int == Best(values, weights, r, c)
        invariant forall c {:trigger dp[i, c]} :: 0 <= c < w ==> dp[i, c] as int == Best(values, weights, i, c)
      {
        var weight := AsUsize(weights[i - 1]);
        if weight <= w {
          assert TakeValue(values, weights, i, w) <= I32_MAX;
          BestBounds(values, weights, i - 1, w - weight);
          var skip := dp[i - 1, w];
          var take := dp[i - 1, w - weight] + values[i - 1];
          dp[i, w] := if skip >= take then skip else take;
        } else {
          dp[i, w] := dp[i - 1, w];
        }
        assert dp[i, w] as int == Best(values, weights, i, w);
      }
    }
  }

  /** Backtrack phase: `i` runs from `n` down to 1 with `w` starting at `W`; item
      `i - 1` is flagged when `dp[i][w] != dp[i - 1][w]`, and its weight is then taken
      off `w`. The flags are exactly those of the walk `Backtrack`. */
  method Reconstruct(dp: array2<I32>, n: nat, W: nat, values: seq<I32>, weights: seq<I32>) returns (selected: seq<I32>)
    requires |values| == n && |weights| == n
    requires Filled(dp, values, weights, W)
    ensures selected == Backtrack(values, weights, n, W)
  {
    var chosen := new I32[n](_ => 0);
    ghost var full := Backtrack(values, weights, n, W);
    var w: nat := W;
    var i := n;
    while i > 0
      invariant 0 <= i <= n && w <= W
      invariant full[..i] == Backtrack(values, weights, i, w)
      invariant forall k :: i <= k < n ==> chosen[k] == full[k]
      invariant forall k :: 0 <= k < i ==> chosen[k] == 0
    {
      BacktrackStep(values, weights, full, i, w);
      assert dp[i, w] as int == Best(values, weights, i, w) && dp[i - 1, w] as int == Best(values, weights, i - 1, w);
      if dp[i, w] != dp[i - 1, w] {
        chosen[i - 1] := 1;
        w := w - AsUsize(weights[i - 1]);
      }
      i := i - 1;
    }
    selected := chosen[..];
  }

  /** Returns the optimal value `dp[n][W]` and the 0/1 selection vector.

      Only the first `n` entries of `values` and `weights` are read; longer vectors are
      accepted and their extra entries ignored. The value is the largest total value of
      any selection of the first `n` items whose total weight (each weight read as a
      `usize`) is at most `W`; the selection is one such selection, namely the one the
      backtracking walk `Backtrack` picks.

      The only demand on the caller besides enough entries is that the `i32` additions
      of the fill phase do not overflow, which is the case exactly when the optimal value
      fits in an `i32` (`NoOverflowIffOptimumFits`); it does, for one, when the positive
      values sum to at most `i32::MAX` (`BestBounds`). */
  method Knapsack(n: nat, W: nat, values: seq<I32>, weights: seq<I32>) returns (optimal: I32, selected: seq<I32>)
    requires n <= |values| && n <= |weights|
    requires Best(values[..n], weights[..n], n, W) <= I32_MAX
    ensures optimal as int == Best(values[..n], weights[..n], n, W)
    ensures forall s :: IsSelection(s, n) && WeightOf(s, weights) <= W ==> ValueOf(s, values) <= optimal as int
    ensures IsSelection(selected, n)
    ensures WeightOf(selected, weights) <= W && ValueOf(selected, values) == optimal as int
    ensures selected == Backtrack(values[..n], weights[..n], n, W)
  {
    var items, sizes := values[..n], weights[..n];
    NoOverflowIffOptimumFits(items, sizes, W);
    var dp := FillTable(n, W, items, sizes);
    optimal := dp[n, W];
    selected := Reconstruct(dp, n, W, items, sizes);

    BacktrackIsOptimal(items, sizes, n, W);
    PrefixTotals(selected, values, weights, n);
    forall s | IsSelection(s, n) && WeightOf(s, weights) <= W
      ensures ValueOf(s, values) <= optimal as int
    {
      PrefixTotals(s, values, weights, n);
      BestIsUpperBound(items, sizes, n, W, s);
    }
  }
}
