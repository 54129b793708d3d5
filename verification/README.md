# 0/1 knapsack solver, modelled and verified in Dafny

This project models the dynamic-programming 0/1 knapsack solver `knapsack` of
`src/main.rs`, together with the small piece of its driver that turns a selection vector into
1-based item numbers. The solver takes `n` items, a `usize` capacity `W`, and `i32` vectors
of values and weights. It fills an `(n + 1) x (W + 1)` table `dp` row by row. Item `i - 1` is
taken at cell `(i, w)` when it fits and is worth more than skipping it. The solver then walks
back from `dp[n][W]`: it flags item `i - 1` whenever `dp[i][w] != dp[i - 1][w]` and takes that
item's weight off `w`. It returns `(dp[n][W], selection)`.

Files:

- `spec.dfy` (module `KnapsackSpec`). Rust's `i32` is the newtype `I32`, and the
  `weights[i] as usize` cast is `AsUsize`. `Best(values, weights, i, w)` is the table
  recurrence. `WeightOf` and `ValueOf` give the weight and value of a 0/1 selection, and
  `Backtrack` is the backtracking walk as a function. The lemmas prove that `Best` is the
  maximum over all selections that fit, that the walk reaches it, that the table is monotone,
  and when the `i32` additions overflow.
- `solver.dfy` (module `KnapsackSolver`). `FillTable` is the nested fill loop over an
  `array2<I32>`. `Reconstruct` is the reverse backtracking loop. `Knapsack` runs the two
  phases in turn, as the source's single function does.
- `report.dfy` (module `Report`). The loop of the driver that collects 1-based item numbers,
  and the driver's worked example (values 8, 10, 15, 4; weights 4, 5, 8, 3; capacity 11).

Weights are read the way the source reads them, through `as usize`. So the optimality
statement is about "total weight as `usize`". For non-negative weights that is the ordinary
total weight. A negative weight sign-extends to a number of at least 2^64 - 2^31. Such an
item can never fit in a table that can be allocated, so it is never taken.

The source's own requirements on its inputs are weaker than the usual textbook ones.
`Knapsack` asks for at least `n` entries in each vector, and it reads only the first `n`
entries, as the source does. Longer vectors are accepted, and their extra entries are
ignored (`ExampleExtraEntries`). Apart from that, the model requires only what the code
needs:

- Values may be zero or negative. `std::cmp::max` simply never prefers a take that loses
  value, and every table value stays at least 0.
- Weights may be zero or negative.
- The only real demand is that no `i32` addition at line 14 overflows. In a debug build that
  would panic; in a release build it would wrap. `NoOverflowIffOptimumFits` proves that this
  happens exactly when the optimal value `dp[n][W]` exceeds `i32::MAX`, so `Knapsack` requires
  `Best(values, weights, n, W) <= I32_MAX`. The familiar sufficient condition, "the positive
  values sum to at most `i32::MAX`", implies it (`BestBounds`).

The solver is deterministic. `Knapsack` fixes its outputs as functions of its inputs
(`Best(values, weights, n, W)` and `Backtrack(values, weights, n, W)`). So repeated calls with
the same inputs give the same value and the same selection. When several selections are
optimal, the one returned is the one `Backtrack` picks: scanning from the last item down, an
item is taken exactly when the table value changes between its two rows.

## Model

| member | source | states |
|---|---|---|
| `KnapsackSpec.AsUsize` | src/main.rs:13 | the `as usize` cast keeps a non-negative weight and sends a negative one to at least 2^64 - 2^31 |
| `KnapsackSpec.Backtrack` | src/main.rs:25-32 | the backtracking walk from cell `(i, w)` yields a selection vector: exactly one flag, 0 or 1, for each of the first `i` items |
| `KnapsackSpec.BacktrackStep` | src/main.rs:27-31 | helper lemma of `Reconstruct`: it unfolds `Backtrack` and `Remaining` once. One step of the walk at `(i, w)`: the flag of item `i-1` is 1 exactly when `dp[i][w] != dp[i-1][w]`; the walk then continues from `w` minus that item's weight, which it fits, or from `w` unchanged |
| `KnapsackSpec.TakenItemFits` | src/main.rs:28-30 | when `dp[i][w] != dp[i-1][w]`, item `i-1` fits in `w`, so the backtrack's `w -= weights[i-1] as usize` never underflows, and `dp[i][w]` is the take value |
| `KnapsackSpec.AppendFlag` | src/main.rs:29 | helper lemma of `BacktrackIsOptimal`: it unfolds `WeightOf` and `ValueOf` once. Flagging the next item adds its weight and value when the flag is 1, and nothing otherwise |
| `KnapsackSpec.BestIsUpperBound` | src/main.rs:11-19 | no selection of the first `i` items whose total weight is at most `w` is worth more than `dp[i][w]` |
| `KnapsackSpec.BacktrackIsOptimal` | src/main.rs:25-32 | the selection the walk from `(i, w)` yields has total weight at most `w` and total value exactly `dp[i][w]`; with `BestIsUpperBound`, `dp[i][w]` is therefore attained and is the maximum |
| `KnapsackSpec.BestMonotoneInCapacity` | src/main.rs:13-17 | each table row is non-decreasing in the capacity `w` |
| `KnapsackSpec.BestMonotoneInItems` | src/main.rs:13-17 | each table column is non-decreasing in the number of items `i` (adding an item never lowers the value) |
| `KnapsackSpec.BestAtZeroCapacity` | src/main.rs:13-16 | when no weight is 0, column `w = 0` is all zeros |
| `KnapsackSpec.BestBounds` | src/main.rs:14 | every table value lies between 0 and the sum of the positive values of the items it may use |
| `KnapsackSpec.OverflowWitness` | src/main.rs:14 | if `dp[i][W]` exceeds `i32::MAX`, then some take candidate `dp[j-1][W - weight] + value` in column `W` with `j <= i` already does |
| `KnapsackSpec.NoOverflowIffOptimumFits` | src/main.rs:14 | no `i32` addition of the fill overflows if and only if `dp[n][W] <= i32::MAX` |
| `KnapsackSolver.FillTable` | src/main.rs:8-19 | the fresh `(n+1) x (W+1)` table holds `Best` in every cell: row 0 is zeros, and each later cell is the skip value or the better take value from the row before; no addition overflows |
| `KnapsackSolver.Reconstruct` | src/main.rs:25-32 | the reverse loop over a filled table flags exactly the items of the walk `Backtrack(n, W)` |
| `KnapsackSpec.PrefixTotals` | src/main.rs:6-35 | the weight and value of a selection of the first `n` items depend only on the first `n` entries of the vectors |
| `KnapsackSolver.Knapsack` | src/main.rs:6-35 | it reads only the first `n` entries of vectors that have at least `n`; the returned value is `dp[n][W]`; no 0/1 selection with total weight at most `W` is worth more; the returned selection has length `n`, has entries 0 or 1, weighs at most `W`, is worth exactly the returned value, and is the backtracking walk's selection |
| `Report.OneBasedIndicesCorrect` | src/main.rs:96-101 | the list of item numbers holds `x` exactly when `1 <= x <= n` and `selected[x-1] == 1`, in strictly increasing order |
| `Report.SelectedIndices` | src/main.rs:96-101 | the loop that pushes `j + 1` for every flagged `j` yields exactly the flagged items' 1-based numbers, in increasing order |
| `Report.ExampleTable` | src/main.rs:46-49 | for the worked example, `dp[4][11] = 19`, and the cells on its backtracking path are 18, 15, 10, 0 and 0 |
| `Report.ExampleSelection` | src/main.rs:85 | the worked example's selection is `0,0,1,1` |
| `Report.ExampleIndices` | src/main.rs:85 | the item numbers of `0,0,1,1` are `3,4` |
| `Report.ExampleExtraEntries` | src/main.rs:6-35 | with `n = 1`, the vectors `3, 9` and `2, 7` and capacity 5, the second entries are ignored: value 3, selection `1` |
| `Report.ExampleRun` | src/main.rs:63 | running the solver and the index loop on the worked example gives value 19, selection `0,0,1,1` and item numbers `3,4` |

## Left out

- `generate_data` (src/main.rs:37-42) is left out. It draws values and weights from the
  `rand` crate's thread-local generator, which is nondeterministic foreign code.
- Timing with `Instant::now()` and `elapsed().as_secs_f64()` is left out. It is wall-clock
  time read as floating point.
- Console output (`println!`) and the CSV file written through `csv::Writer` are left out.
  They are I/O. This includes the rendering of the selection and of the item numbers as
  comma-joined decimal strings: `SelectedIndices` produces the numbers, not their text.
- The driver loop over the sizes 40, 300, 1000 and 10000 is left out. It only calls
  `knapsack` on generated data and collects the results.
- `n` and `W` are unbounded naturals. `usize` overflow of `W + 1` or `n + 1` and a failed
  table allocation are not modelled. The bounds checks of every `dp`, `values`, `weights`
  and `selected_items` index are proved.
- The table `Vec<Vec<i32>>` is modelled as one `array2<I32>` and `selected_items` as an
  `array<I32>`. Nothing else holds a reference to either, so the layout does not change
  any result.
- KnapsackSolver.Knapsack: requires `Best(n, W) <= i32::MAX`, so that no `i32` addition
  of the fill overflows. A debug build panics on such an overflow and a release build wraps
  around. The model covers neither; it excludes those inputs.
- KnapsackSolver.Knapsack: requires both vectors to have at least `n` entries. The source
  also runs when `values` is shorter, as long as no item past its end fits, and it panics
  otherwise. Every call in `main` passes vectors of length exactly `n`.
- The target is taken to be 64-bit: `AsUsize` sign-extends into a 64-bit `usize`.
