/** What the driver in src/main.rs makes of a solver result: the list of 1-based item
    numbers of the selected items, and the worked example it prints. */
module Report {
  import opened KnapsackSpec
  import opened KnapsackSolver

  /** The 1-based numbers of the items flagged 1 in `s`, in increasing order. */
  function OneBasedIndices(s: seq<I32>): (r: seq<nat>)
  {
    if s == [] then []
    else OneBasedIndices(s[..|s| - 1]) + (if s[|s| - 1] == 1 then [|s|] else [])
  }

  /** A number is listed exactly when it is the 1-based number of a flagged item, and
      the list is strictly increasing (so it has no repeats). */
  lemma {:induction false} OneBasedIndicesCorrect(s: seq<I32>)
    ensures forall x :: x in OneBasedIndices(s) <==> 1 <= x <= |s| && s[x - 1] == 1
    ensures forall a, b :: 0 <= a < b < |OneBasedIndices(s)| ==> OneBasedIndices(s)[a] < OneBasedIndices(s)[b]
  {
    if s != [] {
      var front := s[..|s| - 1];
      OneBasedIndicesCorrect(front);
      var r := OneBasedIndices(s);
      var rf := OneBasedIndices(front);
      assert forall x :: x in rf ==> x < |s|;
      forall a, b | 0 <= a < b < |r|
        ensures r[a] < r[b]
      {
        if b >= |rf| {
          assert r[a] == rf[a] && rf[a] in rf;
        }
      }
      forall x
        ensures x in r <==> 1 <= x <= |s| && s[x - 1] == 1
      {
        if 1 <= x < |s| {
          assert front[x - 1] == s[x - 1];
        }
      }
    }
  }

  /** The loop of the driver that pushes `j + 1` for every `j` with `selected[j] == 1`.
      The numbers are produced as numbers; their decimal rendering and the
      comma-joining are formatting. */
  method SelectedIndices(selected: seq<I32>) returns (indices: seq<nat>)
    ensures indices == OneBasedIndices(selected)
    ensures forall x :: x in indices <==> 1 <= x <= |selected| && selected[x - 1] == 1
    ensures forall a, b :: 0 <= a < b < |indices| ==> indices[a] < indices[b]
  {
    indices := [];
    for j := 0 to |selected|
      invariant indices == OneBasedIndices(selected[..j])
    {
      assert selected[..j + 1][..j] == selected[..j];
      if selected[j] == 1 {
        indices := indices + [j + 1];
      }
    }
    assert selected[..|selected|] == selected;
    OneBasedIndicesCorrect(selected);
  }

  const ExampleValues: seq<I32> := [8, 10, 15, 4]
  const ExampleWeights: seq<I32> := [4, 5, 8, 3]

  /** The table cells the worked example's backtrack passes through. */
  lemma ExampleTable()
    ensures Best(ExampleValues, ExampleWeights, 4, 11) == 19
    ensures Best(ExampleValues, ExampleWeights, 3, 11) == 18
    ensures Best(ExampleValues, ExampleWeights, 3, 8) == 15
    ensures Best(ExampleValues, ExampleWeights, 2, 8) == 10
    ensures Best(ExampleValues, ExampleWeights, 2, 0) == 0
    ensures Best(ExampleValues, ExampleWeights, 1, 0) == 0
  {
  }

  /** The selection the backtrack walks out of the worked example's table. */
  lemma ExampleSelection()
    ensures Backtrack(ExampleValues, ExampleWeights, 4, 11) == [0, 0, 1, 1]
  {
  }

  /** The worked example's item numbers. */
  lemma ExampleIndices()
    ensures OneBasedIndices([0, 0, 1, 1]) == [3, 4]
  {
    assert [0, 0, 1, 1][..3] == [0, 0, 1];
    assert [0, 0, 1][..2] == [0, 0];
    assert [0, 0][..1] == [0];
    assert OneBasedIndices([0]) == [];
    assert OneBasedIndices([0, 0]) == [];
    assert OneBasedIndices([0, 0, 1]) == [3];
  }

  /** The worked example of the driver: four items with values 8, 10, 15, 4 and weights
      4, 5, 8, 3 in a knapsack of capacity 11 give the value 19, the selection
      0,0,1,1 and the item numbers 3,4. */
  method ExampleRun() returns (optimal: I32, selected: seq<I32>, indices: seq<nat>)
    ensures optimal == 19 && selected == [0, 0, 1, 1] && indices == [3, 4]
  {
    assert ExampleValues[..4] == ExampleValues && ExampleWeights[..4] == ExampleWeights;
    ExampleTable();
    optimal, selected := Knapsack(4, 11, ExampleValues, ExampleWeights);
    ExampleSelection();
    indices := SelectedIndices(selected);
    ExampleIndices();
  }

  /** Entries past the first `n` are never read: one item out of vectors of two, in a
      knapsack of capacity 5, gives the value 3 and the selection `1`. */
  method ExampleExtraEntries() returns (optimal: I32, selected: seq<I32>)
    ensures optimal == 3 && selected == [1]
  {
    optimal, selected := Knapsack(1, 5, [3, 9], [2, 7]);
    assert [3, 9][..1] == [3] && [2, 7][..1] == [2];
  }
}
