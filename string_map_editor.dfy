/** How the string map's editor classifies an edit of the string list: a
    change of length, or more than one changed entry, is a structural change
    (an entry added, removed or moved); a single edited entry, or none, is
    not. */
module StringMapEditor {
  import opened Common

  /** The positions at which the two lists hold different strings. */
  function DifferingIndices(oldList: seq<string>, newList: seq<string>): set<nat>
    requires |oldList| == |newList|
  {
    set i: nat | i < |oldList| && oldList[i] != newList[i]
  }

  /** The number of positions at which the two lists differ, counted from the
      front. */
  function Differences(oldList: seq<string>, newList: seq<string>): (r: nat)
    requires |oldList| == |newList|
    ensures r <= |oldList|
    ensures r == 0 <==> oldList == newList
    decreases |oldList|
  {
    if oldList == [] then 0
    else
      var n := |oldList| - 1;
      var rest := Differences(oldList[..n], newList[..n]);
      assert oldList == oldList[..n] + [oldList[n]] && newList == newList[..n] + [newList[n]];
      rest + (if oldList[n] != newList[n] then 1 else 0)
  }

  /** The count is the number of differing positions. */
  lemma {:induction false} DifferencesCountsIndices(oldList: seq<string>, newList: seq<string>)
    requires |oldList| == |newList|
    ensures Differences(oldList, newList) == |DifferingIndices(oldList, newList)|
    decreases |oldList|
  {
    if oldList != [] {
      var n := |oldList| - 1;
      var a, b := oldList[..n], newList[..n];
      DifferencesCountsIndices(a, b);
      var before := DifferingIndices(a, b);
      var after := DifferingIndices(oldList, newList);
      assert n !in before;
      if oldList[n] != newList[n] {
        assert after == before + {n};
      } else {
        assert after == before;
      }
    }
  }

  /** Counts the differing positions with a loop over the indices; lists of
      different lengths are rejected. */
  method CountDifferences(oldList: seq<string>, newList: seq<string>) returns (r: Option<nat>)
    ensures |oldList| != |newList| ==> r == None
    ensures |oldList| == |newList| ==> r == Some(Differences(oldList, newList))
  {
    if |oldList| != |newList| {
      return None;
    }
    var count := 0;
    var i := 0;
    while i < |oldList|
      invariant 0 <= i <= |oldList|
      invariant count == Differences(oldList[..i], newList[..i])
    {
      assert oldList[..i + 1][..i] == oldList[..i] && newList[..i + 1][..i] == newList[..i];
      if oldList[i] != newList[i] {
        count := count + 1;
      }
      i := i + 1;
    }
    assert oldList[..i] == oldList && newList[..i] == newList;
    return Some(count);
  }

  /** A change of length, or a change at more than one position, is
      structural. */
  function IsStructuralChange(oldList: seq<string>, newList: seq<string>): (r: bool)
    ensures |oldList| != |newList| ==> r
    ensures |oldList| == |newList| ==> (r <==> |DifferingIndices(oldList, newList)| > 1)
  {
    if |oldList| != |newList| then true
    else
      DifferencesCountsIndices(oldList, newList);
      Differences(oldList, newList) > 1
  }

  /** Editing at most the entry at `k` is not a structural change. */
  lemma SingleEditNotStructural(oldList: seq<string>, newList: seq<string>, k: nat)
    requires |oldList| == |newList|
    requires forall i :: 0 <= i < |oldList| && i != k ==> oldList[i] == newList[i]
    ensures !IsStructuralChange(oldList, newList)
  {
    var d := DifferingIndices(oldList, newList);
    assert d <= {k};
    assert d == {} || d == {k};
  }

  /** Lists of the same length that differ at two positions, as when an entry
      is moved, make a structural change. */
  lemma MoveIsStructural(oldList: seq<string>, newList: seq<string>, i: nat, j: nat)
    requires |oldList| == |newList| && i < |oldList| && j < |oldList| && i != j
    requires oldList[i] != newList[i] && oldList[j] != newList[j]
    ensures IsStructuralChange(oldList, newList)
  {
    var d := DifferingIndices(oldList, newList);
    assert d == {i, j} + (d - {i, j});
    assert |{i, j}| == 2;
  }
}
