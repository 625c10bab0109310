/** The array macros of db.h that the server's lists are kept with. */
module DbMacros {
  /** Where the entry at place k comes from when the one at from goes to the place to
      and those between close up. */
  function Source(from: nat, to: nat, k: nat): nat {
    if k == to then from else if from <= k < to then k + 1 else if to < k <= from then k - 1 else k
  }

  /** ARR_MOVE as a function. */
  function Moved<T>(s: seq<T>, from: nat, to: nat): (r: seq<T>)
    requires from < |s| && to < |s|
    ensures |r| == |s|
  {
    seq(|s|, k requires 0 <= k < |s| => s[Source(from, to, k)])
  }

  /** The others keep their order. */
  lemma OthersKeepOrder(from: nat, to: nat, i: nat, j: nat)
    requires i < j && i != to && j != to
    ensures Source(from, to, i) < Source(from, to, j)
    ensures Source(from, to, i) != from && Source(from, to, j) != from
  {
  }

  /** The memmove of the entries after from, one place to the front. */
  method CloseUp<T>(from: nat, to: nat, arr: array<T>)
    requires from < to < arr.Length
    modifies arr
    ensures forall j :: 0 <= j < arr.Length ==> arr[j] == old(arr[if from <= j < to then j + 1 else j])
  {
    for k := from to to
      invariant forall j :: 0 <= j < arr.Length ==> arr[j] == old(arr[if from <= j < k then j + 1 else j])
    {
      arr[k] := arr[k + 1];
    }
  }

  /** The memmove of the entries before from, one place to the back. */
  method MakeRoom<T>(from: nat, to: nat, arr: array<T>)
    requires to < from < arr.Length
    modifies arr
    ensures forall j :: 0 <= j < arr.Length ==> arr[j] == old(arr[if to < j <= from then j - 1 else j])
  {
    for k := from downto to
      invariant forall j :: 0 <= j < arr.Length ==> arr[j] == old(arr[if k < j <= from then j - 1 else j])
    {
      arr[k + 1] := arr[k];
    }
  }

  /** ARR_MOVE. */
  method ArrMove<T>(from: nat, to: nat, arr: array<T>)
    requires from < arr.Length && to < arr.Length
    modifies arr
    ensures arr[..] == Moved(old(arr[..]), from, to)
  {
    if from != to {
      var backup := arr[from];
      if from < to {
        CloseUp(from, to, arr);
      } else {
        MakeRoom(from, to, arr);
      }
      arr[to] := backup;
    }
    assert forall j :: 0 <= j < arr.Length ==> arr[j] == old(arr[Source(from, to, j)]);
  }
}
