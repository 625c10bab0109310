/** Saving the same list of items again, with the rows read back in any order. */
module ItemAgain {
  import opened ItemSync
  import opened ItemViews

  /** The place of the n-th of the items that are like this one, counted from 0; |items| if
      there are not so many. */
  function NthLike(items: seq<Item>, it: Item, n: nat): (p: nat)
    ensures p <= |items|
    decreases |items|
  {
    if items == [] then 0
    else
      var m := |items| - 1;
      var p := NthLike(items[..m], it, n);
      if p < m || (Matches(items[m], it) && CountLike(items[..m], it) == n) then p else |items|
  }

  lemma {:induction false} NthLikeIs(items: seq<Item>, it: Item, n: nat)
    ensures var p := NthLike(items, it, n);
      if p < |items| then Matches(items[p], it) && CountLike(items[..p], it) == n else CountLike(items, it) <= n
    decreases |items|
  {
    if items != [] {
      var m := |items| - 1;
      var p := NthLike(items[..m], it, n);
      NthLikeIs(items[..m], it, n);
      if p < m {
        assert items[..m][..p] == items[..p];
      }
    }
  }

  lemma {:induction false} CountLikeGrows(items: seq<Item>, it: Item, i: nat, j: nat)
    requires i < j <= |items| && Matches(items[i], it)
    ensures CountLike(items[..i], it) < CountLike(items[..j], it)
    decreases j
  {
    assert items[..j][..j - 1] == items[..j - 1];
    if i < j - 1 {
      CountLikeGrows(items, it, i, j - 1);
    }
  }

  lemma SameCount(items: seq<Item>, it: Item, like: Item)
    requires Matches(it, like)
    ensures CountLike(items, it) == CountLike(items, like)
    decreases |items|
  {
  }

  /** The items like a row that are used are the first ones, as many as there have been rows
      like it. */
  ghost predicate FirstUsed(items: seq<Item>, rows: seq<Item>, it: Item) {
    forall i :: 0 <= i < |items| && Matches(items[i], it) ==>
      (i in Used(Assign(items, rows)) <==> CountLike(items[..i], it) < CountLike(rows, it))
  }

  /** So the row is given the next of them. */
  lemma PickIsNth(items: seq<Item>, used: set<nat>, row: Item, n: nat)
    requires forall i :: 0 <= i < |items| && Matches(items[i], row) ==> (i in used <==> CountLike(items[..i], row) < n)
    ensures Pick(items, used, row, 0) == NthLike(items, row, n)
  {
    var p, q := Pick(items, used, row, 0), NthLike(items, row, n);
    NthLikeIs(items, row, n);
    if p < q {
      assert items[..|items|] == items;
      PickedIsInTime(items, row, n, p, q);
    }
  }

  lemma PickedIsInTime(items: seq<Item>, row: Item, n: nat, p: nat, q: nat)
    requires p < q <= |items| && Matches(items[p], row)
    requires CountLike(items[..q], row) <= n
    ensures CountLike(items[..p], row) < n
  {
    CountLikeGrows(items, row, p, q);
  }

  lemma {:induction false} UsedAreFirst(items: seq<Item>, rows: seq<Item>, it: Item)
    ensures FirstUsed(items, rows, it)
    decreases |rows|
  {
    if rows == [] {
      assert Used([]) == {};
    } else {
      var n := |rows| - 1;
      var before, row := Assign(items, rows[..n]), rows[n];
      var p := Pick(items, Used(before), row, 0);
      UsedAreFirst(items, rows[..n], it);
      UsedGrows(before, p);
      if Matches(row, it) {
        NextIsUsed(items, Used(before), row, it, CountLike(rows[..n], it), p);
      } else {
        assert forall i :: 0 <= i < |items| && Matches(items[i], it) ==> i != p;
      }
    }
  }

  lemma NextIsUsed(items: seq<Item>, used: set<nat>, row: Item, it: Item, n: nat, p: nat)
    requires Matches(row, it) && p == Pick(items, used, row, 0)
    requires forall i :: 0 <= i < |items| && Matches(items[i], it) ==> (i in used <==> CountLike(items[..i], it) < n)
    ensures forall i :: 0 <= i < |items| && Matches(items[i], it) ==>
      (i in used + {p} <==> CountLike(items[..i], it) < n + 1)
  {
    forall i | 0 <= i < |items| && Matches(items[i], row)
      ensures i in used <==> CountLike(items[..i], row) < n
    {
      SameCount(items[..i], row, it);
    }
    PickIsNth(items, used, row, n);
    NthLikeIs(items, row, n);
    forall i | 0 <= i < |items| && Matches(items[i], it)
      ensures i == p <==> CountLike(items[..i], it) == n
    {
      SameCount(items[..i], row, it);
      OnlyOneNth(items, row, n, p, i);
    }
  }

  lemma OnlyOneNth(items: seq<Item>, row: Item, n: nat, p: nat, i: nat)
    requires i < |items| && Matches(items[i], row) && p == NthLike(items, row, n)
    ensures i == p <==> CountLike(items[..i], row) == n
  {
    NthLikeIs(items, row, n);
    if i < p {
      CountLikeGrows(items, row, i, p);
      assert items[..|items|] == items;
    } else if p < i {
      CountLikeGrows(items, row, p, i);
    }
  }

  /** The greedy choice gives a row the n-th item like it, n being the number of rows like
      it before. */
  lemma {:induction false} AssignIsNth(items: seq<Item>, rows: seq<Item>, k: nat)
    requires k < |rows|
    ensures Assign(items, rows)[k] == NthLike(items, rows[k], CountLike(rows[..k], rows[k]))
  {
    AssignPicks(items, rows, k);
    UsedAreFirst(items, rows[..k], rows[k]);
    PickIsNth(items, Used(Assign(items, rows[..k])), rows[k], CountLike(rows[..k], rows[k]));
  }

  lemma {:induction false} AssignPicks(items: seq<Item>, rows: seq<Item>, k: nat)
    requires k < |rows|
    ensures Assign(items, rows)[k] == Pick(items, Used(Assign(items, rows[..k])), rows[k], 0)
  {
    AssignPrefix(items, rows, k + 1);
    assert rows[..k + 1][..k] == rows[..k];
  }

  lemma {:induction false} AssignPrefix(items: seq<Item>, rows: seq<Item>, n: nat)
    requires n <= |rows|
    ensures Assign(items, rows[..n]) == Assign(items, rows)[..n]
    decreases |rows|
  {
    if n < |rows| {
      var m := |rows| - 1;
      AssignPrefix(items, rows[..m], n);
      assert rows[..m][..n] == rows[..n];
    } else {
      assert rows[..n] == rows;
    }
  }

  // ------------------------------------------------------------------- rows in step

  /** As many rows as items of each kind that the comparison tells apart. */
  ghost predicate AsMany(rows: seq<Item>, items: seq<Item>) {
    forall it :: CountLike(rows, it) == CountLike(items, it)
  }

  lemma InStepAsMany(u: Table, owner: int, items: seq<Item>, equips: set<int>, again: seq<nat>)
    requires IsSelect(u, owner, again) && Synced(u, owner, items, equips)
    ensures AsMany(RowsOf(u, again), items)
  {
    var rows := RowsOf(u, again);
    SyncedIsViews(u, owner, items, equips, again);
    forall it ensures CountLike(rows, it) == CountLike(items, it) {
      CountLikeInAnyOrder(Views(rows, equips), Views(items, equips), it);
      CountLikeOfViews(rows, equips, it);
      CountLikeOfViews(items, equips, it);
    }
  }

  /** Then every row is given an item, and every item is used. */
  lemma AllAreGiven(rows: seq<Item>, items: seq<Item>, k: nat)
    requires AsMany(rows, items) && k < |rows|
    ensures Assign(items, rows)[k] < |items| && Matches(items[Assign(items, rows)[k]], rows[k])
  {
    AssignIsNth(items, rows, k);
    NthLikeIs(items, rows[k], CountLike(rows[..k], rows[k]));
    CountLikeGrows(rows, rows[k], k, |rows|);
    assert rows[..|rows|] == rows;
  }

  lemma AllAreUsed(rows: seq<Item>, items: seq<Item>, i: nat)
    requires AsMany(rows, items) && i < |items|
    ensures i in Assign(items, rows)
  {
    UsedAreFirst(items, rows, items[i]);
    CountLikeGrows(items, items[i], i, |items|);
    assert items[..|items|] == items;
    UsedIsGiven(Assign(items, rows), i);
  }

  lemma WrittenIffAgrees(row: Item, it: Item, equips: set<int>)
    requires Matches(it, row)
    ensures Written(row, it, equips) == row <==> Agrees(row, it, equips)
  {
  }

  /** Row k agrees with the n-th item like it, n being the number of rows like it before. */
  ghost predicate AgreesInTurn(rows: seq<Item>, items: seq<Item>, equips: set<int>, k: nat)
    requires k < |rows|
  {
    var p := NthLike(items, rows[k], CountLike(rows[..k], rows[k]));
    p < |items| && Agrees(rows[k], items[p], equips)
  }

  lemma WrittenInTurn(rows: seq<Item>, items: seq<Item>, equips: set<int>, k: nat)
    requires AsMany(rows, items) && k < |rows|
    ensures var p := Assign(items, rows)[k];
      p < |items| && (AgreesInTurn(rows, items, equips, k) <==> Written(rows[k], items[p], equips) == rows[k])
  {
    AllAreGiven(rows, items, k);
    AssignIsNth(items, rows, k);
    WrittenIffAgrees(rows[k], items[Assign(items, rows)[k]], equips);
  }

  /** What a save makes of the k-th row leaves it as it is. */
  ghost predicate RowStays(u: Table, items: seq<Item>, again: seq<nat>, b: seq<nat>, equips: set<int>, k: nat)
    requires k < |again| == |b|
  {
    && again[k] in u && b[k] < |items|
    && Written(u[again[k]].item, items[b[k]], equips) == u[again[k]].item
  }

  ghost predicate AllStay(u: Table, items: seq<Item>, again: seq<nat>, b: seq<nat>, equips: set<int>)
    requires |again| == |b|
  {
    forall k :: 0 <= k < |again| ==> RowStays(u, items, again, b, equips, k)
  }

  lemma {:induction false} StaysIff(u: Table, next: nat, owner: int, items: seq<Item>, again: seq<nat>, b: seq<nat>,
                                    equips: set<int>)
    requires |b| == |again| && Distinct(again) && (forall i :: 0 <= i < |items| ==> i in b)
    requires forall k :: 0 <= k < |again| ==> again[k] in u && b[k] < |items|
    ensures Apply(u, next, owner, items, again, b, equips) == u <==> AllStay(u, items, again, b, equips)
  {
    if AllStay(u, items, again, b, equips) {
      forall k | 0 <= k < |again| ensures Written(u[again[k]].item, items[b[k]], equips) == u[again[k]].item {
        assert RowStays(u, items, again, b, equips, k);
      }
      NothingToDo(u, next, owner, items, again, b, equips);
    }
    if Apply(u, next, owner, items, again, b, equips) == u {
      forall k | 0 <= k < |again| ensures RowStays(u, items, again, b, equips, k) {
        RowAfter(u, next, owner, items, again, b, equips, k);
      }
    }
  }

  ghost predicate AllAgree(rows: seq<Item>, items: seq<Item>, equips: set<int>) {
    forall k :: 0 <= k < |rows| ==> AgreesInTurn(rows, items, equips, k)
  }

  lemma {:induction false} AgreeIsStay(u: Table, items: seq<Item>, again: seq<nat>, equips: set<int>)
    requires (forall k :: 0 <= k < |again| ==> again[k] in u) && AsMany(RowsOf(u, again), items)
    ensures var b := Assign(items, RowsOf(u, again));
      && (AllAgree(RowsOf(u, again), items, equips) <==> AllStay(u, items, again, b, equips))
      && forall k :: 0 <= k < |again| ==> b[k] < |items|
  {
    var rows := RowsOf(u, again);
    forall k | 0 <= k < |again|
      ensures Assign(items, rows)[k] < |items|
      ensures AgreesInTurn(rows, items, equips, k) <==> RowStays(u, items, again, Assign(items, rows), equips, k)
    {
      WrittenInTurn(rows, items, equips, k);
    }
  }

  lemma {:induction false} AsManyStaysIff(u: Table, next: nat, owner: int, items: seq<Item>, again: seq<nat>,
                                          b: seq<nat>, equips: set<int>)
    requires Distinct(again) && (forall k :: 0 <= k < |again| ==> again[k] in u) && AsMany(RowsOf(u, again), items)
    requires b == Assign(items, RowsOf(u, again))
    ensures Apply(u, next, owner, items, again, b, equips) == u <==> AllAgree(RowsOf(u, again), items, equips)
  {
    AgreeIsStay(u, items, again, equips);
    forall i | 0 <= i < |items| ensures i in b {
      AllAreUsed(RowsOf(u, again), items, i);
    }
    StaysIff(u, next, owner, items, again, b, equips);
  }

  /** A save of a table that is in step changes nothing exactly when each row read agrees
      with the item whose turn it is. */
  lemma {:induction false} InStepStaysIff(u: Table, next: nat, owner: int, items: seq<Item>, again: seq<nat>,
                                          equips: set<int>)
    requires IsSelect(u, owner, again) && Synced(u, owner, items, equips)
    ensures Sync(u, next, owner, items, again, equips) == u <==> AllAgree(RowsOf(u, again), items, equips)
  {
    InStepAsMany(u, owner, items, equips, again);
    AsManyStaysIff(u, next, owner, items, again, Assign(items, RowsOf(u, again)), equips);
  }

  /** What the first pass made of a row is what is left, when nothing is inserted. */
  lemma RowAfter(u: Table, next: nat, owner: int, items: seq<Item>, again: seq<nat>, b: seq<nat>, equips: set<int>,
                 k: nat)
    requires |b| == |again| && Distinct(again) && k < |again| && again[k] in u && b[k] < |items|
    requires forall i :: 0 <= i < |items| ==> i in b
    ensures var v := Apply(u, next, owner, items, again, b, equips);
      again[k] in v && v[again[k]].item == Written(u[again[k]].item, items[b[k]], equips)
  {
    forall i | 0 <= i < |items| ensures i in Used(b) {
      UsedIsGiven(b, i);
    }
    WriteRowsAt(u, items, again, b, equips, k);
    InsertNothing(WriteRows(u, items, again, b, equips), owner, items, Used(b), next, |items|);
  }

  /** Saving the same list again changes nothing exactly when each row read back agrees with
      the item whose turn it is: the n-th like it, when n rows like it came before. */
  lemma SecondSaveIff(t: Table, next: nat, owner: int, items: seq<Item>, ids: seq<nat>, equips: set<int>,
                      next': nat, again: seq<nat>)
    requires IsSelect(t, owner, ids) && NextIsFree(t, next)
    requires IsSelect(Sync(t, next, owner, items, ids, equips), owner, again)
    ensures var u := Sync(t, next, owner, items, ids, equips);
      Sync(u, next', owner, items, again, equips) == u <==> AllAgree(RowsOf(u, again), items, equips)
  {
    SyncMakesSynced(t, next, owner, items, ids, equips);
    InStepStaysIff(Sync(t, next, owner, items, ids, equips), next', owner, items, again, equips);
  }
}
