/** memitemdata_to_sql: making the rows of one owner equal a list of items by a greedy
    comparison of the rows that are there with the items that should be. */
module ItemSync {
  /** The persisted fields of an item. */
  datatype Item = Item(nameid: int, amount: int, equip: int, identify: int, refine: int, attribute: int,
                       card0: int, card1: int, card2: int, card3: int, expire: nat)

  datatype Row = Row(owner: int, item: Item)

  type Table = map<nat, Row>

  /** "They are the same item": card 1 is not compared. */
  predicate Matches(it: Item, row: Item) {
    it.nameid == row.nameid && it.card0 == row.card0 && it.card2 == row.card2 && it.card3 == row.card3
  }

  /** What a matched row holds afterwards; equips are the item ids of equipment. */
  function Written(row: Item, it: Item, equips: set<int>): Item {
    if it == row then row
    else if it.nameid !in equips then row.(equip := it.equip, identify := it.identify, amount := it.amount)
    else it.(nameid := row.nameid)
  }

  /** The first item from index i on that is not yet used and matches; |items| if none. */
  function Pick(items: seq<Item>, used: set<nat>, row: Item, i: nat): (p: nat)
    requires i <= |items|
    ensures i <= p <= |items|
    ensures p < |items| ==> p !in used && Matches(items[p], row)
    ensures forall j :: i <= j < p ==> j in used || !Matches(items[j], row)
    decreases |items| - i
  {
    if i == |items| || (i !in used && Matches(items[i], row)) then i else Pick(items, used, row, i + 1)
  }

  function Used(a: seq<nat>): set<nat> { set k | 0 <= k < |a| :: a[k] }

  /** Which item each row is given, row after row; |items| for a row given none. */
  function Assign(items: seq<Item>, rows: seq<Item>): (a: seq<nat>)
    ensures |a| == |rows|
    decreases |rows|
  {
    if rows == [] then []
    else
      var before := Assign(items, rows[..|rows| - 1]);
      before + [Pick(items, Used(before), rows[|rows| - 1], 0)]
  }

  lemma UsedGrows(a: seq<nat>, p: nat)
    ensures Used(a + [p]) == Used(a) + {p}
  {
    assert (a + [p])[|a|] == p;
    assert forall k :: 0 <= k < |a| ==> (a + [p])[k] == a[k];
  }

  lemma UsedIsGiven(a: seq<nat>, i: nat)
    ensures i in Used(a) <==> i in a
  {
  }

  ghost predicate Distinct(ids: seq<nat>) { forall k, l :: 0 <= k < l < |ids| ==> ids[k] != ids[l] }

  /** A matching: each row is given a like item, and no item is given twice. */
  ghost predicate IsMatching(items: seq<Item>, rows: seq<Item>, a: seq<nat>) {
    && |a| == |rows|
    && (forall k :: 0 <= k < |a| ==> a[k] == |items| || (a[k] < |items| && Matches(items[a[k]], rows[k])))
    && (forall k, l :: 0 <= k < l < |a| && a[k] < |items| ==> a[k] != a[l])
  }

  lemma MatchingGrows(items: seq<Item>, rows: seq<Item>, a: seq<nat>, row: Item)
    requires IsMatching(items, rows, a)
    ensures IsMatching(items, rows + [row], a + [Pick(items, Used(a), row, 0)])
  {
    forall k | 0 <= k < |a| ensures a[k] in Used(a) {}
  }

  lemma {:induction false} AssignIsMatching(items: seq<Item>, rows: seq<Item>)
    ensures IsMatching(items, rows, Assign(items, rows))
    decreases |rows|
  {
    if rows != [] {
      var n := |rows| - 1;
      var before := Assign(items, rows[..n]);
      AssignIsMatching(items, rows[..n]);
      MatchingGrows(items, rows[..n], before, rows[n]);
      assert rows == rows[..n] + [rows[n]];
    }
  }

  /** The greedy matching is maximal: a row left without an item and an item left
      without a row are never the same item. */
  lemma {:induction false} AssignIsMaximal(items: seq<Item>, rows: seq<Item>, k: nat, i: nat)
    requires k < |rows| && Assign(items, rows)[k] == |items|
    requires i < |items| && i !in Used(Assign(items, rows))
    ensures !Matches(items[i], rows[k])
    decreases |rows|
  {
    var n := |rows| - 1;
    var before := Assign(items, rows[..n]);
    UsedGrows(before, Pick(items, Used(before), rows[n], 0));
    if k < n {
      AssignIsMaximal(items, rows[..n], k, i);
    }
  }

  // ---------------------------------------------------------------- the two passes

  /** ids are the owner's rows in the order of the SELECT. */
  ghost predicate IsSelect(t: Table, owner: int, ids: seq<nat>) {
    Distinct(ids) && forall id :: id in ids <==> id in t && t[id].owner == owner
  }

  function RowsOf(t: Table, ids: seq<nat>): (rs: seq<Item>)
    requires forall k :: 0 <= k < |ids| ==> ids[k] in t
    ensures |rs| == |ids| && forall k :: 0 <= k < |ids| ==> rs[k] == t[ids[k]].item
  {
    seq(|ids|, k requires 0 <= k < |ids| => t[ids[k]].item)
  }

  /** One row: updated if it was given an item, deleted if not. */
  function WriteRow(t: Table, items: seq<Item>, id: nat, p: nat, equips: set<int>): Table {
    if p >= |items| then t - {id}
    else if id in t then t[id := t[id].(item := Written(t[id].item, items[p], equips))]
    else t
  }

  function WriteRows(t: Table, items: seq<Item>, ids: seq<nat>, a: seq<nat>, equips: set<int>): Table
    requires |a| == |ids|
    decreases |ids|
  {
    if ids == [] then t
    else
      var n := |ids| - 1;
      WriteRow(WriteRows(t, items, ids[..n], a[..n], equips), items, ids[n], a[n], equips)
  }

  /** How many of the first k items were not used. */
  function Rank(used: set<nat>, k: nat): (r: nat)
    ensures r <= k
  {
    if k == 0 then 0 else Rank(used, k - 1) + if k - 1 in used then 0 else 1
  }

  /** Inserting the unused ones among the first k items; ids count up from next. */
  function Insert(t: Table, owner: int, items: seq<Item>, used: set<nat>, next: nat, k: nat): Table
    requires k <= |items|
  {
    if k == 0 then t
    else
      var u := Insert(t, owner, items, used, next, k - 1);
      if k - 1 in used then u else u[next + Rank(used, k - 1) := Row(owner, items[k - 1])]
  }

  /** Both passes, for any choice of items for the rows. */
  function Apply(t: Table, next: nat, owner: int, items: seq<Item>, ids: seq<nat>, a: seq<nat>,
                 equips: set<int>): Table
    requires |a| == |ids|
  {
    Insert(WriteRows(t, items, ids, a, equips), owner, items, Used(a), next, |items|)
  }

  /** The whole synchronisation, every query succeeding. */
  function Sync(t: Table, next: nat, owner: int, items: seq<Item>, ids: seq<nat>, equips: set<int>): Table
    requires forall k :: 0 <= k < |ids| ==> ids[k] in t
  {
    Apply(t, next, owner, items, ids, Assign(items, RowsOf(t, ids)), equips)
  }

  /** Ids are handed out in increasing order. */
  ghost predicate NextIsFree(t: Table, next: nat) { forall id :: id in t ==> id < next }

  lemma {:induction false} WriteRowsElsewhere(t: Table, items: seq<Item>, ids: seq<nat>, a: seq<nat>,
                                              equips: set<int>, id: nat)
    requires |a| == |ids| && id !in ids
    ensures var u := WriteRows(t, items, ids, a, equips); (id in u <==> id in t) && (id in t ==> u[id] == t[id])
    decreases |ids|
  {
    if ids != [] {
      WriteRowsElsewhere(t, items, ids[..|ids| - 1], a[..|ids| - 1], equips, id);
    }
  }

  lemma {:induction false} WriteRowsAt(t: Table, items: seq<Item>, ids: seq<nat>, a: seq<nat>, equips: set<int>,
                                       k: nat)
    requires |a| == |ids| && Distinct(ids) && k < |ids| && ids[k] in t
    ensures var u := WriteRows(t, items, ids, a, equips);
      if a[k] >= |items| then ids[k] !in u
      else ids[k] in u && u[ids[k]] == t[ids[k]].(item := Written(t[ids[k]].item, items[a[k]], equips))
    decreases |ids|
  {
    var n := |ids| - 1;
    if k < n {
      WriteRowsAt(t, items, ids[..n], a[..n], equips, k);
    } else {
      WriteRowsElsewhere(t, items, ids[..n], a[..n], equips, ids[n]);
    }
  }

  lemma {:induction false} RankGrows(used: set<nat>, i: nat, k: nat)
    requires i < k && i !in used
    ensures Rank(used, i) < Rank(used, k)
    decreases k
  {
    if i < k - 1 {
      RankGrows(used, i, k - 1);
    }
  }

  lemma {:induction false} InsertKeepsOld(t: Table, owner: int, items: seq<Item>, used: set<nat>, next: nat, k: nat,
                                          id: nat)
    requires k <= |items| && id < next
    ensures var u := Insert(t, owner, items, used, next, k); (id in u <==> id in t) && (id in t ==> u[id] == t[id])
  {
    if k > 0 {
      InsertKeepsOld(t, owner, items, used, next, k - 1, id);
    }
  }

  lemma {:induction false} InsertAt(t: Table, owner: int, items: seq<Item>, used: set<nat>, next: nat, k: nat, i: nat)
    requires i < k <= |items| && i !in used
    ensures var u := Insert(t, owner, items, used, next, k);
      next + Rank(used, i) in u && u[next + Rank(used, i)] == Row(owner, items[i])
  {
    if i < k - 1 {
      InsertAt(t, owner, items, used, next, k - 1, i);
      RankGrows(used, i, k - 1);
    }
  }

  lemma {:induction false} InsertedBy(t: Table, owner: int, items: seq<Item>, used: set<nat>, next: nat, k: nat,
                                      id: nat)
      returns (i: nat)
    requires k <= |items| && id in Insert(t, owner, items, used, next, k) && id !in t
    ensures i < k && i !in used && id == next + Rank(used, i)
  {
    if k - 1 !in used && id == next + Rank(used, k - 1) {
      i := k - 1;
    } else {
      i := InsertedBy(t, owner, items, used, next, k - 1, id);
    }
  }

  /** Ids are handed out one after the other: as many are gone as items were inserted, and the
      next one is free. */
  lemma {:induction false} NextAfterInsert(t: Table, owner: int, items: seq<Item>, used: set<nat>, next: nat, k: nat)
    requires k <= |items| && NextIsFree(t, next)
    ensures NextIsFree(Insert(t, owner, items, used, next, k), next + Rank(used, k))
  {
    if k > 0 {
      NextAfterInsert(t, owner, items, used, next, k - 1);
    }
  }

  function Inserted(used: set<nat>, k: nat): set<nat> { set i: nat | i < k && i !in used }

  lemma {:induction false} RankCounts(used: set<nat>, k: nat)
    ensures Rank(used, k) == |Inserted(used, k)|
  {
    if k == 0 {
      assert Inserted(used, 0) == {};
    } else {
      RankCounts(used, k - 1);
      assert Inserted(used, k) == Inserted(used, k - 1) + if k - 1 in used then {} else {k - 1};
    }
  }

  // ------------------------------------------------------------------ what it means

  /** A row agrees with an item: on everything for equipment, and on the fields the
      quick update and the match cover for the rest. */
  predicate Agrees(row: Item, it: Item, equips: set<int>) {
    && Matches(it, row)
    && row.amount == it.amount && row.equip == it.equip && row.identify == it.identify
    && (it.nameid in equips ==> row == it)
  }

  /** home[i] is the row of item i: a bijection onto the owner's rows. */
  ghost predicate SyncedBy(t: Table, owner: int, items: seq<Item>, equips: set<int>, home: seq<nat>) {
    && |home| == |items|
    && IsSelect(t, owner, home)
    && (forall i :: 0 <= i < |home| ==> home[i] in t && Agrees(t[home[i]].item, items[i], equips))
  }

  ghost predicate Synced(t: Table, owner: int, items: seq<Item>, equips: set<int>) {
    exists home :: SyncedBy(t, owner, items, equips, home)
  }

  function SlotOf(a: seq<nat>, i: nat): (k: nat)
    requires i in a
    ensures k < |a| && a[k] == i
  {
    if a[0] == i then 0 else 1 + SlotOf(a[1..], i)
  }

  /** The row an item ends up in. */
  function Home(ids: seq<nat>, a: seq<nat>, next: nat, i: nat): nat
    requires |ids| == |a|
  {
    if i in a then ids[SlotOf(a, i)] else next + Rank(Used(a), i)
  }

  function Homes(ids: seq<nat>, a: seq<nat>, next: nat, n: nat): (h: seq<nat>)
    requires |ids| == |a|
    ensures |h| == n && forall i :: 0 <= i < n ==> h[i] == Home(ids, a, next, i)
  {
    seq(n, i requires 0 <= i < n => Home(ids, a, next, i))
  }

  /** The setting of the pointwise facts below. */
  ghost predicate Setting(t: Table, next: nat, owner: int, items: seq<Item>, ids: seq<nat>, a: seq<nat>) {
    IsSelect(t, owner, ids) && NextIsFree(t, next) && IsMatching(items, RowsOf(t, ids), a)
  }

  /** Other owners' rows are untouched. */
  lemma OthersStay(t: Table, next: nat, owner: int, items: seq<Item>, ids: seq<nat>, a: seq<nat>, equips: set<int>,
                   id: nat)
    requires Setting(t, next, owner, items, ids, a) && id in t && t[id].owner != owner
    ensures var u := Apply(t, next, owner, items, ids, a, equips); id in u && u[id] == t[id]
  {
    WriteRowsElsewhere(t, items, ids, a, equips, id);
    InsertKeepsOld(WriteRows(t, items, ids, a, equips), owner, items, Used(a), next, |items|, id);
  }

  /** A row given an item keeps its id; a row given none is gone. */
  lemma RowAt(t: Table, next: nat, owner: int, items: seq<Item>, ids: seq<nat>, a: seq<nat>, equips: set<int>, k: nat)
    requires Setting(t, next, owner, items, ids, a) && k < |ids|
    ensures var u := Apply(t, next, owner, items, ids, a, equips);
      if a[k] == |items| then ids[k] !in u
      else ids[k] in u && u[ids[k]] == Row(owner, Written(t[ids[k]].item, items[a[k]], equips))
  {
    assert ids[k] in ids;
    WriteRowsAt(t, items, ids, a, equips, k);
    InsertKeepsOld(WriteRows(t, items, ids, a, equips), owner, items, Used(a), next, |items|, ids[k]);
  }

  /** An item no row was given to has a new row, equal to it in every field. */
  lemma NewRowAt(t: Table, next: nat, owner: int, items: seq<Item>, ids: seq<nat>, a: seq<nat>, equips: set<int>,
                 i: nat)
    requires |a| == |ids| && i < |items| && i !in a
    ensures var u := Apply(t, next, owner, items, ids, a, equips); var id := next + Rank(Used(a), i);
      id in u && u[id] == Row(owner, items[i])
  {
    InsertAt(WriteRows(t, items, ids, a, equips), owner, items, Used(a), next, |items|, i);
  }

  /** Every row of the owner is the home of an item. */
  lemma RowHasItem(t: Table, next: nat, owner: int, items: seq<Item>, ids: seq<nat>, a: seq<nat>, equips: set<int>,
                   id: nat)
      returns (i: nat)
    requires Setting(t, next, owner, items, ids, a)
    requires var u := Apply(t, next, owner, items, ids, a, equips); id in u && u[id].owner == owner
    ensures i < |items| && Home(ids, a, next, i) == id
  {
    if id in t {
      if t[id].owner != owner {
        OthersStay(t, next, owner, items, ids, a, equips, id);
        assert false;
      } else {
        var k := SlotOf(ids, id);
        RowAt(t, next, owner, items, ids, a, equips, k);
        i := a[k];
        assert SlotOf(a, i) == k;
      }
    } else {
      WriteRowsElsewhere(t, items, ids, a, equips, id);
      i := InsertedBy(WriteRows(t, items, ids, a, equips), owner, items, Used(a), next, |items|, id);
      assert i !in a;
    }
  }

  lemma HomeHolds(t: Table, next: nat, owner: int, items: seq<Item>, ids: seq<nat>, a: seq<nat>, equips: set<int>,
                  i: nat)
    requires Setting(t, next, owner, items, ids, a) && i < |items|
    ensures var u := Apply(t, next, owner, items, ids, a, equips); var h := Home(ids, a, next, i);
      h in u && u[h].owner == owner && Agrees(u[h].item, items[i], equips)
  {
    if i in a {
      RowAt(t, next, owner, items, ids, a, equips, SlotOf(a, i));
    } else {
      NewRowAt(t, next, owner, items, ids, a, equips, i);
    }
  }

  lemma HomesAreDistinct(t: Table, next: nat, owner: int, items: seq<Item>, ids: seq<nat>, a: seq<nat>, i: nat,
                         j: nat)
    requires Setting(t, next, owner, items, ids, a) && i < j < |items|
    ensures Home(ids, a, next, i) != Home(ids, a, next, j)
  {
    if i in a {
      assert ids[SlotOf(a, i)] in ids;
    } else {
      RankGrows(Used(a), i, j);
    }
    if j in a {
      assert ids[SlotOf(a, j)] in ids;
    }
  }

  /** Whatever matching is chosen, the owner's rows end up in bijection with the items. */
  lemma MatchingSyncs(t: Table, next: nat, owner: int, items: seq<Item>, ids: seq<nat>, a: seq<nat>, equips: set<int>)
    requires Setting(t, next, owner, items, ids, a)
    ensures SyncedBy(Apply(t, next, owner, items, ids, a, equips), owner, items, equips, Homes(ids, a, next, |items|))
  {
    var u := Apply(t, next, owner, items, ids, a, equips);
    var home := Homes(ids, a, next, |items|);
    forall i, j | 0 <= i < j < |home| ensures home[i] != home[j] {
      HomesAreDistinct(t, next, owner, items, ids, a, i, j);
    }
    forall i | 0 <= i < |home|
      ensures home[i] in u && u[home[i]].owner == owner && Agrees(u[home[i]].item, items[i], equips)
    {
      HomeHolds(t, next, owner, items, ids, a, equips, i);
    }
    forall id | id in u && u[id].owner == owner ensures id in home {
      var i := RowHasItem(t, next, owner, items, ids, a, equips, id);
      assert home[i] == id;
    }
  }

  /** After a save the owner's rows are in bijection with the items, and every other
      row is as it was. */
  lemma SyncMakesSynced(t: Table, next: nat, owner: int, items: seq<Item>, ids: seq<nat>, equips: set<int>)
    requires IsSelect(t, owner, ids) && NextIsFree(t, next)
    ensures Synced(Sync(t, next, owner, items, ids, equips), owner, items, equips)
    ensures forall id :: id in t && t[id].owner != owner ==>
      id in Sync(t, next, owner, items, ids, equips) && Sync(t, next, owner, items, ids, equips)[id] == t[id]
  {
    var a := Assign(items, RowsOf(t, ids));
    AssignIsMatching(items, RowsOf(t, ids));
    MatchingSyncs(t, next, owner, items, ids, a, equips);
    forall id | id in t && t[id].owner != owner
      ensures id in Sync(t, next, owner, items, ids, equips) && Sync(t, next, owner, items, ids, equips)[id] == t[id]
    {
      OthersStay(t, next, owner, items, ids, a, equips, id);
    }
  }

  /** The fields the quick update of stackables leaves alone and the match ignores. */
  predicate SameRest(row: Item, it: Item) {
    row.refine == it.refine && row.attribute == it.attribute && row.card1 == it.card1 && row.expire == it.expire
  }

  lemma WrittenIsExact(row: Item, it: Item, equips: set<int>)
    requires Matches(it, row)
    ensures Written(row, it, equips) == it <==> it.nameid in equips || SameRest(row, it)
  {
    if it.nameid in equips {
      assert it.(nameid := row.nameid) == it;
    } else if it != row {
      var w := row.(equip := it.equip, identify := it.identify, amount := it.amount);
      assert SameRest(row, it) <==> SameRest(w, it);
    }
  }

  /** A matched row ends up equal to its item in every field iff the item is equipment
      or the row already had the fields that are not synchronised. */
  lemma ExactlyWhenRestAgrees(t: Table, next: nat, owner: int, items: seq<Item>, ids: seq<nat>, a: seq<nat>,
                              equips: set<int>, k: nat)
    requires Setting(t, next, owner, items, ids, a) && k < |ids| && a[k] < |items|
    ensures ids[k] in Apply(t, next, owner, items, ids, a, equips)
    ensures Apply(t, next, owner, items, ids, a, equips)[ids[k]].item == items[a[k]]
      <==> items[a[k]].nameid in equips || SameRest(t[ids[k]].item, items[a[k]])
  {
    assert Matches(items[a[k]], RowsOf(t, ids)[k]);
    WrittenIsExact(t[ids[k]].item, items[a[k]], equips);
    RowAt(t, next, owner, items, ids, a, equips, k);
  }

  /** A stack whose expiry changed keeps the old expiry in the table. */
  lemma ExpiryIsLost(it: Item, was: nat)
    requires was != it.expire
    ensures var t: Table := map[1 := Row(7, it.(expire := was))];
      Sync(t, 2, 7, [it], [1], {}) == t
  {
    var t: Table := map[1 := Row(7, it.(expire := was))];
    var rows := RowsOf(t, [1]);
    assert rows[..0] == [];
    assert Assign([it], rows) == [0];
    assert IsSelect(t, 7, [1]);
    AssignIsMatching([it], rows);
    assert [0][0] in Used([0]);
    InsertNothing(WriteRows(t, [it], [1], [0], {}), 7, [it], Used([0]), 2, 1);
    WriteRowsNothing(t, [it], [1], [0], {});
  }

  // ------------------------------------------------------------- saving once more

  /** The order in which the rows were visited at the first save, new rows last. */
  function Order(ids: seq<nat>, next: nat, id: nat): int {
    if id in ids then SlotOf(ids, id) else |ids| + id - next
  }

  /** Among rows that are the same to the comparison, the second SELECT keeps that order. */
  ghost predicate SameOrder(u: Table, ids: seq<nat>, next: nat, again: seq<nat>) {
    forall k, l :: 0 <= k < l < |again| && again[k] in u && again[l] in u && Matches(u[again[k]].item, u[again[l]].item)
      ==> Order(ids, next, again[k]) < Order(ids, next, again[l])
  }

  /** An item passed over for a row had been given to an earlier row. */
  lemma {:induction false} PassedOverWasUsed(items: seq<Item>, rows: seq<Item>, k: nat, i: nat)
    requires k < |rows| && i < |items| && i < Assign(items, rows)[k] && Matches(items[i], rows[k])
    ensures i in Assign(items, rows)[..k]
    decreases |rows|
  {
    var n := |rows| - 1;
    var before := Assign(items, rows[..n]);
    assert Assign(items, rows)[..n] == before;
    if k < n {
      PassedOverWasUsed(items, rows[..n], k, i);
      assert Assign(items, rows)[..k] == before[..k];
    }
  }

  /** Among items that are the same to the comparison, earlier ones get earlier rows. */
  lemma HomesAscend(t: Table, next: nat, owner: int, items: seq<Item>, ids: seq<nat>, i: nat, j: nat)
    requires IsSelect(t, owner, ids) && NextIsFree(t, next)
    requires i < j < |items| && Matches(items[i], items[j])
    ensures var a := Assign(items, RowsOf(t, ids));
      Order(ids, next, Home(ids, a, next, i)) < Order(ids, next, Home(ids, a, next, j))
  {
    var a := Assign(items, RowsOf(t, ids));
    AssignIsMatching(items, RowsOf(t, ids));
    HomeOrder(t, next, ids, a, i);
    HomeOrder(t, next, ids, a, j);
    if j in a {
      var l := SlotOf(a, j);
      assert Matches(items[i], RowsOf(t, ids)[l]);
      UsedInOrder(items, RowsOf(t, ids), l, i);
    } else if i !in a {
      RankGrows(Used(a), i, j);
    }
  }

  /** The place of an item's row in that order. */
  lemma HomeOrder(t: Table, next: nat, ids: seq<nat>, a: seq<nat>, i: nat)
    requires NextIsFree(t, next) && |a| == |ids| && Distinct(ids)
    requires forall k :: 0 <= k < |ids| ==> ids[k] in t
    ensures Order(ids, next, Home(ids, a, next, i)) == if i in a then SlotOf(a, i) else |ids| + Rank(Used(a), i)
  {
    if i in a {
      assert SlotOf(ids, ids[SlotOf(a, i)]) == SlotOf(a, i);
    }
  }

  lemma UsedInOrder(items: seq<Item>, rows: seq<Item>, l: nat, i: nat)
    requires l < |rows| && Assign(items, rows)[l] < |items| && i < Assign(items, rows)[l]
    requires Matches(items[i], rows[l])
    ensures i in Assign(items, rows) && SlotOf(Assign(items, rows), i) < l
  {
    var a := Assign(items, rows);
    AssignIsMatching(items, rows);
    PassedOverWasUsed(items, rows, l, i);
    var k := SlotOf(a[..l], i);
    assert a[k] == i && SlotOf(a, i) == k;
  }

  /** The greedy choice is the only one that never passes over a like item for later. */
  lemma {:induction false} GreedyIsUnique(items: seq<Item>, rows: seq<Item>, b: seq<nat>)
    requires IsMatching(items, rows, b) && forall k :: 0 <= k < |b| ==> b[k] < |items|
    requires forall k, i :: 0 <= k < |b| && 0 <= i < b[k] && Matches(items[i], rows[k]) ==> i in b[..k]
    ensures Assign(items, rows) == b
    decreases |rows|
  {
    if rows != [] {
      var n := |rows| - 1;
      forall k | 0 <= k < n ensures b[..n][..k] == b[..k] {}
      GreedyIsUnique(items, rows[..n], b[..n]);
      var p := Pick(items, Used(b[..n]), rows[n], 0);
      assert b[n] !in Used(b[..n]);
      assert p == b[n];
      assert b == b[..n] + [b[n]];
    }
  }

  lemma {:induction false} WriteRowsNothing(t: Table, items: seq<Item>, ids: seq<nat>, a: seq<nat>, equips: set<int>)
    requires |a| == |ids|
    requires forall k :: 0 <= k < |ids| ==>
      ids[k] in t && a[k] < |items| && Written(t[ids[k]].item, items[a[k]], equips) == t[ids[k]].item
    ensures WriteRows(t, items, ids, a, equips) == t
    decreases |ids|
  {
    if ids != [] {
      WriteRowsNothing(t, items, ids[..|ids| - 1], a[..|ids| - 1], equips);
    }
  }

  lemma {:induction false} InsertNothing(t: Table, owner: int, items: seq<Item>, used: set<nat>, next: nat, k: nat)
    requires k <= |items| && forall i :: 0 <= i < k ==> i in used
    ensures Insert(t, owner, items, used, next, k) == t
  {
    if k > 0 {
      InsertNothing(t, owner, items, used, next, k - 1);
    }
  }

  lemma WrittenOnce(row: Item, it: Item, equips: set<int>)
    requires Agrees(row, it, equips)
    ensures Written(row, it, equips) == row
  {
  }

  lemma NothingToDo(u: Table, next: nat, owner: int, items: seq<Item>, ids: seq<nat>, b: seq<nat>, equips: set<int>)
    requires |b| == |ids| && forall i :: 0 <= i < |items| ==> i in b
    requires forall k :: 0 <= k < |ids| ==>
      ids[k] in u && b[k] < |items| && Written(u[ids[k]].item, items[b[k]], equips) == u[ids[k]].item
    ensures Apply(u, next, owner, items, ids, b, equips) == u
  {
    WriteRowsNothing(u, items, ids, b, equips);
    forall i | 0 <= i < |items| ensures i in Used(b) {
      assert b[SlotOf(b, i)] == i;
    }
    InsertNothing(u, owner, items, Used(b), next, |items|);
  }

  /** Of two rows the one that was visited earlier is visited earlier again. */
  lemma BackOne(u: Table, ids: seq<nat>, next: nat, home: seq<nat>, again: seq<nat>, b: seq<nat>, k: nat, i: nat)
    requires Distinct(home) && SameOrder(u, ids, next, again) && |b| == |again|
    requires forall l :: 0 <= l < |b| ==> b[l] < |home| && home[b[l]] == again[l]
    requires k < |again| && i < |home| && home[i] in again
    requires again[k] in u && home[i] in u && Matches(u[again[k]].item, u[home[i]].item)
    requires Order(ids, next, home[i]) < Order(ids, next, again[k])
    ensures i in b[..k]
  {
    var l := SlotOf(again, home[i]);
    assert b[l] == i;
    assert l < k;
    assert b[..k][l] == i;
  }

  /** again is the owner's rows after a save, and b the items they are homes of. */
  ghost predicate Back(t: Table, next: nat, owner: int, items: seq<Item>, ids: seq<nat>, equips: set<int>,
                       again: seq<nat>, b: seq<nat>) {
    && IsSelect(t, owner, ids) && NextIsFree(t, next)
    && IsSelect(Sync(t, next, owner, items, ids, equips), owner, again)
    && SameOrder(Sync(t, next, owner, items, ids, equips), ids, next, again)
    && |b| == |again|
    && forall k :: 0 <= k < |again| ==>
         b[k] < |items| && Home(ids, Assign(items, RowsOf(t, ids)), next, b[k]) == again[k]
  }

  lemma BackMatches(t: Table, next: nat, owner: int, items: seq<Item>, ids: seq<nat>, equips: set<int>,
                    again: seq<nat>, b: seq<nat>, k: nat)
    requires Back(t, next, owner, items, ids, equips, again, b) && k < |b|
    ensures Agrees(Sync(t, next, owner, items, ids, equips)[again[k]].item, items[b[k]], equips)
  {
    AssignIsMatching(items, RowsOf(t, ids));
    HomeHolds(t, next, owner, items, ids, Assign(items, RowsOf(t, ids)), equips, b[k]);
  }

  lemma BackEarlier(t: Table, next: nat, owner: int, items: seq<Item>, ids: seq<nat>, equips: set<int>,
                    again: seq<nat>, b: seq<nat>, k: nat, i: nat)
    requires Back(t, next, owner, items, ids, equips, again, b) && k < |b| && i < b[k]
    requires Matches(items[i], items[b[k]])
    ensures i in b[..k]
  {
    var u := Sync(t, next, owner, items, ids, equips);
    var a := Assign(items, RowsOf(t, ids));
    var home := Homes(ids, a, next, |items|);
    AssignIsMatching(items, RowsOf(t, ids));
    MatchingSyncs(t, next, owner, items, ids, a, equips);
    HomesAscend(t, next, owner, items, ids, i, b[k]);
    assert home[i] in home && home[b[k]] == again[k];
    HomeHolds(t, next, owner, items, ids, a, equips, i);
    HomeHolds(t, next, owner, items, ids, a, equips, b[k]);
    BackOne(u, ids, next, home, again, b, k, i);
  }

  lemma BackIsGreedy(t: Table, next: nat, owner: int, items: seq<Item>, ids: seq<nat>, equips: set<int>,
                     again: seq<nat>, b: seq<nat>)
    requires Back(t, next, owner, items, ids, equips, again, b)
    ensures var rows := RowsOf(Sync(t, next, owner, items, ids, equips), again);
      && IsMatching(items, rows, b)
      && forall k, i :: 0 <= k < |b| && 0 <= i < b[k] && Matches(items[i], rows[k]) ==> i in b[..k]
  {
    forall k | 0 <= k < |b| ensures Matches(items[b[k]], Sync(t, next, owner, items, ids, equips)[again[k]].item) {
      BackMatches(t, next, owner, items, ids, equips, again, b, k);
    }
    var rows := RowsOf(Sync(t, next, owner, items, ids, equips), again);
    forall k, i | 0 <= k < |b| && 0 <= i < b[k] && Matches(items[i], rows[k]) ensures i in b[..k] {
      BackEarlier(t, next, owner, items, ids, equips, again, b, k, i);
    }
  }

  lemma BackItems(t: Table, next: nat, owner: int, items: seq<Item>, ids: seq<nat>, equips: set<int>, again: seq<nat>)
      returns (b: seq<nat>)
    requires IsSelect(t, owner, ids) && NextIsFree(t, next)
    requires IsSelect(Sync(t, next, owner, items, ids, equips), owner, again)
    requires SameOrder(Sync(t, next, owner, items, ids, equips), ids, next, again)
    ensures Back(t, next, owner, items, ids, equips, again, b)
  {
    var a := Assign(items, RowsOf(t, ids));
    var home := Homes(ids, a, next, |items|);
    AssignIsMatching(items, RowsOf(t, ids));
    MatchingSyncs(t, next, owner, items, ids, a, equips);
    forall k | 0 <= k < |again| ensures again[k] in home { assert again[k] in again; }
    b := seq(|again|, k requires 0 <= k < |again| => SlotOf(home, again[k]));
  }

  lemma BackCovers(t: Table, next: nat, owner: int, items: seq<Item>, ids: seq<nat>, equips: set<int>,
                   again: seq<nat>, b: seq<nat>, i: nat)
    requires Back(t, next, owner, items, ids, equips, again, b) && i < |items|
    ensures i in b
  {
    var a := Assign(items, RowsOf(t, ids));
    var home := Homes(ids, a, next, |items|);
    AssignIsMatching(items, RowsOf(t, ids));
    MatchingSyncs(t, next, owner, items, ids, a, equips);
    assert home[i] in home;
    var k := SlotOf(again, home[i]);
    assert home[b[k]] == home[i];
  }

  /** Saving the same list again changes nothing, when like rows come back in the order
      in which they were visited, new rows last. */
  lemma SecondSaveChangesNothing(t: Table, next: nat, owner: int, items: seq<Item>, ids: seq<nat>, equips: set<int>,
                                 next': nat, again: seq<nat>)
    requires IsSelect(t, owner, ids) && NextIsFree(t, next)
    requires IsSelect(Sync(t, next, owner, items, ids, equips), owner, again)
    requires SameOrder(Sync(t, next, owner, items, ids, equips), ids, next, again)
    ensures var u := Sync(t, next, owner, items, ids, equips); Sync(u, next', owner, items, again, equips) == u
  {
    var u := Sync(t, next, owner, items, ids, equips);
    var b := BackItems(t, next, owner, items, ids, equips, again);
    BackIsGreedy(t, next, owner, items, ids, equips, again, b);
    GreedyIsUnique(items, RowsOf(u, again), b);
    forall k | 0 <= k < |again| ensures Written(u[again[k]].item, items[b[k]], equips) == u[again[k]].item {
      BackMatches(t, next, owner, items, ids, equips, again, b, k);
      WrittenOnce(u[again[k]].item, items[b[k]], equips);
    }
    forall i | 0 <= i < |items| ensures i in b {
      BackCovers(t, next, owner, items, ids, equips, again, b, i);
    }
    NothingToDo(u, next', owner, items, again, b, equips);
  }

  lemma TwoNewRows(five: Item, nine: Item)
    ensures Sync(map[], 1, 7, [five, nine], [], {}) == map[1 := Row(7, five), 2 := Row(7, nine)]
  {
    var items := [five, nine];
    var none: Table := map[];
    assert RowsOf(none, []) == [] && Used([]) == {};
    assert Sync(none, 1, 7, items, [], {}) == Insert(none, 7, items, {}, 1, 2);
    assert Insert(none, 7, items, {}, 1, 1) == map[1 := Row(7, five)];
  }

  lemma SwappedAssign(five: Item, nine: Item)
    requires Matches(five, nine)
    ensures Assign([five, nine], [nine, five]) == [0, 1]
  {
    var items, rows := [five, nine], [nine, five];
    assert rows[..1] == [nine] && [nine][..0] == [] && Used([]) == {};
    assert Assign(items, [nine]) == [0];
    UsedGrows([], 0);
    assert Used([0]) == {0} && Pick(items, {0}, five, 0) == 1;
  }

  /** Otherwise it may: two stacks of 5 and 9, saved into an empty table and then read
      back the other way round, swap their amounts. */
  lemma OrderMatters(five: Item, nine: Item)
    requires five.amount == 5 && nine == five.(amount := 9)
    ensures var u := Sync(map[], 1, 7, [five, nine], [], {});
      && IsSelect(u, 7, [2, 1])
      && u[2].item.amount == 9
      && var v := Sync(u, 3, 7, [five, nine], [2, 1], {}); 2 in v && v[2].item.amount == 5
  {
    TwoNewRows(five, nine);
    SwappedAssign(five, nine);
    var u: Table := map[1 := Row(7, five), 2 := Row(7, nine)];
    var rows := RowsOf(u, [2, 1]);
    assert rows == [nine, five];
    AssignIsMatching([five, nine], rows);
    RowAt(u, 3, 7, [five, nine], [2, 1], [0, 1], {}, 0);
  }
}
