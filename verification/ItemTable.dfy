/** The item table as the server writes it, and the inventory part of mmo_char_tosql. */
module ItemTable {
  import opened ItemFailures
  import opened ItemSync
  import opened ItemViews

  /** struct itemtmp: an item to be saved and whether it has been dealt with. */
  datatype Tmp = Tmp(flag: bool, item: Item)

  /** The answer to the SELECT: it failed, its result was lost, or these rows in order. */
  datatype Fetch = Failed | NoResult | Fetched(ids: seq<nat>)

  ghost predicate PossibleFetch(t: Table, owner: int, reply: Fetch) {
    reply.Fetched? ==> IsSelect(t, owner, reply.ids)
  }

  /** The table after a save, whatever the SELECT answered. */
  ghost function Saved(t: Table, next: nat, owner: int, items: seq<Item>, reply: Fetch, equips: set<int>): Table
    requires PossibleFetch(t, owner, reply)
  {
    match reply
    case Failed => t
    case NoResult => Sync(t, next, owner, items, [], equips)
    case Fetched(ids) => Sync(t, next, owner, items, ids, equips)
  }

  /** The same with writes that fail. */
  ghost function SavedBut(t: Table, next: nat, owner: int, items: seq<Item>, reply: Fetch, equips: set<int>,
                          f: Fails): Table
    requires PossibleFetch(t, owner, reply)
  {
    match reply
    case Failed => t
    case NoResult => SyncBut(t, next, owner, items, [], equips, f)
    case Fetched(ids) => SyncBut(t, next, owner, items, ids, equips, f)
  }

  lemma NoFailures(t: Table, next: nat, owner: int, items: seq<Item>, reply: Fetch, equips: set<int>)
    requires PossibleFetch(t, owner, reply)
    ensures SavedBut(t, next, owner, items, reply, equips, NO_FAILS) == Saved(t, next, owner, items, reply, equips)
  {
    match reply
    case Failed =>
    case NoResult => NoFailuresIsSync(t, next, owner, items, [], equips);
    case Fetched(ids) => NoFailuresIsSync(t, next, owner, items, ids, equips);
  }

  function ItemsIn(s: seq<Tmp>): (items: seq<Item>)
    ensures |items| == |s| && forall i :: 0 <= i < |s| ==> items[i] == s[i].item
  {
    seq(|s|, i requires 0 <= i < |s| => s[i].item)
  }

  function Flagged(s: seq<Tmp>): set<nat> {
    set i: nat | i < |s| && s[i].flag
  }

  /** When the result of the SELECT is lost, every item is inserted beside the rows that
      are there: the table is in step with the list iff the owner had no rows. */
  lemma LostResultDuplicates(t: Table, next: nat, owner: int, items: seq<Item>, ids: seq<nat>, equips: set<int>)
    requires IsSelect(t, owner, ids) && NextIsFree(t, next)
    ensures Synced(Saved(t, next, owner, items, NoResult, equips), owner, items, equips) <==> ids == []
  {
    var u := Sync(t, next, owner, items, [], equips);
    assert RowsOf(t, []) == [];
    if ids == [] {
      SyncMakesSynced(t, next, owner, items, [], equips);
    } else {
      if home :| SyncedBy(u, owner, items, equips, home) {
        var all := seq(|items|, i requires 0 <= i < |items| => next + i) + [ids[0]];
        assert ids[0] in ids;
        LostKeeps(t, next, owner, items, ids[0], equips);
        forall k | 0 <= k < |all| ensures all[k] in home {
          if k < |items| {
            LostAdds(t, next, owner, items, k, equips);
          }
        }
        Pigeonhole(all, home);
      }
    }
  }

  lemma {:induction false} RankOfNone(k: nat)
    ensures Rank(Used([]), k) == k
  {
    if k > 0 {
      RankOfNone(k - 1);
    }
  }

  lemma LostKeeps(t: Table, next: nat, owner: int, items: seq<Item>, id: nat, equips: set<int>)
    requires id in t && id < next
    ensures id in Sync(t, next, owner, items, [], equips) && Sync(t, next, owner, items, [], equips)[id] == t[id]
  {
    assert RowsOf(t, []) == [];
    InsertKeepsOld(t, owner, items, Used([]), next, |items|, id);
  }

  lemma LostAdds(t: Table, next: nat, owner: int, items: seq<Item>, i: nat, equips: set<int>)
    requires i < |items|
    ensures next + i in Sync(t, next, owner, items, [], equips)
    ensures Sync(t, next, owner, items, [], equips)[next + i].owner == owner
  {
    assert RowsOf(t, []) == [];
    RankOfNone(i);
    InsertAt(t, owner, items, Used([]), next, |items|, i);
  }

  class Store {
    var rows: Table
    var next: nat              // the id the next INSERT gets
    const equips: set<int>     // itemdb_isequip

    /** The search for the row's item: the first one not dealt with that matches. */
    method FindItem(mapitem: array<Tmp>, count: nat, row: Item) returns (i: nat)
      requires count <= mapitem.Length
      ensures i == Pick(ItemsIn(mapitem[..count]), Flagged(mapitem[..count]), row, 0)
    {
      ghost var items := ItemsIn(mapitem[..count]);
      i := 0;
      while i < count
        invariant i <= count
        invariant Pick(items, Flagged(mapitem[..count]), row, 0) == Pick(items, Flagged(mapitem[..count]), row, i)
      {
        var m := mapitem[i];
        assert m == mapitem[..count][i];
        if !m.flag && m.item.nameid == row.nameid && m.item.card0 == row.card0
           && m.item.card2 == row.card2 && m.item.card3 == row.card3 {
          return;
        }
        i := i + 1;
      }
    }

    /** The UPDATE of one row, if one is needed; a failure is only logged. */
    method UpdateRow(id: nat, it: Item, row: Item, fails: bool)
      requires id in rows && rows[id].item == row && Matches(it, row)
      modifies this`rows
      ensures rows == if fails then old(rows)
        else old(rows)[id := Row(old(rows)[id].owner, Written(row, it, equips))]
    {
      if it == row || fails {
      } else if it.nameid !in equips {
        rows := rows[id := rows[id].(item := row.(equip := it.equip, identify := it.identify, amount := it.amount))];
      } else {
        rows := rows[id := rows[id].(item := row.(
          equip := it.equip, identify := it.identify, refine := it.refine, attribute := it.attribute,
          card0 := it.card0, card1 := it.card1, card2 := it.card2, card3 := it.card3,
          expire := it.expire, amount := it.amount))];
      }
    }

    /** One row of the result: written or deleted, and its item flagged. */
    method HandleRow(mapitem: array<Tmp>, count: nat, id: nat, row: Item, fails: bool) returns (i: nat)
      requires count <= mapitem.Length && id in rows && rows[id].item == row
      modifies this`rows, mapitem
      ensures ItemsIn(mapitem[..count]) == old(ItemsIn(mapitem[..count]))
      ensures i == Pick(ItemsIn(mapitem[..count]), old(Flagged(mapitem[..count])), row, 0)
      ensures rows == if fails then old(rows) else WriteRow(old(rows), ItemsIn(mapitem[..count]), id, i, equips)
      ensures forall j :: 0 <= j < count ==> (mapitem[j].flag <==> old(mapitem[j].flag) || j == i)
    {
      i := FindItem(mapitem, count, row);
      if i < count {
        UpdateRow(id, mapitem[i].item, row, fails);
        mapitem[i] := mapitem[i].(flag := true);
      } else if !fails {
        rows := rows - {id};
      }
    }

    /** The pass over the rows that are there. */
    method UpdateRows(mapitem: array<Tmp>, count: nat, owner: int, ids: seq<nat>, bad: set<nat>)
      requires count <= mapitem.Length && forall i :: 0 <= i < count ==> !mapitem[i].flag
      requires IsSelect(rows, owner, ids)
      modifies this`rows, mapitem
      ensures ItemsIn(mapitem[..count]) == old(ItemsIn(mapitem[..count]))
      ensures var a := Assign(ItemsIn(mapitem[..count]), RowsOf(old(rows), ids));
        && rows == WriteRowsBut(old(rows), ItemsIn(mapitem[..count]), ids, a, equips, bad)
        && forall i :: 0 <= i < count ==> (mapitem[i].flag <==> i in Used(a))
    {
      ghost var was := rows;
      ghost var items := ItemsIn(mapitem[..count]);
      var result := RowsOf(rows, ids);
      ghost var a: seq<nat> := [];
      assert result[..0] == [] && ids[..0] == [];
      for k := 0 to |ids|
        invariant ItemsIn(mapitem[..count]) == items
        invariant |a| == k && a == Assign(items, result[..k])
        invariant rows == WriteRowsBut(was, items, ids[..k], a, equips, bad)
        invariant forall i :: 0 <= i < count ==> (mapitem[i].flag <==> i in Used(a))
      {
        RowStillThere(was, owner, items, ids, a, equips, bad, k);
        SameFlags(mapitem[..count], a, items, result[k]);
        var i := HandleRow(mapitem, count, ids[k], result[k], ids[k] in bad);
        UsedGrows(a, i);
        AssignStep(items, result, k);
        WriteStep(was, items, ids, a, i, equips, bad, k);
        a := a + [i];
      }
      assert result[..|ids|] == result && ids[..|ids|] == ids;
    }

    /** The pass that inserts what is left; used are the items flagged. */
    method InsertRest(mapitem: array<Tmp>, count: nat, owner: int, bad: set<nat>, ghost used: set<nat>)
      requires count <= mapitem.Length
      requires forall i :: 0 <= i < count ==> (mapitem[i].flag <==> i in used)
      modifies this`rows, this`next
      ensures rows == Insert(old(rows), owner, ItemsIn(mapitem[..count]), used + bad, old(next), count)
      ensures next == old(next) + Rank(used + bad, count)
    {
      ghost var was, first, items, skipped := rows, next, ItemsIn(mapitem[..count]), used + bad;
      for i := 0 to count
        invariant rows == Insert(was, owner, items, skipped, first, i)
        invariant next == first + Rank(skipped, i)
      {
        assert items[i] == mapitem[i].item;
        if !mapitem[i].flag && i !in bad {
          rows := rows[next := Row(owner, mapitem[i].item)];
          next := next + 1;
        }
      }
    }

    /** memitemdata_to_sql. */
    method MemitemdataToSql(mapitem: array<Tmp>, count: nat, owner: int, reply: Fetch, f: Fails) returns (failed: bool)
      requires count <= mapitem.Length && forall i :: 0 <= i < count ==> !mapitem[i].flag
      requires PossibleFetch(rows, owner, reply) && NextIsFree(rows, next)
      modifies this`rows, this`next, mapitem
      ensures failed <==> reply.Failed?
      ensures rows == SavedBut(old(rows), old(next), owner, old(ItemsIn(mapitem[..count])), reply, equips, f)
      ensures NextIsFree(rows, next)
    {
      if reply.Failed? {
        return true;
      }
      ghost var items := ItemsIn(mapitem[..count]);
      var ids := if reply.Fetched? then reply.ids else [];
      ghost var a := Assign(items, RowsOf(rows, ids));
      if reply.Fetched? {
        UpdateRows(mapitem, count, owner, ids, f.rows);
      }
      ghost var t, first := rows, next;
      if reply.Fetched? {
        WrittenIsFree(old(rows), items, ids, a, equips, f.rows, next);
      }
      InsertRest(mapitem, count, owner, f.items, Used(a));
      NextAfterInsert(t, owner, items, Used(a) + f.items, first, count);
      return false;
    }
  }

  lemma {:induction false} WrittenIsFree(t: Table, items: seq<Item>, ids: seq<nat>, a: seq<nat>, equips: set<int>,
                                         bad: set<nat>, next: nat)
    requires |a| == |ids| && NextIsFree(t, next)
    ensures NextIsFree(WriteRowsBut(t, items, ids, a, equips, bad), next)
    decreases |ids|
  {
    if ids != [] {
      WrittenIsFree(t, items, ids[..|ids| - 1], a[..|ids| - 1], equips, bad, next);
    }
  }

  lemma RowStillThere(t: Table, owner: int, items: seq<Item>, ids: seq<nat>, a: seq<nat>, equips: set<int>,
                      bad: set<nat>, k: nat)
    requires IsSelect(t, owner, ids) && |a| == k < |ids|
    ensures ids[k] in t && ids[k] in WriteRowsBut(t, items, ids[..k], a, equips, bad)
    ensures WriteRowsBut(t, items, ids[..k], a, equips, bad)[ids[k]] == t[ids[k]]
  {
    assert ids[k] in ids;
    WriteRowsButElsewhere(t, items, ids[..k], a, equips, bad, ids[k]);
  }

  lemma SameFlags(s: seq<Tmp>, a: seq<nat>, items: seq<Item>, row: Item)
    requires forall i :: 0 <= i < |s| ==> (s[i].flag <==> i in Used(a))
    requires items == ItemsIn(s)
    ensures Pick(items, Flagged(s), row, 0) == Pick(items, Used(a), row, 0)
  {
  }

  lemma AssignStep(items: seq<Item>, rows: seq<Item>, k: nat)
    requires k < |rows|
    ensures Assign(items, rows[..k + 1]) ==
            Assign(items, rows[..k]) + [Pick(items, Used(Assign(items, rows[..k])), rows[k], 0)]
  {
    assert rows[..k + 1][..k] == rows[..k];
  }

  lemma WriteStep(t: Table, items: seq<Item>, ids: seq<nat>, a: seq<nat>, p: nat, equips: set<int>, bad: set<nat>,
                  k: nat)
    requires |a| == k < |ids|
    ensures var before := WriteRowsBut(t, items, ids[..k], a, equips, bad);
      WriteRowsBut(t, items, ids[..k + 1], a + [p], equips, bad) ==
        if ids[k] in bad then before else WriteRow(before, items, ids[k], p, equips)
  {
    assert ids[..k + 1][..k] == ids[..k] && (a + [p])[..k] == a;
  }

  // ------------------------------------------------------------- mmo_char_tosql

  /** An inventory slot: an item with the row id it was loaded from. */
  datatype Slot = Slot(id: int, item: Item)

  /** The items of the slots in use. */
  function InUse(slots: seq<Slot>): seq<Item>
    decreases |slots|
  {
    if slots == [] then []
    else
      var n := |slots| - 1;
      if slots[n].item.nameid > 0 then InUse(slots[..n]) + [slots[n].item] else InUse(slots[..n])
  }

  predicate SlotUsed(s: Slot) { s.item.nameid > 0 }

  /** The slots in use before the n-th. */
  function UsedBefore(p: seq<Slot>, n: nat): set<nat> { set i: nat | i < n && i < |p| && SlotUsed(p[i]) }

  lemma {:induction false} UsedBeforeStep(p: seq<Slot>, n: nat)
    requires n < |p|
    ensures UsedBefore(p, n + 1) == if SlotUsed(p[n]) then UsedBefore(p, n) + {n} else UsedBefore(p, n)
    ensures n !in UsedBefore(p, n)
  {
  }

  lemma {:induction false} InUseStep(p: seq<Slot>, n: nat)
    requires n < |p|
    ensures InUse(p[..n + 1]) == if SlotUsed(p[n]) then InUse(p[..n]) + [p[n].item] else InUse(p[..n])
  {
    assert p[..n + 1][..n] == p[..n];
  }

  /** These are the items of the slots in use before the n-th, each at its place. */
  ghost predicate ItemsBefore(p: seq<Slot>, n: nat, items: seq<Item>) {
    && n <= |p| && |items| == |UsedBefore(p, n)|
    && forall i: nat :: i < n && SlotUsed(p[i]) ==>
         |UsedBefore(p, i)| < |items| && items[|UsedBefore(p, i)|] == p[i].item
  }

  lemma {:induction false} OneMoreItem(p: seq<Slot>, n: nat, items: seq<Item>)
    requires ItemsBefore(p, n, items) && n < |p|
    ensures ItemsBefore(p, n + 1, if SlotUsed(p[n]) then items + [p[n].item] else items)
  {
    UsedBeforeStep(p, n);
    assert SlotUsed(p[n]) ==> |UsedBefore(p, n + 1)| == |UsedBefore(p, n)| + 1;
  }

  /** The items gathered are those of exactly the slots in use, in the order of the slots. */
  lemma {:induction false} InUseAt(p: seq<Slot>)
    ensures ItemsBefore(p, |p|, InUse(p))
  {
    var items: seq<Item> := [];
    assert p[..0] == [] && UsedBefore(p, 0) == {};
    for n := 0 to |p|
      invariant items == InUse(p[..n])
      invariant ItemsBefore(p, n, items)
    {
      OneMoreItem(p, n, items);
      items := if SlotUsed(p[n]) then items + [p[n].item] else items;
      assert items == InUse(p[..n + 1]) by {
        InUseStep(p, n);
      }
    }
    assert p[..|p|] == p;
  }

  lemma {:induction false} GatheredInOrder(p: seq<Slot>, gathered: seq<Tmp>)
    requires ItemsIn(gathered) == InUse(p)
    ensures |gathered| == |UsedBefore(p, |p|)|
    ensures forall i: nat :: i < |p| && SlotUsed(p[i]) ==>
      |UsedBefore(p, i)| < |gathered| && gathered[|UsedBefore(p, i)|].item == p[i].item
  {
    InUseAt(p);
    forall i: nat | i < |p| && SlotUsed(p[i]) ensures gathered[|UsedBefore(p, i)|].item == p[i].item {
      assert gathered[|UsedBefore(p, i)|].item == ItemsIn(gathered)[|UsedBefore(p, i)|];
    }
  }

  /** rows[i] is the row of slot i, if that is in use: the owner's rows are these, one for
      each such slot, and each agrees with the item of its slot. */
  ghost predicate RowsOfSlots(t: Table, owner: int, p: seq<Slot>, equips: set<int>, rows: seq<nat>) {
    && |rows| == |p|
    && (forall i :: 0 <= i < |p| && p[i].item.nameid > 0 ==>
          rows[i] in t && t[rows[i]].owner == owner && Agrees(t[rows[i]].item, p[i].item, equips))
    && (forall i, j :: 0 <= i < j < |p| && p[i].item.nameid > 0 && p[j].item.nameid > 0 ==> rows[i] != rows[j])
    && (forall id :: id in t && t[id].owner == owner ==>
          exists i :: 0 <= i < |p| && p[i].item.nameid > 0 && rows[i] == id)
  }

  /** The owner's rows and the slots in use are one to one, and agree. */
  ghost predicate SlotsInStep(t: Table, owner: int, p: seq<Slot>, equips: set<int>) {
    exists rows :: RowsOfSlots(t, owner, p, equips, rows)
  }

  /** Of the first n slots those in use, in order: each is there once, with the item
      gathered from it. */
  ghost predicate AreSlots(p: seq<Slot>, n: nat, items: seq<Item>, slots: seq<nat>) {
    && n <= |p| && |slots| == |items|
    && (forall j :: 0 <= j < |slots| ==> slots[j] < n && SlotUsed(p[slots[j]]) && items[j] == p[slots[j]].item)
    && (forall j, l :: 0 <= j < l < |slots| ==> slots[j] < slots[l])
    && (forall i: nat :: i < n && SlotUsed(p[i]) ==> i in slots)
  }

  lemma {:induction false} OneMoreSlot(p: seq<Slot>, n: nat, items: seq<Item>, slots: seq<nat>)
    requires AreSlots(p, n, items, slots) && n < |p|
    ensures if SlotUsed(p[n]) then AreSlots(p, n + 1, items + [p[n].item], slots + [n])
            else AreSlots(p, n + 1, items, slots)
  {
    if SlotUsed(p[n]) {
      assert (slots + [n])[|slots|] == n;
    }
  }

  lemma {:induction false} SlotList(p: seq<Slot>) returns (slots: seq<nat>)
    ensures AreSlots(p, |p|, InUse(p), slots)
  {
    var items: seq<Item> := [];
    slots := [];
    assert p[..0] == [];
    for n := 0 to |p|
      invariant items == InUse(p[..n])
      invariant AreSlots(p, n, items, slots)
    {
      OneMoreSlot(p, n, items, slots);
      if SlotUsed(p[n]) {
        items, slots := items + [p[n].item], slots + [n];
      }
      assert items == InUse(p[..n + 1]) by {
        InUseStep(p, n);
      }
    }
    assert p[..|p|] == p;
  }

  /** The row of a slot in use is that of the item gathered from it. */
  ghost predicate PutInRows(p: seq<Slot>, slots: seq<nat>, home: seq<nat>, rows: seq<nat>) {
    && |rows| == |p| && |slots| == |home|
    && forall i: nat :: i < |p| && SlotUsed(p[i]) ==> i in slots && rows[i] == home[SlotOf(slots, i)]
  }

  lemma {:induction false} RowsAgree(t: Table, owner: int, p: seq<Slot>, items: seq<Item>, slots: seq<nat>,
                                     equips: set<int>, home: seq<nat>, rows: seq<nat>)
    requires AreSlots(p, |p|, items, slots) && SyncedBy(t, owner, items, equips, home)
    requires PutInRows(p, slots, home, rows)
    ensures forall i :: 0 <= i < |p| && p[i].item.nameid > 0 ==>
      rows[i] in t && t[rows[i]].owner == owner && Agrees(t[rows[i]].item, p[i].item, equips)
    ensures forall i, j :: 0 <= i < j < |p| && p[i].item.nameid > 0 && p[j].item.nameid > 0 ==> rows[i] != rows[j]
  {
    forall i | 0 <= i < |p| && p[i].item.nameid > 0
      ensures rows[i] in home && Agrees(t[rows[i]].item, p[i].item, equips)
    {
      assert SlotUsed(p[i]) && rows[i] == home[SlotOf(slots, i)];
    }
    forall i, j | 0 <= i < j < |p| && p[i].item.nameid > 0 && p[j].item.nameid > 0 ensures rows[i] != rows[j] {
      assert SlotUsed(p[i]) && SlotUsed(p[j]) && SlotOf(slots, i) != SlotOf(slots, j);
    }
  }

  lemma {:induction false} SlotRows(t: Table, owner: int, p: seq<Slot>, items: seq<Item>, slots: seq<nat>,
                                    equips: set<int>, home: seq<nat>)
    requires AreSlots(p, |p|, items, slots) && SyncedBy(t, owner, items, equips, home)
    ensures SlotsInStep(t, owner, p, equips)
  {
    var rows := seq(|p|, i requires 0 <= i < |p| => if i in slots then home[SlotOf(slots, i)] else 0);
    RowsAgree(t, owner, p, items, slots, equips, home, rows);
    forall id | id in t && t[id].owner == owner
      ensures exists i :: 0 <= i < |p| && p[i].item.nameid > 0 && rows[i] == id
    {
      OneSlotOf(slots, SlotOf(home, id));
      var i := slots[SlotOf(home, id)];
      assert SlotUsed(p[i]) && rows[i] == id;
    }
    assert RowsOfSlots(t, owner, p, equips, rows);
  }

  lemma {:induction false} OneSlotOf(slots: seq<nat>, j: nat)
    requires j < |slots| && forall k, l :: 0 <= k < l < |slots| ==> slots[k] < slots[l]
    ensures SlotOf(slots, slots[j]) == j
  {
    assert slots[SlotOf(slots, slots[j])] == slots[j];
  }

  lemma {:induction false} SlotHomes(t: Table, owner: int, p: seq<Slot>, items: seq<Item>, slots: seq<nat>,
                                     equips: set<int>, rows: seq<nat>)
    requires AreSlots(p, |p|, items, slots) && RowsOfSlots(t, owner, p, equips, rows)
    ensures Synced(t, owner, items, equips)
  {
    var home := seq(|slots|, j requires 0 <= j < |slots| => rows[slots[j]]);
    forall id | id in t && t[id].owner == owner ensures id in home {
      var i: nat :| i < |p| && p[i].item.nameid > 0 && rows[i] == id;
      assert home[SlotOf(slots, i)] == id;
    }
    assert SyncedBy(t, owner, items, equips, home);
  }

  /** So being in step with the items gathered is being in step with the inventory. */
  lemma {:induction false} InStepIsBySlots(t: Table, owner: int, p: seq<Slot>, equips: set<int>)
    ensures Synced(t, owner, InUse(p), equips) <==> SlotsInStep(t, owner, p, equips)
  {
    var slots := SlotList(p);
    if Synced(t, owner, InUse(p), equips) {
      var home :| SyncedBy(t, owner, InUse(p), equips, home);
      SlotRows(t, owner, p, InUse(p), slots, equips, home);
    }
    if SlotsInStep(t, owner, p, equips) {
      var rows :| RowsOfSlots(t, owner, p, equips, rows);
      SlotHomes(t, owner, p, InUse(p), slots, equips, rows);
    }
  }

  /** The table after the inventory part of mmo_char_tosql with working writes: nothing is
      written when no slot differs from the cache. */
  ghost function InventorySaved(t: Table, next: nat, owner: int, cache: seq<Slot>, p: seq<Slot>, reply: Fetch,
                                equips: set<int>): Table
    requires PossibleFetch(t, owner, reply)
  {
    if cache == p then t else Saved(t, next, owner, InUse(p), reply, equips)
  }

  ghost function InventorySavedBut(t: Table, next: nat, owner: int, cache: seq<Slot>, p: seq<Slot>, reply: Fetch,
                                   equips: set<int>, f: Fails): Table
    requires PossibleFetch(t, owner, reply)
  {
    if cache == p then t else SavedBut(t, next, owner, InUse(p), reply, equips, f)
  }

  /** Exactly when a save leaves the table in step with the inventory, for all three
      answers to the SELECT; ids are the owner's rows.  A skipped or failed save needs the
      table to have been in step already, one without a result needs it to have been
      empty, and one with its rows always works. */
  lemma WhenSaveIsInStep(t: Table, next: nat, owner: int, cache: seq<Slot>, p: seq<Slot>, reply: Fetch,
                         ids: seq<nat>, equips: set<int>)
    requires IsSelect(t, owner, ids) && NextIsFree(t, next) && PossibleFetch(t, owner, reply)
    ensures SlotsInStep(InventorySaved(t, next, owner, cache, p, reply, equips), owner, p, equips) <==>
      if cache == p || reply.Failed? then SlotsInStep(t, owner, p, equips) else reply.NoResult? ==> ids == []
  {
    InStepIsBySlots(t, owner, p, equips);
    InStepIsBySlots(InventorySaved(t, next, owner, cache, p, reply, equips), owner, p, equips);
    if cache != p && !reply.Failed? {
      if reply.NoResult? {
        LostResultDuplicates(t, next, owner, InUse(p), ids, equips);
      } else {
        SyncMakesSynced(t, next, owner, InUse(p), reply.ids, equips);
      }
    }
  }

  /** The cache in step with the table stays so through saves whose SELECT works. */
  lemma SaveKeepsStep(t: Table, next: nat, owner: int, cache: seq<Slot>, p: seq<Slot>, ids: seq<nat>,
                      equips: set<int>)
    requires SlotsInStep(t, owner, cache, equips)
    requires IsSelect(t, owner, ids) && NextIsFree(t, next)
    ensures SlotsInStep(InventorySaved(t, next, owner, cache, p, Fetched(ids), equips), owner, p, equips)
  {
    WhenSaveIsInStep(t, next, owner, cache, p, Fetched(ids), ids, equips);
  }

  /** What a save has to go by: ids are the owner's rows. A SELECT that fails needs the
      table to be in step already; without its result the rows there must be as the items
      whose INSERT fails; and with it no DELETE and no INSERT may fail, and rows whose
      UPDATE fails must be, in some order, as the items they were given. */
  ghost predicate Works(t: Table, owner: int, items: seq<Item>, reply: Fetch, ids: seq<nat>, equips: set<int>,
                        f: Fails)
    requires IsSelect(t, owner, ids) && PossibleFetch(t, owner, reply)
  {
    match reply
    case Failed => Synced(t, owner, items, equips)
    case NoResult =>
      && Below(Where(|items|, f.items), |items|)
      && multiset(Views(RowsOf(t, ids), equips)) == multiset(At(Views(items, equips), Where(|items|, f.items)))
    case Fetched(sel) =>
      var a := Assign(items, RowsOf(t, sel));
      NothingStray(items, sel, a, f) && StaleRowsCancel(RowsOf(t, sel), items, sel, a, equips, f)
  }

  /** Exactly when a save leaves the table in step, for all three answers to the SELECT and
      any set of failing writes. */
  lemma WhenSaveWorks(t: Table, next: nat, owner: int, cache: seq<Slot>, p: seq<Slot>, reply: Fetch, ids: seq<nat>,
                      equips: set<int>, f: Fails)
    requires IsSelect(t, owner, ids) && NextIsFree(t, next) && PossibleFetch(t, owner, reply)
    ensures SlotsInStep(InventorySavedBut(t, next, owner, cache, p, reply, equips, f), owner, p, equips) <==>
      if cache == p then SlotsInStep(t, owner, p, equips) else Works(t, owner, InUse(p), reply, ids, equips, f)
  {
    InStepIsBySlots(t, owner, p, equips);
    InStepIsBySlots(InventorySavedBut(t, next, owner, cache, p, reply, equips, f), owner, p, equips);
    if cache != p {
      match reply
      case Failed =>
      case NoResult => LostInStep(t, next, owner, InUse(p), ids, equips, f);
      case Fetched(sel) => InStepIffStaleCancel(t, next, owner, InUse(p), sel, equips, f);
    }
  }

  /** The cache takes the new inventory p however its save fared.  The next save, of q and
      with everything working, repairs that exactly when q differs from p or the save of p
      had worked anyway. */
  lemma FailedSaveIsForgotten(t: Table, next: nat, owner: int, cache: seq<Slot>, p: seq<Slot>, reply: Fetch,
                              ids: seq<nat>, equips: set<int>, f: Fails, next': nat, q: seq<Slot>, again: seq<nat>)
    requires IsSelect(t, owner, ids) && NextIsFree(t, next) && PossibleFetch(t, owner, reply) && cache != p
    requires var u := InventorySavedBut(t, next, owner, cache, p, reply, equips, f);
      IsSelect(u, owner, again) && NextIsFree(u, next')
    ensures var u := InventorySavedBut(t, next, owner, cache, p, reply, equips, f);
      SlotsInStep(InventorySaved(u, next', owner, p, q, Fetched(again), equips), owner, q, equips)
      <==> q != p || Works(t, owner, InUse(p), reply, ids, equips, f)
  {
    var u := InventorySavedBut(t, next, owner, cache, p, reply, equips, f);
    WhenSaveIsInStep(u, next', owner, p, q, Fetched(again), again, equips);
    WhenSaveWorks(t, next, owner, cache, p, reply, ids, equips, f);
  }

  /** A character that picked up its first item: the save fails, the same inventory comes
      again, and the table has nothing. */
  lemma FirstItemIsLost(it: Item, equips: set<int>)
    requires it.nameid > 0
    ensures var nothing, p := [Slot(0, it.(nameid := 0))], [Slot(0, it)];
      var u := InventorySaved(map[], 1, 7, nothing, p, Failed, equips);
      !SlotsInStep(InventorySaved(u, 1, 7, p, p, Fetched([]), equips), 7, p, equips)
  {
    var nothing, p := [Slot(0, it.(nameid := 0))], [Slot(0, it)];
    var none: Table := map[];
    assert nothing[0] != p[0] && p[0].item.nameid > 0;
  }

  /** A save with working queries of an inventory that changed. */
  lemma {:induction false} WorkingSaveIsInStep(t: Table, next: nat, owner: int, cache: seq<Slot>, p: seq<Slot>,
                                               reply: Fetch, equips: set<int>)
    requires PossibleFetch(t, owner, reply) && NextIsFree(t, next) && reply.Fetched? && cache != p
    ensures SlotsInStep(InventorySavedBut(t, next, owner, cache, p, reply, equips, NO_FAILS), owner, p, equips)
  {
    NoFailures(t, next, owner, InUse(p), reply, equips);
    WhenSaveIsInStep(t, next, owner, cache, p, reply, reply.ids, equips);
  }

  class CharCache {
    const store: Store
    const cache: array<Slot>     // the cached inventory, MAX_INVENTORY slots

    constructor (store: Store, cache: array<Slot>)
      ensures this.store == store && this.cache == cache
    {
      this.store, this.cache := store, cache;
    }

    /** The loop of mmo_char_tosql over the inventory: the items in use, and whether any
        slot differs from the cached one. */
    method Gather(p: array<Slot>) returns (mapitem: array<Tmp>, count: nat, diff: bool)
      requires p.Length == cache.Length
      ensures fresh(mapitem) && count <= mapitem.Length
      ensures diff <==> p[..] != cache[..]
      ensures ItemsIn(mapitem[..count]) == InUse(p[..]) && forall k :: 0 <= k < count ==> !mapitem[k].flag
      ensures count == |UsedBefore(p[..], p.Length)|
      ensures forall i: nat :: i < p.Length && p[i].item.nameid > 0 ==>
        |UsedBefore(p[..], i)| < count && mapitem[|UsedBefore(p[..], i)|].item == p[i].item
    {
      mapitem := new Tmp[p.Length](_ => Tmp(false, Item(0, 0, 0, 0, 0, 0, 0, 0, 0, 0, 0)));
      count, diff := 0, false;
      assert p[..0] == [];
      for i := 0 to p.Length
        invariant count <= i && fresh(mapitem) && mapitem.Length == p.Length
        invariant diff <==> p[..i] != cache[..i]
        invariant ItemsIn(mapitem[..count]) == InUse(p[..i])
        invariant forall k :: 0 <= k < count ==> !mapitem[k].flag
      {
        if p[i] != cache[i] {
          diff := true;
        }
        assert p[..i + 1] == p[..i] + [p[i]] && cache[..i + 1] == cache[..i] + [cache[i]];
        if p[i].item.nameid > 0 {
          ghost var before := mapitem[..count];
          mapitem[count] := Tmp(false, p[i].item);
          assert mapitem[..count + 1] == before + [Tmp(false, p[i].item)];
          count := count + 1;
        }
      }
      assert p[..p.Length] == p[..] && cache[..p.Length] == cache[..];
      GatheredInOrder(p[..], mapitem[..count]);
    }

    /** The memcpy of the inventory into the cache. */
    method TakeOver(p: array<Slot>)
      requires p != cache && p.Length == cache.Length
      modifies cache
      ensures cache[..] == p[..]
    {
      for i := 0 to p.Length
        invariant cache[..i] == p[..i]
      {
        cache[i] := p[i];
      }
    }

    /** The inventory part of mmo_char_tosql. */
    method SaveInventory(owner: int, p: array<Slot>, reply: Fetch, f: Fails)
      requires p != cache && p.Length == cache.Length
      requires PossibleFetch(store.rows, owner, reply) && NextIsFree(store.rows, store.next)
      modifies cache, store`rows, store`next
      ensures cache[..] == p[..]
      ensures store.rows == InventorySavedBut(old(store.rows), old(store.next), owner, old(cache[..]), p[..], reply,
                                              store.equips, f)
      ensures old(cache[..]) != p[..] && reply.Fetched? && f == NO_FAILS ==>
        SlotsInStep(store.rows, owner, p[..], store.equips)
      ensures NextIsFree(store.rows, store.next)
    {
      ghost var was, t, next := cache[..], store.rows, store.next;
      var mapitem, count, diff := Gather(p);
      if diff {
        var failed := store.MemitemdataToSql(mapitem, count, owner, reply, f);
      }
      TakeOver(p);
      assert store.rows == InventorySavedBut(t, next, owner, was, p[..], reply, store.equips, f);
      if was != p[..] && reply.Fetched? && f == NO_FAILS {
        WorkingSaveIsInStep(t, next, owner, was, p[..], reply, store.equips);
      }
    }
  }
}
