/** memitemdata_to_sql when some of its queries fail: each failure is logged and passed
    over, and the save goes on. */
module ItemFailures {
  import opened ItemSync
  import opened ItemViews

  /** The rows whose UPDATE or DELETE would fail, and the items whose INSERT would. */
  datatype Fails = Fails(rows: set<nat>, items: set<nat>)

  const NO_FAILS: Fails := Fails({}, {})

  function WriteRowsBut(t: Table, items: seq<Item>, ids: seq<nat>, a: seq<nat>, equips: set<int>,
                        bad: set<nat>): Table
    requires |a| == |ids|
    decreases |ids|
  {
    if ids == [] then t
    else
      var n := |ids| - 1;
      var before := WriteRowsBut(t, items, ids[..n], a[..n], equips, bad);
      if ids[n] in bad then before else WriteRow(before, items, ids[n], a[n], equips)
  }

  /** Both passes; a failed INSERT leaves the next id to the next item. */
  function ApplyBut(t: Table, next: nat, owner: int, items: seq<Item>, ids: seq<nat>, a: seq<nat>, equips: set<int>,
                    f: Fails): Table
    requires |a| == |ids|
  {
    Insert(WriteRowsBut(t, items, ids, a, equips, f.rows), owner, items, Used(a) + f.items, next, |items|)
  }

  function SyncBut(t: Table, next: nat, owner: int, items: seq<Item>, ids: seq<nat>, equips: set<int>,
                   f: Fails): Table
    requires forall k :: 0 <= k < |ids| ==> ids[k] in t
  {
    ApplyBut(t, next, owner, items, ids, Assign(items, RowsOf(t, ids)), equips, f)
  }

  lemma {:induction false} NoBadRows(t: Table, items: seq<Item>, ids: seq<nat>, a: seq<nat>, equips: set<int>)
    requires |a| == |ids|
    ensures WriteRowsBut(t, items, ids, a, equips, {}) == WriteRows(t, items, ids, a, equips)
    decreases |ids|
  {
    if ids != [] {
      NoBadRows(t, items, ids[..|ids| - 1], a[..|ids| - 1], equips);
    }
  }

  /** With no failure it is the save that was described. */
  lemma NoFailuresIsSync(t: Table, next: nat, owner: int, items: seq<Item>, ids: seq<nat>, equips: set<int>)
    requires forall k :: 0 <= k < |ids| ==> ids[k] in t
    ensures SyncBut(t, next, owner, items, ids, equips, NO_FAILS) == Sync(t, next, owner, items, ids, equips)
  {
    var a := Assign(items, RowsOf(t, ids));
    NoBadRows(t, items, ids, a, equips);
    assert Used(a) + {} == Used(a);
  }

  lemma {:induction false} WriteRowsButElsewhere(t: Table, items: seq<Item>, ids: seq<nat>, a: seq<nat>,
                                                 equips: set<int>, bad: set<nat>, id: nat)
    requires |a| == |ids| && (id in ids ==> id in bad)
    ensures var u := WriteRowsBut(t, items, ids, a, equips, bad); (id in u <==> id in t) && (id in t ==> u[id] == t[id])
    decreases |ids|
  {
    if ids != [] {
      var n := |ids| - 1;
      assert id in ids[..n] ==> id in ids;
      WriteRowsButElsewhere(t, items, ids[..n], a[..n], equips, bad, id);
    }
  }

  lemma {:induction false} WriteRowsButAt(t: Table, items: seq<Item>, ids: seq<nat>, a: seq<nat>, equips: set<int>,
                                          bad: set<nat>, k: nat)
    requires |a| == |ids| && Distinct(ids) && k < |ids| && ids[k] in t && ids[k] !in bad
    ensures var u := WriteRowsBut(t, items, ids, a, equips, bad);
      if a[k] >= |items| then ids[k] !in u
      else ids[k] in u && u[ids[k]] == t[ids[k]].(item := Written(t[ids[k]].item, items[a[k]], equips))
    decreases |ids|
  {
    var n := |ids| - 1;
    if k < n {
      WriteRowsButAt(t, items, ids[..n], a[..n], equips, bad, k);
    } else {
      WriteRowsButElsewhere(t, items, ids[..n], a[..n], equips, bad, ids[n]);
    }
  }

  /** Whatever fails, rows of other owners are untouched. */
  lemma OthersStayBut(t: Table, next: nat, owner: int, items: seq<Item>, ids: seq<nat>, a: seq<nat>,
                      equips: set<int>, f: Fails, id: nat)
    requires Setting(t, next, owner, items, ids, a) && id in t && t[id].owner != owner
    ensures var u := ApplyBut(t, next, owner, items, ids, a, equips, f); id in u && u[id] == t[id]
  {
    WriteRowsButElsewhere(t, items, ids, a, equips, f.rows, id);
    InsertKeepsOld(WriteRowsBut(t, items, ids, a, equips, f.rows), owner, items, Used(a) + f.items, next, |items|, id);
  }

  /** A row whose query fails is as it was; any other is as in a save without failures. */
  lemma RowAtBut(t: Table, next: nat, owner: int, items: seq<Item>, ids: seq<nat>, a: seq<nat>, equips: set<int>,
                 f: Fails, k: nat)
    requires Setting(t, next, owner, items, ids, a) && k < |ids|
    ensures var u := ApplyBut(t, next, owner, items, ids, a, equips, f);
      if ids[k] in f.rows then ids[k] in u && u[ids[k]] == t[ids[k]]
      else if a[k] == |items| then ids[k] !in u
      else ids[k] in u && u[ids[k]] == Row(owner, Written(t[ids[k]].item, items[a[k]], equips))
  {
    assert ids[k] in ids;
    if ids[k] in f.rows {
      WriteRowsButElsewhere(t, items, ids, a, equips, f.rows, ids[k]);
    } else {
      WriteRowsButAt(t, items, ids, a, equips, f.rows, k);
    }
    var u := WriteRowsBut(t, items, ids, a, equips, f.rows);
    InsertKeepsOld(u, owner, items, Used(a) + f.items, next, |items|, ids[k]);
  }

  /** An item that had no row and whose INSERT succeeds has one. */
  lemma {:induction false} NewRowAtBut(t: Table, next: nat, owner: int, items: seq<Item>, ids: seq<nat>,
                                       a: seq<nat>, equips: set<int>, f: Fails, i: nat)
    requires |a| == |ids| && i < |items| && i !in a && i !in f.items
    ensures var u := ApplyBut(t, next, owner, items, ids, a, equips, f); var id := next + Rank(Used(a) + f.items, i);
      id in u && u[id] == Row(owner, items[i])
  {
    UsedIsGiven(a, i);
    InsertAt(WriteRowsBut(t, items, ids, a, equips, f.rows), owner, items, Used(a) + f.items, next, |items|, i);
  }

  // ------------------------------------------------------------- what is left out of step

  /** The row of an item is in step unless its UPDATE was needed and failed. */
  predicate RowInStep(t: Table, items: seq<Item>, ids: seq<nat>, a: seq<nat>, equips: set<int>, f: Fails, k: nat)
    requires |a| == |ids| && k < |ids| && ids[k] in t && a[k] < |items|
  {
    ids[k] in f.rows ==> Agrees(t[ids[k]].item, items[a[k]], equips)
  }

  /** No query that mattered failed: every UPDATE that was needed, every DELETE and every
      INSERT succeeded. */
  ghost predicate Harmless(t: Table, items: seq<Item>, ids: seq<nat>, a: seq<nat>, equips: set<int>, f: Fails)
    requires |a| == |ids| && forall k :: 0 <= k < |ids| ==> ids[k] in t
  {
    && (forall k :: 0 <= k < |ids| && a[k] < |items| ==> RowInStep(t, items, ids, a, equips, f, k))
    && (forall k :: 0 <= k < |ids| && a[k] >= |items| ==> ids[k] !in f.rows)
    && (forall i :: 0 <= i < |items| && i !in a ==> i !in f.items)
  }

  /** The row an item ends up in; of one whose INSERT failed, the row it would have had. */
  function HomeBut(ids: seq<nat>, a: seq<nat>, next: nat, f: Fails, i: nat): nat
    requires |ids| == |a|
  {
    if i in a then ids[SlotOf(a, i)] else next + Rank(Used(a) + f.items, i)
  }

  function HomesBut(ids: seq<nat>, a: seq<nat>, next: nat, f: Fails, n: nat): (h: seq<nat>)
    requires |ids| == |a|
    ensures |h| == n && forall i :: 0 <= i < n ==> h[i] == HomeBut(ids, a, next, f, i)
  {
    seq(n, i requires 0 <= i < n => HomeBut(ids, a, next, f, i))
  }

  /** The row of each item agrees with it exactly when no query it needed failed. */
  lemma RowAgreesBut(t: Table, next: nat, owner: int, items: seq<Item>, ids: seq<nat>, a: seq<nat>,
                     equips: set<int>, f: Fails, k: nat)
    requires Setting(t, next, owner, items, ids, a) && k < |ids| && a[k] < |items|
    ensures var u := ApplyBut(t, next, owner, items, ids, a, equips, f);
      && ids[k] in u && u[ids[k]].owner == owner
      && (Agrees(u[ids[k]].item, items[a[k]], equips) <==> RowInStep(t, items, ids, a, equips, f, k))
  {
    assert ids[k] in ids;
    RowAtBut(t, next, owner, items, ids, a, equips, f, k);
  }

  /** A failed INSERT's item has no row of its own. */
  lemma LostItemHasNoHome(t: Table, next: nat, owner: int, items: seq<Item>, ids: seq<nat>, a: seq<nat>,
                          equips: set<int>, f: Fails, i: nat)
    requires Setting(t, next, owner, items, ids, a) && i < |items| && i !in a && i in f.items
    ensures !SyncedBy(ApplyBut(t, next, owner, items, ids, a, equips, f), owner, items, equips,
                      HomesBut(ids, a, next, f, |items|))
  {
    var u := ApplyBut(t, next, owner, items, ids, a, equips, f);
    var home := HomesBut(ids, a, next, f, |items|);
    if home[i] in u {
      var w := WriteRowsBut(t, items, ids, a, equips, f.rows);
      NotOldBut(t, next, owner, items, ids, a, equips, f, home[i]);
      var j := InsertedBy(w, owner, items, Used(a) + f.items, next, |items|, home[i]);
      UsedIsGiven(a, j);
      assert home[j] == home[i] && i != j;
      if i < j { assert home[i] == home[j]; } else { assert home[j] == home[i]; }
    }
  }

  lemma NotOldBut(t: Table, next: nat, owner: int, items: seq<Item>, ids: seq<nat>, a: seq<nat>, equips: set<int>,
                  f: Fails, id: nat)
    requires Setting(t, next, owner, items, ids, a) && id >= next
    ensures id !in WriteRowsBut(t, items, ids, a, equips, f.rows)
  {
    assert id !in ids;
    WriteRowsButElsewhere(t, items, ids, a, equips, f.rows, id);
  }

  /** A failed DELETE leaves a row that is nobody's. */
  lemma StrayRowStays(t: Table, next: nat, owner: int, items: seq<Item>, ids: seq<nat>, a: seq<nat>,
                      equips: set<int>, f: Fails, k: nat)
    requires Setting(t, next, owner, items, ids, a) && k < |ids| && a[k] == |items| && ids[k] in f.rows
    ensures !SyncedBy(ApplyBut(t, next, owner, items, ids, a, equips, f), owner, items, equips,
                      HomesBut(ids, a, next, f, |items|))
  {
    var u := ApplyBut(t, next, owner, items, ids, a, equips, f);
    var home := HomesBut(ids, a, next, f, |items|);
    assert ids[k] in ids;
    RowAtBut(t, next, owner, items, ids, a, equips, f, k);
    forall i | 0 <= i < |home| ensures home[i] != ids[k] {
      if i in a {
        assert SlotOf(a, i) != k;
      }
    }
    assert ids[k] !in home;
  }

  lemma {:induction false} HomesButAreDistinct(t: Table, next: nat, owner: int, items: seq<Item>, ids: seq<nat>,
                                               a: seq<nat>, f: Fails, i: nat, j: nat)
    requires Setting(t, next, owner, items, ids, a) && i < j < |items|
    requires forall l :: 0 <= l < |items| && l !in a ==> l !in f.items
    ensures HomeBut(ids, a, next, f, i) != HomeBut(ids, a, next, f, j)
  {
    if i in a {
      assert ids[SlotOf(a, i)] in ids;
    } else {
      RankGrows(Used(a) + f.items, i, j);
    }
    if j in a {
      assert ids[SlotOf(a, j)] in ids;
    }
  }

  lemma HomeHoldsBut(t: Table, next: nat, owner: int, items: seq<Item>, ids: seq<nat>, a: seq<nat>,
                     equips: set<int>, f: Fails, i: nat)
    requires Setting(t, next, owner, items, ids, a) && i < |items| && Harmless(t, items, ids, a, equips, f)
    ensures var u := ApplyBut(t, next, owner, items, ids, a, equips, f); var h := HomeBut(ids, a, next, f, i);
      h in u && u[h].owner == owner && Agrees(u[h].item, items[i], equips)
  {
    if i in a {
      RowAgreesBut(t, next, owner, items, ids, a, equips, f, SlotOf(a, i));
    } else {
      NewRowAtBut(t, next, owner, items, ids, a, equips, f, i);
    }
  }

  lemma RowHasItemBut(t: Table, next: nat, owner: int, items: seq<Item>, ids: seq<nat>, a: seq<nat>,
                      equips: set<int>, f: Fails, id: nat) returns (i: nat)
    requires Setting(t, next, owner, items, ids, a) && Harmless(t, items, ids, a, equips, f)
    requires var u := ApplyBut(t, next, owner, items, ids, a, equips, f); id in u && u[id].owner == owner
    ensures i < |items| && HomeBut(ids, a, next, f, i) == id
  {
    if id in t {
      if t[id].owner != owner {
        OthersStayBut(t, next, owner, items, ids, a, equips, f, id);
        assert false;
      } else {
        var k := SlotOf(ids, id);
        RowAtBut(t, next, owner, items, ids, a, equips, f, k);
        i := a[k];
        assert SlotOf(a, i) == k;
      }
    } else {
      WriteRowsButElsewhere(t, items, ids, a, equips, f.rows, id);
      var w := WriteRowsBut(t, items, ids, a, equips, f.rows);
      i := InsertedBy(w, owner, items, Used(a) + f.items, next, |items|, id);
      UsedIsGiven(a, i);
    }
  }

  lemma HarmlessSyncs(t: Table, next: nat, owner: int, items: seq<Item>, ids: seq<nat>, a: seq<nat>,
                      equips: set<int>, f: Fails)
    requires Setting(t, next, owner, items, ids, a) && Harmless(t, items, ids, a, equips, f)
    ensures SyncedBy(ApplyBut(t, next, owner, items, ids, a, equips, f), owner, items, equips,
                     HomesBut(ids, a, next, f, |items|))
  {
    var u := ApplyBut(t, next, owner, items, ids, a, equips, f);
    var home := HomesBut(ids, a, next, f, |items|);
    forall i, j | 0 <= i < j < |home| ensures home[i] != home[j] {
      HomesButAreDistinct(t, next, owner, items, ids, a, f, i, j);
    }
    forall i | 0 <= i < |home|
      ensures home[i] in u && u[home[i]].owner == owner && Agrees(u[home[i]].item, items[i], equips)
    {
      HomeHoldsBut(t, next, owner, items, ids, a, equips, f, i);
    }
    forall id | id in u && u[id].owner == owner ensures id in home {
      var i := RowHasItemBut(t, next, owner, items, ids, a, equips, f, id);
      assert home[i] == id;
    }
  }

  lemma SyncedIsHarmless(t: Table, next: nat, owner: int, items: seq<Item>, ids: seq<nat>, a: seq<nat>,
                         equips: set<int>, f: Fails)
    requires Setting(t, next, owner, items, ids, a)
    requires SyncedBy(ApplyBut(t, next, owner, items, ids, a, equips, f), owner, items, equips,
                      HomesBut(ids, a, next, f, |items|))
    ensures Harmless(t, items, ids, a, equips, f)
  {
    var home := HomesBut(ids, a, next, f, |items|);
    forall k | 0 <= k < |ids| && a[k] < |items| ensures RowInStep(t, items, ids, a, equips, f, k) {
      RowAgreesBut(t, next, owner, items, ids, a, equips, f, k);
      SlotIsUnique(items, RowsOf(t, ids), a, k);
      assert home[a[k]] == ids[k];
    }
    forall k | 0 <= k < |ids| && a[k] >= |items| ensures ids[k] !in f.rows {
      if ids[k] in f.rows {
        StrayRowStays(t, next, owner, items, ids, a, equips, f, k);
      }
    }
    forall i | 0 <= i < |items| && i !in a ensures i !in f.items {
      if i in f.items {
        LostItemHasNoHome(t, next, owner, items, ids, a, equips, f, i);
      }
    }
  }

  lemma SlotIsUnique(items: seq<Item>, rows: seq<Item>, a: seq<nat>, k: nat)
    requires IsMatching(items, rows, a) && k < |a| && a[k] < |items|
    ensures SlotOf(a, a[k]) == k
  {
  }

  /** A save in which queries fail leaves every item in its row, and no row without an
      item, exactly when no query that mattered failed. */
  lemma InStepIffHarmless(t: Table, next: nat, owner: int, items: seq<Item>, ids: seq<nat>, equips: set<int>,
                          f: Fails)
    requires IsSelect(t, owner, ids) && NextIsFree(t, next)
    ensures var a := Assign(items, RowsOf(t, ids));
      SyncedBy(SyncBut(t, next, owner, items, ids, equips, f), owner, items, equips, HomesBut(ids, a, next, f, |items|))
      <==> Harmless(t, items, ids, a, equips, f)
  {
    var a := Assign(items, RowsOf(t, ids));
    AssignIsMatching(items, RowsOf(t, ids));
    if Harmless(t, items, ids, a, equips, f) {
      HarmlessSyncs(t, next, owner, items, ids, a, equips, f);
    }
    var u, home := SyncBut(t, next, owner, items, ids, equips, f), HomesBut(ids, a, next, f, |items|);
    if SyncedBy(u, owner, items, equips, home) {
      SyncedIsHarmless(t, next, owner, items, ids, a, equips, f);
    }
  }

  // -------------------------------------------------- in step, whichever row is whose

  /** The rows whose query fails. */
  function BadRows(ids: seq<nat>, f: Fails): set<nat> { set k: nat | k < |ids| && ids[k] in f.rows }

  /** The query that brings the item into a row fails: the UPDATE of the row it was given,
      or its INSERT. */
  predicate ItemFails(ids: seq<nat>, a: seq<nat>, f: Fails, i: nat)
    requires |ids| == |a|
  {
    if i in a then ids[SlotOf(a, i)] in f.rows else i in f.items
  }

  function BadItems(n: nat, ids: seq<nat>, a: seq<nat>, f: Fails): set<nat>
    requires |ids| == |a|
  {
    set i: nat | i < n && ItemFails(ids, a, f, i)
  }

  function GoodItems(n: nat, ids: seq<nat>, a: seq<nat>, f: Fails): set<nat>
    requires |ids| == |a|
  {
    set i: nat | i < n && !ItemFails(ids, a, f, i)
  }

  function IdsAt(ids: seq<nat>, ks: seq<nat>): (r: seq<nat>)
    requires Below(ks, |ids|)
    ensures |r| == |ks| && forall j :: 0 <= j < |ks| ==> r[j] == ids[ks[j]]
  {
    seq(|ks|, j requires 0 <= j < |ks| => ids[ks[j]])
  }

  function HomesAt(ids: seq<nat>, a: seq<nat>, next: nat, f: Fails, js: seq<nat>): (h: seq<nat>)
    requires |ids| == |a|
    ensures |h| == |js| && forall j :: 0 <= j < |js| ==> h[j] == HomeBut(ids, a, next, f, js[j])
  {
    seq(|js|, j requires 0 <= j < |js| => HomeBut(ids, a, next, f, js[j]))
  }

  /** The home of an item whose query does not fail. */
  lemma {:induction false} GoodHome(t: Table, next: nat, owner: int, items: seq<Item>, ids: seq<nat>, a: seq<nat>,
                                    equips: set<int>, f: Fails, i: nat)
    requires Setting(t, next, owner, items, ids, a) && i < |items| && !ItemFails(ids, a, f, i)
    ensures var u := ApplyBut(t, next, owner, items, ids, a, equips, f); var h := HomeBut(ids, a, next, f, i);
      h in u && u[h].owner == owner && View(u[h].item, equips) == View(items[i], equips)
    ensures HomeBut(ids, a, next, f, i) in ids ==> HomeBut(ids, a, next, f, i) !in f.rows
  {
    if i in a {
      var k := SlotOf(a, i);
      assert ids[k] in ids;
      RowAgreesBut(t, next, owner, items, ids, a, equips, f, k);
      AgreesIsView(ApplyBut(t, next, owner, items, ids, a, equips, f)[ids[k]].item, items[i], equips);
    } else {
      NewRowAtBut(t, next, owner, items, ids, a, equips, f, i);
    }
  }

  lemma {:induction false} GoodHomesAreDistinct(t: Table, next: nat, owner: int, items: seq<Item>, ids: seq<nat>,
                                                a: seq<nat>, f: Fails, i: nat, j: nat)
    requires Setting(t, next, owner, items, ids, a) && i < j < |items|
    requires !ItemFails(ids, a, f, i) && !ItemFails(ids, a, f, j)
    ensures HomeBut(ids, a, next, f, i) != HomeBut(ids, a, next, f, j)
  {
    if i in a {
      assert ids[SlotOf(a, i)] in ids;
    } else {
      RankGrows(Used(a) + f.items, i, j);
    }
    if j in a {
      assert ids[SlotOf(a, j)] in ids;
    }
  }

  /** A row left to the owner is one whose query failed, or the home of an item. */
  lemma {:induction false} WhoseRow(t: Table, next: nat, owner: int, items: seq<Item>, ids: seq<nat>, a: seq<nat>,
                                    equips: set<int>, f: Fails, id: nat) returns (i: nat)
    requires Setting(t, next, owner, items, ids, a)
    requires var u := ApplyBut(t, next, owner, items, ids, a, equips, f); id in u && u[id].owner == owner
    ensures (id in ids && id in f.rows)
      || (i < |items| && !ItemFails(ids, a, f, i) && HomeBut(ids, a, next, f, i) == id)
  {
    i := 0;
    if id in t {
      if t[id].owner != owner {
        OthersStayBut(t, next, owner, items, ids, a, equips, f, id);
        assert false;
      } else if id !in f.rows {
        var k := SlotOf(ids, id);
        RowAtBut(t, next, owner, items, ids, a, equips, f, k);
        i := a[k];
        SlotIsUnique(items, RowsOf(t, ids), a, k);
      }
    } else {
      WriteRowsButElsewhere(t, items, ids, a, equips, f.rows, id);
      var w := WriteRowsBut(t, items, ids, a, equips, f.rows);
      i := InsertedBy(w, owner, items, Used(a) + f.items, next, |items|, id);
      UsedIsGiven(a, i);
    }
  }

  /** The owner's rows afterwards: those whose query failed, and the homes of the items
      whose query did not. */
  function RowsLeft(n: nat, ids: seq<nat>, a: seq<nat>, next: nat, f: Fails): seq<nat>
    requires |ids| == |a| && Below(Where(|ids|, BadRows(ids, f)), |ids|)
  {
    IdsAt(ids, Where(|ids|, BadRows(ids, f))) + HomesAt(ids, a, next, f, Where(n, GoodItems(n, ids, a, f)))
  }

  lemma {:induction false} BadRowsLeft(t: Table, next: nat, owner: int, items: seq<Item>, ids: seq<nat>,
                                       a: seq<nat>, equips: set<int>, f: Fails)
    requires Setting(t, next, owner, items, ids, a)
    ensures var ks := Where(|ids|, BadRows(ids, f)); var u := ApplyBut(t, next, owner, items, ids, a, equips, f);
      && Below(ks, |ids|) && Distinct(IdsAt(ids, ks))
      && (forall id :: id in IdsAt(ids, ks) <==> id in ids && id in f.rows)
      && forall j :: 0 <= j < |ks| ==> ids[ks[j]] in t && ids[ks[j]] in u && u[ids[ks[j]]] == t[ids[ks[j]]]
  {
    var ks := Where(|ids|, BadRows(ids, f));
    WhereIs(|ids|, BadRows(ids, f));
    forall j | 0 <= j < |ks|
      ensures var u := ApplyBut(t, next, owner, items, ids, a, equips, f);
        ids[ks[j]] in f.rows && ids[ks[j]] in t && ids[ks[j]] in u && u[ids[ks[j]]] == t[ids[ks[j]]]
    {
      assert ks[j] in ks && ids[ks[j]] in ids;
      RowAtBut(t, next, owner, items, ids, a, equips, f, ks[j]);
    }
    forall id | id in ids && id in f.rows ensures id in IdsAt(ids, ks) {
      var k := SlotOf(ids, id);
      assert k in BadRows(ids, f) && k in ks;
      assert IdsAt(ids, ks)[SlotOf(ks, k)] == id;
    }
  }

  lemma {:induction false} GoodRowsLeft(t: Table, next: nat, owner: int, items: seq<Item>, ids: seq<nat>,
                                        a: seq<nat>, equips: set<int>, f: Fails)
    requires Setting(t, next, owner, items, ids, a)
    ensures var js := Where(|items|, GoodItems(|items|, ids, a, f)); var h := HomesAt(ids, a, next, f, js);
      var u := ApplyBut(t, next, owner, items, ids, a, equips, f);
      && Below(js, |items|) && Distinct(h)
      && (forall id :: id in h ==> id in u && u[id].owner == owner && (id in ids ==> id !in f.rows))
      && (forall i :: 0 <= i < |items| && !ItemFails(ids, a, f, i) ==> HomeBut(ids, a, next, f, i) in h)
      && forall j :: 0 <= j < |js| ==> h[j] in u && View(u[h[j]].item, equips) == View(items[js[j]], equips)
  {
    var js := Where(|items|, GoodItems(|items|, ids, a, f));
    var h := HomesAt(ids, a, next, f, js);
    WhereIs(|items|, GoodItems(|items|, ids, a, f));
    forall j | 0 <= j < |js|
      ensures var u := ApplyBut(t, next, owner, items, ids, a, equips, f);
        && h[j] in u && u[h[j]].owner == owner && (h[j] in ids ==> h[j] !in f.rows)
        && View(u[h[j]].item, equips) == View(items[js[j]], equips)
    {
      assert js[j] in js;
      GoodHome(t, next, owner, items, ids, a, equips, f, js[j]);
    }
    forall j, l | 0 <= j < l < |h| ensures h[j] != h[l] {
      assert js[j] in js && js[l] in js && js[j] != js[l];
      if js[j] < js[l] {
        GoodHomesAreDistinct(t, next, owner, items, ids, a, f, js[j], js[l]);
      } else {
        GoodHomesAreDistinct(t, next, owner, items, ids, a, f, js[l], js[j]);
      }
    }
    forall i | 0 <= i < |items| && !ItemFails(ids, a, f, i) ensures HomeBut(ids, a, next, f, i) in h {
      assert i in js;
      assert h[SlotOf(js, i)] == HomeBut(ids, a, next, f, i);
    }
  }

  lemma {:induction false} RowsLeftAreAll(t: Table, next: nat, owner: int, items: seq<Item>, ids: seq<nat>,
                                          a: seq<nat>, equips: set<int>, f: Fails)
    requires Setting(t, next, owner, items, ids, a) && Below(Where(|ids|, BadRows(ids, f)), |ids|)
    ensures IsSelect(ApplyBut(t, next, owner, items, ids, a, equips, f), owner, RowsLeft(|items|, ids, a, next, f))
  {
    var u := ApplyBut(t, next, owner, items, ids, a, equips, f);
    var ks := IdsAt(ids, Where(|ids|, BadRows(ids, f)));
    var hs := HomesAt(ids, a, next, f, Where(|items|, GoodItems(|items|, ids, a, f)));
    BadRowsLeft(t, next, owner, items, ids, a, equips, f);
    GoodRowsLeft(t, next, owner, items, ids, a, equips, f);
    forall id | id in ks ensures id in u && u[id].owner == owner {
      var j := SlotOf(ks, id);
      assert id in ids;
    }
    forall id | id in u && u[id].owner == owner ensures id in ks + hs {
      var i := WhoseRow(t, next, owner, items, ids, a, equips, f, id);
    }
    DistinctSum(ks, hs);
  }

  lemma DistinctSum(a: seq<nat>, b: seq<nat>)
    requires Distinct(a) && Distinct(b) && forall x :: x in a ==> x !in b
    ensures Distinct(a + b)
  {
    forall i, j | 0 <= i < j < |a + b| ensures (a + b)[i] != (a + b)[j] {
      if i < |a| <= j {
        assert a[i] in a && b[j - |a|] in b;
      }
    }
  }

  lemma {:induction false} ViewsLeft(t: Table, next: nat, owner: int, items: seq<Item>, ids: seq<nat>, a: seq<nat>,
                                     equips: set<int>, f: Fails)
    requires Setting(t, next, owner, items, ids, a)
    requires Below(Where(|ids|, BadRows(ids, f)), |ids|)
    requires Below(Where(|items|, GoodItems(|items|, ids, a, f)), |items|)
    requires var u := ApplyBut(t, next, owner, items, ids, a, equips, f);
      forall id :: id in RowsLeft(|items|, ids, a, next, f) ==> id in u
    ensures var u := ApplyBut(t, next, owner, items, ids, a, equips, f);
      Views(RowsOf(u, RowsLeft(|items|, ids, a, next, f)), equips) ==
      At(Views(RowsOf(t, ids), equips), Where(|ids|, BadRows(ids, f)))
      + At(Views(items, equips), Where(|items|, GoodItems(|items|, ids, a, f)))
  {
    BadRowsLeft(t, next, owner, items, ids, a, equips, f);
    GoodRowsLeft(t, next, owner, items, ids, a, equips, f);
  }

  /** What the rows and the items whose queries failed look like. */
  ghost predicate FailuresCancel(rows: seq<Item>, items: seq<Item>, ids: seq<nat>, a: seq<nat>, equips: set<int>,
                                 f: Fails)
    requires |a| == |ids| == |rows|
  {
    var ks, js := Where(|ids|, BadRows(ids, f)), Where(|items|, BadItems(|items|, ids, a, f));
    && Below(ks, |rows|) && Below(js, |items|)
    && multiset(At(Views(rows, equips), ks)) == multiset(At(Views(items, equips), js))
  }

  /** Whatever rows the items are given, after a save in which queries fail the table is
      in step exactly when the rows whose query failed are, in some order, as the items
      whose query failed should be. */
  lemma {:induction false} InStepIffFailuresCancel(t: Table, next: nat, owner: int, items: seq<Item>, ids: seq<nat>,
                                                   a: seq<nat>, equips: set<int>, f: Fails)
    requires Setting(t, next, owner, items, ids, a)
    ensures Synced(ApplyBut(t, next, owner, items, ids, a, equips, f), owner, items, equips) <==>
      FailuresCancel(RowsOf(t, ids), items, ids, a, equips, f)
  {
    var n, u := |items|, ApplyBut(t, next, owner, items, ids, a, equips, f);
    var bad, good := BadItems(n, ids, a, f), GoodItems(n, ids, a, f);
    WhereIsBelow(|ids|, BadRows(ids, f));
    WhereIsBelow(n, bad);
    WhereIsBelow(n, good);
    RowsLeftAreAll(t, next, owner, items, ids, a, equips, f);
    ViewsLeft(t, next, owner, items, ids, a, equips, f);
    SyncedIsViews(u, owner, items, equips, RowsLeft(n, ids, a, next, f));
    var vs := Views(items, equips);
    Split(vs, bad, good, n);
    assert vs[..n] == vs;
    var left := At(Views(RowsOf(t, ids), equips), Where(|ids|, BadRows(ids, f)));
    Cancel(multiset(left), multiset(At(vs, Where(n, bad))), multiset(At(vs, Where(n, good))));
  }

  // ------------------------------------------------------------ for the greedy choice

  /** No DELETE failed, and no INSERT. */
  ghost predicate NothingStray(items: seq<Item>, ids: seq<nat>, a: seq<nat>, f: Fails)
    requires |a| == |ids|
  {
    && (forall k :: 0 <= k < |ids| && a[k] >= |items| ==> ids[k] !in f.rows)
    && (forall i :: 0 <= i < |items| && i !in a ==> i !in f.items)
  }

  /** The rows whose UPDATE failed are, in some order, as the items they were given. */
  ghost predicate StaleRowsCancel(rows: seq<Item>, items: seq<Item>, ids: seq<nat>, a: seq<nat>, equips: set<int>,
                                  f: Fails)
    requires |a| == |ids| == |rows|
  {
    var ks := Where(|ids|, BadRows(ids, f));
    && Below(ks, |ids|) && Below(IdsAt(a, ks), |items|)
    && multiset(At(Views(rows, equips), ks)) == multiset(At(Views(items, equips), IdsAt(a, ks)))
  }

  lemma {:induction false} StaleAreBad(rows: seq<Item>, items: seq<Item>, ids: seq<nat>, a: seq<nat>, f: Fails)
    requires |a| == |ids| && IsMatching(items, rows, a) && NothingStray(items, ids, a, f)
    ensures var ks, js := Where(|ids|, BadRows(ids, f)), Where(|items|, BadItems(|items|, ids, a, f));
      && Below(ks, |ids|) && Below(js, |items|) && Below(IdsAt(a, ks), |items|)
      && Distinct(js) && Distinct(IdsAt(a, ks)) && forall i :: i in IdsAt(a, ks) <==> i in js
  {
    var ks, js := Where(|ids|, BadRows(ids, f)), Where(|items|, BadItems(|items|, ids, a, f));
    WhereIs(|ids|, BadRows(ids, f));
    WhereIs(|items|, BadItems(|items|, ids, a, f));
    forall j | 0 <= j < |ks| ensures a[ks[j]] < |items| && a[ks[j]] in js {
      assert ks[j] in ks;
      SlotIsUnique(items, rows, a, ks[j]);
    }
    forall i | i in js ensures i in IdsAt(a, ks) {
      var k := SlotOf(a, i);
      assert k in ks;
      assert IdsAt(a, ks)[SlotOf(ks, k)] == i;
    }
  }

  lemma {:induction false} StaleCancel(rows: seq<Item>, items: seq<Item>, ids: seq<nat>, a: seq<nat>,
                                       equips: set<int>, f: Fails)
    requires |a| == |ids| && IsMatching(items, rows, a) && NothingStray(items, ids, a, f)
    ensures FailuresCancel(rows, items, ids, a, equips, f) <==> StaleRowsCancel(rows, items, ids, a, equips, f)
  {
    StaleAreBad(rows, items, ids, a, f);
    AtInAnyOrder(Views(items, equips), Where(|items|, BadItems(|items|, ids, a, f)),
                 IdsAt(a, Where(|ids|, BadRows(ids, f))));
  }

  /** When failures cancel, as many rows as items failed of each kind that the comparison
      tells apart. */
  lemma {:induction false} AsManyFailed(rows: seq<Item>, items: seq<Item>, ids: seq<nat>, a: seq<nat>,
                                        equips: set<int>, f: Fails, it: Item)
    requires |a| == |ids| == |rows| && FailuresCancel(rows, items, ids, a, equips, f)
    ensures |Where(|ids|, LikeAt(Views(rows, equips), BadRows(ids, f), it))| ==
      |Where(|items|, LikeAt(Views(items, equips), BadItems(|items|, ids, a, f), it))|
  {
    var vs, ws := Views(rows, equips), Views(items, equips);
    CountLikeAt(vs, |ids|, BadRows(ids, f), it);
    CountLikeAt(ws, |items|, BadItems(|items|, ids, a, f), it);
    CountLikeInAnyOrder(At(vs, Where(|ids|, BadRows(ids, f))),
                        At(ws, Where(|items|, BadItems(|items|, ids, a, f))), it);
  }

  lemma {:induction false} MoreSlots(a: seq<nat>, js: seq<nat>, ks: seq<nat>, d: nat)
    requires Distinct(js) && d in ks
    requires forall j :: 0 <= j < |js| ==> js[j] in a && SlotOf(a, js[j]) in ks && SlotOf(a, js[j]) != d
    ensures |js| < |ks|
  {
    var slots := seq(|js|, j requires 0 <= j < |js| => SlotOf(a, js[j]));
    forall i, j | 0 <= i < j < |js| ensures slots[i] != slots[j] {
      assert a[slots[i]] == js[i] && a[slots[j]] == js[j];
    }
    Pigeonhole(slots + [d], ks);
  }

  lemma {:induction false} MoreGiven(items: seq<Item>, rows: seq<Item>, a: seq<nat>, ks: seq<nat>, js: seq<nat>,
                                     l: nat)
    requires IsMatching(items, rows, a) && Below(ks, |a|) && Distinct(ks) && l in js
    requires forall j :: 0 <= j < |ks| ==> a[ks[j]] < |items| && a[ks[j]] in js && a[ks[j]] != l
    ensures |ks| < |js|
  {
    var given := IdsAt(a, ks);
    forall i, j | 0 <= i < j < |ks| ensures given[i] != given[j] {
      SlotIsUnique(items, rows, a, ks[i]);
      SlotIsUnique(items, rows, a, ks[j]);
    }
    Pigeonhole(given + [l], js);
  }

  lemma {:induction false} OfAnother(rows: seq<Item>, items: seq<Item>, ids: seq<nat>, equips: set<int>, f: Fails,
                                     d: nat, i: nat)
    requires |ids| == |rows| && d < |ids| && Assign(items, rows)[d] >= |items|
    requires i in LikeAt(Views(items, equips), BadItems(|items|, ids, Assign(items, rows), f), rows[d])
    ensures var a := Assign(items, rows);
      i in a && SlotOf(a, i) in LikeAt(Views(rows, equips), BadRows(ids, f), rows[d]) && SlotOf(a, i) != d
  {
    var a := Assign(items, rows);
    AssignIsMatching(items, rows);
    UsedIsGiven(a, i);
    if i !in a {
      AssignIsMaximal(items, rows, d, i);
    }
  }

  /** A row that was to be deleted: there are more failed rows like it than failed items. */
  lemma {:induction false} NoDeleteFailed(rows: seq<Item>, items: seq<Item>, ids: seq<nat>, equips: set<int>,
                                          f: Fails, d: nat)
    requires |ids| == |rows| && d < |ids| && Assign(items, rows)[d] >= |items|
    requires FailuresCancel(rows, items, ids, Assign(items, rows), equips, f)
    ensures ids[d] !in f.rows
  {
    var a, it := Assign(items, rows), rows[d];
    var kl := LikeAt(Views(rows, equips), BadRows(ids, f), it);
    var jl := LikeAt(Views(items, equips), BadItems(|items|, ids, a, f), it);
    AsManyFailed(rows, items, ids, a, equips, f, it);
    if ids[d] in f.rows {
      var ks, js := Where(|ids|, kl), Where(|items|, jl);
      WhereIs(|ids|, kl);
      WhereIs(|items|, jl);
      forall j | 0 <= j < |js| ensures js[j] in a && SlotOf(a, js[j]) in ks && SlotOf(a, js[j]) != d {
        assert js[j] in js;
        OfAnother(rows, items, ids, equips, f, d, js[j]);
      }
      assert d in ks;
      MoreSlots(a, js, ks, d);
    }
  }

  lemma {:induction false} GivenAnother(rows: seq<Item>, items: seq<Item>, ids: seq<nat>, equips: set<int>,
                                        f: Fails, l: nat, k: nat)
    requires |ids| == |rows| && l < |items| && l !in Assign(items, rows)
    requires k in LikeAt(Views(rows, equips), BadRows(ids, f), items[l])
    ensures var a := Assign(items, rows);
      a[k] in LikeAt(Views(items, equips), BadItems(|items|, ids, a, f), items[l]) && a[k] != l
  {
    var a := Assign(items, rows);
    AssignIsMatching(items, rows);
    UsedIsGiven(a, l);
    if a[k] == |items| {
      AssignIsMaximal(items, rows, k, l);
    }
    SlotIsUnique(items, rows, a, k);
  }

  /** An item that was to be inserted: there are more failed items like it than rows. */
  lemma {:induction false} NoInsertFailed(rows: seq<Item>, items: seq<Item>, ids: seq<nat>, equips: set<int>,
                                          f: Fails, l: nat)
    requires |ids| == |rows| && l < |items| && l !in Assign(items, rows)
    requires FailuresCancel(rows, items, ids, Assign(items, rows), equips, f)
    ensures l !in f.items
  {
    var a, it := Assign(items, rows), items[l];
    var kl := LikeAt(Views(rows, equips), BadRows(ids, f), it);
    var jl := LikeAt(Views(items, equips), BadItems(|items|, ids, a, f), it);
    AssignIsMatching(items, rows);
    AsManyFailed(rows, items, ids, a, equips, f, it);
    if l in f.items {
      var ks, js := Where(|ids|, kl), Where(|items|, jl);
      WhereIs(|ids|, kl);
      WhereIs(|items|, jl);
      forall j | 0 <= j < |ks| ensures a[ks[j]] < |items| && a[ks[j]] in js && a[ks[j]] != l {
        assert ks[j] in ks;
        GivenAnother(rows, items, ids, equips, f, l, ks[j]);
      }
      assert l in js;
      MoreGiven(items, rows, a, ks, js, l);
    }
  }

  lemma {:induction false} CancelIffStaleCancel(rows: seq<Item>, items: seq<Item>, ids: seq<nat>, equips: set<int>,
                                                f: Fails)
    requires |ids| == |rows|
    ensures var a := Assign(items, rows);
      FailuresCancel(rows, items, ids, a, equips, f) <==>
      NothingStray(items, ids, a, f) && StaleRowsCancel(rows, items, ids, a, equips, f)
  {
    var a := Assign(items, rows);
    AssignIsMatching(items, rows);
    if FailuresCancel(rows, items, ids, a, equips, f) {
      forall k | 0 <= k < |ids| && a[k] >= |items| ensures ids[k] !in f.rows {
        NoDeleteFailed(rows, items, ids, equips, f, k);
      }
      forall i | 0 <= i < |items| && i !in a ensures i !in f.items {
        NoInsertFailed(rows, items, ids, equips, f, i);
      }
    }
    if NothingStray(items, ids, a, f) {
      StaleCancel(rows, items, ids, a, equips, f);
    }
  }

  /** A save in which queries fail leaves the table in step exactly when no DELETE and no
      INSERT failed, and the rows whose UPDATE failed are, in some order, as the items that
      they were given. */
  lemma {:induction false} InStepIffStaleCancel(t: Table, next: nat, owner: int, items: seq<Item>, ids: seq<nat>,
                                                equips: set<int>, f: Fails)
    requires IsSelect(t, owner, ids) && NextIsFree(t, next)
    ensures var rows := RowsOf(t, ids); var a := Assign(items, rows);
      Synced(SyncBut(t, next, owner, items, ids, equips, f), owner, items, equips) <==>
      NothingStray(items, ids, a, f) && StaleRowsCancel(rows, items, ids, a, equips, f)
  {
    var rows := RowsOf(t, ids);
    AssignIsMatching(items, rows);
    InStepIffFailuresCancel(t, next, owner, items, ids, Assign(items, rows), equips, f);
    CancelIffStaleCancel(rows, items, ids, equips, f);
  }

  // ------------------------------------------------------ when the SELECT's result is lost

  lemma {:induction false} AllRowsBad(t: Table, items: seq<Item>, ids: seq<nat>, a: seq<nat>, equips: set<int>,
                                      bad: set<nat>)
    requires |a| == |ids| && forall k :: 0 <= k < |ids| ==> ids[k] in bad
    ensures WriteRowsBut(t, items, ids, a, equips, bad) == t
    decreases |ids|
  {
    if ids != [] {
      AllRowsBad(t, items, ids[..|ids| - 1], a[..|ids| - 1], equips, bad);
    }
  }

  function Elements(ids: seq<nat>): set<nat> { set id | id in ids }

  lemma {:induction false} InsertSame(t: Table, owner: int, items: seq<Item>, used: set<nat>, used': set<nat>,
                                      next: nat, k: nat)
    requires k <= |items| && forall i: nat :: i < k ==> (i in used <==> i in used')
    ensures Insert(t, owner, items, used, next, k) == Insert(t, owner, items, used', next, k)
    ensures Rank(used, k) == Rank(used', k)
  {
    if k > 0 {
      InsertSame(t, owner, items, used, used', next, k - 1);
    }
  }

  /** With no rows seen, every item is inserted.  It is as if all rows had been seen, none
      of them given an item, and none deleted. */
  lemma {:induction false} LostIsAllBad(t: Table, next: nat, owner: int, items: seq<Item>, ids: seq<nat>,
                                        equips: set<int>, f: Fails)
    requires IsSelect(t, owner, ids)
    ensures var none := seq(|ids|, _ => |items|); var all := Fails(Elements(ids), f.items);
      SyncBut(t, next, owner, items, [], equips, f) == ApplyBut(t, next, owner, items, ids, none, equips, all)
  {
    var none := seq(|ids|, _ => |items|);
    AllRowsBad(t, items, ids, none, equips, Elements(ids));
    assert RowsOf(t, []) == [];
    assert forall i: nat :: i < |items| ==> (i in Used([]) + f.items <==> i in Used(none) + f.items);
    InsertSame(t, owner, items, Used([]) + f.items, Used(none) + f.items, next, |items|);
  }

  /** Without the SELECT's result the table is in step exactly when the owner's rows are, in
      some order, as the items whose INSERT failed: nothing else makes up for them. */
  lemma {:induction false} LostInStep(t: Table, next: nat, owner: int, items: seq<Item>, ids: seq<nat>,
                                      equips: set<int>, f: Fails)
    requires IsSelect(t, owner, ids) && NextIsFree(t, next)
    ensures Below(Where(|items|, f.items), |items|)
    ensures Synced(SyncBut(t, next, owner, items, [], equips, f), owner, items, equips) <==>
      multiset(Views(RowsOf(t, ids), equips)) == multiset(At(Views(items, equips), Where(|items|, f.items)))
  {
    var none, all := seq(|ids|, _ => |items|), Fails(Elements(ids), f.items);
    LostIsAllBad(t, next, owner, items, ids, equips, f);
    InStepIffFailuresCancel(t, next, owner, items, ids, none, equips, all);
    WhereIsBelow(|items|, f.items);
    WhereSame(|items|, f.items, BadItems(|items|, ids, none, all));
    AllAreBad(Views(RowsOf(t, ids), equips), ids, all);
  }

  lemma {:induction false} WhereSame(n: nat, s: set<nat>, s': set<nat>)
    requires forall k: nat :: k < n ==> (k in s <==> k in s')
    ensures Where(n, s) == Where(n, s')
  {
    if n > 0 {
      WhereSame(n - 1, s, s');
    }
  }

  lemma AllAreBad(vs: seq<Item>, ids: seq<nat>, all: Fails)
    requires |vs| == |ids| && forall k :: 0 <= k < |ids| ==> ids[k] in all.rows
    ensures Below(Where(|ids|, BadRows(ids, all)), |ids|) && At(vs, Where(|ids|, BadRows(ids, all))) == vs
  {
    EveryPlace(|ids|, BadRows(ids, all));
  }

  lemma {:induction false} EveryPlace(n: nat, s: set<nat>)
    requires forall k: nat :: k < n ==> k in s
    ensures |Where(n, s)| == n && forall k :: 0 <= k < n ==> Where(n, s)[k] == k
  {
    if n > 0 {
      EveryPlace(n - 1, s);
    }
  }

  // ------------------------------------------------------------------------- an input

  /** Two stacks in each other's row, and both UPDATEs fail: neither row is that of its
      item, and the table is in step all the same. */
  lemma SwappedAllTheSame(five: Item, nine: Item)
    requires five.amount == 5 && nine == five.(amount := 9)
    ensures var t: Table := map[1 := Row(7, nine), 2 := Row(7, five)]; var f := Fails({1, 2}, {});
      && SyncBut(t, 3, 7, [five, nine], [1, 2], {}, f) == t
      && Synced(t, 7, [five, nine], {})
      && !Harmless(t, [five, nine], [1, 2], Assign([five, nine], RowsOf(t, [1, 2])), {}, f)
  {
    var t: Table, f := map[1 := Row(7, nine), 2 := Row(7, five)], Fails({1, 2}, {});
    var items, rows := [five, nine], RowsOf(t, [1, 2]);
    assert rows == [nine, five];
    SwappedAssign(five, nine);
    AllRowsBad(t, items, [1, 2], [0, 1], {}, f.rows);
    assert [0, 1][0] == 0 && [0, 1][1] == 1;
    InsertNothing(t, 7, items, Used([0, 1]) + f.items, 3, 2);
    assert SyncedBy(t, 7, items, {}, [2, 1]);
    assert !RowInStep(t, items, [1, 2], [0, 1], {}, f, 0);
  }
}
