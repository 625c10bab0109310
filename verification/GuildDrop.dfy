/** The saver's drops against the members' marks: what is lost when a guild leaves the
    cache. */
module GuildDrop {
  import opened GuildMembers
  import Saver = GuildSaver

  /** The guild as the saver sees it; other is what else is to be saved. */
  function CachedOf(g: Guild, other: set<Saver.Part>): Saver.Cached {
    Saver.Cached(g.id, Saver.Flags(if g.flagged then other + {Saver.Member} else other - {Saver.Member}, g.remove))
  }

  /** The saver drops the guild in any tick from now on, without trying to save it. */
  lemma DroppedAtOnce(g: Guild, last: int, gs: seq<Saver.Cached>, oks: seq<bool>, j: nat)
    requires |oks| == |gs| && Saver.IdsOk(gs) && last >= 0 && j < |gs| && gs[j] == CachedOf(g, {})
    requires g.remove && !g.flagged
    ensures Saver.Turn(gs, Saver.Start(last, gs)) != j
    ensures var kept := Saver.Tick(last, gs, oks).0; Saver.Find(kept, g.id) == |kept|
  {
    Saver.OnlySavedIsCleared(last, gs, oks, j);
  }

  /** Where all marks have been noted, a guild that is dropped has nothing to lose. */
  lemma NotedLosesNothing(g: Guild, rows: Rows, other: set<Saver.Part>, i: nat)
    requires Inv(g, rows) && Noted(g) && Saver.Removable(CachedOf(g, other))
    requires i < g.max && Occupied(g.slots[i])
    ensures InStep(g.id, g.slots[i], rows)
  {
    assert g.flagged ==> Saver.Member in CachedOf(g, other).saveFlag.dirty;
  }

  /** Every member is what its row says. */
  ghost predicate AllInStep(g: Guild, rows: Rows) {
    forall i :: 0 <= i < g.max && i < |g.slots| && Occupied(g.slots[i]) ==> InStep(g.id, g.slots[i], rows)
  }

  lemma NotedIsInStep(g: Guild, rows: Rows)
    requires Inv(g, rows) && Noted(g) && !g.flagged
    ensures AllInStep(g, rows)
  {
  }

  /** With the save bit clear, going offline leaves every member what its row says exactly
      when the character, wherever it is a member, was offline already. */
  lemma OfflineLosesIff(g: Guild, rows: Rows, c: int)
    requires Inv(g, rows) && Noted(g) && !g.flagged
    ensures AllInStep(CharOffline(g, c), rows) <==>
      forall i :: 0 <= i < g.max && Occupied(g.slots[i]) && g.slots[i].char_ == c ==> g.slots[i].data.online == 0
  {
    var h := CharOffline(g, c);
    NotedIsInStep(g, rows);
    forall i | 0 <= i < g.max && Occupied(g.slots[i])
      ensures InStep(g.id, h.slots[i], rows) <==> (g.slots[i].char_ == c ==> g.slots[i].data.online == 0)
    {
      assert InStep(g.id, g.slots[i], rows);
      OnlineChanges(g.slots[i].data, 0);
    }
    forall i | 0 <= i < g.max ensures Occupied(h.slots[i]) <==> Occupied(g.slots[i]) {
    }
  }

  lemma OnlineChanges(d: Data, online: int)
    ensures d.(online := online) == d <==> d.online == online
  {
  }

  /** And coming online does so exactly when there is no such member in the first place
      found, or it was online already. */
  lemma OnlineLosesIff(g: Guild, rows: Rows, c: int)
    requires Inv(g, rows) && Noted(g) && !g.flagged
    ensures var i := FindChar(g.slots, c, g.max, 0);
      AllInStep(CharOnline(g, c), rows) <==> i == g.max || !Occupied(g.slots[i]) || g.slots[i].data.online == 1
  {
    var i, h := FindChar(g.slots, c, g.max, 0), CharOnline(g, c);
    NotedIsInStep(g, rows);
    if i < g.max {
      OnlineChanges(g.slots[i].data, 1);
      forall k | 0 <= k < g.max && k != i ensures h.slots[k] == g.slots[k] {
      }
      assert Occupied(h.slots[i]) <==> Occupied(g.slots[i]);
      if Occupied(g.slots[i]) {
        assert InStep(g.id, g.slots[i], rows);
      }
    }
  }

  /** What a later load shows of a member that the rows know. */
  lemma ReloadShowsRow(id: int, loaded: seq<(int, Row)>, max: nat, rows: Rows, k: nat)
    requires max <= MAX_GUILD && IsFetch(id, loaded, rows) && k < |loaded| && k < max
    ensures var s := Load(id, loaded, max).slots[k];
      s.char_ == loaded[k].0 && s.data.online == rows[(id, s.char_)].data.online
  {
  }

  /** The last member of a guild to be online, all saved. */
  predicate LastOnline(g: Guild, i: nat) {
    && i < g.max <= |g.slots| && Occupied(g.slots[i]) && g.slots[i].mark.Unmodified? && g.slots[i].data.online != 0
    && forall k :: 0 <= k < g.max && g.slots[k].data.online != 0 ==> g.slots[k].char_ == g.slots[i].char_
  }

  /** When that member goes offline, the next tick drops the guild unsaved, and whenever it
      is loaded again the member is online. */
  lemma LastOfflineIsLost(g: Guild, rows: Rows, i: nat, last: int, gs: seq<Saver.Cached>, oks: seq<bool>, j: nat,
                          loaded: seq<(int, Row)>, max: nat, k: nat)
    requires Inv(g, rows) && !g.flagged && LastOnline(g, i)
    requires |oks| == |gs| && Saver.IdsOk(gs) && last >= 0 && j < |gs|
    requires gs[j] == CachedOf(CharOffline(g, g.slots[i].char_), {})
    requires max <= MAX_GUILD && IsFetch(g.id, loaded, rows)
    requires k < |loaded| && k < max && loaded[k].0 == g.slots[i].char_
    ensures CharOffline(g, g.slots[i].char_).slots[i].data.online == 0
    ensures Saver.Turn(gs, Saver.Start(last, gs)) != j
    ensures var kept := Saver.Tick(last, gs, oks).0; Saver.Find(kept, g.id) == |kept|
    ensures Load(g.id, loaded, max).slots[k].data.online == g.slots[i].data.online != 0
  {
    var h := CharOffline(g, g.slots[i].char_);
    AllOffline(g, i);
    DroppedAtOnce(h, last, gs, oks, j);
    ReloadShowsRow(g.id, loaded, max, rows, k);
    assert InStep(g.id, g.slots[i], rows);
  }

  lemma AllOffline(g: Guild, i: nat)
    requires LastOnline(g, i)
    ensures var h := CharOffline(g, g.slots[i].char_); h.remove && h.slots[i].data.online == 0
  {
    var h := CharOffline(g, g.slots[i].char_);
    forall k | 0 <= k < g.max ensures h.slots[k].data.online == 0 {
    }
  }

  const ROW: Row := Row(1, NO_DATA.(online := 1))

  /** A guild with one member, which is online, and saved. */
  function Small(): Guild {
    Guild(9, seq(MAX_GUILD, _ => EMPTY)[0 := Slot(1, 5, ROW.data, Unmodified)], 4, false, false)
  }

  lemma TickOfOne(g: Saver.Cached, ok: bool)
    requires Saver.Removable(g)
    ensures Saver.Tick(0, [g], [ok]) == ([], 0)
  {
    assert Saver.Walk(0, 1, [g], [ok], 1) == Saver.Visit(Saver.Sweep([], 0, 1), g, ok);
  }

  lemma OneMemberLost()
    ensures Inv(Small(), map[(9, 5) := ROW])
    ensures CharOffline(Small(), 5).slots[0].data.online == 0
    ensures Saver.Tick(0, [CachedOf(CharOffline(Small(), 5), {})], [true]) == ([], 0)
    ensures Load(9, [(5, ROW)], 4).slots[0].data.online == 1
  {
    assert Small().slots[0] == Slot(1, 5, ROW.data, Unmodified);
    AllOffline(Small(), 0);
    TickOfOne(CachedOf(CharOffline(Small(), 5), {}), true);
  }
}
