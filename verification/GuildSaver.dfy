/** The guild saver: a timer that walks the guild cache, saves at most one dirty guild a
    tick, taking turns, and drops the guilds nobody needs any more. */
module GuildSaver {
  /** The bits of GS_MASK: the parts of a guild that are to be saved. */
  datatype Part = Basic | Member | Position | Alliance | Expulsion | Skill | Emblem | Connect | Level | Mes

  /** save_flag: the parts to be saved, and GS_REMOVE. */
  datatype Flags = Flags(dirty: set<Part>, remove: bool)

  datatype Cached = Cached(id: int, saveFlag: Flags)

  predicate Dirty(g: Cached) { g.saveFlag.dirty != {} }

  /** save_flag &= ~GS_MASK. */
  function Clean(g: Cached): Cached { g.(saveFlag := Flags({}, g.saveFlag.remove)) }

  /** save_flag == GS_REMOVE: nothing to save, and wanted no more. */
  predicate Removable(g: Cached) { g.saveFlag == Flags({}, true) }

  /** Where a sweep stands: 0 looking for the last guild, 1 saving the next, 2 done. */
  datatype Sweep = Sweep(kept: seq<Cached>, last: int, state: nat)

  /** What the sweep makes of one guild; ok is whether inter_guild_tosql succeeds. */
  function Visited(g: Cached, last: int, state: nat, ok: bool): Cached {
    if state == 0 && g.id == last then g
    else if Dirty(g) && state == 1 && ok then Clean(g)
    else g
  }

  predicate Attempts(g: Cached, last: int, state: nat) { state == 1 && Dirty(g) }

  /** guild_save. */
  function Visit(s: Sweep, g: Cached, ok: bool): Sweep {
    var h := Visited(g, s.last, s.state, ok);
    var kept := if Removable(h) then s.kept else s.kept + [h];
    if s.state == 0 && g.id == s.last then Sweep(kept, s.last, 1)
    else if Attempts(g, s.last, s.state) then Sweep(kept, g.id, 2)
    else Sweep(kept, s.last, s.state)
  }

  /** foreach over the first n guilds of the cache; oks[i] is the fortune of a save of guild i. */
  function Walk(last: int, state: nat, gs: seq<Cached>, oks: seq<bool>, n: nat): Sweep
    requires |oks| == |gs| && n <= |gs|
  {
    if n == 0 then Sweep([], last, state) else Visit(Walk(last, state, gs, oks, n - 1), gs[n - 1], oks[n - 1])
  }

  /** The state a walk begins in. */
  function Begin(last: int): nat { if last == 0 then 1 else 0 }

  /** guild_save_timer: the cache and the last guild saved, after the tick. */
  function Tick(last: int, gs: seq<Cached>, oks: seq<bool>): (r: (seq<Cached>, int))
    requires |oks| == |gs|
  {
    var s := Walk(last, Begin(last), gs, oks, |gs|);
    (s.kept, if s.state != 2 then 0 else s.last)
  }

  // ----------------------------------------------------------------- whose turn it is

  ghost predicate IdsOk(gs: seq<Cached>) {
    && (forall i :: 0 <= i < |gs| ==> gs[i].id > 0)
    && (forall i, j :: 0 <= i < j < |gs| ==> gs[i].id != gs[j].id)
  }

  /** Where in the cache the guild is; |gs| if it is not there. */
  function Find(gs: seq<Cached>, id: int): (i: nat)
    ensures i <= |gs| && (i < |gs| ==> gs[i].id == id)
    ensures forall k :: 0 <= k < i ==> gs[k].id != id
    decreases |gs|
  {
    if gs == [] || gs[0].id == id then 0 else 1 + Find(gs[1..], id)
  }

  /** From where on a tick looks for a dirty guild. */
  function Start(last: int, gs: seq<Cached>): (s: nat)
    ensures s <= |gs|
  {
    if last == 0 then 0 else if Find(gs, last) < |gs| then Find(gs, last) + 1 else |gs|
  }

  /** The guild a tick tries to save; |gs| if none. */
  function Turn(gs: seq<Cached>, s: nat): (i: nat)
    requires s <= |gs|
    ensures s <= i <= |gs| && (i < |gs| ==> Dirty(gs[i]))
    ensures forall k :: s <= k < i ==> !Dirty(gs[k])
    decreases |gs| - s
  {
    if s == |gs| || Dirty(gs[s]) then s else Turn(gs, s + 1)
  }

  /** What the walk has done to the first n guilds. */
  ghost predicate WalkedTo(last: int, gs: seq<Cached>, n: nat, s: Sweep) {
    && n <= |gs|
    && var start, turn := Start(last, gs), Turn(gs, Start(last, gs));
       if n > turn && turn < |gs| then s.state == 2 && s.last == gs[turn].id
       else s.last == last && (s.state == if last == 0 || Find(gs, last) < n then 1 else 0)
  }

  lemma VisitGoesOn(last: int, gs: seq<Cached>, n: nat, s: Sweep, ok: bool)
    requires IdsOk(gs) && last >= 0 && n < |gs| && WalkedTo(last, gs, n, s)
    ensures WalkedTo(last, gs, n + 1, Visit(s, gs[n], ok))
  {
    var start, find, turn := Start(last, gs), Find(gs, last), Turn(gs, Start(last, gs));
    assert find < n ==> gs[find].id != gs[n].id;
    assert gs[n].id == last ==> find == n;
  }

  lemma {:induction false} WalkTo(last: int, gs: seq<Cached>, oks: seq<bool>, n: nat)
    requires |oks| == |gs| && IdsOk(gs) && last >= 0 && n <= |gs|
    ensures WalkedTo(last, gs, n, Walk(last, Begin(last), gs, oks, n))
    decreases n
  {
    if n > 0 {
      WalkTo(last, gs, oks, n - 1);
      VisitGoesOn(last, gs, n - 1, Walk(last, Begin(last), gs, oks, n - 1), oks[n - 1]);
    }
  }

  /** A tick tries to save one guild at most: the first dirty one after the last. */
  lemma TickTakesTurns(last: int, gs: seq<Cached>, oks: seq<bool>)
    requires |oks| == |gs| && IdsOk(gs) && last >= 0
    ensures var turn := Turn(gs, Start(last, gs));
      Tick(last, gs, oks).1 == if turn < |gs| then gs[turn].id else 0
  {
    WalkTo(last, gs, oks, |gs|);
  }

  // ------------------------------------------------------------ what becomes of a guild

  /** The guild with its dirty bits cleared if it was saved. */
  function AfterTick(last: int, gs: seq<Cached>, oks: seq<bool>, i: nat): Cached
    requires |oks| == |gs| && i < |gs|
  {
    if i == Turn(gs, Start(last, gs)) && oks[i] then Clean(gs[i]) else gs[i]
  }

  /** The guilds that stay, in their order. */
  function Remaining(last: int, gs: seq<Cached>, oks: seq<bool>, n: nat): seq<Cached>
    requires |oks| == |gs| && n <= |gs|
  {
    if n == 0 then []
    else
      var g := AfterTick(last, gs, oks, n - 1);
      Remaining(last, gs, oks, n - 1) + if Removable(g) then [] else [g]
  }

  lemma VisitIsAfterTick(last: int, gs: seq<Cached>, oks: seq<bool>, n: nat, s: Sweep)
    requires |oks| == |gs| && IdsOk(gs) && last >= 0 && n < |gs| && WalkedTo(last, gs, n, s)
    ensures Visited(gs[n], s.last, s.state, oks[n]) == AfterTick(last, gs, oks, n)
  {
  }

  lemma {:induction false} WalkKeeps(last: int, gs: seq<Cached>, oks: seq<bool>, n: nat)
    requires |oks| == |gs| && IdsOk(gs) && last >= 0 && n <= |gs|
    ensures Walk(last, Begin(last), gs, oks, n).kept == Remaining(last, gs, oks, n)
    decreases n
  {
    if n > 0 {
      var s := Walk(last, Begin(last), gs, oks, n - 1);
      WalkKeeps(last, gs, oks, n - 1);
      WalkTo(last, gs, oks, n - 1);
      VisitIsAfterTick(last, gs, oks, n - 1, s);
      VisitKeeps(s, gs[n - 1], oks[n - 1]);
    }
  }

  lemma VisitKeeps(s: Sweep, g: Cached, ok: bool)
    ensures var h := Visited(g, s.last, s.state, ok); Visit(s, g, ok).kept == s.kept + if Removable(h) then [] else [h]
  {
  }

  /** Save bits are cleared only for the guild whose turn it is and only if its save
      succeeded; a guild that is dropped has no save bit left. */
  lemma OnlySavedIsCleared(last: int, gs: seq<Cached>, oks: seq<bool>, i: nat)
    requires |oks| == |gs| && IdsOk(gs) && last >= 0 && i < |gs|
    ensures var g := AfterTick(last, gs, oks, i); var kept := Tick(last, gs, oks).0;
      && (g in kept <==> g.saveFlag.dirty != {} || !g.saveFlag.remove)
      && (g !in kept ==> !Dirty(g) && Find(kept, gs[i].id) == |kept|)
      && (g.saveFlag != gs[i].saveFlag ==> i == Turn(gs, Start(last, gs)) && oks[i] && !Dirty(g))
      && (i == Turn(gs, Start(last, gs)) && oks[i] ==> !Dirty(g))
      && g == gs[i].(saveFlag := gs[i].saveFlag.(dirty := g.saveFlag.dirty))
  {
    WalkKeeps(last, gs, oks, |gs|);
    RemainingHas(last, gs, oks, |gs|, i);
    if Removable(AfterTick(last, gs, oks, i)) {
      RemainingIds(last, gs, oks, |gs|, i);
    }
  }

  lemma InEither(a: seq<Cached>, b: seq<Cached>, g: Cached)
    ensures g in a + b <==> g in a || g in b
  {
  }

  lemma SameGuild(last: int, gs: seq<Cached>, oks: seq<bool>, i: nat, k: nat)
    requires |oks| == |gs| && IdsOk(gs) && i < |gs| && k < |gs|
    ensures AfterTick(last, gs, oks, i) == AfterTick(last, gs, oks, k) <==> i == k
  {
    assert AfterTick(last, gs, oks, i).id == gs[i].id && AfterTick(last, gs, oks, k).id == gs[k].id;
  }

  lemma {:induction false} RemainingHas(last: int, gs: seq<Cached>, oks: seq<bool>, n: nat, i: nat)
    requires |oks| == |gs| && n <= |gs| && IdsOk(gs) && i < |gs|
    ensures AfterTick(last, gs, oks, i) in Remaining(last, gs, oks, n)
      <==> i < n && !Removable(AfterTick(last, gs, oks, i))
    decreases n
  {
    if n > 0 {
      var g := AfterTick(last, gs, oks, n - 1);
      RemainingHas(last, gs, oks, n - 1, i);
      InEither(Remaining(last, gs, oks, n - 1), if Removable(g) then [] else [g], AfterTick(last, gs, oks, i));
      SameGuild(last, gs, oks, i, n - 1);
    }
  }

  /** A guild that is dropped is in the cache no more. */
  lemma {:induction false} RemainingIds(last: int, gs: seq<Cached>, oks: seq<bool>, n: nat, i: nat)
    requires |oks| == |gs| && n <= |gs| && IdsOk(gs) && i < |gs| && Removable(AfterTick(last, gs, oks, i))
    ensures forall k :: 0 <= k < |Remaining(last, gs, oks, n)| ==> Remaining(last, gs, oks, n)[k].id != gs[i].id
    decreases n
  {
    if n > 0 {
      RemainingIds(last, gs, oks, n - 1, i);
      assert AfterTick(last, gs, oks, n - 1).id == gs[n - 1].id;
    }
  }

  // ---------------------------------------------------------------------- fairness

  /** One tick of a run: the cache as the tick finds it, and the fortunes of saves. */
  datatype Round = Round(gs: seq<Cached>, oks: seq<bool>)

  /** The same guilds in the same order. */
  predicate SamePopulation(gs: seq<Cached>, hs: seq<Cached>) {
    |gs| == |hs| && forall i :: 0 <= i < |gs| ==> gs[i].id == hs[i].id
  }

  /** A fixed population in which guild j is dirty whenever a tick comes. */
  ghost predicate StaysDirty(rs: seq<Round>, gs: seq<Cached>, j: nat) {
    forall k :: 0 <= k < |rs| ==>
      && |rs[k].oks| == |rs[k].gs| && SamePopulation(gs, rs[k].gs)
      && j < |gs| && Dirty(rs[k].gs[j])
  }

  /** An upper bound of the ticks until guild j has its turn. */
  function Wait(n: nat, s: nat, j: nat): nat
    requires s <= n && j < n
  {
    if s <= j then j - s else n - s + 1 + j
  }

  lemma SameFind(gs: seq<Cached>, hs: seq<Cached>, id: int)
    requires SamePopulation(gs, hs)
    ensures Find(gs, id) == Find(hs, id)
  {
  }

  /** A tick that passes over a dirty guild brings its turn nearer. */
  lemma TurnComesNearer(last: int, gs: seq<Cached>, oks: seq<bool>, j: nat)
    requires |oks| == |gs| && IdsOk(gs) && last >= 0 && j < |gs| && Dirty(gs[j])
    requires Turn(gs, Start(last, gs)) != j
    ensures var next := Tick(last, gs, oks).1;
      next >= 0 && Wait(|gs|, Start(next, gs), j) < Wait(|gs|, Start(last, gs), j)
  {
    TickTakesTurns(last, gs, oks);
    var turn := Turn(gs, Start(last, gs));
    if turn < |gs| {
      assert Find(gs, gs[turn].id) == turn;
    }
  }

  /** Some tick tries to save guild j. */
  ghost predicate HasTurn(last: int, rs: seq<Round>, j: nat)
    requires forall k :: 0 <= k < |rs| ==> |rs[k].oks| == |rs[k].gs|
    decreases |rs|
  {
    rs != [] && (Turn(rs[0].gs, Start(last, rs[0].gs)) == j || HasTurn(Tick(last, rs[0].gs, rs[0].oks).1, rs[1..], j))
  }

  lemma {:induction false} TurnComes(last: int, rs: seq<Round>, gs: seq<Cached>, j: nat)
    requires IdsOk(gs) && last >= 0 && j < |gs| && StaysDirty(rs, gs, j)
    requires |rs| > Wait(|gs|, Start(last, gs), j)
    ensures HasTurn(last, rs, j)
    decreases |rs|
  {
    var r := rs[0];
    SameFind(gs, r.gs, last);
    if Turn(r.gs, Start(last, r.gs)) != j {
      TurnComesNearer(last, r.gs, r.oks, j);
      var next := Tick(last, r.gs, r.oks).1;
      SameFind(gs, r.gs, next);
      TurnComes(next, rs[1..], gs, j);
    }
  }

  /** However saves fare and whatever else becomes dirty, a guild that stays dirty in a
      population of n guilds is tried within n + 1 ticks. */
  lemma Fair(last: int, rs: seq<Round>, gs: seq<Cached>, j: nat)
    requires IdsOk(gs) && last >= 0 && j < |gs| && StaysDirty(rs, gs, j)
    requires |rs| >= |gs| + 1
    ensures HasTurn(last, rs, j)
  {
    TurnComes(last, rs, gs, j);
  }

  // ------------------------------------------------------- while the cache runs empty

  predicate IsDirtyIn(gs: seq<Cached>, id: int) { Find(gs, id) < |gs| && Dirty(gs[Find(gs, id)]) }

  /** The guild is in the cache, and dirty, whenever a tick comes. */
  ghost predicate KeptDirty(rs: seq<Round>, id: int) {
    forall k :: 0 <= k < |rs| ==> |rs[k].oks| == |rs[k].gs| && IdsOk(rs[k].gs) && IsDirtyIn(rs[k].gs, id)
  }

  /** Between ticks no guild is loaded: each tick finds what the one before it has left. */
  ghost predicate NoneLoaded(last: int, rs: seq<Round>)
    requires forall k :: 0 <= k < |rs| ==> |rs[k].oks| == |rs[k].gs|
    decreases |rs|
  {
    |rs| <= 1 ||
    (var (gs, next) := Tick(last, rs[0].gs, rs[0].oks); SamePopulation(gs, rs[1].gs) && NoneLoaded(next, rs[1..]))
  }

  /** Some tick tries to save the guild. */
  ghost predicate IsTried(last: int, rs: seq<Round>, id: int)
    requires forall k :: 0 <= k < |rs| ==> |rs[k].oks| == |rs[k].gs|
    decreases |rs|
  {
    rs != [] &&
    (Turn(rs[0].gs, Start(last, rs[0].gs)) == Find(rs[0].gs, id)
     || IsTried(Tick(last, rs[0].gs, rs[0].oks).1, rs[1..], id))
  }

  /** A tick drops guilds, or leaves them all where they are. */
  lemma {:induction false} RemainingShape(last: int, gs: seq<Cached>, oks: seq<bool>, n: nat)
    requires |oks| == |gs| && n <= |gs|
    ensures var kept := Remaining(last, gs, oks, n);
      |kept| <= n && (|kept| == n ==> forall i :: 0 <= i < n ==> kept[i].id == gs[i].id)
    decreases n
  {
    if n > 0 {
      RemainingShape(last, gs, oks, n - 1);
    }
  }

  lemma TickShape(last: int, gs: seq<Cached>, oks: seq<bool>)
    requires |oks| == |gs| && IdsOk(gs) && last >= 0
    ensures var kept := Tick(last, gs, oks).0; |kept| <= |gs| && (|kept| == |gs| ==> SamePopulation(gs, kept))
  {
    WalkKeeps(last, gs, oks, |gs|);
    RemainingShape(last, gs, oks, |gs|);
  }

  /** 1 + 2 + ... + n. */
  function Triangle(n: nat): nat { if n == 0 then 0 else n + Triangle(n - 1) }

  lemma TriangleGrows(m: nat, n: nat)
    requires m < n
    ensures Triangle(m) + n <= Triangle(n)
    decreases n
  {
    if m < n - 1 {
      TriangleGrows(m, n - 1);
    }
  }

  /** What is left of the patience: the turn comes nearer while nothing is dropped, and
      each drop starts it afresh in a smaller cache. */
  function Patience(last: int, gs: seq<Cached>, id: int): nat
    requires Find(gs, id) < |gs|
  {
    Triangle(|gs|) + Wait(|gs|, Start(last, gs), Find(gs, id))
  }

  lemma PatienceShrinks(last: int, r: Round, hs: seq<Cached>, id: int)
    requires |r.oks| == |r.gs| && IdsOk(r.gs) && last >= 0 && IsDirtyIn(r.gs, id)
    requires Turn(r.gs, Start(last, r.gs)) != Find(r.gs, id)
    requires SamePopulation(Tick(last, r.gs, r.oks).0, hs) && IsDirtyIn(hs, id)
    ensures var next := Tick(last, r.gs, r.oks).1; next >= 0 && Patience(next, hs, id) < Patience(last, r.gs, id)
  {
    var (kept, next) := Tick(last, r.gs, r.oks);
    TickShape(last, r.gs, r.oks);
    TurnComesNearer(last, r.gs, r.oks, Find(r.gs, id));
    if |kept| == |r.gs| {
      SameFind(r.gs, hs, id);
      SameFind(r.gs, hs, next);
    } else {
      TriangleGrows(|hs|, |r.gs|);
    }
  }

  lemma {:induction false} TurnComesInEnd(last: int, rs: seq<Round>, id: int)
    requires last >= 0 && rs != [] && KeptDirty(rs, id) && NoneLoaded(last, rs)
    requires |rs| > Patience(last, rs[0].gs, id)
    ensures IsTried(last, rs, id)
    decreases |rs|
  {
    if Turn(rs[0].gs, Start(last, rs[0].gs)) != Find(rs[0].gs, id) {
      assert rs[1..][0] == rs[1];
      PatienceShrinks(last, rs[0], rs[1].gs, id);
      TurnComesInEnd(Tick(last, rs[0].gs, rs[0].oks).1, rs[1..], id);
    }
  }

  /** However saves fare and whatever the saver drops meanwhile, a guild that stays dirty
      in a cache of n guilds to which none is added is tried within (n + 1)(n + 2) / 2
      ticks. */
  lemma FairWhileDropping(last: int, rs: seq<Round>, id: int)
    requires last >= 0 && rs != [] && KeptDirty(rs, id) && NoneLoaded(last, rs)
    requires |rs| >= Triangle(|rs[0].gs| + 1)
    ensures IsTried(last, rs, id)
  {
    TurnComesInEnd(last, rs, id);
  }

  // ------------------------------------------------------------------ in the server

  class Cache {
    var guilds: seq<Cached>
    var lastId: int
    const autosaveInterval: nat

    /** guild_save on guild i of the cache; whether it is to be dropped. */
    method GuildSave(i: nat, state: nat, ok: bool) returns (state': nat, drop: bool)
      requires i < |guilds|
      modifies this`guilds, this`lastId
      ensures guilds == old(guilds)[i := Visited(old(guilds)[i], old(lastId), state, ok)]
      ensures drop <==> guilds[i].saveFlag == Flags({}, true)
      ensures var s := Visit(Sweep([], old(lastId), state), old(guilds)[i], ok); s.last == lastId && s.state == state'
    {
      state' := state;
      if state == 0 && guilds[i].id == lastId {
        state' := state + 1;
      } else if guilds[i].saveFlag.dirty != {} && state == 1 {
        if ok {
          guilds := guilds[i := guilds[i].(saveFlag := Flags({}, guilds[i].saveFlag.remove))];
        }
        lastId := guilds[i].id;
        state' := state + 1;
      }
      drop := guilds[i].saveFlag == Flags({}, true);
    }

    /** guild_save on guild i, which is dropped if it is removable; i' is where the next
        one stands. */
    method SaveNext(i: nat, state: nat, ok: bool) returns (i': nat, state': nat)
      requires i < |guilds|
      modifies this`guilds, this`lastId
      ensures i' <= |guilds| && guilds[i'..] == old(guilds)[i + 1..]
      ensures Sweep(guilds[..i'], lastId, state') ==
        Visit(Sweep(old(guilds)[..i], old(lastId), state), old(guilds)[i], ok)
    {
      ghost var was := guilds;
      var drop;
      state', drop := GuildSave(i, state, ok);
      if drop {
        guilds := guilds[..i] + guilds[i + 1..];
        i' := i;
      } else {
        i' := i + 1;
      }
    }

    /** guild_save_timer: the time until the next tick. */
    method GuildSaveTimer(oks: seq<bool>) returns (delay: nat)
      requires |oks| == |guilds|
      modifies this`guilds, this`lastId
      ensures (guilds, lastId) == Tick(old(lastId), old(guilds), oks)
      ensures delay == Delay(autosaveInterval, |guilds|)
    {
      var state: nat := if lastId == 0 then 1 else 0;
      ghost var was, first, begin := guilds, lastId, Begin(lastId);
      var i: nat, n: nat := 0, 0;  // the guild visited next, and how many have been
      while i < |guilds|
        invariant i <= |guilds| && n <= |was| && guilds[i..] == was[n..]
        invariant Walk(first, begin, was, oks, n) == Sweep(guilds[..i], lastId, state)
        decreases |guilds| - i
      {
        assert guilds[i] == guilds[i..][0] == was[n];
        assert guilds[i + 1..] == guilds[i..][1..] == was[n + 1..];
        i, state := SaveNext(i, state, oks[n]);
        n := n + 1;
      }
      assert guilds[..i] == guilds;
      if state != 2 {
        lastId := 0;
      }
      delay := Delay(autosaveInterval, |guilds|);
    }
  }

  /** The next tick comes so soon that one for each guild fits in the interval, and no more
      than a millisecond a guild sooner than need be. */
  lemma TicksFitInterval(interval: nat, n: nat)
    requires n > 0
    ensures Delay(interval, n) * n <= interval < Delay(interval, n) * n + n
  {
  }

  /** The population shares one autosave interval. */
  function Delay(interval: nat, n: nat): nat { interval / if n < 1 then 1 else n }
}
