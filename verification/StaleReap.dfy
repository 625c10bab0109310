/** When the stale-reap takes a session offline, over timed runs of the registry. */
module StaleReap {
  import opened OnlineRegistry
  import opened Ticks
  import opened OnlineSync

  const SYNC_MS: nat := 60000      // ONLINE_SYNC_INTERVAL_MS
  const SWEEP_MS: nat := 30000     // period of the stale-reap timer

  /** The account is recorded as being on some map-server. */
  predicate Marked(s: State, a: int) { a in s.online && s.online[a].server >= 0 }

  /** The event may put the account on a map-server. */
  predicate Marks(e: Event, a: int) {
    match e
    case Online(_, charId, b) => b == a && charId != LOGGING_IN
    case Users(_, users) => Listed(users, a)
    case Moved(b, _, _) => b == a
    case _ => false
  }

  /** The event stamps the account as confirmed now. */
  predicate Confirms(e: Event, a: int) { Marks(e, a) && !e.Moved? }

  /** An event about one account. */
  predicate AboutOne(e: Event) {
    e.Online? || e.Offline? || e.Auth? || e.Kicked? || e.Closed? || e.Moved? || e.Fire?
  }

  lemma UnmarkedByOne(s: State, e: Event, a: int)
    requires Inv(s) && Possible(s, e) && !Marks(e, a) && AboutOne(e)
    ensures Marked(Step(s, e), a) ==> Marked(s, a) && Step(s, e).online[a].confirm == s.online[a].confirm
  {
    if e.Fire? {
      FireTimerKeeps(s, e.tid);
    }
  }

  /** Without a marking event a mark can only stay as it is or go. */
  lemma UnmarkedStays(s: State, e: Event, a: int)
    requires Inv(s) && Possible(s, e) && !Marks(e, a)
    ensures Marked(Next(s, e), a) ==> Marked(s, a) && Next(s, e).online[a].confirm == s.online[a].confirm
  {
    if AboutOne(e) {
      UnmarkedByOne(s, e, a);
    } else if e.Users? {
      SyncReplacesTheSet(s, e.id, e.users);
    }
  }

  lemma ConfirmStamps(s: State, e: Event, a: int)
    requires Possible(s, e) && |s.serverFd| == MAX_MAP_SERVERS && Confirms(e, a)
    ensures a in Next(s, e).online && Next(s, e).online[a].confirm == Tick(s.now) && Next(s, e).now == s.now
  {
    if e.Users? {
      SyncReplacesTheSet(s, e.id, e.users);
      ConfirmAllKeepsTable(s.(online := MarkUnknown(s.online, e.id)), e.id, e.users);
    }
  }

  lemma TimeMovesOnlyByAdvance(s: State, e: Event)
    requires Possible(s, e) && |s.serverFd| == MAX_MAP_SERVERS
    ensures Next(s, e).now == s.now + if e.Advance? then e.ms else 0
  {
    if e.Users? {
      ConfirmAllKeepsTable(s.(online := MarkUnknown(s.online, e.id)), e.id, e.users);
    }
  }

  /** Exactly when a sweep takes a marked account offline: it has been confirmed at
      all, and the last confirmation is more than the grace period old. */
  lemma SweepTakes(s: State, a: int, c: nat)
    requires Marked(s, a) && c <= s.now < c + 0x8000_0000
    requires s.online[a].confirm == 0 || s.online[a].confirm == Tick(c)
    ensures !Marked(Sweep(s), a) <==> s.online[a].confirm != 0 && s.now - c > GRACE_MS
    ensures Marked(Sweep(s), a) ==> Sweep(s).online[a] == s.online[a]
  {
    DiffTickIsElapsed(c, s.now);
  }

  // ------------------------------------------------------------------- liveness

  /** Sweeps come at most SWEEP_MS apart throughout the run. */
  ghost predicate Timely(s: State, es: seq<Event>, lastSweep: nat)
    requires |s.serverFd| == MAX_MAP_SERVERS && IsRun(s, es)
    decreases |es|
  {
    es == [] ||
    ((es[0].Advance? ==> s.now + es[0].ms <= lastSweep + SWEEP_MS)
     && Timely(Next(s, es[0]), es[1..], if es[0].StaleSweep? then s.now else lastSweep))
  }

  /** A session last confirmed at time c, and not confirmed, marked or handed over
      again, is off every map-server once c + 180 s has passed. */
  lemma {:induction false} GhostIsReaped(s: State, es: seq<Event>, lastSweep: nat, a: int, c: nat)
    requires Inv(s) && IsRun(s, es) && Timely(s, es, lastSweep)
    requires forall i :: 0 <= i < |es| ==> !Marks(es[i], a)
    requires c <= s.now <= lastSweep + SWEEP_MS
    requires Marked(s, a) ==> s.online[a].confirm == Tick(c) != 0 && lastSweep <= c + GRACE_MS
    ensures After(s, es).now > c + GRACE_MS + SWEEP_MS ==> !Marked(After(s, es), a)
    decreases |es|
  {
    if es != [] {
      var e := es[0];
      assert !Marks(e, a);
      UnmarkedStays(s, e, a);
      StepKeepsInv(s, e);
      TimeMovesOnlyByAdvance(s, e);
      if e.StaleSweep? && Marked(s, a) {
        SweepTakes(s, a, c);
      }
      GhostIsReaped(Next(s, e), es[1..], if e.StaleSweep? then s.now else lastSweep, a, c);
    }
  }

  // --------------------------------------------------------------------- safety

  /** No sweep in the run takes the account offline. */
  ghost predicate NeverSwept(s: State, es: seq<Event>, a: int)
    requires |s.serverFd| == MAX_MAP_SERVERS && IsRun(s, es)
    decreases |es|
  {
    es == [] || ((es[0].StaleSweep? ==> a !in Stale(s)) && NeverSwept(Next(s, es[0]), es[1..], a))
  }

  /** The event stamps the record of the account, because a map-server confirms it or
      because the account is at the char server. */
  predicate Stamps(s: State, e: Event, a: int) {
    match e
    case Online(_, _, b) => b == a
    case Users(_, users) => Listed(users, a)
    case Auth(b, fd, _) => b == a && !TurnsAway(s, a, fd)
    case _ => false
  }

  lemma StampIsNow(s: State, e: Event, a: int)
    requires Possible(s, e) && |s.serverFd| == MAX_MAP_SERVERS && Stamps(s, e, a)
    ensures a in Next(s, e).online && Next(s, e).online[a].confirm == Tick(s.now) && Next(s, e).now == s.now
    ensures Marked(Next(s, e), a) ==> Confirms(e, a)
  {
    if e.Users? {
      ConfirmStamps(s, e, a);
    }
  }

  lemma UnstampedByOne(s: State, e: Event, a: int)
    requires Inv(s) && Possible(s, e) && !Stamps(s, e, a) && AboutOne(e)
    ensures a in Step(s, e).online ==> Step(s, e).online[a].confirm == Lookup(s.online, a).confirm
  {
    if e.Fire? {
      FireTimerKeeps(s, e.tid);
    }
  }

  /** No other event changes a stamp; a record made without one counts as unstamped. */
  lemma UnstampedStays(s: State, e: Event, a: int)
    requires Inv(s) && Possible(s, e) && !Stamps(s, e, a)
    ensures a in Next(s, e).online ==> Next(s, e).online[a].confirm == Lookup(s.online, a).confirm
  {
    if AboutOne(e) {
      UnstampedByOne(s, e, a);
    } else if e.Users? {
      SyncReplacesTheSet(s, e.id, e.users);
    }
  }

  /** While the account is on a map-server it is confirmed again within SYNC_MS of its
      last stamp at c, or of the one hand-over since then, which itself came within
      SYNC_MS of c. */
  ghost predicate Reconfirmed(s: State, es: seq<Event>, a: int, c: nat, deadline: nat, moved: bool)
    requires |s.serverFd| == MAX_MAP_SERVERS && IsRun(s, es)
    decreases |es|
  {
    es == [] ||
    (var e := es[0];
     && (e.Advance? && Marked(s, a) ==> s.now + e.ms <= deadline)
     && (e.Moved? && e.account == a ==> !moved && s.now <= c + SYNC_MS)
     && (if Stamps(s, e, a) then Reconfirmed(Next(s, e), es[1..], a, s.now, s.now + SYNC_MS, false)
         else if e.Moved? && e.account == a then Reconfirmed(Next(s, e), es[1..], a, c, s.now + SYNC_MS, true)
         else Reconfirmed(Next(s, e), es[1..], a, c, deadline, moved)))
  }

  /** A session that its map-servers keep confirming is never reaped. */
  lemma {:induction false} ConfirmedIsNeverReaped(s: State, es: seq<Event>, a: int, c: nat, deadline: nat,
                                                  moved: bool)
    requires Inv(s) && IsRun(s, es) && Reconfirmed(s, es, a, c, deadline, moved)
    requires c <= s.now
    requires deadline <= c + SYNC_MS + if moved then SYNC_MS else 0
    requires a in s.online ==> s.online[a].confirm == 0 || s.online[a].confirm == Tick(c)
    requires Marked(s, a) ==> s.now <= deadline
    ensures NeverSwept(s, es, a)
    decreases |es|
  {
    if es != [] {
      var e := es[0];
      StepKeepsInv(s, e);
      TimeMovesOnlyByAdvance(s, e);
      if Stamps(s, e, a) {
        StampIsNow(s, e, a);
        ConfirmedIsNeverReaped(Next(s, e), es[1..], a, s.now, s.now + SYNC_MS, false);
      } else {
        UnstampedStays(s, e, a);
        if e.Moved? && e.account == a {
          ConfirmedIsNeverReaped(Next(s, e), es[1..], a, c, s.now + SYNC_MS, true);
        } else {
          NoNewMark(s, e, a);
          NotStale(s, a, c);
          ConfirmedIsNeverReaped(Next(s, e), es[1..], a, c, deadline, moved);
        }
      }
    }
  }

  /** An event that neither stamps nor hands over the account does not mark it. */
  lemma NoNewMark(s: State, e: Event, a: int)
    requires Inv(s) && Possible(s, e) && !Stamps(s, e, a) && !(e.Moved? && e.account == a)
    ensures Marked(Next(s, e), a) ==> Marked(s, a)
  {
    UnmarkedStays(s, e, a);
  }

  lemma NotStale(s: State, a: int, c: nat)
    requires a in s.online ==> s.online[a].confirm == 0 || s.online[a].confirm == Tick(c)
    requires c <= s.now && (Marked(s, a) ==> s.now <= c + 2 * SYNC_MS)
    ensures a !in Stale(s)
  {
    if Marked(s, a) {
      SweepTakes(s, a, c);
    }
  }

  /** The stamp is needed: an account without one is never swept, whatever happens to it
      short of a stamp.  Such is one first seen in a hand-over. */
  lemma {:induction false} UnstampedIsNeverReaped(s: State, es: seq<Event>, a: int)
    requires Inv(s) && IsRun(s, es) && Lookup(s.online, a).confirm == 0 && !Stamped(s, es, a)
    ensures NeverSwept(s, es, a)
    decreases |es|
  {
    if es != [] {
      StepKeepsInv(s, es[0]);
      UnstampedStays(s, es[0], a);
      UnstampedIsNeverReaped(Next(s, es[0]), es[1..], a);
    }
  }

  /** Some event of the run stamps the account. */
  ghost predicate Stamped(s: State, es: seq<Event>, a: int)
    requires |s.serverFd| == MAX_MAP_SERVERS && IsRun(s, es)
    decreases |es|
  {
    es != [] && (Stamps(s, es[0], a) || Stamped(Next(s, es[0]), es[1..], a))
  }

  /** An account first seen in a hand-over stays out of every sweep until it is stamped. */
  lemma HandedOverIsNeverReaped(s: State, e: Event, es: seq<Event>, a: int)
    requires Inv(s) && a !in s.online && Possible(s, e) && HonestEvent(e) && e.Moved? && e.account == a
    requires IsRun(Next(s, e), es) && !Stamped(Next(s, e), es, a)
    ensures Marked(Next(s, e), a) && NeverSwept(Next(s, e), es, a)
  {
    StepKeepsInv(s, e);
    UnstampedIsNeverReaped(Next(s, e), es, a);
  }

  /** A hand-over is not a confirmation: one that comes when the last confirmation is
      already out of grace leaves the account to the very next sweep. */
  lemma HandOverDoesNotConfirm(s: State, a: int, charId: int, mapId: int, c: nat)
    requires a in s.online && IsServer(mapId) && s.online[a].confirm == Tick(c) != 0
    requires c + GRACE_MS < s.now < c + 0x8000_0000
    ensures !Marked(Sweep(HandOver(s, a, charId, mapId)), a)
  {
    SweepTakes(HandOver(s, a, charId, mapId), a, c);
  }

  // --------------------------------------------------------- liveness, hand-overs included

  predicate MovesIt(e: Event, a: int) { e.Moved? && e.account == a }

  /** When the account was last stamped, and when last handed over. */
  function LastStamp(s: State, es: seq<Event>, a: int, c: nat): nat
    requires |s.serverFd| == MAX_MAP_SERVERS && IsRun(s, es)
    decreases |es|
  {
    if es == [] then c else LastStamp(Next(s, es[0]), es[1..], a, if Stamps(s, es[0], a) then s.now else c)
  }

  function LastMove(s: State, es: seq<Event>, a: int, h: nat): nat
    requires |s.serverFd| == MAX_MAP_SERVERS && IsRun(s, es)
    decreases |es|
  {
    if es == [] then h else LastMove(Next(s, es[0]), es[1..], a, if MovesIt(es[0], a) then s.now else h)
  }

  /** No stamp is 0, which means none; and a hand-over finds a stamp, less old than the
      clock can tell. */
  ghost predicate Dated(s: State, es: seq<Event>, a: int, c: nat)
    requires |s.serverFd| == MAX_MAP_SERVERS && IsRun(s, es)
    decreases |es|
  {
    es == [] ||
    (&& (Stamps(s, es[0], a) ==> Tick(s.now) != 0)
     && (MovesIt(es[0], a) ==> Lookup(s.online, a).confirm != 0 && s.now + SWEEP_MS < c + 0x8000_0000)
     && Dated(Next(s, es[0]), es[1..], a, if Stamps(s, es[0], a) then s.now else c))
  }

  /** The later of the end of the grace period and the last hand-over. */
  function Due(c: nat, h: nat): nat { if c + GRACE_MS < h then h else c + GRACE_MS }

  /** Where the account stands: its stamp is that of time c, and while it is marked no
      sweep has come since its time was due. */
  ghost predicate OnTime(s: State, lastSweep: nat, a: int, c: nat, h: nat) {
    && c <= s.now && h <= s.now && lastSweep <= s.now <= lastSweep + SWEEP_MS
    && (Lookup(s.online, a).confirm != 0 ==> Lookup(s.online, a).confirm == Tick(c))
    && (Marked(s, a) ==>
          s.online[a].confirm != 0 && lastSweep <= Due(c, h) && Due(c, h) + SWEEP_MS < c + 0x8000_0000)
  }

  lemma StampIsOnTime(s: State, e: Event, lastSweep: nat, a: int, c: nat, h: nat)
    requires Inv(s) && Possible(s, e) && HonestEvent(e) && OnTime(s, lastSweep, a, c, h)
    requires Stamps(s, e, a) && Tick(s.now) != 0
    ensures OnTime(Next(s, e), lastSweep, a, s.now, h)
  {
    StampIsNow(s, e, a);
  }

  lemma MoveIsOnTime(s: State, e: Event, lastSweep: nat, a: int, c: nat, h: nat)
    requires Inv(s) && Possible(s, e) && HonestEvent(e) && OnTime(s, lastSweep, a, c, h)
    requires MovesIt(e, a) && Lookup(s.online, a).confirm != 0 && s.now + SWEEP_MS < c + 0x8000_0000
    ensures OnTime(Next(s, e), lastSweep, a, c, s.now)
  {
    TimeMovesOnlyByAdvance(s, e);
    UnstampedStays(s, e, a);
  }

  lemma SweepIsOnTime(s: State, e: Event, lastSweep: nat, a: int, c: nat, h: nat)
    requires Inv(s) && Possible(s, e) && HonestEvent(e) && OnTime(s, lastSweep, a, c, h) && e.StaleSweep?
    ensures OnTime(Next(s, e), s.now, a, c, h)
  {
    TimeMovesOnlyByAdvance(s, e);
    UnstampedStays(s, e, a);
    UnmarkedStays(s, e, a);
    if Marked(s, a) {
      SweepTakes(s, a, c);
    }
  }

  lemma OtherIsOnTime(s: State, e: Event, lastSweep: nat, a: int, c: nat, h: nat)
    requires Inv(s) && Possible(s, e) && HonestEvent(e) && OnTime(s, lastSweep, a, c, h) && !e.StaleSweep?
    requires !Stamps(s, e, a) && !MovesIt(e, a)
    requires e.Advance? ==> s.now + e.ms <= lastSweep + SWEEP_MS
    ensures OnTime(Next(s, e), lastSweep, a, c, h)
  {
    TimeMovesOnlyByAdvance(s, e);
    UnstampedStays(s, e, a);
    UnmarkedStays(s, e, a);
  }

  /** Whatever happens in the run, an account is off every map-server by 30 s after the later
      of the end of the grace period of its last stamp and its last hand-over. */
  lemma {:induction false} LastSeenIsReaped(s: State, es: seq<Event>, lastSweep: nat, a: int, c: nat, h: nat)
    requires Inv(s) && IsRun(s, es) && Timely(s, es, lastSweep) && Dated(s, es, a, c)
    requires OnTime(s, lastSweep, a, c, h)
    ensures After(s, es).now > Due(LastStamp(s, es, a, c), LastMove(s, es, a, h)) + SWEEP_MS ==>
      !Marked(After(s, es), a)
    decreases |es|
  {
    if es != [] {
      var e := es[0];
      StepKeepsInv(s, e);
      if Stamps(s, e, a) {
        StampIsOnTime(s, e, lastSweep, a, c, h);
        LastSeenIsReaped(Next(s, e), es[1..], lastSweep, a, s.now, h);
      } else if MovesIt(e, a) {
        MoveIsOnTime(s, e, lastSweep, a, c, h);
        LastSeenIsReaped(Next(s, e), es[1..], lastSweep, a, c, s.now);
      } else if e.StaleSweep? {
        SweepIsOnTime(s, e, lastSweep, a, c, h);
        LastSeenIsReaped(Next(s, e), es[1..], s.now, a, c, h);
      } else {
        OtherIsOnTime(s, e, lastSweep, a, c, h);
        LastSeenIsReaped(Next(s, e), es[1..], lastSweep, a, c, h);
      }
    }
  }
}
