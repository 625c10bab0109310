/** What each event makes of the records, timers and kicks, said of the records themselves,
    and where a run has put an account. */
module OnlineSeats {
  import opened OnlineRegistry
  import opened OnlineSync
  import opened StaleReap
  import opened Ticks

  /** Nothing but the record of a, the timers and the kicks may differ. */
  ghost predicate OnlyRecord(s: State, t: State, a: int) {
    && t == s.(online := t.online, timers := t.timers, kicks := t.kicks)
    && forall b :: b != a ==> SameRecord(s, t, b)
  }

  predicate SameRecord(s: State, t: State, b: int) {
    (b in t.online <==> b in s.online) && (b in s.online ==> t.online[b] == s.online[b])
  }

  /** The timers of all accounts but a are still pending, and no others. */
  ghost predicate TimersButOf(s: State, t: State, a: int) {
    && (forall k :: k in t.timers <==> k in s.timers && s.timers[k].account != a)
    && forall k :: k in t.timers ==> t.timers[k] == s.timers[k]
  }

  /** The record of a, or that of an account never seen. */
  function Was(s: State, a: int): Rec { if a in s.online then s.online[a] else Rec(-1, -1, -1, -1, 0) }

  /** The connection of a map-server. */
  predicate Connected(s: State, server: int) { 0 <= server < |s.serverFd| && s.serverFd[server] >= 0 }

  /** A character reported by a map-server, or a login (char id 99). */
  lemma OnlineDoes(s: State, mapId: int, charId: int, a: int)
    requires Inv(s) && IsServer(mapId)
    ensures var t, was := Step(s, Online(mapId, charId, a)), Was(s, a);
      && OnlyRecord(s, t, a) && TimersButOf(s, t, a)
      && a in t.online && t.online[a].waiting == -1 && t.online[a].confirm == Tick(s.now) && t.online[a].fd == was.fd
      && t.online[a].charId == (if charId == 99 then -1 else charId)
      && t.online[a].server == (if charId == 99 then -1 else mapId)
      && t.kicks == s.kicks + if s.onlineCheck && was.server >= 0 && was.server != mapId && Connected(s, was.server)
           then multiset{Kick(was.server, a, was.charId, 2)} else multiset{}
  {
    OwnTimers(s, a);
  }

  /** The timers of an account are those its record waits for. */
  lemma OwnTimers(s: State, a: int)
    requires Inv(s)
    ensures forall k :: k in s.timers && s.timers[k].account == a <==> a in s.online && k == s.online[a].waiting != -1
  {
  }

  lemma OfflineDoes(s: State, a: int)
    requires Inv(s)
    ensures var t := Step(s, Offline(a));
      && OnlyRecord(s, t, a) && TimersButOf(s, t, a) && t.kicks == s.kicks
      && (a in t.online <==> a in s.online)
      && (a in s.online ==> t.online[a] == s.online[a].(charId := -1, server := -1, waiting := -1))
  {
    OwnTimers(s, a);
  }

  /** Asking a player who is on a map-server to leave: its server is told to disconnect it,
      and one timer is set, unless one is pending. */
  ghost predicate AsksToLeave(s: State, t: State, a: int, tid: int, delay: nat)
    requires a in s.online
  {
    var was := s.online[a];
    && OnlyRecord(s, t, a) && a in t.online
    && t.kicks == s.kicks + (if Connected(s, was.server) then multiset{Kick(was.server, a, was.charId, 2)}
                             else multiset{})
    && if was.waiting != -1 then t.online[a] == was && t.timers == s.timers
       else t.online[a] == was.(waiting := tid) && t.timers == s.timers[tid := Timer(a, s.now + delay)]
  }

  /** A login at the char server: refused while the account is on a map-server, which it is
      then asked to leave within 20 s, or has another session; else the account is at the
      char server. */
  lemma AuthDoes(s: State, a: int, fd: int, tid: int)
    requires Inv(s) && tid >= 0 && tid !in s.timers
    ensures var t, was := Step(s, Auth(a, fd, tid)), Was(s, a);
      if s.onlineCheck && was.server >= 0 then AsksToLeave(s, t, a, tid, 20000)
      else if s.onlineCheck && a in s.online && was.fd >= 0 && was.fd != fd then t == s
      else
        && OnlyRecord(s, t, a) && TimersButOf(s, t, a) && t.kicks == s.kicks
        && t.online == s.online[a :=
             Rec(-1, -1, if s.onlineCheck && a in s.online then fd else was.fd, -1, Tick(s.now))]
  {
    OwnTimers(s, a);
  }

  /** A kick from the login server: within 15 s. */
  lemma KickedDoes(s: State, a: int, hasSession: bool, tid: int)
    requires Inv(s) && tid >= 0 && tid !in s.timers
    ensures var t, was := Step(s, Kicked(a, hasSession, tid)), Was(s, a);
      if was.server >= 0 then AsksToLeave(s, t, a, tid, 15000)
      else if a !in s.online || hasSession then t == s
      else t == Step(s, Offline(a))
  {
  }

  lemma ClosedDoes(s: State, a: int, fd: int)
    requires Inv(s)
    ensures var t, was := Step(s, Closed(a, fd)), Was(s, a);
      && OnlyRecord(s, t, a) && t.kicks == s.kicks && (a in t.online <==> a in s.online)
      && (a in s.online ==>
            && t.online[a].fd == (if was.fd == fd then -1 else was.fd)
            && t.online[a] == (if was.server == -1 then was.(charId := -1, server := -1, waiting := -1) else was).(
                 fd := t.online[a].fd))
      && t.timers == s.timers
  {
    OwnTimers(s, a);
    assert s.timers - {-1} == s.timers;
  }

  lemma MovedDoes(s: State, a: int, charId: int, mapId: int)
    requires |s.serverFd| == MAX_MAP_SERVERS && IsServer(mapId)
    ensures Step(s, Moved(a, charId, mapId)) ==
      s.(online := s.online[a := Was(s, a).(charId := charId, server := mapId)])
  {
  }

  /** A timer puts its account offline, and is gone. */
  lemma FireDoes(s: State, tid: int)
    requires Inv(s) && tid in s.timers && s.timers[tid].due <= s.now
    ensures var t, a := Step(s, Fire(tid)), s.timers[tid].account;
      && OnlyRecord(s, t, a) && TimersButOf(s, t, a) && t.kicks == s.kicks && a in s.online && a in t.online
      && t.online[a] == s.online[a].(charId := -1, server := -1, waiting := -1)
  {
    OwnTimers(s, s.timers[tid].account);
    FireTimerKeeps(s, tid);
  }

  lemma MapDoes(s: State, id: int, fd: int)
    requires Inv(s) && IsServer(id)
    ensures fd > 0 ==> Step(s, MapUp(id, fd)) == s.(serverFd := s.serverFd[id := fd])
    ensures var t := Step(s, MapDown(id));
      && t == s.(serverFd := s.serverFd[id := -1], online := t.online) && t.online.Keys == s.online.Keys
      && forall a :: a in s.online ==>
           t.online[a] == if s.online[a].server == id then s.online[a].(server := -2) else s.online[a]
  {
  }

  /** A kick to where a player is, of the map-server named or of any. */
  predicate ToldToLeave(s: State, id: int, k: Kick) {
    && k.account in s.online && k.server == s.online[k.account].server >= 0 && k.reason == 1
    && k.charId == s.online[k.account].charId && (id == -1 || k.server == id) && Connected(s, k.server)
  }

  /** All players told to leave: those on the map-server named, or on any; idle accounts
      are put offline when no server is named. */
  lemma AllOfflineDoes(s: State, id: int)
    requires Inv(s) && (id == -1 || IsServer(id))
    ensures var t := Step(s, AllOffline(id));
      && t == s.(online := t.online, timers := t.timers, kicks := t.kicks)
      && t.online.Keys == s.online.Keys
      && (forall a :: a in s.online ==>
            var was := s.online[a];
            t.online[a] == if id == -1 && was.server < 0 && was.waiting == -1 then was.(charId := -1, server := -1)
                           else was)
      && t.timers == s.timers
      && (forall k :: t.kicks[k] == s.kicks[k] + if ToldToLeave(s, id, k) then 1 else 0)
  {
    var t := Step(s, AllOffline(id));
    var sent := set a | a in KickedBy(s, id) && Fd(s, s.online[a].server) >= 0 :: KickOf(s, a);
    assert WaitingOf(s.online, IdleFor(s, id)) == {};
    forall k ensures k in sent <==> ToldToLeave(s, id, k) {
      if k.account in KickedBy(s, id) && k == KickOf(s, k.account) && Fd(s, s.online[k.account].server) >= 0 {
        assert k in sent;
      }
    }
  }

  /** Cleanup forgets everybody who is not on a connected map-server. */
  lemma CleanUpDoes(s: State)
    requires Inv(s)
    ensures var t := Step(s, CleanUp);
      && t == s.(online := t.online, timers := t.timers)
      && (forall a :: a in t.online <==>
            a in s.online && s.online[a].server >= 0 && s.serverFd[s.online[a].server] > 0)
      && (forall a :: a in t.online ==> t.online[a] == s.online[a])
      && (forall k :: k in t.timers <==> k in s.timers && s.timers[k].account in t.online)
      && (forall k :: k in t.timers ==> t.timers[k] == s.timers[k])
  {
    forall k | k in s.timers ensures k in WaitingOf(s.online, Ghosts(s)) <==> s.timers[k].account in Ghosts(s) {
      OwnTimers(s, s.timers[k].account);
    }
  }

  /** Stamped, and longer ago than two and a half rounds of online lists. */
  predicate Overdue(s: State, a: int) {
    && a in s.online && s.online[a].server >= 0 && s.online[a].confirm != 0
    && DiffTick(Tick(s.now), s.online[a].confirm) > 150000
  }

  /** The sweep puts exactly the overdue accounts offline, and drops their timers. */
  lemma StaleSweepDoes(s: State)
    requires Inv(s)
    ensures var t := Step(s, StaleSweep);
      && t == s.(online := t.online, timers := t.timers) && t.online.Keys == s.online.Keys
      && (forall a :: a in s.online ==>
            t.online[a] == if Overdue(s, a) then s.online[a].(charId := -1, server := -1, waiting := -1)
                           else s.online[a])
      && (forall k :: k in t.timers <==> k in s.timers && !Overdue(s, s.timers[k].account))
      && (forall k :: k in t.timers ==> t.timers[k] == s.timers[k])
  {
    forall k | k in s.timers ensures k in WaitingOf(s.online, Stale(s)) <==> s.timers[k].account in Stale(s) {
      OwnTimers(s, s.timers[k].account);
    }
  }

  // ---------------------------------------------------------------- where a run put it

  /** Where an account is said to be: its map-server and its character. */
  datatype Seat = Seat(server: int, charId: int)

  function Seated(e: Event, a: int): Seat
    requires Marks(e, a)
  {
    match e
    case Online(mapId, charId, _) => Seat(mapId, charId)
    case Users(id, users) => Seat(id, LastReport(users, a))
    case Moved(_, charId, mapId) => Seat(mapId, charId)
  }

  /** Where the last event that marked the account put it. */
  function LastSeat(es: seq<Event>, a: int, seat: Seat): Seat
    decreases |es|
  {
    if es == [] then seat else LastSeat(es[1..], a, if Marks(es[0], a) then Seated(es[0], a) else seat)
  }

  predicate SitsAt(s: State, a: int, seat: Seat) {
    a in s.online && s.online[a].server == seat.server && s.online[a].charId == seat.charId
  }

  lemma MarkedThere(s: State, e: Event, a: int)
    requires Inv(s) && Possible(s, e) && Marks(e, a)
    ensures SitsAt(Next(s, e), a, Seated(e, a))
  {
    match e
    case Online(mapId, charId, _) => OnlineDoes(s, mapId, charId, a);
    case Users(id, users) => SyncReplacesTheSet(s, id, users);
    case Moved(_, charId, mapId) => MovedDoes(s, a, charId, mapId);
  }

  /** Whom an event is about. */
  function Whom(s: State, e: Event): int
    requires AboutOne(e) && (e.Fire? ==> e.tid in s.timers)
  {
    if e.Fire? then s.timers[e.tid].account else e.account
  }

  /** An event about somebody else changes neither the record of an account nor its timer. */
  lemma NotAbout(s: State, e: Event, a: int)
    requires Inv(s) && Possible(s, e) && AboutOne(e) && a != Whom(s, e)
    ensures SameRecord(s, Step(s, e), a)
    ensures forall k :: k in s.timers && s.timers[k].account == a ==>
      k in Step(s, e).timers && Step(s, e).timers[k] == s.timers[k]
  {
    match e
    case Online(mapId, charId, b) => OnlineDoes(s, mapId, charId, b);
    case Offline(b) => OfflineDoes(s, b);
    case Auth(b, fd, k) => AuthDoes(s, b, fd, k);
    case Kicked(b, hasSession, k) =>
      KickedDoes(s, b, hasSession, k);
      OfflineDoes(s, b);
    case Closed(b, fd) => ClosedDoes(s, b, fd);
    case Moved(b, charId, mapId) => MovedDoes(s, b, charId, mapId);
    case Fire(k) => FireDoes(s, k);
  }

  /** One about the account itself leaves it on a map-server only while it waits to be told
      to leave, or closes a session. */
  lemma AboutItself(s: State, e: Event, a: int)
    requires Inv(s) && Possible(s, e) && !Marks(e, a) && AboutOne(e) && a == Whom(s, e) && Marked(Step(s, e), a)
    ensures Marked(s, a) && (e.Auth? || e.Kicked? || e.Closed?)
    ensures var r, was := Step(s, e).online[a], s.online[a];
      && r.server == was.server && r.charId == was.charId && (was.waiting != -1 ==> r.waiting == was.waiting)
    ensures s.online[a].waiting != -1 ==> Step(s, e).timers == s.timers
  {
    match e
    case Online(mapId, charId, b) => OnlineDoes(s, mapId, charId, b);
    case Offline(b) => OfflineDoes(s, b);
    case Auth(b, fd, k) => AuthDoes(s, b, fd, k);
    case Kicked(b, hasSession, k) =>
      KickedDoes(s, b, hasSession, k);
      OfflineDoes(s, b);
    case Closed(b, fd) => ClosedDoes(s, b, fd);
    case Moved(b, charId, mapId) => MovedDoes(s, b, charId, mapId);
    case Fire(k) => FireDoes(s, k);
  }

  lemma StaysThere(s: State, e: Event, a: int)
    requires Inv(s) && Possible(s, e) && !Marks(e, a) && Marked(Next(s, e), a)
    ensures Marked(s, a) && Next(s, e).online[a].server == s.online[a].server
    ensures Next(s, e).online[a].charId == s.online[a].charId
  {
    if AboutOne(e) && a != Whom(s, e) {
      NotAbout(s, e, a);
    } else if AboutOne(e) {
      AboutItself(s, e, a);
    } else {
      match e
      case MapUp(id, fd) => MapDoes(s, id, fd);
      case MapDown(id) => MapDoes(s, id, 0);
      case Users(id, users) => SyncReplacesTheSet(s, id, users);
      case AllOffline(id) => AllOfflineDoes(s, id);
      case StaleSweep => StaleSweepDoes(s);
      case CleanUp => CleanUpDoes(s);
      case Advance(_) =>
    }
  }

  /** In every run, an account that is marked is on the map-server, and as the character,
      that the last event to mark it named. */
  lemma {:induction false} MarkedIsHistory(s: State, es: seq<Event>, a: int, seat: Seat)
    requires Inv(s) && IsRun(s, es) && (Marked(s, a) ==> SitsAt(s, a, seat))
    ensures Marked(After(s, es), a) ==> SitsAt(After(s, es), a, LastSeat(es, a, seat))
    decreases |es|
  {
    if es != [] {
      var e := es[0];
      StepKeepsInv(s, e);
      if Marks(e, a) {
        MarkedThere(s, e, a);
        MarkedIsHistory(Next(s, e), es[1..], a, Seated(e, a));
      } else {
        if Marked(Next(s, e), a) {
          StaysThere(s, e, a);
        }
        MarkedIsHistory(Next(s, e), es[1..], a, seat);
      }
    }
  }

  // ------------------------------------------------------- a player asked to leave, leaves

  /** Timers fire before time moves past them. */
  ghost predicate Punctual(s: State, es: seq<Event>)
    requires |s.serverFd| == MAX_MAP_SERVERS && IsRun(s, es)
    decreases |es|
  {
    es == [] ||
    (&& (es[0].Advance? ==> forall k :: k in s.timers ==> s.now + es[0].ms <= s.timers[k].due)
     && Punctual(Next(s, es[0]), es[1..]))
  }

  /** The account waits for this timer, which is due in time. */
  predicate Waits(s: State, a: int, tid: int, due: nat) {
    && a in s.online && s.online[a].waiting == tid && tid in s.timers && s.timers[tid] == Timer(a, due)
    && s.now <= due
  }

  lemma WaitsOn(s: State, e: Event, a: int, tid: int, due: nat)
    requires Inv(s) && Possible(s, e) && !Marks(e, a) && Waits(s, a, tid, due) && Marked(Next(s, e), a)
    requires e.Advance? ==> forall k :: k in s.timers ==> s.now + e.ms <= s.timers[k].due
    ensures Waits(Next(s, e), a, tid, due)
  {
    if AboutOne(e) && a != Whom(s, e) {
      NotAbout(s, e, a);
    } else if AboutOne(e) {
      AboutItself(s, e, a);
    } else {
      match e
      case MapUp(id, fd) => MapDoes(s, id, fd);
      case MapDown(id) => MapDoes(s, id, 0);
      case Users(id, users) =>
        SyncReplacesTheSet(s, id, users);
        ConfirmAllKeepsTable(s.(online := MarkUnknown(s.online, id)), id, users);
      case AllOffline(id) => AllOfflineDoes(s, id);
      case StaleSweep => StaleSweepDoes(s);
      case CleanUp => CleanUpDoes(s);
      case Advance(_) =>
    }
  }

  /** Who is told to leave is off every map-server once its time is up, whatever the map-server
      answers, unless it is reported or handed over anew. */
  lemma {:induction false} AskedToLeaveLeaves(s: State, es: seq<Event>, a: int, tid: int, due: nat)
    requires Inv(s) && IsRun(s, es) && Punctual(s, es) && (Marked(s, a) ==> Waits(s, a, tid, due))
    requires forall i :: 0 <= i < |es| ==> !Marks(es[i], a)
    ensures After(s, es).now > due ==> !Marked(After(s, es), a)
    decreases |es|
  {
    if es != [] {
      var e := es[0];
      StepKeepsInv(s, e);
      assert !Marks(e, a);
      if Marked(Next(s, e), a) {
        StaysThere(s, e, a);
        WaitsOn(s, e, a, tid, due);
      }
      AskedToLeaveLeaves(Next(s, e), es[1..], a, tid, due);
    }
  }
}
