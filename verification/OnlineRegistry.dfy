/** The online-session registry: one record per account, the timers that wait for a
    kicked player to leave, and the handlers that change them, as functions. */
module OnlineRegistry {
  import opened Ticks

  const MAX_MAP_SERVERS: nat := 30
  const LOGGING_IN: int := 99          // the char id that stands for "at the char server"
  const GRACE_MS: nat := 150000        // ONLINE_STALE_GRACE_MS

  /** A record: server is -1 for no map-server and -2 for one no longer connected. */
  datatype Rec = Rec(charId: int, server: int, fd: int, waiting: int, confirm: nat)

  datatype Timer = Timer(account: int, due: nat)

  datatype Kick = Kick(server: int, account: int, charId: int, reason: int)

  datatype State = State(
    now: nat,                   // milliseconds, not wrapped
    onlineCheck: bool,
    serverFd: seq<int>,
    online: map<int, Rec>,
    timers: map<int, Timer>,
    kicks: multiset<Kick>)      // disconnect requests sent so far

  const NEW_REC: Rec := Rec(-1, -1, -1, -1, 0)

  // ------------------------------------------------------------ single records

  function OffRec(r: Rec): Rec { r.(charId := -1, server := -1, waiting := -1) }

  function DropTimer(timers: map<int, Timer>, tid: int): map<int, Timer> {
    if tid == -1 then timers else timers - {tid}
  }

  function Lookup(online: map<int, Rec>, a: int): Rec {
    if a in online then online[a] else NEW_REC
  }

  function Fd(s: State, server: int): int {
    if 0 <= server < |s.serverFd| then s.serverFd[server] else -1
  }

  /** mapif_disconnectplayer: nothing is sent to a closed connection. */
  function SendKick(s: State, server: int, a: int, charId: int, reason: int): multiset<Kick> {
    if Fd(s, server) >= 0 then s.kicks + multiset{Kick(server, a, charId, reason)} else s.kicks
  }

  /** set_char_online. */
  function SetOnline(s: State, mapId: int, charId: int, a: int): State {
    var r := Lookup(s.online, a);
    var kicks :=
      if s.onlineCheck && r.charId != -1 && r.server > -1 && r.server != mapId
      then SendKick(s, r.server, a, r.charId, 2) else s.kicks;
    var r' := Rec(if charId == LOGGING_IN then -1 else charId,
                  if charId == LOGGING_IN then -1 else mapId, r.fd, -1, Tick(s.now));
    s.(online := s.online[a := r'], timers := DropTimer(s.timers, r.waiting), kicks := kicks)
  }

  /** set_char_offline. */
  function SetOffline(s: State, a: int): State {
    if a !in s.online then s
    else s.(online := s.online[a := OffRec(s.online[a])], timers := DropTimer(s.timers, s.online[a].waiting))
  }

  /** The tail shared by char_auth_ok and 0x2734: kick, and wait once for it to work. */
  function KickAndWait(s: State, a: int, delay: nat, tid: int): State
    requires a in s.online
  {
    var r := s.online[a];
    var t := s.(kicks := SendKick(s, r.server, a, r.charId, 2));
    if r.waiting != -1 then t
    else t.(timers := s.timers[tid := Timer(a, s.now + delay)], online := s.online[a := r.(waiting := tid)])
  }

  /** char_auth_ok refuses the login: on a map-server, or at the char server already. */
  predicate TurnsAway(s: State, a: int, fd: int) {
    s.onlineCheck && a in s.online && (s.online[a].server > -1 || (s.online[a].fd >= 0 && s.online[a].fd != fd))
  }

  /** char_auth_ok, once the population limit has let the account in. */
  function AuthOk(s: State, a: int, fd: int, tid: int): State {
    if s.onlineCheck && a in s.online then
      var r := s.online[a];
      if r.server > -1 then KickAndWait(s, a, 20000, tid)
      else if r.fd >= 0 && r.fd != fd then s
      else SetOnline(s.(online := s.online[a := r.(fd := fd)]), -1, LOGGING_IN, a)
    else SetOnline(s, -1, LOGGING_IN, a)
  }

  /** 0x2734 from the login server. */
  function LoginKick(s: State, a: int, hasSession: bool, tid: int): State {
    if a !in s.online then s
    else if s.online[a].server > -1 then KickAndWait(s, a, 15000, tid)
    else if hasSession then s
    else SetOffline(s, a)
  }

  /** parse_char on a closed client connection. */
  function SessionClosed(s: State, a: int, fd: int): State {
    var t := if a !in s.online || s.online[a].server == -1 then SetOffline(s, a) else s;
    if a in t.online && t.online[a].fd == fd then t.(online := t.online[a := t.online[a].(fd := -1)]) else t
  }

  /** 0x2b05, when the target map-server is connected. */
  function HandOver(s: State, a: int, charId: int, mapId: int): State {
    s.(online := s.online[a := Lookup(s.online, a).(charId := charId, server := mapId)])
  }

  /** chardb_waiting_disconnect. */
  function FireTimer(s: State, tid: int): State
    requires tid in s.timers
  {
    var a := s.timers[tid].account;
    var t := s.(timers := s.timers - {tid});
    if a in s.online && s.online[a].waiting == tid
    then SetOffline(t.(online := s.online[a := s.online[a].(waiting := -1)]), a) else t
  }

  // --------------------------------------------------------- whole-table passes

  /** The waiting timers of the given accounts. */
  function WaitingOf(online: map<int, Rec>, accounts: set<int>): set<int>
    requires accounts <= online.Keys
  {
    set a | a in accounts && online[a].waiting != -1 :: online[a].waiting
  }

  /** Put a set of accounts offline. */
  function OffAll(s: State, accounts: set<int>): State
    requires accounts <= s.online.Keys
  {
    s.(online := map a | a in s.online :: if a in accounts then OffRec(s.online[a]) else s.online[a],
       timers := s.timers - WaitingOf(s.online, accounts))
  }

  /** foreach(char_db_setoffline, id): the accounts of a map-server become unknown. */
  function MarkUnknown(online: map<int, Rec>, id: int): map<int, Rec> {
    map a | a in online :: if online[a].server == id then online[a].(server := -2) else online[a]
  }

  /** One entry of 0x2aff. */
  function Confirm(s: State, id: int, a: int, charId: int): State {
    var r := Lookup(s.online, a);
    s.(online := s.online[a := r.(server := id, charId := charId, confirm := Tick(s.now))],
       kicks := if r.server > -1 && r.server != id then SendKick(s, r.server, a, r.charId, 2) else s.kicks)
  }

  function ConfirmAll(s: State, id: int, users: seq<(int, int)>): State
    decreases |users|
  {
    if users == [] then s
    else Confirm(ConfirmAll(s, id, users[..|users| - 1]), id, users[|users| - 1].0, users[|users| - 1].1)
  }

  /** 0x2aff: the online list of map-server id. */
  function MapUsers(s: State, id: int, users: seq<(int, int)>): State {
    ConfirmAll(s.(online := MarkUnknown(s.online, id)), id, users)
  }

  /** The loss of a map-server connection. */
  function MapLost(s: State, id: int): State
    requires 0 <= id < |s.serverFd|
  {
    s.(serverFd := s.serverFd[id := -1], online := MarkUnknown(s.online, id))
  }

  predicate IsStale(now: nat, r: Rec) {
    r.server >= 0 && r.confirm != 0 && DiffTick(Tick(now), r.confirm) > GRACE_MS
  }

  function Stale(s: State): set<int> {
    set a | a in s.online && IsStale(s.now, s.online[a])
  }

  /** online_stale_reap. */
  function Sweep(s: State): State { OffAll(s, Stale(s)) }

  /** On a map-server that is still connected. */
  predicate Served(s: State, r: Rec) {
    0 <= r.server < MAX_MAP_SERVERS && Fd(s, r.server) > 0
  }

  function Ghosts(s: State): set<int> {
    set a | a in s.online && (s.online[a].server == -2 || (s.online[a].server >= 0 && !Served(s, s.online[a])))
  }

  /** online_data_cleanup: ghosts go offline, then everyone offline is forgotten. */
  function Cleanup(s: State): State {
    var t := OffAll(s, Ghosts(s));
    t.(online := map a | a in t.online && t.online[a].server >= 0 :: t.online[a])
  }

  function KickedBy(s: State, id: int): set<int> {
    set a | a in s.online && s.online[a].server > -1 && (id > -1 ==> s.online[a].server == id)
  }

  function IdleFor(s: State, id: int): set<int> {
    set a | a in s.online && id <= -1 && s.online[a].server <= -1 && s.online[a].waiting == -1
  }

  function KickOf(s: State, a: int): Kick
    requires a in s.online
  {
    Kick(s.online[a].server, a, s.online[a].charId, 1)
  }

  /** set_all_offline(id). */
  function SetAllOffline(s: State, id: int): State {
    var sent := set a | a in KickedBy(s, id) && Fd(s, s.online[a].server) >= 0 :: KickOf(s, a);
    OffAll(s, IdleFor(s, id)).(kicks := s.kicks + multiset(sent))
  }

  // --------------------------------------------------------------------- events

  datatype Event =
    | Online(mapId: int, charId: int, account: int)
    | Offline(account: int)
    | Auth(account: int, fd: int, tid: int)
    | Kicked(account: int, hasSession: bool, tid: int)
    | Closed(account: int, fd: int)
    | MapUp(id: int, fd: int)
    | MapDown(id: int)
    | Users(id: int, users: seq<(int, int)>)
    | Moved(account: int, charId: int, mapId: int)
    | AllOffline(id: int)
    | Fire(tid: int)
    | StaleSweep
    | CleanUp
    | Advance(ms: nat)

  predicate IsServer(id: int) { 0 <= id < MAX_MAP_SERVERS }

  /** What the surrounding code guarantees: map-server indices are in range, a new
      timer id is not in use, and timers fire when due. */
  predicate Possible(s: State, e: Event) {
    match e
    case Online(mapId, _, _) => IsServer(mapId)
    case Auth(_, _, tid) => tid >= 0 && tid !in s.timers
    case Kicked(_, _, tid) => tid >= 0 && tid !in s.timers
    case MapUp(id, fd) => IsServer(id) && fd > 0
    case MapDown(id) => IsServer(id)
    case Users(id, _) => IsServer(id)
    case Moved(_, _, mapId) => IsServer(mapId)
    case AllOffline(id) => id == -1 || IsServer(id)
    case Fire(tid) => tid in s.timers && s.timers[tid].due <= s.now
    case _ => true
  }

  function Step(s: State, e: Event): State
    requires |s.serverFd| == MAX_MAP_SERVERS && Possible(s, e)
  {
    match e
    case Online(mapId, charId, a) => SetOnline(s, mapId, charId, a)
    case Offline(a) => SetOffline(s, a)
    case Auth(a, fd, tid) => AuthOk(s, a, fd, tid)
    case Kicked(a, hasSession, tid) => LoginKick(s, a, hasSession, tid)
    case Closed(a, fd) => SessionClosed(s, a, fd)
    case MapUp(id, fd) => s.(serverFd := s.serverFd[id := fd])
    case MapDown(id) => MapLost(s, id)
    case Users(id, users) => MapUsers(s, id, users)
    case Moved(a, charId, mapId) => HandOver(s, a, charId, mapId)
    case AllOffline(id) => SetAllOffline(s, id)
    case Fire(tid) => FireTimer(s, tid)
    case StaleSweep => Sweep(s)
    case CleanUp => Cleanup(s)
    case Advance(ms) => s.(now := s.now + ms)
  }

  // ------------------------------------------------------------------ invariant

  predicate RecOk(r: Rec) {
    && (r.server == -2 || r.server == -1 || IsServer(r.server))
    && (r.server == -1 <==> r.charId == -1)
    && (r.server == -1 ==> r.waiting == -1)
    && r.waiting >= -1
  }

  ghost predicate RecordsOk(online: map<int, Rec>) {
    forall a :: a in online ==> RecOk(online[a])
  }

  /** Live timers and waiting records point at each other. */
  ghost predicate TimersOk(online: map<int, Rec>, timers: map<int, Timer>) {
    && (forall t :: t in timers ==>
          t >= 0 && timers[t].account in online && online[timers[t].account].waiting == t)
    && (forall a :: a in online && online[a].waiting != -1 ==>
          online[a].waiting in timers && timers[online[a].waiting].account == a)
  }

  ghost predicate Inv(s: State) {
    |s.serverFd| == MAX_MAP_SERVERS && RecordsOk(s.online) && TimersOk(s.online, s.timers)
  }

  /** A map-server never reports the char id -1, the registry's own "nobody". */
  predicate HonestEvent(e: Event) {
    match e
    case Online(_, charId, _) => charId != -1
    case Users(_, users) => forall i :: 0 <= i < |users| ==> users[i].1 != -1
    case Moved(_, charId, _) => charId != -1
    case _ => true
  }

  lemma SetOfflineKeeps(s: State, a: int)
    requires Inv(s)
    ensures Inv(SetOffline(s, a))
  {
  }

  lemma SetOnlineKeeps(s: State, mapId: int, charId: int, a: int)
    requires Inv(s) && charId != -1 && (IsServer(mapId) || charId == LOGGING_IN)
    ensures Inv(SetOnline(s, mapId, charId, a))
  {
  }

  lemma KickAndWaitKeeps(s: State, a: int, delay: nat, tid: int)
    requires Inv(s) && a in s.online && s.online[a].server > -1 && tid >= 0 && tid !in s.timers
    ensures Inv(KickAndWait(s, a, delay, tid))
  {
  }

  lemma OffAllKeeps(s: State, accounts: set<int>)
    requires Inv(s) && accounts <= s.online.Keys
    ensures Inv(OffAll(s, accounts))
  {
    var t := OffAll(s, accounts);
    forall a | a in t.online && t.online[a].waiting != -1
      ensures t.online[a].waiting in t.timers && t.timers[t.online[a].waiting].account == a
    {
      assert t.online[a].waiting !in WaitingOf(s.online, accounts);
    }
  }

  lemma ConfirmKeeps(s: State, id: int, a: int, charId: int)
    requires Inv(s) && IsServer(id) && charId != -1
    ensures Inv(Confirm(s, id, a, charId))
  {
  }

  lemma {:induction false} ConfirmAllKeeps(s: State, id: int, users: seq<(int, int)>)
    requires Inv(s) && IsServer(id) && forall i :: 0 <= i < |users| ==> users[i].1 != -1
    ensures Inv(ConfirmAll(s, id, users))
    decreases |users|
  {
    if users != [] {
      var n := |users| - 1;
      ConfirmAllKeeps(s, id, users[..n]);
      ConfirmKeeps(ConfirmAll(s, id, users[..n]), id, users[n].0, users[n].1);
    }
  }

  /** Cleanup forgets only records without a pending timer. */
  lemma CleanupKeeps(s: State)
    requires Inv(s)
    ensures Inv(Cleanup(s))
    ensures forall a :: a in s.online && a !in Cleanup(s).online ==> OffAll(s, Ghosts(s)).online[a].waiting == -1
  {
    OffAllKeeps(s, Ghosts(s));
  }

  lemma AuthOkKeeps(s: State, a: int, fd: int, tid: int)
    requires Inv(s) && tid >= 0 && tid !in s.timers
    ensures Inv(AuthOk(s, a, fd, tid))
  {
    if s.onlineCheck && a in s.online {
      var r := s.online[a];
      if r.server > -1 {
        KickAndWaitKeeps(s, a, 20000, tid);
      } else if !(r.fd >= 0 && r.fd != fd) {
        SetOnlineKeeps(s.(online := s.online[a := r.(fd := fd)]), -1, LOGGING_IN, a);
      }
    } else {
      SetOnlineKeeps(s, -1, LOGGING_IN, a);
    }
  }

  lemma SessionClosedKeeps(s: State, a: int, fd: int)
    requires Inv(s)
    ensures Inv(SessionClosed(s, a, fd))
  {
    SetOfflineKeeps(s, a);
  }

  lemma MarkUnknownKeeps(s: State, id: int)
    requires Inv(s) && IsServer(id)
    ensures Inv(s.(online := MarkUnknown(s.online, id)))
  {
  }

  lemma HandOverKeeps(s: State, a: int, charId: int, mapId: int)
    requires Inv(s) && IsServer(mapId) && charId != -1
    ensures Inv(HandOver(s, a, charId, mapId))
  {
  }

  /** A timer fires on the account it was set for, and no other record changes. */
  lemma FireTimerKeeps(s: State, tid: int)
    requires Inv(s) && tid in s.timers
    ensures Inv(FireTimer(s, tid))
    ensures var a := s.timers[tid].account;
      FireTimer(s, tid).online == s.online[a := OffRec(s.online[a])] && FireTimer(s, tid).timers == s.timers - {tid}
  {
  }

  /** Every event keeps: servers in range or -1 or -2, -1 exactly for "nobody",
      nobody has a pending timer, and timers and records in one-to-one relation. */
  lemma StepKeepsInv(s: State, e: Event)
    requires Inv(s) && Possible(s, e) && HonestEvent(e)
    ensures Inv(Step(s, e))
  {
    match e
    case Online(mapId, charId, a) => SetOnlineKeeps(s, mapId, charId, a);
    case Offline(a) => SetOfflineKeeps(s, a);
    case Auth(a, fd, tid) => AuthOkKeeps(s, a, fd, tid);
    case Kicked(a, hasSession, tid) =>
      if a in s.online && s.online[a].server > -1 {
        KickAndWaitKeeps(s, a, 15000, tid);
      } else {
        SetOfflineKeeps(s, a);
      }
    case Closed(a, fd) => SessionClosedKeeps(s, a, fd);
    case MapUp(_, _) =>
    case MapDown(id) => MarkUnknownKeeps(s, id);
    case Users(id, users) =>
      MarkUnknownKeeps(s, id);
      ConfirmAllKeeps(s.(online := MarkUnknown(s.online, id)), id, users);
    case Moved(a, charId, mapId) => HandOverKeeps(s, a, charId, mapId);
    case AllOffline(id) => OffAllKeeps(s, IdleFor(s, id));
    case Fire(tid) => FireTimerKeeps(s, tid);
    case StaleSweep => OffAllKeeps(s, Stale(s));
    case CleanUp => CleanupKeeps(s);
    case Advance(_) =>
  }

  /** A run of possible, honest events. */
  ghost predicate IsRun(s: State, es: seq<Event>)
    requires |s.serverFd| == MAX_MAP_SERVERS
    decreases |es|
  {
    es == [] || (Possible(s, es[0]) && HonestEvent(es[0]) && IsRun(Next(s, es[0]), es[1..]))
  }

  /** Step, remembering that the server table keeps its size. */
  function Next(s: State, e: Event): (t: State)
    requires |s.serverFd| == MAX_MAP_SERVERS && Possible(s, e)
    ensures |t.serverFd| == MAX_MAP_SERVERS
  {
    StepKeepsTable(s, e);
    Step(s, e)
  }

  lemma {:induction false} ConfirmAllKeepsTable(s: State, id: int, users: seq<(int, int)>)
    ensures var t := ConfirmAll(s, id, users);
      t.serverFd == s.serverFd && t.timers == s.timers && t.now == s.now && t.onlineCheck == s.onlineCheck
    decreases |users|
  {
    if users != [] {
      ConfirmAllKeepsTable(s, id, users[..|users| - 1]);
    }
  }

  lemma StepKeepsTable(s: State, e: Event)
    requires |s.serverFd| == MAX_MAP_SERVERS && Possible(s, e)
    ensures |Step(s, e).serverFd| == MAX_MAP_SERVERS
  {
    if e.Users? {
      ConfirmAllKeepsTable(s.(online := MarkUnknown(s.online, e.id)), e.id, e.users);
    }
  }

  function After(s: State, es: seq<Event>): State
    requires |s.serverFd| == MAX_MAP_SERVERS && IsRun(s, es)
    decreases |es|
  {
    if es == [] then s else After(Next(s, es[0]), es[1..])
  }

  /** In every state of every run the invariant holds. */
  lemma {:induction false} RunKeepsInv(s: State, es: seq<Event>)
    requires Inv(s) && IsRun(s, es)
    ensures Inv(After(s, es))
    decreases |es|
  {
    if es != [] {
      StepKeepsInv(s, es[0]);
      RunKeepsInv(Next(s, es[0]), es[1..]);
    }
  }

  /** The condition on reported char ids is needed: an account put online or handed
      over leaves the invariant intact iff the reported id is not -1. */
  lemma HonestyIsNeeded(s: State, e: Event)
    requires Inv(s) && Possible(s, e) && (e.Online? || e.Moved?)
    ensures Inv(Step(s, e)) <==> HonestEvent(e)
  {
    if HonestEvent(e) {
      StepKeepsInv(s, e);
    } else {
      assert !RecOk(Step(s, e).online[e.account]);
    }
  }
}
