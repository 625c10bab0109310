/** Whispers: a message is put to every map-server, and the sender gets one answer. */
module Whisper {
  import opened Foreach
  import opened Ticks

  const WISDATA_TTL: nat := 60000
  const WISDELLIST_MAX: nat := 256

  /** A whisper waiting for answers: who asked, from how many servers one is still
      expected, and when it was put. */
  datatype Wis = Wis(fd: int, count: int, tick: nat)

  /** An answer given to the sender: 0 delivered, 1 not found, 2 refused. */
  datatype Result = Result(id: nat, fd: int, flag: int)

  datatype State = State(now: nat, wisid: nat, db: map<nat, Wis>, results: seq<Result>)

  datatype Event =
    | Ask(fd: int, servers: nat)      // a whisper to an existing other character
    | Reply(id: nat, flag: int)
    | Advance(ms: nat)

  predicate Expired(now: nat, wd: Wis) { DiffTick(Tick(now), wd.tick) > WISDATA_TTL }

  /** check_ttl_wisdata. */
  function Purged(now: nat, db: map<nat, Wis>): map<nat, Wis> {
    map id | id in db && !Expired(now, db[id]) :: db[id]
  }

  /** mapif_parse_WisRequest; servers is how many mapif_sendall reached. */
  function DoAsk(s: State, fd: int, servers: nat): State {
    s.(wisid := s.wisid + 1, db := Purged(s.now, s.db)[s.wisid + 1 := Wis(fd, servers, Tick(s.now))])
  }

  /** mapif_parse_WisReply. */
  function DoReply(s: State, id: nat, flag: int): State {
    if id !in s.db then s
    else
      var wd := s.db[id].(count := s.db[id].count - 1);
      if wd.count <= 0 || flag != 1
      then s.(db := s.db - {id}, results := s.results + [Result(id, wd.fd, flag)])
      else s.(db := s.db[id := wd])
  }

  function Next(s: State, e: Event): State {
    match e
    case Ask(fd, servers) => DoAsk(s, fd, servers)
    case Reply(id, flag) => DoReply(s, id, flag)
    case Advance(ms) => s.(now := s.now + ms)
  }

  function After(s: State, es: seq<Event>): State
    decreases |es|
  {
    if es == [] then s else Next(After(s, es[..|es| - 1]), es[|es| - 1])
  }

  // --------------------------------------------------------------- one answer at most

  ghost predicate Inv(s: State) {
    && (forall id :: id in s.db ==> id <= s.wisid)
    && (forall i :: 0 <= i < |s.results| ==> s.results[i].id <= s.wisid && s.results[i].id !in s.db)
    && (forall i, j :: 0 <= i < j < |s.results| ==> s.results[i].id != s.results[j].id)
  }

  lemma NextKeeps(s: State, e: Event)
    requires Inv(s)
    ensures Inv(Next(s, e))
  {
  }

  /** No whisper is answered twice, in any run. */
  lemma {:induction false} AtMostOneResult(s: State, es: seq<Event>)
    requires Inv(s)
    ensures Inv(After(s, es))
    decreases |es|
  {
    if es != [] {
      AtMostOneResult(s, es[..|es| - 1]);
      NextKeeps(After(s, es[..|es| - 1]), es[|es| - 1]);
    }
  }

  // ------------------------------------------------------------------ which answer

  datatype Option<T> = None | Some(value: T)

  /** The verdict of the replies when n servers were asked: the first that is not "not
      found", or "not found" once everybody has said so. */
  function Verdict(n: int, flags: seq<int>): Option<int>
    decreases |flags|
  {
    if flags == [] then None
    else if flags[0] != 1 || n <= 1 then Some(flags[0])
    else Verdict(n - 1, flags[1..])
  }

  /** The k-th reply is f, and all before it are 1. */
  predicate FirstAt(flags: seq<int>, k: int, f: int) {
    0 <= k < |flags| && flags[k] == f && forall l :: 0 <= l < k ==> flags[l] == 1
  }

  /** n replies are all 1. */
  predicate AllNotFound(flags: seq<int>, n: int) {
    |flags| >= n && |flags| >= 1 && forall l :: 0 <= l < n ==> flags[l] == 1
  }

  /** A verdict other than 1 is the first reply other than 1, and came while an answer
      was still due; 1 is the verdict only when every server asked replied 1. */
  lemma {:induction false} VerdictIsFirst(n: int, flags: seq<int>)
    requires Verdict(n, flags).Some?
    ensures var f := Verdict(n, flags).value;
      if f == 1 then AllNotFound(flags, n) else exists k :: FirstAt(flags, k, f) && (k == 0 || k < n)
    decreases |flags|
  {
    var f := Verdict(n, flags).value;
    if flags[0] != 1 || n <= 1 {
      assert FirstAt(flags, 0, f);
    } else {
      VerdictIsFirst(n - 1, flags[1..]);
      if f != 1 {
        var k :| FirstAt(flags[1..], k, f) && (k == 0 || k < n - 1);
        forall l | 0 <= l < k + 1 ensures flags[l] == 1 {
          assert l > 0 ==> flags[l] == flags[1..][l - 1];
        }
        assert FirstAt(flags, k + 1, f);
      } else {
        forall l | 0 <= l < n ensures flags[l] == 1 {
          assert l > 0 ==> flags[l] == flags[1..][l - 1];
        }
      }
    }
  }

  /** No verdict yet: fewer replies than servers, all of them 1. */
  lemma {:induction false} NoVerdictYet(n: int, flags: seq<int>)
    requires n >= 1
    ensures Verdict(n, flags).None? <==> |flags| < n && forall l :: 0 <= l < |flags| ==> flags[l] == 1
    decreases |flags|
  {
    if flags != [] {
      if n > 1 {
        NoVerdictYet(n - 1, flags[1..]);
        assert (forall l :: 0 <= l < |flags| ==> flags[l] == 1) <==>
               flags[0] == 1 && forall l :: 0 <= l < |flags[1..]| ==> flags[1..][l] == 1 by {
          assert forall l :: 0 < l < |flags| ==> flags[l] == flags[1..][l - 1];
        }
      }
    }
  }

  lemma {:induction false} VerdictGrows(n: int, flags: seq<int>, f: int)
    ensures Verdict(n, flags + [f]) ==
      if Verdict(n, flags).Some? then Verdict(n, flags) else if f != 1 || n - |flags| <= 1 then Some(f) else None
    decreases |flags|
  {
    if flags == [] {
      assert (flags + [f])[1..] == [];
    } else if !(flags[0] != 1 || n <= 1) {
      VerdictGrows(n - 1, flags[1..], f);
      assert (flags + [f])[1..] == flags[1..] + [f];
    }
  }

  /** The replies to one whisper. */
  function RepliesTo(es: seq<Event>, id: nat): seq<int>
    decreases |es|
  {
    if es == [] then []
    else
      var before, e := RepliesTo(es[..|es| - 1], id), es[|es| - 1];
      if e.Reply? && e.id == id then before + [e.flag] else before
  }

  predicate PurgedBy(s: State, id: nat) { id in s.db && Expired(s.now, s.db[id]) }

  /** At some request of the run the whisper had waited too long. */
  predicate Lost(s: State, es: seq<Event>, id: nat)
    decreases |es|
  {
    es != [] &&
    (var n := |es| - 1;
     Lost(s, es[..n], id) || (es[n].Ask? && PurgedBy(After(s, es[..n]), id)))
  }

  /** Nobody has been told anything about it. */
  ghost predicate Unanswered(s: State, id: nat) {
    forall i :: 0 <= i < |s.results| ==> s.results[i].id != id
  }

  /** Where a whisper stands after some replies. */
  ghost predicate Stands(s: State, id: nat, fd: int, n: int, flags: seq<int>) {
    match Verdict(n, flags)
    case None => id in s.db && s.db[id].count == n - |flags| && s.db[id].fd == fd && Unanswered(s, id)
    case Some(f) => id !in s.db && Result(id, fd, f) in s.results
  }

  ghost predicate Forgotten(s: State, id: nat) { id <= s.wisid && id !in s.db && Unanswered(s, id) }

  lemma StandsStill(s: State, e: Event, id: nat, fd: int, n: int, flags: seq<int>)
    requires id <= s.wisid && Stands(s, id, fd, n, flags)
    requires !(e.Reply? && e.id == id) && (e.Ask? ==> !PurgedBy(s, id))
    ensures Stands(Next(s, e), id, fd, n, flags)
  {
  }

  lemma StandsOn(s: State, id: nat, fd: int, n: int, flags: seq<int>, f: int)
    requires id <= s.wisid && Stands(s, id, fd, n, flags)
    ensures Stands(DoReply(s, id, f), id, fd, n, flags + [f])
  {
    VerdictGrows(n, flags, f);
  }

  lemma StaysForgotten(s: State, e: Event, id: nat)
    requires Forgotten(s, id)
    ensures Forgotten(Next(s, e), id)
  {
  }

  lemma PurgeForgets(s: State, e: Event, id: nat, fd: int, n: int, flags: seq<int>)
    requires id <= s.wisid && Stands(s, id, fd, n, flags) && e.Ask? && PurgedBy(s, id)
    ensures Verdict(n, flags).None? && Forgotten(Next(s, e), id)
  {
  }

  /** Where a whisper stands after the run from when it was put: forgotten for good if it
      was purged, and that only before it had a verdict. */
  ghost predicate Fate(first: State, es: seq<Event>, id: nat, fd: int, servers: nat) {
    var t := After(first, es);
    id <= t.wisid &&
    if Lost(first, es, id) then Forgotten(t, id) else Stands(t, id, fd, servers, RepliesTo(es, id))
  }

  lemma FateGoesOn(first: State, es: seq<Event>, id: nat, fd: int, servers: nat)
    requires es != [] && Fate(first, es[..|es| - 1], id, fd, servers)
    ensures Fate(first, es, id, fd, servers)
  {
    var n := |es| - 1;
    var t, e, flags := After(first, es[..n]), es[n], RepliesTo(es[..n], id);
    if Lost(first, es[..n], id) {
      StaysForgotten(t, e, id);
    } else if e.Ask? && PurgedBy(t, id) {
      PurgeForgets(t, e, id, fd, servers, flags);
    } else if e.Reply? && e.id == id {
      StandsOn(t, id, fd, servers, flags, e.flag);
    } else {
      StandsStill(t, e, id, fd, servers, flags);
    }
  }

  lemma FateBegins(s: State, fd: int, servers: nat)
    requires Inv(s)
    ensures Fate(DoAsk(s, fd, servers), [], s.wisid + 1, fd, servers)
  {
  }

  /** In every run the sender is told exactly the verdict of the replies to the whisper,
      and nothing before there is one; or, if the whisper was purged before there was
      one, nothing ever. */
  lemma {:induction false} SenderGetsTheVerdict(s: State, es: seq<Event>, fd: int, servers: nat)
    requires Inv(s)
    ensures Fate(DoAsk(s, fd, servers), es, s.wisid + 1, fd, servers)
    decreases |es|
  {
    if es == [] {
      FateBegins(s, fd, servers);
    } else {
      SenderGetsTheVerdict(s, es[..|es| - 1], fd, servers);
      FateGoesOn(DoAsk(s, fd, servers), es, s.wisid + 1, fd, servers);
    }
  }

  // -------------------------------------------------------------- which ones are lost

  /** A request takes a place of its own in the table, for as many answers as servers were
      reached, and drops exactly the whispers older than a minute. */
  lemma AskDoes(s: State, fd: int, servers: nat)
    requires Inv(s)
    ensures var t, id := Next(s, Ask(fd, servers)), s.wisid + 1;
      && t == s.(wisid := id, db := t.db) && id !in s.db
      && id in t.db && t.db[id] == Wis(fd, servers, Tick(s.now))
      && (forall k :: k in t.db && k != id <==> k in s.db && DiffTick(Tick(s.now), s.db[k].tick) <= 60000)
      && (forall k :: k in t.db && k != id ==> t.db[k] == s.db[k])
  {
  }

  /** The whisper, if it is still waiting, is the one put at time put. */
  ghost predicate PutAt(s: State, id: nat, put: nat) {
    put <= s.now && (id in s.db ==> s.db[id].tick == Tick(put)) && id <= s.wisid
  }

  lemma PutStays(s: State, e: Event, id: nat, put: nat)
    requires PutAt(s, id, put)
    ensures PutAt(Next(s, e), id, put)
  {
  }

  lemma {:induction false} PutStaysInRun(first: State, es: seq<Event>, id: nat, put: nat)
    requires PutAt(first, id, put)
    ensures PutAt(After(first, es), id, put)
    decreases |es|
  {
    if es != [] {
      PutStaysInRun(first, es[..|es| - 1], id, put);
      PutStays(After(first, es[..|es| - 1]), es[|es| - 1], id, put);
    }
  }

  /** The time that passes in a run. */
  function Elapsed(es: seq<Event>): nat
    decreases |es|
  {
    if es == [] then 0
    else Elapsed(es[..|es| - 1]) + if es[|es| - 1].Advance? then es[|es| - 1].ms else 0
  }

  lemma {:induction false} ClockRuns(first: State, es: seq<Event>)
    ensures After(first, es).now == first.now + Elapsed(es)
    decreases |es|
  {
    if es != [] {
      ClockRuns(first, es[..|es| - 1]);
    }
  }

  /** At the n-th event, a request, the whisper put at the start has waited for more than a
      minute without a verdict. */
  predicate LateAt(es: seq<Event>, n: nat, id: nat, servers: nat) {
    && n < |es| && es[n].Ask? && Elapsed(es[..n]) > 60000
    && Verdict(servers, RepliesTo(es[..n], id)).None?
  }

  ghost predicate GetsLate(es: seq<Event>, id: nat, servers: nat) {
    exists n :: LateAt(es, n, id, servers)
  }

  lemma {:induction false} LateSoFar(es: seq<Event>, m: nat, id: nat, servers: nat)
    requires |es| == m + 1
    ensures GetsLate(es, id, servers) <==> GetsLate(es[..m], id, servers) || LateAt(es, m, id, servers)
  {
    forall n: nat | n < m ensures LateAt(es[..m], n, id, servers) <==> LateAt(es, n, id, servers) {
      assert es[..m][..n] == es[..n];
    }
    if n: nat :| LateAt(es[..m], n, id, servers) {
      assert LateAt(es, n, id, servers);
    }
  }

  lemma {:induction false} LostNow(s: State, es: seq<Event>, fd: int, servers: nat, n: nat)
    requires Inv(s) && n < |es| && Elapsed(es[..n]) < 0x8000_0000
    requires !Lost(DoAsk(s, fd, servers), es[..n], s.wisid + 1)
    ensures es[n].Ask? && PurgedBy(After(DoAsk(s, fd, servers), es[..n]), s.wisid + 1) <==>
      LateAt(es, n, s.wisid + 1, servers)
  {
    var first, id := DoAsk(s, fd, servers), s.wisid + 1;
    var t := After(first, es[..n]);
    SenderGetsTheVerdict(s, es[..n], fd, servers);
    PutStaysInRun(first, es[..n], id, s.now);
    ClockRuns(first, es[..n]);
    if id in t.db {
      DiffTickIsElapsed(s.now, t.now);
    }
  }

  /** A whisper is lost in a run exactly when a request finds it older than a minute and
      without a verdict.  (The clock can tell ages below 2^31 ms.) */
  lemma {:induction false} LostIffLate(s: State, es: seq<Event>, fd: int, servers: nat)
    requires Inv(s) && Elapsed(es) < 0x8000_0000
    ensures Lost(DoAsk(s, fd, servers), es, s.wisid + 1) <==> GetsLate(es, s.wisid + 1, servers)
    decreases |es|
  {
    var first, id := DoAsk(s, fd, servers), s.wisid + 1;
    if es != [] {
      var m := |es| - 1;
      LostIffLate(s, es[..m], fd, servers);
      LateSoFar(es, m, id, servers);
      if !Lost(first, es[..m], id) {
        LostNow(s, es, fd, servers, m);
      }
    }
  }

  // ------------------------------------------------------------------ in the server

  function Without(db: map<nat, Wis>, ids: seq<nat>): map<nat, Wis> {
    map id | id in db && id !in ids :: db[id]
  }

  lemma WithoutNone(db: map<nat, Wis>)
    ensures Without(db, []) == db
  {
  }

  lemma WithoutOne(db: map<nat, Wis>, ids: seq<nat>, id: nat)
    requires id in db && id !in ids
    ensures Without(db, ids + [id]) == Without(db, ids) - {id}
    ensures |Without(db, ids + [id])| == |Without(db, ids)| - 1
  {
    var more, less := Without(db, ids), Without(db, ids + [id]);
    assert more.Keys == less.Keys + {id};
    assert |more| == |more.Keys| && |less| == |less.Keys|;
  }

  class Server {
    var now: nat
    var wisid: nat
    var wisDb: map<nat, Wis>
    var results: seq<Result>
    const delList: array<nat>     // wis_dellist

    constructor ()
      ensures View() == State(0, 0, map[], []) && fresh(delList) && delList.Length == WISDELLIST_MAX
    {
      now, wisid, wisDb, results := 0, 0, map[], [];
      delList := new nat[WISDELLIST_MAX](_ => 0);
    }

    ghost function View(): State
      reads this
    {
      State(now, wisid, wisDb, results)
    }

    /** The pass of check_ttl_wisdata that notes expired whispers, as many as fit. */
    method NoteExpired() returns (delnum: nat)
      requires delList.Length == WISDELLIST_MAX
      modifies delList
      ensures delnum <= WISDELLIST_MAX
      ensures forall i :: 0 <= i < delnum ==> delList[i] in wisDb && Expired(now, wisDb[delList[i]])
      ensures forall i, j :: 0 <= i < j < delnum ==> delList[i] != delList[j]
      ensures delnum < WISDELLIST_MAX ==>
        forall id :: id in wisDb && Expired(now, wisDb[id]) ==> id in delList[..delnum]
    {
      delnum := 0;
      var todo: set<nat> := wisDb.Keys;
      while todo != {}
        invariant todo <= wisDb.Keys && delnum <= WISDELLIST_MAX
        invariant forall i :: 0 <= i < delnum ==>
          delList[i] !in todo && delList[i] in wisDb && Expired(now, wisDb[delList[i]])
        invariant forall i, j :: 0 <= i < j < delnum ==> delList[i] != delList[j]
        invariant delnum < WISDELLIST_MAX ==>
          forall id :: id in wisDb && id !in todo && Expired(now, wisDb[id]) ==> id in delList[..delnum]
        decreases |todo|
      {
        SomeNatLeft(todo);
        var id :| id in todo;
        todo := todo - {id};
        if Expired(now, wisDb[id]) && delnum < WISDELLIST_MAX {
          ghost var before := delList[..delnum];
          delList[delnum] := id;
          delnum := delnum + 1;
          assert delList[..delnum] == before + [id];
        }
      }
    }

    /** check_ttl_wisdata: however many have expired, the batches come to an end and none
        is left. */
    method CheckTtl()
      requires delList.Length == WISDELLIST_MAX
      modifies this`wisDb, delList
      ensures wisDb == Purged(now, old(wisDb))
    {
      ghost var was := wisDb;
      var delnum := WISDELLIST_MAX;
      while delnum >= WISDELLIST_MAX
        invariant delnum <= WISDELLIST_MAX
        invariant wisDb.Keys <= was.Keys && forall id :: id in wisDb ==> wisDb[id] == was[id]
        invariant forall id :: id in was && !Expired(now, was[id]) ==> id in wisDb
        invariant delnum < WISDELLIST_MAX ==> forall id :: id in wisDb ==> !Expired(now, wisDb[id])
        decreases if delnum < WISDELLIST_MAX then 0 else 1, |wisDb|
      {
        delnum := NoteExpired();
        DropNoted(delnum);
      }
    }

    /** The noted whispers are removed. */
    method DropNoted(delnum: nat)
      requires delnum <= delList.Length
      requires forall i :: 0 <= i < delnum ==> delList[i] in wisDb
      requires forall i, j :: 0 <= i < j < delnum ==> delList[i] != delList[j]
      modifies this`wisDb
      ensures wisDb == Without(old(wisDb), delList[..delnum])
      ensures |wisDb| + delnum == |old(wisDb)|
    {
      ghost var was, noted := wisDb, delList[..delnum];
      WithoutNone(was);
      for i := 0 to delnum
        invariant wisDb == Without(was, noted[..i]) && |wisDb| + i == |was|
      {
        assert noted[i] !in noted[..i] && noted[..i + 1] == noted[..i] + [noted[i]];
        WithoutOne(was, noted[..i], noted[i]);
        wisDb := wisDb - {delList[i]};
      }
      assert noted[..delnum] == noted;
    }

    /** mapif_parse_WisRequest to an existing other character. */
    method WisRequest(fd: int, servers: nat)
      requires delList.Length == WISDELLIST_MAX
      modifies this`wisid, this`wisDb, delList
      ensures View() == Next(old(View()), Ask(fd, servers))
    {
      CheckTtl();
      wisid := wisid + 1;
      wisDb := wisDb[wisid := Wis(fd, 0, Tick(now))];
      wisDb := wisDb[wisid := wisDb[wisid].(count := servers)];
    }

    /** mapif_parse_WisReply. */
    method WisReply(id: nat, flag: int)
      modifies this`wisDb, this`results
      ensures View() == Next(old(View()), Reply(id, flag))
    {
      if id !in wisDb {
        return;
      }
      wisDb := wisDb[id := wisDb[id].(count := wisDb[id].count - 1)];
      if wisDb[id].count <= 0 || flag != 1 {
        results := results + [Result(id, wisDb[id].fd, flag)];
        wisDb := wisDb - {id};
      }
    }
  }
}
