/** The registry as the server holds it: a table updated in place by the packet
    handlers, the timers and the passes over all accounts. */
module OnlineServer {
  import opened Foreach
  import opened OnlineRegistry
  import opened Ticks

  /** One more account offline. */
  lemma OffAllOneMore(s: State, done: set<int>, a: int)
    requires done <= s.online.Keys && a in s.online
    ensures OffAll(s, done + {a}) == SetOffline(OffAll(s, done), a)
  {
    var off := OffAll(s, done);
    assert a in off.online;
    assert WaitingOf(s.online, done + {a}) ==
           WaitingOf(s.online, done) + if s.online[a].waiting == -1 then {} else {s.online[a].waiting};
    assert a in done && s.online[a].waiting != -1 ==> s.online[a].waiting in WaitingOf(s.online, done);
    assert OffAll(s, done + {a}).online == SetOffline(off, a).online;
    assert OffAll(s, done + {a}).timers == SetOffline(off, a).timers;
  }

  lemma OffNobody(s: State)
    ensures OffAll(s, {}) == s
  {
    assert OffAll(s, {}).online == s.online;
    assert WaitingOf(s.online, {}) == {};
    assert OffAll(s, {}).timers == s.timers;
  }

  /** online_data_cleanup_sub. */
  function CleanOne(s: State, a: int): State
    requires a in s.online
  {
    var t := if a in Ghosts(s) then SetOffline(s, a) else s;
    if t.online[a].server < 0 then t.(online := t.online - {a}) else t
  }

  /** The table while a cleanup pass is under way and the accounts in todo are still
      to be visited. */
  function CleanedSoFar(s: State, todo: set<int>): State {
    var t := OffAll(s, Ghosts(s) - todo);
    t.(online := map a | a in t.online && (a in todo || t.online[a].server >= 0) :: t.online[a])
  }

  lemma CleanStarts(s: State)
    ensures CleanedSoFar(s, s.online.Keys) == s
    ensures CleanedSoFar(s, {}) == Cleanup(s)
  {
    assert Ghosts(s) - s.online.Keys == {};
    OffNobody(s);
    assert CleanedSoFar(s, s.online.Keys).online == s.online;
    assert Ghosts(s) - {} == Ghosts(s);
    assert CleanedSoFar(s, {}).online == Cleanup(s).online;
  }

  lemma CleanedOneMore(s: State, todo: set<int>, a: int)
    requires a in todo && a in s.online
    ensures a in CleanedSoFar(s, todo).online
    ensures CleanedSoFar(s, todo - {a}) == CleanOne(CleanedSoFar(s, todo), a)
  {
    var done := Ghosts(s) - todo;
    var t := CleanedSoFar(s, todo);
    assert t.online[a] == s.online[a] && t.serverFd == s.serverFd;
    assert a in Ghosts(s) <==> a in Ghosts(t);
    if a in Ghosts(s) {
      assert Ghosts(s) - (todo - {a}) == done + {a};
      OffAllOneMore(s, done, a);
    } else {
      assert Ghosts(s) - (todo - {a}) == done;
    }
    var v := CleanOne(t, a);
    assert CleanedSoFar(s, todo - {a}).online == v.online;
    assert CleanedSoFar(s, todo - {a}).timers == v.timers;
  }

  /** char_db_kickoffline. */
  function KickOne(s: State, id: int, a: int): State
    requires a in s.online
  {
    var r := s.online[a];
    if id > -1 && r.server != id then s
    else if r.server > -1 then s.(kicks := SendKick(s, r.server, a, r.charId, 1))
    else if r.waiting == -1 then SetOffline(s, a)
    else s
  }

  /** The kicks sent once the given accounts have been visited. */
  function KicksOf(s: State, id: int, done: set<int>): set<Kick> {
    set a | a in done && a in KickedBy(s, id) && Fd(s, s.online[a].server) >= 0 :: KickOf(s, a)
  }

  /** The state of a set_all_offline pass with the accounts in todo still to visit. */
  function KickedSoFar(s: State, id: int, todo: set<int>): State {
    OffAll(s, IdleFor(s, id) - todo).(kicks := s.kicks + multiset(KicksOf(s, id, s.online.Keys - todo)))
  }

  lemma KickStarts(s: State, id: int)
    ensures KickedSoFar(s, id, s.online.Keys) == s
    ensures KickedSoFar(s, id, {}) == SetAllOffline(s, id)
  {
    assert IdleFor(s, id) - s.online.Keys == {};
    OffNobody(s);
    assert KicksOf(s, id, s.online.Keys - s.online.Keys) == {};
    assert s.kicks + multiset{} == s.kicks;
    assert IdleFor(s, id) - {} == IdleFor(s, id);
    assert s.online.Keys - {} == s.online.Keys;
    assert KicksOf(s, id, s.online.Keys) ==
      set a | a in KickedBy(s, id) && Fd(s, s.online[a].server) >= 0 :: KickOf(s, a);
  }

  lemma KicksOneMore(s: State, id: int, done: set<int>, a: int)
    requires a !in done && a in s.online
    ensures s.kicks + multiset(KicksOf(s, id, done + {a})) ==
            if a in KickedBy(s, id) && Fd(s, s.online[a].server) >= 0
            then s.kicks + multiset(KicksOf(s, id, done)) + multiset{KickOf(s, a)}
            else s.kicks + multiset(KicksOf(s, id, done))
  {
    var before := KicksOf(s, id, done);
    if a in KickedBy(s, id) && Fd(s, s.online[a].server) >= 0 {
      assert KickOf(s, a) !in before;
      assert KicksOf(s, id, done + {a}) == before + {KickOf(s, a)};
      assert multiset(before + {KickOf(s, a)}) == multiset(before) + multiset{KickOf(s, a)};
    } else {
      assert KicksOf(s, id, done + {a}) == before;
    }
  }

  lemma KickedOneMore(s: State, id: int, todo: set<int>, a: int)
    requires a in todo && a in s.online
    ensures a in KickedSoFar(s, id, todo).online
    ensures KickedSoFar(s, id, todo - {a}) == KickOne(KickedSoFar(s, id, todo), id, a)
  {
    var t := KickedSoFar(s, id, todo);
    var off := IdleFor(s, id) - todo;
    var done := s.online.Keys - todo;
    assert t.online[a] == s.online[a] && t.serverFd == s.serverFd;
    assert s.online.Keys - (todo - {a}) == done + {a};
    KicksOneMore(s, id, done, a);
    if a in IdleFor(s, id) {
      assert IdleFor(s, id) - (todo - {a}) == off + {a};
      OffAllOneMore(s, off, a);
    } else {
      assert IdleFor(s, id) - (todo - {a}) == off;
    }
  }

  /** online_stale_reap_sub. */
  function ReapOne(s: State, a: int): State
    requires a in s.online
  {
    if IsStale(s.now, s.online[a]) then SetOffline(s, a) else s
  }

  lemma ReapedOneMore(s: State, todo: set<int>, a: int)
    requires a in todo && a in s.online
    ensures var t := OffAll(s, Stale(s) - todo);
      && a in t.online && t.online[a] == s.online[a]
      && OffAll(s, Stale(s) - (todo - {a})) == ReapOne(t, a)
  {
    if a in Stale(s) {
      assert Stale(s) - (todo - {a}) == (Stale(s) - todo) + {a};
      OffAllOneMore(s, Stale(s) - todo, a);
    } else {
      assert Stale(s) - (todo - {a}) == Stale(s) - todo;
    }
  }

  lemma ReapCount(s: State, todo: set<int>, a: int)
    requires a in todo && a in s.online
    ensures |Stale(s) - (todo - {a})| == |Stale(s) - todo| + if IsStale(s.now, s.online[a]) then 1 else 0
  {
    if a in Stale(s) {
      assert Stale(s) - (todo - {a}) == (Stale(s) - todo) + {a};
    } else {
      assert Stale(s) - (todo - {a}) == Stale(s) - todo;
    }
  }

  lemma ReapStarts(s: State)
    ensures OffAll(s, Stale(s) - s.online.Keys) == s
    ensures OffAll(s, Stale(s) - {}) == Sweep(s)
  {
    assert Stale(s) - s.online.Keys == {};
    OffNobody(s);
    assert Stale(s) - {} == Stale(s);
  }

  class Server {
    var now: nat
    var onlineCheck: bool
    const serverFd: array<int>
    var online: map<int, Rec>
    var timers: map<int, Timer>
    var kicks: multiset<Kick>

    ghost predicate Valid()
      reads this
    {
      serverFd.Length == MAX_MAP_SERVERS
    }

    ghost function View(): State
      reads this, serverFd
    {
      State(now, onlineCheck, serverFd[..], online, timers, kicks)
    }

    /** mapif_disconnectplayer(server_fd[server], ...). */
    method DisconnectPlayer(server: int, a: int, charId: int, reason: int)
      requires Valid() && server >= 0
      modifies this`kicks
      ensures View() == old(View()).(kicks := SendKick(old(View()), server, a, charId, reason))
    {
      if server < serverFd.Length && serverFd[server] >= 0 {
        kicks := kicks + multiset{Kick(server, a, charId, reason)};
      }
    }

    method SetCharOnline(mapId: int, charId: int, a: int)
      requires Valid()
      modifies this`online, this`timers, this`kicks
      ensures View() == SetOnline(old(View()), mapId, charId, a)
    {
      if a !in online {
        online := online[a := NEW_REC];
      }
      var character := online[a];
      if onlineCheck && character.charId != -1 && character.server > -1 && character.server != mapId {
        DisconnectPlayer(character.server, a, character.charId, 2);
      }
      character := character.(charId := if charId == LOGGING_IN then -1 else charId,
                              server := if charId == LOGGING_IN then -1 else mapId, confirm := Tick(now));
      if character.waiting != -1 {
        timers := timers - {character.waiting};
        character := character.(waiting := -1);
      }
      online := online[a := character];
    }

    method SetCharOffline(a: int)
      modifies this`online, this`timers
      ensures View() == SetOffline(old(View()), a)
    {
      if a in online {
        var character := online[a].(charId := -1, server := -1);
        if character.waiting != -1 {
          timers := timers - {character.waiting};
          character := character.(waiting := -1);
        }
        online := online[a := character];
      }
    }

    /** foreach(char_db_setoffline, id) for a map-server. */
    method TagUnknown(id: int)
      requires id >= 0
      modifies this`online
      ensures View() == old(View()).(online := MarkUnknown(old(online), id))
    {
      ghost var was := online;
      var todo := online.Keys;
      while todo != {}
        invariant todo <= online.Keys == was.Keys
        invariant forall a :: a in was ==>
          online[a] == if a !in todo && was[a].server == id then was[a].(server := -2) else was[a]
        decreases |todo|
      {
        SomeLeft(todo);
        var a :| a in todo;
        todo := todo - {a};
        if online[a].server == id {
          online := online[a := online[a].(server := -2)];
        }
      }
      assert forall a :: a in was ==> MarkUnknown(was, id)[a] == online[a];
    }

    /** One entry of a map-server's online list. */
    method ConfirmUser(id: int, aid: int, cid: int)
      requires Valid() && IsServer(id)
      modifies this`online, this`kicks
      ensures View() == Confirm(old(View()), id, aid, cid)
    {
      if aid !in online {
        online := online[aid := NEW_REC];
      }
      var character := online[aid];
      if character.server > -1 && character.server != id {
        DisconnectPlayer(character.server, aid, character.charId, 2);
      }
      online := online[aid := character.(server := id, charId := cid, confirm := Tick(now))];
    }

    /** 0x2aff. */
    method SetMapUsers(id: int, users: seq<(int, int)>)
      requires Valid() && IsServer(id)
      modifies this`online, this`kicks
      ensures View() == MapUsers(old(View()), id, users)
    {
      TagUnknown(id);
      ghost var was := View();
      assert users[..0] == [];
      for i := 0 to |users|
        invariant View() == ConfirmAll(was, id, users[..i])
      {
        assert users[..i + 1][..i] == users[..i];
        ConfirmUser(id, users[i].0, users[i].1);
      }
      assert users[..|users|] == users;
    }

    /** online_stale_reap_sub. */
    method StaleReapSub(a: int) returns (reaped: bool)
      requires a in online
      modifies this`online, this`timers
      ensures View() == ReapOne(old(View()), a)
      ensures reaped <==> IsStale(now, old(online)[a])
    {
      var character := online[a];
      reaped := character.server >= 0 && character.confirm != 0 && DiffTick(Tick(now), character.confirm) > GRACE_MS;
      if reaped {
        SetCharOffline(a);
      }
    }

    /** online_stale_reap: the result is the number of sessions cleared. */
    method StaleReap() returns (reaped: nat)
      modifies this`online, this`timers
      ensures View() == OnlineRegistry.Sweep(old(View()))
      ensures reaped == |Stale(old(View()))|
    {
      ghost var was := View();
      ReapStarts(was);
      reaped := 0;
      var todo := online.Keys;
      while todo != {}
        invariant todo <= was.online.Keys
        invariant View() == OffAll(was, Stale(was) - todo)
        invariant reaped == |Stale(was) - todo|
        decreases |todo|
      {
        SomeLeft(todo);
        var a :| a in todo;
        ReapedOneMore(was, todo, a);
        ReapCount(was, todo, a);
        var one := StaleReapSub(a);
        if one {
          reaped := reaped + 1;
        }
        todo := todo - {a};
      }
    }

    /** online_data_cleanup_sub. */
    method DataCleanupSub(a: int)
      requires Valid() && a in online
      modifies this`online, this`timers
      ensures View() == CleanOne(old(View()), a)
    {
      var server := online[a].server;
      if server == -2 {
        SetCharOffline(a);
      } else if server >= 0 && (server >= MAX_MAP_SERVERS || serverFd[server] <= 0) {
        SetCharOffline(a);
      }
      if online[a].server < 0 {
        online := online - {a};
      }
    }

    /** online_data_cleanup. */
    method DataCleanup()
      requires Valid()
      modifies this`online, this`timers
      ensures View() == Cleanup(old(View()))
    {
      ghost var was := View();
      CleanStarts(was);
      var todo := online.Keys;
      while todo != {}
        invariant todo <= was.online.Keys
        invariant View() == CleanedSoFar(was, todo)
        decreases |todo|
      {
        SomeLeft(todo);
        var a :| a in todo;
        CleanedOneMore(was, todo, a);
        DataCleanupSub(a);
        todo := todo - {a};
      }
    }

    /** char_db_kickoffline. */
    method KickOfflineSub(id: int, a: int)
      requires Valid() && a in online
      modifies this`online, this`timers, this`kicks
      ensures View() == KickOne(old(View()), id, a)
    {
      var character := online[a];
      if id > -1 && character.server != id {
        return;
      }
      if character.server > -1 {
        DisconnectPlayer(character.server, a, character.charId, 1);
      } else if character.waiting == -1 {
        SetCharOffline(a);
      }
    }

    /** set_all_offline: foreach(char_db_kickoffline, id). */
    method KickAllOffline(id: int)
      requires Valid()
      modifies this`online, this`timers, this`kicks
      ensures View() == SetAllOffline(old(View()), id)
    {
      ghost var was := View();
      KickStarts(was, id);
      var todo := online.Keys;
      while todo != {}
        invariant todo <= was.online.Keys
        invariant View() == KickedSoFar(was, id, todo)
        decreases |todo|
      {
        SomeLeft(todo);
        var a :| a in todo;
        KickedOneMore(was, id, todo, a);
        KickOfflineSub(id, a);
        todo := todo - {a};
      }
    }

    /** The online part of char_auth_ok; tid is the id add_timer would hand out. */
    method CharAuthOk(a: int, fd: int, tid: int) returns (refused: bool)
      requires Valid()
      modifies this`online, this`timers, this`kicks
      ensures View() == AuthOk(old(View()), a, fd, tid)
      ensures refused <==> TurnsAway(old(View()), a, fd)
    {
      if onlineCheck && a in online {
        var character := online[a];
        if character.server > -1 {
          DisconnectPlayer(character.server, a, character.charId, 2);
          if character.waiting == -1 {
            timers := timers[tid := Timer(a, now + 20000)];
            online := online[a := character.(waiting := tid)];
          }
          return true;
        }
        if character.fd >= 0 && character.fd != fd {
          return true;
        }
        online := online[a := character.(fd := fd)];
      }
      SetCharOnline(-1, LOGGING_IN, a);
      return false;
    }

    /** 0x2734. */
    method KickRequest(a: int, hasSession: bool, tid: int)
      requires Valid()
      modifies this`online, this`timers, this`kicks
      ensures View() == LoginKick(old(View()), a, hasSession, tid)
    {
      if a in online {
        var character := online[a];
        if character.server > -1 {
          DisconnectPlayer(character.server, a, character.charId, 2);
          if character.waiting == -1 {
            timers := timers[tid := Timer(a, now + 15000)];
            online := online[a := character.(waiting := tid)];
          }
        } else if !hasSession {
          SetCharOffline(a);
        }
      }
    }

    /** parse_char on a closed connection. */
    method CloseSession(a: int, fd: int)
      modifies this`online, this`timers
      ensures View() == SessionClosed(old(View()), a, fd)
    {
      if a !in online || online[a].server == -1 {
        SetCharOffline(a);
      }
      if a in online && online[a].fd == fd {
        online := online[a := online[a].(fd := -1)];
      }
    }

    /** 0x2b05 towards a connected map-server. */
    method ChangeMapServer(a: int, charId: int, mapId: int)
      modifies this`online
      ensures View() == HandOver(old(View()), a, charId, mapId)
    {
      if a !in online {
        online := online[a := NEW_REC];
      }
      online := online[a := online[a].(charId := charId)];
      online := online[a := online[a].(server := mapId)];
    }

    /** chardb_waiting_disconnect, run by the timer loop, which then drops the timer. */
    method WaitingDisconnect(tid: int)
      requires tid in timers
      modifies this`online, this`timers
      ensures View() == FireTimer(old(View()), tid)
    {
      var a := timers[tid].account;
      timers := timers - {tid};
      if a in online && online[a].waiting == tid {
        online := online[a := online[a].(waiting := -1)];
        SetCharOffline(a);
      }
    }

    /** A map-server connection is gone. */
    method LoseMapServer(id: int)
      requires Valid() && IsServer(id)
      modifies this`online, serverFd
      ensures View() == MapLost(old(View()), id)
    {
      serverFd[id] := -1;
      TagUnknown(id);
    }
  }
}
