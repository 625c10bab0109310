/** The periodic online list (0x2aff) replaces the set of accounts on a map-server. */
module OnlineSync {
  import opened OnlineRegistry
  import opened Ticks

  predicate Listed(users: seq<(int, int)>, a: int) {
    exists i :: 0 <= i < |users| && users[i].0 == a
  }

  /** The char id in the last entry for the account. */
  function LastReport(users: seq<(int, int)>, a: int): int
    requires Listed(users, a)
    decreases |users|
  {
    var n := |users| - 1;
    if users[n].0 == a then users[n].1 else LastReport(users[..n], a)
  }

  /** A listed account's record once the whole list has been read. */
  function Confirmed(s: State, id: int, users: seq<(int, int)>, a: int): Rec
    requires Listed(users, a)
  {
    Lookup(s.online, a).(server := id, charId := LastReport(users, a), confirm := Tick(s.now))
  }

  /** An unlisted account's record after a list from map-server id. */
  function Unlisted(r: Rec, id: int): Rec {
    if r.server == id then r.(server := -2) else r
  }

  /** Listed accounts that were on another map-server whose connection is open. */
  function Displaced(s: State, id: int, users: seq<(int, int)>): set<int> {
    set i | 0 <= i < |users| && users[i].0 in s.online && s.online[users[i].0].server > -1
            && s.online[users[i].0].server != id && Fd(s, s.online[users[i].0].server) >= 0 :: users[i].0
  }

  function KicksTo(s: State, accounts: set<int>): set<Kick>
    requires accounts <= s.online.Keys
  {
    set a | a in accounts :: Kick(s.online[a].server, a, s.online[a].charId, 2)
  }

  lemma ListedStep(users: seq<(int, int)>, a: int)
    requires users != []
    ensures Listed(users, a) <==> Listed(users[..|users| - 1], a) || users[|users| - 1].0 == a
  {
    var n := |users| - 1;
    if Listed(users, a) && users[n].0 != a {
      var i :| 0 <= i < |users| && users[i].0 == a;
      assert users[..n][i].0 == a;
    }
    if Listed(users[..n], a) {
      var i :| 0 <= i < n && users[..n][i].0 == a;
      assert users[i].0 == a;
    }
  }

  lemma {:induction false} ConfirmAllPointwise(s: State, id: int, users: seq<(int, int)>, a: int)
    ensures var t := ConfirmAll(s, id, users);
      && (a in t.online <==> a in s.online || Listed(users, a))
      && (Listed(users, a) ==> t.online[a] == Confirmed(s, id, users, a))
      && (!Listed(users, a) && a in s.online ==> t.online[a] == s.online[a])
    decreases |users|
  {
    if users != [] {
      var n := |users| - 1;
      ConfirmAllPointwise(s, id, users[..n], a);
      ConfirmAllKeepsTable(s, id, users[..n]);
      ListedStep(users, a);
    }
  }

  lemma {:induction false} ConfirmAllKicks(s: State, id: int, users: seq<(int, int)>)
    ensures ConfirmAll(s, id, users).kicks == s.kicks + multiset(KicksTo(s, Displaced(s, id, users)))
    decreases |users|
  {
    if users == [] {
      assert Displaced(s, id, users) == {};
      assert KicksTo(s, {}) == {};
    } else {
      var n := |users| - 1;
      var a := users[n].0;
      var t := ConfirmAll(s, id, users[..n]);
      var before, after := Displaced(s, id, users[..n]), Displaced(s, id, users);
      ConfirmAllKicks(s, id, users[..n]);
      ConfirmAllPointwise(s, id, users[..n], a);
      ConfirmAllKeepsTable(s, id, users[..n]);
      DisplacedStep(s, id, users);
      if a in after && !Listed(users[..n], a) {
        NotDisplacedUnlessListed(s, id, users[..n], a);
        OneMoreKick(s, before, a);
      } else {
        assert after == before;
      }
    }
  }

  lemma OneMoreKick(s: State, accounts: set<int>, a: int)
    requires accounts <= s.online.Keys && a in s.online && a !in accounts
    ensures multiset(KicksTo(s, accounts + {a}))
         == multiset(KicksTo(s, accounts)) + multiset{Kick(s.online[a].server, a, s.online[a].charId, 2)}
  {
    var k := Kick(s.online[a].server, a, s.online[a].charId, 2);
    assert KicksTo(s, accounts + {a}) == KicksTo(s, accounts) + {k};
    assert k !in KicksTo(s, accounts);
  }

  lemma NotDisplacedUnlessListed(s: State, id: int, users: seq<(int, int)>, a: int)
    requires !Listed(users, a)
    ensures a !in Displaced(s, id, users)
  {
  }

  predicate IsDisplaced(s: State, id: int, a: int) {
    a in s.online && s.online[a].server > -1 && s.online[a].server != id && Fd(s, s.online[a].server) >= 0
  }

  lemma DisplacedStep(s: State, id: int, users: seq<(int, int)>)
    requires users != []
    ensures var n := |users| - 1; var a := users[n].0;
      && Displaced(s, id, users) == Displaced(s, id, users[..n]) + (if IsDisplaced(s, id, a) then {a} else {})
      && (Listed(users[..n], a) ==> Displaced(s, id, users) == Displaced(s, id, users[..n]))
  {
    var n := |users| - 1;
    var a := users[n].0;
    var before, after := Displaced(s, id, users[..n]), Displaced(s, id, users);
    forall b | b in after && b != a
      ensures b in before
    {
      var i :| 0 <= i < |users| && users[i].0 == b;
      assert users[..n][i].0 == b;
    }
    forall b | b in before
      ensures b in after
    {
      var i :| 0 <= i < n && users[..n][i].0 == b;
      assert users[i].0 == b;
    }
    assert IsDisplaced(s, id, a) <==> a in after;
    if Listed(users[..n], a) && a in after {
      var i :| 0 <= i < n && users[..n][i].0 == a;
      assert a in before;
    }
  }

  /** After the list from map-server id: the accounts on id are exactly the listed
      ones, with the char ids last reported; unlisted accounts that were on id become
      unknown and keep their char id; everybody else's record is untouched. */
  lemma SyncReplacesTheSet(s: State, id: int, users: seq<(int, int)>)
    requires IsServer(id)
    ensures var t := MapUsers(s, id, users);
      && (forall a :: a in t.online && t.online[a].server == id <==> Listed(users, a))
      && (forall a :: Listed(users, a) ==>
            t.online[a].charId == LastReport(users, a) && t.online[a].confirm == Tick(s.now)
            && t.online[a].waiting == Lookup(s.online, a).waiting && t.online[a].fd == Lookup(s.online, a).fd)
      && (forall a :: !Listed(users, a) ==> (a in t.online <==> a in s.online))
      && (forall a :: !Listed(users, a) && a in s.online ==> t.online[a] == Unlisted(s.online[a], id))
      && t.timers == s.timers
  {
    var u := s.(online := MarkUnknown(s.online, id));
    var t := MapUsers(s, id, users);
    ConfirmAllKeepsTable(u, id, users);
    forall a
      ensures a in t.online && t.online[a].server == id <==> Listed(users, a)
      ensures a in t.online <==> a in u.online || Listed(users, a)
      ensures Listed(users, a) ==> t.online[a] == Confirmed(u, id, users, a)
      ensures !Listed(users, a) && a in s.online ==> t.online[a] == u.online[a]
    {
      ConfirmAllPointwise(u, id, users, a);
    }
  }

  /** A listed account that another connected map-server held gets one kick, sent to
      that server; nobody else is kicked. */
  lemma SyncKicksTheOtherServer(s: State, id: int, users: seq<(int, int)>)
    requires IsServer(id)
    ensures MapUsers(s, id, users).kicks == s.kicks + multiset(KicksTo(s, Displaced(s, id, users)))
  {
    var u := s.(online := MarkUnknown(s.online, id));
    ConfirmAllKicks(u, id, users);
    assert Displaced(u, id, users) == Displaced(s, id, users);
    assert KicksTo(u, Displaced(s, id, users)) == KicksTo(s, Displaced(s, id, users));
  }

  /** A listed char id of -1 breaks the registry iff it is the last one reported for
      its account. */
  lemma ListHonestyIsNeeded(s: State, id: int, users: seq<(int, int)>)
    requires Inv(s) && IsServer(id)
    ensures Inv(MapUsers(s, id, users)) <==> forall a :: Listed(users, a) ==> LastReport(users, a) != -1
  {
    var t := MapUsers(s, id, users);
    SyncReplacesTheSet(s, id, users);
    ConfirmAllKeepsTable(s.(online := MarkUnknown(s.online, id)), id, users);
    if forall a :: Listed(users, a) ==> LastReport(users, a) != -1 {
      forall a | a in t.online
        ensures RecOk(t.online[a])
        ensures a in s.online ==> t.online[a].waiting == s.online[a].waiting
        ensures a !in s.online ==> t.online[a].waiting == -1
      {
        if Listed(users, a) {
          assert a in t.online && t.online[a].server == id;
        }
      }
    } else {
      var a :| Listed(users, a) && LastReport(users, a) == -1;
      assert a in t.online && !RecOk(t.online[a]);
    }
  }
}
