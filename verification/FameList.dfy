/** The fame ranking: a cached top-N list kept in order by moving one entry at a time. */
module FameList {
  import opened DbMacros

  const MAX_FAME_LIST: nat := 10

  /** A place in the ranking; id 0 is an empty place. */
  datatype Entry = Entry(id: int, fame: int)

  const EMPTY: Entry := Entry(0, 0)

  /** What is told to the map-servers: nothing, one new value, or the whole ranking. */
  datatype Msg = Silence | OneValue(index: nat, fame: int) | Ranking(entries: seq<Entry>)

  // ------------------------------------------------------------------- the update

  /** ARR_FIND for the player: its place, or |list|. */
  function PlayerPos(list: seq<Entry>, cid: int): (p: nat)
    ensures p <= |list|
    ensures p < |list| ==> list[p].id == cid
    ensures forall k :: 0 <= k < p ==> list[k].id != cid
    decreases |list|
  {
    if list == [] || list[0].id == cid then 0 else 1 + PlayerPos(list[1..], cid)
  }

  /** ARR_FIND for the fame: the first place with no more fame, or |list|. */
  function FamePos(list: seq<Entry>, fame: int): (p: nat)
    ensures p <= |list|
    ensures p < |list| ==> list[p].fame <= fame
    ensures forall k :: 0 <= k < p ==> list[k].fame > fame
    decreases |list|
  {
    if list == [] || list[0].fame <= fame then 0 else 1 + FamePos(list[1..], fame)
  }

  /** The list after 0x2b10. */
  function Update(list: seq<Entry>, cid: int, fame: int): (r: seq<Entry>)
    ensures |r| == |list|
  {
    var player := PlayerPos(list, cid);
    var place := FamePos(list, fame);
    var n := |list|;
    if player == n && place == n then list
    else if place == player then list[player := list[player].(fame := fame)]
    else if player == n then Placed(list, n - 1, place, Entry(cid, fame))
    else
      var to := if place == n then n - 1 else place;
      Placed(list, player, to, Entry(cid, fame))
  }

  /** The entries sent: those before the first empty place. */
  function Filled(list: seq<Entry>): (f: seq<Entry>)
    ensures |f| <= |list|
    decreases |list|
  {
    if list == [] || list[0].id == 0 then [] else [list[0]] + Filled(list[1..])
  }

  function Sent(list: seq<Entry>, cid: int, fame: int): Msg {
    var player := PlayerPos(list, cid);
    var place := FamePos(list, fame);
    if player == |list| && place == |list| then Silence
    else if place == player then OneValue(player, fame)
    else Ranking(Filled(Update(list, cid, fame)))
  }

  /** What is told: nothing about a player who is not listed and has too little fame; one
      value about a listed one that stays in place; else everything up to the first empty
      place. */
  lemma WhatIsSent(list: seq<Entry>, cid: int, fame: int, player: nat, place: nat)
    requires player <= |list| && (player < |list| ==> list[player].id == cid)
    requires forall k :: 0 <= k < player ==> list[k].id != cid
    requires place <= |list| && (place < |list| ==> list[place].fame <= fame)
    requires forall k :: 0 <= k < place ==> list[k].fame > fame
    ensures Sent(list, cid, fame) ==
      if player == |list| && place == |list| then Silence
      else if place == player then OneValue(player, fame)
      else Ranking(Filled(Update(list, cid, fame)))
    ensures player == |list| && place == |list| ==> Update(list, cid, fame) == list
    ensures player == place < |list| ==> Update(list, cid, fame) == list[player := Entry(cid, fame)]
  {
    assert player == PlayerPos(list, cid) && place == FamePos(list, fame);
  }

  /** The entries sent are those before the first empty place. */
  lemma {:induction false} FilledIs(list: seq<Entry>)
    ensures Filled(list) <= list && (forall e :: e in Filled(list) ==> e.id != 0)
    ensures |Filled(list)| < |list| ==> list[|Filled(list)|].id == 0
    decreases |list|
  {
    if list != [] && list[0].id != 0 {
      FilledIs(list[1..]);
    }
  }

  // ------------------------------------------------------------ a correct ranking

  predicate NoLess(a: Entry, b: Entry) { a.fame >= b.fame }

  ghost predicate Sorted(list: seq<Entry>) {
    forall i, j {:trigger NoLess(list[i], list[j])} :: 0 <= i < j < |list| ==> NoLess(list[i], list[j])
  }

  predicate EmptyOrOther(a: Entry, b: Entry) { b.id != 0 ==> a.id != 0 && a.id != b.id }

  /** No character twice; empty places have no fame and come last. */
  ghost predicate Packed(list: seq<Entry>) {
    && (forall i :: 0 <= i < |list| && list[i].id == 0 ==> list[i].fame == 0)
    && (forall i, j {:trigger EmptyOrOther(list[i], list[j])} ::
          0 <= i < j < |list| ==> EmptyOrOther(list[i], list[j]))
  }

  predicate Listed(list: seq<Entry>, c: int) { PlayerPos(list, c) < |list| }

  /** Everybody listed has that fame. */
  ghost predicate TrueValues(list: seq<Entry>, all: map<int, int>) {
    forall i :: 0 <= i < |list| && list[i].id != 0 ==> list[i].id in all && all[list[i].id] == list[i].fame
  }

  /** Nobody unlisted has more than fame. */
  ghost predicate OverOthers(list: seq<Entry>, all: map<int, int>, fame: int) {
    forall c {:trigger Listed(list, c)} :: c in all && !Listed(list, c) ==> all[c] <= fame
  }

  /** The values are true, and nobody unlisted has more than the last place. */
  ghost predicate TopOf(list: seq<Entry>, all: map<int, int>) {
    TrueValues(list, all) && (list != [] ==> OverOthers(list, all, list[|list| - 1].fame))
  }

  /** all holds the fame of every character of the ranking's jobs. */
  ghost predicate Right(list: seq<Entry>, all: map<int, int>) {
    && Sorted(list) && Packed(list) && TopOf(list, all)
    && 0 !in all && forall c :: c in all ==> all[c] >= 0
  }

  /** Fame taken away from a listed character: somebody is passed over by the move, or
      falls below somebody who is not listed. */
  ghost predicate Misplaced(list: seq<Entry>, all: map<int, int>, cid: int, fame: int) {
    var player := PlayerPos(list, cid);
    var place := FamePos(list, fame);
    && player < |list| && fame < list[player].fame
    && (if place < |list| then list[place].fame < fame || list[place].id == 0
        else !OverOthers(list, all, fame))
  }

  lemma RightFrom(r: seq<Entry>, all: map<int, int>)
    requires Sorted(r) && Packed(r)
    requires 0 !in all && forall c :: c in all ==> all[c] >= 0
    ensures Right(r, all) <==> TopOf(r, all)
  {
  }

  /** The list with the place from given up and the entry e put at the place to. */
  function Placed(list: seq<Entry>, from: nat, to: nat, e: Entry): (r: seq<Entry>)
    requires from < |list| && to < |list|
    ensures |r| == |list| && r[to] == e
    ensures forall k :: 0 <= k < |list| && k != to ==> r[k] == list[Source(from, to, k)]
  {
    Moved(list, from, to)[to := e]
  }

  lemma PlacedSorted(list: seq<Entry>, from: nat, to: nat, e: Entry)
    requires from < |list| && to < |list| && Sorted(list)
    requires forall k :: 0 <= k < to && k != from ==> list[k].fame >= e.fame
    requires from < to ==> list[to].fame >= e.fame
    requires forall k :: to < k < |list| && k != from ==> list[k].fame <= e.fame
    requires to < from ==> list[to].fame <= e.fame
    ensures Sorted(Placed(list, from, to, e))
  {
    var r := Placed(list, from, to, e);
    forall i, j | 0 <= i < j < |r| ensures NoLess(r[i], r[j]) {
      if i == to {
        assert to <= Source(from, to, j) != from;
      } else if j == to {
        assert to >= Source(from, to, i) != from;
      } else {
        OthersKeepOrder(from, to, i, j);
        assert NoLess(list[Source(from, to, i)], list[Source(from, to, j)]);
      }
    }
  }

  /** The place from can be given up for e, at the place to. */
  ghost predicate Fits(list: seq<Entry>, from: nat, to: nat, e: Entry) {
    && from < |list| && to < |list| && Packed(list) && e.id != 0
    && (list[from].id == e.id || !Listed(list, e.id))
    && (forall k :: 0 <= k < to && k != from ==> list[k].id != 0)
    && (from < to ==> list[to].id != 0)
  }

  lemma PlacedPair(list: seq<Entry>, from: nat, to: nat, e: Entry, i: nat, j: nat)
    requires Fits(list, from, to, e) && i < j < |list|
    ensures EmptyOrOther(if i == to then e else list[Source(from, to, i)],
                         if j == to then e else list[Source(from, to, j)])
  {
    var p, q := Source(from, to, i), Source(from, to, j);
    if i == to {
      NoTwin(list, from, e, q);
    } else if j == to {
      NoTwin(list, from, e, p);
    } else {
      OthersKeepOrder(from, to, i, j);
      assert EmptyOrOther(list[p], list[q]);
    }
  }

  /** e takes the place of the same character, or of the last one. */
  lemma PlacedPacked(list: seq<Entry>, from: nat, to: nat, e: Entry)
    requires Fits(list, from, to, e)
    ensures Packed(Placed(list, from, to, e))
  {
    var r := Placed(list, from, to, e);
    forall i, j | 0 <= i < j < |r| ensures EmptyOrOther(r[i], r[j]) {
      PlacedPair(list, from, to, e, i, j);
    }
  }

  lemma NoTwin(list: seq<Entry>, from: nat, e: Entry, k: nat)
    requires from < |list| && k < |list| && k != from && Packed(list) && e.id != 0
    requires list[from].id == e.id || !Listed(list, e.id)
    ensures list[k].id != e.id
  {
    if list[from].id == e.id {
      var i, j := if k < from then k else from, if k < from then from else k;
      assert EmptyOrOther(list[i], list[j]);
    }
  }

  /** Who is on the list afterwards. */
  lemma PlacedListed(list: seq<Entry>, from: nat, to: nat, e: Entry, c: int)
    requires from < |list| && to < |list|
    ensures Listed(Placed(list, from, to, e), c) ==> c == e.id || Listed(list, c)
    ensures Listed(list, c) && !Listed(Placed(list, from, to, e), c) ==> c == list[from].id
  {
    var r := Placed(list, from, to, e);
    if i :| 0 <= i < |list| && list[i].id == c && i != from {
      var k := Source(to, from, i);
      assert k != to && Source(from, to, k) == i;
      assert r[k].id == c;
    }
  }

  /** Everybody listed keeps a true value, given that e is true. */
  lemma PlacedTrue(list: seq<Entry>, all: map<int, int>, from: nat, to: nat, e: Entry)
    requires from < |list| && to < |list| && Packed(list) && TrueValues(list, all) && e.id != 0
    requires list[from].id == e.id || !Listed(list, e.id)
    ensures TrueValues(Placed(list, from, to, e), all[e.id := e.fame])
  {
    var r := Placed(list, from, to, e);
    forall i | 0 <= i < |r| && r[i].id != 0
      ensures r[i].id in all[e.id := e.fame] && all[e.id := e.fame][r[i].id] == r[i].fame
    {
      if i != to {
        NoTwin(list, from, e, Source(from, to, i));
      }
    }
  }

  /** place is where the fame belongs: after more fame, before the rest. */
  ghost predicate IsPlace(list: seq<Entry>, fame: int, place: nat) {
    && (forall k :: 0 <= k < place && k < |list| ==> list[k].fame > fame)
    && (forall k :: place <= k < |list| ==> list[k].fame <= fame)
  }

  lemma FamePosIsPlace(list: seq<Entry>, fame: int)
    requires Sorted(list)
    ensures IsPlace(list, fame, FamePos(list, fame))
  {
    var place := FamePos(list, fame);
    forall k | place <= k < |list| ensures list[k].fame <= fame {
      assert k > place ==> NoLess(list[place], list[k]);
    }
  }

  /** Moving an entry up to its place, or putting a new one there, keeps the order. */
  lemma UpIsOrdered(list: seq<Entry>, from: nat, place: nat, e: Entry)
    requires place <= from < |list| && Sorted(list) && Packed(list) && IsPlace(list, e.fame, place)
    requires e.id != 0 && e.fame >= 0 && (list[from].id == e.id || !Listed(list, e.id))
    ensures Sorted(Placed(list, from, place, e)) && Packed(Placed(list, from, place, e))
  {
    PlacedSorted(list, from, place, e);
    PlacedPacked(list, from, place, e);
  }

  /** A character not on the list goes up, or stays off. */
  lemma NewcomerIsRight(list: seq<Entry>, all: map<int, int>, cid: int, fame: int)
    requires Right(list, all) && cid != 0 && fame >= 0 && !Listed(list, cid)
    ensures Right(Update(list, cid, fame), all[cid := fame])
  {
    var place := FamePos(list, fame);
    FamePosIsPlace(list, fame);
    if place < |list| {
      NewcomerPlaced(list, all, place, cid, fame);
    } else {
      NewcomerStaysOff(list, all, cid, fame);
    }
  }

  lemma NewcomerStaysOff(list: seq<Entry>, all: map<int, int>, cid: int, fame: int)
    requires Right(list, all) && cid != 0 && fame >= 0 && !Listed(list, cid) && IsPlace(list, fame, |list|)
    ensures Right(list, all[cid := fame])
  {
    assert forall i :: 0 <= i < |list| ==> list[i].id != cid;
  }

  lemma NewcomerPlaced(list: seq<Entry>, all: map<int, int>, place: nat, cid: int, fame: int)
    requires Right(list, all) && cid != 0 && fame >= 0 && !Listed(list, cid)
    requires place < |list| && IsPlace(list, fame, place)
    ensures Right(Placed(list, |list| - 1, place, Entry(cid, fame)), all[cid := fame])
  {
    var e, last := Entry(cid, fame), |list| - 1;
    assert last > 0 ==> NoLess(list[last - 1], list[last]);
    UpIsOrdered(list, last, place, e);
    PlacedTrue(list, all, last, place, e);
    NewcomerTops(list, all, place, e);
    RightFrom(Placed(list, last, place, e), all[cid := fame]);
  }

  /** The entry that drops out had no more than the one that is last now. */
  lemma NewcomerTops(list: seq<Entry>, all: map<int, int>, place: nat, e: Entry)
    requires place < |list| && IsPlace(list, e.fame, place) && 0 !in all && TrueValues(list, all)
    requires OverOthers(list, all, list[|list| - 1].fame)
    requires |list| > 1 ==> list[|list| - 2].fame >= list[|list| - 1].fame
    ensures var r := Placed(list, |list| - 1, place, e); OverOthers(r, all[e.id := e.fame], r[|r| - 1].fame)
  {
    var last := |list| - 1;
    var r := Placed(list, last, place, e);
    assert r[last].fame >= list[last].fame && r[place].id == e.id;
    forall c | c in all[e.id := e.fame] && !Listed(r, c) ensures all[e.id := e.fame][c] <= r[last].fame {
      PlacedListed(list, last, place, e, c);
      assert all[c] <= list[last].fame;
    }
  }

  /** A listed character that stays on the list: who is unlisted does not change. */
  lemma SameUnlisted(list: seq<Entry>, r: seq<Entry>, all: map<int, int>, cid: int, fame: int, bound: int)
    requires forall c :: Listed(r, c) <==> Listed(list, c)
    requires Listed(list, cid)
    ensures OverOthers(r, all[cid := fame], bound) <==> OverOthers(list, all, bound)
  {
    if OverOthers(r, all[cid := fame], bound) {
      forall c | c in all && !Listed(list, c) ensures all[c] <= bound {
        assert !Listed(r, c);
      }
    }
  }

  lemma MoverTops(list: seq<Entry>, all: map<int, int>, from: nat, to: nat, cid: int, fame: int)
    requires from < |list| && to < |list| && Packed(list) && TrueValues(list, all) && cid != 0 && list[from].id == cid
    ensures var r := Placed(list, from, to, Entry(cid, fame));
      TopOf(r, all[cid := fame]) <==> OverOthers(list, all, r[|r| - 1].fame)
  {
    var e := Entry(cid, fame);
    var r := Placed(list, from, to, e);
    PlacedTrue(list, all, from, to, e);
    assert Listed(list, cid) && r[to] == e;
    forall c ensures Listed(r, c) <==> Listed(list, c) {
      PlacedListed(list, from, to, e, c);
    }
    SameUnlisted(list, r, all, cid, fame, r[|r| - 1].fame);
  }

  /** A listed character whose fame did not fall moves up or stays. */
  lemma RiseIsRight(list: seq<Entry>, all: map<int, int>, cid: int, fame: int)
    requires Right(list, all) && cid != 0 && Listed(list, cid)
    requires fame >= list[PlayerPos(list, cid)].fame
    ensures Right(Update(list, cid, fame), all[cid := fame])
  {
    var player, place := PlayerPos(list, cid), FamePos(list, fame);
    FamePosIsPlace(list, fame);
    assert Update(list, cid, fame) == Placed(list, player, place, Entry(cid, fame));
    RiserPlaced(list, all, player, place, cid, fame);
  }

  lemma RiserPlaced(list: seq<Entry>, all: map<int, int>, player: nat, place: nat, cid: int, fame: int)
    requires Right(list, all) && cid != 0 && place <= player < |list| && list[player].id == cid
    requires fame >= list[player].fame && IsPlace(list, fame, place)
    ensures Right(Placed(list, player, place, Entry(cid, fame)), all[cid := fame])
  {
    var r := Placed(list, player, place, Entry(cid, fame));
    assert cid in all && fame >= 0;
    UpIsOrdered(list, player, place, Entry(cid, fame));
    assert player > 0 ==> NoLess(list[player - 1], list[player]);
    assert r[|r| - 1].fame >= list[|list| - 1].fame;
    MoverTops(list, all, player, place, cid, fame);
    RightFrom(r, all[cid := fame]);
  }

  /** A listed character whose fame fell. */
  lemma FallIsRight(list: seq<Entry>, all: map<int, int>, cid: int, fame: int)
    requires Right(list, all) && cid != 0 && Listed(list, cid) && 0 <= fame < list[PlayerPos(list, cid)].fame
    ensures Right(Update(list, cid, fame), all[cid := fame]) <==> !Misplaced(list, all, cid, fame)
  {
    var player, place := PlayerPos(list, cid), FamePos(list, fame);
    FamePosIsPlace(list, fame);
    if place < |list| {
      assert Update(list, cid, fame) == Placed(list, player, place, Entry(cid, fame));
      FallerInside(list, all, player, place, cid, fame);
    } else {
      assert Update(list, cid, fame) == Placed(list, player, |list| - 1, Entry(cid, fame));
      FallerLast(list, all, player, cid, fame);
    }
  }

  /** Up to the place to, everybody else is a character with at least the fame. */
  ghost predicate IsUnder(list: seq<Entry>, fame: int, from: nat, to: nat) {
    && (forall k :: 0 <= k <= to && k < |list| && k != from ==> list[k].fame >= fame && list[k].id != 0)
    && (forall k :: to < k < |list| ==> list[k].fame <= fame)
  }

  /** Moving an entry down behind more fame keeps the order. */
  lemma DownIsOrdered(list: seq<Entry>, from: nat, to: nat, e: Entry)
    requires from <= to < |list| && Sorted(list) && Packed(list) && list[from].id == e.id != 0
    requires IsUnder(list, e.fame, from, to)
    ensures Sorted(Placed(list, from, to, e)) && Packed(Placed(list, from, to, e))
  {
    PlacedSorted(list, from, to, e);
    PlacedPacked(list, from, to, e);
  }

  /** Taking fame away from a listed character, wherever it goes. */
  lemma FallerMoved(list: seq<Entry>, all: map<int, int>, player: nat, to: nat, cid: int, fame: int, last: int)
    requires Right(list, all) && cid != 0 && player <= to < |list| && list[player].id == cid && 0 <= fame
    requires IsUnder(list, fame, player, to)
    requires last == Placed(list, player, to, Entry(cid, fame))[|list| - 1].fame
    ensures Right(Placed(list, player, to, Entry(cid, fame)), all[cid := fame]) <==> OverOthers(list, all, last)
  {
    DownIsOrdered(list, player, to, Entry(cid, fame));
    MoverTops(list, all, player, to, cid, fame);
    RightFrom(Placed(list, player, to, Entry(cid, fame)), all[cid := fame]);
  }

  lemma FallerInside(list: seq<Entry>, all: map<int, int>, player: nat, place: nat, cid: int, fame: int)
    requires Right(list, all) && cid != 0 && player < place < |list| && list[player].id == cid
    requires 0 <= fame < list[player].fame && IsPlace(list, fame, place)
    ensures Right(Placed(list, player, place, Entry(cid, fame)), all[cid := fame])
      <==> !(list[place].fame < fame || list[place].id == 0)
  {
    var e := Entry(cid, fame);
    if list[place].fame < fame || list[place].id == 0 {
      PassedOver(list, player, place, e);
    } else {
      PlaceIsUnder(list, fame, player, place);
      var last := Placed(list, player, place, e)[|list| - 1].fame;
      assert last >= list[|list| - 1].fame;
      FallerMoved(list, all, player, place, cid, fame, last);
      OverMore(list, all, list[|list| - 1].fame, last);
    }
  }

  lemma OverMore(list: seq<Entry>, all: map<int, int>, fame: int, more: int)
    requires OverOthers(list, all, fame) && fame <= more
    ensures OverOthers(list, all, more)
  {
  }

  lemma PlaceIsUnder(list: seq<Entry>, fame: int, from: nat, place: nat)
    requires Packed(list) && place < |list| && IsPlace(list, fame, place) && fame >= 0
    requires list[place].fame == fame && list[place].id != 0
    ensures IsUnder(list, fame, from, place)
  {
  }

  lemma LastIsUnder(list: seq<Entry>, fame: int, from: nat)
    requires Packed(list) && list != [] && IsPlace(list, fame, |list|) && fame >= 0
    ensures IsUnder(list, fame, from, |list| - 1)
  {
  }

  lemma FallerLast(list: seq<Entry>, all: map<int, int>, player: nat, cid: int, fame: int)
    requires Right(list, all) && cid != 0 && player < |list| && list[player].id == cid
    requires 0 <= fame < list[player].fame && IsPlace(list, fame, |list|)
    ensures Right(Placed(list, player, |list| - 1, Entry(cid, fame)), all[cid := fame])
      <==> OverOthers(list, all, fame)
  {
    LastIsUnder(list, fame, player);
    FallerMoved(list, all, player, |list| - 1, cid, fame, fame);
  }

  lemma PassedOver(list: seq<Entry>, player: nat, place: nat, e: Entry)
    requires player < place < |list| && e.id != 0
    requires list[place].fame < e.fame || list[place].id == 0
    ensures !(Sorted(Placed(list, player, place, e)) && Packed(Placed(list, player, place, e)))
  {
    var r := Placed(list, player, place, e);
    assert Source(player, place, place - 1) == place;
    assert r[place - 1] == list[place] && r[place] == e;
    assert !NoLess(r[place - 1], r[place]) || !EmptyOrOther(r[place - 1], r[place]);
  }

  /** The ranking stays the top of everybody's fame exactly when the update does not
      misplace the character; it never does unless listed fame is taken away. */
  lemma UpdateIsRight(list: seq<Entry>, all: map<int, int>, cid: int, fame: int)
    requires Right(list, all) && cid != 0 && fame >= 0
    ensures Right(Update(list, cid, fame), all[cid := fame]) <==> !Misplaced(list, all, cid, fame)
    ensures (cid !in all || all[cid] <= fame) ==> Right(Update(list, cid, fame), all[cid := fame])
  {
    if !Listed(list, cid) {
      NewcomerIsRight(list, all, cid, fame);
    } else if fame >= list[PlayerPos(list, cid)].fame {
      RiseIsRight(list, all, cid, fame);
    } else {
      FallIsRight(list, all, cid, fame);
    }
  }

  const THREE: seq<Entry> := [Entry(1, 10), Entry(2, 5), Entry(3, 3)]
  const THEIR_FAME: map<int, int> := map[1 := 10, 2 := 5, 3 := 3]

  lemma ThreeIsRight()
    ensures Right(THREE, THEIR_FAME)
  {
    forall c | c in THEIR_FAME ensures Listed(THREE, c) {
      assert THREE[0].id == 1 && THREE[1].id == 2 && THREE[2].id == 3;
    }
  }

  /** [10, 5, 3] with the first taken down to 4 becomes [5, 3, 4]. */
  lemma OnePlaceTooFar()
    ensures Right(THREE, THEIR_FAME)
    ensures Update(THREE, 1, 4) == [Entry(2, 5), Entry(3, 3), Entry(1, 4)]
    ensures !Right(Update(THREE, 1, 4), THEIR_FAME[1 := 4])
  {
    ThreeIsRight();
    assert FamePos(THREE[1..], 4) == 1;
    assert PlayerPos(THREE, 1) == 0 && FamePos(THREE, 4) == 2;
    var r := Update(THREE, 1, 4);
    assert !NoLess(r[1], r[2]);
  }

  // ---------------------------------------------------------------------- runs

  datatype Gain = Gain(cid: int, fame: int)

  function AllAfter(all: map<int, int>, gs: seq<Gain>): map<int, int>
    decreases |gs|
  {
    if gs == [] then all else AllAfter(all[gs[0].cid := gs[0].fame], gs[1..])
  }

  function ListAfter(list: seq<Entry>, gs: seq<Gain>): seq<Entry>
    decreases |gs|
  {
    if gs == [] then list else ListAfter(Update(list, gs[0].cid, gs[0].fame), gs[1..])
  }

  /** Updates of characters whose fame never falls. */
  ghost predicate OnlyGains(all: map<int, int>, gs: seq<Gain>)
    decreases |gs|
  {
    gs == [] ||
    (var g := gs[0];
     g.cid != 0 && g.fame >= 0 && (g.cid in all ==> all[g.cid] <= g.fame)
     && OnlyGains(all[g.cid := g.fame], gs[1..]))
  }

  /** Over any run of gains the ranking stays right. */
  lemma {:induction false} RunStaysRight(list: seq<Entry>, all: map<int, int>, gs: seq<Gain>)
    requires Right(list, all) && OnlyGains(all, gs)
    ensures Right(ListAfter(list, gs), AllAfter(all, gs))
    decreases |gs|
  {
    if gs != [] {
      UpdateIsRight(list, all, gs[0].cid, gs[0].fame);
      RunStaysRight(Update(list, gs[0].cid, gs[0].fame), all[gs[0].cid := gs[0].fame], gs[1..]);
    }
  }

  // ---------------------------------------------------- the map-servers' copies

  /** What a map-server makes of the message: chrif_recvfamelist clears its list first. */
  function Receive(copy: seq<Entry>, m: Msg): seq<Entry> {
    match m
    case Silence => copy
    case OneValue(index, fame) => if index < |copy| then copy[index := copy[index].(fame := fame)] else copy
    case Ranking(es) =>
      if |es| <= |copy| then es + seq(|copy| - |es|, _ => EMPTY) else es[..|copy|]
  }

  predicate EmptyFrom(a: Entry, b: Entry) { a.id == 0 ==> b == EMPTY }

  /** Behind an empty place all places are empty. */
  ghost predicate GapFree(list: seq<Entry>) {
    forall i, j {:trigger EmptyFrom(list[i], list[j])} :: 0 <= i <= j < |list| ==> EmptyFrom(list[i], list[j])
  }

  /** What is sent, filled up with empty places, is the list iff that has no gap. */
  lemma {:induction false} FilledIsPrefix(list: seq<Entry>)
    ensures Filled(list) + seq(|list| - |Filled(list)|, _ => EMPTY) == list <==> GapFree(list)
    decreases |list|
  {
    if list == [] {
    } else if list[0].id == 0 {
      assert EmptyFrom(list[0], list[0]) ==> list[0] == EMPTY;
      assert forall j :: 0 <= j < |list| ==> (EmptyFrom(list[0], list[j]) <==> list[j] == EMPTY);
    } else {
      FilledIsPrefix(list[1..]);
      GapFreeTail(list);
      assert list == [list[0]] + list[1..];
    }
  }

  lemma GapFreeTail(list: seq<Entry>)
    requires list != [] && list[0].id != 0
    ensures GapFree(list) <==> GapFree(list[1..])
  {
    var rest := list[1..];
    if GapFree(list) {
      forall i, j | 0 <= i <= j < |rest| ensures EmptyFrom(rest[i], rest[j]) {
        assert EmptyFrom(list[i + 1], list[j + 1]);
      }
    }
    if GapFree(rest) {
      forall i, j | 0 <= i <= j < |list| ensures EmptyFrom(list[i], list[j]) {
        assert i > 0 ==> EmptyFrom(rest[i - 1], rest[j - 1]);
      }
    }
  }

  lemma PackedIsGapFree(list: seq<Entry>)
    requires Packed(list)
    ensures GapFree(list)
  {
    forall i, j | 0 <= i <= j < |list| ensures EmptyFrom(list[i], list[j]) {
      assert i < j ==> EmptyOrOther(list[i], list[j]);
    }
  }

  /** Fame taken away from a listed character, whose place is now an empty one: the move
      carries the character over it. */
  predicate OverEmpty(list: seq<Entry>, cid: int, fame: int) {
    var player := PlayerPos(list, cid);
    var place := FamePos(list, fame);
    player < |list| && fame < list[player].fame && place < |list| && list[place].id == 0
  }

  lemma UpdateIsPacked(list: seq<Entry>, all: map<int, int>, cid: int, fame: int)
    requires Right(list, all) && cid != 0 && fame >= 0 && !OverEmpty(list, cid, fame)
    ensures Packed(Update(list, cid, fame))
  {
    var player, place := PlayerPos(list, cid), FamePos(list, fame);
    FamePosIsPlace(list, fame);
    if !Listed(list, cid) {
      NewcomerIsRight(list, all, cid, fame);
    } else if fame >= list[player].fame {
      RiseIsRight(list, all, cid, fame);
    } else {
      PlacedPacked(list, player, if place == |list| then |list| - 1 else place, Entry(cid, fame));
    }
  }

  lemma OverEmptyLeavesGap(list: seq<Entry>, cid: int, fame: int)
    requires Sorted(list) && cid != 0 && OverEmpty(list, cid, fame)
    ensures !GapFree(Update(list, cid, fame))
  {
    var player, place := PlayerPos(list, cid), FamePos(list, fame);
    FamePosIsPlace(list, fame);
    var r := Update(list, cid, fame);
    assert Source(player, place, place - 1) == place;
    assert r[place - 1] == list[place] && r[place] == Entry(cid, fame);
    assert !EmptyFrom(r[place - 1], r[place]);
  }

  /** Whatever the update does to the order, a copy that was the ranking is the ranking
      again after the message iff the new ranking has no gap; and that is so unless a
      listed character lost fame and its place is now an empty one. */
  lemma CopyFollows(list: seq<Entry>, all: map<int, int>, cid: int, fame: int)
    requires Right(list, all) && cid != 0 && fame >= 0
    ensures Receive(list, Sent(list, cid, fame)) == Update(list, cid, fame) <==> GapFree(Update(list, cid, fame))
    ensures GapFree(Update(list, cid, fame)) <==> !OverEmpty(list, cid, fame)
  {
    FilledIsPrefix(Update(list, cid, fame));
    FamePosIsPlace(list, fame);
    if OverEmpty(list, cid, fame) {
      OverEmptyLeavesGap(list, cid, fame);
    } else {
      UpdateIsPacked(list, all, cid, fame);
      PackedIsGapFree(Update(list, cid, fame));
    }
  }

  const TWO: seq<Entry> := [Entry(1, 10), Entry(2, 5), EMPTY]

  lemma TwoIsRight()
    ensures Right(TWO, map[1 := 10, 2 := 5])
  {
    forall c | c == 1 || c == 2 ensures Listed(TWO, c) {
      assert TWO[0].id == 1 && TWO[1].id == 2;
    }
  }

  /** [10, 5, no one] with the first taken down to 4 becomes [5, no one, 4], of which the
      map-servers keep [5]. */
  lemma CopyLosesOne()
    ensures Right(TWO, map[1 := 10, 2 := 5])
    ensures Update(TWO, 1, 4) == [Entry(2, 5), EMPTY, Entry(1, 4)]
    ensures Receive(TWO, Sent(TWO, 1, 4)) == [Entry(2, 5), EMPTY, EMPTY]
  {
    TwoIsRight();
    var r := [Entry(2, 5), EMPTY, Entry(1, 4)];
    assert FamePos(TWO[1..], 4) == 1;
    assert PlayerPos(TWO, 1) == 0 && FamePos(TWO, 4) == 2;
    assert Update(TWO, 1, 4) == r;
    assert Filled(r) == [Entry(2, 5)] by {
      assert r[1..][0] == EMPTY;
    }
  }

  // ---------------------------------------------------------------- in the server

  class Board {
    const list: array<Entry>
    var sent: seq<Msg>

    /** An empty ranking of the configured size, cut down to what the array holds. */
    constructor (size: nat)
      ensures fresh(list) && list.Length == (if size > MAX_FAME_LIST then MAX_FAME_LIST else size) && sent == []
      ensures Right(list[..], map[])
    {
      list := new Entry[if size > MAX_FAME_LIST then MAX_FAME_LIST else size](_ => EMPTY);
      sent := [];
    }

    /** char_send_fame_list, for this ranking. */
    method SendList()
      modifies this`sent
      ensures sent == old(sent) + [Ranking(Filled(list[..]))]
    {
      assert list[0..] == list[..];
      var es: seq<Entry> := [];
      var i := 0;
      while i < list.Length && list[i].id != 0
        invariant i <= list.Length
        invariant es + Filled(list[i..]) == Filled(list[..])
      {
        assert list[i..][1..] == list[i + 1..];
        assert es + ([list[i]] + Filled(list[i + 1..])) == (es + [list[i]]) + Filled(list[i + 1..]);
        es := es + [list[i]];
        i := i + 1;
      }
      assert Filled(list[i..]) == [] && es + [] == es;
      sent := sent + [Ranking(es)];
    }

    /** The two searches of 0x2b10. */
    method FindPlayer(cid: int) returns (playerPos: nat)
      ensures playerPos == PlayerPos(list[..], cid)
    {
      playerPos := 0;
      assert list[0..] == list[..];
      while playerPos < list.Length && list[playerPos].id != cid
        invariant playerPos <= list.Length
        invariant PlayerPos(list[..], cid) == playerPos + PlayerPos(list[playerPos..], cid)
      {
        assert list[playerPos..][1..] == list[playerPos + 1..];
        playerPos := playerPos + 1;
      }
    }

    method FindPlace(fame: int) returns (famePos: nat)
      ensures famePos == FamePos(list[..], fame)
    {
      famePos := 0;
      assert list[0..] == list[..];
      while famePos < list.Length && list[famePos].fame > fame
        invariant famePos <= list.Length
        invariant FamePos(list[..], fame) == famePos + FamePos(list[famePos..], fame)
      {
        assert list[famePos..][1..] == list[famePos + 1..];
        famePos := famePos + 1;
      }
    }

    /** New ranker: the last entry makes room. */
    method InsertRanker(famePos: nat, cid: int, fame: int)
      requires famePos < list.Length
      modifies list
      ensures list[..] == Placed(old(list[..]), list.Length - 1, famePos, Entry(cid, fame))
    {
      ArrMove(list.Length - 1, famePos, list);
      ghost var moved := list[..];
      list[famePos] := list[famePos].(id := cid);
      list[famePos] := list[famePos].(fame := fame);
      assert list[..] == moved[famePos := Entry(cid, fame)];
    }

    /** Already in the list. */
    method MoveRanker(playerPos: nat, famePos: nat, fame: int)
      requires playerPos < list.Length && famePos < list.Length
      modifies list
      ensures list[..] == Placed(old(list[..]), playerPos, famePos, Entry(old(list[playerPos].id), fame))
    {
      ghost var cid := list[playerPos].id;
      ArrMove(playerPos, famePos, list);
      ghost var moved := list[..];
      list[famePos] := list[famePos].(fame := fame);
      assert list[..] == moved[famePos := Entry(cid, fame)];
    }

    /** 0x2b10. */
    method UpdateFame(cid: int, fame: int)
      modifies this`sent, list
      ensures list[..] == Update(old(list[..]), cid, fame)
      ensures sent == old(sent) + Outbox(Sent(old(list[..]), cid, fame))
    {
      var size := list.Length;
      var playerPos := FindPlayer(cid);
      var famePos := FindPlace(fame);
      if playerPos == size && famePos == size {
      } else if famePos == playerPos {
        list[playerPos] := list[playerPos].(fame := fame);
        sent := sent + [OneValue(playerPos, fame)];
      } else {
        if playerPos == size {
          InsertRanker(famePos, cid, fame);
        } else {
          if famePos == size {
            famePos := famePos - 1;
          }
          MoveRanker(playerPos, famePos, fame);
        }
        SendList();
      }
    }
  }

  function Outbox(m: Msg): seq<Msg> { if m.Silence? then [] else [m] }
}
