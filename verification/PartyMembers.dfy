/** What each event makes of a party's members and options, said of the places themselves. */
module PartyMembers {
  import opened Party

  predicate Is(m: Member, account: int, char_: int) { m.account == account && m.char_ == char_ }

  /** The first place with these ids, or one past the last. */
  predicate PlaceOf(ms: seq<Member>, i: nat, account: int, char_: int) {
    i <= |ms| && (i < |ms| ==> Is(ms[i], account, char_)) && forall k :: 0 <= k < i ==> !Is(ms[k], account, char_)
  }

  predicate PlaceOfChar(ms: seq<Member>, i: nat, char_: int) {
    i <= |ms| && (i < |ms| ==> ms[i].char_ == char_) && forall k :: 0 <= k < i ==> ms[k].char_ != char_
  }

  predicate FreePlace(ms: seq<Member>, i: nat) {
    i <= |ms| && (i < |ms| ==> ms[i].account == 0) && forall k :: 0 <= k < i ==> ms[k].account != 0
  }

  /** A member that moves, levels or goes on or off line has exactly what was reported;
      nobody else changes, and for a stranger nothing does. */
  lemma MovedMembers(p: State, i: nat, account: int, char_: int, map_: int, online: bool, lv: nat, share: nat)
    requires PlaceOf(p.members, i, account, char_)
    ensures var q := ChangeMap(p, account, char_, map_, online, lv, share);
      if i == |p.members| then q == p
      else
        && q.members == p.members[i := p.members[i].(online := online, lv := lv, map_ := map_)]
        && q.item == p.item && q.family == p.family && q.size == p.size
  {
    assert i == SlotOf(p.members, account, char_);
    if i < |p.members| {
      var m := p.members[i];
      var r := Toggled(p, i, online, lv, share);
      ToggledPlace(p, i, online, lv, share);
      LeveledPlace(r, i, lv, share);
      assert r.members[i := r.members[i].(lv := lv)] == p.members[i := m.(online := online, lv := lv)];
    }
  }

  lemma ToggledPlace(p: State, i: nat, online: bool, lv: nat, share: nat)
    requires i < |p.members|
    ensures var r := Toggled(p, i, online, lv, share);
      && r.members == p.members[i := p.members[i].(online := online, lv := r.members[i].lv)]
      && r.item == p.item && r.family == p.family && r.size == p.size
  {
  }

  lemma LeveledPlace(p: State, i: nat, lv: nat, share: nat)
    requires i < |p.members|
    ensures var q := SetLv(p, i, lv, share);
      && q.members == p.members[i := p.members[i].(lv := lv)]
      && q.item == p.item && q.family == p.family && q.size == p.size
  {
  }

  /** A newcomer takes the first free place as it comes, but for being the leader; there
      being none, or the party being full, nothing changes. */
  lemma AddedMembers(p: State, i: nat, m: Member, share: nat, family: int)
    requires FreePlace(p.members, i)
    ensures var q := AddMember(p, m, share, family);
      if i == |p.members| || p.size == MAX_PARTY then q == p
      else
        && q.members == p.members[i := m.(leader := false)] && q.item == p.item
        && q.family == (if Up(p.size) == 3 && Size(q.members) == 3 then family else 0)
  {
    assert i == FreeSlot(p.members);
  }

  /** A leader that leaves breaks the party up; anybody else leaves an empty place, and the
      party is broken up if nobody is left. */
  lemma LeftMembers(p: State, i: nat, account: int, char_: int, share: nat)
    requires PlaceOf(p.members, i, account, char_)
    ensures var o := Leave(p, account, char_, share);
      if i == |p.members| then o == Kept(p)
      else if p.members[i].leader then o == Broken
      else
        var ms := p.members[i := NONE];
        if forall k :: 0 <= k < |ms| ==> ms[k].account == 0 then o == Broken
        else o.Kept? && o.party.members == ms && o.party.item == p.item && o.party.family == 0
  {
    assert i == SlotOf(p.members, account, char_);
  }

  lemma OnlineMembers(p: State, i: nat, char_: int, share: nat)
    requires PlaceOfChar(p.members, i, char_)
    ensures var q, r := CharOnline(p, char_, share), CharOffline(p, char_, share);
      if i == |p.members| then q == r == p
      else
        && q.members == p.members[i := p.members[i].(online := true)]
        && r.members == p.members[i := p.members[i].(online := false)]
        && q.item == p.item && r.item == p.item && q.family == p.family && r.family == p.family
  {
    assert i == SlotOfChar(p.members, char_);
    if i < |p.members| && p.members[i].online {
      assert p.members[i := p.members[i].(online := true)] == p.members;
    }
  }

  /** Where the level is none of the party's bounds, its bounds and even share are left as
      they are. */
  lemma BoundsLeftAlone(p: State, i: nat, account: int, char_: int, map_: int, lv: nat, share: nat)
    requires PlaceOf(p.members, i, account, char_) && i < |p.members|
    requires p.members[i].lv != p.minLv && p.members[i].lv != p.maxLv
    ensures var m := p.members[i]; var q := ChangeMap(p, account, char_, map_, m.online, lv, share);
      q == p.(members := p.members[i := m.(lv := lv, map_ := map_)])
  {
    assert i == SlotOf(p.members, account, char_);
    var m := p.members[i];
    assert p.members[i := m.(lv := lv)][i := m.(lv := lv, map_ := map_)] == p.members[i := m.(lv := lv, map_ := map_)];
  }

  lemma OnlineBoundsLeftAlone(p: State, i: nat, char_: int, share: nat)
    requires PlaceOfChar(p.members, i, char_) && i < |p.members|
    ensures var m := p.members[i];
      && (!m.online && p.minLv <= m.lv <= p.maxLv ==>
            CharOnline(p, char_, share) == p.(members := p.members[i := m.(online := true)], count := Up(p.count)))
      && (m.lv != p.minLv && m.lv != p.maxLv ==>
            CharOffline(p, char_, share) == p.(members := p.members[i := m.(online := false)], count := Down(p.count)))
  {
    assert i == SlotOfChar(p.members, char_);
  }

  /** The places taken, and those of them online. */
  function TakenPlaces(ms: seq<Member>): set<nat> { set i: nat | i < |ms| && ms[i].lv != 0 }

  function OnlinePlaces(ms: seq<Member>): set<nat> { set i: nat | i < |ms| && ms[i].lv != 0 && ms[i].online }

  lemma {:induction false} SizeIsTaken(ms: seq<Member>)
    ensures Size(ms) == |TakenPlaces(ms)|
    decreases |ms|
  {
    if ms == [] {
      assert TakenPlaces(ms) == {};
    } else {
      var n := |ms| - 1;
      SizeIsTaken(ms[..n]);
      assert TakenPlaces(ms) == TakenPlaces(ms[..n]) + if ms[n].lv != 0 then {n} else {};
    }
  }

  lemma {:induction false} OnlineIsTaken(ms: seq<Member>)
    ensures Online(Taken(ms)) == |OnlinePlaces(ms)|
    decreases |ms|
  {
    if ms == [] {
      assert OnlinePlaces(ms) == {};
    } else {
      var n := |ms| - 1;
      OnlineIsTaken(ms[..n]);
      assert Taken(ms)[..n] == Taken(ms[..n]);
      assert OnlinePlaces(ms) == OnlinePlaces(ms[..n]) + if ms[n].lv != 0 && ms[n].online then {n} else {};
    }
  }

  /** Calculating from scratch counts the places taken and those of them online, and asks
      for a family exactly when three are taken. */
  lemma CalcCounts(p: State, share: nat, family: int)
    ensures var q := CalcState(p, share, family);
      && q.members == p.members && q.item == p.item
      && q.size == |TakenPlaces(p.members)| && q.count == |OnlinePlaces(p.members)|
      && q.family == if |TakenPlaces(p.members)| == 3 then family else 0
  {
    SizeIsTaken(p.members);
    OnlineIsTaken(p.members);
  }

  /** Who counts for the bounds of a party calculated afresh. */
  predicate ForBounds(ms: seq<Member>, k: int, family: int) {
    0 <= k < |ms| && ms[k].online && ms[k].lv != 0 && ms[k].char_ != family
  }

  /** Its bounds are the least and the greatest level of those who count; UINT_MAX and 0
      if nobody does. */
  lemma CalcBounds(p: State, share: nat, family: int)
    requires forall k :: 0 <= k < |p.members| ==> p.members[k].lv < UINT_MAX
    ensures var q, ms := CalcState(p, share, family), p.members;
      && (forall k :: ForBounds(ms, k, q.family) ==> q.minLv <= ms[k].lv <= q.maxLv)
      && if forall k :: !ForBounds(ms, k, q.family) then q.minLv == UINT_MAX && q.maxLv == 0
         else
           && (exists k :: ForBounds(ms, k, q.family) && ms[k].lv == q.minLv)
           && (exists k :: ForBounds(ms, k, q.family) && ms[k].lv == q.maxLv)
  {
    var q, ms := CalcState(p, share, family), p.members;
    var counted := WithoutKid(ms, q.family);
    MinLvIsMin(counted);
    MaxLvIsMax(counted);
    assert forall k :: 0 <= k < |ms| ==>
        counted[k].lv == ms[k].lv && (counted[k].online <==> ForBounds(ms, k, q.family));
  }

  /** The count is an unsigned char: taken below 0 it is 255. */
  lemma CountUnderflows(p: State, i: nat, char_: int, share: nat)
    requires PlaceOfChar(p.members, i, char_) && i < |p.members| && p.count == 0
    ensures CharOffline(p, char_, share).count == 255
  {
    assert i == SlotOfChar(p.members, char_);
  }

  /** Without a family even share is granted exactly when it is asked for and fair. */
  lemma OptionIsGrantedIff(p: State, exp: nat, item: nat, share: nat)
    requires Right(p, share) && p.family == 0
    ensures ChangeOption(p, exp, item, share) ==
      p.(exp := exp % 2 == 1 && Fair(p.members, share), item := item % 4)
  {
    RightMeans(p, share);
    RuleIsFair(p, share);
  }

  /** The place of a party after an event that can end even share. */
  predicate Recounts(e: Event) { e.Added? || e.Left? || e.Moved? || e.CameOnline? || e.WentOffline? }

  /** And it stays exactly while it is fair: no event that leaves the party right ends it
      without need. */
  lemma ShareStaysIffFair(p: State, e: Event, share: nat)
    requires Right(p, share) && WellFormed(p, e, share) && !Spoils(p, e) && Recounts(e)
    requires Next(p, e, share).Kept? && Next(p, e, share).party.family == 0
    ensures var q := Next(p, e, share).party; q.exp <==> p.exp && Fair(q.members, share)
  {
    var q := Next(p, e, share).party;
    NextIsRight(p, e, share);
    RightMeans(q, share);
    if p.exp && Fair(q.members, share) {
      match e
      case Added(m, family) => AddedKeepsShare(p, m, share, family);
      case Left(account, char_) => LeftKeepsShare(p, account, char_, share);
      case Moved(account, char_, map_, online, lv) => MovedKeepsShare(p, account, char_, map_, online, lv, share);
      case CameOnline(char_) => OnlineKeepsShare(p, char_, share);
      case WentOffline(char_) => OfflineKeepsShare(p, char_, share);
    }
  }

  /** Recomputing the bounds ends even share only when it is unfair. */
  lemma CheckKeepsShare(p: State, share: nat)
    requires Counted(p) && Fair(p.members, share)
    ensures CheckLv(p, share).exp == p.exp
  {
    var q := p.(minLv := MinLv(p.members), maxLv := MaxLv(p.members));
    MinLvIsMin(p.members);
    MaxLvIsMax(p.members);
    RuleIsFair(q, share);
  }

  lemma AddedKeepsShare(p: State, m: Member, share: nat, family: int)
    requires Right(p, share) && SlotOk(m) && m.lv > 0 && p.exp
    requires var q := AddMember(p, m, share, family); q.family == 0 && Fair(q.members, share)
    ensures AddMember(p, m, share, family).exp
  {
    var i := FreeSlot(p.members);
    if p.size != MAX_PARTY && i < |p.members| {
      var q := Joined(p, i, m);
      JoinedCounts(p, i, m);
      if q.size == 3 {
        NobodyIsKid(q.members);
        CheckKeepsShare(q.(family := 0, count := Online(q.members), size := Size(q.members)), share);
      } else if m.lv < p.minLv || m.lv > p.maxLv || p.family != 0 {
        CheckKeepsShare(q.(family := 0), share);
      }
    }
  }

  lemma LeftKeepsShare(p: State, account: int, char_: int, share: nat)
    requires Right(p, share) && account != 0 && p.exp && Leave(p, account, char_, share).Kept?
    requires Fair(Leave(p, account, char_, share).party.members, share)
    ensures Leave(p, account, char_, share).party.exp
  {
    var i := SlotOf(p.members, account, char_);
    if i < |p.members| {
      LeftSlotKeepsShare(p, i, share);
    }
  }

  lemma LeftSlotKeepsShare(p: State, i: nat, share: nat)
    requires Right(p, share) && i < |p.members| && p.members[i].lv != 0 && p.exp
    requires Fair(LeaveSlot(p, i, share).members, share)
    ensures LeaveSlot(p, i, share).exp
  {
    var m := p.members[i];
    var q := p.(members := p.members[i := NONE], count := if m.online then Down(p.count) else p.count,
                size := Down(p.size));
    OnlineAt(p.members, i, NONE);
    SlotsStay(p.members, i, NONE);
    if m.lv == p.minLv || m.lv == p.maxLv || p.family != 0 {
      CheckKeepsShare(q.(family := 0), share);
    }
  }

  function CountAfter(p: State, i: nat, online: bool): nat
    requires i < |p.members|
  {
    if p.members[i].online == online then p.count else if online then Up(p.count) else Down(p.count)
  }

  lemma MovedKeepsShare(p: State, account: int, char_: int, map_: int, online: bool, lv: nat, share: nat)
    requires Right(p, share) && account != 0 && 0 < lv < 0x1_0000 && p.exp
    requires Fair(ChangeMap(p, account, char_, map_, online, lv, share).members, share)
    ensures ChangeMap(p, account, char_, map_, online, lv, share).exp
  {
    var i := SlotOf(p.members, account, char_);
    if i < |p.members| {
      var m := p.members[i].(online := online, lv := lv);
      var r := p.(members := p.members[i := m], count := CountAfter(p, i, online));
      MovedMembers(p, i, account, char_, map_, online, lv, share);
      OnlineAt(p.members, i, m);
      ChangedCounts(p, r, i, m);
      FairAt(ChangeMap(p, account, char_, map_, online, lv, share).members, r.members, share);
      CheckKeepsShare(r, share);
      ToggledAt(p, i, online, lv, share);
      LeveledAt(Toggled(p, i, online, lv, share), r, i, lv, share);
    }
  }

  /** Fairness is a matter of levels and online flags. */
  lemma FairAt(ms: seq<Member>, ns: seq<Member>, share: nat)
    requires |ms| == |ns| && forall k :: 0 <= k < |ms| ==> ms[k].online == ns[k].online && ms[k].lv == ns[k].lv
    requires Fair(ms, share)
    ensures Fair(ns, share)
  {
  }

  lemma ToggledAt(p: State, i: nat, online: bool, lv: nat, share: nat)
    requires i < |p.members| && p.exp
    requires var m := p.members[i].(online := online, lv := lv);
      CheckLv(p.(members := p.members[i := m], count := CountAfter(p, i, online)), share).exp
    ensures var t := Toggled(p, i, online, lv, share);
      && t.exp && t.count == CountAfter(p, i, online)
      && t.members[i := t.members[i].(lv := lv)] == p.members[i := p.members[i].(online := online, lv := lv)]
  {
    if p.members[i].online != online {
      var q := p.members[i := p.members[i].(online := online)];
      assert q[i := q[i].(lv := lv)] == p.members[i := p.members[i].(online := online, lv := lv)];
    }
  }

  lemma LeveledAt(t: State, r: State, i: nat, lv: nat, share: nat)
    requires i < |t.members| && t.exp && CheckLv(r, share).exp
    requires t.members[i := t.members[i].(lv := lv)] == r.members && t.count == r.count
    ensures SetLv(t, i, lv, share).exp
  {
  }

  lemma OnlineKeepsShare(p: State, char_: int, share: nat)
    requires Right(p, share) && char_ != 0 && p.exp && Fair(CharOnline(p, char_, share).members, share)
    ensures CharOnline(p, char_, share).exp
  {
    var i := SlotOfChar(p.members, char_);
    if i < |p.members| && !p.members[i].online {
      var m := p.members[i].(online := true);
      var q := p.(members := p.members[i := m], count := Up(p.count));
      OnlineAt(p.members, i, m);
      ChangedCounts(p, q, i, m);
      CheckKeepsShare(q, share);
    }
  }

  lemma OfflineKeepsShare(p: State, char_: int, share: nat)
    requires Right(p, share) && char_ != 0 && p.exp && Fair(CharOffline(p, char_, share).members, share)
    requires var i := SlotOfChar(p.members, char_); i < |p.members| ==> p.members[i].online
    ensures CharOffline(p, char_, share).exp
  {
    var i := SlotOfChar(p.members, char_);
    if i < |p.members| {
      var m := p.members[i].(online := false);
      var q := p.(members := p.members[i := m], count := Down(p.count));
      OnlineAt(p.members, i, m);
      ChangedCounts(p, q, i, m);
      CheckKeepsShare(q, share);
    }
  }
}
