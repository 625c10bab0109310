/** A party's counters, level bounds and even-share flag, kept up to date piecemeal and
    compared here with what they should be. */
module Party {
  const MAX_PARTY: nat := 25
  const UINT_MAX: nat := 0xFFFF_FFFF

  datatype Member = Member(account: int, char_: int, lv: nat, map_: int, leader: bool, online: bool)

  const NONE: Member := Member(0, 0, 0, 0, false, false)

  datatype State = State(members: seq<Member>, count: nat, size: nat, minLv: nat, maxLv: nat,
                         family: int, exp: bool, item: nat)

  // --------------------------------------------------------------- what should hold

  function Online(ms: seq<Member>): nat
    decreases |ms|
  {
    if ms == [] then 0 else Online(ms[..|ms| - 1]) + if ms[|ms| - 1].online then 1 else 0
  }

  function Size(ms: seq<Member>): nat
    decreases |ms|
  {
    if ms == [] then 0 else Size(ms[..|ms| - 1]) + if ms[|ms| - 1].lv != 0 then 1 else 0
  }

  ghost predicate NobodyOnline(ms: seq<Member>) { forall i :: 0 <= i < |ms| ==> !ms[i].online }

  ghost predicate IsMin(ms: seq<Member>, lo: nat) {
    && (forall i :: 0 <= i < |ms| && ms[i].online ==> lo <= ms[i].lv)
    && ((NobodyOnline(ms) && lo == UINT_MAX) || exists i :: 0 <= i < |ms| && ms[i].online && ms[i].lv == lo)
  }

  ghost predicate IsMax(ms: seq<Member>, hi: nat) {
    && (forall i :: 0 <= i < |ms| && ms[i].online ==> ms[i].lv <= hi)
    && ((NobodyOnline(ms) && hi == 0) || exists i :: 0 <= i < |ms| && ms[i].online && ms[i].lv == hi)
  }

  /** Any two members online are close enough in level. */
  ghost predicate Fair(ms: seq<Member>, share: nat) {
    forall i, j :: 0 <= i < |ms| && 0 <= j < |ms| && ms[i].online && ms[j].online ==> ms[i].lv <= ms[j].lv + share
  }

  /** A place is taken iff the level and the ids are set; nobody is online elsewhere. */
  predicate SlotOk(m: Member) {
    && m.lv < 0x1_0000
    && (m.account == 0 <==> m.lv == 0)
    && (m.lv == 0 ==> m == NONE)
    && (m.lv != 0 ==> m.char_ != 0)
  }

  ghost predicate SlotsOk(ms: seq<Member>) {
    |ms| == MAX_PARTY && forall i :: 0 <= i < |ms| ==> SlotOk(ms[i])
  }

  /** The kid of a family, if there is one, has one place. */
  ghost predicate KidOnce(ms: seq<Member>, family: int) {
    family != 0 ==> forall i, j :: 0 <= i < j < |ms| ==> ms[i].char_ != family || ms[j].char_ != family
  }

  /** The counters are those of the members. */
  ghost predicate Counted(p: State) {
    SlotsOk(p.members) && KidOnce(p.members, p.family) && p.count == Online(p.members) && p.size == Size(p.members)
  }

  /** The bounds are those of ms, and with even share on ms are close enough in level. */
  ghost predicate Exact(p: State, ms: seq<Member>, share: nat) {
    IsMin(ms, p.minLv) && IsMax(ms, p.maxLv) && (p.exp ==> Fair(ms, share))
  }

  /** A place as the bounds of a family see it: the kid does not count, nor does a place
      that is not taken. */
  function Exempt(m: Member, family: int): Member {
    if m.lv == 0 || m.char_ == family then m.(online := false) else m
  }

  function WithoutKid(ms: seq<Member>, family: int): (r: seq<Member>)
    ensures |r| == |ms|
  {
    seq(|ms|, i requires 0 <= i < |ms| => Exempt(ms[i], family))
  }

  /** The counters are right; the bounds and even share are right for everybody, or for
      everybody but the kid of a family. */
  ghost predicate Right(p: State, share: nat) {
    Counted(p) && (Exact(p, p.members, share) || Exact(p, WithoutKid(p.members, p.family), share))
  }

  // ------------------------------------------------------------------- recomputation

  /** Unsigned subtraction, in 32 bits. */
  function Sub32(a: nat, b: nat): nat { (a - b) % 0x1_0000_0000 }

  /** party_check_exp_share. */
  predicate ShareRule(p: State, share: nat) { p.count < 2 || Sub32(p.maxLv, p.minLv) <= share }

  function MinLv(ms: seq<Member>): nat
    decreases |ms|
  {
    if ms == [] then UINT_MAX
    else
      var lo, m := MinLv(ms[..|ms| - 1]), ms[|ms| - 1];
      if m.online && m.lv < lo then m.lv else lo
  }

  function MaxLv(ms: seq<Member>): nat
    decreases |ms|
  {
    if ms == [] then 0
    else
      var hi, m := MaxLv(ms[..|ms| - 1]), ms[|ms| - 1];
      if m.online && m.lv > hi then m.lv else hi
  }

  function EndShare(p: State, share: nat): State {
    if p.exp && !ShareRule(p, share) then p.(exp := false) else p
  }

  /** int_party_check_lv. */
  function CheckLv(p: State, share: nat): State {
    EndShare(p.(minLv := MinLv(p.members), maxLv := MaxLv(p.members)), share)
  }

  /** Only taken places count. */
  function Taken(ms: seq<Member>): (r: seq<Member>)
    ensures |r| == |ms|
  {
    seq(|ms|, i requires 0 <= i < |ms| => if ms[i].lv == 0 then ms[i].(online := false) else ms[i])
  }

  /** int_party_calc_state; family is what char_family says of the first three members. */
  function CalcState(p: State, share: nat, family: int): State {
    var size := Size(p.members);
    var fam := if size == 3 then family else 0;
    var counted := WithoutKid(p.members, fam);
    EndShare(p.(count := Online(Taken(p.members)), size := size, family := fam,
                minLv := MinLv(counted), maxLv := MaxLv(counted)), share)
  }

  lemma {:induction false} MinLvIsMin(ms: seq<Member>)
    requires forall i :: 0 <= i < |ms| ==> ms[i].lv < UINT_MAX
    ensures IsMin(ms, MinLv(ms))
    decreases |ms|
  {
    if ms != [] {
      var n := |ms| - 1;
      MinLvIsMin(ms[..n]);
      assert forall i :: 0 <= i < n ==> ms[..n][i] == ms[i];
      if NobodyOnline(ms[..n]) {
      } else {
        var i :| 0 <= i < n && ms[..n][i].online && ms[..n][i].lv == MinLv(ms[..n]);
        assert ms[i].online && ms[i].lv == MinLv(ms[..n]);
      }
    }
  }

  lemma {:induction false} MaxLvIsMax(ms: seq<Member>)
    requires forall i :: 0 <= i < |ms| && ms[i].online ==> ms[i].lv > 0
    ensures IsMax(ms, MaxLv(ms))
    decreases |ms|
  {
    if ms != [] {
      var n := |ms| - 1;
      MaxLvIsMax(ms[..n]);
      assert forall i :: 0 <= i < n ==> ms[..n][i] == ms[i];
      if NobodyOnline(ms[..n]) {
      } else {
        var i :| 0 <= i < n && ms[..n][i].online && ms[..n][i].lv == MaxLv(ms[..n]);
        assert ms[i].online && ms[i].lv == MaxLv(ms[..n]);
      }
    }
  }

  lemma {:induction false} OnlineAt(ms: seq<Member>, i: nat, m: Member)
    requires i < |ms|
    ensures Online(ms[i := m]) + (if ms[i].online then 1 else 0) == Online(ms) + (if m.online then 1 else 0)
    ensures Size(ms[i := m]) + (if ms[i].lv != 0 then 1 else 0) == Size(ms) + (if m.lv != 0 then 1 else 0)
    ensures Online(ms) <= |ms| && Size(ms) <= |ms|
    decreases |ms|
  {
    var n := |ms| - 1;
    if i < n {
      OnlineAt(ms[..n], i, m);
      assert ms[i := m][..n] == ms[..n][i := m];
    } else {
      assert ms[i := m][..n] == ms[..n];
      if n > 0 {
        OnlineAt(ms[..n], 0, ms[0]);
      }
    }
  }

  lemma {:induction false} SomebodyOnline(ms: seq<Member>, i: nat)
    requires i < |ms| && ms[i].online
    ensures Online(ms) >= 1
    decreases |ms|
  {
    if i < |ms| - 1 {
      SomebodyOnline(ms[..|ms| - 1], i);
    }
  }

  lemma {:induction false} TwoOnline(ms: seq<Member>, i: nat, j: nat)
    requires i < j < |ms| && ms[i].online && ms[j].online
    ensures Online(ms) >= 2
    decreases |ms|
  {
    if j < |ms| - 1 {
      TwoOnline(ms[..|ms| - 1], i, j);
    } else {
      SomebodyOnline(ms[..j], i);
    }
  }

  lemma {:induction false} NobodyMeansNone(ms: seq<Member>)
    ensures NobodyOnline(ms) <==> Online(ms) == 0
    decreases |ms|
  {
    if ms != [] {
      var n := |ms| - 1;
      NobodyMeansNone(ms[..n]);
      assert forall i :: 0 <= i < n ==> ms[..n][i] == ms[i];
    }
  }

  /** With somebody counted online the unsigned difference of the bounds does not wrap. */
  lemma NeverWraps(p: State, ms: seq<Member>)
    requires IsMin(ms, p.minLv) && IsMax(ms, p.maxLv) && !NobodyOnline(ms) && p.maxLv < 0x1_0000_0000
    ensures p.minLv <= p.maxLv && Sub32(p.maxLv, p.minLv) == p.maxLv - p.minLv
  {
  }

  /** With somebody online, fairness is a matter of the bounds. */
  lemma RangeIsFair(ms: seq<Member>, lo: nat, hi: nat, share: nat)
    requires IsMin(ms, lo) && IsMax(ms, hi) && !NobodyOnline(ms)
    ensures Fair(ms, share) <==> hi <= lo + share
  {
    var a :| 0 <= a < |ms| && ms[a].online && ms[a].lv == lo;
    var b :| 0 <= b < |ms| && ms[b].online && ms[b].lv == hi;
  }

  lemma OneIsFair(ms: seq<Member>, share: nat)
    requires Online(ms) < 2
    ensures Fair(ms, share)
  {
    forall i, j | 0 <= i < |ms| && 0 <= j < |ms| && ms[i].online && ms[j].online ensures i == j {
      if i != j {
        TwoOnline(ms, if i < j then i else j, if i < j then j else i);
      }
    }
  }

  /** The rule on the bounds is the rule on the members. */
  lemma RuleIsFair(p: State, share: nat)
    requires Counted(p) && IsMin(p.members, p.minLv) && IsMax(p.members, p.maxLv)
    ensures ShareRule(p, share) <==> Fair(p.members, share)
  {
    NobodyMeansNone(p.members);
    if p.count < 2 {
      OneIsFair(p.members, share);
    } else {
      NeverWraps(p, p.members);
      RangeIsFair(p.members, p.minLv, p.maxLv, share);
    }
  }

  lemma FairWithoutKid(ms: seq<Member>, family: int, share: nat)
    requires Fair(ms, share)
    ensures Fair(WithoutKid(ms, family), share)
  {
  }

  /** In a family it never allows more than is fair among those who count. */
  lemma RuleIsFairToOthers(p: State, share: nat)
    requires Counted(p) && ShareRule(p, share)
    requires var ms := WithoutKid(p.members, p.family); IsMin(ms, p.minLv) && IsMax(ms, p.maxLv)
    ensures Fair(WithoutKid(p.members, p.family), share)
  {
    var ms := WithoutKid(p.members, p.family);
    if p.count < 2 {
      OneIsFair(p.members, share);
      FairWithoutKid(p.members, p.family, share);
    } else if !NobodyOnline(ms) {
      NeverWraps(p, ms);
      RangeIsFair(ms, p.minLv, p.maxLv, share);
    }
  }

  /** Without a family the party is right for everybody; and in any case the members other
      than the kid are close enough in level while even share is on. */
  lemma RightMeans(p: State, share: nat)
    requires Right(p, share)
    ensures p.family == 0 ==> Exact(p, p.members, share)
    ensures p.exp ==> Fair(WithoutKid(p.members, p.family), share)
  {
    if p.family == 0 {
      NobodyIsKid(p.members);
    }
    if p.exp && Exact(p, p.members, share) {
      FairWithoutKid(p.members, p.family, share);
    }
  }

  /** Bounds are unique. */
  lemma BoundsAreUnique(ms: seq<Member>, lo: nat, lo': nat, hi: nat, hi': nat)
    requires IsMin(ms, lo) && IsMin(ms, lo') && IsMax(ms, hi) && IsMax(ms, hi')
    ensures lo == lo' && hi == hi'
  {
  }

  /** Recomputing the bounds makes the party right for everybody, the kid as well. */
  lemma CheckLvIsRight(p: State, share: nat)
    requires Counted(p)
    ensures var q := CheckLv(p, share); Right(q, share) && Exact(q, q.members, share)
  {
    var q := p.(minLv := MinLv(p.members), maxLv := MaxLv(p.members));
    MinLvIsMin(p.members);
    MaxLvIsMax(p.members);
    RuleIsFair(q, share);
  }

  lemma NobodyIsKid(ms: seq<Member>)
    requires SlotsOk(ms)
    ensures WithoutKid(ms, 0) == ms && Taken(ms) == ms
  {
  }

  /** So does a calculation from scratch, but for the kid if it finds a family. */
  lemma CalcStateIsRight(p: State, share: nat, family: int)
    requires SlotsOk(p.members) && (Size(p.members) == 3 ==> KidOnce(p.members, family))
    ensures var q := CalcState(p, share, family); Right(q, share) && Exact(q, WithoutKid(q.members, q.family), share)
  {
    NobodyIsKid(p.members);
    var size := Size(p.members);
    var fam := if size == 3 then family else 0;
    var counted := WithoutKid(p.members, fam);
    var q := p.(count := Online(p.members), size := size, family := fam,
                minLv := MinLv(counted), maxLv := MaxLv(counted));
    MinLvIsMin(counted);
    MaxLvIsMax(counted);
    if ShareRule(q, share) {
      RuleIsFairToOthers(q, share);
    }
  }

  // ------------------------------------------------------------------- the operations

  /** The first place without an account, or |ms|. */
  function FreeSlot(ms: seq<Member>): (i: nat)
    ensures i <= |ms| && (i < |ms| ==> ms[i].account == 0)
    ensures forall k :: 0 <= k < i ==> ms[k].account != 0
    decreases |ms|
  {
    if ms == [] || ms[0].account == 0 then 0 else 1 + FreeSlot(ms[1..])
  }

  /** The first place with these ids, or |ms|. */
  function SlotOf(ms: seq<Member>, account: int, char_: int): (i: nat)
    ensures i <= |ms| && (i < |ms| ==> ms[i].account == account && ms[i].char_ == char_)
    ensures forall k :: 0 <= k < i ==> !(ms[k].account == account && ms[k].char_ == char_)
    decreases |ms|
  {
    if ms == [] || (ms[0].account == account && ms[0].char_ == char_) then 0 else 1 + SlotOf(ms[1..], account, char_)
  }

  function SlotOfChar(ms: seq<Member>, char_: int): (i: nat)
    ensures i <= |ms| && (i < |ms| ==> ms[i].char_ == char_)
    ensures forall k :: 0 <= k < i ==> ms[k].char_ != char_
    decreases |ms|
  {
    if ms == [] || ms[0].char_ == char_ then 0 else 1 + SlotOfChar(ms[1..], char_)
  }

  /** unsigned char increment and decrement. */
  function Up(n: nat): nat { if n == 255 then 0 else n + 1 }
  function Down(n: nat): nat { if n == 0 then 255 else n - 1 }

  predicate Strict(p: State, lv: nat) { p.minLv < lv < p.maxLv }

  /** The party with a new member in a free place, nothing recomputed yet. */
  function Joined(p: State, i: nat, m: Member): State
    requires i < |p.members|
  {
    p.(members := p.members[i := m.(leader := false)], count := if m.online then Up(p.count) else p.count,
       size := Up(p.size))
  }

  /** mapif_parse_PartyAddMember. */
  function AddMember(p: State, m: Member, share: nat, family: int): State {
    var i := FreeSlot(p.members);
    if p.size == MAX_PARTY || i == |p.members| then p
    else
      var q := Joined(p, i, m);
      if q.size == 3 then CalcState(q, share, family)
      else if m.lv < p.minLv || m.lv > p.maxLv || p.family != 0 then CheckLv(q.(family := 0), share)
      else q
  }

  /** mapif_parse_PartyChangeOption: exp is one bit of the party, item two. */
  function ChangeOption(p: State, exp: nat, item: nat, share: nat): State {
    p.(exp := exp % 2 == 1 && ShareRule(p, share), item := item % 4)
  }

  /** A member that is not the leader leaves. */
  function LeaveSlot(p: State, i: nat, share: nat): State
    requires i < |p.members|
  {
    var m := p.members[i];
    var q := p.(members := p.members[i := NONE], count := if m.online then Down(p.count) else p.count,
                size := Down(p.size));
    if m.lv == p.minLv || m.lv == p.maxLv || p.family != 0 then CheckLv(q.(family := 0), share) else q
  }

  datatype Outcome = Broken | Kept(party: State)

  /** party_check_empty. */
  predicate Empty(ms: seq<Member>) { forall i :: 0 <= i < |ms| ==> ms[i].account == 0 }

  /** mapif_parse_PartyLeave: the leader's leaving, or the last member's, breaks it. */
  function Leave(p: State, account: int, char_: int, share: nat): Outcome {
    var i := SlotOf(p.members, account, char_);
    if i == |p.members| then Kept(p)
    else if p.members[i].leader then Broken
    else
      var q := LeaveSlot(p, i, share);
      if Empty(q.members) then Broken else Kept(q)
  }

  /** The online flag of a member changes, with the level it now has. */
  function Toggle(p: State, i: nat, online: bool, lv: nat, share: nat): State
    requires i < |p.members|
  {
    var m := p.members[i];
    if m.online == online then p
    else
      var q := p.(members := p.members[i := m.(online := online)],
                  count := if online then Up(p.count) else Down(p.count));
      if p.family != 0 || m.lv <= p.minLv || m.lv >= p.maxLv || (m.lv != lv && (lv <= p.minLv || lv >= p.maxLv))
      then CheckLv(q.(members := q.members[i := q.members[i].(lv := lv)]), share)
      else q
  }

  /** The level of a member changes. */
  function SetLv(p: State, i: nat, lv: nat, share: nat): State
    requires i < |p.members|
  {
    var m := p.members[i];
    var q := p.(members := p.members[i := m.(lv := lv)]);
    if m.lv != lv && (m.lv == p.minLv || m.lv == p.maxLv) then CheckLv(q, share) else q
  }

  /** mapif_parse_PartyChangeMap. */
  function ChangeMap(p: State, account: int, char_: int, map_: int, online: bool, lv: nat, share: nat): State {
    var i := SlotOf(p.members, account, char_);
    if i == |p.members| then p
    else
      var q := SetLv(Toggled(p, i, online, lv, share), i, lv, share);
      q.(members := q.members[i := q.members[i].(map_ := map_)])
  }

  /** Toggle, remembering the number of places. */
  function Toggled(p: State, i: nat, online: bool, lv: nat, share: nat): (q: State)
    requires i < |p.members|
    ensures |q.members| == |p.members|
  {
    Toggle(p, i, online, lv, share)
  }

  /** mapif_parse_PartyLeaderChange. */
  function LeaderChange(p: State, account: int, char_: int): State {
    p.(members := seq(|p.members|, i requires 0 <= i < |p.members| =>
         p.members[i].(leader := p.members[i].account == account && p.members[i].char_ == char_)))
  }

  /** inter_party_CharOnline, once the party is found. */
  function CharOnline(p: State, char_: int, share: nat): State {
    var i := SlotOfChar(p.members, char_);
    if i == |p.members| || p.members[i].online then p
    else
      var m := p.members[i];
      var q := p.(members := p.members[i := m.(online := true)], count := Up(p.count));
      if m.lv < p.minLv || m.lv > p.maxLv then CheckLv(q, share) else q
  }

  /** inter_party_CharOffline, before the party is dropped when nobody is left. */
  function CharOffline(p: State, char_: int, share: nat): State {
    var i := SlotOfChar(p.members, char_);
    if i == |p.members| then p
    else
      var m := p.members[i];
      var q := p.(members := p.members[i := m.(online := false)], count := Down(p.count));
      if m.lv == p.minLv || m.lv == p.maxLv then CheckLv(q, share) else q
  }

  // ------------------------------------------------------------ what each one keeps

  /** A member within the bounds comes; one strictly within them, or offline, goes. */
  predicate Fits(lo: nat, hi: nat, was: Member, now: Member) {
    && (now.online ==> lo <= now.lv <= hi)
    && (was.online ==> lo < was.lv < hi || (now.online && now.lv == was.lv))
  }

  lemma BoundsStay(ms: seq<Member>, lo: nat, hi: nat, i: nat, m: Member)
    requires IsMin(ms, lo) && IsMax(ms, hi) && i < |ms| && Fits(lo, hi, ms[i], m)
    ensures IsMin(ms[i := m], lo) && IsMax(ms[i := m], hi)
  {
    var ns := ms[i := m];
    if !NobodyOnline(ms) {
      var a :| 0 <= a < |ms| && ms[a].online && ms[a].lv == lo;
      var b :| 0 <= b < |ms| && ms[b].online && ms[b].lv == hi;
      assert ns[a].online && ns[a].lv == lo && ns[b].online && ns[b].lv == hi;
    }
  }

  /** A change that leaves the bounds right and as they were keeps even share fair. */
  lemma ExactStays(p: State, q: State, ms: seq<Member>, i: nat, m: Member, share: nat)
    requires Exact(p, ms, share) && i < |ms| && Fits(p.minLv, p.maxLv, ms[i], m)
    requires q.minLv == p.minLv && q.maxLv == p.maxLv && q.exp == p.exp
    ensures Exact(q, ms[i := m], share)
  {
    var ns := ms[i := m];
    BoundsStay(ms, p.minLv, p.maxLv, i, m);
    if p.exp && !NobodyOnline(ns) {
      var k :| 0 <= k < |ns| && ns[k].online;
      RangeIsNotEmpty(ms, ns, p.minLv, p.maxLv, k);
      RangeIsFair(ms, p.minLv, p.maxLv, share);
      RangeIsFair(ns, p.minLv, p.maxLv, share);
    }
  }

  lemma RangeIsNotEmpty(ms: seq<Member>, ns: seq<Member>, lo: nat, hi: nat, k: nat)
    requires IsMin(ms, lo) && IsMax(ms, hi) && IsMin(ns, lo) && IsMax(ns, hi) && k < |ns| && ns[k].online
    ensures !NobodyOnline(ms)
  {
  }

  lemma SlotsStay(ms: seq<Member>, i: nat, m: Member)
    requires SlotsOk(ms) && i < |ms| && SlotOk(m)
    ensures SlotsOk(ms[i := m])
  {
  }

  lemma WithoutKidAt(ms: seq<Member>, i: nat, m: Member, family: int)
    requires i < |ms|
    ensures WithoutKid(ms[i := m], family) == WithoutKid(ms, family)[i := Exempt(m, family)]
  {
  }

  /** The members with one place changed, and the counters with them. */
  predicate Changed(p: State, q: State, i: nat, m: Member) {
    && i < |p.members| && q.members == p.members[i := m] && m.char_ == p.members[i].char_
    && (m.lv == 0 <==> p.members[i].lv == 0)
    && q.size == p.size && q.family == p.family
    && q.count == p.count + (if m.online then 1 else 0) - if p.members[i].online then 1 else 0
  }

  lemma ChangedCounts(p: State, q: State, i: nat, m: Member)
    requires Counted(p) && Changed(p, q, i, m) && SlotOk(m)
    ensures Counted(q)
  {
    OnlineAt(p.members, i, m);
    SlotsStay(p.members, i, m);
  }

  /** Changes that fit in the bounds, seen by everybody and by everybody but the kid. */
  predicate FitsAll(p: State, i: nat, m: Member)
    requires i < |p.members|
  {
    Fits(p.minLv, p.maxLv, p.members[i], m)
  }

  predicate FitsOthers(p: State, i: nat, m: Member)
    requires i < |p.members|
  {
    Fits(p.minLv, p.maxLv, Exempt(p.members[i], p.family), Exempt(m, p.family))
  }

  lemma ChangedIsRight(p: State, q: State, i: nat, m: Member, share: nat)
    requires Right(p, share) && Changed(p, q, i, m) && SlotOk(m)
    requires q.minLv == p.minLv && q.maxLv == p.maxLv && q.exp == p.exp
    requires Exact(p, p.members, share) ==> FitsAll(p, i, m)
    requires Exact(p, WithoutKid(p.members, p.family), share) ==> FitsOthers(p, i, m)
    ensures Right(q, share)
  {
    ChangedCounts(p, q, i, m);
    if Exact(p, p.members, share) {
      ExactStays(p, q, p.members, i, m, share);
    } else {
      WithoutKidAt(p.members, i, m, p.family);
      ExactStays(p, q, WithoutKid(p.members, p.family), i, Exempt(m, p.family), share);
    }
  }

  /** Who is counted is within the bounds. */
  lemma WithinBounds(p: State, i: nat, share: nat)
    requires i < |p.members| && p.members[i].online
    ensures Exact(p, p.members, share) ==> p.minLv <= p.members[i].lv <= p.maxLv
    ensures Exact(p, WithoutKid(p.members, p.family), share) && Exempt(p.members[i], p.family).online ==>
      p.minLv <= p.members[i].lv <= p.maxLv
  {
    assert WithoutKid(p.members, p.family)[i] == Exempt(p.members[i], p.family);
  }

  lemma JoinedCounts(p: State, i: nat, m: Member)
    requires SlotsOk(p.members) && p.count == Online(p.members) && p.size == Size(p.members)
    requires i < |p.members| && p.members[i].account == 0 && SlotOk(m) && m.lv > 0
    ensures var q := Joined(p, i, m);
      SlotsOk(q.members) && q.count == Online(q.members) && q.size == Size(q.members) && p.members[i] == NONE
  {
    OnlineAt(p.members, i, m.(leader := false));
    SlotsStay(p.members, i, m.(leader := false));
  }

  /** A new member, whatever char_family says of the party when it is the third. */
  lemma AddMemberKeeps(p: State, m: Member, share: nat, family: int)
    requires Right(p, share) && SlotOk(m) && m.lv > 0 && KidOnce(AddMember(p, m, share, family).members, family)
    ensures Right(AddMember(p, m, share, family), share)
  {
    var i := FreeSlot(p.members);
    if p.size != MAX_PARTY && i < |p.members| {
      var q := Joined(p, i, m);
      JoinedCounts(p, i, m);
      if q.size == 3 {
        CalcStateIsRight(q, share, family);
      } else if m.lv < p.minLv || m.lv > p.maxLv || p.family != 0 {
        CheckLvIsRight(q.(family := 0), share);
      } else {
        RightMeans(p, share);
        ExactStays(p, q, p.members, i, m.(leader := false), share);
      }
    }
  }

  lemma ChangeOptionKeeps(p: State, exp: nat, item: nat, share: nat)
    requires Right(p, share)
    ensures Right(ChangeOption(p, exp, item, share), share)
  {
    if ShareRule(p, share) {
      if Exact(p, p.members, share) {
        RuleIsFair(p, share);
      } else {
        RuleIsFairToOthers(p, share);
      }
    }
  }

  lemma LeaveSlotKeeps(p: State, i: nat, share: nat)
    requires Right(p, share) && i < |p.members| && p.members[i].lv != 0
    ensures Right(LeaveSlot(p, i, share), share)
  {
    var m := p.members[i];
    var q := p.(members := p.members[i := NONE], count := if m.online then Down(p.count) else p.count,
                size := Down(p.size));
    OnlineAt(p.members, i, NONE);
    SlotsStay(p.members, i, NONE);
    if m.lv == p.minLv || m.lv == p.maxLv || p.family != 0 {
      CheckLvIsRight(q.(family := 0), share);
    } else {
      RightMeans(p, share);
      ExactStays(p, q, p.members, i, NONE, share);
    }
  }

  /** A party that is not broken up by a leaving member stays right. */
  lemma LeaveKeeps(p: State, account: int, char_: int, share: nat)
    requires Right(p, share) && account != 0
    ensures Leave(p, account, char_, share).Kept? ==> Right(Leave(p, account, char_, share).party, share)
  {
    var i := SlotOf(p.members, account, char_);
    if i < |p.members| && !p.members[i].leader {
      LeaveSlotKeeps(p, i, share);
    }
  }

  /** Going online or offline recomputes the bounds. */
  predicate Recomputes(p: State, lv: nat, now: nat) {
    p.family != 0 || lv <= p.minLv || lv >= p.maxLv || (lv != now && (now <= p.minLv || now >= p.maxLv))
  }

  /** Going online or offline: the party is right, and still is when the level is then
      set, given that it was not recomputed with a bound as the level. */
  lemma ToggleKeeps(p: State, i: nat, online: bool, lv: nat, share: nat)
    requires Right(p, share) && i < |p.members| && p.members[i].lv != 0 && 0 < lv < 0x1_0000
    requires p.members[i].online != online
    ensures Right(Toggle(p, i, online, lv, share), share)
    ensures var q := Toggle(p, i, online, lv, share); var m := q.members[i];
      m == p.members[i].(online := online, lv := m.lv) && (m.lv == lv || (Strict(q, m.lv) && Strict(q, lv)))
  {
    if Recomputes(p, p.members[i].lv, lv) {
      ToggleRecomputes(p, i, online, lv, share);
    } else {
      var m := p.members[i].(online := online);
      var q := p.(members := p.members[i := m], count := if online then Up(p.count) else Down(p.count));
      OnlineAt(p.members, i, m);
      ChangedIsRight(p, q, i, m, share);
    }
  }

  lemma ToggleRecomputes(p: State, i: nat, online: bool, lv: nat, share: nat)
    requires Counted(p) && i < |p.members| && p.members[i].lv != 0 && 0 < lv < 0x1_0000
    requires p.members[i].online != online && Recomputes(p, p.members[i].lv, lv)
    ensures var q := Toggle(p, i, online, lv, share);
      Right(q, share) && q.members[i] == p.members[i].(online := online, lv := lv)
  {
    var m := p.members[i].(online := online, lv := lv);
    var q := p.(members := p.members[i := m], count := if online then Up(p.count) else Down(p.count));
    OnlineAt(p.members, i, m);
    ChangedCounts(p, q, i, m);
    var r := p.members[i := p.members[i].(online := online)];
    assert r[i := r[i].(lv := lv)] == q.members;
    CheckLvIsRight(q, share);
  }

  /** A member, not the kid of a family, that is online before and after changes its level
      from strictly inside the range to outside it: nothing is recomputed. */
  predicate JumpsOut(p: State, i: nat, online: bool, lv: nat)
    requires i < |p.members|
  {
    && p.members[i].online && online && Strict(p, p.members[i].lv) && (lv < p.minLv || lv > p.maxLv)
    && (p.family == 0 || p.members[i].char_ != p.family)
  }

  predicate MemberJumpsOut(p: State, account: int, char_: int, online: bool, lv: nat) {
    var i := SlotOf(p.members, account, char_);
    i < |p.members| && JumpsOut(p, i, online, lv)
  }

  /** Setting a level keeps the party right iff it does not jump out. */
  lemma SetLvKeeps(p: State, i: nat, lv: nat, share: nat)
    requires Right(p, share) && i < |p.members| && p.members[i].lv != 0 && 0 < lv < 0x1_0000
    ensures Right(SetLv(p, i, lv, share), share) <==> !JumpsOut(p, i, p.members[i].online, lv)
  {
    var m := p.members[i].(lv := lv);
    var q := p.(members := p.members[i := m]);
    ChangedCounts(p, q, i, m);
    if p.members[i].lv == lv {
      assert q == p;
    } else if p.members[i].lv == p.minLv || p.members[i].lv == p.maxLv {
      CheckLvIsRight(q, share);
    } else if JumpsOut(p, i, m.online, lv) {
      JumpIsWrong(p, q, i, m, share);
    } else if p.family != 0 && m.char_ == p.family {
      KidMoves(p, q, i, m, share);
    } else {
      if m.online { WithinBounds(p, i, share); }
      ChangedIsRight(p, q, i, m, share);
    }
  }

  lemma JumpIsWrong(p: State, q: State, i: nat, m: Member, share: nat)
    requires SlotsOk(p.members) && Changed(p, q, i, m) && q.minLv == p.minLv && q.maxLv == p.maxLv
    requires JumpsOut(p, i, m.online, m.lv) && m.lv != 0
    ensures !Right(q, share)
  {
    assert q.members[i] == m && m.online && SlotOk(p.members[i]);
    assert WithoutKid(q.members, q.family)[i] == m;
  }

  /** The kid of a family, from within the range to anywhere: it is the others' range. */
  lemma KidMoves(p: State, q: State, i: nat, m: Member, share: nat)
    requires Right(p, share) && Changed(p, q, i, m) && SlotOk(m) && m.lv != 0 && p.family == m.char_ != 0
    requires q.minLv == p.minLv && q.maxLv == p.maxLv && q.exp == p.exp
    requires p.members[i].lv != p.minLv && p.members[i].lv != p.maxLv && m.online == p.members[i].online
    ensures Right(q, share)
  {
    if m.online { WithinBounds(p, i, share); }
    if Exact(p, p.members, share) && m.online {
      StrictKid(p, i, share);
    }
    if Exact(p, WithoutKid(p.members, p.family), share) {
      ChangedCounts(p, q, i, m);
      WithoutKidAt(p.members, i, m, p.family);
      ExactStays(p, q, WithoutKid(p.members, p.family), i, Exempt(m, p.family), share);
    } else {
      ChangedIsRight(p, q, i, m, share);
    }
  }

  lemma StrictKid(p: State, i: nat, share: nat)
    requires SlotsOk(p.members) && KidOnce(p.members, p.family) && Exact(p, p.members, share)
    requires i < |p.members| && p.family != 0 && p.members[i].char_ == p.family && Strict(p, p.members[i].lv)
    ensures Exact(p, WithoutKid(p.members, p.family), share)
  {
    var ms, ns := p.members, WithoutKid(p.members, p.family);
    FairOfFair(ms, p.family, p.exp, share);
    if !NobodyOnline(ms) {
      var a :| 0 <= a < |ms| && ms[a].online && ms[a].lv == p.minLv;
      var b :| 0 <= b < |ms| && ms[b].online && ms[b].lv == p.maxLv;
      NotTheKid(ms, p.family, i, a);
      NotTheKid(ms, p.family, i, b);
      assert ns[a].online && ns[a].lv == p.minLv && ns[b].online && ns[b].lv == p.maxLv;
    }
  }

  lemma FairOfFair(ms: seq<Member>, family: int, exp: bool, share: nat)
    requires exp ==> Fair(ms, share)
    ensures exp ==> Fair(WithoutKid(ms, family), share)
  {
    if exp {
      FairWithoutKid(ms, family, share);
    }
  }

  lemma NotTheKid(ms: seq<Member>, family: int, i: nat, a: nat)
    requires SlotsOk(ms) && KidOnce(ms, family) && family != 0 && i < |ms| && a < |ms| && i != a
    requires ms[i].char_ == family && ms[a].online
    ensures Exempt(ms[a], family) == ms[a]
  {
    assert SlotOk(ms[a]);
  }

  /** Members who differ neither in who they are, nor in level, nor in being online. */
  ghost predicate SameLevels(ms: seq<Member>, ns: seq<Member>) {
    && |ms| == |ns|
    && forall k :: 0 <= k < |ms| ==>
         ms[k].online == ns[k].online && ms[k].lv == ns[k].lv && ms[k].char_ == ns[k].char_
  }

  lemma {:induction false} SameCounts(ms: seq<Member>, ns: seq<Member>)
    requires SameLevels(ms, ns)
    ensures Online(ms) == Online(ns) && Size(ms) == Size(ns)
    decreases |ms|
  {
    if ms != [] {
      SameCounts(ms[..|ms| - 1], ns[..|ns| - 1]);
    }
  }

  lemma SameExact(p: State, q: State, ms: seq<Member>, ns: seq<Member>, share: nat)
    requires SameLevels(ms, ns) && Exact(p, ms, share)
    requires q.minLv == p.minLv && q.maxLv == p.maxLv && q.exp == p.exp
    ensures Exact(q, ns, share)
  {
    if !NobodyOnline(ms) {
      var a :| 0 <= a < |ms| && ms[a].online && ms[a].lv == p.minLv;
      var b :| 0 <= b < |ms| && ms[b].online && ms[b].lv == p.maxLv;
      assert ns[a].online && ns[b].online;
    }
  }

  lemma SameRight(p: State, ns: seq<Member>, share: nat)
    requires SameLevels(p.members, ns) && SlotsOk(ns) && Right(p, share)
    ensures Right(p.(members := ns), share)
  {
    var q := p.(members := ns);
    SameCounts(p.members, ns);
    if Exact(p, p.members, share) {
      SameExact(p, q, p.members, ns, share);
    } else {
      SameExact(p, q, WithoutKid(p.members, p.family), WithoutKid(ns, p.family), share);
    }
  }

  /** Nothing else about the members matters. */
  lemma OnlyLevelsMatter(p: State, ns: seq<Member>, share: nat)
    requires SameLevels(p.members, ns) && SlotsOk(p.members) && SlotsOk(ns)
    ensures Right(p.(members := ns), share) <==> Right(p, share)
  {
    if Right(p, share) {
      SameRight(p, ns, share);
    }
    var q := p.(members := ns);
    if Right(q, share) {
      SameRight(q, p.members, share);
      assert q.(members := p.members) == p;
    }
  }

  /** A change of map, level and online flag keeps the party right iff the member does
      not stay online and jump from strictly inside the level range to outside it. A
      member that levels up one step at a time never does. */
  lemma ChangeMapIsRight(p: State, account: int, char_: int, map_: int, online: bool, lv: nat, share: nat)
    requires Right(p, share) && account != 0 && 0 < lv < 0x1_0000
    ensures Right(ChangeMap(p, account, char_, map_, online, lv, share), share) <==>
      !MemberJumpsOut(p, account, char_, online, lv)
  {
    var i := SlotOf(p.members, account, char_);
    if i < |p.members| {
      ChangeAt(p, i, online, lv, share);
      var q := SetLv(Toggled(p, i, online, lv, share), i, lv, share);
      OnlyLevelsMatter(q, q.members[i := q.members[i].(map_ := map_)], share);
    }
  }

  lemma ChangeAt(p: State, i: nat, online: bool, lv: nat, share: nat)
    requires Right(p, share) && i < |p.members| && p.members[i].lv != 0 && 0 < lv < 0x1_0000
    ensures var r := SetLv(Toggled(p, i, online, lv, share), i, lv, share);
      && SlotsOk(r.members) && r.members[i].lv != 0
      && (Right(r, share) <==> !JumpsOut(p, i, online, lv))
  {
    if p.members[i].online != online {
      ToggleKeeps(p, i, online, lv, share);
    }
    var q := Toggled(p, i, online, lv, share);
    SlotsStay(q.members, i, q.members[i].(lv := lv));
    SetLvKeeps(q, i, lv, share);
  }

  lemma OneLevelNeverJumps(p: State, i: nat, online: bool, lv: nat)
    requires i < |p.members| && (lv == p.members[i].lv + 1 || lv + 1 == p.members[i].lv)
    ensures !JumpsOut(p, i, online, lv)
  {
  }

  /** After a change of leader exactly the member asked for leads; if it is not in the
      party, nobody does. */
  lemma LeaderChangeLeaders(p: State, account: int, char_: int, share: nat)
    requires Right(p, share) && account != 0
    ensures var q := LeaderChange(p, account, char_);
      && Right(q, share)
      && forall i :: 0 <= i < |q.members| ==>
           (q.members[i].leader <==> p.members[i].account == account && p.members[i].char_ == char_)
  {
    OnlyLevelsMatter(p, LeaderChange(p, account, char_).members, share);
  }

  /** inter_party_CharOnline keeps the party right. */
  lemma CharOnlineKeeps(p: State, char_: int, share: nat)
    requires Right(p, share) && char_ != 0
    ensures Right(CharOnline(p, char_, share), share)
  {
    var i := SlotOfChar(p.members, char_);
    if i < |p.members| && !p.members[i].online {
      var m := p.members[i].(online := true);
      var q := p.(members := p.members[i := m], count := Up(p.count));
      OnlineAt(p.members, i, m);
      ChangedCounts(p, q, i, m);
      if m.lv < p.minLv || m.lv > p.maxLv {
        CheckLvIsRight(q, share);
      } else {
        ChangedIsRight(p, q, i, m, share);
      }
    }
  }

  /** inter_party_CharOffline counts down without looking at the flag: it keeps the party
      right iff the character, when a member, was online. */
  lemma CharOfflineIsRight(p: State, char_: int, share: nat)
    requires Right(p, share) && char_ != 0
    ensures var i := SlotOfChar(p.members, char_);
      Right(CharOffline(p, char_, share), share) <==> (i < |p.members| ==> p.members[i].online)
  {
    var i := SlotOfChar(p.members, char_);
    if i < |p.members| {
      var m := p.members[i].(online := false);
      var q := p.(members := p.members[i := m], count := Down(p.count));
      OnlineAt(p.members, i, m);
      if p.members[i].online {
        OfflineIsRight(p, q, i, m, share);
      } else {
        assert CharOffline(p, char_, share).members == q.members && CharOffline(p, char_, share).count == q.count;
        assert q.count != Online(q.members);
      }
    }
  }

  lemma OfflineIsRight(p: State, q: State, i: nat, m: Member, share: nat)
    requires Right(p, share) && Changed(p, q, i, m) && SlotOk(m) && p.members[i].online && !m.online
    requires m.lv == p.members[i].lv && q.minLv == p.minLv && q.maxLv == p.maxLv && q.exp == p.exp
    ensures Right(if m.lv == p.minLv || m.lv == p.maxLv then CheckLv(q, share) else q, share)
  {
    ChangedCounts(p, q, i, m);
    if m.lv == p.minLv || m.lv == p.maxLv {
      CheckLvIsRight(q, share);
    } else {
      WithinBounds(p, i, share);
      ChangedIsRight(p, q, i, m, share);
    }
  }

  // --------------------------------------------------------------------------- runs

  /** The first five are packets of the map-servers; the last two are calls inside the
      server that it offers but never makes.  family is what char_family says of the first
      three members when the newcomer makes the party one of three. */
  datatype Event =
    | Added(m: Member, family: int)
    | Option(exp: nat, item: nat)
    | Left(account: int, char_: int)
    | Moved(account: int, char_: int, map_: int, online: bool, lv: nat)
    | LedBy(account: int, char_: int)
    | CameOnline(char_: int)
    | WentOffline(char_: int)

  function Next(p: State, e: Event, share: nat): Outcome {
    match e
    case Added(m, family) => Kept(AddMember(p, m, share, family))
    case Option(exp, item) => Kept(ChangeOption(p, exp, item, share))
    case Left(account, char_) => Leave(p, account, char_, share)
    case Moved(account, char_, map_, online, lv) => Kept(ChangeMap(p, account, char_, map_, online, lv, share))
    case LedBy(account, char_) => Kept(LeaderChange(p, account, char_))
    case CameOnline(char_) => Kept(CharOnline(p, char_, share))
    case WentOffline(char_) => Kept(CharOffline(p, char_, share))
  }

  /** Events with proper ids and levels. */
  ghost predicate WellFormed(p: State, e: Event, share: nat) {
    match e
    case Added(m, family) => SlotOk(m) && m.lv > 0 && KidOnce(AddMember(p, m, share, family).members, family)
    case Option(_, _) => true
    case Left(account, _) => account != 0
    case Moved(account, _, _, _, lv) => account != 0 && 0 < lv < 0x1_0000
    case LedBy(account, _) => account != 0
    case CameOnline(char_) => char_ != 0
    case WentOffline(char_) => char_ != 0
  }

  /** A member jumps out of the level range, or one that is not online goes offline. */
  predicate Spoils(p: State, e: Event) {
    match e
    case Moved(account, char_, _, online, lv) => MemberJumpsOut(p, account, char_, online, lv)
    case WentOffline(char_) =>
      var i := SlotOfChar(p.members, char_);
      i < |p.members| && !p.members[i].online
    case _ => false
  }

  /** An event keeps the party right iff it is not one of the two that spoil it. */
  lemma NextIsRight(p: State, e: Event, share: nat)
    requires Right(p, share) && WellFormed(p, e, share)
    ensures Next(p, e, share).Kept? ==> (Right(Next(p, e, share).party, share) <==> !Spoils(p, e))
  {
    match e
    case Added(m, family) => AddMemberKeeps(p, m, share, family);
    case Option(exp, item) => ChangeOptionKeeps(p, exp, item, share);
    case Left(account, char_) => LeaveKeeps(p, account, char_, share);
    case Moved(account, char_, map_, online, lv) => ChangeMapIsRight(p, account, char_, map_, online, lv, share);
    case LedBy(account, char_) => LeaderChangeLeaders(p, account, char_, share);
    case CameOnline(char_) => CharOnlineKeeps(p, char_, share);
    case WentOffline(char_) => CharOfflineIsRight(p, char_, share);
  }

  /** The party after a run; once broken it stays so. */
  function After(p: Outcome, es: seq<Event>, share: nat): Outcome
    decreases |es|
  {
    if es == [] || p.Broken? then p else After(Next(p.party, es[0], share), es[1..], share)
  }

  ghost predicate IsRun(p: Outcome, es: seq<Event>, share: nat)
    decreases |es|
  {
    es == [] || p.Broken? || (WellFormed(p.party, es[0], share) && IsRun(Next(p.party, es[0], share), es[1..], share))
  }

  ghost predicate NeverSpoilt(p: Outcome, es: seq<Event>, share: nat)
    decreases |es|
  {
    es == [] || p.Broken? || (!Spoils(p.party, es[0]) && NeverSpoilt(Next(p.party, es[0], share), es[1..], share))
  }

  /** The party is right in every state of the run. */
  ghost predicate AlwaysRight(p: Outcome, es: seq<Event>, share: nat)
    decreases |es|
  {
    p.Broken? || (Right(p.party, share) && (es == [] || AlwaysRight(Next(p.party, es[0], share), es[1..], share)))
  }

  /** In every state of a run, families included, the counters are exact, the bounds are
      those of the members online, and while even share is on any two of them are close
      enough in level, iff no event of the run spoils that. */
  lemma {:induction false} RunStaysRight(p: Outcome, es: seq<Event>, share: nat)
    requires p.Kept? ==> Right(p.party, share)
    requires IsRun(p, es, share)
    ensures AlwaysRight(p, es, share) <==> NeverSpoilt(p, es, share)
    decreases |es|
  {
    if es != [] && p.Kept? {
      var q := Next(p.party, es[0], share);
      NextIsRight(p.party, es[0], share);
      if q.Broken? || Right(q.party, share) {
        RunStaysRight(q, es[1..], share);
      }
    }
  }

  // ------------------------------------------------------------------- a jump

  /** A member that jumps up more than the share level above the lowest one, from
      strictly inside the range, leaves even share on although it is no longer fair. */
  lemma JumpKeepsShare(p: State, account: int, char_: int, map_: int, lv: nat, share: nat)
    requires Right(p, share) && p.exp && account != 0 && 0 < lv < 0x1_0000
    requires MemberJumpsOut(p, account, char_, true, lv) && lv > p.minLv + share
    ensures var q := ChangeMap(p, account, char_, map_, true, lv, share); q.exp && !Fair(q.members, share)
  {
    var i := SlotOf(p.members, account, char_);
    var q := ChangeMap(p, account, char_, map_, true, lv, share);
    var a := LowestOnline(p, share, i);
    assert q.members[a] == p.members[a] && q.members[i].lv == lv && q.members[i].online;
  }

  lemma LowestOnline(p: State, share: nat, i: nat) returns (a: nat)
    requires Right(p, share) && i < |p.members| && JumpsOut(p, i, true, p.maxLv + 1)
    ensures a < |p.members| && a != i && p.members[a].online && p.members[a].lv == p.minLv
  {
    if Exact(p, p.members, share) {
      a :| 0 <= a < |p.members| && p.members[a].online && p.members[a].lv == p.minLv;
    } else {
      var ms := WithoutKid(p.members, p.family);
      assert SlotOk(p.members[i]) && ms[i].online;
      a :| 0 <= a < |ms| && ms[a].online && ms[a].lv == p.minLv;
    }
  }

  function Level(lv: nat, id: int): Member { Member(id, id, lv, 0, id == 1, true) }

  function Three(): seq<Member> {
    seq(MAX_PARTY, _ => NONE)[0 := Level(10, 1)][1 := Level(15, 2)][2 := Level(20, 3)]
  }

  /** Members of level 10, 15 and 20, with even share on. */
  function Trio(): State { CalcState(State(Three(), 0, 0, 0, 0, 0, true, 0), 10, 0) }

  lemma ThreeAre(i: nat)
    requires i < MAX_PARTY
    ensures |Three()| == MAX_PARTY
    ensures Three()[i] ==
      if i == 0 then Level(10, 1) else if i == 1 then Level(15, 2) else if i == 2 then Level(20, 3) else NONE
  {
  }

  lemma ThreeAreFair()
    ensures SlotsOk(Three()) && IsMin(Three(), 10) && IsMax(Three(), 20) && Fair(Three(), 10)
  {
    forall i | 0 <= i < MAX_PARTY ensures SlotOk(Three()[i]) && (Three()[i].online ==> 10 <= Three()[i].lv <= 20) {
      ThreeAre(i);
    }
    ThreeAre(0);
    ThreeAre(2);
    assert Three()[0].online && Three()[2].online;
  }

  lemma TrioIsRight()
    ensures var p := Trio(); p.members == Three() && Right(p, 10) && p.exp && p.minLv == 10 && p.maxLv == 20
  {
    var p := Trio();
    ThreeAreFair();
    CalcStateIsRight(State(Three(), 0, 0, 0, 0, 0, true, 0), 10, 0);
    NobodyIsKid(Three());
    BoundsAreUnique(Three(), 10, p.minLv, 20, p.maxLv);
    RuleIsFair(p, 10);
  }

  /** The second one goes up to level 40, and even share stays on. */
  lemma TrioJumps()
    ensures var p := Trio(); var q := ChangeMap(p, 2, 2, 0, true, 40, 10);
      Right(p, 10) && p.exp && q.exp && !Fair(q.members, 10)
  {
    var p := Trio();
    TrioIsRight();
    ThreeAre(0);
    ThreeAre(1);
    var i := SlotOf(p.members, 2, 2);
    assert i == 1;
    JumpKeepsShare(p, 2, 2, 0, 40, 10);
  }
}
