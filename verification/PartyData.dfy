/** The party as the server holds it: counters and member slots updated in place. */
module PartyData {
  import opened Party

  class Data {
    const share: nat               // party_share_level
    const member: array<Member>    // MAX_PARTY places
    var count: nat                 // unsigned char
    var size: nat                  // unsigned char
    var minLv: nat
    var maxLv: nat
    var family: int
    var exp: bool
    var item: nat

    constructor (share: nat)
      ensures View() == State(seq(MAX_PARTY, _ => NONE), 0, 0, 0, 0, 0, false, 0)
      ensures this.share == share && fresh(member)
    {
      this.share := share;
      member := new Member[MAX_PARTY](_ => NONE);
      count, size, minLv, maxLv, family, exp, item := 0, 0, 0, 0, 0, false, 0;
      new;
      assert member[..] == seq(MAX_PARTY, _ => NONE);
    }

    ghost function View(): State
      reads this, member
    {
      State(member[..], count, size, minLv, maxLv, family, exp, item)
    }

    /** party_check_exp_share. */
    method CheckExpShare() returns (can: bool)
      ensures can <==> ShareRule(View(), share)
    {
      can := count < 2 || Sub32(maxLv, minLv) <= share;
    }

    /** int_party_check_lv. */
    method CheckLevels()
      modifies this`minLv, this`maxLv, this`exp
      ensures View() == CheckLv(old(View()), share)
    {
      minLv, maxLv := UINT_MAX, 0;
      assert member[..0] == [];
      for i := 0 to member.Length
        invariant minLv == MinLv(member[..i]) && maxLv == MaxLv(member[..i]) && exp == old(exp)
      {
        assert member[..i + 1][..i] == member[..i];
        if member[i].online {
          var lv := member[i].lv;
          if lv < minLv {
            minLv := lv;
          }
          if lv > maxLv {
            maxLv := lv;
          }
        }
      }
      assert member[..member.Length] == member[..];
      var can := CheckExpShare();
      if exp && !can {
        exp := false;
      }
    }

    /** The counting loop of int_party_calc_state. */
    method CountMembers()
      modifies this`count, this`size
      ensures count == Online(Taken(member[..])) && size == Size(member[..])
    {
      count, size := 0, 0;
      ghost var taken := Taken(member[..]);
      assert member[..0] == [] && taken[..0] == [];
      for i := 0 to member.Length
        invariant count == Online(taken[..i]) && size == Size(member[..i])
      {
        assert member[..i + 1][..i] == member[..i] && taken[..i + 1][..i] == taken[..i];
        if member[i].lv != 0 {
          size := size + 1;
          if member[i].online {
            count := count + 1;
          }
        }
      }
      assert member[..member.Length] == member[..] && taken[..member.Length] == taken;
    }

    /** The loop over the levels in int_party_calc_state. */
    method BoundLevels()
      modifies this`minLv, this`maxLv
      ensures minLv == MinLv(WithoutKid(member[..], family)) && maxLv == MaxLv(WithoutKid(member[..], family))
    {
      minLv, maxLv := UINT_MAX, 0;
      ghost var counted := WithoutKid(member[..], family);
      assert counted[..0] == [];
      for i := 0 to member.Length
        invariant minLv == MinLv(counted[..i]) && maxLv == MaxLv(counted[..i])
      {
        assert counted[..i + 1][..i] == counted[..i];
        var lv := member[i].lv;
        if lv != 0 && member[i].online && member[i].char_ != family {
          if lv < minLv {
            minLv := lv;
          }
          if maxLv < lv {
            maxLv := lv;
          }
        }
      }
      assert counted[..member.Length] == counted;
    }

    /** int_party_calc_state; kid is the answer of char_family. */
    method CalculateState(kid: int)
      modifies this`count, this`size, this`family, this`minLv, this`maxLv, this`exp
      ensures View() == CalcState(old(View()), share, kid)
    {
      family := 0;
      CountMembers();
      if size == 3 {
        family := kid;
      }
      BoundLevels();
      var can := CheckExpShare();
      if exp && !can {
        exp := false;
      }
    }

    method FindFree() returns (i: nat)
      ensures i == FreeSlot(member[..])
    {
      i := 0;
      assert member[0..] == member[..];
      while i < member.Length && member[i].account != 0
        invariant i <= member.Length && FreeSlot(member[..]) == i + FreeSlot(member[i..])
      {
        assert member[i..][1..] == member[i + 1..];
        i := i + 1;
      }
    }

    method FindMember(account: int, char_: int) returns (i: nat)
      ensures i == SlotOf(member[..], account, char_)
    {
      i := 0;
      assert member[0..] == member[..];
      while i < member.Length && (member[i].account != account || member[i].char_ != char_)
        invariant i <= member.Length && SlotOf(member[..], account, char_) == i + SlotOf(member[i..], account, char_)
      {
        assert member[i..][1..] == member[i + 1..];
        i := i + 1;
      }
    }

    method FindChar(char_: int) returns (i: nat)
      ensures i == SlotOfChar(member[..], char_)
    {
      i := 0;
      assert member[0..] == member[..];
      while i < member.Length && member[i].char_ != char_
        invariant i <= member.Length && SlotOfChar(member[..], char_) == i + SlotOfChar(member[i..], char_)
      {
        assert member[i..][1..] == member[i + 1..];
        i := i + 1;
      }
    }

    /** mapif_parse_PartyAddMember: the flag of the answer is 1 for a full party. */
    method Add(m: Member, kid: int) returns (flag: nat)
      requires member.Length == MAX_PARTY
      modifies this, member
      ensures View() == AddMember(old(View()), m, share, kid)
      ensures flag == 1 <==> old(size) == MAX_PARTY || FreeSlot(old(member[..])) == MAX_PARTY
    {
      if size == MAX_PARTY {
        return 1;
      }
      var i := FindFree();
      if i == member.Length {
        return 1;
      }
      member[i] := m.(leader := false);
      if m.online {
        count := Up(count);
      }
      size := Up(size);
      if size == 3 {
        CalculateState(kid);
      } else if m.lv < minLv || m.lv > maxLv || family != 0 {
        family := 0;
        CheckLevels();
      }
      return 0;
    }

    /** mapif_parse_PartyChangeOption. */
    method SetOption(exp_: nat, item_: nat) returns (flag: nat)
      modifies this`exp, this`item
      ensures View() == ChangeOption(old(View()), exp_, item_, share)
      ensures flag == if exp_ != 0 && !ShareRule(old(View()), share) then 1 else 0
    {
      flag := 0;
      exp := exp_ % 2 == 1;
      var can := CheckExpShare();
      if exp_ != 0 && !can {
        flag := 1;
        exp := false;
      }
      item := item_ % 4;
    }

    /** mapif_parse_PartyLeave: whether the party is broken up and dropped. */
    method LeaveParty(account: int, char_: int) returns (broken: bool)
      modifies this, member
      ensures Leave(old(View()), account, char_, share) == if broken then Broken else Kept(View())
    {
      var i := FindMember(account, char_);
      if i >= member.Length {
        return false;
      }
      if member[i].leader {
        for j := 0 to member.Length
          invariant forall k :: 0 <= k < j ==> member[k].account == 0
        {
          member[j] := member[j].(account := 0);
        }
        return true;
      }
      RemoveMember(i);
      broken := true;
      for k := 0 to member.Length
        invariant broken <==> forall l :: 0 <= l < k ==> member[l].account == 0
        invariant View() == LeaveSlot(old(View()), i, share)
      {
        if member[k].account != 0 {
          broken := false;
        }
      }
    }

    /** The part of leaving that concerns the party that remains. */
    method RemoveMember(i: nat)
      requires i < member.Length
      modifies this`count, this`size, this`family, this`minLv, this`maxLv, this`exp, member
      ensures View() == LeaveSlot(old(View()), i, share)
    {
      var lv := member[i].lv;
      if member[i].online {
        count := Down(count);
      }
      member[i] := NONE;
      size := Down(size);
      if lv == minLv || lv == maxLv || family != 0 {
        family := 0;
        CheckLevels();
      }
    }

    /** The online flag in mapif_parse_PartyChangeMap. */
    method ToggleOnline(i: nat, online: bool, lv: nat)
      requires i < member.Length
      modifies this`count, this`minLv, this`maxLv, this`exp, member
      ensures View() == Toggle(old(View()), i, online, lv, share)
    {
      if member[i].online != online {
        member[i] := member[i].(online := online);
        if online {
          count := Up(count);
        } else {
          count := Down(count);
        }
        if family != 0 || member[i].lv <= minLv || member[i].lv >= maxLv
           || (member[i].lv != lv && (lv <= minLv || lv >= maxLv)) {
          member[i] := member[i].(lv := lv);
          CheckLevels();
        }
      }
    }

    /** The level in mapif_parse_PartyChangeMap. */
    method SetLevel(i: nat, lv: nat)
      requires i < member.Length
      modifies this`minLv, this`maxLv, this`exp, member
      ensures View() == SetLv(old(View()), i, lv, share)
    {
      if member[i].lv != lv {
        if member[i].lv == minLv || member[i].lv == maxLv {
          member[i] := member[i].(lv := lv);
          CheckLevels();
        } else {
          member[i] := member[i].(lv := lv);
        }
      }
    }

    /** mapif_parse_PartyChangeMap. */
    method Move(account: int, char_: int, map_: int, online: bool, lv: nat)
      modifies this`count, this`minLv, this`maxLv, this`exp, member
      ensures View() == ChangeMap(old(View()), account, char_, map_, online, lv, share)
    {
      var i := FindMember(account, char_);
      if i < member.Length {
        ToggleOnline(i, online, lv);
        SetLevel(i, lv);
        if member[i].map_ != map_ {
          member[i] := member[i].(map_ := map_);
        }
      }
    }

    /** mapif_parse_PartyLeaderChange. */
    method ChangeLeader(account: int, char_: int)
      modifies member
      ensures View() == LeaderChange(old(View()), account, char_)
    {
      ghost var was := old(View());
      for i := 0 to member.Length
        invariant forall k :: 0 <= k < i ==> member[k] == LeaderChange(was, account, char_).members[k]
        invariant forall k :: i <= k < member.Length ==> member[k] == was.members[k]
      {
        if member[i].leader {
          member[i] := member[i].(leader := false);
        }
        if member[i].account == account && member[i].char_ == char_ {
          member[i] := member[i].(leader := true);
        }
      }
    }

    /** inter_party_CharOnline. */
    method SetOnline(char_: int)
      modifies this`count, this`minLv, this`maxLv, this`exp, member
      ensures View() == CharOnline(old(View()), char_, share)
    {
      var i := FindChar(char_);
      if i < member.Length && !member[i].online {
        member[i] := member[i].(online := true);
        count := Up(count);
        if member[i].lv < minLv || member[i].lv > maxLv {
          CheckLevels();
        }
      }
    }

    /** inter_party_CharOffline: whether the party is dropped from memory. */
    method SetOffline(char_: int) returns (dropped: bool)
      modifies this`count, this`minLv, this`maxLv, this`exp, member
      ensures View() == CharOffline(old(View()), char_, share)
      ensures dropped <==> CharOffline(old(View()), char_, share).count == 0
    {
      var i := FindChar(char_);
      if i < member.Length {
        member[i] := member[i].(online := false);
        count := Down(count);
        if member[i].lv == minLv || member[i].lv == maxLv {
          CheckLevels();
        }
      }
      dropped := count == 0;
    }
  }
}
