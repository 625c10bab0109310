/** A cached guild's members as the server holds them, and the loops that change and
    save them. */
module GuildData {
  import opened GuildMembers

  class Data {
    const id: int
    const member: array<Slot>     // MAX_GUILD places
    var max: nat                  // max_member
    var flagged: bool             // GS_MEMBER
    var remove: bool              // GS_REMOVE
    var rows: Rows

    ghost predicate Valid()
      reads this
    {
      member.Length == MAX_GUILD && max <= MAX_GUILD
    }

    ghost function View(): World
      reads this, member
    {
      World(Guild(id, member[..], max, flagged, remove), rows)
    }

    /** The member part of inter_guild_tosql: the number of queries that failed. */
    method SaveMembers(f: Fails) returns (errors: nat)
      requires Valid()
      modifies this`rows, member
      ensures View().g == old(View().g).(slots := SaveSlots(old(View().g), f, max))
      ensures rows == SaveRows(old(View().g), old(rows), f, max)
      ensures errors == 0 <==> SaveOk(old(View().g), f, max)
    {
      ghost var was := View();
      errors := 0;
      for i := 0 to max
        invariant member[..] == SaveSlots(was.g, f, i) && rows == SaveRows(was.g, was.rows, f, i)
        invariant errors == 0 <==> SaveOk(was.g, f, i)
      {
        ghost var before := member[..];
        var m := member[i];
        assert m == was.g.slots[i];
        if !m.mark.Unmodified? && m.account != 0 {
          var memberOk := true;
          if i in f.rows {
            errors := errors + 1;
            memberOk := false;
          } else {
            rows := rows[(id, m.char_) := Row(m.account, m.data)];
          }
          if m.mark.New? && i in f.chars {
            errors := errors + 1;
            memberOk := false;
          }
          if memberOk {
            member[i] := m.(mark := Unmodified);
          }
        }
        assert member[..] == before[i := SaveSlots(was.g, f, i + 1)[i]];
      }
    }

    /** What guild_save does about the members: the bit is cleared only after success. */
    method GuildSave(f: Fails, otherOk: bool)
      requires Valid()
      modifies this`rows, this`flagged, member
      ensures View() == Next(old(View()), Saved(f, otherOk))
    {
      var errors := SaveMembers(f);
      if errors == 0 && otherOk {
        flagged := false;
      }
    }

    method Search(account: int, char_: int) returns (i: nat)
      requires Valid()
      ensures i == FindMember(member[..], account, char_, max, 0)
    {
      i := 0;
      while i < max && !(member[i].account == account && member[i].char_ == char_)
        invariant i <= max
        invariant FindMember(member[..], account, char_, max, 0) == FindMember(member[..], account, char_, max, i)
      {
        i := i + 1;
      }
    }

    /** mapif_parse_GuildAddMember: the flag of the answer is 1 if there is no room. */
    method AddMember(account: int, char_: int, data: GuildMembers.Data) returns (flag: nat)
      requires Valid() && Possible(View(), Joined(account, char_, data))
      modifies this`flagged, this`remove, member
      ensures View() == Next(old(View()), Joined(account, char_, data))
      ensures flag == 1 <==> FindFree(old(member[..]), max, 0) == max
    {
      var i := 0;
      while i < max && member[i].account != 0
        invariant i <= max && FindFree(member[..], max, 0) == FindFree(member[..], max, i)
      {
        i := i + 1;
      }
      if i == max {
        return 1;
      }
      member[i] := Slot(account, char_, data, New);
      flagged := true;
      if remove {
        remove := false;
      }
      return 0;
    }

    /** mapif_parse_GuildLeave: gone is whether the DELETE succeeds; a guild that the
        member leaves empty is to be broken up. */
    method RemoveMember(account: int, char_: int, gone: bool) returns (broken: bool)
      requires Valid() && account != 0
      modifies this`rows, member
      ensures View() == Next(old(View()), LeftGuild(account, char_, gone))
      ensures broken <==> FindMember(old(member[..]), account, char_, max, 0) < max
                          && forall k :: 0 <= k < max ==> member[k].account <= 0
    {
      var i := Search(account, char_);
      broken := false;
      if i < max {
        if gone {
          rows := map key | key in rows && !(key.1 == char_ && rows[key].account == account) :: rows[key];
        }
        member[i] := EMPTY;
        broken := CheckEmpty();
      }
    }

    /** guild_check_empty. */
    method CheckEmpty() returns (empty: bool)
      requires Valid()
      ensures empty <==> forall k :: 0 <= k < max ==> member[k].account <= 0
    {
      for i := 0 to max
        invariant forall k :: 0 <= k < i ==> member[k].account <= 0
      {
        if member[i].account > 0 {
          return false;
        }
      }
      return true;
    }

    /** mapif_parse_GuildChangeMemberInfoShort. */
    method ChangeInfoShort(account: int, char_: int, online: int, lv: int, class_: int)
      requires Valid()
      modifies this`flagged, this`remove, member
      ensures View() == Next(old(View()), GotInfoShort(account, char_, online, lv, class_))
    {
      ghost var was := View().g;
      ghost var seen := InfoShortSlots(was, account, char_, lv);
      ghost var all := InfoShort(was, account, char_, online, lv, class_).slots;
      var c := 0;
      for i := 0 to max
        invariant forall k :: 0 <= k < i ==> member[k] == all[k]
        invariant forall k :: i <= k < member.Length ==> member[k] == was.slots[k]
        invariant c > 0 <==> HasLevels(seen, i)
        invariant c >= 0 && remove == old(remove)
      {
        HasLevelsStep(seen, i);
        if member[i].account == account && member[i].char_ == char_ {
          var data := member[i].data.(online := online, lv := lv, class_ := class_);
          member[i] := member[i].(data := data, mark := Modified);
        }
        if member[i].account > 0 && member[i].data.lv > 0 {
          c := c + 1;
        }
      }
      assert member[..] == all;
      if c != 0 && remove {
        remove := false;
      }
      flagged := true;
    }

    /** mapif_parse_GuildMemberInfoChange, but for the guild's experience. */
    method ChangeInfo(account: int, char_: int, info: Info)
      requires Valid()
      modifies this`flagged, member
      ensures View() == Next(old(View()), GotInfo(account, char_, info))
    {
      var i := Search(account, char_);
      if i == max {
        return;
      }
      if info.Position? && (info.pos < 0 || info.pos >= MAX_GUILDPOSITION) {
        return;
      }
      member[i] := member[i].(data := WithInfo(member[i].data, info));
      member[i] := member[i].(mark := Modified);
      flagged := true;
    }

    /** mapif_parse_GuildMasterChange: a name too long, or of nobody, changes nothing. */
    method ChangeMaster(name: string, len: nat)
      requires Valid()
      modifies this`flagged, member
      ensures View() == Next(old(View()), NewMaster(name, len))
    {
      if len > NAME_LENGTH {
        return;
      }
      var pos := 0;
      while pos < max && Prefix(member[pos].data.name, len) != Prefix(name, len)
        invariant pos <= max
        invariant FindName(member[..], name, len, max, 0) == FindName(member[..], name, len, max, pos)
      {
        pos := pos + 1;
      }
      if pos < max {
        SwapMaster(pos);
      }
    }

    /** The switch of the new master and the one before. */
    method SwapMaster(pos: nat)
      requires Valid() && pos < max
      modifies this`flagged, member
      ensures View() == old(View()).(g := MasterChange(old(View()).g, pos))
    {
      ghost var was := member[..];
      var gm := member[pos];
      member[pos] := member[0];
      member[0] := gm;
      member[pos] := member[pos].(data := member[pos].data.(position := member[0].data.position));
      member[pos] := member[pos].(mark := Modified);
      member[0] := member[0].(data := member[0].data.(position := 0));
      member[0] := member[0].(mark := Modified);
      flagged := true;
      assert member[..] == MasterChange(old(View().g), pos).slots;
    }

    /** inter_guild_CharOnline. */
    method SetOnline(char_: int)
      requires Valid()
      modifies this`remove, member
      ensures View() == Next(old(View()), CameOnline(char_))
    {
      if remove {
        remove := false;
      }
      var i := 0;
      while i < max && member[i].char_ != char_
        invariant i <= max && FindChar(member[..], char_, max, 0) == FindChar(member[..], char_, max, i)
      {
        i := i + 1;
      }
      if i < max {
        member[i] := member[i].(data := member[i].data.(online := 1));
        member[i] := member[i].(mark := Modified);
      }
    }

    /** inter_guild_CharOffline. */
    method SetOffline(char_: int)
      requires Valid()
      modifies this`remove, member
      ensures View() == Next(old(View()), WentOffline(char_))
    {
      ghost var was := View().g;
      ghost var all := OfflineSlots(was, char_, max);
      var onlineCount := 0;
      for i := 0 to max
        invariant forall k :: 0 <= k < i ==> member[k] == all[k]
        invariant forall k :: i <= k < member.Length ==> member[k] == was.slots[k]
        invariant onlineCount == if SomebodyOnline(all, i) then 1 else 0
        invariant remove == old(remove)
      {
        SomebodyOnlineStep(all, i);
        if member[i].char_ == char_ {
          member[i] := member[i].(data := member[i].data.(online := 0), mark := Modified);
        }
        if member[i].data.online != 0 && onlineCount == 0 {
          onlineCount := onlineCount + 1;
        }
      }
      assert member[..] == all;
      if onlineCount == 0 {
        remove := true;
      }
    }
  }
}
