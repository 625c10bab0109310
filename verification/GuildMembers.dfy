/** The incremental save of guild members: a slot remembers that it differs from its row
    until the row has been written, whatever queries fail in between. */
module GuildMembers {
  const MAX_GUILD: nat := 76
  const MAX_GUILDPOSITION: int := 20
  const NAME_LENGTH: nat := 24

  /** The saved fields of a member. */
  datatype Data = Data(hair: int, hairColor: int, gender: int, class_: int, lv: int, exp: nat,
                       expPayper: int, online: int, position: int, name: string)

  /** modified: not at all, GS_MEMBER_MODIFIED, or with GS_MEMBER_NEW as well. */
  datatype Mark = Unmodified | Modified | New

  datatype Slot = Slot(account: int, char_: int, data: Data, mark: Mark)

  const NO_DATA: Data := Data(0, 0, 0, 0, 0, 0, 0, 0, 0, "")
  const EMPTY: Slot := Slot(0, 0, NO_DATA, Unmodified)

  datatype Row = Row(account: int, data: Data)

  /** guild_member, by guild and character: its primary key. */
  type Rows = map<(int, int), Row>

  /** The guild: its places, how many it may use, whether GS_MEMBER and GS_REMOVE are set. */
  datatype Guild = Guild(id: int, slots: seq<Slot>, max: nat, flagged: bool, remove: bool)

  predicate Occupied(s: Slot) { s.account != 0 }

  /** The slot is what its row says. */
  predicate InStep(id: int, s: Slot, rows: Rows) {
    (id, s.char_) in rows && rows[(id, s.char_)] == Row(s.account, s.data)
  }

  /** The character is a member. */
  predicate HasChar(slots: seq<Slot>, char_: int) {
    exists i :: 0 <= i < |slots| && Occupied(slots[i]) && slots[i].char_ == char_
  }

  ghost predicate DistinctChars(slots: seq<Slot>) {
    forall i, j :: 0 <= i < j < |slots| && Occupied(slots[i]) && Occupied(slots[j]) ==>
      slots[i].char_ != slots[j].char_
  }

  /** Every slot in use that is not marked is in step with its row. */
  ghost predicate MarksOk(g: Guild, rows: Rows) {
    forall i :: 0 <= i < |g.slots| && Occupied(g.slots[i]) && g.slots[i].mark.Unmodified? ==>
      InStep(g.id, g.slots[i], rows)
  }

  ghost predicate Inv(g: Guild, rows: Rows) {
    |g.slots| == MAX_GUILD && g.max <= MAX_GUILD && DistinctChars(g.slots) && MarksOk(g, rows)
  }

  // ----------------------------------------------------------------------- the save

  /** The fortunes of the queries of one save, by slot: the REPLACE and, for a new member,
      the UPDATE of the character. */
  datatype Fails = Fails(rows: set<nat>, chars: set<nat>)

  predicate SlotSaved(s: Slot, i: nat, f: Fails) { i !in f.rows && (s.mark.New? ==> i !in f.chars) }

  predicate Wants(s: Slot) { !s.mark.Unmodified? && Occupied(s) }

  function SaveSlots(g: Guild, f: Fails, n: nat): seq<Slot>
    requires n <= |g.slots|
  {
    seq(|g.slots|, i requires 0 <= i < |g.slots| =>
      if i < n && Wants(g.slots[i]) && SlotSaved(g.slots[i], i, f) then g.slots[i].(mark := Unmodified)
      else g.slots[i])
  }

  function SaveRows(g: Guild, rows: Rows, f: Fails, n: nat): Rows
    requires n <= |g.slots|
  {
    if n == 0 then rows
    else
      var s := g.slots[n - 1];
      var before := SaveRows(g, rows, f, n - 1);
      if Wants(s) && n - 1 !in f.rows then before[(g.id, s.char_) := Row(s.account, s.data)] else before
  }

  predicate SaveOk(g: Guild, f: Fails, n: nat)
    requires n <= |g.slots|
  {
    forall i :: 0 <= i < n && Wants(g.slots[i]) ==> SlotSaved(g.slots[i], i, f)
  }

  /** inter_guild_tosql with GS_MEMBER, and guild_save's clearing of the bit; otherOk is
      whether the queries for the other parts succeeded. */
  function Save(g: Guild, f: Fails, otherOk: bool): Guild
    requires |g.slots| == MAX_GUILD && g.max <= MAX_GUILD
  {
    g.(slots := SaveSlots(g, f, g.max), flagged := g.flagged && !(SaveOk(g, f, g.max) && otherOk))
  }

  /** A row that no working query writes stays. */
  lemma {:induction false} OtherRowsStay(g: Guild, rows: Rows, f: Fails, n: nat, key: (int, int))
    requires n <= |g.slots|
    requires forall i :: 0 <= i < n && Wants(g.slots[i]) && i !in f.rows ==> (g.id, g.slots[i].char_) != key
    ensures var after := SaveRows(g, rows, f, n);
      (key in after <==> key in rows) && (key in rows ==> after[key] == rows[key])
  {
    if n > 0 {
      OtherRowsStay(g, rows, f, n - 1, key);
    }
  }

  lemma {:induction false} RowIsWritten(g: Guild, rows: Rows, f: Fails, n: nat, i: nat)
    requires i < n <= |g.slots| && DistinctChars(g.slots) && Occupied(g.slots[i])
    ensures Wants(g.slots[i]) && i !in f.rows ==> InStep(g.id, g.slots[i], SaveRows(g, rows, f, n))
    ensures !Wants(g.slots[i]) && InStep(g.id, g.slots[i], rows) ==> InStep(g.id, g.slots[i], SaveRows(g, rows, f, n))
  {
    if i < n - 1 {
      RowIsWritten(g, rows, f, n - 1, i);
    } else {
      OtherRowsStay(g, rows, f, n - 1, (g.id, g.slots[i].char_));
    }
  }

  /** Whatever queries fail, a save leaves no unmarked slot out of step. */
  lemma SaveKeeps(g: Guild, rows: Rows, f: Fails, otherOk: bool)
    requires Inv(g, rows)
    ensures Inv(Save(g, f, otherOk), SaveRows(g, rows, f, g.max))
  {
    var after := SaveRows(g, rows, f, g.max);
    var h := Save(g, f, otherOk);
    forall i | 0 <= i < |h.slots| && Occupied(h.slots[i]) && h.slots[i].mark.Unmodified?
      ensures InStep(h.id, h.slots[i], after)
    {
      if i < g.max {
        RowIsWritten(g, rows, f, g.max, i);
      } else {
        OtherRowsStay(g, rows, f, g.max, (g.id, g.slots[i].char_));
      }
    }
  }

  /** A save that reports success leaves every member of the guild equal to its row. */
  lemma SuccessMeansSaved(g: Guild, rows: Rows, f: Fails, otherOk: bool)
    requires Inv(g, rows) && SaveOk(g, f, g.max)
    ensures forall i :: 0 <= i < g.max && Occupied(g.slots[i]) ==>
      var h := Save(g, f, otherOk);
      h.slots[i] == g.slots[i].(mark := Unmodified) && InStep(g.id, h.slots[i], SaveRows(g, rows, f, g.max))
  {
    SaveKeeps(g, rows, f, otherOk);
  }

  /** Rows of other guilds are not touched. */
  lemma OtherGuildsStay(g: Guild, rows: Rows, f: Fails, key: (int, int))
    requires Inv(g, rows) && key.0 != g.id
    ensures var after := SaveRows(g, rows, f, g.max);
      (key in after <==> key in rows) && (key in rows ==> after[key] == rows[key])
  {
    OtherRowsStay(g, rows, f, g.max, key);
  }

  // ------------------------------------------------------------------- the mutators

  function FindFree(slots: seq<Slot>, n: nat, i: nat): (r: nat)
    requires i <= n <= |slots|
    ensures i <= r <= n && (r < n ==> !Occupied(slots[r]))
    ensures forall k :: i <= k < r ==> Occupied(slots[k])
    decreases n - i
  {
    if i == n || !Occupied(slots[i]) then i else FindFree(slots, n, i + 1)
  }

  predicate Is(s: Slot, account: int, char_: int) { s.account == account && s.char_ == char_ }

  function FindMember(slots: seq<Slot>, account: int, char_: int, n: nat, i: nat): (r: nat)
    requires i <= n <= |slots|
    ensures i <= r <= n && (r < n ==> Is(slots[r], account, char_))
    ensures forall k :: i <= k < r ==> !Is(slots[k], account, char_)
    decreases n - i
  {
    if i == n || Is(slots[i], account, char_) then i else FindMember(slots, account, char_, n, i + 1)
  }

  function FindChar(slots: seq<Slot>, char_: int, n: nat, i: nat): (r: nat)
    requires i <= n <= |slots|
    ensures i <= r <= n && (r < n ==> slots[r].char_ == char_)
    ensures forall k :: i <= k < r ==> slots[k].char_ != char_
    decreases n - i
  {
    if i == n || slots[i].char_ == char_ then i else FindChar(slots, char_, n, i + 1)
  }

  function Put(g: Guild, i: nat, s: Slot): Guild
    requires i < |g.slots|
  {
    g.(slots := g.slots[i := s])
  }

  /** mapif_parse_GuildAddMember. */
  function Join(g: Guild, account: int, char_: int, data: Data): Guild
    requires g.max <= |g.slots|
  {
    var i := FindFree(g.slots, g.max, 0);
    if i == g.max then g else Put(g, i, Slot(account, char_, data, New)).(flagged := true, remove := false)
  }

  /** mapif_parse_GuildLeave. */
  function Leave(g: Guild, account: int, char_: int): Guild
    requires g.max <= |g.slots|
  {
    var i := FindMember(g.slots, account, char_, g.max, 0);
    if i == g.max then g else Put(g, i, EMPTY)
  }

  /** inter_guild_removemember_tosql, in whichever guild; gone is whether it succeeds. */
  function LeaveRows(g: Guild, rows: Rows, account: int, char_: int, gone: bool): Rows
    requires g.max <= |g.slots|
  {
    if FindMember(g.slots, account, char_, g.max, 0) == g.max || !gone then rows
    else map key | key in rows && !(key.1 == char_ && rows[key].account == account) :: rows[key]
  }

  /** mapif_parse_GuildChangeMemberInfoShort. */
  function InfoShort(g: Guild, account: int, char_: int, online: int, lv: int, class_: int): Guild {
    g.(slots := seq(|g.slots|, i requires 0 <= i < |g.slots| =>
         if i < g.max && Is(g.slots[i], account, char_)
         then g.slots[i].(data := g.slots[i].data.(online := online, lv := lv, class_ := class_), mark := Modified)
         else g.slots[i]),
       flagged := true,
       remove := g.remove && !HasLevels(InfoShortSlots(g, account, char_, lv), g.max))
  }

  /** The levels as that loop sees them. */
  function InfoShortSlots(g: Guild, account: int, char_: int, lv: int): seq<Slot> {
    seq(|g.slots|, i requires 0 <= i < |g.slots| =>
      if i < g.max && Is(g.slots[i], account, char_) then g.slots[i].(data := g.slots[i].data.(lv := lv))
      else g.slots[i])
  }

  predicate HasLevels(slots: seq<Slot>, n: nat) {
    exists i :: 0 <= i < n && i < |slots| && slots[i].account > 0 && slots[i].data.lv > 0
  }

  lemma HasLevelsStep(slots: seq<Slot>, n: nat)
    requires n < |slots|
    ensures HasLevels(slots, n + 1) <==> HasLevels(slots, n) || (slots[n].account > 0 && slots[n].data.lv > 0)
  {
  }

  datatype Info =
    | Position(pos: int)
    | Exp(exp: nat)
    | Hair(v: int)
    | HairColor(v: int)
    | Gender(v: int)
    | Class(v: int)
    | Level(v: int)

  function WithInfo(d: Data, info: Info): Data {
    match info
    case Position(pos) => d.(position := pos)
    case Exp(exp) => d.(exp := exp)
    case Hair(v) => d.(hair := v)
    case HairColor(v) => d.(hairColor := v)
    case Gender(v) => d.(gender := v)
    case Class(v) => d.(class_ := v)
    case Level(v) => d.(lv := v)
  }

  /** mapif_parse_GuildMemberInfoChange; a position out of range is refused. */
  function InfoChange(g: Guild, account: int, char_: int, info: Info): Guild
    requires g.max <= |g.slots|
  {
    var i := FindMember(g.slots, account, char_, g.max, 0);
    if i == g.max || (info.Position? && !(0 <= info.pos < MAX_GUILDPOSITION)) then g
    else Put(g, i, g.slots[i].(data := WithInfo(g.slots[i].data, info), mark := Modified)).(flagged := true)
  }

  /** What mapif_parse_GuildMasterChange does to the place of the new master and the first. */
  function MasterChange(g: Guild, pos: nat): Guild
    requires pos < |g.slots|
  {
    var master := g.slots[pos].(data := g.slots[pos].data.(position := 0), mark := Modified);
    var previous := g.slots[0].(data := g.slots[0].data.(position := g.slots[pos].data.position), mark := Modified);
    if pos == 0 then g.(slots := g.slots[0 := master], flagged := true)
    else g.(slots := g.slots[pos := previous][0 := master], flagged := true)
  }

  /** What strncmp compares of a string. */
  function Prefix(s: string, len: nat): string { if |s| <= len then s else s[..len] }

  /** The search for the new master: the first place whose name starts alike. */
  function FindName(slots: seq<Slot>, name: string, len: nat, n: nat, i: nat): (r: nat)
    requires i <= n <= |slots|
    ensures i <= r <= n && (r < n ==> Prefix(slots[r].data.name, len) == Prefix(name, len))
    ensures forall k :: i <= k < r ==> Prefix(slots[k].data.name, len) != Prefix(name, len)
    decreases n - i
  {
    if i == n || Prefix(slots[i].data.name, len) == Prefix(name, len) then i
    else FindName(slots, name, len, n, i + 1)
  }

  /** mapif_parse_GuildMasterChange. */
  function ChangeMaster(g: Guild, name: string, len: nat): Guild
    requires g.max <= |g.slots|
  {
    var pos := FindName(g.slots, name, len, g.max, 0);
    if len > NAME_LENGTH || pos == g.max then g else MasterChange(g, pos)
  }

  /** inter_guild_CharOnline: GS_MEMBER is not set. */
  function CharOnline(g: Guild, char_: int): Guild
    requires g.max <= |g.slots|
  {
    var i := FindChar(g.slots, char_, g.max, 0);
    if i == g.max then g.(remove := false)
    else Put(g, i, g.slots[i].(data := g.slots[i].data.(online := 1), mark := Modified)).(remove := false)
  }

  function OfflineSlots(g: Guild, char_: int, n: nat): seq<Slot> {
    seq(|g.slots|, i requires 0 <= i < |g.slots| =>
      if i < n && g.slots[i].char_ == char_
      then g.slots[i].(data := g.slots[i].data.(online := 0), mark := Modified) else g.slots[i])
  }

  predicate SomebodyOnline(slots: seq<Slot>, n: nat) {
    exists i :: 0 <= i < n && i < |slots| && slots[i].data.online != 0
  }

  lemma SomebodyOnlineStep(slots: seq<Slot>, n: nat)
    requires n < |slots|
    ensures SomebodyOnline(slots, n + 1) <==> SomebodyOnline(slots, n) || slots[n].data.online != 0
  {
  }

  /** inter_guild_CharOffline: neither is it here, even when the guild may now be dropped. */
  function CharOffline(g: Guild, char_: int): Guild {
    var slots := OfflineSlots(g, char_, g.max);
    g.(slots := slots, remove := g.remove || !SomebodyOnline(slots, g.max))
  }

  // ----------------------------------------------------------------- what they keep

  /** Slots that keep who they are, and are marked if anything else changed. */
  ghost predicate Touched(g: Guild, h: Guild) {
    && h.id == g.id && |h.slots| == |g.slots|
    && forall i :: 0 <= i < |g.slots| ==>
         h.slots[i] == g.slots[i]
         || (h.slots[i].account == g.slots[i].account && h.slots[i].char_ == g.slots[i].char_
             && !h.slots[i].mark.Unmodified?)
  }

  lemma TouchedKeeps(g: Guild, h: Guild, rows: Rows)
    requires Inv(g, rows) && Touched(g, h) && h.max <= MAX_GUILD
    ensures Inv(h, rows)
  {
  }

  /** A new member keeps the marks right; characters stay distinct iff the newcomer is
      not already a member, which is not checked here. */
  lemma JoinKeeps(g: Guild, rows: Rows, account: int, char_: int, data: Data)
    requires Inv(g, rows) && account != 0
    ensures MarksOk(Join(g, account, char_, data), rows)
    ensures Inv(Join(g, account, char_, data), rows) <==>
      (FindFree(g.slots, g.max, 0) < g.max ==> !HasChar(g.slots, char_))
  {
    var i := FindFree(g.slots, g.max, 0);
    if i < g.max {
      var h := Join(g, account, char_, data);
      assert h.slots[i] == Slot(account, char_, data, New);
      if k :| 0 <= k < |g.slots| && Occupied(g.slots[k]) && g.slots[k].char_ == char_ {
        assert h.slots[k] == g.slots[k] && !DistinctChars(h.slots);
      }
    }
  }

  /** Removing a member removes its row at most: no other member's. */
  lemma LeaveKeeps(g: Guild, rows: Rows, account: int, char_: int, gone: bool)
    requires Inv(g, rows) && account != 0
    ensures Inv(Leave(g, account, char_), LeaveRows(g, rows, account, char_, gone))
  {
    var i := FindMember(g.slots, account, char_, g.max, 0);
    if i < g.max {
      var h := Leave(g, account, char_);
      forall k | 0 <= k < |h.slots| && Occupied(h.slots[k]) && h.slots[k].mark.Unmodified?
        ensures InStep(h.id, h.slots[k], LeaveRows(g, rows, account, char_, gone))
      {
        assert k != i && h.slots[k] == g.slots[k] && h.slots[k].char_ != char_;
      }
    }
  }

  lemma InfoShortKeeps(g: Guild, rows: Rows, account: int, char_: int, online: int, lv: int, class_: int)
    requires Inv(g, rows)
    ensures Inv(InfoShort(g, account, char_, online, lv, class_), rows)
  {
    TouchedKeeps(g, InfoShort(g, account, char_, online, lv, class_), rows);
  }

  lemma InfoChangeKeeps(g: Guild, rows: Rows, account: int, char_: int, info: Info)
    requires Inv(g, rows)
    ensures Inv(InfoChange(g, account, char_, info), rows)
  {
    TouchedKeeps(g, InfoChange(g, account, char_, info), rows);
  }

  function Swapped(pos: nat, i: nat): nat { if i == 0 then pos else if i == pos then 0 else i }

  lemma MasterChangeKeeps(g: Guild, rows: Rows, pos: nat)
    requires Inv(g, rows) && pos < g.max
    ensures Inv(MasterChange(g, pos), rows)
  {
    if pos == 0 {
      TouchedKeeps(g, MasterChange(g, pos), rows);
    } else {
      var h := MasterChange(g, pos);
      forall i, j | 0 <= i < j < |h.slots| && Occupied(h.slots[i]) && Occupied(h.slots[j])
        ensures h.slots[i].char_ != h.slots[j].char_
      {
        var a, b := Swapped(pos, i), Swapped(pos, j);
        assert h.slots[i].char_ == g.slots[a].char_ && h.slots[j].char_ == g.slots[b].char_ && a != b;
        if a < b {} else {}
      }
    }
  }

  lemma ChangeMasterKeeps(g: Guild, rows: Rows, name: string, len: nat)
    requires Inv(g, rows)
    ensures Inv(ChangeMaster(g, name, len), rows)
  {
    var pos := FindName(g.slots, name, len, g.max, 0);
    if len <= NAME_LENGTH && pos < g.max {
      MasterChangeKeeps(g, rows, pos);
    }
  }

  lemma CharOnlineKeeps(g: Guild, rows: Rows, char_: int)
    requires Inv(g, rows)
    ensures Inv(CharOnline(g, char_), rows)
  {
    TouchedKeeps(g, CharOnline(g, char_), rows);
  }

  lemma CharOfflineKeeps(g: Guild, rows: Rows, char_: int)
    requires Inv(g, rows)
    ensures Inv(CharOffline(g, char_), rows)
  {
    TouchedKeeps(g, CharOffline(g, char_), rows);
  }

  // --------------------------------------------------------------------------- runs

  datatype Event =
    | Joined(account: int, char_: int, data: Data)
    | LeftGuild(account: int, char_: int, gone: bool)
    | GotInfoShort(account: int, char_: int, online: int, lv: int, class_: int)
    | GotInfo(account: int, char_: int, info: Info)
    | NewMaster(name: string, len: nat)
    | CameOnline(char_: int)
    | WentOffline(char_: int)
    | Resized(max: nat)
    | Saved(fails: Fails, otherOk: bool)

  datatype World = World(g: Guild, rows: Rows)

  predicate Possible(w: World, e: Event) {
    match e
    case Joined(account, char_, _) =>
      account != 0 && !HasChar(w.g.slots, char_)
    case LeftGuild(account, _, _) => account != 0
    case Resized(max) => max <= MAX_GUILD
    case _ => true
  }

  function Next(w: World, e: Event): World
    requires |w.g.slots| == MAX_GUILD && w.g.max <= MAX_GUILD && Possible(w, e)
  {
    match e
    case Joined(account, char_, data) => World(Join(w.g, account, char_, data), w.rows)
    case LeftGuild(account, char_, gone) =>
      World(Leave(w.g, account, char_), LeaveRows(w.g, w.rows, account, char_, gone))
    case GotInfoShort(account, char_, online, lv, class_) =>
      World(InfoShort(w.g, account, char_, online, lv, class_), w.rows)
    case GotInfo(account, char_, info) => World(InfoChange(w.g, account, char_, info), w.rows)
    case NewMaster(name, len) => World(ChangeMaster(w.g, name, len), w.rows)
    case CameOnline(char_) => World(CharOnline(w.g, char_), w.rows)
    case WentOffline(char_) => World(CharOffline(w.g, char_), w.rows)
    case Resized(max) => World(w.g.(max := max), w.rows)
    case Saved(fails, otherOk) => World(Save(w.g, fails, otherOk), SaveRows(w.g, w.rows, fails, w.g.max))
  }

  lemma NextKeeps(w: World, e: Event)
    requires Inv(w.g, w.rows) && Possible(w, e)
    ensures Inv(Next(w, e).g, Next(w, e).rows)
  {
    match e
    case Joined(account, char_, data) => JoinKeeps(w.g, w.rows, account, char_, data);
    case LeftGuild(account, char_, gone) => LeaveKeeps(w.g, w.rows, account, char_, gone);
    case GotInfoShort(account, char_, online, lv, class_) =>
      InfoShortKeeps(w.g, w.rows, account, char_, online, lv, class_);
    case GotInfo(account, char_, info) => InfoChangeKeeps(w.g, w.rows, account, char_, info);
    case NewMaster(name, len) => ChangeMasterKeeps(w.g, w.rows, name, len);
    case CameOnline(char_) => CharOnlineKeeps(w.g, w.rows, char_);
    case WentOffline(char_) => CharOfflineKeeps(w.g, w.rows, char_);
    case Resized(_) =>
    case Saved(fails, otherOk) => SaveKeeps(w.g, w.rows, fails, otherOk);
  }

  /** The states of a run: each follows from the one before by its event. */
  ghost predicate IsRun(ws: seq<World>, es: seq<Event>) {
    && |ws| == |es| + 1
    && forall k :: 0 <= k < |es| ==>
         && |ws[k].g.slots| == MAX_GUILD && ws[k].g.max <= MAX_GUILD
         && Possible(ws[k], es[k]) && ws[k + 1] == Next(ws[k], es[k])
  }

  /** Under any pattern of failures, in every state of every run an unmarked slot is in
      step with its row. */
  lemma {:induction false} RunKeepsInv(ws: seq<World>, es: seq<Event>, k: nat)
    requires IsRun(ws, es) && k < |ws| && Inv(ws[0].g, ws[0].rows)
    ensures Inv(ws[k].g, ws[k].rows)
  {
    if k > 0 {
      RunKeepsInv(ws, es, k - 1);
      NextKeeps(ws[k - 1], es[k - 1]);
    }
  }

  // --------------------------------------------------------------- rows of nobody

  /** The guild has a row of a character that is no member. */
  predicate Stray(w: World, char_: int) {
    (w.g.id, char_) in w.rows && !HasChar(w.g.slots, char_)
  }

  /** A member leaves, and its row stays: the DELETE failed, or found another account. */
  predicate LeavesRow(w: World, e: Event, char_: int)
    requires w.g.max <= |w.g.slots|
  {
    && e.LeftGuild? && e.char_ == char_ && FindMember(w.g.slots, e.account, char_, w.g.max, 0) < w.g.max
    && (w.g.id, char_) in w.rows && (e.gone ==> w.rows[(w.g.id, char_)].account != e.account)
  }

  /** The character becomes a member, there being room. */
  predicate Rejoins(w: World, e: Event, char_: int)
    requires w.g.max <= |w.g.slots|
  {
    e.Joined? && e.char_ == char_ && FindFree(w.g.slots, w.g.max, 0) < w.g.max
  }

  lemma JoinedHas(g: Guild, account: int, char_: int, data: Data, c: int)
    requires g.max <= |g.slots| && account != 0
    ensures HasChar(Join(g, account, char_, data).slots, c) <==>
      HasChar(g.slots, c) || (c == char_ && FindFree(g.slots, g.max, 0) < g.max)
  {
    var i, h := FindFree(g.slots, g.max, 0), Join(g, account, char_, data);
    if i < g.max {
      assert h.slots[i] == Slot(account, char_, data, New);
      if k :| 0 <= k < |g.slots| && Occupied(g.slots[k]) && g.slots[k].char_ == c {
        assert h.slots[k] == g.slots[k];
      }
    }
  }

  lemma LeftHas(g: Guild, account: int, char_: int, c: int)
    requires g.max <= |g.slots| && account != 0 && DistinctChars(g.slots)
    ensures HasChar(Leave(g, account, char_).slots, c) <==>
      HasChar(g.slots, c) && !(c == char_ && FindMember(g.slots, account, char_, g.max, 0) < g.max)
  {
    var i, h := FindMember(g.slots, account, char_, g.max, 0), Leave(g, account, char_);
    if i < g.max {
      assert Occupied(g.slots[i]) && h.slots[i] == EMPTY;
      if k :| 0 <= k < |g.slots| && Occupied(g.slots[k]) && g.slots[k].char_ == c && k != i {
        assert h.slots[k] == g.slots[k];
      }
    }
  }

  /** Places that keep who they are. */
  ghost predicate SamePeople(g: Guild, h: Guild) {
    && |h.slots| == |g.slots|
    && forall i :: 0 <= i < |g.slots| ==>
         h.slots[i].account == g.slots[i].account && h.slots[i].char_ == g.slots[i].char_
  }

  lemma SamePeopleHave(g: Guild, h: Guild, c: int)
    requires SamePeople(g, h)
    ensures HasChar(h.slots, c) <==> HasChar(g.slots, c)
  {
    if i :| 0 <= i < |g.slots| && Occupied(g.slots[i]) && g.slots[i].char_ == c {
      assert Occupied(h.slots[i]) && h.slots[i].char_ == c;
    }
  }

  lemma MasterChangeHas(g: Guild, pos: nat, c: int)
    requires pos < |g.slots|
    ensures HasChar(MasterChange(g, pos).slots, c) <==> HasChar(g.slots, c)
  {
    var h := MasterChange(g, pos);
    if i :| 0 <= i < |g.slots| && Occupied(g.slots[i]) && g.slots[i].char_ == c {
      assert Occupied(h.slots[Swapped(pos, i)]) && h.slots[Swapped(pos, i)].char_ == c;
    }
    if i :| 0 <= i < |h.slots| && Occupied(h.slots[i]) && h.slots[i].char_ == c {
      assert Occupied(g.slots[Swapped(pos, i)]) && g.slots[Swapped(pos, i)].char_ == c;
    }
  }

  /** A save writes rows of members only. */
  lemma SavedStrays(w: World, f: Fails, c: int)
    requires w.g.max <= |w.g.slots| && !HasChar(w.g.slots, c)
    ensures (w.g.id, c) in SaveRows(w.g, w.rows, f, w.g.max) <==> (w.g.id, c) in w.rows
  {
    forall i | 0 <= i < w.g.max && Wants(w.g.slots[i]) ensures (w.g.id, w.g.slots[i].char_) != (w.g.id, c) {
      assert Occupied(w.g.slots[i]);
    }
    OtherRowsStay(w.g, w.rows, f, w.g.max, (w.g.id, c));
  }

  /** One event makes a row a stray exactly when it leaves it behind, and mends it exactly
      when the character joins. */
  lemma StrayStep(w: World, e: Event, c: int)
    requires Inv(w.g, w.rows) && Possible(w, e)
    ensures Stray(Next(w, e), c) <==> LeavesRow(w, e, c) || (Stray(w, c) && !Rejoins(w, e, c))
  {
    match e
    case Joined(account, char_, data) => JoinedHas(w.g, account, char_, data, c);
    case LeftGuild(account, char_, gone) => LeftStrays(w, account, char_, gone, c);
    case NewMaster(name, len) =>
      var pos := FindName(w.g.slots, name, len, w.g.max, 0);
      if pos < w.g.max { MasterChangeHas(w.g, pos, c); }
    case Saved(f, otherOk) =>
      SamePeopleHave(w.g, Save(w.g, f, otherOk), c);
      if !HasChar(w.g.slots, c) { SavedStrays(w, f, c); }
    case GotInfoShort(account, char_, online, lv, class_) =>
      SamePeopleHave(w.g, InfoShort(w.g, account, char_, online, lv, class_), c);
    case GotInfo(account, char_, info) => SamePeopleHave(w.g, InfoChange(w.g, account, char_, info), c);
    case CameOnline(char_) => SamePeopleHave(w.g, CharOnline(w.g, char_), c);
    case WentOffline(char_) => SamePeopleHave(w.g, CharOffline(w.g, char_), c);
    case Resized(_) =>
  }

  lemma LeftStrays(w: World, account: int, char_: int, gone: bool, c: int)
    requires Inv(w.g, w.rows) && account != 0
    ensures var e := LeftGuild(account, char_, gone); Stray(Next(w, e), c) <==> LeavesRow(w, e, c) || Stray(w, c)
  {
    LeftHas(w.g, account, char_, c);
    LeftMemberHas(w.g, account, char_);
  }

  lemma LeftMemberHas(g: Guild, account: int, char_: int)
    requires g.max <= |g.slots| && account != 0
    ensures FindMember(g.slots, account, char_, g.max, 0) < g.max ==> HasChar(g.slots, char_)
  {
    var i := FindMember(g.slots, account, char_, g.max, 0);
    assert i < g.max ==> Occupied(g.slots[i]) && g.slots[i].char_ == char_;
  }

  /** From one state to another the character does not join. */
  ghost predicate StaysOut(ws: seq<World>, es: seq<Event>, from: nat, to: nat, c: int)
    requires IsRun(ws, es) && to <= |es|
  {
    forall k :: from <= k < to ==> !Rejoins(ws[k], es[k], c)
  }

  /** It left its row behind, or had done so before, and has not joined since. */
  ghost predicate LeftBehind(ws: seq<World>, es: seq<Event>, n: nat, c: int)
    requires IsRun(ws, es) && n <= |es|
  {
    || (Stray(ws[0], c) && StaysOut(ws, es, 0, n, c))
    || exists k :: 0 <= k < n && LeavesRow(ws[k], es[k], c) && StaysOut(ws, es, k + 1, n, c)
  }

  lemma LeftBehindStep(ws: seq<World>, es: seq<Event>, n: nat, c: int)
    requires IsRun(ws, es) && n < |es|
    ensures LeftBehind(ws, es, n + 1, c) <==>
      LeavesRow(ws[n], es[n], c) || (LeftBehind(ws, es, n, c) && !Rejoins(ws[n], es[n], c))
  {
    assert StaysOut(ws, es, n + 1, n + 1, c);
    forall from: nat | from <= n
      ensures StaysOut(ws, es, from, n + 1, c) <==> StaysOut(ws, es, from, n, c) && !Rejoins(ws[n], es[n], c)
    {
    }
  }

  /** In every run the strays are exactly the rows left behind that no rejoining mended. */
  lemma {:induction false} StrayIsHistory(ws: seq<World>, es: seq<Event>, n: nat, c: int)
    requires IsRun(ws, es) && n <= |es| && Inv(ws[0].g, ws[0].rows)
    ensures Stray(ws[n], c) <==> LeftBehind(ws, es, n, c)
    decreases n
  {
    if n == 0 {
      assert StaysOut(ws, es, 0, 0, c);
    } else {
      StrayIsHistory(ws, es, n - 1, c);
      RunKeepsInv(ws, es, n - 1);
      StrayStep(ws[n - 1], es[n - 1], c);
      LeftBehindStep(ws, es, n - 1, c);
    }
  }

  /** The guild has rows of members only. */
  ghost predicate NoStrays(w: World) { forall c :: (w.g.id, c) in w.rows ==> HasChar(w.g.slots, c) }

  /** After a save that reports success every member in a place that counts is equal to its
      row, and the guild has no other rows iff none was left behind in the run before. */
  lemma SuccessIsExact(ws: seq<World>, es: seq<Event>, n: nat)
    requires IsRun(ws, es) && n < |es| && Inv(ws[0].g, ws[0].rows)
    requires es[n].Saved? && SaveOk(ws[n].g, es[n].fails, ws[n].g.max)
    ensures var w := ws[n + 1];
      forall i :: 0 <= i < w.g.max && Occupied(w.g.slots[i]) ==>
        w.g.slots[i].mark.Unmodified? && InStep(w.g.id, w.g.slots[i], w.rows)
    ensures NoStrays(ws[n + 1]) <==> forall c :: !LeftBehind(ws, es, n, c)
  {
    RunKeepsInv(ws, es, n);
    SuccessMeansSaved(ws[n].g, ws[n].rows, es[n].fails, es[n].otherOk);
    forall c ensures Stray(ws[n + 1], c) <==> LeftBehind(ws, es, n, c) {
      StrayIsHistory(ws, es, n, c);
      StrayStep(ws[n], es[n], c);
    }
    if NoStrays(ws[n + 1]) {
      forall c ensures !LeftBehind(ws, es, n, c) {
        assert !Stray(ws[n + 1], c);
      }
    } else {
      var c :| (ws[n + 1].g.id, c) in ws[n + 1].rows && !HasChar(ws[n + 1].g.slots, c);
      assert Stray(ws[n + 1], c);
      assert LeftBehind(ws, es, n, c);
    }
  }

  /** The only member of a guild, out of its slots but not out of the table. */
  lemma RowLeftBehind()
    ensures var slots := seq(MAX_GUILD, _ => EMPTY)[0 := Slot(1, 5, NO_DATA, Unmodified)];
      var w := World(Guild(9, slots, 4, false, false), map[(9, 5) := Row(1, NO_DATA)]);
      Inv(w.g, w.rows) && !Stray(w, 5) && Stray(Next(w, LeftGuild(1, 5, false)), 5)
  {
    var slots := seq(MAX_GUILD, _ => EMPTY)[0 := Slot(1, 5, NO_DATA, Unmodified)];
    var w := World(Guild(9, slots, 4, false, false), map[(9, 5) := Row(1, NO_DATA)]);
    assert Occupied(slots[0]) && slots[0].char_ == 5 && Is(slots[0], 1, 5);
    StrayStep(w, LeftGuild(1, 5, false), 5);
  }

  // ------------------------------------------------------------------------- loading

  /** A position beyond the last is brought down to it. */
  function Clamped(d: Data): Data {
    if d.position >= MAX_GUILDPOSITION then d.(position := MAX_GUILDPOSITION - 1) else d
  }

  /** The member part of inter_guild_fromsql: the rows in the order of the SELECT. */
  function Load(id: int, loaded: seq<(int, Row)>, max: nat): Guild {
    Guild(id, seq(MAX_GUILD, i requires 0 <= i < MAX_GUILD =>
      if i < |loaded| && i < max then Slot(loaded[i].1.account, loaded[i].0, Clamped(loaded[i].1.data), Unmodified)
      else EMPTY),
      max, false, true)
  }

  /** What the SELECT returned: rows of the guild as they are, none twice. */
  ghost predicate IsFetch(id: int, loaded: seq<(int, Row)>, rows: Rows) {
    && (forall k :: 0 <= k < |loaded| ==> (id, loaded[k].0) in rows && rows[(id, loaded[k].0)] == loaded[k].1)
    && (forall k, l :: 0 <= k < l < |loaded| ==> loaded[k].0 != loaded[l].0)
  }

  predicate PositionFits(r: Row) { r.account != 0 ==> r.data.position < MAX_GUILDPOSITION }

  /** Loading starts in step iff no position had to be brought down: such a member differs
      from its row without being marked. */
  lemma LoadIsInStep(id: int, loaded: seq<(int, Row)>, max: nat, rows: Rows)
    requires max <= MAX_GUILD && IsFetch(id, loaded, rows)
    ensures Inv(Load(id, loaded, max), rows) <==>
      forall k :: 0 <= k < |loaded| && k < max ==> PositionFits(loaded[k].1)
  {
    var g := Load(id, loaded, max);
    forall k | 0 <= k < |loaded| && k < max && loaded[k].1.account != 0
      ensures InStep(id, g.slots[k], rows) <==> PositionFits(loaded[k].1)
    {
      assert g.slots[k].data == Clamped(loaded[k].1.data);
    }
    if forall k :: 0 <= k < |loaded| && k < max ==> PositionFits(loaded[k].1) {
      assert Inv(g, rows);
    } else {
      var k :| 0 <= k < |loaded| && k < max && !PositionFits(loaded[k].1);
      assert Occupied(g.slots[k]) && g.slots[k].mark.Unmodified?;
    }
  }

  /** A member saved with position 25, of a guild for four. */
  lemma LoadedOutOfStep()
    ensures var row := Row(1, NO_DATA.(position := 25)); var rows: Rows := map[(9, 5) := row];
      var g := Load(9, [(5, row)], 4);
      g.slots[0] == Slot(1, 5, NO_DATA.(position := 19), Unmodified) && !Inv(g, rows)
  {
    var row := Row(1, NO_DATA.(position := 25));
    var rows: Rows := map[(9, 5) := row];
    LoadIsInStep(9, [(5, row)], 4, rows);
    assert !PositionFits([(5, row)][0].1);
  }

  // -------------------------------------------------------- is the mark ever looked at

  /** A marked member is one that the saver will look at. */
  ghost predicate Noted(g: Guild) {
    g.flagged ||
    forall i :: 0 <= i < g.max && i < |g.slots| && Occupied(g.slots[i]) ==> g.slots[i].mark.Unmodified?
  }

  /** The changes that come from the map-servers set GS_MEMBER, and a save that clears it
      has cleared every mark. */
  lemma NotedIsKept(w: World, e: Event)
    requires Inv(w.g, w.rows) && Possible(w, e) && Noted(w.g)
    requires !e.CameOnline? && !e.WentOffline? && !e.Resized?
    ensures Noted(Next(w, e).g)
  {
  }

  /** Coming online and going offline mark the member without setting GS_MEMBER. */
  lemma OnlineIsNotNoted(g: Guild, rows: Rows, char_: int)
    requires Inv(g, rows) && Noted(g)
    ensures var i := FindChar(g.slots, char_, g.max, 0);
      Noted(CharOnline(g, char_)) <==> g.flagged || i == g.max || !Occupied(g.slots[i])
  {
    var i := FindChar(g.slots, char_, g.max, 0);
    if i < g.max {
      assert CharOnline(g, char_).slots[i].mark.Modified?;
    }
  }

  lemma OfflineIsNotNoted(g: Guild, rows: Rows, char_: int)
    requires Inv(g, rows) && Noted(g)
    ensures Noted(CharOffline(g, char_)) <==>
      g.flagged || forall i :: 0 <= i < g.max && g.slots[i].char_ == char_ ==> !Occupied(g.slots[i])
  {
    var h := CharOffline(g, char_);
    if i :| 0 <= i < g.max && g.slots[i].char_ == char_ && Occupied(g.slots[i]) {
      assert h.slots[i].mark.Modified?;
    }
  }
}
