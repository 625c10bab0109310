/** What each event makes of a guild's places, and what a member is after a run: what the
    events said about it. */
module GuildTales {
  import opened GuildMembers

  // ------------------------------------------------------------- one event, place by place

  predicate FirstFree(g: Guild, i: nat) {
    i <= g.max <= |g.slots| && (i < g.max ==> g.slots[i].account == 0)
    && forall k :: 0 <= k < i ==> g.slots[k].account != 0
  }

  /** The first place, of those that count, with these ids; or one past the last. */
  predicate PlaceOf(g: Guild, i: nat, account: int, char_: int) {
    && i <= g.max <= |g.slots| && (i < g.max ==> g.slots[i].account == account && g.slots[i].char_ == char_)
    && forall k :: 0 <= k < i ==> !(g.slots[k].account == account && g.slots[k].char_ == char_)
  }

  predicate PlaceOfChar(g: Guild, i: nat, char_: int) {
    && i <= g.max <= |g.slots| && (i < g.max ==> g.slots[i].char_ == char_)
    && forall k :: 0 <= k < i ==> g.slots[k].char_ != char_
  }

  /** A newcomer takes the first free place, with all its data; without one nothing changes. */
  lemma JoinedPlace(w: World, i: nat, account: int, char_: int, data: Data)
    requires |w.g.slots| == MAX_GUILD && FirstFree(w.g, i) && Possible(w, Joined(account, char_, data))
    ensures var t := Next(w, Joined(account, char_, data));
      && t.rows == w.rows
      && if i == w.g.max then t.g == w.g
         else t.g == w.g.(slots := w.g.slots[i := Slot(account, char_, data, New)], flagged := true, remove := false)
  {
    assert i == FindFree(w.g.slots, w.g.max, 0);
  }

  /** A member that leaves gives up its place, and its rows if the DELETE works; nobody
      else's place or row changes. */
  lemma LeftPlace(w: World, i: nat, account: int, char_: int, gone: bool)
    requires |w.g.slots| == MAX_GUILD && PlaceOf(w.g, i, account, char_) && account != 0
    ensures var t := Next(w, LeftGuild(account, char_, gone));
      if i == w.g.max then t == w
      else
        && t.g == w.g.(slots := w.g.slots[i := EMPTY])
        && (forall key :: key in t.rows <==>
              key in w.rows && !(gone && key.1 == char_ && w.rows[key].account == account))
        && (forall key :: key in t.rows ==> t.rows[key] == w.rows[key])
  {
    assert i == FindMember(w.g.slots, account, char_, w.g.max, 0);
  }

  /** Each field is changed by the message about it, and by no other. */
  lemma ToldField(w: World, i: nat, account: int, char_: int, info: Info)
    requires |w.g.slots| == MAX_GUILD && PlaceOf(w.g, i, account, char_)
    ensures var t := Next(w, GotInfo(account, char_, info));
      && t.rows == w.rows
      && if i == w.g.max || (info.Position? && !(0 <= info.pos < MAX_GUILDPOSITION)) then t.g == w.g
         else
           var d := w.g.slots[i].data;
           var said := match info
             case Position(pos) => d.(position := pos)
             case Exp(exp) => d.(exp := exp)
             case Hair(v) => d.(hair := v)
             case HairColor(v) => d.(hairColor := v)
             case Gender(v) => d.(gender := v)
             case Class(v) => d.(class_ := v)
             case Level(v) => d.(lv := v);
           t.g == w.g.(slots := w.g.slots[i := Slot(account, char_, said, Modified)], flagged := true)
  {
    assert i == FindMember(w.g.slots, account, char_, w.g.max, 0);
  }

  /** Nobody in a place that counts has a level. */
  predicate NoLevels(g: Guild)
    requires g.max <= |g.slots|
  {
    forall k :: 0 <= k < g.max ==> g.slots[k].account <= 0 || g.slots[k].data.lv <= 0
  }

  /** The short message changes its three fields wherever the ids are found, and keeps a
      guild with a member of some level. */
  lemma ToldShort(w: World, account: int, char_: int, online: int, lv: int, class_: int)
    requires |w.g.slots| == MAX_GUILD && w.g.max <= MAX_GUILD
    ensures var t := Next(w, GotInfoShort(account, char_, online, lv, class_));
      && t.rows == w.rows && t.g.id == w.g.id && t.g.max == w.g.max && t.g.flagged && |t.g.slots| == MAX_GUILD
      && (forall k :: 0 <= k < MAX_GUILD ==>
            var s := w.g.slots[k];
            t.g.slots[k] == if k < w.g.max && s.account == account && s.char_ == char_
              then Slot(account, char_, s.data.(online := online, lv := lv, class_ := class_), Modified) else s)
      && t.g.remove == (w.g.remove && NoLevels(t.g))
  {
    var t := Next(w, GotInfoShort(account, char_, online, lv, class_));
    var seen := InfoShortSlots(w.g, account, char_, lv);
    assert forall k :: 0 <= k < w.g.max ==>
        seen[k].account == t.g.slots[k].account && seen[k].data.lv == t.g.slots[k].data.lv;
  }

  /** Names are alike when they agree up to the length, both ending there or neither. */
  lemma NamesAlike(a: string, b: string, len: nat)
    ensures Prefix(a, len) == Prefix(b, len) <==>
      if |a| < len || |b| < len then a == b else a[..len] == b[..len]
  {
  }

  /** A change of the capacity changes nothing else. */
  lemma ResizedDoes(w: World, max: nat)
    requires |w.g.slots| == MAX_GUILD && w.g.max <= MAX_GUILD && max <= MAX_GUILD
    ensures Next(w, Resized(max)) == w.(g := w.g.(max := max))
  {
  }

  /** The first member whose name begins alike becomes the master, in the first place with
      position 0, and the one before takes its place and position. */
  lemma MasterPlaces(w: World, i: nat, name: string, len: nat)
    requires |w.g.slots| == MAX_GUILD && w.g.max <= MAX_GUILD && i <= w.g.max
    requires i < w.g.max ==> Prefix(w.g.slots[i].data.name, len) == Prefix(name, len)
    requires forall k :: 0 <= k < i ==> Prefix(w.g.slots[k].data.name, len) != Prefix(name, len)
    ensures var t := Next(w, NewMaster(name, len));
      && t.rows == w.rows
      && if len > NAME_LENGTH || i == w.g.max then t.g == w.g
         else
           && t.g == w.g.(slots := t.g.slots, flagged := true) && |t.g.slots| == MAX_GUILD
           && t.g.slots[0] == w.g.slots[i].(data := w.g.slots[i].data.(position := 0), mark := Modified)
           && (i > 0 ==> var was := w.g.slots[0];
                t.g.slots[i] == was.(data := was.data.(position := w.g.slots[i].data.position), mark := Modified))
           && forall k :: 0 < k < MAX_GUILD && k != i ==> t.g.slots[k] == w.g.slots[k]
  {
    assert i == FindName(w.g.slots, name, len, w.g.max, 0);
  }

  /** Coming online marks the first place of the character; going offline all of them, and
      lets go of a guild with nobody online. */
  lemma OnlinePlaces(w: World, i: nat, char_: int)
    requires |w.g.slots| == MAX_GUILD && PlaceOfChar(w.g, i, char_)
    ensures var t := Next(w, CameOnline(char_));
      && t.rows == w.rows
      && t.g == w.g.(remove := false, slots := if i == w.g.max then w.g.slots
           else w.g.slots[i := w.g.slots[i].(data := w.g.slots[i].data.(online := 1), mark := Modified)])
  {
    assert i == FindChar(w.g.slots, char_, w.g.max, 0);
  }

  lemma OfflinePlaces(w: World, char_: int)
    requires |w.g.slots| == MAX_GUILD && w.g.max <= MAX_GUILD
    ensures var t := Next(w, WentOffline(char_));
      && t.rows == w.rows && t.g == w.g.(slots := t.g.slots, remove := t.g.remove) && |t.g.slots| == MAX_GUILD
      && (forall k :: 0 <= k < MAX_GUILD ==>
            var s := w.g.slots[k];
            t.g.slots[k] == if k < w.g.max && s.char_ == char_
              then s.(data := s.data.(online := 0), mark := Modified) else s)
      && (t.g.remove <==> w.g.remove || forall k :: 0 <= k < w.g.max ==> t.g.slots[k].data.online == 0)
  {
    var t := Next(w, WentOffline(char_));
    assert t.g.slots == OfflineSlots(w.g, char_, w.g.max);
    if k :| 0 <= k < w.g.max && t.g.slots[k].data.online != 0 {
      assert SomebodyOnline(t.g.slots, w.g.max);
    }
  }

  predicate NoMarks(g: Guild)
    requires g.max <= |g.slots|
  {
    forall k :: 0 <= k < g.max && g.slots[k].account != 0 ==> g.slots[k].mark.Unmodified?
  }

  /** A save changes no member, and its marks and bit only as queries succeed. */
  lemma SavedPlaces(w: World, f: Fails, otherOk: bool)
    requires |w.g.slots| == MAX_GUILD && w.g.max <= MAX_GUILD
    ensures var t := Next(w, Saved(f, otherOk));
      && t.g == w.g.(slots := t.g.slots, flagged := t.g.flagged) && |t.g.slots| == MAX_GUILD
      && (forall k :: 0 <= k < MAX_GUILD ==>
            var s := w.g.slots[k];
            && t.g.slots[k] == s.(mark := t.g.slots[k].mark)
            && (t.g.slots[k].mark == s.mark || t.g.slots[k].mark.Unmodified?)
            && t.g.slots[k].mark.Unmodified? ==
                 (s.mark.Unmodified?
                  || (k < w.g.max && s.account != 0 && k !in f.rows && (s.mark.New? ==> k !in f.chars))))
      && t.g.flagged == (w.g.flagged && !(otherOk && NoMarks(t.g)))
  {
  }

  /** A place that counts, holds a marked member, and whose REPLACE works. */
  predicate IsWritten(g: Guild, f: Fails, k: int)
    requires g.max <= |g.slots|
  {
    0 <= k < g.max && g.slots[k].account != 0 && !g.slots[k].mark.Unmodified? && k !in f.rows
  }

  /** A save writes exactly the rows of the marked members whose REPLACE works. */
  lemma SavedRows(w: World, f: Fails, otherOk: bool, key: (int, int))
    requires |w.g.slots| == MAX_GUILD && w.g.max <= MAX_GUILD && DistinctChars(w.g.slots)
    ensures var rows := Next(w, Saved(f, otherOk)).rows;
      && (forall k :: IsWritten(w.g, f, k) && key == (w.g.id, w.g.slots[k].char_) ==>
            key in rows && rows[key] == Row(w.g.slots[k].account, w.g.slots[k].data))
      && ((forall k :: IsWritten(w.g, f, k) ==> key != (w.g.id, w.g.slots[k].char_)) ==>
            (key in rows <==> key in w.rows) && (key in rows ==> rows[key] == w.rows[key]))
  {
    var rows := Next(w, Saved(f, otherOk)).rows;
    forall k | IsWritten(w.g, f, k) && key == (w.g.id, w.g.slots[k].char_)
      ensures key in rows && rows[key] == Row(w.g.slots[k].account, w.g.slots[k].data)
    {
      RowIsWritten(w.g, w.rows, f, w.g.max, k);
    }
    if forall k :: IsWritten(w.g, f, k) ==> key != (w.g.id, w.g.slots[k].char_) {
      assert forall i :: 0 <= i < w.g.max && Wants(w.g.slots[i]) && i !in f.rows ==> IsWritten(w.g, f, i);
      OtherRowsStay(w.g, w.rows, f, w.g.max, key);
    }
  }

  // ------------------------------------------------------------------- a member's tale

  /** The character is a member, in a place that counts, and this is what is known of it,
      but for its position. */
  predicate MemberAt(g: Guild, i: nat, account: int, char_: int, d: Data) {
    && i < g.max <= |g.slots| && g.slots[i].account == account && g.slots[i].char_ == char_
    && g.slots[i].data.(position := 0) == d.(position := 0)
  }

  ghost predicate IsMember(g: Guild, account: int, char_: int, d: Data)
  {
    exists i :: MemberAt(g, i, account, char_, d)
  }

  /** What an event says about the member. */
  function Told(d: Data, e: Event, account: int, char_: int): Data {
    match e
    case GotInfoShort(a, c, online, lv, class_) =>
      if a == account && c == char_ then d.(online := online, lv := lv, class_ := class_) else d
    case GotInfo(a, c, info) =>
      if a != account || c != char_ then d
      else (match info
        case Position(_) => d
        case Exp(exp) => d.(exp := exp)
        case Hair(v) => d.(hair := v)
        case HairColor(v) => d.(hairColor := v)
        case Gender(v) => d.(gender := v)
        case Class(v) => d.(class_ := v)
        case Level(v) => d.(lv := v))
    case CameOnline(c) => if c == char_ then d.(online := 1) else d
    case WentOffline(c) => if c == char_ then d.(online := 0) else d
    case _ => d
  }

  /** What the events said, the first of them first. */
  function Tale(d: Data, es: seq<Event>, account: int, char_: int): Data
    decreases |es|
  {
    if es == [] then d else Told(Tale(d, es[..|es| - 1], account, char_), es[|es| - 1], account, char_)
  }

  /** The event does not take the member out of the places that count. */
  predicate Stays(w: World, e: Event, account: int, char_: int) {
    match e
    case LeftGuild(a, c, _) => a != account || c != char_
    case Resized(max) => max >= w.g.max
    case _ => true
  }

  /** A free place has no character. */
  ghost predicate Tidy(g: Guild) {
    forall i :: 0 <= i < |g.slots| && !Occupied(g.slots[i]) ==> g.slots[i].char_ == 0
  }

  lemma TidyStays(w: World, e: Event)
    requires Inv(w.g, w.rows) && Possible(w, e) && Tidy(w.g)
    ensures Tidy(Next(w, e).g)
  {
    if e.NewMaster? {
      var pos := FindName(w.g.slots, e.name, e.len, w.g.max, 0);
      if pos < w.g.max && e.len <= NAME_LENGTH {
        var h := MasterChange(w.g, pos);
        forall i | 0 <= i < |h.slots| && !Occupied(h.slots[i]) ensures h.slots[i].char_ == 0 {
          assert h.slots[i].char_ == w.g.slots[Swapped(pos, i)].char_
              && h.slots[i].account == w.g.slots[Swapped(pos, i)].account;
        }
      }
    }
  }

  /** The place of a member is the only one of its character. */
  lemma OnlyPlace(g: Guild, i: nat, account: int, char_: int, d: Data)
    requires DistinctChars(g.slots) && Tidy(g) && MemberAt(g, i, account, char_, d) && account != 0 && char_ != 0
    ensures forall k :: 0 <= k < |g.slots| && g.slots[k].char_ == char_ ==> k == i
  {
    forall k | 0 <= k < |g.slots| && g.slots[k].char_ == char_ ensures k == i {
      assert Occupied(g.slots[k]) && Occupied(g.slots[i]);
    }
  }

  lemma ToldAt(w: World, e: Event, i: nat, account: int, char_: int, d: Data)
    requires Inv(w.g, w.rows) && Possible(w, e) && Tidy(w.g) && account != 0 && char_ != 0
    requires MemberAt(w.g, i, account, char_, d) && Stays(w, e, account, char_) && !e.NewMaster?
    ensures MemberAt(Next(w, e).g, i, account, char_, Told(d, e, account, char_))
  {
    OnlyPlace(w.g, i, account, char_, d);
  }

  lemma MasterAt(w: World, e: Event, i: nat, account: int, char_: int, d: Data) returns (j: nat)
    requires |w.g.slots| == MAX_GUILD && w.g.max <= MAX_GUILD && e.NewMaster?
    requires MemberAt(w.g, i, account, char_, d)
    ensures MemberAt(Next(w, e).g, j, account, char_, d)
  {
    var pos := FindName(w.g.slots, e.name, e.len, w.g.max, 0);
    j := if e.len <= NAME_LENGTH && pos < w.g.max then Swapped(pos, i) else i;
  }

  /** One event: the member is as it was but for what the event said. */
  lemma ToldStep(w: World, e: Event, account: int, char_: int, d: Data)
    requires Inv(w.g, w.rows) && Possible(w, e) && Tidy(w.g) && account != 0 && char_ != 0
    requires IsMember(w.g, account, char_, d) && Stays(w, e, account, char_)
    ensures IsMember(Next(w, e).g, account, char_, Told(d, e, account, char_))
  {
    var i: nat :| MemberAt(w.g, i, account, char_, d);
    if e.NewMaster? {
      var j := MasterAt(w, e, i, account, char_, d);
    } else {
      ToldAt(w, e, i, account, char_, d);
    }
  }

  /** A member that stays in the guild is, in every state of the run, what the events so far
      said about it, whatever else happened and whichever queries failed. */
  lemma {:induction false} MemberIsItsTale(ws: seq<World>, es: seq<Event>, n: nat, account: int, char_: int, d: Data)
    requires IsRun(ws, es) && n <= |es| && Inv(ws[0].g, ws[0].rows) && Tidy(ws[0].g) && account != 0 && char_ != 0
    requires IsMember(ws[0].g, account, char_, d) && forall k :: 0 <= k < n ==> Stays(ws[k], es[k], account, char_)
    ensures Tidy(ws[n].g) && IsMember(ws[n].g, account, char_, Tale(d, es[..n], account, char_))
    decreases n
  {
    if n > 0 {
      MemberIsItsTale(ws, es, n - 1, account, char_, d);
      RunKeepsInv(ws, es, n - 1);
      TidyStays(ws[n - 1], es[n - 1]);
      ToldStep(ws[n - 1], es[n - 1], account, char_, Tale(d, es[..n - 1], account, char_));
      assert es[..n][..n - 1] == es[..n - 1];
    }
  }

  /** A newcomer that finds room is a member with the data it came with. */
  lemma NewcomerIsMember(w: World, account: int, char_: int, data: Data)
    requires Inv(w.g, w.rows) && Possible(w, Joined(account, char_, data))
    requires exists i :: 0 <= i < w.g.max && w.g.slots[i].account == 0
    ensures IsMember(Next(w, Joined(account, char_, data)).g, account, char_, data)
  {
    var i := FindFree(w.g.slots, w.g.max, 0);
    assert MemberAt(Next(w, Joined(account, char_, data)).g, i, account, char_, data);
  }

  /** And what a successful save writes is that tale. */
  lemma TaleIsSaved(ws: seq<World>, es: seq<Event>, n: nat, account: int, char_: int, d: Data)
    requires IsRun(ws, es) && n < |es| && Inv(ws[0].g, ws[0].rows) && Tidy(ws[0].g) && account != 0 && char_ != 0
    requires IsMember(ws[0].g, account, char_, d) && forall k :: 0 <= k < n ==> Stays(ws[k], es[k], account, char_)
    requires es[n].Saved? && SaveOk(ws[n].g, es[n].fails, ws[n].g.max)
    ensures var key, rows := (ws[n + 1].g.id, char_), ws[n + 1].rows;
      && key in rows && rows[key].account == account
      && rows[key].data.(position := 0) == Tale(d, es[..n], account, char_).(position := 0)
  {
    MemberIsItsTale(ws, es, n, account, char_, d);
    RunKeepsInv(ws, es, n);
    var i: nat :| MemberAt(ws[n].g, i, account, char_, Tale(d, es[..n], account, char_));
    SuccessMeansSaved(ws[n].g, ws[n].rows, es[n].fails, es[n].otherOk);
    assert Occupied(ws[n].g.slots[i]);
  }

  // ----------------------------------------------------------------------- loading

  /** A loaded guild holds its rows in the order of the SELECT, as far as there is room, with
      positions brought down to the last one; it is clean, and not wanted. */
  lemma LoadedPlaces(id: int, loaded: seq<(int, Row)>, max: nat, k: nat)
    requires k < MAX_GUILD
    ensures var g := Load(id, loaded, max);
      && g.id == id && g.max == max && !g.flagged && g.remove && |g.slots| == MAX_GUILD
      && g.slots[k].mark.Unmodified?
      && if k < |loaded| && k < max then
           var (char_, row) := loaded[k];
           && g.slots[k].account == row.account && g.slots[k].char_ == char_
           && g.slots[k].data == row.data.(position := g.slots[k].data.position)
           && g.slots[k].data.position ==
                if row.data.position > MAX_GUILDPOSITION - 1 then MAX_GUILDPOSITION - 1 else row.data.position
         else g.slots[k] == Slot(0, 0, NO_DATA, Unmodified)
  {
  }
}
