/** The save handlers of the quest log and of the achievement log, and the order in
    which a quest log is sent out. */
module LogStore {
  import opened DbMacros
  import opened DiffSave

  const MAX_PC_QUESTS: nat := 500
  const MAX_ACHIEVEMENT: nat := 256

  class Table<M(==), F> {
    var rows: map<(int, int), Val<M, F>>
    var tried: nat              // write queries so far
    const fails: set<nat>       // the numbers of those that fail

    ghost function View(ok: bool): Db<M, F>
      reads this
    {
      Db(rows, tried, ok)
    }

    method Query() returns (done: bool)
      modifies this`tried
      ensures done == (old(tried) !in fails) && tried == old(tried) + 1
    {
      done := tried !in fails;
      tried := tried + 1;
    }

    /** mapif_quest_update. */
    method UpdateRow(c: int, e: Entry<M, F>, ghost ok: bool) returns (done: bool)
      modifies this`rows, this`tried
      ensures View(ok && done) == Update(old(View(ok)), fails, c, e)
    {
      done := Query();
      if done && (c, e.id) in rows {
        rows := rows[(c, e.id) := Val(e.live, rows[(c, e.id)].fixed)];
      }
    }

    /** mapif_quest_add. */
    method AddRow(c: int, e: Entry<M, F>, ghost ok: bool) returns (done: bool)
      modifies this`rows, this`tried
      ensures View(ok && done) == Add(old(View(ok)), fails, c, e)
    {
      done := Query();
      if (c, e.id) in rows {
        done := false;
      } else if done {
        rows := rows[(c, e.id) := Val(e.live, e.fixed)];
      }
    }

    /** mapif_quest_delete. */
    method DeleteRow(c: int, id: int, ghost ok: bool) returns (done: bool)
      modifies this`rows, this`tried
      ensures View(ok && done) == Delete(old(View(ok)), fails, c, id)
    {
      done := Query();
      if done {
        rows := rows - {(c, id)};
      }
    }

    /** ARR_FIND over the old rows. */
    method FindOld(qdOld: array<Entry<M, F>>, oldN: nat, id: int) returns (j: nat)
      requires oldN <= qdOld.Length
      ensures j == Find(qdOld[..oldN], id)
    {
      j := 0;
      assert qdOld[0..oldN] == qdOld[..oldN];
      while j < oldN && qdOld[j].id != id
        invariant j <= oldN && Find(qdOld[..oldN], id) == j + Find(qdOld[j..oldN], id)
      {
        assert qdOld[j..oldN][1..] == qdOld[j + 1..oldN];
        j := j + 1;
      }
    }

    /** Dropping the matched row from the old rows with memmove. */
    method DropOld(qdOld: array<Entry<M, F>>, oldN: nat, j: nat)
      requires j < oldN <= qdOld.Length
      modifies qdOld
      ensures qdOld[..oldN - 1] == old(qdOld[..oldN])[..j] + old(qdOld[..oldN])[j + 1..]
    {
      if j < oldN - 1 {
        CloseUp(j, oldN - 1, qdOld);
      }
    }

    /** One entry of the log that was sent. */
    method SaveEntry(c: int, e: Entry<M, F>, qdOld: array<Entry<M, F>>, oldN: nat, success: bool)
        returns (newN: nat, ok: bool)
      requires oldN <= qdOld.Length
      modifies this`rows, this`tried, qdOld
      ensures newN <= oldN
      ensures Work(View(ok), qdOld[..newN]) == SaveOne(old(Work(View(success), qdOld[..oldN])), fails, c, e)
    {
      var j := FindOld(qdOld, oldN, e.id);
      newN, ok := oldN, success;
      if j < oldN {
        if e.live != qdOld[j].live {
          var done := UpdateRow(c, e, success);
          ok := success && done;
        }
        DropOld(qdOld, oldN, j);
        newN := oldN - 1;
      } else {
        var done := AddRow(c, e, success);
        ok := success && done;
      }
    }

    /** The old rows left over are removed. */
    method DeleteOld(c: int, qdOld: array<Entry<M, F>>, oldN: nat, before: bool) returns (success: bool)
      requires oldN <= qdOld.Length
      modifies this`rows, this`tried
      ensures View(success) == DeleteRest(old(View(before)), fails, c, qdOld[..oldN])
    {
      success := before;
      ghost var first, rest := View(before), qdOld[..oldN];
      assert rest[..0] == [];
      for i := 0 to oldN
        invariant View(success) == DeleteRest(first, fails, c, rest[..i])
      {
        assert rest[..i + 1][..i] == rest[..i];
        var done := DeleteRow(c, qdOld[i].id, success);
        success := success && done;
      }
      assert rest[..oldN] == rest;
    }

    /** mapif_parse_quest_save and mapif_parse_achievement_save: the result is the byte
        of the acknowledgement. */
    method SaveLog(c: int, qdNew: seq<Entry<M, F>>, fetched: seq<Entry<M, F>>) returns (success: bool)
      modifies this`rows, this`tried
      ensures View(success) == Save(old(View(true)), fails, c, qdNew, fetched)
    {
      var qdOld := new Entry<M, F>[|fetched|](i requires 0 <= i < |fetched| => fetched[i]);
      var oldN: nat := |fetched|;
      success := true;
      ghost var first := Work(View(true), fetched);
      assert qdNew[..0] == [] && qdOld[..oldN] == fetched;
      for i := 0 to |qdNew|
        invariant fresh(qdOld) && oldN <= qdOld.Length
        invariant Work(View(success), qdOld[..oldN]) == SaveSent(first, fails, c, qdNew[..i])
      {
        assert qdNew[..i + 1][..i] == qdNew[..i];
        oldN, success := SaveEntry(c, qdNew[i], qdOld, oldN, success);
      }
      assert qdNew[..|qdNew|] == qdNew;
      success := DeleteOld(c, qdOld, oldN, success);
    }
  }

  // ------------------------------------------------------------- the two kinds of log

  /** A quest: its state and counters are live, the time it was taken is fixed. */
  datatype Progress = Progress(state: int, count1: int, count2: int, count3: int)
  type Quest = Entry<Progress, nat>

  const Q_COMPLETE: int := 2

  /** An achievement: everything is live. */
  datatype Feat = Feat(count: int, completed: nat, rewarded: int)
  type Achievement = Entry<Feat, ()>

  /** A quest that was in the table keeps its time; a new one takes the time sent. */
  lemma QuestTimeIsKept(db: Db<Progress, nat>, fails: set<nat>, c: int, sent: seq<Quest>, fetched: seq<Quest>, k: nat)
    requires IsFetch(db.rows, c, fetched) && Save(db, fails, c, sent, fetched).ok && k < |sent|
    ensures var after := Save(db, fails, c, sent, fetched).rows; var key := (c, sent[k].id);
      && key in after && after[key].live == sent[k].live
      && after[key].fixed == if key in db.rows then db.rows[key].fixed else sent[k].fixed
  {
    SuccessMeansSaved(db, fails, c, sent, fetched);
  }

  /** A successful achievement save whose SELECT returned every row leaves the character
      exactly the list sent, field for field. */
  lemma AchievementsAreTheList(db: Db<Feat, ()>, fails: set<nat>, c: int, sent: seq<Achievement>,
                               fetched: seq<Achievement>)
    requires IsFetch(db.rows, c, fetched) && Whole(db.rows, c, fetched) && Save(db, fails, c, sent, fetched).ok
    ensures var after := Save(db, fails, c, sent, fetched).rows;
      && RowsAreSent(after, c, sent)
      && IsFetch(after, c, sent)
  {
    SuccessMeansSaved(db, fails, c, sent, fetched);
    ExactlyTheSentSet(db, fails, c, sent, fetched);
    forall k | 0 <= k < |sent|
      ensures var after := Save(db, fails, c, sent, fetched).rows;
        (c, sent[k].id) in after && after[(c, sent[k].id)] == Val(sent[k].live, sent[k].fixed)
    {
      var after := Save(db, fails, c, sent, fetched).rows;
      assert RowSaved(db.rows, after, c, sent[k]);
      OneUnit(after[(c, sent[k].id)].fixed, sent[k].fixed);
    }
  }

  /** An acknowledged save leaves exactly the quests sent iff the character had no more
      than the SELECT's limit, or none when the SELECT failed. */
  lemma QuestLimit(db: Db<Progress, nat>, fails: set<nat>, c: int, sent: seq<Quest>, fetched: seq<Quest>, works: bool)
    requires Selected(db.rows, c, fetched, if works then MAX_PC_QUESTS else 0)
    requires Save(db, fails, c, sent, fetched).ok
    ensures RowsAreSent(Save(db, fails, c, sent, fetched).rows, c, sent) <==>
      |IdsOf(db.rows, c)| <= if works then MAX_PC_QUESTS else 0
  {
    ExactlyTheSentSet(db, fails, c, sent, fetched);
    LimitDecides(db.rows, c, fetched, if works then MAX_PC_QUESTS else 0);
  }

  lemma AchievementLimit(db: Db<Feat, ()>, fails: set<nat>, c: int, sent: seq<Achievement>,
                         fetched: seq<Achievement>, works: bool)
    requires Selected(db.rows, c, fetched, if works then MAX_ACHIEVEMENT else 0)
    requires Save(db, fails, c, sent, fetched).ok
    ensures RowsAreSent(Save(db, fails, c, sent, fetched).rows, c, sent) <==>
      |IdsOf(db.rows, c)| <= if works then MAX_ACHIEVEMENT else 0
  {
    ExactlyTheSentSet(db, fails, c, sent, fetched);
    LimitDecides(db.rows, c, fetched, if works then MAX_ACHIEVEMENT else 0);
  }

  const ONE_QUEST: Db<Progress, nat> := Db(map[(1, 7) := Val(Progress(1, 0, 0, 0), 0)], 0, true)

  /** A character gives up its one quest while the SELECT fails: the save is acknowledged,
      and the quest is there still. */
  lemma GivenUpQuestStays()
    ensures Selected(ONE_QUEST.rows, 1, [], 0) && !Whole(ONE_QUEST.rows, 1, [])
    ensures Save(ONE_QUEST, {}, 1, [], []) == ONE_QUEST
    ensures !RowsAreSent(ONE_QUEST.rows, 1, [])
  {
    assert (1, 7) in ONE_QUEST.rows && !HasId<Progress, nat>([], 7);
  }

  lemma OneUnit(u: (), v: ())
    ensures u == v
  {
  }

  // --------------------------------------------------------------- sending a quest log

  predicate Complete(q: Quest) { q.live.state == Q_COMPLETE }

  /** The quests that are, or are not, complete, in their order. */
  function Only(log: seq<Quest>, complete: bool): seq<Quest>
    decreases |log|
  {
    if log == [] then []
    else
      var n := |log| - 1;
      if Complete(log[n]) == complete then Only(log[..n], complete) + [log[n]] else Only(log[..n], complete)
  }

  /** Where a quest of the log is put. */
  function Place(log: seq<Quest>, i: nat): nat
    requires i < |log|
  {
    if Complete(log[i]) then |Only(log, false)| + |Only(log[..i], true)| else |Only(log[..i], false)|
  }

  lemma {:induction false} OnlyAt(log: seq<Quest>, complete: bool, i: nat)
    requires i < |log| && Complete(log[i]) == complete
    ensures |Only(log[..i], complete)| < |Only(log, complete)|
    ensures Only(log, complete)[|Only(log[..i], complete)|] == log[i]
    decreases |log|
  {
    var n := |log| - 1;
    if i < n {
      OnlyAt(log[..n], complete, i);
      assert log[..n][..i] == log[..i];
    }
  }

  lemma {:induction false} BothAreAll(log: seq<Quest>)
    ensures |Only(log, false)| + |Only(log, true)| == |log|
    ensures multiset(Only(log, false) + Only(log, true)) == multiset(log)
    decreases |log|
  {
    if log != [] {
      var n := |log| - 1;
      BothAreAll(log[..n]);
      assert log == log[..n] + [log[n]];
    }
  }

  /** The log that is sent holds the same quests, the complete ones after the others and
      each kind in the order of the table. */
  lemma SentLogIsStable(log: seq<Quest>, i: nat, j: nat)
    requires i < j < |log|
    ensures var out := Only(log, false) + Only(log, true);
      && multiset(out) == multiset(log)
      && Place(log, i) < |out| && out[Place(log, i)] == log[i]
      && Place(log, j) < |out| && out[Place(log, j)] == log[j]
      && (Place(log, i) < Place(log, j) <==> log[i].live.state != Q_COMPLETE || log[j].live.state == Q_COMPLETE)
  {
    PlacedAt(log, i);
    PlacedAt(log, j);
    if Complete(log[i]) == Complete(log[j]) {
      OnlyAt(log[..j], Complete(log[i]), i);
      assert log[..j][..i] == log[..i] && log[..j][i] == log[i];
    } else {
      OnlyAt(log, false, if Complete(log[i]) then j else i);
    }
  }

  lemma PlacedAt(log: seq<Quest>, i: nat)
    requires i < |log|
    ensures var out := Only(log, false) + Only(log, true);
      multiset(out) == multiset(log) && Place(log, i) < |out| && out[Place(log, i)] == log[i]
  {
    BothAreAll(log);
    OnlyAt(log, Complete(log[i]), i);
  }

  /** The first loop of mapif_parse_quest_load: what is not complete is put, the places
      of the rest are noted. */
  method PutOthers(log: seq<Quest>, buf: array<Quest>, complete: array<nat>) returns (numComplete: nat)
    requires buf.Length == complete.Length == |log|
    modifies buf, complete
    ensures numComplete == |Only(log, true)| && |Only(log, false)| == |log| - numComplete
    ensures buf[..|log| - numComplete] == Only(log, false)
    ensures forall k :: 0 <= k < numComplete ==> complete[k] < |log| && log[complete[k]] == Only(log, true)[k]
  {
    var n := |log|;
    numComplete := 0;
    for i := 0 to n
      invariant numComplete <= i
      invariant |Only(log[..i], true)| == numComplete && |Only(log[..i], false)| == i - numComplete
      invariant buf[..i - numComplete] == Only(log[..i], false)
      invariant forall k :: 0 <= k < numComplete ==> complete[k] < n && log[complete[k]] == Only(log[..i], true)[k]
    {
      assert log[..i + 1][..i] == log[..i];
      if Complete(log[i]) {
        complete[numComplete] := i;
        numComplete := numComplete + 1;
      } else {
        ghost var done := buf[..i - numComplete];
        buf[i - numComplete] := log[i];
        assert buf[..i + 1 - numComplete] == done + [log[i]];
      }
    }
    assert log[..n] == log;
  }

  /** mapif_parse_quest_load: the packet's quests. */
  method QuestLoad(log: seq<Quest>) returns (buf: array<Quest>)
    ensures fresh(buf) && buf[..] == Only(log, false) + Only(log, true)
  {
    var n := |log|;
    buf := new Quest[n](i requires 0 <= i < n => log[i]);
    var complete := new nat[n](_ => 0);
    var numComplete := PutOthers(log, buf, complete);
    ghost var first := n - numComplete;
    ghost var noted := complete[..];
    assert Only(log, true)[..0] == [];
    for i := n - numComplete to n
      invariant complete[..] == noted
      invariant buf[..i] == Only(log, false) + Only(log, true)[..i - first]
    {
      ghost var done := buf[..i];
      var at := complete[i - n + numComplete];
      assert at == noted[i - first];
      buf[i] := log[at];
      assert buf[..i + 1] == done + [Only(log, true)[i - first]];
    }
  }
}
