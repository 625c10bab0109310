/** Saving a log by comparing it with the rows that are there: the algorithm that the
    quest log and the achievement log share. Entries have an id, a part that a save
    updates (live) and a part that only an insertion writes (fixed). */
module DiffSave {
  datatype Entry<M, F> = Entry(id: int, live: M, fixed: F)

  datatype Val<M, F> = Val(live: M, fixed: F)

  /** The rows by character and id, the number of writes tried, and whether all of the
      present save succeeded. fails, below, are the numbers of the writes that fail. */
  datatype Db<M, F> = Db(rows: map<(int, int), Val<M, F>>, tried: nat, ok: bool)

  /** UPDATE: of a row that is not there it succeeds and changes nothing. */
  function Update<M, F>(db: Db<M, F>, fails: set<nat>, c: int, e: Entry<M, F>): Db<M, F> {
    if db.tried in fails then Db(db.rows, db.tried + 1, false)
    else if (c, e.id) in db.rows
    then Db(db.rows[(c, e.id) := Val(e.live, db.rows[(c, e.id)].fixed)], db.tried + 1, db.ok)
    else Db(db.rows, db.tried + 1, db.ok)
  }

  /** INSERT: (char_id, id) is the primary key. */
  function Add<M, F>(db: Db<M, F>, fails: set<nat>, c: int, e: Entry<M, F>): Db<M, F> {
    if db.tried in fails || (c, e.id) in db.rows then Db(db.rows, db.tried + 1, false)
    else Db(db.rows[(c, e.id) := Val(e.live, e.fixed)], db.tried + 1, db.ok)
  }

  function Delete<M, F>(db: Db<M, F>, fails: set<nat>, c: int, id: int): Db<M, F> {
    if db.tried in fails then Db(db.rows, db.tried + 1, false)
    else Db(db.rows - {(c, id)}, db.tried + 1, db.ok)
  }

  /** ARR_FIND of an id; |old| if there is none. */
  function Find<M, F>(log: seq<Entry<M, F>>, id: int): (j: nat)
    ensures j <= |log| && (j < |log| ==> log[j].id == id)
    ensures forall k :: 0 <= k < j ==> log[k].id != id
    decreases |log|
  {
    if log == [] || log[0].id == id then 0 else 1 + Find(log[1..], id)
  }

  /** The database and the old rows not matched so far. */
  datatype Work<M, F> = Work(db: Db<M, F>, rest: seq<Entry<M, F>>)

  /** The log without the entry with the id, if there is one. */
  function Drop<M, F>(log: seq<Entry<M, F>>, id: int): seq<Entry<M, F>> {
    var j := Find(log, id);
    if j < |log| then log[..j] + log[j + 1..] else log
  }

  /** The query for one entry that was sent: an update if something live differs. */
  function Write<M(==), F>(w: Work<M, F>, fails: set<nat>, c: int, e: Entry<M, F>): Db<M, F> {
    var j := Find(w.rest, e.id);
    if j == |w.rest| then Add(w.db, fails, c, e)
    else if e.live != w.rest[j].live then Update(w.db, fails, c, e)
    else w.db
  }

  function SaveOne<M(==), F>(w: Work<M, F>, fails: set<nat>, c: int, e: Entry<M, F>): Work<M, F> {
    Work(Write(w, fails, c, e), Drop(w.rest, e.id))
  }

  function SaveSent<M(==), F>(w: Work<M, F>, fails: set<nat>, c: int, sent: seq<Entry<M, F>>): Work<M, F>
    decreases |sent|
  {
    if sent == [] then w
    else SaveOne(SaveSent(w, fails, c, sent[..|sent| - 1]), fails, c, sent[|sent| - 1])
  }

  function DeleteRest<M, F>(db: Db<M, F>, fails: set<nat>, c: int, rest: seq<Entry<M, F>>): Db<M, F>
    decreases |rest|
  {
    if rest == [] then db
    else Delete(DeleteRest(db, fails, c, rest[..|rest| - 1]), fails, c, rest[|rest| - 1].id)
  }

  /** The whole save; fetched is what the SELECT returned. */
  function Save<M(==), F>(db: Db<M, F>, fails: set<nat>, c: int, sent: seq<Entry<M, F>>,
                          fetched: seq<Entry<M, F>>): Db<M, F> {
    var w := SaveSent(Work(db.(ok := true), fetched), fails, c, sent);
    DeleteRest(w.db, fails, c, w.rest)
  }

  // ------------------------------------------------------------------ what is known

  ghost predicate DistinctIds<M, F>(log: seq<Entry<M, F>>) {
    forall i, j :: 0 <= i < j < |log| ==> log[i].id != log[j].id
  }

  predicate HasId<M, F>(log: seq<Entry<M, F>>, id: int) { Find(log, id) < |log| }

  /** What a SELECT returned: rows of the character as they are, none twice. It may miss
      some, by its LIMIT or because it failed and returned none. */
  ghost predicate IsFetch<M, F>(rows: map<(int, int), Val<M, F>>, c: int, fetched: seq<Entry<M, F>>) {
    && DistinctIds(fetched)
    && forall i :: 0 <= i < |fetched| ==>
         (c, fetched[i].id) in rows && rows[(c, fetched[i].id)] == Val(fetched[i].live, fetched[i].fixed)
  }

  /** No row of the character was missed. */
  ghost predicate Whole<M, F>(rows: map<(int, int), Val<M, F>>, c: int, fetched: seq<Entry<M, F>>) {
    forall id :: (c, id) in rows ==> HasId(fetched, id)
  }

  // --------------------------------------------------- the shrinking list of old rows

  /** The fetched rows whose ids were not sent. */
  function Unsent<M, F>(fetched: seq<Entry<M, F>>, sent: seq<Entry<M, F>>): seq<Entry<M, F>>
    decreases |fetched|
  {
    if fetched == [] then []
    else (if Find(sent, fetched[0].id) < |sent| then [] else [fetched[0]]) + Unsent(fetched[1..], sent)
  }

  lemma UnsentCons<M, F>(f: Entry<M, F>, tail: seq<Entry<M, F>>, sent: seq<Entry<M, F>>)
    ensures Unsent([f] + tail, sent) == if HasId(sent, f.id) then Unsent(tail, sent) else [f] + Unsent(tail, sent)
  {
    assert ([f] + tail)[1..] == tail;
  }

  lemma FindCons<M, F>(f: Entry<M, F>, tail: seq<Entry<M, F>>, id: int)
    ensures Find([f] + tail, id) == if f.id == id then 0 else 1 + Find(tail, id)
  {
    assert ([f] + tail)[1..] == tail;
  }

  /** Of an id that was sent no old row is left; of any other the row that was fetched. */
  ghost predicate LeftOf<M, F>(left: seq<Entry<M, F>>, fetched: seq<Entry<M, F>>, sent: seq<Entry<M, F>>, id: int) {
    && (HasId(left, id) <==> HasId(fetched, id) && !HasId(sent, id))
    && (HasId(left, id) ==> left[Find(left, id)] == fetched[Find(fetched, id)])
  }

  lemma LeftOfMore<M, F>(left: seq<Entry<M, F>>, f: Entry<M, F>, tail: seq<Entry<M, F>>, sent: seq<Entry<M, F>>,
                         id: int)
    requires LeftOf(left, tail, sent, id)
    ensures LeftOf(if HasId(sent, f.id) then left else [f] + left, [f] + tail, sent, id)
  {
    FindCons(f, tail, id);
    FindCons(f, left, id);
  }

  lemma {:induction false} UnsentFinds<M, F>(fetched: seq<Entry<M, F>>, sent: seq<Entry<M, F>>, id: int)
    ensures LeftOf(Unsent(fetched, sent), fetched, sent, id)
    decreases |fetched|
  {
    if fetched != [] {
      var f, tail := fetched[0], fetched[1..];
      UnsentFinds(tail, sent, id);
      UnsentCons(f, tail, sent);
      LeftOfMore(Unsent(tail, sent), f, tail, sent, id);
      assert fetched == [f] + tail;
    }
  }

  lemma HasIdGrows<M, F>(sent: seq<Entry<M, F>>, e: Entry<M, F>, id: int)
    ensures HasId(sent + [e], id) <==> HasId(sent, id) || id == e.id
  {
    var more := sent + [e];
    assert more[|sent|] == e && forall i :: 0 <= i < |sent| ==> more[i] == sent[i];
  }

  lemma DropCons<M, F>(f: Entry<M, F>, tail: seq<Entry<M, F>>, id: int)
    ensures Drop([f] + tail, id) == if f.id == id then tail else [f] + Drop(tail, id)
  {
    var log, j := [f] + tail, Find(tail, id);
    FindCons(f, tail, id);
    assert log[1..] == tail;
    if f.id != id && j < |tail| {
      assert log[..j + 1] == [f] + tail[..j] && log[j + 2..] == tail[j + 1..];
    }
  }

  lemma DropNone<M, F>(log: seq<Entry<M, F>>, id: int)
    requires !HasId(log, id)
    ensures Drop(log, id) == log
  {
  }

  /** One more id sent, seen by the first fetched row. */
  lemma UnsentGrowsHere<M, F>(f: Entry<M, F>, tail: seq<Entry<M, F>>, sent: seq<Entry<M, F>>, e: Entry<M, F>)
    requires !HasId(tail, f.id) && Unsent(tail, sent + [e]) == Drop(Unsent(tail, sent), e.id)
    ensures Unsent([f] + tail, sent + [e]) == Drop(Unsent([f] + tail, sent), e.id)
  {
    UnsentCons(f, tail, sent);
    UnsentCons(f, tail, sent + [e]);
    HasIdGrows(sent, e, f.id);
    DropCons(f, Unsent(tail, sent), e.id);
    if f.id == e.id {
      UnsentFinds(tail, sent, e.id);
      DropNone(Unsent(tail, sent), e.id);
    }
  }

  lemma {:induction false} UnsentGrows<M, F>(fetched: seq<Entry<M, F>>, sent: seq<Entry<M, F>>, e: Entry<M, F>)
    requires DistinctIds(fetched)
    ensures Unsent(fetched, sent + [e]) == Drop(Unsent(fetched, sent), e.id)
    decreases |fetched|
  {
    if fetched != [] {
      UnsentGrows(fetched[1..], sent, e);
      UnsentGrowsHere(fetched[0], fetched[1..], sent, e);
      assert fetched == [fetched[0]] + fetched[1..];
    }
  }

  /** Shrinking the list of old rows in place never skips a row and never matches one
      twice: what is left are the fetched rows that were not sent, in their order. */
  lemma {:induction false} RestIsUnsent<M, F>(w: Work<M, F>, fails: set<nat>, c: int, sent: seq<Entry<M, F>>)
    requires DistinctIds(w.rest)
    ensures SaveSent(w, fails, c, sent).rest == Unsent(w.rest, sent)
    decreases |sent|
  {
    if sent == [] {
      UnsentOfNone(w.rest);
    } else {
      var n := |sent| - 1;
      RestIsUnsent(w, fails, c, sent[..n]);
      UnsentGrows(w.rest, sent[..n], sent[n]);
      assert sent == sent[..n] + [sent[n]];
    }
  }

  lemma {:induction false} UnsentOfNone<M, F>(fetched: seq<Entry<M, F>>)
    ensures Unsent(fetched, []) == fetched
    decreases |fetched|
  {
    if fetched != [] {
      UnsentOfNone(fetched[1..]);
    }
  }

  // ---------------------------------------------------------------- a successful save

  /** What a row becomes. */
  ghost predicate RowSaved<M, F>(before: map<(int, int), Val<M, F>>, after: map<(int, int), Val<M, F>>, c: int,
                                 e: Entry<M, F>) {
    && (c, e.id) in after
    && after[(c, e.id)] == Val(e.live, if (c, e.id) in before then before[(c, e.id)].fixed else e.fixed)
  }

  ghost predicate SameRow<M, F>(before: map<(int, int), Val<M, F>>, after: map<(int, int), Val<M, F>>,
                                key: (int, int)) {
    (key in after <==> key in before) && (key in before ==> after[key] == before[key])
  }

  /** A write touches no other row, and a success means there was no failure before. */
  lemma WriteElsewhere<M, F>(v: Work<M, F>, fails: set<nat>, c: int, e: Entry<M, F>, key: (int, int))
    ensures Write(v, fails, c, e).ok ==> v.db.ok
    ensures key != (c, e.id) ==> SameRow(v.db.rows, Write(v, fails, c, e).rows, key)
  {
  }

  lemma HasLast<M, F>(sent: seq<Entry<M, F>>, id: int)
    requires sent != []
    ensures HasId(sent, id) <==> HasId(sent[..|sent| - 1], id) || id == sent[|sent| - 1].id
  {
    assert sent == sent[..|sent| - 1] + [sent[|sent| - 1]];
    HasIdGrows(sent[..|sent| - 1], sent[|sent| - 1], id);
  }

  /** Rows that are not sent are not touched by the first pass. */
  lemma {:induction false} UnsentRowsStay<M, F>(w: Work<M, F>, fails: set<nat>, c: int, sent: seq<Entry<M, F>>,
                                                key: (int, int))
    requires key.0 == c ==> !HasId(sent, key.1)
    ensures SameRow(w.db.rows, SaveSent(w, fails, c, sent).db.rows, key)
    decreases |sent|
  {
    if sent != [] {
      var n := |sent| - 1;
      HasLast(sent, key.1);
      UnsentRowsStay(w, fails, c, sent[..n], key);
      WriteElsewhere(SaveSent(w, fails, c, sent[..n]), fails, c, sent[n], key);
    }
  }

  /** A query that succeeds reaches the row, given that the old rows left are true. */
  lemma WriteReaches<M, F>(v: Work<M, F>, fails: set<nat>, c: int, e: Entry<M, F>)
    requires Write(v, fails, c, e).ok
    requires HasId(v.rest, e.id) ==>
      (c, e.id) in v.db.rows && v.db.rows[(c, e.id)].live == v.rest[Find(v.rest, e.id)].live
    ensures RowSaved(v.db.rows, Write(v, fails, c, e).rows, c, e)
    ensures HasId(v.rest, e.id) || (c, e.id) !in v.db.rows
  {
  }

  /** What a successful first pass has done with the id of one entry. */
  ghost predicate Reached<M, F>(w: Work<M, F>, fails: set<nat>, c: int, sent: seq<Entry<M, F>>, e: Entry<M, F>) {
    && RowSaved(w.db.rows, SaveSent(w, fails, c, sent).db.rows, c, e)
    && (HasId(w.rest, e.id) || (c, e.id) !in w.db.rows)
  }

  lemma LastReached<M, F>(w: Work<M, F>, fails: set<nat>, c: int, sent: seq<Entry<M, F>>)
    requires sent != [] && IsFetch(w.db.rows, c, w.rest) && SaveSent(w, fails, c, sent).db.ok
    requires !HasId(sent[..|sent| - 1], sent[|sent| - 1].id)
    ensures Reached(w, fails, c, sent, sent[|sent| - 1])
  {
    var n := |sent| - 1;
    var e := sent[n];
    UnsentRowsStay(w, fails, c, sent[..n], (c, e.id));
    RestIsUnsent(w, fails, c, sent[..n]);
    UnsentFinds(w.rest, sent[..n], e.id);
    WriteReaches(SaveSent(w, fails, c, sent[..n]), fails, c, e);
  }

  /** An id sent a second time is neither among the old rows left nor free. */
  lemma LastIsNew<M, F>(w: Work<M, F>, fails: set<nat>, c: int, sent: seq<Entry<M, F>>)
    requires sent != [] && IsFetch(w.db.rows, c, w.rest) && SaveSent(w, fails, c, sent).db.ok
    requires HasId(sent[..|sent| - 1], sent[|sent| - 1].id) ==>
      (c, sent[|sent| - 1].id) in SaveSent(w, fails, c, sent[..|sent| - 1]).db.rows
    ensures !HasId(sent[..|sent| - 1], sent[|sent| - 1].id)
  {
    var n := |sent| - 1;
    RestIsUnsent(w, fails, c, sent[..n]);
    UnsentFinds(w.rest, sent[..n], sent[n].id);
  }

  /** What was reached stays reached while other ids are written. */
  lemma StaysReached<M, F>(w: Work<M, F>, fails: set<nat>, c: int, sent: seq<Entry<M, F>>, e: Entry<M, F>)
    requires sent != [] && e.id != sent[|sent| - 1].id
    requires Reached(w, fails, c, sent[..|sent| - 1], e)
    ensures Reached(w, fails, c, sent, e)
  {
    var n := |sent| - 1;
    WriteElsewhere(SaveSent(w, fails, c, sent[..n]), fails, c, sent[n], (c, e.id));
  }

  lemma FirstPartSucceeds<M, F>(w: Work<M, F>, fails: set<nat>, c: int, sent: seq<Entry<M, F>>)
    requires sent != [] && SaveSent(w, fails, c, sent).db.ok
    ensures SaveSent(w, fails, c, sent[..|sent| - 1]).db.ok
  {
    var n := |sent| - 1;
    WriteElsewhere(SaveSent(w, fails, c, sent[..n]), fails, c, sent[n], (c, 0));
  }

  lemma NotAmong<M, F>(sent: seq<Entry<M, F>>, k: nat, id: int)
    requires k < |sent| && !HasId(sent, id)
    ensures sent[k].id != id
  {
  }

  /** In a successful first pass every entry sent reaches its row; an entry whose row
      the SELECT missed makes the pass fail, and so does one sent twice. */
  lemma {:induction false} SentReached<M, F>(w: Work<M, F>, fails: set<nat>, c: int, sent: seq<Entry<M, F>>, k: nat)
    requires k < |sent| && IsFetch(w.db.rows, c, w.rest) && SaveSent(w, fails, c, sent).db.ok
    ensures Reached(w, fails, c, sent, sent[k])
    ensures !HasId(sent[..k], sent[k].id)
    decreases |sent|
  {
    var n := |sent| - 1;
    FirstPartSucceeds(w, fails, c, sent);
    if HasId(sent[..n], sent[n].id) {
      SentReached(w, fails, c, sent[..n], Find(sent[..n], sent[n].id));
    }
    LastIsNew(w, fails, c, sent);
    if k < n {
      SentReached(w, fails, c, sent[..n], k);
      assert sent[..n][..k] == sent[..k] && sent[..n][k] == sent[k];
      NotAmong(sent[..n], k, sent[n].id);
      StaysReached(w, fails, c, sent, sent[k]);
    } else {
      LastReached(w, fails, c, sent);
    }
  }

  lemma {:induction false} DeleteRestAt<M, F>(db: Db<M, F>, fails: set<nat>, c: int, rest: seq<Entry<M, F>>,
                                              key: (int, int))
    ensures var after := DeleteRest(db, fails, c, rest);
      && (after.ok ==> db.ok)
      && (key.0 == c && HasId(rest, key.1) ==> after.ok ==> key !in after.rows)
      && (!(key.0 == c && HasId(rest, key.1)) ==> SameRow(db.rows, after.rows, key))
    decreases |rest|
  {
    if rest != [] {
      var n := |rest| - 1;
      DeleteRestAt(db, fails, c, rest[..n], key);
      assert rest == rest[..n] + [rest[n]];
      HasIdGrows(rest[..n], rest[n], key.1);
    }
  }

  lemma PassesSucceed<M, F>(db: Db<M, F>, fails: set<nat>, c: int, sent: seq<Entry<M, F>>, fetched: seq<Entry<M, F>>)
    requires IsFetch(db.rows, c, fetched) && Save(db, fails, c, sent, fetched).ok
    ensures var w := Work(db.(ok := true), fetched); IsFetch(w.db.rows, c, w.rest) && SaveSent(w, fails, c, sent).db.ok
  {
    var v := SaveSent(Work(db.(ok := true), fetched), fails, c, sent);
    DeleteRestAt(v.db, fails, c, v.rest, (c, 0));
  }

  lemma DistinctWhenNew<M, F>(sent: seq<Entry<M, F>>)
    requires forall k :: 0 <= k < |sent| ==> !HasId(sent[..k], sent[k].id)
    ensures DistinctIds(sent)
  {
    forall i, j | 0 <= i < j < |sent| ensures sent[i].id != sent[j].id {
      assert sent[..j][i] == sent[i];
    }
  }

  lemma EntrySaved<M, F>(db: Db<M, F>, fails: set<nat>, c: int, sent: seq<Entry<M, F>>, fetched: seq<Entry<M, F>>,
                         k: nat)
    requires IsFetch(db.rows, c, fetched) && Save(db, fails, c, sent, fetched).ok && k < |sent|
    ensures RowSaved(db.rows, Save(db, fails, c, sent, fetched).rows, c, sent[k])
    ensures HasId(fetched, sent[k].id) || (c, sent[k].id) !in db.rows
    ensures !HasId(sent[..k], sent[k].id)
  {
    var w := Work(db.(ok := true), fetched);
    var v := SaveSent(w, fails, c, sent);
    PassesSucceed(db, fails, c, sent, fetched);
    SentReached(w, fails, c, sent, k);
    RestLacks(w, fails, c, sent, sent[k].id);
    DeleteRestAt(v.db, fails, c, v.rest, (c, sent[k].id));
  }

  lemma UnsentGone<M, F>(db: Db<M, F>, fails: set<nat>, c: int, sent: seq<Entry<M, F>>, fetched: seq<Entry<M, F>>,
                         id: int)
    requires IsFetch(db.rows, c, fetched) && Save(db, fails, c, sent, fetched).ok
    requires HasId(fetched, id) && !HasId(sent, id)
    ensures (c, id) !in Save(db, fails, c, sent, fetched).rows
  {
    var w := Work(db.(ok := true), fetched);
    RestIsUnsent(w, fails, c, sent);
    UnsentFinds(fetched, sent, id);
    DeleteRestAt(SaveSent(w, fails, c, sent).db, fails, c, SaveSent(w, fails, c, sent).rest, (c, id));
  }

  /** When a save is acknowledged as successful: no id was sent twice, every entry sent
      is in its row, with the fixed part of a row that was there preserved, and every
      row fetched but not sent is gone. */
  lemma SuccessMeansSaved<M, F>(db: Db<M, F>, fails: set<nat>, c: int, sent: seq<Entry<M, F>>,
                                fetched: seq<Entry<M, F>>)
    requires IsFetch(db.rows, c, fetched) && Save(db, fails, c, sent, fetched).ok
    ensures DistinctIds(sent)
    ensures forall k :: 0 <= k < |sent| ==> RowSaved(db.rows, Save(db, fails, c, sent, fetched).rows, c, sent[k])
    ensures forall id :: HasId(fetched, id) && !HasId(sent, id) ==> (c, id) !in Save(db, fails, c, sent, fetched).rows
  {
    var after := Save(db, fails, c, sent, fetched).rows;
    forall k | 0 <= k < |sent| ensures RowSaved(db.rows, after, c, sent[k]) && !HasId(sent[..k], sent[k].id) {
      EntrySaved(db, fails, c, sent, fetched, k);
    }
    DistinctWhenNew(sent);
    forall id | HasId(fetched, id) && !HasId(sent, id) ensures (c, id) !in after {
      UnsentGone(db, fails, c, sent, fetched, id);
    }
  }

  lemma RestLacks<M, F>(w: Work<M, F>, fails: set<nat>, c: int, sent: seq<Entry<M, F>>, id: int)
    requires DistinctIds(w.rest) && (HasId(sent, id) || !HasId(w.rest, id))
    ensures !HasId(SaveSent(w, fails, c, sent).rest, id)
  {
    RestIsUnsent(w, fails, c, sent);
    UnsentFinds(w.rest, sent, id);
  }

  /** Whatever fails, a save leaves alone the rows of other characters, and the rows of
      this one that were neither sent nor fetched. */
  lemma OtherRowsStay<M, F>(db: Db<M, F>, fails: set<nat>, c: int, sent: seq<Entry<M, F>>,
                            fetched: seq<Entry<M, F>>, key: (int, int))
    requires DistinctIds(fetched)
    requires key.0 == c ==> !HasId(sent, key.1) && !HasId(fetched, key.1)
    ensures SameRow(db.rows, Save(db, fails, c, sent, fetched).rows, key)
  {
    var w := Work(db.(ok := true), fetched);
    UnsentRowsStay(w, fails, c, sent, key);
    if key.0 == c {
      RestLacks(w, fails, c, sent, key.1);
    }
    DeleteRestAt(SaveSent(w, fails, c, sent).db, fails, c, SaveSent(w, fails, c, sent).rest, key);
  }

  ghost predicate RowsAreSent<M, F>(rows: map<(int, int), Val<M, F>>, c: int, sent: seq<Entry<M, F>>) {
    forall id :: (c, id) in rows <==> HasId(sent, id)
  }

  /** A successful save leaves the character exactly the rows that were sent iff the
      SELECT had returned all of its rows. */
  lemma ExactlyTheSentSet<M, F>(db: Db<M, F>, fails: set<nat>, c: int, sent: seq<Entry<M, F>>,
                                fetched: seq<Entry<M, F>>)
    requires IsFetch(db.rows, c, fetched) && Save(db, fails, c, sent, fetched).ok
    ensures RowsAreSent(Save(db, fails, c, sent, fetched).rows, c, sent) <==> Whole(db.rows, c, fetched)
  {
    var after := Save(db, fails, c, sent, fetched).rows;
    SuccessMeansSaved(db, fails, c, sent, fetched);
    if Whole(db.rows, c, fetched) {
      forall id ensures (c, id) in after <==> HasId(sent, id) {
        if !HasId(sent, id) && !HasId(fetched, id) {
          OtherRowsStay(db, fails, c, sent, fetched, (c, id));
        }
      }
    } else {
      var id :| (c, id) in db.rows && !HasId(fetched, id);
      if HasId(sent, id) {
        MissedRowFails(db, fails, c, sent, fetched, id);
        assert false;
      }
      OtherRowsStay(db, fails, c, sent, fetched, (c, id));
    }
  }

  lemma MissedRowFails<M, F>(db: Db<M, F>, fails: set<nat>, c: int, sent: seq<Entry<M, F>>,
                             fetched: seq<Entry<M, F>>, id: int)
    requires IsFetch(db.rows, c, fetched) && HasId(sent, id) && (c, id) in db.rows && !HasId(fetched, id)
    ensures !Save(db, fails, c, sent, fetched).ok
  {
    if Save(db, fails, c, sent, fetched).ok {
      EntrySaved(db, fails, c, sent, fetched, Find(sent, id));
    }
  }

  function IdsOf<M, F>(rows: map<(int, int), Val<M, F>>, c: int): set<int> {
    set key | key in rows && key.0 == c :: key.1
  }

  ghost function Ids<M, F>(log: seq<Entry<M, F>>): set<int> { set e | e in log :: e.id }

  lemma {:induction false} AsManyIds<M, F>(log: seq<Entry<M, F>>)
    requires DistinctIds(log)
    ensures |Ids(log)| == |log|
    decreases |log|
  {
    if log != [] {
      var n := |log| - 1;
      AsManyIds(log[..n]);
      assert log == log[..n] + [log[n]];
      var before := Ids(log[..n]);
      assert Ids(log) == before + {log[n].id};
    }
  }

  /** A SELECT that works returns every row up to its limit.  One that fails returns
      none, as if its limit were 0. */
  ghost predicate Selected<M, F>(rows: map<(int, int), Val<M, F>>, c: int, fetched: seq<Entry<M, F>>, limit: nat) {
    && IsFetch(rows, c, fetched)
    && |fetched| == if |IdsOf(rows, c)| <= limit then |IdsOf(rows, c)| else limit
  }

  /** It misses none iff the character has no more rows than that. */
  lemma LimitDecides<M, F>(rows: map<(int, int), Val<M, F>>, c: int, fetched: seq<Entry<M, F>>, limit: nat)
    requires Selected(rows, c, fetched, limit)
    ensures Whole(rows, c, fetched) <==> |IdsOf(rows, c)| <= limit
  {
    var ids := Ids(fetched);
    AsManyIds(fetched);
    forall id | id in ids ensures id in IdsOf(rows, c) {
      var i :| 0 <= i < |fetched| && fetched[i].id == id;
      assert (c, id) in rows;
    }
    var missed := IdsOf(rows, c) - ids;
    assert IdsOf(rows, c) == ids + missed;
    if Whole(rows, c, fetched) {
      forall id | id in IdsOf(rows, c) ensures id in ids {
        assert (c, id) in rows && HasId(fetched, id);
        var i :| 0 <= i < |fetched| && fetched[i].id == id;
        assert fetched[i] in fetched;
      }
    } else {
      var id :| (c, id) in rows && !HasId(fetched, id);
      assert (c, id).1 in IdsOf(rows, c);
      assert id in missed;
    }
  }

  // ----------------------------------------------------------------- when it succeeds

  /** Every id sent is that of a fetched row or of no row. */
  ghost predicate Addable<M, F>(rows: map<(int, int), Val<M, F>>, c: int, sent: seq<Entry<M, F>>,
                                fetched: seq<Entry<M, F>>) {
    forall k :: 0 <= k < |sent| ==> HasId(fetched, sent[k].id) || (c, sent[k].id) !in rows
  }

  lemma LastSucceeds<M, F>(w: Work<M, F>, c: int, sent: seq<Entry<M, F>>)
    requires sent != [] && IsFetch(w.db.rows, c, w.rest) && SaveSent(w, {}, c, sent[..|sent| - 1]).db.ok
    requires !HasId(sent[..|sent| - 1], sent[|sent| - 1].id)
    requires HasId(w.rest, sent[|sent| - 1].id) || (c, sent[|sent| - 1].id) !in w.db.rows
    ensures SaveSent(w, {}, c, sent).db.ok
  {
    var n := |sent| - 1;
    UnsentRowsStay(w, {}, c, sent[..n], (c, sent[n].id));
    RestIsUnsent(w, {}, c, sent[..n]);
    UnsentFinds(w.rest, sent[..n], sent[n].id);
  }

  lemma {:induction false} SentSucceeds<M, F>(w: Work<M, F>, c: int, sent: seq<Entry<M, F>>)
    requires IsFetch(w.db.rows, c, w.rest) && w.db.ok
    requires DistinctIds(sent) && Addable(w.db.rows, c, sent, w.rest)
    ensures SaveSent(w, {}, c, sent).db.ok
    decreases |sent|
  {
    if sent != [] {
      SentSucceeds(w, c, sent[..|sent| - 1]);
      LastSucceeds(w, c, sent);
    }
  }

  lemma {:induction false} DeleteSucceeds<M, F>(db: Db<M, F>, c: int, rest: seq<Entry<M, F>>)
    requires db.ok
    ensures DeleteRest(db, {}, c, rest).ok
    decreases |rest|
  {
    if rest != [] {
      DeleteSucceeds(db, c, rest[..|rest| - 1]);
    }
  }

  /** With a database that fails no query, a save is acknowledged iff no id is sent
      twice and no id sent belongs to a row the SELECT missed. */
  lemma WhenItSucceeds<M, F>(db: Db<M, F>, c: int, sent: seq<Entry<M, F>>, fetched: seq<Entry<M, F>>)
    requires IsFetch(db.rows, c, fetched)
    ensures Save(db, {}, c, sent, fetched).ok <==> DistinctIds(sent) && Addable(db.rows, c, sent, fetched)
  {
    var w := Work(db.(ok := true), fetched);
    if Save(db, {}, c, sent, fetched).ok {
      SuccessMeansSaved(db, {}, c, sent, fetched);
      forall k | 0 <= k < |sent| ensures HasId(fetched, sent[k].id) || (c, sent[k].id) !in db.rows {
        EntrySaved(db, {}, c, sent, fetched, k);
      }
    }
    if DistinctIds(sent) && Addable(db.rows, c, sent, fetched) {
      SentSucceeds(w, c, sent);
      DeleteSucceeds(SaveSent(w, {}, c, sent).db, c, SaveSent(w, {}, c, sent).rest);
    }
  }

  // -------------------------------------------------------------- the queries it makes

  /** An entry takes a query if it has no fetched row, or one that differs. */
  predicate Needed<M(==), F>(e: Entry<M, F>, fetched: seq<Entry<M, F>>) {
    !HasId(fetched, e.id) || fetched[Find(fetched, e.id)].live != e.live
  }

  function CountNeeded<M(==), F>(sent: seq<Entry<M, F>>, fetched: seq<Entry<M, F>>): nat
    decreases |sent|
  {
    if sent == [] then 0
    else CountNeeded(sent[..|sent| - 1], fetched) + if Needed(sent[|sent| - 1], fetched) then 1 else 0
  }

  /** None of the queries from one number up to another fails. */
  ghost predicate NoneFails(fails: set<nat>, lo: nat, hi: nat) { forall n :: lo <= n < hi ==> n !in fails }

  lemma WriteMakes<M, F>(v: Work<M, F>, fails: set<nat>, c: int, e: Entry<M, F>)
    requires HasId(v.rest, e.id) || (c, e.id) !in v.db.rows
    ensures var after := Write(v, fails, c, e);
      && after.tried == v.db.tried + (if Needed(e, v.rest) then 1 else 0)
      && (after.ok <==> v.db.ok && NoneFails(fails, v.db.tried, after.tried))
  {
  }

  lemma NoneFailsOn(fails: set<nat>, lo: nat, mid: nat, hi: nat)
    requires lo <= mid <= hi
    ensures NoneFails(fails, lo, hi) <==> NoneFails(fails, lo, mid) && NoneFails(fails, mid, hi)
  {
  }

  /** The last entry finds the row it would have found at first. */
  lemma LastNeeded<M, F>(w: Work<M, F>, fails: set<nat>, c: int, sent: seq<Entry<M, F>>)
    requires sent != [] && IsFetch(w.db.rows, c, w.rest)
    requires DistinctIds(sent) && Addable(w.db.rows, c, sent, w.rest)
    ensures var n := |sent| - 1; var v := SaveSent(w, fails, c, sent[..n]);
      && (HasId(v.rest, sent[n].id) || (c, sent[n].id) !in v.db.rows)
      && (Needed(sent[n], v.rest) <==> Needed(sent[n], w.rest))
  {
    var n := |sent| - 1;
    assert !HasId(sent[..n], sent[n].id);
    UnsentRowsStay(w, fails, c, sent[..n], (c, sent[n].id));
    RestIsUnsent(w, fails, c, sent[..n]);
    UnsentFinds(w.rest, sent[..n], sent[n].id);
  }

  lemma {:induction false} SentMakes<M, F>(w: Work<M, F>, fails: set<nat>, c: int, sent: seq<Entry<M, F>>)
    requires IsFetch(w.db.rows, c, w.rest) && w.db.ok
    requires DistinctIds(sent) && Addable(w.db.rows, c, sent, w.rest)
    ensures var after := SaveSent(w, fails, c, sent).db;
      && after.tried == w.db.tried + CountNeeded(sent, w.rest)
      && (after.ok <==> NoneFails(fails, w.db.tried, after.tried))
    decreases |sent|
  {
    if sent != [] {
      var n := |sent| - 1;
      var v := SaveSent(w, fails, c, sent[..n]);
      SentMakes(w, fails, c, sent[..n]);
      LastNeeded(w, fails, c, sent);
      WriteMakes(v, fails, c, sent[n]);
      NoneFailsOn(fails, w.db.tried, v.db.tried, Write(v, fails, c, sent[n]).tried);
    }
  }

  lemma {:induction false} DeletesMake<M, F>(db: Db<M, F>, fails: set<nat>, c: int, rest: seq<Entry<M, F>>)
    ensures var after := DeleteRest(db, fails, c, rest);
      && after.tried == db.tried + |rest|
      && (after.ok <==> db.ok && NoneFails(fails, db.tried, after.tried))
    decreases |rest|
  {
    if rest != [] {
      var n := |rest| - 1;
      DeletesMake(db, fails, c, rest[..n]);
      NoneFailsOn(fails, db.tried, db.tried + n, db.tried + n + 1);
    }
  }

  /** A save makes one query for each entry that is new or changed and one for each fetched
      row that was not sent; when no id is sent twice, and none belongs to a row that was
      missed, it is acknowledged exactly when all of them succeed. */
  lemma AcknowledgedIffAllSucceed<M, F>(db: Db<M, F>, fails: set<nat>, c: int, sent: seq<Entry<M, F>>,
                                        fetched: seq<Entry<M, F>>)
    requires IsFetch(db.rows, c, fetched) && DistinctIds(sent) && Addable(db.rows, c, sent, fetched)
    ensures var after := Save(db, fails, c, sent, fetched);
      && after.tried == db.tried + CountNeeded(sent, fetched) + |Unsent(fetched, sent)|
      && (after.ok <==> NoneFails(fails, db.tried, after.tried))
  {
    var w := Work(db.(ok := true), fetched);
    var v := SaveSent(w, fails, c, sent);
    SentMakes(w, fails, c, sent);
    RestIsUnsent(w, fails, c, sent);
    DeletesMake(v.db, fails, c, v.rest);
    NoneFailsOn(fails, db.tried, v.db.tried, v.db.tried + |v.rest|);
  }

  // ------------------------------------------------------------------- saving again

  /** Every entry has a fetched row with the same live part. */
  ghost predicate UpToDate<M, F>(sent: seq<Entry<M, F>>, fetched: seq<Entry<M, F>>) {
    forall k :: 0 <= k < |sent| ==> InStep(sent[k], fetched)
  }

  ghost predicate InStep<M, F>(e: Entry<M, F>, fetched: seq<Entry<M, F>>) {
    HasId(fetched, e.id) && fetched[Find(fetched, e.id)].live == e.live
  }

  lemma {:induction false} NothingToWrite<M, F>(w: Work<M, F>, fails: set<nat>, c: int, sent: seq<Entry<M, F>>)
    requires DistinctIds(w.rest) && DistinctIds(sent) && UpToDate(sent, w.rest)
    ensures SaveSent(w, fails, c, sent).db == w.db
    decreases |sent|
  {
    if sent != [] {
      var n := |sent| - 1;
      NothingToWrite(w, fails, c, sent[..n]);
      RestIsUnsent(w, fails, c, sent[..n]);
      assert !HasId(sent[..n], sent[n].id) && InStep(sent[n], w.rest);
      UnsentFinds(w.rest, sent[..n], sent[n].id);
    }
  }

  lemma EntryInStep<M, F>(db: Db<M, F>, fails: set<nat>, c: int, sent: seq<Entry<M, F>>, fetched: seq<Entry<M, F>>,
                          again: seq<Entry<M, F>>, k: nat)
    requires IsFetch(db.rows, c, fetched) && Save(db, fails, c, sent, fetched).ok && k < |sent|
    requires var rows := Save(db, fails, c, sent, fetched).rows; IsFetch(rows, c, again) && Whole(rows, c, again)
    ensures InStep(sent[k], again)
  {
    EntrySaved(db, fails, c, sent, fetched, k);
  }

  /** Saving what is already there issues no query at all. */
  lemma SecondSaveWritesNothing<M, F>(db: Db<M, F>, fails: set<nat>, fails': set<nat>, c: int,
                                      sent: seq<Entry<M, F>>, fetched: seq<Entry<M, F>>, again: seq<Entry<M, F>>)
    requires IsFetch(db.rows, c, fetched) && Whole(db.rows, c, fetched) && Save(db, fails, c, sent, fetched).ok
    requires var rows := Save(db, fails, c, sent, fetched).rows; IsFetch(rows, c, again) && Whole(rows, c, again)
    ensures var after := Save(db, fails, c, sent, fetched); Save(after, fails', c, sent, again) == after
  {
    var after := Save(db, fails, c, sent, fetched);
    SuccessMeansSaved(db, fails, c, sent, fetched);
    ExactlyTheSentSet(db, fails, c, sent, fetched);
    forall k | 0 <= k < |sent| ensures InStep(sent[k], again) {
      EntryInStep(db, fails, c, sent, fetched, again, k);
    }
    var w := Work(after, again);
    NothingToWrite(w, fails', c, sent);
    RestIsUnsent(w, fails', c, sent);
    var rest := Unsent(again, sent);
    if rest != [] {
      UnsentFinds(again, sent, rest[0].id);
      assert false;
    }
  }
}
