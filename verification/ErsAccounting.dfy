/** What the destroy walk and the report count, as functions of the number of
    carved slots and the length of the reuse list. */
module ErsAccounting {
  import opened ErsPool

  /** What an unsigned int that stops at its limit shows of a count. */
  function Saturated(n: nat): (r: nat)
    ensures r <= n && r <= UINT32_MAX && (r == n || r == UINT32_MAX)
  {
    if n > UINT32_MAX then UINT32_MAX else n
  }

  function Monus(a: nat, b: nat): nat { if a < b then 0 else a - b }

  /** Slots carved from num blocks, the last of which has `free` slots left. */
  function CarvedCount(num: nat, free: nat): nat
    requires free < BLOCK_ENTRIES && (num == 0 ==> free == 0)
  {
    num * BLOCK_ENTRIES - free
  }

  datatype Cursor = Cursor(link: map<Ptr, Ptr>, at: Ptr)

  /** One turn of the destroy walk: step on and cut the link just followed. */
  function Cut(c: Cursor): Cursor {
    if c.at == Null then c else Cursor(c.link[c.at := Null], Next(c.link, c.at))
  }

  function CutMany(c: Cursor, n: nat): Cursor {
    if n == 0 then c else Cut(CutMany(c, n - 1))
  }

  lemma {:induction false} CutFirst(c: Cursor, n: nat)
    requires n > 0
    ensures CutMany(c, n) == CutMany(Cut(c), n - 1)
  {
    if n > 1 {
      CutFirst(c, n - 1);
    }
  }

  // ------------------------------------------------------------- any list at all

  /** The distinct nodes met from p on, before NULL or a node met before. */
  ghost function Trace(link: map<Ptr, Ptr>, p: Ptr, seen: set<Ptr>): seq<Ptr>
    decreases link.Keys - seen
  {
    if p == Null || p in seen then []
    else if p !in link then [p]
    else [p] + Trace(link, link[p], seen + {p})
  }

  /** What comes after them. */
  ghost function TraceEnd(link: map<Ptr, Ptr>, p: Ptr, seen: set<Ptr>): Ptr
    decreases link.Keys - seen
  {
    if p == Null || p in seen then p
    else if p !in link then Null
    else TraceEnd(link, link[p], seen + {p})
  }

  ghost function ListOf(link: map<Ptr, Ptr>, p: Ptr): seq<Ptr> { Trace(link, p, {}) }

  ghost function EndOf(link: map<Ptr, Ptr>, p: Ptr): Ptr { TraceEnd(link, p, {}) }

  /** Distinct nodes, then NULL, or a node met before, or a node whose link has been cut. */
  predicate Lasso(link: map<Ptr, Ptr>, p: Ptr, nodes: seq<Ptr>, end: Ptr) {
    && PathTo(link, p, nodes, end) && NoDup(nodes)
    && (end == Null || end in nodes || Next(link, end) == Null)
  }

  lemma {:induction false} TraceIsPath(link: map<Ptr, Ptr>, p: Ptr, seen: set<Ptr>)
    ensures var nodes, end := Trace(link, p, seen), TraceEnd(link, p, seen);
      && PathTo(link, p, nodes, end) && NoDup(nodes)
      && (forall q :: q in nodes ==> q !in seen)
      && (end == Null || end in nodes || end in seen)
    decreases link.Keys - seen
  {
    if p != Null && p !in seen {
      if p in link {
        TraceIsPath(link, link[p], seen + {p});
        var rest := Trace(link, link[p], seen + {p});
        assert ([p] + rest)[1..] == rest;
      } else {
        assert [p][1..] == [];
      }
    }
  }

  /** Every list, whatever was freed, is distinct nodes followed by NULL or by one of them. */
  lemma EveryListIsLasso(link: map<Ptr, Ptr>, p: Ptr)
    ensures Lasso(link, p, ListOf(link, p), EndOf(link, p))
    ensures EndOf(link, p) == Null || EndOf(link, p) in ListOf(link, p)
  {
    TraceIsPath(link, p, {});
  }

  /** How many nodes the destroy walk sees: a cyclic list counts one node twice. */
  function Visits(nodes: seq<Ptr>, end: Ptr): nat {
    |nodes| + if end == Null then 0 else 1
  }

  /** The n-th node from p, links being left alone. */
  function Follow(link: map<Ptr, Ptr>, p: Ptr, n: nat): Ptr {
    if n == 0 then p
    else var q := Follow(link, p, n - 1); if q == Null then Null else Next(link, q)
  }

  /** How long a walk that cuts nothing goes on. */
  datatype Extent = Finite(n: nat) | Endless

  ghost function ExtentOf(link: map<Ptr, Ptr>, p: Ptr): Extent {
    if EndOf(link, p) == Null then Finite(|ListOf(link, p)|) else Endless
  }

  lemma {:induction false} FollowFirst(link: map<Ptr, Ptr>, p: Ptr, n: nat)
    requires n > 0 && p != Null
    ensures Follow(link, p, n) == Follow(link, Next(link, p), n - 1)
  {
    if n > 1 {
      FollowFirst(link, p, n - 1);
    }
  }

  lemma {:induction false} FollowPath(link: map<Ptr, Ptr>, p: Ptr, nodes: seq<Ptr>, end: Ptr, n: nat)
    requires PathTo(link, p, nodes, end) && n <= |nodes|
    ensures Follow(link, p, n) == if n < |nodes| then nodes[n] else end
    ensures n < |nodes| ==> nodes[n] != Null
    decreases |nodes|
  {
    if nodes != [] && n > 0 {
      FollowFirst(link, p, n);
      FollowPath(link, Next(link, p), nodes[1..], end, n - 1);
    }
  }

  lemma {:induction false} NullForGood(link: map<Ptr, Ptr>, p: Ptr, m: nat, n: nat)
    requires m <= n && Follow(link, p, m) == Null
    ensures Follow(link, p, n) == Null
    decreases n
  {
    if m < n {
      NullForGood(link, p, m, n - 1);
    }
  }

  /** A walk that comes back to a node it met never leaves the nodes it met. */
  lemma {:induction false} CycleNeverEnds(link: map<Ptr, Ptr>, p: Ptr, nodes: seq<Ptr>, end: Ptr, n: nat)
      returns (k: nat)
    requires PathTo(link, p, nodes, end) && end in nodes
    ensures k < |nodes| && Follow(link, p, n) == nodes[k] != Null
  {
    if n == 0 {
      k := 0;
    } else {
      k := CycleNeverEnds(link, p, nodes, end, n - 1);
      FollowPath(link, p, nodes, end, k);
      FollowPath(link, p, nodes, end, k + 1);
      if k + 1 < |nodes| {
        k := k + 1;
      } else {
        var m :| 0 <= m < |nodes| && nodes[m] == end;
        k := m;
      }
    }
    FollowPath(link, p, nodes, end, k);
  }

  /** The extent is where the walk first meets NULL. */
  lemma FollowExtent(link: map<Ptr, Ptr>, p: Ptr, n: nat)
    ensures Follow(link, p, n) == Null <==> ExtentOf(link, p).Finite? && n >= ExtentOf(link, p).n
  {
    var nodes, end := ListOf(link, p), EndOf(link, p);
    EveryListIsLasso(link, p);
    if end != Null {
      var k := CycleNeverEnds(link, p, nodes, end, n);
    } else if n < |nodes| {
      FollowPath(link, p, nodes, end, n);
    } else {
      FollowPath(link, p, nodes, end, |nodes|);
      NullForGood(link, p, |nodes|, n);
    }
  }

  lemma ExtentIs(link: map<Ptr, Ptr>, p: Ptr, n: nat)
    requires Follow(link, p, n) == Null && (n > 0 ==> Follow(link, p, n - 1) != Null)
    ensures ExtentOf(link, p) == Finite(n)
  {
    FollowExtent(link, p, n);
    if n > 0 {
      FollowExtent(link, p, n - 1);
    }
  }

  lemma LassoExtent(link: map<Ptr, Ptr>, p: Ptr, nodes: seq<Ptr>, end: Ptr)
    requires Lasso(link, p, nodes, end)
    ensures ExtentOf(link, p) ==
      if end == Null then Finite(|nodes|) else if end in nodes then Endless else Finite(|nodes| + 1)
  {
    var n := |nodes|;
    FollowPath(link, p, nodes, end, n);
    if end == Null {
      if n > 0 {
        FollowPath(link, p, nodes, end, n - 1);
      }
      ExtentIs(link, p, n);
    } else if end in nodes {
      if ExtentOf(link, p).Finite? {
        FollowExtent(link, p, ExtentOf(link, p).n);
        var k := CycleNeverEnds(link, p, nodes, end, ExtentOf(link, p).n);
      }
    } else {
      ExtentIs(link, p, n + 1);
    }
  }

  // ----------------------------------------------------------------- the destroy walk

  lemma InTail(nodes: seq<Ptr>, n: nat, q: Ptr)
    requires 0 < n <= |nodes| && q in nodes[..n] && q != nodes[0]
    ensures q in nodes[1..][..n - 1]
  {
    assert nodes[..n] == [nodes[0]] + nodes[1..][..n - 1];
  }

  /** Ahead of the walk the links are as they were. */
  lemma {:induction false} CutAhead(link: map<Ptr, Ptr>, p: Ptr, nodes: seq<Ptr>, end: Ptr, n: nat)
    requires PathTo(link, p, nodes, end) && NoDup(nodes) && n <= |nodes|
    ensures var c := CutMany(Cursor(link, p), n); PathTo(c.link, c.at, nodes[n..], end)
    decreases n
  {
    if n > 0 {
      CutFirst(Cursor(link, p), n);
      assert p !in nodes[1..];
      PathFrame(link, Next(link, p), nodes[1..], end, p, Null);
      CutAhead(link[p := Null], Next(link, p), nodes[1..], end, n - 1);
      assert nodes[1..][n - 1..] == nodes[n..];
    }
  }

  /** Behind it they are cut. */
  lemma {:induction false} CutBehind(link: map<Ptr, Ptr>, p: Ptr, nodes: seq<Ptr>, end: Ptr, n: nat, q: Ptr)
    requires PathTo(link, p, nodes, end) && NoDup(nodes) && n <= |nodes|
    requires q in nodes[..n] || Next(link, q) == Null
    ensures Next(CutMany(Cursor(link, p), n).link, q) == Null
    decreases n
  {
    if n > 0 {
      CutFirst(Cursor(link, p), n);
      assert p !in nodes[1..];
      PathFrame(link, Next(link, p), nodes[1..], end, p, Null);
      if q in nodes[..n] && q != nodes[0] {
        InTail(nodes, n, q);
      }
      CutBehind(link[p := Null], Next(link, p), nodes[1..], end, n - 1, q);
    }
  }

  lemma InEither(nodes: seq<Ptr>, n: nat, q: Ptr)
    requires n <= |nodes| && q in nodes
    ensures q in nodes[..n] || q in nodes[n..]
  {
    assert nodes == nodes[..n] + nodes[n..];
  }

  /** What is ahead ends early if it leads to a node that was cut. */
  lemma CutLasso(link: map<Ptr, Ptr>, p: Ptr, nodes: seq<Ptr>, end: Ptr, n: nat)
    requires Lasso(link, p, nodes, end) && n <= |nodes|
    ensures var c := CutMany(Cursor(link, p), n);
      && Lasso(c.link, c.at, nodes[n..], end)
      && (end in nodes[..n] || Next(link, end) == Null ==> Next(c.link, end) == Null)
  {
    CutAhead(link, p, nodes, end, n);
    if end in nodes[..n] || Next(link, end) == Null {
      CutBehind(link, p, nodes, end, n, end);
    }
    if end in nodes {
      InEither(nodes, n, end);
    }
  }

  /** The walk ends after exactly Visits steps. */
  lemma {:induction false} WalkEnds(link: map<Ptr, Ptr>, p: Ptr, nodes: seq<Ptr>, end: Ptr, n: nat)
    requires Lasso(link, p, nodes, end) && (end == Null || end in nodes)
    ensures CutMany(Cursor(link, p), n).at == Null <==> n >= Visits(nodes, end)
    decreases n
  {
    var m := |nodes|;
    if n <= m {
      CutLasso(link, p, nodes, end, n);
    } else if n == m + 1 {
      CutLasso(link, p, nodes, end, m);
      assert nodes[..m] == nodes;
    } else {
      WalkEnds(link, p, nodes, end, n - 1);
    }
  }

  lemma LeftInside(link: map<Ptr, Ptr>, p: Ptr, nodes: seq<Ptr>, end: Ptr, n: nat)
    requires Lasso(link, p, nodes, end) && (end == Null || end in nodes) && n <= |nodes|
    ensures var c := CutMany(Cursor(link, p), n);
      ExtentOf(c.link, c.at) ==
        if end in nodes[n..] then Endless else Finite(Visits(nodes, end) - n)
  {
    var c := CutMany(Cursor(link, p), n);
    CutLasso(link, p, nodes, end, n);
    LassoExtent(c.link, c.at, nodes[n..], end);
    if end == Null && end in nodes[n..] {
      var k: nat :| k < |nodes[n..]| && nodes[n..][k] == end;
      FollowPath(link, p, nodes, end, n + k);
    }
  }

  /** What is left of the walk after n steps, if nothing is cut from then on: a cycle is
      still whole if it starts beyond them. */
  lemma LeftAfter(link: map<Ptr, Ptr>, p: Ptr, n: nat)
    requires n <= Visits(ListOf(link, p), EndOf(link, p))
    ensures var nodes, end := ListOf(link, p), EndOf(link, p); var c := CutMany(Cursor(link, p), n);
      ExtentOf(c.link, c.at) ==
        if n < |nodes| && end in nodes[n..] then Endless else Finite(Visits(nodes, end) - n)
  {
    var nodes, end := ListOf(link, p), EndOf(link, p);
    EveryListIsLasso(link, p);
    if n <= |nodes| {
      LeftInside(link, p, nodes, end, n);
    } else {
      WalkEnds(link, p, nodes, end, n);
      var c := CutMany(Cursor(link, p), n);
      assert Follow(c.link, c.at, 0) == Null;
      ExtentIs(c.link, c.at, 0);
    }
  }

  /** A count that stops at its limit. */
  function Length(e: Extent): nat { if e.Finite? then Saturated(e.n) else UINT32_MAX }

  /** The missing entries that a destroy walk from p reports when `carved` were carved. */
  ghost function Missing(link: map<Ptr, Ptr>, p: Ptr, carved: nat): nat {
    Saturated(Monus(carved, Visits(ListOf(link, p), EndOf(link, p))))
  }

  /** The extra ones: a cycle that the walk has not cut is counted to the limit. */
  ghost function Extra(link: map<Ptr, Ptr>, p: Ptr, carved: nat): nat {
    var nodes, end := ListOf(link, p), EndOf(link, p);
    if carved < |nodes| && end in nodes[carved..] then UINT32_MAX
    else Saturated(Monus(Visits(nodes, end), carved))
  }

  /** c is where the walk from start is after n steps. */
  ghost predicate Walked(start: Cursor, c: Cursor, n: nat) {
    var visits := Visits(ListOf(start.link, start.at), EndOf(start.link, start.at));
    c == CutMany(start, n) && n <= visits && (c.at == Null <==> n == visits)
  }

  lemma WalkMeetsNull(start: Cursor, n: nat)
    ensures CutMany(start, n).at == Null <==> n >= Visits(ListOf(start.link, start.at), EndOf(start.link, start.at))
  {
    EveryListIsLasso(start.link, start.at);
    WalkEnds(start.link, start.at, ListOf(start.link, start.at), EndOf(start.link, start.at), n);
  }

  lemma WalkStarts(start: Cursor)
    ensures Walked(start, start, 0)
  {
    WalkMeetsNull(start, 0);
  }

  lemma WalkGoesOn(start: Cursor, c: Cursor, n: nat)
    requires Walked(start, c, n) && c.at != Null
    ensures Walked(start, Cut(c), n + 1)
  {
    WalkMeetsNull(start, n + 1);
  }

  /** Where it stands once the carved entries are used up, or the list. */
  lemma WalkStops(start: Cursor, c: Cursor, n: nat, carved: nat)
    requires Walked(start, c, n) && n <= carved && (c.at == Null || n == carved)
    ensures Missing(start.link, start.at, carved) == Saturated(carved - n)
    ensures Extra(start.link, start.at, carved) == if c.at == Null then 0 else Length(ExtentOf(c.link, c.at))
  {
    LeftAfter(start.link, start.at, n);
  }

  lemma MoreBlocks(i: nat, num: nat)
    requires i <= num
    ensures i * BLOCK_ENTRIES <= num * BLOCK_ENTRIES
  {
  }

  // ---------------------------------------------------------------------- the report

  /** How much of the list is within the first n entries. */
  function Within(n: nat, e: Extent): nat { if e.Finite? && e.n < n then e.n else n }

  function Beyond(e: Extent, n: nat): Extent { if e.Finite? then Finite(Monus(e.n, n)) else Endless }

  /** Carved entries that the list, however long, does not account for. */
  function Unused(carved: nat, e: Extent): nat { if e.Finite? then Saturated(Monus(carved, e.n)) else 0 }

  /** The report adds up: carved entries are used or reusable, and what of the list is not
      reusable is extra, without end if the list is. */
  lemma ReportAddsUp(carved: nat, e: Extent)
    requires carved <= UINT32_MAX
    ensures Unused(carved, e) + Within(carved, e) == carved
    ensures e.Finite? ==> Beyond(e, carved).Finite? && Within(carved, e) + Beyond(e, carved).n == e.n
    ensures e.Endless? ==> Unused(carved, e) == 0 && Length(Beyond(e, carved)) == UINT32_MAX
  {
  }

  /** at is the node after `seen` others. */
  predicate Reached(link: map<Ptr, Ptr>, p: Ptr, at: Ptr, seen: nat) {
    at == Follow(link, p, seen) && (seen > 0 ==> Follow(link, p, seen - 1) != Null)
  }

  lemma {:induction false} FollowOn(link: map<Ptr, Ptr>, p: Ptr, m: nat, n: nat)
    ensures Follow(link, Follow(link, p, m), n) == Follow(link, p, m + n)
  {
    if n > 0 {
      FollowOn(link, p, m, n - 1);
    }
  }

  lemma EndsWhere(link: map<Ptr, Ptr>, p: Ptr, e: Extent)
    requires forall n: nat :: Follow(link, p, n) == Null <==> e.Finite? && n >= e.n
    ensures ExtentOf(link, p) == e
  {
    var f := ExtentOf(link, p);
    if e.Finite? {
      FollowExtent(link, p, e.n);
      FollowExtent(link, p, f.n);
    } else if f.Finite? {
      FollowExtent(link, p, f.n);
    }
  }

  lemma ReachedExtent(link: map<Ptr, Ptr>, p: Ptr, at: Ptr, seen: nat)
    requires Reached(link, p, at, seen)
    ensures ExtentOf(link, at) == Beyond(ExtentOf(link, p), seen)
    ensures ExtentOf(link, p).Finite? ==> seen <= ExtentOf(link, p).n
    ensures at == Null <==> ExtentOf(link, p) == Finite(seen)
  {
    var e := ExtentOf(link, p);
    FollowExtent(link, p, seen);
    if seen > 0 {
      FollowExtent(link, p, seen - 1);
    }
    forall n: nat
      ensures Follow(link, at, n) == Null <==> e.Finite? && n >= Monus(e.n, seen)
    {
      FollowOn(link, p, seen, n);
      FollowExtent(link, p, seen + n);
    }
    EndsWhere(link, at, Beyond(e, seen));
  }

  // ---------------------------------------------------- any use of carved entries

  /** The list and every link lead to carved entries. */
  ghost predicate Inside(s: Pool) {
    && Sized(s)
    && (s.reuse == Null || IsCarved(s.reuse, s.num, s.free))
    && (forall p :: p in s.link ==> IsCarved(p, s.num, s.free))
    && (forall p :: p in s.link ==> s.link[p] == Null || IsCarved(s.link[p], s.num, s.free))
  }

  /** A caller that returns entries of this manager, but not only those it holds. */
  predicate Careless(s: Pool, u: Use) {
    && (s.free > 0 ==> s.num > 0)
    && (u.Free? ==> IsCarved(u.entry, s.num, s.free))
    && (u.Alloc? ==> DoAlloc(s).Entry?)
  }

  function After(s: Pool, u: Use): Pool
    requires Careless(s, u)
  {
    if u.Alloc? then DoAlloc(s).pool else DoFree(s, u.entry)
  }

  predicate CarelessRun(s: Pool, us: seq<Use>)
    decreases |us|
  {
    us == [] || (Careless(s, us[0]) && CarelessRun(After(s, us[0]), us[1..]))
  }

  function AfterAll(s: Pool, us: seq<Use>): Pool
    requires CarelessRun(s, us)
    decreases |us|
  {
    if us == [] then s else AfterAll(After(s, us[0]), us[1..])
  }

  lemma StaysCarved(s: Pool, p: Ptr)
    requires Sized(s) && DoAlloc(s).Entry? && IsCarved(p, s.num, s.free)
    ensures IsCarved(p, DoAlloc(s).pool.num, DoAlloc(s).pool.free)
  {
  }

  lemma CarelessKeepsInside(s: Pool, u: Use)
    requires Inside(s) && Careless(s, u)
    ensures Inside(After(s, u))
  {
    if u.Alloc? {
      var t := After(s, u);
      SizedKept(s);
      forall p | p in t.link ensures IsCarved(p, t.num, t.free) {
        StaysCarved(s, p);
      }
      forall p | p in t.link ensures t.link[p] == Null || IsCarved(t.link[p], t.num, t.free) {
        if t.link[p] != Null { StaysCarved(s, t.link[p]); }
      }
      if t.reuse != Null { StaysCarved(s, t.reuse); }
    }
  }

  lemma {:induction false} CarelessRunStaysInside(s: Pool, us: seq<Use>)
    requires Inside(s) && CarelessRun(s, us)
    ensures Inside(AfterAll(s, us))
    decreases |us|
  {
    if us != [] {
      CarelessKeepsInside(s, us[0]);
      CarelessRunStaysInside(After(s, us[0]), us[1..]);
    }
  }

  lemma {:induction false} TraceIsCarved(s: Pool, p: Ptr, seen: set<Ptr>, q: Ptr)
    requires Inside(s) && (p == Null || IsCarved(p, s.num, s.free)) && q in Trace(s.link, p, seen)
    ensures IsCarved(q, s.num, s.free)
    decreases s.link.Keys - seen
  {
    if q != p {
      TraceIsCarved(s, s.link[p], seen + {p}, q);
    }
  }

  /** The carved entries that the list does not lead to. */
  ghost function Unlisted(s: Pool): set<Ptr>
    requires s.free < BLOCK_ENTRIES
  {
    Carved(s.num, s.free) - Elements(ListOf(s.link, s.reuse))
  }

  /** However often entries were freed twice, the list has no more nodes than were carved. */
  lemma ListedAndUnlisted(s: Pool)
    requires Inside(s)
    ensures |ListOf(s.link, s.reuse)| + |Unlisted(s)| == CarvedCount(s.num, s.free)
  {
    var nodes := ListOf(s.link, s.reuse);
    EveryListIsLasso(s.link, s.reuse);
    CarvedSize(s.num, s.free);
    ElementsSize(nodes);
    forall q | q in Elements(nodes) ensures q in Carved(s.num, s.free) {
      TraceIsCarved(s, s.reuse, {}, q);
      assert Slot(q.block, q.index) == q;
    }
    assert Carved(s.num, s.free) == Elements(nodes) + Unlisted(s);
  }

  /** What a destroy reports after any number of double frees: an entry is missing for
      each carved one that the list no longer leads to, but one fewer when the list runs
      into itself.  So if it does, one lost entry goes unnoticed, and with none lost an
      entry too many is reported. */
  ghost predicate ReportsUnlisted(s: Pool)
    requires Inside(s)
  {
    var carved, lost := CarvedCount(s.num, s.free), |Unlisted(s)|;
    if EndOf(s.link, s.reuse) == Null then
      Missing(s.link, s.reuse, carved) == Saturated(lost) && Extra(s.link, s.reuse, carved) == 0
    else
      && Missing(s.link, s.reuse, carved) == Saturated(Monus(lost, 1))
      && Extra(s.link, s.reuse, carved) == (if lost == 0 then 1 else 0)
  }

  lemma DestroyReports(s: Pool)
    requires Inside(s)
    ensures ReportsUnlisted(s)
  {
    ListedAndUnlisted(s);
  }

  /** So it is in every run in which only carved entries are freed, held or not. */
  lemma RunReports(us: seq<Use>)
    requires CarelessRun(EMPTY, us)
    ensures Inside(AfterAll(EMPTY, us)) && ReportsUnlisted(AfterAll(EMPTY, us))
  {
    NewManagerIsWellUsed();
    CarelessRunStaysInside(EMPTY, us);
    DestroyReports(AfterAll(EMPTY, us));
  }

  // -------------------------------------------------------- good use, and one mistake

  /** A list is what its lasso says. */
  lemma {:induction false} LassoIsTrace(link: map<Ptr, Ptr>, p: Ptr, nodes: seq<Ptr>, end: Ptr, seen: set<Ptr>)
    requires PathTo(link, p, nodes, end) && NoDup(nodes) && (end == Null || end in nodes || end in seen)
    requires forall q :: q in nodes ==> q !in seen
    ensures Trace(link, p, seen) == nodes && TraceEnd(link, p, seen) == end
    decreases |nodes|
  {
    if nodes != [] {
      assert p in nodes;
      assert p !in nodes[1..];
      if p in link {
        assert end in nodes ==> end in nodes[1..] || end == p;
        LassoIsTrace(link, link[p], nodes[1..], end, seen + {p});
      } else {
        assert PathTo(link, Null, nodes[1..], end);
      }
      assert nodes == [p] + nodes[1..];
    }
  }

  /** For a well-used manager every count comes out right: as many entries missing at the
      destroy, and used in the report, as are outstanding; as many reusable as are on the
      list; and nothing extra in either. */
  lemma WellUsedAccounting(s: Pool, out: set<Ptr>, avail: seq<Ptr>)
    requires WellUsed(s, out, avail)
    ensures var carved := CarvedCount(s.num, s.free);
      Missing(s.link, s.reuse, carved) == Saturated(|out|) && Extra(s.link, s.reuse, carved) == 0
    ensures var carved, e := CarvedCount(s.num, s.free), ExtentOf(s.link, s.reuse);
      Unused(carved, e) == Saturated(|out|) && Within(carved, e) == |avail| && Length(Beyond(e, carved)) == 0
  {
    OutstandingPlusReusable(s, out, avail);
    LassoIsTrace(s.link, s.reuse, avail, Null, {});
  }

  /** A second free of the j-th reusable entry bends the list back to that entry and cuts
      off the entries behind it.  With nothing outstanding it is reported as missing
      entries iff at least two were cut off, as an extra one iff none was, and goes
      unnoticed iff exactly one was. */
  lemma DoubleFree(s: Pool, out: set<Ptr>, avail: seq<Ptr>, j: nat)
    requires WellUsed(s, out, avail) && j < |avail|
    ensures var t := DoFree(s, avail[j]); var carved := CarvedCount(s.num, s.free); var lost := |avail| - 1 - j;
      && Missing(t.link, t.reuse, carved) == Saturated(Monus(|out| + lost, 1))
      && Extra(t.link, t.reuse, carved) == (if out == {} && lost == 0 then 1 else 0)
  {
    var p := avail[j];
    var t := DoFree(s, p);
    var nodes := [p] + avail[..j];
    PathPrefix(s.link, s.reuse, avail, j);
    assert forall i :: 0 <= i < j ==> avail[..j][i] != p;
    PathFrame(s.link, s.reuse, avail[..j], p, p, s.reuse);
    assert nodes[1..] == avail[..j];
    assert p == nodes[0] && p in avail;
    LassoIsTrace(t.link, t.reuse, nodes, p, {});
    OutstandingPlusReusable(s, out, avail);
  }

  /** Two entries are taken and returned, the second one twice: the first is lost, and a
      destroy finds nothing amiss. */
  lemma UnnoticedDoubleFree()
    ensures var a, b := Slot(0, 4095), Slot(0, 4094);
      var us := [Alloc, Alloc, Free(a), Free(b), Free(b)];
      && CarelessRun(EMPTY, us)
      && var s := AfterAll(EMPTY, us);
      && s.num == 1 && s.free == 4094 && CarvedCount(s.num, s.free) == 2
      && ListOf(s.link, s.reuse) == [b] && EndOf(s.link, s.reuse) == b
      && Missing(s.link, s.reuse, 2) == 0 && Extra(s.link, s.reuse, 2) == 0
  {
    var a, b := Slot(0, 4095), Slot(0, 4094);
    var s1 := After(EMPTY, Alloc);
    var s2 := After(s1, Alloc);
    assert s2.free == 4094 && s2.num == 1 && s2.link == map[] && s2.reuse == Null;
    var s3 := After(s2, Free(a));
    var s4 := After(s3, Free(b));
    var s5 := After(s4, Free(b));
    assert s5.reuse == b && s5.link[b] == b;
    CarelessSteps(EMPTY, [Alloc, Free(a), Free(b), Free(b)], Alloc);
    CarelessSteps(s1, [Free(a), Free(b), Free(b)], Alloc);
    CarelessSteps(s2, [Free(b), Free(b)], Free(a));
    CarelessSteps(s3, [Free(b)], Free(b));
    CarelessSteps(s4, [], Free(b));
    assert PathTo(s5.link, b, [b], b) by { assert [b][1..] == []; }
    LassoIsTrace(s5.link, b, [b], b, {});
  }

  lemma CarelessSteps(s: Pool, us: seq<Use>, u: Use)
    requires Careless(s, u)
    ensures CarelessRun(s, [u] + us) == CarelessRun(After(s, u), us)
    ensures CarelessRun(After(s, u), us) ==> AfterAll(s, [u] + us) == AfterAll(After(s, u), us)
  {
    assert ([u] + us)[1..] == us;
  }

  lemma {:induction false} PathPrefix(link: map<Ptr, Ptr>, p: Ptr, nodes: seq<Ptr>, j: nat)
    requires IsList(link, p, nodes) && j < |nodes|
    ensures PathTo(link, p, nodes[..j], nodes[j])
    decreases j
  {
    if j > 0 {
      PathPrefix(link, Next(link, p), nodes[1..], j - 1);
      assert nodes[..j][1..] == nodes[1..][..j - 1];
    }
  }
}
