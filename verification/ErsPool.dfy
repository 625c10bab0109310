/** The memory pool behind one entry manager of the Entry Reusage System: blocks
    of slots carved from the top down and an intrusive list of returned slots. */
module ErsPool {
  const BLOCK_ENTRIES: nat := 4096
  const UINT32_MAX: nat := 0xffff_ffff

  /** An entry's address: a slot of one of the blocks. */
  datatype Ptr = Null | Slot(block: nat, index: nat)

  /** link holds the first word of every slot that has been written as a list node. */
  datatype Pool = Pool(reuse: Ptr, link: map<Ptr, Ptr>, free: nat, num: nat, max: nat)

  const EMPTY: Pool := Pool(Null, map[], 0, 0, 0)

  function Next(link: map<Ptr, Ptr>, p: Ptr): Ptr {
    if p in link then link[p] else Null
  }

  datatype AllocResult = Exit | Entry(pool: Pool, entry: Ptr)

  /** The new capacity of the block array, in uint32 arithmetic. */
  function Grown(max: nat): nat { (max * 4 + 3) % 0x1_0000_0000 }

  /** ers_obj_alloc_entry. */
  function DoAlloc(s: Pool): AllocResult
    requires s.free > 0 ==> s.num > 0
  {
    if s.reuse != Null then Entry(s.(reuse := Next(s.link, s.reuse)), s.reuse)
    else if s.free > 0 then Entry(s.(free := s.free - 1), Slot(s.num - 1, s.free - 1))
    else if s.num == s.max && s.max == UINT32_MAX then Exit
    else
      var max := if s.num == s.max then Grown(s.max) else s.max;
      Entry(s.(free := BLOCK_ENTRIES - 1, num := s.num + 1, max := max), Slot(s.num, BLOCK_ENTRIES - 1))
  }

  /** ers_obj_free_entry; it trusts the caller about where the entry came from. */
  function DoFree(s: Pool, p: Ptr): Pool {
    if p == Null then s else s.(reuse := p, link := s.link[p := s.reuse])
  }

  // ------------------------------------------------------------------ partition

  /** The slots handed out at least once. */
  predicate IsCarved(p: Ptr, num: nat, free: nat) {
    p.Slot? && p.block < num && p.index < BLOCK_ENTRIES && (p.block == num - 1 ==> free <= p.index)
  }

  /** The list from p runs through nodes and arrives at end. */
  predicate PathTo(link: map<Ptr, Ptr>, p: Ptr, nodes: seq<Ptr>, end: Ptr)
    decreases |nodes|
  {
    if nodes == [] then p == end
    else p != Null && p == nodes[0] && PathTo(link, Next(link, p), nodes[1..], end)
  }

  /** The list from p runs through nodes and ends in NULL. */
  predicate IsList(link: map<Ptr, Ptr>, p: Ptr, nodes: seq<Ptr>) {
    PathTo(link, p, nodes, Null)
  }

  predicate NoDup(nodes: seq<Ptr>) {
    forall i, j :: 0 <= i < j < |nodes| ==> nodes[i] != nodes[j]
  }

  /** The capacities reachable from 0: 4^k - 1, from two bits to thirty-two. */
  predicate IsCapacity(max: nat, k: nat)
  {
    if k == 0 then max == 0 else max >= 3 && max % 4 == 3 && IsCapacity((max - 3) / 4, k - 1)
  }

  /** Every carved slot is either outstanding or on the reuse list, exactly once. */
  ghost predicate Partition(s: Pool, out: set<Ptr>, avail: seq<Ptr>) {
    && IsList(s.link, s.reuse, avail) && NoDup(avail)
    && (forall p :: p in avail ==> p !in out)
    && (forall p :: p in out ==> IsCarved(p, s.num, s.free))
    && (forall p :: p in avail ==> IsCarved(p, s.num, s.free))
    && (forall p :: IsCarved(p, s.num, s.free) ==> p in out || p in avail)
  }

  ghost predicate Sized(s: Pool) {
    && s.free < BLOCK_ENTRIES && (s.num == 0 ==> s.free == 0)
    && s.num <= s.max <= UINT32_MAX
    && (exists k :: k <= 16 && IsCapacity(s.max, k))
  }

  ghost predicate WellUsed(s: Pool, out: set<Ptr>, avail: seq<Ptr>) {
    Sized(s) && Partition(s, out, avail)
  }

  /** A node that is not on the list can be overwritten. */
  lemma {:induction false} PathFrame(link: map<Ptr, Ptr>, p: Ptr, nodes: seq<Ptr>, end: Ptr, q: Ptr, to: Ptr)
    requires PathTo(link, p, nodes, end) && q !in nodes
    ensures PathTo(link[q := to], p, nodes, end)
    decreases |nodes|
  {
    if nodes != [] {
      PathFrame(link, Next(link, p), nodes[1..], end, q, to);
    }
  }

  lemma {:induction false} PowersOfFour(max: nat, k: nat)
    requires IsCapacity(max, k)
    ensures max + 1 == Pow4(k)
    decreases k
  {
    if k > 0 {
      PowersOfFour((max - 3) / 4, k - 1);
    }
  }

  function Pow4(k: nat): nat { if k == 0 then 1 else 4 * Pow4(k - 1) }

  lemma Pow4Monotone(j: nat, k: nat)
    requires j <= k
    ensures Pow4(j) <= Pow4(k)
    decreases k
  {
    if j < k {
      Pow4Monotone(j, k - 1);
    }
  }

  lemma SixteenIsTheLast()
    ensures Pow4(16) == UINT32_MAX + 1 && Pow4(15) < UINT32_MAX
  {
    assert Pow4(4) == 256;
    assert Pow4(8) == 65536;
    assert Pow4(12) == 0x100_0000;
  }

  lemma CapacityBelowLast(max: nat, k: nat)
    requires IsCapacity(max, k) && k <= 16
    ensures max == UINT32_MAX <==> k == 16
    ensures k < 16 ==> max < 0x4000_0000
  {
    PowersOfFour(max, k);
    SixteenIsTheLast();
    if k < 16 {
      Pow4Monotone(k, 15);
    }
  }

  lemma NextCapacity(max: nat, k: nat)
    requires IsCapacity(max, k)
    ensures IsCapacity(max * 4 + 3, k + 1)
  {
    assert (max * 4 + 3) % 4 == 3 && (max * 4 + 3 - 3) / 4 == max;
  }

  lemma SmallIsNotWrapped(max: nat)
    requires max < 0x4000_0000
    ensures Grown(max) == max * 4 + 3
  {
  }

  /** max * 4 + 3 never wraps: capacities are 4^k - 1, and the largest one that
      fits is UINT32_MAX itself, where the guard stops the growth. */
  lemma GrowthNeverWraps(max: nat, k: nat)
    requires IsCapacity(max, k) && k <= 16
    ensures max == UINT32_MAX <==> k == 16
    ensures max != UINT32_MAX ==> Grown(max) == max * 4 + 3 && IsCapacity(Grown(max), k + 1) && k + 1 <= 16
  {
    CapacityBelowLast(max, k);
    if k < 16 {
      SmallIsNotWrapped(max);
      NextCapacity(max, k);
    }
  }

  /** alloc keeps the sizes sane, whatever is on the list. */
  lemma SizedKept(s: Pool)
    requires Sized(s) && DoAlloc(s).Entry?
    ensures Sized(DoAlloc(s).pool)
  {
    var t := DoAlloc(s).pool;
    var k: nat :| k <= 16 && IsCapacity(s.max, k);
    if s.reuse == Null && s.free == 0 && s.num == s.max {
      GrowthNeverWraps(s.max, k);
      assert k + 1 <= 16 && IsCapacity(t.max, k + 1);
    } else {
      assert k <= 16 && IsCapacity(t.max, k);
    }
  }

  /** alloc returns an entry nobody holds, and keeps the partition. */
  lemma AllocKeeps(s: Pool, out: set<Ptr>, avail: seq<Ptr>)
    requires WellUsed(s, out, avail)
    ensures match DoAlloc(s)
      case Exit => s.max == UINT32_MAX && s.num == UINT32_MAX && avail == [] && s.free == 0
      case Entry(t, p) =>
        p != Null && p !in out && WellUsed(t, out + {p}, if avail == [] then [] else avail[1..])
  {
    if DoAlloc(s).Entry? {
      SizedKept(s);
    }
    if avail == [] {
      assert s.reuse == Null;
    } else {
      assert avail[0] in avail;
    }
  }

  /** free of an outstanding entry keeps the partition. */
  lemma FreeKeeps(s: Pool, out: set<Ptr>, avail: seq<Ptr>, p: Ptr)
    requires WellUsed(s, out, avail) && p in out
    ensures WellUsed(DoFree(s, p), out - {p}, [p] + avail)
  {
    PathFrame(s.link, s.reuse, avail, Null, p, s.reuse);
    assert ([p] + avail)[1..] == avail;
  }

  /** free of NULL does nothing; of anything else it makes it the first to be had again. */
  lemma FreeThenAlloc(s: Pool, p: Ptr)
    ensures DoFree(s, Null) == s
    ensures p != Null && (s.free > 0 ==> s.num > 0) ==>
      var t := DoFree(s, p); DoAlloc(t) == Entry(t.(reuse := s.reuse), p)
  {
  }

  // ------------------------------------------------------------------- counting

  function Carved(num: nat, free: nat): set<Ptr>
    requires free < BLOCK_ENTRIES
  {
    set b, i | 0 <= b < num && 0 <= i < BLOCK_ENTRIES && (b == num - 1 ==> free <= i) :: Slot(b, i)
  }

  function BlockFrom(b: nat, from: nat): set<Ptr>
    requires from <= BLOCK_ENTRIES
  {
    set i | from <= i < BLOCK_ENTRIES :: Slot(b, i)
  }

  lemma {:induction false} BlockSize(b: nat, from: nat)
    requires from <= BLOCK_ENTRIES
    ensures |BlockFrom(b, from)| == BLOCK_ENTRIES - from
    decreases BLOCK_ENTRIES - from
  {
    if from == BLOCK_ENTRIES {
      assert BlockFrom(b, from) == {};
    } else {
      BlockSize(b, from + 1);
      assert BlockFrom(b, from) == {Slot(b, from)} + BlockFrom(b, from + 1);
    }
  }

  lemma {:induction false} CarvedSize(num: nat, free: nat)
    requires free < BLOCK_ENTRIES && (num == 0 ==> free == 0)
    ensures |Carved(num, free)| == num * BLOCK_ENTRIES - free
  {
    if num == 0 {
      assert Carved(num, free) == {};
    } else {
      CarvedSize(num - 1, 0);
      BlockSize(num - 1, free);
      assert Carved(num, free) == Carved(num - 1, 0) + BlockFrom(num - 1, free);
      assert Carved(num - 1, 0) !! BlockFrom(num - 1, free);
    }
  }

  function Elements(nodes: seq<Ptr>): set<Ptr> { set p | p in nodes }

  lemma {:induction false} ElementsSize(nodes: seq<Ptr>)
    requires NoDup(nodes)
    ensures |Elements(nodes)| == |nodes|
  {
    if nodes == [] {
      assert Elements(nodes) == {};
    } else {
      ElementsSize(nodes[1..]);
      assert Elements(nodes) == {nodes[0]} + Elements(nodes[1..]);
      assert nodes[0] !in nodes[1..];
    }
  }

  /** Outstanding and reusable entries add up to what was carved. */
  lemma OutstandingPlusReusable(s: Pool, out: set<Ptr>, avail: seq<Ptr>)
    requires WellUsed(s, out, avail)
    ensures |out| + |avail| == s.num * BLOCK_ENTRIES - s.free
  {
    CarvedSize(s.num, s.free);
    ElementsSize(avail);
    assert Carved(s.num, s.free) == out + Elements(avail);
    assert out !! Elements(avail);
  }

  // ---------------------------------------------------------------- byte ranges

  /** Where an entry starts, given where each block was allocated. */
  function Address(base: map<nat, nat>, p: Ptr, size: nat): nat
    requires p.Slot? && p.block in base
  {
    base[p.block] + p.index * size
  }

  /** The allocator hands out blocks that do not overlap. */
  ghost predicate BlocksApart(base: map<nat, nat>, num: nat, size: nat) {
    && (forall b :: 0 <= b < num ==> b in base)
    && forall b, c :: 0 <= b < num && 0 <= c < num && b != c ==>
         Apart(base[b], base[c], size * BLOCK_ENTRIES)
  }

  lemma WithinBlock(index: nat, size: nat)
    requires index < BLOCK_ENTRIES
    ensures index * size + size <= size * BLOCK_ENTRIES
  {
    var r := BLOCK_ENTRIES - 1 - index;
    assert BLOCK_ENTRIES * size == index * size + r * size + size;
    assert r * size >= 0;
  }

  lemma NextIsBehind(i: nat, j: nat, size: nat)
    requires i < j
    ensures i * size + size <= j * size
  {
    var d := j - i;
    assert j * size == i * size + d * size;
    assert d * size >= size by { assert (d - 1) * size >= 0; }
  }

  predicate Apart(a: nat, b: nat, size: nat) { a + size <= b || b + size <= a }

  lemma OfTwoBlocks(base: nat, other: nat, i: nat, j: nat, size: nat, block: nat)
    requires Apart(base, other, block) && i + size <= block && j + size <= block
    ensures Apart(base + i, other + j, size)
  {
  }

  /** Distinct carved entries, of the same block or of two, occupy disjoint byte ranges. */
  lemma EntriesAreDisjoint(base: map<nat, nat>, num: nat, free: nat, size: nat, p: Ptr, q: Ptr)
    requires BlocksApart(base, num, size)
    requires IsCarved(p, num, free) && IsCarved(q, num, free) && p != q
    ensures Apart(Address(base, p, size), Address(base, q, size), size)
  {
    WithinBlock(p.index, size);
    WithinBlock(q.index, size);
    if p.block != q.block {
      OfTwoBlocks(base[p.block], base[q.block], p.index * size, q.index * size, size, size * BLOCK_ENTRIES);
    } else if p.index < q.index {
      NextIsBehind(p.index, q.index, size);
    } else {
      NextIsBehind(q.index, p.index, size);
    }
  }

  // ------------------------------------------------------------ runs of a manager

  datatype Use = Alloc | Free(entry: Ptr)

  datatype Run = Run(pool: Pool, out: set<Ptr>)

  /** A caller that returns only what it holds. */
  predicate Honest(r: Run, u: Use) {
    && (r.pool.free > 0 ==> r.pool.num > 0)
    && (u.Free? ==> u.entry in r.out)
    && (u.Alloc? ==> DoAlloc(r.pool).Entry?)
  }

  function Do(r: Run, u: Use): Run
    requires Honest(r, u)
  {
    match u
    case Alloc => Run(DoAlloc(r.pool).pool, r.out + {DoAlloc(r.pool).entry})
    case Free(p) => Run(DoFree(r.pool, p), r.out - {p})
  }

  predicate HonestRun(r: Run, us: seq<Use>)
    decreases |us|
  {
    us == [] || (Honest(r, us[0]) && HonestRun(Do(r, us[0]), us[1..]))
  }

  function Final(r: Run, us: seq<Use>): Run
    requires HonestRun(r, us)
    decreases |us|
  {
    if us == [] then r else Final(Do(r, us[0]), us[1..])
  }

  lemma NewManagerIsWellUsed()
    ensures WellUsed(EMPTY, {}, [])
  {
    assert IsCapacity(0, 0);
  }

  /** Any honest use of a manager, from any well-used state, keeps the partition. */
  lemma {:induction false} RunKeepsPartition(r: Run, avail: seq<Ptr>, us: seq<Use>) returns (rest: seq<Ptr>)
    requires WellUsed(r.pool, r.out, avail) && HonestRun(r, us)
    ensures WellUsed(Final(r, us).pool, Final(r, us).out, rest)
    decreases |us|
  {
    if us == [] {
      rest := avail;
    } else {
      var next;
      match us[0] {
        case Alloc =>
          AllocKeeps(r.pool, r.out, avail);
          next := if avail == [] then [] else avail[1..];
        case Free(p) =>
          FreeKeeps(r.pool, r.out, avail, p);
          next := [p] + avail;
      }
      rest := RunKeepsPartition(Do(r, us[0]), next, us[1..]);
    }
  }
}
