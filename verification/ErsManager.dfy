/** Entry managers as objects, and the root array that shares them by size. */
module ErsManager {
  import opened ErsPool
  import opened ErsAccounting

  const ROOT_SIZE: nat := 256
  const POINTER_SIZE: nat := 8

  class Manager {
    var reuse: Ptr
    var link: map<Ptr, Ptr>
    var free: nat
    var num: nat
    var max: nat
    var destroy: nat
    const size: nat

    function View(): Pool
      reads this
    {
      Pool(reuse, link, free, num, max)
    }

    constructor (size: nat)
      ensures View() == EMPTY && destroy == 1 && this.size == size
    {
      reuse, link, free, num, max, destroy := Null, map[], 0, 0, 0, 1;
      this.size := size;
    }

    /** ers_obj_alloc_entry; NULL stands for leaving the program. */
    method Alloc() returns (entry: Ptr)
      requires free > 0 ==> num > 0
      modifies this`reuse, this`free, this`num, this`max
      ensures match DoAlloc(old(View()))
              case Exit => entry == Null && View() == old(View())
              case Entry(pool, p) => View() == pool && entry == p
    {
      if reuse != Null {
        entry := reuse;
        reuse := Next(link, reuse);
      } else if free > 0 {
        free := free - 1;
        entry := Slot(num - 1, free);
      } else {
        if num == max {
          if max == UINT32_MAX { return Null; }
          max := Grown(max);
        }
        free := BLOCK_ENTRIES - 1;
        entry := Slot(num, free);
        num := num + 1;
      }
    }

    /** ers_obj_free_entry. */
    method FreeEntry(entry: Ptr)
      modifies this`reuse, this`link
      ensures View() == DoFree(old(View()), entry)
    {
      if entry == Null { return; }
      link := link[entry := reuse];
      reuse := entry;
    }

    /** The walk of ers_obj_destroy over the reuse list, charging the unused slots
        to the first block.  Whatever was freed, it ends, and reports what Missing and
        Extra say. */
    method CountEntries() returns (missing: nat, extra: nat)
      requires free < BLOCK_ENTRIES && (num == 0 ==> free == 0)
      modifies this`link
      ensures missing == Missing(old(link), reuse, CarvedCount(num, free))
      ensures extra == Extra(old(link), reuse, CarvedCount(num, free))
    {
      ghost var start := Cursor(link, reuse);
      var at: Ptr, count: nat, i: nat := reuse, 0, 0;
      ghost var seen: nat := 0;
      WalkStarts(start);
      while i < num
        invariant 0 <= i <= num
        invariant Walked(start, Cursor(link, at), seen)
        invariant i == 0 ==> count == 0 && seen == 0
        invariant i > 0 ==> count + seen == i * BLOCK_ENTRIES - free
        invariant i > 0 ==> count == 0 || at == Null
        invariant count <= UINT32_MAX
      {
        if i == 0 {
          count := BLOCK_ENTRIES - free;
        } else if count > UINT32_MAX - BLOCK_ENTRIES {
          MoreBlocks(i + 1, num);
          count := UINT32_MAX;
          break;
        } else {
          count := count + BLOCK_ENTRIES;
        }
        while at != Null && count > 0
          invariant Walked(start, Cursor(link, at), seen)
          invariant count + seen == (i + 1) * BLOCK_ENTRIES - free
          invariant count <= UINT32_MAX
          decreases count
        {
          WalkGoesOn(start, Cursor(link, at), seen);
          count := count - 1;
          var node := at;
          at := Next(link, at);
          link := link[node := Null];
          seen := seen + 1;
        }
        i := i + 1;
      }
      missing, extra := count, 0;
      WalkStops(start, Cursor(link, at), seen, CarvedCount(num, free));
      if count == 0 && at != Null {
        extra := CountList(at);
      }
    }

    /** The loop over left-over list nodes, up to UINT32_MAX; on a list that runs into
        itself it stops there. */
    method CountList(from: Ptr) returns (count: nat)
      ensures count == Length(ExtentOf(link, from))
    {
      var at := from;
      count := 0;
      while at != Null && count != UINT32_MAX
        invariant at == Follow(link, from, count) && count <= UINT32_MAX
        invariant count > 0 ==> Follow(link, from, count - 1) != Null
        decreases UINT32_MAX - count
      {
        count := count + 1;
        at := Next(link, at);
      }
      FollowExtent(link, from, count);
      if count > 0 {
        FollowExtent(link, from, count - 1);
      }
    }

    /** The counting part of ers_report for this manager: entries in use, reusable
        entries, and reusable entries beyond what was ever carved.  Nothing is cut here:
        a list that runs into itself has more reusable entries than were ever carved. */
    method Report() returns (used: nat, reusable: nat, extra: nat)
      requires free < BLOCK_ENTRIES && (num == 0 ==> free == 0)
      ensures used == Unused(CarvedCount(num, free), ExtentOf(link, reuse))
      ensures reusable == Saturated(Within(CarvedCount(num, free), ExtentOf(link, reuse)))
      ensures extra == Length(Beyond(ExtentOf(link, reuse), CarvedCount(num, free)))
    {
      var at: Ptr, j: nat := reuse, 0;
      ghost var seen: nat := 0;
      used, reusable := 0, 0;
      while j < num
        invariant 0 <= j <= num
        invariant Reached(link, reuse, at, seen) && reusable == Saturated(seen)
        invariant j == 0 ==> used == 0 && seen == 0
        invariant j > 0 ==> used + seen == j * BLOCK_ENTRIES - free
        invariant used <= BLOCK_ENTRIES && (used == 0 || at == Null)
      {
        if j == 0 {
          used := BLOCK_ENTRIES - free;
        } else if at != Null {
          used := BLOCK_ENTRIES;
        } else {
          used := CountRemaining(used, j);
          break;
        }
        while used > 0 && at != Null
          invariant Reached(link, reuse, at, seen) && reusable == Saturated(seen)
          invariant used + seen == (j + 1) * BLOCK_ENTRIES - free && used <= BLOCK_ENTRIES
          decreases used
        {
          used := used - 1;
          if reusable != UINT32_MAX { reusable := reusable + 1; }
          at := Next(link, at);
          seen := seen + 1;
        }
        j := j + 1;
      }
      ReachedExtent(link, reuse, at, seen);
      extra := CountList(at);
    }

    /** The inner loop of ers_report once the reuse list is exhausted. */
    method CountRemaining(soFar: nat, from: nat) returns (used: nat)
      requires from <= num
      ensures used == if from == num then soFar else Saturated(soFar + (num - from) * BLOCK_ENTRIES)
    {
      var j := from;
      used := soFar;
      while j < num
        invariant from <= j <= num
        invariant used == soFar + (j - from) * BLOCK_ENTRIES
        invariant j > from ==> used <= UINT32_MAX
      {
        if used > UINT32_MAX - BLOCK_ENTRIES {
          assert (num - from) * BLOCK_ENTRIES >= (j + 1 - from) * BLOCK_ENTRIES;
          return UINT32_MAX;
        }
        used := used + BLOCK_ENTRIES;
        j := j + 1;
      }
    }
  }

  /** The smallest entry that can hold a list node (ERS_ALIGNED is 1). */
  function EntrySize(size: nat): nat {
    if size < POINTER_SIZE then POINTER_SIZE else size
  }

  /** Entries of a manager got for `size` are as large as that at least: no two that it has
      handed out overlap in their first `size` bytes. */
  lemma EntriesHold(base: map<nat, nat>, s: Pool, out: set<Ptr>, avail: seq<Ptr>, size: nat, p: Ptr, q: Ptr)
    requires WellUsed(s, out, avail) && BlocksApart(base, s.num, EntrySize(size))
    requires p in out && q in out && p != q
    ensures var a, b := Address(base, p, EntrySize(size)), Address(base, q, EntrySize(size)); Apart(a, b, size)
  {
    EntriesAreDisjoint(base, s.num, s.free, EntrySize(size), p, q);
  }

  function Instances(open: map<nat, nat>, size: nat): nat {
    if size in open then open[size] else 0
  }

  ghost predicate DistinctSizes(roots: seq<Manager>) {
    forall i, j :: 0 <= i < j < |roots| ==> roots[i].size != roots[j].size
  }

  function Sizes(roots: seq<Manager>): set<nat> { set m | m in roots :: m.size }

  /** Drop roots[i] by moving the last manager into its place. */
  function RemoveAt(roots: seq<Manager>, i: nat): seq<Manager>
    requires i < |roots|
  {
    var n := |roots| - 1;
    if i < n then roots[..n][i := roots[n]] else roots[..n]
  }

  lemma RemoveAtRemoves(roots: seq<Manager>, i: nat)
    requires i < |roots| && DistinctSizes(roots)
    ensures DistinctSizes(RemoveAt(roots, i))
    ensures forall m :: m in RemoveAt(roots, i) <==> m in roots && m != roots[i]
  {
    var n := |roots| - 1;
    var rest := RemoveAt(roots, i);
    forall m | m in roots && m != roots[i]
      ensures m in rest
    {
      var k :| 0 <= k < |roots| && roots[k] == m;
      assert if k == n then rest[i] == m else rest[k] == m;
    }
  }

  /** ers_root and ers_num. */
  class Root {
    var roots: seq<Manager>
    ghost var open: map<nat, nat>   // live instances, by entry size

    /** One manager per entry size in use, which knows its number of instances. */
    ghost predicate Valid()
      reads this, roots
    {
      && |roots| <= ROOT_SIZE
      && DistinctSizes(roots)
      && (forall m :: m in roots ==> m.size in open && open[m.size] == m.destroy > 0)
      && open.Keys == Sizes(roots)
    }

    constructor ()
      ensures Valid() && open == map[]
    {
      roots, open := [], map[];
    }

    /** The search of ers_new for a manager of the entry size. */
    method FindRoot(entrySize: nat) returns (i: nat)
      requires Valid()
      ensures i <= |roots| && (i < |roots| ==> roots[i].size == entrySize)
      ensures i < |roots| <==> entrySize in open
    {
      i := 0;
      while i < |roots| && roots[i].size != entrySize
        invariant i <= |roots|
        invariant forall k :: 0 <= k < i ==> roots[k].size != entrySize
      {
        i := i + 1;
      }
    }

    /** ers_new: nothing for size 0, nor when the root array is full, where the program ends. */
    method New(size: nat) returns (obj: Manager?)
      requires Valid()
      modifies this, roots
      ensures Valid()
      ensures obj == null ==> open == old(open) && roots == old(roots)
      ensures obj == null <==> size == 0 || (EntrySize(size) !in old(open) && |old(roots)| == ROOT_SIZE)
      ensures obj != null ==> obj in roots && obj.size == EntrySize(size)
      ensures obj != null ==> obj.size >= size && obj.size >= POINTER_SIZE
      ensures obj != null ==> obj.size == size || obj.size == POINTER_SIZE
      ensures obj != null ==> open == old(open)[EntrySize(size) := Instances(old(open), EntrySize(size)) + 1]
      ensures obj != null && EntrySize(size) !in old(open) ==> fresh(obj) && obj.View() == EMPTY
      ensures obj != null && EntrySize(size) in old(open) ==> obj in old(roots) && obj.View() == old(obj.View())
    {
      if size == 0 { return null; }
      var entrySize := EntrySize(size);
      var i := FindRoot(entrySize);
      if i < |roots| {
        obj := roots[i];
        obj.destroy := obj.destroy + 1;
        open := open[entrySize := open[entrySize] + 1];
        return;
      }
      if |roots| == ROOT_SIZE { return null; }
      obj := Add(entrySize);
    }

    /** A new manager in the next free place of the array. */
    method Add(entrySize: nat) returns (obj: Manager)
      requires Valid() && entrySize !in open && |roots| < ROOT_SIZE
      modifies this
      ensures Valid() && fresh(obj) && obj.size == entrySize && obj.View() == EMPTY
      ensures roots == old(roots) + [obj] && open == old(open)[entrySize := 1]
    {
      obj := new Manager(entrySize);
      roots := roots + [obj];
      open := open[entrySize := 1];
    }

    /** ers_obj_destroy, up to the walk: the manager goes when its last instance
        does, and the last manager takes its place in the array. */
    method Destroy(obj: Manager) returns (last: bool)
      requires Valid() && obj in roots
      modifies this, obj`destroy
      ensures Valid()
      ensures last <==> old(open)[obj.size] == 1
      ensures open == if last then old(open) - {obj.size} else old(open)[obj.size := old(open)[obj.size] - 1]
      ensures forall m :: m in roots <==> m in old(roots) && (m != obj || !last)
    {
      obj.destroy := obj.destroy - 1;
      if obj.destroy != 0 {
        open := open[obj.size := obj.destroy];
        return false;
      }
      last := true;
      open := open - {obj.size};
      var i := 0;
      while i < |roots|
        invariant 0 <= i <= |roots| && roots == old(roots)
        invariant forall k :: 0 <= k < i ==> roots[k] != obj
      {
        if roots[i] == obj {
          RemoveAtRemoves(roots, i);
          roots := RemoveAt(roots, i);
          return;
        }
        i := i + 1;
      }
      assert false;
    }
  }
}
