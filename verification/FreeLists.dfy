/** The slot allocator: a stack of free indices whose top is a 32-bit number that wraps around. */
module FreeLists {
  import opened Bytes

  const UINT32_MAX: nat := TWO_32 - 1

  /** `++` and `--` of a `uint32_t`. */
  function Up(n: nat): nat {
    (n + 1) % TWO_32
  }

  function Down(n: nat): nat {
    (n + UINT32_MAX) % TWO_32
  }

  /** No slot twice. */
  predicate Distinct(s: seq<nat>) {
    forall i, j :: 0 <= i < j < |s| ==> s[i] != s[j]
  }

  /** Every slot is either free or handed out. */
  ghost predicate Partition(cap: nat, free: seq<nat>, used: set<nat>) {
    && Distinct(free)
    && (forall i :: 0 <= i < cap ==> (i in free <==> i !in used))
    && (forall i :: 0 <= i < |free| ==> free[i] < cap)
    && (forall i :: i in used ==> i < cap)
  }

  /** The slots in the order in which they lie in a new list, slot 0 last, so that it is the first to go. */
  function Descending(cap: nat): seq<nat> {
    seq(cap, i requires 0 <= i < cap => cap - 1 - i)
  }

  class FreeList {
    var cap: nat
    var next: nat
    var idcs: array<nat>
    ghost var used: set<nat>

    ghost predicate Valid()
      reads this, idcs
    {
      && 0 < cap < TWO_32 && idcs.Length == cap && (next == UINT32_MAX || next < cap)
      && Partition(cap, Free(), used) && |used| + |Free()| == cap
    }

    /** The free slots, the next one to go last. */
    function Free(): seq<nat>
      requires idcs.Length == cap && (next == UINT32_MAX || next < cap)
      reads this, idcs
    {
      idcs[..if next == UINT32_MAX then 0 else next + 1]
    }

    constructor (cap: nat)
      requires 0 < cap < TWO_32
      ensures Valid() && this.cap == cap && used == {} && fresh(idcs)
      ensures Free() == Descending(cap)
    {
      this.cap := cap;
      idcs := new nat[cap];
      next := cap - 1;
      used := {};
      new;
      for i := 0 to cap
        invariant idcs.Length == cap && fresh(idcs) && this.cap == cap && next == cap - 1 && used == {}
        invariant forall j :: 0 <= j < i ==> idcs[j] == cap - 1 - j
      {
        idcs[i] := cap - 1 - i;
      }
      assert Free() == Descending(cap);
      forall i | 0 <= i < cap
        ensures i in Free()
      {
        assert Free()[cap - 1 - i] == i;
      }
    }

    /** The number of slots handed out, as a `uint32_t`. */
    function Size(): (n: nat)
      requires Valid()
      reads this, idcs
      ensures n == |used|
    {
      (cap + TWO_32 + TWO_32 - next - 1) % TWO_32
    }

    /** A free slot, or UINT32_MAX if and only if all are handed out. */
    method NextSlot() returns (idx: nat)
      requires Valid()
      modifies this`next, this`used, idcs
      ensures Valid() && cap == old(cap) && idcs == old(idcs)
      ensures idx == UINT32_MAX <==> |old(used)| == cap
      ensures idx == UINT32_MAX <==> old(Free()) == []
      ensures idx == UINT32_MAX ==> used == old(used) && Free() == old(Free())
      ensures idx != UINT32_MAX ==>
                && idx < cap && idx !in old(used) && used == old(used) + {idx}
                && old(Free()) == Free() + [idx]
                && next == Down(old(next)) && idcs[..] == old(idcs[..])[old(next) := UINT32_MAX]
    {
      if next == UINT32_MAX {
        return UINT32_MAX;
      }
      idx := idcs[next];
      ghost var free := Free();
      idcs[next] := UINT32_MAX;
      next := Down(next);
      used := used + {idx};
      assert free == Free() + [idx];
      Taken(cap, Free(), idx, old(used));
    }

    /** Takes back a slot that is handed out.  The guard stops it only in a list of the largest capacity
        there is, when all its slots are handed out. */
    method Release(idx: nat) returns (res: nat)
      requires Valid() && idx in used
      modifies this`next, this`used, idcs
      ensures Valid() && cap == old(cap) && idcs == old(idcs)
      ensures res == UINT32_MAX <==> cap == UINT32_MAX && |old(used)| == cap
      ensures res == UINT32_MAX ==> used == old(used) && Free() == old(Free())
      ensures res != UINT32_MAX ==> res == 0 && used == old(used) - {idx} && Free() == old(Free()) + [idx]
    {
      ghost var free := Free();
      if next == cap {
        return UINT32_MAX;
      }
      next := Up(next);
      idcs[next] := idx;
      used := used - {idx};
      assert Free() == free + [idx];
      GivenBack(cap, free, idx, old(used));
      return 0;
    }
  }

  /** A list of the given capacity, unless that is 0. */
  method Alloc(cap: nat) returns (list: FreeList?, res: int)
    requires cap < TWO_32
    ensures if cap == 0 then list == null && res == -1
            else && res == 0 && list != null && fresh(list) && list.Valid()
                 && list.cap == cap && list.Free() == Descending(cap)
  {
    if cap == 0 {
      return null, -1;
    }
    list := new FreeList(cap);
    res := 0;
  }

  /** The slots of a new list of four go in order. */
  method FirstCome() returns (gone: seq<nat>, full: nat)
    ensures gone == [0, 1, 2, 3] && full == UINT32_MAX
  {
    hide FreeList.Valid, Partition, FreeList.Free, Descending;
    var list := new FreeList(4);
    DescendingFour();
    var a := list.NextSlot();
    LastIs(list.Free(), a, [3, 2, 1], 0);
    var b := list.NextSlot();
    LastIs(list.Free(), b, [3, 2], 1);
    var c := list.NextSlot();
    LastIs(list.Free(), c, [3], 2);
    var d := list.NextSlot();
    LastIs(list.Free(), d, [], 3);
    full := list.NextSlot();
    gone := [a, b, c, d];
  }

  lemma DescendingFour()
    ensures Descending(4) == [3, 2, 1] + [0] && [3, 2, 1] == [3, 2] + [1] && [3, 2] == [3] + [2] && [3] == [] + [3]
  {
  }

  lemma LastIs(a: seq<nat>, x: nat, b: seq<nat>, y: nat)
    requires a + [x] == b + [y]
    ensures a == b && x == y
  {
    assert a == (a + [x])[..|a|] && b == (b + [y])[..|b|];
    assert (a + [x])[|a|] == x && (b + [y])[|b|] == y;
  }

  lemma Taken(cap: nat, free: seq<nat>, idx: nat, used: set<nat>)
    requires Partition(cap, free + [idx], used)
    ensures Partition(cap, free, used + {idx}) && idx < cap && idx !in used
  {
    var s := free + [idx];
    assert s[|free|] == idx && s[..|free|] == free;
    assert forall i :: 0 <= i < |free| ==> free[i] == s[i];
    forall i | 0 <= i < |free|
      ensures free[i] != idx && free[i] < cap
    {
      assert s[i] == free[i];
    }
    forall i | 0 <= i < cap
      ensures i in free <==> i !in used + {idx}
    {
      assert i in s <==> i in free || i == idx;
    }
  }

  lemma GivenBack(cap: nat, free: seq<nat>, idx: nat, used: set<nat>)
    requires Partition(cap, free, used) && idx in used
    ensures Partition(cap, free + [idx], used - {idx})
  {
    var s := free + [idx];
    forall i | 0 <= i < cap
      ensures i in s <==> i !in used - {idx}
    {
      assert i in s <==> i in free || i == idx;
    }
    assert idx !in free;
  }
}
