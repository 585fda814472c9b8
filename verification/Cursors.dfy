/** Resumable cursors over a stream that is cut into indivisible units.

    Both directions of the codec replay the same value tree on every call: a cursor that
    starts at minus the number of bytes already handled is fast-forwarded over the tree,
    and real input or output starts when it reaches zero.  Whether that is sound depends
    on one fact only: a call never stops inside an indivisible unit.  This module states
    what a call does to the cursor in terms of the sizes of those units. */
module Cursors {

  /** Total size of a sequence of units. */
  function Sum(us: seq<nat>): nat {
    if us == [] then 0 else us[0] + Sum(us[1..])
  }

  predicate Positive(us: seq<nat>) {
    forall i :: 0 <= i < |us| ==> us[i] > 0
  }

  /** `n` bytes end exactly at the end of some unit. */
  predicate Boundary(us: seq<nat>, n: nat) {
    n == 0 || (us != [] && us[0] <= n && Boundary(us[1..], n - us[0]))
  }

  /** The units left once the first `n` bytes are done. */
  function Drop(us: seq<nat>, n: nat): seq<nat> {
    if n == 0 || us == [] then us
    else Drop(us[1..], if us[0] <= n then n - us[0] else 0)
  }

  /** How many bytes are moved when whole units are taken as long as they fit in `room`. */
  function Greedy(us: seq<nat>, room: nat): nat {
    if us == [] || us[0] > room then 0 else us[0] + Greedy(us[1..], room - us[0])
  }

  /** `k` units of `w` bytes each: the elements of a vector. */
  function Reps(k: nat, w: nat): seq<nat> {
    seq(k, _ => w)
  }

  /** The cursor of a read or write buffer: `csr` counts up from minus the number of bytes
      handled by earlier calls, `off` is the position in the buffer of this call. */
  datatype Cursor = Cursor(csr: int, off: nat)

  /** While the cursor is being fast-forwarded nothing is moved; afterwards both run together. */
  predicate Valid(c: Cursor, cap: nat) {
    && c.off <= cap
    && (c.csr < 0 ==> c.off == 0)
    && (c.csr >= 0 ==> c.csr == c.off)
  }

  /** How much of what follows was handled by earlier calls. */
  function Skip(c: Cursor): nat {
    if c.csr < 0 then -c.csr else 0
  }

  /** Earlier calls stopped between two units, or past all of them. */
  predicate Aligned(us: seq<nat>, c: Cursor) {
    Skip(c) >= Sum(us) || Boundary(us, Skip(c))
  }

  /** Bytes of `us` moved by this call, given a buffer of `cap` bytes. */
  function Taken(us: seq<nat>, cap: nat, c: Cursor): nat
    requires Valid(c, cap)
  {
    Greedy(Drop(us, Skip(c)), cap - c.off)
  }

  /** What one call does with a stretch of `total` bytes: it finds `start` of them done by earlier
      calls, leaves `stop` of them done, and moves the cursor to `next`. */
  datatype Pass = Pass(total: nat, start: nat, stop: nat, next: Cursor) {
    predicate Done() {
      stop == total
    }

    /** This stretch was finished, and the call went on with the one that follows. */
    function Then(q: Pass): Pass {
      Pass(total + q.total, start + q.start, total + q.stop, q.next)
    }

    /** This stretch was not finished, so the `more` bytes that follow were not begun. */
    function Stalled(more: nat): Pass {
      this.(total := total + more)
    }
  }

  function PassOver(us: seq<nat>, cap: nat, c: Cursor): (p: Pass)
    requires Valid(c, cap)
    ensures p.total == Sum(us)
    ensures p.start == if Skip(c) < Sum(us) then Skip(c) else Sum(us)
    ensures p.next.off == c.off + p.stop - p.start
  {
    var sum, skip, taken := Sum(us), Skip(c), Taken(us, cap, c);
    if skip >= sum then Pass(sum, sum, sum, Cursor(c.csr + sum, c.off))
    else Pass(sum, skip, skip + taken, Cursor(c.off + taken, c.off + taken))
  }

  lemma {:induction false} SumConcat(a: seq<nat>, b: seq<nat>)
    ensures Sum(a + b) == Sum(a) + Sum(b)
    ensures Positive(a) && Positive(b) ==> Positive(a + b)
  {
    if a == [] {
      assert a + b == b;
    } else {
      assert (a + b)[1..] == a[1..] + b;
      SumConcat(a[1..], b);
    }
  }

  lemma {:induction false} SumReps(k: nat, w: nat)
    ensures Sum(Reps(k, w)) == k * w
    ensures w > 0 ==> Positive(Reps(k, w))
  {
    if k > 0 {
      assert Reps(k, w)[1..] == Reps(k - 1, w);
      SumReps(k - 1, w);
      assert k * w == w + (k - 1) * w;
    }
  }

  /** A boundary of `a + b` before the end of `a` is one of `a`, and one at or after it is one of `b`. */
  lemma {:induction false} BoundaryConcat(a: seq<nat>, b: seq<nat>, n: nat)
    requires Positive(a)
    requires Boundary(a + b, n)
    ensures n < Sum(a) ==> Boundary(a, n)
    ensures n >= Sum(a) ==> Boundary(b, n - Sum(a))
  {
    if a == [] {
      assert a + b == b;
    } else if n > 0 {
      assert (a + b)[1..] == a[1..] + b;
      BoundaryConcat(a[1..], b, n - a[0]);
    }
  }

  lemma {:induction false} DropConcat(a: seq<nat>, b: seq<nat>, n: nat)
    requires Positive(a)
    ensures n >= Sum(a) ==> Drop(a + b, n) == Drop(b, n - Sum(a))
    ensures n < Sum(a) && Boundary(a, n) ==> Drop(a + b, n) == Drop(a, n) + b
  {
    if a == [] {
      assert a + b == b;
    } else if n > 0 && a[0] <= n {
      assert (a + b)[1..] == a[1..] + b;
      DropConcat(a[1..], b, n - a[0]);
    }
  }

  lemma {:induction false} DropSum(us: seq<nat>, n: nat)
    requires Boundary(us, n)
    ensures n <= Sum(us) && Sum(Drop(us, n)) == Sum(us) - n
    ensures Positive(us) ==> Positive(Drop(us, n))
  {
    if n > 0 {
      DropSum(us[1..], n - us[0]);
    }
  }

  lemma {:induction false} GreedyConcat(a: seq<nat>, b: seq<nat>, room: nat)
    ensures Greedy(a, room) <= room && Greedy(a, room) <= Sum(a)
    ensures Greedy(a, room) < Sum(a) && Positive(a) ==> Greedy(a + b, room) == Greedy(a, room)
    ensures Greedy(a, room) == Sum(a) && Positive(a)
         ==> Greedy(a + b, room) == Sum(a) + Greedy(b, room - Sum(a))
  {
    if a == [] {
      assert a + b == b;
    } else if a[0] <= room {
      assert (a + b)[1..] == a[1..] + b;
      GreedyConcat(a[1..], b, room - a[0]);
    }
  }

  lemma GreedyBounds(us: seq<nat>, room: nat)
    ensures Greedy(us, room) <= room && Greedy(us, room) <= Sum(us)
  {
    GreedyConcat(us, [], room);
  }

  /** What is taken is the largest boundary that fits. */
  lemma {:induction false} GreedyIsLargestBoundary(us: seq<nat>, room: nat, m: nat)
    ensures Greedy(us, room) <= room && Boundary(us, Greedy(us, room))
    ensures Boundary(us, m) && m <= room ==> m <= Greedy(us, room)
  {
    if us != [] && us[0] <= room {
      GreedyIsLargestBoundary(us[1..], room - us[0], if us[0] <= m then m - us[0] else 0);
    }
  }

  /** Resuming at a boundary loses nothing: two calls reach what one call with all the room would. */
  lemma {:induction false} GreedyResume(us: seq<nat>, n: nat, room: nat)
    requires Boundary(us, n) && n <= room
    ensures n + Greedy(Drop(us, n), room - n) == Greedy(us, room)
  {
    if n > 0 {
      GreedyResume(us[1..], n - us[0], room - us[0]);
    }
  }

  lemma {:induction false} DropTwice(us: seq<nat>, n: nat, m: nat)
    requires Boundary(us, n)
    ensures Drop(us, n + m) == Drop(Drop(us, n), m)
  {
    if n > 0 {
      DropTwice(us[1..], n - us[0], m);
    }
  }

  lemma {:induction false} BoundaryAdd(us: seq<nat>, n: nat, m: nat)
    requires Boundary(us, n) && Boundary(Drop(us, n), m)
    ensures Boundary(us, n + m)
  {
    if n > 0 {
      BoundaryAdd(us[1..], n - us[0], m);
    }
  }

  /** Between two elements of a vector the greedy choice is a division. */
  lemma {:induction false} GreedyReps(k: nat, w: nat, room: nat)
    requires w > 0
    ensures Greedy(Reps(k, w), room) == Fit(k, w, room) * w
  {
    if k > 0 {
      assert Reps(k, w)[1..] == Reps(k - 1, w);
      FitStep(k, w, room);
      if w <= room {
        GreedyReps(k - 1, w, room - w);
      }
    }
  }

  /** How many of `k` elements of `w` bytes fit in `room`. */
  function Fit(k: nat, w: nat, room: nat): (elm: nat)
    requires w > 0
    ensures elm <= k && elm * w <= room
  {
    RoomPositive(room, w);
    if k <= room / w then MulDiv(k, w, room); k else MulDiv(room / w, w, room); room / w
  }

  lemma FitStep(k: nat, w: nat, room: nat)
    requires w > 0 && k > 0
    ensures w <= room ==> Fit(k, w, room) * w == w + Fit(k - 1, w, room - w) * w
    ensures w > room ==> Fit(k, w, room) == 0
  {
    if w <= room {
      DivStep(room, w);
      var f := Fit(k - 1, w, room - w);
      assert Fit(k, w, room) == 1 + f;
      assert (1 + f) * w == w + f * w;
    } else {
      DivUnique(room, w, 0, room);
    }
  }

  lemma DivStep(n: nat, w: nat)
    requires 0 < w <= n
    ensures (n - w) / w == n / w - 1
  {
    var q, r := (n - w) / w, (n - w) % w;
    assert n - w == q * w + r;
    assert n == (q + 1) * w + r;
    DivUnique(n, w, q + 1, r);
  }

  lemma DivUnique(n: nat, w: nat, q: nat, r: nat)
    requires w > 0 && r < w && n == q * w + r
    ensures n / w == q && n % w == r
  {
    var d := n / w - q;
    assert n == (n / w) * w + n % w;
    assert d * w == r - n % w;
    assert d >= 1 ==> d * w >= w;
    assert d <= -1 ==> d * w <= 0 - w;
  }

  /** Vector elements: a boundary is a multiple of the width, and dropping it drops whole elements. */
  lemma {:induction false} RepsBoundary(k: nat, w: nat, n: nat)
    requires w > 0
    requires Boundary(Reps(k, w), n)
    ensures n % w == 0 && n / w <= k && n == n / w * w
    ensures Drop(Reps(k, w), n) == Reps(k - n / w, w)
  {
    if n > 0 {
      assert Reps(k, w)[1..] == Reps(k - 1, w);
      RepsBoundary(k - 1, w, n - w);
      DivStep(n, w);
      DivUnique(n, w, n / w, 0) by {
        var q := (n - w) / w;
        assert n == (q + 1) * w;
      }
    } else {
      DivUnique(n, w, 0, 0);
    }
  }

  lemma {:induction false} BoundaryAtSum(us: seq<nat>)
    ensures Boundary(us, Sum(us))
  {
    if us != [] {
      BoundaryAtSum(us[1..]);
    }
  }

  lemma SumHead(h: nat, us: seq<nat>)
    ensures Sum([h] + us) == h + Sum(us)
    ensures h > 0 && Positive(us) ==> Positive([h] + us)
  {
    assert ([h] + us)[1..] == us;
  }

  lemma SumNone()
    ensures Sum([]) == 0
  {
  }

  lemma SumOne(n: nat)
    ensures Sum([n]) == n
    ensures n > 0 ==> Positive([n])
  {
    SumHead(n, []);
    assert [n] + [] == [n];
  }

  lemma {:induction false} SumPositive(us: seq<nat>)
    requires Positive(us)
    ensures Sum(us) == 0 ==> us == []
  {
  }

  /** Dropping everything leaves nothing to take. */
  lemma {:induction false} DropAll(us: seq<nat>, n: nat)
    requires Positive(us) && n >= Sum(us)
    ensures Drop(us, n) == []
  {
    if us != [] {
      DropAll(us[1..], n - us[0]);
    }
  }

  /** A call keeps the cursor valid and stops between units. */
  lemma PassAligned(us: seq<nat>, cap: nat, c: Cursor)
    requires Positive(us) && Valid(c, cap) && Aligned(us, c)
    ensures var p := PassOver(us, cap, c);
            Valid(p.next, cap) && p.start <= p.stop <= p.total && Boundary(us, p.stop)
  {
    var n := Skip(c);
    GreedyBounds(Drop(us, n), cap - c.off);
    if n >= Sum(us) {
      BoundaryAtSum(us);
      SumPositive(us);
    } else {
      DropSum(us, n);
      GreedyIsLargestBoundary(Drop(us, n), cap - c.off, 0);
      BoundaryAdd(us, n, Taken(us, cap, c));
    }
  }

  /** The pass of a whole call, which begins with an empty buffer. */
  lemma PassFromStart(us: seq<nat>, cap: nat, c: Cursor)
    requires Positive(us) && c.off == 0 && c.csr <= 0 && Boundary(us, -c.csr)
    ensures var n := Greedy(Drop(us, -c.csr), cap);
            && n <= cap && -c.csr + n <= Sum(us) && Boundary(us, -c.csr + n)
            && PassOver(us, cap, c) == Pass(Sum(us), -c.csr, -c.csr + n, Cursor(n, n))
  {
    hide Drop, Greedy, Boundary, Sum, Positive;
    PassAligned(us, cap, c);
    DropSum(us, -c.csr);
    GreedyBounds(Drop(us, -c.csr), cap);
  }

  /** Passing over `a` then `b` is passing over `a + b`; if `a` was not finished, `b` is not begun. */
  lemma PassConcat(a: seq<nat>, b: seq<nat>, cap: nat, c: Cursor)
    requires Positive(a) && Positive(b) && Valid(c, cap) && Aligned(a + b, c)
    ensures Positive(a + b) && Aligned(a, c)
    ensures var p := PassOver(a, cap, c);
            && Valid(p.next, cap)
            && (!p.Done() ==> PassOver(a + b, cap, c) == p.Stalled(Sum(b)))
            && (p.Done() ==>
                  && Aligned(b, p.next)
                  && Skip(p.next) == (if Skip(c) >= Sum(a) then Skip(c) - Sum(a) else 0)
                  && PassOver(a + b, cap, c) == p.Then(PassOver(b, cap, p.next))
                  && (p.start == p.total || PassOver(b, cap, p.next).start == 0))
  {
    SumConcat(a, b);
    if Skip(c) < Sum(a) {
      BoundaryConcat(a, b, Skip(c));
      PassAligned(a, cap, c);
      PassInside(a, b, cap, c);
    } else {
      PassBeyond(a, b, cap, c);
    }
  }

  /** The case of PassConcat in which this call starts inside `a`. */
  lemma PassInside(a: seq<nat>, b: seq<nat>, cap: nat, c: Cursor)
    requires Positive(a) && Positive(b) && Valid(c, cap)
    requires Skip(c) < Sum(a) && Sum(a + b) == Sum(a) + Sum(b) && Boundary(a, Skip(c))
    ensures var p := PassOver(a, cap, c);
            && Valid(p.next, cap)
            && (!p.Done() ==> PassOver(a + b, cap, c) == p.Stalled(Sum(b)))
            && (p.Done() ==> Skip(p.next) == 0 && PassOver(a + b, cap, c) == p.Then(PassOver(b, cap, p.next)))
  {
    var taken := TakenInside(a, b, cap, c);
    SumPositive(b);
  }

  lemma TakenInside(a: seq<nat>, b: seq<nat>, cap: nat, c: Cursor) returns (taken: nat)
    requires Positive(a) && Positive(b) && Valid(c, cap)
    requires Skip(c) < Sum(a) && Boundary(a, Skip(c))
    ensures taken == Taken(a, cap, c) <= cap - c.off && taken <= Sum(a) - Skip(c)
    ensures taken < Sum(a) - Skip(c) ==> Taken(a + b, cap, c) == taken
    ensures taken == Sum(a) - Skip(c) ==>
              var d := Cursor(c.off + taken, c.off + taken);
              Taken(a + b, cap, c) == taken + Taken(b, cap, d) && Taken(b, cap, d) <= Sum(b)
  {
    DropConcat(a, b, Skip(c));
    DropSum(a, Skip(c));
    var u, room := Drop(a, Skip(c)), cap - c.off;
    taken := Greedy(u, room);
    GreedyConcat(u, b, room);
    GreedyBounds(b, room - taken);
  }

  /** The case of PassConcat in which earlier calls have done all of `a`. */
  lemma PassBeyond(a: seq<nat>, b: seq<nat>, cap: nat, c: Cursor)
    requires Positive(a) && Positive(b) && Valid(c, cap)
    requires Skip(c) >= Sum(a) && Sum(a + b) == Sum(a) + Sum(b)
    requires Aligned(a + b, c)
    ensures var p := PassOver(a, cap, c);
            && p.Done() && Valid(p.next, cap) && Aligned(b, p.next)
            && Skip(p.next) == Skip(c) - Sum(a)
            && PassOver(a + b, cap, c) == p.Then(PassOver(b, cap, p.next))
  {
    hide Drop, Boundary, Greedy, Sum, Positive;
    var n := Skip(c);
    DropConcat(a, b, n);
    if n < Sum(a + b) {
      BoundaryConcat(a, b, n);
    }
  }

  /** The pass over a single unit: passed over, moved whole, or not begun. */
  lemma PassUnit(n: nat, cap: nat, c: Cursor)
    requires n > 0 && Valid(c, cap) && Aligned([n], c)
    ensures Positive([n]) && Sum([n]) == n
    ensures c.csr < 0 ==> c.csr + n <= 0
    ensures PassOver([n], cap, c) ==
            if c.csr < 0 then Pass(n, n, n, Cursor(c.csr + n, c.off))
            else if n <= cap - c.off then Pass(n, 0, n, Cursor(c.csr + n, c.off + n))
            else Pass(n, 0, 0, c)
  {
    SumHead(n, []);
    assert [n] + [] == [n];
    assert [n][1..] == [];
    var room := cap - c.off;
    assert n <= room ==> Greedy([], room - n) == 0;
  }

  /** The pass over vector elements that earlier calls have done. */
  lemma PassRepsBeyond(k: nat, w: nat, cap: nat, c: Cursor)
    requires w > 0 && Valid(c, cap) && Skip(c) >= k * w
    ensures Positive(Reps(k, w)) && Sum(Reps(k, w)) == k * w
    ensures PassOver(Reps(k, w), cap, c) == Pass(k * w, k * w, k * w, Cursor(c.csr + k * w, c.off))
    ensures k * w / w == k
  {
    SumReps(k, w);
    DivUnique(k * w, w, k, 0);
  }

  /** The pass over vector elements that are not all done: `skp` were, `elm` more fit. */
  lemma PassRepsInside(k: nat, w: nat, cap: nat, c: Cursor) returns (skp: nat, elm: nat)
    requires w > 0 && Valid(c, cap) && Aligned(Reps(k, w), c) && Skip(c) < k * w
    ensures Positive(Reps(k, w)) && Sum(Reps(k, w)) == k * w
    ensures skp == Skip(c) / w && skp * w == Skip(c) && skp < k
    ensures elm == Fit(k - skp, w, cap - c.off)
    ensures skp * w + elm * w == k * w <==> skp + elm == k
    ensures PassOver(Reps(k, w), cap, c)
         == Pass(k * w, skp * w, skp * w + elm * w, Cursor(c.off + elm * w, c.off + elm * w))
  {
    hide Drop, Greedy, Boundary, Sum;
    SumReps(k, w);
    skp := Skip(c) / w;
    RepsBoundary(k, w, Skip(c));
    elm := Fit(k - skp, w, cap - c.off);
    GreedyReps(k - skp, w, cap - c.off);
    MulDiff(k, skp, elm, w);
  }

  lemma MulDiv(k: nat, w: nat, room: nat)
    requires w > 0 && k <= room / w
    ensures k * w <= room
  {
    assert room == room / w * w + room % w;
    assert k * w <= room / w * w;
  }

  lemma MulDiff(k: nat, skp: nat, elm: nat, w: nat)
    requires w > 0 && skp + elm <= k && skp < k
    ensures skp * w < k * w
    ensures skp * w + elm * w == k * w <==> skp + elm == k
  {
    assert (k - skp) * w == k * w - skp * w;
    assert (k - skp - elm) * w == k * w - skp * w - elm * w;
  }

  lemma RoomPositive(room: nat, w: nat)
    requires w > 0
    ensures room / w >= 0
  {
  }
}
