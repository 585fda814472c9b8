/** Framed messages: the eight-byte header, the payload, and runs of calls of the writer. */
module MessageWriter {
  import opened Bytes
  import opened KdbValue
  import opened Cursors
  import opened Units
  import opened Writer

  /** Little-endian flag, message type, two unused bytes, total length. */
  function MsgHeader(kind: byte, len: nat): (h: bytes)
    ensures |h| == SZ_MSG_HDR
  {
    [1, kind, 0, 0] + ToLE(4, len)
  }

  lemma HeaderFields(kind: byte, len: nat, src: bytes)
    requires |src| >= SZ_MSG_HDR && src[..SZ_MSG_HDR] == MsgHeader(kind, len) && len < TWO_31
    ensures src[0] == 1 && src[1] == kind && src[2] == 0 && src[3] == 0 && AsInt32(src[4..8]) == len
  {
    hide AsInt32;
    var h := MsgHeader(kind, len);
    assert src[0] == src[..8][0] && src[1] == src[..8][1] && src[2] == src[..8][2] && src[3] == src[..8][3];
    assert src[4..8] == src[..8][4..8] == ToLE(4, len);
    Int32RoundTrip(len);
  }

  function MsgLen(v: Val): nat {
    SZ_MSG_HDR + WireSz(v)
  }

  /** The whole frame, as it would go out in one call. */
  function Message(kind: byte, v: Val): (m: bytes)
    requires WF(v)
    ensures |m| == MsgLen(v)
  {
    WireSzIsLength(v);
    MsgHeader(kind, MsgLen(v)) + Encode(v)
  }

  function MsgUnits(v: Val): seq<nat> {
    [SZ_MSG_HDR] + WUnits(v)
  }

  lemma MessageLength(kind: byte, v: Val)
    requires WF(v)
    ensures |Message(kind, v)| == MsgLen(v) == Sum(MsgUnits(v)) && Positive(MsgUnits(v))
  {
    WireSzIsLength(v);
    WUnitsSum(v);
    SumHead(SZ_MSG_HDR, WUnits(v));
  }

  class KdbIpcMessageWriter {
    const kind: byte
    const root: Val
    const ipcLen: nat
    var bytRem: nat

    /** Earlier calls stopped between two units of the message. */
    ghost predicate Valid()
      reads this
    {
      && WF(root) && Plain(root) && ipcLen == MsgLen(root) && bytRem <= ipcLen
      && Boundary(MsgUnits(root), ipcLen - bytRem)
    }

    constructor (kind: byte, msg: Val)
      requires WF(msg) && Plain(msg)
      ensures Valid() && this.kind == kind && root == msg && bytRem == ipcLen == MsgLen(msg)
    {
      this.kind, root := kind, msg;
      ipcLen, bytRem := MsgLen(msg), MsgLen(msg);
    }

    /** Fills `dst` with as many whole units as fit after those written by earlier calls. */
    method Write(dst: array<byte>) returns (wr: WriteResult)
      requires Valid()
      modifies this`bytRem, dst
      ensures Valid()
      ensures var pos := ipcLen - old(bytRem);
              var n := Greedy(Drop(MsgUnits(root), pos), dst.Length);
              && n <= dst.Length && n <= old(bytRem)
              && bytRem == old(bytRem) - n
              && dst[..n] == Message(kind, root)[pos..pos + n]
              && dst[n..] == old(dst[n..])
      ensures wr.WR_OK? <==> bytRem == 0
    {
      hide PassOver, MsgHeader, Wrote, Ready, WF, Plain, Encode, WUnits, Boundary, Greedy, Drop, Positive, Sum;
      hide Aligned, WireSz, Stepped, Message, MsgUnits, HeaderLeads;
      var buf := new WriteBuf(dst, bytRem - ipcLen);
      ghost var c := buf.Cur();
      var head := MsgHeader(kind, ipcLen);
      MessageReady(kind, root, dst.Length, c);
      wr := WriteUnit(head, buf);
      ghost var d, mid := buf.Cur(), buf.Out();
      HeaderWrote(kind, root, dst.Length, c, d, mid, wr);
      if wr.WR_INCOMPLETE? {
        SteppedIs(kind, root, dst.Length, c, d, mid, wr);
        return;
      }
      wr := WriteVal(root, buf);
      PayloadWrote(kind, root, dst.Length, c, d, mid, buf.Cur(), buf.Out(), wr);
      SteppedIs(kind, root, dst.Length, c, buf.Cur(), buf.Out(), wr);
      bytRem := bytRem - buf.csr;
    }
  }

  /** What one call did to the whole message. */
  ghost predicate Stepped(kind: byte, v: Val, cap: nat, c: Cursor, d: Cursor, after: bytes, wr: WriteResult) {
    WF(v) && Wrote(MsgUnits(v), Message(kind, v), cap, c, [], d, after, wr)
  }

  /** The payload remains to be written. */
  ghost predicate HeaderLeads(kind: byte, v: Val, cap: nat, c: Cursor, d: Cursor, mid: bytes) {
    WF(v) && Leads(MsgUnits(v), Message(kind, v), c, [], cap, WUnits(v), Encode(v), d, mid)
  }

  lemma HeaderWrote(kind: byte, v: Val, cap: nat, c: Cursor, d: Cursor, mid: bytes, wr: WriteResult)
    requires WF(v) && Positive(WUnits(v)) && Sum(WUnits(v)) == |Encode(v)| && Aligned([SZ_MSG_HDR] + WUnits(v), c)
    requires Wrote([SZ_MSG_HDR], MsgHeader(kind, MsgLen(v)), cap, c, [], d, mid, wr)
    ensures wr.WR_INCOMPLETE? ==> Stepped(kind, v, cap, c, d, mid, wr)
    ensures wr.WR_OK? ==> Ready(WUnits(v), Encode(v), cap, d) && HeaderLeads(kind, v, cap, c, d, mid)
  {
    hide Wrote, Ready, WF, Encode, WUnits, Positive, Sum, Aligned, MsgHeader, Leads, WireSz;
    WroteFirst([SZ_MSG_HDR], WUnits(v), MsgHeader(kind, MsgLen(v)), Encode(v), cap, c, [], d, mid, wr);
  }

  lemma PayloadWrote(kind: byte, v: Val, cap: nat, c: Cursor, d: Cursor, mid: bytes, f: Cursor, after: bytes,
                     wr: WriteResult)
    requires HeaderLeads(kind, v, cap, c, d, mid) && Wrote(WUnits(v), Encode(v), cap, d, mid, f, after, wr)
    ensures Stepped(kind, v, cap, c, f, after, wr)
  {
    hide Wrote, WF, Encode, WUnits, Leads, Message;
    LeadsTo(MsgUnits(v), Message(kind, v), c, [], cap, WUnits(v), Encode(v), d, mid, f, after, wr);
  }

  lemma SteppedIs(kind: byte, v: Val, cap: nat, c: Cursor, d: Cursor, after: bytes, wr: WriteResult)
    requires Stepped(kind, v, cap, c, d, after, wr) && c.off == 0 && c.csr <= 0 && Boundary(MsgUnits(v), -c.csr)
    ensures var pos := -c.csr;
            var n := Greedy(Drop(MsgUnits(v), pos), cap);
            && d == Cursor(n, n) && n <= cap && pos + n <= MsgLen(v)
            && after == Message(kind, v)[pos..pos + n]
            && Boundary(MsgUnits(v), pos + n)
            && (wr.WR_OK? <==> pos + n == MsgLen(v))
  {
    hide Wrote, WF, Encode, WUnits, Boundary, Greedy, Drop;
    WroteStep(MsgUnits(v), Message(kind, v), cap, c, d, after, wr);
  }

  lemma MessageReady(kind: byte, v: Val, cap: nat, c: Cursor)
    requires WF(v) && c.off == 0 && c.csr <= 0 && Boundary(MsgUnits(v), -c.csr)
    ensures Ready(MsgUnits(v), Message(kind, v), cap, c)
    ensures Ready([SZ_MSG_HDR], MsgHeader(kind, MsgLen(v)), cap, c)
    ensures Positive(WUnits(v)) && Sum(WUnits(v)) == |Encode(v)| && Aligned([SZ_MSG_HDR] + WUnits(v), c)
  {
    MessageLength(kind, v);
    WUnitsSum(v);
    SumOne(SZ_MSG_HDR);
    ReadySplit([SZ_MSG_HDR], WUnits(v), MsgHeader(kind, MsgLen(v)), Encode(v), cap, c);
  }

  /** What one call did, read off the pass over the whole message. */
  lemma WroteStep(us: seq<nat>, e: bytes, cap: nat, c: Cursor, d: Cursor, after: bytes, wr: WriteResult)
    requires Wrote(us, e, cap, c, [], d, after, wr) && c.off == 0 && c.csr <= 0 && Boundary(us, -c.csr)
    ensures var pos := -c.csr;
            var n := Greedy(Drop(us, pos), cap);
            && d == Cursor(n, n) && n <= cap && pos + n <= |e|
            && after == e[pos..pos + n]
            && Boundary(us, pos + n)
            && (wr.WR_OK? <==> pos + n == |e|)
  {
    hide PassOver, Drop, Greedy, Boundary, Sum, Positive;
    PassFromStart(us, cap, c);
    var p := PassOver(us, cap, c);
    assert after == e[p.start..p.stop];
  }

  /** Where a run of calls with the given capacities stops, starting at `pos`. */
  function Position(us: seq<nat>, pos: nat, caps: seq<nat>): nat
    decreases caps
  {
    if caps == [] then pos
    else Position(us, pos + Greedy(Drop(us, pos), caps[0]), caps[1..])
  }

  /** What a run of calls puts out: after each call the stream `e` has moved on by what it took. */
  function Output(us: seq<nat>, e: bytes, pos: nat, caps: seq<nat>): bytes
    requires Sum(us) == |e| && Boundary(us, pos)
    decreases caps
  {
    if caps == [] then []
    else
      var n := Greedy(Drop(us, pos), caps[0]);
      StepBoundary(us, pos, caps[0]);
      e[pos..pos + n] + Output(us, e, pos + n, caps[1..])
  }

  lemma StepBoundary(us: seq<nat>, pos: nat, cap: nat)
    requires Boundary(us, pos)
    ensures var p := pos + Greedy(Drop(us, pos), cap); Boundary(us, p) && p <= Sum(us)
  {
    GreedyIsLargestBoundary(Drop(us, pos), cap, 0);
    GreedyBounds(Drop(us, pos), cap);
    DropSum(us, pos);
    BoundaryAdd(us, pos, Greedy(Drop(us, pos), cap));
  }

  /** Whatever the capacities, the outputs of successive calls add up to a prefix of the one-shot
      encoding, and the run stops between two units. */
  lemma {:induction false} RunWritesPrefix(us: seq<nat>, e: bytes, pos: nat, caps: seq<nat>)
    requires Sum(us) == |e| && Boundary(us, pos)
    ensures pos <= Position(us, pos, caps) <= |e| && Boundary(us, Position(us, pos, caps))
    ensures Output(us, e, pos, caps) == e[pos..Position(us, pos, caps)]
    decreases caps
  {
    hide Greedy, Drop, Boundary, Sum;
    DropSum(us, pos);
    if caps != [] {
      StepBoundary(us, pos, caps[0]);
      RunWritesPrefix(us, e, pos + Greedy(Drop(us, pos), caps[0]), caps[1..]);
    }
  }

  predicate AllFit(us: seq<nat>, cap: nat) {
    forall i :: 0 <= i < |us| ==> us[i] <= cap
  }

  /** With room for the largest unit every call moves at least one unit. */
  lemma {:induction false} RunCompletes(us: seq<nat>, pos: nat, cap: nat, k: nat)
    requires Positive(us) && Boundary(us, pos) && AllFit(us, cap) && k >= |Drop(us, pos)|
    ensures Position(us, pos, Reps(k, cap)) == Sum(us)
    decreases k
  {
    hide Drop, Boundary, Sum;
    var rest := Drop(us, pos);
    DropSum(us, pos);
    DropFits(us, pos, cap);
    if rest == [] {
      SumNone();
      Idle(us, pos, k, cap);
    } else {
      assert Reps(k, cap)[1..] == Reps(k - 1, cap);
      var n := Greedy(rest, cap);
      StepBoundary(us, pos, cap);
      assert n >= rest[0];
      DropTwice(us, pos, n);
      DropShorter(rest, n);
      RunCompletes(us, pos + n, cap, k - 1);
    }
  }

  lemma {:induction false} DropFits(us: seq<nat>, n: nat, cap: nat)
    requires AllFit(us, cap)
    ensures AllFit(Drop(us, n), cap)
  {
    if n > 0 && us != [] {
      DropFits(us[1..], if us[0] <= n then n - us[0] else 0, cap);
    }
  }

  lemma {:induction false} DropShorter(us: seq<nat>, n: nat)
    ensures |Drop(us, n)| <= |us|
    ensures us != [] && n > 0 ==> |Drop(us, n)| < |us|
  {
    if n > 0 && us != [] {
      DropShorter(us[1..], if us[0] <= n then n - us[0] else 0);
    }
  }

  lemma {:induction false} Idle(us: seq<nat>, pos: nat, k: nat, cap: nat)
    requires Drop(us, pos) == [] || Drop(us, pos)[0] > cap
    ensures Position(us, pos, Reps(k, cap)) == pos
  {
    if k > 0 {
      assert Reps(k, cap)[1..] == Reps(k - 1, cap);
      Idle(us, pos, k - 1, cap);
    }
  }

  /** A unit that never fits is never passed. */
  lemma {:induction false} RunStuck(us: seq<nat>, pos: nat, cap: nat, k: nat)
    requires Positive(us) && Boundary(us, pos) && !AllFit(Drop(us, pos), cap)
    ensures Position(us, pos, Reps(k, cap)) < Sum(us)
    decreases k
  {
    hide Greedy, Drop, Boundary, Sum;
    var rest := Drop(us, pos);
    DropSum(us, pos);
    if k == 0 {
      SumHead(rest[0], rest[1..]);
      assert rest == [rest[0]] + rest[1..];
    } else {
      assert Reps(k, cap)[1..] == Reps(k - 1, cap);
      StepBoundary(us, pos, cap);
      DropTwice(us, pos, Greedy(rest, cap));
      GreedyKeepsBig(rest, cap, cap);
      RunStuck(us, pos + Greedy(rest, cap), cap, k - 1);
    }
  }

  lemma {:induction false} GreedyKeepsBig(us: seq<nat>, room: nat, cap: nat)
    requires Positive(us) && room <= cap && !AllFit(us, cap)
    ensures !AllFit(Drop(us, Greedy(us, room)), cap)
  {
    if us[0] <= room {
      GreedyKeepsBig(us[1..], room - us[0], cap);
    }
  }

  /** Calls with a buffer of fixed size get the whole message out exactly when the largest unit fits in it;
      then no more calls are needed than there are units. */
  lemma RunCompletesIff(us: seq<nat>, cap: nat, k: nat)
    requires Positive(us) && k >= |us|
    ensures Position(us, 0, Reps(k, cap)) == Sum(us) <==> AllFit(us, cap)
  {
    if AllFit(us, cap) {
      RunCompletes(us, 0, cap, k);
    } else {
      RunStuck(us, 0, cap, k);
    }
  }
}
