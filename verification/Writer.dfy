/** The resumable writer: a value tree goes out through whatever buffers the caller has. */
module Writer {
  import opened Bytes
  import opened KdbValue
  import opened Cursors
  import opened Units

  datatype WriteResult = WR_OK | WR_INCOMPLETE

  /** `e` is cut into the units `us`, and earlier calls stopped between two of them. */
  ghost predicate Ready(us: seq<nat>, e: bytes, cap: nat, c: Cursor) {
    Positive(us) && Sum(us) == |e| && Valid(c, cap) && Aligned(us, c)
  }

  /** A call took the cursor from `c` to `d` over the encoding `e`: it appended to `before` exactly
      the part of `e` between where it began and where it stopped, and reports whether that is the end. */
  ghost predicate Wrote(us: seq<nat>, e: bytes, cap: nat, c: Cursor, before: bytes,
                        d: Cursor, after: bytes, wr: WriteResult)
  {
    && Ready(us, e, cap, c)
    && var p := PassOver(us, cap, c);
    && p.start <= p.stop <= p.total
    && d == p.next && Valid(d, cap)
    && (wr.WR_OK? <==> p.Done())
    && after == before + e[p.start..p.stop]
  }

  /** Writing `e` from `c` comes to the same as going on with the tail `t` from `d`. */
  ghost predicate Leads(us: seq<nat>, e: bytes, c: Cursor, before: bytes, cap: nat,
                        ts: seq<nat>, t: bytes, d: Cursor, mid: bytes)
  {
    forall f, after, wr :: Wrote(ts, t, cap, d, mid, f, after, wr) ==> Wrote(us, e, cap, c, before, f, after, wr)
  }

  lemma WroteUnit(e: bytes, cap: nat, c: Cursor, before: bytes, d: Cursor, after: bytes, wr: WriteResult)
    requires Ready([|e|], e, cap, c) && |e| > 0
    requires c.csr < 0 ==> wr.WR_OK? && d == Cursor(c.csr + |e|, c.off) && after == before
    requires c.csr >= 0 && |e| > cap - c.off ==> wr.WR_INCOMPLETE? && d == c && after == before
    requires c.csr >= 0 && |e| <= cap - c.off ==>
               wr.WR_OK? && d == Cursor(c.csr + |e|, c.off + |e|) && after == before + e
    ensures Wrote([|e|], e, cap, c, before, d, after, wr)
  {
    PassUnit(|e|, cap, c);
    assert e[0..|e|] == e;
  }

  lemma ReadySplit(a: seq<nat>, b: seq<nat>, ea: bytes, eb: bytes, cap: nat, c: Cursor)
    requires Positive(a) && Positive(b) && Sum(a) == |ea| && Sum(b) == |eb|
    requires Valid(c, cap) && Aligned(a + b, c)
    ensures Ready(a, ea, cap, c) && Ready(a + b, ea + eb, cap, c)
  {
    SumConcat(a, b);
    PassConcat(a, b, cap, c);
  }

  /** Of two stretches written one after the other, the second is begun only if the first is finished. */
  lemma WroteFirst(a: seq<nat>, b: seq<nat>, ea: bytes, eb: bytes, cap: nat, c: Cursor, before: bytes,
                   d: Cursor, mid: bytes, wr: WriteResult)
    requires Positive(b) && Sum(b) == |eb| && Aligned(a + b, c)
    requires Wrote(a, ea, cap, c, before, d, mid, wr)
    ensures wr.WR_INCOMPLETE? ==> Wrote(a + b, ea + eb, cap, c, before, d, mid, wr)
    ensures wr.WR_OK? ==> Ready(b, eb, cap, d) && Leads(a + b, ea + eb, c, before, cap, b, eb, d, mid)
  {
    ReadySplit(a, b, ea, eb, cap, c);
    PassConcat(a, b, cap, c);
    var p := PassOver(a, cap, c);
    if wr.WR_INCOMPLETE? {
      assert (ea + eb)[p.start..p.stop] == ea[p.start..p.stop];
    } else {
      forall f, after, r | Wrote(b, eb, cap, d, mid, f, after, r)
        ensures Wrote(a + b, ea + eb, cap, c, before, f, after, r)
      {
        WroteThen(a, b, ea, eb, cap, c, before, d, mid, f, after, r);
      }
    }
  }

  lemma WroteThen(a: seq<nat>, b: seq<nat>, ea: bytes, eb: bytes, cap: nat, c: Cursor, before: bytes,
                  d: Cursor, mid: bytes, f: Cursor, after: bytes, wr: WriteResult)
    requires Wrote(a, ea, cap, c, before, d, mid, WR_OK) && Wrote(b, eb, cap, d, mid, f, after, wr)
    requires Aligned(a + b, c)
    ensures Wrote(a + b, ea + eb, cap, c, before, f, after, wr)
  {
    hide PassOver, Sum, Positive, Aligned;
    ReadySplit(a, b, ea, eb, cap, c);
    PassConcat(a, b, cap, c);
    var p, q := PassOver(a, cap, c), PassOver(b, cap, d);
    assert p.Done() && p.total == |ea| && q.total == |eb| && d == p.next;
    SliceConcat(ea, eb, p.start, q.start, q.stop);
    Assoc(before, ea[p.start..p.stop], eb[q.start..q.stop]);
  }

  lemma SliceConcat(ea: bytes, eb: bytes, na: nat, nb: nat, rb: nat)
    requires na <= |ea| && nb <= rb <= |eb| && (na == |ea| || nb == 0)
    ensures (ea + eb)[na + nb..|ea| + rb] == ea[na..|ea|] + eb[nb..rb]
  {
    if na < |ea| {
      assert (ea + eb)[na..|ea| + rb] == ea[na..] + eb[..rb];
      assert eb[0..rb] == eb[..rb];
    } else {
      assert ea[na..|ea|] == [];
    }
  }

  lemma LeadsTrans(us: seq<nat>, e: bytes, c: Cursor, before: bytes, cap: nat,
                   ts: seq<nat>, t: bytes, d: Cursor, mid: bytes,
                   rs: seq<nat>, r: bytes, f: Cursor, late: bytes)
    requires Leads(us, e, c, before, cap, ts, t, d, mid) && Leads(ts, t, d, mid, cap, rs, r, f, late)
    ensures Leads(us, e, c, before, cap, rs, r, f, late)
  {
  }

  lemma LeadsTo(us: seq<nat>, e: bytes, c: Cursor, before: bytes, cap: nat,
                ts: seq<nat>, t: bytes, d: Cursor, mid: bytes, f: Cursor, after: bytes, wr: WriteResult)
    requires Leads(us, e, c, before, cap, ts, t, d, mid) && Wrote(ts, t, cap, d, mid, f, after, wr)
    ensures Wrote(us, e, cap, c, before, f, after, wr)
  {
  }

  class WriteBuf {
    const dst: array<byte>
    var csr: int
    var off: nat

    constructor (dst: array<byte>, csr: int)
      requires csr <= 0
      ensures this.dst == dst && Cur() == Cursor(csr, 0) && Ok()
    {
      this.dst, this.csr, this.off := dst, csr, 0;
    }

    ghost function Cur(): Cursor
      reads this`csr, this`off
    {
      Cursor(csr, off)
    }

    ghost predicate Ok()
      reads this`csr, this`off
    {
      Valid(Cur(), dst.Length)
    }

    ghost function Out(): bytes
      requires Ok()
      reads this`csr, this`off, dst
    {
      dst[..off]
    }

    predicate CursorActive()
      reads this`csr
    {
      csr >= 0
    }

    predicate CanWrite(n: nat)
      reads this`off
    {
      off + n <= dst.Length
    }

    method Ffwd(n: nat)
      modifies this`csr
      ensures csr == old(csr) + n
    {
      csr := csr + n;
    }

    /** Copies `s` to the write position. */
    method Put(s: bytes)
      requires Ok() && csr >= 0 && off + |s| <= dst.Length
      modifies this`csr, this`off, dst
      ensures Ok() && csr == old(csr) + |s| && off == old(off) + |s|
      ensures Out() == old(Out()) + s
      ensures Kept()
    {
      for i := 0 to |s|
        invariant csr == old(csr) && off == old(off)
        invariant dst[..off + i] == old(Out()) + s[..i]
        invariant forall j :: off + i <= j < dst.Length ==> dst[j] == old(dst[j])
      {
        dst[off + i] := s[i];
      }
      assert s[..|s|] == s;
      csr, off := csr + |s|, off + |s|;
    }

    /** Copies the elements of a vector from index `from` on, as many whole ones as there is room for. */
    method WriteAry(w: nat, es: seq<nat>, from: nat) returns (elm: nat)
      requires Ok() && csr >= 0 && w > 0 && from <= |es|
      modifies this`csr, this`off, dst
      ensures Ok()
      ensures elm == Fit(|es| - from, w, dst.Length - old(off))
      ensures csr == old(csr) + elm * w && off == old(off) + elm * w
      ensures Out() == old(Out()) + EncodeElems(w, es[from..from + elm])
      ensures Kept()
    {
      elm := Fit(|es| - from, w, dst.Length - off);
      EncodeElemsLength(w, es[from..from + elm]);
      Put(EncodeElems(w, es[from..from + elm]));
    }

    /** Nothing after the write position has changed. */
    twostate predicate Kept()
      reads this`off, dst
    {
      forall i :: off <= i < dst.Length ==> dst[i] == old(dst[i])
    }
  }

  /** One indivisible unit: passed over, written whole, or not begun. */
  method WriteUnit(e: bytes, buf: WriteBuf) returns (wr: WriteResult)
    requires |e| > 0 && buf.Ok() && Ready([|e|], e, buf.dst.Length, buf.Cur())
    modifies buf`csr, buf`off, buf.dst
    ensures buf.Ok() && buf.off >= old(buf.off) && buf.Kept()
    ensures Wrote([|e|], e, buf.dst.Length, old(buf.Cur()), old(buf.Out()), buf.Cur(), buf.Out(), wr)
    ensures wr.WR_INCOMPLETE? ==> buf.off == old(buf.off)
  {
    PassUnit(|e|, buf.dst.Length, buf.Cur());
    if !buf.CursorActive() {
      buf.Ffwd(|e|);
      wr := WR_OK;
    } else if !buf.CanWrite(|e|) {
      wr := WR_INCOMPLETE;
    } else {
      buf.Put(e);
      wr := WR_OK;
    }
    WroteUnit(e, buf.dst.Length, old(buf.Cur()), old(buf.Out()), buf.Cur(), buf.Out(), wr);
  }

  /** The elements of a vector: whatever earlier calls wrote is skipped, then as many as fit are written. */
  method WriteElems(w: nat, es: seq<nat>, buf: WriteBuf) returns (wr: WriteResult)
    requires w > 0 && buf.Ok() && Ready(Reps(|es|, w), EncodeElems(w, es), buf.dst.Length, buf.Cur())
    modifies buf`csr, buf`off, buf.dst
    ensures buf.Ok() && buf.off >= old(buf.off) && buf.Kept()
    ensures Wrote(Reps(|es|, w), EncodeElems(w, es), buf.dst.Length, old(buf.Cur()), old(buf.Out()),
                  buf.Cur(), buf.Out(), wr)
  {
    hide PassOver, Sum, Positive, Aligned, Reps, EncodeElems;
    EncodeElemsLength(w, es);
    ghost var cur := buf.Cur();
    ghost var s, m := 0, 0;
    if Skip(cur) < |es| * w {
      s, m := PassRepsInside(|es|, w, buf.dst.Length, cur);
    } else {
      PassRepsBeyond(|es|, w, buf.dst.Length, cur);
    }
    var skp := 0;
    if buf.csr < 0 {
      skp := (if -buf.csr < |es| * w then -buf.csr else |es| * w) / w;
    } else {
      RoomZero(w);
    }
    if skp > 0 {
      buf.Ffwd(skp * w);
    }
    if |es| > skp {
      var wrt := buf.WriteAry(w, es, skp);
      EncodeElemsSlice(w, es, skp, skp + wrt);
      if skp + wrt < |es| {
        return WR_INCOMPLETE;
      }
    }
    wr := WR_OK;
  }

  lemma RoomZero(w: nat)
    requires w > 0
    ensures 0 / w == 0
  {
  }

  lemma {:induction false} BytesAreElems(s: bytes)
    ensures EncodeElems(1, s) == s
  {
    if s != [] {
      BytesAreElems(s[1..]);
      assert ToLE(1, s[0]) == [s[0]];
    }
  }

  /** Writes what fits of `v`, after what earlier calls wrote of it. */
  method WriteVal(v: Val, buf: WriteBuf) returns (wr: WriteResult)
    requires WF(v) && Plain(v) && buf.Ok() && Ready(WUnits(v), Encode(v), buf.dst.Length, buf.Cur())
    modifies buf`csr, buf`off, buf.dst
    ensures buf.Ok() && buf.off >= old(buf.off) && buf.Kept()
    ensures Wrote(WUnits(v), Encode(v), buf.dst.Length, old(buf.Cur()), old(buf.Out()), buf.Cur(), buf.Out(), wr)
    decreases v, 2
  {
    hide Wrote, Ready, Positive, Sum, Aligned, Reps, EncodeElems;
    EncodeShape(v);
    match v
    case Atom(t, n) =>
      wr := WriteUnit([U8(t)] + ToLE(FixedWidth(t), n), buf);
    case Sym(s) =>
      wr := WriteUnit([U8(SYMBOL_ATOM)] + s + [0], buf);
    case Exception(s) =>
      wr := WriteUnit([U8(EXCEPTION)] + s + [0], buf);
    case Vec(t, a, es) =>
      wr := WriteVec(Header(t, a, |es|), ElemWidth(t), es, buf);
    case SymVec(a, ss) =>
      wr := WriteVec(Header(SYMBOL_VECTOR, a, |ss|), 1, EncodeSyms(ss), buf);
    case List(a, vs) =>
      wr := WriteSeq(Header(LIST, a, |vs|), vs, v, buf);
    case Table(c, r) =>
      wr := WritePair([U8(TABLE), 0, U8(DICT)], c, r, v, buf);
    case Dict(_, k, x) =>
      wr := WritePair([U8(DICT)], k, x, v, buf);
    case Func(s) =>
      wr := WriteVec([U8(FUNCTION), 0] + Header(CHAR_VECTOR, 0, |s|), 1, s, buf);
    case Proj(vs) =>
      wr := WriteSeq([U8(PROJECTION)] + ToLE(4, |vs|), vs, v, buf);
  }

  /** A header, then elements. */
  method WriteVec(head: bytes, w: nat, es: seq<nat>, buf: WriteBuf) returns (wr: WriteResult)
    requires |head| > 0 && w > 0
    requires buf.Ok() && Ready([|head|] + Reps(|es|, w), head + EncodeElems(w, es), buf.dst.Length, buf.Cur())
    modifies buf`csr, buf`off, buf.dst
    ensures buf.Ok() && buf.off >= old(buf.off) && buf.Kept()
    ensures Wrote([|head|] + Reps(|es|, w), head + EncodeElems(w, es), buf.dst.Length, old(buf.Cur()), old(buf.Out()),
                  buf.Cur(), buf.Out(), wr)
  {
    hide Wrote, Leads;
    VecReady(head, w, es, buf.dst.Length, buf.Cur());
    wr := WriteUnit(head, buf);
    WroteFirst([|head|], Reps(|es|, w), head, EncodeElems(w, es), buf.dst.Length, old(buf.Cur()), old(buf.Out()),
               buf.Cur(), buf.Out(), wr);
    if wr.WR_OK? {
      ghost var d, mid := buf.Cur(), buf.Out();
      wr := WriteElems(w, es, buf);
      LeadsTo([|head|] + Reps(|es|, w), head + EncodeElems(w, es), old(buf.Cur()), old(buf.Out()), buf.dst.Length,
              Reps(|es|, w), EncodeElems(w, es), d, mid, buf.Cur(), buf.Out(), wr);
    }
  }

  lemma VecReady(head: bytes, w: nat, es: seq<nat>, cap: nat, c: Cursor)
    requires |head| > 0 && w > 0
    requires Ready([|head|] + Reps(|es|, w), head + EncodeElems(w, es), cap, c)
    ensures Ready([|head|], head, cap, c)
    ensures Positive(Reps(|es|, w)) && Sum(Reps(|es|, w)) == |EncodeElems(w, es)|
    ensures Aligned([|head|] + Reps(|es|, w), c)
  {
    SumReps(|es|, w);
    EncodeElemsLength(w, es);
    SumHead(|head|, []);
    assert [|head|] + [] == [|head|];
    ReadySplit([|head|], Reps(|es|, w), head, EncodeElems(w, es), cap, c);
  }

  /** Every composite encoding is a head followed by its parts. */
  lemma EncodeShape(v: Val)
    requires WF(v)
    ensures v.SymVec? ==>
              && WUnits(v) == [SZ_VEC_HDR] + Reps(|EncodeSyms(v.syms)|, 1)
              && Encode(v) == Header(SYMBOL_VECTOR, v.sattr, |v.syms|) + EncodeElems(1, EncodeSyms(v.syms))
    ensures v.Func? ==>
              Encode(v) == ([U8(FUNCTION), 0] + Header(CHAR_VECTOR, 0, |v.body|)) + EncodeElems(1, v.body)
    ensures v.Table? ==> Encode(v) == [U8(TABLE), 0, U8(DICT)] + (Encode(v.cols) + Encode(v.rows))
    ensures v.Dict? ==> Encode(v) == [U8(v.code)] + (Encode(v.keys) + Encode(v.vals))
  {
    hide EncodeSyms, EncodeElems, Reps, NoNul, FixedWidth, ElemWidth;
    if v.SymVec? {
      EncodeSymsLength(v.syms);
      BytesAreElems(EncodeSyms(v.syms));
    } else if v.Func? {
      BytesAreElems(v.body);
    }
  }

  /** A header, then a key set and its values. */
  method WritePair(head: bytes, a: Val, b: Val, ghost v: Val, buf: WriteBuf) returns (wr: WriteResult)
    requires |head| > 0 && WF(a) && WF(b) && Plain(a) && Plain(b)
    requires (v.Table? && a == v.cols && b == v.rows) || (v.Dict? && a == v.keys && b == v.vals)
    requires buf.Ok()
    requires Ready([|head|] + (WUnits(a) + WUnits(b)), head + (Encode(a) + Encode(b)), buf.dst.Length, buf.Cur())
    modifies buf`csr, buf`off, buf.dst
    ensures buf.Ok() && buf.off >= old(buf.off) && buf.Kept()
    ensures Wrote([|head|] + (WUnits(a) + WUnits(b)), head + (Encode(a) + Encode(b)), buf.dst.Length,
                  old(buf.Cur()), old(buf.Out()), buf.Cur(), buf.Out(), wr)
    decreases v, 1
  {
    hide Wrote, Ready, Leads, Positive, Sum, Aligned, WF, Plain, WUnits, Encode;
    ghost var ua, ub, ea, eb, cap := WUnits(a), WUnits(b), Encode(a), Encode(b), buf.dst.Length;
    ghost var c, before := buf.Cur(), buf.Out();
    PairReady(head, a, b, cap, c);
    wr := WriteUnit(head, buf);
    ghost var d, mid := buf.Cur(), buf.Out();
    WroteFirst([|head|], ua + ub, head, ea + eb, cap, c, before, d, mid, wr);
    if wr.WR_OK? {
      SecondReady(a, b, cap, d);
      wr := WriteVal(a, buf);
      ghost var f, late := buf.Cur(), buf.Out();
      WroteFirst(ua, ub, ea, eb, cap, d, mid, f, late, wr);
      if wr.WR_OK? {
        wr := WriteVal(b, buf);
        LeadsTo(ua + ub, ea + eb, d, mid, cap, ub, eb, f, late, buf.Cur(), buf.Out(), wr);
      }
      LeadsTo([|head|] + (ua + ub), head + (ea + eb), c, before, cap, ua + ub, ea + eb, d, mid, buf.Cur(), buf.Out(),
              wr);
    }
  }

  lemma PairReady(head: bytes, a: Val, b: Val, cap: nat, c: Cursor)
    requires |head| > 0 && WF(a) && WF(b)
    requires Ready([|head|] + (WUnits(a) + WUnits(b)), head + (Encode(a) + Encode(b)), cap, c)
    ensures Ready([|head|], head, cap, c)
    ensures Positive(WUnits(a) + WUnits(b)) && Sum(WUnits(a) + WUnits(b)) == |Encode(a) + Encode(b)|
    ensures Aligned([|head|] + (WUnits(a) + WUnits(b)), c)
  {
    WUnitsSum(a);
    WUnitsSum(b);
    SumConcat(WUnits(a), WUnits(b));
    HeadReady(head, WUnits(a) + WUnits(b), Encode(a) + Encode(b), cap, c);
  }

  lemma HeadReady(head: bytes, us: seq<nat>, e: bytes, cap: nat, c: Cursor)
    requires |head| > 0 && Positive(us) && Sum(us) == |e|
    requires Ready([|head|] + us, head + e, cap, c)
    ensures Ready([|head|], head, cap, c)
  {
    SumHead(|head|, []);
    assert [|head|] + [] == [|head|];
    ReadySplit([|head|], us, head, e, cap, c);
  }

  lemma SecondReady(a: Val, b: Val, cap: nat, c: Cursor)
    requires WF(a) && WF(b) && Ready(WUnits(a) + WUnits(b), Encode(a) + Encode(b), cap, c)
    ensures Ready(WUnits(a), Encode(a), cap, c) && Aligned(WUnits(a) + WUnits(b), c)
    ensures Positive(WUnits(b)) && Sum(WUnits(b)) == |Encode(b)|
  {
    WUnitsSum(a);
    WUnitsSum(b);
    ReadySplit(WUnits(a), WUnits(b), Encode(a), Encode(b), cap, c);
  }

  /** A header, then the elements of a list or projection one after the other. */
  method WriteSeq(head: bytes, vs: seq<Val>, ghost v: Val, buf: WriteBuf) returns (wr: WriteResult)
    requires |head| > 0 && AllWF(vs) && AllPlain(vs)
    requires (v.List? && vs == v.items) || (v.Proj? && vs == v.args)
    requires buf.Ok() && Ready([|head|] + WUnitsAll(vs), head + EncodeAll(vs), buf.dst.Length, buf.Cur())
    modifies buf`csr, buf`off, buf.dst
    ensures buf.Ok() && buf.off >= old(buf.off) && buf.Kept()
    ensures Wrote([|head|] + WUnitsAll(vs), head + EncodeAll(vs), buf.dst.Length,
                  old(buf.Cur()), old(buf.Out()), buf.Cur(), buf.Out(), wr)
    decreases v, 1
  {
    hide Wrote, Ready, Leads, Positive, Sum, Aligned, WF, Plain, AllWF, WUnits, Encode, WUnitsAll, EncodeAll;
    ghost var us, e, cap := [|head|] + WUnitsAll(vs), head + EncodeAll(vs), buf.dst.Length;
    ghost var c, before := buf.Cur(), buf.Out();
    SeqReady(head, vs, cap, c);
    wr := WriteUnit(head, buf);
    WroteFirst([|head|], WUnitsAll(vs), head, EncodeAll(vs), cap, c, before, buf.Cur(), buf.Out(), wr);
    if wr.WR_INCOMPLETE? {
      return;
    }
    assert vs[0..] == vs;
    for i := 0 to |vs|
      invariant buf.Ok() && buf.off >= old(buf.off) && buf.Kept() && AllWF(vs[i..])
      invariant Ready(WUnitsAll(vs[i..]), EncodeAll(vs[i..]), cap, buf.Cur())
      invariant Leads(us, e, c, before, cap, WUnitsAll(vs[i..]), EncodeAll(vs[i..]), buf.Cur(), buf.Out())
    {
      ghost var d, mid := buf.Cur(), buf.Out();
      FirstReady(vs, i, cap, d);
      wr := WriteVal(vs[i], buf);
      WroteFirst(WUnits(vs[i]), WUnitsAll(vs[i + 1..]), Encode(vs[i]), EncodeAll(vs[i + 1..]), cap, d, mid,
                 buf.Cur(), buf.Out(), wr);
      if wr.WR_INCOMPLETE? {
        LeadsTo(us, e, c, before, cap, WUnitsAll(vs[i..]), EncodeAll(vs[i..]), d, mid, buf.Cur(), buf.Out(), wr);
        return;
      }
      LeadsTrans(us, e, c, before, cap, WUnitsAll(vs[i..]), EncodeAll(vs[i..]), d, mid,
                 WUnitsAll(vs[i + 1..]), EncodeAll(vs[i + 1..]), buf.Cur(), buf.Out());
    }
    wr := WR_OK;
    WroteNothing(vs, cap, buf.Cur(), buf.Out());
    LeadsTo(us, e, c, before, cap, WUnitsAll(vs[|vs|..]), EncodeAll(vs[|vs|..]), buf.Cur(), buf.Out(),
            buf.Cur(), buf.Out(), wr);
  }

  lemma SeqReady(head: bytes, vs: seq<Val>, cap: nat, c: Cursor)
    requires |head| > 0 && AllWF(vs) && Ready([|head|] + WUnitsAll(vs), head + EncodeAll(vs), cap, c)
    ensures Ready([|head|], head, cap, c)
    ensures Positive(WUnitsAll(vs)) && Sum(WUnitsAll(vs)) == |EncodeAll(vs)|
    ensures Aligned([|head|] + WUnitsAll(vs), c)
  {
    WUnitsAllSum(vs);
    HeadReady(head, WUnitsAll(vs), EncodeAll(vs), cap, c);
  }

  lemma FirstReady(vs: seq<Val>, i: nat, cap: nat, c: Cursor)
    requires i < |vs| && AllWF(vs[i..]) && Ready(WUnitsAll(vs[i..]), EncodeAll(vs[i..]), cap, c)
    ensures WF(vs[i]) && AllWF(vs[i + 1..])
    ensures WUnitsAll(vs[i..]) == WUnits(vs[i]) + WUnitsAll(vs[i + 1..])
    ensures EncodeAll(vs[i..]) == Encode(vs[i]) + EncodeAll(vs[i + 1..])
    ensures Ready(WUnits(vs[i]), Encode(vs[i]), cap, c)
    ensures Positive(WUnitsAll(vs[i + 1..])) && Sum(WUnitsAll(vs[i + 1..])) == |EncodeAll(vs[i + 1..])|
    ensures Aligned(WUnits(vs[i]) + WUnitsAll(vs[i + 1..]), c)
  {
    var rest := vs[i..];
    assert rest[0] == vs[i] && rest[1..] == vs[i + 1..];
    WUnitsSum(vs[i]);
    WUnitsAllSum(vs[i + 1..]);
    ReadySplit(WUnits(vs[i]), WUnitsAll(vs[i + 1..]), Encode(vs[i]), EncodeAll(vs[i + 1..]), cap, c);
  }

  lemma WroteNothing(vs: seq<Val>, cap: nat, c: Cursor, out: bytes)
    requires Valid(c, cap)
    ensures vs[|vs|..] == []
    ensures Wrote(WUnitsAll([]), EncodeAll([]), cap, c, out, c, out, WR_OK)
  {
  }
}
