/** Creating objects from their heads, and reading the children of lists, tables, dictionaries and projections. */
module TreeReader {
  import opened Bytes
  import opened KdbValue
  import opened Cursors
  import opened Units
  import opened Partial
  import opened Reader

  /** The buffer stands at the start of the encoding of `v`. */
  ghost predicate AtStart(v: Val, src: bytes, c: Cursor) {
    WF(v) && Valid(c, |src|) && c.csr >= 0 && Agrees(src[c.off..], Encode(v))
  }

  /** The object for `v` was created from its head, or the head has not all arrived and nothing was taken. */
  ghost predicate Created(v: Val, src: bytes, c: Cursor, obj: Option<Part>, d: Cursor, rr: ReadResult) {
    var h := HeadSz(v);
    if c.off + h <= |src| then rr.RD_OK? && obj == Some(After(v, 0)) && d == Cursor(c.csr + h, c.off + h)
    else rr.RD_INCOMPLETE? && obj == None && d == c
  }

  /** What comes of the bytes at hand: an object and the bytes of its head, or why there is none, and what was taken. */
  datatype Head = Makes(obj: Part, used: nat) | Refuses(rr: ReadResult, used: nat)

  /** By the type byte: symbols and exceptions, atoms, lists and vectors, tables, dictionaries of either kind,
      functions and projections. */
  function HeadOf(s: bytes): Head {
    if s == [] then Refuses(RD_INCOMPLETE, 0)
    else if s[0] == 128 then Makes(PSym(-128, []), 1)
    else if s[0] == 245 then Makes(PSym(-11, []), 1)
    else if 237 <= s[0] && s[0] != 241 && s[0] != 253 then Makes(PAtom((s[0] as int) - 256, 0), 1)
    else if 101 <= s[0] <= 103 then Makes(PAtom(s[0], 0), 1)
    else if s[0] == 99 || s[0] == 127 then Makes(PDict(None, None), 1)
    else if s[0] == 98 then if |s| < 3 then Refuses(RD_INCOMPLETE, 0) else Makes(PTable(None, None), 3)
    else if s[0] <= 19 && s[0] != 3 && s[0] != 15 then
      if |s| < 6 then Refuses(RD_INCOMPLETE, 0)
      else if AsInt32(s[2..6]) < 0 then Refuses(RD_THROWN, 6)
      else if s[0] == 0 then Makes(PList(s[1], AsInt32(s[2..6]), []), 6)
      else if s[0] == 11 then Makes(PSymVec(s[1], AsInt32(s[2..6]), [], []), 6)
      else Makes(PVec(s[0], s[1], AsInt32(s[2..6]), []), 6)
    else if s[0] == 100 then
      if |s| < 8 then Refuses(RD_INCOMPLETE, 0)
      else if s[2] != 10 || AsInt32(s[4..8]) < 0 then Refuses(RD_ERR_IPC, 8)
      else Makes(PFunc(AsInt32(s[4..8]), []), 8)
    else if s[0] == 104 then
      if |s| < 5 then Refuses(RD_INCOMPLETE, 0)
      else if AsInt32(s[1..5]) < 0 then Refuses(RD_ERR_IPC, 5)
      else Makes(PProj(AsInt32(s[1..5]), []), 5)
    else Refuses(RD_ERR_LOGIC, 0)
  }

  /** Whatever the bytes are, an active cursor creates what its head says, and moves by what was taken. */
  ghost predicate TookHead(h: Head, c: Cursor, obj: Option<Part>, d: Cursor, rr: ReadResult) {
    && d == Cursor(c.csr + h.used, c.off + h.used)
    && if h.Makes? then rr.RD_OK? && obj == Some(h.obj) else rr == h.rr && obj == None
  }

  /** Creates the object whose head comes next in the buffer. */
  method NewInstance(buf: ReadBuf, ghost v: Val) returns (obj: Option<Part>, rr: ReadResult)
    requires buf.Ok()
    modifies buf`csr, buf`off
    ensures buf.Ok() && buf.off >= old(buf.off)
    ensures rr.RD_OK? <==> obj.Some?
    ensures rr.RD_UNDEFINED? <==> old(buf.csr) < 0
    ensures obj.Some? ==> Sane(obj.value) && buf.off > old(buf.off)
    ensures old(buf.csr) >= 0 ==> TookHead(HeadOf(buf.src[old(buf.off)..]), old(buf.Cur()), obj, buf.Cur(), rr)
    ensures AtStart(v, buf.src, old(buf.Cur())) ==> Created(v, buf.src, old(buf.Cur()), obj, buf.Cur(), rr)
  {
    hide AtStart, After, FixedWidth, ElemWidth, FromLE, HeadOf, AsInt32;
    if AtStart(v, buf.src, buf.Cur()) {
      HeadStep(v, buf.src, buf.Cur());
    }
    HeadIs(buf.src, buf.off);
    if !buf.CursorActive() {
      return None, RD_UNDEFINED;
    }
    if buf.Remaining() < SZ_BYTE {
      return None, RD_INCOMPLETE;
    }
    var t := I8(buf.src[buf.off]);
    if t == EXCEPTION || t == SYMBOL_ATOM {
      buf.Adj(SZ_BYTE);
      return Some(PSym(t, [])), RD_OK;
    } else if FixedWidth(t) > 0 {
      buf.Adj(SZ_BYTE);
      return Some(PAtom(t, 0)), RD_OK;
    } else if t == LIST || t == SYMBOL_VECTOR || ElemWidth(t) > 0 {
      obj, rr := NewVec32(t, buf);
    } else if t == TABLE {
      if buf.Remaining() < SZ_TBL_HDR {
        return None, RD_INCOMPLETE;
      }
      buf.Adj(SZ_TBL_HDR);
      return Some(PTable(None, None)), RD_OK;
    } else if t == DICT || t == STEP_DICT {
      buf.Adj(SZ_BYTE);
      return Some(PDict(None, None)), RD_OK;
    } else if t == FUNCTION {
      if buf.Remaining() < SZ_FUN_HDR {
        return None, RD_INCOMPLETE;
      }
      var ctyp := I8(buf.src[buf.off + 2]);
      var len := AsInt32(buf.src[buf.off + 4..buf.off + 8]);
      buf.Adj(SZ_FUN_HDR);
      if ctyp != CHAR_VECTOR || len < 0 {
        return None, RD_ERR_IPC;
      }
      return Some(PFunc(len, [])), RD_OK;
    } else if t == PROJECTION {
      if buf.Remaining() < SZ_PRJ_HDR {
        return None, RD_INCOMPLETE;
      }
      var len := AsInt32(buf.src[buf.off + 1..buf.off + 5]);
      buf.Adj(SZ_PRJ_HDR);
      if len < 0 {
        return None, RD_ERR_IPC;
      }
      return Some(PProj(len, [])), RD_OK;
    } else {
      return None, RD_ERR_LOGIC;
    }
  }

  /** The branches of the program, by the names of the types. */
  lemma HeadIs(src: bytes, off: nat)
    requires off <= |src|
    ensures var h, rem := HeadOf(src[off..]), |src| - off;
            if rem == 0 then h == Refuses(RD_INCOMPLETE, 0)
            else
              var t := I8(src[off]);
              if t == EXCEPTION || t == SYMBOL_ATOM then h == Makes(PSym(t, []), 1)
              else if FixedWidth(t) > 0 then h == Makes(PAtom(t, 0), 1)
              else if t == LIST || t == SYMBOL_VECTOR || ElemWidth(t) > 0 then
                if rem < 6 then h == Refuses(RD_INCOMPLETE, 0)
                else
                  var att, len := src[off + 1], AsInt32(src[off + 2..off + 6]);
                  if len < 0 then h == Refuses(RD_THROWN, 6)
                  else h == Makes(if t == LIST then PList(att, len, [])
                                  else if t == SYMBOL_VECTOR then PSymVec(att, len, [], [])
                                  else PVec(t, att, len, []), 6)
              else if t == TABLE then h == if rem < 3 then Refuses(RD_INCOMPLETE, 0) else Makes(PTable(None, None), 3)
              else if t == DICT || t == STEP_DICT then h == Makes(PDict(None, None), 1)
              else if t == FUNCTION then
                if rem < 8 then h == Refuses(RD_INCOMPLETE, 0)
                else
                  var len := AsInt32(src[off + 4..off + 8]);
                  h == if I8(src[off + 2]) != CHAR_VECTOR || len < 0 then Refuses(RD_ERR_IPC, 8)
                       else Makes(PFunc(len, []), 8)
              else if t == PROJECTION then
                if rem < 5 then h == Refuses(RD_INCOMPLETE, 0)
                else
                  var len := AsInt32(src[off + 1..off + 5]);
                  h == if len < 0 then Refuses(RD_ERR_IPC, 5) else Makes(PProj(len, []), 5)
              else h == Refuses(RD_ERR_LOGIC, 0)
  {
    hide AsInt32;
    var s := src[off..];
    assert |s| >= 6 ==> s[2..6] == src[off + 2..off + 6];
    assert |s| >= 8 ==> s[4..8] == src[off + 4..off + 8];
    assert |s| >= 5 ==> s[1..5] == src[off + 1..off + 5];
  }

  /** The object for a list or vector, with the count its header announces as its capacity. */
  method NewVec32(t: int, buf: ReadBuf) returns (obj: Option<Part>, rr: ReadResult)
    requires buf.Ok() && (t == LIST || t == SYMBOL_VECTOR || ElemWidth(t) > 0)
    modifies buf`csr, buf`off
    ensures buf.Ok() && buf.off >= old(buf.off)
    ensures obj.Some? ==> Sane(obj.value)
    ensures old(buf.Remaining()) < SZ_VEC_HDR ==> obj == None && rr.RD_INCOMPLETE? && buf.Cur() == old(buf.Cur())
    ensures old(buf.Remaining()) >= SZ_VEC_HDR ==>
              var off := old(buf.off);
              var att, len := buf.src[off + 1], AsInt32(buf.src[off + 2..off + 6]);
              && buf.Cur() == Cursor(old(buf.csr) + SZ_VEC_HDR, off + SZ_VEC_HDR)
              && (len < 0 ==> obj == None && rr.RD_THROWN?)
              && (len >= 0 ==> rr.RD_OK? && obj == Some(
                    if t == LIST then PList(att, len, [])
                    else if t == SYMBOL_VECTOR then PSymVec(att, len, [], [])
                    else PVec(t, att, len, [])))
  {
    hide FromLE;
    if buf.Remaining() < SZ_VEC_HDR {
      return None, RD_INCOMPLETE;
    }
    var att, len := buf.src[buf.off + 1], AsInt32(buf.src[buf.off + 2..buf.off + 6]);
    buf.Adj(SZ_VEC_HDR);
    if len < 0 {
      return None, RD_THROWN;
    }
    rr := RD_OK;
    if t == LIST {
      obj := Some(PList(att, len, []));
    } else if t == SYMBOL_VECTOR {
      obj := Some(PSymVec(att, len, [], []));
    } else {
      obj := Some(PVec(t, att, len, []));
    }
  }

  /** The object for `v` before anything but its head has been read. */
  function Fresh(v: Val): Part {
    match v
    case Atom(t, _) => PAtom(t, 0)
    case Sym(_) => PSym(SYMBOL_ATOM, [])
    case Exception(_) => PSym(EXCEPTION, [])
    case Vec(t, a, es) => PVec(t, a, |es|, [])
    case SymVec(a, ss) => PSymVec(a, |ss|, [], [])
    case List(a, vs) => PList(a, |vs|, [])
    case Table(_, _) => PTable(None, None)
    case Dict(_, _, _) => PDict(None, None)
    case Func(s) => PFunc(|s|, [])
    case Proj(vs) => PProj(|vs|, [])
  }

  lemma AfterZero(v: Val)
    requires WF(v)
    ensures After(v, 0) == Fresh(v)
  {
    hide AfterAll, SymsDone, Begun;
    match v
    case Atom(_, _) =>
    case Sym(_) =>
    case Exception(_) =>
    case Vec(t, _, _) => DivUnique(0, ElemWidth(t), 0, 0);
    case SymVec(_, ss) => NothingYet(ss, []);
    case List(_, vs) => NothingYet([], vs);
    case Table(c, r) => NotBegun(c, 0); NotBegun(r, 0 - HeadSz(c) - BodySz(c));
    case Dict(_, k, x) => NotBegun(k, 0); NotBegun(x, 0 - HeadSz(k) - BodySz(k));
    case Func(_) =>
    case Proj(vs) => NothingYet([], vs);
  }

  lemma NothingYet(ss: seq<bytes>, vs: seq<Val>)
    ensures SymsDone(ss, 0) == [] && LocsOf([], 0) == [] && EncodeSyms([]) == [] && AfterAll(vs, 0) == []
  {
  }

  lemma NotBegun(v: Val, n: int)
    requires n <= 0
    ensures Begun(v, n) == None
  {
  }

  /** What the fields of the head of `v` hold. */
  lemma HeadFields(v: Val)
    requires WF(v)
    ensures var e := Encode(v);
            && HeadSz(v) <= |e| && |e| > 0 && I8(e[0]) == TypeOf(v)
            && (v.Vec? ==> e[1] == v.attr && AsInt32(e[2..6]) == |v.elems|)
            && (v.SymVec? ==> e[1] == v.sattr && AsInt32(e[2..6]) == |v.syms|)
            && (v.List? ==> e[1] == v.lattr && AsInt32(e[2..6]) == |v.items|)
            && (v.Func? ==> I8(e[2]) == CHAR_VECTOR && AsInt32(e[4..8]) == |v.body|)
            && (v.Proj? ==> AsInt32(e[1..5]) == |v.args|)
  {
    hide EncodeAll, EncodeElems, EncodeSyms, AsInt32, ToLE, NoNul, NoNuls, Patterns;
    match v
    case Vec(t, a, es) =>
      Int32RoundTrip(|es|);
      CountField(t, a, |es|, EncodeElems(ElemWidth(t), es));
    case SymVec(a, ss) =>
      Int32RoundTrip(|ss|);
      CountField(SYMBOL_VECTOR, a, |ss|, EncodeSyms(ss));
    case List(a, vs) =>
      Int32RoundTrip(|vs|);
      CountField(LIST, a, |vs|, EncodeAll(vs));
    case Func(s) =>
      Int32RoundTrip(|s|);
      assert Encode(v)[4..8] == ToLE(4, |s|);
    case Proj(vs) =>
      Int32RoundTrip(|vs|);
      assert Encode(v)[1..5] == ToLE(4, |vs|);
    case _ =>
  }

  lemma CountField(t: int, a: byte, n: nat, rest: bytes)
    requires -128 <= t < 128
    ensures var e := Header(t, a, n) + rest;
            e[0] == U8(t) && e[1] == a && e[2..6] == ToLE(4, n)
  {
  }

  /** What the head of `v` tells once it has arrived. */
  lemma HeadStep(v: Val, src: bytes, c: Cursor)
    requires AtStart(v, src, c)
    ensures c.csr == c.off <= |src| && HeadSz(v) >= 1
    ensures c.off < |src| ==> I8(src[c.off]) == TypeOf(v)
    ensures var t := TypeOf(v);
            && (v.Atom? <==> FixedWidth(t) > 0)
            && (v.Sym? <==> t == SYMBOL_ATOM) && (v.Exception? <==> t == EXCEPTION)
            && (v.Vec? <==> ElemWidth(t) > 0)
            && (v.SymVec? <==> t == SYMBOL_VECTOR) && (v.List? <==> t == LIST)
            && (v.Table? <==> t == TABLE) && (v.Dict? <==> t == DICT || t == STEP_DICT)
            && (v.Func? <==> t == FUNCTION) && (v.Proj? <==> t == PROJECTION)
    ensures var off := c.off;
            off + HeadSz(v) <= |src| ==>
              && (v.Vec? ==> src[off + 1] == v.attr && AsInt32(src[off + 2..off + 6]) == |v.elems|)
              && (v.SymVec? ==> src[off + 1] == v.sattr && AsInt32(src[off + 2..off + 6]) == |v.syms|)
              && (v.List? ==> src[off + 1] == v.lattr && AsInt32(src[off + 2..off + 6]) == |v.items|)
              && (v.Func? ==> I8(src[off + 2]) == CHAR_VECTOR && AsInt32(src[off + 4..off + 8]) == |v.body|)
              && (v.Proj? ==> AsInt32(src[off + 1..off + 5]) == |v.args|)
    ensures After(v, 0) == Fresh(v)
  {
    hide WF, Encode, AsInt32, After, FixedWidth, ElemWidth, Fresh;
    Kinds(v);
    HeadFields(v);
    AfterZero(v);
    var off, h, e := c.off, HeadSz(v), Encode(v);
    if off < |src| {
      SameByte(src, off, e, 0);
    }
    if off + h <= |src| {
      if v.Vec? || v.SymVec? || v.List? {
        SameByte(src, off, e, 1);
        SameField(src, off, e, 2, 6);
      } else if v.Func? {
        SameByte(src, off, e, 2);
        SameField(src, off, e, 4, 8);
      } else if v.Proj? {
        SameField(src, off, e, 1, 5);
      }
    }
  }

  lemma SameByte(src: bytes, off: nat, e: bytes, i: nat)
    requires off + i < |src| && i < |e| && Agrees(src[off..], e)
    ensures src[off + i] == e[i]
  {
    assert src[off..][i] == src[off + i];
  }

  lemma SameField(src: bytes, off: nat, e: bytes, i: nat, j: nat)
    requires i <= j && off + j <= |src| && j <= |e| && Agrees(src[off..], e)
    ensures src[off + i..off + j] == e[i..j]
  {
    if src[off..] <= e {
      assert src[off..] == e[..|src| - off];
    } else {
      assert src[off..][..|e|] == e;
    }
    assert src[off + i..off + j] == src[off..][i..j];
  }

  const ANY := 256

  /** The buffer goes on with child `k`, of which `slot` is what earlier calls made. */
  ghost predicate GoodChild(k: Val, slot: Option<Part>, src: bytes, c: Cursor) {
    WF(k) && Feeds(RUnits(k), Encode(k), src, c) && slot == Begun(k, PassOver(RUnits(k), |src|, c).start)
  }

  ghost predicate DidChild(k: Val, src: bytes, c: Cursor, slot: Option<Part>, d: Cursor, rr: ReadResult) {
    Valid(c, |src|) &&
    var s := PassOver(RUnits(k), |src|, c);
    && d == s.next && Valid(d, |src|)
    && slot == Begun(k, s.stop)
    && rr == if s.Done() then RD_OK else RD_INCOMPLETE
  }

  /** Reading a child is reading its head, if no earlier call has, and then its body. */
  lemma ChildEnter(k: Val, slot: Option<Part>, src: bytes, c: Cursor)
    requires GoodChild(k, slot, src, c)
    ensures c.csr >= 0 ==>
              && slot == None && AtStart(k, src, c)
              && (c.off + HeadSz(k) > |src| ==> DidChild(k, src, c, None, c, RD_INCOMPLETE))
              && (c.off + HeadSz(k) <= |src| ==>
                    ChildGoesOn(k, After(k, 0), src, c, Cursor(c.csr + HeadSz(k), c.off + HeadSz(k))))
    ensures c.csr < 0 ==> slot.Some? && ChildGoesOn(k, slot.value, src, c, c)
  {
    hide Sum, Boundary, Encode, RBody, After, PassOver, Positive, Agrees, Aligned, Body, RUnits, Feeds, WF;
    hide ChildGoesOn;
    var h := HeadSz(k);
    ChildSplit(k, src, c);
    PassUnit(h, |src|, c);
    if c.csr < 0 {
      ChildBody(k, slot.value, src, c, c);
    } else if c.off + h <= |src| {
      ChildBody(k, After(k, 0), src, c, Cursor(c.csr + h, c.off + h));
    }
  }

  lemma ChildSplit(k: Val, src: bytes, c: Cursor)
    requires WF(k) && Feeds(RUnits(k), Encode(k), src, c)
    ensures Valid(c, |src|) && Aligned([HeadSz(k)], c)
    ensures c.csr >= 0 ==> Agrees(src[c.off..], Encode(k))
    ensures var p := PassOver([HeadSz(k)], |src|, c);
            && (p.Done() ==> Feeds(RBody(k), Body(k), src, p.next))
            && (p.Done() ==> PassOver(RUnits(k), |src|, c) == p.Then(PassOver(RBody(k), |src|, p.next)))
            && (!p.Done() ==> PassOver(RUnits(k), |src|, c) == p.Stalled(BodySz(k)))
    ensures BodySz(k) == |Body(k)|
  {
    hide Encode, RBody, PassOver, Boundary;
    RUnitsSum(k);
    SumOne(HeadSz(k));
    assert Encode(k)[..HeadSz(k)] + Body(k) == Encode(k);
    FeedsSplit([HeadSz(k)], RBody(k), Encode(k)[..HeadSz(k)], Body(k), src, c);
    if c.csr >= 0 {
      assert Rest(Encode(k), c) == Encode(k);
    }
  }

  /** With the head passed at `e`, the child goes on with its body. */
  lemma ChildBody(k: Val, p: Part, src: bytes, c: Cursor, d: Cursor)
    requires WF(k) && Valid(c, |src|) && (d.csr < 0 ==> d.csr + HeadSz(k) <= 0)
    requires var head := PassOver([HeadSz(k)], |src|, c);
             && head.Done() && head.total == HeadSz(k) && head.next == PastHead(k, d)
             && Feeds(RBody(k), Body(k), src, head.next)
             && PassOver(RUnits(k), |src|, c) == head.Then(PassOver(RBody(k), |src|, head.next))
             && p == After(k, PassOver(RBody(k), |src|, head.next).start)
    ensures ChildGoesOn(k, p, src, c, d)
  {
    hide Sum, Boundary, Encode, RBody, After, PassOver, Positive, Agrees, Aligned, Did, DidChild;
    forall q, f, rr | Did(k, src, d, q, f, rr)
      ensures DidChild(k, src, c, Some(q), f, rr)
    {
      ChildDone(k, src, c, d, q, f, rr);
    }
  }

  lemma ChildDone(k: Val, src: bytes, c: Cursor, d: Cursor, q: Part, f: Cursor, rr: ReadResult)
    requires WF(k) && Valid(c, |src|)
    requires var head := PassOver([HeadSz(k)], |src|, c);
             && head.Done() && head.total == HeadSz(k) && head.next == PastHead(k, d)
             && Feeds(RBody(k), Body(k), src, head.next)
             && PassOver(RUnits(k), |src|, c) == head.Then(PassOver(RBody(k), |src|, head.next))
    requires Did(k, src, d, q, f, rr)
    ensures DidChild(k, src, c, Some(q), f, rr)
  {
    hide Sum, Boundary, Encode, RBody, After, PassOver, Positive, Agrees, Aligned;
    var s := PassOver(RBody(k), |src|, PastHead(k, d));
    PassAligned(RBody(k), |src|, PastHead(k, d));
    assert HeadSz(k) + s.stop - HeadSz(k) == s.stop <= BodySz(k);
  }

  /** With the head out of the way at `d`, whatever is read of the body completes the child. */
  ghost predicate ChildGoesOn(k: Val, p: Part, src: bytes, c: Cursor, d: Cursor) {
    && Good(k, p, src, d)
    && forall q, f, rr :: Did(k, src, d, q, f, rr) ==> DidChild(k, src, c, Some(q), f, rr)
  }

  /** Children `i` onwards of a list or projection: those before are whole, of the others `items`
      has what earlier calls made, and the buffer goes on with them. */
  ghost predicate GoodRest(vs: seq<Val>, i: nat, items: seq<Part>, src: bytes, d: Cursor) {
    && i <= |vs| && AllWF(vs[i..])
    && Feeds(RUnitsAll(vs[i..]), EncodeAll(vs[i..]), src, d)
    && items == WholeAll(vs[..i]) + AfterAll(vs[i..], PassOver(RUnitsAll(vs[i..]), |src|, d).start)
  }

  ghost predicate DidRest(vs: seq<Val>, i: nat, src: bytes, d: Cursor, items: seq<Part>, f: Cursor, rr: ReadResult) {
    i <= |vs| && Valid(d, |src|) &&
    var s := PassOver(RUnitsAll(vs[i..]), |src|, d);
    && f == s.next && Valid(f, |src|)
    && items == WholeAll(vs[..i]) + AfterAll(vs[i..], s.stop)
    && rr == if s.Done() then RD_OK else RD_INCOMPLETE
  }

  /** Reading on from child `i` at `d` completes what was begun with child 0 at `c`. */
  ghost predicate SeqAt(vs: seq<Val>, i: nat, items: seq<Part>, src: bytes, c: Cursor, d: Cursor) {
    && GoodRest(vs, i, items, src, d)
    && forall its, f, rr :: DidRest(vs, i, src, d, its, f, rr) ==> DidRest(vs, 0, src, c, its, f, rr)
  }

  lemma SeqSplit(vs: seq<Val>, i: nat, items: seq<Part>, src: bytes, d: Cursor)
    requires GoodRest(vs, i, items, src, d) && i < |vs|
    ensures WF(vs[i]) && AllWF(vs[i + 1..]) && Feeds(RUnits(vs[i]), Encode(vs[i]), src, d)
    ensures |WholeAll(vs[..i])| == i
    ensures var p := PassOver(RUnits(vs[i]), |src|, d);
            && Valid(p.next, |src|) && p.start <= p.stop <= p.total == HeadSz(vs[i]) + BodySz(vs[i])
            && Boundary(RUnits(vs[i]), p.start) && Boundary(RUnits(vs[i]), p.stop)
            && (d.csr < 0 <==> p.start > 0)
            && (p.Done() ==> Feeds(RUnitsAll(vs[i + 1..]), EncodeAll(vs[i + 1..]), src, p.next))
            && (p.Done() ==> PassOver(RUnitsAll(vs[i..]), |src|, d)
                             == p.Then(PassOver(RUnitsAll(vs[i + 1..]), |src|, p.next)))
            && (!p.Done() ==> PassOver(RUnitsAll(vs[i..]), |src|, d) == p.Stalled(|EncodeAll(vs[i + 1..])|))
            && (p.start == p.total || !p.Done() || PassOver(RUnitsAll(vs[i + 1..]), |src|, p.next).start == 0)
  {
    hide PassOver, Boundary, RBody, Encode, Positive, Agrees, Aligned, Sum, WholeAll, AfterAll;
    var rest, k := vs[i..], vs[i];
    assert rest[0] == k && rest[1..] == vs[i + 1..];
    WholeAllConcat(vs[..i], []);
    RUnitsSum(k);
    RUnitsAllSum(vs[i + 1..]);
    FeedsSplit(RUnits(k), RUnitsAll(vs[i + 1..]), Encode(k), EncodeAll(vs[i + 1..]), src, d);
    PassConcat(RUnits(k), RUnitsAll(vs[i + 1..]), |src|, d);
    KidPass(k, src, d);
  }

  lemma KidPass(k: Val, src: bytes, d: Cursor)
    requires WF(k) && Feeds(RUnits(k), Encode(k), src, d)
    ensures var p := PassOver(RUnits(k), |src|, d);
            && Valid(p.next, |src|) && p.start <= p.stop <= p.total == HeadSz(k) + BodySz(k)
            && Boundary(RUnits(k), p.start) && Boundary(RUnits(k), p.stop)
            && (d.csr < 0 <==> p.start > 0)
  {
    hide PassOver, Boundary, RBody, Encode, Agrees, Sum;
    RUnitsSum(k);
    PassAligned(RUnits(k), |src|, d);
    BoundaryAtSum(RUnits(k));
  }

  /** The next child: an existing one while the cursor is behind, a new one from then on. */
  lemma SeqKid(vs: seq<Val>, i: nat, items: seq<Part>, src: bytes, d: Cursor)
    requires GoodRest(vs, i, items, src, d)
    ensures i <= |items|
    ensures i < |items| ==> i < |vs| && d.csr < 0 && GoodChild(vs[i], Some(items[i]), src, d)
    ensures i == |items| && i < |vs| ==> d.csr >= 0 && GoodChild(vs[i], None, src, d)
  {
    hide RBody, Encode, Positive, Agrees, Aligned, Sum, WholeAll, After, PassOver, RUnitsAll, EncodeAll, Boundary;
    WholeAllConcat(vs[..i], []);
    if i < |vs| {
      SeqSplit(vs, i, items, src, d);
      KidStart(vs, i, items, src, d);
    } else {
      assert vs[i..] == [];
    }
  }

  lemma KidStart(vs: seq<Val>, i: nat, items: seq<Part>, src: bytes, d: Cursor)
    requires GoodRest(vs, i, items, src, d) && i < |vs| && |WholeAll(vs[..i])| == i
    requires var p := PassOver(RUnits(vs[i]), |src|, d);
             && WF(vs[i]) && Valid(p.next, |src|) && p.start <= p.total == HeadSz(vs[i]) + BodySz(vs[i])
             && Boundary(RUnits(vs[i]), p.start)
             && var q := PassOver(RUnitsAll(vs[i + 1..]), |src|, p.next);
                var whole := PassOver(RUnitsAll(vs[i..]), |src|, d);
                && (p.Done() ==> whole == p.Then(q) && (p.start == p.total || q.start == 0))
                && (!p.Done() ==> whole.start == p.start)
    ensures var p := PassOver(RUnits(vs[i]), |src|, d);
            if p.start == 0 then |items| == i && Begun(vs[i], 0) == None
            else |items| > i && Begun(vs[i], p.start) == Some(items[i])
  {
    hide RBody, Encode, Positive, Agrees, Aligned, Sum, WholeAll, After, PassOver, RUnitsAll, EncodeAll;
    assert vs[i..][0] == vs[i] && vs[i..][1..] == vs[i + 1..];
  }

  lemma AfterAllStep(vs: seq<Val>, i: nat, n: int)
    requires i < |vs|
    ensures AfterAll(vs[i + 1..], if n < 0 then n else 0) == []
    ensures AfterAll(vs[i..], n) ==
            if n < HeadSz(vs[i]) then []
            else [After(vs[i], Min(n - HeadSz(vs[i]), BodySz(vs[i])))]
                 + AfterAll(vs[i + 1..], n - HeadSz(vs[i]) - BodySz(vs[i]))
    ensures WholeAll(vs[..i + 1]) == WholeAll(vs[..i]) + [Whole(vs[i])]
    ensures |WholeAll(vs[..i])| == i
  {
    assert vs[i..][0] == vs[i] && vs[i..][1..] == vs[i + 1..];
    assert vs[..i + 1] == vs[..i] + [vs[i]];
    WholeAllConcat(vs[..i], [vs[i]]);
    assert [vs[i]][1..] == [];
  }

  lemma AfterAllNone(vs: seq<Val>, n: int)
    requires n <= 0
    ensures AfterAll(vs, n) == []
  {
  }

  /** A child that is not finished ends what there is. */
  lemma SeqStalls(vs: seq<Val>, i: nat, items: seq<Part>, src: bytes, d: Cursor, slot: Option<Part>, f: Cursor,
            rr: ReadResult)
    requires GoodRest(vs, i, items, src, d) && i < |vs|
    requires DidChild(vs[i], src, d, slot, f, rr) && rr.RD_INCOMPLETE?
    ensures i <= |items| <= i + 1
    ensures i < |items| ==> slot.Some?
    ensures DidRest(vs, i, src, d, items[..i] + (if slot.Some? then [slot.value] else []), f, rr)
  {
    hide WF, HeadSz, RUnits, RBody, Encode, Positive, Agrees, Aligned, Sum, WholeAll, After, PassOver, RUnitsAll;
    hide EncodeAll, AfterAll, Boundary;
    SeqSplit(vs, i, items, src, d);
    var p := PassOver(RUnits(vs[i]), |src|, d);
    AfterAllStep(vs, i, p.stop);
    AfterAllStep(vs, i, p.start);
    AfterAllNone(vs[i + 1..], p.stop - HeadSz(vs[i]) - BodySz(vs[i]));
    AfterAllNone(vs[i + 1..], p.start - HeadSz(vs[i]) - BodySz(vs[i]));
  }

  /** A finished child is followed by the next one. */
  lemma SeqMoves(vs: seq<Val>, i: nat, items: seq<Part>, src: bytes, d: Cursor, slot: Option<Part>, f: Cursor,
            rr: ReadResult)
    requires GoodRest(vs, i, items, src, d) && i < |vs|
    requires DidChild(vs[i], src, d, slot, f, rr) && rr.RD_OK?
    ensures i <= |items| && slot.Some?
    ensures GoodRest(vs, i + 1, items[..i] + [slot.value] + (if i < |items| then items[i + 1..] else []), src, f)
    ensures forall its, g, r :: DidRest(vs, i + 1, src, f, its, g, r) ==> DidRest(vs, i, src, d, its, g, r)
  {
    hide WF, HeadSz, RUnits, RBody, Encode, Positive, Agrees, Aligned, Sum, WholeAll, After, PassOver, RUnitsAll;
    hide EncodeAll, AfterAll, Boundary;
    SeqSplit(vs, i, items, src, d);
    var p, rest := PassOver(RUnits(vs[i]), |src|, d), vs[i + 1..];
    var q := PassOver(RUnitsAll(rest), |src|, p.next);
    AfterAllStep(vs, i, p.start + q.start);
    AfterAllNone(rest, p.start - p.total);
    AfterAllNone(rest, 0);
    assert slot == Some(Whole(vs[i]));
    if i < |items| {
      ItemsMove(items, WholeAll(vs[..i]), items[i], AfterAll(rest, p.start + q.start - p.total));
    }
    forall its, g, r | DidRest(vs, i + 1, src, f, its, g, r)
      ensures DidRest(vs, i, src, d, its, g, r)
    {
      RestMoves(vs, i, src, d, its, f, g, r);
    }
  }

  lemma ItemsMove(items: seq<Part>, a: seq<Part>, x: Part, b: seq<Part>)
    requires items == a + ([x] + b)
    ensures items[..|a|] == a && items[|a| + 1..] == b
  {
  }

  lemma RestMoves(vs: seq<Val>, i: nat, src: bytes, d: Cursor, its: seq<Part>, f: Cursor, g: Cursor, r: ReadResult)
    requires i < |vs| && Valid(d, |src|)
    requires var p := PassOver(RUnits(vs[i]), |src|, d);
             && p.Done() && p.total == HeadSz(vs[i]) + BodySz(vs[i]) && p.next == f && Valid(f, |src|)
             && PassOver(RUnitsAll(vs[i..]), |src|, d) == p.Then(PassOver(RUnitsAll(vs[i + 1..]), |src|, f))
    requires DidRest(vs, i + 1, src, f, its, g, r)
    ensures DidRest(vs, i, src, d, its, g, r)
  {
    hide RBody, Sum, WholeAll, After, PassOver, RUnitsAll, AfterAll;
    var p, q := PassOver(RUnits(vs[i]), |src|, d), PassOver(RUnitsAll(vs[i + 1..]), |src|, f);
    AfterAllStep(vs, i, p.total + q.stop);
  }

  lemma SeqEnds(vs: seq<Val>, items: seq<Part>, src: bytes, d: Cursor)
    requires GoodRest(vs, |vs|, items, src, d)
    ensures DidRest(vs, |vs|, src, d, items, d, RD_OK)
  {
    assert vs[|vs|..] == [];
  }

  /** The buffer goes on with two children, of which the slots hold what earlier calls made. */
  ghost predicate GoodPair(a: Val, b: Val, sa: Option<Part>, sb: Option<Part>, src: bytes, d: Cursor) {
    && WF(a) && WF(b) && Feeds(RUnits(a) + RUnits(b), Encode(a) + Encode(b), src, d)
    && var n := PassOver(RUnits(a) + RUnits(b), |src|, d).start;
       sa == Begun(a, n) && sb == Begun(b, n - HeadSz(a) - BodySz(a))
  }

  ghost predicate DidPair(a: Val, b: Val, src: bytes, d: Cursor, sa: Option<Part>, sb: Option<Part>, f: Cursor,
            rr: ReadResult) {
    Valid(d, |src|) &&
    var s := PassOver(RUnits(a) + RUnits(b), |src|, d);
    && f == s.next && Valid(f, |src|)
    && sa == Begun(a, s.stop) && sb == Begun(b, s.stop - HeadSz(a) - BodySz(a))
    && rr == if s.Done() then RD_OK else RD_INCOMPLETE
  }

  lemma PairPass(a: Val, b: Val, src: bytes, d: Cursor)
    requires WF(a) && WF(b) && Feeds(RUnits(a) + RUnits(b), Encode(a) + Encode(b), src, d)
    ensures Feeds(RUnits(a), Encode(a), src, d) && Valid(d, |src|)
    ensures var p := PassOver(RUnits(a), |src|, d);
            && Valid(p.next, |src|) && p.start <= p.stop <= p.total == HeadSz(a) + BodySz(a)
            && (p.Done() ==> Feeds(RUnits(b), Encode(b), src, p.next))
            && (p.Done() ==> PassOver(RUnits(a) + RUnits(b), |src|, d) == p.Then(PassOver(RUnits(b), |src|, p.next)))
            && (p.Done() ==> p.start == p.total || PassOver(RUnits(b), |src|, p.next).start == 0)
            && (!p.Done() ==> PassOver(RUnits(a) + RUnits(b), |src|, d) == p.Stalled(|Encode(b)|))
  {
    hide RBody, Encode, Agrees, Sum, PassOver, Boundary;
    RUnitsSum(a);
    RUnitsSum(b);
    FeedsSplit(RUnits(a), RUnits(b), Encode(a), Encode(b), src, d);
    PassConcat(RUnits(a), RUnits(b), |src|, d);
    KidPass(a, src, d);
  }

  /** The second child's slot is empty until the first child is whole. */
  lemma PairSlots(a: Val, b: Val, p: Pass, q: Pass)
    requires p.start <= p.stop <= p.total == HeadSz(a) + BodySz(a)
    ensures p.start <= p.total ==> Begun(a, p.start + (if p.start == p.total then q.start else 0)) == Begun(a, p.start)
    ensures Begun(a, p.total + q.stop) == Begun(a, p.total)
    ensures p.start < p.total ==> Begun(b, p.start - HeadSz(a) - BodySz(a)) == None == Begun(b, 0)
    ensures p.stop < p.total ==> Begun(b, p.stop - HeadSz(a) - BodySz(a)) == None
  {
    hide After, BodySz;
  }

  lemma PairSplit(a: Val, b: Val, sa: Option<Part>, sb: Option<Part>, src: bytes, d: Cursor)
    requires GoodPair(a, b, sa, sb, src, d)
    ensures WF(a) && WF(b) && Feeds(RUnits(a) + RUnits(b), Encode(a) + Encode(b), src, d)
    ensures GoodChild(a, sa, src, d)
    ensures var p := PassOver(RUnits(a), |src|, d);
            && Valid(p.next, |src|) && p.start <= p.stop <= p.total == HeadSz(a) + BodySz(a)
            && (p.Done() ==> GoodChild(b, sb, src, p.next))
            && (!p.Done() ==> sb == None)
  {
    hide WF, HeadSz, RUnits, RBody, Encode, Agrees, Sum, After, PassOver, Boundary, Positive, Aligned, Feeds, Begun;
    hide BodySz, Valid;
    PairPass(a, b, src, d);
    var p := PassOver(RUnits(a), |src|, d);
    if p.Done() {
      PairSlots(a, b, p, PassOver(RUnits(b), |src|, p.next));
    } else {
      PairSlots(a, b, p, p);
    }
  }

  lemma PairFirst(a: Val, b: Val, sa: Option<Part>, sb: Option<Part>, src: bytes, d: Cursor,
                  slot: Option<Part>, f: Cursor, rr: ReadResult)
    requires GoodPair(a, b, sa, sb, src, d) && DidChild(a, src, d, slot, f, rr)
    ensures rr.RD_INCOMPLETE? || rr.RD_OK?
    ensures rr.RD_INCOMPLETE? ==> DidPair(a, b, src, d, slot, sb, f, rr)
    ensures rr.RD_OK? ==> GoodChild(b, sb, src, f)
    ensures rr.RD_OK? ==> forall t, g, r :: DidChild(b, src, f, t, g, r) ==> DidPair(a, b, src, d, slot, t, g, r)
  {
    hide WF, HeadSz, RUnits, RBody, Encode, Agrees, Sum, After, PassOver, Boundary, Positive, Aligned, Feeds, Begun;
    hide BodySz, GoodChild, DidPair;
    PairSplit(a, b, sa, sb, src, d);
    PairPass(a, b, src, d);
    if rr.RD_INCOMPLETE? {
      PairFirstStops(a, b, sa, sb, src, d, slot, f);
    } else {
      forall t, g, r | DidChild(b, src, f, t, g, r)
        ensures DidPair(a, b, src, d, slot, t, g, r)
      {
        PairSecond(a, b, src, d, slot, f, t, g, r);
      }
    }
  }

  lemma PairFirstStops(a: Val, b: Val, sa: Option<Part>, sb: Option<Part>, src: bytes, d: Cursor,
                       slot: Option<Part>, f: Cursor)
    requires GoodPair(a, b, sa, sb, src, d) && DidChild(a, src, d, slot, f, RD_INCOMPLETE)
    ensures DidPair(a, b, src, d, slot, sb, f, RD_INCOMPLETE)
  {
    hide WF, HeadSz, RUnits, RBody, Encode, Agrees, Sum, After, PassOver, Boundary, Positive, Aligned, Feeds, Begun;
    hide BodySz, GoodPair, GoodChild;
    PairSplit(a, b, sa, sb, src, d);
    PairPass(a, b, src, d);
    var p := PassOver(RUnits(a), |src|, d);
    PairSlots(a, b, p, p);
  }

  lemma PairSecond(a: Val, b: Val, src: bytes, d: Cursor, slot: Option<Part>, f: Cursor,
                   t: Option<Part>, g: Cursor, r: ReadResult)
    requires WF(a) && WF(b) && Feeds(RUnits(a) + RUnits(b), Encode(a) + Encode(b), src, d)
    requires DidChild(a, src, d, slot, f, RD_OK) && DidChild(b, src, f, t, g, r)
    ensures DidPair(a, b, src, d, slot, t, g, r)
  {
    hide WF, HeadSz, RUnits, RBody, Encode, Agrees, Sum, After, PassOver, Boundary, Positive, Aligned, Feeds, Begun;
    hide BodySz, DidPair, DidChild, Valid;
    PairPass(a, b, src, d);
    var p := ChildIs(a, src, d, slot, f, RD_OK);
    var q := ChildIs(b, src, f, t, g, r);
    PairSlots(a, b, p, q);
    PairIs(a, b, src, d, slot, t, g, r, p, q);
  }

  lemma ChildIs(k: Val, src: bytes, c: Cursor, slot: Option<Part>, d: Cursor, rr: ReadResult) returns (p: Pass)
    requires DidChild(k, src, c, slot, d, rr)
    ensures Valid(c, |src|) && Valid(d, |src|) && p == PassOver(RUnits(k), |src|, c)
    ensures d == p.next && slot == Begun(k, p.stop) && rr == if p.Done() then RD_OK else RD_INCOMPLETE
  {
    hide HeadSz, RUnits, PassOver, Begun, Valid;
    p := PassOver(RUnits(k), |src|, c);
  }

  lemma PairIs(a: Val, b: Val, src: bytes, d: Cursor, sa: Option<Part>, sb: Option<Part>, g: Cursor, rr: ReadResult,
               p: Pass, q: Pass)
    requires Valid(d, |src|) && Valid(g, |src|) && g == q.next
    requires PassOver(RUnits(a) + RUnits(b), |src|, d) == p.Then(q) && p.Done() && p.total == HeadSz(a) + BodySz(a)
    requires sa == Begun(a, p.total + q.stop) && sb == Begun(b, q.stop)
    requires rr == if q.Done() then RD_OK else RD_INCOMPLETE
    ensures DidPair(a, b, src, d, sa, sb, g, rr)
  {
    hide HeadSz, RUnits, PassOver, Begun, BodySz, Valid;
  }

  /** A table or dictionary past its head is its two children. */
  lemma PairGood(v: Val, p: Part, src: bytes, c: Cursor)
    requires Good(v, p, src, c)
    ensures p.PTable? ==> v.Table? && HeadSz(v) == SZ_TBL_HDR
                          && GoodPair(v.cols, v.rows, p.cols, p.rows, src, PastHead(v, c))
    ensures p.PTable? ==> TypeOf(v.cols) == SYMBOL_VECTOR && TypeOf(v.rows) == LIST
    ensures p.PDict? ==> v.Dict? && HeadSz(v) == SZ_BYTE
                         && GoodPair(v.keys, v.vals, p.keys, p.vals, src, PastHead(v, c))
  {
    hide Feeds, PassOver, Begun, BodySz, Encode;
    PairBody(v);
  }

  lemma PairBody(v: Val)
    requires WF(v)
    ensures v.Table? ==> Body(v) == Encode(v.cols) + Encode(v.rows) && RBody(v) == RUnits(v.cols) + RUnits(v.rows)
    ensures v.Dict? ==> Body(v) == Encode(v.keys) + Encode(v.vals) && RBody(v) == RUnits(v.keys) + RUnits(v.vals)
  {
    hide Sum, Positive, WF, RBody, Encode;
    if v.Table? {
      TableParts(v);
    } else if v.Dict? {
      DictParts(v);
    }
  }

  lemma TableParts(v: Val)
    requires WF(v) && v.Table?
    ensures WF(v.cols) && WF(v.rows) && RBody(v) == RUnits(v.cols) + RUnits(v.rows)
    ensures |Encode(v)| > 2 && Encode(v)[3..] == Encode(v.cols) + Encode(v.rows)
  {
    AfterHead([U8(TABLE), 0, U8(DICT)], Encode(v.cols), Encode(v.rows));
  }

  lemma DictParts(v: Val)
    requires WF(v) && v.Dict?
    ensures WF(v.keys) && WF(v.vals) && RBody(v) == RUnits(v.keys) + RUnits(v.vals)
    ensures |Encode(v)| > 0 && Encode(v)[1..] == Encode(v.keys) + Encode(v.vals)
  {
    AfterHead([U8(v.code)], Encode(v.keys), Encode(v.vals));
  }

  lemma AfterHead(head: bytes, x: bytes, y: bytes)
    ensures (head + x + y)[|head|..] == x + y
  {
  }

  lemma PairDid(v: Val, src: bytes, c: Cursor, sa: Option<Part>, sb: Option<Part>, f: Cursor, rr: ReadResult)
    ensures v.Table? && DidPair(v.cols, v.rows, src, PastHead(v, c), sa, sb, f, rr)
        ==> Did(v, src, c, PTable(sa, sb), f, rr)
    ensures v.Dict? && DidPair(v.keys, v.vals, src, PastHead(v, c), sa, sb, f, rr)
        ==> Did(v, src, c, PDict(sa, sb), f, rr)
  {
    hide PassOver, Begun, BodySz, Sum;
  }

  lemma SeqGood(v: Val, p: Part, src: bytes, c: Cursor)
    requires Good(v, p, src, c)
    ensures p.PList? ==>
              && v.List? && HeadSz(v) == SZ_VEC_HDR && p.lattr == v.lattr && p.lcap == |v.items|
              && SeqAt(v.items, 0, p.items, src, PastHead(v, c), PastHead(v, c))
    ensures p.PProj? ==>
              && v.Proj? && HeadSz(v) == SZ_PRJ_HDR && p.pcap == |v.args|
              && SeqAt(v.args, 0, p.args, src, PastHead(v, c), PastHead(v, c))
  {
    hide Agrees, Boundary, Positive, Sum, AfterAll;
    if v.List? {
      assert v.items[0..] == v.items && v.items[..0] == [];
      assert Body(v) == EncodeAll(v.items);
    } else if v.Proj? {
      assert v.args[0..] == v.args && v.args[..0] == [];
      assert Body(v) == EncodeAll(v.args);
    }
  }

  lemma SeqDid(v: Val, src: bytes, c: Cursor, its: seq<Part>, f: Cursor, rr: ReadResult)
    ensures v.List? && DidRest(v.items, 0, src, PastHead(v, c), its, f, rr) ==>
              Did(v, src, c, PList(v.lattr, |v.items|, its), f, rr)
    ensures v.Proj? && DidRest(v.args, 0, src, PastHead(v, c), its, f, rr) ==>
              Did(v, src, c, PProj(|v.args|, its), f, rr)
  {
    hide Sum, Boundary, AfterAll;
    if v.List? {
      assert v.items[0..] == v.items && v.items[..0] == [];
    } else if v.Proj? {
      assert v.args[0..] == v.args && v.args[..0] == [];
    }
  }

  /** Reads on with an object, whatever earlier calls made of it. */
  method ReadVal(p: Part, buf: ReadBuf, ghost v: Val) returns (q: Part, rr: ReadResult)
    requires Sane(p) && buf.Ok()
    modifies buf`csr, buf`off
    ensures buf.Ok() && buf.off >= old(buf.off) && Sane(q)
    ensures Good(v, p, buf.src, old(buf.Cur())) ==> Did(v, buf.src, old(buf.Cur()), q, buf.Cur(), rr)
    ensures DidAtom(p, buf.src, old(buf.Cur()), q, buf.Cur(), rr)
    decreases |buf.src| - buf.off, p, 2
  {
    hide Good, Did;
    match p
    case PAtom(_, _) => q, rr := ReadIntAtom(p, buf, v);
    case PSym(_, _) => q, rr := ReadSymAtom(p, buf, v);
    case PVec(_, _, _, _) => q, rr := ReadIntVector(p, buf, v);
    case PSymVec(_, _, _, _) => q, rr := ReadSymVector(p, buf, v);
    case PFunc(_, _) => q, rr := ReadFunction(p, buf, v);
    case PList(a, cap, items) =>
      var its;
      its, rr := ReadSeq(SZ_VEC_HDR, items, cap, p, buf, v);
      q := PList(a, cap, its);
    case PProj(cap, args) =>
      var its;
      its, rr := ReadSeq(SZ_PRJ_HDR, args, cap, p, buf, v);
      q := PProj(cap, its);
    case PTable(cols, rows) =>
      var x, y;
      x, y, rr := ReadPair(SZ_TBL_HDR, cols, rows, SYMBOL_VECTOR, LIST, p, buf, v);
      q := PTable(x, y);
    case PDict(keys, vals) =>
      var x, y;
      x, y, rr := ReadPair(SZ_BYTE, keys, vals, ANY, ANY, p, buf, v);
      q := PDict(x, y);
  }

  /** Reads on with a child: creates it if that has not been done, then reads its body. */
  method ReadChild(slot: Option<Part>, want: int, p: Part, buf: ReadBuf, ghost k: Val)
    returns (child: Option<Part>, rr: ReadResult)
    requires SaneSlot(slot) && buf.Ok() && (slot.Some? ==> slot.value < p)
    modifies buf`csr, buf`off
    ensures buf.Ok() && buf.off >= old(buf.off) && SaneSlot(child)
    ensures rr.RD_OK? ==> child.Some?
    ensures old(buf.csr) < 0 && slot == None ==> rr.RD_UNDEFINED? && child == None
    ensures old(buf.csr) >= 0 ==>
              var h := HeadOf(buf.src[old(buf.off)..]);
              && (h.Refuses? ==> rr == h.rr && child == slot)
              && (h.Makes? && want != ANY && TypeOfPart(h.obj) != want ==> rr.RD_ERR_IPC? && child == slot)
    ensures GoodChild(k, slot, buf.src, old(buf.Cur())) && (want == ANY || (want == TypeOf(k) && !k.Dict?))
         ==> DidChild(k, buf.src, old(buf.Cur()), child, buf.Cur(), rr)
    decreases |buf.src| - buf.off, p, 0
  {
    hide GoodChild, DidChild, Good, Did, AtStart, Sane, After, PassOver, HeadOf;
    ghost var good := GoodChild(k, slot, buf.src, buf.Cur()) && (want == ANY || (want == TypeOf(k) && !k.Dict?));
    if good {
      ChildEnter(k, slot, buf.src, buf.Cur());
      FreshType(k);
    }
    child := slot;
    if buf.CursorActive() {
      var obj;
      obj, rr := NewInstance(buf, k);
      if !rr.RD_OK? {
        return;
      }
      if want != ANY && TypeOfPart(obj.value) != want {
        return slot, RD_ERR_IPC;
      }
      child := obj;
    }
    if child.None? {
      return child, RD_UNDEFINED;
    }
    var q;
    q, rr := ReadVal(child.value, buf, k);
    child := Some(q);
  }

  lemma FreshType(k: Val)
    ensures TypeOfPart(After(k, 0)) == if k.Dict? then DICT else TypeOf(k)
  {
  }

  ghost function First(v: Val): Val {
    if v.Table? then v.cols else if v.Dict? then v.keys else v
  }

  ghost function Second(v: Val): Val {
    if v.Table? then v.rows else if v.Dict? then v.vals else v
  }

  ghost function Kids(v: Val): seq<Val> {
    if v.List? then v.items else if v.Proj? then v.args else []
  }

  /** Reads on with the key set of a table or dictionary and, once that is whole, with its values. */
  method ReadPair(head: nat, sa: Option<Part>, sb: Option<Part>, wa: int, wb: int, p: Part, buf: ReadBuf, ghost v: Val)
    returns (x: Option<Part>, y: Option<Part>, rr: ReadResult)
    requires buf.Ok() && SaneSlot(sa) && SaneSlot(sb)
    requires (p == PTable(sa, sb) && head == SZ_TBL_HDR && wa == SYMBOL_VECTOR && wb == LIST)
          || (p == PDict(sa, sb) && head == SZ_BYTE && wa == wb == ANY)
    modifies buf`csr, buf`off
    ensures buf.Ok() && buf.off >= old(buf.off) && SaneSlot(x) && SaneSlot(y)
    ensures Good(v, p, buf.src, old(buf.Cur()))
         ==> Did(v, buf.src, old(buf.Cur()), if p.PTable? then PTable(x, y) else PDict(x, y), buf.Cur(), rr)
    decreases |buf.src| - buf.off, p, 1
  {
    hide GoodPair, DidPair, GoodChild, DidChild, Good, Did, Sane;
    ghost var good, a, b := Good(v, p, buf.src, buf.Cur()), First(v), Second(v);
    if good {
      PairGood(v, p, buf.src, buf.Cur());
    }
    if !buf.CursorActive() {
      buf.Ffwd(head);
    }
    ghost var d := buf.Cur();
    if good {
      PairSplit(a, b, sa, sb, buf.src, d);
    }
    y := sb;
    x, rr := ReadChild(sa, wa, p, buf, a);
    ghost var f := buf.Cur();
    if good {
      PairFirst(a, b, sa, sb, buf.src, d, x, f, rr);
    }
    if rr.RD_OK? {
      y, rr := ReadChild(sb, wb, p, buf, b);
    }
    if good {
      PairDid(v, buf.src, old(buf.Cur()), x, y, buf.Cur(), rr);
    }
  }

  /** Reads on with the elements of a list or projection: first those that exist, then new ones. */
  method ReadSeq(head: nat, items0: seq<Part>, cap: nat, p: Part, buf: ReadBuf, ghost v: Val)
    returns (items: seq<Part>, rr: ReadResult)
    requires buf.Ok() && SaneAll(items0) && |items0| <= cap
    requires (p.PList? && p.items == items0 && p.lcap == cap && head == SZ_VEC_HDR)
          || (p.PProj? && p.args == items0 && p.pcap == cap && head == SZ_PRJ_HDR)
    modifies buf`csr, buf`off
    ensures buf.Ok() && buf.off >= old(buf.off) && SaneAll(items) && |items| <= cap
    ensures Good(v, p, buf.src, old(buf.Cur()))
         ==> Did(v, buf.src, old(buf.Cur()), if p.PList? then PList(p.lattr, cap, items) else PProj(cap, items),
                 buf.Cur(), rr)
    decreases |buf.src| - buf.off, p, 1
  {
    hide SeqAt, GoodRest, DidRest, GoodChild, DidChild, Good, Did, Sane;
    ghost var good, vs := Good(v, p, buf.src, buf.Cur()), Kids(v);
    if good {
      SeqGood(v, p, buf.src, buf.Cur());
    }
    if !buf.CursorActive() {
      buf.Ffwd(head);
    }
    ghost var d := buf.Cur();
    items := items0;
    for i := 0 to |items0|
      invariant buf.Ok() && buf.off >= old(buf.off) && SaneAll(items) && |items| == |items0|
      invariant items[i..] == items0[i..]
      invariant good ==> SeqAt(vs, i, items, buf.src, d, buf.Cur())
    {
      ghost var here, its := buf.Cur(), items;
      if good {
        SeqExisting(vs, i, items, buf.src, d, here);
      }
      assert items0[i] == items0[i..][0] == items[i..][0] == items[i];
      var q;
      q, rr := ReadVal(items0[i], buf, if good then vs[i] else v);
      items := items[i := q];
      if good {
        SeqNext(vs, i, its, buf.src, d, here, Some(q), buf.Cur(), rr);
        assert items == its[..i] + [q] + its[i + 1..];
      }
      if !rr.RD_OK? {
        if good {
          assert its[..i] + [q] == items;
          SeqDid(v, buf.src, old(buf.Cur()), items, buf.Cur(), rr);
        }
        return;
      }
      assert items[i + 1..] == its[i..][1..] == items0[i + 1..];
    }
    for i := |items0| to cap
      invariant buf.Ok() && buf.off >= old(buf.off) && SaneAll(items) && |items| == i
      invariant good ==> SeqAt(vs, i, items, buf.src, d, buf.Cur())
    {
      ghost var here, its := buf.Cur(), items;
      if good {
        SeqNew(vs, i, items, buf.src, d, here);
      }
      var child;
      child, rr := ReadChild(None, ANY, p, buf, if good then vs[i] else v);
      if child.Some? {
        items := items + [child.value];
      }
      if good {
        SeqNext(vs, i, its, buf.src, d, here, child, buf.Cur(), rr);
        assert its[..i] == its == its + [];
        assert items + [] == items;
      }
      if !rr.RD_OK? {
        if good {
          SeqDid(v, buf.src, old(buf.Cur()), items, buf.Cur(), rr);
        }
        return;
      }
    }
    rr := RD_OK;
    if good {
      SeqFinal(vs, items, buf.src, d, buf.Cur());
      SeqDid(v, buf.src, old(buf.Cur()), items, buf.Cur(), rr);
    }
  }

  lemma SeqExisting(vs: seq<Val>, i: nat, items: seq<Part>, src: bytes, c: Cursor, d: Cursor)
    requires SeqAt(vs, i, items, src, c, d) && i < |items|
    ensures i < |vs| && Good(vs[i], items[i], src, d)
    ensures forall q, f, rr :: Did(vs[i], src, d, q, f, rr) ==> DidChild(vs[i], src, d, Some(q), f, rr)
  {
    hide GoodRest, DidRest, GoodChild, DidChild, Good, Did;
    SeqKid(vs, i, items, src, d);
    ChildEnter(vs[i], Some(items[i]), src, d);
  }

  lemma SeqNew(vs: seq<Val>, i: nat, items: seq<Part>, src: bytes, c: Cursor, d: Cursor)
    requires SeqAt(vs, i, items, src, c, d) && i == |items| && i < |vs|
    ensures GoodChild(vs[i], None, src, d)
  {
    hide GoodRest, DidRest, GoodChild, DidChild;
    SeqKid(vs, i, items, src, d);
  }

  /** One child later: either the next one is due, or the reading stops here. */
  lemma SeqNext(vs: seq<Val>, i: nat, items: seq<Part>, src: bytes, c: Cursor, d: Cursor,
                slot: Option<Part>, f: Cursor, rr: ReadResult)
    requires SeqAt(vs, i, items, src, c, d) && i < |vs|
    requires DidChild(vs[i], src, d, slot, f, rr)
    ensures i <= |items|
    ensures rr.RD_OK? ==>
              && slot.Some?
              && SeqAt(vs, i + 1, items[..i] + [slot.value] + (if i < |items| then items[i + 1..] else []), src, c, f)
    ensures !rr.RD_OK? ==>
              && |items| <= i + 1 && (i < |items| ==> slot.Some?)
              && DidRest(vs, 0, src, c, items[..i] + (if slot.Some? then [slot.value] else []), f, rr)
  {
    hide GoodRest, DidRest, DidChild;
    SeqOutcome(vs, i, src, d, slot, f, rr);
    if rr.RD_OK? {
      SeqMoves(vs, i, items, src, d, slot, f, rr);
    } else {
      SeqStalls(vs, i, items, src, d, slot, f, rr);
    }
  }

  lemma SeqOutcome(vs: seq<Val>, i: nat, src: bytes, d: Cursor, slot: Option<Part>, f: Cursor, rr: ReadResult)
    requires i < |vs| && DidChild(vs[i], src, d, slot, f, rr)
    ensures rr.RD_OK? || rr.RD_INCOMPLETE?
  {
  }

  lemma SeqFinal(vs: seq<Val>, items: seq<Part>, src: bytes, c: Cursor, d: Cursor)
    requires SeqAt(vs, |vs|, items, src, c, d)
    ensures DidRest(vs, 0, src, c, items, d, RD_OK)
  {
    hide GoodRest, DidRest;
    SeqEnds(vs, items, src, d);
  }
}
