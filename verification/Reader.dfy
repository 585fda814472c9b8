/** The resumable reader: a value tree is rebuilt from whatever pieces of its encoding arrive. */
module Reader {
  import opened Bytes
  import opened KdbValue
  import opened Cursors
  import opened Units
  import opened Partial

  /** RD_THROWN stands for the exception that escapes when a negative count is used as a capacity, RD_UNDEFINED for
      reading on with an object through a pointer that is null or was never set. */
  datatype ReadResult = RD_OK | RD_INCOMPLETE | RD_ERR_IPC | RD_ERR_LOGIC | RD_ERR_ALLOC | RD_THROWN | RD_UNDEFINED {
    /** The call does not return. */
    predicate Lost() {
      RD_THROWN? || RD_UNDEFINED?
    }
  }

  /** What is left of `e` for a call whose cursor is at `c`. */
  function Rest(e: bytes, c: Cursor): bytes {
    e[Min(Skip(c), |e|)..]
  }

  /** The buffer of a call goes on with `e`, cut into `us`, where earlier calls stopped. */
  ghost predicate Feeds(us: seq<nat>, e: bytes, src: bytes, c: Cursor) {
    && Positive(us) && Sum(us) == |e| && Valid(c, |src|) && Aligned(us, c)
    && Agrees(src[c.off..], Rest(e, c))
  }

  /** If the buffer goes on with `ea` then `eb`, it goes on with `eb` once `ea` is done. */
  lemma FeedsSplit(a: seq<nat>, b: seq<nat>, ea: bytes, eb: bytes, src: bytes, c: Cursor)
    requires Positive(a) && Positive(b) && Sum(a) == |ea| && Sum(b) == |eb|
    requires Feeds(a + b, ea + eb, src, c)
    ensures Feeds(a, ea, src, c)
    ensures var p := PassOver(a, |src|, c);
            && (p.Done() ==> Feeds(b, eb, src, p.next))
            && (p.Done() ==> PassOver(a + b, |src|, c) == p.Then(PassOver(b, |src|, p.next)))
            && (!p.Done() ==> PassOver(a + b, |src|, c) == p.Stalled(|eb|))
  {
    hide PassOver, Sum, Positive, Aligned, Agrees;
    SumConcat(a, b);
    PassConcat(a, b, |src|, c);
    PassAligned(a, |src|, c);
    RestSplit(ea, eb, src, c, PassOver(a, |src|, c));
  }

  lemma RestSplit(ea: bytes, eb: bytes, src: bytes, c: Cursor, p: Pass)
    requires Valid(c, |src|) && Valid(p.next, |src|) && Agrees(src[c.off..], Rest(ea + eb, c))
    requires p.total == |ea| && p.start == Min(Skip(c), |ea|) && p.next.off == c.off + p.stop - p.start
    requires p.Done() ==> Skip(p.next) == if Skip(c) >= |ea| then Skip(c) - |ea| else 0
    ensures Agrees(src[c.off..], Rest(ea, c))
    ensures p.Done() ==> Agrees(src[p.next.off..], Rest(eb, p.next))
  {
    hide Agrees;
    if Skip(c) < |ea| {
      RestWithin(ea, eb, c);
      AgreesSplit(src[c.off..], ea[Skip(c)..], eb);
      if p.Done() {
        assert src[p.next.off..] == src[c.off..][|ea| - Skip(c)..];
        assert eb[0..] == eb;
      }
    } else {
      RestBeyond(ea, eb, c);
      AgreesNothing(src[c.off..]);
    }
  }

  lemma RestWithin(ea: bytes, eb: bytes, c: Cursor)
    requires Skip(c) < |ea|
    ensures Rest(ea + eb, c) == Rest(ea, c) + eb && Rest(ea, c) == ea[Skip(c)..]
  {
  }

  lemma RestBeyond(ea: bytes, eb: bytes, c: Cursor)
    requires Skip(c) >= |ea|
    ensures Rest(ea + eb, c) == eb[Min(Skip(c) - |ea|, |eb|)..] && Rest(ea, c) == []
  {
  }

  lemma AgreesNothing(s: bytes)
    ensures Agrees(s, [])
  {
  }

  /** The bytes of `v` after its head. */
  function Body(v: Val): bytes
    requires WF(v)
  {
    RUnitsSum(v);
    Encode(v)[HeadSz(v)..]
  }

  /** Reading an object first skips its head if an earlier call created it. */
  function PastHead(v: Val, c: Cursor): Cursor {
    if c.csr < 0 then Cursor(c.csr + HeadSz(v), c.off) else c
  }

  /** `p` is what earlier calls, and the reading of the head, made of `v`, and the buffer goes on with the rest. */
  ghost predicate Good(v: Val, p: Part, src: bytes, c: Cursor) {
    && WF(v)
    && (c.csr < 0 ==> c.csr + HeadSz(v) <= 0)
    && Feeds(RBody(v), Body(v), src, PastHead(v, c))
    && p == After(v, PassOver(RBody(v), |src|, PastHead(v, c)).start)
  }

  /** A call has taken as much of `v` as the buffer had whole units of, and `q` is what that makes. */
  ghost predicate Did(v: Val, src: bytes, c: Cursor, q: Part, d: Cursor, rr: ReadResult) {
    Valid(PastHead(v, c), |src|) &&
    var s := PassOver(RBody(v), |src|, PastHead(v, c));
    && d == s.next && Valid(d, |src|)
    && q == After(v, s.stop)
    && rr == if s.Done() then RD_OK else RD_INCOMPLETE
  }

  class ReadBuf {
    const src: bytes
    var off: nat
    var csr: int

    constructor (src: bytes, csr: int)
      ensures this.src == src && Cur() == Cursor(csr, 0)
    {
      this.src, this.off, this.csr := src, 0, csr;
    }

    ghost function Cur(): Cursor
      reads this`csr, this`off
    {
      Cursor(csr, off)
    }

    ghost predicate Ok()
      reads this`off
    {
      off <= |src|
    }

    predicate CursorActive()
      reads this`csr
    {
      csr >= 0
    }

    function Remaining(): nat
      requires Ok()
      reads this`off
    {
      |src| - off
    }

    method Ffwd(n: nat)
      modifies this`csr
      ensures csr == old(csr) + n
    {
      csr := csr + n;
    }

    method Adj(n: nat)
      requires Ok() && n <= Remaining()
      modifies this`csr, this`off
      ensures Ok() && csr == old(csr) + n && off == old(off) + n
    {
      csr, off := csr + n, off + n;
    }

    /** A little-endian number of `w` bytes. */
    method Read(w: nat) returns (n: nat)
      requires Ok() && w <= Remaining()
      modifies this`csr, this`off
      ensures Ok() && csr == old(csr) + w && off == old(off) + w
      ensures n == FromLE(src[old(off)..old(off) + w])
    {
      n := FromLE(src[off..off + w]);
      Adj(w);
    }

    /** A NUL-terminated string, or nothing if the NUL has not arrived. */
    method ReadSym() returns (s: Option<bytes>)
      requires Ok()
      modifies this`csr, this`off
      ensures Ok() && off >= old(off)
      ensures var n := StrNLen(src[old(off)..]);
              if n == |src| - old(off) then s == None && Cur() == old(Cur())
              else s == Some(src[old(off)..old(off) + n]) && csr == old(csr) + n + 1 && off == old(off) + n + 1
    {
      var n := StrNLen(src[off..]);
      if n == Remaining() {
        return None;
      }
      s := Some(src[off..off + n]);
      Adj(n + 1);
    }
  }

  /** `strnlen` over all of `s`. */
  function StrNLen(s: bytes): (n: nat)
    ensures n <= |s|
    ensures n < |s| ==> s[n] == 0
    ensures forall i :: 0 <= i < n ==> s[i] != 0
  {
    if s == [] || s[0] == 0 then 0 else 1 + StrNLen(s[1..])
  }

  /** A terminated string is found whole, or its NUL is still missing. */
  lemma StrNLenAgrees(s: bytes, t: bytes)
    requires NoNul(t) && Agrees(s, t + [0])
    ensures if |t| + 1 <= |s| then StrNLen(s) == |t| && s[..|t|] == t else StrNLen(s) == |s|
  {
    var e, n := t + [0], StrNLen(s);
    if |t| + 1 <= |s| {
      assert s[..|t| + 1] == e;
      assert s[|t|] == e[|t|] == 0;
      assert forall i :: 0 <= i < |t| ==> s[i] == e[i] == t[i];
      assert s[..|t|] == t;
    } else {
      assert s == e[..|s|];
      assert forall i :: 0 <= i < |s| ==> s[i] == e[i] == t[i];
    }
  }

  /** Whatever the bytes are: an atom takes those it needs from where an active cursor stands, or waits for them. */
  ghost predicate DidAtom(p: Part, src: bytes, c: Cursor, q: Part, d: Cursor, rr: ReadResult) {
    p.PAtom? && 0 <= c.csr && c.off <= |src| ==>
      var w := FixedWidth(p.atyp);
      if |src| - c.off < w then rr.RD_INCOMPLETE? && q == p && d == c
      else rr.RD_OK? && q == p.(bits := FromLE(src[c.off..c.off + w])) && d == Cursor(c.csr + w, c.off + w)
  }

  /** The value of an atom, after its type byte. */
  method ReadIntAtom(p: Part, buf: ReadBuf, ghost v: Val) returns (q: Part, rr: ReadResult)
    requires p.PAtom? && Sane(p) && buf.Ok()
    modifies buf`csr, buf`off
    ensures buf.Ok() && buf.off >= old(buf.off) && Sane(q)
    ensures Good(v, p, buf.src, old(buf.Cur())) ==> Did(v, buf.src, old(buf.Cur()), q, buf.Cur(), rr)
    ensures DidAtom(p, buf.src, old(buf.Cur()), q, buf.Cur(), rr)
  {
    hide Good, Did, FromLE;
    if Good(v, p, buf.src, buf.Cur()) {
      AtomStep(v, p, buf.src, buf.Cur());
    }
    var w := FixedWidth(p.atyp);
    q := p;
    if !buf.CursorActive() {
      buf.Ffwd(SZ_BYTE);
    }
    if buf.CursorActive() {
      if buf.Remaining() < w {
        rr := RD_INCOMPLETE;
        return;
      }
      var n := buf.Read(w);
      q := p.(bits := n);
    } else {
      buf.Ffwd(w);
    }
    rr := RD_OK;
  }

  lemma AtomStep(v: Val, p: Part, src: bytes, c: Cursor)
    requires p.PAtom? && Good(v, p, src, c)
    ensures var w, d := FixedWidth(p.atyp), PastHead(v, c);
            && HeadSz(v) == SZ_BYTE
            && (d.csr < 0 ==> Did(v, src, c, p, Cursor(d.csr + w, d.off), RD_OK))
            && (d.csr >= 0 && |src| - d.off < w ==> Did(v, src, c, p, d, RD_INCOMPLETE))
            && (d.csr >= 0 && |src| - d.off >= w ==>
                  Did(v, src, c, p.(bits := FromLE(src[d.off..d.off + w])), Cursor(d.csr + w, d.off + w), RD_OK))
  {
    hide Positive, Boundary, Sum, Encode, FixedWidth;
    AtomBody(v);
    var w, d := FixedWidth(p.atyp), PastHead(v, c);
    PassUnit(w, |src|, d);
    if d.csr >= 0 && |src| - d.off >= w {
      assert Rest(Body(v), d) == Body(v);
      AgreesTake(src, d.off, Body(v));
      FromToLE(w, v.bits);
    }
  }

  lemma AtomBody(v: Val)
    requires WF(v) && v.Atom?
    ensures Body(v) == ToLE(FixedWidth(v.typ), v.bits) && RBody(v) == [FixedWidth(v.typ)]
  {
    RUnitsSum(v);
  }

  /** The text of a symbol or exception, after its type byte. */
  method ReadSymAtom(p: Part, buf: ReadBuf, ghost v: Val) returns (q: Part, rr: ReadResult)
    requires p.PSym? && buf.Ok()
    modifies buf`csr, buf`off
    ensures buf.Ok() && buf.off >= old(buf.off) && Sane(q)
    ensures Good(v, p, buf.src, old(buf.Cur())) ==> Did(v, buf.src, old(buf.Cur()), q, buf.Cur(), rr)
  {
    hide Good, Did, StrNLen;
    if Good(v, p, buf.src, buf.Cur()) {
      SymStep(v, p, buf.src, buf.Cur());
    }
    q := p;
    if !buf.CursorActive() {
      buf.Ffwd(SZ_BYTE);
    }
    if buf.CursorActive() {
      var s := buf.ReadSym();
      if s.None? {
        rr := RD_INCOMPLETE;
        return;
      }
      q := p.(text := s.value);
    } else {
      buf.Ffwd(|p.text| + SZ_BYTE);
    }
    rr := RD_OK;
  }

  lemma SymStep(v: Val, p: Part, src: bytes, c: Cursor)
    requires p.PSym? && Good(v, p, src, c)
    ensures var d := PastHead(v, c);
            && HeadSz(v) == SZ_BYTE
            && (d.csr < 0 ==> Did(v, src, c, p, Cursor(d.csr + |p.text| + 1, d.off), RD_OK))
            && (d.csr >= 0 ==>
                  d.off <= |src| &&
                  var n := StrNLen(src[d.off..]);
                  if n == |src| - d.off then Did(v, src, c, p, d, RD_INCOMPLETE)
                  else Did(v, src, c, p.(text := src[d.off..d.off + n]), Cursor(d.csr + n + 1, d.off + n + 1), RD_OK))
  {
    hide Positive, Boundary, Sum, Encode, StrNLen;
    SymBody(v);
    var d := PastHead(v, c);
    PassUnit(|Text(v)| + 1, |src|, d);
    if d.csr >= 0 {
      assert Rest(Body(v), d) == Body(v);
      StrNLenAgrees(src[d.off..], Text(v));
      if |Text(v)| + 1 <= |src| - d.off {
        assert src[d.off..][..|Text(v)|] == src[d.off..d.off + |Text(v)|];
      }
    }
  }

  function Text(v: Val): bytes
    requires v.Sym? || v.Exception?
  {
    match v
    case Sym(s) => s
    case Exception(s) => s
  }

  lemma SymBody(v: Val)
    requires WF(v) && (v.Sym? || v.Exception?)
    ensures Body(v) == Text(v) + [0] && RBody(v) == [|Text(v)| + 1] && NoNul(Text(v))
  {
    RUnitsSum(v);
  }

  /** The elements of a vector, after its header. */
  method ReadIntVector(p: Part, buf: ReadBuf, ghost v: Val) returns (q: Part, rr: ReadResult)
    requires p.PVec? && Sane(p) && buf.Ok()
    modifies buf`csr, buf`off
    ensures buf.Ok() && buf.off >= old(buf.off) && Sane(q)
    ensures Good(v, p, buf.src, old(buf.Cur())) ==> Did(v, buf.src, old(buf.Cur()), q, buf.Cur(), rr)
  {
    hide Good, Did, DecodeElems, PastHead, Fit, ElemWidth, SaneSlot, SaneAll;
    if Good(v, p, buf.src, buf.Cur()) {
      VecStep(v, p, buf.src, buf.Cur());
    }
    var w, len := ElemWidth(p.vtyp), |p.elems|;
    var skip := len * w;
    q := p;
    if !buf.CursorActive() {
      buf.Ffwd(SZ_VEC_HDR);
    }
    buf.Ffwd(skip);
    if len == p.cap {
      return q, RD_OK;
    }
    var elm := Fit(p.cap - len, w, buf.Remaining());
    var n := elm * w;
    var more := DecodeElems(w, buf.src[buf.off..buf.off + n]);
    DecodeElemsCount(w, elm, buf.src[buf.off..buf.off + n]);
    q := p.(elems := p.elems + more);
    buf.Adj(n);
    rr := if |q.elems| == p.cap then RD_OK else RD_INCOMPLETE;
  }

  lemma VecStep(v: Val, p: Part, src: bytes, c: Cursor)
    requires p.PVec? && Sane(p) && Good(v, p, src, c)
    ensures var w, d, len := ElemWidth(p.vtyp), PastHead(v, c), |p.elems|;
            var skip := len * w;
            && d == (if c.csr < 0 then Cursor(c.csr + SZ_VEC_HDR, c.off) else c)
            && (len == p.cap ==> Did(v, src, c, p, Cursor(d.csr + skip, d.off), RD_OK))
            && (len < p.cap ==>
                  && d.csr + skip == d.off <= |src|
                  && var elm := Fit(p.cap - len, w, |src| - d.off);
                     var n := elm * w;
                     n <= |src| - d.off &&
                     Did(v, src, c, p.(elems := p.elems + DecodeElems(w, src[d.off..d.off + n])),
                         Cursor(d.off + n, d.off + n), if len + elm == p.cap then RD_OK else RD_INCOMPLETE))
  {
    hide Did, Good, Positive, Boundary, Sum, Encode, PassOver, Reps, Agrees, Aligned, WF, Fit, DecodeElems;
    hide EncodeElems, After, ElemWidth, Patterns, Rest, SaneSlot, SaneAll;
    VecGood(v, p, src, c);
    var w, d, es := ElemWidth(v.vtyp), PastHead(v, c), v.elems;
    if Skip(d) >= |es| * w {
      VecBeyond(v, p, src, c, |es| * w);
      assert |p.elems| == |es| == p.cap;
    } else {
      var skp, elm := PassRepsInside(|es|, w, |src|, d);
      VecInside(v, p, src, c, skp, elm, skp * w, elm * w);
      assert |p.elems| == skp < p.cap;
      ElemsArrive(w, es, src, d, skp, elm, skp * w, elm * w);
      assert es[..skp] + es[skp..skp + elm] == es[..skp + elm];
    }
  }

  lemma VecBeyond(v: Val, p: Part, src: bytes, c: Cursor, n: nat)
    requires p.PVec? && Good(v, p, src, c) && v.Vec? && WF(v)
    requires n == |v.elems| * ElemWidth(v.vtyp) && Skip(PastHead(v, c)) >= n
    requires RBody(v) == Reps(|v.elems|, ElemWidth(v.vtyp))
    ensures p == PVec(v.vtyp, v.attr, |v.elems|, v.elems)
    ensures Did(v, src, c, p, Cursor(PastHead(v, c).csr + n, PastHead(v, c).off), RD_OK)
  {
    hide Positive, Boundary, Sum, Encode, PassOver, Reps, Agrees;
    PassRepsBeyond(|v.elems|, ElemWidth(v.vtyp), |src|, PastHead(v, c));
    assert v.elems[..|v.elems|] == v.elems;
  }

  lemma VecInside(v: Val, p: Part, src: bytes, c: Cursor, skp: nat, elm: nat, a: nat, n: nat)
    requires p.PVec? && Good(v, p, src, c) && v.Vec? && WF(v)
    requires a == skp * ElemWidth(v.vtyp) && n == elm * ElemWidth(v.vtyp) && skp + elm <= |v.elems|
    requires var d, total := PastHead(v, c), |v.elems| * ElemWidth(v.vtyp);
             && Skip(d) == a < total
             && n <= |src| - d.off
             && (a + n == total <==> skp + elm == |v.elems|)
             && PassOver(RBody(v), |src|, d) == Pass(total, a, a + n, Cursor(d.off + n, d.off + n))
    ensures p == PVec(v.vtyp, v.attr, |v.elems|, v.elems[..skp])
    ensures var d := PastHead(v, c);
            && d.csr + a == d.off
            && Did(v, src, c, p.(elems := v.elems[..skp + elm]), Cursor(d.off + n, d.off + n),
                   if skp + elm == |v.elems| then RD_OK else RD_INCOMPLETE)
  {
    hide Positive, Boundary, Sum, Encode, PassOver, Reps, Agrees;
    WholeElems(ElemWidth(v.vtyp), skp, elm);
  }

  lemma VecGood(v: Val, p: Part, src: bytes, c: Cursor)
    requires p.PVec? && Good(v, p, src, c)
    ensures WF(v) && v.Vec? && p.vtyp == v.vtyp && p.cap == |v.elems| && ElemWidth(v.vtyp) > 0
    ensures forall i :: 0 <= i < |v.elems| ==> v.elems[i] < Patterns(ElemWidth(v.vtyp))
    ensures var d, e := PastHead(v, c), EncodeElems(ElemWidth(v.vtyp), v.elems);
            && Valid(d, |src|) && Aligned(Reps(|v.elems|, ElemWidth(v.vtyp)), d)
            && Agrees(src[d.off..], Rest(e, d)) && |e| == |v.elems| * ElemWidth(v.vtyp)
    ensures RBody(v) == Reps(|v.elems|, ElemWidth(v.vtyp))
  {
    VecBody(v);
    EncodeElemsLength(ElemWidth(v.vtyp), v.elems);
  }

  lemma VecBody(v: Val)
    requires WF(v) && v.Vec?
    ensures Body(v) == EncodeElems(ElemWidth(v.vtyp), v.elems)
    ensures RBody(v) == Reps(|v.elems|, ElemWidth(v.vtyp))
  {
    RUnitsSum(v);
  }

  lemma WholeElems(w: nat, skp: nat, elm: nat)
    requires w > 0
    ensures (skp * w) / w == skp && (skp * w + elm * w) / w == skp + elm
  {
    DivUnique(skp * w, w, skp, 0);
    assert skp * w + elm * w == (skp + elm) * w;
    DivUnique(skp * w + elm * w, w, skp + elm, 0);
  }

  /** The bytes that arrive decode to the elements that come next. */
  lemma ElemsArrive(w: nat, es: seq<nat>, src: bytes, d: Cursor, skp: nat, elm: nat, a: nat, n: nat)
    requires w > 0 && Valid(d, |src|) && skp + elm <= |es| && a == skp * w && n == elm * w
    requires Skip(d) == a && n <= |src| - d.off
    requires a <= |EncodeElems(w, es)|
    requires Agrees(src[d.off..], Rest(EncodeElems(w, es), d))
    requires forall i :: 0 <= i < |es| ==> es[i] < Patterns(w)
    ensures DecodeElems(w, src[d.off..d.off + n]) == es[skp..skp + elm]
  {
    hide EncodeElems, DecodeElems, Patterns;
    var e := EncodeElems(w, es);
    EncodeElemsSlice(w, es, skp, skp + elm);
    assert (skp + elm) * w == a + n;
    assert e[a..] == e[a..a + n] + e[a + n..];
    AgreesSplit(src[d.off..], e[a..a + n], e[a + n..]);
    assert src[d.off..][..n] == src[d.off..d.off + n];
    DecodeEncodeElems(w, es[skp..skp + elm]);
  }

  /** The text of a function, after its prologue. */
  method ReadFunction(p: Part, buf: ReadBuf, ghost v: Val) returns (q: Part, rr: ReadResult)
    requires p.PFunc? && Sane(p) && buf.Ok()
    modifies buf`csr, buf`off
    ensures buf.Ok() && buf.off >= old(buf.off) && Sane(q)
    ensures Good(v, p, buf.src, old(buf.Cur())) ==> Did(v, buf.src, old(buf.Cur()), q, buf.Cur(), rr)
  {
    hide Good, Did;
    if Good(v, p, buf.src, buf.Cur()) {
      FuncStep(v, p, buf.src, buf.Cur());
    }
    q := p;
    if !buf.CursorActive() {
      buf.Ffwd(SZ_FUN_HDR);
    }
    buf.Ffwd(|p.body|);
    if |p.body| == p.fcap {
      return q, RD_OK;
    }
    var rqd := p.fcap - |p.body|;
    var elm := Min(rqd, buf.Remaining());
    q := p.(body := p.body + buf.src[buf.off..buf.off + elm]);
    buf.Adj(elm);
    rr := if elm > 0 && rqd == elm then RD_OK else RD_INCOMPLETE;
  }

  lemma FuncStep(v: Val, p: Part, src: bytes, c: Cursor)
    requires p.PFunc? && Good(v, p, src, c)
    ensures var d, len := PastHead(v, c), |p.body|;
            && len <= p.fcap
            && d == (if c.csr < 0 then Cursor(c.csr + SZ_FUN_HDR, c.off) else c)
            && (len == p.fcap ==> Did(v, src, c, p, Cursor(d.csr + len, d.off), RD_OK))
            && (len < p.fcap ==>
                  && d.csr + len == d.off <= |src|
                  && var elm := Min(p.fcap - len, |src| - d.off);
                     Did(v, src, c, p.(body := p.body + src[d.off..d.off + elm]), Cursor(d.off + elm, d.off + elm),
                         if len + elm == p.fcap then RD_OK else RD_INCOMPLETE))
  {
    hide Did, Good, Positive, Boundary, Sum, Encode, PassOver, Reps, Agrees, Aligned, WF, After, Fit;
    FuncGood(v, p, src, c);
    var d, s := PastHead(v, c), v.body;
    if Skip(d) < |s| * 1 {
      var skp, elm := PassRepsInside(|s|, 1, |src|, d);
      FitOne(|s| - skp, |src| - d.off);
      FuncInside(v, p, src, c, skp, elm);
    }
  }

  lemma FuncGood(v: Val, p: Part, src: bytes, c: Cursor)
    requires p.PFunc? && Good(v, p, src, c)
    ensures var d := PastHead(v, c);
            && v.Func? && WF(v) && p.fcap == |v.body| && Valid(d, |src|) && Aligned(Reps(|v.body|, 1), d)
            && RBody(v) == Reps(|v.body|, 1)
            && (Skip(d) >= |v.body| ==>
                  p.body == v.body && Did(v, src, c, p, Cursor(d.csr + |v.body|, d.off), RD_OK))
  {
    hide Positive, Boundary, Sum, Encode, PassOver, Reps, Agrees;
    FuncBody(v);
    var d, s := PastHead(v, c), v.body;
    if Skip(d) >= |s| {
      PassRepsBeyond(|s|, 1, |src|, d);
      assert s[..|s|] == s;
    }
  }

  lemma FuncInside(v: Val, p: Part, src: bytes, c: Cursor, skp: nat, elm: nat)
    requires p.PFunc? && v.Func? && Good(v, p, src, c)
    requires var d := PastHead(v, c);
             && skp == Skip(d) < |v.body| && elm == Min(|v.body| - skp, |src| - d.off)
             && PassOver(RBody(v), |src|, d) == Pass(|v.body|, skp, skp + elm, Cursor(d.off + elm, d.off + elm))
    ensures var d := PastHead(v, c);
            && |p.body| == skp && d.csr + skp == d.off
            && Did(v, src, c, p.(body := p.body + src[d.off..d.off + elm]), Cursor(d.off + elm, d.off + elm),
                   if skp + elm == |v.body| then RD_OK else RD_INCOMPLETE)
  {
    hide Positive, Boundary, Sum, Encode, PassOver, Reps, Agrees;
    FuncBody(v);
    BytesArrive(v.body, src, PastHead(v, c), skp, elm);
  }

  lemma BytesArrive(s: bytes, src: bytes, d: Cursor, skp: nat, elm: nat)
    requires Valid(d, |src|) && skp == Skip(d) && skp + elm <= |s| && elm <= |src| - d.off
    requires Agrees(src[d.off..], Rest(s, d))
    ensures s[..skp] + src[d.off..d.off + elm] == s[..skp + elm]
  {
    assert Rest(s, d) == s[skp..skp + elm] + s[skp + elm..];
    AgreesSplit(src[d.off..], s[skp..skp + elm], s[skp + elm..]);
    assert src[d.off..][..elm] == src[d.off..d.off + elm];
    assert s[..skp] + s[skp..skp + elm] == s[..skp + elm];
  }

  lemma FitOne(k: nat, room: nat)
    ensures Fit(k, 1, room) == Min(k, room)
  {
  }

  lemma FuncBody(v: Val)
    requires WF(v) && v.Func?
    ensures Body(v) == v.body && RBody(v) == Reps(|v.body|, 1)
  {
    RUnitsSum(v);
  }

  /** The symbols of a symbol vector, after its header. */
  method ReadSymVector(p: Part, buf: ReadBuf, ghost v: Val) returns (q: Part, rr: ReadResult)
    requires p.PSymVec? && Sane(p) && buf.Ok()
    modifies buf`csr, buf`off
    ensures buf.Ok() && buf.off >= old(buf.off) && Sane(q)
    ensures Good(v, p, buf.src, old(buf.Cur())) ==> Did(v, buf.src, old(buf.Cur()), q, buf.Cur(), rr)
  {
    hide Good, Did, TakeSyms, LocsOf, EncodeSyms;
    if Good(v, p, buf.src, buf.Cur()) {
      SymVecStep(v, p, buf.src, buf.Cur());
    }
    q := p;
    if !buf.CursorActive() {
      buf.Ffwd(SZ_VEC_HDR);
    }
    buf.Ffwd(|p.data|);
    if |p.locs| == p.scap {
      return q, RD_OK;
    }
    var locs, data;
    locs, data, rr := ReadSyms(p.scap - |p.locs|, p.locs, p.data, buf);
    q := p.(locs := locs, data := data);
  }

  /** The first `k` terminated strings of `s`, or those of them that have arrived. */
  function TakeSyms(s: bytes, k: nat): (ss: seq<bytes>)
    ensures |ss| <= k && SymBytes(ss) <= |s|
  {
    var n := StrNLen(s);
    if k == 0 || n == |s| then [] else [s[..n]] + TakeSyms(s[n + 1..], k - 1)
  }

  /** Appends up to `rqd` symbols, each with its NUL, and notes where each of them lies. */
  method ReadSyms(rqd: nat, locs0: seq<Loc>, data0: bytes, buf: ReadBuf)
    returns (locs: seq<Loc>, data: bytes, rr: ReadResult)
    requires rqd > 0 && buf.Ok()
    modifies buf`csr, buf`off
    ensures buf.Ok()
    ensures var ss := TakeSyms(buf.src[old(buf.off)..], rqd);
            && locs == locs0 + LocsOf(ss, |data0|) && data == data0 + EncodeSyms(ss)
            && buf.csr == old(buf.csr) + SymBytes(ss) && buf.off == old(buf.off) + SymBytes(ss)
            && rr == (if |ss| == rqd then RD_OK else RD_INCOMPLETE)
            && |LocsOf(ss, |data0|)| == |ss|
  {
    hide TakeSyms, LocsOf, EncodeSyms, StrNLen, SymBytes;
    locs, data := locs0, data0;
    TakeNone(buf.src[buf.off..], rqd, |data0|);
    if buf.Remaining() == 0 {
      return locs, data, RD_INCOMPLETE;
    }
    ghost var s := buf.src[buf.off..];
    ghost var ss := [];
    for i := 0 to rqd
      invariant buf.Ok() && |ss| == i && buf.off >= old(buf.off)
      invariant buf.csr == old(buf.csr) + SymBytes(ss) && buf.off == old(buf.off) + SymBytes(ss)
      invariant locs == locs0 + LocsOf(ss, |data0|) && data == data0 + EncodeSyms(ss)
      invariant TakeSyms(s, rqd) == ss + TakeSyms(buf.src[buf.off..], rqd - i)
    {
      ghost var rest := buf.src[buf.off..];
      TakeNext(rest, rqd - i);
      var str := buf.ReadSym();
      if str.None? {
        assert TakeSyms(s, rqd) == ss;
        LocsCount(ss, |data0|);
        return locs, data, RD_INCOMPLETE;
      }
      LocsPush(ss, str.value, |data0|);
      locs := locs + [Loc(|data|, |str.value| + SZ_BYTE)];
      data := data + str.value + [0];
      assert rest[..|str.value|] == str.value && rest[|str.value| + 1..] == buf.src[buf.off..];
      AppendAssoc(ss, str.value, TakeSyms(buf.src[buf.off..], rqd - i - 1));
      ss := ss + [str.value];
    }
    TakeNone(buf.src[buf.off..], 0, |data0|);
    assert TakeSyms(s, rqd) == ss;
    LocsCount(ss, |data0|);
    rr := RD_OK;
  }

  lemma AppendAssoc(ss: seq<bytes>, t: bytes, us: seq<bytes>)
    ensures ss + ([t] + us) == ss + [t] + us
  {
  }

  lemma TakeNone(s: bytes, k: nat, off: nat)
    ensures s == [] || k == 0 ==> TakeSyms(s, k) == []
    ensures LocsOf([], off) == [] && EncodeSyms([]) == [] && SymBytes([]) == 0
  {
  }

  lemma TakeNext(s: bytes, k: nat)
    requires k > 0
    ensures var n := StrNLen(s);
            if n == |s| then TakeSyms(s, k) == [] else TakeSyms(s, k) == [s[..n]] + TakeSyms(s[n + 1..], k - 1)
  {
  }

  lemma LocsPush(ss: seq<bytes>, t: bytes, off: nat)
    ensures |EncodeSyms(ss)| == SymBytes(ss)
    ensures LocsOf(ss + [t], off) == LocsOf(ss, off) + [Loc(off + SymBytes(ss), |t| + 1)]
    ensures EncodeSyms(ss + [t]) == EncodeSyms(ss) + t + [0]
    ensures SymBytes(ss + [t]) == SymBytes(ss) + |t| + 1
  {
    LocsAppend(ss, [t], off);
    EncodeSymsLength(ss);
    assert [t][1..] == [];
    assert SymBytes([t]) == |t| + 1;
    assert EncodeSyms([t]) == t + [0];
  }

  lemma SymVecStep(v: Val, p: Part, src: bytes, c: Cursor)
    requires p.PSymVec? && Good(v, p, src, c)
    ensures var d, len := PastHead(v, c), |p.locs|;
            && len <= p.scap
            && d == (if c.csr < 0 then Cursor(c.csr + SZ_VEC_HDR, c.off) else c)
            && (len == p.scap ==> Did(v, src, c, p, Cursor(d.csr + |p.data|, d.off), RD_OK))
            && (len < p.scap ==>
                  && d.csr + |p.data| == d.off <= |src|
                  && var ts := TakeSyms(src[d.off..], p.scap - len);
                     Did(v, src, c, p.(locs := p.locs + LocsOf(ts, |p.data|), data := p.data + EncodeSyms(ts)),
                         Cursor(d.off + SymBytes(ts), d.off + SymBytes(ts)),
                         if len + |ts| == p.scap then RD_OK else RD_INCOMPLETE))
  {
    hide Did, Good, Positive, Boundary, Sum, Encode, PassOver, Agrees, Aligned, WF, After, TakeSyms, SymsDone, LocsOf;
    hide EncodeSyms, SymBytes;
    SymVecGood(v, p, src, c);
    var d := PastHead(v, c);
    if Skip(d) < SymBytes(v.syms) {
      SymVecInside(v, p, src, c, Skip(d));
    }
  }

  lemma SymVecGood(v: Val, p: Part, src: bytes, c: Cursor)
    requires p.PSymVec? && Good(v, p, src, c)
    ensures WF(v) && v.SymVec? && p.scap == |v.syms| && |p.locs| <= |v.syms|
    ensures Skip(PastHead(v, c)) >= SymBytes(v.syms) ==>
              && |p.locs| == |v.syms|
              && Did(v, src, c, p, Cursor(PastHead(v, c).csr + |p.data|, PastHead(v, c).off), RD_OK)
  {
    var ss, d := v.syms, PastHead(v, c);
    SymUnitsSum(ss);
    var n := PassOver(RBody(v), |src|, d).start;
    assert p == After(v, n);
    SymsGreedy(ss, n);
    LocsCount(SymsDone(ss, n), 0);
    if Skip(d) >= SymBytes(ss) {
      SymsDoneAll(ss, n);
      EncodeSymsLength(ss);
    }
  }

  /** The case of SymVecStep in which `n` bytes, and not all, of the character data were there before. */
  lemma SymVecInside(v: Val, p: Part, src: bytes, c: Cursor, n: nat)
    requires p.PSymVec? && Good(v, p, src, c) && v.SymVec?
    requires n == Skip(PastHead(v, c)) < SymBytes(v.syms)
    ensures var d, len := PastHead(v, c), |p.locs|;
            && len < p.scap == |v.syms|
            && d.csr + |p.data| == d.off <= |src|
            && var ts := TakeSyms(src[d.off..], p.scap - len);
               Did(v, src, c, p.(locs := p.locs + LocsOf(ts, |p.data|), data := p.data + EncodeSyms(ts)),
                   Cursor(d.off + SymBytes(ts), d.off + SymBytes(ts)),
                   if len + |ts| == p.scap then RD_OK else RD_INCOMPLETE)
  {
    hide Encode, SymBytes, SymsDone, LocsOf, EncodeSyms, TakeSyms, Boundary, Drop, Greedy, Sum, Positive;
    var ss, d := v.syms, PastHead(v, c);
    var room := |src| - d.off;
    SymVecBody(v);
    SymUnitsSum(ss);
    SymsStep(ss, n, room);
    var pre := SymsDone(ss, n);
    var rest := ss[|pre|..];
    var ts := SymsDone(rest, room);
    assert ss == pre + rest;
    SymsArrive(ss, src, d, pre, rest);
    assert PassOver(SymUnits(ss), |src|, d)
        == Pass(SymBytes(ss), n, n + SymBytes(ts), Cursor(d.off + SymBytes(ts), d.off + SymBytes(ts)));
  }

  lemma SymVecBody(v: Val)
    requires WF(v) && v.SymVec?
    ensures Body(v) == EncodeSyms(v.syms) && RBody(v) == SymUnits(v.syms)
  {
    RUnitsSum(v);
  }

  /** From a boundary on, what fits are the whole symbols of the rest. */
  lemma SymsStep(ss: seq<bytes>, n: nat, room: nat)
    requires Boundary(SymUnits(ss), n) && n < SymBytes(ss)
    ensures var pre := SymsDone(ss, n);
            && pre <= ss && |pre| < |ss| && SymBytes(pre) == |EncodeSyms(pre)| == n && |LocsOf(pre, 0)| == |pre|
            && var rest := ss[|pre|..];
               var ts := SymsDone(rest, room);
               && Greedy(Drop(SymUnits(ss), n), room) == SymBytes(ts)
               && SymsDone(ss, n + SymBytes(ts)) == pre + ts
               && LocsOf(pre + ts, 0) == LocsOf(pre, 0) + LocsOf(ts, n)
               && EncodeSyms(pre + ts) == EncodeSyms(pre) + EncodeSyms(ts)
               && (n + SymBytes(ts) == SymBytes(ss) <==> |pre| + |ts| == |ss|)
               && EncodeSyms(ss) == EncodeSyms(pre) + EncodeSyms(rest)
  {
    hide SymUnits, Boundary, Drop, Greedy, SymsDone, SymBytes, EncodeSyms, LocsOf;
    SymsResume(ss, n, 0);
    var pre := SymsDone(ss, n);
    var rest := ss[|pre|..];
    var ts := SymsDone(rest, room);
    assert ss == pre + rest;
    SymsGreedy(rest, room);
    SymsDoneTwice(rest, room);
    SymsResume(ss, n, SymBytes(ts));
    LocsAppend(pre, rest, 0);
    LocsAppend(pre, ts, 0);
    EncodeSymsLength(pre);
    LocsCount(pre, 0);
    assert |pre| == |ss| ==> pre == ss;
  }

  /** The bytes that arrive hold the symbols that come next. */
  lemma SymsArrive(ss: seq<bytes>, src: bytes, d: Cursor, pre: seq<bytes>, rest: seq<bytes>)
    requires ss == pre + rest && Valid(d, |src|) && Skip(d) == |EncodeSyms(pre)|
    requires EncodeSyms(ss) == EncodeSyms(pre) + EncodeSyms(rest)
    requires Agrees(src[d.off..], Rest(EncodeSyms(ss), d))
    requires NoNuls(ss)
    ensures TakeSyms(src[d.off..], |rest|) == SymsDone(rest, |src| - d.off)
  {
    hide EncodeSyms, TakeSyms, SymsDone, NoNuls, Agrees, Rest;
    var a, b := EncodeSyms(pre), EncodeSyms(rest);
    RestSuffix(a, b, d);
    assert Rest(EncodeSyms(ss), d) == b;
    NoNulsSuffix(pre, rest);
    TakeSymsAgrees(src[d.off..], rest);
  }

  lemma {:induction false} NoNulsSuffix(pre: seq<bytes>, rest: seq<bytes>)
    requires NoNuls(pre + rest)
    ensures NoNuls(rest)
  {
    if pre == [] {
      assert pre + rest == rest;
    } else {
      assert (pre + rest)[1..] == pre[1..] + rest;
      NoNulsSuffix(pre[1..], rest);
    }
  }

  lemma RestSuffix(a: bytes, b: bytes, d: Cursor)
    requires Skip(d) == |a|
    ensures Rest(a + b, d) == b
  {
  }

  lemma {:induction false} TakeSymsAgrees(s: bytes, ss: seq<bytes>)
    requires Agrees(s, EncodeSyms(ss)) && NoNuls(ss)
    ensures TakeSyms(s, |ss|) == SymsDone(ss, |s|)
  {
    if ss != [] {
      AgreesSplit(s, ss[0] + [0], EncodeSyms(ss[1..]));
      StrNLenAgrees(s, ss[0]);
      if |ss[0]| + 1 <= |s| {
        TakeSymsAgrees(s[|ss[0]| + 1..], ss[1..]);
      }
    }
  }
}
