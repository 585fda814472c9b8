/** The journal reader of the q extension: one walk decides whether a message is wanted, another builds it. */
module LogFilter {
  import opened Bytes
  import opened KdbValue
  import opened Partial
  import opened Reader
  import opened Scanner
  import opened UpdFilter
  import opened Decode

  /** An object and the bytes it takes; Stops where the program gives up or leaves the bytes it was given. */
  datatype Read = Stops | Read(obj: Val, used: nat)
  datatype ReadAll = StopsAll | ReadAll(objs: seq<Val>, end: nat)

  // ---- the sizes each walk goes by ----

  const KB := 1
  const UU := 2
  const KG := 4
  const KH := 5
  const KI := 6
  const KJ := 7
  const KE := 8
  const KF := 9
  const KC := 10
  const KS := 11
  const KP := 12
  const KM := 13
  const KD := 14
  const KZ := 15
  const KN := 16
  const KU := 17
  const KV := 18
  const KT := 19

  /** The walk that decides: atoms of fixed size, or 0. */
  function ChkAtomSz(t: int): nat {
    if t in {-KT, -KV, -KU, -KD, -KM, -KE, -KI} then 4
    else if t in {-KN, -KZ, -KP, -KF, -KJ} then 8
    else if t == -KH then 2
    else if t in {-KC, -KG, -KB} then 1
    else if t == -UU then 16
    else 0
  }

  predicate ChkTakesVec(t: int) {
    t in {KB, KC, KG, KH, KI, KE, KM, KD, KU, KV, KT, KJ, KF, KP, KZ, KN, KS}
  }

  /** The elements of the vectors it counts; GUIDs are among them, although no vector of GUIDs gets that far. */
  function OldElemSz(t: int): nat {
    if t in {KT, KV, KU, KD, KM, KE, KI} then 4
    else if t in {KN, KZ, KP, KF, KJ} then 8
    else if t == KH then 2
    else if t in {KC, KG, KB} then 1
    else if t == UU then 16
    else 0
  }

  /** The walk that builds, by the functions it reads atoms with. */
  function ReifyAtomSz(t: int): nat {
    match -t
    case 19 => 4
    case 18 => 4
    case 17 => 4
    case 14 => 4
    case 13 => 4
    case 8 => 4
    case 6 => 4
    case 16 => 8
    case 15 => 8
    case 12 => 8
    case 9 => 8
    case 7 => 8
    case 5 => 2
    case 10 => 1
    case 4 => 1
    case 1 => 1
    case 2 => 16
    case _ => 0
  }

  predicate ReifyTakesVec(t: int) {
    1 <= t <= 19 && t != 2 && t != 3
  }

  function ElemSz(t: int): nat {
    match t
    case 19 => 4
    case 18 => 4
    case 17 => 4
    case 14 => 4
    case 13 => 4
    case 8 => 4
    case 6 => 4
    case 16 => 8
    case 15 => 8
    case 12 => 8
    case 9 => 8
    case 7 => 8
    case 5 => 2
    case 10 => 1
    case 4 => 1
    case 1 => 1
    case 2 => 16
    case _ => 0
  }

  /** The two walks know the same types and give them the same sizes. */
  lemma SameSizes(t: int)
    ensures ChkAtomSz(t) == ReifyAtomSz(t) && (ChkTakesVec(t) <==> ReifyTakesVec(t)) && OldElemSz(t) == ElemSz(t)
  {
  }

  /** They are those of the wire format, which the C++ library does not use for datetimes. */
  lemma WireSizes(t: int)
    ensures t < 0 && t != -KZ ==> ReifyAtomSz(t) == AtomWidth(t)
    ensures t > 0 && t != KZ ==> ElemSz(t) == ElemWidth(t)
    ensures ReifyTakesVec(t) <==> t == SYMBOL_VECTOR || (ElemSz(t) > 0 && t != UU)
    ensures t >= 0 || t == SYMBOL_ATOM ==> ReifyAtomSz(t) == 0
  {
  }

  // ---- what a message is ----

  function Reify(src: bytes): (r: Read)
    ensures r.Read? ==> 0 < r.used <= |src|
    decreases |src|
  {
    if src == [] then Stops
    else
      var t := I8(src[0]);
      if t == SYMBOL_ATOM then
        var n := StrNLen(src[1..]);
        if n == |src| - 1 then Stops else Read(Sym(src[1..1 + n]), n + 2)
      else if ReifyAtomSz(t) > 0 then
        var w := ReifyAtomSz(t);
        if |src| < 1 + w then Stops else Read(Atom(t, FromLE(src[1..1 + w])), 1 + w)
      else if t == LIST then
        if |src| < SZ_VEC_HDR || AsInt32(src[2..6]) < 0 then Stops
        else
          var vs := ReifyAll(src, SZ_VEC_HDR, AsInt32(src[2..6]));
          if vs.StopsAll? then Stops else Read(List(src[1], vs.objs), vs.end)
      else if ReifyTakesVec(t) then VecAt(src)
      else if t == TABLE then
        if |src| < 2 then Stops
        else
          var d := Reify(src[2..]);
          if d.Stops? || !d.obj.Dict? then Stops else Read(Table(d.obj.keys, d.obj.vals), 2 + d.used)
      else if t == DICT then
        var vs := ReifyAll(src, 1, 2);
        if vs.StopsAll? then Stops else Read(Dict(DICT, vs.objs[0], vs.objs[1]), vs.end)
      else Stops
  }

  /** `k` objects from `off` on. */
  function ReifyAll(src: bytes, off: nat, k: nat): (r: ReadAll)
    requires 0 < off <= |src|
    ensures r.ReadAll? ==> off <= r.end <= |src| && |r.objs| == k
    decreases |src|, k
  {
    if k == 0 then ReadAll([], off)
    else
      var v := Reify(src[off..]);
      if v.Stops? then StopsAll
      else
        var vs := ReifyAll(src, off + v.used, k - 1);
        if vs.StopsAll? then StopsAll else ReadAll([v.obj] + vs.objs, vs.end)
  }

  function VecAt(src: bytes): (r: Read)
    requires src != []
    ensures r.Read? ==> 0 < r.used <= |src|
  {
    var t := I8(src[0]);
    if |src| < SZ_VEC_HDR || AsInt32(src[2..6]) < 0 then Stops
    else
      var len := AsInt32(src[2..6]);
      if t == SYMBOL_VECTOR then
        var ss := DecodeSyms(src, SZ_VEC_HDR, len);
        if ss.FailsSyms? then Stops else Read(SymVec(src[1], ss.syms), ss.end)
      else if ElemSz(t) == 0 || len * ElemSz(t) > |src| - SZ_VEC_HDR then Stops
      else
        var end := SZ_VEC_HDR + len * ElemSz(t);
        Read(Vec(t, src[1], DecodeElems(ElemSz(t), src[SZ_VEC_HDR..end])), end)
  }

  /** The types both walks know: no primitive, exception, function or projection, and no vector of GUIDs. */
  predicate Supported(v: Val)
    decreases v, 0
  {
    match v
    case Atom(t, _) => !IsPrimitive(t)
    case Sym(_) => true
    case Vec(t, _, _) => t != UU
    case SymVec(_, _) => true
    case List(_, vs) => AllSupported(vs)
    case Dict(c, k, x) => c == DICT && Supported(k) && Supported(x)
    case Table(c, r) => Supported(c) && Supported(r)
    case _ => false
  }

  predicate AllSupported(vs: seq<Val>)
    decreases vs, 1
  {
    vs == [] || (Supported(vs[0]) && AllSupported(vs[1..]))
  }

  /** Building the object of an encoding gives the value encoded, and uses the bytes of the encoding, if all its types
      are known; otherwise the program gives up. */
  lemma {:induction false} ReifyEncoded(v: Val, s: bytes)
    requires WF(v) && Encode(v) <= s
    ensures Reify(s) == if Supported(v) then Read(v, |Encode(v)|) else Stops
    decreases v, 0
  {
    hide Encode, EncodeAll, Reify, ReifyAll, WF;
    match v {
    case Atom(_, _) => AtomEncoded(v, s);
    case Sym(_) => SymEncoded(v, s);
    case Vec(_, _, _) =>
      VecEncoded(v, s);
      VecReified(v, s);
    case SymVec(_, _) =>
      VecEncoded(v, s);
      VecReified(v, s);
    case List(_, vs) =>
      ListHeadOf(v, s);
      AllEncoded(vs, s, SZ_VEC_HDR);
      ListReified(v, s);
    case Dict(_, k, x) =>
      PairParts(v, s);
      ReifyEncoded(k, s[1..]);
      ReifyEncoded(x, s[1 + |Encode(k)|..]);
      BothReified(k, x, s);
      DictReified(v, s);
    case Table(c, r) =>
      TableParts(v, s);
      var d, t := Dict(DICT, c, r), s[2..];
      PairParts(d, t);
      ReifyEncoded(c, t[1..]);
      ReifyEncoded(r, t[1 + |Encode(c)|..]);
      BothReified(c, r, t);
      DictReified(d, t);
      TableReified(v, s);
    case _ => OtherReified(v, s);
    }
  }

  lemma OtherReified(v: Val, s: bytes)
    requires WF(v) && (v.Exception? || v.Func? || v.Proj?) && Encode(v) <= s
    ensures Reify(s) == Stops
  {
    hide Encode, WF;
    EncodeNonEmpty(v);
    assert s[0] == Encode(v)[0];
  }

  lemma {:induction false} AllEncoded(vs: seq<Val>, s: bytes, off: nat)
    requires AllWF(vs) && 0 < off <= |s| && EncodeAll(vs) <= s[off..]
    ensures ReifyAll(s, off, |vs|) == if AllSupported(vs) then ReadAll(vs, off + |EncodeAll(vs)|) else StopsAll
    decreases vs, 1
  {
    hide Encode, Reify, WF, Supported;
    if vs != [] {
      var e, rest := Encode(vs[0]), EncodeAll(vs[1..]);
      SplitPrefix(e, rest, s, off);
      ReifyEncoded(vs[0], s[off..]);
      if Supported(vs[0]) {
        AllEncoded(vs[1..], s, off + |e|);
        assert [vs[0]] + vs[1..] == vs;
      }
    }
  }

  lemma AtomEncoded(v: Val, s: bytes)
    requires WF(v) && v.Atom? && Encode(v) <= s
    ensures Reify(s) == if Supported(v) then Read(v, |Encode(v)|) else Stops
  {
    hide ToLE, FromLE, Patterns, ReifyAtomSz;
    var e, w := Encode(v), FixedWidth(v.typ);
    assert s[0] == e[0];
    assert s[1..1 + w] == e[1..1 + w] == ToLE(w, v.bits);
    FromToLE(w, v.bits);
    WireSizes(v.typ);
  }

  lemma SymEncoded(v: Val, s: bytes)
    requires WF(v) && v.Sym? && Encode(v) <= s
    ensures Reify(s) == Read(v, |Encode(v)|)
  {
    hide StrNLen, NoNul;
    var e := Encode(v);
    assert s[0] == e[0];
    assert v.text + [0] == e[1..] <= s[1..];
    StrNLenAgrees(s[1..], v.text);
    assert s[1..1 + |v.text|] == s[1..][..|v.text|];
  }

  /** So does reading a vector. */
  lemma VecEncoded(v: Val, s: bytes)
    requires WF(v) && (v.Vec? || v.SymVec?) && Encode(v) <= s
    ensures s != [] && VecAt(s) == Read(v, |Encode(v)|)
  {
    hide ToLE, AsInt32, EncodeElems, DecodeElems, EncodeSyms, DecodeSyms, NoNuls, Patterns, ElemSz;
    EncodeNonEmpty(v);
    var e := Encode(v);
    assert s[0] == e[0];
    WireSizes(I8(s[0]));
    if v.SymVec? {
      FlatSymVec(v, s);
    } else {
      FlatVec(v, s);
    }
  }

  lemma VecReified(v: Val, s: bytes)
    requires WF(v) && (v.Vec? || v.SymVec?) && Encode(v) <= s && s != []
    ensures Reify(s) == if Supported(v) then VecAt(s) else Stops
  {
    hide Encode, VecAt, ElemSz;
    EncodeNonEmpty(v);
    Kinds(v);
    assert s[0] == Encode(v)[0];
    WireSizes(I8(s[0]));
  }

  lemma ListReified(v: Val, s: bytes)
    requires WF(v) && v.List? && |s| >= SZ_VEC_HDR && I8(s[0]) == LIST && s[1] == v.lattr
    requires AsInt32(s[2..6]) == |v.items|
    requires ReifyAll(s, SZ_VEC_HDR, |v.items|)
          == if AllSupported(v.items) then ReadAll(v.items, |Encode(v)|) else StopsAll
    ensures Reify(s) == if Supported(v) then Read(v, |Encode(v)|) else Stops
  {
    hide Encode, ReifyAll, AsInt32, WF;
  }

  lemma BothReified(a: Val, b: Val, s: bytes)
    requires WF(a) && WF(b) && 1 + |Encode(a)| + |Encode(b)| <= |s|
    requires Reify(s[1..]) == if Supported(a) then Read(a, |Encode(a)|) else Stops
    requires Reify(s[1 + |Encode(a)|..]) == if Supported(b) then Read(b, |Encode(b)|) else Stops
    ensures ReifyAll(s, 1, 2)
         == if Supported(a) && Supported(b) then ReadAll([a, b], 1 + |Encode(a)| + |Encode(b)|) else StopsAll
  {
    hide Encode, Reify, WF, Supported;
    var end := 1 + |Encode(a)| + |Encode(b)|;
    assert ReifyAll(s, end, 0) == ReadAll([], end);
    assert ReifyAll(s, 1 + |Encode(a)|, 1) == if Supported(b) then ReadAll([b] + [], end) else StopsAll;
    assert [a] + [b] == [a, b];
  }

  lemma DictReified(v: Val, s: bytes)
    requires WF(v) && v.Dict? && s != [] && I8(s[0]) == v.code && IsDict(v.code)
    requires ReifyAll(s, 1, 2)
          == if Supported(v.keys) && Supported(v.vals) then ReadAll([v.keys, v.vals], |Encode(v)|) else StopsAll
    ensures Reify(s) == if Supported(v) then Read(v, |Encode(v)|) else Stops
  {
    hide Encode, ReifyAll, WF;
  }

  lemma TableParts(v: Val, s: bytes)
    requires WF(v) && v.Table? && Encode(v) <= s
    ensures WF(v.cols) && WF(v.rows) && WF(Dict(DICT, v.cols, v.rows))
    ensures |s| >= 2 && I8(s[0]) == TABLE && Encode(Dict(DICT, v.cols, v.rows)) <= s[2..]
    ensures |Encode(v)| == 2 + |Encode(Dict(DICT, v.cols, v.rows))|
  {
    hide Encode, WF;
    TableIsDict(v);
    SplitPrefix([U8(TABLE), 0], Encode(Dict(DICT, v.cols, v.rows)), s, 0) by {
      assert s[0..] == s;
    }
    assert s[0] == Encode(v)[0];
  }

  lemma TableReified(v: Val, s: bytes)
    requires WF(v) && v.Table? && |s| >= 2 && I8(s[0]) == TABLE && WF(Dict(DICT, v.cols, v.rows))
    requires |Encode(v)| == 2 + |Encode(Dict(DICT, v.cols, v.rows))|
    requires var d := Dict(DICT, v.cols, v.rows);
             Reify(s[2..]) == if Supported(d) then Read(d, |Encode(d)|) else Stops
    ensures Reify(s) == if Supported(v) then Read(v, |Encode(v)|) else Stops
  {
    hide Encode, ReifyAll, WF;
  }

  /** Datetimes, of which the C++ library has no class, take eight bytes. */
  lemma DatetimeEncoded(n: nat, s: bytes)
    requires n < Patterns(8) && [U8(-KZ)] + ToLE(8, n) <= s
    ensures Reify(s) == Read(Atom(-KZ, n), 9)
  {
    hide ToLE, FromLE, Patterns;
    assert s[1..9] == ([U8(-KZ)] + ToLE(8, n))[1..9] == ToLE(8, n);
    FromToLE(8, n);
  }

  lemma DatetimesEncoded(attr: byte, ns: seq<nat>, s: bytes)
    requires |ns| < TWO_31 && forall i :: 0 <= i < |ns| ==> ns[i] < Patterns(8)
    requires Header(KZ, attr, |ns|) + EncodeElems(8, ns) <= s
    ensures Reify(s) == Read(Vec(KZ, attr, ns), 6 + 8 * |ns|)
  {
    hide ToLE, AsInt32, EncodeElems, DecodeElems, Patterns;
    var e := Header(KZ, attr, |ns|) + EncodeElems(8, ns);
    assert s[0] == e[0] && s[1] == e[1];
    assert s[2..6] == e[2..6] == ToLE(4, |ns|);
    Int32RoundTrip(|ns|);
    EncodeElemsLength(8, ns);
    assert s[6..6 + |ns| * 8] == e[6..6 + |ns| * 8] == EncodeElems(8, ns);
    DecodeEncodeElems(8, ns);
  }

  // ---- which messages are wanted ----

  /** Somewhere in `v`, itself element `index` at depth `level`, a name stands where the walk looks for it. */
  predicate Hits(v: Val, level: int, index: int, tbls: set<bytes>)
    decreases v, 0
  {
    match v
    case Sym(s) => level == 1 && index == 1 && s in tbls
    case List(_, vs) => AnyHits(vs, level + 1, 0, tbls)
    case Dict(_, k, x) => Hits(k, level + 1, 0, tbls) || Hits(x, level + 1, 1, tbls)
    case Table(c, r) => Hits(c, level + 2, 0, tbls) || Hits(r, level + 2, 1, tbls)
    case _ => false
  }

  predicate AnyHits(vs: seq<Val>, level: int, index: int, tbls: set<bytes>)
    decreases vs, 1
  {
    vs != [] && (Hits(vs[0], level, index, tbls) || AnyHits(vs[1..], level, index + 1, tbls))
  }

  /** A list whose element 1 is one of the names; also a dictionary whose value is. */
  predicate Wanted(v: Val, tbls: set<bytes>) {
    || (v.List? && |v.items| >= 2 && v.items[1].Sym? && v.items[1].text in tbls)
    || (v.Dict? && v.vals.Sym? && v.vals.text in tbls)
  }

  lemma {:induction false} TooDeep(v: Val, level: int, index: int, tbls: set<bytes>)
    requires level > 1 || (level == 1 && (index != 1 || !v.Sym?))
    ensures !Hits(v, level, index, tbls)
    decreases v, 0
  {
    match v
    case List(_, vs) => NoneHits(vs, level + 1, 0, tbls);
    case Dict(_, k, x) => TooDeep(k, level + 1, 0, tbls); TooDeep(x, level + 1, 1, tbls);
    case Table(c, r) => TooDeep(c, level + 2, 0, tbls); TooDeep(r, level + 2, 1, tbls);
    case _ =>
  }

  lemma {:induction false} NoneHits(vs: seq<Val>, level: int, index: int, tbls: set<bytes>)
    requires level > 1 || (level == 1 && index > 1)
    ensures !AnyHits(vs, level, index, tbls)
    decreases vs, 1
  {
    if vs != [] {
      TooDeep(vs[0], level, index, tbls);
      NoneHits(vs[1..], level, index + 1, tbls);
    }
  }

  /** What the walk looks for in a whole message. */
  lemma HitsIffWanted(v: Val, tbls: set<bytes>)
    ensures Hits(v, 0, 0, tbls) <==> Wanted(v, tbls)
  {
    match v
    case List(_, vs) =>
      if vs != [] {
        TooDeep(vs[0], 1, 0, tbls);
        assert AnyHits(vs, 1, 0, tbls) == AnyHits(vs[1..], 1, 1, tbls);
        if |vs| >= 2 {
          assert vs[1..][0] == vs[1] && vs[1..][1..] == vs[2..];
          assert AnyHits(vs[1..], 1, 1, tbls) == (Hits(vs[1], 1, 1, tbls) || AnyHits(vs[2..], 1, 2, tbls));
          NoneHits(vs[2..], 1, 2, tbls);
          if !vs[1].Sym? {
            TooDeep(vs[1], 1, 1, tbls);
          }
        }
      }
    case Dict(_, k, x) =>
      TooDeep(k, 1, 0, tbls);
      if !x.Sym? {
        TooDeep(x, 1, 1, tbls);
      }
    case Table(c, r) =>
      TooDeep(c, 2, 0, tbls);
      TooDeep(r, 2, 1, tbls);
    case _ =>
  }

  // ---- the two walks ----

  method MgReadVec(src: bytes) returns (r: Read)
    requires src != [] && ReifyTakesVec(I8(src[0]))
    ensures r == VecAt(src)
    ensures forall v: Val :: WF(v) && (v.Vec? || v.SymVec?) && Encode(v) <= src ==> r == Read(v, |Encode(v)|)
  {
    hide DecodeSyms, DecodeElems, AsInt32, WF, Encode;
    forall v: Val | WF(v) && (v.Vec? || v.SymVec?) && Encode(v) <= src
      ensures VecAt(src) == Read(v, |Encode(v)|)
    {
      VecEncoded(v, src);
    }
    WireSizes(I8(src[0]));
    if |src| < SZ_VEC_HDR || AsInt32(src[2..6]) < 0 {
      return Stops;
    }
    var typ, att, len, off := I8(src[0]), src[1], AsInt32(src[2..6]), SZ_VEC_HDR;
    if typ == SYMBOL_VECTOR {
      var ss := MgReadSyms(src, len);
      return if ss.FailsSyms? then Stops else Read(SymVec(att, ss.syms), ss.end);
    }
    var sz := len * ElemSz(typ);
    if sz > |src| - off {
      return Stops;
    }
    r := Read(Vec(typ, att, DecodeElems(ElemSz(typ), src[off..off + sz])), off + sz);
  }

  method MgReadSyms(src: bytes, len: nat) returns (r: DecodedSyms)
    requires |src| >= SZ_VEC_HDR
    ensures r == DecodeSyms(src, SZ_VEC_HDR, len)
  {
    hide StrNLen;
    var ss: seq<bytes>, off: nat := [], SZ_VEC_HDR;
    NoneBefore(DecodeSyms(src, off, len));
    for i := 0 to len
      invariant off <= |src|
      invariant DecodeSyms(src, SZ_VEC_HDR, len) == Before(ss, DecodeSyms(src, off, len - i))
    {
      var n := StrNLen(src[off..]);
      if n == |src| - off {
        return FailsSyms;
      }
      OneBefore(ss, src[off..off + n], DecodeSyms(src, off + n + 1, len - i - 1));
      ss := ss + [src[off..off + n]];
      off := off + n + 1;
    }
    r := DecodedSyms(ss, off);
    assert ss + [] == ss;
  }

  function Before(a: seq<bytes>, r: DecodedSyms): DecodedSyms {
    if r.FailsSyms? then r else DecodedSyms(a + r.syms, r.end)
  }

  lemma NoneBefore(r: DecodedSyms)
    ensures Before([], r) == r
  {
    assert r.DecodedSyms? ==> [] + r.syms == r.syms;
  }

  lemma OneBefore(a: seq<bytes>, s: bytes, r: DecodedSyms)
    ensures Before(a, Before([s], r)) == Before(a + [s], r)
  {
    assert r.DecodedSyms? ==> a + ([s] + r.syms) == a + [s] + r.syms;
  }

  /** The copy of it that only counts. */
  method MgReadVecOld(src: bytes) returns (ok: bool, off: nat)
    requires src != [] && ChkTakesVec(I8(src[0]))
    ensures ok <==> VecAt(src).Read?
    ensures ok ==> off == VecAt(src).used
  {
    hide StrNLen, DecodeElems, AsInt32;
    SameSizes(I8(src[0]));
    WireSizes(I8(src[0]));
    off := SZ_VEC_HDR;
    if |src| < SZ_VEC_HDR || AsInt32(src[2..6]) < 0 {
      return false, 0;
    }
    var typ, len := I8(src[0]), AsInt32(src[2..6]);
    if typ == SYMBOL_VECTOR {
      for i := 0 to len
        invariant off <= |src|
        invariant SameEnd(DecodeSyms(src, SZ_VEC_HDR, len), DecodeSyms(src, off, len - i))
      {
        var n := StrNLen(src[off..]);
        if n == |src| - off {
          return false, 0;
        }
        off := off + n + 1;
      }
      return true, off;
    }
    if len * OldElemSz(typ) > |src| - off {
      return false, 0;
    }
    return true, off + len * OldElemSz(typ);
  }

  predicate SameEnd(a: DecodedSyms, b: DecodedSyms) {
    a.FailsSyms? == b.FailsSyms? && (a.DecodedSyms? ==> a.end == b.end)
  }

  method MgReify(src: bytes) returns (r: Read)
    ensures r == Reify(src)
    ensures forall v: Val :: WF(v) && Encode(v) <= src ==> r == if Supported(v) then Read(v, |Encode(v)|) else Stops
    decreases |src|
  {
    hide WF, Supported, Encode;
    forall v: Val | WF(v) && Encode(v) <= src
      ensures Reify(src) == if Supported(v) then Read(v, |Encode(v)|) else Stops
    {
      ReifyEncoded(v, src);
    }
    if src == [] {
      return Stops;
    }
    var typ := I8(src[0]);
    if typ == SYMBOL_ATOM {
      var n := StrNLen(src[1..]);
      return if n == |src| - 1 then Stops else Read(Sym(src[1..1 + n]), n + 2);
    } else if ReifyAtomSz(typ) > 0 {
      var w := ReifyAtomSz(typ);
      return if |src| < 1 + w then Stops else Read(Atom(typ, FromLE(src[1..1 + w])), 1 + w);
    } else if typ == LIST {
      if |src| < SZ_VEC_HDR || AsInt32(src[2..6]) < 0 {
        return Stops;
      }
      var len := AsInt32(src[2..6]);
      var vs := MgReifyAll(src, SZ_VEC_HDR, len);
      return if vs.StopsAll? then Stops else Read(List(src[1], vs.objs), vs.end);
    } else if ReifyTakesVec(typ) {
      r := MgReadVec(src);
    } else if typ == TABLE {
      if |src| < 2 {
        return Stops;
      }
      var dct := MgReify(src[2..]);
      return if dct.Stops? || !dct.obj.Dict? then Stops else Read(Table(dct.obj.keys, dct.obj.vals), 2 + dct.used);
    } else if typ == DICT {
      var vs := MgReifyAll(src, 1, 2);
      return if vs.StopsAll? then Stops else Read(Dict(DICT, vs.objs[0], vs.objs[1]), vs.end);
    } else {
      return Stops;
    }
  }

  function AfterObjs(a: seq<Val>, r: ReadAll): ReadAll {
    if r.StopsAll? then r else ReadAll(a + r.objs, r.end)
  }

  lemma NoObjs(r: ReadAll)
    ensures AfterObjs([], r) == r
  {
    assert r.ReadAll? ==> [] + r.objs == r.objs;
  }

  lemma OneObj(a: seq<Val>, v: Val, r: ReadAll)
    ensures AfterObjs(a, AfterObjs([v], r)) == AfterObjs(a + [v], r)
  {
    assert r.ReadAll? ==> a + ([v] + r.objs) == a + [v] + r.objs;
  }

  /** The elements of a list, or the two halves of a dictionary. */
  method MgReifyAll(src: bytes, start: nat, k: nat) returns (r: ReadAll)
    requires 0 < start <= |src|
    ensures r == ReifyAll(src, start, k)
    decreases |src|, 0
  {
    hide Reify;
    var off, objs := start, [];
    NoObjs(ReifyAll(src, start, k));
    for i := 0 to k
      invariant start <= off <= |src|
      invariant ReifyAll(src, start, k) == AfterObjs(objs, ReifyAll(src, off, k - i))
    {
      var elem := MgReify(src[off..]);
      if elem.Stops? {
        return StopsAll;
      }
      OneObj(objs, elem.obj, ReifyAll(src, off + elem.used, k - i - 1));
      objs := objs + [elem.obj];
      off := off + elem.used;
    }
    r := ReadAll(objs, off);
    assert objs + [] == objs;
  }

  /** Counts the bytes of a message and sets `relevant` where a wanted name stands at element 1 of depth 1. */
  method MgChk(src: bytes, tbls: set<bytes>, above: int, index: int, relevant0: bool)
    returns (ok: bool, off: nat, relevant: bool)
    ensures Reify(src).Read? ==>
              ok && off == Reify(src).used && relevant == (relevant0 || Hits(Reify(src).obj, above + 1, index, tbls))
    ensures ok ==> 0 < off <= |src|
    decreases |src|
  {
    hide StrNLen, AsInt32, FromLE, ReifyAll;
    var level := above + 1;
    off, relevant := 0, relevant0;
    if src == [] {
      return false, 0, relevant0;
    }
    var typ := I8(src[0]);
    SameSizes(typ);
    if typ == SYMBOL_ATOM {
      var n := StrNLen(src[1..]);
      if n == |src| - 1 {
        return false, 0, relevant0;
      }
      if level == 1 && index == 1 && src[1..1 + n] in tbls {
        relevant := true;
      }
      return true, n + 2, relevant;
    } else if ChkAtomSz(typ) > 0 {
      return |src| >= 1 + ChkAtomSz(typ), 1 + ChkAtomSz(typ), relevant0;
    } else if typ == LIST {
      if |src| < SZ_VEC_HDR || AsInt32(src[2..6]) < 0 {
        return false, 0, relevant0;
      }
      ok, off, relevant := MgChkAll(src, SZ_VEC_HDR, AsInt32(src[2..6]), tbls, level, relevant0);
    } else if ChkTakesVec(typ) {
      VecHitsNothing(src, level, index, tbls);
      ok, off := MgReadVecOld(src);
    } else if typ == TABLE {
      if |src| < 2 {
        return false, 0, relevant0;
      }
      ok, off, relevant := MgChk(src[2..], tbls, level, 0, relevant0);
      off := off + 2;
    } else if typ == DICT {
      ok, off, relevant := MgChkAll(src, 1, 2, tbls, level, relevant0);
      TwoHits(ReifyAll(src, 1, 2), level + 1, tbls);
    } else {
      return false, 0, relevant0;
    }
  }

  lemma VecHitsNothing(src: bytes, level: int, index: int, tbls: set<bytes>)
    requires src != []
    ensures VecAt(src).Read? ==> !Hits(VecAt(src).obj, level, index, tbls)
  {
    hide DecodeSyms, DecodeElems, AsInt32;
  }

  lemma TwoHits(r: ReadAll, level: int, tbls: set<bytes>)
    ensures r.ReadAll? && |r.objs| == 2 ==>
              AnyHits(r.objs, level, 0, tbls) == (Hits(r.objs[0], level, 0, tbls) || Hits(r.objs[1], level, 1, tbls))
  {
    if r.ReadAll? && |r.objs| == 2 {
      var vs := r.objs;
      assert vs[1..][0] == vs[1] && vs[1..][1..] == [];
      assert AnyHits(vs[1..], level, 1, tbls) == Hits(vs[1], level, 1, tbls);
    }
  }

  method MgChkAll(src: bytes, start: nat, k: nat, tbls: set<bytes>, level: int, relevant0: bool)
    returns (ok: bool, off: nat, relevant: bool)
    requires 0 < start <= |src|
    ensures var r := ReifyAll(src, start, k);
            r.ReadAll? ==> ok && off == r.end && relevant == (relevant0 || AnyHits(r.objs, level + 1, 0, tbls))
    ensures ok ==> start <= off <= |src|
    decreases |src|, 0
  {
    hide Reify, Hits;
    off, relevant := start, relevant0;
    for i := 0 to k
      invariant start <= off <= |src|
      invariant var a, b := ReifyAll(src, start, k), ReifyAll(src, off, k - i);
                a.ReadAll? ==> b.ReadAll? && a.end == b.end
                               && (relevant0 || AnyHits(a.objs, level + 1, 0, tbls))
                               == (relevant || AnyHits(b.objs, level + 1, i, tbls))
    {
      var n, good;
      good, n, relevant := MgChk(src[off..], tbls, level, i, relevant);
      if !good {
        return false, 0, relevant;
      }
      off := off + n;
    }
    ok := true;
  }

  /** On every message that can be built, the two walks use the same number of bytes, and the first one finds it
      relevant exactly if it is wanted. */
  method MgChkMsg(src: bytes, tbls: set<bytes>) returns (ok: bool, len: nat, relevant: bool)
    ensures var m := Reify(src); m.Read? ==> ok && len == m.used && (relevant <==> Wanted(m.obj, tbls))
    ensures forall v: Val :: WF(v) && Supported(v) && Encode(v) <= src ==>
                               ok && len == |Encode(v)| && (relevant <==> Wanted(v, tbls))
    ensures ok ==> 0 < len <= |src|
  {
    hide Reify, Hits, Wanted, WF, Supported, Encode;
    forall v: Val | WF(v) && Supported(v) && Encode(v) <= src
      ensures Reify(src) == Read(v, |Encode(v)|)
    {
      ReifyEncoded(v, src);
    }
    ok, len, relevant := MgChk(src, tbls, -1, 0, false);
    if Reify(src).Read? {
      HitsIffWanted(Reify(src).obj, tbls);
    }
  }

  /** The bytes from `off` on are these messages, one after the other. */
  predicate Messages(src: bytes, off: nat, objs: seq<Val>)
    decreases |objs|
  {
    if objs == [] then off == |src|
    else
      off < |src| &&
      var m := Reify(src[off..]);
      m.Read? && m.obj == objs[0] && Messages(src, off + m.used, objs[1..])
  }

  function AllWanted(objs: seq<Val>, tbls: set<bytes>): seq<Val> {
    if objs == [] then [] else (if Wanted(objs[0], tbls) then [objs[0]] else []) + AllWanted(objs[1..], tbls)
  }

  lemma NextMessage(src: bytes, off: nat, objs: seq<Val>, evaluated: seq<Val>, tbls: set<bytes>)
    requires off <= |src| && Messages(src, off, objs) && objs != []
    ensures var m := Reify(src[off..]);
            && m.Read? && m.obj == objs[0] && Messages(src, off + m.used, objs[1..])
            && (off + m.used >= |src| <==> objs[1..] == [])
            && evaluated + AllWanted(objs, tbls)
               == (if Wanted(m.obj, tbls) then evaluated + [m.obj] else evaluated) + AllWanted(objs[1..], tbls)
  {
    hide Reify, Wanted;
    var rest := AllWanted(objs[1..], tbls);
    assert [] + rest == rest;
    assert evaluated + ([objs[0]] + rest) == evaluated + [objs[0]] + rest;
  }

  lemma NoneWanted(evaluated: seq<Val>, tbls: set<bytes>)
    ensures evaluated + AllWanted([], tbls) == evaluated
  {
  }

  /** A header and encodings: those are the messages. */
  lemma {:induction false} EncodedMessages(src: bytes, off: nat, msgs: seq<Val>)
    requires off <= |src| && AllWF(msgs) && AllSupported(msgs) && src[off..] == EncodeAll(msgs)
    ensures Messages(src, off, msgs)
    decreases |msgs|
  {
    hide Encode, Reify, WF, Supported;
    if msgs != [] {
      var e, rest := Encode(msgs[0]), EncodeAll(msgs[1..]);
      EncodeNonEmpty(msgs[0]);
      SplitPrefix(e, rest, src, off);
      ReifyEncoded(msgs[0], src[off..]);
      assert src[off + |e|..] == src[off..][|e|..] == rest;
      EncodedMessages(src, off + |e|, msgs[1..]);
    }
  }

  /** Evaluates the wanted messages of a journal; the end is tested for only after a message, so that one without any
      is not replayed. */
  method MgReplayMsgs(src: bytes, start: nat, tbls: set<bytes>, ghost objs: seq<Val>)
    returns (ok: bool, evaluated: seq<Val>)
    requires start <= |src|
    ensures Messages(src, start, objs) ==> (ok <==> objs != []) && evaluated == AllWanted(objs, tbls)
    ensures AllWF(objs) && AllSupported(objs) && src[start..] == EncodeAll(objs) ==>
              (ok <==> objs != []) && evaluated == AllWanted(objs, tbls)
    ensures start == |src| ==> !ok
  {
    hide Reify, Wanted, Messages, AllWanted, WF, EncodeAll, AllSupported;
    var off := start;
    evaluated := [];
    if AllWF(objs) && AllSupported(objs) && src[start..] == EncodeAll(objs) {
      EncodedMessages(src, start, objs);
    }
    ghost var good, left := Messages(src, start, objs), objs;
    assert [] + AllWanted(objs, tbls) == AllWanted(objs, tbls);
    if good && objs == [] {
      NoMessagesEnd(src, start, tbls);
    }
    while true
      invariant off <= |src| && (start == |src| ==> off == start)
      invariant good ==> (left == [] <==> objs == []) && Messages(src, off, left)
      invariant good ==> AllWanted(objs, tbls) == evaluated + AllWanted(left, tbls)
      invariant good && objs == [] ==> off == |src| && evaluated == []
      decreases |src| - off
    {
      if good && left != [] {
        NextMessage(src, off, left, evaluated, tbls);
      }
      var len, relevant;
      ok, len, relevant := MgChkMsg(src[off..], tbls);
      if !ok {
        return;
      }
      if relevant {
        var msg := MgReify(src[off..]);
        if msg.Stops? {
          return false, evaluated;
        }
        evaluated := evaluated + [msg.obj];
      }
      off := off + len;
      if good {
        left := left[1..];
      }
      if off >= |src| {
        NoneWanted(evaluated, tbls);
        return;
      }
    }
  }

  lemma NoMessagesEnd(src: bytes, off: nat, tbls: set<bytes>)
    requires Messages(src, off, [])
    ensures off == |src| && AllWanted([], tbls) == []
  {
  }

  const SMALL_DICT := Dict(DICT, Sym([107]), Sym([116]))

  lemma SmallDictBytes()
    ensures WF(SMALL_DICT) && Encode(SMALL_DICT) == [99, 245, 107, 0, 245, 116, 0]
  {
    assert Encode(Sym([107])) == [245, 107, 0] && Encode(Sym([116])) == [245, 116, 0];
  }

  lemma OneMessage(v: Val, hdr: bytes, tbls: set<bytes>)
    requires WF(v) && Supported(v) && Wanted(v, tbls)
    ensures Messages(hdr + Encode(v), |hdr|, [v]) && AllWanted([v], tbls) == [v]
  {
    hide Encode, WF, Supported, Wanted, Messages;
    var src := hdr + Encode(v);
    assert [v][1..] == [];
    assert src[|hdr|..] == Encode(v) == EncodeAll([v]);
    assert Supported([v][0]) && AllSupported([]);
    assert AllSupported([v]);
    EncodedMessages(src, |hdr|, [v]);
    assert AllWanted([v], tbls) == [v] + AllWanted([], tbls);
  }

  /** A dictionary of symbols whose value is one of the names: no call, and yet wanted, alone in a journal as well. */
  lemma DictGetsThrough(hdr: bytes, fn: bytes)
    ensures WF(SMALL_DICT) && Encode(SMALL_DICT) == [99, 245, 107, 0, 245, 116, 0]
    ensures Wanted(SMALL_DICT, {[116]}) && !Matches(SMALL_DICT, fn, {[116]})
    ensures Messages(hdr + Encode(SMALL_DICT), |hdr|, [SMALL_DICT]) && AllWanted([SMALL_DICT], {[116]}) == [SMALL_DICT]
  {
    hide Encode, Messages, AllWanted;
    SmallDictBytes();
    OneMessage(SMALL_DICT, hdr, {[116]});
  }

  /** Replaying it evaluates the dictionary. */
  method ReplayDict(hdr: bytes) returns (ok: bool, evaluated: seq<Val>)
    ensures ok && evaluated == [SMALL_DICT]
  {
    hide Messages, AllWanted, Encode, EncodeAll;
    DictGetsThrough(hdr, []);
    ok, evaluated := MgReplayMsgs(hdr + [99, 245, 107, 0, 245, 116, 0], |hdr|, {[116]}, [SMALL_DICT]);
  }
}
