/** The objects a reader holds while a message is still arriving. */
module Partial {
  import opened Bytes
  import opened KdbValue
  import opened Cursors
  import opened Units

  /** Where one symbol of a symbol vector lies in its character data; `len` counts the NUL. */
  datatype Loc = Loc(off: nat, len: nat)

  /** An object under construction.  `cap` is the element count its header announced. */
  datatype Part =
    | PAtom(atyp: int, bits: nat)
    | PSym(styp: int, text: bytes)
    | PVec(vtyp: int, attr: byte, cap: nat, elems: seq<nat>)
    | PSymVec(sattr: byte, scap: nat, locs: seq<Loc>, data: bytes)
    | PList(lattr: byte, lcap: nat, items: seq<Part>)
    | PTable(cols: Option<Part>, rows: Option<Part>)
    | PDict(keys: Option<Part>, vals: Option<Part>)
    | PFunc(fcap: nat, body: bytes)
    | PProj(pcap: nat, args: seq<Part>)

  function TypeOfPart(p: Part): int {
    match p
    case PAtom(t, _) => t
    case PSym(t, _) => t
    case PVec(t, _, _, _) => t
    case PSymVec(_, _, _, _) => SYMBOL_VECTOR
    case PList(_, _, _) => LIST
    case PTable(_, _) => TABLE
    case PDict(_, _) => DICT
    case PFunc(_, _) => FUNCTION
    case PProj(_, _) => PROJECTION
  }

  /** The symbols that lie wholly within the first `n` bytes of their character data. */
  function SymsDone(ss: seq<bytes>, n: nat): seq<bytes> {
    if ss == [] || n < |ss[0]| + 1 then [] else [ss[0]] + SymsDone(ss[1..], n - |ss[0]| - 1)
  }

  /** Contiguous tiles, one a symbol, from `off` on. */
  function LocsOf(ss: seq<bytes>, off: nat): seq<Loc> {
    if ss == [] then [] else [Loc(off, |ss[0]| + 1)] + LocsOf(ss[1..], off + |ss[0]| + 1)
  }

  /** Size of what follows the head. */
  function BodySz(v: Val): nat {
    Sum(RBody(v))
  }

  /** The object that stands for `v` once its head and the next `n` bytes have been read. */
  function After(v: Val, n: nat): Part
    decreases v, 0
  {
    match v
    case Atom(t, b) => PAtom(t, if n < FixedWidth(t) then 0 else b)
    case Sym(s) => PSym(SYMBOL_ATOM, if n < |s| + 1 then [] else s)
    case Exception(s) => PSym(EXCEPTION, if n < |s| + 1 then [] else s)
    case Vec(t, a, es) =>
      PVec(t, a, |es|, es[..Min(|es|, if ElemWidth(t) == 0 then 0 else Count(n, ElemWidth(t)))])
    case SymVec(a, ss) => PSymVec(a, |ss|, LocsOf(SymsDone(ss, n), 0), EncodeSyms(SymsDone(ss, n)))
    case List(a, vs) => PList(a, |vs|, AfterAll(vs, n))
    case Table(c, r) => PTable(Begun(c, n), Begun(r, n - HeadSz(c) - BodySz(c)))
    case Dict(_, k, x) => PDict(Begun(k, n), Begun(x, n - HeadSz(k) - BodySz(k)))
    case Func(s) => PFunc(|s|, s[..Min(|s|, n)])
    case Proj(vs) => PProj(|vs|, AfterAll(vs, n))
  }

  function Count(n: nat, w: nat): nat
    requires w > 0
  {
    RoomPositive(n, w);
    n / w
  }

  /** The child for `v` when `n` bytes from its start on have been read: it is created with its head. */
  function Begun(v: Val, n: int): Option<Part>
    decreases v, 1
  {
    if n < HeadSz(v) then None else Some(After(v, Min(n - HeadSz(v), BodySz(v))))
  }

  function AfterAll(vs: seq<Val>, n: int): seq<Part>
    decreases vs, 1
  {
    if vs == [] || n < HeadSz(vs[0]) then []
    else [After(vs[0], Min(n - HeadSz(vs[0]), BodySz(vs[0])))]
         + AfterAll(vs[1..], n - HeadSz(vs[0]) - BodySz(vs[0]))
  }

  /** The finished object for `v`. */
  function Whole(v: Val): Part {
    After(v, BodySz(v))
  }

  function WholeAll(vs: seq<Val>): seq<Part> {
    if vs == [] then [] else [Whole(vs[0])] + WholeAll(vs[1..])
  }

  lemma {:induction false} WholeAllConcat(a: seq<Val>, b: seq<Val>)
    ensures WholeAll(a + b) == WholeAll(a) + WholeAll(b)
    ensures |WholeAll(a)| == |a|
  {
    if a == [] {
      assert a + b == b;
    } else {
      assert (a + b)[1..] == a[1..] + b;
      WholeAllConcat(a[1..], b);
    }
  }

  /** With everything read, all children are there and finished. */
  lemma {:induction false} AfterAllWhole(vs: seq<Val>, n: nat)
    requires AllWF(vs) && n >= |EncodeAll(vs)|
    ensures AfterAll(vs, n) == WholeAll(vs)
  {
    if vs != [] {
      RUnitsSum(vs[0]);
      AfterAllWhole(vs[1..], n - HeadSz(vs[0]) - BodySz(vs[0]));
    }
  }

  /** The value a finished object stands for. */
  function Value(p: Part): Option<Val>
    decreases p, 0
  {
    match p
    case PAtom(t, b) => Some(Atom(t, b))
    case PSym(t, s) => Some(if t == EXCEPTION then Exception(s) else Sym(s))
    case PVec(t, a, c, es) => if |es| == c then Some(Vec(t, a, es)) else None
    case PSymVec(a, c, ls, d) =>
      if |ls| == c then (var ss := Symbols(ls, d); if ss.None? then None else Some(SymVec(a, ss.value))) else None
    case PList(a, c, ps) =>
      if |ps| == c then (var vs := Values(ps); if vs.None? then None else Some(List(a, vs.value))) else None
    case PTable(Some(c), Some(r)) =>
      (var x, y := Value(c), Value(r); if x.None? || y.None? then None else Some(Table(x.value, y.value)))
    case PDict(Some(k), Some(x)) =>
      (var y, z := Value(k), Value(x); if y.None? || z.None? then None else Some(Dict(DICT, y.value, z.value)))
    case PFunc(c, s) => if |s| == c then Some(Func(s)) else None
    case PProj(c, ps) =>
      if |ps| == c then (var vs := Values(ps); if vs.None? then None else Some(Proj(vs.value))) else None
    case _ => None
  }

  function Values(ps: seq<Part>): Option<seq<Val>>
    decreases ps, 1
  {
    if ps == [] then Some([])
    else
      var v, vs := Value(ps[0]), Values(ps[1..]);
      if v.None? || vs.None? then None else Some([v.value] + vs.value)
  }

  /** Element `i` of a symbol vector, as its accessor cuts it out of the character data. */
  function Symbol(l: Loc, data: bytes): Option<bytes> {
    if 0 < l.len && l.off + l.len <= |data| then Some(data[l.off..l.off + l.len - 1]) else None
  }

  function Symbols(ls: seq<Loc>, data: bytes): Option<seq<bytes>> {
    if ls == [] then Some([])
    else
      var s, ss := Symbol(ls[0], data), Symbols(ls[1..], data);
      if s.None? || ss.None? then None else Some([s.value] + ss.value)
  }

  /** The tiles give back exactly the symbols. */
  lemma {:induction false} SymbolsOfLocs(ss: seq<bytes>, before: bytes)
    ensures Symbols(LocsOf(ss, |before|), before + EncodeSyms(ss)) == Some(ss)
  {
    if ss != [] {
      var next := before + (ss[0] + [0]);
      assert before + EncodeSyms(ss) == next + EncodeSyms(ss[1..]);
      SymbolsOfLocs(ss[1..], next);
      assert (before + EncodeSyms(ss))[|before|..|before| + |ss[0]|] == ss[0];
      assert [ss[0]] + ss[1..] == ss;
    }
  }

  lemma {:induction false} SymsDoneAll(ss: seq<bytes>, n: nat)
    requires n >= SymBytes(ss)
    ensures SymsDone(ss, n) == ss
  {
    if ss != [] {
      SymsDoneAll(ss[1..], n - |ss[0]| - 1);
      assert [ss[0]] + ss[1..] == ss;
    }
  }

  /** The size of a body, case by case. */
  lemma BodySize(v: Val)
    requires WF(v)
    ensures |Encode(v)| == HeadSz(v) + BodySz(v)
    ensures BodySz(v) == match v
              case Atom(t, _) => FixedWidth(t)
              case Sym(s) => |s| + 1
              case Exception(s) => |s| + 1
              case Vec(t, _, es) => |es| * ElemWidth(t)
              case SymVec(_, ss) => SymBytes(ss)
              case List(_, vs) => |EncodeAll(vs)|
              case Table(c, r) => HeadSz(c) + BodySz(c) + HeadSz(r) + BodySz(r)
              case Dict(_, k, x) => HeadSz(k) + BodySz(k) + HeadSz(x) + BodySz(x)
              case Func(s) => |s|
              case Proj(vs) => |EncodeAll(vs)|
  {
    hide Sum, Reps, Encode, EncodeAll, SymBytes, FixedWidth, ElemWidth, SymUnits, RUnitsAll, NoNul, Positive;
    RUnitsSum(v);
    match v
    case Atom(t, _) => SumOne(FixedWidth(t));
    case Sym(s) => SumOne(|s| + 1);
    case Exception(s) => SumOne(|s| + 1);
    case Vec(t, _, es) => SumReps(|es|, ElemWidth(t));
    case SymVec(_, ss) => SymUnitsSum(ss);
    case List(_, vs) => RUnitsAllSum(vs);
    case Table(c, r) => PairSum(c, r);
    case Dict(_, k, x) => PairSum(k, x);
    case Func(s) => SumReps(|s|, 1);
    case Proj(vs) => RUnitsAllSum(vs);
  }

  lemma PairSum(a: Val, b: Val)
    ensures Sum(([HeadSz(a)] + RBody(a)) + ([HeadSz(b)] + RBody(b))) == HeadSz(a) + BodySz(a) + HeadSz(b) + BodySz(b)
  {
    SumConcat(RUnits(a), RUnits(b));
    SumHead(HeadSz(a), RBody(a));
    SumHead(HeadSz(b), RBody(b));
  }

  /** What a finished object looks like, case by case. */
  lemma WholeShape(v: Val)
    requires WF(v)
    ensures Whole(v) == match v
              case Atom(t, b) => PAtom(t, b)
              case Sym(s) => PSym(SYMBOL_ATOM, s)
              case Exception(s) => PSym(EXCEPTION, s)
              case Vec(t, a, es) => PVec(t, a, |es|, es)
              case SymVec(a, ss) => PSymVec(a, |ss|, LocsOf(ss, 0), EncodeSyms(ss))
              case List(a, vs) => PList(a, |vs|, WholeAll(vs))
              case Table(c, r) => PTable(Some(Whole(c)), Some(Whole(r)))
              case Dict(_, k, x) => PDict(Some(Whole(k)), Some(Whole(x)))
              case Func(s) => PFunc(|s|, s)
              case Proj(vs) => PProj(|vs|, WholeAll(vs))
  {
    hide Begun, BodySz, EncodeAll, WholeAll, AfterAll, SymBytes, LocsOf, EncodeSyms, SymsDone, NoNul, Patterns;
    hide AtomWidth;
    BodySize(v);
    match v
    case Atom(_, _) =>
    case Sym(_) =>
    case Exception(_) =>
    case Vec(t, _, es) =>
      DivUnique(|es| * ElemWidth(t), ElemWidth(t), |es|, 0);
      assert es[..|es|] == es;
    case SymVec(_, ss) => SymsDoneAll(ss, BodySz(v));
    case List(_, vs) => AfterAllWhole(vs, BodySz(v));
    case Table(c, r) => PairWhole(c, r);
    case Dict(_, k, x) => PairWhole(k, x);
    case Func(s) => assert s[..|s|] == s;
    case Proj(vs) => AfterAllWhole(vs, BodySz(v));
  }

  /** What a value is once read: step dictionaries have become dictionaries, wherever they are. */
  function AsRead(v: Val): Val
    decreases v, 0
  {
    match v
    case List(a, vs) => List(a, AllAsRead(vs))
    case Table(c, r) => Table(AsRead(c), AsRead(r))
    case Dict(_, k, x) => Dict(DICT, AsRead(k), AsRead(x))
    case Proj(vs) => Proj(AllAsRead(vs))
    case _ => v
  }

  function AllAsRead(vs: seq<Val>): (r: seq<Val>)
    decreases vs, 1
  {
    if vs == [] then [] else [AsRead(vs[0])] + AllAsRead(vs[1..])
  }

  /** Those that can be written are read as what they are, and only those. */
  lemma {:induction false} AsReadIff(v: Val)
    ensures AsRead(v) == v <==> Plain(v)
    decreases v, 0
  {
    match v
    case List(_, vs) => AllAsReadIff(vs);
    case Table(c, r) => AsReadIff(c); AsReadIff(r);
    case Dict(_, k, x) => AsReadIff(k); AsReadIff(x);
    case Proj(vs) => AllAsReadIff(vs);
    case _ =>
  }

  lemma {:induction false} AllAsReadIff(vs: seq<Val>)
    ensures |AllAsRead(vs)| == |vs| && (AllAsRead(vs) == vs <==> AllPlain(vs))
    decreases vs, 1
  {
    if vs != [] {
      var first, rest := AsRead(vs[0]), AllAsRead(vs[1..]);
      AsReadIff(vs[0]);
      AllAsReadIff(vs[1..]);
      assert vs == [vs[0]] + vs[1..];
      assert AllAsRead(vs)[0] == first && AllAsRead(vs)[1..] == rest;
      assert AllPlain(vs) <==> Plain(vs[0]) && AllPlain(vs[1..]) by {
        if Plain(vs[0]) && AllPlain(vs[1..]) {
          forall i | 0 <= i < |vs|
            ensures Plain(vs[i])
          {
            assert i > 0 ==> vs[i] == vs[1..][i - 1];
          }
        }
      }
    }
  }

  /** A finished object stands for the value it was read from. */
  lemma {:induction false} ValueOfWhole(v: Val)
    requires WF(v)
    ensures Value(Whole(v)) == Some(AsRead(v))
    decreases v, 0
  {
    hide Whole, WholeAll, LocsOf, EncodeSyms, NoNul, Patterns, AtomWidth;
    WholeShape(v);
    match v
    case Atom(_, _) =>
    case Sym(_) =>
    case Exception(_) =>
    case Vec(_, _, _) =>
    case SymVec(_, ss) =>
      SymbolsOfLocs(ss, []);
      assert [] + EncodeSyms(ss) == EncodeSyms(ss);
      LocsCount(ss, 0);
    case List(_, vs) =>
      ValuesOfWhole(vs);
    case Table(c, r) =>
      ValueOfWhole(c);
      ValueOfWhole(r);
    case Dict(_, k, x) =>
      ValueOfWhole(k);
      ValueOfWhole(x);
    case Func(s) =>
    case Proj(vs) =>
      ValuesOfWhole(vs);
  }

  lemma PairWhole(a: Val, b: Val)
    ensures var n := HeadSz(a) + BodySz(a) + HeadSz(b) + BodySz(b);
            && Begun(a, n) == Some(Whole(a))
            && Begun(b, n - HeadSz(a) - BodySz(a)) == Some(Whole(b))
  {
    hide After, BodySz;
  }

  lemma {:induction false} LocsCount(ss: seq<bytes>, off: nat)
    ensures |LocsOf(ss, off)| == |ss|
  {
    if ss != [] {
      LocsCount(ss[1..], off + |ss[0]| + 1);
    }
  }

  lemma {:induction false} ValuesOfWhole(vs: seq<Val>)
    requires AllWF(vs)
    ensures Values(WholeAll(vs)) == Some(AllAsRead(vs)) && |WholeAll(vs)| == |vs|
    decreases vs, 1
  {
    if vs != [] {
      ValueOfWhole(vs[0]);
      ValuesOfWhole(vs[1..]);
      assert [vs[0]] + vs[1..] == vs;
    }
  }

  /** What holds of every object a reader can make, whatever arrives: known element types, and
      no more elements than announced. */
  predicate Sane(p: Part)
    decreases p, 0
  {
    match p
    case PAtom(t, _) => FixedWidth(t) > 0
    case PSym(_, _) => true
    case PVec(t, _, c, es) => ElemWidth(t) > 0 && |es| <= c
    case PSymVec(_, c, ls, _) => |ls| <= c
    case PList(_, c, ps) => |ps| <= c && SaneAll(ps)
    case PTable(c, r) => SaneSlot(c) && SaneSlot(r)
    case PDict(k, x) => SaneSlot(k) && SaneSlot(x)
    case PFunc(c, s) => |s| <= c
    case PProj(c, ps) => |ps| <= c && SaneAll(ps)
  }

  predicate SaneSlot(s: Option<Part>) {
    s.Some? ==> Sane(s.value)
  }

  predicate SaneAll(ps: seq<Part>)
    decreases ps, 1
  {
    forall i :: 0 <= i < |ps| ==> Sane(ps[i])
  }

  /** The numbers in whole elements of `w` bytes. */
  function DecodeElems(w: nat, s: bytes): seq<nat>
    requires w > 0
  {
    if |s| < w then [] else [FromLE(s[..w])] + DecodeElems(w, s[w..])
  }

  lemma {:induction false} DecodeEncodeElems(w: nat, es: seq<nat>)
    requires w > 0 && forall i :: 0 <= i < |es| ==> es[i] < Patterns(w)
    ensures DecodeElems(w, EncodeElems(w, es)) == es
  {
    if es != [] {
      FromToLE(w, es[0]);
      assert EncodeElems(w, es)[..w] == ToLE(w, es[0]);
      assert EncodeElems(w, es)[w..] == EncodeElems(w, es[1..]);
      DecodeEncodeElems(w, es[1..]);
      assert [es[0]] + es[1..] == es;
    }
  }

  lemma {:induction false} DecodeElemsCount(w: nat, k: nat, s: bytes)
    requires w > 0 && |s| == k * w
    ensures |DecodeElems(w, s)| == k
  {
    if k > 0 {
      assert |s[w..]| == (k - 1) * w;
      assert k * w >= w;
      DecodeElemsCount(w, k - 1, s[w..]);
    }
  }

  lemma LocsAppend(a: seq<bytes>, b: seq<bytes>, off: nat)
    ensures LocsOf(a + b, off) == LocsOf(a, off) + LocsOf(b, off + SymBytes(a))
    ensures EncodeSyms(a + b) == EncodeSyms(a) + EncodeSyms(b)
    ensures SymBytes(a + b) == SymBytes(a) + SymBytes(b)
  {
    hide LocsOf, EncodeSyms, SymBytes;
    LocsConcat(a, b, off);
    SymsConcat(a, b);
    EncodeSymsLength(a);
    EncodeSymsLength(b);
    EncodeSymsLength(a + b);
  }

  lemma {:induction false} LocsConcat(a: seq<bytes>, b: seq<bytes>, off: nat)
    ensures LocsOf(a + b, off) == LocsOf(a, off) + LocsOf(b, off + SymBytes(a))
  {
    if a == [] {
      assert a + b == b;
    } else {
      assert (a + b)[1..] == a[1..] + b;
      LocsConcat(a[1..], b, off + |a[0]| + 1);
    }
  }

  lemma {:induction false} SymsConcat(a: seq<bytes>, b: seq<bytes>)
    ensures EncodeSyms(a + b) == EncodeSyms(a) + EncodeSyms(b)
  {
    if a == [] {
      assert a + b == b;
    } else {
      assert (a + b)[1..] == a[1..] + b;
      SymsConcat(a[1..], b);
      Assoc(a[0] + [0], EncodeSyms(a[1..]), EncodeSyms(b));
    }
  }

  /** At a boundary the symbols done are exactly those before it, and the rest goes on from there. */
  lemma SymsResume(ss: seq<bytes>, n: nat, m: nat)
    requires Boundary(SymUnits(ss), n)
    ensures SymsDone(ss, n) <= ss && SymBytes(SymsDone(ss, n)) == n
    ensures Drop(SymUnits(ss), n) == SymUnits(ss[|SymsDone(ss, n)|..])
    ensures SymsDone(ss, n + m) == SymsDone(ss, n) + SymsDone(ss[|SymsDone(ss, n)|..], m)
  {
    hide SymsDone, SymBytes, SymUnits, Drop, Boundary;
    SymsBefore(ss, n);
    SymsMore(ss, n, m);
  }

  lemma {:induction false} SymsBefore(ss: seq<bytes>, n: nat)
    requires Boundary(SymUnits(ss), n)
    ensures SymsDone(ss, n) <= ss && SymBytes(SymsDone(ss, n)) == n
    ensures Drop(SymUnits(ss), n) == SymUnits(ss[|SymsDone(ss, n)|..])
  {
    if n == 0 {
      assert SymsDone(ss, 0) == [];
      assert ss[0..] == ss;
    } else {
      assert SymUnits(ss)[1..] == SymUnits(ss[1..]);
      SymsBefore(ss[1..], n - |ss[0]| - 1);
      assert ss[1..][|SymsDone(ss[1..], n - |ss[0]| - 1)|..] == ss[|SymsDone(ss, n)|..];
    }
  }

  lemma {:induction false} SymsMore(ss: seq<bytes>, n: nat, m: nat)
    requires Boundary(SymUnits(ss), n)
    ensures |SymsDone(ss, n)| <= |ss|
    ensures SymsDone(ss, n + m) == SymsDone(ss, n) + SymsDone(ss[|SymsDone(ss, n)|..], m)
  {
    hide SymsDone;
    if n == 0 {
      SymsNone(ss);
      assert ss[0..] == ss;
    } else {
      assert SymUnits(ss)[1..] == SymUnits(ss[1..]);
      var left := n - |ss[0]| - 1;
      SymsMore(ss[1..], left, m);
      SymsStep(ss, n);
      SymsStep(ss, n + m);
      assert ss[1..][|SymsDone(ss[1..], left)|..] == ss[|SymsDone(ss, n)|..];
    }
  }

  lemma SymsNone(ss: seq<bytes>)
    ensures SymsDone(ss, 0) == []
  {
  }

  lemma SymsStep(ss: seq<bytes>, n: nat)
    requires ss != [] && n >= |ss[0]| + 1
    ensures SymsDone(ss, n) == [ss[0]] + SymsDone(ss[1..], n - |ss[0]| - 1)
  {
  }

  /** The greedy choice among symbols takes those that lie wholly within the room. */
  lemma {:induction false} SymsGreedy(ss: seq<bytes>, room: nat)
    ensures Greedy(SymUnits(ss), room) == SymBytes(SymsDone(ss, room))
    ensures SymsDone(ss, room) <= ss
    ensures |SymsDone(ss, room)| == |ss| <==> SymBytes(SymsDone(ss, room)) == SymBytes(ss)
  {
    if ss != [] {
      assert SymUnits(ss)[1..] == SymUnits(ss[1..]);
      if |ss[0]| + 1 <= room {
        SymsGreedy(ss[1..], room - |ss[0]| - 1);
      }
    }
  }

  lemma {:induction false} SymsDoneTwice(ss: seq<bytes>, room: nat)
    ensures SymsDone(ss, SymBytes(SymsDone(ss, room))) == SymsDone(ss, room)
  {
    if ss != [] && |ss[0]| + 1 <= room {
      SymsDoneTwice(ss[1..], room - |ss[0]| - 1);
      assert SymsDone(ss, room)[1..] == SymsDone(ss[1..], room - |ss[0]| - 1);
    }
  }
}
