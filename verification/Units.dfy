/** The indivisible units of an encoded value, as its writer and as its reader see them. */
module Units {
  import opened Bytes
  import opened KdbValue
  import opened Cursors

  /** What a reader needs before it can create the object for `v`. */
  function HeadSz(v: Val): (n: nat)
    ensures n > 0
  {
    match v
    case Atom(_, _) => SZ_BYTE
    case Sym(_) => SZ_BYTE
    case Exception(_) => SZ_BYTE
    case Vec(_, _, _) => SZ_VEC_HDR
    case SymVec(_, _) => SZ_VEC_HDR
    case List(_, _) => SZ_VEC_HDR
    case Table(_, _) => SZ_TBL_HDR
    case Dict(_, _, _) => SZ_BYTE
    case Func(_) => SZ_FUN_HDR
    case Proj(_) => SZ_PRJ_HDR
  }

  /** Units of a written value: atoms go out whole, symbol vectors and functions byte by byte. */
  function WUnits(v: Val): seq<nat>
    decreases v, 0
  {
    match v
    case Atom(t, _) => [SZ_BYTE + FixedWidth(t)]
    case Sym(s) => [SZ_BYTE + |s| + SZ_BYTE]
    case Exception(s) => [SZ_BYTE + |s| + SZ_BYTE]
    case Vec(t, _, es) => [HeadSz(v)] + Reps(|es|, ElemWidth(t))
    case SymVec(_, ss) => [HeadSz(v)] + Reps(SymBytes(ss), 1)
    case List(_, vs) => [HeadSz(v)] + WUnitsAll(vs)
    case Table(c, r) => [HeadSz(v)] + (WUnits(c) + WUnits(r))
    case Dict(_, k, x) => [HeadSz(v)] + (WUnits(k) + WUnits(x))
    case Func(s) => [HeadSz(v)] + Reps(|s|, 1)
    case Proj(vs) => [HeadSz(v)] + WUnitsAll(vs)
  }

  function WUnitsAll(vs: seq<Val>): seq<nat>
    decreases vs, 1
  {
    if vs == [] then [] else WUnits(vs[0]) + WUnitsAll(vs[1..])
  }

  /** Units of a value being read, after its head: an atom's value comes after its type byte,
      and a symbol is only taken once its NUL is there. */
  function RBody(v: Val): seq<nat>
    decreases v, 0
  {
    match v
    case Atom(t, _) => [FixedWidth(t)]
    case Sym(s) => [|s| + 1]
    case Exception(s) => [|s| + 1]
    case Vec(t, _, es) => Reps(|es|, ElemWidth(t))
    case SymVec(_, ss) => SymUnits(ss)
    case List(_, vs) => RUnitsAll(vs)
    case Table(c, r) => ([HeadSz(c)] + RBody(c)) + ([HeadSz(r)] + RBody(r))
    case Dict(_, k, x) => ([HeadSz(k)] + RBody(k)) + ([HeadSz(x)] + RBody(x))
    case Func(s) => Reps(|s|, 1)
    case Proj(vs) => RUnitsAll(vs)
  }

  function RUnits(v: Val): seq<nat> {
    [HeadSz(v)] + RBody(v)
  }

  function RUnitsAll(vs: seq<Val>): seq<nat>
    decreases vs, 1
  {
    if vs == [] then [] else ([HeadSz(vs[0])] + RBody(vs[0])) + RUnitsAll(vs[1..])
  }

  function SymUnits(ss: seq<bytes>): seq<nat> {
    if ss == [] then [] else [|ss[0]| + 1] + SymUnits(ss[1..])
  }

  lemma {:induction false} SymUnitsSum(ss: seq<bytes>)
    ensures Sum(SymUnits(ss)) == SymBytes(ss) && Positive(SymUnits(ss))
  {
    if ss != [] {
      SymUnitsSum(ss[1..]);
      SumConcat([|ss[0]| + 1], SymUnits(ss[1..]));
    }
  }

  /** The writer's units cut the encoding into non-empty pieces. */
  lemma {:induction false} WUnitsSum(v: Val)
    requires WF(v)
    ensures Positive(WUnits(v)) && Sum(WUnits(v)) == |Encode(v)|
    decreases v, 0
  {
    hide Sum, Positive, Reps, EncodeElems, EncodeSyms, EncodeAll, WUnitsAll, SymBytes, ToLE, NoNul, AtomWidth;
    match v
    case Atom(t, n) => SumOne(SZ_BYTE + FixedWidth(t));
    case Sym(s) => SumOne(SZ_BYTE + |s| + SZ_BYTE);
    case Exception(s) => SumOne(SZ_BYTE + |s| + SZ_BYTE);
    case Vec(t, _, es) =>
      SumHead(HeadSz(v), Reps(|es|, ElemWidth(t)));
      SumReps(|es|, ElemWidth(t));
      EncodeElemsLength(ElemWidth(t), es);
    case SymVec(_, ss) =>
      SumHead(HeadSz(v), Reps(SymBytes(ss), 1));
      SumReps(SymBytes(ss), 1);
      EncodeSymsLength(ss);
    case List(_, vs) =>
      SumHead(HeadSz(v), WUnitsAll(vs));
      WUnitsAllSum(vs);
    case Table(c, r) =>
      SumHead(HeadSz(v), WUnits(c) + WUnits(r));
      SumConcat(WUnits(c), WUnits(r));
      WUnitsSum(c);
      WUnitsSum(r);
    case Dict(_, k, x) =>
      SumHead(HeadSz(v), WUnits(k) + WUnits(x));
      SumConcat(WUnits(k), WUnits(x));
      WUnitsSum(k);
      WUnitsSum(x);
    case Func(s) =>
      SumHead(HeadSz(v), Reps(|s|, 1));
      SumReps(|s|, 1);
    case Proj(vs) =>
      SumHead(HeadSz(v), WUnitsAll(vs));
      WUnitsAllSum(vs);
  }

  lemma {:induction false} WUnitsAllSum(vs: seq<Val>)
    requires AllWF(vs)
    ensures Positive(WUnitsAll(vs)) && Sum(WUnitsAll(vs)) == |EncodeAll(vs)|
    decreases vs, 1
  {
    if vs != [] {
      WUnitsSum(vs[0]);
      WUnitsAllSum(vs[1..]);
      SumConcat(WUnits(vs[0]), WUnitsAll(vs[1..]));
    }
  }

  /** The reader's units cut the encoding into non-empty pieces. */
  lemma {:induction false} RUnitsSum(v: Val)
    requires WF(v)
    ensures Positive(RBody(v)) && Positive(RUnits(v))
    ensures Sum(RUnits(v)) == HeadSz(v) + Sum(RBody(v)) == |Encode(v)|
    decreases v, 0
  {
    hide Sum, Positive, Reps, EncodeElems, EncodeSyms, EncodeAll, RUnitsAll, SymBytes, ToLE, NoNul, AtomWidth, SymUnits;
    match v {
    case Atom(t, n) => SumOne(FixedWidth(t));
    case Sym(s) => SumOne(|s| + SZ_BYTE);
    case Exception(s) => SumOne(|s| + SZ_BYTE);
    case Vec(t, _, es) =>
      SumReps(|es|, ElemWidth(t));
      EncodeElemsLength(ElemWidth(t), es);
    case SymVec(_, ss) =>
      SymUnitsSum(ss);
      EncodeSymsLength(ss);
    case List(_, vs) => RUnitsAllSum(vs);
    case Table(c, r) =>
      SumConcat(RUnits(c), RUnits(r));
      RUnitsSum(c);
      RUnitsSum(r);
    case Dict(_, k, x) =>
      SumConcat(RUnits(k), RUnits(x));
      RUnitsSum(k);
      RUnitsSum(x);
    case Func(s) => SumReps(|s|, 1);
    case Proj(vs) => RUnitsAllSum(vs);
    }
    SumHead(HeadSz(v), RBody(v));
  }

  lemma {:induction false} RUnitsAllSum(vs: seq<Val>)
    requires AllWF(vs)
    ensures Positive(RUnitsAll(vs)) && Sum(RUnitsAll(vs)) == |EncodeAll(vs)|
    decreases vs, 1
  {
    if vs != [] {
      RUnitsSum(vs[0]);
      RUnitsAllSum(vs[1..]);
      SumConcat(RUnits(vs[0]), RUnitsAll(vs[1..]));
    }
  }

  lemma {:induction false} WUnitsAllConcat(a: seq<Val>, b: seq<Val>)
    ensures WUnitsAll(a + b) == WUnitsAll(a) + WUnitsAll(b)
  {
    if a == [] {
      assert a + b == b;
    } else {
      assert (a + b)[1..] == a[1..] + b;
      WUnitsAllConcat(a[1..], b);
    }
  }

  lemma {:induction false} RUnitsAllConcat(a: seq<Val>, b: seq<Val>)
    ensures RUnitsAll(a + b) == RUnitsAll(a) + RUnitsAll(b)
  {
    if a == [] {
      assert a + b == b;
    } else {
      assert (a + b)[1..] == a[1..] + b;
      RUnitsAllConcat(a[1..], b);
    }
  }
}
