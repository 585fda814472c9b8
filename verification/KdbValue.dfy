/** The values of a kdb+ IPC message and their wire format. */
module KdbValue {
  import opened Bytes

  const EXCEPTION := -128
  const TIME_ATOM := -19
  const SECOND_ATOM := -18
  const MINUTE_ATOM := -17
  const TIMESPAN_ATOM := -16
  const DATE_ATOM := -14
  const MONTH_ATOM := -13
  const TIMESTAMP_ATOM := -12
  const SYMBOL_ATOM := -11
  const CHAR_ATOM := -10
  const FLOAT_ATOM := -9
  const REAL_ATOM := -8
  const LONG_ATOM := -7
  const INT_ATOM := -6
  const SHORT_ATOM := -5
  const BYTE_ATOM := -4
  const GUID_ATOM := -2
  const BOOL_ATOM := -1
  const LIST := 0
  const CHAR_VECTOR := 10
  const SYMBOL_VECTOR := 11
  const TIME_VECTOR := 19
  const TABLE := 98
  const DICT := 99
  const FUNCTION := 100
  const UNARY_PRIMITIVE := 101
  const TERNARY_PRIMITIVE := 103
  const PROJECTION := 104
  const STEP_DICT := 127

  const SZ_BYTE: nat := 1
  const SZ_INT: nat := 4
  const SZ_VEC_HDR: nat := 6
  const SZ_MSG_HDR: nat := 8
  const SZ_TBL_HDR: nat := 3
  const SZ_FUN_HDR: nat := 8
  const SZ_PRJ_HDR: nat := 5

  /** The size of the value of a fixed-width atom, or 0 if `t` is not one of their types. */
  function AtomWidth(t: int): (w: nat)
    ensures w <= 16
  {
    if t == GUID_ATOM then 16
    else if t == TIMESPAN_ATOM || t == TIMESTAMP_ATOM || t == FLOAT_ATOM || t == LONG_ATOM then 8
    else if t == TIME_ATOM || t == SECOND_ATOM || t == MINUTE_ATOM || t == DATE_ATOM || t == MONTH_ATOM then 4
    else if t == REAL_ATOM || t == INT_ATOM then 4
    else if t == SHORT_ATOM then 2
    else if t == CHAR_ATOM || t == BYTE_ATOM || t == BOOL_ATOM then 1
    else 0
  }

  predicate IsPrimitive(t: int) {
    UNARY_PRIMITIVE <= t <= TERNARY_PRIMITIVE
  }

  /** Atoms and primitives: a type byte, then `FixedWidth` bytes. */
  function FixedWidth(t: int): (w: nat)
    ensures w <= 16
  {
    if IsPrimitive(t) then 1 else AtomWidth(t)
  }

  /** The element size of a typed vector, or 0; a vector type is the negation of its atom type. */
  function ElemWidth(t: int): (w: nat)
    ensures w <= 16
  {
    if t > 0 then AtomWidth(-t) else 0
  }

  /** A message payload.  Numbers, reals and floats included, are bit patterns; the code of a dictionary tells it from
      a step dictionary, which the library reads as a dictionary and never writes. */
  datatype Val =
    | Atom(typ: int, bits: nat)
    | Sym(text: bytes)
    | Exception(msg: bytes)
    | Vec(vtyp: int, attr: byte, elems: seq<nat>)
    | SymVec(sattr: byte, syms: seq<bytes>)
    | List(lattr: byte, items: seq<Val>)
    | Table(cols: Val, rows: Val)
    | Dict(code: int, keys: Val, vals: Val)
    | Func(body: bytes)
    | Proj(args: seq<Val>)

  predicate NoNul(s: bytes) {
    forall i :: 0 <= i < |s| ==> s[i] != 0
  }

  predicate NoNuls(ss: seq<bytes>) {
    ss == [] || (NoNul(ss[0]) && NoNuls(ss[1..]))
  }

  /** What the classes of the source can hold: known types, values of their width, counts in range. */
  predicate WF(v: Val) {
    match v
    case Atom(t, n) => FixedWidth(t) > 0 && n < Patterns(FixedWidth(t))
    case Sym(s) => NoNul(s)
    case Exception(s) => NoNul(s)
    case Vec(t, a, es) =>
      && ElemWidth(t) > 0 && |es| < TWO_31
      && forall i :: 0 <= i < |es| ==> es[i] < Patterns(ElemWidth(t))
    case SymVec(a, ss) => |ss| < TWO_31 && NoNuls(ss)
    case List(a, vs) => |vs| < TWO_31 && forall i :: 0 <= i < |vs| ==> WF(vs[i])
    case Table(c, r) => c.SymVec? && r.List? && WF(c) && WF(r)
    case Dict(c, k, x) => (c == DICT || c == STEP_DICT) && WF(k) && WF(x)
    case Func(s) => |s| < TWO_31
    case Proj(vs) => |vs| < TWO_31 && forall i :: 0 <= i < |vs| ==> WF(vs[i])
  }

  /** What the classes of the source hold: there is none for step dictionaries. */
  predicate Plain(v: Val)
    decreases v, 0
  {
    match v
    case List(_, vs) => AllPlain(vs)
    case Table(c, r) => Plain(c) && Plain(r)
    case Dict(c, k, x) => c == DICT && Plain(k) && Plain(x)
    case Proj(vs) => AllPlain(vs)
    case _ => true
  }

  predicate AllPlain(vs: seq<Val>)
    decreases vs, 1
  {
    forall i :: 0 <= i < |vs| ==> Plain(vs[i])
  }

  predicate AllWF(vs: seq<Val>) {
    forall i :: 0 <= i < |vs| ==> WF(vs[i])
  }

  /** Header of a list or vector: type, attribute, element count. */
  function Header(t: int, attr: byte, count: nat): (h: bytes)
    requires -128 <= t < 128
    ensures |h| == SZ_VEC_HDR
  {
    [U8(t), attr] + ToLE(4, count)
  }

  function EncodeElems(w: nat, es: seq<nat>): bytes {
    if es == [] then [] else ToLE(w, es[0]) + EncodeElems(w, es[1..])
  }

  /** Symbols lie nose to tail, each ended by a NUL. */
  function EncodeSyms(ss: seq<bytes>): bytes {
    if ss == [] then [] else ss[0] + [0] + EncodeSyms(ss[1..])
  }

  /** The bytes of a value, without the message header. */
  function Encode(v: Val): bytes
    requires WF(v)
    decreases v, 0
  {
    match v
    case Atom(t, n) => [U8(t)] + ToLE(FixedWidth(t), n)
    case Sym(s) => [U8(SYMBOL_ATOM)] + s + [0]
    case Exception(s) => [U8(EXCEPTION)] + s + [0]
    case Vec(t, a, es) => Header(t, a, |es|) + EncodeElems(ElemWidth(t), es)
    case SymVec(a, ss) => Header(SYMBOL_VECTOR, a, |ss|) + EncodeSyms(ss)
    case List(a, vs) => Header(LIST, a, |vs|) + EncodeAll(vs)
    case Table(c, r) => [U8(TABLE), 0, U8(DICT)] + Encode(c) + Encode(r)
    case Dict(c, k, x) => [U8(c)] + Encode(k) + Encode(x)
    case Func(s) => [U8(FUNCTION), 0] + Header(CHAR_VECTOR, 0, |s|) + s
    case Proj(vs) => [U8(PROJECTION)] + ToLE(4, |vs|) + EncodeAll(vs)
  }

  function EncodeAll(vs: seq<Val>): bytes
    requires AllWF(vs)
    decreases vs, 1
  {
    if vs == [] then [] else Encode(vs[0]) + EncodeAll(vs[1..])
  }

  /** The size the objects report for themselves before anything is written. */
  function WireSz(v: Val): (n: nat)
    decreases v, 0
  {
    match v
    case Atom(t, _) => SZ_BYTE + FixedWidth(t)
    case Sym(s) => SZ_BYTE + |s| + SZ_BYTE
    case Exception(s) => SZ_BYTE + |s| + SZ_BYTE
    case Vec(t, _, es) => SZ_VEC_HDR + |es| * ElemWidth(t)
    case SymVec(_, ss) => SZ_VEC_HDR + SymBytes(ss)
    case List(_, vs) => SZ_VEC_HDR + WireSzAll(vs)
    case Table(c, r) => SZ_BYTE + SZ_BYTE + SZ_BYTE + WireSz(c) + WireSz(r)
    case Dict(_, k, x) => SZ_BYTE + WireSz(k) + WireSz(x)
    case Func(s) => SZ_BYTE + SZ_BYTE + SZ_VEC_HDR + |s|
    case Proj(vs) => SZ_BYTE + SZ_INT + WireSzAll(vs)
  }

  function WireSzAll(vs: seq<Val>): nat
    decreases vs, 1
  {
    if vs == [] then 0 else WireSz(vs[0]) + WireSzAll(vs[1..])
  }

  /** Size of the character data of a symbol vector. */
  function SymBytes(ss: seq<bytes>): nat {
    if ss == [] then 0 else |ss[0]| + 1 + SymBytes(ss[1..])
  }

  lemma {:induction false} EncodeElemsLength(w: nat, es: seq<nat>)
    ensures |EncodeElems(w, es)| == |es| * w
  {
    if es != [] {
      EncodeElemsLength(w, es[1..]);
      assert |es| * w == w + (|es| - 1) * w;
    }
  }

  lemma {:induction false} EncodeElemsSlice(w: nat, es: seq<nat>, i: nat, j: nat)
    requires i <= j <= |es|
    ensures 0 <= i * w <= j * w <= |EncodeElems(w, es)|
    ensures EncodeElems(w, es[i..j]) == EncodeElems(w, es)[i * w..j * w]
  {
    var a, b, d := es[..i], es[i..j], es[j..];
    assert es == a + b + d;
    EncodeElemsConcat(w, a + b, d);
    EncodeElemsConcat(w, a, b);
    EncodeElemsLength(w, a);
    EncodeElemsLength(w, a + b);
    EncodeElemsLength(w, b);
    assert EncodeElems(w, es)[i * w..j * w] == EncodeElems(w, b);
  }

  lemma {:induction false} EncodeElemsConcat(w: nat, a: seq<nat>, b: seq<nat>)
    ensures EncodeElems(w, a + b) == EncodeElems(w, a) + EncodeElems(w, b)
  {
    if a == [] {
      assert a + b == b;
    } else {
      assert (a + b)[1..] == a[1..] + b;
      EncodeElemsConcat(w, a[1..], b);
    }
  }

  lemma {:induction false} EncodeSymsLength(ss: seq<bytes>)
    ensures |EncodeSyms(ss)| == SymBytes(ss)
  {
    if ss != [] {
      EncodeSymsLength(ss[1..]);
    }
  }

  /** The announced size is the number of bytes written. */
  lemma {:induction false} WireSzIsLength(v: Val)
    requires WF(v)
    ensures WireSz(v) == |Encode(v)|
    decreases v, 0
  {
    match v
    case Atom(_, _) =>
    case Sym(_) =>
    case Exception(_) =>
    case Vec(t, _, es) => EncodeElemsLength(ElemWidth(t), es);
    case SymVec(_, ss) => EncodeSymsLength(ss);
    case List(_, vs) => WireSzAllIsLength(vs);
    case Table(c, r) => WireSzIsLength(c); WireSzIsLength(r);
    case Dict(_, k, x) => WireSzIsLength(k); WireSzIsLength(x);
    case Func(_) =>
    case Proj(vs) => WireSzAllIsLength(vs);
  }

  lemma {:induction false} WireSzAllIsLength(vs: seq<Val>)
    requires AllWF(vs)
    ensures WireSzAll(vs) == |EncodeAll(vs)|
    decreases vs, 1
  {
    if vs != [] {
      WireSzIsLength(vs[0]);
      WireSzAllIsLength(vs[1..]);
    }
  }

  lemma {:induction false} EncodeAllConcat(a: seq<Val>, b: seq<Val>)
    requires AllWF(a) && AllWF(b)
    ensures EncodeAll(a + b) == EncodeAll(a) + EncodeAll(b)
  {
    if a == [] {
      assert a + b == b;
    } else {
      assert (a + b)[1..] == a[1..] + b;
      EncodeAllConcat(a[1..], b);
    }
  }

  /** Every value takes at least its type byte, which gives its type away. */
  lemma EncodeNonEmpty(v: Val)
    requires WF(v)
    ensures |Encode(v)| > 0 && I8(Encode(v)[0]) == TypeOf(v)
  {
  }

  function TypeOf(v: Val): (t: int) {
    match v
    case Atom(t, _) => t
    case Sym(_) => SYMBOL_ATOM
    case Exception(_) => EXCEPTION
    case Vec(t, _, _) => t
    case SymVec(_, _) => SYMBOL_VECTOR
    case List(_, _) => LIST
    case Table(_, _) => TABLE
    case Dict(c, _, _) => c
    case Func(_) => FUNCTION
    case Proj(_) => PROJECTION
  }

  /** Each kind of value has its own type codes. */
  lemma Kinds(v: Val)
    requires WF(v)
    ensures var t := TypeOf(v);
            && (v.Atom? <==> FixedWidth(t) > 0)
            && (v.Sym? <==> t == SYMBOL_ATOM) && (v.Exception? <==> t == EXCEPTION)
            && (v.Vec? <==> ElemWidth(t) > 0)
            && (v.SymVec? <==> t == SYMBOL_VECTOR) && (v.List? <==> t == LIST)
            && (v.Table? <==> t == TABLE) && (v.Dict? <==> t == DICT || t == STEP_DICT)
            && (v.Func? <==> t == FUNCTION) && (v.Proj? <==> t == PROJECTION)
  {
  }
}
