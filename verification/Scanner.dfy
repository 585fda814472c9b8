/** The length of a payload, found by walking its bytes without building objects. */
module Scanner {
  import opened Bytes
  import opened KdbValue
  import opened Reader

  /** A length, or -1 (more bytes needed) or -2 (unknown element); Overrun stands for a walk that leaves
      the bytes it was given, because their number, an unsigned one, was made to wrap around. */
  datatype Scan = Code(n: int) | Overrun

  /** A 64-bit result as the 32-bit variable it is stored in. */
  function ToInt32(n: int): int {
    (n + TWO_31) % TWO_32 - TWO_31
  }

  /** The walk's own sizes: an atom by its type, primitives included although none comes this far. */
  function AtomSpan(t: int): (n: int)
    ensures n == -2 || 2 <= n <= 17
  {
    match t
    case -2 => 17
    case -1 => 2
    case -4 => 2
    case -10 => 2
    case 101 => 2
    case 102 => 2
    case 103 => 2
    case -5 => 3
    case -6 => 5
    case -8 => 5
    case -14 => 5
    case -13 => 5
    case -17 => 5
    case -18 => 5
    case -19 => 5
    case -7 => 9
    case -9 => 9
    case -12 => 9
    case -16 => 9
    case _ => -2
  }

  /** An element of a vector, or 0. */
  function VecWidth(t: int): (w: nat)
    ensures w <= 16
  {
    match t
    case 1 => 1
    case 4 => 1
    case 10 => 1
    case 5 => 2
    case 6 => 4
    case 8 => 4
    case 14 => 4
    case 13 => 4
    case 17 => 4
    case 18 => 4
    case 19 => 4
    case 7 => 8
    case 9 => 8
    case 12 => 8
    case 16 => 8
    case 2 => 16
    case _ => 0
  }

  /** They are the sizes of the classes' values. */
  lemma ScanSizes(t: int)
    ensures AtomSpan(t) == if FixedWidth(t) > 0 then SZ_BYTE + FixedWidth(t) else -2
    ensures VecWidth(t) == ElemWidth(t)
  {
  }

  predicate IsDict(t: int) {
    t == DICT || t == STEP_DICT
  }

  function PayloadLen(src: bytes): (r: Scan)
    decreases |src|
  {
    if src == [] then Code(-1)
    else
      var t := I8(src[0]);
      if t == LIST then
        if |src| < SZ_VEC_HDR then Code(-1) else ListLen(src, SZ_VEC_HDR, AsInt32(src[2..6]))
      else if -19 <= t < 0 then
        if t == SYMBOL_ATOM then SymAtomLen(src) else Code(AtomSpan(t))
      else if 0 < t <= TIME_VECTOR then
        if |src| < SZ_VEC_HDR then Code(-1)
        else if t == SYMBOL_VECTOR then Code(SymVecLen(src, SZ_VEC_HDR, AsInt32(src[2..6])))
        else if VecWidth(t) > 0 then VecLen(|src|, AsInt32(src[2..6]), VecWidth(t)) else Code(-2)
      else VaryLen(src)
  }

  function SymAtomLen(src: bytes): Scan
    requires src != []
  {
    if |src| < SZ_BYTE + SZ_BYTE || StrNLen(src[1..]) == |src| - 1 then Code(-1)
    else Code(SZ_BYTE + StrNLen(src[1..]) + SZ_BYTE)
  }

  function VecLen(rem: nat, len: int, width: nat): Scan {
    if len < 0 || SZ_VEC_HDR + len * width > rem then Code(-1) else Code(SZ_VEC_HDR + len * width)
  }

  /** `k` more symbols, from `off` on. */
  function SymVecLen(src: bytes, off: nat, k: int): int
    requires off <= |src|
    decreases k
  {
    if k <= 0 then off
    else
      var n := StrNLen(src[off..]);
      if n == |src| - off then -1 else SymVecLen(src, off + n + 1, k - 1)
  }

  /** `k` more elements, from `len` on. */
  function ListLen(src: bytes, len: nat, k: int): Scan
    requires len > 0
    decreases |src|, k
  {
    if k <= 0 then Code(len)
    else if len > |src| then Overrun
    else
      var e := PayloadLen(src[len..]);
      if e.Overrun? || e.n < 0 then e else ListLen(src, len + e.n, k - 1)
  }

  /** Tables and dictionaries.  A table adds 2 to what the dictionary within gives, error codes included. */
  function VaryLen(src: bytes): Scan
    decreases |src|, 0
  {
    if src == [] then Code(-1)
    else
      var t := I8(src[0]);
      if t == TABLE then
        if |src| < 2 then Overrun
        else
          var d := VaryLen(src[2..]);
          if d.Overrun? then d else Code(2 + d.n)
      else if t == DICT || t == STEP_DICT then
        var k := PayloadLen(src[1..]);
        if k.Overrun? then k
        else if ToInt32(k.n) < 0 then Code(ToInt32(k.n))
        else if 1 + ToInt32(k.n) > |src| then Overrun
        else
          var x := PayloadLen(src[1 + ToInt32(k.n)..]);
          if x.Overrun? then x
          else if ToInt32(x.n) < 0 then Code(ToInt32(x.n))
          else Code(SZ_BYTE + ToInt32(k.n) + ToInt32(x.n))
      else Code(-2)
  }

  /** What is reported of a first byte and a count alone, whatever follows: unknown types, headers that are not all
      there, negative counts, which a list and a symbol vector take for none. */
  lemma HeadReports(src: bytes, count: int)
    requires |src| >= 6 ==> count == AsInt32(src[2..6])
    ensures src == [] ==> PayloadLen(src) == Code(-1)
    ensures src != [] && src[0] < 20 && |src| < 6 ==> PayloadLen(src) == Code(-1)
    ensures |src| >= 6 && (src[0] == 0 || src[0] == 11) && count <= 0 ==> PayloadLen(src) == Code(6)
    ensures |src| >= 6 && (src[0] == 3 || src[0] == 15) ==> PayloadLen(src) == Code(-2)
    ensures |src| >= 6 && 0 < src[0] < 20 && src[0] !in {3, 11, 15} && count < 0 ==> PayloadLen(src) == Code(-1)
    ensures src != [] && (20 <= src[0] < 98 || 99 < src[0] < 127 || 127 < src[0] < 237) ==> PayloadLen(src) == Code(-2)
    ensures src != [] && (src[0] == 241 || src[0] == 253) ==> PayloadLen(src) == Code(-2)
    ensures src == [98] ==> PayloadLen(src) == Overrun
  {
    hide AsInt32;
  }

  /** The walk as the program takes it; each method returns what the function above says, the length of a value the
      walk knows. */
  method IpcPayloadLen(src: bytes) returns (r: Scan)
    ensures r == PayloadLen(src)
    ensures forall v: Val :: WF(v) && Encode(v) <= src && |Encode(v)| < TWO_31 ==>
                               (r == Code(|Encode(v)|) <==> Scannable(v))
    decreases |src|
  {
    hide WF, Encode, Scannable;
    forall v: Val | WF(v) && Encode(v) <= src && |Encode(v)| < TWO_31
      ensures PayloadLen(src) == Code(|Encode(v)|) <==> Scannable(v)
    {
      LengthIffScannable(v, src);
    }
    if src == [] {
      return Code(-1);
    }
    var t := I8(src[0]);
    if t == LIST {
      r := MsgLenList(src);
    } else if -19 <= t < 0 {
      if t == SYMBOL_ATOM {
        return SymAtomLen(src);
      }
      r := Code(AtomSpan(t));
    } else if 0 < t <= TIME_VECTOR {
      if |src| < SZ_VEC_HDR {
        return Code(-1);
      }
      var len := AsInt32(src[2..6]);
      if t == SYMBOL_VECTOR {
        var n := MsgLenSymVec(src, len);
        return Code(n);
      }
      r := if VecWidth(t) > 0 then VecLen(|src|, len, VecWidth(t)) else Code(-2);
    } else {
      r := MsgLenVary(src);
    }
  }

  method MsgLenSymVec(src: bytes, len: int) returns (off: int)
    requires |src| >= SZ_VEC_HDR
    ensures off == SymVecLen(src, SZ_VEC_HDR, len)
  {
    off := SZ_VEC_HDR;
    var i := 0;
    while i < len
      invariant 0 <= off <= |src|
      invariant SymVecLen(src, off, len - i) == SymVecLen(src, SZ_VEC_HDR, len)
    {
      var max, sln := |src| - off, StrNLen(src[off..]);
      if max == sln {
        return -1;
      }
      off := off + sln + SZ_BYTE;
      i := i + 1;
    }
  }

  method MsgLenList(src: bytes) returns (r: Scan)
    requires src != [] && I8(src[0]) == LIST
    ensures r == PayloadLen(src)
    decreases |src|, 0
  {
    if |src| < SZ_VEC_HDR {
      return Code(-1);
    }
    var cnt := AsInt32(src[2..6]);
    var len, i := SZ_VEC_HDR, 0;
    while i < cnt
      invariant len > 0
      invariant ListLen(src, len, cnt - i) == PayloadLen(src)
    {
      if len > |src| {
        return Overrun;
      }
      var eln := IpcPayloadLen(src[len..]);
      if eln.Overrun? || eln.n < 0 {
        return eln;
      }
      len := len + eln.n;
      i := i + 1;
    }
    r := Code(len);
  }

  method MsgLenVary(src: bytes) returns (r: Scan)
    ensures r == VaryLen(src)
    ensures forall v: Val :: WF(v) && (v.Dict? || v.Table?) && Encode(v) <= src && |Encode(v)| < TWO_31 ==>
                               (r == Code(|Encode(v)|) <==> Scannable(v))
    decreases |src|, 0
  {
    hide WF, Encode, Scannable;
    forall v: Val | WF(v) && (v.Dict? || v.Table?) && Encode(v) <= src && |Encode(v)| < TWO_31
      ensures VaryLen(src) == Code(|Encode(v)|) <==> Scannable(v)
    {
      LengthIffScannable(v, src);
      EncodeNonEmpty(v);
      Kinds(v);
      assert src[0] == Encode(v)[0];
      DictIsVary(src);
    }
    if src == [] {
      return Code(-1);
    }
    var t := I8(src[0]);
    if t == TABLE {
      if |src| < 2 {
        return Overrun;
      }
      var d := MsgLenVary(src[2..]);
      return if d.Overrun? then d else Code(2 + d.n);
    }
    if t == DICT || t == STEP_DICT {
      var k := IpcPayloadLen(src[1..]);
      if k.Overrun? {
        return k;
      }
      var len := ToInt32(k.n);
      if len < 0 {
        return Code(len);
      }
      if 1 + len > |src| {
        return Overrun;
      }
      var x := IpcPayloadLen(src[1 + len..]);
      if x.Overrun? {
        return x;
      }
      var tmp := ToInt32(x.n);
      return Code(if tmp < 0 then tmp else SZ_BYTE + len + tmp);
    }
    r := Code(-2);
  }

  /** How a walk over a value ends: at its end, at an element of unknown type, or over and over at the table,
      so many bytes into the value, that hides such an element. */
  datatype Fate = Fine | Unknown | Stuck(at: nat) {
    function Past(n: nat): Fate {
      if Stuck? then Stuck(n + at) else this
    }
  }

  function FateOf(v: Val): Fate
    requires WF(v)
    decreases v, 0
  {
    match v
    case Atom(t, _) => if IsPrimitive(t) then Unknown else Fine
    case Sym(_) => Fine
    case Vec(_, _, _) => Fine
    case SymVec(_, _) => Fine
    case List(_, vs) => FateOfAll(vs).Past(SZ_VEC_HDR)
    case Dict(_, k, x) =>
      if FateOf(k).Fine? then FateOf(x).Past(SZ_BYTE + |Encode(k)|) else FateOf(k).Past(SZ_BYTE)
    case Table(c, r) =>
      if FateOf(r).Unknown? then Stuck(0) else FateOf(r).Past(SZ_TBL_HDR + |Encode(c)|)
    case Exception(_) => Unknown
    case Func(_) => Unknown
    case Proj(_) => Unknown
  }

  function FateOfAll(vs: seq<Val>): Fate
    requires AllWF(vs)
    decreases vs, 1
  {
    if vs == [] then Fine
    else if FateOf(vs[0]).Fine? then FateOfAll(vs[1..]).Past(|Encode(vs[0])|)
    else FateOf(vs[0])
  }

  /** Everything in the value is of a type the walk knows. */
  predicate Scannable(v: Val)
    decreases v, 0
  {
    match v
    case Atom(t, _) => !IsPrimitive(t)
    case Sym(_) => true
    case Vec(_, _, _) => true
    case SymVec(_, _) => true
    case List(_, vs) => AllScannable(vs)
    case Dict(_, k, x) => Scannable(k) && Scannable(x)
    case Table(c, r) => Scannable(c) && Scannable(r)
    case Exception(_) => false
    case Func(_) => false
    case Proj(_) => false
  }

  predicate AllScannable(vs: seq<Val>)
    decreases vs, 1
  {
    forall i :: 0 <= i < |vs| ==> Scannable(vs[i])
  }

  lemma {:induction false} FineIffScannable(v: Val)
    requires WF(v)
    ensures FateOf(v).Fine? <==> Scannable(v)
    ensures FateOf(v).Stuck? ==> FateOf(v).at < |Encode(v)|
    decreases v, 0
  {
    hide Encode, EncodeAll;
    match v
    case List(_, vs) => FineIffAllScannable(vs); ListSize(v);
    case Dict(_, k, x) => FineIffScannable(k); FineIffScannable(x); PairSize(v);
    case Table(c, r) => FineIffScannable(r); PairSize(v);
    case _ =>
  }

  lemma ListSize(v: Val)
    requires WF(v) && v.List?
    ensures AllWF(v.items) && |Encode(v)| == SZ_VEC_HDR + |EncodeAll(v.items)|
  {
  }

  lemma PairSize(v: Val)
    requires WF(v)
    ensures v.Dict? ==> WF(v.keys) && WF(v.vals) && |Encode(v)| == SZ_BYTE + |Encode(v.keys)| + |Encode(v.vals)|
    ensures v.Table? ==> WF(v.cols) && WF(v.rows) && |Encode(v)| == SZ_TBL_HDR + |Encode(v.cols)| + |Encode(v.rows)|
  {
  }

  lemma {:induction false} FineIffAllScannable(vs: seq<Val>)
    requires AllWF(vs)
    ensures FateOfAll(vs).Fine? <==> AllScannable(vs)
    ensures FateOfAll(vs).Stuck? ==> FateOfAll(vs).at < |EncodeAll(vs)|
    decreases vs, 1
  {
    hide Encode;
    if vs != [] {
      FineIffScannable(vs[0]);
      FineIffAllScannable(vs[1..]);
      assert vs == [vs[0]] + vs[1..];
    }
  }

  /** What the walk reports for a value with the given fate. */
  function Report(f: Fate, len: nat): Scan {
    match f
    case Fine => Code(len)
    case Unknown => Code(-2)
    case Stuck(at) => Code(at)
  }

  /** The walk gets no further from `at` on. */
  predicate StuckAt(s: bytes, at: nat) {
    at <= |s| && PayloadLen(s[at..]) == Code(0)
  }

  /** For every value, followed by anything: the walk over its encoding ends as its fate says. */
  lemma {:induction false} ScanReports(v: Val, s: bytes)
    requires WF(v) && Encode(v) <= s && |Encode(v)| < TWO_31
    ensures Reports(s, FateOf(v), |Encode(v)|)
    decreases v, 0
  {
    hide Encode, PayloadLen, EncodeAll, StuckAt, FateOf, WF;
    match v {
    case Atom(_, _) => ScanLeaf(v, s);
    case Sym(_) => ScanSym(v, s);
    case Exception(_) => ScanLeaf(v, s);
    case Vec(_, _, _) => ScanVec(v, s);
    case SymVec(_, _) => ScanSymVec(v, s);
    case List(a, vs) =>
      ListParts(v, s);
      FineIffAllScannable(vs);
      ScanReportsAll(vs, s, SZ_VEC_HDR);
    case Dict(_, k, x) =>
      PairParts(v, s);
      ScanReports(k, s[1..]);
      ScanReports(x, s[1 + |Encode(k)|..]);
      DictWalk(s, FateOf(k), |Encode(k)|, FateOf(x), |Encode(x)|);
    case Table(c, r) =>
      PairParts(v, s);
      ScanReports(c, s[3..]);
      ScanReports(r, s[3 + |Encode(c)|..]);
      TableWalk(s, |Encode(c)|, FateOf(r), |Encode(r)|);
    case Func(_) => ScanLeaf(v, s);
    case Proj(_) => ScanLeaf(v, s);
    }
  }

  /** The same for elements that follow one another, up to the last. */
  lemma {:induction false} ScanReportsAll(vs: seq<Val>, s: bytes, off: nat)
    requires AllWF(vs) && 0 < off <= |s| && EncodeAll(vs) <= s[off..] && |EncodeAll(vs)| < TWO_31
    ensures match FateOfAll(vs)
            case Fine => ListLen(s, off, |vs|) == Code(off + |EncodeAll(vs)|)
            case Unknown => ListLen(s, off, |vs|) == Code(-2)
            case Stuck(at) => ListLen(s, off, |vs|) == Code(off + at) && StuckAt(s, off + at)
    decreases vs, 1
  {
    hide Encode, PayloadLen, StuckAt, FateOf, WF;
    if vs != [] {
      var e := Encode(vs[0]);
      assert e <= s[off..];
      ScanReports(vs[0], s[off..]);
      match FateOf(vs[0]) {
      case Fine =>
        assert s[off..][|e|..] == s[off + |e|..];
        ScanReportsAll(vs[1..], s, off + |e|);
      case Unknown =>
      case Stuck(at) =>
        StuckLater(s, off, at);
        StaysStuck(s, off + at, |vs| - 1);
      }
    }
  }

  lemma StuckLater(s: bytes, off: nat, at: nat)
    requires off <= |s| && StuckAt(s[off..], at)
    ensures StuckAt(s, off + at)
  {
    hide PayloadLen;
    assert s[off..][at..] == s[off + at..];
  }

  lemma {:induction false} StaysStuck(s: bytes, at: nat, k: nat)
    requires StuckAt(s, at) && at > 0
    ensures ListLen(s, at, k) == Code(at)
    decreases k
  {
    hide PayloadLen;
    if k > 0 {
      StaysStuck(s, at, k - 1);
    }
  }

  lemma ScanLeaf(v: Val, s: bytes)
    requires WF(v) && Encode(v) <= s && (v.Atom? || v.Exception? || v.Func? || v.Proj?)
    ensures PayloadLen(s) == Report(FateOf(v), |Encode(v)|) && !FateOf(v).Stuck?
  {
    hide ToLE, EncodeAll, Patterns;
    assert s[0] == Encode(v)[0];
    ScanSizes(I8(s[0]));
  }

  lemma ScanSym(v: Val, s: bytes)
    requires WF(v) && v.Sym? && Encode(v) <= s
    ensures PayloadLen(s) == Code(|Encode(v)|) && FateOf(v).Fine?
  {
    var e := Encode(v);
    assert s[0] == e[0];
    assert v.text + [0] == e[1..] <= s[1..];
    StrNLenAgrees(s[1..], v.text);
  }

  lemma ScanVec(v: Val, s: bytes)
    requires WF(v) && v.Vec? && Encode(v) <= s
    ensures PayloadLen(s) == Code(|Encode(v)|) && FateOf(v).Fine?
  {
    hide ToLE, AsInt32;
    var e := Encode(v);
    assert s[0] == e[0];
    ScanSizes(v.vtyp);
    assert s[2..6] == e[2..6] == ToLE(4, |v.elems|);
    Int32RoundTrip(|v.elems|);
    EncodeElemsLength(ElemWidth(v.vtyp), v.elems);
  }

  lemma ScanSymVec(v: Val, s: bytes)
    requires WF(v) && v.SymVec? && Encode(v) <= s
    ensures PayloadLen(s) == Code(|Encode(v)|) && FateOf(v).Fine?
  {
    hide ToLE, AsInt32;
    var e := Encode(v);
    assert s[0] == e[0];
    assert s[2..6] == e[2..6] == ToLE(4, |v.syms|);
    Int32RoundTrip(|v.syms|);
    assert EncodeSyms(v.syms) == e[6..] <= s[6..];
    ScanSyms(v.syms, s, 6);
  }

  lemma {:induction false} ScanSyms(ss: seq<bytes>, s: bytes, off: nat)
    requires NoNuls(ss) && off <= |s| && EncodeSyms(ss) <= s[off..]
    ensures SymVecLen(s, off, |ss|) == off + |EncodeSyms(ss)|
  {
    hide StrNLen, NoNul;
    if ss != [] {
      FirstSym(ss[0], EncodeSyms(ss[1..]), s, off);
      ScanSyms(ss[1..], s, off + |ss[0]| + 1);
    }
  }

  /** The symbol at `off` is found whole, and what follows it comes next. */
  lemma FirstSym(text: bytes, rest: bytes, s: bytes, off: nat)
    requires NoNul(text) && off <= |s| && text + [0] + rest <= s[off..]
    ensures StrNLen(s[off..]) == |text| < |s| - off
    ensures s[off..off + |text|] == text && rest <= s[off + |text| + 1..]
  {
    hide StrNLen, NoNul;
    SplitPrefix(text + [0], rest, s, off);
    StrNLenAgrees(s[off..], text);
    assert s[off..off + |text|] == s[off..][..|text|];
  }

  lemma SplitPrefix(a: bytes, b: bytes, s: bytes, off: nat)
    requires off <= |s| && a + b <= s[off..]
    ensures off + |a| <= |s| && a <= s[off..] && b <= s[off + |a|..]
  {
    var t := s[off..];
    assert a == (a + b)[..|a|];
    assert b == (a + b)[|a|..];
    assert s[off + |a|..] == t[|a|..];
  }

  lemma ListParts(v: Val, s: bytes)
    requires WF(v) && v.List? && Encode(v) <= s
    ensures |s| >= SZ_VEC_HDR && EncodeAll(v.items) <= s[SZ_VEC_HDR..] && AllWF(v.items)
    ensures |Encode(v)| == SZ_VEC_HDR + |EncodeAll(v.items)|
    ensures PayloadLen(s) == ListLen(s, SZ_VEC_HDR, |v.items|)
    ensures FateOf(v) == FateOfAll(v.items).Past(SZ_VEC_HDR)
  {
    hide ToLE, AsInt32, EncodeAll;
    var e := Encode(v);
    assert s[0] == e[0];
    assert s[2..6] == e[2..6] == ToLE(4, |v.items|);
    Int32RoundTrip(|v.items|);
    assert EncodeAll(v.items) == e[6..] <= s[6..];
  }

  lemma PairParts(v: Val, s: bytes)
    requires WF(v) && Encode(v) <= s
    ensures v.Dict? ==>
              && |Encode(v)| == 1 + |Encode(v.keys)| + |Encode(v.vals)|
              && FateOf(v) == PairFate(FateOf(v.keys), |Encode(v.keys)|, FateOf(v.vals))
              && |s| >= 1 && I8(s[0]) == v.code && IsDict(v.code)
              && Encode(v.keys) <= s[1..] && WF(v.keys) && WF(v.vals)
              && |s| >= 1 + |Encode(v.keys)| && Encode(v.vals) <= s[1 + |Encode(v.keys)|..]
    ensures v.Table? ==>
              && |Encode(v)| == 3 + |Encode(v.cols)| + |Encode(v.rows)| && FateOf(v.cols) == Fine
              && FateOf(v) == (if FateOf(v.rows).Unknown? then Stuck(0) else FateOf(v.rows).Past(3 + |Encode(v.cols)|))
              && |s| >= 3 && I8(s[0]) == TABLE && I8(s[2]) == DICT && WF(v.cols) && WF(v.rows)
              && Encode(v.cols) <= s[3..]
              && |s| >= 3 + |Encode(v.cols)| && Encode(v.rows) <= s[3 + |Encode(v.cols)|..]
  {
    var e := Encode(v);
    if v.Dict? {
      PrefixParts([U8(v.code)], Encode(v.keys), Encode(v.vals), s);
    } else if v.Table? {
      PrefixParts([U8(TABLE), 0, U8(DICT)], Encode(v.cols), Encode(v.rows), s);
      assert s[2] == e[2];
    }
  }

  /** A table is a dictionary behind two bytes. */
  lemma TableIsDict(v: Val)
    requires WF(v) && v.Table?
    ensures WF(v.cols) && WF(v.rows) && v.cols.SymVec? && WF(Dict(DICT, v.cols, v.rows))
    ensures Encode(v) == [U8(TABLE), 0] + Encode(Dict(DICT, v.cols, v.rows))
  {
    TwoAndOne(Encode(v.cols), Encode(v.rows));
  }

  lemma TwoAndOne(c: bytes, r: bytes)
    ensures [U8(TABLE), 0, U8(DICT)] + c + r == [U8(TABLE), 0] + ([U8(DICT)] + c + r)
  {
  }

  lemma PrefixParts(h: bytes, a: bytes, b: bytes, s: bytes)
    requires h + a + b <= s
    ensures h <= s && a <= s[|h|..] && b <= s[|h| + |a|..]
  {
    var e := h + a + b;
    assert h == e[..|h|];
    assert a == e[|h|..|h| + |a|];
    assert b == e[|h| + |a|..];
  }

  lemma Small(n: nat)
    requires n < TWO_31
    ensures ToInt32(n) == n && ToInt32(-2) == -2
  {
  }

  /** How the walk over a dictionary ends, from how those over its halves do. */
  function PairFate(fk: Fate, lk: nat, fx: Fate): Fate {
    if fk.Fine? then fx.Past(SZ_BYTE + lk) else fk.Past(SZ_BYTE)
  }

  /** The walk over `s` reports a piece of `len` bytes with fate `f`. */
  predicate Reports(s: bytes, f: Fate, len: nat) {
    PayloadLen(s) == Report(f, len) && (f.Stuck? ==> f.at < len && StuckAt(s, f.at))
  }

  lemma DictWalk(s: bytes, fk: Fate, lk: nat, fx: Fate, lx: nat)
    requires |s| >= 1 + lk && IsDict(I8(s[0])) && 1 + lk + lx < TWO_31
    requires Reports(s[1..], fk, lk) && (fk.Fine? ==> Reports(s[1 + lk..], fx, lx))
    ensures VaryLen(s) == PayloadLen(s) && Reports(s, PairFate(fk, lk, fx), 1 + lk + lx)
  {
    hide ToInt32, StuckAt, AtomSpan;
    Small(lk);
    Small(lx);
    DictIsVary(s);
    match fk {
    case Unknown =>
    case Stuck(at) =>
      Small(at);
      Small(0);
      StuckLater(s, 1, at);
      IsStuck(s, 1 + at);
    case Fine =>
      if fx.Stuck? {
        Small(fx.at);
        StuckLater(s, 1 + lk, fx.at);
      }
    }
  }

  lemma DictIsVary(s: bytes)
    requires s != [] && (IsDict(I8(s[0])) || I8(s[0]) == TABLE)
    ensures PayloadLen(s) == VaryLen(s)
  {
  }

  lemma IsStuck(s: bytes, at: nat)
    requires StuckAt(s, at)
    ensures at <= |s| && PayloadLen(s[at..]) == Code(0)
  {
  }

  lemma TableWalk(s: bytes, lc: nat, fr: Fate, lr: nat)
    requires |s| >= 3 + lc && I8(s[0]) == TABLE && I8(s[2]) == DICT && 3 + lc + lr < TWO_31
    requires Reports(s[3..], Fine, lc) && Reports(s[3 + lc..], fr, lr)
    ensures Reports(s, if fr.Unknown? then Stuck(0) else fr.Past(3 + lc), 3 + lc + lr)
  {
    hide StuckAt, AtomSpan, PayloadLen;
    assert s[2..][1..] == s[3..] && s[2..][1 + lc..] == s[3 + lc..];
    DictWalk(s[2..], Fine, lc, fr, lr);
    DictIsVary(s);
    if fr.Unknown? {
      StuckHere(s);
    } else if fr.Stuck? {
      StuckLater(s, 2, 1 + lc + fr.at);
    }
  }

  lemma StuckHere(s: bytes)
    requires PayloadLen(s) == Code(0)
    ensures StuckAt(s, 0)
  {
    hide PayloadLen;
    assert s[0..] == s;
  }

  /** The length reported is that of the payload exactly if the walk knows all its types; otherwise the report
      is -2 or, when the first unknown element lies in a table, the offset of that table, where it reports 0. */
  lemma LengthIffScannable(v: Val, s: bytes)
    requires WF(v) && Encode(v) <= s && |Encode(v)| < TWO_31
    ensures PayloadLen(s) == Code(|Encode(v)|) <==> Scannable(v)
    ensures !Scannable(v) ==>
              || PayloadLen(s) == Code(-2)
              || exists at | 0 <= at < |Encode(v)| :: PayloadLen(s) == Code(at) && StuckAt(s, at)
  {
    hide Encode, PayloadLen, FateOf, WF, Scannable, StuckAt;
    ScanReports(v, s);
    FineIffScannable(v);
  }

  /** Nothing in the value is an atom of fixed width, a table, or of a type the walk does not know. */
  predicate Guarded(v: Val)
    decreases v, 0
  {
    match v
    case Sym(_) => true
    case Vec(_, _, _) => true
    case SymVec(_, _) => true
    case List(_, vs) => AllGuarded(vs)
    case Dict(_, k, x) => Guarded(k) && Guarded(x)
    case _ => false
  }

  predicate AllGuarded(vs: seq<Val>)
    decreases vs, 1
  {
    vs == [] || (Guarded(vs[0]) && AllGuarded(vs[1..]))
  }

  lemma {:induction false} GuardedScannable(v: Val)
    requires Guarded(v)
    ensures Scannable(v)
    decreases v, 0
  {
    match v
    case List(_, vs) => AllGuardedScannable(vs);
    case Dict(_, k, x) => GuardedScannable(k); GuardedScannable(x);
    case _ =>
  }

  lemma {:induction false} AllGuardedScannable(vs: seq<Val>)
    requires AllGuarded(vs)
    ensures AllScannable(vs)
    decreases vs, 1
  {
    if vs != [] {
      GuardedScannable(vs[0]);
      AllGuardedScannable(vs[1..]);
      assert vs == [vs[0]] + vs[1..];
    }
  }

  /** `s` is the beginning of `e`, but not all of it. */
  predicate Torn(s: bytes, e: bytes) {
    s <= e && |s| < |e|
  }

  /** A guarded value that has not all arrived is reported as incomplete. */
  lemma {:induction false} TornShort(v: Val, s: bytes)
    requires WF(v) && Guarded(v) && Torn(s, Encode(v)) && |Encode(v)| < TWO_31
    ensures PayloadLen(s) == Code(-1)
    decreases v, 0
  {
    hide Encode, PayloadLen, EncodeAll, WF;
    if s == [] {
      NothingShort(s);
      return;
    }
    match v {
    case Sym(_) => TornSym(v, s);
    case Vec(_, _, _) => TornVec(v, s);
    case SymVec(_, _) => TornSymVec(v, s);
    case List(_, vs) =>
      TornList(v, s);
      if |s| >= SZ_VEC_HDR {
        TornShortAll(vs, s, SZ_VEC_HDR);
      }
    case Dict(_, k, x) =>
      TornPair(v, s);
      if |s| - 1 < |Encode(k)| {
        TornShort(k, s[1..]);
      } else {
        GuardedScannable(k);
        LengthIffScannable(k, s[1..]);
        TornShort(x, s[1 + |Encode(k)|..]);
        Small(|Encode(k)|);
      }
      TornDict(s, |Encode(k)|);
    }
  }

  lemma {:induction false} TornShortAll(vs: seq<Val>, s: bytes, off: nat)
    requires AllWF(vs) && AllGuarded(vs) && 0 < off <= |s| && Torn(s[off..], EncodeAll(vs)) && |EncodeAll(vs)| < TWO_31
    ensures ListLen(s, off, |vs|) == Code(-1)
    decreases vs, 1
  {
    hide Encode, PayloadLen, WF;
    var e, rest := Encode(vs[0]), EncodeAll(vs[1..]);
    assert EncodeAll(vs) == e + rest;
    TornSplit(s, off, e, rest);
    if |s| - off < |e| {
      TornShort(vs[0], s[off..]);
    } else {
      GuardedScannable(vs[0]);
      LengthIffScannable(vs[0], s[off..]);
      TornShortAll(vs[1..], s, off + |e|);
    }
  }

  /** Where a byte string is torn: within its first part, or within its second. */
  lemma TornSplit(s: bytes, off: nat, a: bytes, b: bytes)
    requires off <= |s| && Torn(s[off..], a + b)
    ensures |s| - off < |a| ==> Torn(s[off..], a)
    ensures |s| - off >= |a| ==> a <= s[off..] && Torn(s[off + |a|..], b)
  {
    var t := s[off..];
    assert t == (a + b)[..|t|];
    if |t| >= |a| {
      assert s[off + |a|..] == t[|a|..] == b[..|t| - |a|];
      assert t[..|a|] == a;
    }
  }

  lemma NothingShort(s: bytes)
    requires s == []
    ensures PayloadLen(s) == Code(-1)
  {
  }

  lemma TornSym(v: Val, s: bytes)
    requires WF(v) && v.Sym? && s != [] && Torn(s, Encode(v))
    ensures PayloadLen(s) == Code(-1)
  {
    hide StrNLen;
    TornHead([U8(SYMBOL_ATOM)], v.text + [0], s);
    assert [U8(SYMBOL_ATOM)] + v.text + [0] == [U8(SYMBOL_ATOM)] + (v.text + [0]);
    StrNLenAgrees(s[1..], v.text);
  }

  /** A torn string of which the head is there. */
  lemma TornHead(h: bytes, b: bytes, s: bytes)
    requires Torn(s, h + b) && |s| >= |h|
    ensures h <= s && Torn(s[|h|..], b) && Agrees(s[|h|..], b)
  {
    assert s == (h + b)[..|s|];
    assert s[|h|..] == b[..|s| - |h|];
  }

  lemma TornVec(v: Val, s: bytes)
    requires WF(v) && v.Vec? && s != [] && Torn(s, Encode(v))
    ensures PayloadLen(s) == Code(-1)
  {
    hide ToLE, AsInt32;
    var e := Encode(v);
    assert s[0] == e[0];
    ScanSizes(v.vtyp);
    if |s| >= SZ_VEC_HDR {
      assert s[2..6] == e[2..6] == ToLE(4, |v.elems|);
      Int32RoundTrip(|v.elems|);
      EncodeElemsLength(ElemWidth(v.vtyp), v.elems);
    }
  }

  lemma TornSymVec(v: Val, s: bytes)
    requires WF(v) && v.SymVec? && s != [] && Torn(s, Encode(v))
    ensures PayloadLen(s) == Code(-1)
  {
    hide ToLE, AsInt32, EncodeSyms, SymVecLen, NoNuls;
    var e := Encode(v);
    assert s[0] == e[0];
    if |s| >= SZ_VEC_HDR {
      assert s[2..6] == e[2..6] == ToLE(4, |v.syms|);
      Int32RoundTrip(|v.syms|);
      TornHead(Header(SYMBOL_VECTOR, v.sattr, |v.syms|), EncodeSyms(v.syms), s);
      TornSyms(v.syms, s, SZ_VEC_HDR);
    }
  }

  lemma {:induction false} TornSyms(ss: seq<bytes>, s: bytes, off: nat)
    requires NoNuls(ss) && off <= |s| && Torn(s[off..], EncodeSyms(ss))
    ensures SymVecLen(s, off, |ss|) == -1
  {
    hide StrNLen, NoNul;
    var e, rest := ss[0] + [0], EncodeSyms(ss[1..]);
    assert EncodeSyms(ss) == e + rest;
    TornSplit(s, off, e, rest);
    StrNLenAgrees(s[off..], ss[0]);
    if |s| - off >= |e| {
      TornSyms(ss[1..], s, off + |e|);
    }
  }

  lemma TornList(v: Val, s: bytes)
    requires WF(v) && v.List? && s != [] && Torn(s, Encode(v))
    ensures AllWF(v.items) && |EncodeAll(v.items)| <= |Encode(v)|
    ensures |s| < SZ_VEC_HDR ==> PayloadLen(s) == Code(-1)
    ensures |s| >= SZ_VEC_HDR ==>
              Torn(s[SZ_VEC_HDR..], EncodeAll(v.items)) && PayloadLen(s) == ListLen(s, SZ_VEC_HDR, |v.items|)
  {
    hide ToLE, AsInt32, EncodeAll;
    var e := Encode(v);
    assert s[0] == e[0];
    if |s| >= SZ_VEC_HDR {
      assert s[2..6] == e[2..6] == ToLE(4, |v.items|);
      Int32RoundTrip(|v.items|);
      TornHead(Header(LIST, v.lattr, |v.items|), EncodeAll(v.items), s);
    }
  }

  lemma TornPair(v: Val, s: bytes)
    requires WF(v) && v.Dict? && s != [] && Torn(s, Encode(v))
    ensures WF(v.keys) && WF(v.vals) && IsDict(I8(s[0])) && |Encode(v)| == 1 + |Encode(v.keys)| + |Encode(v.vals)|
    ensures |s| - 1 < |Encode(v.keys)| ==> Torn(s[1..], Encode(v.keys))
    ensures |s| - 1 >= |Encode(v.keys)| ==> Encode(v.keys) <= s[1..] && Torn(s[1 + |Encode(v.keys)|..], Encode(v.vals))
  {
    var h, a, b := [U8(v.code)], Encode(v.keys), Encode(v.vals);
    assert Encode(v) == h + (a + b);
    TornHead(h, a + b, s);
    TornSplit(s, 1, a, b);
  }

  lemma TornDict(s: bytes, lk: nat)
    requires s != [] && IsDict(I8(s[0])) && lk < TWO_31
    requires if |s| - 1 < lk then PayloadLen(s[1..]) == Code(-1)
             else PayloadLen(s[1..]) == Code(lk) && PayloadLen(s[1 + lk..]) == Code(-1)
    ensures PayloadLen(s) == Code(-1)
  {
    hide PayloadLen;
    DictIsVary(s);
    Small(lk);
  }

  /** Where to cut a value that is not guarded: after the type byte of what is not. */
  function Slip(v: Val): (n: nat)
    requires WF(v) && !Guarded(v)
    ensures n > 0
    decreases v, 0
  {
    match v
    case List(_, vs) => SZ_VEC_HDR + SlipAll(vs)
    case Dict(_, k, x) => if Guarded(k) then SZ_BYTE + |Encode(k)| + Slip(x) else SZ_BYTE + Slip(k)
    case _ => SZ_BYTE
  }

  function SlipAll(vs: seq<Val>): (n: nat)
    requires AllWF(vs) && !AllGuarded(vs)
    ensures n > 0
    decreases vs, 1
  {
    if Guarded(vs[0]) then |Encode(vs[0])| + SlipAll(vs[1..]) else Slip(vs[0])
  }

  /** A report that does not say "incomplete", of a string of `have` bytes out of `full`. */
  predicate Missed(r: Scan, have: nat, full: nat) {
    r.Overrun? || r.n == -2 || have < r.n <= full
  }

  /** A value that is not guarded, cut there, is not reported as incomplete. */
  lemma {:induction false} SlipMissed(v: Val, s: bytes)
    requires WF(v) && !Guarded(v) && |Encode(v)| < TWO_31
    requires s <= Encode(v) && |s| == Slip(v)
    ensures |s| < |Encode(v)| && Missed(PayloadLen(s), |s|, |Encode(v)|)
    decreases v, 0
  {
    hide Encode, PayloadLen, EncodeAll, WF;
    match v {
    case List(_, vs) =>
      ListSize(v);
      SlipList(v, s);
      SlipMissedAll(vs, s, SZ_VEC_HDR);
    case Dict(_, k, x) =>
      PairSize(v);
      if Guarded(k) {
        SlipPair(v, s);
        GuardedScannable(k);
        LengthIffScannable(k, s[1..]);
        SlipMissed(x, s[1 + |Encode(k)|..]);
        Small(|Encode(k)|);
      } else {
        SlipBound(k);
        SlipPair(v, s);
        SlipMissed(k, s[1..]);
      }
      SlipDict(s, |Encode(k)|, |Encode(x)|);
    case _ => SlipLeaf(v, s);
    }
  }

  lemma {:induction false} SlipMissedAll(vs: seq<Val>, s: bytes, off: nat)
    requires AllWF(vs) && !AllGuarded(vs) && 0 < off <= |s| && |EncodeAll(vs)| < TWO_31
    requires s[off..] <= EncodeAll(vs) && |s| - off == SlipAll(vs)
    ensures |s| - off < |EncodeAll(vs)| && Missed(ListLen(s, off, |vs|), |s|, off + |EncodeAll(vs)|)
    decreases vs, 1
  {
    hide Encode, PayloadLen, WF;
    var e, rest := Encode(vs[0]), EncodeAll(vs[1..]);
    assert EncodeAll(vs) == e + rest;
    if Guarded(vs[0]) {
      SplitCut(s, off, e, rest);
      GuardedScannable(vs[0]);
      LengthIffScannable(vs[0], s[off..]);
      SlipMissedAll(vs[1..], s, off + |e|);
    } else {
      SlipBound(vs[0]);
      SplitCut(s, off, e, rest);
      SlipMissed(vs[0], s[off..]);
    }
  }

  lemma SplitCut(s: bytes, off: nat, a: bytes, b: bytes)
    requires off <= |s| && s[off..] <= a + b
    ensures |s| - off <= |a| ==> s[off..] <= a
    ensures |s| - off >= |a| ==> a <= s[off..] && s[off + |a|..] <= b
  {
    var t := s[off..];
    assert t == (a + b)[..|t|];
    if |t| >= |a| {
      assert s[off + |a|..] == t[|a|..] == b[..|t| - |a|];
      assert t[..|a|] == a;
    }
  }

  lemma {:induction false} SlipBound(v: Val)
    requires WF(v) && !Guarded(v)
    ensures Slip(v) < |Encode(v)|
    decreases v, 0
  {
    hide Encode, EncodeAll, WF;
    match v {
    case List(_, vs) =>
      ListSize(v);
      SlipBoundAll(vs);
    case Dict(_, k, x) =>
      PairSize(v);
      if Guarded(k) {
        SlipBound(x);
      } else {
        SlipBound(k);
      }
    case _ => LeafSize(v);
    }
  }

  lemma {:induction false} SlipBoundAll(vs: seq<Val>)
    requires AllWF(vs) && !AllGuarded(vs)
    ensures SlipAll(vs) < |EncodeAll(vs)|
    decreases vs, 1
  {
    hide Encode, WF;
    if Guarded(vs[0]) {
      SlipBoundAll(vs[1..]);
    } else {
      SlipBound(vs[0]);
    }
  }

  lemma LeafSize(v: Val)
    requires WF(v)
    ensures v.Atom? || v.Exception? || v.Func? || v.Proj? || v.Table? ==> |Encode(v)| > 1
  {
    hide ToLE;
  }

  lemma SlipLeaf(v: Val, s: bytes)
    requires WF(v) && (v.Atom? || v.Exception? || v.Func? || v.Proj? || v.Table?)
    requires s <= Encode(v) && |s| == 1
    ensures 1 < |Encode(v)| && Missed(PayloadLen(s), 1, |Encode(v)|)
  {
    hide ToLE, EncodeAll, Patterns;
    assert s[0] == Encode(v)[0];
    ScanSizes(I8(s[0]));
  }

  lemma SlipList(v: Val, s: bytes)
    requires WF(v) && v.List? && s <= Encode(v) && |s| >= SZ_VEC_HDR
    ensures s[SZ_VEC_HDR..] <= EncodeAll(v.items) && PayloadLen(s) == ListLen(s, SZ_VEC_HDR, |v.items|)
  {
    hide ToLE, AsInt32, EncodeAll;
    var e := Encode(v);
    assert s[0] == e[0];
    assert s[2..6] == e[2..6] == ToLE(4, |v.items|);
    Int32RoundTrip(|v.items|);
    assert s[6..] == e[6..|s|];
  }

  lemma SlipPair(v: Val, s: bytes)
    requires WF(v) && v.Dict? && s != [] && s <= Encode(v)
    ensures IsDict(I8(s[0]))
    ensures |s| - 1 <= |Encode(v.keys)| ==> s[1..] <= Encode(v.keys)
    ensures |s| - 1 >= |Encode(v.keys)| ==> Encode(v.keys) <= s[1..] && s[1 + |Encode(v.keys)|..] <= Encode(v.vals)
  {
    var h, a, b := [U8(v.code)], Encode(v.keys), Encode(v.vals);
    assert Encode(v) == h + (a + b);
    assert s[1..] == (a + b)[..|s| - 1];
    SplitCut(s, 1, a, b);
  }

  lemma SlipDict(s: bytes, lk: nat, lx: nat)
    requires s != [] && IsDict(I8(s[0])) && lk < TWO_31 && lx < TWO_31 && 1 + lk + lx < TWO_31
    requires if |s| - 1 >= lk then PayloadLen(s[1..]) == Code(lk) && Missed(PayloadLen(s[1 + lk..]), |s| - 1 - lk, lx)
             else Missed(PayloadLen(s[1..]), |s| - 1, lk)
    ensures Missed(PayloadLen(s), |s|, 1 + lk + lx)
  {
    hide PayloadLen;
    DictIsVary(s);
    Small(lk);
    var r := if |s| - 1 >= lk then PayloadLen(s[1 + lk..]) else PayloadLen(s[1..]);
    if r.Code? && r.n >= 0 {
      Small(r.n);
    }
  }

  /** Every cut is reported as incomplete exactly if the value has no fixed-width atom, no table, and only
      types the walk knows: the walk does not look at the bytes of an atom, and a table adds to error codes. */
  lemma TruncationDetectedIffGuarded(v: Val)
    requires WF(v) && |Encode(v)| < TWO_31
    ensures (forall s: bytes | Torn(s, Encode(v)) :: PayloadLen(s) == Code(-1)) <==> Guarded(v)
  {
    hide Encode, PayloadLen, WF, Guarded;
    if Guarded(v) {
      forall s: bytes | Torn(s, Encode(v))
        ensures PayloadLen(s) == Code(-1)
      {
        TornShort(v, s);
      }
    } else {
      SlipBound(v);
      var s := Encode(v)[..Slip(v)];
      SlipMissed(v, s);
      assert Torn(s, Encode(v)) && PayloadLen(s) != Code(-1);
    }
  }
}
