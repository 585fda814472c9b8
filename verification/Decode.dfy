/** One-shot decoding, as a function of the bytes: the inverse of the encoding. */
module Decode {
  import opened Bytes
  import opened KdbValue
  import opened Partial
  import opened Reader
  import opened Scanner

  datatype Decoded = Fails | Decoded(val: Val, used: nat)
  datatype DecodedAll = FailsAll | DecodedAll(vals: seq<Val>, end: nat)
  datatype DecodedSyms = FailsSyms | DecodedSyms(syms: seq<bytes>, end: nat)

  /** The value at the front of `s` and the number of bytes it takes. */
  function DecodeVal(s: bytes): (r: Decoded)
    ensures r.Decoded? ==> 0 < r.used <= |s|
    decreases |s|
  {
    if s == [] then Fails
    else
      var t := I8(s[0]);
      if t == LIST then
        if |s| < SZ_VEC_HDR || AsInt32(s[2..6]) < 0 then Fails
        else
          var vs := DecodeAll(s, SZ_VEC_HDR, AsInt32(s[2..6]));
          if vs.FailsAll? then Fails else Decoded(List(s[1], vs.vals), vs.end)
      else if t == PROJECTION then
        if |s| < SZ_PRJ_HDR || AsInt32(s[1..5]) < 0 then Fails
        else
          var vs := DecodeAll(s, SZ_PRJ_HDR, AsInt32(s[1..5]));
          if vs.FailsAll? then Fails else Decoded(Proj(vs.vals), vs.end)
      else if t == TABLE then
        if |s| < SZ_TBL_HDR then Fails
        else
          var vs := DecodeAll(s, SZ_TBL_HDR, 2);
          if vs.FailsAll? || !vs.vals[0].SymVec? || !vs.vals[1].List? then Fails
          else Decoded(Table(vs.vals[0], vs.vals[1]), vs.end)
      else if t == DICT || t == STEP_DICT then
        var vs := DecodeAll(s, SZ_BYTE, 2);
        if vs.FailsAll? then Fails else Decoded(Dict(t, vs.vals[0], vs.vals[1]), vs.end)
      else DecodeFlat(s)
  }

  /** `k` values from `off` on. */
  function DecodeAll(s: bytes, off: nat, k: nat): (r: DecodedAll)
    requires 0 < off <= |s|
    ensures r.DecodedAll? ==> off <= r.end <= |s| && |r.vals| == k
    decreases |s|, k
  {
    if k == 0 then DecodedAll([], off)
    else
      var v := DecodeVal(s[off..]);
      if v.Fails? then FailsAll
      else
        var vs := DecodeAll(s, off + v.used, k - 1);
        if vs.FailsAll? then FailsAll else DecodedAll([v.val] + vs.vals, vs.end)
  }

  /** Values that hold no others. */
  function DecodeFlat(s: bytes): (r: Decoded)
    requires s != []
    ensures r.Decoded? ==> 0 < r.used <= |s|
  {
    var t := I8(s[0]);
    if t == SYMBOL_ATOM || t == EXCEPTION then
      var n := StrNLen(s[1..]);
      if n == |s| - 1 then Fails
      else Decoded(if t == EXCEPTION then Exception(s[1..1 + n]) else Sym(s[1..1 + n]), n + 2)
    else if FixedWidth(t) > 0 then
      if |s| < 1 + FixedWidth(t) then Fails
      else Decoded(Atom(t, FromLE(s[1..1 + FixedWidth(t)])), 1 + FixedWidth(t))
    else if t == SYMBOL_VECTOR then
      if |s| < SZ_VEC_HDR || AsInt32(s[2..6]) < 0 then Fails
      else
        var ss := DecodeSyms(s, SZ_VEC_HDR, AsInt32(s[2..6]));
        if ss.FailsSyms? then Fails else Decoded(SymVec(s[1], ss.syms), ss.end)
    else if ElemWidth(t) > 0 then
      if |s| < SZ_VEC_HDR || AsInt32(s[2..6]) < 0 || AsInt32(s[2..6]) * ElemWidth(t) > |s| - SZ_VEC_HDR then Fails
      else
        var end := SZ_VEC_HDR + AsInt32(s[2..6]) * ElemWidth(t);
        Decoded(Vec(t, s[1], DecodeElems(ElemWidth(t), s[SZ_VEC_HDR..end])), end)
    else if t == FUNCTION then
      if |s| < SZ_FUN_HDR || I8(s[2]) != CHAR_VECTOR then Fails
      else if AsInt32(s[4..8]) < 0 || AsInt32(s[4..8]) > |s| - SZ_FUN_HDR then Fails
      else Decoded(Func(s[SZ_FUN_HDR..SZ_FUN_HDR + AsInt32(s[4..8])]), SZ_FUN_HDR + AsInt32(s[4..8]))
    else Fails
  }

  /** `k` symbols from `off` on. */
  function DecodeSyms(s: bytes, off: nat, k: nat): (r: DecodedSyms)
    requires off <= |s|
    ensures r.DecodedSyms? ==> off <= r.end <= |s|
    decreases k
  {
    if k == 0 then DecodedSyms([], off)
    else
      var n := StrNLen(s[off..]);
      if n == |s| - off then FailsSyms
      else
        var ss := DecodeSyms(s, off + n + 1, k - 1);
        if ss.FailsSyms? then FailsSyms else DecodedSyms([s[off..off + n]] + ss.syms, ss.end)
  }

  /** Decoding the encoding of any value gives that value, and leaves what follows alone. */
  lemma {:induction false} RoundTrip(v: Val, s: bytes)
    requires WF(v) && Encode(v) <= s
    ensures DecodeVal(s) == Decoded(v, |Encode(v)|)
    decreases v, 0
  {
    hide Encode, EncodeAll, DecodeVal, DecodeAll, WF;
    match v {
    case List(_, vs) =>
      ListHeadOf(v, s);
      RoundTripAll(vs, s, SZ_VEC_HDR);
      DecodeListStep(v, s);
    case Proj(vs) =>
      ProjHeadOf(v, s);
      RoundTripAll(vs, s, SZ_PRJ_HDR);
      DecodeListStep(v, s);
    case Table(c, r) =>
      PairParts(v, s);
      RoundTrip(c, s[SZ_TBL_HDR..]);
      RoundTrip(r, s[SZ_TBL_HDR + |Encode(c)|..]);
      BothDecoded(c, r, s, SZ_TBL_HDR);
      DecodePairStep(v, s);
    case Dict(_, k, x) =>
      PairParts(v, s);
      RoundTrip(k, s[SZ_BYTE..]);
      RoundTrip(x, s[SZ_BYTE + |Encode(k)|..]);
      BothDecoded(k, x, s, SZ_BYTE);
      DecodePairStep(v, s);
    case _ => RoundTripFlat(v, s);
    }
  }

  lemma {:induction false} RoundTripAll(vs: seq<Val>, s: bytes, off: nat)
    requires AllWF(vs) && 0 < off <= |s| && EncodeAll(vs) <= s[off..]
    ensures DecodeAll(s, off, |vs|) == DecodedAll(vs, off + |EncodeAll(vs)|)
    decreases vs, 1
  {
    hide Encode, DecodeVal, WF;
    if vs != [] {
      var e, rest := Encode(vs[0]), EncodeAll(vs[1..]);
      assert EncodeAll(vs) == e + rest;
      SplitPrefix(e, rest, s, off);
      RoundTrip(vs[0], s[off..]);
      RoundTripAll(vs[1..], s, off + |e|);
      assert [vs[0]] + vs[1..] == vs;
    }
  }

  lemma BothDecoded(a: Val, b: Val, s: bytes, off: nat)
    requires WF(a) && WF(b) && 0 < off && off + |Encode(a)| + |Encode(b)| <= |s|
    requires DecodeVal(s[off..]) == Decoded(a, |Encode(a)|)
    requires DecodeVal(s[off + |Encode(a)|..]) == Decoded(b, |Encode(b)|)
    ensures DecodeAll(s, off, 2) == DecodedAll([a, b], off + |Encode(a)| + |Encode(b)|)
  {
    hide Encode, DecodeVal, WF;
    var end := off + |Encode(a)| + |Encode(b)|;
    assert DecodeAll(s, end, 0) == DecodedAll([], end);
    assert DecodeAll(s, off + |Encode(a)|, 1) == DecodedAll([b] + [], end);
    assert [a] + [b] == [a, b];
  }

  /** What follows the head of a list or projection are its elements. */
  lemma ListHeadOf(v: Val, s: bytes)
    requires WF(v) && v.List? && Encode(v) <= s
    ensures |s| >= SZ_VEC_HDR && I8(s[0]) == LIST && s[1] == v.lattr && AsInt32(s[2..6]) == |v.items|
    ensures AllWF(v.items) && EncodeAll(v.items) <= s[SZ_VEC_HDR..] && |Encode(v)| == SZ_VEC_HDR + |EncodeAll(v.items)|
  {
    hide ToLE, AsInt32, EncodeAll;
    var e := Encode(v);
    assert s[0] == e[0] && s[1] == e[1];
    assert s[2..6] == e[2..6] == ToLE(4, |v.items|);
    Int32RoundTrip(|v.items|);
    assert EncodeAll(v.items) == e[6..];
  }

  lemma ProjHeadOf(v: Val, s: bytes)
    requires WF(v) && v.Proj? && Encode(v) <= s
    ensures |s| >= SZ_PRJ_HDR && I8(s[0]) == PROJECTION && AsInt32(s[1..5]) == |v.args|
    ensures AllWF(v.args) && EncodeAll(v.args) <= s[SZ_PRJ_HDR..] && |Encode(v)| == SZ_PRJ_HDR + |EncodeAll(v.args)|
  {
    hide ToLE, AsInt32, EncodeAll;
    var e := Encode(v);
    assert s[0] == e[0];
    assert s[1..5] == e[1..5] == ToLE(4, |v.args|);
    Int32RoundTrip(|v.args|);
    assert EncodeAll(v.args) == e[5..];
  }

  lemma DecodeListStep(v: Val, s: bytes)
    requires WF(v) && (v.List? || v.Proj?) && Encode(v) <= s
    requires v.List? ==> |s| >= SZ_VEC_HDR && DecodeAll(s, SZ_VEC_HDR, |v.items|) == DecodedAll(v.items, |Encode(v)|)
    requires v.Proj? ==> |s| >= SZ_PRJ_HDR && DecodeAll(s, SZ_PRJ_HDR, |v.args|) == DecodedAll(v.args, |Encode(v)|)
    ensures DecodeVal(s) == Decoded(v, |Encode(v)|)
  {
    hide Encode, DecodeAll, AsInt32, WF;
    if v.List? {
      ListHeadOf(v, s);
    } else {
      ProjHeadOf(v, s);
    }
  }

  lemma DecodePairStep(v: Val, s: bytes)
    requires WF(v) && (v.Table? || v.Dict?) && Encode(v) <= s
    requires v.Table? ==> |s| >= SZ_TBL_HDR && DecodeAll(s, SZ_TBL_HDR, 2) == DecodedAll([v.cols, v.rows], |Encode(v)|)
    requires v.Dict? ==> |s| >= SZ_BYTE && DecodeAll(s, SZ_BYTE, 2) == DecodedAll([v.keys, v.vals], |Encode(v)|)
    ensures DecodeVal(s) == Decoded(v, |Encode(v)|)
  {
    hide Encode, DecodeAll, AsInt32, DecodeVal;
    PairParts(v, s);
    if v.Table? {
      DecodeTable(v, s, |Encode(v)|);
    } else {
      DecodeDict(v, s, |Encode(v)|);
    }
  }

  lemma DecodeTable(v: Val, s: bytes, n: nat)
    requires v.Table? && v.cols.SymVec? && v.rows.List? && |s| >= SZ_TBL_HDR && I8(s[0]) == TABLE
    requires DecodeAll(s, SZ_TBL_HDR, 2) == DecodedAll([v.cols, v.rows], n)
    ensures DecodeVal(s) == Decoded(v, n)
  {
    hide DecodeAll, AsInt32;
  }

  lemma DecodeDict(v: Val, s: bytes, n: nat)
    requires v.Dict? && |s| >= SZ_BYTE && I8(s[0]) == v.code && IsDict(v.code)
    requires DecodeAll(s, SZ_BYTE, 2) == DecodedAll([v.keys, v.vals], n)
    ensures DecodeVal(s) == Decoded(v, n)
  {
    hide DecodeAll, AsInt32;
  }

  lemma RoundTripFlat(v: Val, s: bytes)
    requires WF(v) && Encode(v) <= s && !v.List? && !v.Proj? && !v.Table? && !v.Dict?
    ensures DecodeVal(s) == Decoded(v, |Encode(v)|)
  {
    hide DecodeFlat, Encode, ToLE, EncodeSyms, EncodeElems, NoNuls, Patterns;
    Kinds(v);
    EncodeNonEmpty(v);
    assert s[0] == Encode(v)[0];
    match v
    case Atom(_, _) => FlatAtom(v, s);
    case Sym(_) => FlatText(v, s);
    case Exception(_) => FlatText(v, s);
    case Vec(_, _, _) => FlatVec(v, s);
    case SymVec(_, _) => FlatSymVec(v, s);
    case Func(_) => FlatFunc(v, s);
  }

  lemma FlatAtom(v: Val, s: bytes)
    requires WF(v) && v.Atom? && Encode(v) <= s
    ensures DecodeFlat(s) == Decoded(v, |Encode(v)|)
  {
    hide ToLE, FromLE, Patterns;
    var e, w := Encode(v), FixedWidth(v.typ);
    assert s[0] == e[0];
    assert s[1..1 + w] == e[1..1 + w] == ToLE(w, v.bits);
    FromToLE(w, v.bits);
  }

  lemma FlatText(v: Val, s: bytes)
    requires WF(v) && (v.Sym? || v.Exception?) && Encode(v) <= s
    ensures DecodeFlat(s) == Decoded(v, |Encode(v)|)
  {
    hide StrNLen, NoNul;
    var e, text := Encode(v), Text(v);
    assert s[0] == e[0];
    assert text + [0] == e[1..] <= s[1..];
    StrNLenAgrees(s[1..], text);
    assert s[1..1 + |text|] == s[1..][..|text|];
  }

  lemma FlatVec(v: Val, s: bytes)
    requires WF(v) && v.Vec? && Encode(v) <= s
    ensures DecodeFlat(s) == Decoded(v, |Encode(v)|)
  {
    hide ToLE, AsInt32, EncodeElems, DecodeElems, Patterns;
    var e, w, n := Encode(v), ElemWidth(v.vtyp), |v.elems|;
    assert s[0] == e[0] && s[1] == e[1];
    assert s[2..6] == e[2..6] == ToLE(4, n);
    Int32RoundTrip(n);
    EncodeElemsLength(w, v.elems);
    assert s[6..6 + n * w] == e[6..6 + n * w] == EncodeElems(w, v.elems);
    DecodeEncodeElems(w, v.elems);
  }

  lemma FlatSymVec(v: Val, s: bytes)
    requires WF(v) && v.SymVec? && Encode(v) <= s
    ensures DecodeFlat(s) == Decoded(v, |Encode(v)|)
  {
    hide ToLE, AsInt32, EncodeSyms, DecodeSyms, NoNuls;
    var e := Encode(v);
    assert s[0] == e[0] && s[1] == e[1];
    assert s[2..6] == e[2..6] == ToLE(4, |v.syms|);
    Int32RoundTrip(|v.syms|);
    assert EncodeSyms(v.syms) == e[6..] <= s[6..];
    SymsRoundTrip(v.syms, s, 6);
  }

  lemma {:induction false} SymsRoundTrip(ss: seq<bytes>, s: bytes, off: nat)
    requires NoNuls(ss) && off <= |s| && EncodeSyms(ss) <= s[off..]
    ensures DecodeSyms(s, off, |ss|) == DecodedSyms(ss, off + |EncodeSyms(ss)|)
  {
    hide StrNLen, NoNul, DecodeSyms, EncodeSyms;
    if ss == [] {
      NoSyms(s, off);
    } else {
      var text, more := ss[0], ss[1..];
      OneSym(ss);
      FirstSym(text, EncodeSyms(more), s, off);
      SymsRoundTrip(more, s, off + |text| + 1);
      SymStep(s, off, |ss|);
      assert [text] + more == ss;
    }
  }

  lemma NoSyms(s: bytes, off: nat)
    requires off <= |s|
    ensures DecodeSyms(s, off, 0) == DecodedSyms([], off) && EncodeSyms([]) == []
  {
  }

  lemma OneSym(ss: seq<bytes>)
    requires ss != [] && NoNuls(ss)
    ensures EncodeSyms(ss) == ss[0] + [0] + EncodeSyms(ss[1..]) && NoNul(ss[0]) && NoNuls(ss[1..])
  {
    hide NoNul;
  }

  lemma SymStep(s: bytes, off: nat, k: nat)
    requires off <= |s| && k > 0 && StrNLen(s[off..]) < |s| - off
    ensures var n := StrNLen(s[off..]);
            var rest := DecodeSyms(s, off + n + 1, k - 1);
            rest.DecodedSyms? ==> DecodeSyms(s, off, k) == DecodedSyms([s[off..off + n]] + rest.syms, rest.end)
  {
    hide StrNLen;
  }

  lemma FlatFunc(v: Val, s: bytes)
    requires WF(v) && v.Func? && Encode(v) <= s
    ensures DecodeFlat(s) == Decoded(v, |Encode(v)|)
  {
    hide ToLE, AsInt32;
    var e, n := Encode(v), |v.body|;
    assert s[0] == e[0] && s[2] == e[2];
    assert s[4..8] == e[4..8] == ToLE(4, n);
    Int32RoundTrip(n);
    assert s[8..8 + n] == e[8..8 + n] == v.body;
  }

  /** No encoding is the beginning of another one: what is at the front of a stream can be read in one way only. */
  lemma PrefixFree(a: Val, b: Val, s: bytes)
    requires WF(a) && WF(b) && Encode(a) <= s && Encode(b) <= s
    ensures a == b
  {
    hide Encode, DecodeVal, WF;
    RoundTrip(a, s);
    RoundTrip(b, s);
  }

  /** What a reader hands over when it has finished with the encoding of `v` stands for what decoding it gives. */
  lemma ReaderAgrees(v: Val, s: bytes)
    requires WF(v) && Encode(v) <= s
    ensures DecodeVal(s).Decoded? && Value(Whole(v)) == Some(AsRead(DecodeVal(s).val))
  {
    hide Encode, DecodeVal, WF, Whole, Value, AsRead;
    RoundTrip(v, s);
    ValueOfWhole(v);
  }
}
