/** Bytes kdb+ itself sends, as the tests of the repository have them, and a few others worked out by hand. */
module KnownAnswers {
  import opened Bytes
  import opened KdbValue
  import opened Cursors
  import opened Units
  import opened Partial
  import opened Reader
  import opened Scanner
  import opened Decode
  import opened MessageWriter
  import opened MessageReader
  import Lz
  import opened ResumedParse

  // ---- small numbers ----

  lemma {:induction false} ZeroLE(w: nat)
    ensures ToLE(w, 0) == seq(w, _ => 0)
  {
    if w > 0 {
      ZeroLE(w - 1);
    }
  }

  /** Counts and values below 65536 in fields of two, four and eight bytes. */
  lemma SmallLE(a: byte, b: byte)
    ensures ToLE(1, a) == [a] && ToLE(2, a + 256 * b) == [a, b]
    ensures ToLE(4, a + 256 * b) == [a, b, 0, 0]
    ensures ToLE(8, a + 256 * b) == [a, b, 0, 0, 0, 0, 0, 0]
  {
    var n := a + 256 * b;
    assert n % 256 == a && n / 256 == b && b % 256 == b && b / 256 == 0;
    ZeroLE(6);
    ZeroLE(2);
    ZeroLE(0);
    assert ToLE(0, a / 256) == [];
    assert ToLE(8, n) == [a] + ToLE(7, b) && ToLE(7, b) == [b] + ToLE(6, 0);
    assert ToLE(4, n) == [a] + ToLE(3, b) && ToLE(3, b) == [b] + ToLE(2, 0);
    assert ToLE(2, n) == [a] + ToLE(1, b) && ToLE(1, b) == [b] + ToLE(0, 0);
  }

  lemma HeaderBytes(t: int, attr: byte, count: byte)
    requires -128 <= t < 128
    ensures Header(t, attr, count) == [U8(t), attr, count, 0, 0, 0]
  {
    SmallLE(count, 0);
  }

  lemma NoElems(w: nat)
    ensures EncodeElems(w, []) == []
  {
  }

  lemma OneMore(w: nat, x: nat, es: seq<nat>)
    ensures EncodeElems(w, [x] + es) == ToLE(w, x) + EncodeElems(w, es)
  {
    assert ([x] + es)[1..] == es;
  }

  lemma ThreeElems(w: nat, a: nat, b: nat, c: nat)
    ensures EncodeElems(w, [a, b, c]) == ToLE(w, a) + ToLE(w, b) + ToLE(w, c)
  {
    NoElems(w);
    OneMore(w, c, []);
    OneMore(w, b, [c]);
    OneMore(w, a, [b, c]);
    assert [c] + [] == [c] && [b] + [c] == [b, c] && [a] + [b, c] == [a, b, c];
  }

  /** Bytes, characters and booleans lie as they are. */
  lemma ByteElems(s: bytes)
    ensures EncodeElems(1, s) == s
    decreases |s|
  {
    if s == [] {
      NoElems(1);
    } else {
      OneMore(1, s[0], s[1..]);
      ByteElems(s[1..]);
      SmallLE(s[0], 0);
      assert [s[0]] + s[1..] == s;
    }
  }

  lemma NoItems()
    ensures EncodeAll([]) == [] && AllWF([])
  {
  }

  lemma OneMoreItem(v: Val, vs: seq<Val>)
    requires WF(v) && AllWF(vs)
    ensures AllWF([v] + vs) && EncodeAll([v] + vs) == Encode(v) + EncodeAll(vs)
  {
    hide Encode, WF;
    assert ([v] + vs)[1..] == vs;
  }

  lemma FourItems(a: Val, b: Val, c: Val, d: Val)
    requires WF(a) && WF(b) && WF(c) && WF(d)
    ensures AllWF([a, b, c, d]) && EncodeAll([a, b, c, d]) == Encode(a) + (Encode(b) + (Encode(c) + Encode(d)))
  {
    hide Encode, WF, EncodeAll;
    NoItems();
    OneMoreItem(d, []);
    OneMoreItem(c, [d]);
    OneMoreItem(b, [c, d]);
    OneMoreItem(a, [b, c, d]);
    assert [d] + [] == [d] && [c] + [d] == [c, d] && [b] + [c, d] == [b, c, d] && [a] + [b, c, d] == [a, b, c, d];
  }

  lemma TwoItems(a: Val, b: Val)
    requires WF(a) && WF(b)
    ensures AllWF([a, b]) && EncodeAll([a, b]) == Encode(a) + Encode(b)
  {
    hide Encode, WF, EncodeAll;
    NoItems();
    OneMoreItem(b, []);
    OneMoreItem(a, [b]);
    assert [b] + [] == [b] && [a] + [b] == [a, b];
  }

  lemma AtomIs(t: int, n: nat)
    requires FixedWidth(t) > 0 && n < Patterns(FixedWidth(t))
    ensures WF(Atom(t, n)) && Encode(Atom(t, n)) == [U8(t)] + ToLE(FixedWidth(t), n)
  {
  }

  lemma VecIs(t: int, a: byte, es: seq<nat>)
    requires ElemWidth(t) > 0 && |es| < TWO_31 && forall i :: 0 <= i < |es| ==> es[i] < Patterns(ElemWidth(t))
    ensures var v := Vec(t, a, es);
            WF(v) && Encode(v) == Header(t, a, |es|) + EncodeElems(ElemWidth(t), es)
  {
  }

  lemma ListIs(a: byte, vs: seq<Val>)
    requires AllWF(vs) && |vs| < TWO_31
    ensures WF(List(a, vs)) && Encode(List(a, vs)) == Header(LIST, a, |vs|) + EncodeAll(vs)
  {
  }

  // ---- payloads ----

  /** `("a";`b)`, sorted. */
  lemma MixedList()
    ensures var v := List(1, [Atom(-10, 97), Sym([98])]);
            WF(v) && Encode(v) == [0, 1, 2, 0, 0, 0, 246, 97, 245, 98, 0]
  {
    hide Encode, WF, EncodeAll, ToLE, Patterns;
    var a, b := Atom(-10, 97), Sym([98]);
    SymbolB();
    CharA();
    TwoItems(a, b);
    ListIs(1, [a, b]);
    HeaderBytes(LIST, 1, 2);
  }

  lemma SymbolB()
    ensures WF(Sym([98])) && Encode(Sym([98])) == [245, 98, 0]
  {
  }

  lemma CharA()
    ensures WF(Atom(-10, 97)) && Encode(Atom(-10, 97)) == [246, 97]
  {
    SmallLE(97, 0);
    assert Patterns(1) == 256;
    AtomIs(-10, 97);
  }

  /** `2024.02.29`. */
  lemma LeapDay()
    ensures WF(Atom(-14, 0x2279)) && Encode(Atom(-14, 0x2279)) == [0xf2, 0x79, 0x22, 0, 0]
  {
    hide Encode, WF;
    SmallLE(0x79, 0x22);
    Patterns4();
    AtomIs(-14, 0x2279);
  }

  /** A vector of three numbers below 256. */
  lemma ThreeOf(t: int, attr: byte, w: nat, a: byte, b: byte, c: byte, za: bytes, zb: bytes, zc: bytes)
    requires ElemWidth(t) == w > 0 && Patterns(w) > 255
    requires za == ToLE(w, a) && zb == ToLE(w, b) && zc == ToLE(w, c)
    ensures var v := Vec(t, attr, [a, b, c]);
            WF(v) && Encode(v) == [U8(t), attr, 3, 0, 0, 0] + (za + zb + zc)
  {
    hide Encode, WF, EncodeElems, ToLE, Patterns;
    ThreeElems(w, a, b, c);
    HeaderBytes(t, attr, 3);
    VecIs(t, attr, [a, b, c]);
  }

  lemma DictIs(c: int, k: Val, x: Val)
    requires IsDict(c) && WF(k) && WF(x)
    ensures WF(Dict(c, k, x)) && Encode(Dict(c, k, x)) == [U8(c)] + Encode(k) + Encode(x)
  {
  }

  /** `"abc"!1 2 3`. */
  lemma CharsToLongs()
    ensures var v := Dict(99, Vec(10, 0, [97, 98, 99]), Vec(7, 0, [1, 2, 3]));
            && WF(v)
            && Encode(v) == [0x63] + ([0x0a, 0, 3, 0, 0, 0] + ([0x61] + [0x62] + [0x63]))
                            + ([7, 0, 3, 0, 0, 0] + ([1, 0, 0, 0, 0, 0, 0, 0] + [2, 0, 0, 0, 0, 0, 0, 0]
                                                     + [3, 0, 0, 0, 0, 0, 0, 0]))
  {
    hide Encode, WF, ToLE, EncodeElems, Patterns, Header;
    PatternsAbove();
    SmallLE(97, 0);
    SmallLE(98, 0);
    SmallLE(99, 0);
    ThreeOf(10, 0, 1, 97, 98, 99, [97], [98], [99]);
    SmallLE(1, 0);
    SmallLE(2, 0);
    SmallLE(3, 0);
    ThreeOf(7, 0, 8, 1, 2, 3, [1, 0, 0, 0, 0, 0, 0, 0], [2, 0, 0, 0, 0, 0, 0, 0], [3, 0, 0, 0, 0, 0, 0, 0]);
    DictIs(99, Vec(10, 0, [97, 98, 99]), Vec(7, 0, [1, 2, 3]));
  }

  lemma PatternsAbove()
    ensures Patterns(1) == 256 && Patterns(4) > 256 && Patterns(8) > 256
  {
    Patterns4();
  }

  /** A step dictionary of integers, the keys sorted: it is read as a dictionary. */
  lemma StepDict()
    ensures var k, x := Vec(6, 1, [0, 5, 10]), Vec(6, 0, [0, 50, 100]);
            var v := Dict(127, k, x);
            && WF(v)
            && Encode(v) == [0x7f] + ([6, 1, 3, 0, 0, 0] + ([0, 0, 0, 0] + [5, 0, 0, 0] + [0x0a, 0, 0, 0]))
                            + ([6, 0, 3, 0, 0, 0] + ([0, 0, 0, 0] + [0x32, 0, 0, 0] + [0x64, 0, 0, 0]))
            && Value(Whole(v)) == Some(Dict(99, k, x))
  {
    hide Encode, WF, ToLE, EncodeElems, Patterns, Header, Value, Whole;
    var k, x := Vec(6, 1, [0, 5, 10]), Vec(6, 0, [0, 50, 100]);
    PatternsAbove();
    SmallLE(0, 0);
    SmallLE(5, 0);
    SmallLE(10, 0);
    ThreeOf(6, 1, 4, 0, 5, 10, [0, 0, 0, 0], [5, 0, 0, 0], [10, 0, 0, 0]);
    SmallLE(50, 0);
    SmallLE(100, 0);
    ThreeOf(6, 0, 4, 0, 50, 100, [0, 0, 0, 0], [50, 0, 0, 0], [100, 0, 0, 0]);
    DictIs(127, k, x);
    ValueOfWhole(Dict(127, k, x));
  }

  /** So are all step dictionaries: whole, or in any pieces, which end in the object of a dictionary; and their length
      is found without reading them. */
  lemma StepDictsAreRead(k: Val, x: Val, s: bytes)
    requires WF(k) && WF(x) && [127] + Encode(k) + Encode(x) <= s
    ensures var v, n := Dict(127, k, x), 1 + |Encode(k)| + |Encode(x)|;
            && WF(v) && Encode(v) == [127] + Encode(k) + Encode(x)
            && DecodeVal(s) == Decoded(v, n)
            && Whole(v) == Whole(Dict(99, k, x)) == PDict(Some(Whole(k)), Some(Whole(x)))
            && (n < TWO_31 && Scannable(k) && Scannable(x) ==> PayloadLen(s) == Code(n))
  {
    hide Encode, WF, DecodeVal, PayloadLen, After, BodySz;
    var v := Dict(127, k, x);
    DictIs(127, k, x);
    DictIs(99, k, x);
    RoundTrip(v, s);
    WholeShape(v);
    WholeShape(Dict(99, k, x));
    if |Encode(v)| < TWO_31 && Scannable(k) && Scannable(x) {
      LengthIffScannable(v, s);
    }
  }

  /** The function `{x+y}`. */
  lemma PlusFunction()
    ensures var v := Func([123, 120, 43, 121, 125]);
            WF(v) && Encode(v) == [0x64, 0, 0x0a, 0, 5, 0, 0, 0, 0x7b, 0x78, 0x2b, 0x79, 0x7d]
  {
    HeaderBytes(10, 0, 5);
  }

  /** An error. */
  lemma Failed()
    ensures var v := Exception([102, 97, 105, 108, 101, 100]);
            WF(v) && Encode(v) == [0x80, 0x66, 0x61, 0x69, 0x6c, 0x65, 0x64, 0]
  {
  }

  lemma SumFunction()
    ensures var v := Func([123, 120, 43, 121, 43, 122, 125]);
            WF(v) && Encode(v) == [0x64, 0, 0x0a, 0, 7, 0, 0, 0, 0x7b, 0x78, 0x2b, 0x79, 0x2b, 0x7a, 0x7d]
  {
    HeaderBytes(10, 0, 7);
  }

  lemma SmallLong(n: byte)
    ensures WF(Atom(-7, n)) && Encode(Atom(-7, n)) == [0xf9, n, 0, 0, 0, 0, 0, 0, 0]
  {
    hide WF, Encode;
    PatternsAbove();
    SmallLE(n, 0);
    AtomIs(-7, n);
  }

  lemma Elided()
    ensures WF(Atom(101, 255)) && Encode(Atom(101, 255)) == [0x65, 0xff]
  {
    hide WF, Encode;
    PatternsAbove();
    SmallLE(255, 0);
    AtomIs(101, 255);
  }

  lemma ProjIs(vs: seq<Val>)
    requires AllWF(vs) && |vs| < TWO_31
    ensures WF(Proj(vs)) && Encode(Proj(vs)) == [0x68] + ToLE(4, |vs|) + EncodeAll(vs)
  {
  }

  /** `{x+y+z}[1;;2]`, the second argument left out. */
  lemma Projected()
    ensures var v := Proj([Func([123, 120, 43, 121, 43, 122, 125]), Atom(-7, 1), Atom(101, 255), Atom(-7, 2)]);
            && WF(v)
            && Encode(v) == [0x68] + [4, 0, 0, 0]
                            + ([0x64, 0, 0x0a, 0, 7, 0, 0, 0, 0x7b, 0x78, 0x2b, 0x79, 0x2b, 0x7a, 0x7d]
                               + ([0xf9, 1, 0, 0, 0, 0, 0, 0, 0] + ([0x65, 0xff] + [0xf9, 2, 0, 0, 0, 0, 0, 0, 0])))
  {
    hide Encode, WF, EncodeAll, ToLE;
    SmallLE(4, 0);
    var f, a, b, c := Func([123, 120, 43, 121, 43, 122, 125]), Atom(-7, 1), Atom(101, 255), Atom(-7, 2);
    SumFunction();
    SmallLong(1);
    Elided();
    SmallLong(2);
    FourItems(f, a, b, c);
    ProjIs([f, a, b, c]);
  }

  lemma EmptyVec(t: int, w: nat)
    requires ElemWidth(t) == w > 0
    ensures WF(Vec(t, 0, [])) && Encode(Vec(t, 0, [])) == [U8(t), 0, 0, 0, 0, 0]
  {
    hide Encode, WF, EncodeElems;
    NoElems(w);
    HeaderBytes(t, 0, 0);
    VecIs(t, 0, []);
  }

  lemma EmptySyms()
    ensures WF(SymVec(0, [])) && Encode(SymVec(0, [])) == [0x0b, 0, 0, 0, 0, 0]
  {
    HeaderBytes(11, 0, 0);
  }

  const TIME: bytes := [0x74, 0x69, 0x6d, 0x65]
  const SYM: bytes := [0x73, 0x79, 0x6d]
  const PRICE: bytes := [0x70, 0x72, 0x69, 0x63, 0x65]
  const SIZE: bytes := [0x73, 0x69, 0x7a, 0x65]

  lemma NoSymbols()
    ensures EncodeSyms([]) == [] && NoNuls([])
  {
  }

  lemma OneMoreSym(s: bytes, ss: seq<bytes>)
    requires NoNul(s) && NoNuls(ss)
    ensures NoNuls([s] + ss) && EncodeSyms([s] + ss) == s + [0] + EncodeSyms(ss)
  {
    hide NoNul;
    assert ([s] + ss)[1..] == ss;
  }

  lemma FourNames()
    ensures var v := SymVec(0, [TIME, SYM, PRICE, SIZE]);
            && WF(v)
            && Encode(v) == [0x0b, 0, 4, 0, 0, 0]
                            + ([0x74, 0x69, 0x6d, 0x65] + [0] + ([0x73, 0x79, 0x6d] + [0]
                               + ([0x70, 0x72, 0x69, 0x63, 0x65] + [0] + ([0x73, 0x69, 0x7a, 0x65] + [0] + []))))
  {
    hide EncodeSyms, NoNuls, Encode, WF, Header;
    assert [SIZE] + [] == [SIZE] && [PRICE] + [SIZE] == [PRICE, SIZE] && [SYM] + [PRICE, SIZE] == [SYM, PRICE, SIZE];
    assert [TIME] + [SYM, PRICE, SIZE] == [TIME, SYM, PRICE, SIZE];
    NoSymbols();
    OneMoreSym(SIZE, []);
    OneMoreSym(PRICE, [SIZE]);
    OneMoreSym(SYM, [PRICE, SIZE]);
    OneMoreSym(TIME, [SYM, PRICE, SIZE]);
    HeaderBytes(11, 0, 4);
    SymVecIs([TIME, SYM, PRICE, SIZE]);
  }

  lemma SymVecIs(ss: seq<bytes>)
    requires NoNuls(ss) && |ss| < TWO_31
    ensures WF(SymVec(0, ss)) && Encode(SymVec(0, ss)) == Header(SYMBOL_VECTOR, 0, |ss|) + EncodeSyms(ss)
  {
  }

  lemma TableIs(c: Val, r: Val)
    requires c.SymVec? && r.List? && WF(c) && WF(r)
    ensures WF(Table(c, r)) && Encode(Table(c, r)) == [0x62, 0, 0x63] + Encode(c) + Encode(r)
  {
  }

  /** A table with the columns time, sym, price and size, and no rows. */
  lemma EmptyTable()
    ensures var v := Table(SymVec(0, [TIME, SYM, PRICE, SIZE]),
                           List(0, [Vec(19, 0, []), SymVec(0, []), Vec(9, 0, []), Vec(7, 0, [])]));
            && WF(v)
            && Encode(v) == [0x62, 0, 0x63]
                            + ([0x0b, 0, 4, 0, 0, 0]
                               + ([0x74, 0x69, 0x6d, 0x65] + [0] + ([0x73, 0x79, 0x6d] + [0]
                                  + ([0x70, 0x72, 0x69, 0x63, 0x65] + [0] + ([0x73, 0x69, 0x7a, 0x65] + [0] + [])))))
                            + ([0, 0, 4, 0, 0, 0]
                               + ([0x13, 0, 0, 0, 0, 0]
                                  + ([0x0b, 0, 0, 0, 0, 0] + ([9, 0, 0, 0, 0, 0] + [7, 0, 0, 0, 0, 0]))))
  {
    hide Encode, WF, EncodeAll, Header;
    var w, x, y, z := Vec(19, 0, []), SymVec(0, []), Vec(9, 0, []), Vec(7, 0, []);
    EmptyVec(19, 4);
    EmptySyms();
    EmptyVec(9, 8);
    EmptyVec(7, 8);
    FourItems(w, x, y, z);
    HeaderBytes(0, 0, 4);
    ListIs(0, [w, x, y, z]);
    FourNames();
    TableIs(SymVec(0, [TIME, SYM, PRICE, SIZE]), List(0, [w, x, y, z]));
  }

  // ---- frames ----

  /** A request for which the peer owes a response: the type is the second byte. */
  lemma SyncTrue()
    ensures WF(Atom(-1, 1)) && Message(1, Atom(-1, 1)) == [1, 1, 0, 0, 10, 0, 0, 0] + [255, 1]
  {
    SmallLE(10, 0);
    SmallLE(1, 0);
    PatternsAbove();
    AtomIs(-1, 1);
  }

  /** The writer puts out those ten bytes. */
  method WriteSyncTrue() returns (out: bytes)
    ensures out == [1, 1, 0, 0, 10, 0, 0, 0] + [255, 1]
  {
    hide Message, MsgUnits, Greedy, Drop;
    SyncTrue();
    var writer := new KdbIpcMessageWriter(1, Atom(-1, 1));
    var dst := new byte[100];
    TrueUnits();
    var wr := writer.Write(dst);
    out := dst[..10];
    assert Message(1, Atom(-1, 1))[0..10] == Message(1, Atom(-1, 1));
  }

  lemma TrueUnits()
    ensures MsgLen(Atom(-1, 1)) == 10 && Greedy(Drop(MsgUnits(Atom(-1, 1)), 0), 100) == 10
  {
    var us := MsgUnits(Atom(-1, 1));
    assert us == [8, 2] && us[1..] == [2] && [2][1..] == [];
    assert Greedy([2], 92) == 2 + Greedy([], 90);
  }

  const HELLO: bytes := [72, 101, 108, 108, 111, 44, 32, 119, 111, 114, 108, 100, 33]

  /** `-8!"Hello, world!"`, which is of type 0, and the same as a request or a response. */
  lemma Hello(kind: byte)
    ensures var v := Vec(10, 0, HELLO);
            WF(v) && Message(kind, v) == [1, kind, 0, 0, 0x1b, 0, 0, 0] + ([0x0a, 0, 0x0d, 0, 0, 0] + HELLO)
  {
    hide Encode, WF, EncodeElems, Header;
    SmallLE(0x1b, 0);
    PatternsAbove();
    HeaderBytes(10, 0, 13);
    ByteElems(HELLO);
    VecIs(10, 0, HELLO);
  }

  /** The reader makes the vector of it, and knows the message type. */
  method ReadHello(kind: byte) returns (complete: bool, res: ReadMsgResult, typ: byte)
    ensures complete && res.message == Some(PVec(10, 0, 13, HELLO)) && typ == kind
  {
    hide Message, FrameUnits, Greedy, Drop, Agrees;
    HelloFrame(kind);
    ghost var v := Vec(10, 0, HELLO);
    var src: bytes := [1, kind, 0, 0, 0x1b, 0, 0, 0] + ([0x0a, 0, 0x0d, 0, 0, 0] + HELLO);
    var reader := new KdbIpcMessageReader();
    reader.StillFresh(v, []);
    complete, res := reader.ReadMsg(src, kind, v, []);
    typ := reader.msgTyp;
  }

  lemma HelloFrame(kind: byte)
    ensures var v := Vec(10, 0, HELLO);
            var src: bytes := [1, kind, 0, 0, 0x1b, 0, 0, 0] + ([0x0a, 0, 0x0d, 0, 0, 0] + HELLO);
            && WF(v) && Message(kind, v) == src && Offers(src, Message(kind, v), 0)
            && src[2] == 0 && MsgLen(v) == |src| == 27
            && Greedy(Drop(FrameUnits(v), 0), |src|) == 27
            && Whole(v) == PVec(10, 0, 13, HELLO)
  {
    hide Encode, WF, WireSz, Greedy, Drop;
    var v := Vec(10, 0, HELLO);
    Hello(kind);
    assert Message(kind, v)[0..] == Message(kind, v);
    AllAtOnce(v);
    WholeShape(v);
  }

  lemma AllAtOnce(v: Val)
    requires WF(v)
    ensures Greedy(Drop(FrameUnits(v), 0), MsgLen(v)) == MsgLen(v)
  {
    hide Encode, WF, WireSz, RUnits, Sum, Positive, Greedy, Drop;
    var us, n := FrameUnits(v), MsgLen(v);
    RUnitsSum(v);
    WireSzIsLength(v);
    SumHead(SZ_MSG_HDR, RUnits(v));
    BoundaryAtSum(us);
    GreedyIsLargestBoundary(us, n, n);
    GreedyBounds(us, n);
    PastNone(us);
  }

  lemma PastNone(us: seq<nat>)
    ensures Drop(us, 0) == us
  {
  }

  // ---- compressed payloads ----

  lemma HashValues()
    ensures Lz.Hash(1, 3) == 2 && Lz.Hash(3, 2) == 1
  {
    Lz.XorSame(0, 6);
    assert Lz.Xor(0, 1, 7) == 1 + 2 * Lz.Xor(0, 0, 6);
    assert Lz.Xor(1, 3, 8) == 0 + 2 * Lz.Xor(0, 1, 7);
    Lz.XorSame(1, 7);
    assert Lz.Xor(3, 2, 8) == 1 + 2 * Lz.Xor(1, 1, 7);
  }

  /** Frames that the tests build from small messages: `1b`, uncompressed under a control byte of 0. */
  lemma CompressedTrue()
    ensures var toks := [Lz.Lit(255), Lz.Lit(1)];
            && WFPacked(Atom(-1, 1), toks)
            && Packed(0, Atom(-1, 1), toks) == [1, 0, 1, 0] + [0x0f, 0, 0, 0] + [0x0a, 0, 0, 0] + [0, 255, 1]
  {
    hide Encode, WF, WireSz, Lz.Run, Lz.Pack, ToLE;
    SmallLE(0x0f, 0);
    SmallLE(0x0a, 0);
    SmallLE(1, 0);
    PatternsAbove();
    AtomIs(-1, 1);
    WireSzIsLength(Atom(-1, 1));
    TwoLiterals();
  }

  lemma TwoLiterals()
    ensures var toks := [Lz.Lit(255), Lz.Lit(1)];
            && Lz.Pack(toks) == [0, 255, 1]
            && Lz.Run(Lz.INIT, toks).Some? && Lz.Run(Lz.INIT, toks).value.out == [255, 1]
  {
    var toks := [Lz.Lit(255), Lz.Lit(1)];
    var rest := [Lz.Lit(1)];
    assert toks[1..] == rest && rest[1..] == [];
    assert Lz.TokensBytes(rest) == [1] + Lz.TokensBytes([]);
    assert Lz.TokensBytes(toks) == [255] + Lz.TokensBytes(rest);
    assert Lz.Control(rest) == 0 && Lz.Control(toks) == 0;
    assert Lz.Pack([]) == [];
    assert Lz.Run(Lz.INIT, toks) == Lz.Run(Lz.Step(Lz.INIT, toks[0]).value, rest);
  }

  lemma {:induction false} LiteralsControl(s: bytes)
    ensures Lz.Control(Literals(s)) == 0
    decreases |s|
  {
    if s != [] {
      assert Literals(s)[1..] == Literals(s[1..]);
      LiteralsControl(s[1..]);
    }
  }

  lemma RunStep(st: Lz.State, t: Lz.Token, ts: seq<Lz.Token>)
    requires st.Valid()
    ensures var r := Lz.Step(st, t);
            Lz.Run(st, [t] + ts) == if r.None? then None else Lz.Run(r.value, ts)
  {
    assert ([t] + ts)[1..] == ts;
  }

  /** A literal that makes no new pair. */
  lemma LoneLiteral(out: bytes, marks: seq<nat>, b: byte)
    requires forall i :: 0 <= i < |marks| ==> marks[i] + 1 < |out|
    ensures var st := Lz.State(out, marks, |out|);
            st.Valid() && Lz.Step(st, Lz.Lit(b)) == Some(Lz.State(out + [b], marks, |out|))
  {
    var st := Lz.State(out + [b], marks, |out|);
    assert Lz.Noted(st) == st;
  }

  lemma RunNone(st: Lz.State)
    requires st.Valid()
    ensures Lz.Run(st, Literals([])) == Some(st)
  {
  }

  function Upto(n: nat): seq<nat> {
    seq(n, i requires 0 <= i < n => i)
  }

  lemma UptoNone()
    ensures Upto(0) == []
  {
  }

  /** After literals every pair but the last byte's has been noted, in order. */
  lemma LiteralNoted(out: bytes, b: byte)
    requires out != []
    ensures var st := Lz.State(out, Upto(|out| - 1), |out| - 1);
            && st.Valid()
            && Lz.Step(st, Lz.Lit(b)) == Some(Lz.State(out + [b], Upto(|out|), |out|))
  {
    var n := |out|;
    assert Upto(n - 1) + [n - 1] == Upto(n);
    var st := Lz.State(out + [b], Upto(n - 1), n - 1);
    assert Lz.Noted(st) == Lz.Noted(Lz.State(out + [b], Upto(n), n));
  }

  lemma {:induction false} LiteralsNoted(out: bytes, s: bytes)
    requires out != []
    ensures var st := Lz.State(out, Upto(|out| - 1), |out| - 1);
            st.Valid() && Lz.Run(st, Literals(s)) == Some(Lz.State(out + s, Upto(|out + s| - 1), |out + s| - 1))
    decreases |s|
  {
    hide Lz.Step, Lz.Run, Lz.Noted;
    var st := Lz.State(out, Upto(|out| - 1), |out| - 1);
    if s == [] {
      assert out + s == out && st.Valid();
      RunNone(st);
    } else {
      LiteralNoted(out, s[0]);
      RunStep(st, Lz.Lit(s[0]), Literals(s[1..]));
      LiteralsNoted(out + [s[0]], s[1..]);
      assert out + [s[0]] + s[1..] == out + s;
    }
  }

  lemma AllNoted(s: bytes)
    requires s != []
    ensures Lz.Run(Lz.INIT, Literals(s)) == Some(Lz.State(s, Upto(|s| - 1), |s| - 1))
  {
    hide Lz.Run, Lz.Step, Upto;
    assert Literals(s) == [Lz.Lit(s[0])] + Literals(s[1..]);
    RunStep(Lz.INIT, Lz.Lit(s[0]), Literals(s[1..]));
    UptoNone();
    LoneLiteral([], [], s[0]);
    assert [] + [s[0]] == [s[0]];
    LiteralsNoted([s[0]], s[1..]);
    assert [s[0]] + s[1..] == s;
  }

  lemma LiteralsConcat(a: bytes, b: bytes)
    ensures Literals(a + b) == Literals(a) + Literals(b)
  {
  }

  const EIGHT: bytes := [4, 0, 6, 0, 0, 0, 2, 0]
  const TEN: bytes := EIGHT + [1, 3]

  /** The reference finds the pair noted last, at position 8. */
  lemma ReferenceTwo()
    ensures var st := Lz.State(TEN, Upto(9), 9);
            st.Valid() && Lz.Step(st, Lz.Ref(2, 0)).Some? && Lz.Step(st, Lz.Ref(2, 0)).value.out == TEN + [1, 3]
  {
    HashValues();
    hide Lz.Hash, Lz.Noted;
    var st := Lz.State(TEN, Upto(9), 9);
    assert st.marks[|st.marks| - 1] == 8;
    assert Lz.Lookup(TEN, Upto(9), 2) == Some(8);
    assert Lz.CopyRun(TEN + [1, 3], 10, 0) == TEN + [1, 3];
  }

  /** A byte vector in ten literals and a reference: bit 2 of the second control byte is set for the third token of its
      block, and the pair is the last one noted under 1 xor 3. */
  lemma PackedVector()
    ensures var toks := Literals(TEN) + [Lz.Ref(2, 0)];
            && Lz.Pack(toks) == [0] + [4, 0, 6, 0, 0, 0, 2, 0] + [4, 1, 3, 2, 0]
            && Lz.Run(Lz.INIT, toks).Some?
            && Lz.Run(Lz.INIT, toks).value.out == [4, 0, 6, 0, 0, 0, 2, 0, 1, 3] + [1, 3]
  {
    hide Lz.Run, Lz.Step, Lz.Pack;
    var toks := Literals(TEN) + [Lz.Ref(2, 0)];
    AllNoted(TEN);
    ReferenceTwo();
    Lz.RunConcat(Lz.INIT, Literals(TEN), [Lz.Ref(2, 0)]);
    OneToken(Lz.State(TEN, Upto(9), 9), Lz.Ref(2, 0));
    TenPacked();
  }

  lemma OneToken(st: Lz.State, t: Lz.Token)
    requires st.Valid()
    ensures Lz.Run(st, [t]) == Lz.Step(st, t)
  {
    RunStep(st, t, []);
    assert [t] + [] == [t];
  }

  /** A full block of literals, and a last block. */
  lemma TwoBlocks(a: bytes, b: seq<Lz.Token>)
    requires |a| == 8 && 0 < |b| <= 8
    ensures Lz.Pack(Literals(a) + b) == [0] + a + Lz.Block(b)
  {
    hide Lz.TokensBytes, Lz.Control;
    var toks := Literals(a) + b;
    assert Lz.First(toks) == Literals(a) && Lz.Later(toks) == b;
    LiteralsControl(a);
    LiteralsBytes(a);
    assert Lz.Pack([]) == [];
    assert Lz.Pack(b) == Lz.Block(b) + [];
  }

  lemma TenPacked()
    ensures Lz.Pack(Literals(TEN) + [Lz.Ref(2, 0)]) == [0] + [4, 0, 6, 0, 0, 0, 2, 0] + [4, 1, 3, 2, 0]
  {
    hide Lz.Pack, Lz.TokensBytes, Lz.Control, Literals;
    var b := [Lz.Lit(1), Lz.Lit(3), Lz.Ref(2, 0)];
    LastThree();
    TwoBlocks(EIGHT, b);
    LiteralsConcat(EIGHT, [1, 3]);
    assert Literals([1, 3]) + [Lz.Ref(2, 0)] == b;
    assert Literals(TEN) + [Lz.Ref(2, 0)] == Literals(EIGHT) + (Literals([1, 3]) + [Lz.Ref(2, 0)]);
  }

  lemma LastThree()
    ensures var b := [Lz.Lit(1), Lz.Lit(3), Lz.Ref(2, 0)];
            Lz.Control(b) == 4 && Lz.TokensBytes(b) == [1, 3, 2, 0]
  {
    var b := [Lz.Lit(1), Lz.Lit(3), Lz.Ref(2, 0)];
    var c, d := [Lz.Lit(3), Lz.Ref(2, 0)], [Lz.Ref(2, 0)];
    assert b[1..] == c && c[1..] == d && d[1..] == [];
    assert Lz.Control(d) == 1 + 2 * Lz.Control([]) == 1;
    assert Lz.Control(c) == 2;
    assert Lz.TokensBytes(d) == [2, 0] + Lz.TokensBytes([]);
    assert Lz.TokensBytes(c) == [3] + Lz.TokensBytes(d);
  }

  /** After a reference its two bytes are noted, not what is copied after them: the second reference goes back to the
      first of them, not to the byte before the literal. */
  lemma RepeatedPair()
    ensures var toks := [Lz.Lit(3), Lz.Lit(2), Lz.Ref(1, 2), Lz.Lit(3), Lz.Ref(1, 2)];
            && Lz.Pack(toks) == [20, 3, 2, 1, 2, 3, 1, 2]
            && Lz.Run(Lz.INIT, toks).Some?
            && Lz.Run(Lz.INIT, toks).value.out == [3, 2] + [3, 2, 3, 2] + [3] + [3, 2, 3, 2]
  {
    hide Lz.Run, Lz.Step, Lz.Pack;
    var t1, t2, t3, t4 := Lz.Lit(2), Lz.Ref(1, 2), Lz.Lit(3), Lz.Ref(1, 2);
    FirstPair();
    BackToFirst();
    BackToCopy();
    RunStep(Lz.INIT, Lz.Lit(3), [t1, t2, t3, t4]);
    RunStep(Lz.State([3], [], 0), t1, [t2, t3, t4]);
    RunStep(Lz.State([3, 2], [0], 1), t2, [t3, t4]);
    RunStep(Lz.State([3, 2, 3, 2, 3, 2], [0, 1, 2], 6), t3, [t4]);
    OneToken(Lz.State([3, 2, 3, 2, 3, 2, 3], [0, 1, 2], 6), t4);
    assert [Lz.Lit(3)] + [t1, t2, t3, t4] == [Lz.Lit(3), t1, t2, t3, t4] && [t1] + [t2, t3, t4] == [t1, t2, t3, t4];
    assert [t2] + [t3, t4] == [t2, t3, t4] && [t3] + [t4] == [t3, t4];
    FivePacked();
  }

  lemma FirstPair()
    ensures Lz.Step(Lz.INIT, Lz.Lit(3)) == Some(Lz.State([3], [], 0))
    ensures Lz.Step(Lz.State([3], [], 0), Lz.Lit(2)) == Some(Lz.State([3, 2], [0], 1))
  {
    LoneLiteral([], [], 3);
    assert [] + [3] == [3];
    LiteralNoted([3], 2);
    assert Upto(0) == [] && Upto(1) == [0] && [3] + [2] == [3, 2];
  }

  lemma BackToFirst()
    ensures Lz.Step(Lz.State([3, 2], [0], 1), Lz.Ref(1, 2)) == Some(Lz.State([3, 2, 3, 2, 3, 2], [0, 1, 2], 6))
    ensures Lz.Step(Lz.State([3, 2, 3, 2, 3, 2], [0, 1, 2], 6), Lz.Lit(3))
         == Some(Lz.State([3, 2, 3, 2, 3, 2, 3], [0, 1, 2], 6))
  {
    HashValues();
    LoneLiteral([3, 2, 3, 2, 3, 2], [0, 1, 2], 3);
    assert [3, 2, 3, 2, 3, 2] + [3] == [3, 2, 3, 2, 3, 2, 3];
    hide Lz.Hash;
    var two: bytes := [3, 2, 3, 2];
    assert [3, 2] + [3, 2] == two;
    assert Lz.Lookup([3, 2], [0], 1) == Some(0);
    assert Lz.CopyRun(two + [3] + [2], 4, 0) == two + [3] + [2];
    assert Lz.CopyRun(two + [3], 3, 1) == two + [3] + [2];
    assert Lz.CopyRun(two, 2, 2) == two + [3] + [2] == [3, 2, 3, 2, 3, 2];
    assert Lz.Noted(Lz.State(two, [0, 1, 2], 3)) == Lz.State(two, [0, 1, 2], 3);
    assert [0] + [1] == [0, 1] && [0, 1] + [2] == [0, 1, 2];
    assert Lz.Noted(Lz.State(two, [0, 1], 2)) == Lz.State(two, [0, 1, 2], 3);
    assert Lz.Noted(Lz.State(two, [0], 1)) == Lz.State(two, [0, 1, 2], 3);
  }

  lemma BackToCopy()
    ensures var st := Lz.State([3, 2, 3, 2, 3, 2, 3], [0, 1, 2], 6);
            && st.Valid() && Lz.Step(st, Lz.Ref(1, 2)).Some?
            && Lz.Step(st, Lz.Ref(1, 2)).value.out == [3, 2] + [3, 2, 3, 2] + [3] + [3, 2, 3, 2]
  {
    HashValues();
    hide Lz.Hash, Lz.Noted;
    var out: bytes := [3, 2, 3, 2, 3, 2, 3];
    var two := out + [3, 2];
    assert Lz.Lookup(out, [0, 1, 2], 1) == Some(2);
    assert Lz.CopyRun(two + [3] + [2], 6, 0) == two + [3] + [2];
    assert Lz.CopyRun(two + [3], 5, 1) == two + [3] + [2];
    assert Lz.CopyRun(two, 4, 2) == two + [3] + [2];
    assert two + [3] + [2] == [3, 2] + [3, 2, 3, 2] + [3] + [3, 2, 3, 2];
  }

  lemma FivePacked()
    ensures Lz.Pack([Lz.Lit(3), Lz.Lit(2), Lz.Ref(1, 2), Lz.Lit(3), Lz.Ref(1, 2)]) == [20, 3, 2, 1, 2, 3, 1, 2]
  {
    var a := [Lz.Lit(3), Lz.Lit(2), Lz.Ref(1, 2), Lz.Lit(3), Lz.Ref(1, 2)];
    var b, c, d, e := a[1..], a[2..], a[3..], a[4..];
    assert b[1..] == c && c[1..] == d && d[1..] == e && e[1..] == [];
    assert Lz.Control([]) == 0 && Lz.Control(e) == 1 && Lz.Control(d) == 2 && Lz.Control(c) == 5 && Lz.Control(b) == 10;
    assert Lz.TokensBytes(e) == [1, 2] + [] && Lz.TokensBytes(d) == [3] + [1, 2];
    assert Lz.TokensBytes(c) == [1, 2] + [3, 1, 2] && Lz.TokensBytes(b) == [2] + [1, 2, 3, 1, 2];
    assert Lz.Pack([]) == [];
    assert Lz.Pack(a) == Lz.Block(a) + [];
  }
}
