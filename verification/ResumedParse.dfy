/** A compressed atom that arrives in two pieces is read wrong. */
module ResumedParse {
  import opened Bytes
  import opened KdbValue
  import opened Cursors
  import opened Partial
  import opened Units
  import opened MessageWriter
  import opened MessageReader
  import Lz

  /** A payload that refers back to nothing. */
  function Literals(s: bytes): (ts: seq<Lz.Token>)
    ensures |ts| == |s| && forall i :: 0 <= i < |s| ==> ts[i] == Lz.Lit(s[i])
  {
    if s == [] then [] else [Lz.Lit(s[0])] + Literals(s[1..])
  }

  lemma {:induction false} LiteralsDecode(st: Lz.State, s: bytes)
    requires st.Valid()
    ensures Lz.Run(st, Literals(s)).Some? && Lz.Run(st, Literals(s)).value.out == st.out + s
    decreases |s|
  {
    hide Lz.Noted;
    if s != [] {
      var next := Lz.Step(st, Lz.Lit(s[0])).value;
      assert Literals(s)[1..] == Literals(s[1..]);
      LiteralsDecode(next, s[1..]);
      assert st.out + [s[0]] + s[1..] == st.out + s;
    }
  }

  lemma {:induction false} LiteralsBytes(s: bytes)
    ensures Lz.TokensBytes(Literals(s)) == s
  {
    if s != [] {
      assert Literals(s)[1..] == Literals(s[1..]);
      LiteralsBytes(s[1..]);
    }
  }

  /** Nine literals: a block of eight, and one of one. */
  lemma NineLiterals(s: bytes)
    requires |s| == 9
    ensures Lz.BlockLens(Literals(s)) == [9, 2] && |Lz.Pack(Literals(s))| == 11
  {
    hide Lz.Control;
    var ts := Literals(s);
    assert Lz.First(ts) == Literals(s[..8]);
    assert Lz.Later(ts) == Literals(s[8..]);
    LiteralsBytes(s[..8]);
    LiteralsBytes(s[8..]);
    assert Lz.First(Lz.Later(ts)) == Lz.Later(ts) && Lz.Later(Lz.Later(ts)) == [];
    assert Lz.BlockLens([]) == [];
    Lz.BlockLensSum(ts);
    assert Sum([9, 2]) == 9 + Sum([2]) == 11 by {
      assert [9, 2][1..] == [2] && [2][1..] == [];
    }
  }

  /** The frame of an atom of eight bytes sent without compressing anything: 21 bytes up to the end of the first block,
      and 2 more. */
  lemma AtomFrame(v: Val)
    requires WF(v) && v.Atom? && FixedWidth(v.typ) == 8
    ensures var toks := Literals(Encode(v));
            && WFPacked(v, toks) && PackedLen(toks) == 23 && PackedUnits(toks) == [12, 9, 2] && HeadSz(v) == 1
  {
    hide ToLE, Lz.Run, Lz.Pack, Lz.BlockLens, Patterns;
    var e := Encode(v);
    NineLiterals(e);
    LiteralsDecode(Lz.INIT, e);
    assert Lz.INIT.out + e == e;
  }

  lemma BlockByBlock()
    ensures Greedy(Drop([12, 9, 2], 0), 21) == 21 && Greedy(Drop([12, 9, 2], 21), 2) == 2
  {
    assert [12, 9, 2][1..] == [9, 2] && [9, 2][1..] == [2] && [2][1..] == [];
    assert Greedy([2], 0) == 0;
    assert Greedy([9, 2], 9) == 9;
    assert Drop([9, 2], 9) == Drop([2], 0) == [2];
    assert Drop([12, 9, 2], 21) == Drop([9, 2], 9);
    assert Greedy([2], 2) == 2 + Greedy([], 0);
  }

  lemma Pieces(frame: bytes)
    requires |frame| == 23
    ensures Offers(frame[..21], frame, 0) && Offers(frame[21..], frame, 21) && Agrees(frame[..21], frame)
  {
    assert frame[0..] == frame;
  }

  /** An atom of eight bytes in two blocks, offered block by block: the second call takes the type byte for the first
      byte of the value, and reports a complete message. */
  method AtomInTwoCalls(kind: byte, v: Val) returns (first: bool, second: bool, res: ReadMsgResult)
    requires WF(v) && v.Atom? && FixedWidth(v.typ) == 8
    ensures !first && second && res.message == Some(Shifted(v))
  {
    hide Encode, FixedWidth, Packed, PackedUnits, Boundary, WFPacked, Offers, Agrees, Shifted, HeadSz, Greedy, Drop;
    hide KdbIpcMessageReader.InBlocks, KdbIpcMessageReader.Within, KdbIpcMessageReader.Parsed, PackedLen;
    hide KdbIpcMessageReader.Resumable;
    var toks := Literals(Encode(v));
    AtomFrame(v);
    BlockByBlock();
    var frame := Packed(kind, v, toks);
    Pieces(frame);
    var reader := new KdbIpcMessageReader();
    var r;
    first, r := reader.ReadMsg(frame[..21], kind, v, toks);
    AfterFirst(reader, v, toks);
    reader.CanGoOn(kind, v, toks, frame[21..]);
    second, res := reader.ReadMsg(frame[21..], kind, v, toks);
  }

  lemma AfterFirst(reader: KdbIpcMessageReader, v: Val, toks: seq<Lz.Token>)
    requires HeadSz(v) == 1 && reader.bytUsd == 21
    requires reader.inflater == null || reader.inflater.off < 1 ==> reader.WithinPacked(v, toks)
    requires reader.inflater != null && 0 < reader.inflater.off ==> reader.WithinAtom(v, toks)
    ensures reader.WithinAtom(v, toks) && reader.ipcLen != 0
  {
    hide WFPacked, PackedUnits, Boundary, Lz.Pack, Lz.Run, Lz.BlockLens, KdbIpcMessageReader.InBlocks;
    if reader.inflater == null || reader.inflater.off < 1 {
      HasInflater(reader, v, toks);
      reader.SomeOutput(v, toks);
    } else {
      HasInflater(reader, v, toks);
    }
  }

  lemma HasInflater(reader: KdbIpcMessageReader, v: Val, toks: seq<Lz.Token>)
    requires reader.InBlocks(v, toks)
    ensures reader.inflater != null && reader.ipcLen != 0
  {
  }

  /** The long 1 is read as 505. */
  method OneInTwoCalls(kind: byte) returns (second: bool, res: ReadMsgResult)
    ensures second && res.message == Some(PAtom(LONG_ATOM, 505)) != Some(Whole(Atom(LONG_ATOM, 1)))
  {
    hide Shifted;
    OneShifted();
    var first;
    first, second, res := AtomInTwoCalls(kind, Atom(LONG_ATOM, 1));
  }

  lemma OneShifted()
    ensures WF(Atom(LONG_ATOM, 1)) && Shifted(Atom(LONG_ATOM, 1)) == PAtom(LONG_ATOM, 505)
  {
    assert FixedWidth(LONG_ATOM) == 8;
    Zeros(7);
    assert ToLE(8, 1) == [1, 0, 0, 0, 0, 0, 0, 0] by {
      assert ToLE(8, 1) == [1] + ToLE(7, 0);
    }
    var z: bytes := [249, 1, 0, 0, 0, 0, 0, 0];
    assert [U8(LONG_ATOM)] + ToLE(8, 1)[..7] == z;
    assert z[1..] == [1, 0, 0, 0, 0, 0, 0] && z[1..][1..] == [0, 0, 0, 0, 0, 0] == ToLE(6, 0);
    FromToLE(6, 0);
    assert FromLE(z[1..]) == 1 + 256 * FromLE(ToLE(6, 0));
  }

  lemma Zeros(k: nat)
    requires k == 7
    ensures ToLE(k, 0) == [0, 0, 0, 0, 0, 0, 0] && ToLE(6, 0) == [0, 0, 0, 0, 0, 0]
    ensures 0 < Patterns(6)
  {
    assert ToLE(0, 0) == [];
    assert ToLE(1, 0) == [0];
    assert ToLE(2, 0) == [0, 0];
    assert ToLE(3, 0) == [0, 0, 0];
    assert ToLE(4, 0) == [0, 0, 0, 0];
    assert ToLE(5, 0) == [0, 0, 0, 0, 0];
    assert ToLE(6, 0) == [0, 0, 0, 0, 0, 0];
  }
}
