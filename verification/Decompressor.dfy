/** The streaming decompressor: it decodes a compressed payload block by block, as it arrives. */
module Decompressor {
  import opened Bytes
  import opened KdbValue
  import opened Cursors
  import opened Reader
  import opened Lz

  /** For every hash in use the table holds the position of the pair last noted with it. */
  ghost predicate TableHolds(table: seq<nat>, out: bytes, marks: seq<nat>)
    requires forall i :: 0 <= i < |marks| ==> marks[i] + 1 < |out|
  {
    && |table| == 256
    && forall h :: 0 <= h < 256 && Lookup(out, marks, h).Some? ==> table[h] == Lookup(out, marks, h).value
  }

  lemma TableFinds(table: seq<nat>, out: bytes, marks: seq<nat>, h: byte)
    requires forall i :: 0 <= i < |marks| ==> marks[i] + 1 < |out|
    requires TableHolds(table, out, marks) && Lookup(out, marks, h).Some?
    ensures |table| == 256 && table[h] == Lookup(out, marks, h).value && table[h] + 1 < |out|
  {
  }

  /** Longer output leaves the pairs noted where they were. */
  lemma {:induction false} LookupLonger(out: bytes, more: bytes, marks: seq<nat>, h: byte)
    requires out <= more && forall i :: 0 <= i < |marks| ==> marks[i] + 1 < |out|
    ensures Lookup(more, marks, h) == Lookup(out, marks, h)
    decreases |marks|
  {
    if marks != [] {
      LookupLonger(out, more, marks[..|marks| - 1], h);
    }
  }

  lemma TableLonger(table: seq<nat>, out: bytes, more: bytes, marks: seq<nat>)
    requires out <= more && forall i :: 0 <= i < |marks| ==> marks[i] + 1 < |out|
    requires TableHolds(table, out, marks)
    ensures TableHolds(table, more, marks)
  {
    forall h | 0 <= h < 256
      ensures Lookup(more, marks, h) == Lookup(out, marks, h)
    {
      LookupLonger(out, more, marks, h);
    }
  }

  /** Noting a pair is overwriting one slot. */
  lemma TableNotes(table: seq<nat>, out: bytes, marks: seq<nat>, p: nat)
    requires p + 1 < |out| && forall i :: 0 <= i < |marks| ==> marks[i] + 1 < |out|
    requires TableHolds(table, out, marks)
    ensures TableHolds(table[Hash(out[p], out[p + 1]) := p], out, marks + [p])
  {
    hide Hash;
    assert (marks + [p])[..|marks|] == marks;
  }

  class KdbIpcDecompressor {
    const ipcLen: nat          // compressed bytes of the payload
    const msgLen: nat          // bytes of the payload once decompressed
    const dst: array<byte>
    const lbh: array<nat>
    var idx: nat               // bit of the control byte that describes the next token, 0 between blocks
    var off: nat               // bytes decompressed
    var rdx: nat               // compressed bytes used
    var chx: nat               // where the next pair is noted
    var bit: nat               // the control byte

    ghost const toks: seq<Token>
    ghost var done: seq<Token>
    ghost var block: seq<Token>  // tokens of the current block still to come
    ghost var rest: seq<Token>   // tokens of later blocks
    ghost var slot: nat          // index of the next token within the current block
    ghost var st: State

    ghost predicate Valid()
      reads this, dst, lbh
    {
      && toks == done + (block + rest) && st.Valid()
      && Run(INIT, done) == Some(st) && Run(INIT, toks).Some? && |Run(INIT, toks).value.out| == msgLen == dst.Length
      && lbh.Length == 256 && TableHolds(lbh[..], st.out, st.marks)
      && off == |st.out| <= msgLen && dst[..off] == st.out && chx == st.next
      && ipcLen == |Pack(toks)| && rdx + |TokensBytes(block)| + |Pack(rest)| == ipcLen
      && InBlock(idx, bit, slot, block, rest)
    }

    /** What still has to arrive. */
    ghost function Due(): bytes
      reads this`block, this`rest
    {
      TokensBytes(block) + Pack(rest)
    }

    /** For a payload of the given tokens, if the two lengths describe it; whatever they are, nothing has been done. */
    constructor (ipcLen: nat, msgLen: nat, ghost toks: seq<Token>)
      ensures Run(INIT, toks).Some? && |Run(INIT, toks).value.out| == msgLen && |Pack(toks)| == ipcLen ==> Valid()
      ensures this.toks == toks && rest == toks && block == [] && done == [] && idx == 0
      ensures this.ipcLen == ipcLen && this.msgLen == dst.Length == msgLen && rdx == off == 0
      ensures fresh(dst) && fresh(lbh)
    {
      this.ipcLen, this.msgLen := ipcLen, msgLen;
      dst, lbh := new byte[msgLen], new nat[256];
      idx, off, rdx, chx, bit := 0, 0, 0, 0, 0;
      this.toks, done, block, rest, slot, st := toks, [], [], toks, 0, INIT;
    }

    /** Copies `n` bytes to the end of the output from `from` on, one by one. */
    method CopyTail(from: nat, n: nat)
      requires from < off && off + n <= dst.Length
      modifies dst
      ensures dst[..off + n] == CopyRun(old(dst[..off]), from, n)
    {
      ghost var all := CopyRun(dst[..off], from, n);
      for m := 0 to n
        invariant CopyRun(dst[..off + m], from + m, n - m) == all
      {
        ghost var before := dst[..off + m];
        dst[off + m] := dst[from + m];
        assert dst[..off + m + 1] == before + [before[from + m]];
      }
    }

    /** Appends the pair at `from` to the output. */
    method CopyPair(from: nat)
      requires from + 1 < off && off + 2 <= dst.Length
      modifies dst, this`off
      ensures off == old(off) + 2
      ensures dst[..off] == old(dst[..off]) + old([dst[from], dst[from + 1]])
    {
      dst[off] := dst[from];
      off := off + 1;
      dst[off] := dst[from + 1];
      off := off + 1;
    }

    /** Notes the pairs up to the end of the output in the table. */
    method NotePairs(ghost s: State)
      requires lbh.Length == 256 && 1 <= off <= dst.Length && dst[..off] == s.out && chx == s.next
      requires forall i :: 0 <= i < |s.marks| ==> s.marks[i] + 1 < |s.out|
      requires TableHolds(lbh[..], s.out, s.marks)
      modifies this`chx, lbh
      ensures chx == Noted(s).next && TableHolds(lbh[..], s.out, Noted(s).marks)
    {
      hide Lookup, Hash;
      ghost var marks: seq<nat> := s.marks;
      while chx < off - 1
        invariant forall i :: 0 <= i < |marks| ==> marks[i] + 1 < |s.out|
        invariant Noted(State(s.out, marks, chx)) == Noted(s)
        invariant TableHolds(lbh[..], s.out, marks)
      {
        var lhs, rhs := dst[chx], dst[chx + 1];
        assert lhs == s.out[chx] && rhs == s.out[chx + 1];
        TableNotes(lbh[..], s.out, marks, chx);
        lbh[Hash(lhs, rhs)] := chx;
        marks := marks + [chx];
        chx := chx + 1;
      }
    }

    /** The control byte says that a plain byte comes next. */
    method Literal(buf: ReadBuf)
      requires Valid() && idx != 0 && block != [] && block[0].Lit?
      requires buf.Ok() && buf.Remaining() >= 1 && buf.src[buf.off] == block[0].b
      modifies this, dst, lbh, buf`csr, buf`off
      ensures buf.Ok() && buf.off == old(buf.off) + 1 && rdx == old(rdx) + 1
      ensures unchanged(this`idx, this`bit, this`done, this`block, this`rest, this`slot)
      ensures Step(old(st), old(block)[0]) == Some(st) && Decoded()
    {
      hide Lookup, Noted, TableHolds, Pack, TokensBytes;
      Advances();
      var b := buf.src[buf.off];
      buf.Adj(1);
      dst[off] := b;
      off := off + 1;
      rdx := rdx + 1;
      ghost var s := State(st.out + [b], st.marks, st.next);
      TableLonger(lbh[..], st.out, s.out, st.marks);
      NotePairs(s);
      st := Noted(s);
    }

    /** The control byte says that a reference comes next: a hash and a length. */
    method Reference(buf: ReadBuf)
      requires Valid() && idx != 0 && block != [] && block[0].Ref?
      requires buf.Ok() && buf.Remaining() >= 2
      requires buf.src[buf.off] == block[0].h && buf.src[buf.off + 1] == block[0].n
      modifies this, dst, lbh, buf`csr, buf`off
      ensures buf.Ok() && buf.off == old(buf.off) + 2 && rdx == old(rdx) + 2
      ensures unchanged(this`idx, this`bit, this`done, this`block, this`rest, this`slot)
      ensures Step(old(st), old(block)[0]) == Some(st) && Decoded()
    {
      hide Lookup, Noted, CopyRun, Pack, TokensBytes, Hash, TableHolds;
      Advances();
      TableFinds(lbh[..], st.out, st.marks, block[0].h);
      var h := buf.src[buf.off];
      var pos := lbh[h];
      var rdn := buf.src[buf.off + 1];
      buf.Adj(2);
      rdx := rdx + 2;
      Refer(pos, rdn, h);
    }

    /** Appends the pair at `pos` and the `rdn` bytes after it. */
    method Refer(pos: nat, rdn: nat, ghost h: byte)
      requires Decoded() && Lookup(st.out, st.marks, h) == Some(pos)
      requires rdn < 256 && off + 2 + rdn <= dst.Length
      modifies this`off, this`chx, this`st, dst, lbh
      ensures Step(old(st), Ref(h, rdn)) == Some(st) && Decoded()
    {
      hide Lookup, Noted, CopyRun, Hash, TableHolds, Step;
      ghost var two, s := st.out + [st.out[pos], st.out[pos + 1]], st;
      CopyPair(pos);
      CopyTail(pos + 2, rdn);
      ghost var out := CopyRun(two, pos + 2, rdn);
      assert dst[..off] == out[..off] == two;
      TableLonger(lbh[..], s.out, two, s.marks);
      NotePairs(State(two, s.marks, s.next));
      off := off + rdn;
      chx := off;
      ghost var marks := Noted(State(two, s.marks, s.next)).marks;
      TableLonger(lbh[..], two, out, marks);
      st := State(out, marks, off);
      RefStep(s, h, rdn, pos);
    }

    /** Bytes the next block takes, or the largest number there is if not even its control byte is there. */
    method BlockReadSz(buf: ReadBuf) returns (rqd: nat)
      requires Valid() && idx == 0 && rest != [] && buf.Ok() && Agrees(buf.src[buf.off..], Due())
      requires buf.Remaining() < TWO_64 - 1 && ipcLen < TWO_64
      ensures rqd > buf.Remaining() <==> BlockLens(rest)[0] > buf.Remaining()
      ensures rqd == if buf.Remaining() == 0 then TWO_64 - 1 else BlockLens(rest)[0]
    {
      hide TableHolds, Run, TokensBytes, Pack, Control, PopCount, Refs, First, Later, BlockLens, Agrees;
      BlockSize(rest);
      DueAtRest(rest);
      if buf.Remaining() == 0 {
        return TWO_64 - 1;
      }
      var bits := buf.src[buf.off];
      FirstByte(buf.src, buf.off, Due());
      PopCountControl(First(rest));
      var count := PopCount(bits);
      rqd := 1 + count * 2 + Min(8 - count, (ipcLen - rdx - count * 2 - 1) % TWO_64);
    }

    /** Between calls the decompressor stands between blocks, or at the end. */
    ghost predicate Resting()
      reads this, dst, lbh
    {
      Valid() && block == [] && (idx == 0 || rest == [])
    }

    /** Reads the control byte of the next block. */
    method StartBlock(buf: ReadBuf)
      requires Valid() && idx == 0 && rest != []
      requires buf.Ok() && Agrees(buf.src[buf.off..], Due()) && BlockLens(rest)[0] <= buf.Remaining()
      modifies this`idx, this`bit, this`rdx, this`block, this`rest, this`slot, buf`csr, buf`off
      ensures Valid() && idx != 0 && block == First(old(rest)) && rest == Later(old(rest))
      ensures buf.Ok() && buf.off == old(buf.off) + 1 && rdx == old(rdx) + 1
      ensures Agrees(buf.src[buf.off..], Due())
    {
      hide TableHolds, Run, TokensBytes, Pack, Control, Agrees, Refs, First, Later;
      BlockSize(rest);
      DueAtRest(rest);
      ghost var s := buf.src[buf.off..];
      AgreesSplit(s, [Control(First(rest))], TokensBytes(First(rest)) + Pack(Later(rest)));
      bit := buf.src[buf.off];
      assert bit == s[0] == s[..1][0];
      buf.Adj(1);
      assert buf.src[buf.off..] == s[1..];
      rdx := rdx + 1;
      idx := 1;
      FirstLater(rest);
      assert [] + rest == rest;
      block, rest, slot := First(rest), Later(rest), 0;
      Pow2Eight(0);
    }

    /** Decodes one token. */
    method OneToken(buf: ReadBuf)
      requires Valid() && idx != 0 && block != []
      requires buf.Ok() && Agrees(buf.src[buf.off..], Due()) && |TokensBytes(block)| <= buf.Remaining()
      modifies this, dst, lbh, buf`csr, buf`off
      ensures Valid() && block == old(block)[1..] && rest == old(rest)
      ensures off > old(off) && (block == [] ==> idx == 0 || rest == []) && (idx == 0 ==> block == [])
      ensures buf.Ok() && buf.off == old(buf.off) + |TokenBytes(old(block)[0])|
      ensures rdx == old(rdx) + |TokenBytes(old(block)[0])|
      ensures Agrees(buf.src[buf.off..], Due())
    {
      hide TableHolds, Lookup, Run, Step, Pack, Control, Pow2, TokensBytes, InBlock, Agrees;
      ghost var t, block0, s, st0, done0 := block[0], block, buf.src[buf.off..], st, done;
      NextToken(block, rest, s);
      BitOf(idx, bit, slot, block, rest);
      Advances();
      if (bit / idx) % 2 != 0 {
        Reference(buf);
      } else {
        Literal(buf);
      }
      assert buf.src[buf.off..] == s[|TokenBytes(t)|..];
      idx := idx * 2;
      if idx == 256 {
        idx := 0;
      }
      done, block, slot := done + [t], block[1..], slot + 1;
      MoveOver(done0, block0, rest);
    }

    /** Decodes as many whole blocks as the buffer holds; `n` is the number of bytes that makes. */
    method Uncompress(buf: ReadBuf) returns (n: nat)
      requires Resting() && buf.Ok() && Agrees(buf.src[buf.off..], Pack(rest))
      requires buf.Remaining() < TWO_64 - 1 && ipcLen < TWO_64
      modifies this, dst, lbh, buf`csr, buf`off
      ensures Resting() && buf.Ok() && n == off - old(off)
      ensures var used := Greedy(BlockLens(old(rest)), old(buf.Remaining()));
              && buf.off == old(buf.off) + used && rdx == old(rdx) + used
              && BlockLens(rest) == Drop(BlockLens(old(rest)), used)
              && Follows(old(rest), used, rest)
    {
      hide KdbIpcDecompressor.Valid, TableHolds, Run, TokensBytes, Pack, First, Later, BlockLens, Agrees, Greedy;
      hide Drop, Taking, Follows, Control, PopCount, Refs, TokenBytes, Step, Noted, Lookup, Pow2, InBlock;
      ghost var us, room, due := BlockLens(rest), buf.Remaining(), rest;
      FollowsStart(due);
      var pos := off;
      BlockLensSum(rest);
      Started(us, room);
      DueAtRest(rest);
      while off < msgLen
        invariant Valid() && buf.Ok() && Agrees(buf.src[buf.off..], Due()) && off >= pos
        invariant buf.off >= old(buf.off) && rdx - old(rdx) == buf.off - old(buf.off)
        invariant (block == [] ==> idx == 0 || rest == []) && (idx == 0 ==> block == [])
        invariant |TokensBytes(block)| <= buf.Remaining()
        invariant Taking(us, room, buf.off - old(buf.off) + |TokensBytes(block)|, BlockLens(rest))
        invariant Follows(due, buf.off - old(buf.off) + |TokensBytes(block)|, rest)
        decreases msgLen - off
      {
        Unfinished();
        DueAtRest(rest);
        if idx == 0 {
          var rqd := BlockReadSz(buf);
          BlockSize(rest);
          if rqd > buf.Remaining() {
            Stops(us, room, buf.off - old(buf.off), BlockLens(rest));
            break;
          }
          Takes(us, room, buf.off - old(buf.off), BlockLens(rest));
          FollowsBlock(due, buf.off - old(buf.off), rest);
          StartBlock(buf);
        }
        NextToken(block, rest, buf.src[buf.off..]);
        OneToken(buf);
      }
      if off >= msgLen {
        Unfinished();
        assert block == [] && rest == [];
        DueAtRest(rest);
        Stops(us, room, buf.off - old(buf.off), BlockLens(rest));
      }
      n := off - pos;
    }

    /** The table invariant: the next pair to be noted is the last but one position or the end of the output, and
        every slot in use holds an earlier position whose pair of bytes has that hash. */
    lemma TableInvariant(h: byte)
      requires Valid()
      ensures chx <= off <= chx + 1
      ensures Lookup(st.out, st.marks, h).Some? ==>
                lbh.Length == 256 && lbh[h] + 1 < off <= dst.Length && Hash(dst[lbh[h]], dst[lbh[h] + 1]) == h
    {
      hide Hash, Run, Pack, TokensBytes;
      if Lookup(st.out, st.marks, h).Some? {
        TableFinds(lbh[..], st.out, st.marks, h);
        assert dst[..off][lbh[h]] == dst[lbh[h]] && dst[..off][lbh[h] + 1] == dst[lbh[h] + 1];
      }
    }

    /** Output is missing as long as tokens are. */
    lemma Unfinished()
      requires Valid()
      ensures off < msgLen <==> block + rest != []
    {
      hide Pack, TokensBytes, TableHolds, InBlock;
      RunConcat(INIT, done, block + rest);
    }

    /** The output, the table and their bookkeeping agree with `st`. */
    ghost predicate Decoded()
      reads this, dst, lbh
    {
      && st.Valid() && msgLen == dst.Length && lbh.Length == 256 && TableHolds(lbh[..], st.out, st.marks)
      && off == |st.out| <= msgLen && dst[..off] == st.out && chx == st.next
    }

    /** The next token decodes, and there is room for what it makes. */
    lemma Advances()
      requires Valid() && block != []
      ensures var r := Step(st, block[0]);
              && r.Some? && |r.value.out| <= msgLen
              && Run(INIT, done + [block[0]]) == r
    {
      hide Step, Pack, TableHolds, TokensBytes, InBlock;
      assert block + rest == [block[0]] + (block[1..] + rest);
      assert toks == done + [block[0]] + (block[1..] + rest);
      RunConcat(INIT, done + [block[0]], block[1..] + rest);
      RunConcat(INIT, done, [block[0]]);
      RunOne(st, block[0]);
    }
  }

  /** Between blocks, or with the bits of the control byte lined up with the tokens to come. */
  ghost predicate InBlock(idx: nat, bit: nat, slot: nat, block: seq<Token>, rest: seq<Token>) {
    if idx == 0 then block == []
    else
      && slot < 8 && idx == Pow2(slot) && slot + |block| <= 8 && (rest != [] ==> slot + |block| == 8)
      && bit / idx == Control(block)
  }

  lemma RefStep(s: State, h: byte, n: byte, p: nat)
    requires s.Valid() && Lookup(s.out, s.marks, h) == Some(p)
    ensures p + 1 < |s.out|
    ensures var two := s.out + [s.out[p], s.out[p + 1]];
            var out := CopyRun(two, p + 2, n);
            Step(s, Ref(h, n)) == Some(State(out, Noted(State(two, s.marks, s.next)).marks, |out|))
            && State(out, Noted(State(two, s.marks, s.next)).marks, |out|).Valid()
  {
    hide Hash;
  }

  lemma RunOne(s: State, t: Token)
    requires s.Valid()
    ensures Run(s, [t]) == Step(s, t)
  {
    assert [t][1..] == [];
  }

  lemma BlockSize(ts: seq<Token>)
    requires ts != []
    ensures var b := First(ts);
            && b != [] && |b| + Refs(b) == |TokensBytes(b)| && Refs(b) <= |b| <= 8
            && BlockLens(ts) != [] && BlockLens(ts)[0] == 1 + |TokensBytes(b)|
            && BlockLens(ts)[1..] == BlockLens(Later(ts))
            && (|b| < 8 ==> Later(ts) == [] && |Pack(Later(ts))| == 0)
            && Pack(ts) == [Control(b)] + (TokensBytes(b) + Pack(Later(ts)))
            && Control(b) < 256
  {
    hide Control, TokensBytes, Refs, Pow2, Pack, BlockLens;
    TokensBytesLength(First(ts));
    ControlBound(First(ts));
    Pow2Bound(|First(ts)|);
    PackHead(ts);
    Assoc([Control(First(ts))], TokensBytes(First(ts)), Pack(Later(ts)));
  }

  lemma FirstLater(ts: seq<Token>)
    ensures First(ts) + Later(ts) == ts
  {
  }

  lemma MoveOver(done: seq<Token>, block: seq<Token>, rest: seq<Token>)
    requires block != []
    ensures done + (block + rest) == done + [block[0]] + (block[1..] + rest)
  {
  }

  lemma PackHead(ts: seq<Token>)
    requires ts != []
    ensures Pack(ts) == Block(First(ts)) + Pack(Later(ts))
    ensures BlockLens(ts) == [|Block(First(ts))|] + BlockLens(Later(ts))
    ensures |ts| < 8 ==> Pack(Later(ts)) == []
  {
    hide Control, TokensBytes;
  }

  lemma DueAtRest(rest: seq<Token>)
    ensures TokensBytes([]) + Pack(rest) == Pack(rest) && TokensBytes([]) == [] && BlockLens([]) == []
  {
  }

  lemma FirstByte(src: bytes, off: nat, e: bytes)
    requires off < |src| && e != [] && Agrees(src[off..], e)
    ensures src[off] == e[0]
  {
    assert src[off..][0] == src[off];
  }

  /** The bytes that come next are those of the next token. */
  lemma NextToken(block: seq<Token>, rest: seq<Token>, s: bytes)
    requires block != [] && Agrees(s, TokensBytes(block) + Pack(rest)) && |TokensBytes(block)| <= |s|
    ensures var e := TokenBytes(block[0]);
            && |e| <= |s| && s[..|e|] == e && Agrees(s[|e|..], TokensBytes(block[1..]) + Pack(rest))
            && |TokensBytes(block)| == |e| + |TokensBytes(block[1..])|
  {
    hide Pack, TokenBytes, Agrees;
    NextBytes(TokenBytes(block[0]), TokensBytes(block[1..]), Pack(rest), s);
  }

  lemma NextBytes(e: bytes, x: bytes, y: bytes, s: bytes)
    requires Agrees(s, e + x + y) && |e| <= |s|
    ensures s[..|e|] == e && Agrees(s[|e|..], x + y)
  {
    assert e + x + y == e + (x + y);
    AgreesSplit(s, e, x + y);
  }

  /** The lowest bit left tells the kind of the next token; the others line up with the tokens after it. */
  lemma BitOf(idx: nat, bit: nat, slot: nat, block: seq<Token>, rest: seq<Token>)
    requires idx != 0 && InBlock(idx, bit, slot, block, rest) && block != []
    ensures (bit / idx) % 2 == if block[0].Ref? then 1 else 0
    ensures idx * 2 == 256 <==> slot + 1 == 8
    ensures var next := if idx * 2 == 256 then 0 else idx * 2;
            && InBlock(next, bit, slot + 1, block[1..], rest)
            && (next == 0 ==> block[1..] == [])
            && (block[1..] == [] ==> next == 0 || rest == [])
  {
    hide Control, Pow2;
    Pow2Eight(slot);
    Pow2Eight(slot + 1);
    Pow2Step(slot);
    HalfDiv(bit, idx);
    ControlStep(block);
  }

  lemma Pow2Step(k: nat)
    ensures Pow2(k + 1) == 2 * Pow2(k)
  {
  }

  lemma ControlStep(ts: seq<Token>)
    requires ts != []
    ensures Control(ts) % 2 == (if ts[0].Ref? then 1 else 0) && Control(ts) / 2 == Control(ts[1..])
  {
  }

  lemma HalfDiv(n: nat, d: nat)
    requires d > 0
    ensures n / (d * 2) == (n / d) / 2
  {
    var q, r := n / d, n % d;
    assert n == q * d + r;
    var h, b := q / 2, q % 2;
    assert q == 2 * h + b;
    assert n == h * (d * 2) + (b * d + r) by {
      assert q * d == (2 * h + b) * d == h * (d * 2) + b * d;
    }
    assert b * d + r < d * 2;
    DivUnique(n, d * 2, h, b * d + r);
  }

  /** After the first `used` bytes of a packed payload come the blocks of `rest`. */
  ghost predicate Follows(ts: seq<Token>, used: nat, rest: seq<Token>) {
    used <= |Pack(ts)| && Pack(ts)[used..] == Pack(rest)
  }

  lemma FollowsStart(ts: seq<Token>)
    ensures Follows(ts, 0, ts)
  {
  }

  lemma FollowsBlock(ts: seq<Token>, used: nat, rest: seq<Token>)
    requires Follows(ts, used, rest) && rest != []
    ensures BlockLens(rest) != [] && Follows(ts, used + BlockLens(rest)[0], Later(rest))
  {
    hide Pack, BlockLens, First, Later, TokensBytes, Control;
    BlockSize(rest);
    var n := BlockLens(rest)[0];
    assert Pack(rest)[n..] == Pack(Later(rest));
    assert Pack(ts)[used + n..] == Pack(ts)[used..][n..];
  }

  lemma FollowsOn(ts: seq<Token>, a: nat, mid: seq<Token>, b: nat, rest: seq<Token>)
    requires Follows(ts, a, mid) && Follows(mid, b, rest)
    ensures Follows(ts, a + b, rest)
  {
    assert Pack(ts)[a + b..] == Pack(ts)[a..][b..];
  }

  /** The blocks begun so far, `used` bytes of them, are the first of those that fit. */
  ghost predicate Taking(us: seq<nat>, room: nat, used: nat, left: seq<nat>) {
    && used <= room && Positive(left) && Boundary(us, used) && left == Drop(us, used)
    && Greedy(us, room) == used + Greedy(left, room - used)
  }

  lemma Started(us: seq<nat>, room: nat)
    requires Positive(us)
    ensures Taking(us, room, 0, us)
  {
  }

  lemma Takes(us: seq<nat>, room: nat, used: nat, left: seq<nat>)
    requires Taking(us, room, used, left) && left != [] && left[0] <= room - used
    ensures Taking(us, room, used + left[0], left[1..])
  {
    DropTwice(us, used, left[0]);
    assert Drop(left, left[0]) == left[1..];
    assert Boundary(left, left[0]);
    BoundaryAdd(us, used, left[0]);
  }

  lemma Stops(us: seq<nat>, room: nat, used: nat, left: seq<nat>)
    requires Taking(us, room, used, left) && (left == [] || left[0] > room - used)
    ensures Greedy(us, room) == used && left == Drop(us, used)
  {
  }
}
