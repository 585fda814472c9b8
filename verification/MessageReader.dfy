/** Framed messages as a reader takes them: plain or compressed, in any pieces. */
module MessageReader {
  import opened Bytes
  import opened KdbValue
  import opened Cursors
  import opened Units
  import opened Partial
  import opened Reader
  import opened TreeReader
  import Lz
  import Decompressor
  import opened MessageWriter

  /** `result` and `message` as a call leaves them. */
  datatype ReadMsgResult = ReadMsgResult(result: ReadResult, message: Option<Part>)

  /** A difference of lengths as the `uint64_t` it is stored in. */
  function Unsigned64(n: int): (u: nat) {
    n % TWO_64
  }

  /** Header and payload, as the reader's units. */
  function FrameUnits(v: Val): seq<nat> {
    [SZ_MSG_HDR] + RUnits(v)
  }

  const SZ_PACKED_HDR: nat := SZ_MSG_HDR + SZ_INT

  /** The tokens of a compressed payload decode to the encoding of `v`. */
  ghost predicate WFPacked(v: Val, toks: seq<Lz.Token>) {
    && WF(v) && MsgLen(v) < TWO_31 && PackedLen(toks) < TWO_31
    && Lz.Run(Lz.INIT, toks).Some? && Lz.Run(Lz.INIT, toks).value.out == Encode(v)
  }

  function PackedLen(toks: seq<Lz.Token>): nat {
    SZ_PACKED_HDR + |Lz.Pack(toks)|
  }

  /** A compressed frame: the header says so, and the length once decompressed comes after it. */
  function Packed(kind: byte, v: Val, toks: seq<Lz.Token>): (m: bytes)
    ensures |m| == PackedLen(toks)
  {
    [1, kind, 1, 0] + ToLE(4, PackedLen(toks)) + ToLE(4, MsgLen(v)) + Lz.Pack(toks)
  }

  /** Both lengths, then the blocks. */
  function PackedUnits(toks: seq<Lz.Token>): seq<nat> {
    [SZ_PACKED_HDR] + Lz.BlockLens(toks)
  }

  class KdbIpcMessageReader {
    var msgTyp: byte
    var ipcLen: int
    var msgLen: int
    var bytUsd: nat
    var bytDez: nat
    var compressed: bool
    var msg: Option<Part>
    var inflater: Decompressor.KdbIpcDecompressor?

    /** Whatever has arrived, the object under construction is a sane one. */
    ghost predicate Sound()
      reads this
    {
      SaneSlot(msg)
    }

    /** A header has been read that announces a compressed payload. */
    predicate Inflating()
      reads this
    {
      ipcLen != 0 && compressed
    }

    constructor ()
      ensures Sound() && Fresh() && inflater == null
      ensures ipcLen == msgLen == bytUsd == bytDez == 0 && !compressed && msg == None
    {
      ipcLen, msgLen, bytUsd, bytDez := 0, 0, 0, 0;
      compressed, msg, inflater := false, None, null;
    }

    /** The decompressor of the message being read, if there is one, and its arrays. */
    ghost function Held(): set<object>
      reads this
    {
      if inflater == null then {} else {inflater, inflater.dst, inflater.lbh}
    }

    /** No message has been begun. */
    ghost predicate Fresh()
      reads this
    {
      ipcLen == 0 && bytUsd == 0 && msg == None
    }

    /** Earlier calls stopped between two units of the frame of `v`, and made of it what there was. */
    ghost predicate Within(v: Val): (b: bool)
      reads this
      ensures b ==> WF(v)
    {
      && WF(v) && MsgLen(v) < TWO_31
      && bytUsd < MsgLen(v) && Boundary(FrameUnits(v), bytUsd)
      && (Fresh()
          || (ipcLen == MsgLen(v) && !compressed && bytUsd >= SZ_MSG_HDR
              && msg == Begun(v, bytUsd - SZ_MSG_HDR)))
    }

    /** Earlier calls stopped between two blocks of the compressed frame of `v`, after the header. */
    ghost predicate InBlocks(v: Val, toks: seq<Lz.Token>)
      reads this, Held()
    {
      && WFPacked(v, toks)
      && bytUsd < PackedLen(toks) && Boundary(PackedUnits(toks), bytUsd)
      && ipcLen == PackedLen(toks) && compressed
      && inflater != null && inflater.Resting() && inflater.toks == toks
      && bytUsd == inflater.rdx + SZ_PACKED_HDR
      && Lz.BlockLens(inflater.rest) == Drop(PackedUnits(toks), bytUsd)
      && Decompressor.Follows(toks, inflater.rdx, inflater.rest)
    }

    /** The same, or the header as well is still to come; nothing has been parsed. */
    ghost predicate WithinPacked(v: Val, toks: seq<Lz.Token>)
      reads this, Held()
    {
      (Fresh() && WFPacked(v, toks)) || (InBlocks(v, toks) && Unparsed())
    }

    /** The same, and an earlier call has found the type byte of an atom among what there was, but not all of it. */
    ghost predicate WithinAtom(v: Val, toks: seq<Lz.Token>)
      reads this, Held()
    {
      InBlocks(v, toks) && Typed(v)
    }

    /** The message type is the one in the header, if that has been read. */
    predicate OfKind(kind: byte)
      reads this`ipcLen, this`msgTyp
    {
      ipcLen == 0 || msgTyp == kind
    }

    method Reset()
      modifies this
      ensures Sound() && Fresh() && inflater == null
      ensures ipcLen == msgLen == bytUsd == bytDez == 0 && !compressed && msg == None
    {
      ipcLen, msgLen, bytUsd, bytDez := 0, 0, 0, 0;
      compressed, msg, inflater := false, None, null;
    }

    /** Reads on with the payload: creates the object if that has not been done, then reads its body. */
    method ReadMsgData(buf: ReadBuf, ghost v: Val) returns (complete: bool, res: ReadMsgResult)
      requires Sound() && buf.Ok()
      modifies this`msg, this`bytDez, buf`csr, buf`off
      ensures Sound() && buf.Ok() && buf.off >= old(buf.off)
      ensures complete <==> res.result.RD_OK?
      ensures complete <==> res.message.Some?
      ensures complete ==> msg == None
      ensures !res.result.Lost() ==> bytDez == old(bytDez) + buf.off - old(buf.off)
      ensures GoodChild(v, old(msg), buf.src, old(buf.Cur()))
           ==> DidChild(v, buf.src, old(buf.Cur()), if complete then res.message else msg, buf.Cur(), res.result)
      ensures complete || msg.Some? || old(msg).None?
      ensures old(msg).None? && old(buf.csr) >= 0 ==>
                var h := HeadOf(buf.src[old(buf.off)..]);
                h.Refuses? ==>
                  && !complete && msg.None?
                  && res.result == if h.rr.RD_THROWN? || h.rr.RD_UNDEFINED? then h.rr else RD_INCOMPLETE
      ensures old(msg).Some? ==>
                DidAtom(old(msg).value, buf.src, old(buf.Cur()),
                        (if complete then res.message else msg).value, buf.Cur(), res.result)
    {
      hide GoodChild, DidChild, Good, Did, AtStart, Sane, After, PassOver, DidAtom, HeadSz, RBody, HeadOf;
      if GoodChild(v, msg, buf.src, buf.Cur()) {
        ChildEnter(v, msg, buf.src, buf.Cur());
      }
      var pos := buf.off;
      if msg.None? {
        var obj, rr := NewInstance(buf, v);
        if rr.Lost() {
          return false, ReadMsgResult(rr, None);
        }
        if !rr.RD_OK? {
          bytDez := bytDez + (buf.off - pos);
          return false, ReadMsgResult(RD_INCOMPLETE, None);
        }
        msg := obj;
      }
      var q, rr := ReadVal(msg.value, buf, v);
      if rr.RD_OK? {
        bytDez := bytDez + (buf.off - pos);
        msg := None;
        return true, ReadMsgResult(RD_OK, Some(q));
      }
      msg := Some(q);
      if !rr.Lost() {
        bytDez := bytDez + (buf.off - pos);
      }
      return false, ReadMsgResult(rr, None);
    }

    /** Reads the header, or passes over it if an earlier call has read it.  The header of a compressed
        message is taken only with the decompressed length that follows it. */
    method ReadMsgHdr(buf: ReadBuf, ghost kind: byte, ghost v: Val, ghost toks: seq<Lz.Token>)
      returns (ok: bool, rr: ReadResult)
      requires buf.Ok() && buf.off == 0
      modifies this, buf`csr, buf`off
      ensures buf.Ok() && msg == old(msg) && (ok <==> rr.RD_OK?)
      ensures !ok ==> bytUsd == old(bytUsd) && bytDez == old(bytDez) && inflater == old(inflater)
      ensures !ok && !rr.RD_ERR_ALLOC? ==> ipcLen == old(ipcLen)
      ensures old(ipcLen) != 0 ==>
                && ok && unchanged(this) && buf.off == 0
                && buf.csr == old(buf.csr) + SZ_MSG_HDR + (if compressed then SZ_INT else 0)
      ensures old(ipcLen) == 0 ==>
                var src := buf.src;
                if |src| < SZ_MSG_HDR then !ok && rr.RD_INCOMPLETE? && msgTyp == old(msgTyp)
                else if src[0] != 1 then !ok && rr.RD_ERR_IPC? && msgTyp == old(msgTyp)
                else
                  && msgTyp == src[1] && compressed == (src[2] == 1)
                  && if !compressed then
                       && ok && ipcLen == msgLen == AsInt32(src[4..8]) && bytUsd == SZ_MSG_HDR && bytDez == 0
                       && inflater == old(inflater)
                       && buf.Cur() == Cursor(old(buf.csr) + SZ_MSG_HDR, SZ_MSG_HDR)
                     else if |src| < SZ_PACKED_HDR then !ok && rr.RD_INCOMPLETE?
                     else
                       && ipcLen == AsInt32(src[4..8]) && msgLen == AsInt32(src[8..12])
                       && if msgLen < SZ_MSG_HDR then !ok && rr.RD_ERR_ALLOC?
                          else
                            && ok && bytUsd == SZ_PACKED_HDR && bytDez == 0
                            && buf.Cur() == Cursor(old(buf.csr) + SZ_PACKED_HDR, SZ_PACKED_HDR)
                            && inflater != null && fresh(inflater) && fresh(inflater.dst) && fresh(inflater.lbh)
                            && inflater.ipcLen == Unsigned64(ipcLen - SZ_PACKED_HDR)
                            && inflater.msgLen == inflater.dst.Length == msgLen - SZ_MSG_HDR
                            && inflater.toks == inflater.rest == toks && inflater.rdx == inflater.off == 0
      ensures old(Announced(buf.src)) && WFPacked(v, toks) && Agrees(buf.src, Packed(kind, v, toks)) ==>
                ok && ipcLen == PackedLen(toks) && inflater.Resting() && inflater.ipcLen < TWO_31
    {
      hide AsInt32, Lz.Run, Lz.Pack, Encode, WFPacked, Packed, Agrees, MsgLen, Decompressor.KdbIpcDecompressor.Valid;
      ghost var good := Announced(buf.src) && WFPacked(v, toks) && Agrees(buf.src, Packed(kind, v, toks));
      if ipcLen != 0 {
        buf.Ffwd(SZ_MSG_HDR);
        if compressed {
          buf.Ffwd(SZ_INT);
        }
        return true, RD_OK;
      }
      if buf.Remaining() < SZ_MSG_HDR {
        return false, RD_INCOMPLETE;
      }
      var end := buf.src[0];
      if end != 1 {
        return false, RD_ERR_IPC;
      }
      msgTyp := buf.src[1];
      compressed := buf.src[2] == 1;
      ipcLen := AsInt32(buf.src[4..8]);
      buf.Adj(SZ_MSG_HDR);
      if compressed {
        if buf.Remaining() < SZ_INT {
          ipcLen := 0;
          return false, RD_INCOMPLETE;
        }
        msgLen := AsInt32(buf.src[8..12]);
        buf.Adj(SZ_INT);
        if good {
          PackedFields(kind, v, toks, buf.src);
        }
        if msgLen < SZ_MSG_HDR {
          return false, RD_ERR_ALLOC;
        }
        inflater := new Decompressor.KdbIpcDecompressor(Unsigned64(ipcLen - SZ_PACKED_HDR), msgLen - SZ_MSG_HDR, toks);
      } else {
        msgLen := ipcLen;
      }
      bytUsd, bytDez := buf.off, 0;
      return true, RD_OK;
    }

    /** The bytes given to a reader that has not begun a message announce a compressed one. */
    predicate Announced(src: bytes)
      reads this
    {
      ipcLen == 0 && |src| >= SZ_PACKED_HDR && src[0] == 1 && src[2] == 1
    }

    /** Decompresses the blocks that are there; what all calls have made so far is to be parsed from its first byte. */
    method Uncompress(buf: ReadBuf, ghost v: Val) returns (zbuf: ReadBuf)
      requires buf.Ok() && inflater != null && inflater.Resting()
      requires Agrees(buf.src[buf.off..], Lz.Pack(inflater.rest))
      requires buf.Remaining() < TWO_64 - 1 && inflater.ipcLen < TWO_64
      modifies buf`csr, buf`off, Held()
      ensures buf.Ok() && inflater.Resting()
      ensures fresh(zbuf) && zbuf.Ok() && zbuf.Cur() == Cursor(bytDez, 0) && |zbuf.src| == inflater.off
      ensures var used := Greedy(Lz.BlockLens(old(inflater.rest)), old(buf.Remaining()));
              && buf.off == old(buf.off) + used && inflater.rdx == old(inflater.rdx) + used
              && Lz.BlockLens(inflater.rest) == Drop(Lz.BlockLens(old(inflater.rest)), used)
              && Decompressor.Follows(old(inflater.rest), used, inflater.rest)
      ensures WFPacked(v, inflater.toks) ==>
                && WF(v) && GoodChild(v, None, zbuf.src, Cursor(0, 0)) && zbuf.src <= Encode(v)
                && (inflater.rest == [] <==> zbuf.src == Encode(v))
    {
      hide Decompressor.KdbIpcDecompressor.Valid, Decompressor.Follows, GoodChild, Greedy, Drop, Agrees, WFPacked;
      hide Encode;
      var n := inflater.Uncompress(buf);
      InflaterState(inflater);
      zbuf := new ReadBuf(inflater.dst[..inflater.off], bytDez);
      if WFPacked(v, inflater.toks) {
        InflatedStart(v, inflater.toks, inflater.done, inflater.rest, zbuf.src);
      }
    }

    /** Decompresses, and goes on with the object. */
    method Inflate(buf: ReadBuf, ghost v: Val) returns (complete: bool, res: ReadMsgResult)
      requires Sound() && buf.Ok() && inflater != null && inflater.Resting()
      requires Agrees(buf.src[buf.off..], Lz.Pack(inflater.rest))
      requires buf.Remaining() < TWO_64 - 1 && inflater.ipcLen < TWO_64
      modifies this`msg, this`bytDez, buf`csr, buf`off, Held()
      ensures Sound() && buf.Ok() && inflater.Resting()
      ensures complete <==> res.result.RD_OK?
      ensures complete <==> res.message.Some?
      ensures var used := Greedy(Lz.BlockLens(old(inflater.rest)), old(buf.Remaining()));
              && buf.off == old(buf.off) + used && inflater.rdx == old(inflater.rdx) + used
              && Lz.BlockLens(inflater.rest) == Drop(Lz.BlockLens(old(inflater.rest)), used)
              && Decompressor.Follows(old(inflater.rest), used, inflater.rest)
      ensures old(msg) == None && old(bytDez) == 0 && WFPacked(v, inflater.toks) ==>
                && (complete || res.result.RD_INCOMPLETE?)
                && (inflater.rest == [] ==> complete && res.message == Some(Whole(v)))
                && bytDez == Greedy(RUnits(v), inflater.off)
                && (complete <==> bytDez == |Encode(v)|)
                && (complete <==> inflater.rest == [])
                && (!complete ==> msg == Begun(v, bytDez))
                && (inflater.off < HeadSz(v) ==> !complete && res.result.RD_INCOMPLETE? && msg == None && bytDez == 0)
      ensures old(msg).Some? && old(msg).value.PAtom? && WFPacked(v, inflater.toks) ==>
                var w := FixedWidth(old(msg).value.atyp);
                && inflater.off <= |Encode(v)| && (inflater.rest == [] ==> inflater.off == |Encode(v)|)
                && if inflater.off < w then
                     !complete && res.result.RD_INCOMPLETE? && msg == old(msg) && bytDez == old(bytDez)
                   else complete && res.message == Some(old(msg).value.(bits := FromLE(Encode(v)[..w])))
    {
      hide Decompressor.KdbIpcDecompressor.Valid, GoodChild, DidChild, Greedy, Drop, Agrees, WFPacked, RUnits, Encode;
      hide Begun, FromLE, DidAtom, FixedWidth, HeadSz, Sane, Whole, Lz.BlockLens, Decompressor.Follows;
      var zbuf := Uncompress(buf, v);
      ghost var c, before := zbuf.Cur(), msg;
      complete, res := ReadMsgData(zbuf, v);
      if WFPacked(v, inflater.toks) {
        ghost var slot := if complete then res.message else msg;
        if before.Some? && before.value.PAtom? {
          AtomResumed(v, before.value, zbuf.src, c, slot.value, zbuf.Cur(), res.result);
        }
        if before == None && c.csr == 0 {
          InflatedEnd(v, zbuf.src, slot, zbuf.Cur(), res.result);
        }
      }
    }

    /** The call that began at `pos` of the frame of `v` is past the header. */
    ghost predicate PlainDue(v: Val, pos: nat, src: bytes, c: Cursor)
      reads this
    {
      && WF(v) && pos < MsgLen(v) < TWO_31 && Boundary(FrameUnits(v), pos)
      && AfterHeader(SZ_MSG_HDR, |src|, pos, c) && GoodChild(v, msg, src, c)
      && ipcLen == MsgLen(v) && !compressed && bytUsd == pos + c.off
    }

    /** The call goes on with a plain payload. */
    method TakePlain(buf: ReadBuf, ghost v: Val, ghost pos: nat) returns (complete: bool, res: ReadMsgResult)
      requires Sound() && buf.Ok()
      modifies this`msg, this`bytDez, this`bytUsd, buf`csr, buf`off
      ensures Sound()
      ensures complete <==> res.result.RD_OK?
      ensures complete <==> res.message.Some?
      ensures old(PlainDue(v, pos, buf.src, buf.Cur())) ==>
                && bytUsd == pos + Greedy(Drop(FrameUnits(v), pos), |buf.src|)
                && (complete <==> bytUsd == MsgLen(v))
                && if complete then res.message == Some(Whole(v)) else res.result.RD_INCOMPLETE? && Within(v)
    {
      hide GoodChild, DidChild, Greedy, Drop, Boundary, MsgLen, WF, FrameUnits, Begun, Whole, Sane;
      ghost var c, due := buf.Cur(), PlainDue(v, pos, buf.src, buf.Cur());
      var at := buf.off;
      complete, res := ReadMsgData(buf, v);
      if due {
        FrameStep(v, buf.src, pos, c, if complete then res.message else msg, buf.Cur(), res.result);
      }
      if !res.result.Lost() {
        bytUsd := bytUsd + (buf.off - at);
      }
    }

    /** The call that began at `pos` of a compressed frame is past the header. */
    ghost predicate PackedDue(v: Val, toks: seq<Lz.Token>, pos: nat, cap: nat, at: nat)
      reads this, Held()
    {
      && WFPacked(v, toks) && inflater != null && inflater.toks == toks && PackedAt(pos, cap, toks, inflater.rest, at)
      && ipcLen == PackedLen(toks) && compressed
      && bytUsd == pos + at == SZ_PACKED_HDR + inflater.rdx
      && Decompressor.Follows(toks, inflater.rdx, inflater.rest)
    }

    /** Nothing has been parsed yet. */
    predicate Unparsed()
      reads this`msg, this`bytDez
    {
      msg == None && bytDez == 0
    }

    /** Of an atom the type byte has been parsed. */
    predicate Typed(v: Val)
      reads this`msg, this`bytDez
    {
      v.Atom? && msg == Some(PAtom(v.typ, 0)) && bytDez == SZ_BYTE
    }

    /** The call goes on with a compressed payload. */
    method TakePacked(buf: ReadBuf, ghost v: Val, ghost toks: seq<Lz.Token>, ghost pos: nat)
      returns (complete: bool, res: ReadMsgResult)
      requires Sound() && buf.Ok() && inflater != null && inflater.Resting()
      requires Agrees(buf.src[buf.off..], Lz.Pack(inflater.rest))
      requires buf.Remaining() < TWO_64 - 1 && inflater.ipcLen < TWO_64
      modifies this`msg, this`bytDez, this`bytUsd, buf`csr, buf`off, Held()
      ensures Sound() && inflater.Resting()
      ensures complete <==> res.result.RD_OK?
      ensures complete <==> res.message.Some?
      ensures old(PackedDue(v, toks, pos, |buf.src|, buf.off)) && old(Unparsed()) ==>
                ParsedFirst(v, toks, pos, |buf.src|, complete, res)
      ensures old(PackedDue(v, toks, pos, |buf.src|, buf.off)) && old(Typed(v)) ==>
                ParsedAgain(v, toks, pos, |buf.src|, complete, res)
    {
      hide WFPacked, Greedy, Drop, Boundary, HeadSz, PackedUnits, PackedLen, Agrees, PackedAt, Whole, Sane, Encode;
      hide Begun;
      hide RUnits, Shifted, FixedWidth, Parsed, Decompressor.Follows;
      hide Decompressor.KdbIpcDecompressor.Valid;
      ghost var left, due := inflater.rest, PackedDue(v, toks, pos, |buf.src|, buf.off);
      ghost var fst, snd := Unparsed(), Typed(v);
      var at := buf.off;
      complete, res := Inflate(buf, v);
      if due {
        PackedStep(toks, |buf.src|, pos, at, left, buf.off - at, inflater.rest);
        Decompressor.FollowsOn(toks, inflater.rdx - (buf.off - at), left, buf.off - at, inflater.rest);
        if fst {
          ParsedOnce(v, toks, complete, inflater.off);
        }
        if snd {
          ShiftedIs(v, toks);
        }
      }
      if !res.result.Lost() {
        bytUsd := bytUsd + (buf.off - at);
      }
    }

    /** What a call does that began at `pos` of the compressed frame of `v`, none of which had been parsed: it uses
        whole blocks; the end of the frame, and nothing less, completes the message; what there is of the payload is
        parsed as if it were all there was, and nothing is parsed if it is less than the head. */
    ghost predicate ParsedFirst(v: Val, toks: seq<Lz.Token>, pos: nat, cap: nat, complete: bool, res: ReadMsgResult)
      reads this, Held()
    {
      && bytUsd == pos + Greedy(Drop(PackedUnits(toks), pos), cap)
      && (bytUsd == PackedLen(toks) <==> complete)
      && (complete ==> res.message == Some(Whole(v)))
      && (bytUsd == 0 || inflater == null || inflater.off < HeadSz(v) ==>
            !complete && res.result.RD_INCOMPLETE? && WithinPacked(v, toks))
      && (bytUsd != 0 && inflater != null ==>
            && Parsed(v, complete, inflater.off)
            && (v.Atom? && !complete && 0 < inflater.off ==> WithinAtom(v, toks)))
    }

    /** The same for the frame of an atom, of which the type byte had been parsed: the value is read from the first
        byte of the payload on, as soon as there are as many bytes as it takes. */
    ghost predicate ParsedAgain(v: Val, toks: seq<Lz.Token>, pos: nat, cap: nat, complete: bool, res: ReadMsgResult)
      reads this, Held()
    {
      && WF(v) && v.Atom? && inflater != null
      && bytUsd == pos + Greedy(Drop(PackedUnits(toks), pos), cap)
      && (complete <==> inflater.off >= FixedWidth(v.typ))
      && (bytUsd == PackedLen(toks) ==> complete)
      && if complete then res.message == Some(Shifted(v)) else res.result.RD_INCOMPLETE? && WithinAtom(v, toks)
    }

    lemma NothingParsed(v: Val, toks: seq<Lz.Token>, cap: nat, rr: ReadResult)
      requires WithinPacked(v, toks) && bytUsd == 0 == Greedy(Drop(PackedUnits(toks), 0), cap) && rr.RD_INCOMPLETE?
      ensures ParsedFirst(v, toks, 0, cap, false, ReadMsgResult(rr, None))
    {
      hide Greedy, Drop, PackedUnits, KdbIpcMessageReader.WithinPacked;
    }

    /** The first parse has made of the `have` bytes there were what whole units of them make. */
    ghost predicate Parsed(v: Val, complete: bool, have: nat)
      reads this`msg, this`bytDez
    {
      && WF(v) && bytDez == Greedy(RUnits(v), have)
      && (complete <==> bytDez == |Encode(v)|)
      && (!complete ==> msg == Begun(v, bytDez))
    }

    lemma ParsedOnce(v: Val, toks: seq<Lz.Token>, complete: bool, have: nat)
      requires WFPacked(v, toks) && bytDez == Greedy(RUnits(v), have)
      requires (complete <==> bytDez == |Encode(v)|) && (!complete ==> msg == Begun(v, bytDez))
      ensures Parsed(v, complete, have)
      ensures v.Atom? && !complete && have > 0 ==> Typed(v)
    {
      hide Encode, RUnits, Begun, Greedy, Lz.Run, Lz.Pack;
      if v.Atom? {
        AtomUnits(v, have);
      }
    }

    /** What a call finds that is offered the rest of the frame of `v`: past the header, it goes on with the payload. */
    lemma PlainOffered(kind: byte, v: Val, src: bytes)
      requires Within(v) && Offers(src, Message(kind, v), bytUsd)
      ensures bytUsd < MsgLen(v) < TWO_31 && WF(v) && Boundary(FrameUnits(v), bytUsd)
      ensures if bytUsd == 0 then ipcLen == 0 && msg == None
              else bytUsd >= SZ_MSG_HDR && ipcLen == MsgLen(v) != 0 && !compressed
      ensures bytUsd == 0 && |src| < SZ_MSG_HDR ==> Greedy(Drop(FrameUnits(v), bytUsd), |src|) == 0
      ensures bytUsd == 0 && |src| >= SZ_MSG_HDR ==> src[0] == 1 && src[2] == 0 && AsInt32(src[4..8]) == MsgLen(v)
      ensures bytUsd == 0 && |src| >= SZ_MSG_HDR ==> src[1] == kind
      ensures forall c :: AfterHeader(SZ_MSG_HDR, |src|, bytUsd, c) ==> GoodChild(v, msg, src, c)
    {
      hide GoodChild, Begun, WF, Message, AsInt32, Greedy, Drop, Boundary;
      FrameOffered(kind, v, src, bytUsd);
    }

    /** What a call finds that is offered the rest of a compressed frame. */
    lemma PackedOffered(kind: byte, v: Val, toks: seq<Lz.Token>, src: bytes)
      requires WithinPacked(v, toks) || WithinAtom(v, toks)
      requires Offers(src, Packed(kind, v, toks), bytUsd)
      ensures WFPacked(v, toks) && PackedLen(toks) < TWO_31
      ensures bytUsd == 0 ==> ipcLen == 0
      ensures ipcLen == 0 ==> Fresh()
      ensures bytUsd == 0 && |src| < SZ_PACKED_HDR ==> Greedy(Drop(PackedUnits(toks), bytUsd), |src|) == 0
      ensures bytUsd == 0 && |src| >= SZ_MSG_HDR ==> src[0] == 1 && src[1] == kind && src[2] == 1
      ensures bytUsd == 0 && |src| >= SZ_PACKED_HDR ==> PackedAt(0, |src|, toks, toks, SZ_PACKED_HDR)
      ensures bytUsd != 0 ==> ipcLen == PackedLen(toks) != 0 && PackedDue(v, toks, bytUsd, |src|, 0)
    {
      hide Boundary, Greedy, Drop;
      StartIsBoundary(PackedUnits(toks));
      PackedStart(kind, v, toks, src, bytUsd);
    }

    /** What has been parsed of a compressed frame. */
    lemma Slots(v: Val, toks: seq<Lz.Token>)
      requires WithinPacked(v, toks) || WithinAtom(v, toks)
      ensures ipcLen == 0 ==> msg == None
      ensures ipcLen != 0 && WithinPacked(v, toks) ==> Unparsed()
      ensures WithinAtom(v, toks) ==> ipcLen != 0 && Typed(v)
    {
      hide WFPacked, Boundary, PackedUnits;
    }

    lemma StartDue(v: Val, toks: seq<Lz.Token>, cap: nat)
      requires WFPacked(v, toks) && ipcLen == PackedLen(toks) && compressed && bytUsd == SZ_PACKED_HDR
      requires inflater != null && inflater.toks == inflater.rest == toks && inflater.rdx == 0
      requires PackedAt(0, cap, toks, toks, SZ_PACKED_HDR)
      ensures PackedDue(v, toks, 0, cap, SZ_PACKED_HDR)
    {
      hide WFPacked, PackedAt, PackedLen, Decompressor.Follows;
      Decompressor.FollowsStart(toks);
    }

    /** The bytes of the frame that come next are bytes the decompressor can go on with. */
    lemma CanGoOn(kind: byte, v: Val, toks: seq<Lz.Token>, src: bytes)
      requires WithinPacked(v, toks) || WithinAtom(v, toks)
      requires ipcLen != 0 && Offers(src, Packed(kind, v, toks), bytUsd)
      ensures Resumable(src)
    {
      hide WF, Encode, Lz.Run, Agrees, PackedUnits, Boundary, Lz.Pack, ToLE, MsgLen;
      assert inflater.ipcLen == |Lz.Pack(toks)|;
      assert Packed(kind, v, toks)[bytUsd..] == Lz.Pack(toks)[inflater.rdx..];
    }

    /** Once a block has been used there is output. */
    lemma SomeOutput(v: Val, toks: seq<Lz.Token>)
      requires InBlocks(v, toks) && bytUsd > SZ_PACKED_HDR
      ensures inflater.off > 0
    {
      hide WFPacked, PackedUnits, Boundary, Lz.Pack, Lz.Run, Lz.BlockLens, Decompressor.Follows, Lz.TokensBytes;
      Decompressor.DueAtRest(inflater.rest);
      assert [] + inflater.rest == inflater.rest;
      if inflater.done != [] {
        Lz.RunExtends(Lz.INIT, inflater.done);
      }
    }

    lemma StillFresh(v: Val, toks: seq<Lz.Token>)
      requires Fresh()
      ensures WF(v) && MsgLen(v) < TWO_31 ==> Within(v)
      ensures WFPacked(v, toks) ==> WithinPacked(v, toks)
      ensures PackedLen(toks) > 0
    {
      hide WF, WFPacked;
    }

    /** The bytes offered go on with the frame, plain or compressed, that earlier calls stopped in. */
    ghost predicate FromFrame(kind: byte, v: Val, toks: seq<Lz.Token>, src: bytes)
      reads this, Held()
    {
      || (Within(v) && Offers(src, Message(kind, v), bytUsd))
      || ((WithinPacked(v, toks) || WithinAtom(v, toks)) && Offers(src, Packed(kind, v, toks), bytUsd))
    }

    /** With the header at hand, now or before, the message type is that of the frame. */
    lemma KindSeen(kind: byte, v: Val, toks: seq<Lz.Token>, src: bytes)
      requires FromFrame(kind, v, toks, src) && OfKind(kind)
      ensures ipcLen != 0 || |src| >= SZ_MSG_HDR ==> TypeAfter(msgTyp, ipcLen, src) == kind
    {
      hide Offers, Packed, Message, WF, MsgLen, AsInt32, Greedy, Drop, Boundary;
      hide KdbIpcMessageReader.Within, KdbIpcMessageReader.WithinPacked, KdbIpcMessageReader.WithinAtom;
      if Within(v) && Offers(src, Message(kind, v), bytUsd) {
        PlainOffered(kind, v, src);
      } else {
        PackedOffered(kind, v, toks, src);
      }
    }

    /** Begins a call: puts the buffer past the header. */
    method Enter(src: bytes, ghost kind: byte, ghost v: Val, ghost toks: seq<Lz.Token>)
      returns (buf: ReadBuf, ok: bool, rr: ReadResult)
      requires Sound() && |src| < TWO_64 - 1
      requires Announced(src) ==> WFPacked(v, toks) && Agrees(src, Packed(kind, v, toks))
      requires Inflating() ==> Resumable(src)
      modifies this
      ensures Sound() && fresh(buf) && buf.src == src && buf.Ok()
      ensures ok && compressed ==>
                && inflater != null && inflater.Resting() && inflater.ipcLen < TWO_31
                && Agrees(src[buf.off..], Lz.Pack(inflater.rest))
      ensures inflater == old(inflater) || fresh(Held())
      ensures !ok ==> !rr.RD_OK?
      ensures msgTyp == TypeAfter(old(msgTyp), old(ipcLen), src)
      ensures old(Within(v)) && Offers(src, Message(kind, v), old(bytUsd)) ==>
                if ok then !compressed && PlainDue(v, old(bytUsd), src, buf.Cur())
                else rr.RD_INCOMPLETE? && Within(v)
                     && bytUsd == old(bytUsd) == Greedy(Drop(FrameUnits(v), 0), |src|) == 0 < MsgLen(v)
      ensures old(WithinPacked(v, toks) || WithinAtom(v, toks)) && Offers(src, Packed(kind, v, toks), old(bytUsd)) ==>
                if ok then compressed && PackedDue(v, toks, old(bytUsd), |src|, buf.off)
                else rr.RD_INCOMPLETE? && old(ipcLen) == 0 && WithinPacked(v, toks)
                     && bytUsd == old(bytUsd) == Greedy(Drop(PackedUnits(toks), 0), |src|) == 0
      ensures msg == old(msg) && (ok ==> bytDez == if old(ipcLen) == 0 then 0 else old(bytDez))
      ensures old(FromFrame(kind, v, toks, src)) && old(OfKind(kind)) ==> OfKind(kind) && (ok ==> msgTyp == kind)
    {
      hide GoodChild, WFPacked, Packed, Offers, Agrees, Greedy, Drop, Boundary, MsgLen, AsInt32, WF, Message, HeadSz;
      hide FrameUnits, PackedUnits, PackedLen, Sane, PackedAt, Lz.BlockLens, Lz.Pack, KdbIpcMessageReader.Within;
      hide KdbIpcMessageReader.InBlocks, KdbIpcMessageReader.WithinPacked, KdbIpcMessageReader.WithinAtom;
      hide Decompressor.KdbIpcDecompressor.Valid, Lz.Run, Decompressor.Follows;
      hide KdbIpcMessageReader.PlainDue, KdbIpcMessageReader.PackedDue, KdbIpcMessageReader.FromFrame;
      if FromFrame(kind, v, toks, src) && OfKind(kind) {
        KindSeen(kind, v, toks, src);
      }
      if ipcLen != 0 {
        buf := EnterBegun(src, kind, v, toks);
        ok, rr := true, RD_OK;
      } else {
        buf, ok, rr := EnterNew(src, kind, v, toks);
      }
    }

    /** An earlier call has read the header. */
    method EnterBegun(src: bytes, ghost kind: byte, ghost v: Val, ghost toks: seq<Lz.Token>) returns (buf: ReadBuf)
      requires Sound() && |src| < TWO_64 - 1 && ipcLen != 0
      requires Inflating() ==> Resumable(src)
      modifies this
      ensures unchanged(this) && Sound() && fresh(buf) && buf.src == src && buf.Ok()
      ensures compressed ==>
                && inflater != null && inflater.Resting() && inflater.ipcLen < TWO_31
                && Agrees(src[buf.off..], Lz.Pack(inflater.rest))
      ensures old(Within(v)) && Offers(src, Message(kind, v), bytUsd) ==>
                !compressed && PlainDue(v, bytUsd, src, buf.Cur())
      ensures old(WithinPacked(v, toks) || WithinAtom(v, toks)) && Offers(src, Packed(kind, v, toks), bytUsd) ==>
                compressed && PackedDue(v, toks, bytUsd, |src|, buf.off)
    {
      hide GoodChild, WFPacked, Packed, Offers, Agrees, Greedy, Drop, Boundary, MsgLen, AsInt32, WF, Message, HeadSz;
      hide FrameUnits, PackedUnits, PackedLen, Sane, PackedAt, Lz.BlockLens, Lz.Pack, KdbIpcMessageReader.Within;
      hide KdbIpcMessageReader.InBlocks, KdbIpcMessageReader.WithinPacked, KdbIpcMessageReader.WithinAtom;
      hide Decompressor.KdbIpcDecompressor.Valid, Lz.Run, Decompressor.Follows;
      if Within(v) && Offers(src, Message(kind, v), bytUsd) {
        PlainOffered(kind, v, src);
      }
      if (WithinPacked(v, toks) || WithinAtom(v, toks)) && Offers(src, Packed(kind, v, toks), bytUsd) {
        PackedOffered(kind, v, toks, src);
      }
      assert src[0..] == src;
      buf := new ReadBuf(src, 0 - bytUsd);
      var ok, rr := ReadMsgHdr(buf, kind, v, toks);
    }

    /** The header is to be read. */
    method EnterNew(src: bytes, ghost kind: byte, ghost v: Val, ghost toks: seq<Lz.Token>)
      returns (buf: ReadBuf, ok: bool, rr: ReadResult)
      requires Sound() && |src| < TWO_64 - 1 && ipcLen == 0
      requires Announced(src) ==> WFPacked(v, toks) && Agrees(src, Packed(kind, v, toks))
      modifies this
      ensures Sound() && fresh(buf) && buf.src == src && buf.Ok()
      ensures ok && compressed ==>
                && inflater != null && inflater.Resting() && inflater.ipcLen < TWO_31
                && Agrees(src[buf.off..], Lz.Pack(inflater.rest))
      ensures inflater == old(inflater) || fresh(Held())
      ensures !ok ==> !rr.RD_OK?
      ensures msgTyp == TypeAfter(old(msgTyp), 0, src)
      ensures old(Within(v)) && Offers(src, Message(kind, v), old(bytUsd)) ==>
                if ok then !compressed && PlainDue(v, old(bytUsd), src, buf.Cur())
                else rr.RD_INCOMPLETE? && Within(v)
                     && bytUsd == old(bytUsd) == Greedy(Drop(FrameUnits(v), 0), |src|) == 0 < MsgLen(v)
      ensures old(WithinPacked(v, toks) || WithinAtom(v, toks)) && Offers(src, Packed(kind, v, toks), old(bytUsd)) ==>
                if ok then compressed && PackedDue(v, toks, old(bytUsd), |src|, buf.off)
                else rr.RD_INCOMPLETE? && WithinPacked(v, toks)
                     && bytUsd == old(bytUsd) == Greedy(Drop(PackedUnits(toks), 0), |src|) == 0
      ensures msg == old(msg) && (ok ==> bytDez == 0)
      ensures |src| < SZ_MSG_HDR ==> !ok && ipcLen == 0
    {
      hide GoodChild, WFPacked, Packed, Offers, Agrees, Greedy, Drop, Boundary, MsgLen, AsInt32, WF, Message, HeadSz;
      hide FrameUnits, PackedUnits, PackedLen, Sane, PackedAt, Lz.BlockLens, Lz.Pack, KdbIpcMessageReader.Within;
      hide KdbIpcMessageReader.InBlocks, KdbIpcMessageReader.WithinPacked, KdbIpcMessageReader.WithinAtom;
      hide Decompressor.KdbIpcDecompressor.Valid, Lz.Run, Decompressor.Follows;
      ghost var plain := Within(v) && Offers(src, Message(kind, v), bytUsd);
      ghost var packed := (WithinPacked(v, toks) || WithinAtom(v, toks)) && Offers(src, Packed(kind, v, toks), bytUsd);
      if plain {
        PlainOffered(kind, v, src);
      }
      if packed {
        PackedOffered(kind, v, toks, src);
      }
      if Announced(src) {
        PackedPayload(kind, v, toks, src);
      }
      buf := new ReadBuf(src, 0 - bytUsd);
      ok, rr := ReadMsgHdr(buf, kind, v, toks);
      if packed && ok {
        StartDue(v, toks, |src|);
      }
      if !ok && (plain || packed) {
        StillFresh(v, toks);
      }
    }

    /** The decompressor of the message being read can go on with the bytes at hand. */
    ghost predicate Resumable(src: bytes)
      reads this, Held()
    {
      inflater != null && inflater.Resting() && inflater.ipcLen < TWO_31 && Agrees(src, Lz.Pack(inflater.rest))
    }

    /** One call with the bytes that have arrived and were not used by earlier calls. */
    method ReadMsg(src: bytes, ghost kind: byte, ghost v: Val, ghost toks: seq<Lz.Token>)
      returns (complete: bool, res: ReadMsgResult)
      requires Sound() && |src| < TWO_64 - 1
      requires Announced(src) ==> WFPacked(v, toks) && Agrees(src, Packed(kind, v, toks))
      requires Inflating() ==> Resumable(src)
      modifies this, Held()
      ensures Sound() && (inflater == old(inflater) || fresh(Held()))
      ensures msgTyp == TypeAfter(old(msgTyp), old(ipcLen), src)
      ensures complete <==> res.result.RD_OK?
      ensures complete <==> res.message.Some?
      ensures old(Within(v)) && Offers(src, Message(kind, v), old(bytUsd)) ==>
                && bytUsd == old(bytUsd) + Greedy(Drop(FrameUnits(v), old(bytUsd)), |src|)
                && (complete <==> bytUsd == MsgLen(v))
                && if complete then res.message == Some(Whole(v)) else res.result.RD_INCOMPLETE? && Within(v)
      ensures old(WithinPacked(v, toks)) && Offers(src, Packed(kind, v, toks), old(bytUsd)) ==>
                ParsedFirst(v, toks, old(bytUsd), |src|, complete, res)
      ensures old(WithinAtom(v, toks)) && Offers(src, Packed(kind, v, toks), old(bytUsd)) ==>
                ParsedAgain(v, toks, old(bytUsd), |src|, complete, res)
      ensures old(FromFrame(kind, v, toks, src)) && old(OfKind(kind)) ==> OfKind(kind) && (complete ==> msgTyp == kind)
    {
      hide WFPacked, Packed, Offers, Agrees, Greedy, Drop, MsgLen, Message, HeadSz;
      hide FrameUnits, PackedUnits, Whole, Sane, Lz.Pack, KdbIpcMessageReader.Within, KdbIpcMessageReader.WithinPacked;
      hide KdbIpcMessageReader.PlainDue, KdbIpcMessageReader.PackedDue, KdbIpcMessageReader.Resumable;
      hide KdbIpcMessageReader.Announced, KdbIpcMessageReader.Parsed, KdbIpcMessageReader.WithinAtom;
      hide Shifted, FixedWidth, Boundary, PackedAt, KdbIpcMessageReader.FromFrame, KdbIpcMessageReader.OfKind;
      hide KdbIpcMessageReader.ParsedFirst, KdbIpcMessageReader.ParsedAgain, Lz.BlockLens, TypeAfter, PackedLen, WF;
      hide Decompressor.Follows, KdbIpcMessageReader.Sound, KdbIpcMessageReader.InBlocks, KdbIpcMessageReader.Fresh;
      if WithinPacked(v, toks) || WithinAtom(v, toks) {
        Slots(v, toks);
      }
      hide Decompressor.KdbIpcDecompressor.Valid;
      ghost var pos := bytUsd;
      var buf, ok, rr := Enter(src, kind, v, toks);
      if !ok {
        if old(WithinPacked(v, toks)) && Offers(src, Packed(kind, v, toks), pos) {
          NothingParsed(v, toks, |src|, rr);
        }
        return false, ReadMsgResult(rr, None);
      }
      if !compressed {
        complete, res := TakePlain(buf, v, pos);
      } else {
        complete, res := TakePacked(buf, v, toks, pos);
      }
    }
  }

  /** The message type is the one in the header, read by the first call that finds the header complete. */
  function TypeAfter(before: byte, ipcLen: int, src: bytes): byte {
    if ipcLen == 0 && |src| >= SZ_MSG_HDR && src[0] == 1 then src[1] else before
  }

  /** The bytes at hand go on with frame `m` where earlier calls stopped. */
  predicate Offers(src: bytes, m: bytes, pos: nat) {
    pos <= |m| && Agrees(src, m[pos..])
  }

  /** Where a call begins that is offered the rest of the frame of `v`: past the header, which it reads or skips. */
  lemma FrameOffered(kind: byte, v: Val, src: bytes, pos: nat)
    requires WF(v) && MsgLen(v) < TWO_31 && pos < MsgLen(v) && Boundary(FrameUnits(v), pos)
    requires Offers(src, Message(kind, v), pos)
    ensures pos == 0 && |src| < SZ_MSG_HDR ==> Greedy(Drop(FrameUnits(v), pos), |src|) == 0
    ensures pos == 0 && |src| >= SZ_MSG_HDR ==> src[0] == 1 && src[2] == 0 && AsInt32(src[4..8]) == MsgLen(v)
    ensures pos == 0 && |src| >= SZ_MSG_HDR ==> src[1] == kind
    ensures forall c :: AfterHeader(SZ_MSG_HDR, |src|, pos, c) ==>
              GoodChild(v, if pos == 0 then None else Begun(v, pos - SZ_MSG_HDR), src, c)
  {
    hide Encode, WF, RUnits, RBody, Agrees, HeadSz, AsInt32, WireSz, MsgHeader, Sum, Positive, GoodChild;
    var e, h := Encode(v), MsgHeader(kind, MsgLen(v));
    WireSzIsLength(v);
    RUnitsSum(v);
    if pos == 0 {
      assert Message(kind, v)[0..] == h + e;
      AgreesSplit(src, h, e);
      if |src| >= SZ_MSG_HDR {
        HeaderFields(kind, MsgLen(v), src);
        FeedsFresh(v, src, SZ_MSG_HDR);
      }
    } else {
      SumOne(SZ_MSG_HDR);
      BoundaryConcat([SZ_MSG_HDR], RUnits(v), pos);
      assert Message(kind, v)[pos..] == e[pos - SZ_MSG_HDR..];
      FeedsOn(v, src, pos - SZ_MSG_HDR);
    }
  }

  lemma FeedsFresh(v: Val, src: bytes, off: nat)
    requires WF(v) && off <= |src| && Agrees(src[off..], Encode(v))
    ensures GoodChild(v, None, src, Cursor(off, off))
  {
    hide Encode, WF, RUnits, RBody, Agrees, HeadSz, Sum, Positive;
    RUnitsSum(v);
    NotBegun(v, 0);
    assert Encode(v)[0..] == Encode(v);
  }

  lemma FeedsOn(v: Val, src: bytes, done: nat)
    requires WF(v) && done <= |Encode(v)| && Boundary(RUnits(v), done) && Agrees(src, Encode(v)[done..])
    ensures GoodChild(v, Begun(v, done), src, Cursor(0 - done, 0))
  {
    hide Encode, WF, RUnits, RBody, Agrees, HeadSz, Sum, Positive, Boundary;
    RUnitsSum(v);
    assert src[0..] == src;
  }

  /** Where a call takes up what follows a header of `h` bytes: it has just read the header, or skipped it. */
  predicate AfterHeader(h: nat, cap: nat, pos: nat, c: Cursor) {
    if pos == 0 then cap >= h && c == Cursor(h, h) else pos >= h && c == Cursor(h - pos, 0)
  }

  /** The pass over what follows a header, said of both. */
  lemma PassAfterHeader(h: nat, us: seq<nat>, cap: nat, pos: nat, c: Cursor)
    requires h > 0 && Positive(us) && Boundary([h] + us, pos) && pos < h + Sum(us) && AfterHeader(h, cap, pos, c)
    ensures var n := Greedy(Drop([h] + us, pos), cap);
            && n <= cap && h <= pos + n <= h + Sum(us) && Boundary([h] + us, pos + n)
            && PassOver(us, cap, c) == Pass(Sum(us), if pos == 0 then 0 else pos - h, pos + n - h, Cursor(n, n))
  {
    hide Sum, Positive;
    SumOne(h);
    SumHead(h, us);
    BoundaryConcat([h], us, pos);
    DropConcat([h], us, pos);
    StepBoundary([h] + us, pos, cap);
    assert ([h] + us)[1..] == us;
    if pos != 0 {
      PassFromStart(us, cap, c);
    } else {
      PassFresh(us, cap, c);
    }
  }

  lemma PassFresh(us: seq<nat>, cap: nat, c: Cursor)
    requires c.csr == c.off <= cap
    ensures var n := Greedy(us, cap - c.off);
            n <= cap - c.off && PassOver(us, cap, c) == Pass(Sum(us), 0, n, Cursor(c.off + n, c.off + n))
  {
    hide Sum;
    GreedyBounds(us, cap - c.off);
  }

  /** What reading the payload does, said of the whole frame. */
  lemma FrameStep(v: Val, src: bytes, pos: nat, c: Cursor, slot: Option<Part>, d: Cursor, rr: ReadResult)
    requires WF(v) && pos < MsgLen(v) && Boundary(FrameUnits(v), pos) && AfterHeader(SZ_MSG_HDR, |src|, pos, c)
    requires DidChild(v, src, c, slot, d, rr)
    ensures var n := Greedy(Drop(FrameUnits(v), pos), |src|);
            && d.off == n && SZ_MSG_HDR <= pos + n <= MsgLen(v) && Boundary(FrameUnits(v), pos + n)
            && slot == Begun(v, pos + n - SZ_MSG_HDR)
            && (rr.RD_OK? <==> pos + n == MsgLen(v)) && (rr.RD_OK? || rr.RD_INCOMPLETE?)
            && (rr.RD_OK? ==> slot == Some(Whole(v)))
  {
    hide Encode, WF, RUnits, RBody, HeadSz, After, WireSz, PassOver, Sum, Boundary, Drop, Greedy, Positive;
    RUnitsSum(v);
    WireSzIsLength(v);
    PassAfterHeader(SZ_MSG_HDR, RUnits(v), |src|, pos, c);
  }

  lemma StartIsBoundary(us: seq<nat>)
    ensures Boundary(us, 0)
  {
  }

  /** Where a call begins that is offered the rest of a compressed frame. */
  lemma PackedStart(kind: byte, v: Val, toks: seq<Lz.Token>, src: bytes, pos: nat)
    requires WFPacked(v, toks) && Boundary(PackedUnits(toks), pos) && Offers(src, Packed(kind, v, toks), pos)
    ensures 0 < pos ==> pos >= SZ_PACKED_HDR
    ensures PackedLen(toks) < TWO_31
    ensures pos == 0 && |src| < SZ_PACKED_HDR ==> Greedy(Drop(PackedUnits(toks), pos), |src|) == 0
    ensures pos == 0 && |src| >= SZ_MSG_HDR ==> src[0] == 1 && src[1] == kind && src[2] == 1
    ensures pos == 0 ==> Agrees(src, Packed(kind, v, toks))
  {
    hide WF, Lz.Run, Lz.Pack, Lz.BlockLens, Agrees, ToLE, MsgLen;
    if pos == 0 {
      var m := Packed(kind, v, toks);
      assert m[0..] == m && src[0..] == src;
      if |src| >= SZ_MSG_HDR {
        SameByte(src, 0, m, 0);
        SameByte(src, 0, m, 1);
        SameByte(src, 0, m, 2);
      }
    }
  }

  lemma PackedPayload(kind: byte, v: Val, toks: seq<Lz.Token>, src: bytes)
    requires Agrees(src, Packed(kind, v, toks)) && |src| >= SZ_PACKED_HDR
    ensures Agrees(src[SZ_PACKED_HDR..], Lz.Pack(toks))
  {
    hide Lz.Pack, Agrees, ToLE, MsgLen;
    AgreesSplit(src, [1, kind, 1, 0] + ToLE(4, PackedLen(toks)) + ToLE(4, MsgLen(v)), Lz.Pack(toks));
  }

  /** A call that began at `pos` of a compressed frame stands at `at` of its buffer, with `left` to be decompressed. */
  predicate PackedAt(pos: nat, cap: nat, toks: seq<Lz.Token>, left: seq<Lz.Token>, at: nat) {
    && pos < PackedLen(toks) && Boundary(PackedUnits(toks), pos) && at <= cap
    && if pos == 0 then at == SZ_PACKED_HDR && left == toks
       else at == 0 && Lz.BlockLens(left) == Drop(PackedUnits(toks), pos)
  }

  /** What decompressing does, said of the whole frame. */
  lemma PackedStep(toks: seq<Lz.Token>, cap: nat, pos: nat, at: nat, left: seq<Lz.Token>, used: nat,
            rest: seq<Lz.Token>)
    requires PackedAt(pos, cap, toks, left, at)
    requires used == Greedy(Lz.BlockLens(left), cap - at) && Lz.BlockLens(rest) == Drop(Lz.BlockLens(left), used)
    ensures at + used == Greedy(Drop(PackedUnits(toks), pos), cap)
    ensures pos + at + used <= PackedLen(toks) && Boundary(PackedUnits(toks), pos + at + used)
    ensures Lz.BlockLens(rest) == Drop(PackedUnits(toks), pos + at + used)
    ensures pos + at + used == PackedLen(toks) <==> rest == []
  {
    hide Lz.Pack, Lz.BlockLens, Sum, Positive, Greedy, Drop, Boundary;
    var us, blocks := PackedUnits(toks), Lz.BlockLens(toks);
    Lz.BlockLensSum(toks);
    SumHead(SZ_PACKED_HDR, blocks);
    StepBoundary(us, pos, cap);
    var n := Greedy(Drop(us, pos), cap);
    if pos == 0 {
      PastFirst(SZ_PACKED_HDR, blocks, cap);
    } else {
      DropTwice(us, pos, n);
    }
    NothingLeftIff(us, pos + n);
    NoBlocksIff(rest);
  }

  lemma PastFirst(h: nat, us: seq<nat>, cap: nat)
    requires 0 < h <= cap
    ensures var n := Greedy(us, cap - h);
            && Greedy(Drop([h] + us, 0), cap) == h + n && Drop([h] + us, h + n) == Drop(us, n)
  {
    assert ([h] + us)[1..] == us;
  }

  lemma NothingLeftIff(us: seq<nat>, n: nat)
    requires Positive(us) && Boundary(us, n)
    ensures Drop(us, n) == [] <==> n == Sum(us)
  {
    hide Drop, Boundary;
    DropSum(us, n);
    if n == Sum(us) {
      DropAll(us, n);
    }
  }

  lemma NoBlocksIff(ts: seq<Lz.Token>)
    ensures Lz.BlockLens(ts) == [] <==> ts == []
  {
  }

  lemma InflaterState(z: Decompressor.KdbIpcDecompressor)
    requires z.Resting()
    ensures z.toks == z.done + z.rest && z.off <= z.dst.Length
    ensures Lz.Run(Lz.INIT, z.done).Some? && Lz.Run(Lz.INIT, z.done).value.out == z.dst[..z.off]
  {
    assert [] + z.rest == z.rest;
  }

  lemma PackedFields(kind: byte, v: Val, toks: seq<Lz.Token>, src: bytes)
    requires WFPacked(v, toks) && Agrees(src, Packed(kind, v, toks)) && |src| >= SZ_PACKED_HDR
    ensures AsInt32(src[4..8]) == PackedLen(toks) < TWO_31 && AsInt32(src[8..12]) == MsgLen(v)
    ensures Lz.Run(Lz.INIT, toks).Some? && MsgLen(v) == SZ_MSG_HDR + |Lz.Run(Lz.INIT, toks).value.out|
  {
    hide AsInt32, Lz.Run, Encode, WireSz, Lz.Pack, WF;
    var e := Packed(kind, v, toks);
    assert src[..12] == e[..12];
    assert src[4..8] == src[..12][4..8] == e[4..8] == ToLE(4, PackedLen(toks));
    assert src[8..12] == src[..12][8..12] == e[8..12] == ToLE(4, MsgLen(v));
    Int32RoundTrip(PackedLen(toks));
    Int32RoundTrip(MsgLen(v));
    WireSzIsLength(v);
  }

  /** What the first tokens decode to is the beginning of the payload. */
  lemma InflatedStart(v: Val, toks: seq<Lz.Token>, done: seq<Lz.Token>, left: seq<Lz.Token>, z: bytes)
    requires WFPacked(v, toks) && toks == done + left
    requires Lz.Run(Lz.INIT, done).Some? && z == Lz.Run(Lz.INIT, done).value.out
    ensures WF(v) && GoodChild(v, None, z, Cursor(0, 0)) && z <= Encode(v)
    ensures left == [] <==> z == Encode(v)
  {
    hide Lz.Step, Lz.Run, Encode, RBody, Sum, Positive, WF;
    Lz.RunConcat(Lz.INIT, done, left);
    Lz.RunExtends(Lz.Run(Lz.INIT, done).value, left);
    if left == [] {
      assert done + left == done;
    }
    RUnitsSum(v);
    StartFeeds(v, z);
  }

  /** A buffer that begins with the encoding of `v`. */
  lemma StartFeeds(v: Val, z: bytes)
    requires WF(v) && Agrees(z, Encode(v))
    ensures GoodChild(v, None, z, Cursor(0, 0))
  {
    hide Encode, RBody, WF, After;
    RUnitsSum(v);
    assert Encode(v)[0..] == Encode(v);
    assert z[0..] == z;
  }

  /** What a later parse makes of an atom: it takes the type byte for the first byte of the value. */
  function Shifted(v: Val): Part
    requires WF(v) && v.Atom?
  {
    PAtom(v.typ, FromLE([U8(v.typ)] + ToLE(FixedWidth(v.typ), v.bits)[..FixedWidth(v.typ) - 1]))
  }

  lemma ShiftedIs(v: Val, toks: seq<Lz.Token>)
    requires WFPacked(v, toks) && v.Atom?
    ensures WF(v) && FixedWidth(v.typ) > 0 && |Encode(v)| == 1 + FixedWidth(v.typ)
    ensures PAtom(v.typ, FromLE(Encode(v)[..FixedWidth(v.typ)])) == Shifted(v)
  {
    hide ToLE, FromLE, Patterns, Lz.Run, Lz.Pack;
    var w := FixedWidth(v.typ);
    assert Encode(v)[..w] == [U8(v.typ)] + ToLE(w, v.bits)[..w - 1];
  }

  /** That is the atom sent exactly if every byte of its value is the type byte. */
  lemma ShiftedRightIff(v: Val)
    requires WF(v) && v.Atom?
    ensures var w := FixedWidth(v.typ);
            Shifted(v) == Whole(v) <==> forall i :: 0 <= i < w ==> ToLE(w, v.bits)[i] == U8(v.typ)
  {
    hide ToLE, FromLE, Patterns;
    var w := FixedWidth(v.typ);
    var b := ToLE(w, v.bits);
    var z := [U8(v.typ)] + b[..w - 1];
    FromToLE(w, v.bits);
    ToFromLE(z);
    ToFromLE(b);
    assert FromLE(z) == FromLE(b) <==> z == b;
    if z == b {
      AllAlike(b, U8(v.typ));
    }
    assert (forall i :: 0 <= i < w ==> b[i] == U8(v.typ)) ==> z == b;
  }

  lemma {:induction false} AllAlike(b: bytes, x: byte)
    requires b != [] && b == [x] + b[..|b| - 1]
    ensures forall i :: 0 <= i < |b| ==> b[i] == x
  {
    forall i | 0 <= i < |b|
      ensures b[i] == x
    {
      AlikeAt(b, x, i);
    }
  }

  lemma {:induction false} AlikeAt(b: bytes, x: byte, i: nat)
    requires i < |b| && b == [x] + b[..|b| - 1]
    ensures b[i] == x
  {
    if i > 0 {
      AlikeAt(b, x, i - 1);
      assert b[i] == b[..|b| - 1][i - 1];
    }
  }

  /** The reader's units of an atom: its type byte, then its value. */
  lemma AtomUnits(v: Val, have: nat)
    requires WF(v) && v.Atom?
    ensures var w := FixedWidth(v.typ);
            && |Encode(v)| == 1 + w
            && Greedy(RUnits(v), have) == if have == 0 then 0 else if have < 1 + w then 1 else 1 + w
    ensures Begun(v, 1) == Some(PAtom(v.typ, 0))
  {
    hide ToLE, Patterns;
    var w := FixedWidth(v.typ);
    assert RUnits(v) == [1, w];
    assert [1, w][1..] == [w] && [w][1..] == [];
    assert have >= 1 ==> Greedy([1, w], have) == 1 + Greedy([w], have - 1);
    assert have >= 1 + w ==> Greedy([w], have - 1) == w + Greedy([], have - 1 - w);
  }

  /** An atom whose type byte an earlier call has taken reads its value from the first byte on. */
  lemma AtomResumed(v: Val, p: Part, z: bytes, c: Cursor, q: Part, d: Cursor, rr: ReadResult)
    requires WF(v) && z <= Encode(v) && p.PAtom? && c.off == 0 <= c.csr && DidAtom(p, z, c, q, d, rr)
    ensures var w := FixedWidth(p.atyp);
            && |z| <= |Encode(v)|
            && if |z| < w then rr.RD_INCOMPLETE? && q == p && d.off == 0
               else rr.RD_OK? && q == p.(bits := FromLE(Encode(v)[..w]))
  {
    hide Encode, WF, FromLE;
    var w := FixedWidth(p.atyp);
    if w <= |z| {
      assert z[0..w] == Encode(v)[..w];
    }
  }

  /** All of the payload makes the whole message; less than its head makes nothing. */
  lemma InflatedEnd(v: Val, z: bytes, slot: Option<Part>, d: Cursor, rr: ReadResult)
    requires WF(v) && z <= Encode(v)
    requires DidChild(v, z, Cursor(0, 0), slot, d, rr)
    ensures rr.RD_OK? || rr.RD_INCOMPLETE?
    ensures rr.RD_OK? <==> z == Encode(v)
    ensures rr.RD_OK? ==> slot == Some(Whole(v))
    ensures |z| < HeadSz(v) ==> rr.RD_INCOMPLETE? && slot == None && d.off == 0
    ensures d.off == Greedy(RUnits(v), |z|) && (rr.RD_OK? <==> d.off == |Encode(v)|) && slot == Begun(v, d.off)
  {
    hide Lz.Run, Encode, RBody, After, WF;
    RUnitsSum(v);
    var us := RUnits(v);
    PassFromStart(us, |z|, Cursor(0, 0));
    BoundaryAtSum(us);
    GreedyIsLargestBoundary(us, |z|, Sum(us));
    SumHead(HeadSz(v), RBody(v));
  }
}
