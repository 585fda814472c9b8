/** From one program to another: a value written through one buffer and read through another. */
module EndToEnd {
  import opened Bytes
  import opened KdbValue
  import opened Cursors
  import opened Partial
  import opened Writer
  import opened MessageWriter
  import opened MessageReader
  import opened ResponseLoop

  /** Calls the writer until it is done, or until a call finds no room for the next unit. */
  method SendAll(writer: KdbIpcMessageWriter, dst: array<byte>) returns (wire: bytes, done: bool)
    requires writer.Valid() && writer.bytRem == writer.ipcLen
    modifies writer`bytRem, dst
    ensures done <==> AllFit(MsgUnits(writer.root), dst.Length)
    ensures done ==> WF(writer.root) && wire == Message(writer.kind, writer.root)
  {
    hide WF, Plain, AsRead, MsgLen, MsgUnits, Message, Boundary, Greedy, Drop, Sum, Positive, AllFit, WireSz;
    ghost var v, us, cap := writer.root, MsgUnits(writer.root), dst.Length;
    wire, done := [], false;
    SendBegins(writer, cap);
    while !done
      invariant writer.Valid() && WF(v) && writer.ipcLen == MsgLen(v) == Sum(us) && Positive(us)
      invariant Boundary(us, writer.ipcLen - writer.bytRem)
      invariant wire == Message(writer.kind, v)[..writer.ipcLen - writer.bytRem]
      invariant done <==> writer.bytRem == 0
      invariant !AllFit(us, cap) ==> !AllFit(Drop(us, writer.ipcLen - writer.bytRem), cap)
      decreases writer.bytRem, !done
    {
      ghost var pos := writer.ipcLen - writer.bytRem;
      Advances(us, pos, cap);
      var before := writer.bytRem;
      var wr := writer.Write(dst);
      var n := before - writer.bytRem;
      WireGrows(Message(writer.kind, v), pos, n);
      wire := wire + dst[..n];
      done := wr.WR_OK?;
      if n == 0 && !done {
        return;
      }
    }
    assert writer.ipcLen - writer.bytRem == |Message(writer.kind, v)|;
    if !AllFit(us, cap) {
      Finished(us, cap);
    }
  }

  lemma SendBegins(writer: KdbIpcMessageWriter, cap: nat)
    requires writer.Valid() && writer.bytRem == writer.ipcLen
    ensures var us := MsgUnits(writer.root);
            && WF(writer.root) && Sum(us) == MsgLen(writer.root) > 0 && Positive(us)
            && (!AllFit(us, cap) ==> !AllFit(Drop(us, 0), cap))
  {
    hide WF, Plain, WireSz;
    MessageLength(writer.kind, writer.root);
  }

  /** A call moves on unless the next unit is larger than the buffer. */
  lemma Advances(us: seq<nat>, pos: nat, cap: nat)
    requires Positive(us) && Boundary(us, pos) && pos < Sum(us)
    ensures var n := Greedy(Drop(us, pos), cap);
            && Boundary(us, pos + n) && pos + n <= Sum(us)
            && (n == 0 ==> !AllFit(us, cap))
            && (!AllFit(Drop(us, pos), cap) ==> !AllFit(Drop(us, pos + n), cap))
  {
    hide Boundary, Greedy, Drop, Sum;
    var rest := Drop(us, pos);
    StepBoundary(us, pos, cap);
    DropSum(us, pos);
    DropTwice(us, pos, Greedy(rest, cap));
    if Greedy(rest, cap) == 0 {
      TooBig(rest, cap);
      if AllFit(us, cap) {
        DropFits(us, pos, cap);
      }
    }
    if !AllFit(rest, cap) {
      GreedyKeepsBig(rest, cap, cap);
    }
  }

  lemma WireGrows(m: bytes, pos: nat, n: nat)
    requires pos + n <= |m|
    ensures m[..pos] + m[pos..pos + n] == m[..pos + n]
  {
  }

  lemma Finished(us: seq<nat>, cap: nat)
    requires Positive(us)
    ensures Drop(us, Sum(us)) == [] && AllFit([], cap)
  {
    DropAll(us, Sum(us));
  }

  /** Written through a buffer of any size and read through another, in pieces of any sizes, a value arrives as it
      was sent if every unit of it that is written at once fits in the one buffer and the reads through the other bring
      all of it, and else not at all.  Enough reads that bring something do exactly if every unit that is read at once
      fits in that buffer. */
  method Transfer(kind: byte, v: Val, wcap: nat, rcap: nat, sizes: seq<nat>)
    returns (received: Option<Val>, typ: byte)
    requires WF(v) && Plain(v) && MsgLen(v) < TWO_31 && rcap < TWO_31
    ensures received == if && AllFit(MsgUnits(v), wcap)
                           && Arrived(FrameUnits(v), rcap, MsgLen(v), 0, sizes) >= MsgLen(v) then Some(v)
                        else None
    ensures received.Some? ==> typ == kind
    ensures Positive(sizes) && |sizes| >= MsgLen(v) ==>
              received == if AllFit(MsgUnits(v), wcap) && AllFit(FrameUnits(v), rcap) then Some(v) else None
  {
    hide WF, Plain, AsRead, MsgLen, MsgUnits, FrameUnits, Message, Whole, Positive, AllFit, Value, Arrived;
    var writer := new KdbIpcMessageWriter(kind, v);
    var dst := new byte[wcap];
    var wire, done := SendAll(writer, dst);
    if !done {
      return None, 0;
    }
    var buf := new byte[rcap];
    var response, used;
    response, used, typ := ReadResponse(buf, sizes, wire, kind, v);
    ValueOfWhole(v);
    AsReadIff(v);
    if response.None? {
      return None, typ;
    }
    received := Value(response.value);
  }
}
