/** Reading one response through a small buffer: what a call does not use is moved to the front and offered again. */
module ResponseLoop {
  import opened Bytes
  import opened KdbValue
  import opened Cursors
  import opened Units
  import opened Partial
  import opened MessageWriter
  import opened MessageReader

  /** Moves what lies at `used` and after it to the front; the buffer held the stream from `from` to `at`. */
  method Compact(buf: array<byte>, used: nat, len: nat, ghost stream: bytes, ghost from: nat, ghost at: nat)
    requires used <= len <= buf.Length && from + len == at <= |stream| && buf[..len] == stream[from..at]
    modifies buf
    ensures buf[..len - used] == stream[from + used..at]
  {
    assert forall j :: 0 <= j < len ==> buf[..len][j] == stream[from + j];
    for i := 0 to len - used
      invariant forall j :: 0 <= j < i ==> buf[j] == stream[from + used + j]
      invariant forall j :: used + i <= j < len ==> buf[j] == stream[from + j]
    {
      buf[i] := buf[used + i];
    }
  }

  /** `n` more bytes arrive in the buffer after the `len` that are there. */
  method Receive(buf: array<byte>, len: nat, stream: bytes, at: nat, n: nat, ghost from: nat)
    requires len + n <= buf.Length && at + n <= |stream| && from + len == at && buf[..len] == stream[from..at]
    modifies buf
    ensures buf[..len + n] == stream[from..at + n]
  {
    for i := 0 to n
      invariant buf[..len + i] == stream[from..at + i]
    {
      buf[len + i] := stream[at + i];
    }
  }

  /** One call of the reader with all that has arrived and was not used. */
  method Call(reader: KdbIpcMessageReader, src: bytes, ghost kind: byte, ghost v: Val, ghost stream: bytes,
            ghost at: nat, ghost cap: nat)
    returns (complete: bool, message: Option<Part>)
    requires reader.Sound() && reader.Within(v) && Message(kind, v) <= stream && reader.bytUsd <= at <= |stream|
    requires src == stream[reader.bytUsd..at] && |src| <= cap < TWO_31
    requires Positive(FrameUnits(v)) && Boundary(FrameUnits(v), reader.bytUsd) && MsgLen(v) == Sum(FrameUnits(v))
    requires !AllFit(FrameUnits(v), cap) ==> !AllFit(Drop(FrameUnits(v), reader.bytUsd), cap)
    modifies reader, reader.Held()
    ensures reader.Sound() && (reader.inflater == old(reader.inflater) || fresh(reader.Held()))
    ensures old(reader.bytUsd) <= reader.bytUsd <= at && reader.bytUsd <= MsgLen(v)
    ensures complete ==> reader.bytUsd == MsgLen(v) && message == Some(Whole(v)) && AllFit(FrameUnits(v), cap)
    ensures old(reader.OfKind(kind)) ==> reader.OfKind(kind) && (complete ==> reader.msgTyp == kind)
    ensures !complete ==> message == None && reader.Within(v) && Stands(FrameUnits(v), reader.bytUsd, at, cap)
  {
    hide MsgLen, FrameUnits, Message, WF, Whole, Greedy, Drop, Boundary, Offers, Agrees, AllFit, Sane, Sum, Positive;
    hide Stands;
    hide KdbIpcMessageReader.Within, KdbIpcMessageReader.WithinPacked;
    hide KdbIpcMessageReader.OfKind;
    OfferedNext(reader, kind, v, stream, at, src);
    Moves(FrameUnits(v), reader.bytUsd, at, cap);
    var res;
    complete, res := reader.ReadMsg(src, kind, v, []);
    message := res.message;
  }

  /** The bytes that have arrived after reads that have so much to offer, of `total` that are sent: a read fills at
      most what is left of the buffer, and none follows the one that completes the frame. */
  function Arrived(us: seq<nat>, cap: nat, total: nat, at: nat, sizes: seq<nat>): nat
    decreases |sizes|
  {
    if sizes == [] || at >= Sum(us) then at
    else Arrived(us, cap, total, at + Next(us, cap, total, at, sizes[0]), sizes[1..])
  }

  /** What one of them brings: the buffer still holds what lies beyond the whole units that have arrived. */
  function Next(us: seq<nat>, cap: nat, total: nat, at: nat, size: nat): nat {
    var held := at - Greedy(us, at);
    Min(Min(size, if held <= cap then cap - held else 0), if at <= total then total - at else 0)
  }

  /** Reads a response from a connection that delivers `stream`; `sizes[i]` is what the i-th read has to offer.
      Whatever the sizes, the response is complete exactly when the whole frame has arrived, and then the whole frame
      has been used and nothing after it; that takes buffers in which every unit fits, and with them no more reads
      than the frame has bytes. */
  method ReadResponse(buf: array<byte>, sizes: seq<nat>, stream: bytes, ghost kind: byte, ghost v: Val)
    returns (response: Option<Part>, used: nat, typ: byte)
    requires WF(v) && MsgLen(v) < TWO_31 && buf.Length < TWO_31
    requires Message(kind, v) <= stream
    modifies buf
    ensures used <= MsgLen(v) && response == (if used == MsgLen(v) then Some(Whole(v)) else None)
    ensures response.Some? ==> typ == kind
    ensures response.Some? <==> Arrived(FrameUnits(v), buf.Length, |stream|, 0, sizes) >= MsgLen(v)
    ensures response.Some? ==> AllFit(FrameUnits(v), buf.Length)
    ensures AllFit(FrameUnits(v), buf.Length) && Positive(sizes) && |sizes| >= MsgLen(v) ==> response.Some?
  {
    hide MsgLen, FrameUnits, Message, WF, Whole, Greedy, Drop, Boundary, Offers, Agrees, AllFit, Sane, Sum, Positive;
    hide Stands, Arrived, Next, Reading;
    hide KdbIpcMessageReader.Within, KdbIpcMessageReader.WithinPacked;
    var reader := new KdbIpcMessageReader();
    ghost var us, cap := FrameUnits(v), buf.Length;
    Begins(reader, kind, v, cap);
    ReadingBegins(us, sizes, cap, |stream|);
    response := None;
    var dataLen: nat, at: nat := 0, 0;
    for i := 0 to |sizes|
      invariant reader.Sound() && reader.Within(v) && reader.OfKind(kind) && fresh(reader) && fresh(reader.Held())
      invariant 0 <= reader.bytUsd <= at <= |stream| && dataLen == at - reader.bytUsd <= buf.Length
      invariant buf[..dataLen] == stream[reader.bytUsd..at]
      invariant Reading(us, sizes, i, reader.bytUsd, at, cap, |stream|)
    {
      ReadingIs(us, sizes, i, reader.bytUsd, at, cap, |stream|);
      var n := Min(Min(sizes[i], buf.Length - dataLen), |stream| - at);
      Receive(buf, dataLen, stream, at, n, reader.bytUsd);
      dataLen, at := dataLen + n, at + n;
      var off0 := reader.bytUsd;
      var complete, message := Call(reader, buf[..dataLen], kind, v, stream, at, cap);
      ReadingStep(us, sizes, i, off0, at - n, cap, |stream|, n, reader.bytUsd);
      var used0 := reader.bytUsd - off0;
      if complete {
        return message, reader.bytUsd, reader.msgTyp;
      }
      // `used0` never exceeds `dataLen`
      if used0 < dataLen {
        Compact(buf, used0, dataLen, stream, off0, at);
      }
      dataLen := dataLen - used0;
    }
    used, typ := reader.bytUsd, reader.msgTyp;
    ReadingIs(us, sizes, |sizes|, used, at, cap, |stream|);
  }

  /** After `i` reads `at` bytes have arrived, and `used` of them have been used; the others bring what they would. */
  ghost predicate Reading(us: seq<nat>, sizes: seq<nat>, i: nat, used: nat, at: nat, cap: nat, total: nat) {
    && i <= |sizes| && Stands(us, used, at, cap) && Sum(us) <= total
    && Arrived(us, cap, total, 0, sizes) == Arrived(us, cap, total, at, sizes[i..])
    && (AllFit(us, cap) && Positive(sizes) ==> at >= i)
  }

  lemma ReadingBegins(us: seq<nat>, sizes: seq<nat>, cap: nat, total: nat)
    requires Stands(us, 0, 0, cap) && Sum(us) <= total
    ensures Reading(us, sizes, 0, 0, 0, cap, total)
  {
    hide Stands, Arrived;
    assert sizes[0..] == sizes;
  }

  lemma ReadingIs(us: seq<nat>, sizes: seq<nat>, i: nat, used: nat, at: nat, cap: nat, total: nat)
    requires Reading(us, sizes, i, used, at, cap, total)
    ensures Positive(us) && Boundary(us, used) && used <= at < Sum(us)
    ensures !AllFit(us, cap) ==> !AllFit(Drop(us, used), cap)
    ensures i == |sizes| ==> Arrived(us, cap, total, 0, sizes) == at < Sum(us)
    ensures i == |sizes| >= Sum(us) ==> !(AllFit(us, cap) && Positive(sizes))
  {
    hide Boundary, Greedy, Drop, Sum;
    GreedyBounds(us, at);
  }

  /** One more read; if what there is then is the whole frame no other follows, and otherwise the rest is left. */
  lemma ReadingStep(us: seq<nat>, sizes: seq<nat>, i: nat, used: nat, at: nat, cap: nat, total: nat, n: nat,
                    next: nat)
    requires Reading(us, sizes, i, used, at, cap, total) && i < |sizes| && used <= at <= used + cap && at <= total
    requires n == Min(Min(sizes[i], cap - (at - used)), total - at)
    ensures at + n >= Sum(us) ==> Arrived(us, cap, total, 0, sizes) == at + n
    ensures Stands(us, next, at + n, cap) ==> Reading(us, sizes, i + 1, next, at + n, cap, total)
  {
    hide Boundary, Greedy, Drop, Sum, Arrived;
    ReadStep(us, cap, total, at, sizes, i);
    EnoughArrived(us, cap, total, at + n, sizes[i + 1..]);
  }

  lemma ReadStep(us: seq<nat>, cap: nat, total: nat, at: nat, sizes: seq<nat>, i: nat)
    requires i < |sizes| && at < Sum(us) && at <= total && at - Greedy(us, at) <= cap
    ensures Arrived(us, cap, total, at, sizes[i..])
         == Arrived(us, cap, total, at + Min(Min(sizes[i], cap - (at - Greedy(us, at))), total - at), sizes[i + 1..])
  {
    assert sizes[i..][1..] == sizes[i + 1..];
  }

  lemma EnoughArrived(us: seq<nat>, cap: nat, total: nat, at: nat, sizes: seq<nat>)
    ensures at >= Sum(us) || sizes == [] ==> Arrived(us, cap, total, at, sizes) == at
  {
  }

  /** The beginning of a unit is less than the largest. */
  lemma LessThanUnit(us: seq<nat>, at: nat, m: nat)
    requires Positive(us) && AllFit(us, m) && at < Sum(us)
    ensures Greedy(us, at) <= at < Greedy(us, at) + m
  {
    hide Boundary, Greedy, Drop, Sum;
    var next := Greedy(us, at);
    GreedyBounds(us, at);
    StepBoundary(us, 0, at);
    assert Drop(us, 0) == us by {
      DropNone(us);
    }
    DropFits(us, next, m);
    GreedyResume(us, next, at);
    DropSum(us, next);
    TooBig(Drop(us, next), at - next);
  }

  lemma DropNone(us: seq<nat>)
    ensures Drop(us, 0) == us && Boundary(us, 0)
  {
  }

  /** With reads that fill the buffer and no unit larger than `m`, as many reads do as have room for the frame when
      each loses less than a unit. */
  lemma {:induction false} FullReadsSuffice(us: seq<nat>, cap: nat, total: nat, at: nat, sizes: seq<nat>, m: nat)
    requires Positive(us) && AllFit(us, m) && 0 < m <= cap && Sum(us) <= total
    requires forall i :: 0 <= i < |sizes| ==> sizes[i] >= cap
    requires at + |sizes| * (cap - m + 1) >= Sum(us)
    ensures Arrived(us, cap, total, at, sizes) >= Sum(us)
    decreases |sizes|
  {
    hide Greedy, Sum, Positive;
    if at < Sum(us) {
      LessThanUnit(us, at, m);
      var step := Next(us, cap, total, at, sizes[0]);
      Times(|sizes|, cap - m + 1);
      if at + step < Sum(us) {
        FullReadsSuffice(us, cap, total, at + step, sizes[1..], m);
      }
    }
  }

  lemma Times(k: nat, n: nat)
    ensures k * n >= 0 && (k > 0 ==> k * n == n + (k - 1) * n)
  {
  }

  lemma NextBound(us: seq<nat>, cap: nat, total: nat, at: nat, size: nat)
    requires Greedy(us, at) <= at
    ensures Next(us, cap, total, at, size) <= cap
  {
  }

  /** So many reads bring no more than so many buffers. */
  lemma {:induction false} NoMoreThan(us: seq<nat>, cap: nat, total: nat, at: nat, sizes: seq<nat>)
    ensures Arrived(us, cap, total, at, sizes) <= at + |sizes| * cap
    decreases |sizes|
  {
    hide Greedy, Sum, Next;
    Times(|sizes|, cap);
    if sizes != [] && at < Sum(us) {
      GreedyBounds(us, at);
      NextBound(us, cap, total, at, sizes[0]);
      NoMoreThan(us, cap, total, at + Next(us, cap, total, at, sizes[0]), sizes[1..]);
    }
  }

  const READS := 11
  const PALTRY := 24

  /** The program gives up after eleven reads into a buffer of 24 bytes, and shows the response without asking whether
      there is one: None is a null pointer dereferenced.  Frames of more than 264 bytes always end so; if every read
      fills the buffer, those that have no unit above `m` and no more than 11 * (25 - m) bytes never do. */
  method ShowResponse(sizes: seq<nat>, stream: bytes, ghost kind: byte, ghost v: Val, ghost m: nat)
    returns (shown: Option<Part>, typ: byte)
    requires |sizes| == READS && WF(v) && MsgLen(v) < TWO_31 && Message(kind, v) <= stream
    ensures shown == if Arrived(FrameUnits(v), PALTRY, |stream|, 0, sizes) >= MsgLen(v) then Some(Whole(v)) else None
    ensures shown.Some? ==> typ == kind
    ensures MsgLen(v) > READS * PALTRY ==> shown == None
    ensures && (forall i :: 0 <= i < |sizes| ==> sizes[i] >= PALTRY)
            && AllFit(FrameUnits(v), m) && m <= PALTRY && MsgLen(v) <= READS * (PALTRY - m + 1)
            ==> shown.Some?
  {
    hide MsgLen, FrameUnits, Message, WF, Whole, Arrived, AllFit, Sum, Positive;
    var buf := new byte[PALTRY];
    FrameSum(kind, v);
    NoMoreThan(FrameUnits(v), PALTRY, |stream|, 0, sizes);
    if (forall i :: 0 <= i < |sizes| ==> sizes[i] >= PALTRY) && AllFit(FrameUnits(v), m) && 0 < m <= PALTRY
       && MsgLen(v) <= READS * (PALTRY - m + 1) {
      FullReadsSuffice(FrameUnits(v), PALTRY, |stream|, 0, sizes, m);
    }
    var used;
    shown, used, typ := ReadResponse(buf, sizes, stream, kind, v);
  }

  lemma FrameSum(kind: byte, v: Val)
    requires WF(v)
    ensures MsgLen(v) == Sum(FrameUnits(v)) == |Message(kind, v)|
    ensures Positive(FrameUnits(v)) && !AllFit(FrameUnits(v), 0)
  {
    hide RBody, Encode, WF, WireSz, RUnits;
    RUnitsSum(v);
    WireSzIsLength(v);
    SumHead(SZ_MSG_HDR, RUnits(v));
  }

  /** `used` bytes of the `at` that have arrived have been used: all the whole units among them. */
  ghost predicate Stands(us: seq<nat>, used: nat, at: nat, cap: nat) {
    && Positive(us) && Boundary(us, used) && used == Greedy(us, at) && at < Sum(us)
    && (AllFit(us, cap) ==> at - used < cap)
    && (!AllFit(us, cap) ==> !AllFit(Drop(us, used), cap))
  }

  lemma Begins(reader: KdbIpcMessageReader, kind: byte, v: Val, cap: nat)
    requires WF(v) && MsgLen(v) < TWO_31 && reader.Fresh()
    ensures reader.Within(v) && MsgLen(v) == Sum(FrameUnits(v)) == |Message(kind, v)|
    ensures Stands(FrameUnits(v), 0, 0, cap)
  {
    hide RBody, Encode, WF, WireSz;
    RUnitsSum(v);
    WireSzIsLength(v);
    SumHead(SZ_MSG_HDR, RUnits(v));
    reader.StillFresh(v, []);
  }

  /** The buffer offers the reader what comes next in the frame. */
  lemma OfferedNext(reader: KdbIpcMessageReader, kind: byte, v: Val, stream: bytes, at: nat, src: bytes)
    requires reader.Within(v) && Message(kind, v) <= stream && reader.bytUsd <= at <= |stream|
    requires src == stream[reader.bytUsd..at]
    ensures Offers(src, Message(kind, v), reader.bytUsd) && !reader.Announced(src) && !reader.Inflating()
  {
    hide Message, WF, Begun, Boundary;
    var m, pos := Message(kind, v), reader.bytUsd;
    if at <= |m| {
      assert src == m[pos..][..at - pos];
    } else {
      assert m[pos..] == src[..|m| - pos];
    }
    reader.PlainOffered(kind, v, src);
  }

  /** A call with more bytes uses all the whole units among them. */
  lemma Moves(us: seq<nat>, used: nat, at: nat, cap: nat)
    requires Positive(us) && Boundary(us, used) && used <= at <= used + cap
    requires !AllFit(us, cap) ==> !AllFit(Drop(us, used), cap)
    ensures var next := used + Greedy(Drop(us, used), at - used);
            && next == Greedy(us, at) <= at
            && (next < Sum(us) ==> Stands(us, next, at, cap))
            && (next < Sum(us) ==> Drop(us, next) != [] && at - next < Drop(us, next)[0])
            && (!AllFit(us, cap) ==> next < Sum(us))
            && next <= Sum(us)
  {
    hide Boundary, Greedy, Drop, Sum;
    var rest, room := Drop(us, used), at - used;
    var next := used + Greedy(rest, room);
    GreedyResume(us, used, at);
    StepBoundary(us, used, room);
    BoundaryAtSum(us);
    GreedyIsLargestBoundary(us, at, Sum(us));
    DropSum(us, used);
    DropSum(us, next);
    DropTwice(us, used, next - used);
    if next < Sum(us) {
      GreedyResume(us, next, at);
      TooBig(Drop(us, next), at - next);
    }
    if AllFit(us, cap) {
      if next < Sum(us) {
        DropFits(us, next, cap);
      }
    } else {
      GreedyKeepsBig(rest, room, cap);
      SumPositive(Drop(us, next));
    }
  }

  /** If nothing is taken, the next unit has not all arrived. */
  lemma TooBig(us: seq<nat>, room: nat)
    requires Positive(us) && Greedy(us, room) == 0
    ensures us == [] ==> Sum(us) == 0
    ensures us != [] ==> us[0] > room
  {
  }
}
