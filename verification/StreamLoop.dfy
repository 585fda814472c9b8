/** The steady state of a subscriber: frames are cut out of a stream, those asked for are decoded, all are consumed. */
module StreamLoop {
  import opened Bytes
  import opened KdbValue
  import opened Cursors
  import opened Units
  import opened Partial
  import opened Scanner
  import opened UpdFilter
  import opened MessageWriter
  import opened MessageReader
  import opened CircularBuffers

  datatype Frame = Frame(kind: byte, msg: Val)

  predicate WFFrame(f: Frame) {
    WF(f.msg) && MsgLen(f.msg) < TWO_31
  }

  predicate WFFrames(fs: seq<Frame>) {
    forall i :: 0 <= i < |fs| ==> WFFrame(fs[i])
  }

  /** The bytes of the frames, one after the other. */
  function Stream(fs: seq<Frame>): bytes
    requires WFFrames(fs)
  {
    if fs == [] then [] else Message(fs[0].kind, fs[0].msg) + Stream(fs[1..])
  }

  /** The messages asked for, in order, as the reader makes them. */
  function Wanted(fs: seq<Frame>, fn: bytes, tbls: set<bytes>): seq<Part> {
    if fs == [] then []
    else (if Matches(fs[0].msg, fn, tbls) then [Whole(fs[0].msg)] else []) + Wanted(fs[1..], fn, tbls)
  }

  lemma FrameIsWF(f: Frame)
    requires WFFrame(f)
    ensures WF(f.msg)
  {
    hide WF;
  }

  lemma {:induction false} StreamConcat(a: seq<Frame>, b: seq<Frame>)
    requires WFFrames(a) && WFFrames(b)
    ensures Stream(a + b) == Stream(a) + Stream(b)
  {
    hide Message, MsgLen, WFFrame;
    if a == [] {
      assert a + b == b;
    } else {
      assert (a + b)[1..] == a[1..] + b;
      StreamConcat(a[1..], b);
      FrameIsWF(a[0]);
      Assoc(Message(a[0].kind, a[0].msg), Stream(a[1..]), Stream(b));
    }
  }

  lemma {:induction false} WantedConcat(a: seq<Frame>, b: seq<Frame>, fn: bytes, tbls: set<bytes>)
    ensures Wanted(a + b, fn, tbls) == Wanted(a, fn, tbls) + Wanted(b, fn, tbls)
  {
    hide Matches, Whole;
    if a == [] {
      assert a + b == b;
    } else {
      assert (a + b)[1..] == a[1..] + b;
      WantedConcat(a[1..], b, fn, tbls);
      PartsAssoc(if Matches(a[0].msg, fn, tbls) then [Whole(a[0].msg)] else [],
                 Wanted(a[1..], fn, tbls), Wanted(b, fn, tbls));
    }
  }

  lemma PartsAssoc(a: seq<Part>, b: seq<Part>, c: seq<Part>)
    ensures a + b + c == a + (b + c)
  {
  }

  /** The first `k` frames have been consumed and their messages delivered; `held` is what has arrived of the rest. */
  ghost predicate Served(fs: seq<Frame>, k: nat, stream: bytes, at: nat, held: bytes, got: seq<Part>, fn: bytes,
            tbls: set<bytes>): (b: bool)
    ensures b ==> k <= |fs|
  {
    && WFFrames(fs) && stream == Stream(fs) && k <= |fs| && |Stream(fs[..k])| <= at <= |stream|
    && held == stream[|Stream(fs[..k])|..at]
    && got == Wanted(fs[..k], fn, tbls)
  }

  /** The first `k` frames fit in a buffer of `cap` bytes. */
  ghost predicate FramesFit(fs: seq<Frame>, k: nat, cap: nat) {
    k <= |fs| && forall i :: 0 <= i < k ==> MsgLen(fs[i].msg) <= cap
  }

  lemma OneMoreFits(fs: seq<Frame>, k: nat, cap: nat)
    requires FramesFit(fs, k, cap) && k < |fs| && MsgLen(fs[k].msg) <= cap
    ensures FramesFit(fs, k + 1, cap)
  {
    hide MsgLen;
  }

  /** All frames that have arrived whole have been consumed. */
  ghost predicate Drained(fs: seq<Frame>, k: nat, held: bytes) {
    k <= |fs| && (k < |fs| ==> |held| < MsgLen(fs[k].msg)) && (k == |fs| ==> held == [])
  }

  lemma FrameNext(fs: seq<Frame>, k: nat, stream: bytes, at: nat, held: bytes, got: seq<Part>, fn: bytes,
            tbls: set<bytes>)
    requires Served(fs, k, stream, at, held, got, fn, tbls)
    ensures k == |fs| ==> held == []
    ensures k < |fs| ==>
              var f := fs[k];
              && WF(f.msg) && 8 < MsgLen(f.msg) < TWO_31 && Agrees(held, Message(f.kind, f.msg))
              && FilterMsg(held, fn, tbls)
                 == Code(if |held| < MsgLen(f.msg) then -1
                         else if Matches(f.msg, fn, tbls) then MsgLen(f.msg) else 0 - MsgLen(f.msg))
              && (|held| >= MsgLen(f.msg) ==>
                    Served(fs, k + 1, stream, at, held[MsgLen(f.msg)..],
                           got + (if Matches(f.msg, fn, tbls) then [Whole(f.msg)] else []), fn, tbls))
  {
    hide WF, Message, MsgLen, Matches, FilterMsg, Wanted, Stream, Whole;
    var a, b := fs[..k], fs[k..];
    assert fs == a + b;
    StreamConcat(a, b);
    if k < |fs| {
      var f := fs[k];
      NextFrame(fs, k);
      var m := Message(f.kind, f.msg);
      assert stream == Stream(a) + (m + Stream(fs[k + 1..]));
      FrameHeld(Stream(a), m, Stream(fs[k + 1..]), stream, at, held);
      FilterFrames(f.kind, f.msg, held, fn, tbls);
      WantedNext(fs, k, fn, tbls);
    } else {
      assert b == [];
      StreamNone();
    }
  }

  lemma StreamNone()
    ensures Stream([]) == []
  {
  }

  lemma NextFrame(fs: seq<Frame>, k: nat)
    requires WFFrames(fs) && k < |fs|
    ensures var f := fs[k];
            && WF(f.msg) && MsgLen(f.msg) < TWO_31 && |Message(f.kind, f.msg)| == MsgLen(f.msg)
            && Stream(fs[k..]) == Message(f.kind, f.msg) + Stream(fs[k + 1..])
            && Stream(fs[..k + 1]) == Stream(fs[..k]) + Message(f.kind, f.msg)
  {
    hide WF, Message, MsgLen;
    var f := fs[k];
    assert fs[k..] == [f] + fs[k + 1..] && fs[..k + 1] == fs[..k] + [f];
    assert WFFrame(f);
    StreamConcat([f], fs[k + 1..]);
    StreamConcat(fs[..k], [f]);
    assert [f][1..] == [];
  }

  lemma WantedNext(fs: seq<Frame>, k: nat, fn: bytes, tbls: set<bytes>)
    requires k < |fs|
    ensures Wanted(fs[..k + 1], fn, tbls)
         == Wanted(fs[..k], fn, tbls) + (if Matches(fs[k].msg, fn, tbls) then [Whole(fs[k].msg)] else [])
  {
    hide Matches, Whole;
    assert fs[..k + 1] == fs[..k] + [fs[k]];
    WantedConcat(fs[..k], [fs[k]], fn, tbls);
    assert [fs[k]][1..] == [];
  }

  lemma FrameHeld(before: bytes, m: bytes, after: bytes, stream: bytes, at: nat, held: bytes)
    requires stream == before + (m + after) && |before| <= at <= |stream| && held == stream[|before|..at]
    ensures Agrees(held, m)
    ensures |held| >= |m| ==> |before + m| <= at && held[|m|..] == stream[|before + m|..at]
  {
    assert stream[|before|..] == m + after;
    assert held == (m + after)[..at - |before|];
    if |held| <= |m| {
      assert held == m[..|held|];
    } else {
      assert held[..|m|] == m;
    }
  }

  /** Decodes the frame at the front of what is held. */
  method Decode(rdr: KdbIpcMessageReader, held: bytes, ghost kind: byte, ghost v: Val)
    returns (complete: bool, msg: Option<Part>)
    requires rdr.Sound() && rdr.Fresh() && rdr.inflater == null && |held| < TWO_64 - 1
    requires WF(v) && MsgLen(v) < TWO_31 && Agrees(held, Message(kind, v)) && |held| >= MsgLen(v)
    modifies rdr
    ensures complete && msg == Some(Whole(v)) && rdr.bytUsd == MsgLen(v)
    ensures rdr.inflater == null || fresh(rdr.Held())
  {
    hide WF, Message, MsgLen, Whole, Greedy, Drop, Agrees, FrameUnits;
    ghost var us, m := FrameUnits(v), Message(kind, v);
    FrameSize(kind, v, |held|);
    rdr.StillFresh(v, []);
    assert m[0..] == m;
    rdr.PlainOffered(kind, v, held);
    var res;
    complete, res := rdr.ReadMsg(held, kind, v, []);
    msg := res.message;
  }

  lemma FrameSize(kind: byte, v: Val, room: nat)
    requires WF(v) && room >= MsgLen(v)
    ensures MsgLen(v) >= 8 && Greedy(Drop(FrameUnits(v), 0), room) == MsgLen(v)
  {
    hide RBody, Encode, WF, WireSz, HeadSz;
    var us := FrameUnits(v);
    RUnitsSum(v);
    WireSzIsLength(v);
    SumHead(SZ_MSG_HDR, RUnits(v));
    BoundaryAtSum(us);
    GreedyBounds(us, room);
    GreedyIsLargestBoundary(us, room, Sum(us));
  }

  datatype Stop = Running | Full | ParseError | NotDecoded

  /** Takes whole frames off the buffer until the next has not all arrived, or `limit` messages have been delivered. */
  method Drain(buf: CircularBuffer, rdr: KdbIpcMessageReader, limit: nat, fn: bytes, tbls: set<bytes>, got0: seq<Part>,
               ghost fs: seq<Frame>, ghost k0: nat, ghost stream: bytes, ghost at: nat)
    returns (got: seq<Part>, stop: Stop, ghost k: nat)
    requires buf.Valid() && buf.ring.Length < TWO_64 - 1 && |got0| < limit
    requires rdr.Sound() && rdr.Fresh() && rdr.inflater == null
    requires Served(fs, k0, stream, at, buf.Contents(), got0, fn, tbls) && FramesFit(fs, k0, buf.ring.Length)
    modifies buf`pos, buf`len, rdr
    ensures buf.Valid() && stop.Running? && |got| <= limit
    ensures rdr.Sound() && rdr.Fresh() && rdr.inflater == null
    ensures Served(fs, k, stream, at, buf.Contents(), got, fn, tbls) && FramesFit(fs, k, buf.ring.Length)
    ensures if |got| < limit then Drained(fs, k, buf.Contents()) else FirstWith(fs, k, limit, fn, tbls)
  {
    hide WF, Message, MsgLen, Matches, FilterMsg, Whole, Agrees, Served, FramesFit, FirstWith;
    got, k := got0, k0;
    while true
      invariant buf.Valid() && |got| < limit && k <= |fs|
      invariant rdr.Sound() && rdr.Fresh() && rdr.inflater == null
      invariant Served(fs, k, stream, at, buf.Contents(), got, fn, tbls) && FramesFit(fs, k, buf.ring.Length)
      decreases |fs| - k
    {
      ghost var held := buf.Contents();
      FrameNext(fs, k, stream, at, held, got, fn, tbls);
      if k == |fs| {
        NothingHeld(fn, tbls);
      }
      var len := FilterMsg(buf.Contents(), fn, tbls);
      if len.Overrun? || len == Code(-2) {
        return got, ParseError, k;
      }
      if len.n == -1 {
        return got, Running, k;
      }
      OneMoreFits(fs, k, buf.ring.Length);
      if len.n < 0 {
        buf.SetConsumed(0 - len.n);
        k := k + 1;
        assert got + [] == got;
      } else {
        var complete, msg := Decode(rdr, buf.Contents(), fs[k].kind, fs[k].msg);
        if !complete {
          return got, NotDecoded, k;
        }
        got := got + [msg.value];
        rdr.Reset();
        buf.SetConsumed(len.n);
        k := k + 1;
        if |got| >= limit {
          LimitReached(fs, k, stream, at, buf.Contents(), got, limit, fn, tbls);
          return got, Running, k;
        }
      }
    }
  }

  /** `k` is the first number of frames with so many wanted messages. */
  ghost predicate FirstWith(fs: seq<Frame>, k: nat, limit: nat, fn: bytes, tbls: set<bytes>) {
    && 0 < k <= |fs| && |Wanted(fs[..k], fn, tbls)| == limit && |Wanted(fs[..k - 1], fn, tbls)| < limit
  }

  lemma LimitReached(fs: seq<Frame>, k: nat, stream: bytes, at: nat, held: bytes, got: seq<Part>, limit: nat, fn: bytes,
                     tbls: set<bytes>)
    requires Served(fs, k, stream, at, held, got, fn, tbls)
    requires k > 0 && got != [] && |got| == limit && Matches(fs[k - 1].msg, fn, tbls)
    ensures FirstWith(fs, k, limit, fn, tbls)
  {
    hide WF, Message, MsgLen, Matches, Wanted, Stream, Whole;
    WantedNext(fs, k - 1, fn, tbls);
  }

  lemma NothingHeld(fn: bytes, tbls: set<bytes>)
    ensures FilterMsg([], fn, tbls) == Code(-1)
  {
  }

  // ---- what a number of reads brings ----

  function FrameBytes(fs: seq<Frame>): nat {
    if fs == [] then 0 else MsgLen(fs[0].msg) + FrameBytes(fs[1..])
  }

  lemma {:induction false} StreamLength(fs: seq<Frame>)
    requires WFFrames(fs)
    ensures |Stream(fs)| == FrameBytes(fs)
  {
    hide WF, Message, MsgLen;
    if fs != [] {
      FrameIsWF(fs[0]);
      StreamLength(fs[1..]);
    }
  }

  /** The frames that are whole when `at` bytes have arrived. */
  function WholeFrames(fs: seq<Frame>, at: nat): (k: nat)
    ensures k <= |fs|
  {
    if fs == [] || MsgLen(fs[0].msg) > at then 0 else 1 + WholeFrames(fs[1..], at - MsgLen(fs[0].msg))
  }

  /** That is the one number of frames whose bytes have arrived while those of the next have not all. */
  lemma {:induction false} WholeFramesIs(fs: seq<Frame>, at: nat, k: nat)
    requires k <= |fs| && FrameBytes(fs[..k]) <= at && (k < |fs| ==> at < FrameBytes(fs[..k]) + MsgLen(fs[k].msg))
    ensures WholeFrames(fs, at) == k
    decreases k
  {
    hide MsgLen;
    if k > 0 {
      assert fs[..k][0] == fs[0] && fs[..k][1..] == fs[1..][..k - 1];
      WholeFramesIs(fs[1..], at - MsgLen(fs[0].msg), k - 1);
    }
  }

  /** It is the largest number of frames whose bytes have arrived. */
  lemma {:induction false} WholeFramesLargest(fs: seq<Frame>, at: nat, j: nat)
    requires j <= |fs|
    ensures FrameBytes(fs[..j]) <= at <==> j <= WholeFrames(fs, at)
    decreases j
  {
    hide MsgLen;
    if j > 0 {
      assert fs[..j][0] == fs[0] && fs[..j][1..] == fs[1..][..j - 1];
      if MsgLen(fs[0].msg) <= at {
        WholeFramesLargest(fs[1..], at - MsgLen(fs[0].msg), j - 1);
      }
    }
  }

  /** The bytes that have arrived, and whether the receiver gave up because its buffer was full. */
  datatype Progress = Progress(at: nat, full: bool)

  /** After reads that have so much to offer: a read fills at most what is left of the buffer, which holds what lies
      beyond the whole frames; none follows once `limit` messages have been delivered. */
  function Brought(fs: seq<Frame>, cap: nat, limit: nat, at: nat, sizes: seq<nat>,
                   fn: bytes, tbls: set<bytes>): Progress
    decreases |sizes|
  {
    var k := WholeFrames(fs, at);
    var held := at - FrameBytes(fs[..k]);
    if sizes == [] || |Wanted(fs[..k], fn, tbls)| >= limit then Progress(at, false)
    else if held >= cap then Progress(at, true)
    else Brought(fs, cap, limit, at + Offered(sizes[0], cap - held, FrameBytes(fs) - at), sizes[1..], fn, tbls)
  }

  function Offered(size: nat, room: int, left: int): nat {
    Min(Min(size, if room < 0 then 0 else room), if left < 0 then 0 else left)
  }

  /** One read that has the whole stream to offer, into a buffer that has room for it, brings all of it. */
  lemma OneReadSuffices(fs: seq<Frame>, cap: nat, limit: nat, sizes: seq<nat>, fn: bytes, tbls: set<bytes>)
    requires sizes != [] && sizes[0] >= FrameBytes(fs) && cap >= FrameBytes(fs) && limit > 0 && cap > 0
    ensures Brought(fs, cap, limit, 0, sizes, fn, tbls).at == FrameBytes(fs)
    ensures WholeFrames(fs, FrameBytes(fs)) == |fs|
  {
    hide Matches, Whole, WireSz;
    assert fs[..|fs|] == fs && fs[..0] == [];
    assert WholeFrames(fs, 0) == 0;
    WholeFramesLargest(fs, FrameBytes(fs), |fs|);
    NothingMore(fs, cap, limit, FrameBytes(fs), sizes[1..], fn, tbls);
    NothingMore(fs, cap, limit, FrameBytes(fs), sizes, fn, tbls);
  }

  lemma {:induction false} NothingMore(fs: seq<Frame>, cap: nat, limit: nat, at: nat, sizes: seq<nat>, fn: bytes,
                                       tbls: set<bytes>)
    requires at >= FrameBytes(fs)
    ensures Brought(fs, cap, limit, at, sizes, fn, tbls).at == at
    decreases |sizes|
  {
    hide MsgLen, Matches, Whole, Wanted, FrameBytes, WholeFrames;
    if sizes != [] {
      NothingMore(fs, cap, limit, at, sizes[1..], fn, tbls);
    }
  }

  /** Receives from a connection that delivers the frames `fs`, cut up in any way, until `limit` messages have been
      delivered.  Neither a frame that does not parse nor one that does not decode stops it, and a full buffer does
      exactly when the next frame is larger than the buffer.  What has been consumed are the frames whose bytes the
      reads have brought, all of them, or up to the one with the last message that is to be delivered; what it has
      delivered are the messages asked for among them.  If every read has something to offer, it delivers them all, or
      as many as it is to, unless there is a frame larger than the buffer; then it stops at the first. */
  method Receive(buf: CircularBuffer, rdr: KdbIpcMessageReader, limit: nat, fn: bytes, tbls: set<bytes>,
                 sizes: seq<nat>, stream: bytes, ghost fs: seq<Frame>)
    returns (got: seq<Part>, stop: Stop, ghost k: nat)
    requires buf.Valid() && buf.Contents() == [] && buf.ring.Length < TWO_64 - 1 && limit > 0
    requires rdr.Sound() && rdr.Fresh() && rdr.inflater == null
    requires WFFrames(fs) && stream == Stream(fs)
    modifies buf`pos, buf`len, buf.ring, rdr
    ensures k <= |fs| && |got| <= limit && got == Wanted(fs[..k], fn, tbls)
    ensures var p := Brought(fs, buf.ring.Length, limit, 0, sizes, fn, tbls);
            && stop == (if p.full then Full else Running)
            && if |got| < limit then k == WholeFrames(fs, p.at)
               else k <= WholeFrames(fs, p.at) && FirstWith(fs, k, limit, fn, tbls)
    ensures FramesFit(fs, k, buf.ring.Length)
    ensures stop.Full? ==> k < |fs| && MsgLen(fs[k].msg) > buf.ring.Length
    ensures Positive(sizes) && |sizes| >= |stream| && |got| < limit ==>
              (stop.Full? <==> k < |fs|) && (stop.Full? <==> !FramesFit(fs, |fs|, buf.ring.Length))
  {
    hide WF, Message, MsgLen, Matches, FilterMsg, Whole, Agrees, Served, Drained, Wanted, Stream, FramesFit;
    hide FirstWith, Brought, WholeFrames, FrameBytes, Offered;
    got, k, stop := [], 0, Running;
    var at := 0;
    Starts(fs, stream, buf.ring.Length, fn, tbls);
    ghost var p := Brought(fs, buf.ring.Length, limit, 0, sizes, fn, tbls);
    assert sizes[0..] == sizes;
    var i := 0;
    while i < |sizes| && |got| < limit
      invariant buf.Valid() && 0 <= at <= |stream| && i <= |sizes| && stop.Running?
      invariant rdr.Sound() && rdr.Fresh() && rdr.inflater == null
      invariant Served(fs, k, stream, at, buf.Contents(), got, fn, tbls) && |got| <= limit
      invariant FramesFit(fs, k, buf.ring.Length)
      invariant if |got| < limit then Drained(fs, k, buf.Contents()) else FirstWith(fs, k, limit, fn, tbls)
      invariant Positive(sizes) ==> at >= Min(i, |stream|)
      invariant p == Brought(fs, buf.ring.Length, limit, at, sizes[i..], fn, tbls)
    {
      ReadNext(fs, k, stream, at, buf.Contents(), got, buf.ring.Length, limit, sizes, i, fn, tbls);
      if buf.Writeable() == 0 {
        TooLarge(fs, k, buf.Contents(), buf.ring.Length);
        Ends(fs, k, stream, at, buf.Contents(), got, fn, tbls, false);
        stop := Full;
        return;
      }
      var n := Min(Min(sizes[i], buf.Writeable()), |stream| - at);
      Arrives(fs, k, stream, at, n, buf.Contents(), got, fn, tbls);
      buf.Append(stream[at..at + n]);
      at := at + n;
      got, stop, k := Drain(buf, rdr, limit, fn, tbls, got, fs, k, stream, at);
      i := i + 1;
    }
    ReadsEnd(fs, k, stream, at, buf.Contents(), got, buf.ring.Length, limit, sizes[i..], fn, tbls);
    Ends(fs, k, stream, at, buf.Contents(), got, fn, tbls, |got| < limit);
  }

  /** Between reads: all whole frames have been consumed, the buffer holds the rest. */
  lemma Between(fs: seq<Frame>, k: nat, stream: bytes, at: nat, held: bytes, got: seq<Part>,
                fn: bytes, tbls: set<bytes>)
    requires Served(fs, k, stream, at, held, got, fn, tbls)
    ensures |held| == at - FrameBytes(fs[..k]) && got == Wanted(fs[..k], fn, tbls)
    ensures |stream| == FrameBytes(fs) && at <= |stream|
    ensures k <= WholeFrames(fs, at)
    ensures Drained(fs, k, held) ==> k == WholeFrames(fs, at)
  {
    hide WF, Message, MsgLen, Wanted, Stream, FrameBytes, WholeFrames;
    StreamLength(fs);
    FirstFrames(fs, k);
    StreamLength(fs[..k]);
    WholeFramesLargest(fs, at, k);
    if Drained(fs, k, held) {
      if k == |fs| {
        assert fs[..k] == fs;
      }
      WholeFramesIs(fs, at, k);
    }
  }

  lemma FirstFrames(fs: seq<Frame>, k: nat)
    requires WFFrames(fs) && k <= |fs|
    ensures WFFrames(fs[..k])
  {
    hide WFFrame;
  }

  lemma {:induction false} WantedGrows(fs: seq<Frame>, j: nat, k: nat, fn: bytes, tbls: set<bytes>)
    requires j <= k <= |fs|
    ensures |Wanted(fs[..j], fn, tbls)| <= |Wanted(fs[..k], fn, tbls)|
  {
    hide Matches, Whole, Wanted;
    assert fs[..k] == fs[..j] + fs[j..k];
    WantedConcat(fs[..j], fs[j..k], fn, tbls);
  }

  lemma ReadNext(fs: seq<Frame>, k: nat, stream: bytes, at: nat, held: bytes, got: seq<Part>, cap: nat, limit: nat,
                 sizes: seq<nat>, i: nat, fn: bytes, tbls: set<bytes>)
    requires Served(fs, k, stream, at, held, got, fn, tbls) && Drained(fs, k, held) && |got| < limit && i < |sizes|
    requires |held| <= cap
    ensures k == WholeFrames(fs, at) && at <= |stream|
    ensures Brought(fs, cap, limit, at, sizes[i..], fn, tbls)
         == if |held| == cap then Progress(at, true)
            else Brought(fs, cap, limit, at + Min(Min(sizes[i], cap - |held|), |stream| - at), sizes[i + 1..], fn, tbls)
  {
    hide WF, Message, MsgLen, Wanted, Stream, Served, Drained, FrameBytes, WholeFrames;
    Between(fs, k, stream, at, held, got, fn, tbls);
    assert sizes[i..][1..] == sizes[i + 1..];
  }

  lemma ReadsEnd(fs: seq<Frame>, k: nat, stream: bytes, at: nat, held: bytes, got: seq<Part>, cap: nat, limit: nat,
                 sizes: seq<nat>, fn: bytes, tbls: set<bytes>)
    requires Served(fs, k, stream, at, held, got, fn, tbls) && (|got| < limit ==> Drained(fs, k, held) && sizes == [])
    ensures Brought(fs, cap, limit, at, sizes, fn, tbls) == Progress(at, false)
    ensures k <= WholeFrames(fs, at) && (|got| < limit ==> k == WholeFrames(fs, at))
  {
    hide WF, Message, MsgLen, Wanted, Stream, Served, Drained, FrameBytes, WholeFrames;
    Between(fs, k, stream, at, held, got, fn, tbls);
    WantedGrows(fs, k, WholeFrames(fs, at), fn, tbls);
  }

  lemma Starts(fs: seq<Frame>, stream: bytes, cap: nat, fn: bytes, tbls: set<bytes>)
    requires WFFrames(fs) && stream == Stream(fs)
    ensures Served(fs, 0, stream, 0, [], [], fn, tbls) && Drained(fs, 0, []) && FramesFit(fs, 0, cap)
  {
    hide WF, Message, Matches, Whole, WireSz;
    assert fs[..0] == [];
  }

  /** A full buffer holds the beginning of a frame larger than itself. */
  lemma TooLarge(fs: seq<Frame>, k: nat, held: bytes, cap: nat)
    requires Drained(fs, k, held) && |held| == cap > 0
    ensures k < |fs| && MsgLen(fs[k].msg) > cap && !FramesFit(fs, |fs|, cap)
  {
    hide MsgLen;
  }

  lemma Arrives(fs: seq<Frame>, k: nat, stream: bytes, at: nat, n: nat, held: bytes, got: seq<Part>, fn: bytes,
            tbls: set<bytes>)
    requires Served(fs, k, stream, at, held, got, fn, tbls) && at + n <= |stream|
    ensures Served(fs, k, stream, at + n, held + stream[at..at + n], got, fn, tbls)
  {
    hide WFFrame, Message, Wanted;
  }

  lemma Ends(fs: seq<Frame>, k: nat, stream: bytes, at: nat, held: bytes, got: seq<Part>, fn: bytes,
            tbls: set<bytes>, drained: bool)
    requires Served(fs, k, stream, at, held, got, fn, tbls) && (drained ==> Drained(fs, k, held))
    ensures k <= |fs| && got == Wanted(fs[..k], fn, tbls)
    ensures drained && at == |stream| ==> k == |fs|
  {
    hide WF, Message, MsgLen, Wanted, Stream;
    if k < |fs| {
      assert fs == fs[..k] + fs[k..];
      StreamConcat(fs[..k], fs[k..]);
      NextFrame(fs, k);
    }
  }
}
