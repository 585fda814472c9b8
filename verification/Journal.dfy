/** Walking a tickerplant journal, and copying from it in several goes. */
module Journal {
  import opened Bytes
  import opened KdbValue
  import opened Reader
  import opened Scanner
  import opened UpdFilter
  import opened Decode

  /** Messages walked and messages used, or where the walk met something it could not pass. */
  datatype Walk = Walked(count: nat, used: nat) | BadJournal(incomplete: bool, at: nat) | OutOfBounds

  /** The messages of `msgs` that get through the filter, leaving out the first `skip` messages. */
  function Picked(msgs: seq<Val>, skip: int, fn: bytes, tbls: set<bytes>): seq<bytes>
    requires AllWF(msgs)
  {
    if msgs == [] then []
    else
      (if skip <= 0 && Matches(msgs[0], fn, tbls) then [Encode(msgs[0])] else [])
      + Picked(msgs[1..], skip - 1, fn, tbls)
  }

  lemma {:induction false} PickedConcat(a: seq<Val>, b: seq<Val>, skip: int, fn: bytes, tbls: set<bytes>)
    requires AllWF(a) && AllWF(b)
    ensures AllWF(a + b)
    ensures Picked(a + b, skip, fn, tbls) == Picked(a, skip, fn, tbls) + Picked(b, skip - |a|, fn, tbls)
  {
    hide WF, Matches, Encode;
    if a == [] {
      assert a + b == b;
    } else {
      assert (a + b)[1..] == a[1..] + b;
      PickedConcat(a[1..], b, skip - 1, fn, tbls);
    }
  }

  lemma {:induction false} PickedSkipped(msgs: seq<Val>, skip: int, fn: bytes, tbls: set<bytes>)
    requires AllWF(msgs)
    ensures |msgs| <= skip ==> Picked(msgs, skip, fn, tbls) == []
    ensures skip <= 0 ==> Picked(msgs, skip, fn, tbls) == Picked(msgs, 0, fn, tbls)
  {
    hide WF, Matches, Encode;
    if msgs != [] {
      PickedSkipped(msgs[1..], skip - 1, fn, tbls);
      PickedSkipped(msgs[1..], 0 - 1, fn, tbls);
    }
  }

  /** Replaying up to `n1` and then from there up to `n2` copies what one replay up to `n2` does. */
  lemma Splice(msgs: seq<Val>, skip: nat, n1: nat, n2: nat, fn: bytes, tbls: set<bytes>)
    requires AllWF(msgs) && skip <= n1 <= n2 <= |msgs|
    ensures Picked(msgs[..n1], skip, fn, tbls) + Picked(msgs[..n2], n1, fn, tbls) == Picked(msgs[..n2], skip, fn, tbls)
    ensures Picked(msgs[..n2], n1, fn, tbls) == Picked(msgs[n1..n2], 0, fn, tbls)
  {
    hide WF, Matches, Encode, Picked;
    var a, b := msgs[..n1], msgs[n1..n2];
    assert msgs[..n2] == a + b;
    PickedConcat(a, b, skip, fn, tbls);
    PickedConcat(a, b, n1, fn, tbls);
    PickedSkipped(a, n1, fn, tbls);
    PickedSkipped(b, skip - n1, fn, tbls);
  }

  // ---- what a walk does ----

  /** How far to go, and which messages to copy. */
  datatype Job = Job(max: nat, skip: nat, fn: bytes, tbls: set<bytes>)

  /** What becomes of one message: its bytes, or some of them, are copied, or the copying fails, or it would take
      bytes that are not there. */
  datatype Call = Ignored | Copy(part: bytes) | WriteFailed | Outside

  /** Each of the writes to come takes so many bytes at most; those after them fail. */
  function Offer(ith: nat, job: Job, src: bytes, len: nat, writes: seq<nat>): Call {
    if ith < job.skip then Ignored
    else
      var r := FilterUpdMsg(src, len, job.fn, job.tbls);
      if r.Overrun? || (r.n > 0 && len > |src|) then Outside
      else if r.n <= 0 then Ignored
      else if writes == [] then WriteFailed
      else Copy(src[..Min(writes[0], len)])
  }

  /** How a walk ends, and what it has copied. */
  datatype Outcome = Outcome(walk: Walk, copied: seq<bytes>) {
    function After(before: seq<bytes>): Outcome {
      this.(copied := before + copied)
    }
  }

  /** The walk over `rest`, which begins `at` bytes into the journal, after `count` messages, `used` of them copied. */
  function WalkFrom(rest: bytes, at: nat, count: nat, used: nat, job: Job, writes: seq<nat>): (o: Outcome)
    ensures |o.copied| <= |writes|
    decreases job.max - count
  {
    if rest == [] || count >= job.max then Outcome(Walked(count, used), [])
    else
      var len := PayloadLen(rest);
      if len.Overrun? then Outcome(OutOfBounds, [])
      else if len.n < 0 then Outcome(BadJournal(len.n == -1, at), [])
      else
        match Offer(count, job, rest, len.n, writes)
        case Outside => Outcome(OutOfBounds, [])
        case WriteFailed => Outcome(Walked(count + 1, used), [])
        case Ignored => WalkFrom(From(rest, len.n), at + len.n, count + 1, used, job, writes)
        case Copy(part) => WalkFrom(From(rest, len.n), at + len.n, count + 1, used + 1, job, writes[1..]).After([part])
  }

  function From(s: bytes, off: nat): bytes {
    if off <= |s| then s[off..] else []
  }

  /** The walk over a whole journal. */
  function WalkOf(jnl: bytes, job: Job, writes: seq<nat>): (o: Outcome)
    ensures |o.copied| <= |writes|
  {
    WalkFrom(From(jnl, SZ_MSG_HDR), SZ_MSG_HDR, 0, 0, job, writes)
  }

  // ---- the walk of the program ----

  /** The journal copied into. */
  class Scribe {
    var copied: seq<bytes>
    var writes: seq<nat>

    constructor (writes: seq<nat>)
      ensures copied == [] && this.writes == writes
    {
      copied, this.writes := [], writes;
    }

    /** 1 if the message was written, or a part of it, -1 if that failed. */
    method Copy(msg: bytes) returns (res: int)
      modifies this
      ensures if old(writes) != [] then
                && res == 1 && copied == old(copied) + [msg[..Min(old(writes[0]), |msg|)]]
                && writes == old(writes)[1..]
              else res == -1 && copied == old(copied) && writes == []
    {
      if writes == [] {
        return -1;
      }
      copied, writes := copied + [msg[..Min(writes[0], |msg|)]], writes[1..];
      res := 1;
    }
  }

  /** Copies the message of `len` bytes at the front of `src`, number `ith` of the journal, if it is to be copied. */
  method CopyIfUpd(ith: nat, job: Job, src: bytes, len: nat, scribe: Scribe) returns (res: int, inside: bool)
    modifies scribe
    ensures match Offer(ith, job, src, len, old(scribe.writes))
            case Outside => !inside && scribe.copied == old(scribe.copied) && scribe.writes == old(scribe.writes)
            case WriteFailed =>
              inside && res == -1 && scribe.copied == old(scribe.copied) && scribe.writes == old(scribe.writes) == []
            case Ignored =>
              inside && res == 0 && scribe.copied == old(scribe.copied) && scribe.writes == old(scribe.writes)
            case Copy(part) =>
              && inside && res == 1 && scribe.copied == old(scribe.copied) + [part]
              && old(scribe.writes) != [] && scribe.writes == old(scribe.writes)[1..]
    ensures forall m: Val :: WF(m) && Encode(m) <= src && len == |Encode(m)| ==>
              && inside
              && res == (if ith < job.skip || !Matches(m, job.fn, job.tbls) then 0
                         else if old(scribe.writes) == [] then -1 else 1)
              && scribe.copied == old(scribe.copied)
                                  + if res == 1 then [Encode(m)[..Min(old(scribe.writes)[0], |Encode(m)|)]] else []
  {
    hide WF, Matches, Encode, FilterUpdMsg, Offer;
    forall m: Val | WF(m) && Encode(m) <= src && len == |Encode(m)|
      ensures Offer(ith, job, src, len, scribe.writes) == OfferOf(ith, job, m, scribe.writes)
    {
      WholeOffer(ith, job, src, m, scribe.writes);
    }
    OfferIs(ith, job, src, len, scribe.writes);
    if ith < job.skip {
      return 0, true;
    }
    var r := FilterUpdMsg(src, len, job.fn, job.tbls);
    if r.Overrun? || (r.n > 0 && len > |src|) {
      return 0, false;
    }
    if r.n > 0 {
      res := scribe.Copy(src[..len]);
      return res, true;
    }
    return 0, true;
  }

  lemma OfferIs(ith: nat, job: Job, src: bytes, len: nat, writes: seq<nat>)
    ensures var r, o := FilterUpdMsg(src, len, job.fn, job.tbls), Offer(ith, job, src, len, writes);
            if ith < job.skip then o == Ignored
            else if r.Overrun? || (r.n > 0 && len > |src|) then o == Outside
            else if r.n <= 0 then o == Ignored
            else if writes == [] then o == WriteFailed
            else o == Copy(src[..len][..Min(writes[0], |src[..len]|)])
  {
    hide FilterUpdMsg;
  }

  /** Hands the first messages of a journal, up to `max` of them, to the callback that copies the ones to be copied. */
  method FilterMsgs(jnl: bytes, job: Job, scribe: Scribe, ghost msgs: seq<Val>, ghost tail: bytes) returns (r: Walk)
    modifies scribe
    ensures var o := WalkOf(jnl, job, old(scribe.writes));
            r == o.walk && scribe.copied == old(scribe.copied) + o.copied
            && scribe.writes == old(scribe.writes)[|o.copied|..]
    ensures Holds(jnl, msgs, tail) && (job.max <= |msgs| || tail == []) ==>
              WentOver(WalkOf(jnl, job, old(scribe.writes)), msgs, job, old(scribe.writes))
  {
    hide WF, Encode, Matches, Picked, Scannable, PayloadLen, EncodeAll, Holds, Offer, WalkFrom, WentOver, Going, Min;
    var msgCount, useCount, off := 0, 0, SZ_MSG_HDR;
    ghost var before, writes := scribe.copied, scribe.writes;
    ghost var o := WalkOf(jnl, job, writes);
    if Holds(jnl, msgs, tail) && (job.max <= |msgs| || tail == []) {
      WholeJournal(jnl, msgs, tail, job, writes);
    }
    ghost var done: seq<bytes> := [];
    SetOut(jnl, job, writes);
    assert before + [] == before && writes[0..] == writes;
    while off < |jnl| && msgCount < job.max
      invariant off >= SZ_MSG_HDR && useCount >= 0 && 0 <= msgCount <= job.max && |done| <= |writes|
      invariant scribe.copied == before + done && scribe.writes == writes[|done|..]
      invariant Going(o, jnl, off, msgCount, useCount, job, scribe.writes, done)
      decreases job.max - msgCount
    {
      GoingOn(o, jnl, off, msgCount, useCount, job, scribe.writes, done);
      var len := IpcPayloadLen(jnl[off..]);
      if len.Overrun? {
        return OutOfBounds;
      }
      if len.n < 0 {
        return BadJournal(len.n == -1, off);
      }
      var res, inside := CopyIfUpd(msgCount, job, jnl[off..], len.n, scribe);
      if !inside {
        return OutOfBounds;
      }
      msgCount := msgCount + 1;
      if res == -1 {
        return Walked(msgCount, useCount);
      }
      if res == 1 {
        done := done + [scribe.copied[|scribe.copied| - 1]];
      }
      useCount := useCount + res;
      off := off + len.n;
    }
    GoneOver(o, jnl, off, msgCount, useCount, job, scribe.writes, done);
    r := Walked(msgCount, useCount);
  }

  /** A walk that ends as `o` says has come to `off`, and has copied `done`. */
  ghost predicate Going(o: Outcome, jnl: bytes, off: nat, count: nat, used: nat, job: Job, writes: seq<nat>,
                        done: seq<bytes>)
  {
    o == WalkFrom(From(jnl, off), off, count, used, job, writes).After(done)
  }

  lemma SetOut(jnl: bytes, job: Job, writes: seq<nat>)
    ensures Going(WalkOf(jnl, job, writes), jnl, SZ_MSG_HDR, 0, 0, job, writes, [])
  {
    hide WalkFrom;
    var o := WalkOf(jnl, job, writes);
    assert [] + o.copied == o.copied;
  }

  lemma GoneOver(o: Outcome, jnl: bytes, off: nat, count: nat, used: nat, job: Job, writes: seq<nat>, done: seq<bytes>)
    requires Going(o, jnl, off, count, used, job, writes, done) && (off >= |jnl| || count >= job.max)
    ensures o == Outcome(Walked(count, used), done)
  {
    hide WalkFrom;
    WalkEnds(From(jnl, off), off, count, used, job, writes);
    assert done + [] == done;
  }

  lemma GoingOn(o: Outcome, jnl: bytes, off: nat, count: nat, used: nat, job: Job, writes: seq<nat>, done: seq<bytes>)
    requires Going(o, jnl, off, count, used, job, writes, done) && off < |jnl| && count < job.max
    ensures var len := PayloadLen(jnl[off..]);
            if len.Overrun? then o == Outcome(OutOfBounds, done)
            else if len.n < 0 then o == Outcome(BadJournal(len.n == -1, off), done)
            else
              match Offer(count, job, jnl[off..], len.n, writes)
              case Outside => o == Outcome(OutOfBounds, done)
              case WriteFailed => o == Outcome(Walked(count + 1, used), done)
              case Ignored => Going(o, jnl, off + len.n, count + 1, used, job, writes, done)
              case Copy(part) =>
                writes != [] && Going(o, jnl, off + len.n, count + 1, used + 1, job, writes[1..], done + [part])
  {
    hide WalkFrom, PayloadLen, Offer;
    WalkStep(From(jnl, off), off, count, used, job, writes);
    assert done + [] == done;
    var len := PayloadLen(jnl[off..]);
    if len.Code? && len.n >= 0 {
      FromFrom(jnl, off, len.n);
      var call := Offer(count, job, jnl[off..], len.n, writes);
      if call.Copy? {
        AfterAfter(done, [call.part],
                   WalkFrom(From(jnl, off + len.n), off + len.n, count + 1, used + 1, job, writes[1..]));
      }
    }
  }

  lemma FromFrom(s: bytes, a: nat, b: nat)
    ensures From(From(s, a), b) == From(s, a + b)
  {
  }

  lemma AfterAfter(a: seq<bytes>, b: seq<bytes>, o: Outcome)
    ensures o.After(b).After(a) == o.After(a + b)
  {
    assert a + (b + o.copied) == a + b + o.copied;
  }

  lemma WalkEnds(rest: bytes, at: nat, count: nat, used: nat, job: Job, writes: seq<nat>)
    requires rest == [] || count >= job.max
    ensures WalkFrom(rest, at, count, used, job, writes) == Outcome(Walked(count, used), [])
  {
  }

  lemma WalkStep(rest: bytes, at: nat, count: nat, used: nat, job: Job, writes: seq<nat>)
    requires rest != [] && count < job.max
    ensures var len := PayloadLen(rest);
            var o := WalkFrom(rest, at, count, used, job, writes);
            if len.Overrun? then o == Outcome(OutOfBounds, [])
            else if len.n < 0 then o == Outcome(BadJournal(len.n == -1, at), [])
            else
              match Offer(count, job, rest, len.n, writes)
              case Outside => o == Outcome(OutOfBounds, [])
              case WriteFailed => o == Outcome(Walked(count + 1, used), [])
              case Ignored => o == WalkFrom(From(rest, len.n), at + len.n, count + 1, used, job, writes)
              case Copy(part) =>
                && writes != []
                && o == WalkFrom(From(rest, len.n), at + len.n, count + 1, used + 1, job, writes[1..]).After([part])
  {
    hide PayloadLen, FilterUpdMsg;
  }

  // ---- whole messages ----

  /** Messages as far as the writes took them. */
  function Cut(msgs: seq<bytes>, writes: seq<nat>): (r: seq<bytes>)
    requires |msgs| <= |writes|
    ensures |r| == |msgs|
  {
    if msgs == [] then [] else [msgs[0][..Min(writes[0], |msgs[0]|)]] + Cut(msgs[1..], writes[1..])
  }

  /** Nothing is lost exactly if every write takes the whole message. */
  lemma CutIsWholeIff(msgs: seq<bytes>, writes: seq<nat>)
    requires |msgs| <= |writes|
    ensures Cut(msgs, writes) == msgs <==> forall i :: 0 <= i < |msgs| ==> |msgs[i]| <= writes[i]
  {
    hide Cut;
    if forall i :: 0 <= i < |msgs| ==> |msgs[i]| <= writes[i] {
      forall i | 0 <= i < |msgs|
        ensures Cut(msgs, writes)[i] == msgs[i]
      {
        CutAt(msgs, writes, i);
      }
    } else {
      var i :| 0 <= i < |msgs| && |msgs[i]| > writes[i];
      CutAt(msgs, writes, i);
    }
  }

  lemma {:induction false} CutAt(msgs: seq<bytes>, writes: seq<nat>, i: nat)
    requires i < |msgs| <= |writes|
    ensures Cut(msgs, writes)[i] == msgs[i][..Min(writes[i], |msgs[i]|)]
  {
    if i > 0 {
      CutAt(msgs[1..], writes[1..], i - 1);
    }
  }

  /** A journal: a header, whole messages, and perhaps something that is not a whole message yet. */
  ghost predicate Holds(jnl: bytes, msgs: seq<Val>, tail: bytes) {
    |jnl| >= SZ_MSG_HDR && AllSound(msgs) && jnl[SZ_MSG_HDR..] == EncodeAll(msgs) + tail
  }

  /** The walk knows the types in these messages, and they are not too long. */
  ghost predicate AllSound(msgs: seq<Val>) {
    forall i :: 0 <= i < |msgs| ==> WF(msgs[i]) && Scannable(msgs[i]) && |Encode(msgs[i])| < TWO_31
  }

  /** The first messages, up to `max` of them, have been gone over and those to be copied have been copied; or there
      was no write any more for one of them, and the walk stopped after it. */
  ghost predicate WentOver(o: Outcome, msgs: seq<Val>, job: Job, writes: seq<nat>) {
    AllWF(msgs) &&
    var n := Min(|msgs|, job.max);
    var picked := Picked(msgs[..n], job.skip, job.fn, job.tbls);
    if |picked| <= |writes| then
      o == Outcome(Walked(n, |picked|), Cut(picked, writes))
    else
      && o.walk.Walked? && 0 < o.walk.count <= n && o.walk.used == |writes|
      && var last := Picked(msgs[..o.walk.count - 1], job.skip, job.fn, job.tbls);
         && |Picked(msgs[..o.walk.count], job.skip, job.fn, job.tbls)| == |last| + 1 == |writes| + 1
         && o.copied == Cut(last, writes)
  }

  function OfferOf(ith: nat, job: Job, m: Val, writes: seq<nat>): Call
    requires WF(m)
  {
    if ith < job.skip || !Matches(m, job.fn, job.tbls) then Ignored
    else if writes == [] then WriteFailed
    else Copy(Encode(m)[..Min(writes[0], |Encode(m)|)])
  }

  lemma WholeOffer(ith: nat, job: Job, src: bytes, m: Val, writes: seq<nat>)
    requires WF(m) && Encode(m) <= src
    ensures Offer(ith, job, src, |Encode(m)|, writes) == OfferOf(ith, job, m, writes)
  {
    hide WF, Encode, Matches, FilterUpdMsg;
    EncodeNonEmpty(m);
    FilterDecides(m, src, job.fn, job.tbls);
    assert writes != [] ==> src[..Min(writes[0], |Encode(m)|)] == Encode(m)[..Min(writes[0], |Encode(m)|)];
  }

  /** What the walk does with whole messages, whatever follows them: `o` is how it ends. */
  ghost predicate WalksOver(o: Outcome, msgs: seq<Val>, tail: bytes, at: nat, count: nat, used: nat, job: Job,
                            writes: seq<nat>)
    requires AllWF(msgs) && count <= job.max
  {
    var n, skip := Min(|msgs|, job.max - count), job.skip - count;
    var picked := Picked(msgs[..n], skip, job.fn, job.tbls);
    if |picked| > |writes| then
      && o.walk.Walked? && count < o.walk.count <= count + n && o.walk.used == used + |writes|
      && var k := o.walk.count - count;
         var last := Picked(msgs[..k - 1], skip, job.fn, job.tbls);
         |Picked(msgs[..k], skip, job.fn, job.tbls)| == |last| + 1 == |writes| + 1 && o.copied == Cut(last, writes)
    else if n < |msgs| then
      o == Outcome(Walked(job.max, used + |picked|), Cut(picked, writes))
    else
      o == WalkFrom(tail, at + |EncodeAll(msgs)|, count + n, used + |picked|, job, writes[|picked|..])
           .After(Cut(picked, writes))
  }

  lemma {:induction false} WalkMessages(msgs: seq<Val>, tail: bytes, at: nat, count: nat, used: nat, job: Job,
                                        writes: seq<nat>)
    requires AllSound(msgs) && AllWF(msgs) && count <= job.max
    ensures WalksOver(WalkFrom(EncodeAll(msgs) + tail, at, count, used, job, writes), msgs, tail, at, count, used, job,
                      writes)
    decreases |msgs|
  {
    hide WF, Encode, EncodeAll, Matches, Picked, Scannable, Offer, WalkFrom, Cut, WalksOver;
    var o := WalkFrom(EncodeAll(msgs) + tail, at, count, used, job, writes);
    if msgs == [] {
      NoMessages(tail, at, count, used, job, writes);
    } else if count == job.max {
      WalkEnds(EncodeAll(msgs) + tail, at, count, used, job, writes);
      NoneWanted(msgs, tail, at, count, used, job, writes);
    } else {
      var m, rest := msgs[0], msgs[1..];
      var s, e := EncodeAll(msgs) + tail, Encode(m);
      FirstMessage(msgs, tail);
      WalkStep(s, at, count, used, job, writes);
      WholeOffer(count, job, s, m, writes);
      if count < job.skip || !Matches(m, job.fn, job.tbls) {
        WalkMessages(rest, tail, at + |e|, count + 1, used, job, writes);
        OneIgnored(o, msgs, tail, at, count, used, job, writes);
      } else if writes != [] {
        WalkMessages(rest, tail, at + |e|, count + 1, used + 1, job, writes[1..]);
        OneCopied(o, WalkFrom(EncodeAll(rest) + tail, at + |e|, count + 1, used + 1, job, writes[1..]),
                  msgs, tail, at, count, used, job, writes);
      } else {
        OneFails(o, msgs, tail, at, count, used, job);
      }
    }
  }

  lemma FirstMessage(msgs: seq<Val>, tail: bytes)
    requires AllSound(msgs) && AllWF(msgs) && msgs != []
    ensures var s, e := EncodeAll(msgs) + tail, Encode(msgs[0]);
            && e <= s && s != [] && PayloadLen(s) == Code(|e|)
            && From(s, |e|) == EncodeAll(msgs[1..]) + tail
            && |EncodeAll(msgs)| == |e| + |EncodeAll(msgs[1..])|
  {
    hide WF, Encode, Scannable, PayloadLen;
    var s, e := EncodeAll(msgs) + tail, Encode(msgs[0]);
    Assoc(e, EncodeAll(msgs[1..]), tail);
    EncodeNonEmpty(msgs[0]);
    LengthIffScannable(msgs[0], s);
  }

  lemma NoMessages(tail: bytes, at: nat, count: nat, used: nat, job: Job, writes: seq<nat>)
    requires count <= job.max
    ensures WalksOver(WalkFrom(EncodeAll([]) + tail, at, count, used, job, writes), [], tail, at, count, used, job,
                      writes)
  {
    hide WalkFrom;
    var o := WalkFrom(tail, at, count, used, job, writes);
    assert EncodeAll([]) + tail == tail;
    assert Picked([], job.skip - count, job.fn, job.tbls) == [] && writes[0..] == writes;
    assert [] + o.copied == o.copied;
  }

  lemma NoneWanted(msgs: seq<Val>, tail: bytes, at: nat, count: nat, used: nat, job: Job, writes: seq<nat>)
    requires AllWF(msgs) && msgs != [] && count == job.max
    ensures WalksOver(Outcome(Walked(count, used), []), msgs, tail, at, count, used, job, writes)
  {
    hide WF, EncodeAll, WalkFrom;
    assert msgs[..0] == [];
    assert Picked([], job.skip - count, job.fn, job.tbls) == [];
  }

  lemma PickedStep(msgs: seq<Val>, n: nat, skip: int, fn: bytes, tbls: set<bytes>)
    requires AllWF(msgs) && 0 < n <= |msgs|
    ensures Picked(msgs[..n], skip, fn, tbls)
         == (if skip <= 0 && Matches(msgs[0], fn, tbls) then [Encode(msgs[0])] else [])
            + Picked(msgs[1..][..n - 1], skip - 1, fn, tbls)
  {
    hide WF, Encode, Matches;
    assert msgs[..n][0] == msgs[0] && msgs[..n][1..] == msgs[1..][..n - 1];
  }

  lemma OneIgnored(o: Outcome, msgs: seq<Val>, tail: bytes, at: nat, count: nat, used: nat, job: Job, writes: seq<nat>)
    requires AllWF(msgs) && msgs != [] && count < job.max
    requires count < job.skip || !Matches(msgs[0], job.fn, job.tbls)
    requires WalksOver(o, msgs[1..], tail, at + |Encode(msgs[0])|, count + 1, used, job, writes)
    ensures WalksOver(o, msgs, tail, at, count, used, job, writes)
  {
    hide WF, Encode, Matches, Picked, Cut, WalkFrom;
    var n, skip := Min(|msgs|, job.max - count), job.skip - count;
    assert |EncodeAll(msgs)| == |Encode(msgs[0])| + |EncodeAll(msgs[1..])|;
    PickedStep(msgs, n, skip, job.fn, job.tbls);
    var rest := Picked(msgs[1..][..n - 1], skip - 1, job.fn, job.tbls);
    assert [] + rest == rest;
    if |rest| > |writes| {
      var k := o.walk.count - count;
      PickedStep(msgs, k, skip, job.fn, job.tbls);
      PickedStep(msgs, k - 1, skip, job.fn, job.tbls);
      var last := Picked(msgs[1..][..k - 2], skip - 1, job.fn, job.tbls);
      assert [] + last == last;
    }
  }

  lemma OneCopied(o: Outcome, next: Outcome, msgs: seq<Val>, tail: bytes, at: nat, count: nat, used: nat, job: Job,
                  writes: seq<nat>)
    requires AllWF(msgs) && msgs != [] && count < job.max && writes != []
    requires count >= job.skip && Matches(msgs[0], job.fn, job.tbls)
    requires o == next.After([Encode(msgs[0])[..Min(writes[0], |Encode(msgs[0])|)]])
    requires WalksOver(next, msgs[1..], tail, at + |Encode(msgs[0])|, count + 1, used + 1, job, writes[1..])
    ensures WalksOver(o, msgs, tail, at, count, used, job, writes)
  {
    hide WF, Encode, Matches, Picked, Cut, WalkFrom;
    var n, skip := Min(|msgs|, job.max - count), job.skip - count;
    assert |EncodeAll(msgs)| == |Encode(msgs[0])| + |EncodeAll(msgs[1..])|;
    PickedStep(msgs, n, skip, job.fn, job.tbls);
    var rest := Picked(msgs[1..][..n - 1], skip - 1, job.fn, job.tbls);
    if |rest| > |writes[1..]| {
      var k := o.walk.count - count;
      PickedStep(msgs, k, skip, job.fn, job.tbls);
      PickedStep(msgs, k - 1, skip, job.fn, job.tbls);
      CutStep(Encode(msgs[0]), Picked(msgs[1..][..k - 2], skip - 1, job.fn, job.tbls), writes);
    } else {
      CutStep(Encode(msgs[0]), rest, writes);
      if n == |msgs| {
        AfterAfter([Encode(msgs[0])[..Min(writes[0], |Encode(msgs[0])|)]], Cut(rest, writes[1..]),
                   WalkFrom(tail, at + |EncodeAll(msgs)|, count + n, used + 1 + |rest|, job, writes[1..][|rest|..]));
        assert writes[1..][|rest|..] == writes[1 + |rest|..];
      }
    }
  }

  lemma CutStep(m: bytes, rest: seq<bytes>, writes: seq<nat>)
    requires |rest| < |writes|
    ensures Cut([m] + rest, writes) == [m[..Min(writes[0], |m|)]] + Cut(rest, writes[1..])
  {
    assert ([m] + rest)[1..] == rest;
  }

  lemma OneFails(o: Outcome, msgs: seq<Val>, tail: bytes, at: nat, count: nat, used: nat, job: Job)
    requires AllWF(msgs) && msgs != [] && count < job.max
    requires count >= job.skip && Matches(msgs[0], job.fn, job.tbls)
    requires o == Outcome(Walked(count + 1, used), [])
    ensures WalksOver(o, msgs, tail, at, count, used, job, [])
  {
    hide WF, Encode, Matches, EncodeAll, WalkFrom;
    var n, skip := Min(|msgs|, job.max - count), job.skip - count;
    PickedStep(msgs, n, skip, job.fn, job.tbls);
    PickedStep(msgs, 1, skip, job.fn, job.tbls);
    assert msgs[..0] == [] && msgs[1..][..0] == [];
    assert Picked([], skip, job.fn, job.tbls) == [] && Picked([], skip - 1, job.fn, job.tbls) == [];
  }

  lemma EncodeNone()
    ensures EncodeAll([]) == []
  {
  }

  lemma HoldsIs(jnl: bytes, msgs: seq<Val>, tail: bytes)
    requires Holds(jnl, msgs, tail)
    ensures AllSound(msgs) && AllWF(msgs) && From(jnl, SZ_MSG_HDR) == EncodeAll(msgs) + tail
    ensures |jnl| == SZ_MSG_HDR + |EncodeAll(msgs)| + |tail|
  {
    hide WF, Encode, EncodeAll, Scannable;
  }

  lemma NothingAfter(o: Outcome, copied: seq<bytes>)
    requires o.copied == []
    ensures o.After(copied) == Outcome(o.walk, copied)
  {
  }

  /** A journal that has as many messages as the walk is to go over, or ends after them. */
  lemma WholeJournal(jnl: bytes, msgs: seq<Val>, tail: bytes, job: Job, writes: seq<nat>)
    requires Holds(jnl, msgs, tail) && (job.max <= |msgs| || tail == [])
    ensures WentOver(WalkOf(jnl, job, writes), msgs, job, writes)
  {
    hide WF, Encode, EncodeAll, Matches, Picked, Scannable, WalkFrom, Cut, Holds, AllSound, From, WalksOver, WentOver;
    HoldsIs(jnl, msgs, tail);
    WalkMessages(msgs, tail, SZ_MSG_HDR, 0, 0, job, writes);
    WholeFrom(WalkOf(jnl, job, writes), msgs, tail, job, writes);
  }

  lemma WholeFrom(o: Outcome, msgs: seq<Val>, tail: bytes, job: Job, writes: seq<nat>)
    requires AllWF(msgs) && (job.max <= |msgs| || tail == [])
    requires WalksOver(o, msgs, tail, SZ_MSG_HDR, 0, 0, job, writes)
    ensures WentOver(o, msgs, job, writes)
  {
    hide WF, Encode, EncodeAll, Matches, Picked, WalkFrom, Cut, Outcome.After;
    var n := Min(|msgs|, job.max);
    var picked := Picked(msgs[..n], job.skip, job.fn, job.tbls);
    if |picked| <= |writes| && n == |msgs| {
      WalkEnds(tail, SZ_MSG_HDR + |EncodeAll(msgs)|, n, |picked|, job, writes[|picked|..]);
      NothingAfter(Outcome(Walked(n, |picked|), []), Cut(picked, writes));
    }
  }

  /** A journal that has fewer: the walk goes on with what follows them. */
  lemma JournalAndMore(jnl: bytes, msgs: seq<Val>, tail: bytes, job: Job, writes: seq<nat>)
    requires Holds(jnl, msgs, tail) && job.max > |msgs|
    ensures AllWF(msgs)
    ensures var picked := Picked(msgs, job.skip, job.fn, job.tbls);
            |picked| <= |writes| ==>
              WalkOf(jnl, job, writes)
              == WalkFrom(tail, |jnl| - |tail|, |msgs|, |picked|, job, writes[|picked|..]).After(Cut(picked, writes))
  {
    hide WF, Encode, EncodeAll, Matches, Picked, Scannable, WalkFrom, Cut, Holds, AllSound, From, WalksOver;
    hide Outcome.After;
    HoldsIs(jnl, msgs, tail);
    WalkMessages(msgs, tail, SZ_MSG_HDR, 0, 0, job, writes);
    MoreFrom(WalkOf(jnl, job, writes), msgs, tail, job, writes);
  }

  lemma MoreFrom(o: Outcome, msgs: seq<Val>, tail: bytes, job: Job, writes: seq<nat>)
    requires AllWF(msgs) && job.max > |msgs|
    requires WalksOver(o, msgs, tail, SZ_MSG_HDR, 0, 0, job, writes)
    ensures var picked := Picked(msgs, job.skip, job.fn, job.tbls);
            |picked| <= |writes| ==>
              o == WalkFrom(tail, SZ_MSG_HDR + |EncodeAll(msgs)|, |msgs|, |picked|, job, writes[|picked|..])
                   .After(Cut(picked, writes))
  {
    hide WF, Encode, EncodeAll, Matches, Picked, WalkFrom, Cut, Outcome.After;
    assert msgs[..|msgs|] == msgs;
  }
}
