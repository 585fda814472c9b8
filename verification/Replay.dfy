/** Copying a tickerplant's journal in several goes: each subscription takes up where the last one stopped. */
module Replay {
  import opened Bytes
  import opened KdbValue
  import opened Scanner
  import opened UpdFilter
  import opened Journal
  import opened TornMessages

  datatype ReplayResult = Replayed | BadCount | WentBack | BadSource

  /** The copy holds exactly the messages that get through among the first `total` of the journal. */
  ghost predicate Copied(copied: seq<bytes>, total: nat, included: nat, msgs: seq<Val>, fn: bytes, tbls: set<bytes>) {
    && AllWF(msgs) && total <= |msgs|
    && copied == Picked(msgs[..total], 0, fn, tbls) && included == |copied|
  }

  /** How much of the journal of one tickerplant has been copied. */
  class Counts {
    var total: nat
    var included: nat

    constructor ()
      ensures total == 0 && included == 0
    {
      total, included := 0, 0;
    }

    ghost predicate InStep(scribe: Scribe, msgs: seq<Val>, fn: bytes, tbls: set<bytes>)
      reads this, scribe
    {
      Copied(scribe.copied, total, included, msgs, fn, tbls)
    }

    /** One subscription: the tickerplant has announced how many messages its journal holds. */
    method Subscribe(announced: int, jnl: bytes, fn: bytes, tbls: set<bytes>, scribe: Scribe, ghost msgs: seq<Val>,
                     ghost tail: bytes)
      returns (r: ReplayResult)
      modifies this, scribe
      ensures r.BadCount? <==> announced < 0
      ensures r.WentBack? <==> 0 <= announced < old(total)
      ensures !r.Replayed? ==> total == old(total) && included == old(included)
      ensures r.BadCount? || r.WentBack? ==> scribe.copied == old(scribe.copied) && scribe.writes == old(scribe.writes)
      ensures 0 <= announced && old(total) <= announced ==>
                var o := WalkOf(jnl, Job(announced, old(total), fn, tbls), old(scribe.writes));
                && scribe.copied == old(scribe.copied) + o.copied
                && scribe.writes == old(scribe.writes)[|o.copied|..]
                && r == (if o.walk.Walked? then Replayed else BadSource)
                && (r.Replayed? ==> total == o.walk.count && included == old(included) + o.walk.used)
      ensures && 0 <= announced && old(total) <= announced && old(InStep(scribe, msgs, fn, tbls))
              && Holds(jnl, msgs, tail) && (announced <= |msgs| || tail == [])
              ==>
                var n, writes := Min(|msgs|, announced), old(scribe.writes);
                var more := Picked(msgs[..n], old(total), fn, tbls);
                && r.Replayed?
                && if |more| <= |writes| then
                     && total == n && scribe.copied == old(scribe.copied) + Cut(more, writes)
                     && (InStep(scribe, msgs, fn, tbls) <==> forall i :: 0 <= i < |more| ==> |more[i]| <= writes[i])
                   else
                     && 0 < total <= n && included == |scribe.copied|
                     && |scribe.copied| + 1 == |Picked(msgs[..total], 0, fn, tbls)|
    {
      hide WF, Encode, EncodeAll, Picked, Holds, Matches, Scannable, WalkOf, Copied, Cut, WentOver;
      if announced < 0 {
        return BadCount;
      }
      if announced < total {
        return WentBack;
      }
      ghost var before, writes, begun, had := scribe.copied, scribe.writes, total, included;
      var job := Job(announced, total, fn, tbls);
      var res := FilterMsgs(jnl, job, scribe, msgs, tail);
      if Copied(before, begun, had, msgs, fn, tbls) && Holds(jnl, msgs, tail) && (announced <= |msgs| || tail == []) {
        TakenUp(WalkOf(jnl, job, writes), before, begun, had, msgs, job, writes);
      }
      if !res.Walked? {
        return BadSource;
      }
      total := res.count;
      included := included + res.used;
      return Replayed;
    }
  }

  /** A walk over what was in step before, and what it leaves. */
  lemma TakenUp(o: Outcome, before: seq<bytes>, begun: nat, had: nat, msgs: seq<Val>, job: Job, writes: seq<nat>)
    requires Copied(before, begun, had, msgs, job.fn, job.tbls) && job.skip == begun <= job.max
    requires WentOver(o, msgs, job, writes)
    ensures var n := Min(|msgs|, job.max);
            var more := Picked(msgs[..n], begun, job.fn, job.tbls);
            && o.walk.Walked?
            && if |more| <= |writes| then
                 && o.walk.count == n && o.copied == Cut(more, writes)
                 && (Copied(before + o.copied, n, had + o.walk.used, msgs, job.fn, job.tbls)
                     <==> forall i :: 0 <= i < |more| ==> |more[i]| <= writes[i])
               else
                 && 0 < o.walk.count <= n && had + o.walk.used == |before + o.copied|
                 && |before + o.copied| + 1 == |Picked(msgs[..o.walk.count], 0, job.fn, job.tbls)|
  {
    hide WF, Encode, Picked, Matches, Cut;
    var n := Min(|msgs|, job.max);
    var more := Picked(msgs[..n], begun, job.fn, job.tbls);
    if |more| <= |writes| {
      Splice(msgs, 0, begun, n, job.fn, job.tbls);
      CutIsWholeIff(more, writes);
      assert before + Cut(more, writes) == before + more <==> Cut(more, writes) == more by {
        assert (before + Cut(more, writes))[|before|..] == Cut(more, writes);
        assert (before + more)[|before|..] == more;
      }
    } else {
      FailedAfter(msgs, begun, o.walk.count, |writes|, job.fn, job.tbls);
    }
  }

  /** A write that fails does so at a message after those copied before. */
  lemma FailedAfter(msgs: seq<Val>, begun: nat, count: nat, writes: nat, fn: bytes, tbls: set<bytes>)
    requires AllWF(msgs) && begun <= |msgs| && 0 < count <= |msgs|
    requires |Picked(msgs[..count], begun, fn, tbls)| == writes + 1
    ensures |Picked(msgs[..begun], 0, fn, tbls)| + writes + 1 == |Picked(msgs[..count], 0, fn, tbls)|
  {
    hide WF, Encode, Picked, Matches;
    if count <= begun {
      PickedSkipped(msgs[..count], begun, fn, tbls);
    }
    Splice(msgs, 0, begun, count, fn, tbls);
  }

  /** A journal that has grown: what was in step with it still is. */
  lemma Grown(counts: Counts, scribe: Scribe, msgs: seq<Val>, more: seq<Val>, fn: bytes, tbls: set<bytes>)
    requires counts.InStep(scribe, msgs, fn, tbls) && AllWF(more)
    ensures counts.InStep(scribe, msgs + more, fn, tbls)
  {
    assert (msgs + more)[..counts.total] == msgs[..counts.total];
  }

  // ---- journals that end within a message ----

  /** A subscription that is to copy more messages than there are whole ones, the next of which is guarded and torn,
      fails, and leaves the copy in step exactly if there was nothing to copy. */
  lemma TornReplay(hdr: bytes, msgs: seq<Val>, m: Val, tail: bytes, job: Job, writes: seq<nat>, before: seq<bytes>,
                   included: nat)
    requires GoesBeyond(hdr, msgs, job, writes) && Copied(before, job.skip, included, msgs, job.fn, job.tbls)
    requires WF(m) && Guarded(m) && |Encode(m)| < TWO_31 && tail != [] && Torn(tail, Encode(m))
    ensures var o := WalkOf(TornJournal(hdr, msgs, tail), job, writes);
            && o.walk.BadJournal?
            && (Copied(before + o.copied, job.skip, included, msgs, job.fn, job.tbls)
                <==> Picked(msgs, job.skip, job.fn, job.tbls) == [])
  {
    hide WF, Encode, EncodeAll, Picked, Matches, Guarded, WalkOf, Cut, AllSound;
    GuardedCut(hdr, msgs, m, tail, job, writes);
    assert before + [] == before;
  }

  /** What is copied of whole messages are whole messages. */
  lemma {:induction false} PickedAreMessages(msgs: seq<Val>, skip: int, fn: bytes, tbls: set<bytes>, i: nat)
    returns (v: Val)
    requires AllWF(msgs) && i < |Picked(msgs, skip, fn, tbls)|
    ensures WF(v) && Encode(v) == Picked(msgs, skip, fn, tbls)[i]
  {
    hide WF, Encode, Matches;
    if skip <= 0 && Matches(msgs[0], fn, tbls) {
      if i == 0 {
        v := msgs[0];
      } else {
        v := PickedAreMessages(msgs[1..], skip - 1, fn, tbls, i - 1);
      }
    } else {
      v := PickedAreMessages(msgs[1..], skip - 1, fn, tbls, i);
    }
  }

  /** A copy that holds something that is no message is in step with no journal. */
  lemma NeverInStep(copied: seq<bytes>, i: nat, total: nat, included: nat, msgs: seq<Val>, fn: bytes, tbls: set<bytes>)
    requires i < |copied| && forall v: Val :: WF(v) ==> Encode(v) != copied[i]
    ensures !Copied(copied, total, included, msgs, fn, tbls)
  {
    hide WF, Encode, Picked;
    if Copied(copied, total, included, msgs, fn, tbls) {
      var v := PickedAreMessages(msgs[..total], 0, fn, tbls, i);
    }
  }

  /** A subscription for which the announced messages include one update of guarded columns that is torn two bytes or
      more into its table succeeds, and what it leaves is in step with no journal any more. */
  lemma TornUpdateReplay(hdr: bytes, msgs: seq<Val>, m: Val, tail: bytes, job: Job, writes: seq<nat>,
                         before: seq<bytes>, all: seq<Val>, total: nat, included: nat)
    requires GoesBeyond(hdr, msgs, job, writes) && job.max == |msgs| + 1 && job.skip <= |msgs|
    requires |Picked(msgs, job.skip, job.fn, job.tbls)| < |writes|
    requires WF(m) && EndsInTable(m) && Guarded(m.items[|m.items| - 1].rows) && |m.items| >= 3 && |Encode(m)| < TWO_31
    requires Matches(m, job.fn, job.tbls) && Torn(tail, Encode(m)) && |tail| >= TableAt(m) + 2
    ensures var o := WalkOf(TornJournal(hdr, msgs, tail), job, writes);
            && o.walk == Walked(|msgs| + 1, |Picked(msgs, job.skip, job.fn, job.tbls)| + 1)
            && !Copied(before + o.copied, total, included, all, job.fn, job.tbls)
  {
    hide WF, Encode, EncodeAll, Picked, Matches, Guarded, WalkOf, WalkFrom, Cut, AllSound, AllGuarded, TableAt, Copied;
    var picked := Picked(msgs, job.skip, job.fn, job.tbls);
    var left, n := writes[|picked|..], TableAt(m) + 1;
    TornUpdate(hdr, msgs, m, tail, job, writes);
    var at := SZ_MSG_HDR + |EncodeAll(msgs)| + n;
    WalkEnds(tail[n..], at, |msgs| + 1, |picked| + 1, job, left[1..]);
    var piece := tail[..Min(left[0], n)];
    NothingAfter(Outcome(Walked(|msgs| + 1, |picked| + 1), []), Cut(picked, writes) + [piece]);
    var copied := before + (Cut(picked, writes) + [piece]);
    assert copied[|before| + |picked|] == piece;
    NeverInStep(copied, |before| + |picked|, total, included, all, job.fn, job.tbls);
  }

  /** A first subscription to a journal that ends within its only message, an update of one column: thirteen bytes are
      copied as a message, and the subscription succeeds. */
  method TornSubscription(hdr: bytes) returns (r: ReplayResult, copied: seq<bytes>, total: nat)
    requires |hdr| == SZ_MSG_HDR
    ensures r == Replayed && copied == [[0, 0, 3, 0, 0, 0, 245, 117, 0, 245, 116, 0, 98]] && total == 1
  {
    hide WalkOf, Holds, Copied, Picked, Cut;
    var counts := new Counts();
    var scribe := new Scribe([13]);
    SmallCutIsCopied(hdr, 1, 13);
    r := counts.Subscribe(1, hdr + SMALL_CUT, [117], {[116]}, scribe, [], []);
    copied, total := scribe.copied, counts.total;
    assert SMALL_CUT[..13] == [0, 0, 3, 0, 0, 0, 245, 117, 0, 245, 116, 0, 98];
  }
}
