/** Journals that end within a message: when the walk notices, and what is copied when it does not. */
module TornMessages {
  import opened Bytes
  import opened KdbValue
  import opened Reader
  import opened Scanner
  import opened UpdFilter
  import opened Decode
  import opened Journal

  // ---- what the scanner can report ----

  /** A report about `len` bytes is -1, -2, a length that exceeds them by less than an atom, or has wrapped around. */
  predicate Bounded(r: Scan, len: int) {
    r.Code? ==> -2 <= r.n <= len + 16 || 0 - TWO_31 <= r.n <= len + 16 - TWO_32
  }

  /** So it is for any bytes. */
  lemma {:induction false} ReportBounds(s: bytes)
    requires |s| < TWO_31
    ensures Bounded(PayloadLen(s), |s|)
    decreases |s|, 2
  {
    hide AsInt32, VaryLen, ListLen, SymVecLen, AtomSpan, VecWidth;
    if s != [] {
      var t := I8(s[0]);
      if t == LIST && |s| >= SZ_VEC_HDR {
        ListBounds(s, SZ_VEC_HDR, AsInt32(s[2..6]));
      } else if t == SYMBOL_VECTOR && |s| >= SZ_VEC_HDR {
        SymVecBounds(s, SZ_VEC_HDR, AsInt32(s[2..6]));
      } else {
        VaryBounds(s);
      }
    }
  }

  lemma {:induction false} SymVecBounds(s: bytes, off: nat, k: int)
    requires off <= |s|
    ensures -1 <= SymVecLen(s, off, k) <= |s|
    decreases k
  {
    if k > 0 && StrNLen(s[off..]) != |s| - off {
      SymVecBounds(s, off + StrNLen(s[off..]) + 1, k - 1);
    }
  }

  lemma {:induction false} ListBounds(s: bytes, len: nat, k: int)
    requires |s| < TWO_31 && 0 < len <= |s| + 16
    ensures Bounded(ListLen(s, len, k), |s|)
    decreases |s|, 0, k
  {
    hide PayloadLen;
    if k > 0 && len <= |s| {
      ReportBounds(s[len..]);
      var e := PayloadLen(s[len..]);
      if e.Code? && e.n >= 0 {
        ListBounds(s, len + e.n, k - 1);
      }
    }
  }

  lemma {:induction false} VaryBounds(s: bytes)
    requires |s| < TWO_31
    ensures Bounded(VaryLen(s), |s|)
    decreases |s|, 1
  {
    hide PayloadLen;
    if |s| >= 1 && I8(s[0]) == TABLE {
      if |s| >= 2 {
        VaryBounds(s[2..]);
      }
    } else if |s| >= 1 && (I8(s[0]) == DICT || I8(s[0]) == STEP_DICT) {
      ReportBounds(s[1..]);
      var k := PayloadLen(s[1..]);
      if k.Code? && ToInt32(k.n) >= 0 && 1 + ToInt32(k.n) <= |s| {
        ReportBounds(s[1 + ToInt32(k.n)..]);
      }
    }
  }

  /** What begins as a table is never reported as incomplete: 2 has been added to that report. */
  lemma TableNotShort(s: bytes)
    requires s != [] && I8(s[0]) == TABLE && |s| < TWO_31
    ensures PayloadLen(s) != Code(-1)
  {
    hide PayloadLen;
    DictIsVary(s);
    if |s| >= 2 {
      VaryBounds(s[2..]);
    }
  }

  // ---- lists that end in a table ----

  lemma {:induction false} ListSkips(vs: seq<Val>, s: bytes, off: nat, k: nat)
    requires AllWF(vs) && AllGuarded(vs) && 0 < off <= |s| && EncodeAll(vs) <= s[off..] && |EncodeAll(vs)| < TWO_31
    ensures ListLen(s, off, |vs| + k) == ListLen(s, off + |EncodeAll(vs)|, k)
    decreases vs
  {
    hide Encode, PayloadLen, WF, Guarded;
    if vs != [] {
      var e, rest := Encode(vs[0]), EncodeAll(vs[1..]);
      SplitPrefix(e, rest, s, off);
      GuardedScannable(vs[0]);
      LengthIffScannable(vs[0], s[off..]);
      ListSkips(vs[1..], s, off + |e|, k);
    }
  }

  lemma {:induction false} ListStops(s: bytes, off: nat, k: nat, j: nat)
    requires 0 < off && ListLen(s, off, k) == Code(-1)
    ensures ListLen(s, off, k + j) == Code(-1)
    decreases k
  {
    hide PayloadLen;
    if k > 0 && off <= |s| && PayloadLen(s[off..]).Code? && PayloadLen(s[off..]).n >= 0 {
      ListStops(s, off + PayloadLen(s[off..]).n, k - 1, j);
    }
  }

  /** An update as a tickerplant sends it: a list whose last element is a table, the others guarded. */
  predicate EndsInTable(m: Val) {
    m.List? && m.items != [] && AllGuarded(Before(m)) && m.items[|m.items| - 1].Table?
  }

  function Before(m: Val): (vs: seq<Val>)
    requires m.List? && m.items != []
  {
    m.items[..|m.items| - 1]
  }

  /** Where its table begins. */
  function TableAt(m: Val): nat
    requires WF(m) && m.List? && m.items != []
  {
    SZ_VEC_HDR + |EncodeAll(Before(m))|
  }

  lemma LastOf(m: Val)
    requires WF(m) && m.List? && m.items != []
    ensures AllWF(m.items) && AllWF(Before(m))
    ensures EncodeAll(m.items) == EncodeAll(Before(m)) + Encode(m.items[|m.items| - 1])
    ensures |Encode(m)| == TableAt(m) + |Encode(m.items[|m.items| - 1])|
  {
    hide Encode;
    var vs, last := Before(m), m.items[|m.items| - 1];
    assert m.items == vs + [last];
    EncodeAllConcat(vs, [last]);
    assert [last][1..] == [];
    assert EncodeAll([last]) == Encode(last);
    ListSize(m);
  }

  /** Torn up to the beginning of the table it is reported as incomplete; torn later it is not, and what the scanner
      says of the piece of the table is what matters. */
  lemma TornReport(m: Val, s: bytes)
    requires WF(m) && EndsInTable(m) && s != [] && Torn(s, Encode(m)) && |Encode(m)| < TWO_31
    ensures PayloadLen(s) == Code(-1) <==> |s| <= TableAt(m)
    ensures |s| > TableAt(m) ==>
              && Torn(s[TableAt(m)..], Encode(m.items[|m.items| - 1]))
              && var e := PayloadLen(s[TableAt(m)..]);
                 PayloadLen(s) == if e.Overrun? || e.n < 0 then e else Code(TableAt(m) + e.n)
  {
    hide Encode, EncodeAll, PayloadLen, WF, AllGuarded;
    var vs, last := Before(m), m.items[|m.items| - 1];
    LastOf(m);
    TornList(m, s);
    if |s| >= SZ_VEC_HDR {
      TornSplit(s, SZ_VEC_HDR, EncodeAll(vs), Encode(last));
      if |s| < TableAt(m) {
        TornShortAll(vs, s, SZ_VEC_HDR);
        ListStops(s, SZ_VEC_HDR, |vs|, 1);
      } else {
        ListSkips(vs, s, SZ_VEC_HDR, 1);
        LastElement(s, TableAt(m));
        if |s| == TableAt(m) {
          NothingShort(s[TableAt(m)..]);
        } else {
          TableFront(last, s[TableAt(m)..]);
          TableNotShort(s[TableAt(m)..]);
        }
      }
    }
  }

  lemma LastElement(s: bytes, at: nat)
    requires 0 < at <= |s|
    ensures var e := PayloadLen(s[at..]);
            ListLen(s, at, 1) == if e.Overrun? || e.n < 0 then e else Code(at + e.n)
  {
    hide PayloadLen;
  }

  lemma TableFront(v: Val, s: bytes)
    requires WF(v) && v.Table? && s != [] && s <= Encode(v)
    ensures I8(s[0]) == TABLE
  {
    hide Encode, WF;
    EncodeNonEmpty(v);
    assert s[0] == Encode(v)[0];
  }

  /** A table of guarded columns, torn: one byte makes the scanner look beyond it, more are reported as one byte. */
  lemma TornTable(v: Val, s: bytes)
    requires WF(v) && v.Table? && Guarded(v.rows) && s != [] && Torn(s, Encode(v)) && |Encode(v)| < TWO_31
    ensures PayloadLen(s) == if |s| == 1 then Overrun else Code(1)
  {
    hide Encode, PayloadLen, WF;
    var d := Dict(DICT, v.cols, v.rows);
    TableIsDict(v);
    TableFront(v, s);
    DictIsVary(s);
    if |s| >= 2 {
      TornHead([U8(TABLE), 0], Encode(d), s);
      TornShort(d, s[2..]);
      if |s| > 2 {
        EncodeNonEmpty(d);
        assert s[2] == Encode(d)[0];
        DictIsVary(s[2..]);
      }
    }
  }

  /** The beginning of a message is not a message. */
  lemma TornIsNoMessage(s: bytes, m: Val)
    requires WF(m) && Torn(s, Encode(m))
    ensures forall v: Val :: WF(v) ==> Encode(v) != s
  {
    hide Encode, WF;
    forall v: Val | WF(v)
      ensures Encode(v) != s
    {
      if Encode(v) == s {
        PrefixFree(v, m, Encode(m));
      }
    }
  }

  // ---- the walk ----

  /** A walk complains about nothing that lies before where it began. */
  lemma {:induction false} ComplainsLater(rest: bytes, at: nat, count: nat, used: nat, job: Job, writes: seq<nat>)
    ensures var w := WalkFrom(rest, at, count, used, job, writes).walk;
            w.BadJournal? ==> w.at >= at
    decreases job.max - count
  {
    hide PayloadLen, Offer, WalkFrom;
    if rest == [] || count >= job.max {
      WalkEnds(rest, at, count, used, job, writes);
    } else {
      WalkStep(rest, at, count, used, job, writes);
      var len := PayloadLen(rest);
      if len.Code? && len.n >= 0 {
        ComplainsLater(From(rest, len.n), at + len.n, count + 1, used, job, writes);
        if writes != [] {
          ComplainsLater(From(rest, len.n), at + len.n, count + 1, used + 1, job, writes[1..]);
        }
      }
    }
  }

  /** The walk reports an incomplete journal where it stands exactly if the scanner reports an incomplete message. */
  lemma ComplainsHereIff(rest: bytes, at: nat, count: nat, used: nat, job: Job, writes: seq<nat>)
    requires rest != [] && count < job.max && PayloadLen(rest) != Code(0)
    ensures WalkFrom(rest, at, count, used, job, writes).walk == BadJournal(true, at) <==> PayloadLen(rest) == Code(-1)
    ensures PayloadLen(rest) == Code(-1) ==>
              WalkFrom(rest, at, count, used, job, writes) == Outcome(BadJournal(true, at), [])
  {
    hide PayloadLen, Offer, WalkFrom;
    WalkStep(rest, at, count, used, job, writes);
    var len := PayloadLen(rest);
    if len.Code? && len.n >= 0 {
      ComplainsLater(From(rest, len.n), at + len.n, count + 1, used, job, writes);
      if writes != [] {
        ComplainsLater(From(rest, len.n), at + len.n, count + 1, used + 1, job, writes[1..]);
      }
    }
  }

  /** The header, the messages, and what is there of the next. */
  function TornJournal(hdr: bytes, msgs: seq<Val>, tail: bytes): bytes
    requires AllWF(msgs)
  {
    hdr + EncodeAll(msgs) + tail
  }

  /** The walk is to go beyond the whole messages, and there are writes for those to be copied. */
  ghost predicate GoesBeyond(hdr: bytes, msgs: seq<Val>, job: Job, writes: seq<nat>) {
    && |hdr| == SZ_MSG_HDR && AllSound(msgs) && job.max > |msgs| && AllWF(msgs)
    && |Picked(msgs, job.skip, job.fn, job.tbls)| <= |writes|
  }

  lemma Beyond(hdr: bytes, msgs: seq<Val>, tail: bytes, job: Job, writes: seq<nat>)
    requires GoesBeyond(hdr, msgs, job, writes)
    ensures var picked := Picked(msgs, job.skip, job.fn, job.tbls);
            WalkOf(TornJournal(hdr, msgs, tail), job, writes)
            == WalkFrom(tail, SZ_MSG_HDR + |EncodeAll(msgs)|, |msgs|, |picked|, job, writes[|picked|..])
               .After(Cut(picked, writes))
  {
    hide WF, Encode, EncodeAll, Scannable, Picked, WalkFrom, Cut;
    var jnl := TornJournal(hdr, msgs, tail);
    assert jnl == hdr + (EncodeAll(msgs) + tail);
    assert jnl[SZ_MSG_HDR..] == EncodeAll(msgs) + tail;
    JournalAndMore(jnl, msgs, tail, job, writes);
  }

  /** Every cut of the message that follows is reported where that message begins exactly if it is guarded. */
  lemma EveryCutReportedIff(hdr: bytes, msgs: seq<Val>, m: Val, job: Job, writes: seq<nat>)
    requires GoesBeyond(hdr, msgs, job, writes) && WF(m) && |Encode(m)| < TWO_31
    ensures (forall tail: bytes | tail != [] && Torn(tail, Encode(m)) ::
               WalkOf(TornJournal(hdr, msgs, tail), job, writes).walk
               == BadJournal(true, SZ_MSG_HDR + |EncodeAll(msgs)|))
       <==> Guarded(m)
  {
    hide WF, Encode, EncodeAll, Scannable, Picked, WalkOf, Cut, Guarded, PayloadLen, AllSound;
    if Guarded(m) {
      forall tail: bytes | tail != [] && Torn(tail, Encode(m))
        ensures WalkOf(TornJournal(hdr, msgs, tail), job, writes).walk
             == BadJournal(true, SZ_MSG_HDR + |EncodeAll(msgs)|)
      {
        GuardedCut(hdr, msgs, m, tail, job, writes);
      }
    } else {
      SlipBound(m);
      var tail := Encode(m)[..Slip(m)];
      SlipMissed(m, tail);
      MissedCut(hdr, msgs, tail, |Encode(m)|, job, writes);
      assert tail != [] && Torn(tail, Encode(m));
    }
  }

  /** A guarded message, torn anywhere: what came before it has been copied, and the walk reports where it begins. */
  lemma GuardedCut(hdr: bytes, msgs: seq<Val>, m: Val, tail: bytes, job: Job, writes: seq<nat>)
    requires GoesBeyond(hdr, msgs, job, writes) && WF(m) && Guarded(m) && |Encode(m)| < TWO_31
    requires tail != [] && Torn(tail, Encode(m))
    ensures var picked := Picked(msgs, job.skip, job.fn, job.tbls);
            WalkOf(TornJournal(hdr, msgs, tail), job, writes)
            == Outcome(BadJournal(true, SZ_MSG_HDR + |EncodeAll(msgs)|), Cut(picked, writes))
  {
    hide WF, Encode, EncodeAll, Scannable, Picked, WalkOf, WalkFrom, Cut, Guarded, PayloadLen, AllSound;
    var picked := Picked(msgs, job.skip, job.fn, job.tbls);
    Beyond(hdr, msgs, tail, job, writes);
    TornShort(m, tail);
    ComplainsHereIff(tail, SZ_MSG_HDR + |EncodeAll(msgs)|, |msgs|, |picked|, job, writes[|picked|..]);
    assert Cut(picked, writes) + [] == Cut(picked, writes);
  }

  lemma MissedCut(hdr: bytes, msgs: seq<Val>, tail: bytes, full: nat, job: Job, writes: seq<nat>)
    requires GoesBeyond(hdr, msgs, job, writes) && tail != [] && Missed(PayloadLen(tail), |tail|, full)
    ensures AllWF(msgs)
    ensures WalkOf(TornJournal(hdr, msgs, tail), job, writes).walk != BadJournal(true, SZ_MSG_HDR + |EncodeAll(msgs)|)
  {
    hide WF, EncodeAll, Scannable, Picked, WalkOf, WalkFrom, Cut, PayloadLen, AllSound;
    var picked := Picked(msgs, job.skip, job.fn, job.tbls);
    Beyond(hdr, msgs, tail, job, writes);
    ComplainsHereIff(tail, SZ_MSG_HDR + |EncodeAll(msgs)|, |msgs|, |picked|, job, writes[|picked|..]);
  }

  /** A message that ends in a table: a cut is reported where the message begins exactly if the table has not begun. */
  lemma CutReportedIff(hdr: bytes, msgs: seq<Val>, m: Val, tail: bytes, job: Job, writes: seq<nat>)
    requires GoesBeyond(hdr, msgs, job, writes) && WF(m) && EndsInTable(m) && |Encode(m)| < TWO_31
    requires tail != [] && Torn(tail, Encode(m))
    ensures WalkOf(TornJournal(hdr, msgs, tail), job, writes).walk == BadJournal(true, SZ_MSG_HDR + |EncodeAll(msgs)|)
       <==> |tail| <= TableAt(m)
  {
    hide WF, Encode, EncodeAll, Scannable, Picked, WalkOf, WalkFrom, Cut, PayloadLen, AllSound, AllGuarded, TableAt;
    var picked := Picked(msgs, job.skip, job.fn, job.tbls);
    Beyond(hdr, msgs, tail, job, writes);
    TornReport(m, tail);
    AtLeastHeader(m);
    ComplainsHereIff(tail, SZ_MSG_HDR + |EncodeAll(msgs)|, |msgs|, |picked|, job, writes[|picked|..]);
  }

  lemma AtLeastHeader(m: Val)
    requires WF(m) && m.List? && m.items != []
    ensures TableAt(m) >= SZ_VEC_HDR
  {
  }

  /** Whether a torn message would be copied depends on its first two elements alone, if they are there. */
  lemma TornOffer(ith: nat, job: Job, m: Val, tail: bytes, len: nat, writes: seq<nat>)
    requires WF(m) && EndsInTable(m) && |m.items| >= 3
    requires tail <= Encode(m) && |tail| > TableAt(m) && len >= TableAt(m)
    ensures Offer(ith, job, tail, len, writes)
         == if ith < job.skip || !Matches(m, job.fn, job.tbls) then Ignored
            else if len > |tail| then Outside
            else if writes == [] then WriteFailed
            else Copy(tail[..Min(writes[0], len)])
  {
    hide WF, Encode, Matches, Verdict, AllGuarded, TableAt, Fronted;
    AtLeastHeader(m);
    TornFront(m, tail);
    FrontDecides(m, tail, len, job.fn, job.tbls);
  }

  lemma TornFront(m: Val, tail: bytes)
    requires WF(m) && EndsInTable(m) && |m.items| >= 3
    requires tail <= Encode(m) && |tail| > TableAt(m)
    ensures AllWF(m.items) && Fronted(m, tail) && 6 + |Encode(m.items[0])| <= TableAt(m)
  {
    hide WF, Encode, EncodeAll, AsInt32, AllGuarded;
    var vs, e := Before(m), Encode(m);
    ListHead(m, e);
    EncodeNonEmpty(m);
    LastOf(m);
    TwoFirst(vs);
    var a, b := Encode(vs[0]), Encode(vs[1]);
    assert vs[0] == m.items[0] && vs[1] == m.items[1];
    assert tail[0] == e[0] && tail[2..6] == e[2..6];
    FrontThere(a, b, EncodeAll(vs[2..]), Encode(m.items[|m.items| - 1]), e, tail);
  }

  lemma TwoFirst(vs: seq<Val>)
    requires AllWF(vs) && |vs| >= 2
    ensures EncodeAll(vs) == Encode(vs[0]) + (Encode(vs[1]) + EncodeAll(vs[2..]))
  {
    hide Encode, WF;
    assert vs[1..][1..] == vs[2..];
  }

  lemma FrontThere(a: bytes, b: bytes, c: bytes, d: bytes, e: bytes, s: bytes)
    requires |e| >= 6 && e[6..] == a + (b + c) + d && s <= e && |s| >= 6 + |a| + |b| + |c|
    ensures a <= s[6..] && b <= s[6 + |a|..]
  {
    var t := s[6..];
    assert t == e[6..][..|t|];
    assert t[..|a|] == a;
    assert s[6 + |a|..] == t[|a|..];
    assert t[|a|..][..|b|] == b;
  }

  /** An update of guarded columns, torn within its table: the walk takes the bytes up to the table and one more for a
      message, which they are not, copies them if the whole message is one to be copied, and goes on after them. */
  lemma TornUpdate(hdr: bytes, msgs: seq<Val>, m: Val, tail: bytes, job: Job, writes: seq<nat>)
    requires GoesBeyond(hdr, msgs, job, writes)
    requires WF(m) && EndsInTable(m) && Guarded(m.items[|m.items| - 1].rows) && |m.items| >= 3 && |Encode(m)| < TWO_31
    requires Torn(tail, Encode(m)) && |tail| > TableAt(m)
    ensures var picked := Picked(msgs, job.skip, job.fn, job.tbls);
            var before, left := Cut(picked, writes), writes[|picked|..];
            var at, n := SZ_MSG_HDR + |EncodeAll(msgs)|, TableAt(m) + 1;
            WalkOf(TornJournal(hdr, msgs, tail), job, writes)
            == if |tail| == n then Outcome(OutOfBounds, before)
               else if |msgs| < job.skip || !Matches(m, job.fn, job.tbls) then
                 WalkFrom(tail[n..], at + n, |msgs| + 1, |picked|, job, left).After(before)
               else if left == [] then Outcome(Walked(|msgs| + 1, |picked|), before)
               else WalkFrom(tail[n..], at + n, |msgs| + 1, |picked| + 1, job, left[1..])
                    .After(before + [tail[..Min(left[0], n)]])
    ensures forall k: nat, v: Val :: k <= TableAt(m) + 1 && WF(v) ==> Encode(v) != tail[..k]
  {
    hide WF, Encode, EncodeAll, Scannable, Picked, WalkOf, WalkFrom, Cut, PayloadLen, AllSound, Matches, Guarded;
    hide AllGuarded, TableAt, Offer;
    var picked := Picked(msgs, job.skip, job.fn, job.tbls);
    var before, left := Cut(picked, writes), writes[|picked|..];
    var at, n := SZ_MSG_HDR + |EncodeAll(msgs)|, TableAt(m) + 1;
    Beyond(hdr, msgs, tail, job, writes);
    AtLeastHeader(m);
    TornUpdateReport(m, tail);
    WalkStep(tail, at, |msgs|, |picked|, job, left);
    TornOffer(|msgs|, job, m, tail, n, left);
    assert before + [] == before;
    assert |tail| > n ==> From(tail, n) == tail[n..];
    if |tail| > n && left != [] {
      AfterAfter(before, [tail[..Min(left[0], n)]],
                 WalkFrom(tail[n..], at + n, |msgs| + 1, |picked| + 1, job, left[1..]));
    }
    forall k: nat, v: Val | k <= TableAt(m) + 1 && WF(v)
      ensures Encode(v) != tail[..k]
    {
      TornIsNoMessage(tail[..k], m);
    }
  }

  lemma TornUpdateReport(m: Val, tail: bytes)
    requires WF(m) && EndsInTable(m) && Guarded(m.items[|m.items| - 1].rows) && |Encode(m)| < TWO_31
    requires Torn(tail, Encode(m)) && |tail| > TableAt(m)
    ensures PayloadLen(tail) == if |tail| == TableAt(m) + 1 then Overrun else Code(TableAt(m) + 1)
  {
    hide WF, Encode, PayloadLen, Guarded, TableAt;
    TornReport(m, tail);
    LastIs(m);
    TornTable(m.items[|m.items| - 1], tail[TableAt(m)..]);
  }

  lemma LastIs(m: Val)
    requires WF(m) && EndsInTable(m)
    ensures m.items[|m.items| - 1].Table? && WF(m.items[|m.items| - 1])
    ensures |Encode(m.items[|m.items| - 1])| <= |Encode(m)|
  {
    hide Encode;
    LastOf(m);
  }

  // ---- an input ----

  /** An update of the table `t` with one column, sent by a call of `u`. */
  function SmallUpdate(): (m: Val)
    ensures WF(m)
  {
    List(0, [Sym([117]), Sym([116]), Table(SymVec(0, [[99]]), List(0, [SymVec(0, [[100]])]))])
  }

  const SMALL_CUT: bytes := [0, 0, 3, 0, 0, 0, 245, 117, 0, 245, 116, 0, 98, 0]

  lemma SmallUpdateCut()
    ensures Torn(SMALL_CUT, Encode(SmallUpdate())) && |Encode(SmallUpdate())| < 100
    ensures EndsInTable(SmallUpdate()) && TableAt(SmallUpdate()) == 12 && Matches(SmallUpdate(), [117], {[116]})
    ensures Guarded(SmallUpdate().items[2].rows) && !Guarded(SmallUpdate())
  {
    hide Encode, EncodeAll, WireSz;
    var m := SmallUpdate();
    var vs, v := Before(m), m.items[2];
    SmallSymbols(vs);
    SmallHeader();
    TableIsDict(v);
    EncodeNonEmpty(Dict(DICT, v.cols, v.rows));
    LastOf(m);
    WireSzIsLength(m);
    SmallSize();
    assert Encode(m) == Header(LIST, 0, 3) + EncodeAll(m.items) by {
      ListIs(m);
    }
    SmallFront(Encode(m), EncodeAll(m.items), Encode(v), Encode(Dict(DICT, v.cols, v.rows)));
  }

  lemma ListIs(m: Val)
    requires WF(m) && m.List?
    ensures AllWF(m.items) && Encode(m) == Header(LIST, m.lattr, |m.items|) + EncodeAll(m.items)
  {
  }

  lemma SmallFront(e: bytes, all: bytes, t: bytes, d: bytes)
    requires e == [0, 0, 3, 0, 0, 0] + all && all == [245, 117, 0, 245, 116, 0] + t && t == [98, 0] + d && d != []
    ensures SMALL_CUT <= e && |SMALL_CUT| < |e|
  {
    assert e == SMALL_CUT + d;
  }

  lemma SmallSymbols(vs: seq<Val>)
    requires vs == [Sym([117]), Sym([116])]
    ensures AllWF(vs) && EncodeAll(vs) == [245, 117, 0, 245, 116, 0] && AllGuarded(vs)
  {
    var us := vs[1..];
    assert us == [Sym([116])] && us[1..] == [];
    assert Encode(vs[0]) == [245, 117, 0] && Encode(us[0]) == [245, 116, 0];
    hide Encode;
    assert EncodeAll(us) == Encode(us[0]) + EncodeAll(us[1..]);
    assert EncodeAll(vs) == Encode(vs[0]) + EncodeAll(us);
    assert Guarded(vs[0]) && Guarded(us[0]) && AllGuarded(us[1..]) && AllGuarded(us);
  }

  lemma SmallHeader()
    ensures Header(LIST, 0, 3) == [0, 0, 3, 0, 0, 0]
  {
    assert ToLE(0, 0) == [];
    assert ToLE(1, 0) == [0];
    assert ToLE(2, 0) == [0, 0];
    assert ToLE(3, 0) == [0, 0, 0];
  }

  lemma SmallSize()
    ensures WireSz(SmallUpdate()) < 100
  {
    var m := SmallUpdate();
    var vs := m.items;
    assert vs[1..] == [vs[1], vs[2]] && vs[1..][1..] == [vs[2]] && vs[1..][1..][1..] == [];
    assert WireSz(vs[0]) == 3 && WireSz(vs[1]) == 3;
    assert SymBytes([[99]]) == 2 && SymBytes([[100]]) == 2;
    var rs := vs[2].rows.items;
    assert rs[1..] == [] && WireSz(rs[0]) == 8;
    assert WireSz(vs[2]) < 50;
  }

  /** The first 14 bytes of that update after the header of a journal: replaying one message copies 13 of them and
      reports success, and replaying two complains only after having copied them. */
  lemma SmallCutIsCopied(hdr: bytes, max: nat, room: nat)
    requires |hdr| == SZ_MSG_HDR && max > 0 && room >= 13
    ensures WalkOf(hdr + SMALL_CUT, Job(max, 0, [117], {[116]}), [room])
         == Outcome(if max == 1 then Walked(1, 1) else BadJournal(true, 21), [SMALL_CUT[..13]])
    ensures forall v: Val :: WF(v) ==> Encode(v) != SMALL_CUT[..13]
  {
    hide Encode, EncodeAll, WF, WalkOf, WalkFrom, PayloadLen, TableAt, Guarded, Picked, Cut, Matches;
    var m, job := SmallUpdate(), Job(max, 0, [117], {[116]});
    SmallUpdateCut();
    NoneYet(job, [room]);
    TornUpdate(hdr, [], m, SMALL_CUT, job, [room]);
    assert TornJournal(hdr, [], SMALL_CUT) == hdr + SMALL_CUT;
    assert [room][0..] == [room] && [room][1..] == [];
    assert SMALL_CUT[13..] == [0];
    if max == 1 {
      WalkEnds([0], 21, 1, 1, job, []);
    } else {
      ZeroShort();
      WalkStep([0], 21, 1, 1, job, []);
    }
  }

  lemma NoneYet(job: Job, writes: seq<nat>)
    ensures AllWF([]) && AllSound([]) && EncodeAll([]) == [] && Picked([], job.skip, job.fn, job.tbls) == []
    ensures Cut([], writes) == []
  {
  }

  lemma ZeroShort()
    ensures PayloadLen([0]) == Code(-1)
  {
  }
}
