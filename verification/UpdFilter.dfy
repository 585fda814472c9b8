/** Picking update messages for certain tables out of a stream by looking at their bytes. */
module UpdFilter {
  import opened Bytes
  import opened KdbValue
  import opened Reader
  import opened Scanner
  import opened MessageWriter

  /** A call of `fn` with a table of the given names: what a decoded message must be to get through. */
  predicate Matches(v: Val, fn: bytes, tbls: set<bytes>) {
    && v.List? && |v.items| >= 3
    && v.items[0] == Sym(fn)
    && v.items[1].Sym? && v.items[1].text in tbls
  }

  /** `strnlen` of what begins at `off`, looking at `max` bytes; a negative number has wrapped around and limits
      nothing. */
  function BoundedLen(src: bytes, off: nat, max: int): (n: Option<nat>)
    requires off <= |src|
    ensures n.Some? ==> off + n.value <= |src| && (max >= 0 ==> n.value <= max)
                        && (n.value == max || (off + n.value < |src| && src[off + n.value] == 0))
                        && forall i :: off <= i < off + n.value ==> src[i] != 0
    ensures n.None? <==> !(0 <= max <= |src| - off) && forall i :: off <= i < |src| ==> src[i] != 0
  {
    if 0 <= max <= |src| - off then Some(StrNLen(src[off..off + max]))
    else if StrNLen(src[off..]) < |src| - off then Some(StrNLen(src[off..]))
    else None
  }

  /** Whether the message of `len` bytes at the front of `src` gets through; nothing if looking leaves the bytes
      given. */
  function Verdict(src: bytes, len: int, fn: bytes, tbls: set<bytes>): Option<bool> {
    if src == [] then None
    else if I8(src[0]) != LIST then Some(false)
    else if |src| < SZ_VEC_HDR then None
    else if AsInt32(src[2..6]) < 3 then Some(false)
    else
      var off := SZ_VEC_HDR;
      if off >= |src| then None
      else if I8(src[off]) != SYMBOL_ATOM then Some(false)
      else
        var fln := BoundedLen(src, off + 1, len - (off + 1));
        if fln.None? then None
        else if src[off + 1..off + 1 + fln.value] != fn then Some(false)
        else TableNamed(src, off + 1 + fln.value + 1, tbls)
  }

  /** The rest of it: what begins at `off` must be the name of one of the tables. */
  function TableNamed(src: bytes, off: nat, tbls: set<bytes>): Option<bool> {
    if off >= |src| then None
    else if I8(src[off]) != SYMBOL_ATOM then Some(false)
    else
      var n := StrNLen(src[off + 1..]);
      if n == |src| - off - 1 then None else Some(src[off + 1..off + 1 + n] in tbls)
  }

  /** No verdict rests on bytes that are not there: it stands whatever follows them. */
  lemma VerdictStands(src: bytes, more: bytes, len: int, fn: bytes, tbls: set<bytes>)
    requires Verdict(src, len, fn, tbls).Some?
    ensures Verdict(src + more, len, fn, tbls) == Verdict(src, len, fn, tbls)
  {
    hide AsInt32, BoundedLen, TableNamed;
    var all := src + more;
    assert all[0] == src[0];
    if I8(src[0]) == LIST {
      assert all[2..6] == src[2..6];
    }
    if |src| > SZ_VEC_HDR && I8(src[0]) == LIST {
      assert all[SZ_VEC_HDR] == src[SZ_VEC_HDR];
      var off := SZ_VEC_HDR + 1;
      var fln := BoundedLen(src, off, len - off);
      if AsInt32(src[2..6]) >= 3 && I8(src[SZ_VEC_HDR]) == SYMBOL_ATOM && fln.Some? {
        LenStands(src, more, off, len - off);
        assert all[off..off + fln.value] == src[off..off + fln.value];
        if src[off..off + fln.value] == fn {
          NameStands(src, more, off + fln.value + 1, tbls);
        }
      }
    }
  }

  lemma LenStands(src: bytes, more: bytes, off: nat, max: int)
    requires off <= |src| && BoundedLen(src, off, max).Some?
    ensures BoundedLen(src + more, off, max) == BoundedLen(src, off, max)
  {
    var a, b := BoundedLen(src, off, max).value, BoundedLen(src + more, off, max);
    assert (src + more)[..|src|] == src;
    if off + a < |src| && src[off + a] == 0 {
      assert (src + more)[off + a] == 0;
    }
  }

  lemma StringStands(s: bytes, more: bytes)
    requires StrNLen(s) < |s|
    ensures StrNLen(s + more) == StrNLen(s)
  {
    var n := StrNLen(s);
    assert (s + more)[n] == 0;
    assert forall i :: 0 <= i < n ==> (s + more)[i] == s[i];
  }

  lemma NameStands(src: bytes, more: bytes, off: nat, tbls: set<bytes>)
    requires TableNamed(src, off, tbls).Some?
    ensures TableNamed(src + more, off, tbls) == TableNamed(src, off, tbls)
  {
    var all := src + more;
    assert all[off] == src[off];
    if I8(src[off]) == SYMBOL_ATOM {
      assert src[off + 1..] + more == all[off + 1..];
      var n := StrNLen(src[off + 1..]);
      StringStands(src[off + 1..], more);
      assert all[off + 1..off + 1 + n] == src[off + 1..off + 1 + n];
    }
  }

  /** `len` if the message gets through, else `-len`. */
  function FilterUpdMsg(src: bytes, len: int, fn: bytes, tbls: set<bytes>): (r: Scan) {
    var v := Verdict(src, len, fn, tbls);
    if v.None? then Overrun else Code(if v.value then len else -len)
  }

  /** The same for a framed message, whose header says how long it is; the header is counted in the result. */
  function FilterMsg(src: bytes, fn: bytes, tbls: set<bytes>): (r: Scan) {
    if |src| < SZ_MSG_HDR then Code(-1)
    else if src[0] != 1 then Code(-2)
    else
      var len := AsInt32(src[4..8]);
      if len < 0 then Code(-2)
      else if |src| < len then Code(-1)
      else
        var res := FilterUpdMsg(src[SZ_MSG_HDR..], len - SZ_MSG_HDR, fn, tbls);
        if res.Overrun? then res
        else if res.n < 0 then Code(res.n - SZ_MSG_HDR) else Code(res.n + SZ_MSG_HDR)
  }

  /** On a complete message the filter decides what looking at the decoded value would decide. */
  lemma FilterDecides(v: Val, src: bytes, fn: bytes, tbls: set<bytes>)
    requires WF(v) && Encode(v) <= src
    ensures FilterUpdMsg(src, |Encode(v)|, fn, tbls)
         == Code(if Matches(v, fn, tbls) then |Encode(v)| else -|Encode(v)|)
  {
    hide Encode, WF, StrNLen, AsInt32, BoundedLen, TableNamed, Fronted;
    EncodeNonEmpty(v);
    Kinds(v);
    assert src[0] == Encode(v)[0];
    if v.List? {
      ListFront(v, src);
      if |v.items| >= 3 {
        FrontDecides(v, src, |Encode(v)|, fn, tbls);
      }
    }
  }

  /** The header of a list of three elements or more is there, and its first two elements are. */
  predicate Fronted(v: Val, src: bytes)
    requires WF(v) && v.List? && |v.items| >= 3
  {
    && |src| >= SZ_VEC_HDR && I8(src[0]) == LIST && AsInt32(src[2..6]) == |v.items|
    && Encode(v.items[0]) <= src[6..] && Encode(v.items[1]) <= src[6 + |Encode(v.items[0])|..]
  }

  /** Then it decides so whatever follows them, and whatever length it is given that does not end before. */
  lemma FrontDecides(v: Val, src: bytes, len: nat, fn: bytes, tbls: set<bytes>)
    requires WF(v) && v.List? && |v.items| >= 3 && Fronted(v, src) && len >= 6 + |Encode(v.items[0])|
    ensures Verdict(src, len, fn, tbls) == Some(Matches(v, fn, tbls))
  {
    hide Encode, WF, StrNLen, AsInt32, BoundedLen, TableNamed;
    ItemsWF(v);
    EncodeNonEmpty(v.items[0]);
    Kinds(v.items[0]);
    assert src[6] == Encode(v.items[0])[0];
    if v.items[0].Sym? {
      SymSize(v.items[0].text);
      SymField(v.items[0].text, src, 6, len);
      SecondIs(v, src, tbls);
    }
  }

  lemma ListFront(v: Val, src: bytes)
    requires WF(v) && v.List? && Encode(v) <= src
    ensures |src| >= SZ_VEC_HDR && AsInt32(src[2..6]) == |v.items| && EncodeAll(v.items) <= src[6..] && AllWF(v.items)
    ensures |v.items| >= 3 ==>
              && |src| > SZ_VEC_HDR && Encode(v.items[0]) <= src[6..]
              && SZ_VEC_HDR + |Encode(v.items[0])| < |Encode(v)| <= |src|
              && Encode(v.items[1]) <= src[6 + |Encode(v.items[0])|..]
              && Fronted(v, src)
  {
    hide ToLE, AsInt32, EncodeAll, Encode;
    ListHead(v, src);
    EncodeNonEmpty(v);
    assert src[0] == Encode(v)[0];
    var vs := v.items;
    if |vs| >= 3 {
      TwoAhead(vs);
      SplitPrefix(Encode(vs[0]), EncodeAll(vs[1..]), src, 6);
      SplitPrefix(Encode(vs[1]), EncodeAll(vs[2..]), src, 6 + |Encode(vs[0])|);
      EncodeNonEmpty(vs[0]);
      EncodeNonEmpty(vs[1]);
    }
  }

  lemma ItemsWF(v: Val)
    requires WF(v) && v.List?
    ensures AllWF(v.items)
  {
  }

  lemma ListHead(v: Val, src: bytes)
    requires WF(v) && v.List? && Encode(v) <= src
    ensures |src| >= |Encode(v)| >= SZ_VEC_HDR && AllWF(v.items) && |Encode(v)| == SZ_VEC_HDR + |EncodeAll(v.items)|
    ensures AsInt32(src[2..6]) == |v.items| && EncodeAll(v.items) <= src[6..]
  {
    hide ToLE, AsInt32, EncodeAll;
    var e := Encode(v);
    assert src[2..6] == e[2..6] == ToLE(4, |v.items|);
    Int32RoundTrip(|v.items|);
    assert EncodeAll(v.items) == e[6..];
  }

  lemma TwoAhead(vs: seq<Val>)
    requires AllWF(vs) && |vs| >= 3
    ensures EncodeAll(vs) == Encode(vs[0]) + EncodeAll(vs[1..])
    ensures EncodeAll(vs[1..]) == Encode(vs[1]) + EncodeAll(vs[2..])
  {
    hide Encode, WF;
    assert vs[1..][1..] == vs[2..];
  }

  /** A symbol at `off` is found whole, with or without a limit that lies beyond it. */
  lemma SymField(text: bytes, src: bytes, off: nat, len: nat)
    requires WF(Sym(text)) && off <= |src| && Encode(Sym(text)) <= src[off..] && off + |text| + 2 <= len
    ensures BoundedLen(src, off + 1, len - (off + 1)) == Some(|text|)
    ensures StrNLen(src[off + 1..]) == |text| < |src| - off - 1
    ensures src[off + 1..off + 1 + |text|] == text
  {
    hide StrNLen, NoNul;
    SplitPrefix([U8(SYMBOL_ATOM)], text + [0], src, off) by {
      assert Encode(Sym(text)) == [U8(SYMBOL_ATOM)] + (text + [0]);
    }
    var s := src[off + 1..];
    StrNLenAgrees(s, text);
    if len <= |src| {
      assert src[off + 1..len] == s[..len - off - 1];
      assert text + [0] <= src[off + 1..len];
      StrNLenAgrees(src[off + 1..len], text);
    }
    assert src[off + 1..off + 1 + |text|] == s[..|text|];
  }

  lemma SymSize(text: bytes)
    requires WF(Sym(text))
    ensures |Encode(Sym(text))| == |text| + 2
  {
  }

  lemma SecondIs(v: Val, src: bytes, tbls: set<bytes>)
    requires WF(v) && v.List? && |v.items| >= 3 && Fronted(v, src)
    ensures TableNamed(src, 6 + |Encode(v.items[0])|, tbls) == Some(v.items[1].Sym? && v.items[1].text in tbls)
  {
    hide Encode, WF, StrNLen, AsInt32;
    ItemsWF(v);
    var x, off := v.items[1], 6 + |Encode(v.items[0])|;
    EncodeNonEmpty(x);
    Kinds(x);
    assert src[off] == Encode(x)[0];
    if x.Sym? {
      SymWhole(x.text, src, off);
    }
  }

  lemma SymWhole(text: bytes, src: bytes, off: nat)
    requires WF(Sym(text)) && off <= |src| && Encode(Sym(text)) <= src[off..]
    ensures StrNLen(src[off + 1..]) == |text| < |src| - off - 1
    ensures src[off + 1..off + 1 + |text|] == text
  {
    SymField(text, src, off, |src|);
  }

  /** A frame that is all there is counted whole, positively if its message gets through; one of which
      bytes are missing gives -1. */
  lemma FilterFrames(kind: byte, v: Val, src: bytes, fn: bytes, tbls: set<bytes>)
    requires WF(v) && MsgLen(v) < TWO_31 && Agrees(src, Message(kind, v))
    ensures FilterMsg(src, fn, tbls)
         == Code(if |src| < MsgLen(v) then -1 else if Matches(v, fn, tbls) then MsgLen(v) else 0 - MsgLen(v))
    ensures MsgLen(v) > 8
  {
    hide Encode, WF, AsInt32, Matches, FilterUpdMsg, MsgHeader, WireSz;
    WireSzIsLength(v);
    EncodeNonEmpty(v);
    var h, e := MsgHeader(kind, MsgLen(v)), Encode(v);
    AgreesSplit(src, h, e);
    if |src| >= SZ_MSG_HDR {
      HeaderFields(kind, MsgLen(v), src);
      if |src| >= MsgLen(v) {
        FilterDecides(v, src[SZ_MSG_HDR..], fn, tbls);
      }
    }
  }

  /** Headers the filter does not accept, whatever follows: too short, of the other byte order, with a negative length,
      or of a frame that has not all arrived. */
  lemma HeadersRefused(src: bytes, fn: bytes, tbls: set<bytes>)
    ensures |src| < 8 ==> FilterMsg(src, fn, tbls) == Code(-1)
    ensures |src| >= 8 && src[0] != 1 ==> FilterMsg(src, fn, tbls) == Code(-2)
    ensures |src| >= 8 && src[0] == 1 && src[7] >= 128 ==> FilterMsg(src, fn, tbls) == Code(-2)
    ensures |src| >= 8 && src[0] == 1 && src[7] < 128
            && (src[4] as int) + 256 * (src[5] as int) + 65536 * (src[6] as int) + 16777216 * (src[7] as int) > |src|
        ==> FilterMsg(src, fn, tbls) == Code(-1)
  {
    hide FilterUpdMsg;
    if |src| >= 8 {
      var s := src[4..8];
      assert s[1..] == src[5..8] && s[1..][1..] == src[6..8] && s[1..][1..][1..] == src[7..8] && src[7..8][1..] == [];
      var a: nat, b: nat, c: nat, d: nat := src[4], src[5], src[6], src[7];
      assert FromLE(src[7..8]) == d;
      assert FromLE(src[6..8]) == c + 256 * d;
      assert FromLE(src[5..8]) == b + 256 * (c + 256 * d);
      assert FromLE(s) == a + 256 * (b + 256 * (c + 256 * d));
    }
  }

  /** What the filter thinks of the message in a frame. */
  function FrameVerdict(src: bytes, fn: bytes, tbls: set<bytes>): Option<bool>
    requires |src| >= SZ_MSG_HDR
  {
    Verdict(src[SZ_MSG_HDR..], AsInt32(src[4..8]) - SZ_MSG_HDR, fn, tbls)
  }

  /** The result is the announced length, its sign the verdict, exactly if that length is more than that of the
      header, or equal to it and the verdict is favourable; below it the sign is turned around. */
  lemma SignIsVerdictIff(src: bytes, fn: bytes, tbls: set<bytes>)
    requires |src| >= SZ_MSG_HDR && src[0] == 1 && 0 <= AsInt32(src[4..8]) <= |src| && FrameVerdict(src, fn, tbls).Some?
    ensures var len, through := AsInt32(src[4..8]), FrameVerdict(src, fn, tbls).value;
            var r := FilterMsg(src, fn, tbls);
            && (r == Code(if through then len else 0 - len) <==> len > SZ_MSG_HDR || (len == SZ_MSG_HDR && through))
            && (len < SZ_MSG_HDR ==> r == Code(if through then len - 16 else 16 - len))
  {
    hide AsInt32, Verdict;
  }

  /** A frame that matches nothing and is counted as one that gets through. */
  lemma ShortHeaderGetsThrough(fn: bytes, tbls: set<bytes>)
    ensures var frame := [1, 0, 0, 0, 0, 0, 0, 0, 98];
            FilterMsg(frame, fn, tbls) == Code(16) && Verdict(frame[SZ_MSG_HDR..], -8, fn, tbls) == Some(false)
  {
    var frame: bytes := [1, 0, 0, 0, 0, 0, 0, 0, 98];
    assert frame[4..8] == ToLE(4, 0);
    Int32RoundTrip(0);
    assert frame[8..] == [98];
  }
}
