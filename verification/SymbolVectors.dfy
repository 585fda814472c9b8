/** Symbol vectors: character data nose to tail, and where in it each symbol lies. */
module SymbolVectors {
  import opened Bytes
  import opened KdbValue
  import opened Partial
  import opened Reader

  class KdbSymbolVector {
    var locs: seq<Loc>
    var data: bytes
    ghost var syms: seq<bytes>

    /** The locations tile the data from end to end, one tile a symbol, its NUL included. */
    ghost predicate Valid()
      reads this
    {
      locs == LocsOf(syms, 0) && data == EncodeSyms(syms)
    }

    /** The first pass sums the lengths and notes the locations, the second copies the characters. */
    constructor (vals: seq<bytes>)
      ensures Valid() && syms == vals
    {
      locs, data, syms := [], [], vals;
      new;
      var cap: nat := 0;
      for i := 0 to |vals|
        invariant data == [] && syms == vals
        invariant locs == LocsOf(vals[..i], 0) && cap == SymBytes(vals[..i])
      {
        assert vals[..i + 1] == vals[..i] + [vals[i]];
        LocsPush(vals[..i], vals[i], 0);
        locs := locs + [Loc(cap, |vals[i]| + SZ_BYTE)];
        cap := cap + |vals[i]| + SZ_BYTE;
      }
      assert vals[..|vals|] == vals;
      for i := 0 to |vals|
        invariant locs == LocsOf(vals, 0) && syms == vals && data == EncodeSyms(vals[..i])
      {
        LocAt(vals, i, 0);
        assert vals[..i + 1] == vals[..i] + [vals[i]];
        LocsPush(vals[..i], vals[i], 0);
        data := data + vals[i][..locs[i].len - SZ_BYTE] + [0];
      }
    }

    method Push(sym: bytes)
      requires Valid()
      modifies this
      ensures Valid() && syms == old(syms) + [sym]
    {
      LocsPush(syms, sym, 0);
      EncodeSymsLength(syms);
      locs := locs + [Loc(|data|, |sym| + SZ_BYTE)];
      data := data + sym + [0];
      syms := syms + [sym];
    }

    /** Appends the symbols that have arrived whole, `rqd` of them at most. */
    method ReadMore(rqd: nat, buf: ReadBuf) returns (rr: ReadResult)
      requires Valid() && rqd > 0 && buf.Ok()
      modifies this, buf`csr, buf`off
      ensures Valid() && buf.Ok()
      ensures syms == old(syms) + TakeSyms(buf.src[old(buf.off)..], rqd)
      ensures rr == if |syms| == |old(syms)| + rqd then RD_OK else RD_INCOMPLETE
    {
      ghost var more := TakeSyms(buf.src[buf.off..], rqd);
      LocsAppend(syms, more, 0);
      EncodeSymsLength(syms);
      locs, data, rr := ReadSyms(rqd, locs, data, buf);
      syms := syms + more;
    }

    /** Symbol `idx`, or nothing (the source throws) if there is none. */
    method GetString(idx: nat) returns (s: Option<bytes>)
      requires Valid()
      ensures s == if idx < |syms| then Some(syms[idx]) else None
    {
      LocsCount(syms, 0);
      if idx >= |locs| {
        return None;
      }
      LocAt(syms, idx, 0);
      s := Some(data[locs[idx].off..locs[idx].off + locs[idx].len - 1]);
    }

    /** The first place where `col` occurs, or -1. */
    method IndexOf(col: bytes) returns (r: int)
      requires Valid()
      ensures -1 <= r < |syms|
      ensures r >= 0 ==> syms[r] == col && col !in syms[..r]
      ensures r == -1 ==> col !in syms
    {
      LocsCount(syms, 0);
      for i := 0 to |locs|
        invariant col !in syms[..i]
      {
        LocAt(syms, i, 0);
        var sv := data[locs[i].off..locs[i].off + locs[i].len - 1];
        if sv == col {
          return i;
        }
        assert syms[..i + 1] == syms[..i] + [syms[i]];
      }
      assert syms[..|syms|] == syms;
      r := -1;
    }
  }

  /** Tile `i` holds symbol `i`. */
  lemma LocAt(ss: seq<bytes>, i: nat, off: nat)
    requires i < |ss|
    ensures |LocsOf(ss, off)| == |ss|
    ensures var l := LocsOf(ss, off)[i];
            && l.len == |ss[i]| + 1 && off <= l.off && l.off - off + l.len <= |EncodeSyms(ss)|
            && EncodeSyms(ss)[l.off - off..l.off - off + |ss[i]|] == ss[i]
  {
    hide LocsOf, EncodeSyms, SymBytes;
    var a, b := ss[..i], ss[i..];
    assert ss == a + b;
    LocsCount(ss, off);
    LocsCount(a, off);
    LocsAppend(a, b, off);
    EncodeSymsLength(a);
    FirstTile(b, off + SymBytes(a));
    SliceBehind(EncodeSyms(a), EncodeSyms(b), |ss[i]|);
  }

  lemma FirstTile(ss: seq<bytes>, off: nat)
    requires ss != []
    ensures LocsOf(ss, off) != [] && LocsOf(ss, off)[0] == Loc(off, |ss[0]| + 1)
    ensures |EncodeSyms(ss)| >= |ss[0]| + 1 && EncodeSyms(ss)[..|ss[0]|] == ss[0]
  {
    hide SymBytes;
  }

  lemma SliceBehind(a: bytes, b: bytes, n: nat)
    requires n <= |b|
    ensures (a + b)[|a|..|a| + n] == b[..n]
  {
  }
}
