/** What a compressed payload means, independently of how it is decoded. */
module Lz {
  import opened Bytes
  import opened Cursors

  /** A plain byte, or a reference: the two bytes last seen with this hash, and `n` bytes after them. */
  datatype Token = Lit(b: byte) | Ref(h: byte, n: byte)

  /** `^` of the lowest `k` bits. */
  function Xor(a: nat, b: nat, k: nat): (x: nat)
    ensures x < Pow2(k)
  {
    if k == 0 then 0 else (a % 2 + b % 2) % 2 + 2 * Xor(a / 2, b / 2, k - 1)
  }

  function Hash(a: byte, b: byte): byte {
    Pow2Eight(8);
    Xor(a, b, 8)
  }

  lemma XorStep(a: nat, b: nat, k: nat)
    requires k > 0
    ensures Xor(a, b, k) % 2 == (a % 2 + b % 2) % 2 && Xor(a, b, k) / 2 == Xor(a / 2, b / 2, k - 1)
  {
    var bit, more := (a % 2 + b % 2) % 2, Xor(a / 2, b / 2, k - 1);
    assert Xor(a, b, k) == bit + 2 * more;
  }

  function Bit(n: nat, i: nat): nat {
    if i == 0 then n % 2 else Bit(n / 2, i - 1)
  }

  lemma {:induction false} BitIs(n: nat, i: nat)
    ensures Bit(n, i) == n / Pow2(i) % 2
    decreases i
  {
    if i == 0 {
      assert n / 1 == n;
    } else {
      BitIs(n / 2, i - 1);
      HalvesAt(n, Pow2(i - 1), Pow2(i));
    }
  }

  lemma HalvesAt(n: nat, d: nat, e: nat)
    requires d > 0 && e == 2 * d
    ensures n / e == (n / 2) / d
  {
    Halves(n, d);
  }

  /** A bit of the hash is set exactly if it is set in one of the two bytes and not in the other. */
  lemma HashBits(a: byte, b: byte, i: nat)
    requires i < 8
    ensures Hash(a, b) / Pow2(i) % 2 == 1 <==> a / Pow2(i) % 2 != b / Pow2(i) % 2
  {
    hide Xor, Pow2, Bit;
    XorBits(a, b, 8, i);
    BitIs(Hash(a, b), i);
    BitIs(a, i);
    BitIs(b, i);
  }

  lemma {:induction false} XorBits(a: nat, b: nat, k: nat, i: nat)
    requires i < k
    ensures Bit(Xor(a, b, k), i) == if Bit(a, i) != Bit(b, i) then 1 else 0
    decreases i
  {
    hide Xor;
    XorStep(a, b, k);
    if i > 0 {
      XorBits(a / 2, b / 2, k - 1, i - 1);
    }
  }

  lemma Halves(n: nat, d: nat)
    requires d > 0
    ensures n / (2 * d) == (n / 2) / d
  {
    var q, r := (n / 2) / d, (n / 2) % d;
    assert n / 2 == q * d + r && n == 2 * (n / 2) + n % 2;
    assert n == q * (2 * d) + (2 * r + n % 2) by {
      assert 2 * (q * d) == q * (2 * d);
    }
    DivUnique(n, 2 * d, q, 2 * r + n % 2);
  }

  /** Bytes with the same hash as nothing, and what undoes the hash. */
  lemma HashUndone(a: byte, b: byte)
    ensures Hash(a, a) == 0 && Hash(Hash(a, b), b) == a
  {
    XorSame(a, 8);
    XorTwice(a, b, 8);
    Pow2Eight(8);
  }

  lemma {:induction false} XorSame(a: nat, k: nat)
    ensures Xor(a, a, k) == 0
  {
    if k > 0 {
      XorSame(a / 2, k - 1);
    }
  }

  lemma {:induction false} XorTwice(a: nat, b: nat, k: nat)
    requires a < Pow2(k)
    ensures Xor(Xor(a, b, k), b, k) == a
  {
    hide Xor;
    if k == 0 {
      XorNone(a, b);
    } else {
      XorTwice(a / 2, b / 2, k - 1);
      XorStep(a, b, k);
      XorStep(Xor(a, b, k), b, k);
    }
  }

  lemma XorNone(a: nat, b: nat)
    ensures Xor(a, b, 0) == 0 && Xor(Xor(a, b, 0), b, 0) == 0
  {
  }

  /** Decoded output, the positions whose pair of bytes may be referred to, in the order in which
      they were noted, and the position from which pairs are noted next. */
  datatype State = State(out: bytes, marks: seq<nat>, next: nat) {
    predicate Valid() {
      && next <= |out| <= next + 1
      && forall i :: 0 <= i < |marks| ==> marks[i] + 1 < |out|
    }
  }

  const INIT := State([], [], 0)

  /** The pair last noted with hash `h`. */
  function Lookup(out: bytes, marks: seq<nat>, h: byte): (r: Option<nat>)
    requires forall i :: 0 <= i < |marks| ==> marks[i] + 1 < |out|
    ensures r.Some? ==> r.value in marks && Hash(out[r.value], out[r.value + 1]) == h
  {
    if marks == [] then None
    else
      var p := marks[|marks| - 1];
      if Hash(out[p], out[p + 1]) == h then Some(p) else Lookup(out, marks[..|marks| - 1], h)
  }

  /** Notes every pair up to the end of the output. */
  function Noted(s: State): (r: State)
    requires forall i :: 0 <= i < |s.marks| ==> s.marks[i] + 1 < |s.out|
    ensures forall i :: 0 <= i < |r.marks| ==> r.marks[i] + 1 < |r.out|
    ensures r.out == s.out && s.next <= r.next && (s.next + 1 <= |s.out| ==> r.next + 1 == |s.out|)
    decreases |s.out| - s.next
  {
    if s.next + 1 < |s.out| then Noted(State(s.out, s.marks + [s.next], s.next + 1)) else s
  }

  /** Appends `n` bytes copied one by one from `from` on; the copy may run into itself. */
  function CopyRun(out: bytes, from: nat, n: nat): (r: bytes)
    requires from < |out|
    ensures |r| == |out| + n && out <= r
    decreases n
  {
    if n == 0 then out else CopyRun(out + [out[from]], from + 1, n - 1)
  }

  function Step(s: State, t: Token): (r: Option<State>)
    requires s.Valid()
    ensures r.Some? ==> r.value.Valid() && |r.value.out| > |s.out|
  {
    match t
    case Lit(b) => Some(Noted(State(s.out + [b], s.marks, s.next)))
    case Ref(h, n) =>
      var p := Lookup(s.out, s.marks, h);
      if p.None? then None
      else
        var two := s.out + [s.out[p.value], s.out[p.value + 1]];
        var out := CopyRun(two, p.value + 2, n);
        Some(State(out, Noted(State(two, s.marks, s.next)).marks, |out|))
  }

  function Run(s: State, ts: seq<Token>): (r: Option<State>)
    requires s.Valid()
    ensures r.Some? ==> r.value.Valid() && |r.value.out| >= |s.out| + |ts|
    decreases |ts|
  {
    if ts == [] then Some(s)
    else
      var r := Step(s, ts[0]);
      if r.None? then None else Run(r.value, ts[1..])
  }

  lemma {:induction false} RunConcat(s: State, a: seq<Token>, b: seq<Token>)
    requires s.Valid()
    ensures var r := Run(s, a);
            Run(s, a + b) == if r.None? then None else Run(r.value, b)
    decreases |a|
  {
    if a == [] {
      assert a + b == b;
    } else {
      assert (a + b)[1..] == a[1..] + b;
      var r := Step(s, a[0]);
      if r.Some? {
        RunConcat(r.value, a[1..], b);
      }
    }
  }

  function TokenBytes(t: Token): bytes {
    match t
    case Lit(b) => [b]
    case Ref(h, n) => [h, n]
  }

  function TokensBytes(ts: seq<Token>): bytes {
    if ts == [] then [] else TokenBytes(ts[0]) + TokensBytes(ts[1..])
  }

  /** One bit a token, the first token lowest: set for a reference. */
  function Control(ts: seq<Token>): nat {
    if ts == [] then 0 else (if ts[0].Ref? then 1 else 0) + 2 * Control(ts[1..])
  }

  function Refs(ts: seq<Token>): nat {
    if ts == [] then 0 else (if ts[0].Ref? then 1 else 0) + Refs(ts[1..])
  }

  function Pow2(k: nat): (p: nat)
    ensures p > 0
  {
    if k == 0 then 1 else 2 * Pow2(k - 1)
  }

  lemma {:induction false} ControlBound(ts: seq<Token>)
    ensures Control(ts) < Pow2(|ts|)
  {
    if ts != [] {
      ControlBound(ts[1..]);
    }
  }

  lemma Pow2Eight(k: nat)
    requires k <= 8
    ensures Pow2(k) <= 256 && (Pow2(k) == 256 <==> k == 8) && Pow2(0) == 1
  {
    assert Pow2(8) == 2 * Pow2(7) && Pow2(7) == 2 * Pow2(6) && Pow2(6) == 2 * Pow2(5);
    assert Pow2(5) == 2 * Pow2(4) && Pow2(4) == 2 * Pow2(3) && Pow2(3) == 2 * Pow2(2);
    assert Pow2(2) == 2 * Pow2(1) && Pow2(1) == 2 * Pow2(0);
  }

  /** The first block of a payload: up to eight tokens. */
  function First(ts: seq<Token>): seq<Token> {
    if |ts| <= 8 then ts else ts[..8]
  }

  function Later(ts: seq<Token>): seq<Token> {
    if |ts| <= 8 then [] else ts[8..]
  }

  /** A control byte, then the tokens it describes. */
  function Block(ts: seq<Token>): bytes
    requires |ts| <= 8
  {
    ControlBound(ts);
    Pow2Bound(|ts|);
    [Control(ts)] + TokensBytes(ts)
  }

  lemma Pow2Bound(k: nat)
    requires k <= 8
    ensures Pow2(k) <= 256
  {
    Pow2Eight(k);
  }

  /** A payload: blocks of eight tokens, the last one of as many as are left. */
  function Pack(ts: seq<Token>): bytes
    decreases |ts|
  {
    if ts == [] then [] else Block(First(ts)) + Pack(Later(ts))
  }

  function BlockLens(ts: seq<Token>): seq<nat>
    decreases |ts|
  {
    if ts == [] then [] else [|Block(First(ts))|] + BlockLens(Later(ts))
  }

  lemma {:induction false} BlockLensSum(ts: seq<Token>)
    ensures Sum(BlockLens(ts)) == |Pack(ts)| && Positive(BlockLens(ts))
    decreases |ts|
  {
    if ts != [] {
      BlockLensSum(Later(ts));
      SumHead(|Block(First(ts))|, BlockLens(Later(ts)));
    }
  }

  lemma {:induction false} TokensBytesLength(ts: seq<Token>)
    ensures |TokensBytes(ts)| == |ts| + Refs(ts) && Refs(ts) <= |ts|
  {
    if ts != [] {
      TokensBytesLength(ts[1..]);
    }
  }

  /** `std::popcount`. */
  function PopCount(n: nat): nat {
    if n == 0 then 0 else n % 2 + PopCount(n / 2)
  }

  lemma {:induction false} PopCountControl(ts: seq<Token>)
    ensures PopCount(Control(ts)) == Refs(ts)
  {
    if ts != [] {
      PopCountControl(ts[1..]);
      var b := if ts[0].Ref? then 1 else 0;
      OneBit(b, Control(ts[1..]));
    }
  }

  lemma OneBit(b: nat, n: nat)
    requires b < 2
    ensures (b + 2 * n) % 2 == b && (b + 2 * n) / 2 == n
  {
  }

  /** Output only grows: what the first tokens make is the beginning of what all of them make. */
  lemma {:induction false} RunExtends(s: State, ts: seq<Token>)
    requires s.Valid() && Run(s, ts).Some?
    ensures s.out <= Run(s, ts).value.out && (ts != [] ==> |s.out| < |Run(s, ts).value.out|)
    decreases |ts|
  {
    if ts != [] {
      StepExtends(s, ts[0]);
      RunExtends(Step(s, ts[0]).value, ts[1..]);
    }
  }

  lemma StepExtends(s: State, t: Token)
    requires s.Valid() && Step(s, t).Some?
    ensures s.out <= Step(s, t).value.out
  {
  }

  /** A copied run repeats the output from where it was copied, also where it runs into itself. */
  lemma {:induction false} CopyRunRepeats(out: bytes, from: nat, n: nat, k: nat)
    requires from < |out| && k < n
    ensures CopyRun(out, from, n)[|out| + k] == CopyRun(out, from, n)[from + k]
    decreases n
  {
    var next := out + [out[from]];
    if k == 0 {
      assert CopyRun(out, from, n)[|out|] == next[|out|] && CopyRun(out, from, n)[from] == next[from];
    } else {
      CopyRunRepeats(next, from + 1, n - 1, k - 1);
    }
  }

  /** A reference appends `n + 2` bytes: what follows the pair last noted with its hash, that pair included. */
  lemma ReferenceRepeats(s: State, h: byte, n: byte, k: nat)
    requires s.Valid() && Lookup(s.out, s.marks, h).Some? && k < n + 2
    ensures var r, p := Step(s, Ref(h, n)).value.out, Lookup(s.out, s.marks, h).value;
            && |r| == |s.out| + n + 2 && Hash(s.out[p], s.out[p + 1]) == h
            && r[|s.out| + k] == r[p + k]
  {
    hide Hash, Noted, Lookup;
    var p := Lookup(s.out, s.marks, h).value;
    var two := s.out + [s.out[p], s.out[p + 1]];
    var r := CopyRun(two, p + 2, n);
    assert two == r[..|two|];
    if k < 2 {
      assert r[|s.out| + k] == two[|s.out| + k] == s.out[p + k] == two[p + k] == r[p + k];
    } else {
      CopyRunRepeats(two, p + 2, n, k - 2);
    }
  }
}
