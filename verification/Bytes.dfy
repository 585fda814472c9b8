/** Bytes and the little-endian integers the wire format is made of. */
module Bytes {

  type byte = x: int | 0 <= x < 256
  type bytes = seq<byte>

  const TWO_31: nat := 0x8000_0000
  const TWO_32: nat := 0x1_0000_0000
  const TWO_64: nat := 0x1_0000_0000_0000_0000

  datatype Option<+T> = None | Some(value: T)

  /** 256 to the power `w`: the number of bit patterns of `w` bytes. */
  function Patterns(w: nat): (p: nat)
    ensures p > 0
  {
    if w == 0 then 1 else 256 * Patterns(w - 1)
  }

  /** The `w` bytes of `n` as they lie in memory on a little-endian machine. */
  function ToLE(w: nat, n: nat): (s: bytes)
    ensures |s| == w
  {
    if w == 0 then [] else [n % 256] + ToLE(w - 1, n / 256)
  }

  function FromLE(s: bytes): nat {
    if s == [] then 0 else s[0] + 256 * FromLE(s[1..])
  }

  lemma {:induction false} FromToLE(w: nat, n: nat)
    requires n < Patterns(w)
    ensures FromLE(ToLE(w, n)) == n
  {
    if w > 0 {
      FromToLE(w - 1, n / 256);
      assert ToLE(w, n)[1..] == ToLE(w - 1, n / 256);
    }
  }

  lemma {:induction false} ToFromLE(s: bytes)
    ensures FromLE(s) < Patterns(|s|) && ToLE(|s|, FromLE(s)) == s
  {
    if s != [] {
      ToFromLE(s[1..]);
      assert s == [s[0]] + s[1..];
    }
  }

  lemma Patterns4()
    ensures Patterns(4) == TWO_32
  {
    assert Patterns(1) == 256;
    assert Patterns(2) == 0x1_0000;
    assert Patterns(3) == 0x100_0000;
  }

  /** A four-byte field as the `int32_t` it is read into. */
  function AsInt32(s: bytes): (n: int)
    requires |s| == 4
  {
    var u := FromLE(s);
    if u < TWO_31 then u else u - TWO_32
  }

  /** A count below 2^31 survives the trip through an `int32_t` field, a larger one comes back negative. */
  lemma Int32RoundTrip(n: nat)
    requires n < TWO_32
    ensures AsInt32(ToLE(4, n)) == if n < TWO_31 then n else n - TWO_32
  {
    Patterns4();
    FromToLE(4, n);
  }

  /** The type codes are signed; on the wire they are a two's complement byte. */
  function U8(t: int): byte
    requires -128 <= t < 128
  {
    if t < 0 then t + 256 else t
  }

  function I8(b: byte): (t: int)
    ensures -128 <= t < 128 && U8(t) == b
  {
    if b < 128 then b else b - 256
  }

  function Min(a: nat, b: nat): nat {
    if a < b then a else b
  }

  lemma Assoc(a: bytes, b: bytes, c: bytes)
    ensures a + b + c == a + (b + c)
  {
  }

  /** Two byte strings agree as far as both go. */
  predicate Agrees(a: bytes, b: bytes) {
    a <= b || b <= a
  }

  lemma AgreesSplit(s: bytes, a: bytes, b: bytes)
    requires Agrees(s, a + b)
    ensures Agrees(s, a)
    ensures |a| <= |s| ==> s[..|a|] == a && Agrees(s[|a|..], b)
  {
    if s <= a + b {
      if |s| <= |a| {
        assert s == (a + b)[..|s|] == a[..|s|];
      } else {
        assert s[..|a|] == (a + b)[..|a|] == a;
        assert s[|a|..] == (a + b)[..|s|][|a|..] == b[..|s| - |a|];
      }
    } else {
      assert s[..|a|] == (a + b)[..|a|] == a;
      assert s[|a|..][..|b|] == (a + b)[|a|..] == b;
    }
  }

  lemma AgreesTake(src: bytes, off: nat, e: bytes)
    requires off + |e| <= |src| && Agrees(src[off..], e)
    ensures src[off..off + |e|] == e
  {
    assert src[off..][..|e|] == src[off..off + |e|];
    if src[off..] <= e {
      assert src[off..] == e;
    }
  }
}
