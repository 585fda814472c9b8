/** A circular buffer mapped twice in a row, so that what it holds can always be read as one piece. */
module CircularBuffers {
  import opened Bytes

  /** Positions less than one length apart lie in different places. */
  lemma ModDistinct(a: nat, b: nat, n: nat)
    requires n > 0 && a < b < a + n
    ensures a % n != b % n
  {
    var d := b / n - a / n;
    assert b - a == d * n + (b % n - a % n);
    assert d >= 1 ==> d * n >= n;
    assert d <= 0 ==> d * n <= 0;
  }

  lemma ModShift(a: nat, n: nat)
    requires 0 < n <= a
    ensures (a - n) % n == a % n
  {
    var x := a - n;
    assert a == (x / n + 1) * n + x % n;
    var d := a / n - (x / n + 1);
    assert d * n == x % n - a % n;
    assert d >= 1 ==> d * n >= n;
    assert d <= -1 ==> d * n <= 0 - n;
  }

  /** `n` bytes from `from` on, going round. */
  function Window(ring: bytes, from: nat, n: nat): (s: bytes)
    requires |ring| > 0
    ensures |s| == n
  {
    if n == 0 then [] else Window(ring, from, n - 1) + [ring[(from + n - 1) % |ring|]]
  }

  /** Writing behind the window does not change what it shows. */
  lemma {:induction false} WindowKept(ring: bytes, from: nat, n: nat, at: nat, b: byte)
    requires n <= at - from < |ring|
    ensures Window(ring[at % |ring| := b], from, n) == Window(ring, from, n)
  {
    if n > 0 {
      WindowKept(ring, from, n - 1, at, b);
      ModDistinct(from + n - 1, at, |ring|);
    }
  }

  lemma {:induction false} WindowDrop(ring: bytes, from: nat, n: nat, c: nat)
    requires |ring| > 0 && c <= n
    ensures Window(ring, from + c, n - c) == Window(ring, from, n)[c..]
    decreases n - c
  {
    if c < n {
      WindowDrop(ring, from, n - 1, c);
    }
  }

  lemma {:induction false} WindowWraps(ring: bytes, from: nat, n: nat)
    requires 0 < |ring| <= from
    ensures Window(ring, from - |ring|, n) == Window(ring, from, n)
  {
    if n > 0 {
      WindowWraps(ring, from, n - 1);
      ModShift(from + n - 1, |ring|);
    }
  }

  class CircularBuffer {
    const ring: array<byte>
    var pos: nat
    var len: nat

    ghost predicate Valid()
      reads this
    {
      pos < ring.Length && len <= ring.Length
    }

    constructor (n: nat)
      requires n > 0
      ensures Valid() && fresh(ring) && ring.Length == n && Contents() == []
    {
      ring := new byte[n];
      pos, len := 0, 0;
    }

    /** What has been appended and not been consumed. */
    function Contents(): (s: bytes)
      requires Valid()
      reads this, ring
      ensures |s| == len
    {
      Window(ring[..], pos, len)
    }

    function Writeable(): nat
      requires Valid()
      reads this
    {
      ring.Length - len
    }

    method Clear()
      requires Valid()
      modifies this`pos, this`len
      ensures Valid() && Contents() == []
    {
      pos, len := 0, 0;
    }

    /** A read from a descriptor: `data` is written from the write offset on and counted in. */
    method Append(data: bytes)
      requires Valid() && |data| <= Writeable()
      modifies this`len, ring
      ensures Valid() && Contents() == old(Contents()) + data
    {
      ghost var before := Contents();
      for i := 0 to |data|
        invariant Window(ring[..], pos, len + i) == before + data[..i]
      {
        ghost var r := ring[..];
        WindowKept(r, pos, len + i, pos + len + i, data[i]);
        ring[(pos + len + i) % ring.Length] := data[i];
        assert ring[..] == r[(pos + len + i) % |r| := data[i]];
      }
      len := len + |data|;
    }

    method SetConsumed(count: nat)
      requires Valid() && count <= len
      modifies this`pos, this`len
      ensures Valid() && Contents() == old(Contents())[count..]
    {
      WindowDrop(ring[..], pos, len, count);
      pos := pos + count;
      len := len - count;
      if pos >= ring.Length {
        WindowWraps(ring[..], pos, len);
        pos := pos - ring.Length;
      }
    }
  }
}
