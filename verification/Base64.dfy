/** The line-wrapped base64 codec of the Kerberos library (RFC 1341, section 5.2; RFC 2045, section 6.8). */
module Base64 {
  import opened Bytes

  const NEWLINE: byte := 10
  const PAD: byte := 61
  const LINE: nat := 72

  // Shifts and masks of bytes are written as division and remainder; the bits that are joined by `|` never overlap.

  /** The alphabet: A-Z, a-z, 0-9, + and /. */
  function Letter(v: nat): byte
    requires v < 64
  {
    if v < 26 then 65 + v
    else if v < 52 then 97 + v - 26
    else if v < 62 then 48 + v - 52
    else if v == 62 then 43 else 47
  }

  /** The letters of the alphabet, in its order. */
  lemma LettersAre(v: nat)
    requires v < 64
    ensures v < 26 ==> Letter(v) == "ABCDEFGHIJKLMNOPQRSTUVWXYZ"[v] as int
    ensures 26 <= v < 52 ==> Letter(v) == "abcdefghijklmnopqrstuvwxyz"[v - 26] as int
    ensures 52 <= v ==> Letter(v) == "0123456789+/"[v - 52] as int
  {
  }

  /** The decoding table: 0x80 marks what is not of the alphabet; padding counts as 0. */
  function DTable(c: byte): (v: byte)
    ensures v < 64 || v == 0x80
  {
    if 65 <= c < 91 then c - 65
    else if 97 <= c < 123 then c - 97 + 26
    else if 48 <= c < 58 then c - 48 + 52
    else if c == 43 then 62
    else if c == 47 then 63
    else if c == PAD then 0
    else 0x80
  }

  /** Three bytes as four letters. */
  function Quad(a: byte, b: byte, c: byte): (q: bytes)
    ensures |q| == 4
  {
    [Letter(a / 4), Letter(a % 4 * 16 + b / 16), Letter(b % 16 * 4 + c / 64), Letter(c % 64)]
  }

  /** The last one or two bytes, padded. */
  function LastQuad(s: bytes): (q: bytes)
    requires 1 <= |s| <= 2
    ensures |q| == 4
  {
    if |s| == 1 then [Letter(s[0] / 4), Letter(s[0] % 4 * 16), PAD, PAD]
    else [Letter(s[0] / 4), Letter(s[0] % 4 * 16 + s[1] / 16), Letter(s[1] % 16 * 4), PAD]
  }

  /** What is still to be written when `s` is left and the current line has `line` letters. */
  function Rest(s: bytes, line: nat): bytes
    decreases |s|
  {
    if |s| >= 3 then
      Quad(s[0], s[1], s[2]) + (if line + 4 >= LINE then [NEWLINE] + Rest(s[3..], 0) else Rest(s[3..], line + 4))
    else if s != [] then LastQuad(s) + [NEWLINE]
    else if line != 0 then [NEWLINE] else []
  }

  /** What `s` is encoded as. */
  function Encoded(s: bytes): bytes {
    Rest(s, 0)
  }

  /** The examples of RFC 4648, section 10, each with the newline that ends its line. */
  lemma KnownEncodings()
    ensures Encoded([]) == []
    ensures Encoded([102]) == [90, 103, 61, 61, 10]
    ensures Encoded([102, 111]) == [90, 109, 56, 61, 10]
    ensures Encoded([102, 111, 111]) == [90, 109, 57, 118, 10]
    ensures Encoded([102, 111, 111, 98]) == [90, 109, 57, 118] + [89, 103, 61, 61, 10]
  {
    assert [102, 111, 111][3..] == [] && [102, 111, 111, 98][3..] == [98];
    assert Quad(102, 111, 111) == [90, 109, 57, 118];
    assert Rest([], 4) == [10];
    assert Rest([98], 4) == LastQuad([98]) + [10];
  }

  /** The space allocated for the encoding of `len` bytes, as a `size_t`, or nothing if that is found to overflow. */
  function Room(len: nat): Option<nat> {
    var n := (len * 4) % TWO_64 / 3 + 4;
    var olen := (n + n / LINE + 1) % TWO_64;
    if olen < len then None else Some(olen)
  }

  /** The test finds exactly the lengths for which the product wraps around. */
  lemma OverflowFound(len: nat)
    requires len < TWO_64
    ensures Room(len).None? <==> len * 4 >= TWO_64
  {
  }

  function Letters(n: nat): nat {
    (n + 2) / 3 * 4
  }

  /** The length of what is written: four letters for every three bytes begun, and an end for every line begun. */
  lemma {:induction false} RestLength(s: bytes, line: nat)
    requires line < LINE && line % 4 == 0
    ensures |Rest(s, line)| == Letters(|s|) + (line + Letters(|s|) + LINE - 1) / LINE
    decreases |s|
  {
    hide Quad, LastQuad;
    if |s| >= 3 {
      LettersStep(|s|, line);
      RestLength(s[3..], if line + 4 >= LINE then 0 else line + 4);
    }
  }

  lemma LettersStep(n: nat, line: nat)
    requires n >= 3 && line < LINE && line % 4 == 0
    ensures Letters(n) == 4 + Letters(n - 3)
    ensures var l := Letters(n - 3);
            (line + 4 + l + LINE - 1) / LINE
              == if line + 4 >= LINE then 1 + (l + LINE - 1) / LINE else (line + 4 + l + LINE - 1) / LINE
  {
    if line + 4 >= LINE {
      assert line == 68;
      var x := Letters(n - 3) + LINE - 1;
      assert line + 4 + Letters(n - 3) + LINE - 1 == LINE + x;
      assert (LINE + x) / LINE == 1 + x / LINE;
    }
  }

  /** The space allocated is enough for all that is written, the terminating NUL included. */
  lemma RoomIsEnough(s: bytes)
    requires Room(|s|).Some? && |s| < TWO_64
    ensures |Encoded(s)| + 1 <= Room(|s|).value
  {
    hide Rest, Room;
    RestLength(s, 0);
    RoomValue(|s|);
    LettersFit(|s|);
  }

  lemma RoomValue(len: nat)
    requires len < TWO_64 && Room(len).Some?
    ensures var n := len * 4 / 3 + 4; Room(len).value == n + n / LINE + 1
  {
    OverflowFound(len);
    var n := len * 4 / 3 + 4;
    SmallMod(len * 4, TWO_64);
    SmallMod(n + n / LINE + 1, TWO_64);
  }

  lemma SmallMod(x: nat, m: nat)
    requires x < m
    ensures x % m == x
  {
  }

  lemma LettersFit(len: nat)
    ensures var n := len * 4 / 3 + 4; Letters(len) + (Letters(len) + LINE - 1) / LINE <= n + n / LINE
  {
    var k, r := len / 3, len % 3;
    assert len == 3 * k + r;
    assert Letters(len) <= len * 4 / 3 + 3;
  }

  /** No line has more than 72 letters; `line` of them are already there. */
  predicate LinesFit(s: bytes, line: nat) {
    if s == [] then line <= LINE
    else if s[0] == NEWLINE then line <= LINE && LinesFit(s[1..], 0)
    else LinesFit(s[1..], line + 1)
  }

  lemma {:induction false} EncodedLinesFit(s: bytes, line: nat)
    requires line < LINE && line % 4 == 0
    ensures LinesFit(Rest(s, line), line)
    decreases |s|
  {
    if |s| >= 3 {
      var q := Quad(s[0], s[1], s[2]);
      if line + 4 >= LINE {
        EncodedLinesFit(s[3..], 0);
        LineEnds(Rest(s[3..], 0));
        FourMore(q, [NEWLINE] + Rest(s[3..], 0), line);
      } else {
        EncodedLinesFit(s[3..], line + 4);
        FourMore(q, Rest(s[3..], line + 4), line);
      }
    } else if s != [] {
      LineEnds([]);
      FourMore(LastQuad(s), [NEWLINE], line);
    }
  }

  lemma LineEnds(t: bytes)
    requires LinesFit(t, 0)
    ensures forall line: nat | line <= LINE :: LinesFit([NEWLINE] + t, line)
  {
    assert ([NEWLINE] + t)[1..] == t;
  }

  lemma {:induction false} FourMore(q: bytes, t: bytes, line: nat)
    requires (forall i :: 0 <= i < |q| ==> q[i] != NEWLINE) && LinesFit(t, line + |q|)
    ensures LinesFit(q + t, line)
    decreases |q|
  {
    if q == [] {
      assert q + t == t;
    } else {
      assert (q + t)[1..] == q[1..] + t;
      FourMore(q[1..], t, line + 1);
    }
  }

  // ---- decoding ----

  /** The three bytes of four letters. */
  function Three(b: seq<nat>): (t: bytes)
    requires |b| == 4 && forall i :: 0 <= i < 4 ==> b[i] < 64
    ensures |t| == 3
  {
    [b[0] * 4 + b[1] / 16, b[1] * 16 % 256 + b[2] / 4, b[2] * 64 % 256 + b[3]]
  }

  /** Four letters with `pad` padding characters among them: the bytes they stand for, unless there are too many. */
  function Block(b: seq<nat>, pad: nat): Option<bytes>
    requires |b| == 4 && forall i :: 0 <= i < 4 ==> b[i] < 64
  {
    if pad <= 2 then Some(Three(b)[..3 - pad]) else None
  }

  /** The bytes that `s` stands for after the letters of `blk`; nothing after a padded block is looked at. */
  function Scan(s: bytes, blk: seq<nat>, pad: nat): Option<bytes>
    requires |blk| < 4 && forall i :: 0 <= i < |blk| ==> blk[i] < 64
    decreases |s|
  {
    if s == [] then Some([])
    else if DTable(s[0]) == 0x80 then Scan(s[1..], blk, pad)
    else
      var b, p := blk + [DTable(s[0])], if s[0] == PAD then pad + 1 else pad;
      if |b| < 4 then Scan(s[1..], b, p)
      else if p > 0 then Block(b, p)
      else Joined(Three(b), Scan(s[1..], [], 0))
  }

  function Joined(a: bytes, r: Option<bytes>): Option<bytes> {
    if r.None? then None else Some(a + r.value)
  }

  /** How many characters of `s` are letters or padding. */
  function Count(s: bytes): nat {
    if s == [] then 0 else (if DTable(s[0]) == 0x80 then 0 else 1) + Count(s[1..])
  }

  /** What `s` is decoded as. */
  function Decoded(s: bytes): Option<bytes> {
    if Count(s) == 0 || Count(s) % 4 != 0 then None else Scan(s, [], 0)
  }

  lemma LetterValue(v: nat)
    requires v < 64
    ensures DTable(Letter(v)) == v && Letter(v) != PAD && Letter(v) != NEWLINE
  {
  }

  lemma QuadValue(a: byte, b: byte, c: byte)
    ensures var v := [a / 4, a % 4 * 16 + b / 16, b % 16 * 4 + c / 64, c % 64];
            (forall i :: 0 <= i < 4 ==> v[i] < 64) && Three(v) == [a, b, c]
  {
    TwoAndFour(a % 4, b / 16);
    FourAndTwo(b % 16, c / 64);
  }

  lemma TwoAndFour(x: nat, y: nat)
    requires x < 4 && y < 16
    ensures (x * 16 + y) / 16 == x && (x * 16 + y) * 16 % 256 == y * 16
  {
  }

  lemma FourAndTwo(x: nat, y: nat)
    requires x < 16 && y < 4
    ensures (x * 4 + y) / 4 == x && (x * 4 + y) * 64 % 256 == y * 64
  {
  }

  /** Four characters that are letters or padding make one block. */
  lemma ScanFour(q: bytes, t: bytes)
    requires |q| == 4 && forall i :: 0 <= i < 4 ==> DTable(q[i]) < 64
    ensures var b := [DTable(q[0]), DTable(q[1]), DTable(q[2]), DTable(q[3])];
            var pad := Pads(q, 4);
            Scan(q + t, [], 0) == if pad > 0 then Block(b, pad) else Joined(Three(b), Scan(t, [], 0))
  {
    hide DTable, Three;
    var s := q + t;
    var d0, d1, d2, d3 := DTable(q[0]), DTable(q[1]), DTable(q[2]), DTable(q[3]);
    assert s[1..][0] == q[1] && s[2..][0] == q[2] && s[3..][0] == q[3] && s[4..] == t;
    assert s[1..][1..] == s[2..] && s[2..][1..] == s[3..] && s[3..][1..] == s[4..];
    assert [] + [d0] == [d0] && [d0] + [d1] == [d0, d1] && [d0, d1] + [d2] == [d0, d1, d2];
    assert [d0, d1, d2] + [d3] == [d0, d1, d2, d3];
    assert Scan(s, [], 0) == Scan(s[1..], [d0], Pads(q, 1));
    assert Scan(s[1..], [d0], Pads(q, 1)) == Scan(s[2..], [d0, d1], Pads(q, 2));
    assert Scan(s[2..], [d0, d1], Pads(q, 2)) == Scan(s[3..], [d0, d1, d2], Pads(q, 3));
  }

  /** Padding characters among the first `n`. */
  function Pads(q: bytes, n: nat): nat
    requires n <= |q|
  {
    if n == 0 then 0 else Pads(q, n - 1) + if q[n - 1] == PAD then 1 else 0
  }

  /** Decoding undoes encoding, line breaks and padding notwithstanding. */
  lemma {:induction false} ScanRest(s: bytes, line: nat)
    ensures Scan(Rest(s, line), [], 0) == Some(s)
    decreases |s|
  {
    hide Letter, DTable, Three, Quad, LastQuad, Scan;
    if |s| >= 3 {
      var next := if line + 4 >= LINE then 0 else line + 4;
      ScanRest(s[3..], next);
      ScanNewline(Rest(s[3..], 0));
      ScanQuad(s[0], s[1], s[2], if line + 4 >= LINE then [NEWLINE] + Rest(s[3..], 0) else Rest(s[3..], line + 4));
      assert [s[0], s[1], s[2]] + s[3..] == s;
    } else if s != [] {
      ScanLast(s);
    } else {
      ScanNewline([]);
      ScanNothing();
      assert [NEWLINE] + [] == [NEWLINE];
    }
  }

  lemma ScanNothing()
    ensures Scan([], [], 0) == Some([])
  {
  }

  lemma ScanNewline(t: bytes)
    ensures Scan([NEWLINE] + t, [], 0) == Scan(t, [], 0)
  {
    assert ([NEWLINE] + t)[1..] == t;
  }

  lemma ScanQuad(a: byte, b: byte, c: byte, t: bytes)
    ensures Scan(Quad(a, b, c) + t, [], 0) == Joined([a, b, c], Scan(t, [], 0))
  {
    hide Letter, DTable, Three, Scan;
    var q := Quad(a, b, c);
    LetterValue(a / 4);
    LetterValue(a % 4 * 16 + b / 16);
    LetterValue(b % 16 * 4 + c / 64);
    LetterValue(c % 64);
    QuadValue(a, b, c);
    ScanFour(q, t);
    assert Pads(q, 0) == 0;
    assert Pads(q, 1) == 0;
    assert Pads(q, 2) == 0;
    assert Pads(q, 3) == 0;
    assert Pads(q, 4) == 0;
  }

  lemma ScanLast(s: bytes)
    requires 1 <= |s| <= 2
    ensures Scan(LastQuad(s) + [NEWLINE], [], 0) == Some(s)
  {
    hide Letter, Scan, Three;
    var q := LastQuad(s);
    LetterValue(s[0] / 4);
    assert DTable(PAD) == 0;
    if |s| == 1 {
      LetterValue(s[0] % 4 * 16);
      assert Pads(q, 0) == 0;
      assert Pads(q, 1) == 0;
      assert Pads(q, 2) == 0;
      assert Pads(q, 3) == 1;
      QuadValue(s[0], 0, 0);
      assert s[0] % 4 * 16 + 0 / 16 == s[0] % 4 * 16;
      assert [s[0], 0, 0][..1] == s;
    } else {
      LetterValue(s[0] % 4 * 16 + s[1] / 16);
      LetterValue(s[1] % 16 * 4);
      assert Pads(q, 1) == 0;
      assert Pads(q, 2) == 0;
      assert Pads(q, 3) == 0;
      QuadValue(s[0], s[1], 0);
      assert s[1] % 16 * 4 + 0 / 64 == s[1] % 16 * 4;
      assert [s[0], s[1], 0][..2] == s;
    }
    ScanFour(q, [NEWLINE]);
  }

  lemma {:induction false} CountConcat(a: bytes, b: bytes)
    ensures Count(a + b) == Count(a) + Count(b)
  {
    hide DTable;
    if a == [] {
      assert a + b == b;
    } else {
      assert (a + b)[1..] == a[1..] + b;
      CountConcat(a[1..], b);
    }
  }

  lemma CountFour(q: bytes)
    requires |q| == 4 && forall i :: 0 <= i < 4 ==> DTable(q[i]) < 64
    ensures Count(q) == 4
  {
    hide DTable;
    assert q[1..][1..] == q[2..] && q[2..][1..] == q[3..];
    assert Count(q[3..]) == 1;
    assert Count(q[2..]) == 2;
    assert Count(q[1..]) == 3;
  }

  lemma {:induction false} CountRest(s: bytes, line: nat)
    ensures Count(Rest(s, line)) == Letters(|s|)
    decreases |s|
  {
    hide Count, Letter, DTable, LastQuad, Quad;
    CountNewline();
    if |s| >= 3 {
      var q := Quad(s[0], s[1], s[2]);
      QuadLetters(s[0], s[1], s[2]);
      CountFour(q);
      CountRest(s[3..], if line + 4 >= LINE then 0 else line + 4);
      CountConcat([NEWLINE], Rest(s[3..], 0));
      CountConcat(q, if line + 4 >= LINE then [NEWLINE] + Rest(s[3..], 0) else Rest(s[3..], line + 4));
    } else if s != [] {
      LastLetters(s);
      CountFour(LastQuad(s));
      CountConcat(LastQuad(s), [NEWLINE]);
    }
  }

  lemma CountNewline()
    ensures Count([NEWLINE]) == 0 && Count([]) == 0
  {
  }

  lemma QuadLetters(a: byte, b: byte, c: byte)
    ensures forall i :: 0 <= i < 4 ==> DTable(Quad(a, b, c)[i]) < 64
  {
    hide Letter, DTable;
    LetterValue(a / 4);
    LetterValue(a % 4 * 16 + b / 16);
    LetterValue(b % 16 * 4 + c / 64);
    LetterValue(c % 64);
  }

  lemma LastLetters(s: bytes)
    requires 1 <= |s| <= 2
    ensures forall i :: 0 <= i < 4 ==> DTable(LastQuad(s)[i]) < 64
  {
    hide Letter;
    LetterValue(s[0] / 4);
    if |s| == 1 {
      LetterValue(s[0] % 4 * 16);
    } else {
      LetterValue(s[0] % 4 * 16 + s[1] / 16);
      LetterValue(s[1] % 16 * 4);
    }
  }

  /** Every byte string but the empty one comes back; the encoding of the empty one is refused. */
  lemma RoundTrip(s: bytes)
    ensures Decoded(Encoded(s)) == if s == [] then None else Some(s)
  {
    hide Scan, Rest, Count;
    ScanRest(s, 0);
    CountRest(s, 0);
  }

  // ---- the two loops ----

  /** `*pos++ = c`. */
  method Put(out: array<byte>, pos: nat, c: byte) returns (next: nat)
    requires pos < out.Length
    modifies out
    ensures next == pos + 1 && out[..next] == old(out[..pos]) + [c]
  {
    out[pos] := c;
    next := pos + 1;
  }

  method PutFour(out: array<byte>, pos: nat, q: bytes) returns (next: nat)
    requires |q| == 4 && pos + 4 <= out.Length
    modifies out
    ensures next == pos + 4 && out[..next] == old(out[..pos]) + q
  {
    next := Put(out, pos, q[0]);
    next := Put(out, next, q[1]);
    next := Put(out, next, q[2]);
    next := Put(out, next, q[3]);
  }

  /** The output written and what is still to be written make up the encoding. */
  ghost predicate Emitted(out: bytes, src: bytes, at: nat, line: nat) {
    at <= |src| && line < LINE && line % 4 == 0 && out + Rest(src[at..], line) == Encoded(src)
  }

  method Encode(src: bytes) returns (out: array?<byte>, outLen: nat)
    requires |src| < TWO_64
    ensures out == null <==> |src| * 4 >= TWO_64
    ensures out != null ==> outLen < out.Length && out[..outLen] == Encoded(src) && out[outLen] == 0
  {
    hide Rest, Room, Quad, LastQuad;
    outLen := 0;
    OverflowFound(|src|);
    var olen := Room(|src|);
    if olen.None? {
      return null, 0;
    }
    RoomIsEnough(src);
    var buf := new byte[olen.value];
    var at, pos, line := 0, 0, 0;
    assert src[0..] == src && buf[..0] == [];
    while |src| - at >= 3
      invariant pos <= buf.Length && Emitted(buf[..pos], src, at, line)
    {
      NextThree(buf[..pos], src, at, line);
      pos := PutFour(buf, pos, Quad(src[at], src[at + 1], src[at + 2]));
      at := at + 3;
      line := line + 4;
      if line >= LINE {
        pos := Put(buf, pos, NEWLINE);
        line := 0;
      }
    }
    LastPart(buf[..pos], src, at, line);
    if at < |src| {
      pos := PutFour(buf, pos, LastQuad(src[at..]));
      line := line + 4;
    }
    if line != 0 {
      pos := Put(buf, pos, NEWLINE);
    }
    buf[pos] := 0;
    assert buf[..pos] == Encoded(src);
    return buf, pos;
  }

  lemma NextThree(out: bytes, src: bytes, at: nat, line: nat)
    requires Emitted(out, src, at, line) && |src| - at >= 3
    ensures var more := out + Quad(src[at], src[at + 1], src[at + 2]);
            && |more| + 1 <= |Encoded(src)|
            && if line + 4 >= LINE then Emitted(more + [NEWLINE], src, at + 3, 0)
               else Emitted(more, src, at + 3, line + 4)
  {
    hide Quad, LastQuad;
    var s, q := src[at..], Quad(src[at], src[at + 1], src[at + 2]);
    assert s[3..] == src[at + 3..];
    RestLength(s[3..], if line + 4 >= LINE then 0 else line + 4);
    if line + 4 >= LINE {
      var r := Rest(s[3..], 0);
      assert out + (q + ([NEWLINE] + r)) == out + q + [NEWLINE] + r;
    } else {
      Assoc(out, q, Rest(s[3..], line + 4));
    }
  }

  lemma LastPart(out: bytes, src: bytes, at: nat, line: nat)
    requires Emitted(out, src, at, line) && |src| - at < 3
    ensures at < |src| ==> out + LastQuad(src[at..]) + [NEWLINE] == Encoded(src)
    ensures at == |src| && line != 0 ==> out + [NEWLINE] == Encoded(src)
    ensures at == |src| && line == 0 ==> out == Encoded(src)
  {
    hide LastQuad, Quad;
    if at < |src| {
      Assoc(out, LastQuad(src[at..]), [NEWLINE]);
    }
  }

  /** Which letters stand for a value below `n`: the decoding table while it is being filled. */
  predicate Filled(tbl: seq<byte>, n: nat) {
    |tbl| == 256 && forall c: byte :: tbl[c] == if c != PAD && DTable(c) < n then DTable(c) else 0x80
  }

  method FillTable() returns (tbl: array<byte>)
    ensures fresh(tbl) && tbl.Length == 256 && forall c: byte :: tbl[c] == DTable(c)
  {
    tbl := new byte[256](_ => 0x80);
    for i := 0 to 64
      invariant Filled(tbl[..], i)
    {
      ghost var before := tbl[..];
      tbl[Letter(i)] := i;
      FillOne(before, tbl[..], i);
    }
    tbl[PAD] := 0;
  }

  lemma FillOne(tbl: seq<byte>, next: seq<byte>, i: nat)
    requires i < 64 && Filled(tbl, i) && next == tbl[Letter(i) := i]
    ensures Filled(next, i + 1)
  {
    hide Letter;
    LetterValue(i);
    forall c: byte
      ensures next[c] == if c != PAD && DTable(c) < i + 1 then DTable(c) else 0x80
    {
      if c != PAD && DTable(c) == i {
        LetterOf(c);
      }
    }
  }

  lemma LetterOf(c: byte)
    requires c != PAD && DTable(c) < 64
    ensures Letter(DTable(c)) == c
  {
  }

  lemma CountNext(src: bytes, i: nat)
    requires i < |src|
    ensures Count(src[i..]) == (if DTable(src[i]) == 0x80 then 0 else 1) + Count(src[i + 1..])
  {
    hide DTable;
    assert src[i..][1..] == src[i + 1..];
  }

  /** Characters counted beforehand, to know how much room the result takes. */
  method CountLetters(src: bytes, dtable: array<byte>) returns (count: nat)
    requires dtable.Length == 256 && forall c: byte :: dtable[c] == DTable(c)
    ensures count == Count(src)
  {
    hide DTable, Count;
    count := 0;
    assert src[0..] == src;
    for i := 0 to |src|
      invariant count + Count(src[i..]) == Count(src)
    {
      CountNext(src, i);
      if dtable[src[i]] != 0x80 {
        count := count + 1;
      }
    }
    CountNewline();
    assert src[|src|..] == [];
  }

  predicate Values(blk: seq<nat>) {
    forall i :: 0 <= i < |blk| ==> blk[i] < 64
  }

  /** What the characters up to `i` have come to: whole blocks in `out`, and the letters of the next one. */
  ghost predicate Scanned(src: bytes, i: nat, out: bytes, blk: seq<nat>, pad: nat) {
    && i <= |src| && |blk| < 4 && pad <= |blk| && Values(blk)
    && Scan(src, [], 0) == Joined(out, Scan(src[i..], blk, pad))
  }

  /** Bytes written and letters to come fit in what was allocated. */
  ghost predicate RoomFor(src: bytes, i: nat, pos: nat, count: nat, size: nat) {
    i <= |src| && pos % 3 == 0 && (pos / 3 * 4 + count + Count(src[i..])) == size / 3 * 4 && size % 3 == 0
  }

  lemma Starts(src: bytes, count: nat)
    requires count == Count(src) && count % 4 == 0
    ensures Scanned(src, 0, [], [], 0) && RoomFor(src, 0, 0, 0, count / 4 * 3)
  {
    hide Scan, Count;
    assert src[0..] == src;
    var r := Scan(src, [], 0);
    assert r.Some? ==> [] + r.value == r.value;
  }

  /** What one more character does. */
  lemma ScanNext(src: bytes, i: nat, out: bytes, blk: seq<nat>, pad: nat, size: nat)
    requires Scanned(src, i, out, blk, pad) && i < |src| && RoomFor(src, i, |out|, |blk|, size)
    ensures DTable(src[i]) == 0x80 ==> Scanned(src, i + 1, out, blk, pad) && RoomFor(src, i + 1, |out|, |blk|, size)
    ensures DTable(src[i]) != 0x80 ==>
              var b, p := blk + [DTable(src[i])], if src[i] == PAD then pad + 1 else pad;
              && Values(b)
              && (|b| < 4 ==> Scanned(src, i + 1, out, b, p) && RoomFor(src, i + 1, |out|, |b|, size))
              && (|b| == 4 ==>
                    && |out| + 3 <= size
                    && (p > 0 ==> Scan(src, [], 0) == Joined(out, Block(b, p)))
                    && (p == 0 ==>
                          Scanned(src, i + 1, out + Three(b), [], 0) && RoomFor(src, i + 1, |out| + 3, 0, size)))
  {
    hide DTable, Three, Count;
    CountNext(src, i);
    assert src[i..][1..] == src[i + 1..] && src[i..][0] == src[i];
    if DTable(src[i]) != 0x80 && |blk| == 3 {
      var b := blk + [DTable(src[i])];
      var r := Scan(src[i + 1..], [], 0);
      assert r.Some? ==> out + (Three(b) + r.value) == out + Three(b) + r.value;
    }
  }

  lemma ScanEnds(src: bytes, out: bytes, blk: seq<nat>, pad: nat)
    requires Scanned(src, |src|, out, blk, pad)
    ensures Scan(src, [], 0) == Some(out)
  {
    assert src[|src|..] == [];
    assert out + [] == out;
  }

  method PutThree(out: array<byte>, pos: nat, t: bytes) returns (next: nat)
    requires |t| == 3 && pos + 3 <= out.Length
    modifies out
    ensures next == pos + 3 && out[..next] == old(out[..pos]) + t
  {
    next := Put(out, pos, t[0]);
    next := Put(out, next, t[1]);
    next := Put(out, next, t[2]);
  }

  method Decode(src: bytes) returns (out: array?<byte>, outLen: nat)
    ensures out == null <==> Decoded(src) == None
    ensures out != null ==> outLen <= out.Length && Decoded(src) == Some(out[..outLen])
  {
    hide DTable, Scan, Three, Count, Scanned, RoomFor;
    var dtable := FillTable();
    var total := CountLetters(src, dtable);
    if total == 0 || total % 4 != 0 {
      return null, 0;
    }
    var buf := new byte[total / 4 * 3];
    var block: seq<nat> := [];
    var pos, pad := 0, 0;
    Starts(src, total);
    assert buf[..0] == [];
    for i := 0 to |src|
      invariant pos <= buf.Length && |block| < 4 && forall c: byte :: dtable[c] == DTable(c)
      invariant Scanned(src, i, buf[..pos], block, pad) && RoomFor(src, i, pos, |block|, buf.Length)
    {
      ghost var before := buf[..pos];
      ScanNext(src, i, before, block, pad, buf.Length);
      var tmp := dtable[src[i]];
      if tmp == 0x80 {
        continue;
      }
      if src[i] == PAD {
        pad := pad + 1;
      }
      block := block + [tmp];
      if |block| == 4 {
        var three := Three(block);
        pos := PutThree(buf, pos, three);
        if pad > 2 {
          return null, 0;
        }
        if pad > 0 {
          assert buf[..pos - pad] == before + three[..3 - pad];
          return buf, pos - pad;
        }
        block := [];
      }
    }
    ScanEnds(src, buf[..pos], block, pad);
    return buf, pos;
  }
}
