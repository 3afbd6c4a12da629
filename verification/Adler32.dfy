/** The checksum of mkext files (libkern/mkext.c).

    The code adds up whole blocks before it reduces.  The reference is the sum of
    section 2.2 of RFC 1950, reduced after every byte. */
module Adler32 {
  import opened Bytes

  const BASE := 65521
  const NMAX := 5552

  /** 32-bit words: an assignment to one is an obligation that the sum does not overflow. */
  type u32 = x: int | 0 <= x < 0x1_0000_0000

  datatype Sums = Sums(s1: nat, s2: nat)

  /** The reference, byte by byte. */
  function Reduced(buf: seq<byte>): (s: Sums)
    ensures s.s1 < BASE && s.s2 < BASE
  {
    if buf == [] then Sums(1, 0) else
      var s := Reduced(buf[..|buf| - 1]);
      var a := (s.s1 + buf[|buf| - 1]) % BASE;
      Sums(a, (s.s2 + a) % BASE)
  }

  /** The same without reduction, from given sums. */
  function Raw(s: Sums, buf: seq<byte>): Sums {
    if buf == [] then s else
      var r := Raw(s, buf[..|buf| - 1]);
      Sums(r.s1 + buf[|buf| - 1], r.s2 + r.s1 + buf[|buf| - 1])
  }

  function Mod(s: Sums): Sums { Sums(s.s1 % BASE, s.s2 % BASE) }

  /** Reducing late or after every byte gives the same residues. */
  lemma {:induction false} LateReduction(a: seq<byte>, b: seq<byte>)
    ensures Mod(Raw(Reduced(a), b)) == Reduced(a + b)
  {
    if b == [] {
      assert a + b == a;
    } else {
      var b' := b[..|b| - 1];
      assert (a + b)[..|a + b| - 1] == a + b';
      LateReduction(a, b');
      assert (a + b)[|a + b| - 1] == b[|b| - 1];
      ModStep(Raw(Reduced(a), b'), b[|b| - 1]);
    }
  }

  lemma {:induction false} ModStep(r: Sums, x: byte)
    ensures var a := (r.s1 % BASE + x) % BASE;
            Mod(Sums(r.s1 + x, r.s2 + r.s1 + x)) == Sums(a, (r.s2 % BASE + a) % BASE)
  {
    ModAdd(r.s1, x);
    ModAdd(r.s2, r.s1 + x);
  }

  lemma {:induction false} ModAdd(x: nat, y: nat)
    ensures (x % BASE + y) % BASE == (x + y) % BASE == (x % BASE + y % BASE) % BASE
  {
  }

  function Total(buf: seq<byte>): nat { if buf == [] then 0 else buf[0] + Total(buf[1..]) }

  /** Each byte counted as often as there are bytes from it to the end. */
  function Weighted(buf: seq<byte>): nat { if buf == [] then 0 else |buf| * buf[0] + Weighted(buf[1..]) }

  lemma {:induction false} TotalAppend(buf: seq<byte>, x: byte)
    ensures Total(buf + [x]) == Total(buf) + x && Weighted(buf + [x]) == Weighted(buf) + Total(buf) + x
  {
    if buf != [] {
      assert (buf + [x])[1..] == buf[1..] + [x];
      TotalAppend(buf[1..], x);
      assert (|buf| + 1) * buf[0] == |buf| * buf[0] + buf[0];
    } else {
      assert buf + [x] == [x] && [x][1..] == [];
    }
  }

  lemma {:induction false} RawClosed(buf: seq<byte>)
    ensures Raw(Sums(1, 0), buf) == Sums(1 + Total(buf), |buf| + Weighted(buf))
  {
    if buf != [] {
      var init, x := buf[..|buf| - 1], buf[|buf| - 1];
      RawClosed(init);
      TotalAppend(init, x);
      assert init + [x] == buf;
    }
  }

  /** The sums in closed form: one plus all the bytes, and the sum of those after every byte. */
  lemma {:induction false} ClosedForm(buf: seq<byte>)
    ensures Reduced(buf) == Sums((1 + Total(buf)) % 65521, (|buf| + Weighted(buf)) % 65521)
  {
    var s := Sums(1, 0);
    RawClosed(buf);
    FromStart(buf);
    assert Reduced(buf) == Mod(Raw(s, buf));
  }

  lemma {:induction false} FromStart(buf: seq<byte>)
    ensures Reduced(buf) == Mod(Raw(Sums(1, 0), buf))
  {
    LateReduction([], buf);
    assert [] + buf == buf && Reduced([]) == Sums(1, 0);
  }

  /** Bounds on the sums after `n` bytes from reduced sums: the bound stated at NMAX. */
  function Bound1(n: nat): nat { BASE - 1 + 255 * n }
  function Bound2(n: nat): nat { (n + 1) * (BASE - 1) + 255 * n * (n + 1) / 2 }

  lemma {:induction false} RawBound(s: Sums, buf: seq<byte>)
    requires s.s1 < BASE && s.s2 < BASE
    ensures Raw(s, buf).s1 <= Bound1(|buf|) && Raw(s, buf).s2 <= Bound2(|buf|)
  {
    if buf != [] {
      RawBound(s, buf[..|buf| - 1]);
      BoundStep(|buf| - 1);
    }
  }

  lemma {:induction false} BoundStep(n: nat)
    ensures Bound2(n) + Bound1(n + 1) == Bound2(n + 1)
  {
    assert 255 * (n + 1) * (n + 2) == 255 * n * (n + 1) + 2 * (255 * (n + 1));
  }

  lemma {:induction false} BoundMonotone(m: nat, n: nat)
    requires m <= n
    ensures Bound2(m) <= Bound2(n)
    decreases n - m
  {
    if m < n {
      BoundStep(m);
      BoundMonotone(m + 1, n);
    }
  }

  /** A block of 0xff bytes from the largest reduced sums reaches both bounds. */
  lemma {:induction false} BoundReached(n: nat)
    ensures Raw(Sums(BASE - 1, BASE - 1), seq(n, _ => 255)) == Sums(Bound1(n), Bound2(n))
  {
    if n > 0 {
      assert seq(n, _ => 255 as byte)[..n - 1] == seq(n - 1, _ => 255 as byte);
      BoundReached(n - 1);
      BoundStep(n - 1);
    }
  }

  /** NMAX is the largest block length for which the second bound fits 32 bits. */
  lemma {:induction false} NmaxIsLargest(n: nat)
    ensures Bound2(n) < 0x1_0000_0000 <==> n <= NMAX
  {
    if n <= NMAX { BoundMonotone(n, NMAX); } else { BoundMonotone(NMAX + 1, n); }
  }

  /** DO16: sixteen bytes, written out. */
  method Do16(buf: seq<byte>, i: nat, s1: u32, s2: u32, ghost a: nat, ghost start: Sums) returns (t1: u32, t2: u32)
    requires a <= i && i + 16 <= |buf| && i + 16 - a <= NMAX && start.s1 < BASE && start.s2 < BASE
    requires Sums(s1, s2) == Raw(start, buf[a..i])
    ensures Sums(t1, t2) == Raw(start, buf[a..i + 16])
  {
    t1, t2 := Do4(buf, i, s1, s2, a, start);
    t1, t2 := Do4(buf, i + 4, t1, t2, a, start);
    t1, t2 := Do4(buf, i + 8, t1, t2, a, start);
    t1, t2 := Do4(buf, i + 12, t1, t2, a, start);
  }

  method Do4(buf: seq<byte>, i: nat, s1: u32, s2: u32, ghost a: nat, ghost start: Sums) returns (t1: u32, t2: u32)
    requires a <= i && i + 4 <= |buf| && i + 4 - a <= NMAX && start.s1 < BASE && start.s2 < BASE
    requires Sums(s1, s2) == Raw(start, buf[a..i])
    ensures Sums(t1, t2) == Raw(start, buf[a..i + 4])
  {
    t1, t2 := Do1(buf, i, s1, s2, a, start);
    t1, t2 := Do1(buf, i + 1, t1, t2, a, start);
    t1, t2 := Do1(buf, i + 2, t1, t2, a, start);
    t1, t2 := Do1(buf, i + 3, t1, t2, a, start);
  }

  /** DO1: neither sum overflows 32 bits within a block of NMAX bytes. */
  method Do1(buf: seq<byte>, i: nat, s1: u32, s2: u32, ghost a: nat, ghost start: Sums) returns (t1: u32, t2: u32)
    requires a <= i < |buf| && i + 1 - a <= NMAX && start.s1 < BASE && start.s2 < BASE
    requires Sums(s1, s2) == Raw(start, buf[a..i])
    ensures Sums(t1, t2) == Raw(start, buf[a..i + 1])
  {
    assert buf[a..i + 1][..i - a] == buf[a..i];
    RawBound(start, buf[a..i + 1]);
    NmaxIsLargest(i + 1 - a);
    t1 := s1 + buf[i];
    t2 := s2 + t1;
  }

  /** mkext_adler32. */
  method Checksum(buf: seq<byte>) returns (sum: u32)
    ensures var s := Reduced(buf); sum == s.s2 * 65536 + s.s1
  {
    var s1: u32, s2: u32 := 1, 0;
    var len, i := |buf|, 0;
    while len > 0
      invariant 0 <= len && i + len == |buf| && Sums(s1, s2) == Reduced(buf[..i])
    {
      var k := if len < NMAX then len else NMAX;
      len := len - k;
      ghost var a, end, start := i, i + k, Sums(s1, s2);
      while k >= 16
        invariant 0 <= k && a <= i && i + k == end <= |buf|
        invariant Sums(s1, s2) == Raw(start, buf[a..i])
      {
        s1, s2 := Do16(buf, i, s1, s2, a, start);
        i := i + 16;
        k := k - 16;
      }
      while k != 0
        invariant 0 <= k && a <= i && i + k == end <= |buf|
        invariant Sums(s1, s2) == Raw(start, buf[a..i])
      {
        s1, s2 := Do1(buf, i, s1, s2, a, start);
        i := i + 1;
        k := k - 1;
      }
      LateReduction(buf[..a], buf[a..i]);
      assert buf[..a] + buf[a..i] == buf[..i];
      s1 := s1 % BASE;
      s2 := s2 % BASE;
    }
    assert buf[..i] == buf;
    sum := s2 * 65536 + s1;
  }
}
