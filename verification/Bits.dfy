/** Numbers bit by bit. */
module Bits {
  function Two(n: nat): (p: nat)
    ensures p > 0
  {
    if n == 0 then 1 else 2 * Two(n - 1)
  }

  lemma {:induction false} TwoAdd(m: nat, n: nat)
    ensures Two(m + n) == Two(m) * Two(n)
    decreases m
  {
    if m > 0 {
      TwoAdd(m - 1, n);
    }
  }

  lemma {:induction false} Twos()
    ensures Two(16) == 0x1_0000 && Two(32) == 0x1_0000_0000 && Two(48) == 0x1_0000_0000_0000
  {
    assert Two(4) == 16;
    TwoAdd(4, 4);
    TwoAdd(8, 8);
    TwoAdd(16, 16);
    TwoAdd(16, 32);
  }

  /** Bit `n` of a number. */
  function Bit(v: nat, n: nat): (b: nat)
    ensures b < 2
    decreases n
  {
    if n == 0 then v % 2 else Bit(v / 2, n - 1)
  }

  /** Bitwise exclusive or of the lowest `n` bits. */
  function Xor(a: nat, b: nat, n: nat): nat
    decreases n, a, b
  {
    if n == 0 then 0 else (a + b) % 2 + 2 * Xor(a / 2, b / 2, n - 1)
  }

  lemma {:induction false} XorBound(a: nat, b: nat, n: nat)
    ensures Xor(a, b, n) < Two(n)
  {
    if n > 0 { XorBound(a / 2, b / 2, n - 1); }
  }

  lemma {:induction false} LowHigh(low: nat, high: nat)
    requires low < 2
    ensures (low + 2 * high) % 2 == low && (low + 2 * high) / 2 == high
  {
  }

  lemma {:induction false} SumParity(a: nat, b: nat)
    ensures (a + b) % 2 == (a % 2 + b % 2) % 2
  {
  }

  lemma {:induction false} ParityIn(a: nat, b: nat)
    ensures (a % 2 + b) % 2 == (a + b) % 2
  {
  }

  lemma {:induction false} XorBit(a: nat, b: nat, m: nat, n: nat)
    requires n < m
    ensures Bit(Xor(a, b, m), n) == (Bit(a, n) + Bit(b, n)) % 2
    decreases n
  {
    var low, high := (a + b) % 2, Xor(a / 2, b / 2, m - 1);
    LowHigh(low, high);
    SumParity(a, b);
    if n > 0 {
      XorBit(a / 2, b / 2, m - 1, n - 1);
    }
  }

  lemma {:induction false} DivIs(n: nat, d: nat, q: nat, r: nat)
    requires d > 0 && n == q * d + r && r < d
    ensures n / d == q && n % d == r
  {
    var u := n / d - q;
    assert u * d == r - n % d;
    assert u >= 1 ==> u * d >= d;
    assert u <= -1 ==> u * d + d <= 0;
  }

  lemma {:induction false} HalfDiv(v: nat, d: nat, e: nat)
    requires d > 0 && e == 2 * d
    ensures v / e == v / 2 / d && v % e / 2 == v / 2 % d && v % e % 2 == v % 2
  {
    var q, r, low := v / 2 / d, v / 2 % d, v % 2;
    assert v / 2 == q * d + r;
    assert v == 2 * (q * d + r) + low;
    assert 2 * (q * d) == q * e;
    DivIs(v, e, q, 2 * r + low);
    LowHigh(low, r);
  }

  lemma {:induction false} BitShift(v: nat, k: nat, n: nat, w: nat)
    requires w == v / Two(k)
    ensures Bit(w, n) == Bit(v, n + k)
    decreases k
  {
    if k == 0 {
      assert w == v;
    } else {
      HalfDiv(v, Two(k - 1), Two(k));
      BitShift(v / 2, k - 1, n, w);
    }
  }

  lemma {:induction false} BitMod(v: nat, m: nat, n: nat)
    requires n < m
    ensures Bit(v % Two(m), n) == Bit(v, n)
    decreases n
  {
    HalfDiv(v, Two(m - 1), Two(m));
    if n > 0 {
      BitMod(v / 2, m - 1, n - 1);
    }
  }

  /** The bits of the four 16-bit parts of a number. */
  lemma {:induction false} PartBits(v: nat, n: nat)
    requires n < 16
    ensures Bit(v % 0x1_0000, n) == Bit(v, n) && Bit(v / 0x1_0000, n) == Bit(v, n + 16)
    ensures Bit(v / 0x1_0000_0000, n) == Bit(v, n + 32)
    ensures Bit(v / 0x1_0000_0000_0000, n) == Bit(v, n + 48)
  {
    Twos();
    BitMod(v, 16, n);
    BitShift(v, 16, n, v / 0x1_0000);
    BitShift(v, 32, n, v / 0x1_0000_0000);
    BitShift(v, 48, n, v / 0x1_0000_0000_0000);
  }

  lemma {:induction false} XorSum(a: nat, b: nat, m: nat, n: nat, x: nat)
    requires n < m && Bit(a, n) == x % 2
    ensures Bit(Xor(a, b, m), n) == (x + Bit(b, n)) % 2
  {
    XorBit(a, b, m, n);
    ParityIn(x, Bit(b, n));
  }

  /** Five numbers folded together: each bit is the parity of theirs. */
  lemma {:induction false} FoldBit(a: nat, b: nat, c: nat, d: nat, e: nat, m: nat, n: nat)
    requires n < m
    ensures Bit(Xor(Xor(Xor(Xor(a, b, m), c, m), d, m), e, m), n)
         == (Bit(a, n) + Bit(b, n) + Bit(c, n) + Bit(d, n) + Bit(e, n)) % 2
  {
    var x := Bit(a, n) + Bit(b, n);
    var p := Xor(a, b, m);
    var q := Xor(p, c, m);
    var r := Xor(q, d, m);
    XorBit(a, b, m, n);
    XorSum(p, c, m, n, x);
    XorSum(q, d, m, n, x + Bit(c, n));
    XorSum(r, e, m, n, x + Bit(c, n) + Bit(d, n));
  }
}
