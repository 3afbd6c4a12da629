/** The shadow memory of the kernel address sanitizer (san/kasan.c).

    One shadow byte stands for each 8-byte granule.  The shadow is indexed by granule
    number: address `a` has its shadow byte at index `a / 8`. */
module KasanShadow {
  import opened Bytes

  const GRANULE := 8

  const STACK_RZ: byte := 0xf0
  const STACK_LEFT_RZ: byte := 0xf1
  const STACK_RIGHT_RZ: byte := 0xf3
  const STACK_FREED: byte := 0xf5
  const HEAP_RZ: byte := 0xe9
  const HEAP_LEFT_RZ: byte := 0xfa
  const HEAP_RIGHT_RZ: byte := 0xfb
  const HEAP_FREED: byte := 0xfd

  /** Offset `k` of a granule with shadow byte `s` may be accessed: all of it is valid,
      or its first `s` bytes are. */
  predicate Valid(s: byte, k: nat) { s == 0 || (s < GRANULE && k < s) }

  predicate Addressable(shadow: seq<byte>, a: nat)
    requires a / GRANULE < |shadow|
  {
    Valid(shadow[a / GRANULE], a % GRANULE)
  }

  // ----- Poisoning ------------------------------------------------------------------------

  function LeftFlags(flags: byte): byte {
    if flags == STACK_RZ then STACK_LEFT_RZ else if flags == HEAP_RZ then HEAP_LEFT_RZ else flags
  }

  function RightFlags(flags: byte): byte {
    if flags == STACK_RZ then STACK_RIGHT_RZ else if flags == HEAP_RZ then HEAP_RIGHT_RZ else flags
  }

  /** The values of redzones: 0xf1 and 0xf3 around stack objects, 0xfa and 0xfb around heap objects,
      and any other value stands for itself. */
  lemma {:induction false} RedzoneValues(flags: byte)
    ensures LeftFlags(flags) == (if flags == 0xf0 then 0xf1 else if flags == 0xe9 then 0xfa else flags)
    ensures RightFlags(flags) == (if flags == 0xf0 then 0xf3 else if flags == 0xe9 then 0xfb else flags)
  {
  }

  /** What kasan_poison asserts of its arguments, and that the range has shadow. */
  predicate PoisonArgs(n: nat, base: nat, size: nat, left: nat, right: nat) {
    && base % GRANULE == 0 && left % GRANULE == 0 && (left + size + right) % GRANULE == 0
    && base + left + size + right <= GRANULE * n
  }

  /** The shadow byte of granule `i` of an object: redzone, valid, partly valid, redzone. */
  function PoisonByte(i: nat, size: nat, left: nat, flags: byte): byte {
    if i < left / GRANULE then LeftFlags(flags)
    else if i < left / GRANULE + size / GRANULE then 0
    else if i == left / GRANULE + size / GRANULE && size % GRANULE != 0 then size % GRANULE
    else RightFlags(flags)
  }

  function Poisoned(sh: seq<byte>, base: nat, size: nat, left: nat, right: nat, flags: byte): (r: seq<byte>)
    requires PoisonArgs(|sh|, base, size, left, right)
    ensures |r| == |sh|
  {
    seq(|sh|, (g: nat) requires g < |sh| => NewByte(sh, base, size, left, right, flags, g))
  }

  function NewByte(sh: seq<byte>, base: nat, size: nat, left: nat, right: nat, flags: byte, g: nat): byte
    requires g < |sh|
  {
    if base / GRANULE <= g < (base + left + size + right) / GRANULE
    then PoisonByte(g - base / GRANULE, size, left, flags) else sh[g]
  }

  /** kasan_poison, with poisoning active. */
  method Poison(shadow: array<byte>, base: nat, size: nat, left: nat, right: nat, flags: byte)
    requires PoisonArgs(shadow.Length, base, size, left, right)
    modifies shadow
    ensures shadow[..] == Poisoned(old(shadow[..]), base, size, left, right, flags)
  {
    var partial := size % GRANULE;
    var l, s, total := left / GRANULE, size / GRANULE, (left + size + right) / GRANULE;
    var lf, rf := LeftFlags(flags), RightFlags(flags);
    var b := base / GRANULE;
    Granules(base, left, size, right);
    ghost var was := shadow[..];
    var i := 0;
    while i < l
      invariant i <= l && Done(shadow[..], was, b, i, size, left, flags)
    {
      shadow[b + i] := lf;
      i := i + 1;
    }
    while i < l + s
      invariant l <= i <= l + s && Done(shadow[..], was, b, i, size, left, flags)
    {
      shadow[b + i] := 0;
      i := i + 1;
    }
    if partial != 0 && i < total {
      shadow[b + i] := partial;
      i := i + 1;
    }
    while i < total
      invariant l + s <= i <= total && Done(shadow[..], was, b, i, size, left, flags)
      invariant i == l + s ==> partial == 0
    {
      shadow[b + i] := rf;
      i := i + 1;
    }
  }

  /** The first `i` granules are set, the others as they were. */
  ghost predicate Done(now: seq<byte>, was: seq<byte>, b: nat, i: nat, size: nat, left: nat, flags: byte) {
    && |now| == |was|
    && forall g :: 0 <= g < |was| ==> now[g] == if b <= g < b + i then PoisonByte(g - b, size, left, flags) else was[g]
  }

  /** The granule counts the code computes add up. */
  lemma {:induction false} Granules(base: nat, left: nat, size: nat, right: nat)
    requires base % GRANULE == 0 && left % GRANULE == 0 && (left + size + right) % GRANULE == 0
    ensures (base + left + size + right) / GRANULE == base / GRANULE + (left + size + right) / GRANULE
    ensures left / GRANULE + size / GRANULE <= (left + size + right) / GRANULE
    ensures size % GRANULE != 0 ==> left / GRANULE + size / GRANULE < (left + size + right) / GRANULE
  {
  }

  /** After poisoning with a redzone value, exactly the bytes of the object can be accessed. */
  lemma {:induction false} PoisonTruth(sh: seq<byte>, base: nat, size: nat, left: nat, right: nat, flags: byte, a: nat)
    requires PoisonArgs(|sh|, base, size, left, right) && flags >= GRANULE && a / GRANULE < |sh|
    ensures base <= a < base + left + size + right ==>
              (Addressable(Poisoned(sh, base, size, left, right, flags), a) <==> base + left <= a < base + left + size)
    ensures !(base <= a < base + left + size + right) ==>
              Addressable(Poisoned(sh, base, size, left, right, flags), a) == Addressable(sh, a)
  {
    Granules(base, left, size, right);
  }

  /** kasan_unpoison: with no redzones and value zero, the whole range can be accessed. */
  lemma {:induction false} UnpoisonTruth(sh: seq<byte>, base: nat, size: nat, a: nat)
    requires PoisonArgs(|sh|, base, size, 0, 0) && a / GRANULE < |sh|
    ensures var p := Poisoned(sh, base, size, 0, 0, 0);
            Addressable(p, a) <==> (base <= a < base + size || Addressable(sh, a))
  {
    Granules(base, 0, size, 0);
  }

  // ----- Checking -------------------------------------------------------------------------

  /** Every byte of the range that lies in granule `g` may be accessed. */
  ghost predicate GranuleOk(sh: seq<byte>, base: nat, size: nat, g: nat) {
    g < |sh| && forall k :: 0 <= k < GRANULE && base <= GRANULE * g + k < base + size ==> Valid(sh[g], k)
  }

  /** The test of the code, on the bytes of the range from granule `g` on, is exact. */
  lemma {:induction false} TestExact(sh: seq<byte>, base: nat, size: nat, g: nat)
    requires size > 0 && base / GRANULE <= g < |sh| && GRANULE * g < base + size
    ensures var s, sz := sh[g], base + size - GRANULE * g;
            GranuleOk(sh, base, size, g) <==> s == 0 || (sz < GRANULE && s >= sz && s < GRANULE)
  {
    var s, sz := sh[g], base + size - GRANULE * g;
    var k := if sz < GRANULE then sz - 1 else GRANULE - 1;
    assert base <= GRANULE * g + k < base + size;
    assert GranuleOk(sh, base, size, g) ==> Valid(s, k);
  }

  lemma {:induction false} ByteOfGranule(sh: seq<byte>, base: nat, size: nat, a: nat)
    requires base <= a < base + size <= GRANULE * |sh| && GranuleOk(sh, base, size, a / GRANULE)
    ensures Addressable(sh, a)
  {
    assert a == GRANULE * (a / GRANULE) + a % GRANULE;
  }

  /** Some byte of the range in granule `g` may not be accessed. */
  lemma {:induction false} BadByte(sh: seq<byte>, base: nat, size: nat, g: nat) returns (a: nat)
    requires g < |sh| && !GranuleOk(sh, base, size, g)
    ensures base <= a < base + size && a / GRANULE == g && !Addressable(sh, a)
  {
    var k :| 0 <= k < GRANULE && base <= GRANULE * g + k < base + size && !Valid(sh[g], k);
    a := GRANULE * g + k;
  }

  /** kasan_range_poisoned.  For a range that is not empty it finds out whether some byte may
      not be accessed, and the first granule with such a byte. */
  method RangePoisoned(shadow: array<byte>, base: nat, size: nat) returns (bad: bool, invalid: nat)
    requires base + size <= GRANULE * shadow.Length
    ensures size > 0 ==> (bad <==> exists a :: base <= a < base + size && !Addressable(shadow[..], a))
    ensures size > 0 && bad ==>
            && invalid % GRANULE == 0
            && (exists a :: base <= a < base + size && a / GRANULE == invalid / GRANULE && !Addressable(shadow[..], a))
            && (forall a :: base <= a < base + size && a < invalid ==> Addressable(shadow[..], a))
    ensures size == 0 && base % GRANULE == 0 ==> !bad
  {
    var first;
    ghost var limit;
    bad, first, limit := ScanGranules(shadow, base, size);
    invalid := first * GRANULE;
    if size > 0 {
      if bad {
        ghost var a := BadByte(shadow[..], base, size, first);
      }
      forall a | base <= a < base + size && a / GRANULE < limit ensures Addressable(shadow[..], a) {
        ByteOfGranule(shadow[..], base, size, a);
      }
    }
  }

  /** The loop of kasan_range_poisoned: the first granule that fails the test, if any. */
  method ScanGranules(shadow: array<byte>, base: nat, size: nat) returns (bad: bool, g: nat, ghost limit: nat)
    requires base + size <= GRANULE * shadow.Length
    ensures limit == (if bad then g else (base + size + GRANULE - 1) / GRANULE)
    ensures size > 0 ==> forall j :: base / GRANULE <= j < limit ==> GranuleOk(shadow[..], base, size, j)
    ensures bad ==> base / GRANULE <= g < shadow.Length && (size > 0 ==> !GranuleOk(shadow[..], base, size, g))
    ensures size == 0 && base % GRANULE == 0 ==> !bad
  {
    var sz := size + base % GRANULE;
    var count := (sz + GRANULE - 1) / GRANULE;
    var i := 0;
    g := base / GRANULE;
    while i < count
      invariant 0 <= i <= count && g == base / GRANULE + i && sz == base + size - GRANULE * g
      invariant size > 0 ==> forall j :: base / GRANULE <= j < g ==> GranuleOk(shadow[..], base, size, j)
    {
      var s := shadow[g];
      if size > 0 { TestExact(shadow[..], base, size, g); }
      if s == 0 || (sz < GRANULE && s >= sz && s < GRANULE) {
        i, g, sz := i + 1, g + 1, sz - GRANULE;
      } else {
        return true, g, g;
      }
    }
    return false, g, g;
  }

  /** kasan_check_shadow: whether every whole granule from `addr` rounded up to the end of the
      range is valid or has the given value. */
  method CheckShadow(shadow: array<byte>, addr: nat, sz: nat, value: byte) returns (ok: bool)
    requires addr + sz <= GRANULE * shadow.Length
    ensures ok <==> forall g :: addr <= GRANULE * g < addr + sz ==> shadow[g] == 0 || shadow[g] == value
  {
    var base := (addr + GRANULE - 1) / GRANULE * GRANULE;
    while base < addr + sz
      invariant addr <= base && base % GRANULE == 0
      invariant forall g :: addr <= GRANULE * g < addr + sz && GRANULE * g < base ==>
        shadow[g] == 0 || shadow[g] == value
    {
      var s := shadow[base / GRANULE];
      if s != 0 && s != value { return false; }
      base := base + GRANULE;
    }
    return true;
  }
}
