/** The kcdata format: the layout its writers produce (osfmk/kern/kern_cdata.c) and the
    iterator that walks it (libkdd/kcdata.h).

    Masks and shifts are written as division and remainder. */
module Kcdata {
  import opened Bytes
  import opened Wrappers

  const ARRAY := 0x11
  const CONTAINER_BEGIN := 0x13
  const CONTAINER_END := 0x14
  const ARRAY_PAD0 := 0x20
  const BUFFER_END := 0xF191_58ED
  const THREAD_SNAPSHOT := 0x906
  const SHAREDCACHE_LOADINFO := 0x908
  const HAS_PADDING := 0x80

  const WORD32 := 0x1_0000_0000
  const WORD64 := 0x1_0000_0000_0000_0000
  const HEADER := 16

  lemma {:induction false} Pows()
    ensures Pow256(4) == WORD32 && Pow256(8) == WORD64
  {
    assert Pow256(2) == 0x1_0000;
    assert Pow256(4) == 0x1_0000_0000;
    assert Pow256(6) == 0x1_0000_0000_0000;
  }

  // ----- Items ----------------------------------------------------------------------------------

  /** An item as it lies in a buffer: the data includes its padding. */
  datatype Raw = Raw(kind: nat, flags: nat, data: seq<byte>)

  function Kind(bs: seq<byte>): nat
    requires HEADER <= |bs|
  {
    Get(bs[..4])
  }

  function Size(bs: seq<byte>): nat
    requires HEADER <= |bs|
  {
    Get(bs[4..8])
  }

  function Flags(bs: seq<byte>): nat
    requires HEADER <= |bs|
  {
    Get(bs[8..16])
  }

  /** The number in four bytes, the lowest first. */
  function Word(a: int, b: int, c: int, d: int): int { a + 256 * b + 0x1_0000 * c + 0x100_0000 * d }

  /** The fields of a header: type and size, and flags in two words. */
  lemma {:induction false} HeaderBytes(bs: seq<byte>)
    requires 16 <= |bs|
    ensures Kind(bs) == Word(bs[0], bs[1], bs[2], bs[3]) && Size(bs) == Word(bs[4], bs[5], bs[6], bs[7])
    ensures Flags(bs) % WORD32 == Word(bs[8], bs[9], bs[10], bs[11])
    ensures Flags(bs) / WORD32 == Word(bs[12], bs[13], bs[14], bs[15])
  {
    FourBytes(bs[..4], []);
    FourBytes(bs[4..8], []);
    FourBytes(bs[8..12], bs[12..16]);
    FourBytes(bs[12..16], []);
    assert bs[8..12] + bs[12..16] == bs[8..16];
    HighLow(Word(bs[8], bs[9], bs[10], bs[11]), Word(bs[12], bs[13], bs[14], bs[15]));
  }

  lemma {:induction false} HighLow(low: nat, high: nat)
    requires low < WORD32
    ensures (low + WORD32 * high) % WORD32 == low && (low + WORD32 * high) / WORD32 == high
  {
  }

  lemma {:induction false} FourBytes(s: seq<byte>, t: seq<byte>)
    requires |s| == 4
    ensures Get(s + t) == Word(s[0], s[1], s[2], s[3]) + WORD32 * Get(t)
    ensures t == [] ==> Get(s) == Word(s[0], s[1], s[2], s[3])
  {
    var u := s + t;
    assert u[1..] == s[1..] + t && u[1..][1..] == s[2..] + t && u[1..][1..][1..] == s[3..] + t
      && u[1..][1..][1..][1..] == t;
    assert Get(u[1..][1..]) == s[2] as int + 256 * Get(u[1..][1..][1..]);
    assert Get(u[1..][1..][1..]) == s[3] as int + 256 * Get(t);
    assert t == [] ==> u == s;
  }

  /** The header and the data it announces are all there. */
  predicate Fits(bs: seq<byte>) {
    HEADER <= |bs| && HEADER + Size(bs) <= |bs|
  }

  function First(bs: seq<byte>): Raw
    requires Fits(bs)
  {
    Raw(Kind(bs), Flags(bs), bs[HEADER..HEADER + Size(bs)])
  }

  function Rest(bs: seq<byte>): seq<byte>
    requires Fits(bs)
  {
    bs[HEADER + Size(bs)..]
  }

  /** The items a walk visits, and whether it stops at an end marker. */
  function Walk(bs: seq<byte>): (seq<Raw>, bool)
    decreases |bs|
  {
    if !Fits(bs) then ([], false)
    else if Kind(bs) == BUFFER_END then ([], true)
    else ([First(bs)] + Walk(Rest(bs)).0, Walk(Rest(bs)).1)
  }

  // ----- The layout -----------------------------------------------------------------------------

  /** How many bytes make a size a multiple of sixteen. */
  function Padding(size: nat): (p: nat)
    ensures p < 16 && (size + p) % 16 == 0
  {
    (16 - size % 16) % 16
  }

  function Zeros(n: nat): (z: seq<byte>)
    ensures |z| == n && forall i :: 0 <= i < n ==> z[i] == 0
  {
    if n == 0 then [] else [0] + Zeros(n - 1)
  }

  function Header(kind: nat, size: nat, flags: nat): (h: seq<byte>)
    ensures |h| == HEADER
  {
    Put(kind, 4) + Put(size, 4) + Put(flags, 8)
  }

  function Padded(data: seq<byte>): seq<byte> {
    data + Zeros(Padding(|data|))
  }

  function Emit(r: Raw): seq<byte> {
    Header(r.kind, |r.data|, r.flags) + r.data
  }

  predicate RawOk(r: Raw) {
    r.kind < WORD32 && r.kind != BUFFER_END && |r.data| < WORD32 && r.flags < WORD64
  }

  function Layout(rs: seq<Raw>): seq<byte> {
    if rs == [] then Header(BUFFER_END, 0, 0) else Emit(rs[0]) + Layout(rs[1..])
  }

  lemma {:induction false} HeaderRead(kind: nat, size: nat, flags: nat, rest: seq<byte>)
    requires kind < WORD32 && size < WORD32 && flags < WORD64
    ensures var bs := Header(kind, size, flags) + rest;
      HEADER <= |bs| && Kind(bs) == kind && Size(bs) == size && Flags(bs) == flags
  {
    Pows();
    GetPut(kind, 4);
    GetPut(size, 4);
    GetPut(flags, 8);
    var bs := Header(kind, size, flags) + rest;
    assert bs[..4] == Put(kind, 4);
    assert bs[4..8] == Put(size, 4);
    assert bs[8..16] == Put(flags, 8);
  }

  lemma {:induction false} EmitRead(r: Raw, rest: seq<byte>)
    requires RawOk(r)
    ensures var bs := Emit(r) + rest; Fits(bs) && First(bs) == r && Rest(bs) == rest
  {
    var bs := Emit(r) + rest;
    HeaderRead(r.kind, |r.data|, r.flags, r.data + rest);
    assert bs == Header(r.kind, |r.data|, r.flags) + (r.data + rest);
    assert bs[HEADER..HEADER + |r.data|] == r.data;
  }

  /** Walking a layout visits exactly its items, in order, and stops at the end marker,
      whatever lies beyond. */
  lemma {:induction false} LayoutWalk(rs: seq<Raw>, beyond: seq<byte>)
    requires forall i :: 0 <= i < |rs| ==> RawOk(rs[i])
    ensures Walk(Layout(rs) + beyond) == (rs, true)
  {
    if rs == [] {
      HeaderRead(BUFFER_END, 0, 0, beyond);
    } else {
      var tail := Layout(rs[1..]) + beyond;
      assert Layout(rs) + beyond == Emit(rs[0]) + tail;
      EmitRead(rs[0], tail);
      LayoutWalk(rs[1..], beyond);
      assert [rs[0]] + rs[1..] == rs;
    }
  }

  // ----- What an item means ---------------------------------------------------------------------

  function IterType(kind: nat): nat {
    if kind / 16 == 2 then ARRAY else kind
  }

  /** An item of a fixed old size, written before padding was recorded. */
  predicate IsLegacy(r: Raw, size: nat) {
    |r.data| == size + Padding(size) && r.flags % 16 == 0 && r.flags / HAS_PADDING % 2 == 0
  }

  const THREAD_SNAPSHOT_V2 := 104
  const UUID_INFO_64 := 24

  /** kcdata_iter_size */
  function IterSize(r: Raw): (n: nat)
    ensures n <= |r.data|
  {
    var kind := IterType(r.kind);
    if kind == ARRAY || kind == CONTAINER_BEGIN then |r.data|
    else if kind == THREAD_SNAPSHOT && IsLegacy(r, THREAD_SNAPSHOT_V2) then THREAD_SNAPSHOT_V2
    else if kind == SHAREDCACHE_LOADINFO && IsLegacy(r, UUID_INFO_64) then UUID_INFO_64
    else if |r.data| < r.flags % 16 then 0
    else |r.data| - r.flags % 16
  }

  function ElemType(r: Raw): nat { r.flags / WORD32 % WORD32 }
  function ElemCount(r: Raw): nat { r.flags % WORD32 }

  /** The element sizes that were in use before the padding of arrays was recorded. */
  function OldElemSize(elem: nat): nat {
    match elem
    case 0x30 => 20
    case 0x31 => UUID_INFO_64
    case 0x90A => 8
    case 0x90C => 8
    case 0x90B => 16
    case 0x90D => 16
    case 0x907 => 4
    case 0x941 => 48
    case 0x81A => 8
    case _ => 0
  }

  /** kcdata_iter_array_valid, of an item that fits. */
  predicate ArrayValid(r: Raw) {
    IterType(r.kind) == ARRAY
    && if ElemCount(r) == 0 then |r.data| == 0
       else if r.kind == ARRAY then
         OldElemSize(ElemType(r)) != 0
         && ElemCount(r) <= |r.data| / OldElemSize(ElemType(r)) && |r.data| % ElemCount(r) < 16
       else
         r.kind % 16 <= |r.data| && ElemCount(r) <= |r.data| - r.kind % 16
           && (|r.data| - r.kind % 16) % ElemCount(r) == 0
  }

  /** kcdata_iter_array_elem_size */
  function ElemSize(r: Raw): int {
    if r.kind == ARRAY then OldElemSize(ElemType(r))
    else if ElemCount(r) == 0 then 0
    else (|r.data| - r.kind % 16) / ElemCount(r)
  }

  /** The size of an item, in numbers: whole for arrays (0x11 and 0x20 to 0x2f) and container starts
      (0x13); 104 for an old thread snapshot (0x906) of 112 bytes and 24 for old shared cache
      information (0x908) of 32 bytes, if no padding is recorded; and else less its padding. */
  lemma {:induction false} SizeExact(r: Raw)
    ensures var n, plain := |r.data|, r.flags % 16 == 0 && r.flags / 0x80 % 2 == 0;
      IterSize(r) == if r.kind in {0x11, 0x13} || 0x20 <= r.kind < 0x30 then n
                     else if r.kind == 0x906 && n == 112 && plain then 104
                     else if r.kind == 0x908 && n == 32 && plain then 24
                     else if n < r.flags % 16 then 0 else n - r.flags % 16
  {
  }

  /** Which arrays are valid, in numbers.  An old one (0x11) has elements of a size from a fixed
      table, and its size is divided by the count up to padding; a new one records its padding. */
  lemma {:induction false} ArrayExact(r: Raw)
    ensures var n, count := |r.data|, r.flags % 0x1_0000_0000;
      && (r.kind == 0x11 ==> ElemSize(r) == OldSize(r.flags / 0x1_0000_0000 % 0x1_0000_0000))
      && (r.kind == 0x11 && count > 0 ==>
            (ArrayValid(r) <==> 0 < ElemSize(r) && count * ElemSize(r) <= n && n % count < 16))
      && (0x20 <= r.kind < 0x30 && count > 0 ==>
            (ArrayValid(r) <==> var pad := r.kind - 0x20; pad + count <= n && (n - pad) % count == 0))
      && (count == 0 ==> (ArrayValid(r) <==> n == 0 && (r.kind == 0x11 || 0x20 <= r.kind < 0x30)))
      && (ArrayValid(r) ==> r.kind == 0x11 || 0x20 <= r.kind < 0x30)
  {
    if r.kind == 0x11 && ElemCount(r) > 0 && ElemSize(r) > 0 {
      DivBound(|r.data|, ElemSize(r), ElemCount(r));
    }
  }

  function OldSize(elem: nat): nat {
    if elem == 0x30 then 20 else if elem == 0x31 then 24
    else if elem in {0x90A, 0x90C, 0x81A} then 8 else if elem in {0x90B, 0x90D} then 16
    else if elem == 0x907 then 4 else if elem == 0x941 then 48 else 0
  }

  lemma {:induction false} DivBound(n: nat, d: nat, q: nat)
    requires d > 0
    ensures q <= n / d <==> q * d <= n
  {
    if q <= n / d {
      DivMul(n, d, q);
    } else {
      assert q * d >= (n / d + 1) * d;
    }
  }

  /** The elements of a valid array lie within its data. */
  lemma {:induction false} ElementsInside(r: Raw)
    requires ArrayValid(r)
    ensures 0 <= ElemSize(r) * ElemCount(r) <= |r.data|
  {
    if ElemCount(r) != 0 {
      if r.kind == ARRAY {
        DivMul(|r.data|, ElemSize(r), ElemCount(r));
      } else {
        DivExact(|r.data| - r.kind % 16, ElemCount(r));
      }
    }
  }

  lemma {:induction false} DivMul(n: nat, d: nat, q: nat)
    requires d > 0 && q <= n / d
    ensures d * q <= n
  {
    assert d * q <= d * (n / d);
  }

  lemma {:induction false} DivExact(n: nat, d: nat)
    requires d > 0 && n % d == 0
    ensures n / d * d == n
  {
  }

  lemma {:induction false} MulDiv(a: nat, d: nat)
    requires d > 0
    ensures a * d / d == a && a * d % d == 0
    decreases a
  {
    if a > 0 {
      MulDiv(a - 1, d);
      DivStep((a - 1) * d, d);
      assert a * d == (a - 1) * d + d;
    }
  }

  lemma {:induction false} DivStep(n: nat, d: nat)
    requires d > 0 && n % d == 0
    ensures (n + d) / d == n / d + 1 && (n + d) % d == 0
  {
    var q := n / d;
    assert n + d == (q + 1) * d + 0;
    DivUnique(n + d, d, q + 1, 0);
  }

  lemma {:induction false} DivUnique(n: int, d: int, q: int, r: int)
    requires d > 0 && n == q * d + r && 0 <= r < d
    ensures n / d == q && n % d == r
  {
    var u := n / d - q;
    assert u * d == r - n % d;
    assert u >= 1 ==> u * d >= d;
    assert u <= -1 ==> u * d <= -d;
  }

  // ----- What is written ------------------------------------------------------------------------

  datatype Item =
    | Struct(kind: nat, data: seq<byte>)
    | Array(elem: nat, elemSize: nat, count: nat, data: seq<byte>)
    | Begin(container: nat, id: nat)
    | End(id: nat)

  function Written(item: Item): Raw {
    match item
    case Struct(kind, data) => Raw(kind, Padding(|data|) + HAS_PADDING, Padded(data))
    case Array(elem, _, count, data) => Raw(ARRAY_PAD0 + Padding(|data|), elem * WORD32 + count, Padded(data))
    case Begin(container, id) => Raw(CONTAINER_BEGIN, id, Padded(Put(container, 4)))
    case End(id) => Raw(CONTAINER_END, id, [])
  }

  /** What a writer may be given: the sizes fit their words, and a structure does not pose as an
      array, a container or the end. */
  predicate ItemOk(item: Item) {
    match item
    case Struct(kind, data) =>
      && kind < WORD32 && |data| + 16 <= WORD32 && IterType(kind) != ARRAY
      && kind != CONTAINER_BEGIN && kind != CONTAINER_END && kind != BUFFER_END
    case Array(elem, elemSize, count, data) =>
      elem < WORD32 && count < WORD32 && |data| + 16 <= WORD32 && |data| == elemSize * count
    case Begin(container, id) => container < WORD32 && id < WORD64
    case End(id) => id < WORD64
  }

  /** What a reader makes of an item, through the accessors of the iterator. */
  function Meaning(r: Raw): Option<Item> {
    if IterType(r.kind) == ARRAY then
      if ArrayValid(r) then
        ElementsInside(r);
        Some(Array(ElemType(r), ElemSize(r), ElemCount(r), r.data[..ElemSize(r) * ElemCount(r)]))
      else None
    else if r.kind == CONTAINER_BEGIN then
      if IterSize(r) >= 4 then Some(Begin(Get(r.data[..4]), r.flags)) else None
    else if r.kind == CONTAINER_END then Some(End(r.flags))
    else Some(Struct(r.kind, r.data[..IterSize(r)]))
  }

  lemma {:induction false} WrittenOk(item: Item)
    requires ItemOk(item)
    ensures RawOk(Written(item))
  {
  }

  /** The size a reader gets back is the size written exactly when the type is one whose
      flags say how it is padded, or there is no padding. */
  lemma {:induction false} StructSize(kind: nat, data: seq<byte>)
    ensures IterSize(Written(Struct(kind, data))) == |data|
       <==> |data| % 16 == 0 || (IterType(kind) != ARRAY && kind != CONTAINER_BEGIN)
  {
  }

  lemma {:induction false} ArrayFlags(elem: nat, count: nat)
    requires elem < WORD32 && count < WORD32
    ensures (elem * WORD32 + count) / WORD32 % WORD32 == elem && (elem * WORD32 + count) % WORD32 == count
  {
  }

  /** An array is valid to a reader exactly when it is empty or its elements are not. */
  lemma {:induction false} ArrayRead(elem: nat, elemSize: nat, count: nat, data: seq<byte>)
    requires elem < WORD32 && count < WORD32 && |data| == elemSize * count
    ensures var r := Written(Array(elem, elemSize, count, data));
      && (ArrayValid(r) <==> count == 0 || elemSize != 0)
      && ElemType(r) == elem && ElemCount(r) == count && ElemSize(r) == if count == 0 then 0 else elemSize
  {
    ArrayFlags(elem, count);
    if count > 0 {
      MulDiv(elemSize, count);
      if elemSize > 0 {
        assert count <= elemSize * count;
      }
    }
  }

  /** What is left of an item: an array of elements without size is invalid, and the element size
      of an array without elements is lost. */
  function Kept(item: Item): Option<Item> {
    match item
    case Array(elem, elemSize, count, data) =>
      if count == 0 then Some(Array(elem, 0, 0, data)) else if elemSize == 0 then None else Some(item)
    case _ => Some(item)
  }

  lemma {:induction false} Meant(item: Item)
    requires ItemOk(item)
    ensures Meaning(Written(item)) == Kept(item)
  {
    match item
    case Struct(kind, data) =>
      StructSize(kind, data);
      assert Padded(data)[..|data|] == data;
    case Array(elem, elemSize, count, data) =>
      ArrayRead(elem, elemSize, count, data);
      assert Padded(data)[..|data|] == data;
    case Begin(container, id) =>
      Pows();
      GetPut(container, 4);
      assert Padded(Put(container, 4))[..4] == Put(container, 4);
    case End(_) =>
  }

  function AllWritten(items: seq<Item>): (rs: seq<Raw>)
    ensures |rs| == |items| && forall i :: 0 <= i < |items| ==> rs[i] == Written(items[i])
  {
    if items == [] then [] else [Written(items[0])] + AllWritten(items[1..])
  }

  /** Any list of items, written and walked: the same items in the same order, up to the end
      marker. */
  lemma {:induction false} RoundTrip(items: seq<Item>, beyond: seq<byte>)
    requires forall i :: 0 <= i < |items| ==> ItemOk(items[i])
    ensures var (rs, ended) := Walk(Layout(AllWritten(items)) + beyond);
      ended && |rs| == |items| && forall i :: 0 <= i < |items| ==> Meaning(rs[i]) == Kept(items[i])
  {
    forall i | 0 <= i < |items|
      ensures RawOk(AllWritten(items)[i]) && Meaning(AllWritten(items)[i]) == Kept(items[i])
    {
      WrittenOk(items[i]);
      Meant(items[i]);
    }
    LayoutWalk(AllWritten(items), beyond);
  }

  // ----- Arbitrary bytes ------------------------------------------------------------------------

  function Body(rs: seq<Raw>): seq<byte> {
    if rs == [] then [] else Emit(rs[0]) + Body(rs[1..])
  }

  lemma {:induction false} FirstEmitted(bs: seq<byte>)
    requires Fits(bs)
    ensures bs == Emit(First(bs)) + Rest(bs) && RawOk(First(bs).(kind := 0)) && Kind(bs) < WORD32
  {
    Pows();
    PutGet(bs[..4]);
    PutGet(bs[4..8]);
    PutGet(bs[8..16]);
    assert bs[..4] + bs[4..8] + bs[8..16] == bs[..16];
    assert bs == bs[..16] + bs[16..16 + Size(bs)] + bs[16 + Size(bs)..];
  }

  /** Whatever the bytes, the walk ends, and the items it visited are the bytes it passed
      over, from the start of the buffer and within it. */
  lemma {:induction false} WalkInside(bs: seq<byte>)
    ensures var rs := Walk(bs).0; Body(rs) <= bs && forall i :: 0 <= i < |rs| ==> RawOk(rs[i])
    decreases |bs|
  {
    if Fits(bs) && Kind(bs) != BUFFER_END {
      FirstEmitted(bs);
      WalkInside(Rest(bs));
      var rs := Walk(bs).0;
      assert rs[1..] == Walk(Rest(bs)).0;
    }
  }

  // ----- The iterator ---------------------------------------------------------------------------

  /** A buffer at an address. */
  datatype Buffer = Buffer(base: nat, bytes: seq<byte>)

  function EndOf(b: Buffer): nat { b.base + |b.bytes| }

  function From(b: Buffer, item: nat): seq<byte>
    requires b.base <= item <= EndOf(b)
  {
    b.bytes[item - b.base..]
  }

  /** kcdata_iter_valid, in the arithmetic of 64-bit addresses.  With less than a header left
      the size is read at or beyond the end of the buffer, where it may be anything. */
  predicate IterValid(b: Buffer, item: nat, beyond: nat)
    requires b.base <= item <= EndOf(b)
  {
    (item + HEADER) % WORD64 <= EndOf(b)
    && (item + HEADER + (if item + HEADER <= EndOf(b) then Size(From(b, item)) else beyond)) % WORD64 <= EndOf(b)
  }

  lemma {:induction false} SizeBound(bs: seq<byte>)
    requires HEADER <= |bs|
    ensures Size(bs) < WORD32
  {
    Pows();
  }

  /** The end of the header, or that of the data it announces, lies beyond the address space. */
  predicate Wraps(b: Buffer, item: nat)
    requires b.base <= item <= EndOf(b)
  {
    || WORD64 <= item + HEADER
    || (item + HEADER <= EndOf(b) && WORD64 <= item + HEADER + Size(From(b, item)))
  }

  /** For any buffer and any place in it, an iterator is valid exactly when its item fits or wraps
      around the address space. */
  lemma {:induction false} ValidExact(b: Buffer, item: nat, beyond: nat)
    requires b.base <= item <= EndOf(b) < WORD64 && beyond < WORD32
    ensures IterValid(b, item, beyond) <==> Fits(From(b, item)) || Wraps(b, item)
  {
    if item + HEADER <= EndOf(b) {
      SizeBound(From(b, item));
    }
  }

  /** A header of sixteen bytes that announces data past the top is taken for valid, and so is a
      place with less than a header before the top. */
  lemma {:induction false} WrapAccepted(beyond: nat)
    requires beyond < WORD32
    ensures var b := Buffer(WORD64 - 32, Header(1, 0x100, 0)); IterValid(b, b.base, beyond) && !Fits(From(b, b.base))
    ensures var b := Buffer(WORD64 - 32, Zeros(31)); IterValid(b, WORD64 - 10, beyond) && !Fits(From(b, WORD64 - 10))
  {
    HeaderRead(1, 0x100, 0, []);
    assert Header(1, 0x100, 0) + [] == Header(1, 0x100, 0);
    var b := Buffer(WORD64 - 32, Header(1, 0x100, 0));
    assert From(b, b.base) == b.bytes;
  }

  /** No item that a walk comes to wraps. */
  predicate NeverWraps(b: Buffer, item: nat)
    requires b.base <= item <= EndOf(b)
    decreases EndOf(b) - item
  {
    && !Wraps(b, item)
    && (Fits(From(b, item)) && Kind(From(b, item)) != BUFFER_END ==> NeverWraps(b, item + HEADER + Size(From(b, item))))
  }

  /** That is so of every buffer that ends four gigabytes below the top of the address space. */
  lemma {:induction false} FarFromTop(b: Buffer, item: nat)
    requires b.base <= item <= EndOf(b) && EndOf(b) + HEADER + WORD32 <= WORD64
    ensures NeverWraps(b, item)
    decreases EndOf(b) - item
  {
    if item + HEADER <= EndOf(b) {
      SizeBound(From(b, item));
    }
    if Fits(From(b, item)) && Kind(From(b, item)) != BUFFER_END {
      FarFromTop(b, item + HEADER + Size(From(b, item)));
    }
  }

  function Shift(o: Option<nat>, d: nat): Option<nat> {
    match o
    case Some(n) => Some(d + n)
    case None => None
  }

  /** Where the first item of a type begins. */
  function Find(bs: seq<byte>, kind: nat): (o: Option<nat>)
    ensures o.Some? ==> o.value <= |bs|
    decreases |bs|
  {
    if !Fits(bs) || Kind(bs) == BUFFER_END then None
    else if IterType(Kind(bs)) == kind then Some(0)
    else Shift(Find(Rest(bs), kind), HEADER + Size(bs))
  }

  /** The search finds the first visited item of the type, or there is none. */
  lemma {:induction false} FindExact(bs: seq<byte>, kind: nat)
    ensures Find(bs, kind).None? ==> forall r <- Walk(bs).0 :: IterType(r.kind) != kind
    ensures Find(bs, kind).Some? ==> FoundIn(bs, kind, Find(bs, kind).value)
    decreases |bs|
  {
    if Fits(bs) && Kind(bs) != BUFFER_END {
      var rs, tail := Walk(bs).0, Walk(Rest(bs)).0;
      if IterType(Kind(bs)) == kind {
        assert bs[0..] == bs;
        assert rs[..0] == [];
        assert FoundAt(rs, kind, 0, First(bs), 0);
      } else {
        FindExact(Rest(bs), kind);
        if Find(Rest(bs), kind).Some? {
          FindLater(bs, kind, Find(Rest(bs), kind).value);
        }
      }
    }
  }

  lemma {:induction false} FindLater(bs: seq<byte>, kind: nat, n: nat)
    requires Fits(bs) && Kind(bs) != BUFFER_END && IterType(Kind(bs)) != kind && FoundIn(Rest(bs), kind, n)
    ensures FoundIn(bs, kind, HEADER + Size(bs) + n)
  {
    var r := First(Rest(bs)[n..]);
    assert Rest(bs)[n..] == bs[HEADER + Size(bs) + n..];
    var i: nat :| FoundAt(Walk(Rest(bs)).0, kind, i, r, n);
    FoundLater(First(bs), Walk(Rest(bs)).0, kind, i, r, n);
    assert |First(bs).data| == Size(bs);
    assert FoundAt(Walk(bs).0, kind, i + 1, First(bs[HEADER + Size(bs) + n..]), HEADER + Size(bs) + n);
  }

  /** An item of the type begins at an offset, and is the first of those visited. */
  ghost predicate FoundIn(bs: seq<byte>, kind: nat, n: nat) {
    && n <= |bs| && Fits(bs[n..]) && IterType(First(bs[n..]).kind) == kind
    && exists i: nat :: FoundAt(Walk(bs).0, kind, i, First(bs[n..]), n)
  }

  /** Item `i` of a walk is the first of its type, and begins where those before it end. */
  ghost predicate FoundAt(rs: seq<Raw>, kind: nat, i: nat, r: Raw, n: nat) {
    && i < |rs| && rs[i] == r && n == |Body(rs[..i])|
    && forall j :: 0 <= j < i ==> IterType(rs[j].kind) != kind
  }

  lemma {:induction false} FoundLater(first: Raw, tail: seq<Raw>, kind: nat, i: nat, r: Raw, n: nat)
    requires FoundAt(tail, kind, i, r, n) && IterType(first.kind) != kind
    ensures FoundAt([first] + tail, kind, i + 1, r, HEADER + |first.data| + n)
  {
    assert ([first] + tail)[..i + 1] == [first] + tail[..i];
    assert ([first] + tail[..i])[1..] == tail[..i];
  }

  /** kcdata_iter_find_type; no item is the invalid iterator. */
  method FindType(b: Buffer, start: nat, kind: nat, beyond: nat) returns (found: Option<nat>)
    requires b.base <= start <= EndOf(b) < WORD64 && beyond < WORD32 && NeverWraps(b, start)
    ensures found == Shift(Find(From(b, start), kind), start)
  {
    var item := start;
    while true
      invariant start <= item <= EndOf(b) && NeverWraps(b, item)
      invariant Shift(Find(From(b, start), kind), start) == Shift(Find(From(b, item), kind), item)
      decreases EndOf(b) - item
    {
      ValidExact(b, item, beyond);
      if !IterValid(b, item, beyond) {
        NotFound(From(b, item), kind);
        return None;
      }
      if Kind(From(b, item)) == BUFFER_END {
        NotFound(From(b, item), kind);
        return None;
      }
      if IterType(Kind(From(b, item))) == kind {
        return Some(item);
      }
      Advance(b, item, kind);
      item := item + HEADER + Size(From(b, item));
    }
  }

  lemma {:induction false} NotFound(bs: seq<byte>, kind: nat)
    requires !Fits(bs) || Kind(bs) == BUFFER_END
    ensures Find(bs, kind).None?
  {
  }

  lemma {:induction false} Advance(b: Buffer, item: nat, kind: nat)
    requires b.base <= item <= EndOf(b) && Fits(From(b, item)) && NeverWraps(b, item)
    requires Kind(From(b, item)) != BUFFER_END && IterType(Kind(From(b, item))) != kind
    ensures var next := item + HEADER + Size(From(b, item));
      && next <= EndOf(b) && NeverWraps(b, next)
      && Shift(Find(From(b, item), kind), item) == Shift(Find(From(b, next), kind), next)
  {
    var next := item + HEADER + Size(From(b, item));
    assert From(b, next) == Rest(From(b, item));
  }
}
