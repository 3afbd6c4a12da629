/** Whole runs of the address sanitizer with the memory it keeps its records in (san/kasan.c):
    allocations, frees through the quarantine, and writes by users to bytes they may access.
    In such runs neither the check on free nor the tests on blocks that leave the quarantine
    report anything. */
module KasanRun {
  import opened Bytes
  import opened KasanShadow
  import opened Wrappers
  import H = KasanHeap
  import D = KasanHeader

  // ----- The entry of a freed block ---------------------------------------------------------------

  const FREE_XOR := 0xf233

  /** sizeof(struct freelist_entry), and the offsets of its link and of the words after it. */
  const ENTRY := 32
  const LINK := 8
  const BITS := 16

  /** Sizes have 28 bits. */
  const SIZE_LIMIT := 0x1000_0000

  /** The bytes from `lo` to `hi` are the same. */
  ghost predicate SameOn(mem: seq<byte>, mem': seq<byte>, lo: nat, hi: nat) {
    |mem| == |mem'| && forall k :: lo <= k < hi && k < |mem| ==> mem'[k] == mem[k]
  }

  lemma {:induction false} SameSlice(mem: seq<byte>, mem': seq<byte>, lo: nat, hi: nat, i: nat, j: nat)
    requires SameOn(mem, mem', lo, hi) && lo <= i <= j <= hi && j <= |mem|
    ensures mem'[i..j] == mem[i..j]
  {
  }

  /** The fields of an entry as they are read from memory. */
  function MagicAt(mem: seq<byte>, at: nat): nat
    requires at + ENTRY <= |mem|
  {
    Get(mem[at..at + 2])
  }

  function CrcAt(mem: seq<byte>, at: nat): nat
    requires at + ENTRY <= |mem|
  {
    Get(mem[at + 2..at + 4])
  }

  function SizeAt(mem: seq<byte>, at: nat): nat
    requires at + ENTRY <= |mem|
  {
    Get(mem[at + BITS..at + BITS + 8]) % SIZE_LIMIT
  }

  /** fle_crc: the checksum of the entry without magic, checksum and link, and of the block after it. */
  function EntryCrc(x: D.Abi, mem: seq<byte>, at: nat, size: nat): nat
    requires BITS <= size && at + size <= |mem|
  {
    x.crc(0, mem[at + BITS..at + size]) % 0x1_0000
  }

  /** What kasan_free_internal tests when the block leaves, and the size it reads. */
  ghost predicate EntryIntact(x: D.Abi, mem: seq<byte>, e: H.Freed, t: nat) {
    && ENTRY <= e.size && e.base + e.size <= |mem|
    && RightWords(e, t, MagicAt(mem, e.base), CrcAt(mem, e.base), SizeAt(mem, e.base), EntryCrc(x, mem, e.base, e.size))
  }

  predicate RightWords(e: H.Freed, t: nat, magic: nat, crc: nat, size: nat, sum: nat) {
    magic == D.MagicFor(e.base, FREE_XOR) && size == e.size && (t != H.FAKESTACK ==> crc == sum)
  }

  lemma {:induction false} EntrySlices(mem: seq<byte>, mem': seq<byte>, at: nat, size: nat)
    requires ENTRY <= size && at + size <= |mem|
    requires SameOn(mem, mem', at, at + LINK) && SameOn(mem, mem', at + BITS, at + size)
    ensures mem'[at..at + 2] == mem[at..at + 2] && mem'[at + 2..at + 4] == mem[at + 2..at + 4]
    ensures mem'[at + BITS..at + BITS + 8] == mem[at + BITS..at + BITS + 8]
    ensures mem'[at + BITS..at + size] == mem[at + BITS..at + size]
  {
    SameSlice(mem, mem', at, at + LINK, at, at + 2);
    SameSlice(mem, mem', at, at + LINK, at + 2, at + 4);
    SameSlice(mem, mem', at + BITS, at + size, at + BITS, at + BITS + 8);
    SameSlice(mem, mem', at + BITS, at + size, at + BITS, at + size);
  }

  lemma {:induction false} EntryWords(x: D.Abi, mem: seq<byte>, mem': seq<byte>, at: nat, size: nat)
    requires ENTRY <= size && at + size <= |mem|
    requires SameOn(mem, mem', at, at + LINK) && SameOn(mem, mem', at + BITS, at + size)
    ensures MagicAt(mem', at) == MagicAt(mem, at) && CrcAt(mem', at) == CrcAt(mem, at)
      && SizeAt(mem', at) == SizeAt(mem, at)
    ensures EntryCrc(x, mem', at, size) == EntryCrc(x, mem, at, size)
  {
    EntrySlices(mem, mem', at, size);
  }

  /** The link is not part of it. */
  lemma {:induction false} EntryStable(x: D.Abi, mem: seq<byte>, mem': seq<byte>, e: H.Freed, t: nat)
    requires EntryIntact(x, mem, e, t)
    requires SameOn(mem, mem', e.base, e.base + LINK) && SameOn(mem, mem', e.base + BITS, e.base + e.size)
    ensures EntryIntact(x, mem', e, t)
  {
    EntryWords(x, mem, mem', e.base, e.size);
  }

  lemma {:induction false} HeaderSame(x: D.Abi, mem: seq<byte>, mem': seq<byte>, b: H.Block)
    requires D.HeaderIntact(x, mem, b) && SameOn(mem, mem', b.base, b.base + b.left)
    requires SameOn(mem, mem', b.base + b.left + b.req, b.base + b.size)
    ensures D.HeaderIntact(x, mem', b)
  {
    D.HeaderStable(x, mem, mem', b);
  }

  // ----- States and steps -------------------------------------------------------------------------

  datatype State = State(heap: H.State, mem: seq<byte>)

  /** `mid` is the memory when the freed block is in the list and none has left it. */
  datatype Act = Alloc(b: H.Block) | Free(b: H.Block, t: nat, quarantine: bool, mid: seq<byte>) | Write(a: nat, v: byte)

  /** A byte of the link of an entry. */
  predicate Links(list: seq<H.Freed>, k: nat) {
    exists i :: 0 <= i < |list| && list[i].base + LINK <= k < list[i].base + BITS
  }

  /** What a free may write before a block leaves: the block freed, and links of the list. */
  ghost predicate FreeWrites(mem: seq<byte>, mid: seq<byte>, b: H.Block, list: seq<H.Freed>) {
    && |mid| == |mem|
    && forall k :: 0 <= k < |mem| && !(b.base <= k < b.base + b.size) && !Links(list, k) ==> mid[k] == mem[k]
  }

  /** The entry of the block that leaves is cleared. */
  ghost predicate Cleared(mid: seq<byte>, mem': seq<byte>, out: Option<H.Freed>) {
    && |mem'| == |mid|
    && forall k :: 0 <= k < |mid| ==>
         mem'[k] == if out.Some? && out.value.base <= k < out.value.base + ENTRY then 0 else mid[k]
  }

  /** The block that leaves the list, if any; one that did not enter it leaves with no test. */
  function Leaves(s: State, b: H.Block, t: nat, quarantine: bool): Option<H.Freed>
    requires H.Inv(s.heap) && t < |s.heap.q| && b.size <= s.heap.q[t].maxSize
  {
    var e := H.Freed(b.base, b.size);
    if quarantine && H.Enters(s.heap.q[t], e) then H.Admit(s.heap.q[t], e).1 else None
  }

  ghost predicate Enabled(s: State, act: Act)
    requires H.Inv(s.heap)
  {
    match act
    case Alloc(b) => H.Allowed(s.heap, H.Alloc(b)) && b.size < SIZE_LIMIT
    case Free(b, t, quarantine, mid) => H.Allowed(s.heap, H.Free(b, t, quarantine))
    case Write(a, v) => a / GRANULE < |s.heap.shadow| && Addressable(s.heap.shadow, a)
  }

  ghost predicate Step(x: D.Abi, s: State, act: Act, s': State)
    requires H.Inv(s.heap)
  {
    && Enabled(s, act)
    && match act
       case Alloc(b) =>
         s'.heap == H.DoAlloc(s.heap, b) && D.HeaderIntact(x, s'.mem, b) && D.UserKept(s'.mem, s.mem, b)
       case Free(b, t, quarantine, mid) =>
         && s'.heap == H.Exec(s.heap, H.Free(b, t, quarantine))
         && FreeWrites(s.mem, mid, b, if quarantine then s.heap.q[t].list else [])
         && (quarantine ==> EntryIntact(x, mid, H.Freed(b.base, b.size), t))
         && Cleared(mid, s'.mem, Leaves(s, b, t, quarantine))
       case Write(a, v) => s'.heap == s.heap && a < |s.mem| && s'.mem == s.mem[a := v]
  }

  /** The records of all live and all freed blocks are as the sanitizer left them. */
  ghost predicate Inv(x: D.Abi, s: State) {
    && H.Inv(s.heap) && |s.mem| == GRANULE * |s.heap.shadow|
    && (forall b <- s.heap.live :: D.HeaderIntact(x, s.mem, b) && b.size < SIZE_LIMIT)
    && (forall t, e :: 0 <= t < H.TYPES && e in s.heap.q[t].list ==> EntryIntact(x, s.mem, e, t))
  }

  // ----- Blocks do not overlap --------------------------------------------------------------------

  lemma {:induction false} ByteTag(tags: seq<H.Tag>, base: nat, size: nat, tag: H.Tag, k: nat)
    requires H.Owned(tags, base, size, tag) && base % GRANULE == 0 && size % GRANULE == 0
    requires base <= k < base + size <= GRANULE * |tags|
    ensures k / GRANULE < |tags| && tags[k / GRANULE] == tag
  {
  }

  lemma {:induction false} LiveTag(s: H.State, b: H.Block, k: nat)
    requires H.Own(s) && b in s.live && b.base <= k < b.base + b.size
    ensures k / GRANULE < |s.tags| && s.tags[k / GRANULE] == H.Live(b)
  {
    ByteTag(s.tags, b.base, b.size, H.Live(b), k);
  }

  lemma {:induction false} HeldTag(s: H.State, t: nat, e: H.Freed, k: nat)
    requires H.Own(s) && t < H.TYPES && e in s.q[t].list && e.base <= k < e.base + e.size
    ensures k / GRANULE < |s.tags| && s.tags[k / GRANULE] == H.Held(t, e)
  {
    assert H.QueueOk(s, t);
    ByteTag(s.tags, e.base, e.size, H.Held(t, e), k);
  }

  // ----- Every step keeps the records -------------------------------------------------------------

  /** The user's bytes of a live block may change. */
  lemma {:induction false} LiveKept(x: D.Abi, s: State, c: H.Block, mem': seq<byte>)
    requires Inv(x, s) && c in s.heap.live && |mem'| == |s.mem|
    requires forall k :: c.base <= k < c.base + c.size && !(c.base + c.left <= k < c.base + c.left + c.req) ==>
      mem'[k] == s.mem[k]
    ensures D.HeaderIntact(x, mem', c)
  {
    HeaderSame(x, s.mem, mem', c);
  }

  /** The link of a freed block may change. */
  lemma {:induction false} HeldKept(x: D.Abi, mem: seq<byte>, mem': seq<byte>, e: H.Freed, t: nat)
    requires EntryIntact(x, mem, e, t) && |mem'| == |mem|
    requires forall k :: e.base <= k < e.base + e.size && !(e.base + LINK <= k < e.base + BITS) ==> mem'[k] == mem[k]
    ensures EntryIntact(x, mem', e, t)
  {
    EntryStable(x, mem, mem', e, t);
  }

  lemma {:induction false} WriteKeepsLive(x: D.Abi, s: State, a: nat, v: byte, c: H.Block)
    requires Inv(x, s) && Enabled(s, Write(a, v)) && a < |s.mem| && c in s.heap.live
    ensures D.HeaderIntact(x, s.mem[a := v], c)
  {
    if c.base <= a < c.base + c.size {
      H.TruthLive(s.heap, c, a);
    }
    LiveKept(x, s, c, s.mem[a := v]);
  }

  lemma {:induction false} WriteKeepsHeld(x: D.Abi, s: State, a: nat, v: byte, t: nat, e: H.Freed)
    requires Inv(x, s) && Enabled(s, Write(a, v)) && a < |s.mem| && t < H.TYPES && e in s.heap.q[t].list
    ensures EntryIntact(x, s.mem[a := v], e, t)
  {
    assert EntryIntact(x, s.mem, e, t);
    if e.base <= a < e.base + e.size {
      H.TruthHeld(s.heap, t, e, a);
      assert false;
    }
    HeldKept(x, s.mem, s.mem[a := v], e, t);
  }

  lemma {:induction false} WriteOk(x: D.Abi, s: State, a: nat, v: byte, s': State)
    requires Inv(x, s) && Step(x, s, Write(a, v), s')
    ensures Inv(x, s')
  {
    forall c <- s'.heap.live ensures D.HeaderIntact(x, s'.mem, c) {
      WriteKeepsLive(x, s, a, v, c);
    }
    forall t, e | 0 <= t < H.TYPES && e in s'.heap.q[t].list ensures EntryIntact(x, s'.mem, e, t) {
      WriteKeepsHeld(x, s, a, v, t, e);
    }
  }

  lemma {:induction false} AllocKeepsLive(x: D.Abi, s: State, b: H.Block, mem': seq<byte>, c: H.Block)
    requires Inv(x, s) && Enabled(s, Alloc(b)) && c in s.heap.live && D.UserKept(mem', s.mem, b)
    ensures D.HeaderIntact(x, mem', c)
  {
    forall k | c.base <= k < c.base + c.size ensures mem'[k] == s.mem[k] {
      LiveTag(s.heap, c, k);
      if b.base <= k < b.base + b.size { ByteTag(s.heap.tags, b.base, b.size, H.Unowned, k); }
    }
    LiveKept(x, s, c, mem');
  }

  lemma {:induction false} AllocKeepsHeld(x: D.Abi, s: State, b: H.Block, mem': seq<byte>, t: nat, e: H.Freed)
    requires Inv(x, s) && Enabled(s, Alloc(b)) && t < H.TYPES && e in s.heap.q[t].list && D.UserKept(mem', s.mem, b)
    ensures EntryIntact(x, mem', e, t)
  {
    assert EntryIntact(x, s.mem, e, t);
    forall k | e.base <= k < e.base + e.size ensures mem'[k] == s.mem[k] {
      HeldTag(s.heap, t, e, k);
      if b.base <= k < b.base + b.size { ByteTag(s.heap.tags, b.base, b.size, H.Unowned, k); }
    }
    HeldKept(x, s.mem, mem', e, t);
  }

  lemma {:induction false} AllocOk(x: D.Abi, s: State, b: H.Block, s': State)
    requires Inv(x, s) && Step(x, s, Alloc(b), s')
    ensures Inv(x, s')
  {
    H.AllocOk(s.heap, b);
    forall c <- s'.heap.live ensures D.HeaderIntact(x, s'.mem, c) {
      if c != b { AllocKeepsLive(x, s, b, s'.mem, c); }
    }
    forall t, e | 0 <= t < H.TYPES && e in s'.heap.q[t].list ensures EntryIntact(x, s'.mem, e, t) {
      AllocKeepsHeld(x, s, b, s'.mem, t, e);
    }
  }

  /** A link is in a freed block. */
  lemma {:induction false} LinkTag(s: H.State, t: nat, k: nat)
    requires H.Own(s) && t < H.TYPES && Links(s.q[t].list, k)
    ensures k / GRANULE < |s.tags| && s.tags[k / GRANULE].Held?
  {
    assert H.QueueOk(s, t);
    var i :| 0 <= i < |s.q[t].list| && s.q[t].list[i].base + LINK <= k < s.q[t].list[i].base + BITS;
    HeldTag(s, t, s.q[t].list[i], k);
  }

  /** In another freed block, only the link is written. */
  lemma {:induction false} LinkOfHeld(s: H.State, t: nat, u: nat, e: H.Freed, k: nat)
    requires H.Own(s) && t < H.TYPES && u < H.TYPES && e in s.q[u].list && Links(s.q[t].list, k)
      && e.base <= k < e.base + e.size
    ensures e.base + LINK <= k < e.base + BITS
  {
    assert H.QueueOk(s, t);
    var i :| 0 <= i < |s.q[t].list| && s.q[t].list[i].base + LINK <= k < s.q[t].list[i].base + BITS;
    HeldTag(s, t, s.q[t].list[i], k);
    HeldTag(s, u, e, k);
  }

  /** Before a block leaves, the records of all other blocks are untouched. */
  lemma {:induction false} MidKeepsLive(x: D.Abi, s: State, b: H.Block, t: nat, mid: seq<byte>, list: seq<H.Freed>,
                                        c: H.Block)
    requires Inv(x, s) && b in s.heap.live && t < H.TYPES && c in s.heap.live && c != b
    requires FreeWrites(s.mem, mid, b, list) && (list == [] || list == s.heap.q[t].list)
    ensures D.HeaderIntact(x, mid, c)
  {
    forall k | c.base <= k < c.base + c.size ensures mid[k] == s.mem[k] {
      LiveTag(s.heap, c, k);
      if b.base <= k < b.base + b.size { LiveTag(s.heap, b, k); }
      if Links(list, k) { LinkTag(s.heap, t, k); }
    }
    LiveKept(x, s, c, mid);
  }

  lemma {:induction false} MidKeepsHeld(x: D.Abi, s: State, b: H.Block, t: nat, mid: seq<byte>, list: seq<H.Freed>,
                                        u: nat, e: H.Freed)
    requires Inv(x, s) && b in s.heap.live && t < H.TYPES && u < H.TYPES && e in s.heap.q[u].list
    requires FreeWrites(s.mem, mid, b, list) && (list == [] || list == s.heap.q[t].list)
    ensures EntryIntact(x, mid, e, u)
  {
    assert EntryIntact(x, s.mem, e, u);
    forall k | e.base <= k < e.base + e.size && !(e.base + LINK <= k < e.base + BITS) ensures mid[k] == s.mem[k] {
      HeldTag(s.heap, u, e, k);
      if b.base <= k < b.base + b.size { LiveTag(s.heap, b, k); }
      if Links(list, k) { LinkOfHeld(s.heap, t, u, e, k); }
    }
    HeldKept(x, s.mem, mid, e, u);
  }

  /** A list holds what it held, and perhaps the block just freed. */
  lemma {:induction false} ListedBefore(s: State, b: H.Block, t: nat, quarantine: bool, u: nat, e: H.Freed)
    requires H.Inv(s.heap) && H.Allowed(s.heap, H.Free(b, t, quarantine)) && u < H.TYPES
    requires e in H.Exec(s.heap, H.Free(b, t, quarantine)).q[u].list
    ensures e in s.heap.q[u].list || (quarantine && u == t && e == H.Freed(b.base, b.size))
  {
    if quarantine && u == t {
      H.AdmitOk(s.heap.q[t], H.Freed(b.base, b.size));
    }
  }

  /** What leaves is handed back, and was in the list or is the block just freed. */
  lemma {:induction false} LeavesBack(s: State, b: H.Block, t: nat, quarantine: bool)
    requires H.Inv(s.heap) && H.Allowed(s.heap, H.Free(b, t, quarantine))
    ensures var out := Leaves(s, b, t, quarantine); out.Some? ==>
      && H.HandedBack(H.Exec(s.heap, H.Free(b, t, quarantine)), out.value) && quarantine
      && (out.value in s.heap.q[t].list || out.value == H.Freed(b.base, b.size))
  {
    H.FreeOk(s.heap, b, t, quarantine);
    var out := Leaves(s, b, t, quarantine);
    if out.Some? {
      H.AdmitOk(s.heap.q[t], H.Freed(b.base, b.size));
      assert out.value in H.Out(out) + H.Admit(s.heap.q[t], H.Freed(b.base, b.size)).0.list;
    }
  }

  /** What leaves, as FreeInternal finds it: an intact entry at an address that is not zero. */
  lemma {:induction false} FreedPasses(x: D.Abi, s: State, b: H.Block, t: nat, quarantine: bool, mid: seq<byte>)
    requires Inv(x, s) && b in s.heap.live && t < H.TYPES && b.size <= s.heap.q[t].maxSize
    requires FreeWrites(s.mem, mid, b, if quarantine then s.heap.q[t].list else [])
    requires quarantine ==> EntryIntact(x, mid, H.Freed(b.base, b.size), t)
    ensures var out := Leaves(s, b, t, quarantine);
      && (out.Some? ==> EntryIntact(x, mid, out.value, t) && out.value.base != 0)
      && (quarantine && H.Enters(s.heap.q[t], H.Freed(b.base, b.size)) ==> out == H.DoFree(s.heap, b, t, quarantine).1)
  {
    LeavesBack(s, b, t, quarantine);
    var out := Leaves(s, b, t, quarantine);
    if out.Some? && out.value in s.heap.q[t].list {
      MidKeepsHeld(x, s, b, t, mid, s.heap.q[t].list, t, out.value);
    }
  }

  /** The block that leaves passes its test. */
  lemma {:induction false} LeavesIntact(x: D.Abi, s: State, b: H.Block, t: nat, quarantine: bool, mid: seq<byte>,
                                        s': State)
    requires Inv(x, s) && Step(x, s, Free(b, t, quarantine, mid), s')
    ensures var out := Leaves(s, b, t, quarantine); out.Some? ==> EntryIntact(x, mid, out.value, t)
  {
    FreedPasses(x, s, b, t, quarantine, mid);
  }

  lemma {:induction false} FreeKeepsLive(x: D.Abi, s: State, b: H.Block, t: nat, quarantine: bool, mid: seq<byte>,
                                         s': State, c: H.Block)
    requires Inv(x, s) && Step(x, s, Free(b, t, quarantine, mid), s') && H.Inv(s'.heap)
    requires c in s'.heap.live && c in s.heap.live && c != b
    ensures D.HeaderIntact(x, s'.mem, c)
  {
    MidKeepsLive(x, s, b, t, mid, if quarantine then s.heap.q[t].list else [], c);
    LeavesBack(s, b, t, quarantine);
    var out := Leaves(s, b, t, quarantine);
    forall k | c.base <= k < c.base + c.size ensures s'.mem[k] == mid[k] {
      LiveTag(s'.heap, c, k);
      if out.Some? && out.value.base <= k < out.value.base + ENTRY {
        ByteTag(s'.heap.tags, out.value.base, out.value.size, H.Unowned, k);
      }
    }
    HeaderSame(x, mid, s'.mem, c);
  }

  lemma {:induction false} FreeKeepsHeld(x: D.Abi, s: State, b: H.Block, t: nat, quarantine: bool, mid: seq<byte>,
                                         s': State, u: nat, e: H.Freed)
    requires Inv(x, s) && Step(x, s, Free(b, t, quarantine, mid), s') && H.Inv(s'.heap)
    requires u < H.TYPES && e in s'.heap.q[u].list
    ensures EntryIntact(x, s'.mem, e, u)
  {
    ListedBefore(s, b, t, quarantine, u, e);
    if e in s.heap.q[u].list {
      MidKeepsHeld(x, s, b, t, mid, if quarantine then s.heap.q[t].list else [], u, e);
    }
    LeavesBack(s, b, t, quarantine);
    var out := Leaves(s, b, t, quarantine);
    forall k | e.base <= k < e.base + e.size ensures s'.mem[k] == mid[k] {
      HeldTag(s'.heap, u, e, k);
      if out.Some? && out.value.base <= k < out.value.base + ENTRY {
        ByteTag(s'.heap.tags, out.value.base, out.value.size, H.Unowned, k);
      }
    }
    HeldKept(x, mid, s'.mem, e, u);
  }

  lemma {:induction false} FreeOk(x: D.Abi, s: State, b: H.Block, t: nat, quarantine: bool, mid: seq<byte>, s': State)
    requires Inv(x, s) && Step(x, s, Free(b, t, quarantine, mid), s')
    ensures Inv(x, s')
  {
    H.FreeOk(s.heap, b, t, quarantine);
    H.ExecOk(s.heap, H.Free(b, t, quarantine));
    forall c <- s'.heap.live ensures D.HeaderIntact(x, s'.mem, c) && c.size < SIZE_LIMIT {
      FreeKeepsLive(x, s, b, t, quarantine, mid, s', c);
    }
    forall u, e | 0 <= u < H.TYPES && e in s'.heap.q[u].list ensures EntryIntact(x, s'.mem, e, u) {
      FreeKeepsHeld(x, s, b, t, quarantine, mid, s', u, e);
    }
  }

  lemma {:induction false} StepOk(x: D.Abi, s: State, act: Act, s': State)
    requires Inv(x, s) && Step(x, s, act, s')
    ensures Inv(x, s')
  {
    match act
    case Alloc(b) => AllocOk(x, s, b, s');
    case Free(b, t, quarantine, mid) => FreeOk(x, s, b, t, quarantine, mid, s');
    case Write(a, v) => WriteOk(x, s, a, v, s');
  }

  // ----- Whole runs -------------------------------------------------------------------------------

  predicate Init(s: State) { H.Init(s.heap) && |s.mem| == GRANULE * |s.heap.shadow| }

  ghost predicate Stepped(x: D.Abi, ss: seq<State>, acts: seq<Act>, i: nat)
    requires |ss| == |acts| + 1 && i < |acts|
  {
    H.Inv(ss[i].heap) ==> Step(x, ss[i], acts[i], ss[i + 1])
  }

  ghost predicate Run(x: D.Abi, ss: seq<State>, acts: seq<Act>) {
    |ss| == |acts| + 1 && Init(ss[0]) && forall i :: 0 <= i < |acts| ==> Stepped(x, ss, acts, i)
  }

  lemma {:induction false} InitOk(x: D.Abi, s: State)
    requires Init(s)
    ensures Inv(x, s)
  {
    forall t | 0 <= t < H.TYPES ensures H.QueueOk(s.heap, t) && H.Accounted(s.heap.q[t]) {}
  }

  lemma {:induction false} RunOk(x: D.Abi, ss: seq<State>, acts: seq<Act>, i: nat)
    requires Run(x, ss, acts) && i < |ss|
    ensures Inv(x, ss[i])
  {
    if i == 0 {
      InitOk(x, ss[0]);
    } else {
      RunOk(x, ss, acts, i - 1);
      assert Stepped(x, ss, acts, i - 1);
      StepOk(x, ss[i - 1], acts[i - 1], ss[i]);
    }
  }

  /** kasan_check_free with the block's own size reads within memory and reports nothing. */
  ghost predicate Passes(x: D.Abi, s: State, b: H.Block) {
    var user := b.base + b.left;
    && D.HEADER <= user <= |s.mem| == GRANULE * |s.heap.shadow|
    && D.InBounds(D.HeaderAt(x, s.mem, user), user, |s.mem|)
    && D.Fault(x, s.mem, s.heap.shadow, user, b.req).None?
  }

  lemma {:induction false} LivePasses(x: D.Abi, s: State, b: H.Block)
    requires Inv(x, s) && b in s.heap.live
    ensures Passes(x, s, b)
  {
    forall g | b.base / GRANULE <= g < (b.base + b.size) / GRANULE
      ensures s.heap.shadow[g] == PoisonByte(g - b.base / GRANULE, b.req, b.left, HEAP_RZ)
    {
      assert H.ShadowOk(s.heap, g) && s.heap.tags[g] == H.Live(b);
    }
    D.IntactIsSound(x, s.mem, s.heap.shadow, b);
  }

  /** In every run in which users write only bytes they may access, every live block would pass
      the check made on free, with its own size, at any time. */
  lemma {:induction false} FreeNeverReports(x: D.Abi, ss: seq<State>, acts: seq<Act>, i: nat)
    requires Run(x, ss, acts) && i < |ss|
    ensures forall b <- ss[i].heap.live :: Passes(x, ss[i], b)
  {
    RunOk(x, ss, acts, i);
    forall b <- ss[i].heap.live ensures Passes(x, ss[i], b) {
      LivePasses(x, ss[i], b);
    }
  }

  /** And every block that leaves a quarantine has the magic, the size and the checksum it was
      given when it entered. */
  lemma {:induction false} QuarantineNeverReports(x: D.Abi, ss: seq<State>, acts: seq<Act>, i: nat)
    requires Run(x, ss, acts) && i < |acts| && acts[i].Free?
    ensures H.Inv(ss[i].heap) && Enabled(ss[i], acts[i])
    ensures var act := acts[i]; var out := Leaves(ss[i], act.b, act.t, act.quarantine);
      out.Some? ==> EntryIntact(x, act.mid, out.value, act.t)
  {
    RunOk(x, ss, acts, i);
    assert Stepped(x, ss, acts, i);
    LeavesIntact(x, ss[i], acts[i].b, acts[i].t, acts[i].quarantine, acts[i].mid, ss[i + 1]);
  }

  // ----- What is reported -------------------------------------------------------------------------

  /** A write to a block in quarantine, behind its link, is found when the block leaves, if the
      checksum tells the contents apart.  Blocks of the fake stack have no checksum. */
  lemma {:induction false} UseAfterFreeReported(x: D.Abi, mem: seq<byte>, mem': seq<byte>, e: H.Freed, t: nat, k: nat)
    requires EntryIntact(x, mem, e, t) && |mem'| == |mem| && t != 2
    requires e.base + 16 <= k < e.base + e.size && mem'[k] != mem[k]
    requires mem'[e.base + 2..e.base + 4] == mem[e.base + 2..e.base + 4]
    requires var was, now := mem[e.base + 16..e.base + e.size], mem'[e.base + 16..e.base + e.size];
      was == now || x.crc(0, was) % 0x1_0000 != x.crc(0, now) % 0x1_0000
    ensures !EntryIntact(x, mem', e, t)
  {
    D.ByteAt(mem, e.base + 16, e.base + e.size, k, []);
    D.ByteAt(mem', e.base + 16, e.base + e.size, k, []);
    OtherSum(x, mem, mem', e, t);
  }

  lemma {:induction false} OtherSum(x: D.Abi, mem: seq<byte>, mem': seq<byte>, e: H.Freed, t: nat)
    requires EntryIntact(x, mem, e, t) && |mem'| == |mem| && t != 2
    requires mem'[e.base + 2..e.base + 4] == mem[e.base + 2..e.base + 4]
    requires EntryCrc(x, mem', e.base, e.size) != EntryCrc(x, mem, e.base, e.size)
    ensures !EntryIntact(x, mem', e, t)
  {
    assert CrcAt(mem', e.base) == CrcAt(mem, e.base);
  }

  /** And so is a change of its first two bytes, which are made of its address and 0xf233. */
  lemma {:induction false} FreeMagicReported(x: D.Abi, mem: seq<byte>, mem': seq<byte>, e: H.Freed, t: nat)
    requires EntryIntact(x, mem, e, t) && |mem'| == |mem|
    ensures MagicAt(mem, e.base) == D.MagicFor(e.base, 0xf233)
    ensures mem'[e.base..e.base + 2] != mem[e.base..e.base + 2] ==> !EntryIntact(x, mem', e, t)
  {
    PutGet(mem[e.base..e.base + 2]);
    PutGet(mem'[e.base..e.base + 2]);
  }

  /** In every run, freeing anything that has a byte in a block in quarantine is reported. */
  lemma {:induction false} DoubleFreeReported(x: D.Abi, ss: seq<State>, acts: seq<Act>, i: nat, t: nat, e: H.Freed,
                                              user: nat, size: nat, a: nat)
    requires Run(x, ss, acts) && i < |ss| && t < 3 && |ss[i].heap.q| == 3 && e in ss[i].heap.q[t].list
    requires e.base <= a < e.base + e.size && user <= a < user + size
    requires D.HEADER <= user <= |ss[i].mem| == GRANULE * |ss[i].heap.shadow|
    requires var h := D.HeaderAt(x, ss[i].mem, user);
      h.magic == D.MagicFor(user, D.LIVE_XOR) ==> D.InBounds(h, user, |ss[i].mem|)
    ensures D.Fault(x, ss[i].mem, ss[i].heap.shadow, user, size).Some?
  {
    RunOk(x, ss, acts, i);
    H.TruthHeld(ss[i].heap, t, e, a);
    D.MismatchReported(x, ss[i].mem, ss[i].heap.shadow, user, size, 0, a);
  }

  // ----- What kasan_free_internal does to memory --------------------------------------------------

  /** The bit fields of an entry; the topmost four bits are not used and stay. */
  function Bits(size: nat, userSize: nat, frames: nat, unused: nat): (w: nat)
    requires size < SIZE_LIMIT && frames < 16 && unused < 16
    ensures w < 0x1_0000_0000_0000_0000 && w % SIZE_LIMIT == size
  {
    size + SIZE_LIMIT * (userSize % SIZE_LIMIT) + 0x100_0000_0000_0000 * frames + 0x1000_0000_0000_0000 * unused
  }

  lemma {:induction false} Widths()
    ensures Pow256(2) == 0x1_0000 && Pow256(8) == 0x1_0000_0000_0000_0000
  {
    assert Pow256(1) == 256;
    assert Pow256(3) == 0x100_0000;
    assert Pow256(4) == 0x1_0000_0000;
    assert Pow256(6) == 0x1_0000_0000_0000;
  }

  /** Nothing outside the range changed. */
  ghost predicate Within(mem: seq<byte>, was: seq<byte>, lo: nat, hi: nat) {
    |mem| == |was| && forall k :: 0 <= k < |was| && !(lo <= k < hi) ==> mem[k] == was[k]
  }

  /** A word is stored. */
  method StoreWord(mem: array<byte>, at: nat, w: nat, n: nat)
    requires at + n <= mem.Length && w < Pow256(n)
    modifies mem
    ensures Within(mem[..], old(mem[..]), at, at + n) && Get(mem[at..at + n]) == w
  {
    D.StoreBytes(mem, at, Put(w, n));
    GetPut(w, n);
    assert mem[at..at + n] == Put(w, n);
  }

  /** Sizes, zone and backtrace of the entry: everything its checksum covers. */
  method WriteBody(mem: array<byte>, at: nat, size: nat, userSize: nat, zone: nat, t: nat, stack: seq<nat>, slid: int)
    requires ENTRY <= size < SIZE_LIMIT && at + size <= mem.Length && zone < 0x1_0000_0000_0000_0000
    modifies mem
    ensures Within(mem[..], old(mem[..]), at + BITS, at + size) && SizeAt(mem[..], at) == size
  {
    Widths();
    var unused := Get(mem[at + BITS..at + BITS + 8]) / 0x1000_0000_0000_0000;
    StoreWord(mem, at + BITS, Bits(size, userSize, 0, unused), 8);
    StoreWord(mem, at + BITS + 8, zone, 8);
    var frames := 0;
    if t != H.FAKESTACK {
      ghost var ws;
      frames, ws := D.AllocBt(mem, at + ENTRY, size - ENTRY, 3, stack, slid);
    }
    StoreWord(mem, at + BITS, Bits(size, userSize, frames, unused), 8);
  }

  /** The entry of a block that is freed. */
  method WriteEntry(x: D.Abi, mem: array<byte>, at: nat, size: nat, userSize: nat, zone: nat, t: nat, stack: seq<nat>,
                    slid: int)
    requires ENTRY <= size < SIZE_LIMIT && at + size <= mem.Length && zone < 0x1_0000_0000_0000_0000
    modifies mem
    ensures Within(mem[..], old(mem[..]), at, at + size) && EntryIntact(x, mem[..], H.Freed(at, size), t)
  {
    Widths();
    D.MagicBound(at, FREE_XOR);
    StoreWord(mem, at, D.MagicFor(at, FREE_XOR), 2);
    ghost var magic := mem[..];
    WriteBody(mem, at, size, userSize, zone, t, stack, slid);
    SameSlice(magic, mem[..], at, at + BITS, at, at + 2);
    if t != H.FAKESTACK {
      ghost var body := mem[..];
      StoreWord(mem, at + 2, EntryCrc(x, mem[..], at, size), 2);
      SameSlice(body, mem[..], at, at + 2, at, at + 2);
      SameSlice(body, mem[..], at + 4, at + size, at + BITS, at + BITS + 8);
      SameSlice(body, mem[..], at + 4, at + size, at + BITS, at + size);
    }
  }

  /** STAILQ_INSERT_TAIL, as far as it writes to freed blocks. */
  method LinkTail(mem: array<byte>, list: seq<H.Freed>, at: nat)
    requires at + ENTRY <= mem.Length && at < 0x1_0000_0000_0000_0000
    requires list != [] ==> list[|list| - 1].base + ENTRY <= mem.Length
    modifies mem
    ensures mem.Length == |old(mem[..])|
    ensures forall k :: 0 <= k < mem.Length && !(at + LINK <= k < at + BITS) && !Links(list, k) ==>
      mem[k] == old(mem[k])
  {
    Widths();
    StoreWord(mem, at + LINK, 0, 8);
    if list != [] {
      ghost var was := mem[..];
      StoreWord(mem, list[|list| - 1].base + LINK, at, 8);
      assert forall k :: 0 <= k < mem.Length && !Links(list, k) ==> mem[k] == was[k];
    }
  }

  /** The entry at the head of a list of freed blocks has the size of its block. */
  lemma {:induction false} HeadSize(x: D.Abi, s: State, b: H.Block, t: nat, mid: seq<byte>)
    requires Inv(x, s) && b in s.heap.live && t < H.TYPES && s.heap.q[t].list != [] && FreeWrites(s.mem, mid, b, [])
    ensures var e := s.heap.q[t].list[0]; e.base + ENTRY <= |mid| && SizeAt(mid, e.base) == e.size
  {
    MidKeepsHeld(x, s, b, t, mid, [], t, s.heap.q[t].list[0]);
  }

  /** The freed block's entry, linked at the end of the list unless the block is too large for it. */
  method Enqueue(x: D.Abi, mem: array<byte>, q: H.QuarantineRecord, addr: nat, bytes: nat, userSize: nat, zone: nat,
                 t: nat, stack: seq<nat>, slid: int, ghost s: State, ghost b: H.Block)
    returns (enters: bool)
    requires Inv(x, s) && b in s.heap.live && t < H.TYPES && q.Value() == s.heap.q[t] && b.base == addr
      && b.size == bytes <= q.maxSize
    requires FreeWrites(s.mem, mem[..], b, []) && zone < 0x1_0000_0000_0000_0000 && addr < 0x1_0000_0000_0000_0000
    modifies mem
    ensures enters == H.Enters(s.heap.q[t], H.Freed(addr, bytes))
    ensures FreeWrites(s.mem, mem[..], b, s.heap.q[t].list) && EntryIntact(x, mem[..], H.Freed(addr, bytes), t)
  {
    WriteEntry(x, mem, addr, bytes, userSize, zone, t, stack, slid);
    enters := true;
    if q.size + bytes > q.maxSize {
      HeadSize(x, s, b, t, mem[..]);
      enters := bytes <= SizeAt(mem[..], q.freelist[0].base);
    }
    if enters {
      ghost var was := mem[..];
      ListInside(s.heap, t);
      LinkTail(mem, q.freelist, addr);
      FreshEntry(x, s, b, t, was, mem[..]);
    }
  }

  lemma {:induction false} ListInside(s: H.State, t: nat)
    requires H.Own(s) && t < H.TYPES
    ensures forall e <- s.q[t].list :: e.base + ENTRY <= GRANULE * |s.shadow|
  {
    assert H.QueueOk(s, t);
  }

  /** Linking it leaves the new entry intact. */
  lemma {:induction false} FreshEntry(x: D.Abi, s: State, b: H.Block, t: nat, was: seq<byte>, now: seq<byte>)
    requires Inv(x, s) && b in s.heap.live && t < H.TYPES && EntryIntact(x, was, H.Freed(b.base, b.size), t)
      && |now| == |was|
    requires forall k :: 0 <= k < |was| && !(b.base + LINK <= k < b.base + BITS) && !Links(s.heap.q[t].list, k) ==>
      now[k] == was[k]
    ensures EntryIntact(x, now, H.Freed(b.base, b.size), t)
  {
    forall k | b.base <= k < b.base + b.size && !(b.base + LINK <= k < b.base + BITS) ensures now[k] == was[k] {
      LiveTag(s.heap, b, k);
      if Links(s.heap.q[t].list, k) { LinkTag(s.heap, t, k); }
    }
    HeldKept(x, was, now, H.Freed(b.base, b.size), t);
  }

  /** The tests made on a block that leaves, and the clearing of its entry. */
  method Dequeue(x: D.Abi, mem: array<byte>, at: nat, t: nat, ghost size: nat) returns (report: bool)
    requires ENTRY <= size && at + size <= mem.Length && SizeAt(mem[..], at) == size
    modifies mem
    ensures !report <==> old(EntryIntact(x, mem[..], H.Freed(at, size), t))
    ensures Cleared(old(mem[..]), mem[..], Some(H.Freed(at, size)))
  {
    report := MagicAt(mem[..], at) != D.MagicFor(at, FREE_XOR)
      || (t != H.FAKESTACK && CrcAt(mem[..], at) != EntryCrc(x, mem[..], at, SizeAt(mem[..], at)));
    for i := 0 to ENTRY
      invariant forall k :: 0 <= k < mem.Length ==> mem[k] == if at <= k < at + i then 0 else old(mem[k])
    {
      mem[at + i] := 0;
    }
  }

  /** kasan_free_internal with its memory, for a live block whose header kasan_dealloc has cleared:
      it is the step of the runs above, and it reports nothing. */
  method FreeInternal(x: D.Abi, mem: array<byte>, shadow: array<byte>, q: H.QuarantineRecord, addr: nat, bytes: nat,
                      userSize: nat, zone: nat, t: nat, doQuarantine: bool, stack: seq<nat>, slid: int,
                      ghost s: State, ghost b: H.Block)
    returns (addr': nat, bytes': nat, report: bool, ghost mid: seq<byte>)
    requires Inv(x, s) && b in s.heap.live && t < H.TYPES && b.base == addr && b.size == bytes <= q.maxSize
    requires mem != shadow && shadow[..] == s.heap.shadow && q.Value() == s.heap.q[t]
      && FreeWrites(s.mem, mem[..], b, [])
    requires zone < 0x1_0000_0000_0000_0000 && addr < 0x1_0000_0000_0000_0000
    modifies mem, shadow, q
    ensures !report
    ensures var (heap, out) := H.DoFree(s.heap, b, t, doQuarantine);
      && Step(x, s, Free(b, t, doQuarantine, mid), State(heap, mem[..]))
      && shadow[..] == heap.shadow && q.Value() == heap.q[t]
      && (if out.Some? then addr' == out.value.base && bytes' == out.value.size else addr' == 0)
  {
    report := false;
    var enters := false;
    if doQuarantine {
      enters := Enqueue(x, mem, q, addr, bytes, userSize, zone, t, stack, slid, s, b);
    }
    mid := mem[..];
    assert H.QueueOk(s.heap, t);
    addr', bytes' := q.FreeInternal(shadow, addr, bytes, t, doQuarantine, s.heap, b);
    FreedPasses(x, s, b, t, doQuarantine, mid);
    if enters && addr' != 0 {
      report := Dequeue(x, mem, addr', t, bytes');
    }
  }

  // ----- The hooks as callers use them ------------------------------------------------------------

  /** kasan_alloc is the step of the runs above. */
  method AllocBlock(x: D.Abi, mem: array<byte>, shadow: array<byte>, b: H.Block, stack: seq<nat>, slid: int,
                    ghost s: State)
    returns (user: nat)
    requires D.AbiOk(x) && Inv(x, s) && Enabled(s, Alloc(b)) && mem != shadow && mem[..] == s.mem
      && shadow[..] == s.heap.shadow
    modifies mem, shadow
    ensures user == b.base + b.left && Step(x, s, Alloc(b), State(H.DoAlloc(s.heap, b), mem[..]))
    ensures shadow[..] == H.DoAlloc(s.heap, b).shadow
  {
    ghost var ws;
    user, ws := D.Alloc(x, mem, shadow, b.base, b.size, b.req, b.left, stack, slid);
  }

  lemma {:induction false} UserAligned(s: H.State, b: H.Block)
    requires H.Own(s) && b in s.live
    ensures (b.base + b.left) % GRANULE == 0
  {
    assert H.BlockOk(b, |s.shadow|);
  }

  method PassCheck(x: D.Abi, mem: array<byte>, shadow: array<byte>, user: nat, size: nat)
    returns (fault: Option<D.Reason>)
    requires D.AbiOk(x) && mem != shadow && D.HEADER <= user <= mem.Length == GRANULE * shadow.Length
      && user % GRANULE == 0
    requires D.InBounds(D.HeaderAt(x, mem[..], user), user, mem.Length)
    requires D.Fault(x, mem[..], shadow[..], user, size).None?
    modifies mem
    ensures fault.None? && mem[..] == old(mem[..])
  {
    fault := D.CheckFree(x, mem, shadow, user, size);
  }

  /** kasan_check_free and kasan_dealloc: nothing is reported, and only the header is written. */
  method CheckBlock(x: D.Abi, mem: array<byte>, shadow: array<byte>, user: nat, size: nat, ghost s: State,
                    ghost b: H.Block)
    returns (base: nat, full: nat, fault: Option<D.Reason>)
    requires D.AbiOk(x) && Inv(x, s) && b in s.heap.live && user == b.base + b.left && size == b.req
    requires mem != shadow && mem[..] == s.mem && shadow[..] == s.heap.shadow
    modifies mem
    ensures fault.None? && base == b.base && full == b.size && FreeWrites(s.mem, mem[..], b, [])
  {
    LivePasses(x, s, b);
    UserAligned(s.heap, b);
    fault := PassCheck(x, mem, shadow, user, size);
    base, full := DeallocBlock(x, mem, user, b);
  }

  method DeallocBlock(x: D.Abi, mem: array<byte>, user: nat, ghost b: H.Block) returns (base: nat, full: nat)
    requires D.AbiOk(x) && D.HeaderIntact(x, mem[..], b) && user == b.base + b.left
    modifies mem
    ensures base == b.base && full == b.size && FreeWrites(old(mem[..]), mem[..], b, [])
  {
    base, full := D.Dealloc(x, mem, user, b);
  }

  /** A block is checked, its allocation looked up, and given to the quarantine, as kfree does:
      no test fails, and it is the step of the runs above. */
  method FreeBlock(x: D.Abi, mem: array<byte>, shadow: array<byte>, q: H.QuarantineRecord, user: nat, size: nat,
                   zone: nat, t: nat, doQuarantine: bool, stack: seq<nat>, slid: int, ghost s: State, ghost b: H.Block)
    returns (addr': nat, bytes': nat, fault: Option<D.Reason>, report: bool, ghost mid: seq<byte>)
    requires D.AbiOk(x) && Inv(x, s) && b in s.heap.live && t < H.TYPES && user == b.base + b.left && size == b.req
    requires mem != shadow && mem[..] == s.mem && shadow[..] == s.heap.shadow
    requires q.Value() == s.heap.q[t] && b.size <= q.maxSize
    requires zone < 0x1_0000_0000_0000_0000 && b.base < 0x1_0000_0000_0000_0000
    modifies mem, shadow, q
    ensures fault.None? && !report
    ensures var (heap, out) := H.DoFree(s.heap, b, t, doQuarantine);
      && Step(x, s, Free(b, t, doQuarantine, mid), State(heap, mem[..]))
      && shadow[..] == heap.shadow && q.Value() == heap.q[t]
      && (if out.Some? then addr' == out.value.base && bytes' == out.value.size else addr' == 0)
  {
    var base, full;
    base, full, fault := CheckBlock(x, mem, shadow, user, size, s, b);
    addr', bytes', report, mid := FreeInternal(x, mem, shadow, q, base, full, size, zone, t, doQuarantine, stack,
      slid, s, b);
  }
}
