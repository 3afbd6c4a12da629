/** The page tables that map the KASan shadow (san/kasan-x86_64.c): a four-level radix tree
    whose pages come from a bump allocator and are never given back.

    A physical page is known by its page number, and holds 512 entries. */
module ShadowPages {
  const PML4_FIRST := 494
  const PML4_LAST := 495
  const ENTRIES := 512

  datatype Entry = Entry(frame: nat, valid: bool, write: bool, ps: bool, nx: bool)

  const EMPTY := Entry(0, false, false, false, false)

  type Memory = map<nat, seq<Entry>>

  /** The page or superpage that a virtual page is mapped to. */
  datatype Leaf = Absent | Super(frame: nat) | Page(frame: nat, write: bool)

  // ----- Addresses ------------------------------------------------------------------------------

  function Pml4(address: nat): nat { address / 0x80_0000_0000 % 0x200 }
  function Pdpt(address: nat): nat { address / 0x4000_0000 % 0x200 }
  function Pd(address: nat): nat { address / 0x20_0000 % 0x200 }
  function Pt(address: nat): nat { address / 0x1000 % 0x200 }

  function Split(address: nat): seq<nat> {
    [Pml4(address), Pdpt(address), Pd(address), Pt(address)]
  }

  /** An address lies in the part of the address space set aside for the shadow. */
  predicate InShadow(address: nat) {
    address / 0x1_0000_0000_0000 == 0xFFFF && PML4_FIRST <= Pml4(address) <= PML4_LAST
  }

  /** That part is one terabyte. */
  lemma {:induction false} ShadowSlots(address: nat)
    ensures InShadow(address) <==> 0xFFFF_F700_0000_0000 <= address < 0xFFFF_F800_0000_0000
  {
    HighDigits(address);
  }

  lemma {:induction false} PageDigits(address: nat)
    ensures address / 0x1000 == 512 * (address / 0x20_0000) + Pt(address)
  {
    assert address / 0x1000 / 512 == address / 0x20_0000;
  }

  lemma {:induction false} SuperpageDigits(address: nat)
    ensures address / 0x20_0000 == 512 * (address / 0x4000_0000) + Pd(address)
  {
    assert address / 0x20_0000 / 512 == address / 0x4000_0000;
  }

  lemma {:induction false} HighDigits(address: nat)
    ensures address / 0x4000_0000 == 512 * (address / 0x80_0000_0000) + Pdpt(address)
    ensures address / 0x80_0000_0000 == 512 * (address / 0x1_0000_0000_0000) + Pml4(address)
  {
    assert address / 0x4000_0000 / 512 == address / 0x80_0000_0000;
    assert address / 0x80_0000_0000 / 512 == address / 0x1_0000_0000_0000;
  }

  lemma {:induction false} Digits(address: nat)
    ensures address / 0x1000 == ((address / 0x1_0000_0000_0000 * 512 + Pml4(address)) * 512 + Pdpt(address)) * 512 * 512
                                + Pd(address) * 512 + Pt(address)
  {
    PageDigits(address);
    SuperpageDigits(address);
    HighDigits(address);
  }

  /** Two addresses of the shadow have the same indices exactly when they are on one page. */
  lemma {:induction false} SplitExact(a: nat, b: nat)
    requires InShadow(a) && InShadow(b)
    ensures Split(a) == Split(b) <==> a / 0x1000 == b / 0x1000
  {
    Digits(a);
    Digits(b);
    if Split(a) == Split(b) {
      assert Split(a)[0] == Split(b)[0] && Split(a)[1] == Split(b)[1] && Split(a)[2] == Split(b)[2]
        && Split(a)[3] == Split(b)[3];
    } else {
      PageDigits(a);
      PageDigits(b);
      SuperpageDigits(a);
      SuperpageDigits(b);
      HighDigits(a);
      HighDigits(b);
    }
  }

  // ----- Walking --------------------------------------------------------------------------------

  predicate KasanPath(q: seq<nat>) {
    |q| == 4 && PML4_FIRST <= q[0] <= PML4_LAST && q[1] < ENTRIES && q[2] < ENTRIES && q[3] < ENTRIES
  }

  function Load(mem: Memory, p: nat, i: nat): Entry {
    if p in mem && i < |mem[p]| then mem[p][i] else EMPTY
  }

  /** The page of the depth-`k` table on a path, or zero. */
  function TableAt(mem: Memory, root: nat, q: seq<nat>, k: nat): nat
    requires |q| == 4 && k <= 3
  {
    if k == 0 then root else
      var p := TableAt(mem, root, q, k - 1);
      if p == 0 then 0 else
        var e := Load(mem, p, q[k - 1]);
        if e.ps then 0 else e.frame
  }

  function Translate(mem: Memory, root: nat, q: seq<nat>): Leaf
    requires |q| == 4
  {
    var p2 := TableAt(mem, root, q, 2);
    if p2 == 0 then Absent else
      var pde := Load(mem, p2, q[2]);
      if pde.valid && pde.ps then Super(pde.frame) else
        var p3 := TableAt(mem, root, q, 3);
        if p3 == 0 then Absent else
          var pte := Load(mem, p3, q[3]);
          if pte.valid then Page(pte.frame, pte.write) else Absent
  }

  // ----- The invariant --------------------------------------------------------------------------

  /** Every page of the tree has one place in it: the path that leads there. */
  type Places = map<nat, seq<nat>>

  ghost predicate EntryOk(e: Entry, place: Places, zero: nat, path: seq<nat>, i: nat) {
    || e == EMPTY
    || (|path| == 2 && e == Entry(zero, true, false, true, true))
    || (|path| == 3 && e == Entry(zero, true, false, false, true))
    || (e.valid && e.write && !e.ps && e.nx == (|path| == 3) && e.frame in place && place[e.frame] == path + [i])
  }

  ghost predicate TableOk(mem: Memory, place: Places, zero: nat, p: nat)
    requires p in place
  {
    && p in mem && |mem[p]| == ENTRIES
    && (|place[p]| < 4 ==>
          forall i :: 0 <= i < ENTRIES && (place[p] == [] ==> PML4_FIRST <= i <= PML4_LAST)
                      ==> EntryOk(mem[p][i], place, zero, place[p], i))
  }

  ghost predicate Inv(mem: Memory, place: Places, root: nat, zero: nat, pnext: nat) {
    && root in place && place[root] == [] && zero != 0 && zero + ENTRIES <= pnext
    && (forall p <- place :: p != 0 && |place[p]| <= 4 && (p < pnext || p == root) && !(zero <= p < zero + ENTRIES))
    && (forall p <- place :: place[p] == [] ==> p == root)
    && (forall p <- place :: TableOk(mem, place, zero, p))
  }

  lemma {:induction false} TablePlace(mem: Memory, place: Places, root: nat, zero: nat, pnext: nat, q: seq<nat>, k: nat)
    requires Inv(mem, place, root, zero, pnext) && KasanPath(q) && k <= 3
    ensures var p := TableAt(mem, root, q, k); p == 0 || (p in place && place[p] == q[..k])
  {
    if k > 0 {
      TablePlace(mem, place, root, zero, pnext, q, k - 1);
      var p := TableAt(mem, root, q, k - 1);
      if p != 0 {
        assert TableOk(mem, place, zero, p);
        assert EntryOk(mem[p][q[k - 1]], place, zero, place[p], q[k - 1]);
        assert q[..k - 1] + [q[k - 1]] == q[..k];
      }
    }
  }

  /** The walk of the processor, in numbers: nine bits of the address from bit 39 select an entry of
      the root, and the next nine, from bits 30, 21 and 12, one of each table below; a directory
      entry may be a superpage.  Pages of a gigabyte are never made. */
  function HardwareWalk(mem: Memory, root: nat, address: nat): Leaf {
    var e4 := Load(mem, root, address / 0x80_0000_0000 % 512);
    var e3 := Load(mem, e4.frame, address / 0x4000_0000 % 512);
    var e2 := Load(mem, e3.frame, address / 0x20_0000 % 512);
    var e1 := Load(mem, e2.frame, address / 0x1000 % 512);
    if !e4.valid || !e3.valid || e3.ps || !e2.valid then Absent
    else if e2.ps then Super(e2.frame)
    else if e1.valid then Page(e1.frame, e1.write)
    else Absent
  }

  /** The entries on a path, level by level: each is empty, or valid and leads on. */
  lemma {:induction false} EntryOn(mem: Memory, place: Places, root: nat, zero: nat, pnext: nat, q: seq<nat>, k: nat)
    requires Inv(mem, place, root, zero, pnext) && KasanPath(q) && k <= 3 && TableAt(mem, root, q, k) != 0
    ensures var e := Load(mem, TableAt(mem, root, q, k), q[k]);
      && (e.valid <==> e.frame != 0) && (e.ps ==> e.valid && k == 2)
  {
    TablePlace(mem, place, root, zero, pnext, q, k);
    var p := TableAt(mem, root, q, k);
    assert TableOk(mem, place, zero, p);
    assert |place[p]| == k;
    assert EntryOk(mem[p][q[k]], place, zero, place[p], q[k]);
  }

  /** The processor finds for an address of the shadow what the tables hold on its path. */
  lemma {:induction false} HardwareAgrees(mem: Memory, place: Places, root: nat, zero: nat, pnext: nat, address: nat)
    requires Inv(mem, place, root, zero, pnext) && InShadow(address)
    ensures HardwareWalk(mem, root, address) == Translate(mem, root, Split(address))
  {
    var q := Split(address);
    EntryOn(mem, place, root, zero, pnext, q, 0);
    var p1 := TableAt(mem, root, q, 1);
    assert p1 == Load(mem, root, q[0]).frame;
    if p1 != 0 {
      EntryOn(mem, place, root, zero, pnext, q, 1);
      var p2 := TableAt(mem, root, q, 2);
      assert p2 == Load(mem, p1, q[1]).frame;
      if p2 != 0 {
        EntryOn(mem, place, root, zero, pnext, q, 2);
      }
    }
  }

  /** Whatever the processor finds there cannot be executed. */
  lemma {:induction false} NeverExecutable(mem: Memory, place: Places, root: nat, zero: nat, pnext: nat, address: nat)
    requires Inv(mem, place, root, zero, pnext) && InShadow(address)
    ensures var e4 := Load(mem, root, address / 0x80_0000_0000 % 512);
      var e3 := Load(mem, e4.frame, address / 0x4000_0000 % 512);
      var e2 := Load(mem, e3.frame, address / 0x20_0000 % 512);
      var e1 := Load(mem, e2.frame, address / 0x1000 % 512);
      && (HardwareWalk(mem, root, address).Super? ==> e2.nx) && (HardwareWalk(mem, root, address).Page? ==> e1.nx)
  {
    var q := Split(address);
    HardwareAgrees(mem, place, root, zero, pnext, address);
    LeafNx(mem, place, root, zero, pnext, q, 2);
    LeafNx(mem, place, root, zero, pnext, q, 3);
    PathLoads(mem, place, root, zero, pnext, q);
  }

  lemma {:induction false} LeafNx(mem: Memory, place: Places, root: nat, zero: nat, pnext: nat, q: seq<nat>, k: nat)
    requires Inv(mem, place, root, zero, pnext) && KasanPath(q) && 2 <= k <= 3
    ensures var p := TableAt(mem, root, q, k); p != 0 ==>
      var e := Load(mem, p, q[k]); e.valid && (k == 3 || e.ps) ==> e.nx
  {
    TablePlace(mem, place, root, zero, pnext, q, k);
    var p := TableAt(mem, root, q, k);
    if p != 0 {
      assert TableOk(mem, place, zero, p);
      assert |place[p]| == k;
      assert EntryOk(mem[p][q[k]], place, zero, place[p], q[k]);
    }
  }

  /** The tables on a path are those the entries name. */
  lemma {:induction false} PathLoads(mem: Memory, place: Places, root: nat, zero: nat, pnext: nat, q: seq<nat>)
    requires Inv(mem, place, root, zero, pnext) && KasanPath(q)
    ensures var e4 := Load(mem, root, q[0]);
      var e3 := Load(mem, e4.frame, q[1]);
      var e2 := Load(mem, e3.frame, q[2]);
      && TableAt(mem, root, q, 1) == e4.frame
      && (e4.frame != 0 ==> TableAt(mem, root, q, 2) == e3.frame)
      && (e4.frame != 0 && e3.frame != 0 && !e2.ps ==> TableAt(mem, root, q, 3) == e2.frame)
  {
    EntryOn(mem, place, root, zero, pnext, q, 0);
    if TableAt(mem, root, q, 1) != 0 {
      EntryOn(mem, place, root, zero, pnext, q, 1);
    }
  }

  /** No two tables share a page: the same page means the same depth and the same path to it. */
  lemma {:induction false} TablesDistinct(mem: Memory, place: Places, root: nat, zero: nat, pnext: nat,
                                          q: seq<nat>, j: nat, r: seq<nat>, k: nat)
    requires Inv(mem, place, root, zero, pnext) && KasanPath(q) && KasanPath(r) && j <= 3 && k <= 3
    requires TableAt(mem, root, q, j) == TableAt(mem, root, r, k) != 0
    ensures j == k && q[..j] == r[..k] && !(zero <= TableAt(mem, root, q, j) < zero + ENTRIES)
  {
    TablePlace(mem, place, root, zero, pnext, q, j);
    TablePlace(mem, place, root, zero, pnext, r, k);
    assert |q[..j]| == j && |r[..k]| == k;
  }

  /** No two virtual pages share a writable page, and none is one of the tables. */
  lemma {:induction false} NoSharing(mem: Memory, place: Places, root: nat, zero: nat, pnext: nat, q: seq<nat>,
                                     r: seq<nat>)
    requires Inv(mem, place, root, zero, pnext) && KasanPath(q) && KasanPath(r) && q != r
    requires Translate(mem, root, q).Page? && Translate(mem, root, q).write
    ensures Translate(mem, root, r).Page? ==> Translate(mem, root, r).frame != Translate(mem, root, q).frame
    ensures forall k :: 0 <= k <= 3 ==> TableAt(mem, root, r, k) != Translate(mem, root, q).frame
    ensures !(zero <= Translate(mem, root, q).frame < zero + ENTRIES)
  {
    LeafPlace(mem, place, root, zero, pnext, q);
    if Translate(mem, root, r).Page? {
      LeafPlace(mem, place, root, zero, pnext, r);
    }
    forall k | 0 <= k <= 3
      ensures TableAt(mem, root, r, k) != Translate(mem, root, q).frame
    {
      TablePlace(mem, place, root, zero, pnext, r, k);
    }
  }

  lemma {:induction false} LeafPlace(mem: Memory, place: Places, root: nat, zero: nat, pnext: nat, q: seq<nat>)
    requires Inv(mem, place, root, zero, pnext) && KasanPath(q) && Translate(mem, root, q).Page?
    ensures var l := Translate(mem, root, q);
      l.frame != 0 && if l.write then l.frame in place && place[l.frame] == q else l.frame == zero
  {
    TablePlace(mem, place, root, zero, pnext, q, 3);
    var p := TableAt(mem, root, q, 3);
    assert TableOk(mem, place, zero, p);
    assert EntryOk(mem[p][q[3]], place, zero, place[p], q[3]);
    assert q[..3] + [q[3]] == q;
  }

  // ----- Changing one entry ---------------------------------------------------------------------

  function Zeros(): (z: seq<Entry>)
    ensures |z| == ENTRIES && forall i :: 0 <= i < ENTRIES ==> z[i] == EMPTY
  {
    seq(ENTRIES, _ => EMPTY)
  }

  function Set(mem: Memory, p: nat, i: nat, e: Entry): Memory
    requires p in mem && i < |mem[p]|
  {
    mem[p := mem[p][i := e]]
  }

  /** The walks of two memories agree. */
  ghost predicate SameWalks(a: Memory, b: Memory, root: nat) {
    forall q {:trigger Translate(b, root, q)} :: KasanPath(q) ==> Translate(b, root, q) == Translate(a, root, q)
  }

  ghost predicate Fresh(place: Places, n: nat, pnext: nat) {
    pnext <= n && n !in place && n != 0
  }

  /** An empty entry of a table of the tree. */
  ghost predicate Vacant(mem: Memory, place: Places, p: nat, i: nat) {
    && p in place && p in mem && i < |mem[p]| && |mem[p]| == ENTRIES && mem[p][i] == EMPTY
    && (place[p] == [] ==> PML4_FIRST <= i <= PML4_LAST) && |place[p]| < 4
  }

  /** Clearing a fresh page. */
  lemma {:induction false} ClearOk(mem: Memory, place: Places, root: nat, zero: nat, pnext: nat, n: nat)
    requires Inv(mem, place, root, zero, pnext) && Fresh(place, n, pnext)
    ensures Inv(mem[n := Zeros()], place, root, zero, pnext)
  {
    forall x <- place
      ensures TableOk(mem[n := Zeros()], place, zero, x)
    {
      assert TableOk(mem, place, zero, x);
    }
  }

  lemma {:induction false} ClearTables(mem: Memory, place: Places, root: nat, zero: nat, pnext: nat, n: nat,
                                       q: seq<nat>, k: nat)
    requires Inv(mem, place, root, zero, pnext) && Fresh(place, n, pnext) && KasanPath(q) && k <= 3
    ensures TableAt(mem[n := Zeros()], root, q, k) == TableAt(mem, root, q, k)
  {
    if k > 0 {
      ClearTables(mem, place, root, zero, pnext, n, q, k - 1);
      TablePlace(mem, place, root, zero, pnext, q, k - 1);
    }
  }

  lemma {:induction false} ClearWalks(mem: Memory, place: Places, root: nat, zero: nat, pnext: nat, n: nat)
    requires Inv(mem, place, root, zero, pnext) && Fresh(place, n, pnext)
    ensures SameWalks(mem, mem[n := Zeros()], root)
  {
    forall q | KasanPath(q)
      ensures Translate(mem[n := Zeros()], root, q) == Translate(mem, root, q)
    {
      ClearTables(mem, place, root, zero, pnext, n, q, 2);
      ClearTables(mem, place, root, zero, pnext, n, q, 3);
      TablePlace(mem, place, root, zero, pnext, q, 2);
      TablePlace(mem, place, root, zero, pnext, q, 3);
    }
  }

  /** Linking a cleared page into a vacant entry. */
  lemma {:induction false} LinkOk(mem: Memory, place: Places, root: nat, zero: nat, pnext: nat, p: nat, i: nat, n: nat,
                                  nx: bool)
    requires Inv(mem, place, root, zero, pnext) && Vacant(mem, place, p, i) && Fresh(place, n, pnext)
    requires n in mem && mem[n] == Zeros() && nx == (|place[p]| == 3)
    ensures Inv(Set(mem, p, i, Entry(n, true, true, false, nx)), place[n := place[p] + [i]], root, zero, n + 1)
  {
    var m2 := Set(mem, p, i, Entry(n, true, true, false, nx));
    var pl2 := place[n := place[p] + [i]];
    forall x <- pl2
      ensures TableOk(m2, pl2, zero, x)
    {
      if x != n {
        assert TableOk(mem, place, zero, x);
      }
    }
  }

  /** Pointing a vacant page-table entry at the page of zeros. */
  lemma {:induction false} ZeroOk(mem: Memory, place: Places, root: nat, zero: nat, pnext: nat, p: nat, i: nat)
    requires Inv(mem, place, root, zero, pnext) && Vacant(mem, place, p, i) && |place[p]| == 3
    ensures Inv(Set(mem, p, i, Entry(zero, true, false, false, true)), place, root, zero, pnext)
  {
    var m2 := Set(mem, p, i, Entry(zero, true, false, false, true));
    forall x <- place
      ensures TableOk(m2, place, zero, x)
    {
      assert TableOk(mem, place, zero, x);
    }
  }

  /** A walk that does not come through the entry finds the same tables. */
  lemma {:induction false} SetTables(mem: Memory, place: Places, root: nat, zero: nat, pnext: nat, p: nat, i: nat,
                                     e: Entry, q: seq<nat>, k: nat)
    requires Inv(mem, place, root, zero, pnext) && Vacant(mem, place, p, i) && KasanPath(q) && k <= 3
    requires k <= |place[p]| || TableAt(mem, root, q, |place[p]|) != p || q[|place[p]|] != i
    ensures TableAt(Set(mem, p, i, e), root, q, k) == TableAt(mem, root, q, k)
  {
    if k > 0 {
      SetTables(mem, place, root, zero, pnext, p, i, e, q, k - 1);
      TablePlace(mem, place, root, zero, pnext, q, k - 1);
    }
  }

  lemma {:induction false} SetElsewhere(mem: Memory, place: Places, root: nat, zero: nat, pnext: nat, p: nat, i: nat,
                                        e: Entry, q: seq<nat>)
    requires Inv(mem, place, root, zero, pnext) && Vacant(mem, place, p, i) && KasanPath(q)
    requires TableAt(mem, root, q, |place[p]|) != p || q[|place[p]|] != i
    ensures Translate(Set(mem, p, i, e), root, q) == Translate(mem, root, q)
  {
    SetTables(mem, place, root, zero, pnext, p, i, e, q, 2);
    SetTables(mem, place, root, zero, pnext, p, i, e, q, 3);
    TablePlace(mem, place, root, zero, pnext, q, 2);
    TablePlace(mem, place, root, zero, pnext, q, 3);
  }

  /** Below an entry with nothing in it there is no translation. */
  lemma {:induction false} NothingBelow(mem: Memory, root: nat, q: seq<nat>, k: nat)
    requires |q| == 4 && k < 3 && (TableAt(mem, root, q, k) == 0 || Load(mem, TableAt(mem, root, q, k), q[k]) == EMPTY)
    ensures TableAt(mem, root, q, k + 1) == 0 && Translate(mem, root, q) == Absent
  {
    if k == 0 {
      assert TableAt(mem, root, q, 1) == 0;
    }
    assert k <= 1 ==> TableAt(mem, root, q, 2) == 0;
  }

  /** A new, empty table changes no translation. */
  lemma {:induction false} LinkWalk(mem: Memory, place: Places, root: nat, zero: nat, pnext: nat, p: nat, i: nat,
                                    n: nat, q: seq<nat>)
    requires Inv(mem, place, root, zero, pnext) && Vacant(mem, place, p, i) && Fresh(place, n, pnext)
    requires n in mem && mem[n] == Zeros() && |place[p]| < 3 && KasanPath(q)
    ensures Translate(Set(mem, p, i, Entry(n, true, true, false, false)), root, q) == Translate(mem, root, q)
    ensures TableAt(mem, root, q, |place[p]|) == p && q[|place[p]|] == i ==>
              TableAt(Set(mem, p, i, Entry(n, true, true, false, false)), root, q, |place[p]| + 1) == n
  {
    var e := Entry(n, true, true, false, false);
    var d := |place[p]|;
    if TableAt(mem, root, q, d) != p || q[d] != i {
      SetElsewhere(mem, place, root, zero, pnext, p, i, e, q);
    } else {
      SetTables(mem, place, root, zero, pnext, p, i, e, q, d);
      NothingBelow(mem, root, q, d);
      var m2 := Set(mem, p, i, e);
      assert TableAt(m2, root, q, d + 1) == n;
      assert Load(m2, n, q[d + 1]) == EMPTY;
      if d + 1 < 3 {
        NothingBelow(m2, root, q, d + 1);
      }
    }
  }

  /** A new page-table entry changes one translation. */
  lemma {:induction false} LeafWalk(mem: Memory, place: Places, root: nat, zero: nat, pnext: nat, p: nat, i: nat,
                                    e: Entry, q: seq<nat>, r: seq<nat>)
    requires Inv(mem, place, root, zero, pnext) && Vacant(mem, place, p, i) && e.valid
    requires KasanPath(q) && KasanPath(r) && |place[p]| == 3 && TableAt(mem, root, q, 3) == p && q[3] == i
    ensures Translate(Set(mem, p, i, e), root, r) == if r == q then Page(e.frame, e.write) else Translate(mem, root, r)
    ensures Translate(mem, root, q) == Absent
  {
    SetTables(mem, place, root, zero, pnext, p, i, e, r, 3);
    SetTables(mem, place, root, zero, pnext, p, i, e, r, 2);
    TablePlace(mem, place, root, zero, pnext, r, 2);
    TablePlace(mem, place, root, zero, pnext, q, 2);
    TablePlace(mem, place, root, zero, pnext, q, 3);
    if TableAt(mem, root, r, 3) == p && r[3] == i {
      TablePlace(mem, place, root, zero, pnext, r, 3);
      assert r == r[..3] + [r[3]] && q == q[..3] + [q[3]];
    } else {
      SetElsewhere(mem, place, root, zero, pnext, p, i, e, r);
    }
  }

  /** Pointing a vacant directory entry at the superpage of zeros. */
  lemma {:induction false} SuperOk(mem: Memory, place: Places, root: nat, zero: nat, pnext: nat, p: nat, i: nat)
    requires Inv(mem, place, root, zero, pnext) && Vacant(mem, place, p, i) && |place[p]| == 2
    ensures Inv(Set(mem, p, i, Entry(zero, true, false, true, true)), place, root, zero, pnext)
  {
    var m2 := Set(mem, p, i, Entry(zero, true, false, true, true));
    forall x <- place
      ensures TableOk(m2, place, zero, x)
    {
      assert TableOk(mem, place, zero, x);
    }
  }

  /** A new directory entry changes the translations of one superpage. */
  lemma {:induction false} SuperWalk(mem: Memory, place: Places, root: nat, zero: nat, pnext: nat, p: nat, i: nat,
                                     q: seq<nat>, r: seq<nat>)
    requires Inv(mem, place, root, zero, pnext) && Vacant(mem, place, p, i)
    requires KasanPath(q) && KasanPath(r) && |place[p]| == 2 && TableAt(mem, root, q, 2) == p && q[2] == i
    ensures Translate(Set(mem, p, i, Entry(zero, true, false, true, true)), root, r)
         == if r[..3] == q[..3] then Super(zero) else Translate(mem, root, r)
    ensures r[..3] == q[..3] ==> Translate(mem, root, r) == Absent
  {
    var e := Entry(zero, true, false, true, true);
    TablePlace(mem, place, root, zero, pnext, q, 2);
    SetTables(mem, place, root, zero, pnext, p, i, e, r, 2);
    if TableAt(mem, root, r, 2) == p && r[2] == i {
      TablePlace(mem, place, root, zero, pnext, r, 2);
      assert r[..3] == r[..2] + [r[2]] && q[..3] == q[..2] + [q[2]];
      NothingBelow(mem, root, r, 2);
    } else {
      if r[..3] == q[..3] {
        SamePrefix(mem, root, q, r);
      }
      SetElsewhere(mem, place, root, zero, pnext, p, i, e, r);
    }
  }

  lemma {:induction false} SamePrefix(mem: Memory, root: nat, q: seq<nat>, r: seq<nat>)
    requires |q| == |r| == 4 && q[..3] == r[..3]
    ensures q[0] == r[0] && q[1] == r[1] && q[2] == r[2]
    ensures TableAt(mem, root, q, 2) == TableAt(mem, root, r, 2)
  {
    assert q[0] == q[..3][0] && q[1] == q[..3][1] && q[2] == q[..3][2];
    assert TableAt(mem, root, q, 1) == TableAt(mem, root, r, 1);
  }

  // ----- The range to map -----------------------------------------------------------------------

  const PAGE := 0x1000
  const KASAN_OFFSET := 0xdfff_f800_0000_0000

  function Shadow(address: nat): nat { address / 8 + KASAN_OFFSET }
  function TruncPage(address: nat): nat { address / PAGE * PAGE }
  function RoundPage(address: nat): nat { (address + PAGE - 1) / PAGE * PAGE }
  function ShadowBase(address: nat): nat { TruncPage(Shadow(address)) }

  /** Addresses and sizes are 64-bit words: rounding the size up and adding it may wrap. */
  const WORD := 0x1_0000_0000_0000_0000

  function GranuleRound(size: nat): nat { (size + 7) % WORD / 8 * 8 }
  function ShadowTop(address: nat, size: nat): nat { RoundPage(Shadow((address + GranuleRound(size)) % WORD)) }

  /** The end of the range, with its size rounded up to granules and no wrapping. */
  function RoundedEnd(address: nat, size: nat): nat { address + (size + 7) / 8 * 8 }

  /** The range does not end in the topmost granule of the address space, and it is aligned to
      granules or does not run on into a granule whose shadow starts a page. */
  predicate Covered(address: nat, size: nat) {
    || size == 0
    || (RoundedEnd(address, size) < WORD
        && (address % 8 == 0 || Shadow(RoundedEnd(address, size)) % PAGE != 0
            || (address + size - 1) / 8 < RoundedEnd(address, size) / 8))
  }

  /** The pages from base to top hold the shadow of every byte of a range exactly when it is
      covered; otherwise its last byte is left out. */
  lemma {:induction false} CoverExact(address: nat, size: nat)
    requires address + size <= WORD
    ensures (forall b :: address <= b < address + size ==> ShadowBase(address) <= Shadow(b) < ShadowTop(address, size))
       <==> Covered(address, size)
    ensures !Covered(address, size) ==> ShadowTop(address, size) <= Shadow(address + size - 1)
  {
    if size > 0 {
      var last := address + size - 1;
      assert forall b :: address <= b <= last ==> Shadow(address) <= Shadow(b) <= Shadow(last);
      assert ShadowBase(address) <= Shadow(address);
      if RoundedEnd(address, size) < WORD {
        NoWrap(address, size);
        TopExact(address, size);
      } else {
        TopWraps(address, size);
      }
    }
  }

  lemma {:induction false} NoWrap(address: nat, size: nat)
    requires RoundedEnd(address, size) < WORD
    ensures ShadowTop(address, size) == RoundPage(Shadow(RoundedEnd(address, size)))
  {
    var q := (size + 7) / 8;
    assert 8 * q < WORD && size + 7 < 8 * q + 8;
    assert size + 7 < WORD;
    Fits(size + 7);
    Fits(RoundedEnd(address, size));
  }

  lemma {:induction false} Fits(x: nat)
    requires x < WORD
    ensures x % WORD == x
  {
  }

  lemma {:induction false} TopWraps(address: nat, size: nat)
    requires 0 < size && address + size <= WORD <= RoundedEnd(address, size)
    ensures ShadowTop(address, size) == KASAN_OFFSET <= Shadow(address + size - 1)
  {
    assert (address + GranuleRound(size)) % WORD < 8;
  }

  lemma {:induction false} TopExact(address: nat, size: nat)
    requires size > 0
    ensures Shadow(address + size - 1) < RoundPage(Shadow(RoundedEnd(address, size)))
       <==> || address % 8 == 0 || Shadow(RoundedEnd(address, size)) % PAGE != 0
            || (address + size - 1) / 8 < RoundedEnd(address, size) / 8
  {
    var end := RoundedEnd(address, size);
    RoundUp(Shadow(end));
    assert address + size <= end < address + size + 8;
    assert (address + size - 1) / 8 <= end / 8;
    if address % 8 == 0 {
      assert end % 8 == 0;
      assert (address + size - 1) / 8 < end / 8;
    }
  }

  predicate Aligned(address: nat) { address % PAGE == 0 }

  lemma {:induction false} NextPage(base: nat, hi: nat)
    requires Aligned(base) && Aligned(hi) && base < hi
    ensures Aligned(base + PAGE) && base + PAGE <= hi
  {
  }

  /** A range that straddles two granules but is shorter than one: the second granule's
      shadow is on a page that is not among those mapped. */
  lemma {:induction false} StraddlingMissed()
    ensures var address := 0xFFFF_FF80_0000_7FFF;
      Shadow(address + 1) == ShadowTop(address, 2) && ShadowBase(address) < ShadowTop(address, 2)
  {
    assert GranuleRound(2) == 8;
    NoWrap(0xFFFF_FF80_0000_7FFF, 2);
  }

  /** The topmost page of the address space, which is aligned: its end wraps to zero, and no page
      is mapped. */
  lemma {:induction false} TopmostMissed()
    ensures var address := 0xFFFF_FFFF_FFFF_F000;
      ShadowTop(address, 0x1000) == KASAN_OFFSET < ShadowBase(address)
  {
    TopWraps(0xFFFF_FFFF_FFFF_F000, 0x1000);
  }

  lemma {:induction false} RoundUp(t: nat)
    ensures t <= RoundPage(t) && (RoundPage(t) == t <==> t % PAGE == 0)
  {
  }

  /** A superpage of shadow stands for sixteen megabytes of memory. */
  const SUPER := 0x20_0000
  const SPAN := 0x100_0000

  function TruncSuper(address: nat): nat { address / SUPER * SUPER }
  function RoundSuper(size: nat): nat { (size + SUPER - 1) / SUPER * SUPER }

  /** The first shadow superpage of a range, and how many are mapped for it. */
  function FirstSuper(address: nat): nat { Shadow(TruncSuper(address)) / SUPER }
  function Supers(size: nat): nat { (RoundSuper(size) + SPAN - 1) / SPAN }

  /** Each superpage mapped is the one after the last. */
  lemma {:induction false} SuperAt(address: nat, k: nat)
    ensures Shadow(TruncSuper(address) + SPAN * k) / SUPER == FirstSuper(address) + k
  {
    assert (TruncSuper(address) + SPAN * k) / 8 == TruncSuper(address) / 8 + SUPER * k;
  }

  lemma {:induction false} SuperOf(m: nat)
    ensures Shadow(m) / SUPER == m / SPAN + KASAN_OFFSET / SUPER
  {
    assert KASAN_OFFSET == KASAN_OFFSET / SUPER * SUPER;
    assert m / 8 / SUPER == m / SPAN;
  }

  /** Counted from the sixteen megabytes it starts in, the range reaches no further than the
      superpages that are mapped for its size. */
  predicate SuperCovered(address: nat, size: nat) {
    size == 0 || address % SPAN + size <= SPAN * Supers(size)
  }

  /** A range of four megabytes across a boundary: one superpage of shadow is mapped, and its last
      byte needs the next. */
  lemma {:induction false} SuperMissed()
    ensures var address, size := 0xFFFF_FF90_00E0_0000, 0x40_0000;
      !SuperCovered(address, size) && Supers(size) == 1 && Shadow(address + size - 1) / SUPER == FirstSuper(address) + 1
  {
    SuperOf(0xFFFF_FF90_00E0_0000);
    SuperOf(0xFFFF_FF90_011F_FFFF);
  }

  /** The superpages mapped hold the shadow of every byte of a range exactly when it is so covered;
      otherwise its last byte is left out. */
  lemma {:induction false} SuperCoverExact(address: nat, size: nat)
    ensures (forall b :: address <= b < address + size ==>
               FirstSuper(address) <= Shadow(b) / SUPER < FirstSuper(address) + Supers(size))
       <==> SuperCovered(address, size)
    ensures !SuperCovered(address, size) ==> FirstSuper(address) + Supers(size) <= Shadow(address + size - 1) / SUPER
  {
    FirstOf(address);
    if size > 0 {
      var last := address + size - 1;
      LastSpan(address, size, Supers(size));
      SuperOf(last);
      forall b | address <= b < address + size
        ensures FirstSuper(address) <= Shadow(b) / SUPER <= Shadow(last) / SUPER
      {
        SuperOf(b);
        SpanOrder(address, b);
        SpanOrder(b, last);
      }
    }
  }

  lemma {:induction false} SpanOrder(a: nat, b: nat)
    requires a <= b
    ensures a / SPAN <= b / SPAN
  {
  }

  lemma {:induction false} FirstOf(address: nat)
    ensures FirstSuper(address) == address / SPAN + KASAN_OFFSET / SUPER
  {
    SuperOf(TruncSuper(address));
    TruncSpan(address / SUPER);
    SpanOf(address);
  }

  lemma {:induction false} SpanOf(address: nat)
    ensures address / SUPER / 8 == address / SPAN
  {
  }

  lemma {:induction false} TruncSpan(k: nat)
    ensures k * SUPER / SPAN == k / 8
  {
    var q, r := k / 8, k % 8;
    assert k * SUPER == q * SPAN + r * SUPER;
  }

  lemma {:induction false} LastSpan(address: nat, size: nat, n: nat)
    requires size > 0
    ensures (address + size - 1) / SPAN < address / SPAN + n <==> address % SPAN + size <= SPAN * n
  {
    assert address + size - 1 == SPAN * (address / SPAN) + (address % SPAN + size - 1);
    assert (address + size - 1) / SPAN == address / SPAN + (address % SPAN + size - 1) / SPAN;
  }

  /** The processor finds the shadow of a byte of memory. */
  ghost predicate Reached(mem: Memory, root: nat, b: nat) {
    HardwareWalk(mem, root, b / 8 + 0xdfff_f800_0000_0000) != Absent
  }

  ghost predicate ReadsZero(mem: Memory, root: nat, zero: nat, b: nat) {
    HardwareWalk(mem, root, b / 8 + 0xdfff_f800_0000_0000) == Super(zero)
  }

  /** Outside a range of the shadow the processor finds what it did. */
  ghost predicate WalksKept(a: Memory, b: Memory, root: nat, lo: nat, hi: nat) {
    forall x: nat {:trigger InShadow(x)} :: InShadow(x) && !(lo <= x < hi) ==>
      HardwareWalk(b, root, x) == HardwareWalk(a, root, x)
  }

  lemma {:induction false} AllReached(mem: Memory, place: Places, root: nat, zero: nat, pnext: nat, address: nat,
                                      size: nat)
    requires Inv(mem, place, root, zero, pnext) && address + size <= WORD && Covered(address, size)
    requires forall x {:trigger InShadow(x)} :: ShadowBase(address) <= x < ShadowTop(address, size) ==> InShadow(x)
    requires forall b :: address <= b < address + size ==> Translate(mem, root, Split(Shadow(b))) != Absent
    ensures forall b: nat :: address <= b < address + size ==> Reached(mem, root, b)
  {
    CoverExact(address, size);
    forall b: nat | address <= b < address + size ensures Reached(mem, root, b) {
      assert InShadow(Shadow(b));
      HardwareAgrees(mem, place, root, zero, pnext, Shadow(b));
    }
  }

  lemma {:induction false} RestKept(a: Memory, from: Places, was: nat, b: Memory, to: Places, now: nat, root: nat,
                                    zero: nat, lo: nat, hi: nat, isZero: bool)
    requires Inv(a, from, root, zero, was) && Inv(b, to, root, zero, now)
    requires RangeMapped(a, b, root, lo, hi, isZero, zero, was)
    ensures WalksKept(a, b, root, lo, hi)
  {
    forall x: nat | InShadow(x) && !(lo <= x < hi)
      ensures HardwareWalk(b, root, x) == HardwareWalk(a, root, x)
    {
      HardwareAgrees(a, from, root, zero, was, x);
      HardwareAgrees(b, to, root, zero, now, x);
      assert AddressMapped(a, b, root, lo, hi, isZero, zero, was, x);
    }
  }

  lemma {:induction false} AllReadZero(mem: Memory, place: Places, root: nat, zero: nat, pnext: nat, address: nat,
                                       size: nat)
    requires Inv(mem, place, root, zero, pnext) && SuperCovered(address, size)
    requires forall x {:trigger InShadow(x)} ::
      FirstSuper(address) <= x / SUPER < FirstSuper(address) + Supers(size) ==> InShadow(x)
    requires forall b :: address <= b < address + size ==> Translate(mem, root, Split(Shadow(b))) == Super(zero)
    ensures forall b: nat :: address <= b < address + size ==> ReadsZero(mem, root, zero, b)
  {
    SuperCoverExact(address, size);
    forall b: nat | address <= b < address + size ensures ReadsZero(mem, root, zero, b) {
      assert InShadow(Shadow(b));
      HardwareAgrees(mem, place, root, zero, pnext, Shadow(b));
    }
  }

  // ----- The tables in memory -------------------------------------------------------------------

  class PageTables {
    var mem: Memory
    var pnext: nat
    var used: nat
    const ptop: nat
    const root: nat
    const zero: nat
    ghost var place: Places

    ghost predicate Valid()
      reads this
    {
      Inv(mem, place, root, zero, pnext) && (root < pnext || ptop <= root)
    }

    /** The tables once the superpage of zeros is set aside: nothing is mapped. */
    constructor (ptop: nat, root: nat, zero: nat, pml4: seq<Entry>)
      requires root != 0 && zero != 0 && (root < zero || (zero + ENTRIES <= root && ptop <= root))
      requires |pml4| == ENTRIES && pml4[PML4_FIRST] == EMPTY && pml4[PML4_LAST] == EMPTY
      ensures Valid() && used == 512 && pnext == zero + 512
      ensures forall q {:trigger Translate(mem, root, q)} :: KasanPath(q) ==> Translate(mem, root, q) == Absent
    {
      this.ptop, this.root, this.zero := ptop, root, zero;
      mem, pnext, used, place := map[root := pml4], zero + ENTRIES, ENTRIES, map[root := []];
      new;
      forall q | KasanPath(q)
        ensures Translate(mem, root, q) == Absent
      {
        NothingBelow(mem, root, q, 0);
      }
    }

    /** Takes the next page of the reserved memory and clears it; false is the panic. */
    method AllocPageZero() returns (ok: bool, n: nat)
      requires Valid()
      modifies this
      ensures ok <==> old(pnext) + 1 < ptop
      ensures !ok ==> mem == old(mem) && pnext == old(pnext) && used == old(used)
      ensures ok ==> n == old(pnext) && pnext == n + 1 && used == old(used) + 1 && mem == old(mem)[n := Zeros()]
      ensures ok ==> Fresh(place, n, old(pnext)) && Inv(mem, place, root, zero, old(pnext))
      ensures SameWalks(old(mem), mem, root) && place == old(place) && Kept(old(mem), mem, old(place), place)
    {
      n := pnext;
      if pnext + 1 >= ptop {
        return false, n;
      }
      ClearOk(mem, place, root, zero, pnext, n);
      ClearWalks(mem, place, root, zero, pnext, n);
      pnext := pnext + 1;
      used := used + 1;
      mem := mem[n := Zeros()];
      ok := true;
    }

    /** The table below entry `q[k]` of table `p`, made if need be. */
    method Descend(q: seq<nat>, k: nat, p: nat) returns (ok: bool, child: nat)
      requires Valid() && KasanPath(q) && k < 3 && p == TableAt(mem, root, q, k) != 0 && !Load(mem, p, q[k]).ps
      modifies this
      ensures ok ==> Valid() && child == TableAt(mem, root, q, k + 1) != 0 && SameWalks(old(mem), mem, root)
      ensures ok ==> Kept(old(mem), mem, old(place), place)
      ensures ok ==> old(pnext) <= pnext && pnext - old(pnext) == used - old(used)
      ensures !ok ==> ptop <= pnext + 1
    {
      TablePlace(mem, place, root, zero, pnext, q, k);
      assert TableOk(mem, place, zero, p);
      assert EntryOk(mem[p][q[k]], place, zero, place[p], q[k]);
      child := mem[p][q[k]].frame;
      if child == 0 {
        ghost var mem0, pnext0 := mem, pnext;
        ok, child := AllocPageZero();
        if !ok {
          return;
        }
        ClearTables(mem0, place, root, zero, pnext0, child, q, k);
        Link(q, k, p, child);
      }
      ok := true;
    }

    method Link(q: seq<nat>, k: nat, p: nat, n: nat)
      requires Inv(mem, place, root, zero, n) && Fresh(place, n, n) && pnext == n + 1 && n in mem && mem[n] == Zeros()
      requires root < pnext || ptop <= root
      requires KasanPath(q) && k < 3 && p == TableAt(mem, root, q, k) != 0 && p in mem && Load(mem, p, q[k]) == EMPTY
      modifies this`mem, this`place
      ensures Valid() && TableAt(mem, root, q, k + 1) == n && SameWalks(old(mem), mem, root)
      ensures Kept(old(mem), mem, old(place), place)
    {
      TablePlace(mem, place, root, zero, n, q, k);
      assert TableOk(mem, place, zero, p);
      LinkOk(mem, place, root, zero, n, p, q[k], n, false);
      forall r | KasanPath(r)
        ensures Translate(Set(mem, p, q[k], Entry(n, true, true, false, false)), root, r) == Translate(mem, root, r)
      {
        LinkWalk(mem, place, root, zero, n, p, q[k], n, r);
      }
      LinkWalk(mem, place, root, zero, n, p, q[k], n, q);
      place := place[n := place[p] + [q[k]]];
      mem := Set(mem, p, q[k], Entry(n, true, true, false, false));
    }

    /** Maps one page of the shadow, unless it is mapped. */
    method MapPage(q: seq<nat>, isZero: bool) returns (ok: bool)
      requires Valid() && KasanPath(q)
      modifies this
      ensures ok ==> Valid() && PageMapped(old(mem), mem, root, q, isZero, zero, old(pnext))
      ensures ok ==> Kept(old(mem), mem, old(place), place)
      ensures ok ==> old(pnext) <= pnext && pnext - old(pnext) == used - old(used)
      ensures !ok ==> ptop <= pnext + 1
    {
      ghost var mem0, pnext0 := mem, pnext;
      TablePlace(mem, place, root, zero, pnext, q, 0);
      TopNotSuper(mem, place, root, zero, pnext, q, 0);
      var ok3, l3 := Descend(q, 0, root);
      if !ok3 {
        return false;
      }
      TopNotSuper(mem, place, root, zero, pnext, q, 1);
      var ok2, l2 := Descend(q, 1, l3);
      if !ok2 {
        return false;
      }
      TablePlace(mem, place, root, zero, pnext, q, 2);
      assert TableOk(mem, place, zero, l2);
      var pde := mem[l2][q[2]];
      if pde.valid && pde.ps {
        return true;
      }
      assert EntryOk(pde, place, zero, place[l2], q[2]);
      var ok1, l1 := Descend(q, 2, l2);
      if !ok1 {
        return false;
      }
      ok := MapLeaf(q, l1, isZero);
    }

    method MapLeaf(q: seq<nat>, l1: nat, isZero: bool) returns (ok: bool)
      requires Valid() && KasanPath(q) && l1 == TableAt(mem, root, q, 3) != 0
      modifies this
      ensures ok ==> Valid() && PageMapped(old(mem), mem, root, q, isZero, zero, old(pnext))
      ensures ok ==> Kept(old(mem), mem, old(place), place)
      ensures ok ==> old(pnext) <= pnext && pnext - old(pnext) == used - old(used)
      ensures !ok ==> ptop <= pnext + 1
    {
      TablePlace(mem, place, root, zero, pnext, q, 3);
      assert TableOk(mem, place, zero, l1);
      assert EntryOk(mem[l1][q[3]], place, zero, place[l1], q[3]);
      if mem[l1][q[3]].frame != 0 {
        return true;
      }
      if isZero {
        SetLeaf(q, l1, Entry(zero, true, false, false, true));
      } else {
        ghost var mem0, pnext0 := mem, pnext;
        var n;
        ok, n := AllocPageZero();
        if !ok {
          return;
        }
        ClearTables(mem0, place, root, zero, pnext0, n, q, 3);
        SetLeaf(q, l1, Entry(n, true, true, false, true));
      }
      ok := true;
    }

    /** Maps the shadow of a range of memory, page by page; false is the panic for want of
        memory.  Every page from base to top that had no translation gets one of the kind asked
        for, and every other translation is as before.  So every byte has its shadow mapped if
        the range is covered, and if it is not, the last one has not, unless it had before. */
    method MapShadow(address: nat, size: nat, isZero: bool) returns (ok: bool)
      requires Valid() && address + size <= WORD
      requires forall x {:trigger InShadow(x)} :: ShadowBase(address) <= x < ShadowTop(address, size) ==> InShadow(x)
      modifies this
      ensures ok ==> Valid()
      ensures ok ==> RangeMapped(old(mem), mem, root, ShadowBase(address), ShadowTop(address, size), isZero, zero,
        old(pnext))
      ensures ok && Covered(address, size) ==>
        forall b :: address <= b < address + size ==> Translate(mem, root, Split(Shadow(b))) != Absent
      ensures ok && !Covered(address, size) ==> var last := Shadow(address + size - 1);
        InShadow(last) ==> Translate(mem, root, Split(last)) == Translate(old(mem), root, Split(last))
      ensures ok && Covered(address, size) ==> forall b: nat :: address <= b < address + size ==> Reached(mem, root, b)
      ensures ok ==> WalksKept(old(mem), mem, root, ShadowBase(address), ShadowTop(address, size))
      ensures ok ==> pnext - old(pnext) == used - old(used)
      ensures !ok ==> ptop <= pnext + 1
    {
      ghost var mem0, pnext0 := mem, pnext;
      ghost var place0 := place;
      BaseTop(address, size);
      ok := MapPages(ShadowBase(address), ShadowTop(address, size), isZero);
      if ok {
        AllMapped(mem0, mem, root, address, size, isZero, zero, pnext0);
        if Covered(address, size) {
          AllReached(mem, place, root, zero, pnext, address, size);
        }
        RestKept(mem0, place0, pnext0, mem, place, pnext, root, zero, ShadowBase(address), ShadowTop(address, size),
          isZero);
      }
    }

    method MapPages(lo: nat, hi: nat, isZero: bool) returns (ok: bool)
      requires Valid() && Aligned(lo) && Aligned(hi)
      requires forall x {:trigger InShadow(x)} :: lo <= x < hi ==> InShadow(x)
      modifies this
      ensures ok ==> Valid() && RangeMapped(old(mem), mem, root, lo, hi, isZero, zero, old(pnext))
      ensures ok ==> pnext - old(pnext) == used - old(used)
      ensures !ok ==> ptop <= pnext + 1
    {
      var base := lo;
      while base < hi
        invariant Valid() && lo <= base && (base <= hi || base == lo) && Aligned(base)
        invariant RangeMapped(old(mem), mem, root, lo, base, isZero, zero, old(pnext))
        invariant old(pnext) <= pnext && pnext - old(pnext) == used - old(used)
      {
        NextPage(base, hi);
        assert InShadow(base);
        ghost var mem1, pnext1, place1 := mem, pnext, place;
        ok := MapPage(Split(base), isZero);
        if !ok {
          return;
        }
        RangeGrows(old(mem), mem1, mem, place1, place, root, lo, base, isZero, zero, old(pnext), pnext1);
        base := base + PAGE;
      }
      ok := true;
      if hi < base {
        NoRange(old(mem), mem, root, lo, hi, isZero, zero, old(pnext));
      }
    }

    /** Maps one superpage of shadow to zeros; a mapping that is already there is a panic. */
    method MapSuper(q: seq<nat>) returns (ok: bool)
      requires Valid() && KasanPath(q)
      modifies this
      ensures ok ==> Valid() && old(pnext) <= pnext
      ensures ok ==> SuperSet(old(mem), mem, root, q, zero)
    {
      TablePlace(mem, place, root, zero, pnext, q, 0);
      TopNotSuper(mem, place, root, zero, pnext, q, 0);
      var ok3, l3 := Descend(q, 0, root);
      if !ok3 {
        return false;
      }
      ghost var mem1 := mem;
      TopNotSuper(mem, place, root, zero, pnext, q, 1);
      var ok2, l2 := Descend(q, 1, l3);
      if !ok2 {
        return false;
      }
      ghost var mem2 := mem;
      ok := SetSuper(q, l2);
      if ok {
        SuperAfter(old(mem), mem1, mem2, mem, root, q, zero);
      }
    }

    method SetSuper(q: seq<nat>, l2: nat) returns (ok: bool)
      requires Valid() && KasanPath(q) && l2 == TableAt(mem, root, q, 2) != 0
      modifies this`mem
      ensures ok ==> Valid()
      ensures ok ==> SuperSet(old(mem), mem, root, q, zero)
    {
      TablePlace(mem, place, root, zero, pnext, q, 2);
      assert TableOk(mem, place, zero, l2);
      assert EntryOk(mem[l2][q[2]], place, zero, place[l2], q[2]);
      if mem[l2][q[2]].frame != 0 {
        return false;
      }
      SuperOk(mem, place, root, zero, pnext, l2, q[2]);
      forall r | KasanPath(r)
        ensures Translate(Set(mem, l2, q[2], Entry(zero, true, false, true, true)), root, r)
             == (if r[..3] == q[..3] then Super(zero) else Translate(mem, root, r))
        ensures r[..3] == q[..3] ==> Translate(mem, root, r) == Absent
      {
        SuperWalk(mem, place, root, zero, pnext, l2, q[2], q, r);
      }
      mem := Set(mem, l2, q[2], Entry(zero, true, false, true, true));
      ok := true;
    }

    /** Maps the shadow of a range to the superpage of zeros, one superpage of shadow for every
        sixteen megabytes; nothing of it may be mapped already. */
    method MapSuperpageZero(address: nat, size: nat) returns (ok: bool)
      requires Valid() && address + size <= WORD && size + SUPER <= WORD
      requires forall x {:trigger InShadow(x)} ::
        FirstSuper(address) <= x / SUPER < FirstSuper(address) + Supers(size) ==> InShadow(x)
      modifies this
      ensures ok ==> Valid() && SupersMapped(old(mem), mem, root, FirstSuper(address), Supers(size), zero)
      ensures ok && SuperCovered(address, size) ==>
        forall b :: address <= b < address + size ==> Translate(mem, root, Split(Shadow(b))) == Super(zero)
      ensures ok && !SuperCovered(address, size) ==> var last := Shadow(address + size - 1);
        InShadow(last) ==> Translate(mem, root, Split(last)) == Translate(old(mem), root, Split(last))
      ensures ok && SuperCovered(address, size) ==>
        forall b: nat :: address <= b < address + size ==> ReadsZero(mem, root, zero, b)
    {
      var a, n := TruncSuper(address), RoundSuper(size);
      var j := 0;
      ghost var k := 0;
      while j < n
        invariant j == SPAN * k && k <= Supers(size) && (j < n ==> k < Supers(size))
        invariant Valid() && SupersMapped(old(mem), mem, root, FirstSuper(address), k, zero)
      {
        var target := Shadow(a + j);
        SuperAt(address, k);
        assert InShadow(target);
        ghost var mem1 := mem;
        ok := MapSuper(Split(target));
        if !ok {
          return;
        }
        SupersGrow(old(mem), mem1, mem, root, FirstSuper(address), k, zero, target);
        j := j + SPAN;
        k := k + 1;
        MoreSpans(n, k);
      }
      SpansDone(n, k);
      AllSuper(old(mem), mem, root, address, size, zero);
      if SuperCovered(address, size) {
        AllReadZero(mem, place, root, zero, pnext, address, size);
      }
      ok := true;
    }

    /** Whether a shadow address is mapped. */
    method IsShadowMapped(shadowp: nat) returns (mapped: bool)
      requires Valid() && InShadow(shadowp)
      ensures mapped <==> HardwareWalk(mem, root, shadowp) != Absent
    {
      HardwareAgrees(mem, place, root, zero, pnext, shadowp);
      var q := Split(shadowp);
      TablesHere(q);
      var l3 := mem[root][q[0]].frame;
      if l3 == 0 {
        return false;
      }
      var l2 := mem[l3][q[1]].frame;
      if l2 == 0 {
        return false;
      }
      var pde := mem[l2][q[2]];
      if pde.valid && pde.ps {
        return true;
      }
      var l1 := pde.frame;
      if l1 == 0 {
        return false;
      }
      mapped := mem[l1][q[3]].valid;
    }

    lemma {:induction false} TablesHere(q: seq<nat>)
      requires Valid() && KasanPath(q)
      ensures forall k :: 0 <= k <= 3 ==>
        var p := TableAt(mem, root, q, k); p == 0 || (p in mem && |mem[p]| == ENTRIES && (k < 2 ==> !mem[p][q[k]].ps))
      ensures TableAt(mem, root, q, 2) != 0 && mem[TableAt(mem, root, q, 2)][q[2]].ps ==>
        mem[TableAt(mem, root, q, 2)][q[2]].valid
    {
    }

    /** Writes a page-table entry that was empty. */
    method SetLeaf(q: seq<nat>, l1: nat, e: Entry)
      requires root < pnext || ptop <= root
      requires KasanPath(q) && l1 == TableAt(mem, root, q, 3) != 0 && l1 in mem && Load(mem, l1, q[3]) == EMPTY
        && e.valid
      requires if e.write
               then Inv(mem, place, root, zero, e.frame) && pnext == e.frame + 1 && Fresh(place, e.frame, e.frame)
                    && e.frame in mem && mem[e.frame] == Zeros() && !e.ps && e.nx
               else Valid() && e == Entry(zero, true, false, false, true)
      modifies this`mem, this`place
      ensures Valid() && Translate(old(mem), root, q) == Absent
      ensures forall r {:trigger Translate(mem, root, r)} :: KasanPath(r) ==>
        Translate(mem, root, r) == if r == q then Page(e.frame, e.write) else Translate(old(mem), root, r)
      ensures e.write ==> e.frame in mem && mem[e.frame] == Zeros()
      ensures Kept(old(mem), mem, old(place), place)
    {
      ghost var at := if e.write then e.frame else pnext;
      TablePlace(mem, place, root, zero, at, q, 3);
      assert TableOk(mem, place, zero, l1);
      forall r | KasanPath(r)
        ensures Translate(Set(mem, l1, q[3], e), root, r) == if r == q then Page(e.frame, e.write)
          else Translate(mem, root, r)
      {
        LeafWalk(mem, place, root, zero, at, l1, q[3], e, q, r);
      }
      LeafWalk(mem, place, root, zero, at, l1, q[3], e, q, q);
      if e.write {
        LinkOk(mem, place, root, zero, at, l1, q[3], e.frame, e.nx);
        place := place[e.frame := place[l1] + [q[3]]];
      } else {
        ZeroOk(mem, place, root, zero, at, l1, q[3]);
      }
      mem := Set(mem, l1, q[3], e);
    }
  }

  /** Pages stay where they are in the tree, and mapped pages keep their contents. */
  ghost predicate Kept(a: Memory, b: Memory, from: Places, to: Places) {
    forall p <- from :: p in to && to[p] == from[p] && (|from[p]| == 4 ==> p in a && p in b && b[p] == a[p])
  }

  lemma {:induction false} TopNotSuper(mem: Memory, place: Places, root: nat, zero: nat, pnext: nat, q: seq<nat>,
                                       k: nat)
    requires Inv(mem, place, root, zero, pnext) && KasanPath(q) && k < 2 && TableAt(mem, root, q, k) != 0
    ensures !Load(mem, TableAt(mem, root, q, k), q[k]).ps
  {
    TablePlace(mem, place, root, zero, pnext, q, k);
    var p := TableAt(mem, root, q, k);
    assert TableOk(mem, place, zero, p);
    assert EntryOk(mem[p][q[k]], place, zero, place[p], q[k]);
  }

  /** What mapping one page does to the translations. */
  ghost predicate PageMapped(a: Memory, b: Memory, root: nat, q: seq<nat>, isZero: bool, zero: nat, pnext: nat)
    requires |q| == 4
  {
    && (forall r {:trigger Translate(b, root, r)} :: KasanPath(r) && (r != q || Translate(a, root, r) != Absent)
          ==> Translate(b, root, r) == Translate(a, root, r))
    && (Translate(a, root, q) == Absent ==> NewLeaf(b, Translate(b, root, q), isZero, zero, pnext))
  }

  /** The page of zeros, or a writable page taken from the reserve and cleared. */
  ghost predicate NewLeaf(b: Memory, l: Leaf, isZero: bool, zero: nat, pnext: nat) {
    if isZero then l == Page(zero, false)
    else l.Page? && l.write && pnext <= l.frame && l.frame in b && b[l.frame] == Zeros()
  }

  ghost predicate AddressMapped(a: Memory, b: Memory, root: nat, lo: nat, hi: nat, isZero: bool, zero: nat, pnext: nat,
                                x: nat) {
    var before, after := Translate(a, root, Split(x)), Translate(b, root, Split(x));
    if lo <= x < hi && before == Absent then NewLeaf(b, after, isZero, zero, pnext) else after == before
  }

  /** What mapping a range of shadow addresses does to the translations. */
  ghost predicate RangeMapped(a: Memory, b: Memory, root: nat, lo: nat, hi: nat, isZero: bool, zero: nat, pnext: nat) {
    forall x :: InShadow(x) ==> AddressMapped(a, b, root, lo, hi, isZero, zero, pnext, x)
  }

  /** After `n` superpages from the first have been mapped to zeros: every other translation is as
      before, and nothing was mapped there. */
  ghost predicate SupersMapped(a: Memory, b: Memory, root: nat, first: nat, n: nat, zero: nat) {
    forall x :: InShadow(x) ==> SuperMapped(a, b, root, first, n, zero, x)
  }

  ghost predicate SuperMapped(a: Memory, b: Memory, root: nat, first: nat, n: nat, zero: nat, x: nat) {
    && Translate(b, root, Split(x))
      == (if first <= x / SUPER < first + n then Super(zero) else Translate(a, root, Split(x)))
    && (first <= x / SUPER < first + n ==> Translate(a, root, Split(x)) == Absent)
  }

  /** One superpage, with nothing mapped in it, is mapped to zeros. */
  ghost predicate SuperSet(a: Memory, b: Memory, root: nat, q: seq<nat>, zero: nat)
    requires |q| == 4
  {
    forall r {:trigger Translate(b, root, r)} :: KasanPath(r) ==>
      && Translate(b, root, r) == (if r[..3] == q[..3] then Super(zero) else Translate(a, root, r))
      && (r[..3] == q[..3] ==> Translate(a, root, r) == Absent)
  }

  lemma {:induction false} SuperAfter(a: Memory, b: Memory, c: Memory, d: Memory, root: nat, q: seq<nat>, zero: nat)
    requires |q| == 4 && SameWalks(a, b, root) && SameWalks(b, c, root) && SuperSet(c, d, root, q, zero)
    ensures SuperSet(a, d, root, q, zero)
  {
    forall r | KasanPath(r)
      ensures Translate(c, root, r) == Translate(a, root, r)
    {
      assert Translate(b, root, r) == Translate(a, root, r);
    }
  }

  /** Two shadow addresses have the same first three indices exactly if they are on one superpage. */
  lemma {:induction false} SuperExact(a: nat, b: nat)
    requires InShadow(a) && InShadow(b)
    ensures Split(a)[..3] == Split(b)[..3] <==> a / SUPER == b / SUPER
  {
    SuperpageDigits(a);
    SuperpageDigits(b);
    HighDigits(a);
    HighDigits(b);
    if Split(a)[..3] == Split(b)[..3] {
      assert Split(a)[..3][0] == Split(b)[..3][0] && Split(a)[..3][1] == Split(b)[..3][1]
        && Split(a)[..3][2] == Split(b)[..3][2];
    }
  }

  lemma {:induction false} SupersGrow(a: Memory, b: Memory, c: Memory, root: nat, first: nat, n: nat, zero: nat,
                                      target: nat)
    requires SupersMapped(a, b, root, first, n, zero) && InShadow(target) && target / SUPER == first + n
    requires SuperSet(b, c, root, Split(target), zero)
    ensures SupersMapped(a, c, root, first, n + 1, zero)
  {
    forall x | InShadow(x)
      ensures SuperMapped(a, c, root, first, n + 1, zero, x)
    {
      SuperExact(x, target);
      assert SuperMapped(a, b, root, first, n, zero, x);
      assert KasanPath(Split(x));
    }
  }

  lemma {:induction false} AllSuper(a: Memory, b: Memory, root: nat, address: nat, size: nat, zero: nat)
    requires SupersMapped(a, b, root, FirstSuper(address), Supers(size), zero)
    requires forall x {:trigger InShadow(x)} ::
      FirstSuper(address) <= x / SUPER < FirstSuper(address) + Supers(size) ==> InShadow(x)
    ensures SuperCovered(address, size) ==>
      forall m :: address <= m < address + size ==> Translate(b, root, Split(Shadow(m))) == Super(zero)
    ensures !SuperCovered(address, size) ==> var last := Shadow(address + size - 1);
      InShadow(last) ==> Translate(b, root, Split(last)) == Translate(a, root, Split(last))
  {
    SuperCoverExact(address, size);
    forall m | address <= m < address + size && SuperCovered(address, size)
      ensures Translate(b, root, Split(Shadow(m))) == Super(zero)
    {
      assert InShadow(Shadow(m));
      assert SuperMapped(a, b, root, FirstSuper(address), Supers(size), zero, Shadow(m));
    }
    if !SuperCovered(address, size) && InShadow(Shadow(address + size - 1)) {
      assert SuperMapped(a, b, root, FirstSuper(address), Supers(size), zero, Shadow(address + size - 1));
    }
  }

  lemma {:induction false} MoreSpans(n: nat, k: nat)
    ensures SPAN * k < n <==> k < (n + SPAN - 1) / SPAN
  {
  }

  lemma {:induction false} SpansDone(n: nat, k: nat)
    requires n <= SPAN * k && k <= (n + SPAN - 1) / SPAN
    ensures k == (n + SPAN - 1) / SPAN
  {
    MoreSpans(n, k);
  }

  lemma {:induction false} BaseTop(address: nat, size: nat)
    ensures Aligned(ShadowBase(address)) && Aligned(ShadowTop(address, size))
  {
  }

  lemma {:induction false} NoRange(a: Memory, b: Memory, root: nat, lo: nat, hi: nat, isZero: bool, zero: nat,
                                   pnext: nat)
    requires hi <= lo && RangeMapped(a, b, root, lo, lo, isZero, zero, pnext)
    ensures RangeMapped(a, b, root, lo, hi, isZero, zero, pnext)
  {
    forall x | InShadow(x)
      ensures AddressMapped(a, b, root, lo, hi, isZero, zero, pnext, x)
    {
      assert AddressMapped(a, b, root, lo, lo, isZero, zero, pnext, x);
    }
  }

  /** Two shadow addresses, the second of them the start of a page. */
  lemma {:induction false} OnePage(x: nat, base: nat)
    requires InShadow(x) && InShadow(base) && Aligned(base)
    ensures Split(x) == Split(base) <==> base <= x < base + PAGE
  {
    SplitExact(x, base);
  }

  lemma {:induction false} NewLeafKept(b: Memory, c: Memory, from: Places, to: Places, root: nat, q: seq<nat>,
                                       isZero: bool, zero: nat, pnext: nat, pnext1: nat)
    requires Inv(b, from, root, zero, pnext1) && Kept(b, c, from, to) && KasanPath(q)
    requires NewLeaf(b, Translate(b, root, q), isZero, zero, pnext)
    ensures NewLeaf(c, Translate(b, root, q), isZero, zero, pnext)
  {
    LeafPlace(b, from, root, zero, pnext1, q);
  }

  lemma {:induction false} LeafGrows(a: Memory, b: Memory, c: Memory, from: Places, to: Places, root: nat, q: seq<nat>,
                                     last: seq<nat>, done: bool, isZero: bool, zero: nat, pnext: nat, pnext1: nat)
    requires KasanPath(q) && KasanPath(last) && pnext <= pnext1 && (q == last ==> !done)
    requires Inv(b, from, root, zero, pnext1) && Kept(b, c, from, to)
      && PageMapped(b, c, root, last, isZero, zero, pnext1)
    requires if done && Translate(a, root, q) == Absent then NewLeaf(b, Translate(b, root, q), isZero, zero, pnext)
             else Translate(b, root, q) == Translate(a, root, q)
    ensures if (done || q == last)
      && Translate(a, root, q) == Absent then NewLeaf(c, Translate(c, root, q), isZero, zero, pnext)
            else Translate(c, root, q) == Translate(a, root, q)
  {
    if done && Translate(a, root, q) == Absent {
      NewLeafKept(b, c, from, to, root, q, isZero, zero, pnext, pnext1);
    }
  }

  lemma {:induction false} RangeGrows(a: Memory, b: Memory, c: Memory, from: Places, to: Places, root: nat, lo: nat,
                                      base: nat, isZero: bool, zero: nat, pnext: nat, pnext1: nat)
    requires InShadow(base) && Aligned(base) && lo <= base && pnext <= pnext1
    requires Inv(b, from, root, zero, pnext1) && Kept(b, c, from, to)
    requires RangeMapped(a, b, root, lo, base, isZero, zero, pnext)
    requires PageMapped(b, c, root, Split(base), isZero, zero, pnext1)
    ensures RangeMapped(a, c, root, lo, base + PAGE, isZero, zero, pnext)
  {
    forall x | InShadow(x)
      ensures AddressMapped(a, c, root, lo, base + PAGE, isZero, zero, pnext, x)
    {
      assert AddressMapped(a, b, root, lo, base, isZero, zero, pnext, x);
      AddressGrows(a, b, c, from, to, root, lo, base, isZero, zero, pnext, pnext1, x);
    }
  }

  lemma {:induction false} AddressGrows(a: Memory, b: Memory, c: Memory, from: Places, to: Places, root: nat, lo: nat,
                                        base: nat, isZero: bool, zero: nat, pnext: nat, pnext1: nat, x: nat)
    requires InShadow(x) && InShadow(base) && Aligned(base) && lo <= base && pnext <= pnext1
    requires Inv(b, from, root, zero, pnext1) && Kept(b, c, from, to)
    requires AddressMapped(a, b, root, lo, base, isZero, zero, pnext, x)
    requires PageMapped(b, c, root, Split(base), isZero, zero, pnext1)
    ensures AddressMapped(a, c, root, lo, base + PAGE, isZero, zero, pnext, x)
  {
    OnePage(x, base);
    LeafGrows(a, b, c, from, to, root, Split(x), Split(base), lo <= x < base, isZero, zero, pnext, pnext1);
  }

  lemma {:induction false} AllMapped(a: Memory, b: Memory, root: nat, address: nat, size: nat, isZero: bool, zero: nat,
                                     pnext: nat)
    requires RangeMapped(a, b, root, ShadowBase(address), ShadowTop(address, size), isZero, zero, pnext)
      && address + size <= WORD
    requires forall x {:trigger InShadow(x)} :: ShadowBase(address) <= x < ShadowTop(address, size) ==> InShadow(x)
    ensures Covered(address, size) ==>
      forall m :: address <= m < address + size ==> Translate(b, root, Split(Shadow(m))) != Absent
    ensures !Covered(address, size) ==> var last := Shadow(address + size - 1);
      InShadow(last) ==> Translate(b, root, Split(last)) == Translate(a, root, Split(last))
  {
    CoverExact(address, size);
    forall m | address <= m < address + size && Covered(address, size)
      ensures Translate(b, root, Split(Shadow(m))) != Absent
    {
      var x := Shadow(m);
      assert InShadow(x);
      assert AddressMapped(a, b, root, ShadowBase(address), ShadowTop(address, size), isZero, zero, pnext, x);
    }
    if !Covered(address, size) && InShadow(Shadow(address + size - 1)) {
      assert AddressMapped(a, b, root, ShadowBase(address), ShadowTop(address, size), isZero, zero, pnext,
        Shadow(address + size - 1));
    }
  }
}
