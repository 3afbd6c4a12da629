/** The allocator hooks and the quarantine of the kernel address sanitizer (san/kasan.c).

    The quarantine is modelled twice: as values, on which whole runs of allocations and frees are
    reasoned about, and as the objects the code updates. */
module KasanHeap {
  import opened Bytes
  import opened KasanShadow
  import opened Wrappers

  // ----- Quarantine -----------------------------------------------------------------------

  /** A freed block, redzones included. */
  datatype Freed = Freed(base: nat, size: nat)

  datatype Quarantine = Quarantine(list: seq<Freed>, entries: nat, maxEntries: nat, size: nat, maxSize: nat)

  function Total(list: seq<Freed>): nat {
    if list == [] then 0 else list[0].size + Total(list[1..])
  }

  /** The counters tell the length and the size of the list and are within their limits. */
  predicate Accounted(q: Quarantine) {
    q.entries == |q.list| <= q.maxEntries && q.size == Total(q.list) <= q.maxSize
  }

  /** A block arrives; at most one block is released.  A block that would overfill the quarantine
      is released itself if it is larger than the oldest one. */
  function Admit(q: Quarantine, e: Freed): (r: (Quarantine, Option<Freed>))
    requires Accounted(q) && e.size <= q.maxSize
  {
    var over := q.size + e.size > q.maxSize;
    if over && e.size > q.list[0].size then (q, Some(e)) else
      var q1 := q.(list := q.list + [e], entries := q.entries + 1, size := q.size + e.size);
      if over || q1.entries > q1.maxEntries then
        var out := q1.list[0];
        assert Total(q1.list) == q1.list[0].size + Total(q1.list[1..]);
        TotalAppend(q.list, e);
        (q1.(list := q1.list[1..], entries := q1.entries - 1, size := q1.size - out.size), Some(out))
      else (q1, None)
  }

  lemma {:induction false} TotalAppend(list: seq<Freed>, e: Freed)
    ensures Total(list + [e]) == Total(list) + e.size
  {
    if list != [] {
      assert (list + [e])[1..] == list[1..] + [e];
      TotalAppend(list[1..], e);
    }
  }

  /** The block came to rest in the quarantine, or passed through it at once. */
  predicate Enters(q: Quarantine, e: Freed)
    requires Accounted(q)
  {
    !(q.size + e.size > q.maxSize && q.list != [] && e.size > q.list[0].size)
  }

  function Out(r: Option<Freed>): seq<Freed> { if r.Some? then [r.value] else [] }

  /** Each admission keeps the accounts, and what enters leaves in order of entry. */
  lemma {:induction false} AdmitOk(q: Quarantine, e: Freed)
    requires Accounted(q) && e.size <= q.maxSize
    ensures var (q', r) := Admit(q, e);
            && Accounted(q') && q'.maxEntries == q.maxEntries && q'.maxSize == q.maxSize
            && (if Enters(q, e) then q.list + [e] == Out(r) + q'.list else q' == q && r == Some(e))
            && multiset(q.list + [e]) == multiset(Out(r) + q'.list)
  {
    TotalAppend(q.list, e);
    var (q', r) := Admit(q, e);
    assert multiset(q.list + [e]) == multiset(q.list) + multiset([e]);
    if Enters(q, e) {
      if r.Some? { assert q.list + [e] == [r.value] + q'.list; }
    } else {
      assert multiset([e] + q.list) == multiset([e]) + multiset(q.list);
    }
  }

  /** Nothing leaves exactly when the block fits both limits.  Otherwise the block itself is
      handed back if it is larger than the oldest one and too much, and else the oldest is. */
  lemma {:induction false} AdmitExact(q: Quarantine, e: Freed)
    requires Accounted(q) && e.size <= q.maxSize
    ensures var (q', r) := Admit(q, e);
      && (r.None? <==> q.size + e.size <= q.maxSize && |q.list| + 1 <= q.maxEntries)
      && (r.None? ==> q'.list == q.list + [e])
      && (r.Some? ==>
            if q.size + e.size > q.maxSize && q.list != [] && e.size > q.list[0].size
            then r.value == e && q'.list == q.list
            else [r.value] + q'.list == q.list + [e])
  {
    AdmitOk(q, e);
  }

  // ----- Runs of allocations and frees ----------------------------------------------------

  const FAKESTACK := 2
  const TYPES := 3

  /** An allocation: `req` bytes for the user after a left redzone, in `size` bytes from `base`. */
  datatype Block = Block(base: nat, size: nat, left: nat, req: nat)

  /** Which block a granule belongs to. */
  datatype Tag = Unowned | Live(b: Block) | Held(t: nat, e: Freed)

  datatype State = State(shadow: seq<byte>, tags: seq<Tag>, live: set<Block>, q: seq<Quarantine>)

  /** Aligned blocks with both redzones, inside memory that has shadow. */
  predicate BlockOk(b: Block, n: nat) {
    && b.base > 0 && b.base % GRANULE == 0 && b.size % GRANULE == 0 && b.left % GRANULE == 0
    && b.left >= 16 && b.left + b.req + 16 <= b.size && b.base + b.size <= GRANULE * n
  }

  predicate FreedOk(e: Freed, n: nat) {
    e.base > 0 && e.base % GRANULE == 0 && e.size % GRANULE == 0 && e.size >= 32 && e.base + e.size <= GRANULE * n
  }

  /** Every granule of the range has the tag. */
  ghost predicate Owned(tags: seq<Tag>, base: nat, size: nat, tag: Tag) {
    forall g :: base / GRANULE <= g < (base + size) / GRANULE && 0 <= g < |tags| ==> tags[g] == tag
  }

  function SetTags(tags: seq<Tag>, base: nat, size: nat, tag: Tag): (r: seq<Tag>)
    ensures |r| == |tags|
  {
    seq(|tags|, (g: nat) requires g < |tags| => if base / GRANULE <= g < (base + size) / GRANULE then tag else tags[g])
  }

  function FreedFlag(t: nat): byte { if t == FAKESTACK then STACK_FREED else HEAP_FREED }

  /** What the shadow byte of granule `g` must be, given its owner. */
  predicate ShadowOk(s: State, g: nat)
    requires g < |s.tags| == |s.shadow|
  {
    match s.tags[g]
    case Unowned => true
    case Live(b) =>
      && b in s.live && b.base / GRANULE <= g < (b.base + b.size) / GRANULE
      && s.shadow[g] == PoisonByte(g - b.base / GRANULE, b.req, b.left, HEAP_RZ)
    case Held(t, e) =>
      && t < |s.q| && e in s.q[t].list && e.base / GRANULE <= g < (e.base + e.size) / GRANULE
      && s.shadow[g] == FreedFlag(t)
  }

  ghost predicate QueueOk(s: State, t: nat)
    requires t < |s.q|
  {
    && (forall e <- s.q[t].list :: FreedOk(e, |s.shadow|) && Owned(s.tags, e.base, e.size, Held(t, e)))
    && (forall i, j :: 0 <= i < j < |s.q[t].list| ==> s.q[t].list[i] != s.q[t].list[j])
  }

  /** Blocks own their granules, and the shadow says so. */
  ghost predicate Own(s: State) {
    && |s.tags| == |s.shadow| && |s.q| == TYPES
    && (forall b <- s.live :: BlockOk(b, |s.shadow|) && Owned(s.tags, b.base, b.size, Live(b)))
    && (forall t :: 0 <= t < TYPES ==> QueueOk(s, t))
    && (forall g :: 0 <= g < |s.tags| ==> ShadowOk(s, g))
  }

  ghost predicate Inv(s: State) {
    Own(s) && forall t :: 0 <= t < TYPES ==> Accounted(s.q[t])
  }

  datatype Op = Alloc(b: Block) | Free(b: Block, t: nat, quarantine: bool)

  /** The allocator hands out memory it owns; a live block is freed, and fits the quarantine. */
  ghost predicate Allowed(s: State, op: Op) {
    match op
    case Alloc(b) => BlockOk(b, |s.shadow|) && Owned(s.tags, b.base, b.size, Unowned)
    case Free(b, t, quarantine) => b in s.live && t < |s.q| && t < TYPES && b.size <= s.q[t].maxSize
  }

  /** kasan_alloc, as far as the shadow is concerned. */
  function DoAlloc(s: State, b: Block): State
    requires BlockOk(b, |s.shadow|)
  {
    s.(shadow := Poisoned(s.shadow, b.base, b.req, b.left, b.size - b.req - b.left, HEAP_RZ),
       tags := SetTags(s.tags, b.base, b.size, Live(b)), live := s.live + {b})
  }

  /** kasan_free_internal, first half: the block is poisoned and joins the quarantine. */
  function Hold(s: State, b: Block, t: nat): State
    requires BlockOk(b, |s.shadow|) && t < |s.q|
  {
    s.(shadow := Poisoned(s.shadow, b.base, 0, b.size, 0, FreedFlag(t)),
       tags := SetTags(s.tags, b.base, b.size, Held(t, Freed(b.base, b.size))), live := s.live - {b})
  }

  /** The end of kasan_free_internal: a block goes back to the allocator. */
  function Release(s: State, e: Freed): State
    requires FreedOk(e, |s.shadow|)
  {
    s.(shadow := Poisoned(s.shadow, e.base, e.size, 0, 0, 0), tags := SetTags(s.tags, e.base, e.size, Unowned))
  }

  function DoFree(s: State, b: Block, t: nat, quarantine: bool): (r: (State, Option<Freed>))
    requires BlockOk(b, |s.shadow|) && t < |s.q| && Accounted(s.q[t]) && QueueOk(s, t) && b.size <= s.q[t].maxSize
  {
    var e := Freed(b.base, b.size);
    if !quarantine then (Release(s.(live := s.live - {b}), e), Some(e)) else
      var (q', out) := Admit(s.q[t], e);
      var s1 := Hold(s, b, t).(q := s.q[t := q']);
      if out.None? then (s1, None) else (Release(s1, out.value), out)
  }

  // ----- The shadow tells the truth ---------------------------------------------------------

  lemma {:induction false} TruthLive(s: State, b: Block, a: nat)
    requires Inv(s) && b in s.live && b.base <= a < b.base + b.size
    ensures Addressable(s.shadow, a) <==> b.base + b.left <= a < b.base + b.left + b.req
  {
    var g := a / GRANULE;
    assert ShadowOk(s, g) && s.tags[g] == Live(b);
    PoisonTruth(s.shadow, b.base, b.req, b.left, b.size - b.req - b.left, HEAP_RZ, a);
  }

  lemma {:induction false} TruthHeld(s: State, t: nat, e: Freed, a: nat)
    requires Inv(s) && t < TYPES && e in s.q[t].list && e.base <= a < e.base + e.size
    ensures a / GRANULE < |s.shadow| && !Addressable(s.shadow, a)
  {
    var g := a / GRANULE;
    assert QueueOk(s, t);
    assert s.tags[g] == Held(t, e) && ShadowOk(s, g);
  }

  /** In a live block exactly the user's bytes are addressable; nothing in quarantine is. */
  lemma {:induction false} Truth(s: State, a: nat)
    requires Inv(s) && a / GRANULE < |s.shadow|
    ensures forall b <- s.live :: b.base <= a < b.base + b.size ==>
              (Addressable(s.shadow, a) <==> b.base + b.left <= a < b.base + b.left + b.req)
    ensures forall t, e :: 0 <= t < TYPES && e in s.q[t].list && e.base <= a < e.base + e.size ==>
      !Addressable(s.shadow, a)
  {
    forall b <- s.live | b.base <= a < b.base + b.size
      ensures Addressable(s.shadow, a) <==> b.base + b.left <= a < b.base + b.left + b.req
    {
      TruthLive(s, b, a);
    }
    forall t, e | 0 <= t < TYPES && e in s.q[t].list
      && e.base <= a < e.base + e.size ensures !Addressable(s.shadow, a) {
      TruthHeld(s, t, e, a);
    }
  }

  // ----- Every operation keeps the invariant ------------------------------------------------

  /** Retagging one block leaves the blocks with other tags alone. */
  lemma {:induction false} OthersKept(tags: seq<Tag>, base: nat, size: nat, was: Tag, now: Tag, b: nat, n: nat,
                                      tag: Tag)
    requires Owned(tags, base, size, was) && Owned(tags, b, n, tag) && was != tag
    ensures Owned(SetTags(tags, base, size, now), b, n, tag)
  {
    var r := SetTags(tags, base, size, now);
    forall g | b / GRANULE <= g < (b + n) / GRANULE && 0 <= g < |r| ensures r[g] == tag {
      assert tags[g] == tag;
    }
  }

  lemma {:induction false} AllocOk(s: State, b: Block)
    requires Inv(s) && Allowed(s, Alloc(b))
    ensures Inv(DoAlloc(s, b))
  {
    var s' := DoAlloc(s, b);
    Granules(b.base, b.left, b.req, b.size - b.req - b.left);
    forall c <- s'.live ensures Owned(s'.tags, c.base, c.size, Live(c)) {
      if c != b { OthersKept(s.tags, b.base, b.size, Unowned, Live(b), c.base, c.size, Live(c)); }
    }
    forall t | 0 <= t < TYPES ensures QueueOk(s', t) {
      assert QueueOk(s, t);
      forall e <- s'.q[t].list ensures Owned(s'.tags, e.base, e.size, Held(t, e)) {
        OthersKept(s.tags, b.base, b.size, Unowned, Live(b), e.base, e.size, Held(t, e));
      }
    }
    forall g | 0 <= g < |s'.tags| ensures ShadowOk(s', g) {
      assert ShadowOk(s, g);
    }
  }

  /** The block moves from the live ones to the end of a quarantine list. */
  function Held1(s: State, b: Block, t: nat): State
    requires BlockOk(b, |s.shadow|) && t < |s.q|
  {
    Hold(s, b, t).(q := s.q[t := s.q[t].(list := s.q[t].list + [Freed(b.base, b.size)])])
  }

  lemma {:induction false} HoldOk(s: State, b: Block, t: nat)
    requires Own(s) && b in s.live && t < TYPES
    ensures Own(Held1(s, b, t))
  {
    var s', e := Held1(s, b, t), Freed(b.base, b.size);
    Granules(b.base, b.size, 0, 0);
    forall c <- s'.live ensures Owned(s'.tags, c.base, c.size, Live(c)) {
      OthersKept(s.tags, b.base, b.size, Live(b), Held(t, e), c.base, c.size, Live(c));
    }
    forall u | 0 <= u < TYPES ensures QueueOk(s', u) { HoldQueue(s, b, t, u); }
    forall g | 0 <= g < |s'.tags| ensures ShadowOk(s', g) {
      assert ShadowOk(s, g);
    }
  }

  lemma {:induction false} HoldQueue(s: State, b: Block, t: nat, u: nat)
    requires Own(s) && b in s.live && t < TYPES && u < TYPES
    ensures QueueOk(Held1(s, b, t), u)
  {
    var s', e := Held1(s, b, t), Freed(b.base, b.size);
    assert QueueOk(s, u);
    forall d <- s'.q[u].list ensures FreedOk(d, |s.shadow|) && Owned(s'.tags, d.base, d.size, Held(u, d)) {
      if d in s.q[u].list { OthersKept(s.tags, b.base, b.size, Live(b), Held(t, e), d.base, d.size, Held(u, d)); }
    }
    assert s.tags[b.base / GRANULE] == Live(b);
  }

  /** The oldest block of a quarantine goes back to the allocator. */
  function Released1(s: State, t: nat): State
    requires t < |s.q| && s.q[t].list != [] && FreedOk(s.q[t].list[0], |s.shadow|)
  {
    Release(s, s.q[t].list[0]).(q := s.q[t := s.q[t].(list := s.q[t].list[1..])])
  }

  lemma {:induction false} ReleaseOk(s: State, t: nat)
    requires Own(s) && t < TYPES && s.q[t].list != []
    ensures FreedOk(s.q[t].list[0], |s.shadow|) && Own(Released1(s, t))
  {
    assert QueueOk(s, t);
    var s', e := Released1(s, t), s.q[t].list[0];
    Granules(e.base, 0, e.size, 0);
    forall c <- s'.live ensures Owned(s'.tags, c.base, c.size, Live(c)) {
      OthersKept(s.tags, e.base, e.size, Held(t, e), Unowned, c.base, c.size, Live(c));
    }
    forall u | 0 <= u < TYPES ensures QueueOk(s', u) { ReleaseQueue(s, t, u); }
    forall g | 0 <= g < |s'.tags| ensures ShadowOk(s', g) {
      assert ShadowOk(s, g);
    }
  }

  lemma {:induction false} ReleaseQueue(s: State, t: nat, u: nat)
    requires Own(s) && t < TYPES && s.q[t].list != [] && u < TYPES && FreedOk(s.q[t].list[0], |s.shadow|)
    ensures QueueOk(Released1(s, t), u)
  {
    var s', e := Released1(s, t), s.q[t].list[0];
    assert QueueOk(s, u) && QueueOk(s, t);
    forall d <- s'.q[u].list ensures FreedOk(d, |s.shadow|) && Owned(s'.tags, d.base, d.size, Held(u, d)) {
      assert d in s.q[u].list && (u == t ==> d != e);
      OthersKept(s.tags, e.base, e.size, Held(t, e), Unowned, d.base, d.size, Held(u, d));
    }
  }

  /** A live block goes straight back to the allocator. */
  lemma {:induction false} DropOk(s: State, b: Block)
    requires Own(s) && b in s.live
    ensures Own(Release(s.(live := s.live - {b}), Freed(b.base, b.size)))
  {
    var s' := Release(s.(live := s.live - {b}), Freed(b.base, b.size));
    Granules(b.base, 0, b.size, 0);
    forall c <- s'.live ensures Owned(s'.tags, c.base, c.size, Live(c)) {
      OthersKept(s.tags, b.base, b.size, Live(b), Unowned, c.base, c.size, Live(c));
    }
    forall t | 0 <= t < TYPES ensures QueueOk(s', t) {
      assert QueueOk(s, t);
      forall e <- s'.q[t].list ensures Owned(s'.tags, e.base, e.size, Held(t, e)) {
        OthersKept(s.tags, b.base, b.size, Live(b), Unowned, e.base, e.size, Held(t, e));
      }
    }
    forall g | 0 <= g < |s'.tags| ensures ShadowOk(s', g) {
      assert ShadowOk(s, g);
    }
  }

  /** Ownership does not depend on the counters of the quarantines. */
  lemma {:induction false} OwnLists(s: State, q: seq<Quarantine>)
    requires Own(s) && |q| == TYPES && forall t :: 0 <= t < TYPES ==> q[t].list == s.q[t].list
    ensures Own(s.(q := q))
  {
    var s' := s.(q := q);
    forall t | 0 <= t < TYPES ensures QueueOk(s', t) { assert QueueOk(s, t); }
    forall g | 0 <= g < |s'.tags| ensures ShadowOk(s', g) { assert ShadowOk(s, g); }
  }

  /** Poisoning and releasing a block at once is releasing it. */
  lemma {:induction false} HoldRelease(s: State, b: Block, t: nat)
    requires BlockOk(b, |s.shadow|) && t < |s.q|
    ensures Release(Hold(s, b, t), Freed(b.base, b.size)) == Release(s.(live := s.live - {b}), Freed(b.base, b.size))
  {
    var e := Freed(b.base, b.size);
    var x, y := Release(Hold(s, b, t), e), Release(s.(live := s.live - {b}), e);
    assert x.shadow == y.shadow;
    assert x.tags == y.tags;
  }

  /** The block is too large: it is handed back and the quarantine stays as it is. */
  lemma {:induction false} RefusedOwn(s: State, b: Block, t: nat)
    requires Inv(s) && Allowed(s, Free(b, t, true)) && !Enters(s.q[t], Freed(b.base, b.size))
    ensures Own(DoFree(s, b, t, true).0)
  {
    HoldRelease(s, b, t);
    DropOk(s, b);
    assert s.q[t := s.q[t]] == s.q;
  }

  /** The block enters the quarantine, and the oldest one may leave. */
  lemma {:induction false} AdmittedOwn(s: State, b: Block, t: nat)
    requires Inv(s) && Allowed(s, Free(b, t, true)) && Enters(s.q[t], Freed(b.base, b.size))
    ensures Own(DoFree(s, b, t, true).0)
  {
    AdmitOk(s.q[t], Freed(b.base, b.size));
    var (q', out) := Admit(s.q[t], Freed(b.base, b.size));
    HoldOk(s, b, t);
    var h := Held1(s, b, t);
    if out.None? {
      OwnLists(h, s.q[t := q']);
    } else {
      assert h.q[t].list[0] == out.value && h.q[t].list[1..] == q'.list;
      ReleaseOk(h, t);
      OwnLists(Released1(h, t), s.q[t := q']);
    }
  }

  lemma {:induction false} FreeOwn(s: State, b: Block, t: nat, quarantine: bool)
    requires Inv(s) && Allowed(s, Free(b, t, quarantine))
    ensures Own(DoFree(s, b, t, quarantine).0)
  {
    if !quarantine { DropOk(s, b); }
    else if Enters(s.q[t], Freed(b.base, b.size)) { AdmittedOwn(s, b, t); }
    else { RefusedOwn(s, b, t); }
  }

  /** A block handed back is fully addressable and nobody's. */
  ghost predicate HandedBack(s: State, e: Freed) {
    && FreedOk(e, |s.shadow|) && Owned(s.tags, e.base, e.size, Unowned)
    && forall a :: e.base <= a < e.base + e.size ==> Addressable(s.shadow, a)
  }

  lemma {:induction false} ReleaseHandsBack(s: State, e: Freed)
    requires FreedOk(e, |s.shadow|) && |s.tags| == |s.shadow|
    ensures HandedBack(Release(s, e), e)
  {
    forall a | e.base <= a < e.base + e.size ensures Addressable(Release(s, e).shadow, a) {
      UnpoisonTruth(s.shadow, e.base, e.size, a);
    }
  }

  /** What leaves is the block itself or the oldest one held. */
  lemma {:induction false} OutIsBlock(s: State, b: Block, t: nat)
    requires Inv(s) && Allowed(s, Free(b, t, true))
    ensures var out := Admit(s.q[t], Freed(b.base, b.size)).1; out.Some? ==> FreedOk(out.value, |s.shadow|)
  {
    assert QueueOk(s, t);
    AdmitOk(s.q[t], Freed(b.base, b.size));
  }

  /** A free keeps the invariant, and what it hands back is fully addressable. */
  lemma {:induction false} FreeOk(s: State, b: Block, t: nat, quarantine: bool)
    requires Inv(s) && Allowed(s, Free(b, t, quarantine))
    ensures var (s', out) := DoFree(s, b, t, quarantine);
            Inv(s') && s'.live == s.live - {b} && (out.Some? ==> HandedBack(s', out.value))
  {
    FreeOwn(s, b, t, quarantine);
    var e := Freed(b.base, b.size);
    AdmitOk(s.q[t], e);
    var (s', out) := DoFree(s, b, t, quarantine);
    if !quarantine {
      ReleaseHandsBack(s.(live := s.live - {b}), e);
    } else if out.Some? {
      OutIsBlock(s, b, t);
      ReleaseHandsBack(Hold(s, b, t).(q := s'.q), out.value);
    }
  }

  /** What a free hands back: the block itself without quarantine, or if it is too large; nothing if
      it fits both limits; and else the oldest block. */
  lemma {:induction false} FreeReturns(s: State, b: Block, t: nat, quarantine: bool)
    requires Inv(s) && Allowed(s, Free(b, t, quarantine))
    ensures var e, q, out := Freed(b.base, b.size), s.q[t], DoFree(s, b, t, quarantine).1;
      && (!quarantine ==> out == Some(e))
      && (quarantine && q.size + b.size <= q.maxSize && |q.list| < q.maxEntries ==> out.None?)
      && (quarantine && q.size + b.size <= q.maxSize && |q.list| == q.maxEntries ==> out == Some((q.list + [e])[0]))
      && (quarantine && q.size + b.size > q.maxSize ==>
            q.list != [] && out == Some(if b.size > q.list[0].size then e else q.list[0]))
  {
    AdmitExact(s.q[t], Freed(b.base, b.size));
  }

  // ----- Whole runs ---------------------------------------------------------------------------

  function Exec(s: State, op: Op): State
    requires Inv(s) && Allowed(s, op)
  {
    match op
    case Alloc(b) => DoAlloc(s, b)
    case Free(b, t, quarantine) => DoFree(s, b, t, quarantine).0
  }

  lemma {:induction false} ExecOk(s: State, op: Op)
    requires Inv(s) && Allowed(s, op)
    ensures Inv(Exec(s, op)) && |Exec(s, op).shadow| == |s.shadow|
  {
    match op
    case Alloc(b) => AllocOk(s, b);
    case Free(b, t, quarantine) => FreeOk(s, b, t, quarantine);
  }

  predicate Init(s: State) {
    && |s.tags| == |s.shadow| && |s.q| == TYPES && s.live == {}
    && (forall g :: 0 <= g < |s.tags| ==> s.tags[g] == Unowned)
    && (forall t :: 0 <= t < TYPES ==> s.q[t].list == [] && s.q[t].entries == s.q[t].size == 0)
  }

  /** The state after a run, if every operation of it was one that the callers may make. */
  ghost function After(s: State, ops: seq<Op>): (r: Option<State>)
    requires Inv(s)
    ensures r.Some? ==> Inv(r.value)
    decreases |ops|
  {
    if ops == [] then Some(s)
    else if !Allowed(s, ops[0]) then None
    else
      ExecOk(s, ops[0]);
      After(Exec(s, ops[0]), ops[1..])
  }

  /** In every run of allocations and frees, the shadow tells the truth and the quarantines
      are accounted for. */
  lemma {:induction false} RunTruth(s: State, ops: seq<Op>, a: nat)
    requires Init(s) && a / GRANULE < |s.shadow|
    ensures Inv(s)
    ensures var r := After(s, ops);
            r.Some? ==>
              && a / GRANULE < |r.value.shadow| && |r.value.q| == TYPES
              && (forall b <- r.value.live :: b.base <= a < b.base + b.size ==>
                    (Addressable(r.value.shadow, a) <==> b.base + b.left <= a < b.base + b.left + b.req))
              && (forall t, e :: 0 <= t < TYPES && e in r.value.q[t].list && e.base <= a < e.base + e.size ==>
                    !Addressable(r.value.shadow, a))
              && (forall t :: 0 <= t < TYPES ==> Accounted(r.value.q[t]))
  {
    assert Inv(s) by {
      forall t | 0 <= t < TYPES ensures QueueOk(s, t) && Accounted(s.q[t]) {}
    }
    SameLength(s, ops);
    var r := After(s, ops);
    if r.Some? { Truth(r.value, a); }
  }

  /** A free that would pass a limit of quarantine `t`. */
  predicate Passes(s: State, op: Op, t: nat)
    requires t < |s.q|
  {
    op.Free? && op.quarantine && op.t == t
    && (s.q[t].size + op.b.size > s.q[t].maxSize || |s.q[t].list| + 1 > s.q[t].maxEntries)
  }

  /** No operation of the run passes a limit of quarantine `t`. */
  ghost predicate NeverPasses(s: State, ops: seq<Op>, t: nat)
    requires Inv(s) && t < TYPES
    decreases |ops|
  {
    ops == [] || !Allowed(s, ops[0])
    || (ExecOk(s, ops[0]); !Passes(s, ops[0], t) && NeverPasses(Exec(s, ops[0]), ops[1..], t))
  }

  /** An operation that passes no limit of a quarantine takes nothing out of it, and the block it
      frees into it is held. */
  lemma {:induction false} StepHolds(s: State, op: Op, t: nat)
    requires Inv(s) && Allowed(s, op) && t < TYPES && !Passes(s, op, t)
    ensures Exec(s, op).q[t].list
         == s.q[t].list + if op.Free? && op.quarantine && op.t == t then [Freed(op.b.base, op.b.size)] else []
  {
    if op.Free? && op.quarantine && op.t == t {
      AdmitExact(s.q[t], Freed(op.b.base, op.b.size));
    }
  }

  /** A block in quarantine stays there, poisoned, until a free would pass one of the limits. */
  lemma {:induction false} HeldUntilFull(s: State, ops: seq<Op>, t: nat, e: Freed)
    requires Inv(s) && t < TYPES && e in s.q[t].list && NeverPasses(s, ops, t)
    ensures var r := After(s, ops); r.Some? ==>
      && e in r.value.q[t].list
      && forall a :: e.base <= a < e.base + e.size ==> a / GRANULE < |r.value.shadow| && !Addressable(r.value.shadow, a)
    decreases |ops|
  {
    if ops == [] {
      forall a | e.base <= a < e.base + e.size ensures a / GRANULE < |s.shadow| && !Addressable(s.shadow, a) {
        TruthHeld(s, t, e, a);
      }
    } else if Allowed(s, ops[0]) {
      ExecOk(s, ops[0]);
      StepHolds(s, ops[0], t);
      HeldUntilFull(Exec(s, ops[0]), ops[1..], t, e);
    }
  }

  /** So a freed block is held from the free on, for as long as no free passes a limit. */
  lemma {:induction false} FreedIsHeld(s: State, b: Block, t: nat, ops: seq<Op>)
    requires Inv(s) && t < TYPES && Allowed(s, Free(b, t, true)) && NeverPasses(s, [Free(b, t, true)] + ops, t)
    ensures var r := After(s, [Free(b, t, true)] + ops); r.Some? ==>
      && Freed(b.base, b.size) in r.value.q[t].list
      && forall a :: b.base <= a < b.base + b.size ==> a / GRANULE < |r.value.shadow| && !Addressable(r.value.shadow, a)
  {
    var op := Free(b, t, true);
    assert ([op] + ops)[1..] == ops;
    ExecOk(s, op);
    StepHolds(s, op, t);
    HeldUntilFull(Exec(s, op), ops, t, Freed(b.base, b.size));
  }

  /** What the shadow says in words: 0xfa before a live block, 0xfb after it, 0xfd in a block freed
      on the heap, and 0xf5 in one of the fake stack, which is the third quarantine. */
  lemma {:induction false} Marks(s: State, g: nat)
    requires Inv(s) && g < |s.shadow|
    ensures |s.q| == 3
    ensures forall b <- s.live ::
      && (b.base <= 8 * g < b.base + b.left ==> s.shadow[g] == 0xfa)
      && (b.base + b.left + b.req <= 8 * g < b.base + b.size ==> s.shadow[g] == 0xfb)
    ensures forall t, e :: 0 <= t < 3 && e in s.q[t].list && e.base <= 8 * g < e.base + e.size ==>
      s.shadow[g] == if t == 2 then 0xf5 else 0xfd
  {
    forall b <- s.live | b.base <= 8 * g < b.base + b.size
      ensures s.shadow[g] == PoisonByte(g - b.base / GRANULE, b.req, b.left, HEAP_RZ)
    {
      assert s.tags[g] == Live(b) && ShadowOk(s, g);
    }
    forall t, e | 0 <= t < 3 && e in s.q[t].list && e.base <= 8 * g < e.base + e.size
      ensures s.shadow[g] == FreedFlag(t)
    {
      assert QueueOk(s, t);
      assert s.tags[g] == Held(t, e) && ShadowOk(s, g);
    }
  }

  lemma {:induction false} SameLength(s: State, ops: seq<Op>)
    requires Inv(s)
    ensures After(s, ops).Some? ==> |After(s, ops).value.shadow| == |s.shadow|
    decreases |ops|
  {
    if ops != [] && Allowed(s, ops[0]) {
      ExecOk(s, ops[0]);
      SameLength(Exec(s, ops[0]), ops[1..]);
    }
  }

  /** What entered a quarantine and what left it over a sequence of admissions. */
  function Through(q: Quarantine, es: seq<Freed>): (r: (Quarantine, seq<Freed>, seq<Freed>))
    requires Accounted(q) && forall e <- es :: e.size <= q.maxSize
    decreases |es|
  {
    if es == [] then (q, [], []) else
      AdmitOk(q, es[0]);
      var (q1, out) := Admit(q, es[0]);
      var (q2, ins, outs) := Through(q1, es[1..]);
      if Enters(q, es[0]) then (q2, [es[0]] + ins, Out(out) + outs) else (q2, ins, outs)
  }

  /** First in, first out: at any time the blocks that entered are the ones that left, in the same
      order, followed by those still held. */
  lemma {:induction false} Fifo(q: Quarantine, es: seq<Freed>)
    requires Accounted(q) && forall e <- es :: e.size <= q.maxSize
    ensures var (q', ins, outs) := Through(q, es);
            Accounted(q') && q.list + ins == outs + q'.list
    decreases |es|
  {
    if es != [] {
      AdmitOk(q, es[0]);
      var (q1, out) := Admit(q, es[0]);
      Fifo(q1, es[1..]);
      var (q2, ins, outs) := Through(q1, es[1..]);
      if Enters(q, es[0]) {
        Chain(q.list, es[0], ins, Out(out), q1.list, outs, q2.list);
      }
    }
  }

  lemma {:induction false} Chain<T>(a: seq<T>, x: T, ins: seq<T>, o: seq<T>, b: seq<T>, outs: seq<T>, c: seq<T>)
    requires a + [x] == o + b && b + ins == outs + c
    ensures a + ([x] + ins) == o + outs + c
  {
    calc {
      a + ([x] + ins);
      (a + [x]) + ins;
      (o + b) + ins;
      o + (b + ins);
      o + (outs + c);
      o + outs + c;
    }
  }

  // ----- The objects of the code ------------------------------------------------------------

  /** struct quarantine. */
  class QuarantineRecord {
    var freelist: seq<Freed>
    var entries: nat
    const maxEntries: nat
    var size: nat
    const maxSize: nat

    constructor (maxEntries: nat, maxSize: nat)
      ensures Value() == Quarantine([], 0, maxEntries, 0, maxSize) && Accounted(Value())
    {
      freelist, entries, size := [], 0, 0;
      this.maxEntries, this.maxSize := maxEntries, maxSize;
    }

    function Value(): Quarantine
      reads this
    {
      Quarantine(freelist, entries, maxEntries, size, maxSize)
    }

    /** kasan_free_internal for a block of this quarantine's type: the block to give back to the
        allocator, or address 0 if there is none. */
    method FreeInternal(shadow: array<byte>, addr: nat, bytes: nat, t: nat, doQuarantine: bool,
                        ghost s: State, ghost b: Block)
      returns (addr': nat, bytes': nat)
      requires s.shadow == shadow[..] && t < |s.q| && s.q[t] == Value() && Accounted(Value()) && QueueOk(s, t)
      requires BlockOk(b, shadow.Length) && b.base == addr && b.size == bytes <= maxSize
      modifies shadow, this
      ensures var (s', out) := DoFree(s, b, t, doQuarantine);
              && shadow[..] == s'.shadow && Value() == s'.q[t]
              && (if out.Some? then addr' == out.value.base && bytes' == out.value.size else addr' == 0)
    {
      addr', bytes' := addr, bytes;
      if doQuarantine {
        Poison(shadow, addr, 0, bytes, 0, FreedFlag(t));
        var fle := Freed(addr, bytes);
        var tofree: Option<Freed> := None;
        if size + bytes > maxSize {
          tofree := Some(freelist[0]);
        }
        if tofree.None? || fle.size <= tofree.value.size {
          freelist := freelist + [fle];
          entries := entries + 1;
          size := size + bytes;
          if tofree.Some? || entries > maxEntries {
            var out := freelist[0];
            TotalAppend(old(freelist), fle);
            freelist := freelist[1..];
            entries := entries - 1;
            size := size - out.size;
            addr', bytes' := out.base, out.size;
          } else {
            addr' := 0;
          }
        }
      }
      if addr' != 0 {
        Poison(shadow, addr', bytes', 0, 0, 0);
      }
    }
  }
}
