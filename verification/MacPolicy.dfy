/** The registry of MAC policies (security/mac_base.c), in its growable configuration.

    The table is described as a value, on which whole runs of registrations are
    reasoned about; the class at the end updates it the way the code does. */
module MacPolicy {
  import opened Wrappers

  const CHUNK := 8
  const MAX_SLOTS := 7
  const WORD_MAX := 0xFFFF_FFFF

  /** What a policy asks for when it registers. */
  datatype Conf = Conf(name: string, unloadOk: bool, notLate: bool, wantsSlot: bool)

  /** A policy in the table, with its label slot if it asked for one, and its registered flag. */
  datatype Policy = Policy(conf: Conf, slot: Option<nat>, registered: bool)

  datatype Table = Table(
    entries: seq<Option<Policy>>, numloaded: nat, max: nat, maxindex: nat, staticmax: nat, freehint: nat,
    chunks: nat, slots: seq<bool>, late: bool)

  datatype Result = Registered(handle: nat) | Eperm | Eexist | Enomem

  datatype Outcome = Done | NotRegistered | Ebusy

  // ----- What the operations compute --------------------------------------------------------

  function Count(es: seq<Option<Policy>>): (n: nat)
    ensures n <= |es|
  {
    if es == [] then 0 else (if es[0].Some? then 1 else 0) + Count(es[1..])
  }

  /** The first empty entry from `i` on, or the length. */
  function FirstFree(es: seq<Option<Policy>>, i: nat): (h: nat)
    requires i <= |es|
    ensures i <= h <= |es| && (h < |es| ==> es[h].None?) && forall j :: i <= j < h ==> es[j].Some?
    decreases |es| - i
  {
    if i == |es| || es[i].None? then i else FirstFree(es, i + 1)
  }

  /** The lowest free slot, or the number of slots: ffs, counting from zero. */
  function FirstSlot(slots: seq<bool>): (k: nat)
    ensures k <= |slots| && (k < |slots| ==> slots[k]) && forall j :: 0 <= j < k ==> !slots[j]
  {
    if slots == [] || slots[0] then 0 else 1 + FirstSlot(slots[1..])
  }

  ghost predicate NameUsed(es: seq<Option<Policy>>, name: string) {
    exists i :: 0 <= i < |es| && es[i].Some? && es[i].value.conf.name == name
  }

  /** A full table gets one more chunk. */
  function Grown(t: Table): Table {
    if t.numloaded < t.max then t
    else t.(entries := t.entries + seq(CHUNK, _ => None), max := t.max + CHUNK, chunks := t.chunks + 1)
  }

  /** A policy placed at handle `h`. */
  function Placed(t: Table, conf: Conf, h: nat): Table
    requires h < |t.entries|
  {
    var k := FirstSlot(t.slots);
    var isStatic := !t.late || (!conf.unloadOk && h == t.staticmax);
    t.(entries := t.entries[h := Some(Policy(conf, if conf.wantsSlot then Some(k) else None, true))],
       slots := if conf.wantsSlot && k < |t.slots| then t.slots[k := false] else t.slots,
       freehint := h + 1, staticmax := if isStatic then t.staticmax + 1 else t.staticmax,
       maxindex := if h > t.maxindex then h else t.maxindex, numloaded := t.numloaded + 1)
  }

  ghost function Load(t: Table, conf: Conf): (Table, Result)
    requires Inv(t)
  {
    if t.late && conf.notLate then (t, Eperm) else
      var g := Grown(t);
      if NameUsed(g.entries, conf.name) then (g, Eexist)
      else if conf.wantsSlot && FirstSlot(g.slots) == |g.slots| then (g, Enomem)
      else
        GrownOk(t);
        HandleExists(g);
        var h := FirstFree(g.entries, g.freehint);
        (Placed(g, conf, h), Registered(h))
  }

  /** The table without the policy at handle `h`.  The counters are unsigned words. */
  function Removed(t: Table, h: nat): Table
    requires h < |t.entries| && t.entries[h].Some?
  {
    var p := t.entries[h].value;
    t.(entries := t.entries[h := None],
       freehint := if t.staticmax <= h < t.freehint then h else t.freehint,
       maxindex := if h != t.maxindex then t.maxindex else if h == 0 then WORD_MAX else h - 1,
       numloaded := if t.numloaded == 0 then WORD_MAX else t.numloaded - 1,
       slots := if p.slot.Some? && p.slot.value < |t.slots| then t.slots[p.slot.value := true] else t.slots)
  }

  /** Only a registered policy that allows it is unloaded; for any other the table stays. */
  function Unload(t: Table, h: nat): Table
    requires h < |t.entries| && t.entries[h].Some?
  {
    if Leaves(t.entries[h].value) then Removed(t, h) else t
  }

  predicate Leaves(p: Policy) { p.registered && p.conf.unloadOk }

  // ----- The invariant ----------------------------------------------------------------------

  /** Entry `i` holds a policy with slot `k`. */
  predicate Holds(es: seq<Option<Policy>>, i: int, k: int)
    requires 0 <= i < |es|
  {
    es[i].Some? && es[i].value.slot.Some? && es[i].value.slot.value == k
  }

  ghost predicate SizesOk(t: Table) {
    && |t.entries| == t.max == CHUNK * t.chunks && t.max > 0 && |t.slots| == MAX_SLOTS
    && t.numloaded == Count(t.entries) && t.maxindex < t.max && t.freehint <= t.max && t.staticmax <= t.max
  }

  /** The hint has no hole below it, nothing lies above maxindex, the static prefix is
      loaded, and before the framework is up there is nothing else. */
  ghost predicate HintsOk(t: Table)
    requires SizesOk(t)
  {
    && (forall i :: 0 <= i < t.freehint ==> t.entries[i].Some?)
    && (forall i :: t.maxindex < i < t.max ==> t.entries[i].None?)
    && (forall i :: 0 <= i < t.staticmax ==> t.entries[i].Some?)
    && (!t.late ==> t.freehint == t.staticmax && forall i :: t.staticmax <= i < t.max ==> t.entries[i].None?)
  }

  ghost predicate NamesOk(es: seq<Option<Policy>>) {
    forall i, j :: 0 <= i < j < |es| && es[i].Some? && es[j].Some? ==> es[i].value.conf.name != es[j].value.conf.name
  }

  /** The slots of the loaded policies are distinct, and are exactly those not free. */
  ghost predicate SlotsOk(es: seq<Option<Policy>>, slots: seq<bool>) {
    && (forall i, k :: 0 <= i < |es| && Holds(es, i, k) ==> 0 <= k < |slots| && !slots[k])
    && (forall i, j, k :: 0 <= i < |es| && 0 <= j < |es| && Holds(es, i, k) && Holds(es, j, k) ==> i == j)
    && (forall k :: 0 <= k < |slots| && !slots[k] ==> exists i :: 0 <= i < |es| && Holds(es, i, k))
  }

  ghost predicate Inv(t: Table) {
    SizesOk(t) && HintsOk(t) && NamesOk(t.entries) && SlotsOk(t.entries, t.slots)
  }

  // ----- Counting -----------------------------------------------------------------------------

  lemma {:induction false} CountUpdate(es: seq<Option<Policy>>, i: nat, e: Option<Policy>)
    requires i < |es|
    ensures Count(es[i := e]) == Count(es) - (if es[i].Some? then 1 else 0) + (if e.Some? then 1 else 0)
  {
    if i > 0 {
      assert es[i := e][1..] == es[1..][i - 1 := e];
      CountUpdate(es[1..], i - 1, e);
    } else {
      assert es[0 := e][1..] == es[1..];
    }
  }

  lemma {:induction false} CountFull(es: seq<Option<Policy>>)
    requires forall i :: 0 <= i < |es| ==> es[i].Some?
    ensures Count(es) == |es|
  {
    if es != [] { CountFull(es[1..]); }
  }

  lemma {:induction false} CountAppend(es: seq<Option<Policy>>, fs: seq<Option<Policy>>)
    requires forall i :: 0 <= i < |fs| ==> fs[i].None?
    ensures Count(es + fs) == Count(es)
  {
    if es != [] {
      assert (es + fs)[1..] == es[1..] + fs;
      CountAppend(es[1..], fs);
    } else if fs != [] {
      assert es + fs == fs && fs[1..] == [] + fs[1..];
      CountAppend([], fs[1..]);
    }
  }

  /** A free handle exists whenever the search for one is reached. */
  lemma {:induction false} HandleExists(t: Table)
    requires SizesOk(t) && HintsOk(t) && t.numloaded < t.max
    ensures FirstFree(t.entries, t.freehint) < t.max
  {
    if FirstFree(t.entries, t.freehint) == t.max {
      CountFull(t.entries);
    }
  }

  // ----- Growing ------------------------------------------------------------------------------

  lemma {:induction false} GrownSlots(es: seq<Option<Policy>>, fs: seq<Option<Policy>>, slots: seq<bool>)
    requires SlotsOk(es, slots) && forall i :: 0 <= i < |fs| ==> fs[i].None?
    ensures SlotsOk(es + fs, slots)
  {
    var gs := es + fs;
    assert forall i, k :: 0 <= i < |es| ==> Holds(gs, i, k) == Holds(es, i, k);
    assert forall i, k :: |es| <= i < |gs| ==> !Holds(gs, i, k);
    forall k | 0 <= k < |slots| && !slots[k]
      ensures exists i :: 0 <= i < |gs| && Holds(gs, i, k)
    {
      var i :| 0 <= i < |es| && Holds(es, i, k);
      assert Holds(gs, i, k);
    }
  }

  lemma {:induction false} GrownOk(t: Table)
    requires Inv(t)
    ensures Inv(Grown(t)) && Grown(t).numloaded < Grown(t).max
    ensures forall name :: NameUsed(Grown(t).entries, name) == NameUsed(t.entries, name)
  {
    if t.numloaded >= t.max {
      var fs := seq(CHUNK, _ => None);
      CountAppend(t.entries, fs);
      GrownSlots(t.entries, fs, t.slots);
      assert forall i :: 0 <= i < t.max ==> (t.entries + fs)[i] == t.entries[i];
    }
  }

  /** It grows by eight entries, exactly if it is full. */
  lemma {:induction false} GrownExact(t: Table)
    requires Inv(t)
    ensures var g := Grown(t);
      && g == t.(entries := g.entries, max := g.max, chunks := g.chunks)
      && (if t.numloaded < t.max then g == t
          else g.max == t.max + 8 && g.chunks == t.chunks + 1 && |g.entries| == |t.entries| + 8
               && g.entries[..|t.entries|] == t.entries && forall i :: |t.entries| <= i < |g.entries| ==>
                 g.entries[i].None?)
  {
  }

  // ----- Registering --------------------------------------------------------------------------

  lemma {:induction false} PlacedSlots(es: seq<Option<Policy>>, slots: seq<bool>, h: nat, p: Policy)
    requires SlotsOk(es, slots) && h < |es| && es[h].None?
    requires p.slot.Some? ==> p.slot.value < |slots| && slots[p.slot.value]
    ensures SlotsOk(es[h := Some(p)], if p.slot.Some? then slots[p.slot.value := false] else slots)
  {
    var gs := es[h := Some(p)];
    var free := if p.slot.Some? then slots[p.slot.value := false] else slots;
    assert forall i, k :: 0 <= i < |es| && i != h ==> Holds(gs, i, k) == Holds(es, i, k);
    assert forall k :: Holds(gs, h, k) <==> p.slot.Some? && k == p.slot.value;
    forall k | 0 <= k < |free| && !free[k]
      ensures exists i :: 0 <= i < |gs| && Holds(gs, i, k)
    {
      if p.slot.Some? && p.slot.value == k {
        assert Holds(gs, h, k);
      } else {
        var i :| 0 <= i < |es| && Holds(es, i, k);
        assert Holds(gs, i, k);
      }
    }
  }

  lemma {:induction false} PlacedHints(t: Table, conf: Conf)
    requires SizesOk(t) && HintsOk(t) && t.numloaded < t.max
    ensures var h := FirstFree(t.entries, t.freehint);
      h < |t.entries| && SizesOk(Placed(t, conf, h)) && HintsOk(Placed(t, conf, h))
  {
    HandleExists(t);
    var h := FirstFree(t.entries, t.freehint);
    CountUpdate(t.entries, h, Placed(t, conf, h).entries[h]);
  }

  lemma {:induction false} PlacedOk(t: Table, conf: Conf)
    requires Inv(t) && t.numloaded < t.max && !NameUsed(t.entries, conf.name)
    requires conf.wantsSlot ==> FirstSlot(t.slots) < |t.slots|
    ensures var h := FirstFree(t.entries, t.freehint);
      h < |t.entries| && Inv(Placed(t, conf, h)) && Added(t, Placed(t, conf, h), conf, h)
  {
    PlacedHints(t, conf);
    var h := FirstFree(t.entries, t.freehint);
    PlacedSlots(t.entries, t.slots, h, Placed(t, conf, h).entries[h].value);
  }

  ghost predicate Added(t: Table, u: Table, conf: Conf, h: nat) {
    && |t.entries| <= |u.entries| && h < |u.entries| && (h < |t.entries| ==> t.entries[h].None?)
    && u.numloaded == t.numloaded + 1
    && u.entries[h].Some? && u.entries[h].value.conf == conf && u.entries[h].value.slot.Some? == conf.wantsSlot
    && u.entries[h].value.registered
    && (forall i :: 0 <= i < h && i < |t.entries| ==> t.entries[i].Some?) && h <= |t.entries|
    && (forall k :: Holds(u.entries, h, k) ==> 0 <= k < |t.slots| && t.slots[k] && forall j :: 0 <= j < k ==>
      !t.slots[j])
    && (forall i :: 0 <= i < |u.entries| && i != h ==> u.entries[i] == if i < |t.entries| then t.entries[i] else None)
    && (u.staticmax == t.staticmax + 1 <==> !t.late || (!conf.unloadOk && h == t.staticmax))
    && t.staticmax <= u.staticmax <= t.staticmax + 1 && u.late == t.late
  }

  /** Which result a registration has. */
  lemma {:induction false} LoadResult(t: Table, conf: Conf)
    requires Inv(t)
    ensures var r := Load(t, conf).1;
      && (r.Eperm? <==> t.late && conf.notLate)
      && (r.Eexist? <==> !r.Eperm? && NameUsed(t.entries, conf.name))
      && (r.Enomem? <==> !r.Eperm? && !r.Eexist? && conf.wantsSlot && forall k :: 0 <= k < MAX_SLOTS ==> !t.slots[k])
  {
    GrownOk(t);
  }

  /** A refused registration changes nothing but the room in the table. */
  lemma {:induction false} LoadRefused(t: Table, conf: Conf)
    requires Inv(t) && !Load(t, conf).1.Registered?
    ensures var u := Load(t, conf).0;
      && Inv(u) && |t.entries| <= |u.entries|
      && u == t.(entries := u.entries, max := u.max, chunks := u.chunks)
      && forall i :: 0 <= i < |t.entries| ==> u.entries[i] == t.entries[i]
  {
    GrownOk(t);
  }

  lemma {:induction false} CountAll(es: seq<Option<Policy>>, i: nat)
    requires Count(es) == |es| && i < |es|
    ensures es[i].Some?
  {
    if i > 0 { CountAll(es[1..], i - 1); }
  }

  lemma {:induction false} AddedGrown(t: Table, u: Table, conf: Conf, h: nat)
    requires Inv(t) && t.max <= t.numloaded && Added(Grown(t), u, conf, h)
    ensures Added(t, u, conf, h)
  {
    forall i | 0 <= i < t.max
      ensures t.entries[i].Some? && Grown(t).entries[i] == t.entries[i]
    {
      CountAll(t.entries, i);
    }
    assert Grown(t).entries[t.max].None?;
  }

  /** A registration that succeeds adds one policy at the lowest free handle, with the
      lowest slot that no loaded policy has. */
  lemma {:induction false} LoadAdded(t: Table, conf: Conf)
    requires Inv(t) && Load(t, conf).1.Registered?
    ensures var (u, r) := Load(t, conf); Inv(u) && Added(t, u, conf, r.handle)
  {
    GrownOk(t);
    PlacedOk(Grown(t), conf);
    if t.max <= t.numloaded {
      AddedGrown(t, Load(t, conf).0, conf, Load(t, conf).1.handle);
    }
  }

  // ----- Unregistering ------------------------------------------------------------------------

  lemma {:induction false} RemovedSlots(es: seq<Option<Policy>>, slots: seq<bool>, h: nat)
    requires SlotsOk(es, slots) && h < |es| && es[h].Some?
    ensures var s := es[h].value.slot;
      && (s.Some? ==> s.value < |slots|)
      && SlotsOk(es[h := None], if s.Some? then slots[s.value := true] else slots)
  {
    var s := es[h].value.slot;
    var gs := es[h := None];
    assert s.Some? ==> Holds(es, h, s.value);
    var free := if s.Some? then slots[s.value := true] else slots;
    assert forall i, k :: 0 <= i < |es| && i != h ==> Holds(gs, i, k) == Holds(es, i, k);
    forall k | 0 <= k < |free| && !free[k]
      ensures exists i :: 0 <= i < |gs| && Holds(gs, i, k)
    {
      var i :| 0 <= i < |es| && Holds(es, i, k);
      assert Holds(gs, i, k);
    }
  }

  lemma {:induction false} RemovedOk(t: Table, h: nat)
    requires Inv(t) && h < |t.entries| && t.entries[h].Some?
    requires t.staticmax <= h && 0 < t.maxindex
    ensures Inv(Removed(t, h)) && Removed(t, h).numloaded == t.numloaded - 1
  {
    CountUpdate(t.entries, h, None);
    RemovedSlots(t.entries, t.slots, h);
  }

  /** Unregistering keeps the invariant exactly when the policy stays, or it is not static
      and is not the only entry the table has ever reached. */
  lemma {:induction false} UnloadExact(t: Table, h: nat)
    requires Inv(t) && t.max <= WORD_MAX && h < |t.entries| && t.entries[h].Some?
    ensures Inv(Unload(t, h)) <==> !Leaves(t.entries[h].value) || (t.staticmax <= h && 0 < t.maxindex)
  {
    if Leaves(t.entries[h].value) {
      if t.staticmax <= h && 0 < t.maxindex {
        RemovedOk(t, h);
      } else {
        assert Unload(t, h).entries[h].None?;
      }
    }
  }

  // ----- Whole runs ---------------------------------------------------------------------------

  /** No static policy can be unloaded. */
  ghost predicate Fixed(t: Table) {
    t.staticmax <= |t.entries|
    && forall i :: 0 <= i < t.staticmax && t.entries[i].Some? ==> !t.entries[i].value.conf.unloadOk
  }

  /** No static policy can be unloaded afterwards either, exactly when the framework is up, or
      the policy cannot be unloaded, or it finds its name in use or no slot free. */
  lemma {:induction false} LoadFixed(t: Table, conf: Conf)
    requires Inv(t) && Fixed(t)
    ensures Fixed(Load(t, conf).0) <==>
      || t.late || !conf.unloadOk || NameUsed(t.entries, conf.name)
      || (conf.wantsSlot && forall k :: 0 <= k < MAX_SLOTS ==> !t.slots[k])
  {
    LoadResult(t, conf);
    var (u, r) := Load(t, conf);
    if !r.Registered? {
      LoadRefused(t, conf);
    } else {
      LoadAdded(t, conf);
    }
    if r.Registered? && !t.late {
      assert r.handle == t.staticmax;
      assert u.entries[t.staticmax].value.conf == conf;
    }
  }

  function Init(): Table {
    Table(seq(CHUNK, _ => None), 0, CHUNK, 0, 0, 0, 1, seq(MAX_SLOTS, _ => true), false)
  }

  lemma {:induction false} EmptySlots(es: seq<Option<Policy>>, slots: seq<bool>)
    requires (forall i :: 0 <= i < |es| ==> es[i].None?) && forall k :: 0 <= k < |slots| ==> slots[k]
    ensures SlotsOk(es, slots) && NamesOk(es) && Count(es) == 0
  {
    CountAppend([], es);
    assert [] + es == es;
  }

  lemma {:induction false} EmptyOk(t: Table)
    requires |t.entries| == t.max == CHUNK * t.chunks && 0 < t.max && |t.slots| == MAX_SLOTS
    requires t.numloaded == t.maxindex == t.staticmax == t.freehint == 0 && !t.late
    requires forall i :: 0 <= i < t.max ==> t.entries[i].None?
    requires forall k :: 0 <= k < MAX_SLOTS ==> t.slots[k]
    ensures Inv(t)
  {
    EmptySlots(t.entries, t.slots);
  }

  lemma {:induction false} InitOk()
    ensures Good(Init()) && |Init().entries| == 8 && |Init().slots| == 7
  {
    EmptyOk(Init());
  }

  /** A policy that is taken out leaves its handle and its slot free, and everything else but the
      counters as it was; one that stays changes nothing. */
  lemma {:induction false} UnloadRemoves(t: Table, h: nat)
    requires Inv(t) && 0 < t.numloaded && h < |t.entries| && t.entries[h].Some?
    ensures var u, p := Unload(t, h), t.entries[h].value;
      if p.registered && p.conf.unloadOk then
        && u.entries == t.entries[h := None] && u.numloaded == t.numloaded - 1
        && u.max == t.max && u.chunks == t.chunks && u.staticmax == t.staticmax && u.late == t.late
        && (p.slot.None? ==> u.slots == t.slots)
        && (p.slot.Some? ==> p.slot.value < |t.slots| && u.slots == t.slots[p.slot.value := true])
        && u.freehint == (if t.staticmax <= h < t.freehint then h else t.freehint)
        && (0 < h ==> u.maxindex == if h == t.maxindex then h - 1 else t.maxindex)
      else u == t
  {
    if t.entries[h].value.slot.Some? {
      assert Holds(t.entries, h, t.entries[h].value.slot.value);
    }
  }

  /** An early policy that allows unloading becomes static all the same; taking it out
      again leaves a hole in the static prefix. */
  lemma {:induction false} StaticUnloaded(conf: Conf)
    requires conf.unloadOk
    ensures Good(Init())
    ensures var t := Load(Init(), conf).0.(late := true);
      t.staticmax == 1 && Inv(t) && t.entries[0].Some? && !Inv(Unload(t, 0))
  {
    InitOk();
    LoadResult(Init(), conf);
    LoadAdded(Init(), conf);
    UnloadExact(Load(Init(), conf).0.(late := true), 0);
  }

  /** With no policy loaded early, any policy that allows unloading gets handle zero and is not
      static; taking it out again wraps the highest index around. */
  lemma {:induction false} OnlyPolicyUnloaded(conf: Conf)
    requires conf.unloadOk && !conf.notLate
    ensures Inv(Init().(late := true))
    ensures var t := Load(Init().(late := true), conf).0;
      && Inv(t) && t.staticmax == 0 && t.entries[0].Some?
      && Unload(t, 0).maxindex == 0xFFFF_FFFF && !Inv(Unload(t, 0))
  {
    InitOk();
    var e := Init().(late := true);
    LoadResult(e, conf);
    LoadAdded(e, conf);
    UnloadExact(Load(e, conf).0, 0);
  }

  datatype Op = DoLoad(conf: Conf) | DoUnload(handle: nat) | FrameworkUp

  /** Early policies are not unloadable, only loaded handles are unregistered, and at least
      one static policy is there when the framework comes up. */
  ghost predicate Allowed(t: Table, op: Op) {
    match op
    case DoLoad(conf) => !t.late ==> !conf.unloadOk
    case DoUnload(h) => h < |t.entries| && t.entries[h].Some?
    case FrameworkUp => 0 < t.staticmax
  }

  ghost predicate Good(t: Table) {
    Inv(t) && Fixed(t) && (t.late ==> 0 < t.staticmax)
  }

  ghost function Exec(t: Table, op: Op): Table
    requires Good(t) && Allowed(t, op)
  {
    match op
    case DoLoad(conf) => Load(t, conf).0
    case DoUnload(h) => Unload(t, h)
    case FrameworkUp => t.(late := true)
  }

  /** What one step keeps: the invariant, and every static policy at its handle. */
  lemma {:induction false} ExecOk(t: Table, op: Op)
    requires Good(t) && Allowed(t, op)
    ensures Good(Exec(t, op)) && t.staticmax <= Exec(t, op).staticmax
    ensures forall i :: 0 <= i < t.staticmax ==> Exec(t, op).entries[i] == t.entries[i]
  {
    match op
    case DoLoad(conf) =>
      LoadFixed(t, conf);
      if Load(t, conf).1.Registered? {
        LoadAdded(t, conf);
      } else {
        LoadRefused(t, conf);
      }
    case DoUnload(h) =>
      if Leaves(t.entries[h].value) {
        RemovedOk(t, h);
      }
    case FrameworkUp =>
  }

  ghost predicate Run(ts: seq<Table>, ops: seq<Op>) {
    |ts| == |ops| + 1 && Good(ts[0]) && forall i :: 0 <= i < |ops| ==> Stepped(ts, ops, i)
  }

  ghost predicate Stepped(ts: seq<Table>, ops: seq<Op>, i: nat)
    requires |ts| == |ops| + 1 && i < |ops|
  {
    Good(ts[i]) ==> Allowed(ts[i], ops[i]) && ts[i + 1] == Exec(ts[i], ops[i])
  }

  /** Every table of a run is good, and a static policy keeps its handle from then on. */
  lemma {:induction false} RunOk(ts: seq<Table>, ops: seq<Op>, i: nat, j: nat)
    requires Run(ts, ops) && i <= j < |ts|
    ensures Good(ts[i]) && Good(ts[j]) && ts[i].staticmax <= ts[j].staticmax
    ensures forall h :: 0 <= h < ts[i].staticmax ==> ts[j].entries[h] == ts[i].entries[h] && ts[j].entries[h].Some?
    decreases j
  {
    if i < j {
      RunOk(ts, ops, i, j - 1);
      assert Stepped(ts, ops, j - 1);
      ExecOk(ts[j - 1], ops[j - 1]);
    } else if 0 < j {
      RunOk(ts, ops, j - 1, j - 1);
      assert Stepped(ts, ops, j - 1);
      ExecOk(ts[j - 1], ops[j - 1]);
    }
  }

  // ----- The registry itself ------------------------------------------------------------------

  class Registry {
    var entries: seq<Option<Policy>>
    var numloaded: nat
    var max: nat
    var maxindex: nat
    var staticmax: nat
    var freehint: nat
    var chunks: nat
    var slots: seq<bool>
    var late: bool

    ghost function Value(): Table
      reads this
    {
      Table(entries, numloaded, max, maxindex, staticmax, freehint, chunks, slots, late)
    }

    constructor ()
      ensures Value() == Init() && Good(Value())
    {
      entries := seq(CHUNK, _ => None);
      numloaded, max, maxindex, staticmax, freehint, chunks := 0, CHUNK, 0, 0, 0, 1;
      slots := seq(MAX_SLOTS, _ => true);
      late := false;
      InitOk();
    }

    /** Whether a policy of this name is loaded: the search ends at maxindex. */
    method Duplicate(name: string) returns (found: bool)
      requires Inv(Value())
      ensures found <==> NameUsed(entries, name)
    {
      var i := 0;
      while i <= maxindex
        invariant 0 <= i <= maxindex + 1
        invariant forall j :: 0 <= j < i && entries[j].Some? ==> entries[j].value.conf.name != name
      {
        if entries[i].Some? && entries[i].value.conf.name == name {
          return true;
        }
        i := i + 1;
      }
      return false;
    }

    /** The first free handle, searched from the hint. */
    method FreeHandle() returns (h: nat)
      requires Inv(Value()) && numloaded < max
      ensures h == FirstFree(entries, freehint) < max
    {
      HandleExists(Value());
      h := freehint;
      while entries[h].Some?
        invariant freehint <= h < max
        invariant FirstFree(entries, h) == FirstFree(entries, freehint) < max
        decreases max - h
      {
        h := h + 1;
      }
    }

    method Grow()
      modifies this
      ensures Value() == Grown(old(Value()))
    {
      if numloaded >= max {
        entries := entries + seq(CHUNK, _ => None);
        max := max + CHUNK;
        chunks := chunks + 1;
      }
    }

    method Register(conf: Conf) returns (r: Result)
      requires Inv(Value())
      modifies this
      ensures (Value(), r) == Load(old(Value()), conf)
      ensures Inv(Value())
    {
      if late && conf.notLate {
        return Eperm;
      }
      GrownOk(Value());
      Grow();
      var found := Duplicate(conf.name);
      if found {
        return Eexist;
      }
      var slot := None;
      if conf.wantsSlot {
        var k := FirstSlot(slots);
        if k == |slots| {
          return Enomem;
        }
        slot := Some(k);
      }
      PlacedOk(Value(), conf);
      r := Place(conf, slot);
    }

    method Place(conf: Conf, slot: Option<nat>) returns (r: Result)
      requires Inv(Value()) && numloaded < max
      requires slot == if conf.wantsSlot then Some(FirstSlot(slots)) else None
      requires slot.Some? ==> slot.value < |slots|
      requires FirstFree(entries, freehint) < |entries|
      modifies this
      ensures r == Registered(old(FirstFree(entries, freehint)))
      ensures Value() == Placed(old(Value()), conf, old(FirstFree(entries, freehint)))
    {
      var h := FreeHandle();
      if slot.Some? {
        slots := slots[slot.value := false];
      }
      freehint := h + 1;
      if !late || (!conf.unloadOk && h == staticmax) {
        staticmax := staticmax + 1;
      }
      entries := entries[h := Some(Policy(conf, slot, true))];
      if h > maxindex {
        maxindex := h;
      }
      numloaded := numloaded + 1;
      r := Registered(h);
    }

    /** The policy is taken out, or is not registered, or must stay: EBUSY. */
    method Unregister(h: nat) returns (r: Outcome)
      requires Inv(Value()) && h < |entries| && entries[h].Some?
      modifies this
      ensures Value() == Unload(old(Value()), h)
      ensures r == old(if !entries[h].value.registered then NotRegistered
        else if entries[h].value.conf.unloadOk then Done else Ebusy)
      ensures old(!Leaves(entries[h].value) || (staticmax <= h && 0 < maxindex)) ==> Inv(Value())
    {
      if !entries[h].value.registered {
        return NotRegistered;
      }
      if !entries[h].value.conf.unloadOk {
        return Ebusy;
      }
      if staticmax <= h && 0 < maxindex {
        RemovedOk(Value(), h);
      }
      RemovedSlots(entries, slots, h);
      Remove(h);
      r := Done;
    }

    method Remove(h: nat)
      requires h < |entries| && entries[h].Some?
      requires entries[h].value.slot.Some? ==> entries[h].value.slot.value < |slots|
      modifies this
      ensures Value() == Removed(old(Value()), h)
    {
      var p := entries[h].value;
      entries := entries[h := None];
      if h < freehint && h >= staticmax {
        freehint := h;
      }
      if h == maxindex {
        maxindex := if maxindex == 0 then WORD_MAX else maxindex - 1;
      }
      numloaded := if numloaded == 0 then WORD_MAX else numloaded - 1;
      if p.slot.Some? {
        slots := slots[p.slot.value := true];
      }
    }
  }
}
