/** A run of the protocol on the policy list in which a MAC check misses a policy: a registration
    that raises staticmax overlaps the unlocked test (security/mac_base.c). */
module MacRace {
  import P = MacPolicy
  import opened MacBusy
  import opened Wrappers

  lemma {:induction false} Longer(ss: seq<State>, acts: seq<Act>, a: Act, u: State)
    requires Run(ss, acts) && Takes(ss[|acts|], a, u)
    ensures Run(ss + [u], acts + [a])
  {
    forall i | 0 <= i < |acts + [a]|
      ensures Stepped(ss + [u], acts + [a], i)
    {
      if i < |acts| {
        assert Stepped(ss, acts, i);
      }
    }
  }

  lemma {:induction false} Extend(ss: seq<State>, acts: seq<Act>, a: Act)
    requires Run(ss, acts) && Inv(ss[|acts|]) && Enabled(ss[|acts|], a.t, a.c)
    ensures var u := Step(ss[|acts|], a.t, a.c); Run(ss + [u], acts + [a]) && Inv(u)
  {
    StepOk(ss[|acts|], a.t, a.c);
    Longer(ss, acts, a, Step(ss[|acts|], a.t, a.c));
  }

  /** The list has a hole next to its static policies and one other policy, at handle `h`; and
      a policy that can never be unloaded is about to fill the hole. */
  ghost predicate Gap(t: P.Table, h: nat, conf: P.Conf) {
    && P.Good(t) && t.late && t.staticmax < h < |t.entries| && t.entries[t.staticmax].None? && t.entries[h].Some?
    && Above(t) == 1 && !conf.unloadOk && !conf.notLate && !conf.wantsSlot && !P.NameUsed(t.entries, conf.name)
  }

  /** The table holds exactly these policies. */
  ghost predicate Holds(t: P.Table, m: map<nat, P.Conf>) {
    && (forall h <- m :: h < |t.entries| && t.entries[h].Some?
                         && t.entries[h].value.conf == m[h] && t.entries[h].value.registered)
    && forall h: nat :: h < |t.entries| && t.entries[h].Some? ==> h in m
  }

  /** A name that is not in use and a policy that wants no slot: it goes to the lowest free handle. */
  lemma {:induction false} LoadHolds(t: P.Table, m: map<nat, P.Conf>, conf: P.Conf, h: nat)
    requires P.Good(t) && Holds(t, m) && P.Allowed(t, P.DoLoad(conf)) && !conf.notLate && !conf.wantsSlot
      && h < |t.entries|
    requires (forall k <- m :: m[k].name != conf.name) && h !in m && forall k: nat :: k < h ==> k in m
    ensures var u := P.Exec(t, P.DoLoad(conf));
      && P.Good(u) && u.late == t.late && Holds(u, m[h := conf])
      && u.staticmax == t.staticmax + (if !t.late || (!conf.unloadOk && h == t.staticmax) then 1 else 0)
      && |t.entries| <= |u.entries| && u.numloaded == t.numloaded + 1 && (t.numloaded < t.max ==> u.max == t.max)
  {
    P.LoadResult(t, conf);
    P.LoadAdded(t, conf);
    P.ExecOk(t, P.DoLoad(conf));
    assert P.Load(t, conf).1.handle == h by {
      assert t.entries[h].None?;
    }
    AddedHolds(t, P.Exec(t, P.DoLoad(conf)), m, conf, h);
  }

  lemma {:induction false} AddedHolds(t: P.Table, u: P.Table, m: map<nat, P.Conf>, conf: P.Conf, h: nat)
    requires P.Good(t) && Holds(t, m) && P.Added(t, u, conf, h) && h < |t.entries| && h !in m
    ensures Holds(u, m[h := conf])
  {
  }

  lemma {:induction false} UnloadHolds(t: P.Table, m: map<nat, P.Conf>, h: nat)
    requires P.Good(t) && Holds(t, m) && h in m && m[h].unloadOk
    ensures P.Allowed(t, P.DoUnload(h))
    ensures var u := P.Exec(t, P.DoUnload(h));
      P.Good(u) && u.late == t.late && Holds(u, m - {h}) && u.staticmax == t.staticmax && |u.entries| == |t.entries|
  {
    P.ExecOk(t, P.DoUnload(h));
  }

  lemma {:induction false} LateHolds(t: P.Table, m: map<nat, P.Conf>)
    requires P.Good(t) && Holds(t, m) && 0 < t.staticmax
    ensures P.Good(P.Exec(t, P.FrameworkUp)) && Holds(P.Exec(t, P.FrameworkUp), m)
  {
    P.ExecOk(t, P.FrameworkUp);
  }

  lemma {:induction false} CountOne(es: seq<Option<P.Policy>>, k: nat)
    requires k < |es| && forall i :: 0 <= i < |es| ==> (es[i].Some? <==> i == k)
    ensures P.Count(es) == 1
  {
    if k > 0 {
      CountOne(es[1..], k - 1);
    } else {
      CountZero(es[1..]);
    }
  }

  lemma {:induction false} GapHolds(t: P.Table, a: P.Conf, d: P.Conf, conf: P.Conf)
    requires P.Good(t) && t.late && t.staticmax == 1 && 2 < |t.entries| && Holds(t, map[0 := a, 2 := d])
    requires !conf.unloadOk && !conf.notLate && !conf.wantsSlot && a.name != conf.name && d.name != conf.name
    ensures Gap(t, 2, conf)
  {
    assert 2 in map[0 := a, 2 := d];
    CountOne(t.entries[1..], 1);
  }

  lemma {:induction false} Follow(ts: seq<P.Table>, ops: seq<P.Op>, op: P.Op)
    requires P.Run(ts, ops) && P.Good(ts[|ops|]) && P.Allowed(ts[|ops|], op)
    ensures P.Run(ts + [P.Exec(ts[|ops|], op)], ops + [op])
  {
    var us := ts + [P.Exec(ts[|ops|], op)];
    forall i | 0 <= i < |ops + [op]|
      ensures P.Stepped(us, ops + [op], i)
    {
      if i < |ops| {
        assert P.Stepped(ts, ops, i);
      }
    }
  }

  /** A policy without slot or conflict, loaded at the end of a run of the registry. */
  lemma {:induction false} Loads(ts: seq<P.Table>, ops: seq<P.Op>, m: map<nat, P.Conf>, conf: P.Conf, h: nat)
    returns (us: seq<P.Table>, vs: seq<P.Op>)
    requires P.Run(ts, ops) && var t := ts[|ops|];
      && P.Good(t) && Holds(t, m) && P.Allowed(t, P.DoLoad(conf)) && !conf.notLate && !conf.wantsSlot && h < |t.entries|
    requires (forall k <- m :: m[k].name != conf.name) && h !in m && forall k: nat :: k < h ==> k in m
    ensures P.Run(us, vs) && us[0] == ts[0] && var t, u := ts[|ops|], us[|vs|];
      && P.Good(u) && u.late == t.late && Holds(u, m[h := conf]) && |t.entries| <= |u.entries|
      && u.staticmax == t.staticmax + (if !t.late || (!conf.unloadOk && h == t.staticmax) then 1 else 0)
      && u.numloaded == t.numloaded + 1 && (t.numloaded < t.max ==> u.max == t.max)
  {
    LoadHolds(ts[|ops|], m, conf, h);
    Follow(ts, ops, P.DoLoad(conf));
    us, vs := ts + [P.Exec(ts[|ops|], P.DoLoad(conf))], ops + [P.DoLoad(conf)];
  }

  /** One policy loaded early, and the framework up. */
  lemma {:induction false} Early(a: P.Conf) returns (ts: seq<P.Table>, ops: seq<P.Op>)
    requires !a.unloadOk && !a.notLate && !a.wantsSlot
    ensures P.Run(ts, ops) && ts[0] == P.Init() && var t := ts[|ops|];
      && P.Good(t) && t.late && Holds(t, map[0 := a]) && t.staticmax == 1 && P.CHUNK <= |t.entries|
      && t.numloaded == 1 && t.max == P.CHUNK
  {
    P.InitOk();
    ts, ops := Loads([P.Init()], [], map[], a, 0);
    LateHolds(ts[|ops|], map[0 := a]);
    Follow(ts, ops, P.FrameworkUp);
    ts, ops := ts + [P.Exec(ts[|ops|], P.FrameworkUp)], ops + [P.FrameworkUp];
  }

  /** Such a list comes about: a policy is loaded early, two that allow unloading are loaded late,
      and the first of them is unloaded. */
  lemma {:induction false} GapReached(a: P.Conf, x: P.Conf, d: P.Conf, conf: P.Conf)
    returns (ts: seq<P.Table>, ops: seq<P.Op>)
    requires !a.unloadOk && x.unloadOk && d.unloadOk && !conf.unloadOk
    requires !a.notLate && !x.notLate && !d.notLate && !conf.notLate
    requires !a.wantsSlot && !x.wantsSlot && !d.wantsSlot && !conf.wantsSlot
    requires a.name != x.name && a.name != d.name && a.name != conf.name && x.name != d.name && d.name != conf.name
    ensures P.Run(ts, ops) && ts[0] == P.Init() && Gap(ts[|ops|], 2, conf)
  {
    ts, ops := Early(a);
    ts, ops := Loads(ts, ops, map[0 := a], x, 1);
    ts, ops := Loads(ts, ops, map[0 := a, 1 := x], d, 2);
    UnloadHolds(ts[|ops|], map[0 := a, 1 := x, 2 := d], 1);
    Follow(ts, ops, P.DoUnload(1));
    ts, ops := ts + [P.Exec(ts[|ops|], P.DoUnload(1))], ops + [P.DoUnload(1)];
    assert map[0 := a, 1 := x, 2 := d] - {1} == map[0 := a, 2 := d];
    GapHolds(ts[|ops|], a, d, conf);
  }

  /** The first seven writes of that registration raise the mark and leave the entries. */
  lemma {:induction false} GapWrites(t: P.Table, h: nat, conf: P.Conf, k: nat)
    requires Gap(t, h, conf) && k <= 7
    ensures Changes(t, P.DoLoad(conf)) && !Grows(t, P.DoLoad(conf))
    ensures var w := Written(t, P.DoLoad(conf), k);
      w.entries == t.entries && w.numloaded == t.numloaded && w.staticmax == if k == 7 then t.staticmax + 1
        else t.staticmax
  {
    ProbeExact(t);
    P.LoadResult(t, conf);
    P.LoadAdded(t, conf);
    if t.max <= t.numloaded {
      P.CountAll(t.entries, t.staticmax);
    }
  }

  /** Thread 0 is between the two loads of its test, thread 1 on its way to register. */
  ghost predicate Racing(s: State, t: P.Table, h: nat) {
    && s.base == t && s.busy == 0 && |s.threads| == 2 && s.table.entries == t.entries
    && var th := s.threads[0];
    && th.pc == GotCount(t.staticmax + 1) && th.at == th.counted == t.staticmax && th.above == 1 && h in th.kept
      && th.grown == 0
  }

  ghost predicate Registering(s: State, conf: P.Conf, pc: Pc, k: nat)
    requires |s.threads| == 2
  {
    && s.threads[1].pc == pc && (HasLock(pc) <==> s.owner == Some(1)) && (s.owner.Some? ==> s.owner == Some(1))
    && if pc.Writing? then s.job == Some(Job(P.DoLoad(conf), k)) else s.job.None?
  }

  /** Nothing that thread 0 has or reads is different. */
  ghost predicate Untouched(s: State, u: State) {
    |s.threads| == |u.threads| == 2 && u.threads[0] == s.threads[0] && SameList(s, u) && u.base == s.base
      && u.busy == s.busy
  }

  function TowardsWriting(pc: Pc): Pc {
    if pc.Idle? then AskHold else if pc.AskHold? then Held else if pc.Held? then Exclusive else Writing
  }

  lemma {:induction false} HoldMoves(s: State, conf: P.Conf, pc: Pc)
    requires Inv(s) && |s.threads| == 2 && s.busy == 0 && Registering(s, conf, pc, 0) && Changes(s.base, P.DoLoad(conf))
    requires pc.Idle? || pc.AskHold? || pc.Held? || pc.Exclusive?
    ensures var c := if pc.Idle? then Modify else Change(P.DoLoad(conf));
      && Enabled(s, 1, c) && Untouched(s, Step(s, 1, c)) && Registering(Step(s, 1, c), conf, TowardsWriting(pc), 0)
  {
  }

  /** The table the next write leaves. */
  lemma {:induction false} NextMark(s: State, t: P.Table, h: nat, conf: P.Conf, k: nat)
    requires JobOk(s) && Gap(t, h, conf) && Racing(s, t, h) && Registering(s, conf, Writing, k) && k < 7
    ensures Changes(t, P.DoLoad(conf)) && Written(t, P.DoLoad(conf), k + 1).entries == s.table.entries == t.entries
  {
    GapWrites(t, h, conf, k);
    GapWrites(t, h, conf, k + 1);
  }

  lemma {:induction false} StepWrites(s: State, t: nat)
    requires Inv(s) && t < |s.threads| && s.threads[t].pc.Writing?
    ensures Enabled(s, t, Continue) && Step(s, t, Continue) == WriteStep(s, t)
  {
    assert Enabled(s, t, Continue);
    assert Step(s, t, Continue) == HoldStep(s, t, Continue);
  }

  lemma {:induction false} WriteMoves(s: State, t: P.Table, h: nat, conf: P.Conf, k: nat)
    requires Inv(s) && Gap(t, h, conf) && Racing(s, t, h) && Registering(s, conf, Writing, k) && k < 7
    ensures Enabled(s, 1, Continue)
    ensures Racing(Step(s, 1, Continue), t, h) && Registering(Step(s, 1, Continue), conf, Writing, k + 1)
  {
    NextMark(s, t, h, conf, k);
    StepWrites(s, 1);
    StillKept(s.table, Written(t, P.DoLoad(conf), k + 1), s.threads[0], h);
  }

  lemma {:induction false} StillKept(was: P.Table, now: P.Table, th: Thread, h: nat)
    requires h in th.kept && h < |was.entries| && now.entries == was.entries
    ensures h in Told(was, now, false, th).kept
  {
  }

  /** Thread 0 makes a check, thread 1 has not begun. */
  ghost predicate Checking(s: State, t: P.Table, h: nat, pc: Pc) {
    && s.base == s.table == t && s.job.None? && s.busy == 0 && s.owner.None? && |s.threads| == 2
    && s.threads[1] == Fresh(Idle, {}, 0) && s.threads[0].pc == pc && h in s.threads[0].kept
    && s.threads[0].grown == s.threads[0].raised == 0
    && (pc.Probe? ==> s.threads[0].at == t.staticmax)
  }

  lemma {:induction false} BeginMoves(s: State, t: P.Table, h: nat)
    requires Inv(s) && P.Good(t) && h < |t.entries| && t.entries[h].Some? && |s.threads| == 2
    requires Starts(s) && s.table == t
    ensures Enabled(s, 0, Check) && Checking(Step(s, 0, Check), t, h, Static(0))
  {
  }

  /** Where the next load of the walk over the static policies leads. */
  function NextLoad(t: P.Table, pc: Pc, current: nat): Pc
    requires Walking(pc)
  {
    if pc.Static? then (if pc.i < t.staticmax then Below(pc.i) else Probe)
    else if pc.Below? then Pointed(pc.i, current)
    else Static(pc.i + 1)
  }

  lemma {:induction false} StaticMoves(s: State, t: P.Table, h: nat, pc: Pc)
    requires Inv(s) && P.Good(t) && Checking(s, t, h, pc) && Walking(pc)
    ensures Enabled(s, 0, Continue) && pc.i <= t.staticmax && (!pc.Static? ==> pc.i < t.staticmax)
    ensures Checking(Step(s, 0, Continue), t, h, NextLoad(t, pc, s.current))
  {
    assert ThreadOk(s, s.threads[0]);
  }

  lemma {:induction false} LoadMoves(s: State, t: P.Table, h: nat, conf: P.Conf)
    requires Inv(s) && Gap(t, h, conf) && Checking(s, t, h, Probe)
    ensures Enabled(s, 0, Continue)
    ensures Racing(Step(s, 0, Continue), t, h) && Registering(Step(s, 0, Continue), conf, Idle, 0)
  {
    ProbeExact(t);
  }

  lemma {:induction false} Walked(ss: seq<State>, acts: seq<Act>, t: P.Table, h: nat, pc: Pc)
    returns (ss': seq<State>, acts': seq<Act>)
    requires Run(ss, acts) && Inv(ss[|acts|]) && P.Good(t) && Checking(ss[|acts|], t, h, pc) && Walking(pc)
    ensures Run(ss', acts') && ss'[0] == ss[0] && Inv(ss'[|acts'|]) && Checking(ss'[|acts'|], t, h, Probe)
    decreases t.staticmax - pc.i, if pc.Static? then 2 else if pc.Below? then 1 else 0
  {
    StaticMoves(ss[|acts|], t, h, pc);
    Extend(ss, acts, Act(0, Continue));
    ss', acts' := ss + [Step(ss[|acts|], 0, Continue)], acts + [Act(0, Continue)];
    var next := NextLoad(t, pc, ss[|acts|].current);
    if Walking(next) {
      ss', acts' := Walked(ss', acts', t, h, next);
    }
  }

  lemma {:induction false} Holding(ss: seq<State>, acts: seq<Act>, conf: P.Conf, pc: Pc)
    returns (ss': seq<State>, acts': seq<Act>)
    requires Run(ss, acts) && Inv(ss[|acts|]) && |ss[|acts|].threads| == 2 && ss[|acts|].busy == 0
    requires Registering(ss[|acts|], conf, pc, 0) && Changes(ss[|acts|].base, P.DoLoad(conf))
    requires pc.Idle? || pc.AskHold? || pc.Held? || pc.Exclusive?
    ensures Run(ss', acts') && ss'[0] == ss[0] && Inv(ss'[|acts'|])
    ensures Untouched(ss[|acts|], ss'[|acts'|]) && Registering(ss'[|acts'|], conf, Writing, 0)
    decreases if pc.Idle? then 3 else if pc.AskHold? then 2 else if pc.Held? then 1 else 0
  {
    var c := if pc.Idle? then Modify else Change(P.DoLoad(conf));
    HoldMoves(ss[|acts|], conf, pc);
    Extend(ss, acts, Act(1, c));
    ss', acts' := ss + [Step(ss[|acts|], 1, c)], acts + [Act(1, c)];
    if !pc.Exclusive? {
      ss', acts' := Holding(ss', acts', conf, TowardsWriting(pc));
    }
  }

  lemma {:induction false} Marking(ss: seq<State>, acts: seq<Act>, t: P.Table, h: nat, conf: P.Conf, k: nat)
    returns (ss': seq<State>, acts': seq<Act>)
    requires Run(ss, acts) && Inv(ss[|acts|]) && Gap(t, h, conf) && Racing(ss[|acts|], t, h)
    requires Registering(ss[|acts|], conf, Writing, k) && k <= 7
    ensures Run(ss', acts') && ss'[0] == ss[0] && Inv(ss'[|acts'|]) && Racing(ss'[|acts'|], t, h)
      && Registering(ss'[|acts'|], conf, Writing, 7)
    decreases 7 - k
  {
    ss', acts' := ss, acts;
    if k < 7 {
      WriteMoves(ss[|acts|], t, h, conf, k);
      Extend(ss, acts, Act(1, Continue));
      ss', acts' := ss + [Step(ss[|acts|], 1, Continue)], acts + [Act(1, Continue)];
      ss', acts' := Marking(ss', acts', t, h, conf, k + 1);
    }
  }

  lemma {:induction false} SkipMoves(s: State, t: P.Table, h: nat, conf: P.Conf)
    requires Inv(s) && Gap(t, h, conf) && Racing(s, t, h) && Registering(s, conf, Writing, 7)
    ensures Enabled(s, 0, Continue)
    ensures Missed(Step(s, 0, Continue), h)
  {
    GapWrites(t, h, conf, 7);
    assert ThreadOk(s, s.threads[0]);
  }

  lemma {:induction false} Begun(t: P.Table, h: nat) returns (ss: seq<State>, acts: seq<Act>)
    requires P.Good(t) && t.late && h < |t.entries| && t.entries[h].Some?
    ensures Run(ss, acts) && ss[0].table == t && Inv(ss[|acts|]) && Checking(ss[|acts|], t, h, Static(0))
  {
    var s := State(t, t, 0, 0, None, 0, None, [Fresh(Idle, {}, 0), Fresh(Idle, {}, 0)]);
    StartsOk(s);
    BeginMoves(s, t, h);
    Extend([s], [], Act(0, Check));
    ss, acts := [s] + [Step(s, 0, Check)], [] + [Act(0, Check)];
  }

  lemma {:induction false} Loading(ss: seq<State>, acts: seq<Act>, t: P.Table, h: nat, conf: P.Conf)
    returns (ss': seq<State>, acts': seq<Act>)
    requires Run(ss, acts) && Inv(ss[|acts|]) && Gap(t, h, conf) && Checking(ss[|acts|], t, h, Probe)
    ensures Run(ss', acts') && ss'[0] == ss[0] && Inv(ss'[|acts'|]) && Racing(ss'[|acts'|], t, h)
    ensures Registering(ss'[|acts'|], conf, Idle, 0)
  {
    LoadMoves(ss[|acts|], t, h, conf);
    Extend(ss, acts, Act(0, Continue));
    ss', acts' := ss + [Step(ss[|acts|], 0, Continue)], acts + [Act(0, Continue)];
  }

  lemma {:induction false} Skipping(ss: seq<State>, acts: seq<Act>, t: P.Table, h: nat, conf: P.Conf)
    returns (ss': seq<State>, acts': seq<Act>)
    requires Run(ss, acts) && Inv(ss[|acts|]) && Gap(t, h, conf) && Racing(ss[|acts|], t, h)
    requires Registering(ss[|acts|], conf, Writing, 7)
    ensures Run(ss', acts') && ss'[0] == ss[0] && Missed(ss'[|acts'|], h)
  {
    SkipMoves(ss[|acts|], t, h, conf);
    Extend(ss, acts, Act(0, Continue));
    ss', acts' := ss + [Step(ss[|acts|], 0, Continue)], acts + [Act(0, Continue)];
  }

  /** The check of thread 0 has ended without consulting a policy that was there all along, and
      overlapped one registration that raises the mark and none that makes room. */
  ghost predicate Missed(s: State, h: nat) {
    && |s.threads| == 2
    && var th := s.threads[0]; th.pc.Finished? && h in th.kept && h !in th.seen && th.raised == 1 && th.grown == 0
  }

  /** Not every check is complete.  For any list with such a gap there is a run in which a check
      ends without consulting the policy at `h`, which was registered all the time. */
  lemma {:induction false} PolicyMissed(t: P.Table, h: nat, conf: P.Conf) returns (ss: seq<State>, acts: seq<Act>)
    requires Gap(t, h, conf)
    ensures Run(ss, acts) && ss[0].table == t && Missed(ss[|acts|], h)
  {
    ss, acts := Begun(t, h);
    ss, acts := Walked(ss, acts, t, h, Static(0));
    ss, acts := Loading(ss, acts, t, h, conf);
    GapWrites(t, h, conf, 0);
    ss, acts := Holding(ss, acts, conf, Idle);
    ss, acts := Marking(ss, acts, t, h, conf, 0);
    ss, acts := Skipping(ss, acts, t, h, conf);
  }
}
