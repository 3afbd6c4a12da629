/** A run of the protocol on the policy list in which a MAC check misses a static policy: a
    registration that makes room frees the array the check is about to read (security/mac_base.c). */
module MacGrow {
  import P = MacPolicy
  import opened MacBusy
  import opened MacRace
  import opened Wrappers

  /** The table is full, the framework is up, and a policy is about to be registered, whether it
      will be entered or refused. */
  ghost predicate Full(t: P.Table, conf: P.Conf) {
    P.Good(t) && t.late && t.max <= t.numloaded && !conf.notLate
  }

  lemma {:induction false} EntryLoaded(t: P.Table, conf: P.Conf, h: nat)
    requires P.Inv(t) && h < |t.entries| && t.entries[h].Some?
    ensures var u := P.Load(t, conf).0; h < |u.entries| && u.entries[h] == t.entries[h]
  {
    if P.Load(t, conf).1.Registered? {
      P.LoadAdded(t, conf);
    } else {
      P.LoadRefused(t, conf);
    }
  }

  /** A policy in the list is there after each of the writes. */
  lemma {:induction false} EntryStays(t: P.Table, conf: P.Conf, h: nat, k: nat)
    requires Full(t, conf) && h < |t.entries| && t.entries[h].Some?
    ensures Changes(t, P.DoLoad(conf)) && Grows(t, P.DoLoad(conf))
    ensures var w := Written(t, P.DoLoad(conf), k); h < |w.entries| && w.entries[h] == t.entries[h]
  {
    EntryLoaded(t, conf, h);
    assert Changes(t, P.DoLoad(conf));
  }

  /** Eight policies of different names, the first of which cannot be unloaded. */
  ghost predicate Eight(confs: seq<P.Conf>) {
    && |confs| == P.CHUNK && !confs[0].unloadOk
    && (forall k :: 0 <= k < |confs| ==> !confs[k].notLate && !confs[k].wantsSlot)
    && forall j, k :: 0 <= j < k < |confs| ==> confs[j].name != confs[k].name
  }

  ghost function First(confs: seq<P.Conf>, n: nat): map<nat, P.Conf>
    requires n <= |confs|
  {
    map k: nat | k < n :: confs[k]
  }

  /** The first `n` of the policies are loaded. */
  ghost predicate HasFirst(t: P.Table, confs: seq<P.Conf>, n: nat)
    requires n <= |confs|
  {
    P.Good(t) && t.late && Holds(t, First(confs, n)) && t.numloaded == n && t.max == P.CHUNK
  }

  lemma {:induction false} FirstMore(confs: seq<P.Conf>, n: nat)
    requires Eight(confs) && n < P.CHUNK
    ensures First(confs, n + 1) == First(confs, n)[n := confs[n]]
    ensures n !in First(confs, n) && forall k <- First(confs, n) :: First(confs, n)[k].name != confs[n].name
    ensures forall k: nat :: k < n ==> k in First(confs, n)
  {
  }

  lemma {:induction false} NextLoaded(t: P.Table, confs: seq<P.Conf>, n: nat)
    requires Eight(confs) && n < P.CHUNK && HasFirst(t, confs, n)
    ensures P.Allowed(t, P.DoLoad(confs[n])) && HasFirst(P.Exec(t, P.DoLoad(confs[n])), confs, n + 1)
  {
    FirstMore(confs, n);
    LoadHolds(t, First(confs, n), confs[n], n);
  }

  lemma {:induction false} EarlyFirst(confs: seq<P.Conf>) returns (ts: seq<P.Table>, ops: seq<P.Op>)
    requires Eight(confs)
    ensures P.Run(ts, ops) && ts[0] == P.Init() && HasFirst(ts[|ops|], confs, 1)
  {
    ts, ops := Early(confs[0]);
    assert First(confs, 1) == map[0 := confs[0]];
  }

  lemma {:induction false} LoadedFirst(confs: seq<P.Conf>, n: nat) returns (ts: seq<P.Table>, ops: seq<P.Op>)
    requires Eight(confs) && 1 <= n <= P.CHUNK
    ensures P.Run(ts, ops) && ts[0] == P.Init() && HasFirst(ts[|ops|], confs, n)
  {
    if n == 1 {
      ts, ops := EarlyFirst(confs);
    } else {
      ts, ops := LoadedFirst(confs, n - 1);
      var t, op := ts[|ops|], P.DoLoad(confs[n - 1]);
      NextLoaded(t, confs, n - 1);
      Follow(ts, ops, op);
      ts, ops := ts + [P.Exec(t, op)], ops + [op];
    }
  }

  /** A full table comes about: the first of eight policies is loaded early, the others late. */
  lemma {:induction false} FullReached(confs: seq<P.Conf>, conf: P.Conf) returns (ts: seq<P.Table>, ops: seq<P.Op>)
    requires Eight(confs) && !conf.notLate
    ensures P.Run(ts, ops) && ts[0] == P.Init() && Full(ts[|ops|], conf)
  {
    ts, ops := LoadedFirst(confs, P.CHUNK);
  }

  // ----- The check comes to the policy, and its array is freed ----------------------------------

  /** The walk of thread 0 goes on until it is about to load the entry at `h`. */
  lemma {:induction false} WalkedTo(ss: seq<State>, acts: seq<Act>, t: P.Table, h: nat, pc: Pc)
    returns (ss': seq<State>, acts': seq<Act>)
    requires Run(ss, acts) && Inv(ss[|acts|]) && P.Good(t) && Checking(ss[|acts|], t, h, pc) && Walking(pc)
    requires pc.i <= h < t.staticmax
    ensures Run(ss', acts') && ss'[0] == ss[0] && Inv(ss'[|acts'|])
    ensures Checking(ss'[|acts'|], t, h, Pointed(h, ss'[|acts'|].current))
    decreases h - pc.i, if pc.Static? then 2 else if pc.Below? then 1 else 0
  {
    ss', acts' := ss, acts;
    assert ThreadOk(ss[|acts|], ss[|acts|].threads[0]);
    if pc != Pointed(h, ss[|acts|].current) {
      StaticMoves(ss[|acts|], t, h, pc);
      Extend(ss, acts, Act(0, Continue));
      ss', acts' := ss + [Step(ss[|acts|], 0, Continue)], acts + [Act(0, Continue)];
      ss', acts' := WalkedTo(ss', acts', t, h, NextLoad(t, pc, ss[|acts|].current));
    }
  }

  /** Thread 0 is at `pc` and ought to consult the policy at `h`. */
  ghost predicate Reading(s: State, t: P.Table, h: nat, pc: Pc, lost: set<nat>, grown: nat) {
    && s.base == t && s.busy == 0 && |s.threads| == 2
    && var th := s.threads[0];
       th.pc == pc && h in th.kept && lost <= th.lost && th.grown == grown && th.raised == 0
  }

  lemma {:induction false} ToldReads(was: P.Table, now: P.Table, frees: bool, th: Thread, h: nat)
    requires h in th.kept && h < |was.entries| && h < |now.entries| && now.entries[h] == was.entries[h]
    ensures h in Told(was, now, frees, th).kept
  {
  }

  /** A write of the registration, while thread 0 walks. */
  lemma {:induction false} GrowMoves(s: State, t: P.Table, conf: P.Conf, h: nat, pc: Pc, lost: set<nat>, grown: nat,
                                     k: nat)
    requires Inv(s) && Full(t, conf) && Reading(s, t, h, pc, lost, grown) && Walking(pc)
    requires Registering(s, conf, Writing, k) && k < 10
    ensures Enabled(s, 1, Continue)
    ensures var u := Step(s, 1, Continue);
      && Reading(u, t, h, pc, lost, if k == 0 then grown + 1 else grown) && Registering(u, conf, Writing, k + 1)
      && (k == 0 ==> u.current == s.current < u.live)
  {
    assert ThreadOk(s, s.threads[0]);
    EntryStays(t, conf, h, k);
    EntryStays(t, conf, h, k + 1);
    StepWrites(s, 1);
    ToldReads(s.table, Written(t, P.DoLoad(conf), k + 1), k == 0, s.threads[0], h);
  }

  lemma {:induction false} Growing(ss: seq<State>, acts: seq<Act>, t: P.Table, conf: P.Conf, h: nat, pc: Pc,
                                   lost: set<nat>, k: nat)
    returns (ss': seq<State>, acts': seq<Act>)
    requires Run(ss, acts) && Inv(ss[|acts|]) && Full(t, conf) && Reading(ss[|acts|], t, h, pc, lost, 1) && Walking(pc)
    requires Registering(ss[|acts|], conf, Writing, k) && 1 <= k <= 10
    ensures Run(ss', acts') && ss'[0] == ss[0] && Inv(ss'[|acts'|]) && Reading(ss'[|acts'|], t, h, pc, lost, 1)
    ensures Registering(ss'[|acts'|], conf, Writing, 10)
    decreases 10 - k
  {
    ss', acts' := ss, acts;
    if k < 10 {
      GrowMoves(ss[|acts|], t, conf, h, pc, lost, 1, k);
      Extend(ss, acts, Act(1, Continue));
      ss', acts' := ss + [Step(ss[|acts|], 1, Continue)], acts + [Act(1, Continue)];
      ss', acts' := Growing(ss', acts', t, conf, h, pc, lost, k + 1);
    }
  }

  /** Thread 0 finds nothing in the freed array. */
  lemma {:induction false} StaleMoves(s: State, t: P.Table, h: nat, a: nat)
    requires Inv(s) && Reading(s, t, h, Pointed(h, a), {}, 1) && a < s.live
    ensures Enabled(s, 0, Stale(None)) && s.threads[1] == Step(s, 0, Stale(None)).threads[1]
    ensures Reading(Step(s, 0, Stale(None)), t, h, Static(h + 1), {h}, 1)
    ensures Step(s, 0, Stale(None)).owner == s.owner && Step(s, 0, Stale(None)).job == s.job
  {
    assert ThreadOk(s, s.threads[0]);
  }

  // ----- The check goes on to its end -----------------------------------------------------------

  /** The registration is over, and thread 0 has lost the policy at `h`. */
  ghost predicate Lost(s: State, h: nat, other: Pc) {
    && |s.threads| == 2 && s.job.None? && s.threads[1].pc == other
    && var th := s.threads[0]; h in th.kept && h in th.lost && th.grown == 1 && th.raised == 0
  }

  lemma {:induction false} EndMoves(s: State, t: P.Table, conf: P.Conf, h: nat, pc: Pc)
    requires Inv(s) && Reading(s, t, h, pc, {h}, 1) && Registering(s, conf, Writing, 10)
    ensures Enabled(s, 1, Continue) && Step(s, 1, Continue).threads[0] == s.threads[0]
    ensures Lost(Step(s, 1, Continue), h, Changed)
  {
    StepWrites(s, 1);
  }

  lemma {:induction false} ReleaseMoves(s: State, h: nat)
    requires Inv(s) && Lost(s, h, Changed)
    ensures Enabled(s, 1, Continue) && Step(s, 1, Continue).threads[0] == s.threads[0]
    ensures Lost(Step(s, 1, Continue), h, Released)
  {
    GivesLock(s, 1, Continue);
  }

  /** How far a check on a table at rest is from its end. */
  function Left(t: P.Table, pc: Pc): nat {
    match pc
    case Static(i) => 14 + t.maxindex + 3 * (if i <= t.staticmax then t.staticmax - i else 0)
    case Below(i) => 13 + t.maxindex + 3 * (if i <= t.staticmax then t.staticmax - i else 0)
    case Pointed(i, _) => 12 + t.maxindex + 3 * (if i <= t.staticmax then t.staticmax - i else 0)
    case Probe => 11 + t.maxindex
    case GotCount(_) => 10 + t.maxindex
    case GotMark(_) => 10 + t.maxindex
    case AskRaise => 9 + t.maxindex
    case Raise => 8 + t.maxindex
    case Raised => 7 + t.maxindex
    case Walk(i) => 5 + (if i <= t.maxindex then t.maxindex + 1 - i else 0)
    case AskLower => 4
    case Lower => 3
    case Lowered => 2
    case LowerDone => 1
    case Skip => 1
    case _ => 0
  }

  /** Thread 0 takes a step closer. */
  ghost predicate Closer(s: State, u: State, h: nat)
    requires |s.threads| == 2
  {
    Lost(u, h, Released) && SameList(s, u) && Left(u.table, u.threads[0].pc) < Left(s.table, s.threads[0].pc)
    && (u.threads[0].pc.Finished? || 0 < Left(u.table, u.threads[0].pc))
  }

  lemma {:induction false} WalkCloser(s: State, h: nat)
    requires Inv(s) && Lost(s, h, Released) && Walking(s.threads[0].pc)
    ensures Enabled(s, 0, Continue) && Closer(s, Step(s, 0, Continue), h)
  {
    assert ThreadOk(s, s.threads[0]);
  }

  lemma {:induction false} TestCloser(s: State, h: nat)
    requires Inv(s) && Lost(s, h, Released)
    requires s.threads[0].pc.Probe? || s.threads[0].pc.GotCount? || s.threads[0].pc.GotMark?
    ensures Enabled(s, 0, Continue) && Closer(s, Step(s, 0, Continue), h)
  {
    assert ThreadOk(s, s.threads[0]);
  }

  lemma {:induction false} AskCloser(s: State, h: nat)
    requires Inv(s) && Lost(s, h, Released) && (s.threads[0].pc.AskRaise? || s.threads[0].pc.AskLower?)
    ensures Enabled(s, 0, Continue) && Closer(s, Step(s, 0, Continue), h)
  {
    TakesLock(s, 0, Continue);
  }

  lemma {:induction false} RaiseCloser(s: State, h: nat)
    requires Inv(s) && Lost(s, h, Released)
    requires s.threads[0].pc.Raise? || s.threads[0].pc.Raised? || s.threads[0].pc.Walk?
    ensures Enabled(s, 0, Continue) && Closer(s, Step(s, 0, Continue), h)
  {
    assert ThreadOk(s, s.threads[0]);
  }

  lemma {:induction false} LowerCloser(s: State, h: nat)
    requires Inv(s) && Lost(s, h, Released)
    requires s.threads[0].pc.Lower? || s.threads[0].pc.Lowered?
    ensures Enabled(s, 0, Continue) && Closer(s, Step(s, 0, Continue), h)
  {
  }

  lemma {:induction false} UnlockCloser(s: State, h: nat)
    requires Inv(s) && Lost(s, h, Released) && (s.threads[0].pc.LowerDone? || s.threads[0].pc.Skip?)
    ensures Enabled(s, 0, Continue) && Closer(s, Step(s, 0, Continue), h)
  {
    GivesLock(s, 0, Continue);
  }

  lemma {:induction false} StepCloser(s: State, h: nat)
    requires Inv(s) && Lost(s, h, Released) && 0 < Left(s.table, s.threads[0].pc)
    ensures Enabled(s, 0, Continue) && Closer(s, Step(s, 0, Continue), h)
  {
    var pc := s.threads[0].pc;
    if Walking(pc) {
      WalkCloser(s, h);
    } else if pc.Probe? || pc.GotCount? || pc.GotMark? {
      TestCloser(s, h);
    } else if pc.AskRaise? || pc.AskLower? {
      AskCloser(s, h);
    } else if pc.Raise? || pc.Raised? || pc.Walk? {
      RaiseCloser(s, h);
    } else if pc.Lower? || pc.Lowered? {
      LowerCloser(s, h);
    } else {
      UnlockCloser(s, h);
    }
  }

  lemma {:induction false} Finishes(ss: seq<State>, acts: seq<Act>, h: nat) returns (ss': seq<State>, acts': seq<Act>)
    requires Run(ss, acts) && Inv(ss[|acts|]) && Lost(ss[|acts|], h, Released)
    requires var s := ss[|acts|]; s.threads[0].pc.Finished? || 0 < Left(s.table, s.threads[0].pc)
    ensures Run(ss', acts') && ss'[0] == ss[0] && Inv(ss'[|acts'|])
    ensures Lost(ss'[|acts'|], h, Released) && ss'[|acts'|].threads[0].pc.Finished?
    decreases Left(ss[|acts|].table, ss[|acts|].threads[0].pc)
  {
    ss', acts' := ss, acts;
    if !ss[|acts|].threads[0].pc.Finished? {
      StepCloser(ss[|acts|], h);
      Extend(ss, acts, Act(0, Continue));
      ss', acts' := ss + [Step(ss[|acts|], 0, Continue)], acts + [Act(0, Continue)];
      ss', acts' := Finishes(ss', acts', h);
    }
  }

  // ----- The run --------------------------------------------------------------------------------

  /** The check of thread 0 has ended without consulting a static policy; it overlapped one
      registration that makes room, and its test overlapped none. */
  ghost predicate StaticMissed(s: State, h: nat) {
    && |s.threads| == 2
    && var th := s.threads[0];
       th.pc.Finished? && h in th.kept && h !in th.seen && th.raised == 0 && th.grown == 1
  }

  lemma {:induction false} LostIsMissed(s: State, h: nat)
    requires Inv(s) && Lost(s, h, Released) && s.threads[0].pc.Finished?
    ensures StaticMissed(s, h)
  {
    assert ThreadOk(s, s.threads[0]);
    FinishedExact(s.table, InForce(s), s.threads[0]);
    assert CheckOk(s.table, InForce(s), s.threads[0]);
  }

  /** The check of thread 0 is about to read the array that thread 1 has freed. */
  lemma {:induction false} Freed(t: P.Table, conf: P.Conf, h: nat) returns (ss: seq<State>, acts: seq<Act>, a: nat)
    requires Full(t, conf) && h < t.staticmax
    ensures Run(ss, acts) && ss[0].table == t && Inv(ss[|acts|]) && Reading(ss[|acts|], t, h, Pointed(h, a), {}, 1)
    ensures a < ss[|acts|].live && Registering(ss[|acts|], conf, Writing, 1)
  {
    ss, acts := Begun(t, h);
    ss, acts := WalkedTo(ss, acts, t, h, Static(0));
    a := ss[|acts|].current;
    EntryStays(t, conf, h, 0);
    ss, acts := Holding(ss, acts, conf, Idle);
    GrowMoves(ss[|acts|], t, conf, h, Pointed(h, a), {}, 0, 0);
    Extend(ss, acts, Act(1, Continue));
    ss, acts := ss + [Step(ss[|acts|], 1, Continue)], acts + [Act(1, Continue)];
  }

  /** It finds nothing there, and goes on. */
  lemma {:induction false} Strays(t: P.Table, conf: P.Conf, h: nat) returns (ss: seq<State>, acts: seq<Act>)
    requires Full(t, conf) && h < t.staticmax
    ensures Run(ss, acts) && ss[0].table == t && Inv(ss[|acts|]) && Reading(ss[|acts|], t, h, Static(h + 1), {h}, 1)
    ensures Registering(ss[|acts|], conf, Writing, 1)
  {
    var a;
    ss, acts, a := Freed(t, conf, h);
    StaleMoves(ss[|acts|], t, h, a);
    Extend(ss, acts, Act(0, Stale(None)));
    ss, acts := ss + [Step(ss[|acts|], 0, Stale(None))], acts + [Act(0, Stale(None))];
  }

  lemma {:induction false} Ends(ss: seq<State>, acts: seq<Act>, t: P.Table, conf: P.Conf, h: nat, pc: Pc)
    returns (ss': seq<State>, acts': seq<Act>)
    requires Run(ss, acts) && Inv(ss[|acts|]) && Reading(ss[|acts|], t, h, pc, {h}, 1)
      && Registering(ss[|acts|], conf, Writing, 10)
    ensures Run(ss', acts') && ss'[0] == ss[0] && Inv(ss'[|acts'|]) && Lost(ss'[|acts'|], h, Released)
    ensures ss'[|acts'|].threads[0].pc == pc
  {
    EndMoves(ss[|acts|], t, conf, h, pc);
    Extend(ss, acts, Act(1, Continue));
    ss', acts' := ss + [Step(ss[|acts|], 1, Continue)], acts + [Act(1, Continue)];
    ReleaseMoves(ss'[|acts'|], h);
    Extend(ss', acts', Act(1, Continue));
    ss', acts' := ss' + [Step(ss'[|acts'|], 1, Continue)], acts' + [Act(1, Continue)];
  }

  /** Not even the static policies are all consulted.  For any full table, any policy registered
      next and any static policy, there is a run in which a check ends without consulting it. */
  lemma {:induction false} StaticPolicyMissed(t: P.Table, conf: P.Conf, h: nat) returns (ss: seq<State>, acts: seq<Act>)
    requires Full(t, conf) && h < t.staticmax
    ensures Run(ss, acts) && ss[0].table == t && StaticMissed(ss[|acts|], h)
  {
    ss, acts := Strays(t, conf, h);
    ss, acts := Growing(ss, acts, t, conf, h, Static(h + 1), {h}, 1);
    ss, acts := Ends(ss, acts, t, conf, h, Static(h + 1));
    ss, acts := Finishes(ss, acts, h);
    LostIsMissed(ss[|acts|], h);
  }
}
