/** The busy count and the exclusive hold on the policy list (security/mac_base.c), and
    the walk over the list that every MAC check makes (security/mac_internal.h).

    Any number of threads, whose steps may interleave in any order.  A change to the list is made
    one write after the other, the free of an outgrown array among them.  A check reads the list
    without the lock until it has raised the count, and each of those loads is a step of its own.
    Loads made under the lock or the count are joined, since no write can come between (Frozen). */
module MacBusy {
  import P = MacPolicy
  import opened Wrappers

  /** Where a thread is.  The number is the handle a walk has come to, or a word it loaded. */
  datatype Pc =
    | Idle
    | Static(i: nat)          // a check walks the static policies, without the lock: loads staticmax
    | Below(i: nat)           // is below it, and loads the pointer to the array of entries
    | Pointed(i: nat, a: nat) // loads an entry of that array
    | Probe                   // it looks, without the lock, whether there are others
    | GotCount(n: nat)        // it has loaded numloaded, and not yet staticmax
    | GotMark(m: nat)         // the other way round: the operands may be loaded in either order
    | AskRaise                // waits for the lock, to raise the count if there are
    | Raise
    | Skip                    // has the lock, and found none
    | Raised                  // has the lock, and raised the count
    | Walk(i: nat)            // walks the other policies
    | AskBusy | Busy | BusyDone | Using   // raises the count unconditionally, and uses the list
    | AskLower | Lower | Lowered | LowerDone
    | Finished
    | AskHold | Held | Asleep | Exclusive | Writing | Changed | Released

  /** A thread, and of a check: the handles consulted; those it ought to consult, which were
      registered when it began and have not been unloaded; those at which it read an array that was
      freed and did not hold the policy there; how many arrays were freed during its walk over the
      static ones; the handle at which it left them; and of its unlocked test: how many policies
      were static and how many others there were in the table that numloaded counted, the mark it
      loaded, and how many registrations with a raised mark the test overlapped. */
  datatype Thread = Thread(
    pc: Pc, seen: seq<nat>, kept: set<nat>, lost: set<nat>, grown: nat, at: nat,
    counted: nat, above: nat, mark: nat, raised: nat)

  /** A change under way: the operation, and how many of its writes are done. */
  datatype Job = Job(op: P.Op, done: nat)

  /** `table` is what is in memory, `base` the table before the change under way.  The arrays of
      entries are numbered as they are allocated: `current` is the one the list points to, and those
      below `live` are freed. */
  datatype State = State(
    table: P.Table, base: P.Table, current: nat, live: nat, job: Option<Job>, busy: nat, owner: Option<nat>,
    threads: seq<Thread>)

  /** What a thread may do next; what it finds in freed memory is arbitrary. */
  datatype Choice = Check | UseList | Modify | Change(op: P.Op) | MarkFirst | Stale(found: Option<P.Policy>) | Continue

  predicate HasLock(pc: Pc) {
    pc.Raise? || pc.Skip? || pc.Raised? || pc.Busy? || pc.BusyDone? || pc.Lower? || pc.Lowered? || pc.LowerDone?
    || pc.Held? || pc.Exclusive? || pc.Writing? || pc.Changed?
  }

  predicate Counted(pc: Pc) {
    pc.Raised? || pc.Walk? || pc.BusyDone? || pc.Using? || pc.AskLower? || pc.Lower?
  }

  predicate Walking(pc: Pc) {
    pc.Static? || pc.Below? || pc.Pointed?
  }

  predicate Alone(pc: Pc) {
    pc.Exclusive? || pc.Writing? || pc.Changed?
  }

  predicate Asks(pc: Pc) {
    pc.AskRaise? || pc.AskBusy? || pc.AskLower? || pc.AskHold?
  }

  // ----- A change, write by write -----------------------------------------------------------------

  ghost predicate Changes(t: P.Table, op: P.Op) {
    P.Good(t) && t.late && !op.FrameworkUp? && P.Allowed(t, op)
  }

  function Writes(op: P.Op): nat { if op.DoLoad? then 10 else 5 }

  /** The write that changes numloaded. */
  function CountWrite(op: P.Op): nat { if op.DoLoad? then 10 else 4 }

  /** The change makes room: the entries are copied to a new array, and the old one is freed. */
  predicate Grows(t: P.Table, op: P.Op) {
    op.DoLoad? && !op.conf.notLate && t.max <= t.numloaded
  }

  /** The table after `k` writes.  A registration frees the array if it makes room, and then
      writes the pointer to the new one, max and chunks; it takes a slot, and writes freehint,
      staticmax, the entry, maxindex and numloaded.  An unregistration clears the entry and
      writes freehint, maxindex, numloaded and the slots. */
  ghost function Written(t: P.Table, op: P.Op, k: nat): P.Table
    requires Changes(t, op)
  {
    var u := P.Exec(t, op);
    if op.DoLoad? then
      t.(entries := if k >= 8 then u.entries else if k >= 2 then Roomy(t, op.conf) else t.entries,
         max := if k >= 3 then u.max else t.max, chunks := if k >= 4 then u.chunks else t.chunks,
         slots := if k >= 5 then u.slots else t.slots, freehint := if k >= 6 then u.freehint else t.freehint,
         staticmax := if k >= 7 then u.staticmax else t.staticmax,
         maxindex := if k >= 9 then u.maxindex else t.maxindex,
         numloaded := if k >= 10 then u.numloaded else t.numloaded)
    else
      t.(entries := if k >= 1 then u.entries else t.entries, freehint := if k >= 2 then u.freehint else t.freehint,
         maxindex := if k >= 3 then u.maxindex else t.maxindex,
         numloaded := if k >= 4 then u.numloaded else t.numloaded, slots := if k >= 5 then u.slots else t.slots)
  }

  /** The entries with room made, before the policy is entered. */
  ghost function Roomy(t: P.Table, conf: P.Conf): seq<Option<P.Policy>>
    requires P.Inv(t)
  {
    if P.Load(t, conf).1.Registered? then P.Grown(t).entries else P.Load(t, conf).0.entries
  }

  /** The table whose policies numloaded counts at the moment. */
  ghost function InForce(s: State): P.Table
    requires JobOk(s)
  {
    CountedTable(s.base, s.job)
  }

  ghost function CountedTable(base: P.Table, job: Option<Job>): P.Table
    requires job.Some? ==> Changes(base, job.value.op)
  {
    if job.None? || job.value.done < CountWrite(job.value.op) then base else P.Exec(base, job.value.op)
  }

  /** How many policies a table has beyond its static ones. */
  ghost function Above(t: P.Table): nat
    requires t.staticmax <= |t.entries|
  {
    P.Count(t.entries[t.staticmax..])
  }

  /** What the writes of a change keep, in any order of looking at them. */
  ghost predicate Staged(t: P.Table, op: P.Op, k: nat, w: P.Table)
    requires Changes(t, op)
  {
    var u := P.Exec(t, op);
    && P.Good(u) && u.late && |t.entries| <= |w.entries|
    && t.staticmax <= w.staticmax <= u.staticmax <= t.staticmax + 1 && w.staticmax <= |w.entries|
    && (t.staticmax < u.staticmax && t.staticmax < |t.entries| ==> t.entries[t.staticmax].None?)
    && w.numloaded == (if k < CountWrite(op) then t else u).numloaded
    && (CountWrite(op) <= k ==> w.staticmax == u.staticmax && w.entries == u.entries)
  }

  lemma {:induction false} LoadStaged(t: P.Table, op: P.Op, k: nat)
    requires Changes(t, op) && op.DoLoad?
    ensures Staged(t, op, k, Written(t, op, k))
  {
    P.ExecOk(t, op);
    P.GrownOk(t);
    if P.Load(t, op.conf).1.Registered? {
      P.LoadAdded(t, op.conf);
    } else {
      P.LoadRefused(t, op.conf);
    }
  }

  lemma {:induction false} StageOk(t: P.Table, op: P.Op, k: nat)
    requires Changes(t, op)
    ensures Staged(t, op, k, Written(t, op, k))
    ensures Written(t, op, 0) == t && Written(t, op, Writes(op)) == P.Exec(t, op)
  {
    if op.DoLoad? {
      LoadStaged(t, op, k);
      if P.Load(t, op.conf).1.Registered? {
        P.LoadAdded(t, op.conf);
      } else {
        P.LoadRefused(t, op.conf);
      }
    } else {
      P.ExecOk(t, op);
    }
  }

  /** In a good table the count is the static policies and those above. */
  lemma {:induction false} CountSplit(es: seq<Option<P.Policy>>, n: nat)
    requires n <= |es| && forall i :: 0 <= i < n ==> es[i].Some?
    ensures P.Count(es) == n + P.Count(es[n..])
  {
    if n > 0 {
      CountSplit(es[1..], n - 1);
      assert es[1..][n - 1..] == es[n..];
    } else {
      assert es[0..] == es;
    }
  }

  lemma {:induction false} CountNone(es: seq<Option<P.Policy>>, h: nat)
    requires P.Count(es) == 0 && h < |es|
    ensures es[h].None?
  {
    if h > 0 { CountNone(es[1..], h - 1); }
  }

  lemma {:induction false} CountZero(es: seq<Option<P.Policy>>)
    requires forall i :: 0 <= i < |es| ==> es[i].None?
    ensures P.Count(es) == 0
  {
    if es != [] { CountZero(es[1..]); }
  }

  /** In a table at rest, the test of the conditional busy is exact. */
  lemma {:induction false} ProbeExact(t: P.Table)
    requires P.Good(t)
    ensures t.numloaded == t.staticmax + Above(t)
    ensures t.numloaded <= t.staticmax <==> forall h :: t.staticmax <= h < |t.entries| ==> t.entries[h].None?
  {
    CountSplit(t.entries, t.staticmax);
    var rest := t.entries[t.staticmax..];
    if P.Count(rest) == 0 {
      forall h | t.staticmax <= h < |t.entries| ensures t.entries[h].None? {
        CountNone(rest, h - t.staticmax);
      }
    } else if forall h :: t.staticmax <= h < |t.entries| ==> t.entries[h].None? {
      CountZero(rest);
    }
  }

  // ----- Steps ----------------------------------------------------------------------------------

  ghost predicate Enabled(s: State, t: nat, c: Choice) {
    && t < |s.threads|
    && var pc := s.threads[t].pc;
    && (Asks(pc) ==> s.owner.None?)
    && !pc.Asleep?
    && (pc.Idle? ==> c.Check? || c.UseList? || c.Modify?)
    && (pc.Exclusive? && c.Change? ==> Changes(s.table, c.op))
  }

  function Set(s: State, t: nat, th: Thread): State
    requires t < |s.threads|
  {
    s.(threads := s.threads[t := th])
  }

  function At(s: State, t: nat, pc: Pc): State
    requires t < |s.threads|
  {
    Set(s, t, s.threads[t].(pc := pc))
  }

  function Lock(s: State, t: nat, pc: Pc): State
    requires t < |s.threads|
  {
    At(s, t, pc).(owner := Some(t))
  }

  function Unlock(s: State, t: nat, pc: Pc): State
    requires t < |s.threads|
  {
    At(s, t, pc).(owner := None)
  }

  function Visit(table: P.Table, th: Thread, i: nat, pc: Pc): Thread
    requires i < |table.entries|
  {
    th.(pc := pc, seen := if table.entries[i].Some? then th.seen + [i] else th.seen)
  }

  /** The policies that are registered: entered, and not only now being entered. */
  ghost function Registered(s: State): set<nat> {
    set h: nat | 0 <= h < |s.base.entries| && h < |s.table.entries|
                 && s.base.entries[h].Some? && s.table.entries[h] == s.base.entries[h]
  }

  /** What a thread knows once the table in memory has changed. */
  ghost function Told(was: P.Table, now: P.Table, frees: bool, th: Thread): Thread {
    th.(kept := (set h | h in th.kept && h < |was.entries| && h < |now.entries| && was.entries[h] == now.entries[h]),
        raised := if (th.pc.GotCount? || th.pc.GotMark?) && was.staticmax < now.staticmax
                  then th.raised + (now.staticmax - was.staticmax) else th.raised,
        grown := if frees && Walking(th.pc) then th.grown + 1 else th.grown)
  }

  ghost function Replace(s: State, now: P.Table, frees: bool): State {
    s.(table := now,
       threads := seq(|s.threads|, (u: nat) requires u < |s.threads| => Told(s.table, now, frees, s.threads[u])))
  }

  function Woken(th: Thread): Thread {
    if th.pc.Asleep? then th.(pc := AskHold) else th
  }

  function Wake(s: State): State {
    s.(threads := seq(|s.threads|, (u: nat) requires u < |s.threads| => Woken(s.threads[u])))
  }

  /** The load of numloaded, as the first or the second of the two. */
  ghost function CountLoaded(s: State, th: Thread): Thread
    requires JobOk(s)
  {
    StaticFits(s);
    var f := InForce(s);
    th.(counted := f.staticmax, above := Above(f))
  }

  /** The first of the two loads. */
  ghost function FirstLoad(table: P.Table, f: P.Table, th: Thread, markFirst: bool): Thread
    requires f.staticmax <= table.staticmax && f.staticmax <= |f.entries|
  {
    var to := th.(raised := table.staticmax - f.staticmax);
    if markFirst then to.(pc := GotMark(table.staticmax), mark := table.staticmax)
    else to.(pc := GotCount(table.numloaded), counted := f.staticmax, above := Above(f))
  }

  /** The unlocked test, one load after the other. */
  ghost function Test(s: State, th: Thread, c: Choice): Thread
    requires JobOk(s)
  {
    StaticFits(s);
    match th.pc
    case Probe => FirstLoad(s.table, InForce(s), th, c.MarkFirst?)
    case GotCount(n) => th.(pc := if n <= s.table.staticmax then Finished else AskRaise, mark := s.table.staticmax)
    case GotMark(m) => CountLoaded(s, th).(pc := if s.table.numloaded <= m then Finished else AskRaise)
    case _ => th
  }

  /** Entry `i` of array `a`: the policy there, or what is left in freed memory. */
  function EntryOf(s: State, i: nat, a: nat, c: Choice): Option<P.Policy>
    requires i < |s.table.entries|
  {
    if s.live <= a then s.table.entries[i] else if c.Stale? then c.found else None
  }

  /** One load of the walk over the static policies.  A stale entry that is not the policy's is
      no policy of the list, whatever following it does. */
  ghost function StaticWalk(s: State, th: Thread, c: Choice): Thread
    requires JobOk(s) && Walking(th.pc) && CheckOk(s.table, InForce(s), th)
  {
    StaticFits(s);
    match th.pc
    case Static(i) => if i < s.table.staticmax then th.(pc := Below(i)) else th.(pc := Probe, at := i)
    case Below(i) => th.(pc := Pointed(i, s.current))
    case Pointed(i, a) =>
      if EntryOf(s, i, a, c) == s.table.entries[i] then Visit(s.table, th, i, Static(i + 1))
      else th.(pc := Static(i + 1), lost := th.lost + {i})
    case _ => th
  }

  /** One pass of the walk over the other policies. */
  ghost function WalkOn(table: P.Table, th: Thread): Thread
    requires P.Inv(table) && th.pc.Walk?
  {
    if th.pc.i <= table.maxindex then Visit(table, th, th.pc.i, Walk(th.pc.i + 1)) else th.(pc := AskLower)
  }

  /** No write to the list, and no array freed. */
  predicate SameList(s: State, u: State) {
    u.table == s.table && u.current == s.current && u.live == s.live
  }

  ghost function CheckStep(s: State, t: nat, c: Choice): (u: State)
    requires Inv(s) && t < |s.threads|
    ensures SameList(s, u)
  {
    var th := s.threads[t];
    match th.pc
    case Static(_) | Below(_) | Pointed(_, _) => Set(s, t, StaticWalk(s, th, c))
    case Probe | GotCount(_) | GotMark(_) => Set(s, t, Test(s, th, c))
    case AskRaise => Lock(s, t, Raise)
    case Raise =>
      if s.table.numloaded > s.table.staticmax then At(s, t, Raised).(busy := s.busy + 1) else At(s, t, Skip)
    case Skip => Unlock(s, t, Finished)
    case Raised => Unlock(s, t, Walk(th.at))
    case Walk(_) =>
      Resting(s, t);
      Set(s, t, WalkOn(s.table, th))
    case _ => s
  }

  ghost function CountStep(s: State, t: nat): (u: State)
    requires t < |s.threads|
    ensures SameList(s, u)
  {
    match s.threads[t].pc
    case AskBusy => Lock(s, t, Busy)
    case Busy => At(s, t, BusyDone).(busy := s.busy + 1)
    case BusyDone => Unlock(s, t, Using)
    case Using => At(s, t, AskLower)
    case AskLower => Lock(s, t, Lower)
    case Lower => At(s, t, Lowered).(busy := if s.busy == 0 then 0 else s.busy - 1)
    case Lowered => At(if s.busy == 0 then Wake(s) else s, t, LowerDone)
    case LowerDone => Unlock(s, t, Finished)
    case _ => s
  }

  /** One write of the change under way, or its end. */
  ghost function WriteStep(s: State, t: nat): State
    requires Inv(s) && t < |s.threads| && s.threads[t].pc.Writing?
  {
    var j := s.job.value;
    if j.done < Writes(j.op) then
      var frees := Grows(s.base, j.op) && j.done == 0;
      Replace(s, Written(s.base, j.op, j.done + 1), frees).(job := Some(j.(done := j.done + 1)),
        live := if frees then s.live + 1 else s.live, current := if j.done == 1 then s.live else s.current)
    else At(s, t, Changed).(base := s.table, job := None)
  }

  ghost function HoldStep(s: State, t: nat, c: Choice): (u: State)
    requires Inv(s) && Enabled(s, t, c)
    ensures !s.threads[t].pc.Writing? ==> SameList(s, u)
  {
    match s.threads[t].pc
    case AskHold => Lock(s, t, Held)
    case Held => if s.busy == 0 then At(s, t, Exclusive) else Unlock(s, t, Asleep)
    case Exclusive => if c.Change? then At(s, t, Writing).(job := Some(Job(c.op, 0))) else At(s, t, Changed)
    case Writing => WriteStep(s, t)
    case Changed => Unlock(s, t, Released)
    case Released => At(Wake(s), t, Idle)
    case _ => s
  }

  function Fresh(pc: Pc, kept: set<nat>, grown: nat): Thread {
    Thread(pc, [], kept, {}, grown, 0, 0, 0, 0, 0)
  }

  ghost function Step(s: State, t: nat, c: Choice): (u: State)
    requires Inv(s) && Enabled(s, t, c)
    ensures !s.threads[t].pc.Writing? ==> SameList(s, u)
  {
    match s.threads[t].pc
    case Idle =>
      if c.Check? then Set(s, t, Fresh(Static(0), Registered(s), if s.current < s.live then 1 else 0))
      else Set(s, t, Fresh(if c.UseList? then AskBusy else AskHold, {}, 0))
    case Finished => At(s, t, Idle)
    case Static(_) | Below(_) | Pointed(_, _) | Probe | GotCount(_) | GotMark(_) | AskRaise
      | Raise | Skip | Raised | Walk(_) => CheckStep(s, t, c)
    case AskHold | Held | Exclusive | Writing | Changed | Released | Asleep => HoldStep(s, t, c)
    case _ => CountStep(s, t)
  }

  // ----- The invariant --------------------------------------------------------------------------

  function Busies(ths: seq<Thread>): (n: nat) {
    if ths == [] then 0 else (if Counted(ths[0].pc) then 1 else 0) + Busies(ths[1..])
  }

  ghost predicate Rising(seen: seq<nat>) {
    forall i, j :: 0 <= i < j < |seen| ==> seen[i] < seen[j]
  }

  /** The check has seen, once each, all the policies below `i` that it should have, but those
      it has lost. */
  ghost predicate SeenTo(th: Thread, i: nat) {
    && Rising(th.seen) && (forall h <- th.seen :: h < i) && (forall h <- th.lost :: h < i)
    && forall h <- th.kept :: h < i ==> (h in th.seen <==> h !in th.lost)
  }

  ghost predicate Accounted(th: Thread) {
    Rising(th.seen) && forall h <- th.kept :: h in th.seen <==> h !in th.lost
  }

  ghost predicate SeenAll(th: Thread) {
    Rising(th.seen) && forall h <- th.kept :: h in th.seen
  }

  /** Past the static policies: any that became static since was not there all along. */
  ghost predicate Between(table: P.Table, th: Thread) {
    SeenTo(th, th.at) && forall h <- th.kept :: th.at <= h ==> table.staticmax <= h
  }

  /** Every policy the check ought to consult is one of the static ones it walked. */
  ghost predicate AllStatic(th: Thread) {
    forall h <- th.kept :: h < th.at
  }

  /** The unlocked test is made: the mark is ahead of the count by no more than the
      registrations it overlapped. */
  ghost predicate Tested(th: Thread) {
    th.mark <= th.counted + th.raised && (th.above == 0 ==> AllStatic(th))
  }

  /** The test said that there are others. */
  predicate Passed(th: Thread) { th.mark < th.counted + th.above }

  /** A thread that has nothing to do with a check, or has finished one, or has walked all. */
  predicate Plain(pc: Pc) {
    !(Walking(pc) || pc.Probe? || pc.GotCount? || pc.GotMark? || pc.AskRaise? || pc.Raise? || pc.Raised? || pc.Walk?)
  }

  ghost predicate CheckOk(table: P.Table, force: P.Table, th: Thread) {
    && (th.pc.Static? ==> th.pc.i <= table.staticmax && SeenTo(th, th.pc.i))
    && (th.pc.Below? || th.pc.Pointed? ==> th.pc.i < table.staticmax && SeenTo(th, th.pc.i))
    && (th.pc.Probe? || th.pc.GotCount? || th.pc.GotMark? || th.pc.AskRaise? || th.pc.Raise? ==> Between(table, th))
    && (th.pc.GotCount? ==>
          && th.pc.n == th.counted + th.above && (th.above == 0 ==> AllStatic(th))
          && table.staticmax == th.counted + th.raised)
    && (th.pc.GotMark? ==> th.pc.m == th.mark <= force.staticmax + th.raised)
    && (th.pc.AskRaise? || th.pc.Raise? || th.pc.Raised? || th.pc.Walk? ==> Tested(th) && Passed(th))
    && (th.pc.Raised? ==> SeenTo(th, th.at))
    && (th.pc.Walk? ==> SeenTo(th, th.pc.i))
    && (Plain(th.pc) ==> Tested(th) && if Passed(th) then Accounted(th) else SeenTo(th, th.at))
  }

  ghost predicate KeptOk(base: P.Table, table: P.Table, th: Thread) {
    forall h <- th.kept :: h < |base.entries| && h < |table.entries|
                           && base.entries[h].Some? && table.entries[h] == base.entries[h]
  }

  /** A walk that no free has overlapped reads the array in use. */
  ghost predicate ArrayOk(current: nat, live: nat, th: Thread) {
    && (th.grown == 0 ==> th.lost == {} && (Walking(th.pc) ==> current == live))
    && (th.pc.Pointed? ==> th.pc.a <= current && (th.grown == 0 ==> th.pc.a == live))
  }

  ghost predicate JobOk(s: State) {
    ListOk(s.table, s.base, s.current, s.live, s.job)
  }

  /** The table in memory and its array, in the course of a change. */
  ghost predicate ListOk(table: P.Table, base: P.Table, current: nat, live: nat, job: Option<Job>) {
    && P.Good(base) && base.late
    && match job
       case None => table == base && current == live
       case Some(j) =>
         && Changes(base, j.op) && j.done <= Writes(j.op) && table == Written(base, j.op, j.done)
         && live == if Grows(base, j.op) && j.done == 1 then current + 1 else current
  }

  ghost predicate Owned(s: State) {
    && (s.owner.Some? ==> s.owner.value < |s.threads|)
    && (forall t :: 0 <= t < |s.threads| ==> (HasLock(s.threads[t].pc) <==> s.owner == Some(t)))
    && (forall t :: 0 <= t < |s.threads| && s.threads[t].pc.Writing? ==> s.job.Some?)
    && (s.job.Some? ==> s.owner.Some? && s.threads[s.owner.value].pc.Writing?)
  }

  ghost predicate AloneOk(s: State) {
    forall t :: 0 <= t < |s.threads| && Alone(s.threads[t].pc) ==> s.busy == 0
  }

  /** A sleeper sleeps on a raised count, or is about to be woken: no wakeup is lost. */
  ghost predicate SleepOk(s: State) {
    forall t :: 0 <= t < |s.threads| && s.threads[t].pc.Asleep? ==> s.busy > 0 || Waking(s)
  }

  ghost predicate Waking(s: State) {
    s.owner.Some? && s.owner.value < |s.threads| && s.threads[s.owner.value].pc.Lowered?
  }

  ghost predicate ChecksOk(s: State)
    requires JobOk(s)
  {
    forall t :: 0 <= t < |s.threads| ==>
      && CheckOk(s.table, InForce(s), s.threads[t]) && KeptOk(s.base, s.table, s.threads[t])
      && ArrayOk(s.current, s.live, s.threads[t])
  }

  /** The part of the invariant that does not look at the list. */
  ghost predicate LocksOk(s: State) {
    s.busy == Busies(s.threads) && Owned(s) && AloneOk(s) && SleepOk(s)
  }

  ghost predicate Inv(s: State) {
    JobOk(s) && LocksOk(s) && ChecksOk(s)
  }

  /** What the table in memory and the one counted have in common at any time. */
  lemma {:induction false} StaticFits(s: State)
    requires JobOk(s)
    ensures var f := InForce(s);
      && P.Good(f) && f.late && f.staticmax <= s.table.staticmax <= |s.table.entries|
        && s.table.numloaded == f.numloaded
      && s.table.numloaded == f.staticmax + Above(f)
  {
    if s.job.Some? {
      StageOk(s.base, s.job.value.op, s.job.value.done);
    }
    ProbeExact(InForce(s));
  }

  /** A thread that is counted, or has the lock and is not the writer, finds the table at rest. */
  lemma {:induction false} Resting(s: State, t: nat)
    requires Inv(s) && t < |s.threads| && !s.threads[t].pc.Writing?
    requires Counted(s.threads[t].pc) || HasLock(s.threads[t].pc)
    ensures s.job.None? && P.Good(s.table)
  {
    if s.job.Some? {
      BusiesUpdate(s.threads, t, s.threads[t]);
      assert Alone(s.threads[s.owner.value].pc);
    }
  }

  lemma {:induction false} BusiesUpdate(ths: seq<Thread>, t: nat, th: Thread)
    requires t < |ths|
    ensures Busies(ths[t := th])
         == Busies(ths) - (if Counted(ths[t].pc) then 1 else 0) + (if Counted(th.pc) then 1 else 0)
    ensures Counted(ths[t].pc) ==> 0 < Busies(ths)
  {
    if t > 0 {
      assert ths[t := th][1..] == ths[1..][t - 1 := th];
      BusiesUpdate(ths[1..], t - 1, th);
    } else {
      assert ths[0 := th][1..] == ths[1..];
    }
  }

  // ----- A thread moves -------------------------------------------------------------------------

  ghost predicate ThreadOk(s: State, th: Thread)
    requires JobOk(s)
  {
    CheckOk(s.table, InForce(s), th) && KeptOk(s.base, s.table, th) && ArrayOk(s.current, s.live, th)
  }

  /** A thread that neither takes nor gives up the lock, nor touches the count or the list. */
  ghost predicate Quiet(pc: Pc, qc: Pc) {
    && HasLock(pc) == HasLock(qc) && Counted(pc) == Counted(qc) && pc.Writing? == qc.Writing?
    && !qc.Asleep? && !pc.Lowered?
  }

  /** One thread goes on, and the list stays as it is. */
  lemma {:induction false} ThreadMoves(s: State, t: nat, th: Thread, u: State)
    requires JobOk(s) && ChecksOk(s) && t < |s.threads| && ThreadOk(s, th)
    requires SameList(s, u) && u.base == s.base && u.job == s.job && u.threads == s.threads[t := th]
    ensures JobOk(u) && ChecksOk(u)
  {
  }

  lemma {:induction false} QuietLocks(s: State, t: nat, th: Thread)
    requires LocksOk(s) && t < |s.threads| && Quiet(s.threads[t].pc, th.pc)
    requires Alone(th.pc) ==> s.busy == 0
    ensures LocksOk(Set(s, t, th))
  {
    BusiesUpdate(s.threads, t, th);
  }

  lemma {:induction false} QuietOk(s: State, t: nat, th: Thread)
    requires Inv(s) && t < |s.threads| && Quiet(s.threads[t].pc, th.pc) && ThreadOk(s, th)
    requires Alone(th.pc) ==> s.busy == 0
    ensures Inv(Set(s, t, th))
  {
    QuietLocks(s, t, th);
    ThreadMoves(s, t, th, Set(s, t, th));
  }

  lemma {:induction false} LockLocks(s: State, t: nat, pc: Pc)
    requires LocksOk(s) && t < |s.threads| && s.owner.None?
    requires HasLock(pc) && !Alone(pc) && Counted(pc) == Counted(s.threads[t].pc)
    ensures LocksOk(Lock(s, t, pc))
  {
    BusiesUpdate(s.threads, t, s.threads[t].(pc := pc));
  }

  lemma {:induction false} LockOk(s: State, t: nat, pc: Pc)
    requires Inv(s) && t < |s.threads| && s.owner.None?
    requires HasLock(pc) && !Alone(pc) && Counted(pc) == Counted(s.threads[t].pc)
    requires ThreadOk(s, s.threads[t].(pc := pc))
    ensures Inv(Lock(s, t, pc))
  {
    LockLocks(s, t, pc);
    ThreadMoves(s, t, s.threads[t].(pc := pc), Lock(s, t, pc));
  }

  lemma {:induction false} UnlockLocks(s: State, t: nat, pc: Pc)
    requires LocksOk(s) && t < |s.threads| && !s.threads[t].pc.Lowered? && !s.threads[t].pc.Writing?
    requires HasLock(s.threads[t].pc) && !HasLock(pc) && !Alone(pc)
    requires Counted(pc) == Counted(s.threads[t].pc) && (pc.Asleep? ==> 0 < s.busy)
    ensures LocksOk(Unlock(s, t, pc))
  {
    BusiesUpdate(s.threads, t, s.threads[t].(pc := pc));
  }

  lemma {:induction false} UnlockOk(s: State, t: nat, pc: Pc)
    requires Inv(s) && t < |s.threads| && !s.threads[t].pc.Lowered? && !s.threads[t].pc.Writing?
    requires HasLock(s.threads[t].pc) && !HasLock(pc) && !Alone(pc)
    requires Counted(pc) == Counted(s.threads[t].pc) && (pc.Asleep? ==> 0 < s.busy)
    requires ThreadOk(s, s.threads[t].(pc := pc))
    ensures Inv(Unlock(s, t, pc))
  {
    UnlockLocks(s, t, pc);
    ThreadMoves(s, t, s.threads[t].(pc := pc), Unlock(s, t, pc));
  }

  lemma {:induction false} RaiseLocks(s: State, t: nat, pc: Pc)
    requires LocksOk(s) && t < |s.threads| && HasLock(s.threads[t].pc) && !s.threads[t].pc.Writing?
    requires HasLock(pc) && !Alone(pc) && !Counted(s.threads[t].pc) && Counted(pc)
    ensures LocksOk(At(s, t, pc).(busy := s.busy + 1))
  {
    BusiesUpdate(s.threads, t, s.threads[t].(pc := pc));
  }

  lemma {:induction false} RaiseOk(s: State, t: nat, pc: Pc)
    requires Inv(s) && t < |s.threads| && HasLock(s.threads[t].pc) && !s.threads[t].pc.Writing?
    requires HasLock(pc) && !Alone(pc) && !Counted(s.threads[t].pc) && Counted(pc)
    requires ThreadOk(s, s.threads[t].(pc := pc))
    ensures Inv(At(s, t, pc).(busy := s.busy + 1))
  {
    RaiseLocks(s, t, pc);
    ThreadMoves(s, t, s.threads[t].(pc := pc), At(s, t, pc).(busy := s.busy + 1));
  }

  lemma {:induction false} LowerLocks(s: State, t: nat)
    requires LocksOk(s) && t < |s.threads| && s.threads[t].pc.Lower?
    ensures 0 < s.busy && LocksOk(At(s, t, Lowered).(busy := s.busy - 1))
  {
    BusiesUpdate(s.threads, t, s.threads[t].(pc := Lowered));
  }

  lemma {:induction false} LowerOk(s: State, t: nat)
    requires Inv(s) && t < |s.threads| && s.threads[t].pc.Lower?
    ensures 0 < s.busy && Inv(At(s, t, Lowered).(busy := s.busy - 1))
  {
    LowerLocks(s, t);
    assert ThreadOk(s, s.threads[t]);
    ThreadMoves(s, t, s.threads[t].(pc := Lowered), At(s, t, Lowered).(busy := s.busy - 1));
  }

  lemma {:induction false} SameBusies(a: seq<Thread>, b: seq<Thread>)
    requires |a| == |b| && forall u :: 0 <= u < |a| ==> Counted(a[u].pc) == Counted(b[u].pc)
    ensures Busies(a) == Busies(b)
  {
    if a != [] { SameBusies(a[1..], b[1..]); }
  }

  lemma {:induction false} WokenCheck(s: State, th: Thread)
    requires JobOk(s) && ThreadOk(s, th)
    ensures ThreadOk(s, Woken(th))
  {
  }

  lemma {:induction false} WakeLocks(s: State)
    requires LocksOk(s)
    ensures LocksOk(Wake(s)) && forall u :: 0 <= u < |s.threads| ==> Wake(s).threads[u] == Woken(s.threads[u])
  {
    SameBusies(s.threads, Wake(s).threads);
  }

  lemma {:induction false} WakeOk(s: State)
    requires Inv(s)
    ensures Inv(Wake(s)) && forall u :: 0 <= u < |s.threads| ==> Wake(s).threads[u] == Woken(s.threads[u])
  {
    WakeLocks(s);
    forall u | 0 <= u < |s.threads|
      ensures ThreadOk(s, Wake(s).threads[u])
    {
      WokenCheck(s, s.threads[u]);
    }
  }

  lemma {:induction false} WokenLocks(s: State, t: nat)
    requires LocksOk(s) && t < |s.threads| && s.threads[t].pc.Lowered?
    requires s.busy == 0 ==> forall u :: 0 <= u < |s.threads| ==> !s.threads[u].pc.Asleep?
    ensures LocksOk(At(s, t, LowerDone))
  {
    BusiesUpdate(s.threads, t, s.threads[t].(pc := LowerDone));
  }

  /** The lock holder has woken every sleeper, if the count came down to zero. */
  lemma {:induction false} WokenOk(s: State, t: nat)
    requires Inv(s) && t < |s.threads| && s.threads[t].pc.Lowered?
    requires s.busy == 0 ==> forall u :: 0 <= u < |s.threads| ==> !s.threads[u].pc.Asleep?
    ensures Inv(At(s, t, LowerDone))
  {
    WokenLocks(s, t);
    assert ThreadOk(s, s.threads[t]);
    ThreadMoves(s, t, s.threads[t].(pc := LowerDone), At(s, t, LowerDone));
  }

  // ----- The list changes -----------------------------------------------------------------------

  lemma {:induction false} BeginsLocks(s: State, t: nat, job: Job)
    requires LocksOk(s) && t < |s.threads| && s.threads[t].pc.Exclusive?
    ensures LocksOk(At(s, t, Writing).(job := Some(job)))
  {
    BusiesUpdate(s.threads, t, s.threads[t].(pc := Writing));
  }

  lemma {:induction false} BeginsChecks(s: State, t: nat, op: P.Op)
    requires JobOk(s) && ChecksOk(s) && t < |s.threads| && s.threads[t].pc.Exclusive? && s.job.None?
      && Changes(s.table, op)
    ensures var u := At(s, t, Writing).(job := Some(Job(op, 0))); JobOk(u) && ChecksOk(u)
  {
    StageOk(s.table, op, 0);
  }

  lemma {:induction false} BeginsOk(s: State, t: nat, op: P.Op)
    requires Inv(s) && t < |s.threads| && s.threads[t].pc.Exclusive? && Changes(s.table, op)
    ensures Inv(At(s, t, Writing).(job := Some(Job(op, 0))))
  {
    Resting(s, t);
    BeginsChecks(s, t, op);
    BeginsLocks(s, t, Job(op, 0));
  }

  lemma {:induction false} EndsLocks(s: State, t: nat, base: P.Table)
    requires LocksOk(s) && t < |s.threads| && s.threads[t].pc.Writing?
    ensures LocksOk(At(s, t, Changed).(base := base, job := None))
  {
    BusiesUpdate(s.threads, t, s.threads[t].(pc := Changed));
  }

  lemma {:induction false} EndsChecks(s: State, t: nat)
    requires JobOk(s) && ChecksOk(s) && t < |s.threads| && s.threads[t].pc.Writing?
    requires s.job.Some? && s.job.value.done == Writes(s.job.value.op)
    ensures var u := At(s, t, Changed).(base := s.table, job := None); JobOk(u) && ChecksOk(u)
  {
    StageOk(s.base, s.job.value.op, s.job.value.done);
  }

  lemma {:induction false} EndsOk(s: State, t: nat)
    requires Inv(s) && t < |s.threads| && s.threads[t].pc.Writing? && s.job.value.done == Writes(s.job.value.op)
    ensures Inv(WriteStep(s, t))
  {
    EndsLocks(s, t, s.table);
    EndsChecks(s, t);
  }

  /** One write leaves every check in order. */
  lemma {:induction false} ToldOk(was: P.Table, now: P.Table, frees: bool, base: P.Table, f: P.Table, g: P.Table,
                                  th: Thread)
    requires CheckOk(was, f, th) && KeptOk(base, was, th)
    requires was.staticmax <= now.staticmax <= base.staticmax + 1 && f.staticmax <= g.staticmax
      && base.staticmax <= was.staticmax
    requires was.staticmax < now.staticmax ==> base.staticmax < |base.entries| ==> base.entries[base.staticmax].None?
    ensures CheckOk(now, g, Told(was, now, frees, th)) && KeptOk(base, now, Told(was, now, frees, th))
  {
    var to := Told(was, now, frees, th);
    assert to.kept <= th.kept && to.seen == th.seen && to.lost == th.lost && to.at == th.at;
    SeenKept(th, to);
    BetweenKept(was, now, th, to);
  }

  lemma {:induction false} SeenKept(th: Thread, to: Thread)
    requires to.seen == th.seen && to.kept <= th.kept && to.lost == th.lost && to.at == th.at
    ensures forall i :: SeenTo(th, i) ==> SeenTo(to, i)
    ensures Accounted(th) ==> Accounted(to)
    ensures AllStatic(th) ==> AllStatic(to)
  {
  }

  lemma {:induction false} BetweenKept(was: P.Table, now: P.Table, th: Thread, to: Thread)
    requires to.seen == th.seen && to.kept <= th.kept && to.lost == th.lost && to.at == th.at
      && now.staticmax <= was.staticmax + 1
    requires was.staticmax < now.staticmax ==> was.staticmax !in th.kept
    ensures Between(was, th) ==> Between(now, to)
  {
  }

  /** The next write, and what it does to the table in memory and to the one counted. */
  lemma {:induction false} NextWrite(s: State)
    requires JobOk(s) && s.job.Some? && s.job.value.done < Writes(s.job.value.op)
    ensures var u := s.(table := Written(s.base, s.job.value.op, s.job.value.done + 1),
                        job := Some(Job(s.job.value.op, s.job.value.done + 1)),
                        live := if Grows(s.base, s.job.value.op) && s.job.value.done == 0 then s.live + 1 else s.live,
                        current := if s.job.value.done == 1 then s.live else s.current);
      && JobOk(u) && s.base.staticmax <= s.table.staticmax <= u.table.staticmax <= s.base.staticmax + 1
      && InForce(s).staticmax <= InForce(u).staticmax
      && (s.table.staticmax < u.table.staticmax ==>
            s.base.staticmax < |s.base.entries| ==> s.base.entries[s.base.staticmax].None?)
  {
    StageOk(s.base, s.job.value.op, s.job.value.done);
    StageOk(s.base, s.job.value.op, s.job.value.done + 1);
  }

  lemma {:induction false} WriteLocks(s: State, u: State)
    requires LocksOk(s) && |u.threads| == |s.threads| && u.busy == s.busy && u.owner == s.owner && s.job.Some?
      && u.job.Some?
    requires forall v :: 0 <= v < |s.threads| ==> u.threads[v].pc == s.threads[v].pc
    ensures LocksOk(u)
  {
    SameBusies(s.threads, u.threads);
  }

  lemma {:induction false} WriteOk(s: State, t: nat)
    requires Inv(s) && t < |s.threads| && s.threads[t].pc.Writing? && s.job.value.done < Writes(s.job.value.op)
    ensures Inv(WriteStep(s, t))
  {
    var u := WriteStep(s, t);
    NextWrite(s);
    WriteLocks(s, u);
    forall v | 0 <= v < |s.threads|
      ensures ThreadOk(u, u.threads[v])
    {
      var frees := Grows(s.base, s.job.value.op) && s.job.value.done == 0;
      assert u.threads[v] == Told(s.table, u.table, frees, s.threads[v]);
      ToldOk(s.table, u.table, frees, s.base, InForce(s), InForce(u), s.threads[v]);
    }
  }

  // ----- The walk and the test ------------------------------------------------------------------

  lemma {:induction false} VisitOk(table: P.Table, th: Thread, i: nat, pc: Pc)
    requires i < |table.entries| && SeenTo(th, i)
    requires forall h <- th.kept :: h < |table.entries| && table.entries[h].Some?
    ensures SeenTo(Visit(table, th, i, pc), i + 1)
  {
    var seen := Visit(table, th, i, pc).seen;
    assert forall j :: 0 <= j < |th.seen| ==> th.seen[j] in th.seen;
    assert forall h :: h in seen <==> h in th.seen || (h == i && table.entries[i].Some?);
  }

  /** With nothing above the static policies in the table that is counted, the check has
      walked all that it ought to. */
  lemma {:induction false} NoneAbove(s: State, th: Thread)
    requires JobOk(s) && Between(s.table, th) && KeptOk(s.base, s.table, th)
    ensures P.Good(InForce(s)) && (Above(InForce(s)) == 0 ==> AllStatic(th))
  {
    StaticFits(s);
    var f := InForce(s);
    if s.job.Some? {
      StageOk(s.base, s.job.value.op, s.job.value.done);
    }
    forall h | h in th.kept && Above(f) == 0
      ensures h < th.at
    {
      assert h < |f.entries| && f.entries[h].Some?;
      if f.staticmax <= h {
        CountNone(f.entries[f.staticmax..], h - f.staticmax);
      }
    }
  }

  /** The loads of the test, on the thread alone. */
  lemma {:induction false} LoadsOk(table: P.Table, f: P.Table, th: Thread)
    requires th.pc.Probe? && CheckOk(table, f, th) && f.staticmax <= table.staticmax && f.staticmax <= |f.entries|
    requires table.numloaded == f.staticmax + Above(f) && (Above(f) == 0 ==> AllStatic(th))
    ensures CheckOk(table, f, FirstLoad(table, f, th, true)) && CheckOk(table, f, FirstLoad(table, f, th, false))
  {
  }

  lemma {:induction false} MarkLoadOk(s: State, th: Thread, c: Choice)
    requires JobOk(s) && ThreadOk(s, th) && th.pc.GotCount?
    ensures ThreadOk(s, Test(s, th, c)) && Quiet(th.pc, Test(s, th, c).pc)
  {
  }

  lemma {:induction false} DecidesOk(table: P.Table, f: P.Table, th: Thread)
    requires CheckOk(table, f, th) && f.staticmax <= |f.entries| && th.pc.GotMark?
    requires table.numloaded == f.staticmax + Above(f) && (Above(f) == 0 ==> AllStatic(th))
    ensures CheckOk(table, f, th.(counted := f.staticmax, above := Above(f),
                                  pc := if table.numloaded <= th.pc.m then Finished else AskRaise))
  {
  }

  /** A thread that goes on without another look at the array. */
  lemma {:induction false} SameArray(s: State, th: Thread, to: Thread)
    requires JobOk(s) && ThreadOk(s, th) && CheckOk(s.table, InForce(s), to)
    requires to.kept == th.kept && to.lost == th.lost && to.grown == th.grown && !to.pc.Pointed?
    requires Walking(to.pc) ==> Walking(th.pc)
    ensures ThreadOk(s, to)
  {
  }

  lemma {:induction false} FirstLoadChecks(s: State, th: Thread, c: Choice)
    requires JobOk(s) && CheckOk(s.table, InForce(s), th) && KeptOk(s.base, s.table, th) && th.pc.Probe?
    ensures CheckOk(s.table, InForce(s), Test(s, th, c))
  {
    StaticFits(s);
    NoneAbove(s, th);
    LoadsOk(s.table, InForce(s), th);
  }

  lemma {:induction false} FirstLoadOk(s: State, th: Thread, c: Choice)
    requires JobOk(s) && ThreadOk(s, th) && th.pc.Probe?
    ensures ThreadOk(s, Test(s, th, c)) && Quiet(th.pc, Test(s, th, c).pc)
  {
    FirstLoadChecks(s, th, c);
    SameArray(s, th, Test(s, th, c));
  }

  lemma {:induction false} CountLoadChecks(s: State, th: Thread, c: Choice)
    requires JobOk(s) && CheckOk(s.table, InForce(s), th) && KeptOk(s.base, s.table, th) && th.pc.GotMark?
    ensures CheckOk(s.table, InForce(s), Test(s, th, c))
  {
    StaticFits(s);
    NoneAbove(s, th);
    DecidesOk(s.table, InForce(s), th);
  }

  lemma {:induction false} CountLoadOk(s: State, th: Thread, c: Choice)
    requires JobOk(s) && ThreadOk(s, th) && th.pc.GotMark?
    ensures ThreadOk(s, Test(s, th, c)) && Quiet(th.pc, Test(s, th, c).pc)
  {
    CountLoadChecks(s, th, c);
    SameArray(s, th, Test(s, th, c));
  }

  lemma {:induction false} TestStepOk(s: State, t: nat, c: Choice)
    requires Inv(s) && Enabled(s, t, c)
      && (s.threads[t].pc.Probe? || s.threads[t].pc.GotCount? || s.threads[t].pc.GotMark?)
    ensures Inv(Step(s, t, c))
  {
    assert ThreadOk(s, s.threads[t]);
    if s.threads[t].pc.Probe? {
      FirstLoadOk(s, s.threads[t], c);
    } else if s.threads[t].pc.GotCount? {
      MarkLoadOk(s, s.threads[t], c);
    } else {
      CountLoadOk(s, s.threads[t], c);
    }
    QuietOk(s, t, Test(s, s.threads[t], c));
  }

  lemma {:induction false} LoseOk(th: Thread, i: nat)
    requires SeenTo(th, i)
    ensures SeenTo(th.(lost := th.lost + {i}), i + 1)
  {
  }

  lemma {:induction false} EntryLoadOk(s: State, th: Thread, c: Choice)
    requires JobOk(s) && ThreadOk(s, th) && th.pc.Pointed?
    ensures ThreadOk(s, StaticWalk(s, th, c)) && Quiet(th.pc, StaticWalk(s, th, c).pc)
  {
    StaticFits(s);
    VisitOk(s.table, th, th.pc.i, Static(th.pc.i + 1));
    LoseOk(th, th.pc.i);
  }

  lemma {:induction false} MarkedOk(table: P.Table, f: P.Table, th: Thread)
    requires CheckOk(table, f, th) && th.pc.Static?
    ensures CheckOk(table, f, if th.pc.i < table.staticmax then th.(pc := Below(th.pc.i))
      else th.(pc := Probe, at := th.pc.i))
  {
  }

  lemma {:induction false} PointedOk(s: State, th: Thread)
    requires JobOk(s) && ThreadOk(s, th) && th.pc.Below?
    ensures ThreadOk(s, th.(pc := Pointed(th.pc.i, s.current)))
  {
  }

  lemma {:induction false} StaticWalkOk(s: State, th: Thread, c: Choice)
    requires JobOk(s) && ThreadOk(s, th) && Walking(th.pc)
    ensures ThreadOk(s, StaticWalk(s, th, c)) && Quiet(th.pc, StaticWalk(s, th, c).pc)
  {
    if th.pc.Pointed? {
      EntryLoadOk(s, th, c);
    } else if th.pc.Below? {
      PointedOk(s, th);
    } else {
      MarkedOk(s.table, InForce(s), th);
      SameArray(s, th, StaticWalk(s, th, c));
    }
  }

  /** Nothing is consulted but a policy that is in the list at that moment. */
  ghost predicate Consulted(table: P.Table, was: seq<nat>, now: seq<nat>) {
    now == was || (exists i: nat :: i < |table.entries| && table.entries[i].Some? && now == was + [i])
  }

  lemma {:induction false} StaticConsults(s: State, th: Thread, c: Choice)
    requires JobOk(s) && Walking(th.pc) && CheckOk(s.table, InForce(s), th)
    ensures Consulted(s.table, th.seen, StaticWalk(s, th, c).seen)
  {
    StaticFits(s);
  }

  lemma {:induction false} WalkConsults(table: P.Table, th: Thread)
    requires P.Inv(table) && th.pc.Walk?
    ensures Consulted(table, th.seen, WalkOn(table, th).seen)
  {
  }

  lemma {:induction false} StaticStepOk(s: State, t: nat, c: Choice)
    requires Inv(s) && Enabled(s, t, c) && Walking(s.threads[t].pc)
    ensures Inv(Step(s, t, c))
  {
    assert ThreadOk(s, s.threads[t]);
    StaticWalkOk(s, s.threads[t], c);
    QuietOk(s, t, StaticWalk(s, s.threads[t], c));
  }

  lemma {:induction false} SkipOk(s: State, th: Thread)
    requires JobOk(s) && s.job.None? && ThreadOk(s, th) && th.pc.Raise? && s.table.numloaded <= s.table.staticmax
    ensures ThreadOk(s, th.(pc := Skip))
  {
    ProbeExact(s.table);
    assert Accounted(th);
  }

  lemma {:induction false} RaiseStepOk(s: State, t: nat, c: Choice)
    requires Inv(s) && Enabled(s, t, c) && s.threads[t].pc.Raise?
    ensures Inv(Step(s, t, c))
  {
    Resting(s, t);
    var th := s.threads[t];
    assert ThreadOk(s, th);
    if s.table.numloaded > s.table.staticmax {
      RaiseOk(s, t, Raised);
    } else {
      SkipOk(s, th);
      QuietOk(s, t, th.(pc := Skip));
    }
  }

  /** Under the lock, the count is raised exactly if there is a policy beyond the static ones. */
  lemma {:induction false} RaiseExact(s: State, t: nat, c: Choice)
    requires Inv(s) && Enabled(s, t, c) && s.threads[t].pc.Raise?
    ensures Step(s, t, c).busy == s.busy + 1 <==>
      exists h :: s.table.staticmax <= h < |s.table.entries| && s.table.entries[h].Some?
    ensures Step(s, t, c).busy == s.busy + 1 || Step(s, t, c).busy == s.busy
  {
    Resting(s, t);
    ProbeExact(s.table);
    assert Step(s, t, c) == CheckStep(s, t, c);
  }

  lemma {:induction false} WalkEnds(table: P.Table, th: Thread, i: nat)
    requires P.Good(table) && table.maxindex < i && SeenTo(th, i)
    requires forall h <- th.kept :: h < |table.entries| && table.entries[h].Some?
    ensures Accounted(th)
  {
  }

  lemma {:induction false} WalkOk(s: State, th: Thread)
    requires JobOk(s) && s.job.None? && ThreadOk(s, th) && th.pc.Walk?
    ensures ThreadOk(s, WalkOn(s.table, th))
  {
    if th.pc.i <= s.table.maxindex {
      VisitOk(s.table, th, th.pc.i, Walk(th.pc.i + 1));
    } else {
      WalkEnds(s.table, th, th.pc.i);
    }
  }

  lemma {:induction false} WalkStepOk(s: State, t: nat, c: Choice)
    requires Inv(s) && Enabled(s, t, c) && s.threads[t].pc.Walk?
    ensures Inv(Step(s, t, c))
  {
    Resting(s, t);
    var th := s.threads[t];
    assert ThreadOk(s, th);
    WalkOk(s, th);
    QuietOk(s, t, WalkOn(s.table, th));
  }

  // ----- Every step -----------------------------------------------------------------------------

  lemma {:induction false} Carries(table: P.Table, f: P.Table, th: Thread, pc: Pc)
    requires CheckOk(table, f, th)
    requires (Plain(th.pc) && Plain(pc)) || (th.pc.AskRaise? && pc.Raise?) || (th.pc.Raised? && pc == Walk(th.at))
    ensures CheckOk(table, f, th.(pc := pc))
  {
  }

  function WithLock(pc: Pc): Pc {
    if pc.AskRaise? then Raise else if pc.AskBusy? then Busy else if pc.AskLower? then Lower else Held
  }

  lemma {:induction false} TakesLock(s: State, t: nat, c: Choice)
    requires Inv(s) && Enabled(s, t, c) && Asks(s.threads[t].pc)
    ensures Step(s, t, c) == Lock(s, t, WithLock(s.threads[t].pc))
  {
  }

  lemma {:induction false} LockStepOk(s: State, t: nat, c: Choice)
    requires Inv(s) && Enabled(s, t, c) && Asks(s.threads[t].pc)
    ensures Inv(Step(s, t, c))
  {
    var th := s.threads[t];
    assert ThreadOk(s, th);
    var pc := WithLock(th.pc);
    Carries(s.table, InForce(s), th, pc);
    LockOk(s, t, pc);
    TakesLock(s, t, c);
  }

  lemma {:induction false} RaisedOk(s: State, t: nat, c: Choice)
    requires Inv(s) && Enabled(s, t, c) && s.threads[t].pc.Raised?
    ensures Inv(Step(s, t, c))
  {
    var th := s.threads[t];
    assert ThreadOk(s, th);
    Carries(s.table, InForce(s), th, Walk(th.at));
    UnlockOk(s, t, Walk(th.at));
  }

  predicate LetsGo(pc: Pc) { pc.Skip? || pc.BusyDone? || pc.LowerDone? || pc.Changed? }

  function WithoutLock(pc: Pc): Pc {
    if pc.BusyDone? then Using else if pc.Changed? then Released else Finished
  }

  lemma {:induction false} GivesLock(s: State, t: nat, c: Choice)
    requires Inv(s) && Enabled(s, t, c) && LetsGo(s.threads[t].pc)
    ensures Step(s, t, c) == Unlock(s, t, WithoutLock(s.threads[t].pc))
  {
  }

  lemma {:induction false} UnlockStepOk(s: State, t: nat, c: Choice)
    requires Inv(s) && Enabled(s, t, c) && LetsGo(s.threads[t].pc)
    ensures Inv(Step(s, t, c))
  {
    var th := s.threads[t];
    assert ThreadOk(s, th);
    var pc := WithoutLock(th.pc);
    Carries(s.table, InForce(s), th, pc);
    UnlockOk(s, t, pc);
    GivesLock(s, t, c);
  }

  function MovedTo(pc: Pc): Pc {
    if pc.Using? then AskLower else if pc.Finished? then Idle else Changed
  }

  lemma {:induction false} Moves(s: State, t: nat, c: Choice)
    requires Inv(s) && Enabled(s, t, c)
    requires var pc := s.threads[t].pc; pc.Using? || pc.Finished? || (pc.Exclusive? && !c.Change?)
    ensures Step(s, t, c) == At(s, t, MovedTo(s.threads[t].pc))
  {
  }

  lemma {:induction false} MoveStepOk(s: State, t: nat, c: Choice)
    requires Inv(s) && Enabled(s, t, c)
    requires var pc := s.threads[t].pc; pc.Using? || pc.Finished? || (pc.Exclusive? && !c.Change?)
    ensures Inv(Step(s, t, c))
  {
    var th := s.threads[t];
    assert ThreadOk(s, th);
    var pc := MovedTo(th.pc);
    Carries(s.table, InForce(s), th, pc);
    QuietOk(s, t, th.(pc := pc));
    Moves(s, t, c);
  }

  lemma {:induction false} StartOk(s: State, t: nat, c: Choice)
    requires Inv(s) && Enabled(s, t, c) && s.threads[t].pc.Idle?
    ensures Inv(Step(s, t, c))
  {
    QuietOk(s, t, Step(s, t, c).threads[t]);
  }

  lemma {:induction false} BusyStepOk(s: State, t: nat, c: Choice)
    requires Inv(s) && Enabled(s, t, c) && s.threads[t].pc.Busy?
    ensures Inv(Step(s, t, c))
  {
    var th := s.threads[t];
    assert ThreadOk(s, th);
    Carries(s.table, InForce(s), th, BusyDone);
    RaiseOk(s, t, BusyDone);
  }

  lemma {:induction false} LoweredOk(s: State, t: nat, c: Choice)
    requires Inv(s) && Enabled(s, t, c) && s.threads[t].pc.Lowered?
    ensures Inv(Step(s, t, c))
  {
    if s.busy == 0 {
      WakeOk(s);
      WokenOk(Wake(s), t);
    } else {
      WokenOk(s, t);
    }
  }

  lemma {:induction false} HeldOk(s: State, t: nat, c: Choice)
    requires Inv(s) && Enabled(s, t, c) && s.threads[t].pc.Held?
    ensures Inv(Step(s, t, c))
  {
    var th := s.threads[t];
    assert ThreadOk(s, th);
    Carries(s.table, InForce(s), th, Exclusive);
    Carries(s.table, InForce(s), th, Asleep);
    if s.busy == 0 {
      QuietOk(s, t, th.(pc := Exclusive));
    } else {
      UnlockOk(s, t, Asleep);
    }
  }

  lemma {:induction false} ReleasedOk(s: State, t: nat, c: Choice)
    requires Inv(s) && Enabled(s, t, c) && s.threads[t].pc.Released?
    ensures Inv(Step(s, t, c))
  {
    WakeOk(s);
    var th := s.threads[t];
    assert ThreadOk(s, th);
    Carries(s.table, InForce(s), th, Idle);
    QuietOk(Wake(s), t, th.(pc := Idle));
  }

  /** Every step of every thread keeps the invariant. */
  lemma {:induction false} StepOk(s: State, t: nat, c: Choice)
    requires Inv(s) && Enabled(s, t, c)
    ensures Inv(Step(s, t, c))
  {
    var pc := s.threads[t].pc;
    if Asks(pc) {
      LockStepOk(s, t, c);
    } else if LetsGo(pc) {
      UnlockStepOk(s, t, c);
    } else if pc.Raised? {
      RaisedOk(s, t, c);
    } else if pc.Idle? {
      StartOk(s, t, c);
    } else if pc.Probe? || pc.GotCount? || pc.GotMark? {
      TestStepOk(s, t, c);
    } else if Walking(pc) {
      StaticStepOk(s, t, c);
    } else if pc.Raise? {
      RaiseStepOk(s, t, c);
    } else if pc.Walk? {
      WalkStepOk(s, t, c);
    } else if pc.Busy? {
      BusyStepOk(s, t, c);
    } else if pc.Lower? {
      LowerOk(s, t);
    } else if pc.Lowered? {
      LoweredOk(s, t, c);
    } else if pc.Held? {
      HeldOk(s, t, c);
    } else if pc.Released? {
      ReleasedOk(s, t, c);
    } else if pc.Writing? {
      if s.job.value.done < Writes(s.job.value.op) {
        WriteOk(s, t);
      } else {
        EndsOk(s, t);
      }
    } else if pc.Exclusive? && c.Change? {
      BeginsOk(s, t, c.op);
    } else {
      MoveStepOk(s, t, c);
    }
  }

  // ----- What the invariant gives ---------------------------------------------------------------

  lemma {:induction false} SomeCounted(ths: seq<Thread>) returns (t: nat)
    requires 0 < Busies(ths)
    ensures t < |ths| && Counted(ths[t].pc)
  {
    if Counted(ths[0].pc) {
      t := 0;
    } else {
      t := SomeCounted(ths[1..]);
      t := t + 1;
    }
  }

  /** The holder is alone: no other thread holds the list, and none uses it. */
  lemma {:induction false} HolderAlone(s: State, t: nat, u: nat)
    requires LocksOk(s) && t < |s.threads| && u < |s.threads| && t != u && Alone(s.threads[t].pc)
    ensures !Alone(s.threads[u].pc) && !Counted(s.threads[u].pc)
  {
    BusiesUpdate(s.threads, u, s.threads[u]);
  }

  /** While a thread uses the list, no step writes to it. */
  lemma {:induction false} Frozen(s: State, t: nat, c: Choice, u: nat)
    requires Inv(s) && Enabled(s, t, c) && u < |s.threads| && Counted(s.threads[u].pc)
    ensures SameList(s, Step(s, t, c))
  {
    if s.threads[t].pc.Writing? {
      HolderAlone(s, t, u);
    }
  }

  /** The threads never wait for each other for ever: while one is not idle, one can move. */
  lemma {:induction false} NoDeadlock(s: State, t: nat) returns (u: nat)
    requires LocksOk(s) && t < |s.threads| && !s.threads[t].pc.Idle?
    ensures u < |s.threads| && !s.threads[u].pc.Idle? && Enabled(s, u, Continue)
  {
    if s.owner.Some? {
      u := s.owner.value;
    } else if s.threads[t].pc.Asleep? {
      u := SomeCounted(s.threads);
    } else {
      u := t;
    }
  }

  // ----- Whole runs -----------------------------------------------------------------------------

  datatype Act = Act(t: nat, c: Choice)

  ghost predicate Takes(s: State, a: Act, u: State) {
    Inv(s) ==> Enabled(s, a.t, a.c) && u == Step(s, a.t, a.c)
  }

  ghost predicate Stepped(ss: seq<State>, acts: seq<Act>, i: nat)
    requires |ss| == |acts| + 1 && i < |acts|
  {
    Takes(ss[i], acts[i], ss[i + 1])
  }

  ghost predicate Starts(s: State) {
    && P.Good(s.table) && s.table.late && s.base == s.table && s.current == s.live && s.job.None? && s.busy == 0
    && s.owner.None? && forall t :: 0 <= t < |s.threads| ==> s.threads[t] == Fresh(Idle, {}, 0)
  }

  ghost predicate Run(ss: seq<State>, acts: seq<Act>) {
    |ss| == |acts| + 1 && Starts(ss[0]) && forall i :: 0 <= i < |acts| ==> Stepped(ss, acts, i)
  }

  lemma {:induction false} NoneCounted(ths: seq<Thread>)
    requires forall t :: 0 <= t < |ths| ==> !Counted(ths[t].pc)
    ensures Busies(ths) == 0
  {
    if ths != [] { NoneCounted(ths[1..]); }
  }

  lemma {:induction false} StartsOk(s: State)
    requires Starts(s)
    ensures Inv(s)
  {
    NoneCounted(s.threads);
  }

  lemma {:induction false} RunOk(ss: seq<State>, acts: seq<Act>, i: nat)
    requires Run(ss, acts) && i < |ss|
    ensures Inv(ss[i])
  {
    if i == 0 {
      StartsOk(ss[0]);
    } else {
      RunOk(ss, acts, i - 1);
      assert Stepped(ss, acts, i - 1);
      StepOk(ss[i - 1], acts[i - 1].t, acts[i - 1].c);
    }
  }

  /** In any run, the list is the same at both ends of a stretch in which a thread stays
      counted as busy. */
  lemma {:induction false} FrozenRun(ss: seq<State>, acts: seq<Act>, u: nat, i: nat, j: nat)
    requires Run(ss, acts) && i <= j < |ss|
    requires forall k :: i <= k <= j ==> u < |ss[k].threads| && Counted(ss[k].threads[u].pc)
    ensures SameList(ss[i], ss[j])
    decreases j
  {
    if i < j {
      FrozenRun(ss, acts, u, i, j - 1);
      RunOk(ss, acts, j - 1);
      assert Stepped(ss, acts, j - 1);
      FrozenStep(ss[j - 1], acts[j - 1], ss[j], u);
    }
  }

  lemma {:induction false} FrozenStep(s: State, a: Act, next: State, u: nat)
    requires Inv(s) && Takes(s, a, next) && u < |s.threads| && Counted(s.threads[u].pc)
    ensures SameList(s, next)
  {
    Frozen(s, a.t, a.c, u);
  }

  /** What the walk over the static policies read from freed arrays was their policies. */
  ghost predicate ReadRight(th: Thread) {
    th.kept !! th.lost
  }

  lemma {:induction false} FinishedExact(table: P.Table, f: P.Table, th: Thread)
    requires CheckOk(table, f, th) && th.pc.Finished?
    ensures Rising(th.seen) && (SeenAll(th) <==> ReadRight(th) && (Passed(th) || AllStatic(th)))
    ensures ReadRight(th) && (th.raised == 0 || th.raised < th.above) ==> SeenAll(th)
  {
  }

  /** In any run, a finished check consulted every policy that was registered when it began and
      has not been unloaded since, exactly when every array it read after it was freed still held
      the policy, and its unlocked test found the mark less far ahead of the count than there were
      policies above the static ones, or there is none of them that it ought to have consulted. */
  lemma {:induction false} CheckExact(ss: seq<State>, acts: seq<Act>, i: nat, t: nat)
    requires Run(ss, acts) && i < |ss| && t < |ss[i].threads| && ss[i].threads[t].pc.Finished?
    ensures var th := ss[i].threads[t];
      Rising(th.seen) && (SeenAll(th) <==> ReadRight(th) && (th.mark < th.counted + th.above || AllStatic(th)))
  {
    RunOk(ss, acts, i);
    assert ThreadOk(ss[i], ss[i].threads[t]);
    FinishedExact(ss[i].table, InForce(ss[i]), ss[i].threads[t]);
  }

  /** So it is complete if no registration that makes room overlapped its walk over the static
      policies, and its test overlapped no registration that raises staticmax, or fewer of them
      than there were policies above the static ones. */
  lemma {:induction false} CheckComplete(ss: seq<State>, acts: seq<Act>, i: nat, t: nat)
    requires Run(ss, acts) && i < |ss| && t < |ss[i].threads| && ss[i].threads[t].pc.Finished?
    requires ss[i].threads[t].grown == 0
    requires ss[i].threads[t].raised == 0 || ss[i].threads[t].raised < ss[i].threads[t].above
    ensures SeenAll(ss[i].threads[t])
  {
    RunOk(ss, acts, i);
    assert ThreadOk(ss[i], ss[i].threads[t]);
    FinishedExact(ss[i].table, InForce(ss[i]), ss[i].threads[t]);
  }
}
