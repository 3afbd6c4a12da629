/** The violation log of the undefined-behaviour sanitizer (san/ubsan_log.c, san/ubsan.c).

    Any number of threads report violations; a report first claims its source location with
    a compare-and-swap, then reserves a slot of a 2048-entry ring with another, fills the slot, and
    publishes it in turn.  One sysctl handler at a time dumps or resets the log.

    Every step below is one atomic access of the code.  The steps test and write only the
    words the code has.  The fields of `Ghost`, and the tickets kept in the thread
    states, count without wrapping; they record what happened and guard nothing, with one
    exception: a reserving swap is assumed not to span a full lap of the ring (LapFree). */
module UbsanLog {

  const SIZE := 2048

  /** The line_acquired bit of a line word. */
  predicate Acq(line: bv32) { line & 0x8000_0000 != 0 }
  function SetAcq(line: bv32): (r: bv32)
    ensures Acq(r)
  {
    line | 0x8000_0000
  }

  type Loc = nat
  type Tid = nat
  datatype Violation = Violation(loc: Loc, kind: nat, lhs: nat, rhs: nat)

  /** A slot holds zeroes, a record being copied, or a whole record. */
  datatype Slot = Zero | Torn | Whole(v: Violation)

  /** The slot of the k-th record, named so that statements about records can be found by it. */
  function SlotOf(k: nat): nat { k % SIZE }

  function NextEntry(x: nat): nat { (x + 1) % SIZE }

  /** Where a reporting thread stands.  `i` and `e` are the indices the code holds; `k` is the
      unbounded ticket behind `i`. */
  datatype Pc =
    | Idle
    | LineLoaded(v: Violation, line: bv32)          // line word read, bit clear
    | Acquired(v: Violation)                        // entering ubsan_log_append
    | NextLoaded(v: Violation, i: nat, k: nat)      // reserve loop: next read
    | TailChecked(v: Violation, i: nat, k: nat)     // reserve loop: not full
    | Reserved(v: Violation, i: nat, k: nat)        // owns slot i
    | Copying(v: Violation, i: nat, k: nat)         // part of the record written
    | Written(v: Violation, i: nat, k: nat)         // publish loop
    | HeadLoaded(v: Violation, i: nat, k: nat)      // publish loop: head read and equal to i

  /** The sysctl handlers, one at a time.  `c` counts are the unbounded values behind the indices. */
  datatype Handler =
    | NoHandler
    | ResetLoaded(head: nat, ch: nat)
    | DumpLoaded(head: nat, ch: nat)
    | Dumping(i: nat, head: nat, ci: nat, ch: nat, out: seq<Slot>)

  /** What became of a claimed location: a thread holds it, it is in the n-th record reserved,
      or the log was full. */
  datatype Claim = HeldBy(t: Tid) | Logged(n: nat) | Dropped

  /** A reservation: the record and the thread that made it. */
  datatype Entry = Entry(v: Violation, owner: Tid)

  /** Unbounded counters, the reservations in order, and the claims. */
  datatype Ghost = Ghost(head: nat, tail: nat, next: nat, reserved: seq<Entry>, claim: map<Loc, Claim>)

  datatype State = State(
    head: nat, tail: nat, next: nat, log: seq<Slot>, line: map<Loc, bv32>,
    threads: map<Tid, Pc>, handler: Handler, g: Ghost)

  function At(s: State, t: Tid): Pc { if t in s.threads then s.threads[t] else Idle }

  function Go(s: State, t: Tid, pc: Pc): State { s.(threads := s.threads[t := pc]) }

  predicate Init(s: State) {
    && s.head == s.tail == s.next == 0 && s.g == Ghost(0, 0, 0, [], map[])
    && |s.log| == SIZE && s.threads == map[] && s.handler == NoHandler
    && forall l <- s.line :: !Acq(s.line[l])
  }

  /** The assumption on reserving swaps: fewer than SIZE reservations since `next` was read. */
  predicate LapFree(s: State, k: nat) { s.g.next < k + SIZE }

  // ----- The steps of a reporting thread -------------------------------------------------

  /** ubsan_loc_acquire reads the line word, and gives up if its bit is set. */
  predicate LoadLine(s: State, s': State, t: Tid, v: Violation) {
    && At(s, t).Idle? && v.loc in s.line
    && s' == if Acq(s.line[v.loc]) then s else Go(s, t, LineLoaded(v, s.line[v.loc]))
  }

  /** The compare-and-swap on the line word. */
  predicate SwapLine(s: State, s': State, t: Tid) {
    && At(s, t).LineLoaded? && At(s, t).v.loc in s.line
    && var pc := At(s, t);
       s' == if s.line[pc.v.loc] == pc.line
             then Go(s, t, Acquired(pc.v)).(line := s.line[pc.v.loc := SetAcq(pc.line)],
                    g := s.g.(claim := s.g.claim[pc.v.loc := HeldBy(t)]))
             else Go(s, t, Idle)
  }

  predicate LoadNext(s: State, s': State, t: Tid) {
    At(s, t).Acquired? && s' == Go(s, t, NextLoaded(At(s, t).v, s.next, s.g.next))
  }

  /** The full test; a full log drops the record. */
  predicate CheckTail(s: State, s': State, t: Tid) {
    && At(s, t).NextLoaded?
    && var pc := At(s, t);
       s' == if NextEntry(pc.i) == s.tail then Go(s, t, Idle).(g := s.g.(claim := s.g.claim[pc.v.loc := Dropped]))
             else Go(s, t, TailChecked(pc.v, pc.i, pc.k))
  }

  /** The compare-and-swap on next. */
  predicate Reserve(s: State, s': State, t: Tid) {
    && At(s, t).TailChecked?
    && var pc := At(s, t);
       s' == if s.next == pc.i
             then Go(s, t, Reserved(pc.v, pc.i, pc.k)).(next := NextEntry(pc.i),
                    g := s.g.(next := s.g.next + 1, reserved := s.g.reserved + [Entry(pc.v, t)],
                              claim := s.g.claim[pc.v.loc := Logged(s.g.next)]))
             else Go(s, t, Acquired(pc.v))
  }

  predicate SwapNext(s: State, s': State, t: Tid) {
    At(s, t).TailChecked? && LapFree(s, At(s, t).k) && Reserve(s, s', t)
  }

  /** A weak compare-and-swap may fail for no reason; the loop then starts over. */
  predicate FailSwap(s: State, s': State, t: Tid) {
    || (At(s, t).TailChecked? && s' == Go(s, t, Acquired(At(s, t).v)))
    || (At(s, t).HeadLoaded? && s' == Go(s, t, Written(At(s, t).v, At(s, t).i, At(s, t).k)))
  }

  predicate BeginCopy(s: State, s': State, t: Tid) {
    && At(s, t).Reserved? && At(s, t).i < |s.log|
    && var pc := At(s, t); s' == Go(s, t, Copying(pc.v, pc.i, pc.k)).(log := s.log[pc.i := Torn])
  }

  predicate EndCopy(s: State, s': State, t: Tid) {
    && At(s, t).Copying? && At(s, t).i < |s.log|
    && var pc := At(s, t); s' == Go(s, t, Written(pc.v, pc.i, pc.k)).(log := s.log[pc.i := Whole(pc.v)])
  }

  /** The publish loop reads head, and waits while it differs from `i`. */
  predicate LoadHead(s: State, s': State, t: Tid) {
    && At(s, t).Written?
    && var pc := At(s, t);
       s' == if s.head == pc.i then Go(s, t, HeadLoaded(pc.v, pc.i, pc.k)) else s
  }

  predicate SwapHead(s: State, s': State, t: Tid) {
    && At(s, t).HeadLoaded?
    && var pc := At(s, t);
       s' == if s.head == pc.i
             then Go(s, t, Idle).(head := NextEntry(pc.i), g := s.g.(head := s.g.head + 1))
             else Go(s, t, Written(pc.v, pc.i, pc.k))
  }

  ghost predicate ThreadStep(s: State, s': State, t: Tid) {
    || (exists v :: LoadLine(s, s', t, v))
    || SwapLine(s, s', t) || LoadNext(s, s', t) || CheckTail(s, s', t) || SwapNext(s, s', t)
    || FailSwap(s, s', t) || BeginCopy(s, s', t) || EndCopy(s, s', t) || LoadHead(s, s', t) || SwapHead(s, s', t)
  }

  // ----- The steps of the sysctl handlers ------------------------------------------------

  predicate BeginReset(s: State, s': State) {
    s.handler.NoHandler? && s' == s.(handler := ResetLoaded(s.head, s.g.head))
  }

  /** The reset: tail becomes the head read before. */
  predicate StoreTail(s: State, s': State) {
    && s.handler.ResetLoaded?
    && s' == s.(tail := s.handler.head, handler := NoHandler, g := s.g.(tail := s.handler.ch))
  }

  predicate BeginDump(s: State, s': State) {
    s.handler.NoHandler? && s' == s.(handler := DumpLoaded(s.head, s.g.head))
  }

  predicate LoadTail(s: State, s': State) {
    && s.handler.DumpLoaded?
    && s' == s.(handler := Dumping(s.tail, s.handler.head, s.g.tail, s.handler.ch, []))
  }

  predicate DumpEntry(s: State, s': State) {
    && s.handler.Dumping? && s.handler.i != s.handler.head && s.handler.i < |s.log|
    && var d := s.handler;
       s' == s.(handler := d.(i := NextEntry(d.i), ci := d.ci + 1, out := d.out + [s.log[d.i]]))
  }

  predicate EndDump(s: State, s': State) {
    s.handler.Dumping? && s.handler.i == s.handler.head && s' == s.(handler := NoHandler)
  }

  predicate HandlerStep(s: State, s': State) {
    BeginReset(s, s') || StoreTail(s, s') || BeginDump(s, s') || LoadTail(s, s') || DumpEntry(s, s') || EndDump(s, s')
  }

  ghost predicate Step(s: State, s': State) {
    HandlerStep(s, s') || exists t :: ThreadStep(s, s', t)
  }

  // ----- The invariant -------------------------------------------------------------------

  /** The indices are the counters modulo the ring size, and at most SIZE - 1 slots are in use. */
  predicate Counters(s: State) {
    && s.head == s.g.head % SIZE && s.tail == s.g.tail % SIZE && s.next == s.g.next % SIZE
    && s.g.tail <= s.g.head <= s.g.next < s.g.tail + SIZE
    && |s.g.reserved| == s.g.next && |s.log| == SIZE
  }

  /** Every slot from tail to head holds the whole record of the writer that reserved it. */
  ghost predicate Published(s: State)
    requires Counters(s)
  {
    forall k :: s.g.tail <= k < s.g.head ==> s.log[k % SIZE] == Whole(s.g.reserved[k].v)
  }

  predicate Owns(pc: Pc) { pc.Reserved? || pc.Copying? || pc.Written? || pc.HeadLoaded? }

  /** The thread has claimed its location and not yet reserved a slot. */
  predicate Claims(pc: Pc) { pc.Acquired? || pc.NextLoaded? || pc.TailChecked? }

  predicate ThreadOk(s: State, t: Tid, pc: Pc)
    requires Counters(s)
  {
    && (pc.LineLoaded? ==> pc.v.loc in s.line && !Acq(pc.line))
    && (Claims(pc) ==> pc.v.loc in s.g.claim && s.g.claim[pc.v.loc] == HeldBy(t))
    && (pc.NextLoaded? || pc.TailChecked? ==> pc.k <= s.g.next && pc.i == pc.k % SIZE)
    && (pc.TailChecked? ==> pc.k + 1 < s.g.tail + SIZE)
    && (Owns(pc) ==> s.g.head <= pc.k < s.g.next && pc.i == pc.k % SIZE && s.g.reserved[pc.k] == Entry(pc.v, t))
    && (pc.Written? || pc.HeadLoaded? ==> s.log[pc.i] == Whole(pc.v))
  }

  ghost predicate Threads(s: State)
    requires Counters(s)
  {
    forall t <- s.threads :: ThreadOk(s, t, s.threads[t])
  }

  /** Exactly the locations whose bit is set are claimed, and each reserved record has its own. */
  ghost predicate Claimed(s: State) {
    && (forall l <- s.line :: l in s.g.claim <==> Acq(s.line[l]))
    && (forall l <- s.g.claim :: l in s.line)
    && (forall k :: 0 <= k < |s.g.reserved| ==>
          s.g.reserved[k].v.loc in s.g.claim && s.g.claim[s.g.reserved[k].v.loc] == Logged(k))
  }

  ghost predicate HandlerOk(s: State)
    requires Counters(s)
  {
    match s.handler
    case NoHandler => true
    case ResetLoaded(h, ch) => h == ch % SIZE && s.g.tail <= ch <= s.g.head
    case DumpLoaded(h, ch) => h == ch % SIZE && s.g.tail <= ch <= s.g.head
    case Dumping(i, h, ci, ch, out) =>
      && h == ch % SIZE && i == ci % SIZE && s.g.tail <= ci <= ch <= s.g.head
      && |out| == ci - s.g.tail
      && forall j :: 0 <= j < |out| ==> out[j] == Whole(s.g.reserved[s.g.tail + j].v)
  }

  ghost predicate Inv(s: State) {
    Counters(s) && Published(s) && Threads(s) && Claimed(s) && HandlerOk(s)
  }

  // ----- Every step keeps the invariant ------------------------------------------------------

  lemma {:induction false} InitOk(s: State)
    requires Init(s)
    ensures Inv(s)
  {
  }

  /** Within a window of less than SIZE counts, equal indices mean equal counts. */
  lemma {:induction false} SameSlot(j: nat, k: nat)
    requires j < k + SIZE && k < j + SIZE
    ensures j % SIZE == k % SIZE <==> j == k
  {
  }

  lemma {:induction false} NextSlot(k: nat)
    ensures NextEntry(k % SIZE) == (k + 1) % SIZE
  {
  }

  /** A step that only moves one thread. */
  lemma {:induction false} MoveOk(s: State, t: Tid, pc: Pc)
    requires Inv(s) && ThreadOk(s, t, pc)
    ensures Inv(Go(s, t, pc))
  {
  }

  lemma {:induction false} LoadLineOk(s: State, s': State, t: Tid, v: Violation)
    requires Inv(s) && LoadLine(s, s', t, v)
    ensures Inv(s')
  {
    if s' != s { MoveOk(s, t, LineLoaded(v, s.line[v.loc])); }
  }

  lemma {:induction false} OtherLine(s: State, s': State, u: Tid, loc: Loc)
    requires Counters(s) && Counters(s') && Threads(s) && u in s.threads && loc !in s.g.claim
    requires s'.log == s.log && s'.g.(claim := s.g.claim) == s.g && s.line.Keys <= s'.line.Keys
    requires forall l <- s.g.claim :: l in s'.g.claim && s'.g.claim[l] == s.g.claim[l]
    ensures ThreadOk(s', u, s.threads[u])
  {
    assert ThreadOk(s, u, s.threads[u]);
  }

  /** Claiming a location that no thread and no record has. */
  lemma {:induction false} SwapLineOk(s: State, s': State, t: Tid)
    requires Inv(s) && SwapLine(s, s', t)
    ensures Inv(s')
  {
    var pc := At(s, t);
    if s.line[pc.v.loc] == pc.line {
      assert pc.v.loc !in s.g.claim;
      forall u <- s'.threads ensures ThreadOk(s', u, s'.threads[u]) {
        if u != t { OtherLine(s, s', u, pc.v.loc); }
      }
    } else {
      MoveOk(s, t, Idle);
    }
  }

  lemma {:induction false} LoadNextOk(s: State, s': State, t: Tid)
    requires Inv(s) && LoadNext(s, s', t)
    ensures Inv(s')
  {
    MoveOk(s, t, NextLoaded(At(s, t).v, s.next, s.g.next));
  }

  /** A thread that gives up or makes good its claim leaves the other threads as they are. */
  lemma {:induction false} OtherClaim(s: State, s': State, t: Tid, u: Tid)
    requires Counters(s) && Counters(s') && Threads(s) && u in s.threads && t in s.threads && u != t
      && Claims(s.threads[t])
    requires s'.line == s.line && s'.log == s.log && s'.g.head == s.g.head && s'.g.tail == s.g.tail
    requires s.g.next <= s'.g.next && s.g.reserved <= s'.g.reserved
    requires forall l <- s.g.claim :: l != s.threads[t].v.loc ==> l in s'.g.claim && s'.g.claim[l] == s.g.claim[l]
    ensures ThreadOk(s', u, s.threads[u])
  {
    assert ThreadOk(s, u, s.threads[u]) && ThreadOk(s, t, s.threads[t]);
  }

  lemma {:induction false} RoomLeft(k: nat, i: nat, tail: nat)
    requires i == k % SIZE && k < tail + SIZE && NextEntry(i) != tail % SIZE
    ensures k + 1 < tail + SIZE
  {
    NextSlot(k);
    Lap(tail);
  }

  lemma {:induction false} DropOk(s: State, s': State, t: Tid)
    requires Inv(s) && CheckTail(s, s', t) && NextEntry(At(s, t).i) == s.tail
    ensures Inv(s')
  {
    forall u <- s'.threads ensures ThreadOk(s', u, s'.threads[u]) {
      if u != t { OtherClaim(s, s', t, u); }
    }
  }

  lemma {:induction false} CheckTailOk(s: State, s': State, t: Tid)
    requires Inv(s) && CheckTail(s, s', t)
    ensures Inv(s')
  {
    var pc := At(s, t);
    if NextEntry(pc.i) == s.tail {
      DropOk(s, s', t);
    } else {
      RoomLeft(pc.k, pc.i, s.g.tail);
      MoveOk(s, t, TailChecked(pc.v, pc.i, pc.k));
    }
  }

  /** The swap succeeds only if `next` is still where it was read, so the full test still holds. */
  lemma {:induction false} SwapNextOk(s: State, s': State, t: Tid)
    requires Inv(s) && SwapNext(s, s', t)
    ensures Inv(s')
  {
    var pc := At(s, t);
    SameSlot(pc.k, s.g.next);
    NextSlot(pc.k);
    if s.next == pc.i {
      forall u <- s'.threads ensures ThreadOk(s', u, s'.threads[u]) {
        if u != t { OtherClaim(s, s', t, u); }
      }
    } else {
      MoveOk(s, t, Acquired(pc.v));
    }
  }

  lemma {:induction false} FailSwapOk(s: State, s': State, t: Tid)
    requires Inv(s) && FailSwap(s, s', t)
    ensures Inv(s')
  {
    var pc := At(s, t);
    MoveOk(s, t, if pc.TailChecked? then Acquired(pc.v) else Written(pc.v, pc.i, pc.k));
  }

  /** The owner of a slot may write it: it is outside the published part, and no other thread owns it. */
  lemma {:induction false} FillOk(s: State, t: Tid, pc: Pc, x: Slot)
    requires Inv(s) && t in s.threads && Owns(s.threads[t]) && ThreadOk(s, t, s.threads[t])
    requires Owns(pc) && pc.v == s.threads[t].v && pc.i == s.threads[t].i && pc.k == s.threads[t].k
    requires pc.Written? || pc.HeadLoaded? ==> x == Whole(pc.v)
    ensures Inv(Go(s, t, pc).(log := s.log[pc.i := x]))
  {
    var s' := Go(s, t, pc).(log := s.log[pc.i := x]);
    forall k | s.g.tail <= k < s.g.head ensures s'.log[k % SIZE] == Whole(s.g.reserved[k].v) {
      SameSlot(k, pc.k);
    }
    forall u <- s'.threads ensures ThreadOk(s', u, s'.threads[u]) {
      if u != t { OtherSlot(s, s', t, u); }
    }
  }

  lemma {:induction false} OtherSlot(s: State, s': State, t: Tid, u: Tid)
    requires Inv(s) && t in s.threads && u in s.threads && u != t && Owns(s.threads[t])
    requires s'.g == s.g && s'.line == s.line && |s'.log| == SIZE && Counters(s')
    requires forall j :: 0 <= j < SIZE && j != s.threads[t].i ==> s'.log[j] == s.log[j]
    ensures ThreadOk(s', u, s.threads[u])
  {
    assert ThreadOk(s, u, s.threads[u]) && ThreadOk(s, t, s.threads[t]);
    if Owns(s.threads[u]) { SameSlot(s.threads[u].k, s.threads[t].k); }
  }

  lemma {:induction false} LoadHeadOk(s: State, s': State, t: Tid)
    requires Inv(s) && LoadHead(s, s', t)
    ensures Inv(s')
  {
    var pc := At(s, t);
    if s' != s { MoveOk(s, t, HeadLoaded(pc.v, pc.i, pc.k)); }
  }

  lemma {:induction false} OtherThread(s: State, s': State, t: Tid, u: Tid)
    requires Inv(s) && SwapHead(s, s', t) && At(s, t).k == s.g.head && s.head == At(s, t).i && Counters(s')
    requires u in s.threads && u != t
    ensures ThreadOk(s', u, s.threads[u])
  {
    assert ThreadOk(s, u, s.threads[u]) && ThreadOk(s, t, s.threads[t]);
    if Owns(s.threads[u]) { assert s.g.reserved[At(s, t).k].owner == t; }
  }

  /** Publishing: only the thread whose ticket is the head count can advance the head. */
  lemma {:induction false} SwapHeadOk(s: State, s': State, t: Tid)
    requires Inv(s) && SwapHead(s, s', t)
    ensures Inv(s')
  {
    var pc := At(s, t);
    if s.head == pc.i {
      SameSlot(pc.k, s.g.head);
      AdvanceOk(s, s', t);
    } else {
      MoveOk(s, t, Written(pc.v, pc.i, pc.k));
    }
  }

  lemma {:induction false} AdvanceOk(s: State, s': State, t: Tid)
    requires Inv(s) && SwapHead(s, s', t) && s.head == At(s, t).i && At(s, t).k == s.g.head
    ensures Inv(s')
  {
    CountersAdvance(s, s', t);
    PublishedOk(s, s', t);
    ThreadsAdvance(s, s', t);
  }

  lemma {:induction false} CountersAdvance(s: State, s': State, t: Tid)
    requires Inv(s) && SwapHead(s, s', t) && s.head == At(s, t).i && At(s, t).k == s.g.head
    ensures Counters(s')
  {
    NextSlot(s.g.head);
  }

  lemma {:induction false} ThreadsAdvance(s: State, s': State, t: Tid)
    requires Inv(s) && SwapHead(s, s', t) && s.head == At(s, t).i && At(s, t).k == s.g.head && Counters(s')
    ensures Threads(s')
  {
    forall u <- s'.threads ensures ThreadOk(s', u, s'.threads[u]) {
      if u != t { OtherThread(s, s', t, u); }
    }
  }

  lemma {:induction false} PublishedOk(s: State, s': State, t: Tid)
    requires Inv(s) && SwapHead(s, s', t) && s.head == At(s, t).i && At(s, t).k == s.g.head && Counters(s')
    ensures Published(s')
  {
    forall k | s'.g.tail <= k < s'.g.head ensures s'.log[k % SIZE] == Whole(s'.g.reserved[k].v) {
      if k < s.g.head { assert s.log[k % SIZE] == Whole(s.g.reserved[k].v); }
    }
  }

  /** The reset frees slots up to a head that was read while the same tail was in force. */
  lemma {:induction false} StoreTailOk(s: State, s': State)
    requires Inv(s) && StoreTail(s, s')
    ensures Inv(s')
  {
    forall u <- s'.threads ensures ThreadOk(s', u, s'.threads[u]) {
      assert ThreadOk(s, u, s.threads[u]);
    }
  }

  lemma {:induction false} DumpEntryOk(s: State, s': State)
    requires Inv(s) && DumpEntry(s, s')
    ensures Inv(s')
  {
    SameSlot(s.handler.ci, s.handler.ch);
    NextSlot(s.handler.ci);
    HandlerMoveOk(s, s'.handler);
  }

  lemma {:induction false} HandlerMoveOk(s: State, d: Handler)
    requires Inv(s) && HandlerOk(s.(handler := d))
    ensures Inv(s.(handler := d))
  {
    var s' := s.(handler := d);
    forall u <- s'.threads ensures ThreadOk(s', u, s'.threads[u]) {
      assert ThreadOk(s, u, s.threads[u]);
    }
  }

  lemma {:induction false} HandlerStepOk(s: State, s': State)
    requires Inv(s) && HandlerStep(s, s')
    ensures Inv(s')
  {
    if StoreTail(s, s') { StoreTailOk(s, s'); }
    else if DumpEntry(s, s') { DumpEntryOk(s, s'); }
    else { HandlerMoveOk(s, s'.handler); }
  }

  lemma {:induction false} ThreadStepOk(s: State, s': State, t: Tid)
    requires Inv(s) && ThreadStep(s, s', t)
    ensures Inv(s')
  {
    var pc := At(s, t);
    if v :| LoadLine(s, s', t, v) { LoadLineOk(s, s', t, v); }
    else if SwapLine(s, s', t) { SwapLineOk(s, s', t); }
    else if LoadNext(s, s', t) { LoadNextOk(s, s', t); }
    else if CheckTail(s, s', t) { CheckTailOk(s, s', t); }
    else if SwapNext(s, s', t) { SwapNextOk(s, s', t); }
    else if FailSwap(s, s', t) { FailSwapOk(s, s', t); }
    else if BeginCopy(s, s', t) { FillOk(s, t, Copying(pc.v, pc.i, pc.k), Torn); }
    else if EndCopy(s, s', t) { FillOk(s, t, Written(pc.v, pc.i, pc.k), Whole(pc.v)); }
    else if LoadHead(s, s', t) { LoadHeadOk(s, s', t); }
    else { SwapHeadOk(s, s', t); }
  }

  lemma {:induction false} StepOk(s: State, s': State)
    requires Inv(s) && Step(s, s')
    ensures Inv(s')
  {
    if HandlerStep(s, s') {
      HandlerStepOk(s, s');
    } else {
      var t :| ThreadStep(s, s', t);
      ThreadStepOk(s, s', t);
    }
  }

  // ----- Whole runs -----------------------------------------------------------------------------

  ghost predicate Run(r: seq<State>) {
    |r| > 0 && Init(r[0]) && forall n :: 0 < n < |r| ==> Step(r[n - 1], r[n])
  }

  lemma {:induction false} RunOk(r: seq<State>, n: nat)
    requires Run(r) && n < |r|
    ensures Inv(r[n])
  {
    if n == 0 {
      InitOk(r[0]);
    } else {
      RunOk(r, n - 1);
      StepOk(r[n - 1], r[n]);
    }
  }

  /** In every state of every run: tail <= head <= next with at most 2047 slots in use, every
      slot from tail to head whole, and no slot owned by two threads. */
  lemma {:induction false} RingSafe(r: seq<State>, n: nat)
    requires Run(r) && n < |r|
    ensures Counters(r[n]) && Published(r[n])
    ensures forall t, u :: t != u && Owns(At(r[n], t)) && Owns(At(r[n], u)) ==> At(r[n], t).i != At(r[n], u).i
    ensures forall t, k :: Owns(At(r[n], t)) && r[n].g.tail <= k < r[n].g.head ==> At(r[n], t).i != SlotOf(k)
  {
    RunOk(r, n);
    var s := r[n];
    forall t, u | t != u && Owns(At(s, t)) && Owns(At(s, u)) ensures At(s, t).i != At(s, u).i {
      assert ThreadOk(s, t, s.threads[t]) && ThreadOk(s, u, s.threads[u]);
      SameSlot(At(s, t).k, At(s, u).k);
    }
    forall t, k | Owns(At(s, t)) && s.g.tail <= k < s.g.head ensures At(s, t).i != SlotOf(k) {
      assert ThreadOk(s, t, s.threads[t]);
      SameSlot(At(s, t).k, k);
    }
  }

  /** Thread `t` appends its record in this step. */
  predicate Appends(s: State, s': State, t: Tid) { SwapNext(s, s', t) && s.next == At(s, t).i }

  /** Thread `t` makes its record available in this step. */
  predicate Publishes(s: State, s': State, t: Tid) { SwapHead(s, s', t) && s.head == At(s, t).i }

  predicate Grew(g: Ghost, g': Ghost) {
    g.head <= g'.head && g.tail <= g'.tail && g.next <= g'.next && g.reserved <= g'.reserved
  }

  lemma {:induction false} GrowStep(s: State, s': State)
    requires s.handler.ResetLoaded? ==> s.g.tail <= s.handler.ch
    requires Step(s, s')
    ensures Grew(s.g, s'.g)
  {
    if !HandlerStep(s, s') {
      var t :| ThreadStep(s, s', t);
      GrowThread(s, s', t);
    }
  }

  lemma {:induction false} GrowThread(s: State, s': State, t: Tid)
    requires ThreadStep(s, s', t)
    ensures Grew(s.g, s'.g)
  {
    match At(s, t)
    case Idle =>
      var v :| LoadLine(s, s', t, v);
    case TailChecked(_, _, _) =>
      if SwapNext(s, s', t) {}
    case _ =>
  }

  lemma {:induction false} GrewTransitive(a: Ghost, b: Ghost, c: Ghost)
    requires Grew(a, b) && Grew(b, c)
    ensures Grew(a, c)
  {
  }

  lemma {:induction false} RunGrows(r: seq<State>, n: nat)
    requires Run(r) && 0 < n < |r|
    ensures Grew(r[n - 1].g, r[n].g)
  {
    RunOk(r, n - 1);
    GrowStep(r[n - 1], r[n]);
  }

  /** The counters and the history of a run only grow. */
  lemma {:induction false} HistoryGrows(r: seq<State>, m: nat, n: nat)
    requires Run(r) && m <= n < |r|
    ensures Grew(r[m].g, r[n].g)
  {
    var gs := seq(|r|, i requires 0 <= i < |r| => r[i].g);
    forall i | 0 < i < |gs| ensures Grew(gs[i - 1], gs[i]) {
      RunGrows(r, i);
    }
    ChainGrows(gs, m, n);
  }

  lemma {:induction false} ChainGrows(gs: seq<Ghost>, m: nat, n: nat)
    requires m <= n < |gs| && forall i :: 0 < i < |gs| ==> Grew(gs[i - 1], gs[i])
    ensures Grew(gs[m], gs[n])
  {
    if m < n {
      ChainGrows(gs, m, n - 1);
      GrewTransitive(gs[m], gs[n - 1], gs[n]);
    }
  }

  /** No source location is ever appended twice in a run. */
  lemma {:induction false} NeverTwice(r: seq<State>, m: nat, n: nat, t: Tid, u: Tid)
    requires Run(r) && m < n && n + 1 < |r|
    requires Appends(r[m], r[m + 1], t) && Appends(r[n], r[n + 1], u)
    ensures At(r[m], t).v.loc != At(r[n], u).v.loc
  {
    RunOk(r, m + 1);
    RunOk(r, n);
    HistoryGrows(r, m + 1, n);
    var j := |r[m].g.reserved|;
    RunOk(r, m);
    assert r[m + 1].g.reserved[j] == Entry(At(r[m], t).v, t) == r[n].g.reserved[j];
    assert ThreadOk(r[n], u, r[n].threads[u]);
  }

  /** Records become available in the order of their reservation: the one published is always
      the oldest reserved one not yet published, and it is in its slot, whole. */
  lemma {:induction false} InOrder(r: seq<State>, n: nat, t: Tid)
    requires Run(r) && n + 1 < |r| && Publishes(r[n], r[n + 1], t)
    ensures var s := r[n]; s.g.head < |s.g.reserved| && s.g.reserved[s.g.head] == Entry(At(s, t).v, t)
    ensures r[n].head < |r[n].log| && r[n].log[r[n].head] == Whole(At(r[n], t).v)
    ensures r[n + 1].g.head == r[n].g.head + 1
  {
    RunOk(r, n);
    assert ThreadOk(r[n], t, r[n].threads[t]);
    SameSlot(At(r[n], t).k, r[n].g.head);
  }

  /** A dump that comes to its end has read exactly the records from tail to the head it loaded. */
  lemma {:induction false} DumpExact(r: seq<State>, n: nat)
    requires Run(r) && n < |r| && r[n].handler.Dumping? && r[n].handler.i == r[n].handler.head
    ensures var s := r[n];
            && s.g.tail <= s.handler.ch <= s.g.head <= |s.g.reserved|
            && |s.handler.out| == s.handler.ch - s.g.tail
            && forall j :: 0 <= j < |s.handler.out| ==> s.handler.out[j] == Whole(s.g.reserved[s.g.tail + j].v)
  {
    RunOk(r, n);
    SameSlot(r[n].handler.ci, r[n].handler.ch);
  }

  predicate Dumps(d: Handler) { d.DumpLoaded? || d.Dumping? }

  lemma {:induction false} ThreadKeepsHandler(s: State, s': State, t: Tid)
    requires ThreadStep(s, s', t)
    ensures s'.handler == s.handler && s'.g.tail == s.g.tail
  {
    match At(s, t)
    case Idle =>
      var v :| LoadLine(s, s', t, v);
    case TailChecked(_, _, _) =>
      if SwapNext(s, s', t) {}
    case _ =>
  }

  lemma {:induction false} DumpStep(s: State, s': State)
    requires Step(s, s') && Dumps(s.handler) && Dumps(s'.handler)
    ensures s'.handler.ch == s.handler.ch && s'.g.tail == s.g.tail
  {
    if !HandlerStep(s, s') {
      var t :| ThreadStep(s, s', t);
      ThreadKeepsHandler(s, s', t);
    }
  }

  /** While a dump goes on, tail stays, and the head it goes up to is that of its beginning. */
  lemma {:induction false} DumpKeepsHead(r: seq<State>, m: nat, n: nat)
    requires Run(r) && m < n < |r| && BeginDump(r[m], r[m + 1]) && forall i :: m < i <= n ==> Dumps(r[i].handler)
    ensures Dumps(r[n].handler) && r[n].handler.ch == r[m].g.head && r[n].g.tail == r[m].g.tail
    decreases n
  {
    if m + 1 < n {
      DumpKeepsHead(r, m, n - 1);
      DumpStep(r[n - 1], r[n]);
    }
  }

  /** A dump that comes to its end has read exactly the records that were published and not yet
      reset when it began. */
  lemma {:induction false} DumpComplete(r: seq<State>, m: nat, n: nat)
    requires Run(r) && m < n < |r| && BeginDump(r[m], r[m + 1]) && forall i :: m < i <= n ==> Dumps(r[i].handler)
    requires r[n].handler.Dumping? && r[n].handler.i == r[n].handler.head
    ensures var g, out := r[m].g, r[n].handler.out;
      && g.tail <= g.head <= |g.reserved| && |out| == g.head - g.tail
      && forall j :: 0 <= j < |out| ==> out[j] == Whole(g.reserved[g.tail + j].v)
  {
    RunOk(r, m);
    DumpExact(r, n);
    DumpKeepsHead(r, m, n);
    HistoryGrows(r, m, n);
  }

  lemma {:induction false} ResetKeepsHead(r: seq<State>, m: nat, n: nat)
    requires Run(r) && m < n < |r| && BeginReset(r[m], r[m + 1]) && forall i :: m < i <= n ==> r[i].handler.ResetLoaded?
    ensures r[n].handler == ResetLoaded(r[m].head, r[m].g.head)
    decreases n
  {
    if m + 1 < n {
      ResetKeepsHead(r, m, n - 1);
      ResetStep(r[n - 1], r[n]);
    }
  }

  lemma {:induction false} ResetStep(s: State, s': State)
    requires Step(s, s') && s.handler.ResetLoaded? && s'.handler.ResetLoaded?
    ensures s'.handler == s.handler
  {
    if !HandlerStep(s, s') {
      var t :| ThreadStep(s, s', t);
      ThreadKeepsHandler(s, s', t);
    }
  }

  /** A reset takes exactly the records that were published when it began. */
  lemma {:induction false} ResetExact(r: seq<State>, m: nat, n: nat)
    requires Run(r) && m < n < |r| - 1 && BeginReset(r[m], r[m + 1]) && StoreTail(r[n], r[n + 1])
    requires forall i :: m < i <= n ==> r[i].handler.ResetLoaded?
    ensures r[n + 1].tail == r[m].head && r[n + 1].g.tail == r[m].g.head && r[n + 1].handler.NoHandler?
  {
    ResetKeepsHead(r, m, n);
  }

  /** A thread goes on to publish its record exactly when all older ones are published. */
  lemma {:induction false} PublishExact(s: State, s': State, t: Tid)
    requires Inv(s) && LoadHead(s, s', t)
    ensures At(s', t).HeadLoaded? <==> At(s, t).k == s.g.head
  {
    assert ThreadOk(s, t, s.threads[t]);
    SameSlot(At(s, t).k, s.g.head);
  }

  /** Within a lap, a record is dropped exactly when the log is full, or a reset has just taken all
      that was logged when next was read, and one more. */
  lemma {:induction false} DropExact(s: State, s': State, t: Tid)
    requires Inv(s) && CheckTail(s, s', t) && LapFree(s, At(s, t).k)
    ensures var k := At(s, t).k;
      && (At(s', t).Idle? <==> k + 1 == s.g.tail + 2048 || k + 1 == s.g.tail)
      && (k + 1 == s.g.tail + 2048 ==> k == s.g.next)
  {
    var k := At(s, t).k;
    assert ThreadOk(s, t, s.threads[t]);
    NextSlot(k);
    SameResidue(k + 1, s.g.tail);
  }

  lemma {:induction false} SameResidue(a: nat, b: nat)
    requires b < a + SIZE && a <= b + SIZE
    ensures a % SIZE == b % SIZE <==> a == b + SIZE || a == b
  {
  }

  // ----- What the assumption on reserving swaps is for ----------------------------------------

  /** The full test of the code, made on the words of one moment, is exact. */
  lemma {:induction false} FullTest(s: State)
    requires Counters(s)
    ensures NextEntry(s.next) == s.tail <==> s.g.next + 1 == s.g.tail + SIZE
  {
    NextSlot(s.g.next);
    SameSlot(s.g.next + 1, s.g.tail + SIZE);
    Lap(s.g.tail);
  }

  lemma {:induction false} Lap(k: nat)
    ensures (k + SIZE) % SIZE == k % SIZE
  {
  }

  /** A swap that succeeds within a lap finds the log not full, although the test was made earlier. */
  lemma {:induction false} NotFullAtSwap(s: State, t: Tid)
    requires Inv(s) && At(s, t).TailChecked? && s.next == At(s, t).i && LapFree(s, At(s, t).k)
    ensures NextEntry(s.next) != s.tail
  {
    FullTest(s);
    assert ThreadOk(s, t, s.threads[t]);
    SameSlot(At(s, t).k, s.g.next);
  }
}
