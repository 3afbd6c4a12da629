/** Two runs of the violation log in which a thread is overtaken (san/ubsan_log.c).

    A thread stops between its full test and its swap; another reports enough violations to
    bring `next` round to the index the first one read.  The swap then succeeds on a full log.

    A thread stops before its full test; another logs a record, and the log is reset.  The test
    then takes the empty log for a full one. */
module UbsanLap {
  import opened UbsanLog

  /** The steps, with the assumption dropped. */
  ghost predicate FreeStep(s: State, s': State) {
    Step(s, s') || exists t :: Reserve(s, s', t)
  }

  ghost predicate FreeRun(r: seq<State>) {
    |r| > 0 && Init(r[0]) && forall n :: 0 < n < |r| ==> FreeStep(r[n - 1], r[n])
  }

  /** The run `r` comes to the state `s`. */
  ghost predicate Reaches(r: seq<State>, s: State) {
    FreeRun(r) && r[|r| - 1] == s
  }

  /** Thread 0 has read next on the empty log and stopped; thread 1 has logged `n` records since. */
  ghost predicate Filled(s: State, n: nat, tail: nat, pc: Pc) {
    && s.head == s.next == n % SIZE && s.tail == tail <= n && tail <= 1
    && s.g.head == s.g.next == n && s.g.tail == tail && |s.log| == SIZE
    && At(s, 0) == pc && At(s, 1).Idle? && s.handler.NoHandler?
    && forall l: Loc :: n < l <= SIZE ==> l in s.line && !Acq(s.line[l])
  }

  lemma {:induction false} Extend(r: seq<State>, s: State, s': State) returns (r': seq<State>)
    requires Reaches(r, s) && FreeStep(s, s')
    ensures Reaches(r', s') && r <= r'
  {
    r' := r + [s'];
  }

  lemma {:induction false} ByThread(r: seq<State>, s: State, s': State, t: Tid) returns (r': seq<State>)
    requires Reaches(r, s) && ThreadStep(s, s', t)
    ensures Reaches(r', s') && r <= r'
  {
    r' := Extend(r, s, s');
  }

  /** A thread claims location `l` and reads next. */
  lemma {:induction false} ClaimLine(r: seq<State>, s: State, t: Tid, v: Violation) returns (r': seq<State>, s': State)
    requires Reaches(r, s) && At(s, t).Idle? && v.loc in s.line && !Acq(s.line[v.loc])
    ensures Reaches(r', s') && At(s', t) == NextLoaded(v, s.next, s.g.next)
    ensures s' == s.(threads := s'.threads, line := s'.line, g := s.g.(claim := s'.g.claim))
    ensures forall u :: u != t ==> At(s', u) == At(s, u)
    ensures forall l :: l in s.line && l != v.loc ==> l in s'.line && s'.line[l] == s.line[l]
  {
    var a := Go(s, t, LineLoaded(v, s.line[v.loc]));
    assert LoadLine(s, a, t, v);
    r' := ByThread(r, s, a, t);
    var b := Go(a, t, Acquired(v)).(line := a.line[v.loc := SetAcq(a.line[v.loc])],
                                    g := a.g.(claim := a.g.claim[v.loc := HeldBy(t)]));
    assert SwapLine(a, b, t);
    r' := ByThread(r', a, b, t);
    s' := Go(b, t, NextLoaded(v, b.next, b.g.next));
    assert LoadNext(b, s', t);
    r' := ByThread(r', b, s', t);
  }

  /** A thread whose swap succeeds fills its slot and publishes it at once. */
  lemma {:induction false} Publish(r: seq<State>, s: State, t: Tid) returns (r': seq<State>, s': State)
    requires Reaches(r, s) && At(s, t).TailChecked? && s.next == At(s, t).i == s.head && s.next < |s.log|
    ensures Reaches(r', s') && r <= r' && At(s', t).Idle?
    ensures s'.head == s'.next == NextEntry(s.next) && s'.tail == s.tail && s'.line == s.line && s'.handler == s.handler
    ensures s'.g.head == s.g.head + 1 && s'.g.next == s.g.next + 1 && s'.g.tail == s.g.tail && |s'.log| == |s.log|
    ensures forall u :: u != t ==> At(s', u) == At(s, u)
  {
    var pc := At(s, t);
    var a := Go(s, t, Reserved(pc.v, pc.i, pc.k)).(next := NextEntry(pc.i),
               g := s.g.(next := s.g.next + 1, reserved := s.g.reserved + [Entry(pc.v, t)],
                         claim := s.g.claim[pc.v.loc := Logged(s.g.next)]));
    assert Reserve(s, a, t);
    r' := Extend(r, s, a);
    var b := Go(a, t, Copying(pc.v, pc.i, pc.k)).(log := a.log[pc.i := Torn]);
    assert BeginCopy(a, b, t);
    r' := ByThread(r', a, b, t);
    var c := Go(b, t, Written(pc.v, pc.i, pc.k)).(log := b.log[pc.i := Whole(pc.v)]);
    assert EndCopy(b, c, t);
    r' := ByThread(r', b, c, t);
    r', s' := PublishWritten(r', c, t);
  }

  lemma {:induction false} PublishWritten(r: seq<State>, s: State, t: Tid) returns (r': seq<State>, s': State)
    requires Reaches(r, s) && At(s, t).Written? && s.head == At(s, t).i
    ensures Reaches(r', s') && r <= r' && At(s', t).Idle?
    ensures s' == s.(threads := s'.threads, head := NextEntry(s.head), g := s.g.(head := s.g.head + 1))
    ensures forall u :: u != t ==> At(s', u) == At(s, u)
  {
    var pc := At(s, t);
    var d := Go(s, t, HeadLoaded(pc.v, pc.i, pc.k));
    assert LoadHead(s, d, t);
    r' := ByThread(r, s, d, t);
    s' := Go(d, t, Idle).(head := NextEntry(pc.i), g := d.g.(head := d.g.head + 1));
    assert SwapHead(d, s', t);
    r' := ByThread(r', d, s', t);
  }

  /** Thread 1 logs one more record. */
  lemma {:induction false} OneMore(r: seq<State>, s: State, n: nat, tail: nat, pc: Pc)
    returns (r': seq<State>, s': State)
    requires Reaches(r, s) && Filled(s, n, tail, pc) && n + 1 < tail + SIZE
    ensures Reaches(r', s') && Filled(s', n + 1, tail, pc)
  {
    var v := Violation(n + 1, 0, 0, 0);
    var a;
    r', a := ClaimLine(r, s, 1, v);
    assert n % SIZE == n && NextEntry(n) != tail;
    var b := Go(a, 1, TailChecked(v, n, n));
    assert CheckTail(a, b, 1);
    r' := ByThread(r', a, b, 1);
    assert b.line == a.line;
    r', s' := Publish(r', b, 1);
  }

  /** The line word of a location nobody has reported. */
  ghost function ClearLine(l: Loc): (line: bv32)
    ensures !Acq(line)
  {
    0
  }

  /** The violation thread 0 reports, and where it stops. */
  ghost function First(): Violation { Violation(0, 0, 0, 0) }
  ghost function Read(): Pc { NextLoaded(First(), 0, 0) }
  ghost function Tested(): Pc { TailChecked(First(), 0, 0) }

  /** Thread 0 claims location 0 and reads next on the empty log. */
  lemma {:induction false} Park() returns (r: seq<State>, s: State)
    ensures Reaches(r, s) && Filled(s, 0, 0, Read())
  {
    var a := State(0, 0, 0, seq(SIZE, (j: nat) => Zero), map l: Loc | 0 <= l <= SIZE :: ClearLine(l),
                   map[], NoHandler, Ghost(0, 0, 0, [], map[]));
    r := [a];
    r, s := ClaimLine(r, a, 0, First());
    assert At(s, 1) == At(a, 1);
    forall l: Loc | 0 < l <= SIZE ensures l in s.line && !Acq(s.line[l]) {
      assert l in a.line && a.line[l] == ClearLine(l);
    }
  }

  /** It passes its full test. */
  lemma {:induction false} ParkTested() returns (r: seq<State>, s: State)
    ensures Reaches(r, s) && Filled(s, 0, 0, Tested())
  {
    var a;
    r, a := Park();
    s := Go(a, 0, Tested());
    assert CheckTail(a, s, 0);
    r := ByThread(r, a, s, 0);
    assert At(s, 1) == At(a, 1) && s.line == a.line;
  }

  /** Thread 1 logs a record, and the log is reset. */
  lemma {:induction false} LogAndReset(r: seq<State>, s: State, pc: Pc) returns (r': seq<State>, s': State)
    requires Reaches(r, s) && Filled(s, 0, 0, pc)
    ensures Reaches(r', s') && Filled(s', 1, 1, pc)
  {
    var a;
    r', a := OneMore(r, s, 0, 0, pc);
    var b := a.(handler := ResetLoaded(a.head, a.g.head));
    assert BeginReset(a, b);
    r' := Extend(r', a, b);
    s' := b.(tail := 1, handler := NoHandler, g := b.g.(tail := 1));
    assert StoreTail(b, s');
    r' := Extend(r', b, s');
  }

  /** Thread 1 logs `n` records, with a reset after the first. */
  lemma {:induction false} Fill(n: nat) returns (r: seq<State>, s: State)
    requires 1 <= n <= SIZE
    ensures Reaches(r, s) && Filled(s, n, 1, Tested())
  {
    if n == 1 {
      r, s := ParkTested();
      r, s := LogAndReset(r, s, Tested());
    } else {
      r, s := Fill(n - 1);
      r, s := OneMore(r, s, n - 1, 1, Tested());
    }
  }

  /** A record is dropped although the log is empty. */
  lemma {:induction false} DroppedOnEmpty() returns (r: seq<State>, s: State)
    ensures Reaches(r, s) && s.head == s.next == s.tail && s.g.head == s.g.next == s.g.tail
    ensures 0 in s.g.claim && s.g.claim[0] == Dropped
  {
    var a;
    r, a := Park();
    r, a := LogAndReset(r, a, Read());
    s := Go(a, 0, Idle).(g := a.g.(claim := a.g.claim[0 := Dropped]));
    assert CheckTail(a, s, 0);
    r := ByThread(r, a, s, 0);
  }

  /** Without the assumption the swap of a thread that passed its full test a lap ago goes
      through on a full log: 2048 records are then published and not yet reset, and head equals
      tail, as in an empty log. */
  lemma {:induction false} LapNeeded() returns (r: seq<State>, s: State, t: Tid, r': seq<State>, s': State)
    ensures Reaches(r, s) && At(s, t).TailChecked? && s.next == At(s, t).i && NextEntry(s.next) == s.tail
    ensures Reaches(r', s') && r <= r' && s'.head == s'.tail && s'.g.head == s'.g.tail + SIZE
  {
    r, s := Fill(SIZE);
    t := 0;
    r', s' := Publish(r, s, t);
  }
}
