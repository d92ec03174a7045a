/** Runs that end in what the guards of the idle scheduler exclude. */
module IdleDefects {
  import opened IdleScheduling
  import opened IdleRuns
  import opened IdleTiming

  /** A state of the scheduler, who is registered, what one listener heard and how long it has waited;
    * `tidy` when every step so far kept the books. */
  datatype Snapshot = Snapshot(state: State, registered: set<Listener>, tidy: bool, heard: seq<Callback>, age: int) {
    ghost predicate Of(ops: seq<Op>, l: Listener) {
      && IsRun(ops) && TimerInvariant(After(ops)) && After(ops) == state
      && Registered(ops) == registered && (tidy ==> IsTidyRun(ops))
      && Callbacks(ops, l) == heard && Age(ops, l) == age
    }
  }

  const START := Snapshot(INITIAL, {}, true, [], 0)

  lemma StartIsReached(l: Listener)
    ensures START.Of([], l)
  {
  }

  /** One more step, and the snapshot it leads to. */
  lemma Step(ops: seq<Op>, l: Listener, now: Snapshot, op: Op, next: Snapshot) returns (ops': seq<Op>)
    requires now.Of(ops, l) && TimerInvariant(now.state) && Enabled(now.state, op)
    requires next.state == Apply(now.state, op) && next.registered == RegisteredAfter(now.registered, op)
    requires next.tidy ==> now.tidy && KeepsBooks(now.state, now.registered, op)
    requires next.heard == (if op == Add(l) then [] else now.heard)
                           + (if l in ResumedBy(now.state, op) then [Resume] else [])
                           + (if l in IdledBy(now.state, op) then [Idle] else [])
    requires next.age == AgeAfter(now.age, op, l)
    ensures ops' == ops + [op] && next.Of(ops', l)
  {
    ops' := ops + [op];
    assert ops'[..|ops'| - 1] == ops;
    TimerInvariantKept(now.state, op);
  }

  /** A single first entry. */
  lemma FirstIs(waiting: set<Entry>, e: Entry)
    requires e in waiting && forall f :: f in waiting && f != e ==> e.key < f.key
    ensures FirstKey(waiting) == e.key && Cohort(waiting, e.key) == {e.listener}
    ensures Later(waiting, e.key) == waiting - {e}
  {
    FirstKeyIs(waiting, e);
    assert e.listener in Cohort(waiting, e.key);
  }

  const A := Listener(0, 5)
  const B := Listener(1, 4)

  function Running(waiting: set<Entry>, served: set<Listener>, splice: set<Listener>, interval: int, remaining: int,
      sum: int): State {
    State(waiting, served, splice, 0, Countdown(true, interval, remaining), sum)
  }

  const S1 := Running({Entry(5, A)}, {}, {}, 5, 5, 0)
  const S2 := Running({Entry(5, A)}, {}, {}, 5, 3, 0)
  const S3 := Running({Entry(5, A), Entry(6, B)}, {}, {B}, 5, 3, 0)
  const S4 := Running({Entry(5, A), Entry(6, B)}, {}, {B}, 5, 0, 0)

  /** Adding the second of two listeners while the countdown runs for the first splices it. */
  lemma SpliceSecond() returns (ops: seq<Op>)
    ensures Snapshot(S3, {A, B}, true, [], 0).Of(ops, B)
  {
    StartIsReached(B);
    assert {} + {Entry(5, A)} == {Entry(5, A)};
    ops := Step([], B, START, Add(A), Snapshot(S1, {A}, true, [], 0));
    ops := Step(ops, B, Snapshot(S1, {A}, true, [], 0), Wait(2), Snapshot(S2, {A}, true, [], 2));
    assert S3.waiting == S2.waiting + {Entry(6, B)};
    ops := Step(ops, B, Snapshot(S2, {A}, true, [], 2), Add(B), Snapshot(S3, {A, B}, true, [], 0));
  }

  /** A listener that is removed while it is spliced waits again after the next activity report. */
  lemma RemovedListenerWaitsAgain() returns (ops: seq<Op>, ops': seq<Op>)
    ensures IsTidyRun(ops) && B in Registered(ops)
    ensures ops' == ops + [Remove(B)] + [Activity] && IsRun(ops')
    ensures B !in Registered(ops') && B in Listeners(After(ops').waiting)
  {
    ops := SpliceSecond();
    var removed := RemoveListener(S3, B);
    assert {A, B} - {B} == {A} && B in S3.splice;
    TidyRunsKeepBooks(ops);
    RemovedListenerReturns(S3, {A, B}, B);
    hide RemoveListener, ReportActivity;
    ops' := Step(ops, B, Snapshot(S3, {A, B}, true, [], 0), Remove(B), Snapshot(removed, {A}, false, [], 0));
    ops' := Step(ops', B, Snapshot(removed, {A}, false, [], 0), Activity,
        Snapshot(ReportActivity(removed), {A}, false, [], 0));
  }

  const S5 := Running({Entry(6, B)}, {A}, {B}, 1, 1, 5)
  const S6 := Running({Entry(6, B)}, {A}, {B}, 1, 0, 5)
  const S7 := State({}, {A, B}, {B}, 0, Countdown(false, 1, 0), 0)

  /** Both listeners idle, and the second one stays spliced. */
  lemma ServeSpliced() returns (ops: seq<Op>)
    ensures Snapshot(S7, {A, B}, true, [Idle], 4).Of(ops, B)
  {
    hide RemoveListener, ReportActivity, Inhibit, Uninhibit;
    ops := SpliceSecond();
    ops := Step(ops, B, Snapshot(S3, {A, B}, true, [], 0), Wait(3), Snapshot(S4, {A, B}, true, [], 3));
    FirstIs(S4.waiting, Entry(5, A));
    assert S4.waiting - {Entry(5, A)} == {Entry(6, B)};
    FirstIs({Entry(6, B)}, Entry(6, B));
    ops := Step(ops, B, Snapshot(S4, {A, B}, true, [], 3), Timeout, Snapshot(S5, {A, B}, true, [], 3));
    ops := Step(ops, B, Snapshot(S5, {A, B}, true, [], 3), Wait(1), Snapshot(S6, {A, B}, true, [], 4));
    assert {A} + {B} == {A, B} && S6.waiting - {Entry(6, B)} == {};
    ops := Step(ops, B, Snapshot(S6, {A, B}, true, [], 4), Timeout, Snapshot(S7, {A, B}, true, [Idle], 4));
  }

  const S8 := State({Entry(4, B)}, {A, B}, {}, 1, Countdown(false, 1, 0), 0)
  const S9 := Running({Entry(4, B)}, {A, B}, {}, 4, 4, 0)
  const S10 := Running({Entry(4, B)}, {A, B}, {}, 4, 0, 0)

  /** A spliced listener that is served when an inhibition starts idles again without a resume. */
  lemma IdlesTwice() returns (ops: seq<Op>, ops': seq<Op>)
    ensures IsTidyRun(ops) && B in Registered(ops)
    ensures ops' == ops + [InhibitIdle] + [UninhibitIdle] + [Wait(4)] + [Timeout] && IsRun(ops')
    ensures Callbacks(ops', B) == [Idle, Idle]
  {
    ops := ServeSpliced();
    InhibitUnsplices();
    ops' := Step(ops, B, Snapshot(S7, {A, B}, true, [Idle], 4), InhibitIdle, Snapshot(S8, {A, B}, false, [Idle], 4));
    FirstIs({Entry(4, B)}, Entry(4, B));
    ops' := Step(ops', B, Snapshot(S8, {A, B}, false, [Idle], 4), UninhibitIdle,
        Snapshot(S9, {A, B}, false, [Idle], 4));
    ops' := Step(ops', B, Snapshot(S9, {A, B}, false, [Idle], 4), Wait(4), Snapshot(S10, {A, B}, false, [Idle], 8));
    ops' := Step(ops', B, Snapshot(S10, {A, B}, false, [Idle], 8), Timeout,
        Snapshot(HandleCountdown(S10), {A, B}, false, [Idle, Idle], 8));
  }

  lemma InhibitUnsplices()
    ensures Inhibit(S7) == S8
  {
    assert Unspliced({}, {B}) == {Entry(4, B)};
  }

  const C := Listener(2, 10)
  const T2 := Running({Entry(5, A), Entry(10, C)}, {}, {C}, 5, 5, 0)
  const T3 := Running({Entry(10, C)}, {}, {C}, 5, 5, 0)
  const T4 := Running({Entry(10, C)}, {}, {C}, 5, 0, 0)

  lemma AddTwo() returns (ops: seq<Op>)
    ensures Snapshot(T2, {A, C}, true, [], 0).Of(ops, C)
  {
    StartIsReached(C);
    assert {} + {Entry(5, A)} == {Entry(5, A)};
    ops := Step([], C, START, Add(A), Snapshot(S1, {A}, true, [], 0));
    assert T2.waiting == S1.waiting + {Entry(10, C)};
    ops := Step(ops, C, Snapshot(S1, {A}, true, [], 0), Add(C), Snapshot(T2, {A, C}, true, [], 0));
  }

  lemma RemoveFirst() returns (ops: seq<Op>)
    ensures Snapshot(T3, {C}, true, [], 0).Of(ops, C)
  {
    ops := AddTwo();
    FirstEntryOfA();
    assert T2.waiting - {Entry(5, A)} == T3.waiting && {A, C} - {A} == {C};
    ops := Step(ops, C, Snapshot(T2, {A, C}, true, [], 0), Remove(A), Snapshot(T3, {C}, true, [], 0));
  }

  /** When the first cohort is removed the countdown is not started again, and the next cohort idles
    * in its place: a listener with an idle time of 10 idles after 5. */
  lemma IdlesEarlyAfterRemoval() returns (ops: seq<Op>)
    ensures IsTidyRun(ops) && TimerInvariant(After(ops)) && Enabled(After(ops), Timeout)
    ensures C in IdledBy(After(ops), Timeout) && Age(ops, C) == 5 < C.timeToIdle
  {
    ops := RemoveFirst();
    ops := Step(ops, C, Snapshot(T3, {C}, true, [], 0), Wait(5), Snapshot(T4, {C}, true, [], 5));
    FirstIs(T4.waiting, Entry(10, C));
  }

  lemma FirstEntryOfA()
    ensures FirstEntry(T2.waiting, A) == {Entry(5, A)}
  {
    assert EntriesOf(T2.waiting, A) == {Entry(5, A)};
    FirstIs({Entry(5, A)}, Entry(5, A));
  }

  const D := Listener(3, 20)
  const E := Listener(4, 16)
  const U2 := Running({Entry(5, A), Entry(20, D)}, {}, {D}, 5, 5, 0)
  const U3 := Running({Entry(5, A), Entry(20, D)}, {}, {D}, 5, 0, 0)
  const U4 := Running({Entry(20, D)}, {A}, {D}, 15, 15, 5)
  const U5 := Running({Entry(20, D)}, {A}, {D}, 15, 14, 5)
  const U6 := Running({Entry(20, D), Entry(17, E)}, {A}, {D, E}, 15, 14, 5)
  const U7 := Running({Entry(20, D), Entry(17, E)}, {A}, {D, E}, 15, 0, 5)

  lemma AddDistant() returns (ops: seq<Op>)
    ensures Snapshot(U2, {A, D}, true, [], 0).Of(ops, E)
  {
    StartIsReached(E);
    assert {} + {Entry(5, A)} == {Entry(5, A)};
    ops := Step([], E, START, Add(A), Snapshot(S1, {A}, true, [], 0));
    assert U2.waiting == S1.waiting + {Entry(20, D)};
    ops := Step(ops, E, Snapshot(S1, {A}, true, [], 0), Add(D), Snapshot(U2, {A, D}, true, [], 0));
  }

  lemma ServeFirst() returns (ops: seq<Op>)
    ensures Snapshot(U5, {A, D}, true, [], 6).Of(ops, E)
  {
    hide RemoveListener, ReportActivity, Inhibit, Uninhibit;
    ops := AddDistant();
    ops := Step(ops, E, Snapshot(U2, {A, D}, true, [], 0), Wait(5), Snapshot(U3, {A, D}, true, [], 5));
    FirstIs(U3.waiting, Entry(5, A));
    assert U3.waiting - {Entry(5, A)} == {Entry(20, D)};
    FirstIs({Entry(20, D)}, Entry(20, D));
    ops := Step(ops, E, Snapshot(U3, {A, D}, true, [], 5), Timeout, Snapshot(U4, {A, D}, true, [], 5));
    ops := Step(ops, E, Snapshot(U4, {A, D}, true, [], 5), Wait(1), Snapshot(U5, {A, D}, true, [], 6));
  }

  /** Only what has passed of the running interval is added to the key of a spliced listener, not what
    * passed before it. After a timeout the listener can come before the cohort the countdown runs
    * for: a listener with an idle time of 16 idles after 14. */
  lemma IdlesEarlyAfterAddition() returns (ops: seq<Op>)
    ensures IsTidyRun(ops) && TimerInvariant(After(ops)) && Enabled(After(ops), Timeout)
    ensures E in IdledBy(After(ops), Timeout) && Age(ops, E) == 14 < E.timeToIdle
  {
    hide RemoveListener, ReportActivity, Inhibit, Uninhibit;
    ops := ServeFirst();
    assert U6.waiting == U5.waiting + {Entry(17, E)} && {A, D} + {E} == {A, D, E};
    ops := Step(ops, E, Snapshot(U5, {A, D}, true, [], 6), Add(E), Snapshot(U6, {A, D, E}, true, [], 0));
    ops := Step(ops, E, Snapshot(U6, {A, D, E}, true, [], 0), Wait(14), Snapshot(U7, {A, D, E}, true, [], 14));
    FirstIs(U7.waiting, Entry(17, E));
  }
}
