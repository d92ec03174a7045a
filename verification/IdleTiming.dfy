/** No listener of the idle scheduler idles too early, and the two ways in which one does. */
module IdleTiming {
  import opened IdleScheduling
  import opened IdleRuns

  /** How long `l` has been waiting: the time since it was added or an activity was reported. */
  function Age(ops: seq<Op>, l: Listener): int {
    if ops == [] then 0 else AgeAfter(Age(ops[..|ops| - 1], l), ops[|ops| - 1], l)
  }

  function AgeAfter(age: int, op: Op, l: Listener): int {
    match op
    case Add(m) => if m == l then 0 else age
    case Activity => 0
    case Wait(time) => age + time
    case _ => age
  }

  /** How soon an entry can idle if nothing else happens: when the countdown runs out if it is in the
    * first cohort, else when the countdown after that one runs out. */
  function Due(s: State, e: Entry): int
    requires e in s.waiting
  {
    if !s.countdown.active then e.key
    else if e.key == FirstKey(s.waiting) then s.countdown.remaining
    else s.countdown.remaining + e.key - s.countdown.interval
  }

  /** Nobody is due before its idle time has passed. */
  ghost predicate Punctual(s: State, age: Listener -> int) {
    && (forall l :: 0 <= age(l))
    && forall e :: e in s.waiting ==> e.listener.timeToIdle <= age(e.listener) + Due(s, e)
  }

  /** A listener that is added while the countdown runs must not come before the first cohort or into
    * it, unless the countdown restarts for it. */
  predicate AddsInTime(s: State, l: Listener) {
    s.countdown.active && s.countdown.remaining < l.timeToIdle && s.waiting != {} ==>
      FirstKey(s.waiting) < l.timeToIdle + (s.countdown.interval - s.countdown.remaining)
  }

  /** A removal that empties the first cohort lets the next one idle when the countdown runs out; by
    * then, its listeners must be due. */
  predicate RemovesInTime(s: State, l: Listener, age: Listener -> int) {
    var rest := s.waiting - FirstEntry(s.waiting, l);
    s.countdown.active && l !in s.served && rest != {} && FirstKey(rest) != FirstKey(s.waiting) ==>
      forall e :: e in rest && e.key == FirstKey(rest) ==>
        e.listener.timeToIdle <= age(e.listener) + s.countdown.remaining
  }

  predicate KeepsTime(s: State, op: Op, age: Listener -> int) {
    match op
    case Add(l) => AddsInTime(s, l)
    case Remove(l) => RemovesInTime(s, l, age)
    case _ => true
  }

  lemma FirstKeyIs(waiting: set<Entry>, e: Entry)
    requires e in waiting && forall f :: f in waiting ==> e.key <= f.key
    ensures FirstKey(waiting) == e.key
  {
  }

  /** Exactly when adding a listener keeps everybody punctual. */
  lemma AddKeepsTimeExactly(s: State, l: Listener, age: Listener -> int, age': Listener -> int)
    requires TimerInvariant(s) && Punctual(s, age) && l !in Listeners(s.waiting)
    requires forall m :: age'(m) == AgeAfter(age(m), Add(l), m)
    ensures Punctual(AddListener(s, l), age') <==> AddsInTime(s, l)
  {
    var s' := AddListener(s, l);
    forall e | e in s.waiting
      ensures e.listener != l
      ensures e.listener.timeToIdle <= age(e.listener) + Due(s, e)
    {
      ListenersMember(s.waiting, e);
    }
    if !s.countdown.active {
      assert s.inhibitCount == 0 ==> s'.waiting == {Entry(l.timeToIdle, l)};
    } else if s.countdown.remaining >= l.timeToIdle {
      FirstKeyIs(s'.waiting, Entry(l.timeToIdle, l));
    } else {
      var e := Entry(l.timeToIdle + (s.countdown.interval - s.countdown.remaining), l);
      assert s'.waiting == s.waiting + {e};
      var first :| first in s.waiting && first.key == FirstKey(s.waiting);
      if first.key < e.key {
        FirstKeyIs(s'.waiting, first);
      } else {
        FirstKeyIs(s'.waiting, e);
        assert Due(s', e) == s.countdown.remaining;
      }
    }
  }

  /** Exactly when removing a listener keeps everybody punctual. */
  lemma RemoveKeepsTimeExactly(s: State, l: Listener, age: Listener -> int)
    requires TimerInvariant(s) && Punctual(s, age)
    ensures Punctual(RemoveListener(s, l), age) <==> RemovesInTime(s, l, age)
  {
    var rest := s.waiting - FirstEntry(s.waiting, l);
    if s.countdown.active && l !in s.served && rest != {} {
      var s' := RemoveListener(s, l);
      forall e | e in rest
        ensures Due(s', e) == if e.key == FirstKey(rest) then s.countdown.remaining else Due(s, e)
      {
      }
    }
  }

  /** Since the last reset, with timeouts, pauses and removals only: everybody waits in the own cohort,
    * for as long as the intervals add up to. */
  ghost predicate SinceReset(s: State, age: Listener -> int) {
    forall e :: e in s.waiting ==>
      && e.key == e.listener.timeToIdle
      && (s.countdown.active ==>
            age(e.listener) == s.countdownSum + s.countdown.interval - s.countdown.remaining)
  }

  /** Since a reset the guard of a removal can be read off the state: the cohort that moves up must
    * not have a key beyond the end of the running interval. */
  lemma RemovalSinceResetExactly(s: State, l: Listener, age: Listener -> int)
    requires TimerInvariant(s) && Punctual(s, age) && SinceReset(s, age)
    requires s.countdown.active && l !in s.served && s.waiting - FirstEntry(s.waiting, l) != {}
    ensures var next := FirstKey(s.waiting - FirstEntry(s.waiting, l));
            Punctual(RemoveListener(s, l), age) <==>
            next == FirstKey(s.waiting) || next <= s.countdownSum + s.countdown.interval
  {
    RemoveKeepsTimeExactly(s, l, age);
  }

  predicate IsAfterReset(op: Op) {
    op.Timeout? || op.Wait? || op.Remove?
  }

  /** An uninhibited activity report resets, and timeouts, pauses and removals go on from there. */
  lemma ResetIsKept(s: State, registered: set<Listener>, op: Op, age: Listener -> int, age': Listener -> int)
    requires TimerInvariant(s) && Enabled(s, op) && Bookkeeping(s, registered)
    requires forall l :: age'(l) == AgeAfter(age(l), op, l)
    requires (op.Activity? && s.inhibitCount == 0) || (IsAfterReset(op) && SinceReset(s, age))
    ensures SinceReset(Apply(s, op), age')
  {
    if op.Activity? {
      ActivityIsCanonical(s, registered);
    }
  }

  lemma TimeoutKeepsTime(s: State, age: Listener -> int)
    requires TimerInvariant(s) && Punctual(s, age) && Enabled(s, Timeout)
    ensures Punctual(HandleCountdown(s), age)
    ensures forall l :: l in IdledBy(s, Timeout) ==> l.timeToIdle <= age(l)
  {
  }

  lemma OwnCohortsAreInTime(s: State, listeners: set<Listener>, age: Listener -> int)
    requires s.waiting == OwnCohorts(listeners) && forall l :: 0 <= age(l)
    requires s.countdown.active ==> s.countdown.remaining == s.countdown.interval
    requires s.countdown.active && s.waiting != {} ==> s.countdown.interval == FirstKey(s.waiting)
    ensures Punctual(s, age)
  {
  }

  lemma PauseKeepsTime(s: State, op: Op, age: Listener -> int, age': Listener -> int)
    requires TimerInvariant(s) && Enabled(s, op) && Punctual(s, age)
    requires op.UninhibitIdle? || op.Wait? || (op.InhibitIdle? && s.inhibitCount > 0)
    requires forall l :: age'(l) == AgeAfter(age(l), op, l)
    ensures Punctual(Apply(s, op), age')
  {
  }

  /** Exactly when a step keeps everybody punctual. */
  lemma StepKeepsTimeExactly(s: State, registered: set<Listener>, op: Op, age: Listener -> int, age': Listener -> int)
    requires TimerInvariant(s) && Enabled(s, op) && Bookkeeping(s, registered)
    requires KeepsBooks(s, registered, op) && Punctual(s, age)
    requires forall l :: age'(l) == AgeAfter(age(l), op, l)
    ensures Punctual(Apply(s, op), age') <==> KeepsTime(s, op, age)
  {
    assert forall l :: 0 <= age'(l);
    hide Punctual, AddsInTime, RemovesInTime;
    match op
    case Add(l) => AddKeepsTimeExactly(s, l, age, age');
    case Remove(l) => RemoveKeepsTimeExactly(s, l, age);
    case Activity =>
      ActivityIsCanonical(s, registered);
      OwnCohortsAreInTime(ReportActivity(s), registered, age');
    case Timeout => TimeoutKeepsTime(s, age);
    case InhibitIdle =>
      if s.inhibitCount == 0 {
        UnsplicedIsOwnCohorts(s.waiting, s.splice);
        OwnCohortsAreInTime(Inhibit(s), s.splice + Listeners(s.waiting), age');
      } else {
        PauseKeepsTime(s, op, age, age');
      }
    case UninhibitIdle => PauseKeepsTime(s, op, age, age');
    case Wait(_) => PauseKeepsTime(s, op, age, age');
  }

  /** A tidy run whose additions and removals are in time. */
  ghost predicate IsPunctualRun(ops: seq<Op>) {
    && IsTidyRun(ops)
    && (ops != [] ==>
          var front := ops[..|ops| - 1];
          IsPunctualRun(front) && KeepsTime(After(front), ops[|ops| - 1], l => Age(front, l)))
  }

  lemma {:induction false} PunctualRunsStayPunctual(ops: seq<Op>)
    requires IsPunctualRun(ops)
    ensures Punctual(After(ops), l => Age(ops, l))
  {
    if ops == [] {
    } else {
      var front, op := ops[..|ops| - 1], ops[|ops| - 1];
      PunctualRunsStayPunctual(front);
      TidyRunsKeepBooks(front);
      StepKeepsTimeExactly(After(front), Registered(front), op, l => Age(front, l), l => Age(ops, l));
    }
  }

  /** Over any tidy run whose additions and removals are in time, with activity, inhibitions and
    * pauses, no listener idles before its idle time has passed since it was added or an activity was
    * reported. */
  lemma NoEarlyIdle(ops: seq<Op>, l: Listener)
    requires IsPunctualRun(ops) && TimerInvariant(After(ops)) && Enabled(After(ops), Timeout)
    requires l in IdledBy(After(ops), Timeout)
    ensures l.timeToIdle <= Age(ops, l)
  {
    PunctualRunsStayPunctual(ops);
    TimeoutKeepsTime(After(ops), m => Age(ops, m));
  }
}
