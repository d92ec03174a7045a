/** The idle scheduler over whole runs: who is called back, and when. */
module IdleRuns {
  import opened IdleScheduling

  datatype Callback = Idle | Resume

  function IdledBy(s: State, op: Op): set<Listener> {
    if op.Timeout? && s.waiting != {} then Cohort(s.waiting, FirstKey(s.waiting)) else {}
  }

  function ResumedBy(s: State, op: Op): set<Listener> {
    if op.Activity? then s.served else {}
  }

  ghost function Registered(ops: seq<Op>): set<Listener> {
    if ops == [] then {} else RegisteredAfter(Registered(ops[..|ops| - 1]), ops[|ops| - 1])
  }

  /** A run whose steps all keep the books. */
  ghost predicate IsTidyRun(ops: seq<Op>) {
    && IsRun(ops)
    && (ops != [] ==>
          var front := ops[..|ops| - 1];
          IsTidyRun(front) && KeepsBooks(After(front), Registered(front), ops[|ops| - 1]))
  }

  lemma {:induction false} TidyRunsKeepBooks(ops: seq<Op>)
    requires IsTidyRun(ops)
    ensures Bookkeeping(After(ops), Registered(ops))
  {
    if ops != [] {
      var front := ops[..|ops| - 1];
      TidyRunsKeepBooks(front);
      BooksKept(After(front), Registered(front), ops[|ops| - 1]);
    }
  }

  /** The callbacks `l` got since it was added last. */
  ghost function Callbacks(ops: seq<Op>, l: Listener): seq<Callback>
    requires IsRun(ops)
  {
    if ops == [] then []
    else
      var front, op := ops[..|ops| - 1], ops[|ops| - 1];
      var s := After(front);
      (if op == Add(l) then [] else Callbacks(front, l))
      + (if l in ResumedBy(s, op) then [Resume] else [])
      + (if l in IdledBy(s, op) then [Idle] else [])
  }

  predicate Alternates(callbacks: seq<Callback>) {
    forall i :: 0 <= i < |callbacks| ==> callbacks[i] == if i % 2 == 0 then Idle else Resume
  }

  /** How one step moves a registered listener between waiting and served. */
  lemma ServedStep(s: State, registered: set<Listener>, op: Op, l: Listener)
    requires TimerInvariant(s) && Enabled(s, op) && Bookkeeping(s, registered)
    requires l in registered && op != Add(l) && op != Remove(l)
    ensures l in ResumedBy(s, op) ==> l in s.served && l !in IdledBy(s, op)
    ensures l in IdledBy(s, op) ==> l !in s.served
    ensures l in Apply(s, op).served <==>
            l in IdledBy(s, op) || (l in s.served && l !in ResumedBy(s, op))
  {
  }

  /** What the last step of a run means for `l`. */
  datatype Step = Step(served: bool, resumed: bool, idled: bool, served': bool) {
    predicate Sound() {
      && (resumed ==> served && !idled)
      && (idled ==> !served)
      && (served' <==> idled || (served && !resumed))
    }

    function Called(): seq<Callback> {
      (if resumed then [Resume] else []) + (if idled then [Idle] else [])
    }
  }

  ghost function LastStep(ops: seq<Op>, l: Listener): Step
    requires IsRun(ops) && ops != []
  {
    var s, op := After(ops[..|ops| - 1]), ops[|ops| - 1];
    Step(l in s.served, l in ResumedBy(s, op), l in IdledBy(s, op), l in After(ops).served)
  }

  lemma LastStepIsSound(ops: seq<Op>, l: Listener)
    requires IsTidyRun(ops) && l in Registered(ops) && ops[|ops| - 1] != Add(l)
    ensures l in Registered(ops[..|ops| - 1]) && LastStep(ops, l).Sound()
  {
    var front := ops[..|ops| - 1];
    TidyRunsKeepBooks(front);
    ServedStep(After(front), Registered(front), ops[|ops| - 1], l);
  }

  lemma CallbacksStep(ops: seq<Op>, l: Listener)
    requires IsRun(ops) && ops != [] && ops[|ops| - 1] != Add(l)
    ensures Callbacks(ops, l) == Callbacks(ops[..|ops| - 1], l) + LastStep(ops, l).Called()
  {
  }

  lemma AddStartsAnew(ops: seq<Op>, l: Listener)
    requires IsTidyRun(ops) && ops != [] && ops[|ops| - 1] == Add(l)
    ensures Callbacks(ops, l) == [] && l !in After(ops).served
  {
    TidyRunsKeepBooks(ops[..|ops| - 1]);
  }

  lemma AlternatesExtended(callbacks: seq<Callback>, step: Step)
    requires Alternates(callbacks) && step.Sound() && (step.served <==> |callbacks| % 2 == 1)
    ensures Alternates(callbacks + step.Called())
    ensures step.served' <==> |callbacks + step.Called()| % 2 == 1
  {
  }

  /** Over every run that keeps the books, each registered listener hears idle, resume, idle, and so
    * on, and it is served exactly while its last callback was idle. */
  lemma {:induction false} CallbacksAlternate(ops: seq<Op>, l: Listener)
    requires IsTidyRun(ops) && l in Registered(ops)
    ensures Alternates(Callbacks(ops, l))
    ensures l in After(ops).served <==> |Callbacks(ops, l)| % 2 == 1
  {
    var front := ops[..|ops| - 1];
    if ops[|ops| - 1] == Add(l) {
      AddStartsAnew(ops, l);
    } else {
      LastStepIsSound(ops, l);
      CallbacksAlternate(front, l);
      CallbacksStep(ops, l);
      AlternatesExtended(Callbacks(front, l), LastStep(ops, l));
    }
  }

  // ---------------------------------------------------------------------------------------------
  // When cohorts go idle

  /** One timeout: the countdown runs down and fires. */
  function Fire(s: State): State
    requires s.waiting != {}
  {
    HandleCountdown(Elapse(s, s.countdown.remaining))
  }

  /** The keys of the cohorts, in increasing order. */
  ghost predicate AreKeys(ks: seq<int>, waiting: set<Entry>) {
    && (forall i, j :: 0 <= i < j < |ks| ==> ks[i] < ks[j])
    && (forall i :: 0 <= i < |ks| ==> 0 <= ks[i] && ks[i] in Keys(waiting))
    && (forall k :: k in Keys(waiting) ==> k in ks)
  }

  /** How long after the reset the j-th timeout comes: only the last interval is subtracted from the
    * next key, so what passed before it is waited for again. */
  function FiringTime(ks: seq<int>, j: int): int
    requires j <= |ks|
  {
    if j <= 0 then 0 else ks[j - 1] + FiringTime(ks, j - 2)
  }

  /** The state and the time passed after `j` timeouts and nothing else. */
  ghost predicate FiredExactly(ks: seq<int>, reset: State, j: nat, s: State, time: int)
    requires j <= |ks|
  {
    && time == FiringTime(ks, j)
    && s.waiting == Remaining(ks, reset.waiting, j)
    && s.served == (set e | e in reset.waiting && e !in s.waiting :: e.listener)
    && s.splice == reset.splice && s.inhibitCount == reset.inhibitCount
    && (s.countdown.active <==> j < |ks|)
    && (j < |ks| ==> s.countdown.interval == s.countdown.remaining == FiringTime(ks, j + 1) - FiringTime(ks, j))
  }

  ghost predicate IsFreshlyReset(s: State) {
    && TimerInvariant(s) && s.inhibitCount == 0 && s.served == {}
    && (s.waiting != {} ==> s.countdown == Countdown(true, FirstKey(s.waiting), FirstKey(s.waiting)))
  }

  lemma ActivityResets(s: State)
    requires TimerInvariant(s) && s.inhibitCount == 0
    ensures IsFreshlyReset(ReportActivity(s))
  {
  }

  lemma {:induction false} FiringTimeIsLate(ks: seq<int>, j: int)
    requires j <= |ks| && forall i :: 0 <= i < |ks| ==> 0 <= ks[i]
    ensures 0 <= FiringTime(ks, j)
    ensures 1 <= j ==> ks[j - 1] <= FiringTime(ks, j)
  {
    if j > 0 {
      FiringTimeIsLate(ks, j - 2);
    }
  }

  /** Every set of waiting listeners has its increasing sequence of keys. */
  function SortedKeys(waiting: set<Entry>): seq<int> {
    if waiting == {} then []
    else
      var first := FirstKey(waiting);
      assert exists e :: e in waiting && e.key == first;
      [first] + SortedKeys(Later(waiting, first))
  }

  lemma FirstKeyAndLater(waiting: set<Entry>)
    requires waiting != {}
    ensures var first := FirstKey(waiting);
            forall k :: k in Keys(waiting) <==> k == first || (first < k && k in Keys(Later(waiting, first)))
  {
    var first := FirstKey(waiting);
    forall k | k in Keys(waiting) && k != first
      ensures first < k && k in Keys(Later(waiting, first))
    {
      var e :| e in waiting && e.key == k;
      assert e in Later(waiting, first);
    }
  }

  lemma {:induction false} SortedKeysAreKeys(waiting: set<Entry>)
    requires forall e :: e in waiting ==> 0 <= e.key
    ensures AreKeys(SortedKeys(waiting), waiting)
  {
    if waiting == {} {
    } else {
      var first := FirstKey(waiting);
      var later := Later(waiting, first);
      var e :| e in waiting && e.key == first;
      assert later < waiting;
      SortedKeysAreKeys(later);
      FirstKeyAndLater(waiting);
      hide Keys, Later, FirstKey;
      var ks := SortedKeys(later);
      assert SortedKeys(waiting) == [first] + ks;
      assert forall i :: 0 <= i < |ks| ==> first < ks[i];
    }
  }

  lemma KeyOf(waiting: set<Entry>, e: Entry)
    requires e in waiting
    ensures e.key in Keys(waiting)
  {
  }

  lemma NoKeys(ks: seq<int>, waiting: set<Entry>)
    requires AreKeys(ks, waiting)
    ensures ks != [] ==> exists e :: e in waiting && e.key == ks[0]
  {
    if ks != [] {
      assert ks[0] in Keys(waiting);
    }
  }

  lemma ResetIsNotFired(ks: seq<int>, reset: State)
    requires IsFreshlyReset(reset) && AreKeys(ks, reset.waiting)
    ensures FiredExactly(ks, reset, 0, reset, 0)
  {
    if reset.waiting != {} {
      var e :| e in reset.waiting && e.key == FirstKey(reset.waiting);
      KeyOf(reset.waiting, e);
      assert ks[0] in Keys(reset.waiting);
      assert FiringTime(ks, 1) == ks[0] + FiringTime(ks, -1);
    } else {
      NoKeys(ks, reset.waiting);
    }
  }

  /** The entries left after the `j` first cohorts. */
  function Remaining(ks: seq<int>, waiting: set<Entry>, j: nat): set<Entry>
    requires j <= |ks|
  {
    set e | e in waiting && e.key !in ks[..j]
  }

  lemma InPrefix(ks: seq<int>, i: nat, j: nat)
    requires i < |ks| && j <= |ks|
    ensures i < j ==> ks[i] in ks[..j]
  {
  }

  lemma RemainingKeys(ks: seq<int>, waiting: set<Entry>, j: nat)
    requires AreKeys(ks, waiting) && j <= |ks|
    ensures j == |ks| ==> Remaining(ks, waiting, j) == {}
    ensures j < |ks| ==>
              var rest := Remaining(ks, waiting, j);
              && rest != {} && FirstKey(rest) == ks[j]
              && Cohort(rest, ks[j]) == Cohort(waiting, ks[j])
              && Later(rest, ks[j]) == Remaining(ks, waiting, j + 1)
  {
    var rest := Remaining(ks, waiting, j);
    forall e | e in rest
      ensures j < |ks| && ks[j] <= e.key
    {
      KeyOf(waiting, e);
      var i :| 0 <= i < |ks| && ks[i] == e.key;
      InPrefix(ks, i, j);
    }
    if j < |ks| {
      var e :| e in waiting && e.key == ks[j];
      forall i | 0 <= i < j
        ensures ks[..j][i] < ks[j]
      {
      }
      assert e in rest;
      forall l | l in Cohort(waiting, ks[j])
        ensures l in Cohort(rest, ks[j])
      {
        var g :| g in waiting && g.key == ks[j] && g.listener == l;
        assert g in rest;
      }
      assert ks[..j + 1] == ks[..j] + [ks[j]];
    }
  }

  lemma ServedAfterCohort(waiting: set<Entry>, rest: set<Entry>, key: int)
    requires rest <= waiting && Cohort(rest, key) == Cohort(waiting, key)
    ensures (set e | e in waiting && e !in rest :: e.listener) + Cohort(rest, key) ==
            set e | e in waiting && e !in Later(rest, key) :: e.listener
  {
  }

  /** One more timeout lets exactly the next cohort go idle, at its firing time. */
  lemma FiresNext(ks: seq<int>, reset: State, j: nat, s: State, time: int)
    requires AreKeys(ks, reset.waiting)
    requires j < |ks| && FiredExactly(ks, reset, j, s, time)
    ensures s.countdown.active && s.waiting != {} && IdledBy(s, Timeout) == Cohort(reset.waiting, ks[j])
    ensures FiredExactly(ks, reset, j + 1, Fire(s), time + s.countdown.remaining)
  {
    RemainingKeys(ks, reset.waiting, j);
    RemainingKeys(ks, reset.waiting, j + 1);
    ServedAfterCohort(reset.waiting, s.waiting, ks[j]);
    if j + 1 < |ks| {
      assert FiringTime(ks, j + 2) == ks[j + 1] + FiringTime(ks, j);
    }
  }

  /** The state and the time passed after `j` timeouts and nothing else. */
  function FireTimes(s: State, j: nat): (State, int) {
    if j == 0 then (s, 0)
    else
      var (s', time) := FireTimes(s, j - 1);
      if s'.countdown.active && s'.waiting != {} then (Fire(s'), time + s'.countdown.remaining) else (s', time)
  }

  lemma FiredNext(ks: seq<int>, reset: State, j: nat)
    requires AreKeys(ks, reset.waiting) && j < |ks|
    requires FiredExactly(ks, reset, j, FireTimes(reset, j).0, FireTimes(reset, j).1)
    ensures FiredExactly(ks, reset, j + 1, FireTimes(reset, j + 1).0, FireTimes(reset, j + 1).1)
  {
    hide Fire, FiredExactly, AreKeys, IdledBy, Cohort;
    var (s, time) := FireTimes(reset, j);
    FiresNext(ks, reset, j, s, time);
    assert FireTimes(reset, j + 1) == (Fire(s), time + s.countdown.remaining);
  }

  lemma {:induction false} FiredAfter(ks: seq<int>, reset: State, j: nat)
    requires IsFreshlyReset(reset) && AreKeys(ks, reset.waiting) && j <= |ks|
    ensures FiredExactly(ks, reset, j, FireTimes(reset, j).0, FireTimes(reset, j).1)
  {
    hide FiredExactly, AreKeys, IsFreshlyReset, Fire, FiringTime, Remaining, TimerInvariant;
    if j == 0 {
      ResetIsNotFired(ks, reset);
    } else {
      hide FireTimes;
      FiredAfter(ks, reset, j - 1);
      FiredNext(ks, reset, j - 1);
    }
  }

  lemma AllFired(ks: seq<int>, reset: State, s: State, time: int)
    requires AreKeys(ks, reset.waiting) && FiredExactly(ks, reset, |ks|, s, time)
    ensures s.waiting == {} && !s.countdown.active && s.served == Listeners(reset.waiting)
  {
    RemainingKeys(ks, reset.waiting, |ks|);
  }

  /** After a reset, with nothing but timeouts, the cohorts go idle once each in increasing order,
    * the j-th no earlier than its key; after as many timeouts as there are cohorts everybody is
    * served and the countdown has stopped. */
  lemma CohortsIdleInOrder(ks: seq<int>, reset: State, j: nat)
    requires IsFreshlyReset(reset) && AreKeys(ks, reset.waiting) && j <= |ks|
    ensures var (s, time) := FireTimes(reset, j);
            && FiredExactly(ks, reset, j, s, time)
            && (1 <= j ==> ks[j - 1] <= time == ks[j - 1] + FiringTime(ks, j - 2))
            && (j < |ks| ==> IdledBy(s, Timeout) == Cohort(reset.waiting, ks[j]))
            && (j == |ks| ==> s.waiting == {} && !s.countdown.active && s.served == Listeners(reset.waiting))
  {
    FiredAfter(ks, reset, j);
    var (s, time) := FireTimes(reset, j);
    FiringTimeIsLate(ks, j);
    if j < |ks| {
      FiresNext(ks, reset, j, s, time);
    } else {
      AllFired(ks, reset, s, time);
    }
  }

  /** The first two cohorts are on time, the third too when the first waits for nothing at all; every
    * other cohort idles late. */
  lemma OnTimeExactly(ks: seq<int>, waiting: set<Entry>, j: nat)
    requires AreKeys(ks, waiting) && 1 <= j <= |ks|
    ensures FiringTime(ks, j) == ks[j - 1] <==> j <= 2 || (j == 3 && ks[0] == 0)
  {
    FiringTimeIsLate(ks, j - 2);
    if j == 3 {
      assert FiringTime(ks, 1) == ks[0] + FiringTime(ks, -1);
    } else if j > 3 {
      assert ks[0] < ks[j - 3] <= FiringTime(ks, j - 2);
    }
  }
}
