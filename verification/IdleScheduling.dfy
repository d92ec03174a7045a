/** What the idle scheduler does, step by step, on values. One single-shot countdown serves all
  * listeners; callbacks do not call back into the scheduler. */
module IdleScheduling {
  datatype Listener = Listener(id: nat, timeToIdle: nat)

  /** A listener waiting in the cohort `key`. */
  datatype Entry = Entry(key: int, listener: Listener)

  datatype Countdown = Countdown(active: bool, interval: int, remaining: int)

  datatype State = State(
    waiting: set<Entry>,
    served: set<Listener>,
    splice: set<Listener>,
    inhibitCount: nat,
    countdown: Countdown,
    countdownSum: int)

  const INITIAL := State({}, {}, {}, 0, Countdown(false, 0, 0), 0)

  lemma MinAlso(rest: set<int>, m: int, y: int, s: set<int>)
    requires y in s && rest == s - {y} && (m in rest || m == y) && forall x :: x in rest ==> m <= x
    ensures exists least :: least in s && forall x :: x in s ==> least <= x
  {
    var least := if y < m then y else m;
    assert least in s;
    forall x | x in s
      ensures least <= x
    {
      assert x == y || x in rest;
    }
  }

  lemma {:induction false} MinExists(s: set<int>)
    requires exists x :: x in s
    ensures exists m :: m in s && forall x :: x in s ==> m <= x
  {
    var y :| y in s;
    var rest := s - {y};
    if exists x :: x in rest {
      MinExists(rest);
      var m :| m in rest && forall x :: x in rest ==> m <= x;
      MinAlso(rest, m, y, s);
    } else {
      MinAlso(rest, y, y, s);
    }
  }

  function MinOf(s: set<int>): (m: int)
    requires exists x :: x in s
    ensures m in s && forall x :: x in s ==> m <= x
  {
    MinExists(s);
    var m :| m in s && forall x :: x in s ==> m <= x;
    m
  }

  function Keys(waiting: set<Entry>): set<int> {
    set e | e in waiting :: e.key
  }

  function Listeners(waiting: set<Entry>): set<Listener> {
    set e | e in waiting :: e.listener
  }

  function FirstKey(waiting: set<Entry>): (k: int)
    requires waiting != {}
    ensures (exists e :: e in waiting && e.key == k) && forall e :: e in waiting ==> k <= e.key
  {
    assert forall e :: e in waiting ==> e.key in Keys(waiting);
    assert exists k :: k in Keys(waiting) by {
      var e :| e in waiting;
      assert e.key in Keys(waiting);
    }
    MinOf(Keys(waiting))
  }

  function EntriesOf(waiting: set<Entry>, l: Listener): set<Entry> {
    set e | e in waiting && e.listener == l
  }

  /** The first entry of `l`, if there is one. */
  function FirstEntry(waiting: set<Entry>, l: Listener): set<Entry> {
    var mine := EntriesOf(waiting, l);
    if mine == {} then {} else {Entry(FirstKey(mine), l)}
  }

  /** The listeners, each in the cohort of its own idle time. */
  function OwnCohorts(listeners: set<Listener>): set<Entry> {
    set l | l in listeners :: Entry(l.timeToIdle, l)
  }

  function Cohort(waiting: set<Entry>, key: int): set<Listener> {
    set e | e in waiting && e.key == key :: e.listener
  }

  function Later(waiting: set<Entry>, key: int): set<Entry> {
    set e | e in waiting && e.key != key
  }

  /** Spliced listeners go back to their own cohorts. */
  function Unspliced(waiting: set<Entry>, splice: set<Listener>): set<Entry> {
    (set e | e in waiting && !(e.listener in splice && e in FirstEntry(waiting, e.listener)))
    + OwnCohorts(splice)
  }

  function Start(s: State, interval: int): State {
    s.(countdown := Countdown(true, interval, interval))
  }

  function Stop(s: State): State {
    s.(countdown := s.countdown.(active := false))
  }

  function UnsetCountdown(s: State): State {
    Stop(s.(waiting := Unspliced(s.waiting, s.splice), splice := {}, countdownSum := 0))
  }

  function AddListener(s: State, l: Listener): State {
    if !s.countdown.active then
      var s' := s.(waiting := s.waiting + {Entry(l.timeToIdle, l)});
      if s.inhibitCount == 0 then Start(s', l.timeToIdle) else s'
    else
      var residue := s.countdown.remaining;
      var elapsed := s.countdown.interval - residue;
      if residue >= l.timeToIdle then
        Start(s.(waiting := s.waiting + {Entry(l.timeToIdle, l)}, countdownSum := s.countdownSum + elapsed),
              l.timeToIdle)
      else
        s.(waiting := s.waiting + {Entry(l.timeToIdle + elapsed, l)}, splice := s.splice + {l})
  }

  function RemoveListener(s: State, l: Listener): State {
    if l in s.served then s.(served := s.served - {l})
    else
      var s' := s.(waiting := s.waiting - FirstEntry(s.waiting, l));
      if s'.waiting == {} then Stop(s') else s'
  }

  function ReportActivity(s: State): State {
    var s' := UnsetCountdown(s.(waiting := s.waiting + OwnCohorts(s.served), served := {}));
    if s'.waiting != {} && s'.inhibitCount == 0 then Start(s', FirstKey(s'.waiting)) else s'
  }

  /** The countdown has run out: the first cohort goes idle. */
  function HandleCountdown(s: State): State
    requires s.waiting != {}
  {
    var interval := FirstKey(s.waiting);
    var s' := Stop(s.(served := s.served + Cohort(s.waiting, interval), waiting := Later(s.waiting, interval)));
    if s'.waiting == {} then s'.(countdownSum := 0)
    else
      var lastInterval := s.countdown.interval;
      Start(s'.(countdownSum := s.countdownSum + lastInterval), FirstKey(s'.waiting) - lastInterval)
  }

  function Inhibit(s: State): State {
    var s' := s.(inhibitCount := s.inhibitCount + 1);
    if s'.inhibitCount == 1 then UnsetCountdown(s') else s'
  }

  function Uninhibit(s: State): State
    requires s.inhibitCount > 0
  {
    var s' := s.(inhibitCount := s.inhibitCount - 1);
    if s'.inhibitCount > 0 || s'.waiting == {} then s' else Start(s', FirstKey(s'.waiting))
  }

  function Elapse(s: State, time: int): State {
    if s.countdown.active then s.(countdown := s.countdown.(remaining := s.countdown.remaining - time)) else s
  }

  datatype Op =
    | Add(listener: Listener)
    | Remove(listener: Listener)
    | Activity
    | Timeout
    | InhibitIdle
    | UninhibitIdle
    | Wait(time: nat)

  /** What can happen next. The countdown fires when it has run out, not before and not twice;
    * inhibitions are balanced. */
  predicate Enabled(s: State, op: Op) {
    match op
    case Timeout => s.countdown.active && s.countdown.remaining == 0
    case Wait(time) => s.countdown.active ==> time <= s.countdown.remaining
    case UninhibitIdle => s.inhibitCount > 0
    case _ => true
  }

  function Apply(s: State, op: Op): State
    requires TimerInvariant(s) && Enabled(s, op)
  {
    match op
    case Add(l) => AddListener(s, l)
    case Remove(l) => RemoveListener(s, l)
    case Activity => ReportActivity(s)
    case Timeout => HandleCountdown(s)
    case InhibitIdle => Inhibit(s)
    case UninhibitIdle => Uninhibit(s)
    case Wait(time) => Elapse(s, time)
  }

  // ---------------------------------------------------------------------------------------------
  // The countdown

  /** The countdown runs exactly while someone waits and nothing inhibits, and never past the
    * first cohort. */
  predicate TimerInvariant(s: State) {
    && (s.countdown.active <==> s.inhibitCount == 0 && s.waiting != {})
    && (forall e :: e in s.waiting ==> 0 <= e.key)
    && (s.countdown.active ==>
          && 0 <= s.countdown.remaining <= s.countdown.interval
          && forall e :: e in s.waiting ==> s.countdown.interval <= e.key)
  }

  lemma TimerInvariantKept(s: State, op: Op)
    requires TimerInvariant(s) && Enabled(s, op)
    ensures TimerInvariant(Apply(s, op))
  {
  }

  /** The assertions the scheduler makes while it handles `op`. */
  predicate AssertionsHold(s: State, op: Op) {
    match op
    case Add(_) => s.countdown.active ==> s.inhibitCount == 0
    case Timeout =>
      && s.inhibitCount == 0
      && s.waiting != {}
      && var later := Later(s.waiting, FirstKey(s.waiting));
         later != {} ==> FirstKey(later) - s.countdown.interval > 0
    case UninhibitIdle => !s.countdown.active && s.inhibitCount >= 1
    case _ => true
  }

  lemma NoAssertionFails(s: State, op: Op)
    requires TimerInvariant(s) && Enabled(s, op)
    ensures AssertionsHold(s, op)
  {
  }

  ghost predicate IsRun(ops: seq<Op>)
    decreases |ops|, 0
  {
    ops != [] ==>
      var front := ops[..|ops| - 1];
      IsRun(front) && TimerInvariant(After(front)) && Enabled(After(front), ops[|ops| - 1])
  }

  ghost function After(ops: seq<Op>): State
    requires IsRun(ops)
    decreases |ops|, 1
  {
    if ops == [] then INITIAL else Apply(After(ops[..|ops| - 1]), ops[|ops| - 1])
  }

  /** In every reachable state the timer invariant holds, so every next step is again a step of a
    * run and none of the scheduler's assertions fails. */
  lemma RunsAreSafe(ops: seq<Op>, op: Op)
    requires IsRun(ops) && Enabled(After(ops), op)
    ensures TimerInvariant(After(ops)) && AssertionsHold(After(ops), op) && IsRun(ops + [op])
  {
    if ops != [] {
      TimerInvariantKept(After(ops[..|ops| - 1]), ops[|ops| - 1]);
    }
    NoAssertionFails(After(ops), op);
    assert (ops + [op])[..|ops|] == ops;
  }

  // ---------------------------------------------------------------------------------------------
  // Registered listeners

  /** Every registered listener is either served or waits once, and waits in the cohort of its own
    * idle time unless it was spliced in. */
  ghost predicate Bookkeeping(s: State, registered: set<Listener>) {
    && s.served !! Listeners(s.waiting)
    && s.served + Listeners(s.waiting) == registered
    && s.splice <= registered
    && (forall e, f :: e in s.waiting && f in s.waiting && e.listener == f.listener ==> e == f)
    && (forall e :: e in s.waiting && e.listener !in s.splice ==> e.key == e.listener.timeToIdle)
  }

  function RegisteredAfter(registered: set<Listener>, op: Op): set<Listener> {
    match op
    case Add(l) => registered + {l}
    case Remove(l) => registered - {l}
    case _ => registered
  }

  /** The steps that keep the books. Adding asks for a listener that is not registered. The other
    * two guards exclude defects of the code: removing a listener that is still spliced, and
    * inhibiting while a spliced listener is served; see `RemovedListenerReturns` and
    * `InhibitServesTwice`. */
  predicate KeepsBooks(s: State, registered: set<Listener>, op: Op) {
    match op
    case Add(l) => l !in registered
    case Remove(l) => l !in s.splice
    case InhibitIdle => s.inhibitCount == 0 ==> s.splice !! s.served
    case _ => true
  }

  lemma ListenersMember(waiting: set<Entry>, e: Entry)
    requires e in waiting
    ensures e.listener in Listeners(waiting)
  {
  }

  /** With one entry per listener, unsplicing leaves everybody in the own cohort. */
  lemma UnsplicedIsOwnCohorts(waiting: set<Entry>, splice: set<Listener>)
    requires forall e, f :: e in waiting && f in waiting && e.listener == f.listener ==> e == f
    requires forall e :: e in waiting && e.listener !in splice ==> e.key == e.listener.timeToIdle
    ensures Unspliced(waiting, splice) == OwnCohorts(splice + Listeners(waiting))
    ensures Listeners(Unspliced(waiting, splice)) == splice + Listeners(waiting)
  {
  }

  /** An activity report brings the canonical form back: exactly the registered listeners wait,
    * each in its own cohort, and nobody is served or spliced. */
  lemma ActivityIsCanonical(s: State, registered: set<Listener>)
    requires Bookkeeping(s, registered)
    ensures var s' := ReportActivity(s);
            s'.waiting == OwnCohorts(registered) && s'.served == {} && s'.splice == {}
  {
  }

  lemma BooksKept(s: State, registered: set<Listener>, op: Op)
    requires TimerInvariant(s) && Enabled(s, op)
    requires Bookkeeping(s, registered) && KeepsBooks(s, registered, op)
    ensures Bookkeeping(Apply(s, op), RegisteredAfter(registered, op))
  {
    match op
    case Add(l) => AddKeepsBooks(s, registered, l);
    case Remove(l) => RemoveKeepsBooks(s, registered, l);
    case Activity =>
      ActivityIsCanonical(s, registered);
      OwnCohortsAreBooks(registered);
    case Timeout => TimeoutKeepsBooks(s, registered);
    case InhibitIdle => InhibitKeepsBooks(s, registered);
    case UninhibitIdle =>
    case Wait(_) =>
  }

  lemma OwnCohortsAreBooks(registered: set<Listener>)
    ensures Listeners(OwnCohorts(registered)) == registered
  {
    forall l | l in registered
      ensures l in Listeners(OwnCohorts(registered))
    {
      assert Entry(l.timeToIdle, l) in OwnCohorts(registered);
    }
  }

  lemma AddKeepsBooks(s: State, registered: set<Listener>, l: Listener)
    requires TimerInvariant(s) && Bookkeeping(s, registered) && l !in registered
    ensures Bookkeeping(AddListener(s, l), registered + {l})
  {
  }

  lemma RemoveKeepsBooks(s: State, registered: set<Listener>, l: Listener)
    requires Bookkeeping(s, registered) && l !in s.splice
    ensures Bookkeeping(RemoveListener(s, l), registered - {l})
  {
  }

  lemma TimeoutKeepsBooks(s: State, registered: set<Listener>)
    requires Bookkeeping(s, registered) && s.waiting != {}
    ensures Bookkeeping(HandleCountdown(s), registered)
  {
  }

  lemma InhibitKeepsBooks(s: State, registered: set<Listener>)
    requires Bookkeeping(s, registered)
    requires s.inhibitCount == 0 ==> s.splice !! s.served
    ensures Bookkeeping(Inhibit(s), registered)
  {
  }

  /** The first inhibition keeps served listeners from waiting exactly when none of them is still
    * spliced. */
  lemma InhibitServesTwice(s: State, registered: set<Listener>)
    requires Bookkeeping(s, registered) && s.inhibitCount == 0
    ensures Inhibit(s).served !! Listeners(Inhibit(s).waiting) <==> s.splice !! s.served
  {
  }

  /** A removed listener stays away after the next activity report exactly when it was not spliced;
    * otherwise the report puts it back to wait. */
  lemma RemovedListenerReturns(s: State, registered: set<Listener>, l: Listener)
    requires Bookkeeping(s, registered) && l in registered
    ensures l in Listeners(ReportActivity(RemoveListener(s, l)).waiting) <==> l in s.splice
  {
    var removed := RemoveListener(s, l);
    if l !in s.splice {
      RemoveKeepsBooks(s, registered, l);
      ActivityIsCanonical(removed, registered - {l});
      OwnCohortsAreBooks(registered - {l});
    } else {
      var s' := ReportActivity(removed);
      assert removed.splice == s.splice;
      assert Entry(l.timeToIdle, l) in OwnCohorts(s.splice);
      ListenersMember(s'.waiting, Entry(l.timeToIdle, l));
    }
  }
}
