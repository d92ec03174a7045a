/** What each step of the idle scheduler changes, entry by entry, and what it leaves alone. */
module IdleSteps {
  import opened IdleScheduling
  import opened IdleRuns
  import opened IdleTiming

  /** `e` is in the first cohort. */
  ghost predicate IsFirst(waiting: set<Entry>, e: Entry) {
    e in waiting && forall f :: f in waiting ==> e.key <= f.key
  }

  predicate IsRestarted(s: State, interval: int) {
    s.countdown == Countdown(true, interval, interval)
  }

  lemma FirstOf(waiting: set<Entry>) returns (first: Entry)
    requires waiting != {}
    ensures IsFirst(waiting, first) && first.key == FirstKey(waiting)
  {
    var k := FirstKey(waiting);
    first :| first in waiting && first.key == k;
  }

  lemma FirstIs(waiting: set<Entry>)
    ensures waiting != {} ==> forall e :: IsFirst(waiting, e) <==> e in waiting && e.key == FirstKey(waiting)
  {
  }

  /** An added listener is due exactly when its idle time has passed, unless it comes before or into the
    * cohort the countdown runs for. Nobody else moves, and nobody else is due any sooner. */
  lemma AddedIsDueExactly(s: State, l: Listener) returns (added: Entry)
    requires TimerInvariant(s) && l !in Listeners(s.waiting)
    ensures var s' := AddListener(s, l);
            && added.listener == l && s'.waiting == s.waiting + {added}
            && Due(s', added) == (if AddsInTime(s, l) then l.timeToIdle else s.countdown.remaining)
            && (forall e :: e in s.waiting ==> Due(s, e) <= Due(s', e))
            && s'.served == s.served && s'.inhibitCount == s.inhibitCount
            && forall m :: m in s'.splice <==>
                 m in s.splice || (m == l && s.countdown.active && s.countdown.remaining < l.timeToIdle)
  {
    var s' := AddListener(s, l);
    added := Entry(l.timeToIdle, l);
    if !s.countdown.active {
      assert s.inhibitCount == 0 ==> s'.waiting == {added};
    } else if s.countdown.remaining >= l.timeToIdle {
      FirstKeyIs(s'.waiting, added);
    } else {
      added := Entry(l.timeToIdle + (s.countdown.interval - s.countdown.remaining), l);
      assert s'.waiting == s.waiting + {added};
      var first := FirstOf(s.waiting);
      if first.key < added.key {
        FirstKeyIs(s'.waiting, first);
      } else {
        FirstKeyIs(s'.waiting, added);
      }
    }
  }

  /** A removed listener, spliced or not, is neither served nor waiting afterwards; everybody else waits
    * and is served as before. */
  lemma RemovedIsGone(s: State, registered: set<Listener>, l: Listener)
    requires TimerInvariant(s) && Bookkeeping(s, registered)
    ensures var s' := RemoveListener(s, l);
            && (forall m :: m in s'.served <==> m in s.served && m != l)
            && (forall e :: e in s'.waiting <==> e in s.waiting && e.listener != l)
            && s'.splice == s.splice && s'.inhibitCount == s.inhibitCount && s'.countdownSum == s.countdownSum
            && s'.countdown == (if s'.waiting == {} then s.countdown.(active := false) else s.countdown)
  {
    forall e | e in s.waiting && e.listener == l
      ensures e in FirstEntry(s.waiting, l)
    {
      assert e in EntriesOf(s.waiting, l);
    }
    forall e | e in s.waiting
      ensures e.listener in Listeners(s.waiting)
    {
    }
  }

  /** Without the books, of several entries of the listener only the first one goes. */
  lemma FirstEntryIsRemoved(s: State, l: Listener)
    requires l !in s.served
    ensures forall e :: e in RemoveListener(s, l).waiting <==>
              e in s.waiting && (e.listener != l || exists f :: f in s.waiting && f.listener == l && f.key < e.key)
  {
    var mine := EntriesOf(s.waiting, l);
    forall e | e in s.waiting && e.listener == l
      ensures e in FirstEntry(s.waiting, l) <==> !exists f :: f in s.waiting && f.listener == l && f.key < e.key
    {
      assert e in mine;
      var first :| first in mine && first.key == FirstKey(mine);
      assert first == Entry(FirstKey(mine), l);
    }
  }

  /** What a timeout does: the first cohort is served, all others go on waiting, and the countdown runs
    * for the next one, less the interval that has just passed. */
  lemma FirstCohortIsServed(s: State)
    requires TimerInvariant(s) && s.waiting != {}
    ensures var s' := HandleCountdown(s);
            && (forall e :: e in s'.waiting <==> e in s.waiting && !IsFirst(s.waiting, e))
            && (forall m :: m in s'.served <==>
                  m in s.served || exists e :: IsFirst(s.waiting, e) && e.listener == m)
            && s'.splice == s.splice && s'.inhibitCount == s.inhibitCount
            && (forall e :: IsFirst(s'.waiting, e) ==> IsRestarted(s', e.key - s.countdown.interval))
            && (s'.waiting == {} ==> !s'.countdown.active && s'.countdownSum == 0)
  {
    var s' := HandleCountdown(s);
    FirstIs(s.waiting);
    FirstIs(s'.waiting);
    hide IsFirst, FirstKey, TimerInvariant;
  }

  /** What unsetting the countdown does to each entry: the first one of a spliced listener is replaced
    * by one in its own cohort. */
  lemma SplicedMoveExactly(waiting: set<Entry>, splice: set<Listener>, e: Entry)
    ensures e in Unspliced(waiting, splice) <==>
            || (e.listener in splice && e.key == e.listener.timeToIdle)
            || (e in waiting &&
                (e.listener in splice ==> exists f :: f in waiting && f.listener == e.listener && f.key < e.key))
  {
    var mine := EntriesOf(waiting, e.listener);
    if e in waiting {
      assert e in mine;
      var first :| first in mine && first.key == FirstKey(mine);
      assert first == Entry(FirstKey(mine), e.listener);
    }
  }

  /** The time since the countdown was last unset, as long as it runs. */
  function Clock(s: State): int {
    s.countdownSum + s.countdown.interval - s.countdown.remaining
  }

  /** The clock runs on through additions, removals and timeouts, and starts anew with an activity report
    * and with the last inhibition to go. */
  lemma ClockRunsOn(s: State, op: Op)
    requires TimerInvariant(s) && Enabled(s, op)
    requires s.countdown.active && Apply(s, op).countdown.active
    ensures Clock(Apply(s, op)) == match op
                                   case Wait(time) => Clock(s) + time
                                   case Activity => 0
                                   case _ => Clock(s)
  {
  }

  lemma InhibitionStopsClock(s: State)
    requires TimerInvariant(s) && s.inhibitCount == 0
    ensures var s' := Inhibit(s);
            && s'.inhibitCount == 1 && !s'.countdown.active && s'.countdownSum == 0
            && s'.splice == {} && s'.served == s.served
            && (s'.waiting != {} ==> Clock(Uninhibit(s')) == 0)
  {
  }

  // ---------------------------------------------------------------------------------------------
  // After a removal

  predicate IsAway(s: State, l: Listener) {
    l !in s.served && l !in Listeners(s.waiting)
  }

  /** What can bring a removed listener back. */
  predicate BringsBack(op: Op, l: Listener) {
    op == Add(l) || op.Activity? || op.InhibitIdle?
  }

  lemma RemovedIsAway(s: State, registered: set<Listener>, l: Listener)
    requires TimerInvariant(s) && Bookkeeping(s, registered)
    ensures IsAway(RemoveListener(s, l), l)
  {
    RemovedIsGone(s, registered, l);
  }

  lemma StaysAway(s: State, l: Listener, op: Op)
    requires TimerInvariant(s) && Enabled(s, op) && IsAway(s, l) && !BringsBack(op, l)
    ensures IsAway(Apply(s, op), l) && l !in IdledBy(s, op) && l !in ResumedBy(s, op)
  {
  }

  /** A removed listener, spliced or not, is not called back until it is added, an activity is reported
    * or an inhibition starts. */
  lemma {:induction false} RemovedHearsNothing(ops: seq<Op>, l: Listener, more: seq<Op>)
    requires IsTidyRun(ops) && IsRun(ops + [Remove(l)] + more)
    requires forall op :: op in more ==> !BringsBack(op, l)
    ensures IsAway(After(ops + [Remove(l)] + more), l)
    ensures Callbacks(ops + [Remove(l)] + more, l) == Callbacks(ops, l)
  {
    hide TimerInvariant, IsAway, RemoveListener;
    var all := ops + [Remove(l)] + more;
    if more == [] {
      assert all[..|all| - 1] == ops;
      TidyRunsKeepBooks(ops);
      RemovedIsAway(After(ops), Registered(ops), l);
    } else {
      var front := more[..|more| - 1];
      assert all[..|all| - 1] == ops + [Remove(l)] + front;
      assert more[|more| - 1] in more;
      RemovedHearsNothing(ops, l, front);
      StaysAway(After(ops + [Remove(l)] + front), l, more[|more| - 1]);
    }
  }
}
