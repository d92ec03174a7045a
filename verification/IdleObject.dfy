/** The idle scheduler object, proved against `IdleScheduling`. */
module IdleObject {
  import opened IdleScheduling
  import opened IdleRuns

  datatype Event = Event(callback: Callback, listener: Listener)

  /** What `l` heard. */
  function Heard(log: seq<Event>, l: Listener): seq<Callback> {
    if log == [] then []
    else
      var last := log[|log| - 1];
      Heard(log[..|log| - 1], l) + (if last.listener == l then [last.callback] else [])
  }

  lemma HeardNext(log: seq<Event>, event: Event, l: Listener)
    ensures Heard(log + [event], l) == Heard(log, l) + (if event.listener == l then [event.callback] else [])
  {
  }

  /** Each of `who` has heard `callback` once since `before`, and nobody has heard anything else. */
  ghost predicate Called(before: seq<Event>, log: seq<Event>, callback: Callback, who: set<Listener>) {
    forall l :: Heard(log, l) == Heard(before, l) + (if l in who then [callback] else [])
  }

  lemma CalledNext(before: seq<Event>, log: seq<Event>, callback: Callback, who: set<Listener>, l: Listener)
    requires Called(before, log, callback, who) && l !in who
    ensures Called(before, log + [Event(callback, l)], callback, who + {l})
  {
    forall m {
      HeardNext(log, Event(callback, l), m);
    }
  }

  lemma LeftToDo(all: set<Listener>, todo: set<Listener>, l: Listener)
    requires l in todo && todo <= all
    ensures all - (todo - {l}) == (all - todo) + {l}
  {
  }

  lemma OwnCohortsNext(done: set<Listener>, l: Listener)
    ensures OwnCohorts(done + {l}) == OwnCohorts(done) + {Entry(l.timeToIdle, l)}
  {
  }

  type Cohorts = map<int, set<Listener>>

  function Entries(cohorts: Cohorts): set<Entry> {
    set k, l | k in cohorts && l in cohorts[k] :: Entry(k, l)
  }

  predicate NoneEmpty(cohorts: Cohorts) {
    forall k :: k in cohorts ==> cohorts[k] != {}
  }

  lemma EntriesMember(cohorts: Cohorts, e: Entry)
    ensures e in Entries(cohorts) <==> e.key in cohorts && e.listener in cohorts[e.key]
  {
  }

  /** The first cohort of the map is the one with the first key. */
  lemma FirstCohort(cohorts: Cohorts)
    requires NoneEmpty(cohorts) && cohorts != map[]
    ensures exists k :: k in cohorts.Keys
    ensures Entries(cohorts) != {} && MinOf(cohorts.Keys) == FirstKey(Entries(cohorts))
    ensures cohorts[MinOf(cohorts.Keys)] == Cohort(Entries(cohorts), MinOf(cohorts.Keys))
    ensures Entries(cohorts - {MinOf(cohorts.Keys)}) == Later(Entries(cohorts), MinOf(cohorts.Keys))
  {
    if !exists k :: k in cohorts.Keys {
      assert false;
    }
    var k := MinOf(cohorts.Keys);
    var l :| l in cohorts[k];
    EntriesMember(cohorts, Entry(k, l));
    forall m
      ensures m in cohorts[k] <==> m in Cohort(Entries(cohorts), k)
    {
      EntriesMember(cohorts, Entry(k, m));
    }
  }

  lemma NoCohorts(cohorts: Cohorts)
    requires NoneEmpty(cohorts)
    ensures cohorts == map[] <==> Entries(cohorts) == {}
  {
    if cohorts != map[] {
      FirstCohort(cohorts);
    }
  }

  class Idle {
    var waiting: Cohorts
    var served: set<Listener>
    var splice: set<Listener>
    var inhibitCount: nat
    var countdown: Countdown
    var countdownSum: int
    /** The callbacks made so far. */
    var log: seq<Event>

    ghost function Abstract(): State
      reads this
    {
      State(Entries(waiting), served, splice, inhibitCount, countdown, countdownSum)
    }

    ghost predicate Valid()
      reads this
    {
      NoneEmpty(waiting) && TimerInvariant(Abstract())
    }

    constructor ()
      ensures Valid() && Abstract() == INITIAL && log == []
    {
      waiting, served, splice, inhibitCount := map[], {}, {}, 0;
      countdown, countdownSum, log := Countdown(false, 0, 0), 0, [];
    }

    method ListenerMapSetInsert(l: Listener, key: int)
      requires NoneEmpty(waiting)
      modifies this`waiting
      ensures NoneEmpty(waiting) && Entries(waiting) == Entries(old(waiting)) + {Entry(key, l)}
    {
      if key in waiting {
        waiting := waiting[key := waiting[key] + {l}];
      } else {
        waiting := waiting[key := {l}];
      }
    }

    method ListenerMapSetRemove(l: Listener)
      requires NoneEmpty(waiting)
      modifies this`waiting
      ensures NoneEmpty(waiting) && Entries(waiting) == Entries(old(waiting)) - FirstEntry(Entries(old(waiting)), l)
    {
      var keys := waiting.Keys;
      while exists k :: k in keys
        invariant waiting == old(waiting) && keys <= waiting.Keys
        invariant forall k, j :: k in keys && j in waiting && j !in keys ==> j < k
        invariant forall k :: k in waiting && k !in keys ==> l !in waiting[k]
        decreases keys
      {
        var time := MinOf(keys);
        if l in waiting[time] {
          FirstEntryAt(waiting, l, time);
          EraseEntry(waiting, l, time);
          waiting := waiting[time := waiting[time] - {l}];
          if waiting[time] == {} {
            waiting := waiting - {time};
          }
          return;
        }
        keys := keys - {time};
      }
      assert EntriesOf(Entries(waiting), l) == {};
    }

    method UnsetCountdown()
      requires NoneEmpty(waiting)
      modifies this
      ensures NoneEmpty(waiting) && Abstract() == IdleScheduling.UnsetCountdown(old(Abstract())) && log == old(log)
    {
      var todo := splice;
      ghost var before := Entries(waiting);
      while todo != {}
        invariant todo <= splice && NoneEmpty(waiting)
        invariant Entries(waiting) == Unspliced(before, splice - todo)
        invariant unchanged(this`served, this`splice, this`inhibitCount, this`countdown, this`countdownSum, this`log)
        decreases todo
      {
        var l :| l in todo;
        UnspliceNext(before, splice - todo, l);
        ListenerMapSetRemove(l);
        ListenerMapSetInsert(l, l.timeToIdle);
        LeftToDo(splice, todo, l);
        todo := todo - {l};
      }
      assert splice - todo == splice;
      splice := {};
      countdownSum := 0;
      countdown := countdown.(active := false);
    }

    method AddListener(l: Listener)
      requires Valid()
      modifies this
      ensures Valid() && Abstract() == IdleScheduling.AddListener(old(Abstract()), l) && log == old(log)
    {
      TimerInvariantKept(Abstract(), Add(l));
      if !countdown.active {
        ListenerMapSetInsert(l, l.timeToIdle);
        if inhibitCount == 0 {
          countdown := Countdown(true, l.timeToIdle, l.timeToIdle);
        }
        return;
      }
      assert inhibitCount == 0;
      var residue := countdown.remaining;
      var elapsed := countdown.interval - residue;
      if residue >= l.timeToIdle {
        ListenerMapSetInsert(l, l.timeToIdle);
        countdownSum := countdownSum + elapsed;
        countdown := Countdown(true, l.timeToIdle, l.timeToIdle);
      } else {
        var waitTime := l.timeToIdle + elapsed;
        ListenerMapSetInsert(l, waitTime);
        splice := splice + {l};
      }
    }

    method RemoveListener(l: Listener)
      requires Valid()
      modifies this
      ensures Valid() && Abstract() == IdleScheduling.RemoveListener(old(Abstract()), l) && log == old(log)
    {
      TimerInvariantKept(Abstract(), Remove(l));
      if l in served {
        served := served - {l};
        return;
      }
      ListenerMapSetRemove(l);
      NoCohorts(waiting);
      if waiting == map[] {
        countdown := countdown.(active := false);
      }
    }

    /** Calls back the served listeners and lets them wait again. */
    method ResumeServed()
      requires NoneEmpty(waiting)
      modifies this`waiting, this`served, this`log
      ensures NoneEmpty(waiting) && served == {}
      ensures Entries(waiting) == Entries(old(waiting)) + OwnCohorts(old(served))
      ensures Called(old(log), log, Resume, old(served))
    {
      var todo := served;
      while todo != {}
        invariant todo <= served == old(served) && NoneEmpty(waiting)
        invariant Entries(waiting) == Entries(old(waiting)) + OwnCohorts(served - todo)
        invariant Called(old(log), log, Resume, served - todo)
        decreases todo
      {
        var l :| l in todo;
        CalledNext(old(log), log, Resume, served - todo, l);
        OwnCohortsNext(served - todo, l);
        LeftToDo(served, todo, l);
        log := log + [Event(Resume, l)];
        ListenerMapSetInsert(l, l.timeToIdle);
        todo := todo - {l};
      }
      assert served - todo == served;
      served := {};
    }

    method ReportActivity()
      requires Valid()
      modifies this
      ensures Valid() && Abstract() == IdleScheduling.ReportActivity(old(Abstract()))
      ensures Called(old(log), log, Resume, ResumedBy(old(Abstract()), Activity))
    {
      TimerInvariantKept(Abstract(), Activity);
      ResumeServed();
      UnsetCountdown();
      NoCohorts(waiting);
      if waiting != map[] && inhibitCount == 0 {
        FirstCohort(waiting);
        countdown := Countdown(true, MinOf(waiting.Keys), MinOf(waiting.Keys));
      }
    }

    /** Calls back the first cohort and counts it as served. */
    method IdleNextCohort()
      requires NoneEmpty(waiting) && Entries(waiting) != {}
      modifies this`waiting, this`served, this`log
      ensures NoneEmpty(waiting)
      ensures var key := FirstKey(Entries(old(waiting)));
              && Entries(waiting) == Later(Entries(old(waiting)), key)
              && served == old(served) + Cohort(Entries(old(waiting)), key)
      ensures Called(old(log), log, Callback.Idle, Cohort(Entries(old(waiting)), FirstKey(Entries(old(waiting)))))
    {
      NoCohorts(waiting);
      FirstCohort(waiting);
      var cohort := waiting[MinOf(waiting.Keys)];
      var todo := cohort;
      while todo != {}
        invariant todo <= cohort
        invariant unchanged(this`waiting, this`served)
        invariant Called(old(log), log, Callback.Idle, cohort - todo)
        decreases todo
      {
        var l :| l in todo;
        CalledNext(old(log), log, Callback.Idle, cohort - todo, l);
        LeftToDo(cohort, todo, l);
        log := log + [Event(Callback.Idle, l)];
        todo := todo - {l};
      }
      assert cohort - todo == cohort;
      served := served + cohort;
      waiting := waiting - {MinOf(waiting.Keys)};
    }

    /** The countdown has run out. */
    method HandleCountdown()
      requires Valid() && countdown.active && countdown.remaining == 0
      modifies this
      ensures Valid() && Abstract() == IdleScheduling.HandleCountdown(old(Abstract()))
      ensures Called(old(log), log, Callback.Idle, IdledBy(old(Abstract()), Timeout))
    {
      hide TimerInvariant, NoneEmpty, Called, Entries, Cohort, Later, FirstKey, IdledBy;
      TimeoutIsSafe(Abstract());
      countdown := countdown.(active := false);
      assert inhibitCount == 0;
      IdleNextCohort();
      NoCohorts(waiting);
      if waiting == map[] {
        countdownSum := 0;
        return;
      }
      FirstCohort(waiting);
      var lastInterval := countdown.interval;
      countdownSum := countdownSum + lastInterval;
      var waitTime := MinOf(waiting.Keys) - lastInterval;
      assert waitTime > 0;
      countdown := Countdown(true, waitTime, waitTime);
    }

    method Inhibit()
      requires Valid()
      modifies this
      ensures Valid() && Abstract() == IdleScheduling.Inhibit(old(Abstract())) && log == old(log)
    {
      TimerInvariantKept(Abstract(), InhibitIdle);
      inhibitCount := inhibitCount + 1;
      if inhibitCount == 1 {
        UnsetCountdown();
      }
    }

    method Uninhibit()
      requires Valid() && inhibitCount > 0
      modifies this
      ensures Valid() && Abstract() == IdleScheduling.Uninhibit(old(Abstract())) && log == old(log)
    {
      TimerInvariantKept(Abstract(), UninhibitIdle);
      assert !countdown.active;
      inhibitCount := inhibitCount - 1;
      if inhibitCount > 0 {
        return;
      }
      assert inhibitCount == 0;
      NoCohorts(waiting);
      if waiting != map[] {
        FirstCohort(waiting);
        countdown := Countdown(true, MinOf(waiting.Keys), MinOf(waiting.Keys));
      }
    }
  }

  /** What handling the countdown relies on. */
  lemma TimeoutIsSafe(s: State)
    requires TimerInvariant(s) && s.countdown.active && s.countdown.remaining == 0
    ensures s.inhibitCount == 0 && s.waiting != {}
    ensures TimerInvariant(IdleScheduling.HandleCountdown(s))
    ensures IdledBy(s, Timeout) == Cohort(s.waiting, FirstKey(s.waiting))
    ensures var later := Later(s.waiting, FirstKey(s.waiting));
            later != {} ==> FirstKey(later) - s.countdown.interval > 0
  {
    TimerInvariantKept(s, Timeout);
    NoAssertionFails(s, Timeout);
  }

  lemma EraseEntry(cohorts: Cohorts, l: Listener, key: int)
    requires NoneEmpty(cohorts) && key in cohorts && l in cohorts[key]
    ensures var left := cohorts[key := cohorts[key] - {l}];
            var cohorts' := if left[key] == {} then left - {key} else left;
            NoneEmpty(cohorts') && Entries(cohorts') == Entries(cohorts) - {Entry(key, l)}
  {
  }

  lemma FirstEntryAt(cohorts: Cohorts, l: Listener, key: int)
    requires key in cohorts && l in cohorts[key]
    requires forall k :: k in cohorts && k < key ==> l !in cohorts[k]
    ensures FirstEntry(Entries(cohorts), l) == {Entry(key, l)}
  {
  }

  /** Unsplicing one listener does not touch the entries of another. */
  lemma UnspliceNext(waiting: set<Entry>, done: set<Listener>, l: Listener)
    requires l !in done
    ensures Unspliced(waiting, done + {l}) ==
            Unspliced(waiting, done) - FirstEntry(Unspliced(waiting, done), l) + {Entry(l.timeToIdle, l)}
  {
  }
}
