/** The subspace chains as an index over the most-recently-used chain. */
module FocusIndex {
  import opened Sequences
  import opened FocusChains

  /** The subspaces each window was on when its chains were updated last. */
  type Places = map<Window, set<Subspace>>

  predicate Lives(places: Places, w: Window, s: Subspace) {
    w in places && (places[w] == {} || s in places[w])
  }

  function Filter(c: Chain, places: Places, s: Subspace): Chain {
    if c == [] then []
    else Filter(c[..|c| - 1], places, s) + (if Lives(places, c[|c| - 1], s) then [c[|c| - 1]] else [])
  }

  /** Every subspace chain is the most-recently-used chain, filtered to the subspace. */
  ghost predicate Faithful(m: Chains, places: Places) {
    NoDup(m.latestUse) && forall s :: s in m.subspaces ==> m.subspaces[s] == Filter(m.latestUse, places, s)
  }

  /** The windows used more recently than `w`. */
  function After(c: Chain, w: Window): Chain
    requires w in c
  {
    if c[|c| - 1] == w then [] else After(c[..|c| - 1], w) + [c[|c| - 1]]
  }

  /** Whether `w`, new to the chain of `s`, is put at the place it has in the most-recently-used
    * chain: behind it there are no windows of `s`, or just the active one it is put behind. */
  predicate JoinsInOrder(m: Chains, places: Places, w: Window, s: Subspace)
    requires s in m.subspaces
  {
    var c, latest := m.subspaces[s], m.latestUse;
    var behind := BehindActive(c, w, m.active);
    if w in latest then Filter(After(latest, w), places, s) == if behind then [m.active.value] else []
    else behind ==> latest != [] && latest[|latest| - 1] == m.active.value
  }

  /** When an update keeps the chain of `s` in step with the most-recently-used chain. */
  predicate KeepsIndexAt(m: Chains, places: Places, w: Window, info: Info, change: Change, s: Subspace)
    requires s in m.subspaces
  {
    var c := m.subspaces[s];
    if !info.On(s) then true
    else if change.Update? then w in c || JoinsInOrder(m, places, w, s)
    else if !info.OnAll() || s == m.current then true
    else if change.MakeFirst? then
      if w in c then c[|c| - 1] == w else !BehindActive(c, w, m.active)
    else
      if w in c then c[0] == w else c == [] || (|c| == 1 && BehindActive(c, w, m.active))
  }

  // ---------------------------------------------------------------------------------------------

  lemma {:induction false} FilterMember(c: Chain, places: Places, s: Subspace, w: Window)
    ensures w in Filter(c, places, s) <==> w in c && Lives(places, w, s)
  {
    if c != [] {
      FilterMember(c[..|c| - 1], places, s, w);
      assert c == c[..|c| - 1] + [c[|c| - 1]];
    }
  }

  lemma {:induction false} FilterConcat(a: Chain, b: Chain, places: Places, s: Subspace)
    ensures Filter(a + b, places, s) == Filter(a, places, s) + Filter(b, places, s)
  {
    if b == [] {
      assert a + b == a;
      assert Filter(a, places, s) + Filter(b, places, s) == Filter(a, places, s);
    } else {
      var front, last := b[..|b| - 1], b[|b| - 1];
      var kept := if Lives(places, last, s) then [last] else [];
      FilterConcat(a, front, places, s);
      assert (a + b)[..|a + b| - 1] == a + front && (a + b)[|a + b| - 1] == last;
      assert Filter(a, places, s) + Filter(front, places, s) + kept ==
             Filter(a, places, s) + (Filter(front, places, s) + kept);
    }
  }

  lemma FilterOne(w: Window, places: Places, s: Subspace)
    ensures Filter([w], places, s) == if Lives(places, w, s) then [w] else []
  {
  }

  /** Where `w` lives does not matter to the other windows. */
  lemma {:induction false} FilterWithout(c: Chain, places: Places, w: Window, where: set<Subspace>, s: Subspace)
    ensures RemoveAll(Filter(c, places[w := where], s), w) == Filter(RemoveAll(c, w), places, s)
  {
    if c != [] {
      var front, last := c[..|c| - 1], c[|c| - 1];
      FilterWithout(front, places, w, where, s);
      hide Filter, RemoveAll;
      assert c == front + [last];
      FilterConcat(front, [last], places[w := where], s);
      RemoveAllConcat(Filter(front, places[w := where], s), Filter([last], places[w := where], s), w);
      RemoveAllConcat(front, [last], w);
      FilterConcat(RemoveAll(front, w), RemoveAll([last], w), places, s);
      OneWithout(last, places, w, where, s);
    }
  }

  lemma OneWithout(v: Window, places: Places, w: Window, where: set<Subspace>, s: Subspace)
    ensures RemoveAll(Filter([v], places[w := where], s), w) == Filter(RemoveAll([v], w), places, s)
  {
  }

  lemma FilterAbsent(c: Chain, places: Places, w: Window, where: set<Subspace>, s: Subspace)
    requires w !in c
    ensures Filter(c, places[w := where], s) == Filter(c, places, s)
  {
    FilterWithout(c, places, w, where, s);
    RemoveAbsent(c, w);
    FilterMember(c, places[w := where], s, w);
    RemoveAbsent(Filter(c, places[w := where], s), w);
  }

  lemma FilterRemoved(c: Chain, places: Places, w: Window, s: Subspace)
    ensures RemoveAll(Filter(c, places, s), w) == Filter(RemoveAll(c, w), places, s)
  {
    if w in places {
      assert places[w := places[w]] == places;
      FilterWithout(c, places, w, places[w], s);
    } else {
      var elsewhere := places[w := {s + 1}];
      FilterWithout(c, places, w, {s + 1}, s);
      FilterMember(c, elsewhere, s, w);
      FilterMember(c, places, s, w);
      RemoveAbsent(Filter(c, elsewhere, s), w);
      RemoveAbsent(Filter(c, places, s), w);
      FilterSame(c, places, elsewhere, s);
    }
  }

  lemma {:induction false} FilterSame(c: Chain, places: Places, places': Places, s: Subspace)
    requires forall v :: v in c ==> (Lives(places, v, s) <==> Lives(places', v, s))
    ensures Filter(c, places, s) == Filter(c, places', s)
  {
    if c != [] {
      assert forall v :: v in c[..|c| - 1] ==> v in c;
      FilterSame(c[..|c| - 1], places, places', s);
    }
  }

  lemma {:induction false} FilterNoDup(c: Chain, places: Places, s: Subspace)
    requires NoDup(c)
    ensures NoDup(Filter(c, places, s))
  {
    if c != [] {
      FilterNoDup(c[..|c| - 1], places, s);
      FilterMember(c[..|c| - 1], places, s, c[|c| - 1]);
    }
  }

  lemma {:induction false} AfterSplit(before: Chain, w: Window, after: Chain)
    requires w !in after
    ensures After(before + [w] + after, w) == after
  {
    var c := before + [w] + after;
    if after != [] {
      assert c[..|c| - 1] == before + [w] + after[..|after| - 1];
      AfterSplit(before, w, after[..|after| - 1]);
    }
  }

  /** There is only one way to split a chain at a window it holds once. */
  lemma SplitUnique(a: Chain, b: Chain, a': Chain, b': Chain, w: Window)
    requires a + [w] + b == a' + [w] + b'
    requires w !in a' && w !in b'
    ensures a == a' && b == b'
  {
    var c := a' + [w] + b';
    assert forall i :: 0 <= i < |c| && c[i] == w ==> i == |a'|;
    assert (a + [w] + b)[|a|] == w;
    assert a == c[..|a|] && b == c[|a| + 1..];
    assert a' == c[..|a'|] && b' == c[|a'| + 1..];
  }

  /** Inserting `w` into `a + b` puts it between `a` and `b` exactly when `b` is what it goes behind. */
  lemma InsertMatches(a: Chain, b: Chain, w: Window, active: Option<Window>)
    requires w !in a && w !in b
    ensures Insert(a + b, w, active) == a + [w] + b <==>
            b == if BehindActive(a + b, w, active) then [active.value] else []
  {
    var before, after := InsertSplits(a + b, w, active);
    if b == after {
      SameFront(a, before, b);
    }
    if Insert(a + b, w, active) == a + [w] + b {
      SplitUnique(before, after, a, b, w);
    }
  }

  lemma SameFront(a: Chain, a': Chain, b: Chain)
    requires a + b == a' + b
    ensures a == a'
  {
    assert |a| == |a + b| - |b| == |a'|;
    assert a == (a + b)[..|a|] && a' == (a' + b)[..|a|];
  }

  lemma FilterAround(before: Chain, w: Window, after: Chain, places: Places, s: Subspace)
    ensures Filter(before + [w] + after, places, s) ==
            Filter(before, places, s) + (if Lives(places, w, s) then [w] else []) + Filter(after, places, s)
  {
    FilterConcat(before + [w], after, places, s);
    FilterConcat(before, [w], places, s);
    FilterOne(w, places, s);
  }

  lemma FilterSplit(before: Chain, w: Window, after: Chain, places: Places, where: set<Subspace>, s: Subspace)
    requires w !in before && w !in after
    ensures var a, b := Filter(before, places, s), Filter(after, places, s);
            && w !in a && w !in b
            && Filter(before + after, places, s) == a + b
            && Filter(before + [w] + after, places, s) == a + (if Lives(places, w, s) then [w] else []) + b
            && (where == {} || s in where ==>
                  Filter(before + [w] + after, places[w := where], s) == a + [w] + b)
  {
    FilterMember(before, places, s, w);
    FilterMember(after, places, s, w);
    FilterConcat(before, after, places, s);
    FilterAround(before, w, after, places, s);
    FilterAround(before, w, after, places[w := where], s);
    FilterAbsent(before, places, w, where, s);
    FilterAbsent(after, places, w, where, s);
  }

  /** A plain update, on a subspace the window is on and was on before. */
  lemma PlainUpdateInPlace(m: Chains, places: Places, w: Window, info: Info, s: Subspace)
    requires Faithful(m, places) && s in m.subspaces && info.On(s)
    requires w in m.subspaces[s]
    ensures m.subspaces[s] == Filter(Insert(m.latestUse, w, m.active), places[w := info.subspaces], s)
  {
    FilterMember(m.latestUse, places, s, w);
    var before, after := Split(m.latestUse, w);
    FilterSplit(before, w, after, places, info.subspaces, s);
  }

  /** A plain update, on a subspace the window joins. */
  lemma PlainUpdateJoins(m: Chains, places: Places, w: Window, info: Info, s: Subspace)
    requires Faithful(m, places) && s in m.subspaces && info.On(s)
    requires w !in m.subspaces[s]
    ensures Insert(m.subspaces[s], w, m.active) ==
              Filter(Insert(m.latestUse, w, m.active), places[w := info.subspaces], s) <==>
            JoinsInOrder(m, places, w, s)
  {
    FilterMember(m.latestUse, places, s, w);
    if w in m.latestUse {
      var before, after := Split(m.latestUse, w);
      AfterSplit(before, w, after);
      FilterSplit(before, w, after, places, info.subspaces, s);
      assert m.subspaces[s] == Filter(before, places, s) + Filter(after, places, s);
      JoinsBetween(m.subspaces[s], places, w, info, s, before, after, m.active);
    } else {
      var before, after := InsertSplits(m.latestUse, w, m.active);
      FilterSplit(before, w, after, places, info.subspaces, s);
      JoinsBetween(m.subspaces[s], places, w, info, s, before, after, m.active);
      JoinsAnew(m, places, w, s, before, after);
    }
  }

  lemma JoinsBetween(c: Chain, places: Places, w: Window, info: Info, s: Subspace, before: Chain, after: Chain,
      active: Option<Window>)
    requires info.On(s) && w !in before && w !in after
    requires c == Filter(before, places, s) + Filter(after, places, s)
    ensures Insert(c, w, active) == Filter(before + [w] + after, places[w := info.subspaces], s) <==>
            Filter(after, places, s) == if BehindActive(c, w, active) then [active.value] else []
  {
    FilterSplit(before, w, after, places, info.subspaces, s);
    InsertMatches(Filter(before, places, s), Filter(after, places, s), w, active);
  }

  lemma JoinsAnew(m: Chains, places: Places, w: Window, s: Subspace, before: Chain, after: Chain)
    requires s in m.subspaces && w !in m.latestUse
    requires m.subspaces[s] == Filter(before, places, s) + Filter(after, places, s)
    requires m.latestUse == before + after
    requires after == if BehindActive(m.latestUse, w, m.active) then [m.active.value] else []
    requires NoDup(m.latestUse)
    ensures JoinsInOrder(m, places, w, s) <==>
            Filter(after, places, s) == if BehindActive(m.subspaces[s], w, m.active) then [m.active.value] else []
  {
    var c := m.subspaces[s];
    if after != [] {
      var active := m.active.value;
      FilterOne(active, places, s);
      if !Lives(places, active, s) {
        FilterMember(before, places, s, active);
        assert active !in c;
      }
    } else {
      assert Filter(after, places, s) == [];
    }
  }

  /** A make-first or make-last on a subspace other than the current one, for a window on all. */
  lemma InsertForAllAt(c: Chain, w: Window, active: Option<Window>)
    requires NoDup(c)
    ensures Insert(c, w, active) == RemoveAll(c, w) + [w] <==>
            if w in c then c[|c| - 1] == w else !BehindActive(c, w, active)
    ensures Insert(c, w, active) == [w] + RemoveAll(c, w) <==>
            if w in c then c[0] == w else c == [] || (|c| == 1 && BehindActive(c, w, active))
  {
    var before, after;
    if w in c {
      before, after := Split(c, w);
      RemoveSplit(before, w, after);
    } else {
      before, after := InsertSplits(c, w, active);
      RemoveAbsent(c, w);
    }
    SplitAtEnds(before, w, after);
  }

  lemma SplitAtEnds(before: Chain, w: Window, after: Chain)
    requires w !in before && w !in after
    ensures var c := before + [w] + after;
            && (c == before + after + [w] <==> after == []) && (c[|c| - 1] == w <==> after == [])
            && (c == [w] + (before + after) <==> before == []) && (c[0] == w <==> before == [])
  {
    var c, rest := before + [w] + after, before + after;
    assert rest + [w] == rest + [w] + [];
    assert [w] + rest == [] + [w] + rest;
    if c == rest + [w] + [] {
      SplitUnique(rest, [], before, after, w);
    }
    if c == [] + [w] + rest {
      SplitUnique([], rest, before, after, w);
    }
    assert after != [] ==> c[|c| - 1] == after[|after| - 1];
    assert before != [] ==> c[0] == before[0];
  }

  lemma UpdateAt(m: Chains, places: Places, w: Window, info: Info, change: Change, s: Subspace)
    requires Faithful(m, places) && s in m.subspaces
    ensures UpdatedSubspace(m, w, info, change, s) ==
              Filter(UpdateIn(m.latestUse, w, change, m.active), places[w := info.subspaces], s) <==>
            KeepsIndexAt(m, places, w, info, change, s)
  {
    if !info.On(s) {
      UpdateElsewhere(m, places, w, info, change, s);
    } else if change.Update? {
      if w in m.subspaces[s] {
        PlainUpdateInPlace(m, places, w, info, s);
      } else {
        PlainUpdateJoins(m, places, w, info, s);
      }
    } else {
      UpdateToEnd(m, places, w, info, change, s);
    }
  }

  lemma UpdateToEnd(m: Chains, places: Places, w: Window, info: Info, change: Change, s: Subspace)
    requires Faithful(m, places) && s in m.subspaces && info.On(s) && !change.Update?
    ensures UpdatedSubspace(m, w, info, change, s) ==
              Filter(UpdateIn(m.latestUse, w, change, m.active), places[w := info.subspaces], s) <==>
            KeepsIndexAt(m, places, w, info, change, s)
  {
    FilterToEnd(m.latestUse, places, w, info, s);
    FilterNoDup(m.latestUse, places, s);
    if info.OnAll() && s != m.current {
      InsertForAllAt(m.subspaces[s], w, m.active);
      assert UpdatedSubspace(m, w, info, change, s) == Insert(m.subspaces[s], w, m.active);
    } else {
      assert UpdatedSubspace(m, w, info, change, s) == UpdateIn(m.subspaces[s], w, change, m.active);
    }
  }

  lemma UpdateElsewhere(m: Chains, places: Places, w: Window, info: Info, change: Change, s: Subspace)
    requires Faithful(m, places) && s in m.subspaces && !info.On(s)
    ensures RemoveAll(m.subspaces[s], w) ==
              Filter(UpdateIn(m.latestUse, w, change, m.active), places[w := info.subspaces], s)
  {
    var latest', places' := UpdateIn(m.latestUse, w, change, m.active), places[w := info.subspaces];
    FilterRemoved(m.latestUse, places, w, s);
    FilterWithout(latest', places, w, info.subspaces, s);
    UpdateTouchesOnly(m.latestUse, w, change, m.active);
    FilterMember(latest', places', s, w);
    RemoveAbsent(Filter(latest', places', s), w);
  }

  lemma FilterToEnd(latest: Chain, places: Places, w: Window, info: Info, s: Subspace)
    requires info.On(s)
    ensures var rest, kept := RemoveAll(latest, w), RemoveAll(Filter(latest, places, s), w);
            && Filter(rest + [w], places[w := info.subspaces], s) == kept + [w]
            && Filter([w] + rest, places[w := info.subspaces], s) == [w] + kept
  {
    var rest, places' := RemoveAll(latest, w), places[w := info.subspaces];
    FilterRemoved(latest, places, w, s);
    RemoveAllMember(latest, w, w);
    FilterAbsent(rest, places, w, info.subspaces, s);
    FilterOne(w, places', s);
    FilterConcat(rest, [w], places', s);
    FilterConcat([w], rest, places', s);
  }

  /** Exactly when an update keeps the index faithful. Updates that make a window first or last do,
    * unless the window is on all subspaces; for the others the guard says what to check before. */
  lemma UpdateKeepsIndexExactly(m: Chains, places: Places, w: Window, info: Info, change: Change)
    requires Faithful(m, places) && info.wantsTabFocus
    ensures Faithful(UpdateWindow(m, w, info, change), places[w := info.subspaces]) <==>
            forall s :: s in m.subspaces ==> KeepsIndexAt(m, places, w, info, change, s)
  {
    var m', places' := UpdateWindow(m, w, info, change), places[w := info.subspaces];
    UpdateTouchesOnly(m.latestUse, w, change, m.active);
    forall s | s in m.subspaces
      ensures m'.subspaces[s] == Filter(m'.latestUse, places', s) <==> KeepsIndexAt(m, places, w, info, change, s)
    {
      UpdateAt(m, places, w, info, change, s);
    }
  }

  lemma UpdateBreaksIndex(m: Chains, places: Places, w: Window, info: Info, s: Subspace)
    requires Faithful(m, places) && info.wantsTabFocus && s in m.subspaces
    requires info.On(s) && w !in m.subspaces[s] && !JoinsInOrder(m, places, w, s)
    ensures !Faithful(UpdateWindow(m, w, info, Update), places[w := info.subspaces])
  {
    UpdateKeepsIndexExactly(m, places, w, info, Update);
    assert !KeepsIndexAt(m, places, w, info, Update, s);
  }

  // ---------------------------------------------------------------------------------------------
  // Runs

  datatype Op =
    | Updated(window: Window, info: Info, change: Change)
    | Removed(window: Window)
    | Activated(active: Option<Window>)
    | Switched(current: Subspace)
    | Resized(previous: nat, next: nat)

  function Apply(m: Chains, op: Op): Chains {
    match op
    case Updated(w, info, change) => UpdateWindow(m, w, info, change)
    case Removed(w) => RemoveWindow(m, w)
    case Activated(active) => m.(active := active)
    case Switched(current) => m.(current := current)
    case Resized(previous, next) => Resize(m, previous, next)
  }

  function Placed(places: Places, op: Op): Places {
    if op.Updated? && op.info.wantsTabFocus then places[op.window := op.info.subspaces] else places
  }

  predicate KeepsIndex(m: Chains, places: Places, op: Op) {
    match op
    case Updated(w, info, change) =>
      info.wantsTabFocus ==> forall s :: s in m.subspaces ==> KeepsIndexAt(m, places, w, info, change, s)
    case Resized(previous, next) =>
      forall s :: s in Numbers(previous, next) && s !in m.subspaces && s !in Numbers(next, previous) ==>
        forall w :: w in m.latestUse ==> !Lives(places, w, s)
    case _ => true
  }

  lemma RemoveKeepsIndex(m: Chains, places: Places, w: Window)
    requires Faithful(m, places)
    ensures Faithful(RemoveWindow(m, w), places)
  {
    RemoveAllNoDup(m.latestUse, w);
    forall s | s in m.subspaces
      ensures RemoveAll(m.subspaces[s], w) == Filter(RemoveAll(m.latestUse, w), places, s)
    {
      FilterRemoved(m.latestUse, places, w, s);
    }
  }

  lemma ResizeKeepsIndexExactly(m: Chains, places: Places, previous: nat, next: nat)
    requires Faithful(m, places)
    ensures Faithful(Resize(m, previous, next), places) <==> KeepsIndex(m, places, Resized(previous, next))
  {
    var m' := Resize(m, previous, next);
    forall s | s in m'.subspaces && s !in m.subspaces
      ensures m'.subspaces[s] == Filter(m.latestUse, places, s) <==>
              forall w :: w in m.latestUse ==> !Lives(places, w, s)
    {
      forall w {
        FilterMember(m.latestUse, places, s, w);
      }
      if Filter(m.latestUse, places, s) != [] {
        assert Filter(m.latestUse, places, s)[0] in Filter(m.latestUse, places, s);
      }
    }
  }

  lemma StepKeepsIndexExactly(m: Chains, places: Places, op: Op)
    requires Faithful(m, places)
    ensures Faithful(Apply(m, op), Placed(places, op)) <==> KeepsIndex(m, places, op)
  {
    match op
    case Updated(w, info, change) =>
      if info.wantsTabFocus {
        UpdateKeepsIndexExactly(m, places, w, info, change);
      } else {
        RemoveKeepsIndex(m, places, w);
      }
    case Removed(w) => RemoveKeepsIndex(m, places, w);
    case Activated(_) =>
    case Switched(_) =>
    case Resized(previous, next) => ResizeKeepsIndexExactly(m, places, previous, next);
  }

  /** The chains and places after a run that starts with no window. */
  function Run(ops: seq<Op>, start: Chains): (Chains, Places) {
    if ops == [] then (start, map[])
    else
      var (m, places) := Run(ops[..|ops| - 1], start);
      (Apply(m, ops[|ops| - 1]), Placed(places, ops[|ops| - 1]))
  }

  predicate KeepsIndexThroughout(ops: seq<Op>, start: Chains) {
    ops != [] ==>
      && KeepsIndexThroughout(ops[..|ops| - 1], start)
      && var (m, places) := Run(ops[..|ops| - 1], start);
         KeepsIndex(m, places, ops[|ops| - 1])
  }

  predicate StartsEmpty(start: Chains) {
    start.latestUse == [] && forall s :: s in start.subspaces ==> start.subspaces[s] == []
  }

  ghost predicate IsFaithfulAfter(ops: seq<Op>, start: Chains, k: nat)
    requires k <= |ops|
  {
    Faithful(Run(ops[..k], start).0, Run(ops[..k], start).1)
  }

  /** Exactly the runs whose every step meets its guard are faithful all the way. */
  lemma {:induction false} IndexStaysFaithfulExactly(ops: seq<Op>, start: Chains)
    requires StartsEmpty(start)
    ensures KeepsIndexThroughout(ops, start) <==> forall k :: 0 <= k <= |ops| ==> IsFaithfulAfter(ops, start, k)
  {
    if ops == [] {
      assert ops[..0] == ops;
    } else {
      var front := ops[..|ops| - 1];
      IndexStaysFaithfulExactly(front, start);
      forall k | 0 <= k <= |front|
        ensures IsFaithfulAfter(ops, start, k) <==> IsFaithfulAfter(front, start, k)
      {
        assert front[..k] == ops[..k];
      }
      LastStepIsFaithfulExactly(ops, start);
    }
  }

  lemma LastStepIsFaithfulExactly(ops: seq<Op>, start: Chains)
    requires ops != []
    ensures IsFaithfulAfter(ops, start, |ops| - 1) ==>
              (IsFaithfulAfter(ops, start, |ops|) <==>
               KeepsIndex(Run(ops[..|ops| - 1], start).0, Run(ops[..|ops| - 1], start).1, ops[|ops| - 1]))
  {
    assert ops[..|ops|] == ops;
    if IsFaithfulAfter(ops, start, |ops| - 1) {
      var (m, places) := Run(ops[..|ops| - 1], start);
      StepKeepsIndexExactly(m, places, ops[|ops| - 1]);
    }
  }

  /** A guard that can be read off a call. No window is on all subspaces. A plain update of a listed
    * window leaves its place alone. A plain update of a new window finds the active window last in
    * the most-recently-used chain or not there at all. Created subspaces hold no listed window. */
  predicate IsOrderlyCall(m: Chains, places: Places, op: Op) {
    match op
    case Updated(w, info, change) =>
      info.wantsTabFocus ==>
        && !info.OnAll()
        && (change.Update? ==>
              if w in m.latestUse then w in places && places[w] == info.subspaces
              else m.active.None? || m.active.value !in m.latestUse ||
                   m.latestUse[|m.latestUse| - 1] == m.active.value)
    case Resized(previous, next) =>
      forall w, s :: w in m.latestUse && w in places && s in places[w] && s in Numbers(previous, next) ==>
        s in m.subspaces
    case _ => true
  }

  /** The windows listed in the most-recently-used chain have places, none of them everywhere. */
  predicate HavePlaces(m: Chains, places: Places) {
    forall w :: w in m.latestUse ==> w in places && places[w] != {}
  }

  lemma OrderlyCallKeepsIndex(m: Chains, places: Places, op: Op)
    requires Faithful(m, places) && HavePlaces(m, places) && IsOrderlyCall(m, places, op)
    ensures KeepsIndex(m, places, op)
    ensures HavePlaces(Apply(m, op), Placed(places, op))
  {
    if op.Updated? {
      UpdateIsExact(m, op.window, op.info, op.change);
      UpdateKeepsPlaces(m, places, op.window, op.info, op.change);
      if op.info.wantsTabFocus && op.change.Update? {
        forall s | s in m.subspaces && op.info.On(s)
          ensures op.window in m.subspaces[s] || JoinsInOrder(m, places, op.window, s)
        {
          FilterMember(m.latestUse, places, s, op.window);
          if m.active.Some? {
            FilterMember(m.latestUse, places, s, m.active.value);
          }
        }
      }
    } else if op.Removed? {
      RemoveAllSubset(m.latestUse, op.window);
    }
  }

  lemma UpdateKeepsPlaces(m: Chains, places: Places, w: Window, info: Info, change: Change)
    requires HavePlaces(m, places) && (info.wantsTabFocus ==> !info.OnAll())
    ensures HavePlaces(UpdateWindow(m, w, info, change), Placed(places, Updated(w, info, change)))
  {
    var latest := UpdateWindow(m, w, info, change).latestUse;
    UpdateIsExact(m, w, info, change);
    forall v | v in latest && v != w
      ensures v in m.latestUse
    {
      RemoveAllMember(latest, w, v);
      RemoveAllMember(m.latestUse, w, v);
    }
  }

  predicate IsOrderlyRun(ops: seq<Op>, start: Chains) {
    ops != [] ==>
      && IsOrderlyRun(ops[..|ops| - 1], start)
      && var (m, places) := Run(ops[..|ops| - 1], start);
         IsOrderlyCall(m, places, ops[|ops| - 1])
  }

  /** Over any run of orderly calls, with activations, subspace switches, removals and resizes, every
    * subspace chain is the most-recently-used chain filtered to the windows on that subspace. */
  lemma {:induction false} IndexStaysFaithful(ops: seq<Op>, start: Chains)
    requires StartsEmpty(start) && IsOrderlyRun(ops, start)
    ensures Faithful(Run(ops, start).0, Run(ops, start).1)
    ensures HavePlaces(Run(ops, start).0, Run(ops, start).1)
  {
    if ops != [] {
      IndexStaysFaithful(ops[..|ops| - 1], start);
      var (m, places) := Run(ops[..|ops| - 1], start);
      OrderlyCallKeepsIndex(m, places, ops[|ops| - 1]);
      StepKeepsIndexExactly(m, places, ops[|ops| - 1]);
    }
  }

  // ---------------------------------------------------------------------------------------------
  // Runs that lose the index

  lemma RunStep(ops: seq<Op>, op: Op, start: Chains) returns (next: seq<Op>)
    ensures next == ops + [op]
    ensures Run(next, start) == (Apply(Run(ops, start).0, op), Placed(Run(ops, start).1, op))
    ensures IsOrderlyRun(ops, start) && IsOrderlyCall(Run(ops, start).0, Run(ops, start).1, op) ==>
            IsOrderlyRun(next, start)
  {
    next := ops + [op];
    assert next[..|next| - 1] == ops;
  }

  lemma MakeNewFirst(m: Chains, w: Window, s: Subspace)
    requires s in m.subspaces && w !in m.latestUse
    requires forall t :: t in m.subspaces ==> w !in m.subspaces[t]
    ensures UpdateWindow(m, w, Info(true, {s}), MakeFirst) ==
            m.(latestUse := m.latestUse + [w], subspaces := m.subspaces[s := m.subspaces[s] + [w]])
  {
    RemoveAbsent(m.latestUse, w);
    forall t | t in m.subspaces
      ensures UpdatedSubspace(m, w, Info(true, {s}), MakeFirst, t) ==
              if t == s then m.subspaces[s] + [w] else m.subspaces[t]
    {
      RemoveAbsent(m.subspaces[t], w);
    }
  }

  /** One more window, never listed before, is made first. */
  lemma MakeNewFirstNext(ops: seq<Op>, start: Chains, w: Window, s: Subspace) returns (next: seq<Op>)
    requires IsOrderlyRun(ops, start) && s in Run(ops, start).0.subspaces && w !in Run(ops, start).0.latestUse
    requires forall t :: t in Run(ops, start).0.subspaces ==> w !in Run(ops, start).0.subspaces[t]
    ensures IsOrderlyRun(next, start)
    ensures var m := Run(ops, start).0;
            Run(next, start) ==
            (m.(latestUse := m.latestUse + [w], subspaces := m.subspaces[s := m.subspaces[s] + [w]]),
             Run(ops, start).1[w := {s}])
  {
    hide Run, UpdateWindow;
    MakeNewFirst(Run(ops, start).0, w, s);
    next := RunStep(ops, Updated(w, Info(true, {s}), MakeFirst), start);
  }

  lemma ActivateNext(ops: seq<Op>, start: Chains, w: Window) returns (next: seq<Op>)
    requires IsOrderlyRun(ops, start)
    ensures IsOrderlyRun(next, start)
    ensures Run(next, start) == (Run(ops, start).0.(active := Some(w)), Run(ops, start).1)
  {
    hide Run;
    next := RunStep(ops, Activated(Some(w)), start);
  }

  /** Two subspaces, and a first window on the first of them. */
  lemma TwoSubspaces() returns (ops: seq<Op>, start: Chains)
    ensures StartsEmpty(start) && IsOrderlyRun(ops, start)
    ensures Run(ops, start) == (Chains([1], map[1 := [1], 2 := []], None, 1), map[1 := {1}])
  {
    start, ops := Chains([], map[1 := [], 2 := []], None, 1), [];
    assert Run(ops, start) == (start, map[]);
    ops := MakeNewFirstNext(ops, start, 1, 1);
    var (m, places) := Run(ops, start);
    assert m.latestUse == [1] && m.subspaces[1] == [1];
    assert m.subspaces == map[1 := [1], 2 := []];
    assert places == map[1 := {1}];
  }

  /** Mapping a window breaks the index while some other window than the active one was made first
    * last: window 2, which is not active, is moved to another subspace, which makes it first; then
    * window 3 appears next to the active window 1. It goes behind window 1 in the chain of their
    * subspace, but becomes the most recent one in the most-recently-used chain. */
  lemma MappingAfterMoveBreaksIndex() returns (ops: seq<Op>, start: Chains)
    ensures StartsEmpty(start) && IsOrderlyRun(ops, start)
    ensures var (m, places) := Run(ops, start);
            && m == Chains([1, 2], map[1 := [1], 2 := [2]], Some(1), 1)
            && !Faithful(Apply(m, Updated(3, Info(true, {1}), Update)), places[3 := {1}])
  {
    hide Run, IsOrderlyRun, UpdateWindow, Faithful, HavePlaces;
    ops, start := TwoSubspaces();
    ops := ActivateNext(ops, start, 1);
    ops := MakeNewFirstNext(ops, start, 2, 2);
    IndexStaysFaithful(ops, start);
    var (m, places) := Run(ops, start);
    assert [1] + [2] == [1, 2] && [] + [2] == [2];
    assert m.subspaces == map[1 := [1], 2 := [2]];
    UpdateBreaksIndex(m, places, 3, Info(true, {1}), 1);
  }

  /** The active window at the end of the most-recently-used chain is not enough for a plain update
    * of a listed window that changed its subspace. (The program makes such a window first.) */
  lemma PlainMoveBreaksIndex() returns (ops: seq<Op>, start: Chains)
    ensures StartsEmpty(start) && IsOrderlyRun(ops, start)
    ensures var (m, places) := Run(ops, start);
            && m == Chains([1, 2, 3], map[1 := [1], 2 := [2, 3]], Some(3), 1)
            && !Faithful(Apply(m, Updated(1, Info(true, {2}), Update)), places[1 := {2}])
  {
    hide Run, IsOrderlyRun, UpdateWindow, Faithful, HavePlaces;
    ops, start := TwoSubspaces();
    ops := MakeNewFirstNext(ops, start, 2, 2);
    ops := MakeNewFirstNext(ops, start, 3, 2);
    ops := ActivateNext(ops, start, 3);
    IndexStaysFaithful(ops, start);
    var (m, places) := Run(ops, start);
    assert [1] + [2] + [3] == [1, 2, 3] && [] + [2] + [3] == [2, 3];
    assert m.subspaces == map[1 := [1], 2 := [2, 3]];
    WindowBehindIsListed(m, places);
    UpdateBreaksIndex(m, places, 1, Info(true, {2}), 2);
  }

  lemma WindowBehindIsListed(m: Chains, places: Places)
    requires m == Chains([1, 2, 3], map[1 := [1], 2 := [2, 3]], Some(3), 1)
    requires 2 in places && places[2] == {2}
    ensures !JoinsInOrder(m, places, 1, 2)
  {
    assert [] + [1] + [2, 3] == [1, 2, 3];
    AfterSplit([], 1, [2, 3]);
    FilterMember([2, 3], places, 2, 2);
    assert 2 in Filter([2, 3], places, 2);
  }
}
