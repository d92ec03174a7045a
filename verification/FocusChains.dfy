/** The focus chains as values: one most-recently-used chain and one chain per subspace, the most
  * recently used window last. */
module FocusChains {
  import opened Sequences

  type Window = nat
  type Subspace = nat
  type Chain = seq<Window>

  datatype Change = MakeFirst | MakeLast | Update

  /** What a chain update asks of a window; on no subspace in particular means on all of them. */
  datatype Info = Info(wantsTabFocus: bool, subspaces: set<Subspace>) {
    predicate OnAll() {
      subspaces == {}
    }

    predicate On(s: Subspace) {
      s in subspaces || OnAll()
    }
  }

  datatype Chains = Chains(
    latestUse: Chain,
    subspaces: map<Subspace, Chain>,
    active: Option<Window>,
    current: Subspace)

  /** Whether a window new to the chain goes directly behind the active window. */
  predicate BehindActive(c: Chain, w: Window, active: Option<Window>) {
    active.Some? && active.value != w && c != [] && c[|c| - 1] == active.value
  }

  function Insert(c: Chain, w: Window, active: Option<Window>): Chain {
    if w in c then c
    else if BehindActive(c, w, active) then c[..|c| - 1] + [w] + [c[|c| - 1]]
    else c + [w]
  }

  function UpdateIn(c: Chain, w: Window, change: Change, active: Option<Window>): Chain {
    match change
    case MakeFirst => RemoveAll(c, w) + [w]
    case MakeLast => [w] + RemoveAll(c, w)
    case Update => Insert(c, w, active)
  }

  function RemoveWindow(m: Chains, w: Window): Chains {
    m.(subspaces := map s | s in m.subspaces :: RemoveAll(m.subspaces[s], w),
       latestUse := RemoveAll(m.latestUse, w))
  }

  function UpdatedSubspace(m: Chains, w: Window, info: Info, change: Change, s: Subspace): Chain
    requires s in m.subspaces
  {
    var c := m.subspaces[s];
    if info.OnAll() then
      if s == m.current && !change.Update? then UpdateIn(c, w, change, m.active) else Insert(c, w, m.active)
    else if info.On(s) then UpdateIn(c, w, change, m.active)
    else RemoveAll(c, w)
  }

  function UpdateWindow(m: Chains, w: Window, info: Info, change: Change): Chains {
    if !info.wantsTabFocus then RemoveWindow(m, w)
    else
      m.(subspaces := map s | s in m.subspaces :: UpdatedSubspace(m, w, info, change, s),
         latestUse := UpdateIn(m.latestUse, w, change, m.active))
  }

  /** The subspaces above `low` up to `high`. */
  function Numbers(low: nat, high: nat): set<Subspace> {
    if high <= low then {} else Numbers(low, high - 1) + {high}
  }

  function Resize(m: Chains, previous: nat, next: nat): Chains {
    m.(subspaces :=
      map s | s in m.subspaces.Keys + Numbers(previous, next) && s !in Numbers(next, previous) ::
        if s in m.subspaces then m.subspaces[s] else [])
  }

  // ---------------------------------------------------------------------------------------------
  // Chains as sequences

  lemma RemoveOnly(w: Window)
    ensures RemoveAll([w], w) == []
  {
    assert [w][..0] == [];
  }

  /** A chain without duplicates splits at each of its windows. */
  lemma Split(c: Chain, w: Window) returns (before: Chain, after: Chain)
    requires NoDup(c) && w in c
    ensures c == before + [w] + after && w !in before && w !in after
  {
    var i :| 0 <= i < |c| && c[i] == w;
    before, after := c[..i], c[i + 1..];
  }

  lemma {:induction false} RemoveSplit(before: Chain, w: Window, after: Chain)
    requires w !in before && w !in after
    ensures RemoveAll(before + [w] + after, w) == before + after
  {
    var c := before + [w] + after;
    if after == [] {
      assert c[..|c| - 1] == before;
      RemoveAbsent(before, w);
    } else {
      var front, last := after[..|after| - 1], after[|after| - 1];
      assert c[..|c| - 1] == before + [w] + front;
      RemoveSplit(before, w, front);
      assert before + front + [last] == before + after;
    }
  }

  lemma SplitNoDup(before: Chain, w: Window, after: Chain)
    requires NoDup(before + after) && w !in before && w !in after
    ensures NoDup(before + [w] + after)
  {
    var c, rest := before + [w] + after, before + after;
    forall i, j | 0 <= i < j < |c|
      ensures c[i] != c[j]
    {
      var i', j' := if i < |before| then i else i - 1, if j < |before| then j else j - 1;
      if i == |before| {
        assert c[j] == after[j - |before| - 1];
      } else if j == |before| {
        assert c[i] == before[i];
      } else {
        assert rest[i'] == c[i] && rest[j'] == c[j];
      }
    }
  }

  /** Where an insertion of a new window splits the chain. */
  lemma InsertSplits(c: Chain, w: Window, active: Option<Window>) returns (before: Chain, after: Chain)
    requires w !in c
    ensures c == before + after && Insert(c, w, active) == before + [w] + after
    ensures after == if BehindActive(c, w, active) then [active.value] else []
    ensures w !in before && w !in after
  {
    if BehindActive(c, w, active) {
      before, after := c[..|c| - 1], [c[|c| - 1]];
    } else {
      before, after := c, [];
      assert c + [w] + [] == c + [w];
    }
  }

  /** An edit of a chain moves, adds or removes one window; the others keep their order. */
  predicate TouchesOnly(c: Chain, c': Chain, w: Window) {
    RemoveAll(c', w) == RemoveAll(c, w)
  }

  lemma InsertTouchesOnly(c: Chain, w: Window, active: Option<Window>)
    ensures TouchesOnly(c, Insert(c, w, active), w) && w in Insert(c, w, active)
    ensures NoDup(c) ==> NoDup(Insert(c, w, active))
  {
  }

  lemma AddNoDup(c: Chain, w: Window)
    requires NoDup(c) && w !in c
    ensures NoDup(c + [w]) && NoDup([w] + c)
  {
  }

  lemma UpdateTouchesOnly(c: Chain, w: Window, change: Change, active: Option<Window>)
    ensures TouchesOnly(c, UpdateIn(c, w, change, active), w) && w in UpdateIn(c, w, change, active)
    ensures NoDup(c) ==> NoDup(UpdateIn(c, w, change, active))
  {
    var rest := RemoveAll(c, w);
    RemoveAllMember(c, w, w);
    RemoveAbsent(rest, w);
    if NoDup(c) {
      RemoveAllNoDup(c, w);
      AddNoDup(rest, w);
    }
    if change.MakeFirst? {
      RemoveAllConcat(rest, [w], w);
      RemoveOnly(w);
    } else if change.MakeLast? {
      RemoveAllConcat([w], rest, w);
      RemoveOnly(w);
    } else {
      InsertTouchesOnly(c, w, active);
    }
  }

  predicate AllNoDup(m: Chains) {
    NoDup(m.latestUse) && forall s :: s in m.subspaces ==> NoDup(m.subspaces[s])
  }

  /** An update puts the window into exactly the chains its tab-focus wish and its subspaces call
    * for, leaves the order of all other windows alone, and creates no duplicates. */
  lemma UpdateIsExact(m: Chains, w: Window, info: Info, change: Change)
    ensures var m' := UpdateWindow(m, w, info, change);
            && m'.subspaces.Keys == m.subspaces.Keys && m'.active == m.active && m'.current == m.current
            && (w in m'.latestUse <==> info.wantsTabFocus)
            && TouchesOnly(m.latestUse, m'.latestUse, w)
            && (forall s :: s in m.subspaces ==>
                  && (w in m'.subspaces[s] <==>
                        info.wantsTabFocus && (info.subspaces == {} || s in info.subspaces))
                  && TouchesOnly(m.subspaces[s], m'.subspaces[s], w))
            && (AllNoDup(m) ==> AllNoDup(m'))
  {
    hide RemoveAll, NoDup, UpdateIn, UpdatedSubspace, TouchesOnly;
    ExactInChain(m.latestUse, w);
    UpdateTouchesOnly(m.latestUse, w, change, m.active);
    forall s | s in m.subspaces
      ensures var c' := UpdateWindow(m, w, info, change).subspaces[s];
              && (w in c' <==> info.wantsTabFocus && info.On(s))
              && TouchesOnly(m.subspaces[s], c', w)
              && (NoDup(m.subspaces[s]) ==> NoDup(c'))
    {
      SubspaceUpdateIsExact(m, w, info, change, s);
      ExactInChain(m.subspaces[s], w);
    }
  }

  lemma SubspaceUpdateIsExact(m: Chains, w: Window, info: Info, change: Change, s: Subspace)
    requires s in m.subspaces
    ensures var c' := UpdatedSubspace(m, w, info, change, s);
            && (w in c' <==> info.On(s))
            && TouchesOnly(m.subspaces[s], c', w)
            && (NoDup(m.subspaces[s]) ==> NoDup(c'))
  {
    var c := m.subspaces[s];
    if info.On(s) {
      UpdateTouchesOnly(c, w, change, m.active);
      InsertTouchesOnly(c, w, m.active);
    } else {
      ExactInChain(c, w);
    }
  }

  lemma ExactInChain(c: Chain, w: Window)
    ensures w !in RemoveAll(c, w) && TouchesOnly(c, RemoveAll(c, w), w)
    ensures NoDup(c) ==> NoDup(RemoveAll(c, w))
  {
    RemoveAllMember(c, w, w);
    RemoveAbsent(RemoveAll(c, w), w);
    if NoDup(c) {
      RemoveAllNoDup(c, w);
    }
  }

  /** Where the updated window is found: first or last if it was made so, where it was if it was listed,
    * else most recent, or directly behind the active window if that one is. */
  predicate IsPlaced(c: Chain, c': Chain, w: Window, change: Change, active: Option<Window>) {
    match change
    case MakeFirst => c' != [] && c'[|c'| - 1] == w
    case MakeLast => c' != [] && c'[0] == w
    case Update =>
      if w in c then c' == c
      else if c != [] && active == Some(c[|c| - 1]) then
        |c'| >= 2 && c'[|c'| - 1] == c[|c| - 1] && c'[|c'| - 2] == w
      else c' != [] && c'[|c'| - 1] == w
  }

  /** With the order of the others kept, this is the whole effect of an update. A window on all subspaces
    * is made first or last only on the current one, and inserted on the others. */
  lemma UpdatePlacesExactly(m: Chains, w: Window, info: Info, change: Change)
    requires info.wantsTabFocus
    ensures var m' := UpdateWindow(m, w, info, change);
            && IsPlaced(m.latestUse, m'.latestUse, w, change, m.active)
            && forall s :: s in m.subspaces && (info.subspaces == {} || s in info.subspaces) ==>
                 IsPlaced(m.subspaces[s], m'.subspaces[s], w,
                          if info.subspaces == {} && s != m.current then Update else change, m.active)
  {
    UpdatePlaces(m.latestUse, w, change, m.active);
    forall s | s in m.subspaces && (info.subspaces == {} || s in info.subspaces)
      ensures IsPlaced(m.subspaces[s], UpdatedSubspace(m, w, info, change, s), w,
                       if info.subspaces == {} && s != m.current then Update else change, m.active)
    {
      UpdatePlaces(m.subspaces[s], w, change, m.active);
      UpdatePlaces(m.subspaces[s], w, Update, m.active);
    }
  }

  lemma UpdatePlaces(c: Chain, w: Window, change: Change, active: Option<Window>)
    ensures IsPlaced(c, UpdateIn(c, w, change, active), w, change, active)
  {
  }

  /** A removal takes the window out of all chains, and nothing else. */
  lemma RemoveIsExact(m: Chains, w: Window)
    ensures var m' := RemoveWindow(m, w);
            && m'.subspaces.Keys == m.subspaces.Keys && m'.active == m.active && m'.current == m.current
            && w !in m'.latestUse && TouchesOnly(m.latestUse, m'.latestUse, w)
            && forall s :: s in m.subspaces ==>
                 w !in m'.subspaces[s] && TouchesOnly(m.subspaces[s], m'.subspaces[s], w)
  {
    ExactInChain(m.latestUse, w);
    forall s | s in m.subspaces
      ensures w !in RemoveWindow(m, w).subspaces[s]
      ensures TouchesOnly(m.subspaces[s], RemoveWindow(m, w).subspaces[s], w)
    {
      ExactInChain(m.subspaces[s], w);
    }
  }

  lemma {:induction false} NumbersExactly(low: nat, high: nat, s: Subspace)
    ensures s in Numbers(low, high) <==> low < s <= high
  {
    if low < high {
      NumbersExactly(low, high - 1, s);
    }
  }

  /** A resize creates empty chains for the new subspaces, destroys those of the removed ones, and keeps
    * all others. */
  lemma ResizeIsExact(m: Chains, previous: nat, next: nat, s: Subspace)
    ensures var m' := Resize(m, previous, next);
            && m'.latestUse == m.latestUse && m'.active == m.active && m'.current == m.current
            && (s in m'.subspaces <==> (s in m.subspaces || previous < s <= next) && !(next < s <= previous))
            && (s in m'.subspaces ==> m'.subspaces[s] == if s in m.subspaces then m.subspaces[s] else [])
  {
    NumbersExactly(previous, next, s);
    NumbersExactly(next, previous, s);
  }
}
