/** The order inside the focus chains: recency, cycling, and moving a window behind another. */
module FocusOrder {
  import opened Sequences
  import opened FocusChains
  import opened FocusIndex

  // ---------------------------------------------------------------------------------------------
  // Recency

  /** Activating a window makes it first; besides, windows go and the surroundings change. */
  predicate OnlyActivations(ops: seq<Op>) {
    forall op :: op in ops && op.Updated? ==> op.change.MakeFirst?
  }

  /** When `w` was made first last, counted in steps, or -1 if it is not in the chain (any more). */
  function LastUse(ops: seq<Op>, w: Window): int {
    if ops == [] then -1
    else
      var op := ops[|ops| - 1];
      if op == Removed(w) || (op.Updated? && op.window == w && !op.info.wantsTabFocus) then -1
      else if op.Updated? && op.window == w then |ops| - 1
      else LastUse(ops[..|ops| - 1], w)
  }

  lemma {:induction false} LastUseIsPast(ops: seq<Op>, w: Window)
    ensures -1 <= LastUse(ops, w) < |ops|
  {
    if ops != [] {
      LastUseIsPast(ops[..|ops| - 1], w);
    }
  }

  predicate SortedByUse(c: Chain, ops: seq<Op>) {
    forall i, j :: 0 <= i < j < |c| ==> LastUse(ops, c[i]) < LastUse(ops, c[j])
  }

  ghost predicate HoldsUsed(c: Chain, ops: seq<Op>) {
    forall w :: w in c <==> LastUse(ops, w) >= 0
  }

  lemma LatestUseAfter(m: Chains, op: Op)
    requires op.Updated? ==> op.change.MakeFirst?
    ensures Apply(m, op).latestUse ==
            if op.Removed? || (op.Updated? && !op.info.wantsTabFocus) then RemoveAll(m.latestUse, op.window)
            else if op.Updated? then RemoveAll(m.latestUse, op.window) + [op.window]
            else m.latestUse
  {
  }

  /** Over any run of activations and removals the most-recently-used chain holds exactly the windows
    * that were activated and stayed, sorted by when that was last. */
  lemma {:induction false} LatestUseIsSortedByUse(ops: seq<Op>, start: Chains)
    requires start.latestUse == [] && OnlyActivations(ops)
    ensures SortedByUse(Run(ops, start).0.latestUse, ops) && HoldsUsed(Run(ops, start).0.latestUse, ops)
  {
    if ops != [] {
      var front, op := ops[..|ops| - 1], ops[|ops| - 1];
      assert op in ops && forall o :: o in front ==> o in ops;
      LatestUseIsSortedByUse(front, start);
      var m := Run(front, start).0;
      LatestUseAfter(m, op);
      SortedNext(m.latestUse, ops, op, Apply(m, op).latestUse);
    }
  }

  lemma SortedNext(c: Chain, ops: seq<Op>, op: Op, c': Chain)
    requires ops != [] && op == ops[|ops| - 1]
    requires SortedByUse(c, ops[..|ops| - 1]) && HoldsUsed(c, ops[..|ops| - 1])
    requires c' == if op.Removed? || (op.Updated? && !op.info.wantsTabFocus) then RemoveAll(c, op.window)
                   else if op.Updated? then RemoveAll(c, op.window) + [op.window]
                   else c
    ensures SortedByUse(c', ops) && HoldsUsed(c', ops)
  {
    var front := ops[..|ops| - 1];
    if op.Removed? || op.Updated? {
      SortedWithout(c, front, ops, op.window);
      if op.Updated? && op.info.wantsTabFocus {
        SortedWithLast(RemoveAll(c, op.window), front, ops, op.window);
      }
    }
  }

  lemma {:induction false} SortedWithout(c: Chain, front: seq<Op>, ops: seq<Op>, w: Window)
    requires SortedByUse(c, front)
    requires forall v :: v != w ==> LastUse(ops, v) == LastUse(front, v)
    ensures SortedByUse(RemoveAll(c, w), ops)
    ensures forall v :: v in RemoveAll(c, w) <==> v in c && v != w
  {
    forall v
      ensures v in RemoveAll(c, w) <==> v in c && v != w
    {
      RemoveAllMember(c, w, v);
    }
    if c != [] {
      var rest, last := c[..|c| - 1], c[|c| - 1];
      SortedWithout(rest, front, ops, w);
      var rest' := RemoveAll(rest, w);
      if last != w {
        forall i | 0 <= i < |rest'|
          ensures LastUse(ops, rest'[i]) < LastUse(ops, last)
        {
          assert rest'[i] in rest';
          var j :| 0 <= j < |rest| && rest[j] == rest'[i];
          assert c[j] == rest'[i];
        }
      }
    }
  }

  lemma SortedWithLast(c: Chain, front: seq<Op>, ops: seq<Op>, w: Window)
    requires SortedByUse(c, ops) && w !in c
    requires |front| < |ops| && LastUse(ops, w) == |front|
    requires forall v :: v != w ==> LastUse(ops, v) == LastUse(front, v)
    ensures SortedByUse(c + [w], ops)
  {
    forall i | 0 <= i < |c|
      ensures LastUse(ops, c[i]) < LastUse(ops, w)
    {
      assert c[i] in c;
      LastUseIsPast(front, c[i]);
    }
  }

  // ---------------------------------------------------------------------------------------------
  // Cycling

  /** The position of `w`, or the end. */
  function Find(c: Chain, w: Window): (i: nat)
    ensures i <= |c| && (forall j :: 0 <= j < i ==> c[j] != w) && (i < |c| ==> c[i] == w)
  {
    if c == [] then 0
    else
      var i := Find(c[..|c| - 1], w);
      if i < |c| - 1 || c[|c| - 1] == w then i else |c|
  }

  function Next(c: Chain, reference: Window): Option<Window> {
    if c == [] then None
    else
      var i := Find(c, reference);
      if i == |c| then Some(c[0]) else if i == 0 then Some(c[|c| - 1]) else Some(c[i - 1])
  }

  /** The window reached from `w` by stepping `k` times. */
  function Steps(c: Chain, w: Window, k: nat): Window {
    if k == 0 then w
    else
      match Next(c, Steps(c, w, k - 1))
      case None => w
      case Some(v) => v
  }

  /** From a window that is not listed the step goes to the front, and nowhere in an empty chain. */
  lemma NextOfUnlisted(c: Chain, w: Window)
    requires w !in c
    ensures Next(c, w) == if c == [] then None else Some(c[0])
  {
  }

  lemma NextAt(c: Chain, i: nat)
    requires NoDup(c) && i < |c|
    ensures Next(c, c[i]) == Some(if i == 0 then c[|c| - 1] else c[i - 1])
  {
    assert Find(c, c[i]) == i;
  }

  lemma {:induction false} StepsGoBack(c: Chain, i: nat, k: nat)
    requires NoDup(c) && i < |c| && k <= |c|
    ensures Steps(c, c[i], k) == if k <= i then c[i - k] else c[|c| + i - k]
  {
    if k > 0 {
      var at := if k - 1 <= i then i - (k - 1) else |c| + i - (k - 1);
      NextAt(c, at);
      hide Next;
      StepsGoBack(c, i, k - 1);
      assert Steps(c, c[i], k - 1) == c[at];
    }
  }

  /** Stepping visits every window of the chain exactly once before it is back at the start. */
  lemma CyclingVisitsAll(c: Chain, i: nat, w: Window) returns (k: nat)
    requires NoDup(c) && i < |c| && w in c
    ensures k < |c| && Steps(c, c[i], k) == w
    ensures forall j: nat :: j < |c| && Steps(c, c[i], j) == w ==> j == k
    ensures Steps(c, c[i], |c|) == c[i]
  {
    hide Steps;
    var t :| 0 <= t < |c| && c[t] == w;
    k := if t <= i then i - t else |c| + i - t;
    StepsGoBack(c, i, k);
    StepsGoBack(c, i, |c|);
    forall j: nat | j < |c| && Steps(c, c[i], j) == w
      ensures j == k
    {
      StepsGoBack(c, i, j);
      var at := if j <= i then i - j else |c| + i - j;
      assert c[at] == c[t];
    }
  }

  // ---------------------------------------------------------------------------------------------
  // Moving behind another window

  /** The last position with a window of the reference's client, or -1. */
  function LastOfClient(c: Chain, reference: Window, same: (Window, Window) -> bool): (i: int)
    ensures -1 <= i < |c|
    ensures 0 <= i ==> same(reference, c[i])
    ensures forall j :: i < j < |c| ==> !same(reference, c[j])
  {
    if c == [] then -1
    else if same(reference, c[|c| - 1]) then |c| - 1
    else LastOfClient(c[..|c| - 1], reference, same)
  }

  function InsertAt(c: Chain, i: nat, w: Window): Chain
    requires i <= |c|
  {
    c[..i] + [w] + c[i..]
  }

  function MoveAfterIn(c: Chain, w: Window, reference: Window, same: (Window, Window) -> bool): Chain {
    if reference !in c then c
    else
      var rest := RemoveAll(c, w);
      if same(reference, w) then InsertAt(rest, Find(rest, reference), w)
      else
        var i := LastOfClient(rest, reference, same);
        if i < 0 then rest else InsertAt(rest, i, w)
  }

  function MoveAfter(m: Chains, w: Window, info: Info, reference: Window, same: (Window, Window) -> bool): Chains {
    if !info.wantsTabFocus then m
    else
      m.(subspaces := map s | s in m.subspaces ::
           if info.On(s) then MoveAfterIn(m.subspaces[s], w, reference, same) else m.subspaces[s],
         latestUse := MoveAfterIn(m.latestUse, w, reference, same))
  }

  /** Where a move puts the window: directly behind the reference for a window of the same client,
    * else directly behind the most recent window of the reference's client. */
  ghost predicate IsBehind(after: Chain, w: Window, reference: Window, same: (Window, Window) -> bool) {
    if w == reference then after == []
    else if same(reference, w) then after != [] && after[0] == reference
    else after != [] && same(reference, after[0]) &&
         forall j :: 1 <= j < |after| ==> !same(reference, after[j])
  }

  /** A move keeps the order of all other windows and puts the window behind the reference. */
  lemma MoveAfterIsExact(c: Chain, w: Window, reference: Window, same: (Window, Window) -> bool)
    returns (before: Chain, after: Chain)
    requires reference in c && NoDup(c)
    requires same(reference, reference)
    ensures MoveAfterIn(c, w, reference, same) == before + [w] + after
    ensures before + after == RemoveAll(c, w) && IsBehind(after, w, reference, same)
    ensures TouchesOnly(c, MoveAfterIn(c, w, reference, same), w)
    ensures NoDup(MoveAfterIn(c, w, reference, same))
  {
    var rest := RemoveAll(c, w);
    RemoveAllMember(c, w, reference);
    var i: nat;
    if same(reference, w) {
      i := Find(rest, reference);
    } else {
      assert reference in rest;
      i := LastOfClient(rest, reference, same);
    }
    before, after := rest[..i], rest[i..];
    InsertInto(c, i, w);
  }

  /** Taking a window out and putting it in anywhere touches no other window. */
  lemma InsertInto(c: Chain, i: nat, w: Window)
    requires NoDup(c) && i <= |RemoveAll(c, w)|
    ensures var rest := RemoveAll(c, w);
            && rest[..i] + rest[i..] == rest
            && TouchesOnly(c, InsertAt(rest, i, w), w) && NoDup(InsertAt(rest, i, w))
  {
    var rest := RemoveAll(c, w);
    RemoveAllMember(c, w, w);
    RemoveAllNoDup(c, w);
    assert rest[..i] + rest[i..] == rest;
    RemoveSplit(rest[..i], w, rest[i..]);
    SplitNoDup(rest[..i], w, rest[i..]);
  }

  /** The window was taken out and put in again behind the reference. */
  ghost predicate IsMoved(c: Chain, c': Chain, w: Window, reference: Window, same: (Window, Window) -> bool) {
    exists before, after ::
      c' == before + [w] + after && before + after == RemoveAll(c, w) && IsBehind(after, w, reference, same)
  }

  /** A move of a window that wants tab focus edits the most-recently-used chain and the chains of the
    * subspaces it is on, as far as they list the reference, and no other. */
  lemma MoveAfterMovesExactly(m: Chains, w: Window, info: Info, reference: Window, same: (Window, Window) -> bool)
    requires AllNoDup(m) && same(reference, reference)
    ensures var m' := MoveAfter(m, w, info, reference, same);
            && m'.subspaces.Keys == m.subspaces.Keys && m'.active == m.active && m'.current == m.current
            && (if info.wantsTabFocus && reference in m.latestUse then
                  IsMoved(m.latestUse, m'.latestUse, w, reference, same)
                else m'.latestUse == m.latestUse)
            && forall s :: s in m.subspaces ==>
                 if info.wantsTabFocus && (info.subspaces == {} || s in info.subspaces)
                    && reference in m.subspaces[s] then
                   IsMoved(m.subspaces[s], m'.subspaces[s], w, reference, same)
                 else m'.subspaces[s] == m.subspaces[s]
  {
    MoveInChainMoves(m.latestUse, w, reference, same);
    forall s | s in m.subspaces
      ensures reference in m.subspaces[s] ==>
                IsMoved(m.subspaces[s], MoveAfterIn(m.subspaces[s], w, reference, same), w, reference, same)
    {
      MoveInChainMoves(m.subspaces[s], w, reference, same);
    }
  }

  lemma MoveInChainMoves(c: Chain, w: Window, reference: Window, same: (Window, Window) -> bool)
    requires NoDup(c) && same(reference, reference)
    ensures reference in c ==> IsMoved(c, MoveAfterIn(c, w, reference, same), w, reference, same)
  {
    if reference in c {
      var _, _ := MoveAfterIsExact(c, w, reference, same);
    }
  }

  /** The same for all chains at once: a move touches no other window anywhere, and never creates a
    * duplicate. */
  lemma MoveAfterTouchesOnly(m: Chains, w: Window, info: Info, reference: Window, same: (Window, Window) -> bool)
    requires AllNoDup(m) && same(reference, reference)
    ensures var m' := MoveAfter(m, w, info, reference, same);
            && AllNoDup(m') && m'.subspaces.Keys == m.subspaces.Keys
            && TouchesOnly(m.latestUse, m'.latestUse, w)
            && forall s :: s in m.subspaces ==> TouchesOnly(m.subspaces[s], m'.subspaces[s], w)
  {
    MoveInChainTouchesOnly(m.latestUse, w, reference, same);
    forall s | s in m.subspaces
      ensures NoDup(MoveAfterIn(m.subspaces[s], w, reference, same)) &&
              TouchesOnly(m.subspaces[s], MoveAfterIn(m.subspaces[s], w, reference, same), w)
    {
      MoveInChainTouchesOnly(m.subspaces[s], w, reference, same);
    }
  }

  lemma MoveInChainTouchesOnly(c: Chain, w: Window, reference: Window, same: (Window, Window) -> bool)
    requires NoDup(c) && same(reference, reference)
    ensures NoDup(MoveAfterIn(c, w, reference, same))
    ensures TouchesOnly(c, MoveAfterIn(c, w, reference, same), w)
  {
    if reference in c {
      var _, _ := MoveAfterIsExact(c, w, reference, same);
    }
  }
}
