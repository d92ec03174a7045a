/** The focus chain object, proved against the functions on chains. */
module FocusChainObject {
  import opened Sequences
  import opened FocusChains
  import opened FocusOrder

  /** What the search for a window to focus sees of a window. */
  datatype View = View(shown: bool, onCurrentSubspace: bool, screens: set<nat>, centralOutput: nat)

  predicate IsUsable(view: View, separateScreenFocus: bool, output: nat) {
    view.shown && view.onCurrentSubspace && (separateScreenFocus ==> output in view.screens)
  }

  predicate IsActivatable(view: View, separateScreenFocus: bool, output: nat) {
    view.shown && (separateScreenFocus ==> view.centralOutput == output)
  }

  /** `r` is the rearmost window of `c` that is wanted, or none if there is no such window. */
  predicate IsRearmost(c: Chain, wanted: Window -> bool, r: Option<Window>) {
    match r
    case None => forall w :: w in c ==> !wanted(w)
    case Some(w) => exists i :: 0 <= i < |c| && c[i] == w && wanted(w) && forall j :: i < j < |c| ==> !wanted(c[j])
  }

  class FocusChain {
    var latestUse: Chain
    var subspaces: map<Subspace, Chain>
    var activeWindow: Option<Window>
    var currentSubspace: Subspace
    var hasSeparateScreenFocus: bool

    ghost function Abstract(): Chains
      reads this
    {
      Chains(latestUse, subspaces, activeWindow, currentSubspace)
    }

    constructor ()
      ensures Abstract() == Chains([], map[], None, 0)
    {
      latestUse, subspaces, activeWindow, currentSubspace := [], map[], None, 0;
      hasSeparateScreenFocus := false;
    }

    method Remove(w: Window)
      modifies this`latestUse, this`subspaces
      ensures Abstract() == RemoveWindow(old(Abstract()), w)
    {
      var keys := subspaces.Keys;
      while keys != {}
        invariant keys <= subspaces.Keys == old(subspaces).Keys && latestUse == old(latestUse)
        invariant forall s :: s in subspaces ==>
                    subspaces[s] == if s in keys then old(subspaces)[s] else RemoveAll(old(subspaces)[s], w)
        decreases keys
      {
        var s :| s in keys;
        subspaces := subspaces[s := RemoveAll(subspaces[s], w)];
        keys := keys - {s};
      }
      latestUse := RemoveAll(latestUse, w);
    }

    method Update(w: Window, info: Info, change: Change)
      modifies this`latestUse, this`subspaces
      ensures Abstract() == UpdateWindow(old(Abstract()), w, info, change)
    {
      hide RemoveAll, Insert;
      if !info.wantsTabFocus {
        Remove(w);
        return;
      }
      var keys := subspaces.Keys;
      while keys != {}
        invariant keys <= subspaces.Keys == old(subspaces).Keys && latestUse == old(latestUse)
        invariant forall s :: s in subspaces ==>
                    subspaces[s] == if s in keys then old(subspaces)[s]
                                    else UpdatedSubspace(old(Abstract()), w, info, change, s)
        decreases keys
      {
        var s :| s in keys;
        var chain := subspaces[s];
        if info.OnAll() {
          if s == currentSubspace && (change == MakeFirst || change == MakeLast) {
            if change == MakeFirst {
              chain := RemoveAll(chain, w) + [w];
            } else {
              chain := [w] + RemoveAll(chain, w);
            }
          } else {
            chain := Insert(chain, w, activeWindow);
          }
        } else if info.On(s) {
          chain := UpdateIn(chain, w, change, activeWindow);
        } else {
          chain := RemoveAll(chain, w);
        }
        subspaces := subspaces[s := chain];
        keys := keys - {s};
      }
      latestUse := UpdateIn(latestUse, w, change, activeWindow);
    }

    method CreateSubspaces(previous: nat, next: nat)
      modifies this`subspaces
      ensures subspaces.Keys == old(subspaces).Keys + Numbers(previous, next)
      ensures forall s :: s in subspaces ==> subspaces[s] == if s in old(subspaces) then old(subspaces)[s] else []
    {
      var i := previous + 1;
      while i <= next
        invariant previous + 1 <= i && (i <= next + 1 || i == previous + 1)
        invariant subspaces.Keys == old(subspaces).Keys + Numbers(previous, i - 1)
        invariant forall s :: s in subspaces ==> subspaces[s] == if s in old(subspaces) then old(subspaces)[s] else []
      {
        if i !in subspaces {
          subspaces := subspaces[i := []];
        }
        i := i + 1;
      }
    }

    method DestroySubspaces(previous: nat, next: nat)
      modifies this`subspaces
      ensures subspaces == old(subspaces) - Numbers(next, previous)
    {
      var i := previous;
      while i > next
        invariant i <= previous && (next <= i || i == previous)
        invariant subspaces == old(subspaces) - Numbers(i, previous)
      {
        NumbersFrom(i, previous);
        subspaces := subspaces - {i};
        i := i - 1;
      }
    }

    method ResizeSubspaces(previous: nat, next: nat)
      modifies this`subspaces
      ensures Abstract() == Resize(old(Abstract()), previous, next)
    {
      CreateSubspaces(previous, next);
      DestroySubspaces(previous, next);
      assert subspaces == Resize(old(Abstract()), previous, next).subspaces;
    }

    method FirstLatestUse() returns (r: Option<Window>)
      ensures r == if latestUse == [] then None else Some(latestUse[0])
    {
      if latestUse == [] {
        return None;
      }
      return Some(latestUse[0]);
    }

    method NextLatestUse(reference: Window) returns (r: Option<Window>)
      ensures r == FocusOrder.Next(latestUse, reference)
    {
      if latestUse == [] {
        return None;
      }
      var i := 0;
      while i < |latestUse| && latestUse[i] != reference
        invariant i <= |latestUse| && forall j :: 0 <= j < i ==> latestUse[j] != reference
      {
        i := i + 1;
      }
      if i == |latestUse| {
        return Some(latestUse[0]);
      }
      if i == 0 {
        return Some(latestUse[|latestUse| - 1]);
      }
      return Some(latestUse[i - 1]);
    }

    method MoveWindowAfterInChain(c: Chain, w: Window, reference: Window, same: (Window, Window) -> bool)
      returns (c': Chain)
      ensures c' == MoveAfterIn(c, w, reference, same)
    {
      if reference !in c {
        return c;
      }
      c' := RemoveAll(c, w);
      if same(reference, w) {
        var i := Find(c', reference);
        c' := InsertAt(c', i, w);
        return;
      }
      var i := |c'|;
      while i > 0
        invariant 0 <= i <= |c'| && c' == RemoveAll(c, w)
        invariant forall j :: i <= j < |c'| ==> !same(reference, c'[j])
      {
        if same(reference, c'[i - 1]) {
          assert LastOfClient(c', reference, same) == i - 1;
          c' := InsertAt(c', i - 1, w);
          return;
        }
        i := i - 1;
      }
    }

    method MoveWindowAfter(w: Window, info: Info, reference: Window, same: (Window, Window) -> bool)
      modifies this`latestUse, this`subspaces
      ensures Abstract() == MoveAfter(old(Abstract()), w, info, reference, same)
    {
      hide MoveAfterIn;
      if !info.wantsTabFocus {
        return;
      }
      var keys := subspaces.Keys;
      while keys != {}
        invariant keys <= subspaces.Keys == old(subspaces).Keys && latestUse == old(latestUse)
        invariant forall s :: s in subspaces ==>
                    subspaces[s] == if s in keys || !info.On(s) then old(subspaces)[s]
                                    else MoveAfterIn(old(subspaces)[s], w, reference, same)
        decreases keys
      {
        var s :| s in keys;
        keys := keys - {s};
        if !info.On(s) {
          continue;
        }
        var chain := MoveWindowAfterInChain(subspaces[s], w, reference, same);
        subspaces := subspaces[s := chain];
      }
      latestUse := MoveWindowAfterInChain(latestUse, w, reference, same);
    }

    /** The next window to focus on `subspace`, other than `reference`. */
    method Next(views: Window -> View, reference: Option<Window>, subspace: Subspace, output: nat)
      returns (r: Option<Window>)
      ensures subspace !in subspaces ==> r == None
      ensures var separate := hasSeparateScreenFocus;
              subspace in subspaces ==>
                IsRearmost(subspaces[subspace],
                           (w: Window) => reference != Some(w) && views(w).shown && views(w).onCurrentSubspace &&
                                          (separate ==> output in views(w).screens), r)
    {
      if subspace !in subspaces {
        return None;
      }
      var chain := subspaces[subspace];
      var i := |chain|;
      while i > 0
        invariant 0 <= i <= |chain|
        invariant forall j :: i <= j < |chain| ==>
                    !(reference != Some(chain[j]) && IsUsable(views(chain[j]), hasSeparateScreenFocus, output))
      {
        i := i - 1;
        if reference == Some(chain[i]) {
          continue;
        }
        if IsUsable(views(chain[i]), hasSeparateScreenFocus, output) {
          return Some(chain[i]);
        }
      }
      return None;
    }

    /** The window to activate on `subspace`. */
    method GetForActivation(views: Window -> View, subspace: Subspace, output: nat) returns (r: Option<Window>)
      ensures subspace !in subspaces ==> r == None
      ensures var separate := hasSeparateScreenFocus;
              subspace in subspaces ==>
                IsRearmost(subspaces[subspace],
                           (w: Window) => views(w).shown && (separate ==> views(w).centralOutput == output), r)
    {
      if subspace !in subspaces {
        return None;
      }
      var chain := subspaces[subspace];
      var i := |chain|;
      while i > 0
        invariant 0 <= i <= |chain|
        invariant forall j :: i <= j < |chain| ==> !IsActivatable(views(chain[j]), hasSeparateScreenFocus, output)
      {
        i := i - 1;
        if IsActivatable(views(chain[i]), hasSeparateScreenFocus, output) {
          return Some(chain[i]);
        }
      }
      return None;
    }
  }

  lemma {:induction false} NumbersFrom(low: nat, high: nat)
    requires 0 < low <= high
    ensures Numbers(low - 1, high) == Numbers(low, high) + {low}
  {
    if low < high {
      NumbersFrom(low, high - 1);
    }
  }
}
