/** Activating windows: three functions that call each other, and the attention chain. */
module Activation {
  import opened Sequences

  class Window {
    var active: bool
    var demandsAttention: bool
    var wantsTabFocus: bool

    constructor (wantsTabFocus: bool)
      ensures !active && !demandsAttention && this.wantsTabFocus == wantsTabFocus
    {
      active, demandsAttention, this.wantsTabFocus := false, false, wantsTabFocus;
    }
  }

  class Space {
    ghost const windows: set<Window>
    var active: Window?
    var lastActive: Window?
    /** The windows that demand attention, the latest first. */
    var attentionChain: seq<Window>
    /** The most-recently-used chain, the most recent window last. */
    var latestUse: seq<Window>
    var setActiveClientRecursion: nat

    /** Only the active window, and the one just being activated, are marked as active. */
    ghost predicate MarkedAtMost(pending: Window?)
      reads this, windows
    {
      && (active != null ==> active in windows)
      && (forall w :: w in windows && w.active ==> w == active || w == pending)
      && (pending != null ==> pending in windows && pending.active && pending != active)
    }

    /** The attention chain lists exactly the windows that demand attention, once each. */
    ghost predicate AttentionListed()
      reads this, windows
    {
      && NoDup(attentionChain)
      && (forall w :: w in attentionChain ==> w in windows && w.demandsAttention)
      && (forall w :: w in windows && w.demandsAttention ==> w in attentionChain)
    }

    /** Between calls: at most one window is active, namely `active`, and it demands no attention. */
    ghost predicate Valid()
      reads this, windows
    {
      && MarkedAtMost(null)
      && (active != null ==> active.active && !active.demandsAttention)
      && AttentionListed()
    }

    ghost function Marked(): set<Window>
      reads this, windows
    {
      set w | w in windows && w.active
    }

    constructor (ghost windows: set<Window>)
      requires forall w :: w in windows ==> !w.active && !w.demandsAttention
      ensures Valid() && this.windows == windows && active == null && attentionChain == []
      ensures setActiveClientRecursion == 0
    {
      this.windows := windows;
      active, lastActive, attentionChain, latestUse, setActiveClientRecursion := null, null, [], [], 0;
    }

    method SetDemandsAttention(w: Window, demand: bool)
      requires w in windows && AttentionListed()
      modifies this`attentionChain, w`demandsAttention
      ensures AttentionListed()
      ensures w.demandsAttention == (demand && !w.active)
      ensures attentionChain ==
              if w.demandsAttention == old(w.demandsAttention) then old(attentionChain)
              else (if w.demandsAttention then [w] else []) + RemoveAll(old(attentionChain), w)
    {
      forall v | v in windows {
        RemoveAllMember(attentionChain, w, v);
      }
      RemoveAllSubset(attentionChain, w);
      RemoveAllNoDup(attentionChain, w);
      var demand' := demand;
      if w.active {
        demand' := false;
      }
      if w.demandsAttention == demand' {
        return;
      }
      w.demandsAttention := demand';
      attentionChain := RemoveAll(attentionChain, w);
      if demand' {
        attentionChain := [w] + attentionChain;
      }
    }

    /** Marks a window as active or not. `pending` is the window being activated meanwhile. */
    method SetActive(w: Window, act: bool, ghost pending: Window?)
      requires w in windows && AttentionListed() && MarkedAtMost(pending)
      requires act ==> pending == null && (active != null ==> active.active)
      requires w != pending
      modifies this`active, this`lastActive, this`attentionChain, this`latestUse, this`setActiveClientRecursion,
               windows`active, windows`demandsAttention
      ensures setActiveClientRecursion == old(setActiveClientRecursion) && AttentionListed()
      ensures forall v :: v in windows ==>
                v.active == (if v == w then act else if act then false else old(v.active))
      ensures forall v :: v in windows ==>
                v.demandsAttention == (old(v.demandsAttention) && !(act && v == w && !old(w.active)))
      ensures act ==> active == w
      ensures !act ==> active == if old(w.active) then null else old(active)
      ensures act && !old(w.active) ==>
                lastActive == w && latestUse == RemoveAll(old(latestUse), w) + (if w.wantsTabFocus then [w] else [])
      ensures !act || old(w.active) ==> unchanged(this`lastActive, this`latestUse, this`attentionChain)
      ensures act && !old(w.active) ==> attentionChain == RemoveAll(old(attentionChain), w)
      decreases if act then 3 else 1, Marked(), 1
    {
      if w.active == act {
        return;
      }
      ghost var marked := Marked();
      w.active := act;
      if act {
        SetActiveWindow(w);
      } else {
        assert Marked() == marked - {w} && w in marked;
        UnsetActiveWindow(pending);
      }
    }

    method MakeFirst(w: Window)
      modifies this`latestUse
      ensures latestUse == RemoveAll(old(latestUse), w) + (if w.wantsTabFocus then [w] else [])
    {
      latestUse := RemoveAll(latestUse, w);
      if w.wantsTabFocus {
        latestUse := latestUse + [w];
      }
    }

    /** Makes a window that was marked the active one. */
    method SetActiveWindow(w: Window)
      requires w in windows && AttentionListed() && w.active
      requires active == w || MarkedAtMost(w)
      modifies this`active, this`lastActive, this`attentionChain, this`latestUse, this`setActiveClientRecursion,
               windows`active, windows`demandsAttention
      ensures setActiveClientRecursion == old(setActiveClientRecursion) && AttentionListed()
      ensures active == w
      ensures old(active) == w ==> unchanged(this, windows)
      ensures old(active) != w ==>
        && lastActive == w && latestUse == RemoveAll(old(latestUse), w) + (if w.wantsTabFocus then [w] else [])
        && attentionChain == RemoveAll(old(attentionChain), w)
        && (forall v :: v in windows ==> v.active == (v == w))
        && (forall v :: v in windows ==> v.demandsAttention == (old(v.demandsAttention) && v != w))
      decreases 2, Marked(), 0
    {
      hide RemoveAll, NoDup;
      if active == w {
        return;
      }
      setActiveClientRecursion := setActiveClientRecursion + 1;
      if active != null {
        SetActive(active, false, w);
      }
      assert w.active;
      active := w;
      lastActive := w;
      MakeFirst(w);
      if !w.demandsAttention {
        RemoveAbsent(attentionChain, w);
      }
      SetDemandsAttention(w, false);
      setActiveClientRecursion := setActiveClientRecursion - 1;
    }

    method UnsetActiveWindow(ghost pending: Window?)
      requires AttentionListed() && MarkedAtMost(pending)
      modifies this`active, this`lastActive, this`attentionChain, this`latestUse, this`setActiveClientRecursion,
               windows`active, windows`demandsAttention
      ensures setActiveClientRecursion == old(setActiveClientRecursion) && AttentionListed()
      ensures active == null
      ensures forall v :: v in windows ==>
                v.active == (v == pending) && v.demandsAttention == old(v.demandsAttention)
      ensures unchanged(this`lastActive, this`latestUse, this`attentionChain)
      decreases 1, Marked(), 2
    {
      if active == null {
        return;
      }
      setActiveClientRecursion := setActiveClientRecursion + 1;
      SetActive(active, false, pending);
      active := null;
      setActiveClientRecursion := setActiveClientRecursion - 1;
    }

    // What the rest of the compositor calls. Every run of these calls keeps the space valid.

    method Activate(w: Window)
      requires Valid() && w in windows
      modifies this`active, this`lastActive, this`attentionChain, this`latestUse, this`setActiveClientRecursion,
               windows`active, windows`demandsAttention
      ensures Valid() && setActiveClientRecursion == old(setActiveClientRecursion)
      ensures active == w && forall v :: v in windows ==> v.active == (v == w)
      ensures attentionChain == RemoveAll(old(attentionChain), w)
      ensures old(active) == w ==> latestUse == old(latestUse)
      ensures old(active) != w ==> latestUse == RemoveAll(old(latestUse), w) + (if w.wantsTabFocus then [w] else [])
      ensures old(active) != w ==> (w in latestUse <==> w.wantsTabFocus)
      ensures old(active) != w && w.wantsTabFocus ==> latestUse[|latestUse| - 1] == w
      ensures RemoveAll(latestUse, w) == RemoveAll(old(latestUse), w)
    {
      if !w.demandsAttention {
        RemoveAbsent(attentionChain, w);
      }
      SetActive(w, true, null);
      RemoveAllMember(old(latestUse), w, w);
      RemoveAbsent(RemoveAll(old(latestUse), w), w);
      RemoveAllConcat(RemoveAll(old(latestUse), w), if w.wantsTabFocus then [w] else [], w);
    }

    method Deactivate(w: Window)
      requires Valid() && w in windows
      modifies this`active, this`lastActive, this`attentionChain, this`latestUse, this`setActiveClientRecursion,
               windows`active, windows`demandsAttention
      ensures Valid() && setActiveClientRecursion == old(setActiveClientRecursion)
      ensures active == (if old(active) == w then null else old(active))
      ensures forall v :: v in windows ==> v.active == (old(v.active) && v != w)
      ensures unchanged(this`lastActive, this`latestUse, this`attentionChain)
    {
      SetActive(w, false, null);
    }

    method DeactivateWindow()
      requires Valid()
      modifies this`active, this`lastActive, this`attentionChain, this`latestUse, this`setActiveClientRecursion,
               windows`active, windows`demandsAttention
      ensures Valid() && setActiveClientRecursion == old(setActiveClientRecursion)
      ensures active == null && forall v :: v in windows ==> !v.active
      ensures unchanged(this`lastActive, this`latestUse, this`attentionChain)
    {
      UnsetActiveWindow(null);
    }

    method DemandAttention(w: Window, demand: bool)
      requires Valid() && w in windows
      modifies this`attentionChain, w`demandsAttention
      ensures Valid() && w.demandsAttention == (demand && w != active)
    {
      SetDemandsAttention(w, demand);
    }
  }
}
