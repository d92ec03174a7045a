/** The two loops that keep the title bar reachable while a window is moved or resized. */
module MoveResize {
  import opened Rects
  import opened Sequences

  /** The title bar, relative to the frame, and how much of it has to be visible. */
  datatype Title = Title(rect: Rect, required: int)

  function TitleOf(frame: Rect, topBorder: int): Title {
    Title(Rect(0, 0, frame.Width() - 1, topBorder - 1), Min(100 * topBorder, frame.Width() * frame.Height()))
  }

  function TitleRect(title: Title, frame: Rect): Rect {
    title.rect.Translated(frame.left, frame.top)
  }

  function Pixels(r: Rect): int {
    r.Width() * r.Height()
  }

  /** What a part of the title bar counts: only parts of full height, not long slim ones. */
  function FullHeightPixels(r: Rect, titleRect: Rect): int {
    if r.Height() == titleRect.Height() then Pixels(r) else 0
  }

  /** The pixels of the title bar in the first `n` areas, as far as they show its full height. */
  function FullHeightIn(areas: seq<Rect>, titleRect: Rect, n: nat): int
    requires n <= |areas|
  {
    if n == 0 then 0
    else FullHeightIn(areas, titleRect, n - 1) + FullHeightPixels(areas[n - 1].And(titleRect), titleRect)
  }

  /** All pixels of the title bar in the first `n` areas. */
  function PixelsIn(areas: seq<Rect>, titleRect: Rect, n: nat): int
    requires n <= |areas|
  {
    if n == 0 then 0 else PixelsIn(areas, titleRect, n - 1) + Pixels(areas[n - 1].And(titleRect))
  }

  function Visible(areas: seq<Rect>, title: Title, frame: Rect): int {
    FullHeightIn(areas, TitleRect(title, frame), |areas|)
  }

  function RealVisible(areas: seq<Rect>, title: Title, frame: Rect): int {
    PixelsIn(areas, TitleRect(title, frame), |areas|)
  }

  predicate Reachable(areas: seq<Rect>, title: Title, frame: Rect) {
    Visible(areas, title, frame) >= title.required
  }

  /** What the loops look at when the frame is at a position: how much of the title is visible, how
    * much is needed, and the first strut that is a panel at the top edge reached into. */
  datatype Sight = Sight(visible: int, realVisible: int, required: int, panel: Option<Rect>) {
    predicate Enough() { visible >= required }
  }

  /** A strut at the top edge that the frame reaches into. */
  predicate IsTopPanel(strut: Rect, g: Rect) {
    strut.top == 0 && strut.Width() > strut.Height() && strut.Intersects(g) && g.top < strut.bottom
  }

  /** The first top panel from index `i` on. */
  function FirstTopPanel(struts: seq<Rect>, g: Rect, i: nat): Option<Rect>
    requires i <= |struts|
    decreases |struts| - i
  {
    if i == |struts| then None
    else if IsTopPanel(struts[i], g) then Some(struts[i])
    else FirstTopPanel(struts, g, i + 1)
  }

  function Look(areas: seq<Rect>, title: Title, struts: seq<Rect>, g: Rect): Sight {
    Sight(Visible(areas, title, g), RealVisible(areas, title, g), title.required, FirstTopPanel(struts, g, 0))
  }

  function Looking(areas: seq<Rect>, title: Title, struts: seq<Rect>): Rect -> Sight {
    (g: Rect) => Look(areas, title, struts, g)
  }

  method CountPixels(areas: seq<Rect>, title: Title, frame: Rect) returns (visible: int, realVisible: int)
    ensures visible == Visible(areas, title, frame) && realVisible == RealVisible(areas, title, frame)
  {
    hide Pixels;
    var titleRect := TitleRect(title, frame);
    visible, realVisible := 0, 0;
    for i := 0 to |areas|
      invariant visible == FullHeightIn(areas, titleRect, i) && realVisible == PixelsIn(areas, titleRect, i)
    {
      var r := areas[i].And(titleRect);
      var pixels := Pixels(r);
      realVisible := realVisible + pixels;
      if r.Height() == titleRect.Height() {
        visible := visible + pixels;
      }
    }
  }

  /** `x` is on the way from `from` to `to`. */
  predicate OnTheWay(x: int, from: int, to: int) {
    Min(from, to) <= x <= Max(from, to)
  }

  // ---------------------------------------------------------------------------------------------
  // Restricted resize

  datatype ResizeStop = TitleVisible | NothingToMove | NoImprovement

  datatype Resized = Resized(geometry: Rect, titleFailed: bool, stop: ResizeStop)

  function ResizeDistance(g: Rect, previous: Rect): nat {
    Abs(previous.top - g.top) + Abs(previous.left - g.left) + Abs(previous.right - g.right)
  }

  /** One step back toward the previous geometry: by the title's edge while that helps, else by one
    * of the edges beside it. */
  function StepBack(g: Rect, previous: Rect, titleFailed: bool): Rect {
    if !titleFailed && previous.top != g.top then g.(top := g.top + Sign(previous.top - g.top))
    else if previous.left != g.left then g.(left := g.left + Sign(previous.left - g.left))
    else if previous.right != g.right then g.(right := g.right + Sign(previous.right - g.right))
    else g
  }

  /** The resize loop. The measure: the title has not failed yet, then the distance to go. */
  function RestrictResize(g: Rect, lastTry: Rect, titleFailed: bool, lastVisible: int, previous: Rect,
      look: Rect -> Sight): Resized
    decreases if titleFailed then 0 else 1, ResizeDistance(g, previous)
  {
    var realVisible := look(g).realVisible;
    if look(g).Enough() then Resized(g, titleFailed, TitleVisible)
    else if realVisible < lastVisible && titleFailed then Resized(g, titleFailed, NoImprovement)
    else
      var failed := titleFailed || realVisible <= lastVisible;
      var base := if failed && !titleFailed then lastTry else g;
      var next := StepBack(base, previous, failed);
      if next == base then Resized(base, failed, NothingToMove)
      else RestrictResize(next, base, failed, realVisible, previous, look)
  }

  method RestrictedResize(proposed: Rect, previous: Rect, topBorder: int, areas: seq<Rect>)
    returns (geometry: Rect)
    ensures geometry ==
            RestrictResize(proposed, proposed, false, -1, previous,
                           Looking(areas, TitleOf(proposed, topBorder), [])).geometry
  {
    hide Visible, RealVisible;
    geometry := proposed;
    var title := TitleOf(proposed, topBorder);
    var lastVisiblePixels := -1;
    var lastTry := geometry;
    var titleFailed := false;

    ghost var look := Looking(areas, title, []);
    while true
      invariant RestrictResize(geometry, lastTry, titleFailed, lastVisiblePixels, previous, look) ==
                RestrictResize(proposed, proposed, false, -1, previous, look)
      decreases if titleFailed then 0 else 1, ResizeDistance(geometry, previous)
    {
      var visiblePixels, realVisiblePixels := CountPixels(areas, title, geometry);
      if visiblePixels >= title.required {
        return;
      }
      if realVisiblePixels <= lastVisiblePixels {
        if titleFailed && realVisiblePixels < lastVisiblePixels {
          return;
        } else {
          if !titleFailed {
            geometry := lastTry;
          }
          titleFailed := true;
        }
      }
      lastVisiblePixels := realVisiblePixels;
      var moved := geometry;
      lastTry := moved;

      var leftChanged := previous.left != moved.left;
      var rightChanged := previous.right != moved.right;
      var topChanged := previous.top != moved.top;
      var bottomChanged := false;
      if titleFailed {
        topChanged := false;
      }
      if topChanged {
        leftChanged, rightChanged := false, false;
      }

      if topChanged {
        moved := moved.(top := moved.top + Sign(previous.top - moved.top));
      } else if leftChanged {
        moved := moved.(left := moved.left + Sign(previous.left - moved.left));
      } else if bottomChanged {
        moved := moved.(bottom := moved.bottom + Sign(previous.bottom - moved.bottom));
      } else if rightChanged {
        moved := moved.(right := moved.right + Sign(previous.right - moved.right));
      } else {
        return;
      }
      geometry := moved;
    }
  }

  predicate EdgesOnTheWay(g: Rect, proposed: Rect, previous: Rect) {
    && OnTheWay(g.top, proposed.top, previous.top)
    && OnTheWay(g.left, proposed.left, previous.left)
    && OnTheWay(g.right, proposed.right, previous.right)
    && g.bottom == proposed.bottom
  }

  lemma StepBackIsOnTheWay(g: Rect, previous: Rect, titleFailed: bool, proposed: Rect)
    requires EdgesOnTheWay(g, proposed, previous)
    ensures var next := StepBack(g, previous, titleFailed);
            && EdgesOnTheWay(next, proposed, previous)
            && (next != g ==> ResizeDistance(next, previous) < ResizeDistance(g, previous))
            && (next == g ==>
                  g.left == previous.left && g.right == previous.right && (titleFailed || g.top == previous.top))
  {
  }

  /** Every edge of the result is on its way from the proposed to the previous geometry, the bottom
    * edge is the proposed one, and the loop stops only for one of three reasons: the title is
    * visible enough, nothing is left to move back, or moving back made it less visible. */
  lemma {:induction false} ResizeStaysOnTheWay(g: Rect, lastTry: Rect, titleFailed: bool, lastVisible: int,
      previous: Rect, look: Rect -> Sight, proposed: Rect)
    requires EdgesOnTheWay(g, proposed, previous) && EdgesOnTheWay(lastTry, proposed, previous)
    ensures var r := RestrictResize(g, lastTry, titleFailed, lastVisible, previous, look);
            && EdgesOnTheWay(r.geometry, proposed, previous)
            && match r.stop
               case TitleVisible => look(r.geometry).Enough()
               case NothingToMove =>
                 r.geometry.left == previous.left && r.geometry.right == previous.right &&
                 (r.titleFailed || (r.geometry.top == previous.top && !look(r.geometry).Enough()))
               case NoImprovement => r.titleFailed && !look(r.geometry).Enough()
    decreases if titleFailed then 0 else 1, ResizeDistance(g, previous)
  {
    var realVisible := look(g).realVisible;
    if !look(g).Enough() && !(realVisible < lastVisible && titleFailed) {
      var failed := titleFailed || realVisible <= lastVisible;
      var base := if failed && !titleFailed then lastTry else g;
      var next := StepBack(base, previous, failed);
      StepBackIsOnTheWay(base, previous, failed, proposed);
      hide StepBack, EdgesOnTheWay, ResizeDistance;
      if next != base {
        ResizeStaysOnTheWay(next, base, failed, realVisible, previous, look, proposed);
      }
    }
  }

  /** What the loop remembers of the geometry it came from. */
  predicate CameFrom(g: Rect, lastTry: Rect, titleFailed: bool, lastVisible: int, previous: Rect, look: Rect -> Sight)
  {
    && (titleFailed ==> g == StepBack(lastTry, previous, true))
    && ((!titleFailed && g == lastTry) || lastVisible <= look(lastTry).realVisible)
  }

  /** `h` has the left edge one pixel closer to the previous one than `g`, or, if that is there, the right
    * edge. */
  predicate IsPixelPast(h: Rect, g: Rect, previous: Rect) {
    if g.left < previous.left then h == g.(left := g.left + 1)
    else if g.left > previous.left then h == g.(left := g.left - 1)
    else if g.right < previous.right then h == g.(right := g.right + 1)
    else g.right > previous.right && h == g.(right := g.right - 1)
  }

  /** When the loop gives up because moving back made the title less visible, it stops one step too
    * far: at the step back from a geometry with strictly more of the title visible. */
  lemma {:induction false} GivesUpTooLate(g: Rect, lastTry: Rect, titleFailed: bool, lastVisible: int,
      previous: Rect, look: Rect -> Sight, proposed: Rect) returns (better: Rect)
    requires EdgesOnTheWay(g, proposed, previous) && EdgesOnTheWay(lastTry, proposed, previous)
    requires CameFrom(g, lastTry, titleFailed, lastVisible, previous, look)
    requires RestrictResize(g, lastTry, titleFailed, lastVisible, previous, look).stop.NoImprovement?
    ensures var r := RestrictResize(g, lastTry, titleFailed, lastVisible, previous, look);
            && IsPixelPast(r.geometry, better, previous) && EdgesOnTheWay(better, proposed, previous)
            && look(r.geometry).realVisible < look(better).realVisible
    decreases if titleFailed then 0 else 1, ResizeDistance(g, previous)
  {
    var realVisible := look(g).realVisible;
    if realVisible < lastVisible && titleFailed {
      better := lastTry;
    } else {
      var failed := titleFailed || realVisible <= lastVisible;
      var base := if failed && !titleFailed then lastTry else g;
      StepBackIsOnTheWay(base, previous, failed, proposed);
      better := GivesUpTooLate(StepBack(base, previous, failed), base, failed, realVisible, previous, look, proposed);
    }
  }

  /** The whole resize step: as above; a proposal that shows enough of the title is taken as it is.
    * Without success the search ends only back at the previous edges; or back at those beside the
    * title, the title's edge having stopped helping before; or where moving these made the title less
    * visible than one step before, at `better`. */
  lemma ResizeIsBounded(proposed: Rect, previous: Rect, look: Rect -> Sight) returns (better: Rect)
    ensures var r := RestrictResize(proposed, proposed, false, -1, previous, look);
            && EdgesOnTheWay(r.geometry, proposed, previous)
            && (look(proposed).Enough() ==> r.geometry == proposed)
            && (!look(r.geometry).Enough() && !r.titleFailed ==> r.geometry == previous.(bottom := proposed.bottom))
            && (!look(r.geometry).Enough() && r.titleFailed ==>
                  || (r.geometry.left == previous.left && r.geometry.right == previous.right)
                  || (&& IsPixelPast(r.geometry, better, previous) && EdgesOnTheWay(better, proposed, previous)
                      && look(r.geometry).realVisible < look(better).realVisible))
  {
    ResizeStaysOnTheWay(proposed, proposed, false, -1, previous, look, proposed);
    better := proposed;
    if RestrictResize(proposed, proposed, false, -1, previous, look).stop.NoImprovement? {
      better := GivesUpTooLate(proposed, proposed, false, -1, previous, look, proposed);
    }
  }

  /** `x` is on the way from `from` to `to`, and is not `to`. */
  predicate Before(x: int, from: int, to: int) {
    from <= x < to || to < x <= from
  }

  /** All geometries before `h`, first over the top, then the left, then the right edge, show too little of
    * the title; until the title's edge is back or has failed, the others stay. */
  ghost predicate NoneBefore(h: Rect, proposed: Rect, previous: Rect, failed: bool, look: Rect -> Sight) {
    && (forall t :: Before(t, proposed.top, h.top) ==> !look(proposed.(top := t)).Enough())
    && (forall l :: Before(l, proposed.left, h.left) ==> !look(proposed.(top := h.top, left := l)).Enough())
    && (forall r :: Before(r, proposed.right, h.right) ==>
          !look(proposed.(top := h.top, left := h.left, right := r)).Enough())
    && (h.left != proposed.left || h.right != proposed.right ==> failed || h.top == previous.top)
    && (h.right != proposed.right ==> h.left == previous.left)
  }

  lemma NoneBeforeNext(h: Rect, proposed: Rect, previous: Rect, failed: bool, look: Rect -> Sight)
    requires EdgesOnTheWay(h, proposed, previous) && NoneBefore(h, proposed, previous, failed, look)
    requires !look(h).Enough()
    ensures NoneBefore(StepBack(h, previous, failed), proposed, previous, failed, look)
  {
    var next := StepBack(h, previous, failed);
    assert h == proposed.(top := h.top, left := h.left, right := h.right);
    if next.top != h.top {
      assert h == proposed.(top := h.top);
    } else if next.left != h.left {
      assert h.right == proposed.right;
      assert h == proposed.(top := h.top, left := h.left);
    }
  }

  /** The result is the closest geometry: none before it shows enough of the title. */
  lemma {:induction false} NoneBeforeResult(g: Rect, lastTry: Rect, titleFailed: bool, lastVisible: int,
      previous: Rect, look: Rect -> Sight, proposed: Rect)
    requires EdgesOnTheWay(g, proposed, previous) && EdgesOnTheWay(lastTry, proposed, previous)
    requires NoneBefore(g, proposed, previous, titleFailed, look)
    requires NoneBefore(lastTry, proposed, previous, titleFailed, look)
    requires g == lastTry || !look(lastTry).Enough()
    ensures var r := RestrictResize(g, lastTry, titleFailed, lastVisible, previous, look);
            NoneBefore(r.geometry, proposed, previous, r.titleFailed, look)
    decreases if titleFailed then 0 else 1, ResizeDistance(g, previous)
  {
    var realVisible := look(g).realVisible;
    if !look(g).Enough() && !(realVisible < lastVisible && titleFailed) {
      var failed := titleFailed || realVisible <= lastVisible;
      var base := if failed && !titleFailed then lastTry else g;
      var next := StepBack(base, previous, failed);
      assert NoneBefore(base, proposed, previous, failed, look);
      StepBackIsOnTheWay(base, previous, failed, proposed);
      NoneBeforeNext(base, proposed, previous, failed, look);
      hide NoneBefore, StepBack, EdgesOnTheWay, ResizeDistance;
      if next != base {
        NoneBeforeResult(next, base, failed, realVisible, previous, look, proposed);
      }
    }
  }

  /** The title's pixels with the top edge moved. */
  function SeenAt(top: int, proposed: Rect, look: Rect -> Sight): int {
    look(proposed.(top := top)).realVisible
  }

  /** Up to `top` every move of the title's edge showed more of the title. */
  ghost predicate TopHelpsTo(top: int, proposed: Rect, look: Rect -> Sight) {
    forall t, u :: Before(t, proposed.top, u) && (Before(u, proposed.top, top) || u == top) ==>
      SeenAt(t, proposed, look) < SeenAt(u, proposed, look)
  }

  /** At `top` one more pixel back shows no more of the title. */
  predicate TopFails(top: int, proposed: Rect, previous: Rect, look: Rect -> Sight) {
    var next := if top < previous.top then top + 1 else top - 1;
    top != previous.top && SeenAt(next, proposed, look) <= SeenAt(top, proposed, look)
  }

  ghost predicate TopState(g: Rect, lastTry: Rect, titleFailed: bool, lastVisible: int, previous: Rect,
      look: Rect -> Sight, proposed: Rect) {
    if titleFailed then
      && g.top == lastTry.top && TopHelpsTo(g.top, proposed, look)
      && (g.top == previous.top || TopFails(g.top, proposed, previous, look))
    else
      || (g == lastTry == proposed && lastVisible == -1)
      || (&& TopHelpsTo(lastTry.top, proposed, look) && lastVisible == look(lastTry).realVisible
          && (lastTry == proposed.(top := lastTry.top) || lastTry.top == previous.top)
          && g == StepBack(lastTry, previous, false) && g != lastTry)
  }

  lemma TopHelpsOn(lastTry: Rect, g: Rect, previous: Rect, look: Rect -> Sight, proposed: Rect)
    requires EdgesOnTheWay(lastTry, proposed, previous) && TopHelpsTo(lastTry.top, proposed, look)
    requires lastTry == proposed.(top := lastTry.top) && lastTry.top != previous.top
    requires g == StepBack(lastTry, previous, false)
    ensures g == proposed.(top := g.top)
    ensures look(g).realVisible <= look(lastTry).realVisible ==> TopFails(lastTry.top, proposed, previous, look)
    ensures look(g).realVisible > look(lastTry).realVisible ==> TopHelpsTo(g.top, proposed, look)
  {
    assert SeenAt(lastTry.top, proposed, look) == look(lastTry).realVisible;
    assert SeenAt(g.top, proposed, look) == look(g).realVisible;
  }

  /** The title's edge moves back exactly as long as that helps. */
  lemma {:induction false} TopGoesAsFarAsItHelps(g: Rect, lastTry: Rect, titleFailed: bool, lastVisible: int,
      previous: Rect, look: Rect -> Sight, proposed: Rect)
    requires EdgesOnTheWay(g, proposed, previous) && EdgesOnTheWay(lastTry, proposed, previous)
    requires TopState(g, lastTry, titleFailed, lastVisible, previous, look, proposed)
    requires forall h :: look(h).realVisible >= 0
    ensures var r := RestrictResize(g, lastTry, titleFailed, lastVisible, previous, look);
            && (forall u :: Before(u, proposed.top, r.geometry.top) ==> TopHelpsTo(u, proposed, look))
            && (r.titleFailed ==>
                  && TopHelpsTo(r.geometry.top, proposed, look)
                  && (r.geometry.top == previous.top || TopFails(r.geometry.top, proposed, previous, look)))
    decreases if titleFailed then 0 else 1, ResizeDistance(g, previous)
  {
    var realVisible := look(g).realVisible;
    if !titleFailed && g != lastTry && lastTry.top != previous.top {
      TopHelpsOn(lastTry, g, previous, look, proposed);
    }
    if !look(g).Enough() && !(realVisible < lastVisible && titleFailed) {
      var failed := titleFailed || realVisible <= lastVisible;
      var base := if failed && !titleFailed then lastTry else g;
      var next := StepBack(base, previous, failed);
      StepBackIsOnTheWay(base, previous, failed, proposed);
      if next != base {
        TopGoesAsFarAsItHelps(next, base, failed, realVisible, previous, look, proposed);
      }
    }
  }

  /** From the edge of `g` up to, not including, `to` no pixel shows less of the title than one before. */
  ghost predicate LeftNoWorse(g: Rect, to: int, look: Rect -> Sight) {
    forall l, m :: Before(l, g.left, m) && Before(m, g.left, to) ==>
      look(g.(left := l)).realVisible <= look(g.(left := m)).realVisible
  }

  ghost predicate RightNoWorse(g: Rect, to: int, look: Rect -> Sight) {
    forall l, m :: Before(l, g.right, m) && Before(m, g.right, to) ==>
      look(g.(right := l)).realVisible <= look(g.(right := m)).realVisible
  }

  lemma LeftExtends(g: Rect, next: Rect, to: int, look: Rect -> Sight)
    requires next == g.(left := next.left) && (next.left == g.left + 1 <= to || next.left == g.left - 1 >= to)
    requires LeftNoWorse(next, to, look)
    requires to != next.left ==> look(g).realVisible <= look(next).realVisible
    ensures LeftNoWorse(g, to, look)
  {
    assert g.(left := g.left) == g && next.(left := next.left) == next;
    forall l, m | Before(l, g.left, m) && Before(m, g.left, to)
      ensures look(g.(left := l)).realVisible <= look(g.(left := m)).realVisible
    {
      assert g.(left := l) == next.(left := l) && g.(left := m) == next.(left := m);
    }
  }

  lemma RightExtends(g: Rect, next: Rect, to: int, look: Rect -> Sight)
    requires next == g.(right := next.right) && (next.right == g.right + 1 <= to || next.right == g.right - 1 >= to)
    requires RightNoWorse(next, to, look)
    requires to != next.right ==> look(g).realVisible <= look(next).realVisible
    ensures RightNoWorse(g, to, look)
  {
    assert g.(right := g.right) == g && next.(right := next.right) == next;
    forall l, m | Before(l, g.right, m) && Before(m, g.right, to)
      ensures look(g.(right := l)).realVisible <= look(g.(right := m)).realVisible
    {
      assert g.(right := l) == next.(right := l) && g.(right := m) == next.(right := m);
    }
  }

  /** Once the title's edge has failed, the edges beside it move back only while that shows no less of the
    * title. */
  lemma {:induction false} SidesGoWhileNoWorse(g: Rect, lastTry: Rect, lastVisible: int, previous: Rect,
      look: Rect -> Sight)
    ensures var r := RestrictResize(g, lastTry, true, lastVisible, previous, look).geometry;
            && r.top == g.top && r.bottom == g.bottom
            && OnTheWay(r.left, g.left, previous.left) && OnTheWay(r.right, g.right, previous.right)
            && (look(g).Enough() || look(g).realVisible < lastVisible ==> r == g)
            && LeftNoWorse(g, r.left, look) && (r.left == g.left ==> RightNoWorse(g, r.right, look))
    decreases ResizeDistance(g, previous)
  {
    if !look(g).Enough() && look(g).realVisible >= lastVisible {
      var next := StepBack(g, previous, true);
      if next != g {
        SidesGoWhileNoWorse(next, g, look(g).realVisible, previous, look);
        var r := RestrictResize(next, g, true, look(g).realVisible, previous, look).geometry;
        if next.left != g.left {
          hide LeftNoWorse, RightNoWorse;
          LeftExtends(g, next, r.left, look);
        } else {
          assert r.left == g.left;
          assert LeftNoWorse(g, r.left, look);
          hide LeftNoWorse, RightNoWorse;
          RightExtends(g, next, r.right, look);
        }
      }
    }
  }

  /** The result of a whole resize step is the closest geometry that shows enough of the title, as far as the
    * search goes: nothing before it does, and the title's edge goes as far as it helps. */
  lemma ResizeIsClosest(proposed: Rect, previous: Rect, look: Rect -> Sight)
    requires forall h :: look(h).realVisible >= 0
    ensures var r := RestrictResize(proposed, proposed, false, -1, previous, look);
            && NoneBefore(r.geometry, proposed, previous, r.titleFailed, look)
            && (forall u :: Before(u, proposed.top, r.geometry.top) ==> TopHelpsTo(u, proposed, look))
            && (r.titleFailed ==>
                  && TopHelpsTo(r.geometry.top, proposed, look)
                  && (r.geometry.top == previous.top || TopFails(r.geometry.top, proposed, previous, look)))
  {
    NoneBeforeResult(proposed, proposed, false, -1, previous, look, proposed);
    TopGoesAsFarAsItHelps(proposed, proposed, false, -1, previous, look, proposed);
  }

  // ---------------------------------------------------------------------------------------------
  // Restricted move

  datatype MoveStop = TitleReachable | BelowPanel(panel: Rect) | BackAtPrevious

  datatype Moved = Moved(geometry: Rect, stop: MoveStop)

  function MoveDistance(g: Rect, previous: Rect): nat {
    Abs(previous.left - g.left) + Abs(previous.top - g.top)
  }

  predicate SameSize(g: Rect, h: Rect) {
    g.Width() == h.Width() && g.Height() == h.Height()
  }

  /** One pixel back: sideways while part of the title is visible, else up or down first. */
  function MoveBack(g: Rect, previous: Rect, visible: int): Rect {
    var dx, dy := Sign(previous.left - g.left), Sign(previous.top - g.top);
    if visible != 0 && dx != 0 then g.Translated(dx, 0)
    else if dy != 0 then g.Translated(0, dy)
    else g.Translated(dx, dy)
  }

  /** The move loop. */
  function RestrictMove(g: Rect, previous: Rect, look: Rect -> Sight, outputs: nat): Moved
    requires SameSize(g, previous)
    decreases MoveDistance(g, previous)
  {
    var sight := look(g);
    if sight.Enough() then Moved(g, TitleReachable)
    else if outputs > 1 && sight.panel.Some? then
      Moved(g.MoveTop(sight.panel.value.bottom + 1), BelowPanel(sight.panel.value))
    else
      var next := MoveBack(g, previous, sight.visible);
      if next == previous then Moved(next, BackAtPrevious) else RestrictMove(next, previous, look, outputs)
  }

  /** The first row below the first top panel, or -1. */
  method FindTopPanel(struts: seq<Rect>, g: Rect) returns (newTitleTop: int)
    ensures var panel := FirstTopPanel(struts, g, 0);
            newTitleTop == (if panel.Some? then panel.value.bottom + 1 else -1) && (panel.Some? <==> newTitleTop > -1)
    ensures newTitleTop > -1 <==>
            exists r :: r in struts && r.top == 0 && r.Width() > r.Height() && r.Intersects(g) && g.top < r.bottom
  {
    newTitleTop := -1;
    var i := 0;
    while i < |struts|
      invariant i <= |struts| && newTitleTop == -1
      invariant FirstTopPanel(struts, g, i) == FirstTopPanel(struts, g, 0)
      invariant forall j :: 0 <= j < i ==> !IsTopPanel(struts[j], g)
    {
      var r := struts[i];
      if r.top == 0 && r.Width() > r.Height() && r.Intersects(g) && g.top < r.bottom {
        assert IsTopPanel(r, g);
        newTitleTop := r.bottom + 1;
        return;
      }
      i := i + 1;
    }
  }

  method RestrictedMove(proposed: Rect, previous: Rect, topBorder: int, areas: seq<Rect>, struts: seq<Rect>,
      outputs: nat)
    returns (geometry: Rect)
    requires SameSize(proposed, previous)
    ensures geometry ==
            RestrictMove(proposed, previous, Looking(areas, TitleOf(proposed, topBorder), struts), outputs).geometry
  {
    hide Visible, RealVisible, FirstTopPanel;
    geometry := proposed;
    var title := TitleOf(proposed, topBorder);
    ghost var look := Looking(areas, title, struts);
    while true
      invariant SameSize(geometry, previous)
      invariant RestrictMove(geometry, previous, look, outputs) == RestrictMove(proposed, previous, look, outputs)
      decreases MoveDistance(geometry, previous)
    {
      var moved := geometry;
      var visiblePixels, _ := CountPixels(areas, title, moved);
      if visiblePixels >= title.required {
        return;
      }
      if outputs > 1 {
        var newTitleTop := FindTopPanel(struts, moved);
        if newTitleTop > -1 {
          geometry := moved.MoveTop(newTitleTop);
          return;
        }
      }
      var dx, dy := Sign(previous.left - moved.left), Sign(previous.top - moved.top);
      if visiblePixels != 0 && dx != 0 {
        dy := 0;
      } else if dy != 0 {
        dx := 0;
      }
      moved := moved.Translated(dx, dy);
      geometry := moved;
      if moved == previous {
        return;
      }
    }
  }

  /** From `g` to `h` the window moves one pixel toward the previous position: sideways while part of the
    * title is visible and as long as the sides are not back, else up or down, and sideways after that. */
  predicate IsPixelBack(g: Rect, h: Rect, previous: Rect, visible: int) {
    if g.left != previous.left && (visible != 0 || g.top == previous.top) then
      h == g.Translated(if g.left < previous.left then 1 else -1, 0)
    else
      g.top != previous.top && h == g.Translated(0, if g.top < previous.top then 1 else -1)
  }

  /** The positions a move goes through, pixel by pixel; none but the last shows enough of the title or, with
    * several outputs, reaches into a top panel. So it takes the first one that does. */
  lemma {:induction false} MoveTakesTheFirst(g: Rect, previous: Rect, look: Rect -> Sight, outputs: nat)
    returns (path: seq<Rect>)
    requires SameSize(g, previous)
    ensures path != [] && path[0] == g
    ensures forall i :: 0 <= i < |path| - 1 ==>
              && !look(path[i]).Enough() && (outputs > 1 ==> look(path[i]).panel.None?)
              && IsPixelBack(path[i], path[i + 1], previous, look(path[i]).visible)
    ensures var r, last := RestrictMove(g, previous, look, outputs), path[|path| - 1];
            match r.stop
            case TitleReachable => r.geometry == last && look(last).Enough()
            case BelowPanel(panel) =>
              && !look(last).Enough() && outputs > 1 && look(last).panel == Some(panel)
              && r.geometry == Sized(last.left, panel.bottom + 1, last.Width(), last.Height())
            case BackAtPrevious => r.geometry == last == previous
    decreases MoveDistance(g, previous)
  {
    path := [g];
    var sight := look(g);
    if !sight.Enough() && !(outputs > 1 && sight.panel.Some?) {
      var next := MoveBack(g, previous, sight.visible);
      if next != previous {
        var rest := MoveTakesTheFirst(next, previous, look, outputs);
        path := [g] + rest;
      } else if g != previous {
        path := [g, previous];
      }
    }
  }

  /** A move keeps the size, stays on the way back, and stops with enough of the title visible, at the
    * previous position, or directly below a top panel, the last only with several outputs. */
  lemma {:induction false} MoveStaysOnTheWay(g: Rect, previous: Rect, look: Rect -> Sight, outputs: nat, proposed: Rect)
    requires SameSize(g, previous)
    requires OnTheWay(g.left, proposed.left, previous.left) && OnTheWay(g.top, proposed.top, previous.top)
    ensures var r := RestrictMove(g, previous, look, outputs);
            && SameSize(r.geometry, previous)
            && OnTheWay(r.geometry.left, proposed.left, previous.left)
            && match r.stop
               case TitleReachable => look(r.geometry).Enough() && OnTheWay(r.geometry.top, proposed.top, previous.top)
               case BackAtPrevious => r.geometry == previous
               case BelowPanel(panel) =>
                 outputs > 1 && r.geometry.top == panel.bottom + 1 && exists at :: look(at).panel == Some(panel)
    decreases MoveDistance(g, previous)
  {
    var sight := look(g);
    if !sight.Enough() && !(outputs > 1 && sight.panel.Some?) {
      var next := MoveBack(g, previous, sight.visible);
      if next != previous {
        MoveStaysOnTheWay(next, previous, look, outputs, proposed);
      }
    }
  }

  /** With one output, a proposal is taken as is exactly when it shows enough of the title or proposes
    * no change; any other proposal ends where enough is visible or where the window was. */
  lemma ProposalTakenExactly(proposed: Rect, previous: Rect, look: Rect -> Sight, outputs: nat)
    requires SameSize(proposed, previous) && outputs <= 1
    ensures var r := RestrictMove(proposed, previous, look, outputs).geometry;
            && (r == proposed <==> look(proposed).Enough() || proposed == previous)
            && (r == previous || look(r).Enough())
  {
    MoveStaysOnTheWay(proposed, previous, look, outputs, proposed);
    if !look(proposed).Enough() && proposed != previous {
      var next := MoveBack(proposed, previous, look(proposed).visible);
      if next != previous {
        MovesOn(next, previous, look, outputs, proposed);
      }
    }
  }

  /** The loop never returns to a position that is further away. */
  lemma {:induction false} MovesOn(g: Rect, previous: Rect, look: Rect -> Sight, outputs: nat, from: Rect)
    requires SameSize(g, previous) && outputs <= 1
    requires MoveDistance(g, previous) < MoveDistance(from, previous)
    ensures MoveDistance(RestrictMove(g, previous, look, outputs).geometry, previous) < MoveDistance(from, previous)
    decreases MoveDistance(g, previous)
  {
    if !look(g).Enough() {
      var next := MoveBack(g, previous, look(g).visible);
      if next != previous {
        MovesOn(next, previous, look, outputs, from);
      }
    }
  }

  /** A drag: the pointer proposes one position after the other. */
  function Drag(start: Rect, proposals: seq<(int, int)>, look: Rect -> Sight, outputs: nat): Rect {
    if proposals == [] then start
    else
      var previous := Drag(start, proposals[..|proposals| - 1], look, outputs);
      var (x, y) := proposals[|proposals| - 1];
      RestrictMove(Sized(x, y, previous.Width(), previous.Height()), previous, look, outputs).geometry
  }

  /** The frame's top is directly below a top panel. */
  ghost predicate IsBelowPanel(g: Rect, look: Rect -> Sight) {
    exists at :: look(at).panel.Some? && g.top == look(at).panel.value.bottom + 1
  }

  /** Over a whole drag the title bar stays reachable: with one output it is visible enough after
    * every step; with several, a step may instead leave the frame directly below a top panel. */
  lemma {:induction false} DragKeepsTitleReachable(start: Rect, proposals: seq<(int, int)>, look: Rect -> Sight,
      outputs: nat)
    requires look(start).Enough()
    ensures var g := Drag(start, proposals, look, outputs);
            && SameSize(g, start)
            && (outputs <= 1 ==> look(g).Enough())
            && (look(g).Enough() || IsBelowPanel(g, look))
  {
    if proposals != [] {
      var front := proposals[..|proposals| - 1];
      DragKeepsTitleReachable(start, front, look, outputs);
      var previous := Drag(start, front, look, outputs);
      var (x, y) := proposals[|proposals| - 1];
      var proposed := Sized(x, y, previous.Width(), previous.Height());
      MoveStaysOnTheWay(proposed, previous, look, outputs, proposed);
    }
  }

  /** The same in terms of the title bar, the free areas and the struts. */
  lemma TitleBarStaysReachable(start: Rect, proposals: seq<(int, int)>, topBorder: int, areas: seq<Rect>,
                               struts: seq<Rect>, outputs: nat)
    ensures var g := Drag(start, proposals, Looking(areas, TitleOf(start, topBorder), struts), outputs);
            Reachable(areas, TitleOf(start, topBorder), start) ==>
              Reachable(areas, TitleOf(g, topBorder), g) ||
              (outputs > 1 && exists panel :: panel in struts && panel.top == 0 && g.top == panel.bottom + 1)
  {
    if !Reachable(areas, TitleOf(start, topBorder), start) {
      return;
    }
    var look := Looking(areas, TitleOf(start, topBorder), struts);
    LookingFitsDrag(areas, struts, topBorder, start, start);
    DragKeepsTitleReachable(start, proposals, look, outputs);
    var g := Drag(start, proposals, look, outputs);
    LookingFitsDrag(areas, struts, topBorder, start, g);
    if !look(g).Enough() {
      var at :| look(at).panel.Some? && g.top == look(at).panel.value.bottom + 1;
      FirstTopPanelIsPanel(struts, at, 0);
      assert look(at).panel == FirstTopPanel(struts, at, 0);
    }
  }

  /** What `look` is in a drag: the title's size and what has to be visible do not change, because a
    * move keeps the frame's size; and the panels are struts at the top edge. */
  lemma LookingFitsDrag(areas: seq<Rect>, struts: seq<Rect>, topBorder: int, g: Rect, h: Rect)
    requires SameSize(g, h)
    ensures TitleOf(g, topBorder) == TitleOf(h, topBorder)
    ensures var look := Looking(areas, TitleOf(g, topBorder), struts);
            && (look(h).Enough() <==> Reachable(areas, TitleOf(g, topBorder), h))
            && (look(h).panel.Some? ==> look(h).panel.value in struts && IsTopPanel(look(h).panel.value, h))
  {
    FirstTopPanelIsPanel(struts, h, 0);
  }

  /** The search finds the first strut at the top edge that is wider than high and that the frame reaches
    * into, exactly if there is one. */
  lemma {:induction false} FirstTopPanelIsPanel(struts: seq<Rect>, g: Rect, i: nat)
    requires i <= |struts|
    ensures match FirstTopPanel(struts, g, i)
            case None =>
              forall j {:trigger struts[j]} :: i <= j < |struts| ==>
                !(struts[j].top == 0 && struts[j].Width() > struts[j].Height() && struts[j].Intersects(g) &&
                  g.top < struts[j].bottom)
            case Some(r) =>
              && r.top == 0 && r.Width() > r.Height() && r.Intersects(g) && g.top < r.bottom
              && exists k :: i <= k < |struts| && struts[k] == r &&
                   forall j :: i <= j < k ==> !IsTopPanel(struts[j], g)
    decreases |struts| - i
  {
    if i < |struts| && !IsTopPanel(struts[i], g) {
      FirstTopPanelIsPanel(struts, g, i + 1);
    }
  }
}
