/** Keeping a window inside the work area when screens, struts or subspaces change. */
module WorkArea {
  import opened Rects

  /** The first usable row and column, and the first unusable ones behind them. */
  datatype Bounds = Bounds(top: int, right: int, bottom: int, left: int)

  /** The struts of one subspace, by the screen edge they reserve. */
  datatype Struts = Struts(top: seq<Rect>, right: seq<Rect>, bottom: seq<Rect>, left: seq<Rect>)

  datatype Border = Border(left: int, top: int, right: int, bottom: int)

  /** The largest of `start` and the ends of the struts that meet `area`. */
  function LargestEnd(struts: seq<Rect>, area: Rect, start: int, end: Rect -> int): int {
    if struts == [] then start
    else
      var bound, r := LargestEnd(struts[..|struts| - 1], area, start, end), struts[|struts| - 1].And(area);
      if r.IsEmpty() then bound else Max(bound, end(r))
  }

  /** The smallest of `start` and the beginnings of the struts that meet `area`. */
  function SmallestStart(struts: seq<Rect>, area: Rect, start: int, begin: Rect -> int): int {
    if struts == [] then start
    else
      var bound, r := SmallestStart(struts[..|struts| - 1], area, start, begin), struts[|struts| - 1].And(area);
      if r.IsEmpty() then bound else Min(bound, begin(r))
  }

  /** The frame's columns over the full height of the screen. */
  function Tall(frame: Rect, screen: Rect): Rect {
    Rect(frame.left, screen.top, frame.right, screen.bottom)
  }

  /** The frame's rows over the full width of the screen. */
  function Wide(frame: Rect, screen: Rect): Rect {
    Rect(screen.left, frame.top, screen.right, frame.bottom)
  }

  function Below(): Rect -> int { (r: Rect) => r.bottom + 1 }

  function RightOf(): Rect -> int { (r: Rect) => r.right + 1 }

  function FirstRow(): Rect -> int { (r: Rect) => r.top }

  function FirstColumn(): Rect -> int { (r: Rect) => r.left }

  function AreaBounds(frame: Rect, screen: Rect, struts: Struts): Bounds {
    Bounds(LargestEnd(struts.top, Tall(frame, screen), screen.top, Below()),
           SmallestStart(struts.right, Wide(frame, screen), screen.right + 1, FirstColumn()),
           SmallestStart(struts.bottom, Tall(frame, screen), screen.bottom + 1, FirstRow()),
           LargestEnd(struts.left, Wide(frame, screen), screen.left, RightOf()))
  }

  /** Where a frame far off the screen is brought back to. */
  function OnScreen(frame: Rect, screen: Rect): Rect {
    var f := if frame.left > screen.right then frame.MoveLeft(screen.right - Quarter(screen.Width()))
             else if frame.right < screen.left then frame.MoveRight(screen.left + Quarter(screen.Width()))
             else frame;
    if f.top > screen.bottom then f.MoveTop(screen.bottom - Quarter(screen.Height()))
    else if f.bottom < screen.top then f.MoveBottom(screen.top + Quarter(screen.Height()))
    else f
  }

  /** One axis of a frame. */
  datatype Span = Span(first: int, last: int) {
    function Length(): int { last - first + 1 }
  }

  function Columns(r: Rect): Span { Span(r.left, r.right) }

  function Rows(r: Rect): Span { Span(r.top, r.bottom) }

  /** What has to happen on one axis of a window that was at `was` within or over the edges of the
    * old bounds. An edge it hung out over is not enforced. A window that stuck to one edge is brought
    * back to it; one that overlaps an edge is pushed in, and cut at the near edge if it is too long.
    * The far edge wins. */
  function Settled(now: Span, bounds: Span, was: Span, oldBounds: Span): Span {
    var inFirst, inLast := oldBounds.first <= was.first, was.last <= oldBounds.last;
    var keepFirst := was.first == oldBounds.first && now.first != bounds.first;
    var keepLast := was.last == oldBounds.last && now.last != bounds.last;
    if (inLast && now.last > bounds.last) || (keepLast && !keepFirst) then
      var first := bounds.last - now.Length() + 1;
      Span(if inFirst then Max(bounds.first, first) else first, bounds.last)
    else if (inFirst && now.first < bounds.first) || (keepFirst && !keepLast) then
      Span(bounds.first, bounds.first + now.Length() - 1)
    else now
  }

  /** The corrections in the order they are made: the near edge, the far edge, the cut. */
  function Stepwise(now: Span, bounds: Span, correctFirst: bool, correctLast: bool, cutFirst: bool): Span {
    var near := if correctFirst then Span(bounds.first, bounds.first + now.Length() - 1) else now;
    var far := if correctLast then Span(bounds.last - near.Length() + 1, bounds.last) else near;
    if cutFirst && far.first < bounds.first then Span(bounds.first, far.last) else far
  }

  lemma StepwiseIsSettled(now: Span, bounds: Span, was: Span, oldBounds: Span)
    ensures var inFirst, inLast := oldBounds.first <= was.first, was.last <= oldBounds.last;
            var touchFirst := was.first == oldBounds.first && now.first != bounds.first;
            var touchLast := was.last == oldBounds.last && now.last != bounds.last;
            Stepwise(now, bounds, (inFirst && now.first < bounds.first) || (touchFirst && !touchLast),
                     (inLast && now.last > bounds.last) || (touchLast && !touchFirst), inFirst) ==
            Settled(now, bounds, was, oldBounds)
  {
  }

  function ColumnBounds(b: Bounds): Span { Span(b.left, b.right - 1) }

  function RowBounds(b: Bounds): Span { Span(b.top, b.bottom - 1) }

  predicate Within(s: Span, bounds: Span) {
    bounds.first <= s.first && s.last <= bounds.last
  }

  function SettledFrame(frame: Rect, oldFrame: Rect, oldBounds: Bounds, bounds: Bounds): Rect {
    var h := Settled(Columns(frame), ColumnBounds(bounds), Columns(oldFrame), ColumnBounds(oldBounds));
    var v := Settled(Rows(frame), RowBounds(bounds), Rows(oldFrame), RowBounds(oldBounds));
    Rect(h.first, v.first, h.last, v.last)
  }

  predicate FrameWithin(frame: Rect, bounds: Bounds) {
    Within(Columns(frame), ColumnBounds(bounds)) && Within(Rows(frame), RowBounds(bounds))
  }

  /** No edge of the bounds cuts the decoration: on each side the frame is within the bounds or the
    * client area hangs out, too. */
  predicate IsUncut(frame: Rect, client: Rect, bounds: Bounds) {
    && client.Inside(frame)
    && (bounds.left <= frame.left || client.left < bounds.left)
    && (bounds.top <= frame.top || client.top < bounds.top)
    && (frame.right < bounds.right || bounds.right <= client.right)
    && (frame.bottom < bounds.bottom || bounds.bottom <= client.bottom)
  }

  predicate Fits(frame: Rect, bounds: Bounds) {
    frame.IsValid() && frame.Width() <= bounds.right - bounds.left && frame.Height() <= bounds.bottom - bounds.top
  }

  // ---------------------------------------------------------------------------------------------

  method FindLargestEnd(struts: seq<Rect>, area: Rect, start: int, end: Rect -> int) returns (bound: int)
    ensures bound == LargestEnd(struts, area, start, end)
    ensures start <= bound
    ensures forall r :: r in struts && r.Intersects(area) ==> end(r.And(area)) <= bound
    ensures bound == start || exists r :: r in struts && r.Intersects(area) && bound == end(r.And(area))
  {
    bound := start;
    for i := 0 to |struts|
      invariant bound == LargestEnd(struts[..i], area, start, end) && start <= bound
      invariant forall j :: 0 <= j < i && struts[j].Intersects(area) ==> end(struts[j].And(area)) <= bound
      invariant bound == start || exists r :: r in struts && r.Intersects(area) && bound == end(r.And(area))
    {
      assert struts[..i + 1][..i] == struts[..i];
      var rect := struts[i].And(area);
      if !rect.IsEmpty() {
        bound := Max(bound, end(rect));
      }
    }
    assert struts[..|struts|] == struts;
  }

  method FindSmallestStart(struts: seq<Rect>, area: Rect, start: int, begin: Rect -> int) returns (bound: int)
    ensures bound == SmallestStart(struts, area, start, begin)
    ensures bound <= start
    ensures forall r :: r in struts && r.Intersects(area) ==> bound <= begin(r.And(area))
    ensures bound == start || exists r :: r in struts && r.Intersects(area) && bound == begin(r.And(area))
  {
    bound := start;
    for i := 0 to |struts|
      invariant bound == SmallestStart(struts[..i], area, start, begin) && bound <= start
      invariant forall j :: 0 <= j < i && struts[j].Intersects(area) ==> bound <= begin(struts[j].And(area))
      invariant bound == start || exists r :: r in struts && r.Intersects(area) && bound == begin(r.And(area))
    {
      assert struts[..i + 1][..i] == struts[..i];
      var rect := struts[i].And(area);
      if !rect.IsEmpty() {
        bound := Min(bound, begin(rect));
      }
    }
    assert struts[..|struts|] == struts;
  }

  method FindBounds(frame: Rect, screen: Rect, struts: Struts) returns (b: Bounds)
    ensures b == AreaBounds(frame, screen, struts)
    ensures screen.top <= b.top && b.right <= screen.right + 1 && b.bottom <= screen.bottom + 1 && screen.left <= b.left
  {
    var top := FindLargestEnd(struts.top, Tall(frame, screen), screen.top, Below());
    var right := FindSmallestStart(struts.right, Wide(frame, screen), screen.right + 1, FirstColumn());
    var bottom := FindSmallestStart(struts.bottom, Tall(frame, screen), screen.bottom + 1, FirstRow());
    var left := FindLargestEnd(struts.left, Wide(frame, screen), screen.left, RightOf());
    b := Bounds(top, right, bottom, left);
  }

  /** Each axis on its own. */
  predicate IsBroughtBack(frame: Rect, screen: Rect, frame': Rect) {
    && (frame.left > screen.right ==> frame'.left == screen.right - screen.Width() / 4)
    && (frame.right < screen.left && frame.left <= screen.right ==> frame'.right == screen.left + screen.Width() / 4)
    && (frame.left <= screen.right && frame.right >= screen.left ==> Columns(frame') == Columns(frame))
    && (frame.top > screen.bottom ==> frame'.top == screen.bottom - screen.Height() / 4)
    && (frame.bottom < screen.top && frame.top <= screen.bottom ==>
          frame'.bottom == screen.top + screen.Height() / 4)
    && (frame.top <= screen.bottom && frame.bottom >= screen.top ==> Rows(frame') == Rows(frame))
  }

  method CheckOffscreenPosition(frame: Rect, screen: Rect) returns (frame': Rect)
    ensures frame' == OnScreen(frame, screen)
    ensures frame.IsValid() && screen.IsValid() ==> frame'.Intersects(screen)
    ensures frame.Intersects(screen) ==> frame' == frame
    ensures screen.IsValid() ==> IsBroughtBack(frame, screen, frame')
    ensures frame'.Width() == frame.Width() && frame'.Height() == frame.Height()
  {
    OnScreenMeetsScreen(frame, screen);
    hide Quarter, IsBroughtBack;
    frame' := frame;
    if frame'.left > screen.right {
      frame' := frame'.MoveLeft(screen.right - Quarter(screen.Width()));
    } else if frame'.right < screen.left {
      frame' := frame'.MoveRight(screen.left + Quarter(screen.Width()));
    }
    if frame'.top > screen.bottom {
      frame' := frame'.MoveTop(screen.bottom - Quarter(screen.Height()));
    } else if frame'.bottom < screen.top {
      frame' := frame'.MoveBottom(screen.top + Quarter(screen.Height()));
    }
  }

  /** How many outputs a frame meets. */
  function Intersecting(outputs: seq<Rect>, frame: Rect): nat {
    if outputs == [] then 0
    else Intersecting(outputs[..|outputs| - 1], frame) + (if outputs[|outputs| - 1].Intersects(frame) then 1 else 0)
  }

  /** Which sides stick (`keep`), which were left (`save`), and by how much the decoration may hang
    * out on each (`padding`). */
  datatype Sides<T> = Sides(left: T, top: T, right: T, bottom: T)

  datatype Corrections = Corrections(keep: Sides<bool>, save: Sides<bool>, padding: Sides<int>)

  /** On each side: whether the frame sticks to the edge it touched, or the client area does and the
    * decoration hangs out; and whether the frame was inside but is no longer. A window that touched
    * opposing edges sticks to neither. */
  function CorrectionsFor(frame: Rect, border: Border, oldFrame: Rect, oldClient: Rect, oldB: Bounds, b: Bounds):
    Corrections
  {
    var client := frame.Adjusted(border.left, border.top, -border.right, -border.bottom);
    var sticks := Sides(
      if oldFrame.left == oldB.left then frame.left != b.left
      else oldClient.left == oldB.left && client.left != b.left,
      if oldFrame.top == oldB.top then frame.top != b.top
      else oldClient.top == oldB.top && client.top != b.top,
      if oldFrame.right == oldB.right - 1 then frame.right != b.right - 1
      else oldClient.right == oldB.right - 1 && client.right != b.right - 1,
      if oldFrame.bottom == oldB.bottom - 1 then frame.bottom != b.bottom - 1
      else oldClient.bottom == oldB.bottom - 1 && client.bottom != b.bottom - 1);
    var keep := Sides(sticks.left && !sticks.right, sticks.top && !sticks.bottom,
                      sticks.right && !sticks.left, sticks.bottom && !sticks.top);
    Corrections(
      keep,
      Sides(oldB.left <= oldFrame.left && frame.left < b.left,
            oldB.top <= oldFrame.top && frame.top < b.top,
            oldFrame.right < oldB.right && b.right <= frame.right,
            oldFrame.bottom < oldB.bottom && b.bottom <= frame.bottom),
      Sides(if keep.left && oldFrame.left != oldB.left then border.left else 0,
            if keep.top && oldFrame.top != oldB.top then border.left else 0,
            if keep.right && oldFrame.right != oldB.right - 1 then border.right else 0,
            if keep.bottom && oldFrame.bottom != oldB.bottom - 1 then border.bottom else 0))
  }

  /** A frame that meets several outputs. */
  predicate IsCrowded(outputs: seq<Rect>, frame: Rect) {
    Intersecting(outputs, frame) > 1
  }

  /** `moved` with a hanging decoration, or `back` without if that reaches into another output. */
  function Hanging(outputs: seq<Rect>, padding: int, moved: Rect, back: Rect): Rect {
    if padding != 0 && IsCrowded(outputs, moved) then back else moved
  }

  function NearCorrected(geo: Rect, c: Corrections, b: Bounds, outputs: seq<Rect>): Rect {
    var left := if c.save.left || c.keep.left then geo.MoveLeft(b.left - c.padding.left) else geo;
    var g := Hanging(outputs, c.padding.left, left, left.MoveLeft(left.left + c.padding.left));
    var top := if c.save.top || c.keep.top then g.MoveTop(b.top - c.padding.top) else g;
    Hanging(outputs, c.padding.top, top, top.MoveTop(top.top + c.padding.top))
  }

  function RightCorrected(geo: Rect, c: Corrections, border: Border, frameWasIn: bool, clientWasIn: bool, b: Bounds,
      outputs: seq<Rect>): Rect
  {
    var right := if c.save.right || c.keep.right then geo.MoveRight(b.right - 1 + c.padding.right) else geo;
    var g := Hanging(outputs, c.padding.right, right, right.MoveRight(right.right - c.padding.right));
    if frameWasIn && g.left < b.left then g.(left := b.left)
    else if clientWasIn && g.left + border.left < b.left then
      var cut := g.(left := b.left - border.left);
      if IsCrowded(outputs, cut) then g.(left := b.left) else cut
    else g
  }

  function BottomCorrected(geo: Rect, c: Corrections, border: Border, frameWasIn: bool, clientWasIn: bool, b: Bounds,
      outputs: seq<Rect>): Rect
  {
    var bottom := if c.save.bottom || c.keep.bottom then geo.MoveBottom(b.bottom - 1 + c.padding.bottom) else geo;
    var g := Hanging(outputs, c.padding.bottom, bottom, bottom.MoveBottom(bottom.bottom - c.padding.bottom));
    if frameWasIn && g.top < b.top then g.(top := b.top)
    else if clientWasIn && g.top + border.top < b.top then
      var cut := g.(top := b.top - border.top);
      if IsCrowded(outputs, cut) then g.(top := b.top) else cut
    else g
  }

  /** All corrections, side after side. */
  function CorrectedFrame(frame: Rect, border: Border, oldFrame: Rect, oldClient: Rect, oldB: Bounds, b: Bounds,
      outputs: seq<Rect>): Rect
  {
    var c := CorrectionsFor(frame, border, oldFrame, oldClient, oldB, b);
    var near := NearCorrected(frame, c, b, outputs);
    var right := RightCorrected(near, c, border, oldB.left <= oldFrame.left, oldB.left <= oldClient.left, b, outputs);
    BottomCorrected(right, c, border, oldB.top <= oldFrame.top, oldB.top <= oldClient.top, b, outputs)
  }

  class Window {
    var frame: Rect
    const border: Border
    /** Desktops, docks, notifications and on-screen displays are not moved. */
    const unmanaged: bool
    var fullscreen: bool
    var maximized: bool
    var quicktiled: bool

    constructor (frame: Rect, border: Border, unmanaged: bool)
      ensures this.frame == frame && this.border == border && this.unmanaged == unmanaged
      ensures !fullscreen && !maximized && !quicktiled
    {
      this.frame, this.border, this.unmanaged := frame, border, unmanaged;
      fullscreen, maximized, quicktiled := false, false, false;
    }

    /** What has to be corrected on each side; see `SideToCorrect`. */
    method SidesToCorrect(oldFrame: Rect, oldClient: Rect, oldB: Bounds, b: Bounds)
      returns (keep: Sides<bool>, save: Sides<bool>, padding: Sides<int>)
      ensures Corrections(keep, save, padding) == CorrectionsFor(frame, border, oldFrame, oldClient, oldB, b)
    {
      var client := frame.Adjusted(border.left, border.top, -border.right, -border.bottom);
      var keepLeft, saveLeft, padLeft := SideToCorrect(
        oldFrame.left >= oldB.left, oldFrame.left == oldB.left, oldClient.left == oldB.left,
        frame.left < b.left, frame.left != b.left, client.left != b.left, border.left);
      var keepTop, saveTop, padTop := SideToCorrect(
        oldFrame.top >= oldB.top, oldFrame.top == oldB.top, oldClient.top == oldB.top,
        frame.top < b.top, frame.top != b.top, client.top != b.top, border.left);
      var keepRight, saveRight, padRight := SideToCorrect(
        oldFrame.right <= oldB.right - 1, oldFrame.right == oldB.right - 1, oldClient.right == oldB.right - 1,
        frame.right > b.right - 1, frame.right != b.right - 1, client.right != b.right - 1, border.right);
      var keepBottom, saveBottom, padBottom := SideToCorrect(
        oldFrame.bottom <= oldB.bottom - 1, oldFrame.bottom == oldB.bottom - 1, oldClient.bottom == oldB.bottom - 1,
        frame.bottom > b.bottom - 1, frame.bottom != b.bottom - 1, client.bottom != b.bottom - 1, border.bottom);
      save := Sides(saveLeft, saveTop, saveRight, saveBottom);
      keep, padding := FavorNeither(Sides(keepLeft, keepTop, keepRight, keepBottom),
          Sides(padLeft, padTop, padRight, padBottom));
    }

    /** One side: whether it was inside or touching (`was...`) but is no longer (`now...`). */
    method SideToCorrect(wasInside: bool, wasTouching: bool, clientWasTouching: bool,
                         nowOutside: bool, nowApart: bool, clientNowApart: bool, width: int)
      returns (keep: bool, save: bool, padding: int)
      ensures save == (wasInside && nowOutside)
      ensures keep == if wasTouching then nowApart else clientWasTouching && clientNowApart
      ensures padding == if keep && !wasTouching then width else 0
    {
      keep, save, padding := false, false, 0;
      if wasInside {
        save := nowOutside;
      }
      if wasTouching {
        keep := nowApart;
      } else if clientWasTouching && clientNowApart {
        padding := width;
        keep := true;
      }
    }

    /** A window that touches opposing edges sticks to neither. */
    method FavorNeither(keep0: Sides<bool>, padding0: Sides<int>) returns (keep: Sides<bool>, padding: Sides<int>)
      ensures keep == Sides(keep0.left && !keep0.right, keep0.top && !keep0.bottom,
                            keep0.right && !keep0.left, keep0.bottom && !keep0.top)
      ensures padding == Sides(if keep0.left && keep0.right then 0 else padding0.left,
                               if keep0.top && keep0.bottom then 0 else padding0.top,
                               if keep0.left && keep0.right then 0 else padding0.right,
                               if keep0.top && keep0.bottom then 0 else padding0.bottom)
    {
      keep, padding := keep0, padding0;
      if keep.left && keep.right {
        keep := keep.(left := false, right := false);
        padding := padding.(left := 0, right := 0);
      }
      if keep.top && keep.bottom {
        keep := keep.(top := false, bottom := false);
        padding := padding.(top := 0, bottom := 0);
      }
    }

    method CorrectNearSides(geo0: Rect, keep: Sides<bool>, save: Sides<bool>, padding: Sides<int>,
                            b: Bounds, screen: Rect, outputs: seq<Rect>)
      returns (geo: Rect)
      requires screen.left <= b.left && screen.top <= b.top
      ensures geo == NearCorrected(geo0, Corrections(keep, save, padding), b, outputs)
    {
      hide Intersecting;
      geo := geo0;
      if save.left || keep.left {
        geo := geo.MoveLeft(Max(b.left, screen.left) - padding.left);
      }
      if padding.left != 0 && Intersecting(outputs, geo) > 1 {
        geo := geo.MoveLeft(geo.left + padding.left);
      }
      if save.top || keep.top {
        geo := geo.MoveTop(Max(b.top, screen.top) - padding.top);
      }
      if padding.top != 0 && Intersecting(outputs, geo) > 1 {
        geo := geo.MoveTop(geo.top + padding.top);
      }
    }

    method CorrectRight(geo0: Rect, keep: Sides<bool>, save: Sides<bool>, padding: Sides<int>, oldFrame: Rect,
                        oldClient: Rect, oldB: Bounds, b: Bounds, screen: Rect, outputs: seq<Rect>)
      returns (geo: Rect)
      requires screen.left <= b.left && b.right <= screen.right + 1
      ensures geo == RightCorrected(geo0, Corrections(keep, save, padding), border, oldB.left <= oldFrame.left,
                                    oldB.left <= oldClient.left, b, outputs)
    {
      hide Intersecting;
      geo := geo0;
      if save.right || keep.right {
        geo := geo.MoveRight(Min(b.right - 1, screen.right) + padding.right);
      }
      if padding.right != 0 && Intersecting(outputs, geo) > 1 {
        geo := geo.MoveRight(geo.right - padding.right);
      }
      if oldFrame.left >= oldB.left && geo.left < b.left {
        geo := geo.(left := Max(b.left, screen.left));
      } else if oldClient.left >= oldB.left && geo.left + border.left < b.left {
        geo := geo.(left := Max(b.left, screen.left) - border.left);
        if Intersecting(outputs, geo) > 1 {
          geo := geo.(left := geo.left + border.left);
        }
      }
    }

    method CorrectBottom(geo0: Rect, keep: Sides<bool>, save: Sides<bool>, padding: Sides<int>, oldFrame: Rect,
                         oldClient: Rect, oldB: Bounds, b: Bounds, screen: Rect, outputs: seq<Rect>)
      returns (geo: Rect)
      requires screen.top <= b.top && b.bottom <= screen.bottom + 1
      ensures geo == BottomCorrected(geo0, Corrections(keep, save, padding), border, oldB.top <= oldFrame.top,
                                     oldB.top <= oldClient.top, b, outputs)
    {
      hide Intersecting;
      geo := geo0;
      if save.bottom || keep.bottom {
        geo := geo.MoveBottom(Min(b.bottom - 1, screen.bottom) + padding.bottom);
      }
      if padding.bottom != 0 && Intersecting(outputs, geo) > 1 {
        geo := geo.MoveBottom(geo.bottom - padding.bottom);
      }
      if oldFrame.top >= oldB.top && geo.top < b.top {
        geo := geo.(top := Max(b.top, screen.top));
      } else if oldClient.top >= oldB.top && geo.top + border.top < b.top {
        geo := geo.(top := Max(b.top, screen.top) - border.top);
        if Intersecting(outputs, geo) > 1 {
          geo := geo.(top := geo.top + border.top);
        }
      }
    }

    method CorrectSides(oldFrame: Rect, oldClient: Rect, oldB: Bounds, b: Bounds, screen: Rect, outputs: seq<Rect>)
      returns (geo: Rect)
      requires screen.top <= b.top && b.right <= screen.right + 1 && b.bottom <= screen.bottom + 1 &&
          screen.left <= b.left
      ensures geo == CorrectedFrame(frame, border, oldFrame, oldClient, oldB, b, outputs)
    {
      hide Intersecting, CorrectionsFor, NearCorrected, RightCorrected, BottomCorrected;
      var keep, save, padding := SidesToCorrect(oldFrame, oldClient, oldB, b);
      geo := CorrectNearSides(frame, keep, save, padding, b, screen, outputs);
      geo := CorrectRight(geo, keep, save, padding, oldFrame, oldClient, oldB, b, screen, outputs);
      geo := CorrectBottom(geo, keep, save, padding, oldFrame, oldClient, oldB, b, screen, outputs);
    }

    /** Brings the window back into the work area. `maximizedFrame` is the frame a maximized window
      * gets from its area, and `quicktileArea` the area of its tile. */
    method CheckWorkspacePosition(oldFrame0: Rect, oldClient0: Rect, oldScreen: Rect, screen: Rect,
                                  oldStruts: Struts, struts: Struts, outputs: seq<Rect>, fullscreenArea: Rect,
                                  maximizedFrame: Rect, quicktileArea: Rect)
      modifies this`frame
      ensures unmanaged || outputs == [] ==> frame == old(frame)
      ensures !unmanaged && outputs != [] && fullscreen ==> frame == fullscreenArea
      ensures !unmanaged && outputs != [] && !fullscreen && maximized ==> frame == OnScreen(maximizedFrame, screen)
      ensures !unmanaged && outputs != [] && !fullscreen && !maximized && quicktiled ==> frame == quicktileArea
      ensures !unmanaged && outputs != [] && !fullscreen && !maximized && !quicktiled ==>
                var oldFrame := if oldFrame0.IsValid() then oldFrame0 else old(frame);
                var oldClient := if oldClient0.IsValid() then oldClient0
                                 else oldFrame.Adjusted(border.left, border.top, -border.right, -border.bottom);
                var oldB, b := AreaBounds(oldFrame, oldScreen, oldStruts), AreaBounds(old(frame), screen, struts);
                && frame == OnScreen(CorrectedFrame(old(frame), border, oldFrame, oldClient, oldB, b, outputs), screen)
                && (IsUncut(oldFrame, oldClient, oldB) && border.left >= 0 && border.top >= 0 ==>
                  && frame == OnScreen(SettledFrame(old(frame), oldFrame, oldB, b), screen)
                  && (FrameWithin(oldFrame, oldB) && Fits(old(frame), b) ==>
                        && FrameWithin(frame, b) && frame.Inside(screen)
                        && frame.Width() == old(frame).Width() && frame.Height() == old(frame).Height()))
    {
      if unmanaged || outputs == [] {
        return;
      }
      if fullscreen {
        frame := fullscreenArea;
        return;
      }
      if maximized {
        var geo := CheckOffscreenPosition(maximizedFrame, screen);
        frame := geo;
        return;
      }
      if quicktiled {
        frame := quicktileArea;
        return;
      }
      hide Settled, IsUncut, CorrectedFrame;
      var oldFrame, oldClient := oldFrame0, oldClient0;
      if !oldFrame.IsValid() {
        oldFrame := frame;
      }
      if !oldClient.IsValid() {
        oldClient := oldFrame.Adjusted(border.left, border.top, -border.right, -border.bottom);
      }
      var oldB := FindBounds(oldFrame, oldScreen, oldStruts);
      var b := FindBounds(frame, screen, struts);
      if FrameWithin(oldFrame, oldB) && Fits(frame, b) {
        FittingFrameIsContained(frame, oldFrame, oldB, screen, struts);
      }
      if IsUncut(oldFrame, oldClient, oldB) && border.left >= 0 && border.top >= 0 {
        UncutIsSettled(frame, border, oldFrame, oldClient, oldB, b, outputs);
      }
      var geo := CorrectSides(oldFrame, oldClient, oldB, b, screen, outputs);
      geo := CheckOffscreenPosition(geo, screen);
      frame := geo;
    }
  }

  // ---------------------------------------------------------------------------------------------

  /** The corrections of the near edge can be made before the others. */
  lemma NearFirst(now: Span, bounds: Span, correctFirst: bool, correctLast: bool, cutFirst: bool)
    ensures var near := if correctFirst then Span(bounds.first, bounds.first + now.Length() - 1) else now;
            Stepwise(near, bounds, false, correctLast, cutFirst) ==
            Stepwise(now, bounds, correctFirst, correctLast, cutFirst)
  {
  }

  /** Without a hanging decoration the near edges are corrected as they are. */
  lemma NearUncut(geo: Rect, c: Corrections, b: Bounds, outputs: seq<Rect>)
    requires c.padding == Sides(0, 0, 0, 0)
    ensures var near := NearCorrected(geo, c, b, outputs);
            && Columns(near) == Columns(if c.save.left || c.keep.left then geo.MoveLeft(b.left) else geo)
            && Rows(near) == Rows(if c.save.top || c.keep.top then geo.MoveTop(b.top) else geo)
  {
    hide Intersecting;
  }

  lemma RightUncut(geo: Rect, c: Corrections, border: Border, frameWasIn: bool, clientWasIn: bool, b: Bounds,
      outputs: seq<Rect>)
    requires c.padding.right == 0 && border.left >= 0 && (clientWasIn ==> frameWasIn)
    ensures var g := RightCorrected(geo, c, border, frameWasIn, clientWasIn, b, outputs);
            && Rows(g) == Rows(geo)
            && Columns(g) == Stepwise(Columns(geo), ColumnBounds(b), false, c.save.right || c.keep.right, frameWasIn)
  {
    hide Intersecting;
  }

  lemma BottomUncut(geo: Rect, c: Corrections, border: Border, frameWasIn: bool, clientWasIn: bool, b: Bounds,
      outputs: seq<Rect>)
    requires c.padding.bottom == 0 && border.top >= 0 && (clientWasIn ==> frameWasIn)
    ensures var g := BottomCorrected(geo, c, border, frameWasIn, clientWasIn, b, outputs);
            && Columns(g) == Columns(geo)
            && Rows(g) == Stepwise(Rows(geo), RowBounds(b), false, c.save.bottom || c.keep.bottom, frameWasIn)
  {
    hide Intersecting;
  }

  /** The corrections of one axis of a window whose decoration no old edge cut. */
  lemma ColumnsUncut(frame: Rect, border: Border, oldFrame: Rect, oldClient: Rect, oldB: Bounds, b: Bounds)
    requires IsUncut(oldFrame, oldClient, oldB)
    ensures var c := CorrectionsFor(frame, border, oldFrame, oldClient, oldB, b);
            && c.padding == Sides(0, 0, 0, 0)
            && Stepwise(Columns(frame), ColumnBounds(b), c.save.left || c.keep.left, c.save.right || c.keep.right,
                        oldB.left <= oldFrame.left) ==
               Settled(Columns(frame), ColumnBounds(b), Columns(oldFrame), ColumnBounds(oldB))
  {
    StepwiseIsSettled(Columns(frame), ColumnBounds(b), Columns(oldFrame), ColumnBounds(oldB));
    hide Settled, Stepwise;
  }

  lemma RowsUncut(frame: Rect, border: Border, oldFrame: Rect, oldClient: Rect, oldB: Bounds, b: Bounds)
    requires IsUncut(oldFrame, oldClient, oldB)
    ensures var c := CorrectionsFor(frame, border, oldFrame, oldClient, oldB, b);
            Stepwise(Rows(frame), RowBounds(b), c.save.top || c.keep.top, c.save.bottom || c.keep.bottom,
                     oldB.top <= oldFrame.top) ==
            Settled(Rows(frame), RowBounds(b), Rows(oldFrame), RowBounds(oldB))
  {
    StepwiseIsSettled(Rows(frame), RowBounds(b), Rows(oldFrame), RowBounds(oldB));
    hide Settled, Stepwise;
  }

  /** A window whose decoration no old edge cut is settled axis by axis. */
  lemma UncutIsSettled(frame: Rect, border: Border, oldFrame: Rect, oldClient: Rect, oldB: Bounds, b: Bounds,
      outputs: seq<Rect>)
    requires IsUncut(oldFrame, oldClient, oldB) && border.left >= 0 && border.top >= 0
    ensures CorrectedFrame(frame, border, oldFrame, oldClient, oldB, b, outputs) ==
            SettledFrame(frame, oldFrame, oldB, b)
  {
    hide CorrectionsFor, NearCorrected, RightCorrected, BottomCorrected, Settled, Stepwise;
    ColumnsUncut(frame, border, oldFrame, oldClient, oldB, b);
    RowsUncut(frame, border, oldFrame, oldClient, oldB, b);
    var c := CorrectionsFor(frame, border, oldFrame, oldClient, oldB, b);
    var leftIn, topIn := oldB.left <= oldFrame.left, oldB.top <= oldFrame.top;
    var near := NearCorrected(frame, c, b, outputs);
    NearUncut(frame, c, b, outputs);
    NearFirst(Columns(frame), ColumnBounds(b), c.save.left || c.keep.left, c.save.right || c.keep.right, leftIn);
    NearFirst(Rows(frame), RowBounds(b), c.save.top || c.keep.top, c.save.bottom || c.keep.bottom, topIn);
    RightUncut(near, c, border, leftIn, oldB.left <= oldClient.left, b, outputs);
    var right := RightCorrected(near, c, border, leftIn, oldB.left <= oldClient.left, b, outputs);
    BottomUncut(right, c, border, topIn, oldB.top <= oldClient.top, b, outputs);
  }

  /** A window whose client area stuck to the left edge, the border hanging out, has its client area there
    * again, if the window was clear of the right edge and is; where the border would reach into another
    * output, its frame. */
  lemma LeftBorderHangsOut(frame: Rect, border: Border, oldFrame: Rect, oldClient: Rect, oldB: Bounds, b: Bounds,
      outputs: seq<Rect>)
    requires oldFrame.left < oldClient.left == oldB.left && border.left > 0
    requires oldClient.right <= oldFrame.right < oldB.right - 1 && frame.right < b.right
    ensures var g := CorrectedFrame(frame, border, oldFrame, oldClient, oldB, b, outputs);
            && g.Width() == frame.Width()
            && g.left == if frame.left + border.left == b.left then frame.left
                         else if IsCrowded(outputs, frame.MoveLeft(b.left - border.left)) then b.left
                         else b.left - border.left
  {
    hide Intersecting;
  }

  lemma RightBorderHangsOut(frame: Rect, border: Border, oldFrame: Rect, oldClient: Rect, oldB: Bounds, b: Bounds,
      outputs: seq<Rect>)
    requires oldB.right - 1 == oldClient.right < oldFrame.right && border.right > 0
    requires oldB.left < oldFrame.left <= oldClient.left && b.left <= frame.left
    requires frame.Width() <= b.right - b.left && border.left >= 0
    ensures var near := NearCorrected(frame, CorrectionsFor(frame, border, oldFrame, oldClient, oldB, b), b, outputs);
            var g := CorrectedFrame(frame, border, oldFrame, oldClient, oldB, b, outputs);
            && g.Width() == frame.Width()
            && g.right == if frame.right - border.right == b.right - 1 then frame.right
                          else if IsCrowded(outputs, near.MoveRight(b.right - 1 + border.right)) then b.right - 1
                          else b.right - 1 + border.right
  {
    hide IsCrowded;
  }

  /** At the top the code lets the window hang out by its left border; with a broader left border than top
    * border it cuts the window there, unless that reaches into another output. */
  lemma TopBorderHangsOut(frame: Rect, border: Border, oldFrame: Rect, oldClient: Rect, oldB: Bounds, b: Bounds,
      outputs: seq<Rect>)
    requires oldFrame.top < oldClient.top == oldB.top && border.top > 0 && border.left > 0
    requires oldClient.bottom <= oldFrame.bottom < oldB.bottom - 1 && frame.bottom < b.bottom
    ensures var near := NearCorrected(frame, CorrectionsFor(frame, border, oldFrame, oldClient, oldB, b), b, outputs);
            var g := CorrectedFrame(frame, border, oldFrame, oldClient, oldB, b, outputs);
            var hanging := near.MoveTop(b.top - border.left);
            if frame.top + border.top == b.top then Rows(g) == Rows(frame)
            else if IsCrowded(outputs, hanging) then g.top == b.top && g.Height() == frame.Height()
            else if border.left <= border.top then g.top == b.top - border.left && g.Height() == frame.Height()
            else g.top == b.top - (if IsCrowded(outputs, g.(top := b.top - border.top)) then 0 else border.top)
  {
    hide IsCrowded;
  }

  lemma BottomBorderHangsOut(frame: Rect, border: Border, oldFrame: Rect, oldClient: Rect, oldB: Bounds, b: Bounds,
      outputs: seq<Rect>)
    requires oldB.bottom - 1 == oldClient.bottom < oldFrame.bottom && border.bottom > 0
    requires oldB.top < oldFrame.top <= oldClient.top && b.top <= frame.top
    requires frame.Height() <= b.bottom - b.top && border.top >= 0
    ensures var g := CorrectedFrame(frame, border, oldFrame, oldClient, oldB, b, outputs);
            && g.Height() == frame.Height()
            && g.bottom == if frame.bottom - border.bottom == b.bottom - 1 then frame.bottom
                           else if IsCrowded(outputs, g.MoveBottom(b.bottom - 1 + border.bottom)) then b.bottom - 1
                           else b.bottom - 1 + border.bottom
  {
    hide IsCrowded;
  }

  /** A client area that was inside the near edges ends inside them. A window that is too long is cut, to
    * where its border just hangs out, or its frame where that would reach into another output. */
  lemma ClientIsInside(frame: Rect, border: Border, oldFrame: Rect, oldClient: Rect, oldB: Bounds, b: Bounds,
      outputs: seq<Rect>)
    requires border.left >= 0 && border.top >= 0
    ensures var g := CorrectedFrame(frame, border, oldFrame, oldClient, oldB, b, outputs);
            && (oldB.left <= oldClient.left ==> b.left <= g.left + border.left)
            && (oldB.top <= oldClient.top ==> b.top <= g.top + border.top)
  {
    hide IsCrowded, CorrectionsFor, NearCorrected;
  }

  lemma ClientIsCutExactly(geo: Rect, c: Corrections, border: Border, b: Bounds, outputs: seq<Rect>)
    requires c.padding.right == 0 && c.padding.bottom == 0 && border.left >= 0 && border.top >= 0
    ensures var right := if c.save.right || c.keep.right then geo.MoveRight(b.right - 1) else geo;
            var g := RightCorrected(geo, c, border, false, true, b, outputs);
            && Rows(g) == Rows(geo) && g.right == right.right
            && (right.left + border.left >= b.left ==> g == right)
            && (right.left + border.left < b.left ==>
                  g.left == b.left - if IsCrowded(outputs, g.(left := b.left - border.left)) then 0 else border.left)
    ensures var bottom := if c.save.bottom || c.keep.bottom then geo.MoveBottom(b.bottom - 1) else geo;
            var g := BottomCorrected(geo, c, border, false, true, b, outputs);
            && Columns(g) == Columns(geo) && g.bottom == bottom.bottom
            && (bottom.top + border.top >= b.top ==> g == bottom)
            && (bottom.top + border.top < b.top ==>
                  g.top == b.top - if IsCrowded(outputs, g.(top := b.top - border.top)) then 0 else border.top)
  {
    hide IsCrowded;
  }

  /** Crowded is a frame that meets more than one of the outputs. */
  lemma {:induction false} IntersectingExactly(outputs: seq<Rect>, frame: Rect)
    ensures IsCrowded(outputs, frame) <==>
            exists i, j :: 0 <= i < j < |outputs| && outputs[i].Intersects(frame) && outputs[j].Intersects(frame)
    ensures Intersecting(outputs, frame) > 0 <==> exists i :: 0 <= i < |outputs| && outputs[i].Intersects(frame)
  {
    if outputs != [] {
      var front, n := outputs[..|outputs| - 1], |outputs| - 1;
      IntersectingExactly(front, frame);
      assert forall i :: 0 <= i < n ==> front[i] == outputs[i];
      if outputs[n].Intersects(frame) {
        if i :| 0 <= i < n && front[i].Intersects(frame) {
          assert outputs[i].Intersects(frame);
        }
      }
    }
  }

  /** On one axis, for a window that was inside: exactly when the result is inside the bounds. A
    * window that fits always is, and keeps its length; one that does not fit is only if its far edge
    * is corrected. */
  lemma SettledWithinExactly(now: Span, bounds: Span, was: Span, oldBounds: Span)
    requires bounds.first <= bounds.last && Within(was, oldBounds)
    ensures var s := Settled(now, bounds, was, oldBounds);
            var keepFirst := was.first == oldBounds.first && now.first != bounds.first;
            && (Within(s, bounds) <==>
                  now.Length() <= bounds.Length() || now.last > bounds.last ||
                  (was.last == oldBounds.last && now.last != bounds.last && !keepFirst))
            && (now.Length() <= bounds.Length() ==> s.Length() == now.Length())
            && (Within(now, bounds) && was.first != oldBounds.first && was.last != oldBounds.last ==> s == now)
  {
  }

  /** On one axis, for a window that was not inside: it is not cut, an edge it hung out over does not
    * hold it back, and the other edge does. */
  lemma SettledHangsOut(now: Span, bounds: Span, was: Span, oldBounds: Span)
    requires !Within(was, oldBounds)
    ensures var s := Settled(now, bounds, was, oldBounds);
            && s.Length() == now.Length()
            && (was.first < oldBounds.first && was.last > oldBounds.last ==> s == now)
            && (was.first < oldBounds.first && was.last < oldBounds.last ==>
                  s.last == Min(now.last, bounds.last))
            && (was.first > oldBounds.first && was.last > oldBounds.last ==>
                  s.first == Max(now.first, bounds.first))
            && (was.first < oldBounds.first && was.last == oldBounds.last ==> s.last == bounds.last)
            && (was.first == oldBounds.first && was.last > oldBounds.last ==> s.first == bounds.first)
  {
  }

  /** A window that was inside and stuck to just one edge sticks to it afterwards, if it fits; the near
    * edge gives way to a far edge that overlaps. */
  lemma SettledSticks(now: Span, bounds: Span, was: Span, oldBounds: Span)
    requires now.Length() <= bounds.Length() && Within(was, oldBounds)
    ensures var s := Settled(now, bounds, was, oldBounds);
            && (was.first != oldBounds.first && was.last == oldBounds.last ==> s.last == bounds.last)
            && (was.first == oldBounds.first && was.last != oldBounds.last ==>
                  (s.first == bounds.first <==> now.last <= bounds.last || now.Length() == bounds.Length()))
  {
  }

  /** For a window that was inside, exactly how far it is moved: far enough to be inside or back at an edge
    * it stuck to, and no farther. */
  lemma SettledMovesLeast(now: Span, bounds: Span, was: Span, oldBounds: Span)
    requires bounds.first <= bounds.last && Within(was, oldBounds)
    ensures var s := Settled(now, bounds, was, oldBounds);
            var fits := now.Length() <= bounds.Length();
            var stuckFirst, stuckLast := was.first == oldBounds.first, was.last == oldBounds.last;
            && (now.last > bounds.last ==> if fits then s.last == bounds.last else s == bounds)
            && (now.first < bounds.first && now.last <= bounds.last && !stuckLast ==> s.first == bounds.first)
            && (now.first < bounds.first && now.last < bounds.last && stuckLast ==>
                  if stuckFirst then s.first == bounds.first else s.last == bounds.last)
            && (Within(now, bounds) && stuckFirst && stuckLast && now.first != bounds.first && now.last != bounds.last
                ==> s == now)
            && (now.first == bounds.first && now.last < bounds.last && stuckLast ==> s.last == bounds.last)
            && (now.first > bounds.first && now.last == bounds.last && stuckFirst ==> s.first == bounds.first)
            && (now == bounds ==> s == now)
  {
  }

  /** Every valid frame ends up meeting the screen, and one that met it is not moved. A frame beyond an edge
    * is brought back by a quarter of the screen from that edge. */
  lemma OnScreenMeetsScreen(frame: Rect, screen: Rect)
    ensures screen.IsValid() ==> IsBroughtBack(frame, screen, OnScreen(frame, screen))
    ensures frame.IsValid() && screen.IsValid() ==> OnScreen(frame, screen).Intersects(screen)
    ensures frame.Intersects(screen) ==> OnScreen(frame, screen) == frame
    ensures OnScreen(frame, screen).Width() == frame.Width() && OnScreen(frame, screen).Height() == frame.Height()
  {
  }

  lemma OnScreenKeeps(frame: Rect, screen: Rect)
    requires frame.IsValid() && frame.Inside(screen)
    ensures OnScreen(frame, screen) == frame
  {
  }

  lemma {:induction false} LargestEndIsBound(struts: seq<Rect>, area: Rect, start: int, end: Rect -> int, r: Rect)
    ensures start <= LargestEnd(struts, area, start, end)
    ensures r in struts && r.Intersects(area) ==> end(r.And(area)) <= LargestEnd(struts, area, start, end)
  {
    if struts != [] {
      LargestEndIsBound(struts[..|struts| - 1], area, start, end, r);
      assert struts == struts[..|struts| - 1] + [struts[|struts| - 1]];
    }
  }

  lemma {:induction false} SmallestStartIsBound(struts: seq<Rect>, area: Rect, start: int, begin: Rect -> int, r: Rect)
    ensures SmallestStart(struts, area, start, begin) <= start
    ensures r in struts && r.Intersects(area) ==> SmallestStart(struts, area, start, begin) <= begin(r.And(area))
  {
    if struts != [] {
      SmallestStartIsBound(struts[..|struts| - 1], area, start, begin, r);
      assert struts == struts[..|struts| - 1] + [struts[|struts| - 1]];
    }
  }

  lemma BoundsInScreen(frame: Rect, screen: Rect, struts: Struts)
    ensures var b := AreaBounds(frame, screen, struts);
            screen.top <= b.top && b.right <= screen.right + 1 && b.bottom <= screen.bottom + 1 && screen.left <= b.left
  {
    LargestEndIsBound(struts.top, Tall(frame, screen), screen.top, Below(), screen);
    SmallestStartIsBound(struts.right, Wide(frame, screen), screen.right + 1, FirstColumn(), screen);
    SmallestStartIsBound(struts.bottom, Tall(frame, screen), screen.bottom + 1, FirstRow(), screen);
    LargestEndIsBound(struts.left, Wide(frame, screen), screen.left, RightOf(), screen);
  }

  /** `r` meets the columns of the frame, somewhere on the screen. */
  predicate MeetsColumns(r: Rect, frame: Rect, screen: Rect) {
    r.left <= frame.right && frame.left <= r.right && r.top <= screen.bottom && screen.top <= r.bottom
  }

  /** `r` meets the rows of the frame, somewhere on the screen. */
  predicate MeetsRows(r: Rect, frame: Rect, screen: Rect) {
    r.top <= frame.bottom && frame.top <= r.bottom && r.left <= screen.right && screen.left <= r.right
  }

  lemma MeetsTall(r: Rect, frame: Rect, screen: Rect)
    requires r.IsValid() && frame.IsValid() && screen.IsValid()
    ensures r.Intersects(Tall(frame, screen)) <==> MeetsColumns(r, frame, screen)
    ensures MeetsColumns(r, frame, screen) ==>
              var part := r.And(Tall(frame, screen));
              part.bottom == Min(r.bottom, screen.bottom) && part.top == Max(r.top, screen.top)
  {
  }

  lemma MeetsWide(r: Rect, frame: Rect, screen: Rect)
    requires r.IsValid() && frame.IsValid() && screen.IsValid()
    ensures r.Intersects(Wide(frame, screen)) <==> MeetsRows(r, frame, screen)
    ensures MeetsRows(r, frame, screen) ==>
              var part := r.And(Wide(frame, screen));
              part.right == Min(r.right, screen.right) && part.left == Max(r.left, screen.left)
  {
  }

  lemma {:induction false} LargestEndIsAttained(struts: seq<Rect>, area: Rect, start: int, end: Rect -> int)
    ensures var bound := LargestEnd(struts, area, start, end);
            bound == start || exists r :: r in struts && r.Intersects(area) && bound == end(r.And(area))
  {
    if struts != [] {
      var front, last := struts[..|struts| - 1], struts[|struts| - 1];
      LargestEndIsAttained(front, area, start, end);
      assert struts == front + [last];
    }
  }

  lemma {:induction false} SmallestStartIsAttained(struts: seq<Rect>, area: Rect, start: int, begin: Rect -> int)
    ensures var bound := SmallestStart(struts, area, start, begin);
            bound == start || exists r :: r in struts && r.Intersects(area) && bound == begin(r.And(area))
  {
    if struts != [] {
      var front, last := struts[..|struts| - 1], struts[|struts| - 1];
      SmallestStartIsAttained(front, area, start, begin);
      assert struts == front + [last];
    }
  }

  /** Exactly where the upper and lower bounds are: at the edge of the screen, or at the innermost edge of
    * the struts of that side that meet the frame's columns. */
  lemma RowBoundsExactly(frame: Rect, screen: Rect, struts: Struts)
    requires frame.IsValid() && screen.IsValid()
    requires forall r :: r in struts.top || r in struts.bottom ==> r.IsValid()
    ensures var b := AreaBounds(frame, screen, struts);
            && screen.top <= b.top && b.bottom <= screen.bottom + 1
            && (forall r :: r in struts.top && MeetsColumns(r, frame, screen) ==>
                  Min(r.bottom, screen.bottom) + 1 <= b.top)
            && (forall r :: r in struts.bottom && MeetsColumns(r, frame, screen) ==>
                  b.bottom <= Max(r.top, screen.top))
            && (b.top == screen.top || exists r :: r in struts.top && MeetsColumns(r, frame, screen) &&
                                                   b.top == Min(r.bottom, screen.bottom) + 1)
            && (b.bottom == screen.bottom + 1 || exists r :: r in struts.bottom && MeetsColumns(r, frame, screen) &&
                                                             b.bottom == Max(r.top, screen.top))
  {
    var tall := Tall(frame, screen);
    BoundsInScreen(frame, screen, struts);
    forall r | r in struts.top && MeetsColumns(r, frame, screen)
      ensures Min(r.bottom, screen.bottom) + 1 <= AreaBounds(frame, screen, struts).top
    {
      MeetsTall(r, frame, screen);
      LargestEndIsBound(struts.top, tall, screen.top, Below(), r);
    }
    forall r | r in struts.bottom && MeetsColumns(r, frame, screen)
      ensures AreaBounds(frame, screen, struts).bottom <= Max(r.top, screen.top)
    {
      MeetsTall(r, frame, screen);
      SmallestStartIsBound(struts.bottom, tall, screen.bottom + 1, FirstRow(), r);
    }
    LargestEndIsAttained(struts.top, tall, screen.top, Below());
    if AreaBounds(frame, screen, struts).top != screen.top {
      var r :| r in struts.top && r.Intersects(tall) &&
               AreaBounds(frame, screen, struts).top == Below()(r.And(tall));
      MeetsTall(r, frame, screen);
    }
    SmallestStartIsAttained(struts.bottom, tall, screen.bottom + 1, FirstRow());
    if AreaBounds(frame, screen, struts).bottom != screen.bottom + 1 {
      var r :| r in struts.bottom && r.Intersects(tall) &&
               AreaBounds(frame, screen, struts).bottom == FirstRow()(r.And(tall));
      MeetsTall(r, frame, screen);
    }
  }

  /** The same for the left and right bounds. */
  lemma ColumnBoundsExactly(frame: Rect, screen: Rect, struts: Struts)
    requires frame.IsValid() && screen.IsValid()
    requires forall r :: r in struts.left || r in struts.right ==> r.IsValid()
    ensures var b := AreaBounds(frame, screen, struts);
            && screen.left <= b.left && b.right <= screen.right + 1
            && (forall r :: r in struts.left && MeetsRows(r, frame, screen) ==>
                  Min(r.right, screen.right) + 1 <= b.left)
            && (forall r :: r in struts.right && MeetsRows(r, frame, screen) ==>
                  b.right <= Max(r.left, screen.left))
            && (b.left == screen.left || exists r :: r in struts.left && MeetsRows(r, frame, screen) &&
                                                     b.left == Min(r.right, screen.right) + 1)
            && (b.right == screen.right + 1 || exists r :: r in struts.right && MeetsRows(r, frame, screen) &&
                                                           b.right == Max(r.left, screen.left))
  {
    var wide := Wide(frame, screen);
    BoundsInScreen(frame, screen, struts);
    forall r | r in struts.left && MeetsRows(r, frame, screen)
      ensures Min(r.right, screen.right) + 1 <= AreaBounds(frame, screen, struts).left
    {
      MeetsWide(r, frame, screen);
      LargestEndIsBound(struts.left, wide, screen.left, RightOf(), r);
    }
    forall r | r in struts.right && MeetsRows(r, frame, screen)
      ensures AreaBounds(frame, screen, struts).right <= Max(r.left, screen.left)
    {
      MeetsWide(r, frame, screen);
      SmallestStartIsBound(struts.right, wide, screen.right + 1, FirstColumn(), r);
    }
    LargestEndIsAttained(struts.left, wide, screen.left, RightOf());
    if AreaBounds(frame, screen, struts).left != screen.left {
      var r :| r in struts.left && r.Intersects(wide) &&
               AreaBounds(frame, screen, struts).left == RightOf()(r.And(wide));
      MeetsWide(r, frame, screen);
    }
    SmallestStartIsAttained(struts.right, wide, screen.right + 1, FirstColumn());
    if AreaBounds(frame, screen, struts).right != screen.right + 1 {
      var r :| r in struts.right && r.Intersects(wide) &&
               AreaBounds(frame, screen, struts).right == FirstColumn()(r.And(wide));
      MeetsWide(r, frame, screen);
    }
  }

  /** Containment: a window that was inside the old bounds and fits the new ones ends up inside the
    * new ones, with its size, whatever the struts and whatever it stuck to. */
  lemma FittingFrameIsContained(frame: Rect, oldFrame: Rect, oldB: Bounds, screen: Rect, struts: Struts)
    requires FrameWithin(oldFrame, oldB) && Fits(frame, AreaBounds(frame, screen, struts))
    ensures var b := AreaBounds(frame, screen, struts);
            var result := OnScreen(SettledFrame(frame, oldFrame, oldB, b), screen);
            && FrameWithin(result, b) && result.Inside(screen)
            && result.Width() == frame.Width() && result.Height() == frame.Height()
  {
    BoundsInScreen(frame, screen, struts);
    var b := AreaBounds(frame, screen, struts);
    SettledWithinExactly(Columns(frame), ColumnBounds(b), Columns(oldFrame), ColumnBounds(oldB));
    SettledWithinExactly(Rows(frame), RowBounds(b), Rows(oldFrame), RowBounds(oldB));
    OnScreenKeeps(SettledFrame(frame, oldFrame, oldB, b), screen);
  }

  /** The bounds do their job: a frame inside them that keeps its columns meets no top or bottom
    * strut, and one that keeps its rows meets no left or right strut. */
  lemma BoundsKeepClearOfStruts(frame: Rect, screen: Rect, struts: Struts, result: Rect, r: Rect)
    requires FrameWithin(result, AreaBounds(frame, screen, struts))
    requires r.IsValid()
    ensures Columns(result) == Columns(frame) && (r in struts.top || r in struts.bottom) ==> !r.Intersects(result)
    ensures Rows(result) == Rows(frame) && (r in struts.left || r in struts.right) ==> !r.Intersects(result)
  {
    BoundsInScreen(frame, screen, struts);
    LargestEndIsBound(struts.top, Tall(frame, screen), screen.top, Below(), r);
    SmallestStartIsBound(struts.right, Wide(frame, screen), screen.right + 1, FirstColumn(), r);
    SmallestStartIsBound(struts.bottom, Tall(frame, screen), screen.bottom + 1, FirstRow(), r);
    LargestEndIsBound(struts.left, Wide(frame, screen), screen.left, RightOf(), r);
  }
}
