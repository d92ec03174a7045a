/** What the counts of title bar pixels count. */
module TitlePixels {
  import opened Regions
  import opened Rects
  import opened MoveResize

  predicate Holds(r: Rect, p: Pixel) {
    r.left <= p.x <= r.right && r.top <= p.y <= r.bottom
  }

  function PixelsOf(r: Rect): Region {
    set x, y | r.left <= x <= r.right && r.top <= y <= r.bottom :: Pixel(x, y)
  }

  /** The common part of two rectangles holds the pixels both hold. */
  lemma AndExactly(r: Rect, s: Rect, p: Pixel)
    ensures Holds(r.And(s), p) <==> Holds(r, p) && Holds(s, p)
    ensures r.Intersects(s) <==> !r.And(s).IsEmpty()
  {
  }

  lemma {:induction false} RowSize(left: int, right: int, y: int)
    requires left <= right + 1
    ensures |PixelsOf(Rect(left, y, right, y))| == right - left + 1
    decreases right - left + 1
  {
    if left <= right {
      RowSize(left, right - 1, y);
      assert PixelsOf(Rect(left, y, right, y)) == PixelsOf(Rect(left, y, right - 1, y)) + {Pixel(right, y)};
    } else {
      assert PixelsOf(Rect(left, y, right, y)) == {};
    }
  }

  lemma SizeOfUnion(a: Region, b: Region, all: Region)
    requires a !! b && forall p :: p in all <==> p in a || p in b
    ensures |all| == |a| + |b|
  {
    assert all == a + b;
  }

  lemma {:induction false} RectSize(r: Rect)
    requires r.Width() >= 0 && r.Height() >= 0
    ensures |PixelsOf(r)| == r.Width() * r.Height()
    decreases r.Height()
  {
    if r.Height() == 0 {
      assert PixelsOf(r) == {};
    } else {
      var rest, row := r.(bottom := r.bottom - 1), Rect(r.left, r.bottom, r.right, r.bottom);
      RectSize(rest);
      RowSize(r.left, r.right, r.bottom);
      SizeOfUnion(PixelsOf(rest), PixelsOf(row), PixelsOf(r));
      hide PixelsOf;
      assert r.Width() * r.Height() == rest.Width() * rest.Height() + r.Width();
    }
  }

  ghost predicate AreFree(areas: seq<Rect>) {
    && (forall i :: 0 <= i < |areas| ==> areas[i].IsValid())
    && forall i, j :: 0 <= i < j < |areas| ==> PixelsOf(areas[i]) !! PixelsOf(areas[j])
  }

  /** The pixels of the top `topBorder` rows of the frame. */
  function TitleBar(frame: Rect, topBorder: int): Region {
    set x, y | frame.left <= x <= frame.right && frame.top <= y < frame.top + topBorder :: Pixel(x, y)
  }

  /** The pixels of the title bar in the first `n` areas; when `whole`, only in areas that reach over its
    * full height. */
  predicate IsShownIn(area: Rect, frame: Rect, topBorder: int, whole: bool, p: Pixel) {
    && Holds(area, p)
    && (whole ==> area.top <= frame.top && frame.top + topBorder - 1 <= area.bottom)
  }

  function Shown(areas: seq<Rect>, frame: Rect, topBorder: int, whole: bool, n: nat): Region
    requires n <= |areas|
  {
    set p | p in TitleBar(frame, topBorder) && exists i :: 0 <= i < n && IsShownIn(areas[i], frame, topBorder, whole, p)
  }

  /** What one area adds to a count. */
  function ShownIn(area: Rect, frame: Rect, topBorder: int, whole: bool): Region {
    set p | p in TitleBar(frame, topBorder) && IsShownIn(area, frame, topBorder, whole, p)
  }

  lemma PartExactly(area: Rect, frame: Rect, topBorder: int, p: Pixel)
    requires area.IsValid() && frame.IsValid() && topBorder > 0
    ensures var titleRect := TitleRect(TitleOf(frame, topBorder), frame);
            var part := area.And(titleRect);
            && (Holds(part, p) <==> p in TitleBar(frame, topBorder) && Holds(area, p))
            && (Holds(part, p) ==>
                  (part.Height() == titleRect.Height() <==>
                   area.top <= frame.top && frame.top + topBorder - 1 <= area.bottom))
            && part.Width() >= 0 && part.Height() >= 0 && titleRect.Height() > 0
            && (part.IsEmpty() ==> part == Rect(0, 0, -1, -1))
  {
    AndExactly(area, TitleRect(TitleOf(frame, topBorder), frame), p);
  }

  lemma CountsArea(area: Rect, frame: Rect, topBorder: int, whole: bool)
    requires area.IsValid() && frame.IsValid() && topBorder > 0
    ensures var titleRect := TitleRect(TitleOf(frame, topBorder), frame);
            var part := area.And(titleRect);
            |ShownIn(area, frame, topBorder, whole)| ==
            if whole then FullHeightPixels(part, titleRect) else Pixels(part)
  {
    var titleRect := TitleRect(TitleOf(frame, topBorder), frame);
    var part := area.And(titleRect);
    var shown := ShownIn(area, frame, topBorder, whole);
    var counted := if whole && part.Height() != titleRect.Height() then {} else PixelsOf(part);
    PartExactly(area, frame, topBorder, Pixel(0, 0));
    RectSize(part);
    forall p
      ensures p in shown <==> p in counted
    {
      PartExactly(area, frame, topBorder, p);
      assert p in PixelsOf(part) <==> Holds(part, p);
    }
    assert shown == counted;
  }

  lemma ShownNext(areas: seq<Rect>, frame: Rect, topBorder: int, whole: bool, n: nat, p: Pixel)
    requires 0 < n <= |areas|
    ensures p in Shown(areas, frame, topBorder, whole, n) <==>
            p in Shown(areas, frame, topBorder, whole, n - 1) || p in ShownIn(areas[n - 1], frame, topBorder, whole)
    ensures AreFree(areas) && p in Shown(areas, frame, topBorder, whole, n - 1) ==>
              p !in ShownIn(areas[n - 1], frame, topBorder, whole)
  {
    if AreFree(areas) {
      forall i | 0 <= i < n - 1
        ensures !(Holds(areas[i], p) && Holds(areas[n - 1], p))
      {
        assert PixelsOf(areas[i]) !! PixelsOf(areas[n - 1]);
        assert p in PixelsOf(areas[i]) <==> Holds(areas[i], p);
        assert p in PixelsOf(areas[n - 1]) <==> Holds(areas[n - 1], p);
      }
    }
  }

  lemma ShownGrows(areas: seq<Rect>, frame: Rect, topBorder: int, whole: bool, n: nat)
    requires 0 < n <= |areas| && AreFree(areas)
    ensures |Shown(areas, frame, topBorder, whole, n)| ==
            |Shown(areas, frame, topBorder, whole, n - 1)| + |ShownIn(areas[n - 1], frame, topBorder, whole)|
  {
    hide Shown, ShownIn, AreFree;
    var before, here := Shown(areas, frame, topBorder, whole, n - 1), ShownIn(areas[n - 1], frame, topBorder, whole);
    forall p
      ensures p in Shown(areas, frame, topBorder, whole, n) <==> p in before || p in here
      ensures !(p in before && p in here)
    {
      ShownNext(areas, frame, topBorder, whole, n, p);
    }
    SizeOfUnion(before, here, Shown(areas, frame, topBorder, whole, n));
  }

  function Counted(areas: seq<Rect>, titleRect: Rect, whole: bool, n: nat): int
    requires n <= |areas|
  {
    if whole then FullHeightIn(areas, titleRect, n) else PixelsIn(areas, titleRect, n)
  }

  lemma CountGrows(areas: seq<Rect>, frame: Rect, topBorder: int, whole: bool, n: nat)
    requires 0 < n <= |areas| && AreFree(areas) && frame.IsValid() && topBorder > 0
    ensures var titleRect := TitleRect(TitleOf(frame, topBorder), frame);
            Counted(areas, titleRect, whole, n) ==
            Counted(areas, titleRect, whole, n - 1) + |ShownIn(areas[n - 1], frame, topBorder, whole)|
  {
    assert areas[n - 1].IsValid();
    CountsArea(areas[n - 1], frame, topBorder, whole);
  }

  lemma {:induction false} CountsShown(areas: seq<Rect>, frame: Rect, topBorder: int, whole: bool, n: nat)
    requires AreFree(areas) && frame.IsValid() && topBorder > 0 && n <= |areas|
    ensures |Shown(areas, frame, topBorder, whole, n)| ==
            Counted(areas, TitleRect(TitleOf(frame, topBorder), frame), whole, n)
  {
    hide *;
    if n == 0 {
      NothingCounted(areas, frame, topBorder, whole);
    } else {
      CountsShown(areas, frame, topBorder, whole, n - 1);
      CountGrows(areas, frame, topBorder, whole, n);
      ShownGrows(areas, frame, topBorder, whole, n);
    }
  }

  lemma NothingCounted(areas: seq<Rect>, frame: Rect, topBorder: int, whole: bool)
    ensures |Shown(areas, frame, topBorder, whole, 0)| == 0
    ensures Counted(areas, TitleRect(TitleOf(frame, topBorder), frame), whole, 0) == 0
  {
    assert Shown(areas, frame, topBorder, whole, 0) == {};
  }

  /** Enough of the title bar is visible if, in areas that reach over its full height, there are as many
    * of its pixels as a piece 100 pixels wide has, or as the whole frame. */
  lemma ReachableExactly(areas: seq<Rect>, frame: Rect, topBorder: int)
    requires AreFree(areas) && frame.IsValid() && topBorder > 0
    ensures Reachable(areas, TitleOf(frame, topBorder), frame) <==>
            var shown := |Shown(areas, frame, topBorder, true, |areas|)|;
            shown >= 100 * topBorder || shown >= frame.Width() * frame.Height()
    ensures RealVisible(areas, TitleOf(frame, topBorder), frame) == |Shown(areas, frame, topBorder, false, |areas|)|
  {
    CountsShown(areas, frame, topBorder, true, |areas|);
    CountsShown(areas, frame, topBorder, false, |areas|);
  }
}
