/** The scene object: its paint passes, proved against `ScenePainting`. */
module Scene {
  import opened Regions
  import opened ScenePainting
  import FrameHistory

  /** The stacking order after a paint pass took over the pending repaints. */
  function AfterPaint(stack: seq<Window>): seq<Window> {
    seq(|stack|, i requires 0 <= i < |stack| => stack[i].AfterPaint())
  }

  class Scene {
    const display: Region
    const background: Pixel -> Colour

    var stackingOrder: seq<Window>
    /** The render target. */
    var buffer: Buffer
    var paintedRegion: Region
    var repaintRegion: Region
    var damagedRegion: Region

    ghost predicate Valid()
      reads this
    {
      buffer.Keys == display
    }

    constructor (display: Region, background: Pixel -> Colour, buffer: Buffer)
      requires buffer.Keys == display
      ensures Valid() && this.display == display && this.background == background
      ensures this.buffer == buffer && stackingOrder == []
    {
      this.display, this.background, this.buffer := display, background, buffer;
      stackingOrder := [];
      paintedRegion, repaintRegion, damagedRegion := {}, {}, {};
    }

    method PaintBackground(region: Region)
      requires Valid()
      modifies this`buffer
      ensures Valid()
      ensures forall p :: p in display ==> buffer[p] == if p in region then background(p) else old(buffer)[p]
    {
      buffer := map p | p in buffer :: if p in region then background(p) else buffer[p];
    }

    method PaintWindow(window: Window, region: Region)
      requires Valid()
      modifies this`buffer
      ensures Valid()
      ensures forall p :: p in display ==>
                buffer[p] == if p in region then window.draw(p, old(buffer)[p]) else old(buffer)[p]
    {
      var visible := region * display;
      if visible == {} {
        assert forall p :: p in display ==> (p in region <==> p in visible);
        return;
      }
      buffer := map p | p in buffer :: if p in visible then window.draw(p, buffer[p]) else buffer[p];
    }

    /** Schedules the window at `i`, and takes over its pending repaints. */
    method PrepareSimpleWindowPaint(i: nat, region: Region, dirtyArea: Region, phase2: seq<Layer>)
      returns (dirtyArea': Region, phase2': seq<Layer>)
      requires i < |stackingOrder|
      modifies this`stackingOrder
      ensures stackingOrder == old(stackingOrder)[i := old(stackingOrder)[i].AfterPaint()]
      ensures phase2' == phase2 + ScheduledFor(old(stackingOrder)[i], region)
      ensures var window := old(stackingOrder)[i];
              dirtyArea' == dirtyArea + (if window.painting then window.PaintRegion(region) else {})
      ensures old(stackingOrder)[i].painting ==>
                var window, layer := old(stackingOrder)[i], phase2'[|phase2|];
                && stackingOrder[i].repaints == {} && layer.region <= dirtyArea'
                && layer.window == window && layer.clip == window.clip && layer.translucent == window.translucent
                && forall p :: p in layer.region <==> p in region || p in window.repaints || p in window.effects
    {
      dirtyArea', phase2' := dirtyArea, phase2;
      var window := stackingOrder[i];
      if !window.painting {
        return;
      }
      var paintRegion := region + window.repaints;
      stackingOrder := stackingOrder[i := window.(repaints := {})];
      paintRegion := paintRegion + window.effects;
      dirtyArea' := dirtyArea + paintRegion;
      phase2' := phase2 + [Layer(window, paintRegion, window.clip, window.translucent)];
    }

    /** The first pass, bottom to top. */
    method PrepareWindows(region: Region) returns (dirtyArea: Region, phase2: seq<Layer>)
      modifies this`stackingOrder
      ensures stackingOrder == AfterPaint(old(stackingOrder))
      ensures phase2 == Scheduled(old(stackingOrder), region) && dirtyArea == DirtyArea(phase2, region)
    {
      ghost var stack := stackingOrder;
      dirtyArea, phase2 := region, [];
      var n := |stackingOrder|;
      for i := 0 to n
        invariant |stackingOrder| == n
        invariant forall j :: 0 <= j < i ==> stackingOrder[j] == stack[j].AfterPaint()
        invariant forall j :: i <= j < n ==> stackingOrder[j] == stack[j]
        invariant phase2 == Scheduled(stack[..i], region)
        invariant dirtyArea == DirtyArea(phase2, region)
      {
        ScheduleNext(stack, i, region);
        dirtyArea, phase2 := PrepareSimpleWindowPaint(i, region, dirtyArea, phase2);
      }
      assert stack[..n] == stack;
    }

    /** The occlusion culling pass, top to bottom. */
    method CullLayers(ghost job: Job, scheduled: seq<Layer>, fullRepaint: bool)
      returns (phase2: seq<Layer>, allclips: Region)
      requires scheduled == job.layers && job.repaint == repaintRegion && job.display == display
      requires fullRepaint == job.Full()
      ensures |phase2| == |scheduled|
      ensures forall j :: 0 <= j < |phase2| ==> phase2[j] == scheduled[j].(region := job.Culled(j))
      ensures allclips == job.Above(0).allclips
    {
      phase2, allclips := scheduled, {};
      var upperTranslucentDamage := repaintRegion;
      var i := |phase2|;
      while i > 0
        invariant 0 <= i <= |phase2| == |scheduled|
        invariant Cull(allclips, upperTranslucentDamage) == job.Above(i)
        invariant phase2[..i] == scheduled[..i]
        invariant forall j :: i <= j < |phase2| ==> phase2[j] == scheduled[j].(region := job.Culled(j))
      {
        i := i - 1;
        var data := phase2[i];
        assert data == phase2[..i + 1][i] == scheduled[i];
        if fullRepaint {
          data := data.(region := display);
        } else {
          data := data.(region := data.region + upperTranslucentDamage);
        }
        data := data.(region := data.region - allclips);
        assert data == scheduled[i].(region := job.Culled(i));
        phase2 := phase2[i := data];
        if data.clip != {} && !data.translucent {
          allclips := allclips + data.clip;
          if !fullRepaint {
            upperTranslucentDamage := upperTranslucentDamage + (data.region - data.clip);
          }
        } else if !fullRepaint {
          upperTranslucentDamage := upperTranslucentDamage + data.region;
        }
      }
    }

    /** The painting pass, bottom to top, over a cumulative area. */
    method PaintLayers(ghost job: Job, culled: seq<Layer>, background': Region, ghost stale: Buffer)
      returns (paintedArea: Region)
      requires Valid() && stale.Keys == display
      requires |culled| == |job.layers|
      requires forall j :: 0 <= j < |culled| ==> culled[j] == job.layers[j].(region := job.Culled(j))
      requires background' == job.PaintedArea(0)
      requires forall p :: p in display ==> buffer[p] == job.Value(background, stale[p], 0, p)
      modifies this`buffer
      ensures Valid()
      ensures paintedArea == job.PaintedArea(|job.layers|)
      ensures forall p :: p in display ==> buffer[p] == job.Value(background, stale[p], |job.layers|, p)
    {
      paintedArea := background';
      var phase2 := culled;
      var i := 0;
      while i < |phase2|
        invariant 0 <= i <= |phase2| == |job.layers|
        invariant Valid() && paintedArea == job.PaintedArea(i)
        invariant forall j :: i <= j < |phase2| ==> phase2[j] == job.layers[j].(region := job.Culled(j))
        invariant forall p :: p in display ==> buffer[p] == job.Value(background, stale[p], i, p)
      {
        paintedArea := paintedArea + phase2[i].region;
        phase2 := phase2[i := phase2[i].(region := paintedArea)];
        PaintWindow(phase2[i].window, phase2[i].region);
        i := i + 1;
      }
    }

    /** The optimised path. */
    method PaintSimpleScreen(region: Region)
      requires Valid()
      modifies this`stackingOrder, this`buffer, this`paintedRegion, this`damagedRegion
      ensures Valid()
      ensures stackingOrder == AfterPaint(old(stackingOrder))
      ensures forall p :: p in display ==>
                buffer[p] == SimpleValue(background, old(stackingOrder), region, repaintRegion, display,
                    old(buffer)[p], p)
      ensures var job := MakeJob(old(stackingOrder), region, repaintRegion, display);
              && damagedRegion == job.Damaged()
              && paintedRegion == if job.Full() then display else old(paintedRegion) + job.PaintedArea(|job.layers|)
    {
      ghost var stack := stackingOrder;
      var dirtyArea, phase2 := PrepareWindows(region);
      ghost var job := MakeJob(stack, region, repaintRegion, display);
      var repaintClip := repaintRegion - dirtyArea;
      dirtyArea := dirtyArea + repaintRegion;
      var fullRepaint := dirtyArea == display;

      var allclips;
      phase2, allclips := CullLayers(job, phase2, fullRepaint);
      var paintedArea := dirtyArea - allclips;
      PaintBackground(paintedArea);
      paintedArea := PaintLayers(job, phase2, paintedArea, old(buffer));

      if fullRepaint {
        paintedRegion := display;
        damagedRegion := display - repaintClip;
      } else {
        paintedRegion := paintedRegion + paintedArea;
        damagedRegion := paintedArea - repaintClip;
      }
    }

    /** The windows to paint; their repaints are taken over. */
    method PrepareGenericPaint() returns (phase2: seq<Window>)
      modifies this`stackingOrder
      ensures stackingOrder == AfterPaint(old(stackingOrder))
      ensures phase2 == PaintedWindows(old(stackingOrder))
    {
      ghost var stack := stackingOrder;
      phase2 := [];
      var n := |stackingOrder|;
      for i := 0 to n
        invariant |stackingOrder| == n
        invariant forall j :: 0 <= j < n ==> stackingOrder[j] == if j < i then stack[j].AfterPaint() else stack[j]
        invariant phase2 == PaintedWindows(stack[..i])
      {
        var window := stackingOrder[i];
        assert Front(stack[..i + 1]) == stack[..i];
        if window.painting {
          stackingOrder := stackingOrder[i := window.(repaints := {})];
          phase2 := phase2 + [window];
        }
      }
      assert stack[..n] == stack;
    }

    /** The unoptimised path: everything, bottom to top. */
    method PaintGenericScreen()
      requires Valid()
      modifies this`stackingOrder, this`buffer, this`damagedRegion
      ensures Valid()
      ensures stackingOrder == AfterPaint(old(stackingOrder))
      ensures forall p :: p in display ==> buffer[p] == Composition(background, old(stackingOrder), p)
      ensures damagedRegion == display
    {
      ghost var stack := stackingOrder;
      PaintBackground(display);
      var phase2 := PrepareGenericPaint();
      var i := 0;
      while i < |phase2|
        invariant 0 <= i <= |phase2|
        invariant Valid() && stackingOrder == AfterPaint(stack)
        invariant forall p :: p in display ==> buffer[p] == Composition(background, phase2[..i], p)
      {
        assert Front(phase2[..i + 1]) == phase2[..i];
        PaintedWindowsArePainted(stack, i);
        PaintWindow(phase2[i], display);
        i := i + 1;
      }
      assert phase2[..i] == phase2;
      forall p | p in display
        ensures buffer[p] == Composition(background, stack, p)
      {
        PaintedWindowsComposition(background, stack, p);
      }
      damagedRegion := display;
    }

    /** One frame. `before` is the stacking order of the frame the buffer's current parts show. */
    method PaintScreen(transformed: bool, damage: Region, repaint: Region, ghost before: seq<Window>)
      returns (update: Region, valid: Region)
      requires Valid()
      modifies this
      ensures Valid() && stackingOrder == AfterPaint(old(stackingOrder))
      ensures forall i :: 0 <= i < |stackingOrder| ==>
                var window := old(stackingOrder)[i];
                stackingOrder[i] == if window.painting then window.(repaints := {}) else window
      ensures repaintRegion == {} && damagedRegion == {}
      ensures forall p :: p in display && (forall w :: w in old(stackingOrder) ==> w.SoundAt(p)) &&
                          (p !in repaint ==> ReportedAt(before, old(stackingOrder), damage * display, p) &&
                                             old(buffer)[p] == Composition(background, before, p)) ==>
                buffer[p] == Composition(background, old(stackingOrder), p)
      ensures transformed ==> update == display
      ensures !transformed ==> update == MakeJob(old(stackingOrder), damage * display, repaint, display).Damaged()
      ensures valid <= display
      ensures transformed ==> valid == display
      ensures !transformed ==>
                var stack, region := old(stackingOrder), damage * display;
                var dirty := MakeJob(stack, region, repaint, display).dirty;
                forall p :: p in display ==>
                  (p in valid <==> dirty + repaint == display || p in repaint || Wanted(stack, region, p))
      ensures forall p :: p in display && p !in valid ==> buffer[p] == old(buffer)[p]
    {
      var region := if damage == display then display else damage * display;
      assert region == damage * display;
      paintedRegion := region;
      repaintRegion := repaint;
      if transformed {
        PaintGenericScreen();
        valid := display;
      } else {
        PaintSimpleScreen(region);
        valid := (region + paintedRegion) * display;
        forall p | p in display
          ensures var dirty := MakeJob(old(stackingOrder), region, repaint, display).dirty;
                  p in valid <==>
                  dirty + repaint == display || p in repaint || Wanted(old(stackingOrder), region, p)
          ensures p !in valid ==> buffer[p] == old(buffer)[p]
          ensures (forall w :: w in old(stackingOrder) ==> w.SoundAt(p)) &&
                  (p !in repaint ==> ReportedAt(before, old(stackingOrder), region, p) &&
                                     old(buffer)[p] == Composition(background, before, p)) ==>
                    buffer[p] == Composition(background, old(stackingOrder), p)
        {
          PaintedExactly(old(stackingOrder), region, repaint, display, p);
          PaintsOneFrame(background, before, old(stackingOrder), region, repaint, display, old(buffer)[p], p);
        }
      }
      update := damagedRegion;
      repaintRegion := {};
      damagedRegion := {};
    }
  }

  lemma PaintsOneFrame(background: Pixel -> Colour, before: seq<Window>, stack: seq<Window>, region: Region,
      repaint: Region, display: Region, stale: Colour, p: Pixel)
    requires p in display
    ensures (forall w :: w in stack ==> w.SoundAt(p)) &&
            (p !in repaint ==> ReportedAt(before, stack, region, p) && stale == Composition(background, before, p)) ==>
              SimpleValue(background, stack, region, repaint, display, stale, p) == Composition(background, stack, p)
    ensures var job := MakeJob(stack, region, repaint, display);
            !job.Full() && p !in job.PaintedArea(|job.layers|) ==>
              SimpleValue(background, stack, region, repaint, display, stale, p) == stale
  {
    var job := MakeJob(stack, region, repaint, display);
    if (forall w :: w in stack ==> w.SoundAt(p)) &&
       (p !in repaint ==> ReportedAt(before, stack, region, p) && stale == Composition(background, before, p)) {
      FastPathRefinesFullRepaint(background, before, stack, region, repaint, display, stale, p);
    }
    if p !in job.PaintedArea(|job.layers|) {
      UnpaintedPixelIsKept(job, background, stale, |job.layers|, p);
    }
  }

  lemma OnlyEffectsRemain(stack: seq<Window>, p: Pixel)
    ensures (exists w :: w in AfterPaint(stack) && w.painting && (p in w.repaints || p in w.effects)) <==>
            exists w :: w in stack && w.painting && p in w.effects
  {
    var after := AfterPaint(stack);
    if w :| w in stack && w.painting && p in w.effects {
      var i :| 0 <= i < |stack| && stack[i] == w;
      assert after[i] in after && after[i].painting && p in after[i].effects;
    }
    if w :| w in after && w.painting && (p in w.repaints || p in w.effects) {
      var i :| 0 <= i < |after| && after[i] == w;
      assert stack[i] in stack && stack[i].painting && p in stack[i].effects;
    }
  }

  /** Repaints are taken over once: a frame after a painted one finds dirty only what is damaged
    * or effects ask for. */
  lemma RepaintsAreTakenOver(stack: seq<Window>, region: Region, repaint: Region, display: Region, p: Pixel)
    ensures p in MakeJob(AfterPaint(stack), region, repaint, display).dirty <==>
            p in region || exists w :: w in stack && w.painting && p in w.effects
  {
    hide AfterPaint, MakeJob;
    DirtyExactly(AfterPaint(stack), region, repaint, display, p);
    OnlyEffectsRemain(stack, p);
  }

  function PaintedWindows(stack: seq<Window>): seq<Window> {
    if stack == [] then []
    else if Last(stack).painting then PaintedWindows(Front(stack)) + [Last(stack)]
    else PaintedWindows(Front(stack))
  }

  lemma {:induction false} PaintedWindowsArePainted(stack: seq<Window>, i: nat)
    requires i < |PaintedWindows(stack)|
    ensures PaintedWindows(stack)[i].painting
  {
    if i < |PaintedWindows(Front(stack))| {
      PaintedWindowsArePainted(Front(stack), i);
    }
  }

  lemma {:induction false} PaintedWindowsComposition(background: Pixel -> Colour, stack: seq<Window>, p: Pixel)
    ensures Composition(background, PaintedWindows(stack), p) == Composition(background, stack, p)
  {
    if stack != [] {
      PaintedWindowsComposition(background, Front(stack), p);
      if Last(stack).painting {
        assert Front(PaintedWindows(stack)) == PaintedWindows(Front(stack));
      }
    }
  }

  lemma ScheduleNext(stack: seq<Window>, i: nat, region: Region)
    requires i < |stack|
    ensures var below, here := Scheduled(stack[..i], region), ScheduledFor(stack[i], region);
            && Scheduled(stack[..i + 1], region) == below + here
            && DirtyArea(below + here, region) ==
               DirtyArea(below, region) + (if stack[i].painting then stack[i].PaintRegion(region) else {})
  {
    assert Front(stack[..i + 1]) == stack[..i];
    var below, here := Scheduled(stack[..i], region), ScheduledFor(stack[i], region);
    if stack[i].painting {
      assert Front(below + here) == below;
    } else {
      assert below + here == below;
    }
  }

  /** The damage history of an output's buffers. */
  class OutputBuffers {
    const display: Region
    var damageHistory: seq<Region>

    constructor (display: Region)
      ensures this.display == display && damageHistory == []
    {
      this.display := display;
      damageHistory := [];
    }

    method AccumulatedDamageHistory(bufferAge: int) returns (region: Region)
      ensures region == FrameHistory.Accumulated(damageHistory, bufferAge, display)
    {
      region := {};
      if bufferAge > 0 && bufferAge <= |damageHistory| {
        for i := 0 to bufferAge - 1
          invariant region == FrameHistory.Union(damageHistory[..i])
        {
          assert Front(damageHistory[..i + 1]) == damageHistory[..i];
          region := region + damageHistory[i];
        }
      } else {
        region := display;
      }
    }

    method AddToDamageHistory(region: Region)
      modifies this
      ensures damageHistory == FrameHistory.Recorded(old(damageHistory), region)
    {
      if |damageHistory| > FrameHistory.MAX_KEPT {
        damageHistory := damageHistory[..|damageHistory| - 1];
      }
      damageHistory := [region] + damageHistory;
    }
  }
}
