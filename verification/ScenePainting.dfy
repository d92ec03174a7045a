/** Regions are sets of pixels, as `QRegion` is used by the compositor. */
module Regions {
  datatype Pixel = Pixel(x: int, y: int)

  type Region = set<Pixel>
}

/** What the scene painter computes, pixel by pixel, and why its optimised path is correct. */
module ScenePainting {
  import opened Regions

  /** A packed pixel value; the painter never looks inside it. */
  type Colour = int

  type Buffer = map<Pixel, Colour>

  /** A window of the stacking order, as one paint pass sees it.
    * `draw` is what painting the window does to one pixel, given what is below it.
    * `effects` is what the effects' pre-paint hooks add to the region to paint.
    * A slot whose window is not there (not yet mapped, closed, hidden) has `painting == false`. */
  datatype Window = Window(
    painting: bool,
    draw: (Pixel, Colour) -> Colour,
    repaints: Region,
    effects: Region,
    clip: Region,
    translucent: bool)
  {
    function Over(p: Pixel, below: Colour): Colour {
      if painting then draw(p, below) else below
    }

    function PaintRegion(region: Region): Region {
      region + repaints + effects
    }

    predicate Opaque(p: Pixel) {
      !translucent && p in clip
    }

    /** The promise behind occlusion culling: an opaque window hides what is below its clip. */
    ghost predicate SoundAt(p: Pixel) {
      painting && !translucent && p in clip ==> forall below, below' :: draw(p, below) == draw(p, below')
    }

    function AfterPaint(): Window {
      if painting then this.(repaints := {}) else this
    }
  }

  /** One entry of the second paint pass. */
  datatype Layer = Layer(window: Window, region: Region, clip: Region, translucent: bool) {
    predicate Opaque(p: Pixel) {
      !translucent && p in clip
    }
  }

  function Last<T>(s: seq<T>): T
    requires s != []
  {
    s[|s| - 1]
  }

  function Front<T>(s: seq<T>): seq<T>
    requires s != []
  {
    s[..|s| - 1]
  }

  /** The reference semantics: every painted window over the background, bottom to top. */
  function Composition(background: Pixel -> Colour, stack: seq<Window>, p: Pixel): Colour {
    if stack == [] then background(p)
    else Last(stack).Over(p, Composition(background, Front(stack), p))
  }

  function LayerComposition(background: Pixel -> Colour, layers: seq<Layer>, p: Pixel): Colour {
    if layers == [] then background(p)
    else Last(layers).window.draw(p, LayerComposition(background, Front(layers), p))
  }

  /** What the first pass schedules for one window. */
  function ScheduledFor(w: Window, region: Region): seq<Layer> {
    if w.painting then [Layer(w, w.PaintRegion(region), w.clip, w.translucent)] else []
  }

  /** The entries scheduled by the first pass. */
  function Scheduled(stack: seq<Window>, region: Region): seq<Layer> {
    if stack == [] then [] else Scheduled(Front(stack), region) + ScheduledFor(Last(stack), region)
  }

  /** `region` and every scheduled region. */
  function DirtyArea(layers: seq<Layer>, region: Region): Region {
    if layers == [] then region else DirtyArea(Front(layers), region) + Last(layers).region
  }

  /** The two accumulators of the occlusion culling pass. */
  datatype Cull = Cull(allclips: Region, upperTranslucentDamage: Region)

  /** Everything the second and third pass work on. `dirty` is the dirty area before `repaint`,
    * the area a reused back buffer is behind, is added to it. */
  datatype Job = Job(layers: seq<Layer>, dirty: Region, repaint: Region, display: Region) {
    predicate Full() {
      dirty + repaint == display
    }

    function RepaintClip(): Region {
      repaint - dirty
    }

    /** The accumulators once the layers from index `i` upwards are culled. */
    function Above(i: nat): Cull
      requires i <= |layers|
      decreases |layers| - i
    {
      if i == |layers| then Cull({}, repaint)
      else
        var above, region := Above(i + 1), Culled(i);
        if layers[i].clip != {} && !layers[i].translucent then
          Cull(above.allclips + layers[i].clip,
               if Full() then above.upperTranslucentDamage
               else above.upperTranslucentDamage + (region - layers[i].clip))
        else
          Cull(above.allclips,
               if Full() then above.upperTranslucentDamage else above.upperTranslucentDamage + region)
    }

    /** The region layer `i` is left with by the culling pass. */
    function Culled(i: nat): Region
      requires i < |layers|
      decreases |layers| - i, 0
    {
      (if Full() then display else layers[i].region + Above(i + 1).upperTranslucentDamage)
      - Above(i + 1).allclips
    }

    /** What is painted at least once after the background and the lowest `i` layers. */
    function PaintedArea(i: nat): Region
      requires i <= |layers|
    {
      if i == 0 then dirty + repaint - Above(0).allclips else PaintedArea(i - 1) + Culled(i - 1)
    }

    /** The pixel `p` after the background and the lowest `i` layers, over the buffer's `stale` value. */
    function Value(background: Pixel -> Colour, stale: Colour, i: nat, p: Pixel): Colour
      requires i <= |layers|
    {
      if i == 0 then
        if p in PaintedArea(0) then background(p) else stale
      else
        var below := Value(background, stale, i - 1, p);
        if p in PaintedArea(i) then layers[i - 1].window.draw(p, below) else below
    }

    /** The damage reported for the frame. */
    function Damaged(): Region {
      (if Full() then display else PaintedArea(|layers|)) - RepaintClip()
    }

    /** Whether a layer below index `k`, with nothing opaque between it and `k`, wants `p` painted. */
    predicate Hit(k: nat, p: Pixel)
      requires k <= |layers|
    {
      if k == 0 then p in dirty + repaint
      else p in layers[k - 1].region || (!layers[k - 1].Opaque(p) && Hit(k - 1, p))
    }

    /** `dirty` covers the regions of all layers, as it does in every job that arises. */
    ghost predicate Valid() {
      forall i :: 0 <= i < |layers| ==> layers[i].region <= dirty
    }
  }

  function MakeJob(stack: seq<Window>, region: Region, repaint: Region, display: Region): Job {
    var layers := Scheduled(stack, region);
    Job(layers, DirtyArea(layers, region), repaint, display)
  }

  // ---------------------------------------------------------------------------------------------
  // The first pass

  lemma {:induction false} DirtyAreaIsUnion(layers: seq<Layer>, region: Region, p: Pixel)
    ensures p in DirtyArea(layers, region) <==>
            p in region || exists i :: 0 <= i < |layers| && p in layers[i].region
  {
    if layers != [] {
      DirtyAreaIsUnion(Front(layers), region, p);
      var n := |layers| - 1;
      assert forall i :: 0 <= i < n ==> Front(layers)[i] == layers[i];
    }
  }

  lemma JobIsValid(stack: seq<Window>, region: Region, repaint: Region, display: Region)
    ensures MakeJob(stack, region, repaint, display).Valid()
  {
    var job := MakeJob(stack, region, repaint, display);
    forall i | 0 <= i < |job.layers|
      ensures job.layers[i].region <= job.dirty
    {
      forall p | p in job.layers[i].region
        ensures p in job.dirty
      {
        DirtyAreaIsUnion(job.layers, region, p);
      }
    }
  }

  /** Windows that are not painted leave no layer and no trace. */
  lemma {:induction false} ScheduledComposition(background: Pixel -> Colour, stack: seq<Window>, region: Region,
      p: Pixel)
    ensures LayerComposition(background, Scheduled(stack, region), p) == Composition(background, stack, p)
  {
    if stack != [] {
      ScheduledComposition(background, Front(stack), region, p);
      if Last(stack).painting {
        assert Front(Scheduled(stack, region)) == Scheduled(Front(stack), region);
      } else {
        assert Scheduled(stack, region) == Scheduled(Front(stack), region);
      }
    }
  }

  lemma {:induction false} ScheduledKeepsClips(stack: seq<Window>, region: Region, p: Pixel)
    requires forall w :: w in stack ==> w.SoundAt(p)
    ensures forall l :: l in Scheduled(stack, region) ==>
              l.window.painting && l.window.SoundAt(p) && l.clip == l.window.clip &&
              l.translucent == l.window.translucent
  {
    if stack != [] {
      ScheduledKeepsClips(Front(stack), region, p);
    }
  }

  // ---------------------------------------------------------------------------------------------
  // Culling

  /** `allclips` is exactly what the layers above cover opaquely. */
  lemma {:induction false} AllClipsMeaning(job: Job, i: nat, p: Pixel)
    requires i <= |job.layers|
    ensures p in job.Above(i).allclips <==>
            exists j :: i <= j < |job.layers| && !job.layers[j].translucent && p in job.layers[j].clip
    decreases |job.layers| - i
  {
    if i < |job.layers| {
      AllClipsMeaning(job, i + 1, p);
    }
  }

  lemma {:induction false} UpperDamageIsDirty(job: Job, i: nat)
    requires job.Valid() && i <= |job.layers|
    ensures job.Above(i).upperTranslucentDamage <= job.dirty + job.repaint
    decreases |job.layers| - i
  {
    if i < |job.layers| {
      UpperDamageIsDirty(job, i + 1);
      assert job.layers[i].region <= job.dirty;
    }
  }

  lemma {:induction false} CoveredIsNotPainted(job: Job, i: nat, p: Pixel)
    requires i <= |job.layers|
    requires p in job.Above(i).allclips
    ensures p !in job.PaintedArea(i)
  {
    if i == 0 {
    } else {
      assert p in job.Above(i - 1).allclips;
      CoveredIsNotPainted(job, i - 1, p);
    }
  }

  /** The heart of the culling pass: among the lowest `k` layers, a pixel no higher layer covers is
    * painted exactly when a higher translucent layer or one of these layers asks for it. */
  lemma {:induction false} CullingSweep(job: Job, k: nat, p: Pixel)
    requires job.Valid() && k <= |job.layers|
    requires p !in job.Above(k).allclips
    requires job.Full() ==> p in job.display
    ensures p in job.PaintedArea(k) <==>
            job.Full() || p in job.Above(k).upperTranslucentDamage || job.Hit(k, p)
  {
    if k == 0 {
      UpperDamageIsDirty(job, 0);
    } else {
      var l := job.layers[k - 1];
      if p in job.Culled(k - 1) {
      } else if l.Opaque(p) {
        assert p in job.Above(k - 1).allclips;
        CoveredIsNotPainted(job, k - 1, p);
      } else {
        assert p !in job.Above(k - 1).allclips;
        CullingSweep(job, k - 1, p);
      }
    }
  }

  /** Nothing is painted where a higher layer is opaque. */
  lemma NothingPaintedBelowClip(job: Job, i: nat, p: Pixel)
    requires i < |job.layers|
    requires exists j :: i < j < |job.layers| && job.layers[j].Opaque(p)
    ensures p !in job.PaintedArea(0) && p !in job.PaintedArea(i + 1)
  {
    AllClipsMeaning(job, i + 1, p);
    AllClipsMeaning(job, 0, p);
    CoveredIsNotPainted(job, i + 1, p);
    CoveredIsNotPainted(job, 0, p);
  }

  /** A pixel that the background does not start is started by its topmost opaque cover. */
  lemma FirstPaintIsOpaqueCover(job: Job, i: nat, p: Pixel)
    requires job.Valid() && i < |job.layers| && p in job.display
    requires p in job.PaintedArea(i + 1) && p !in job.PaintedArea(i)
    ensures job.layers[i].Opaque(p)
    ensures forall j :: i < j < |job.layers| ==> !job.layers[j].Opaque(p)
  {
    AllClipsMeaning(job, i + 1, p);
    if !job.layers[i].Opaque(p) {
      CullingSweep(job, i, p);
      assert false;
    }
  }

  /** Once painted, a pixel is painted by every layer further up. */
  lemma {:induction false} PaintedAreaGrows(job: Job, i: nat, k: nat)
    requires i <= k <= |job.layers|
    ensures job.PaintedArea(i) <= job.PaintedArea(k)
  {
    if i < k {
      PaintedAreaGrows(job, i, k - 1);
    }
  }

  /** No layer paints outside the dirty area. */
  lemma {:induction false} PaintedAreaIsDirty(job: Job, i: nat)
    requires job.Valid() && i <= |job.layers|
    ensures job.PaintedArea(i) <= job.dirty + job.repaint
  {
    if i > 0 {
      PaintedAreaIsDirty(job, i - 1);
      UpperDamageIsDirty(job, i);
      assert job.layers[i - 1].region <= job.dirty;
    }
  }

  // ---------------------------------------------------------------------------------------------
  // Painting

  ghost predicate SoundLayers(layers: seq<Layer>, p: Pixel) {
    forall l :: l in layers ==>
      l.window.painting && l.window.SoundAt(p) && l.clip == l.window.clip && l.translucent == l.window.translucent
  }

  /** A painted pixel shows the composition of the layers painted so far. */
  lemma {:induction false} PaintedPixelIsComposition(job: Job, background: Pixel -> Colour, stale: Colour, i: nat,
      p: Pixel)
    requires job.Valid() && i <= |job.layers| && p in job.display
    requires SoundLayers(job.layers, p)
    requires p in job.PaintedArea(i)
    ensures job.Value(background, stale, i, p) == LayerComposition(background, job.layers[..i], p)
  {
    if i > 0 {
      assert Front(job.layers[..i]) == job.layers[..i - 1];
      if p in job.PaintedArea(i - 1) {
        PaintedPixelIsComposition(job, background, stale, i - 1, p);
      } else {
        FirstPaintIsOpaqueCover(job, i - 1, p);
        assert job.layers[i - 1] in job.layers;
      }
    }
  }

  lemma {:induction false} UnpaintedPixelIsKept(job: Job, background: Pixel -> Colour, stale: Colour, i: nat, p: Pixel)
    requires i <= |job.layers|
    requires p !in job.PaintedArea(i)
    ensures job.Value(background, stale, i, p) == stale
  {
    if i > 0 {
      UnpaintedPixelIsKept(job, background, stale, i - 1, p);
    }
  }

  // ---------------------------------------------------------------------------------------------
  // Frames

  /** At `p`, the step from the stack `before` to the stack `now` is covered by what was reported:
    * slot by slot, a window that draws differently has `p` among its repaints, or effects ask for it. */
  ghost predicate ReportedAt(before: seq<Window>, now: seq<Window>, region: Region, p: Pixel) {
    && |before| == |now|
    && forall i {:trigger now[i]} :: 0 <= i < |now| ==>
         p in region || (now[i].painting && (p in now[i].repaints || p in now[i].effects)) ||
         forall below :: before[i].Over(p, below) == now[i].Over(p, below)
  }

  /** Whether the partial path repaints `p`, read off the stack from the top. */
  predicate Wanted(stack: seq<Window>, region: Region, p: Pixel) {
    p in region ||
    (stack != [] &&
     var w := Last(stack);
     || (w.painting && (p in w.repaints || p in w.effects))
     || (!(w.painting && !w.translucent && p in w.clip) && Wanted(Front(stack), region, p)))
  }

  /** A pixel the partial path leaves alone did not change. */
  lemma {:induction false} UnwantedPixelIsUnchanged(background: Pixel -> Colour, before: seq<Window>,
      now: seq<Window>, region: Region, p: Pixel)
    requires ReportedAt(before, now, region, p)
    requires forall w :: w in now ==> w.SoundAt(p)
    requires !Wanted(now, region, p)
    ensures Composition(background, before, p) == Composition(background, now, p)
  {
    if now != [] {
      var n := |now| - 1;
      assert now[n] in now;
      var b, b' := Composition(background, Front(before), p), Composition(background, Front(now), p);
      assert before[n].Over(p, b) == now[n].Over(p, b);
      if now[n].painting && now[n].Opaque(p) {
        assert now[n].SoundAt(p);
        assert now[n].draw(p, b) == now[n].draw(p, b');
      } else {
        UnwantedPixelIsUnchanged(background, Front(before), Front(now), region, p);
      }
    }
  }

  lemma LastScheduled(stack: seq<Window>, region: Region, layers: seq<Layer>, k: nat)
    requires stack != [] && Last(stack).painting
    requires k <= |layers| && layers[..k] == Scheduled(stack, region)
    ensures k > 0 && layers[..k - 1] == Scheduled(Front(stack), region)
    ensures var w := Last(stack);
            layers[k - 1] == Layer(w, w.PaintRegion(region), w.clip, w.translucent)
  {
    var scheduled := Scheduled(stack, region);
    assert layers[k - 1] == scheduled[k - 1];
    assert layers[..k - 1] == scheduled[..k - 1];
  }

  lemma {:induction false} HitIsWanted(stack: seq<Window>, region: Region, job: Job, k: nat, p: Pixel)
    requires k <= |job.layers| && job.layers[..k] == Scheduled(stack, region)
    requires p !in job.repaint
    requires p in region ==> p in job.dirty
    requires p in job.dirty ==> p in region || exists i :: 0 <= i < |job.layers| && p in job.layers[i].region
    requires forall i :: k <= i < |job.layers| ==> p !in job.layers[i].region
    ensures job.Hit(k, p) <==> Wanted(stack, region, p)
  {
    if stack == [] {
      assert k == 0;
    } else {
      var w := Last(stack);
      if !w.painting {
        HitIsWanted(Front(stack), region, job, k, p);
      } else {
        LastScheduled(stack, region, job.layers, k);
        if p !in job.layers[k - 1].region {
          HitIsWanted(Front(stack), region, job, k - 1, p);
        }
      }
    }
  }

  /** Exactly which pixels a frame paints. */
  lemma PaintedExactly(stack: seq<Window>, region: Region, repaint: Region, display: Region, p: Pixel)
    requires p in display
    ensures var job := MakeJob(stack, region, repaint, display);
            p in job.PaintedArea(|job.layers|) <==>
            job.dirty + repaint == display || p in repaint || Wanted(stack, region, p)
  {
    var job := MakeJob(stack, region, repaint, display);
    var n := |job.layers|;
    JobIsValid(stack, region, repaint, display);
    CullingSweep(job, n, p);
    DirtyAreaIsUnion(job.layers, region, p);
    if p !in repaint {
      assert job.layers[..n] == job.layers;
      HitIsWanted(stack, region, job, n, p);
    }
  }

  function SimpleValue(background: Pixel -> Colour, stack: seq<Window>, region: Region, repaint: Region,
      display: Region, stale: Colour, p: Pixel): Colour {
    var job := MakeJob(stack, region, repaint, display);
    job.Value(background, stale, |job.layers|, p)
  }

  /** The theorem: the optimised path shows what a full repaint shows. If clips are sound, changes
    * are reported, and the buffer showed the previous composition outside the area it is known to
    * be behind, then after the partial paint every display pixel is the full composition. */
  lemma FastPathRefinesFullRepaint(background: Pixel -> Colour, before: seq<Window>, stack: seq<Window>,
      region: Region, repaint: Region, display: Region, stale: Colour, p: Pixel)
    requires p in display
    requires forall w :: w in stack ==> w.SoundAt(p)
    requires p !in repaint ==> ReportedAt(before, stack, region, p) && stale == Composition(background, before, p)
    ensures SimpleValue(background, stack, region, repaint, display, stale, p) == Composition(background, stack, p)
  {
    RightExactly(background, stack, region, repaint, display, stale, p);
    if p !in repaint && !Wanted(stack, region, p) {
      UnwantedPixelIsUnchanged(background, before, stack, region, p);
    }
  }

  /** Without any assumption on the buffer: exactly when a pixel shows the full composition. */
  lemma RightExactly(background: Pixel -> Colour, stack: seq<Window>, region: Region, repaint: Region,
      display: Region, stale: Colour, p: Pixel)
    requires p in display
    requires forall w :: w in stack ==> w.SoundAt(p)
    ensures var job := MakeJob(stack, region, repaint, display);
            SimpleValue(background, stack, region, repaint, display, stale, p) == Composition(background, stack, p) <==>
            job.dirty + repaint == display || p in repaint || Wanted(stack, region, p) ||
            stale == Composition(background, stack, p)
    ensures p in MakeJob(stack, region, repaint, display).Damaged() ==>
              SimpleValue(background, stack, region, repaint, display, stale, p) == Composition(background, stack, p)
  {
    var job := MakeJob(stack, region, repaint, display);
    var n := |job.layers|;
    JobIsValid(stack, region, repaint, display);
    PaintedExactly(stack, region, repaint, display, p);
    ScheduledComposition(background, stack, region, p);
    if p in job.PaintedArea(n) {
      ScheduledKeepsClips(stack, region, p);
      assert job.layers[..n] == job.layers;
      PaintedPixelIsComposition(job, background, stale, n, p);
    } else {
      UnpaintedPixelIsKept(job, background, stale, n, p);
    }
  }

  /** The reported damage holds every display pixel whose composition changed. */
  lemma DamageIsComplete(background: Pixel -> Colour, before: seq<Window>, stack: seq<Window>, region: Region,
      repaint: Region, display: Region, p: Pixel)
    requires p in display
    requires forall w :: w in stack ==> w.SoundAt(p)
    requires ReportedAt(before, stack, region, p)
    requires Composition(background, before, p) != Composition(background, stack, p)
    ensures p in MakeJob(stack, region, repaint, display).Damaged()
  {
    var job := MakeJob(stack, region, repaint, display);
    var n := |job.layers|;
    JobIsValid(stack, region, repaint, display);
    PaintedExactly(stack, region, repaint, display, p);
    if !Wanted(stack, region, p) {
      UnwantedPixelIsUnchanged(background, before, stack, region, p);
      assert false;
    }
    WantedIsDirty(stack, region, p);
  }

  lemma {:induction false} WantedIsDirty(stack: seq<Window>, region: Region, p: Pixel)
    requires Wanted(stack, region, p)
    ensures p in DirtyArea(Scheduled(stack, region), region)
  {
    if stack != [] {
      var w := Last(stack);
      if w.painting {
        assert Front(Scheduled(stack, region)) == Scheduled(Front(stack), region);
      } else {
        assert Scheduled(stack, region) == Scheduled(Front(stack), region);
      }
      if Wanted(Front(stack), region, p) {
        WantedIsDirty(Front(stack), region, p);
      }
    }
  }

  /** What the first pass finds dirty: what is damaged, and what the painted windows or their effects
    * ask for. */
  lemma {:induction false} DirtyExactly(stack: seq<Window>, region: Region, repaint: Region, display: Region, p: Pixel)
    ensures p in MakeJob(stack, region, repaint, display).dirty <==>
            p in region || exists w :: w in stack && w.painting && (p in w.repaints || p in w.effects)
  {
    if stack != [] {
      var front, last := Front(stack), Last(stack);
      DirtyExactly(front, region, repaint, display, p);
      assert stack == front + [last];
      if last.painting {
        assert Front(Scheduled(stack, region)) == Scheduled(front, region);
      } else {
        assert Scheduled(stack, region) == Scheduled(front, region);
      }
    }
  }

  /** Exactly what a partial frame is wanted for: what is damaged, and what a window that no opaque one
    * further up covers, or its effects, ask for. */
  lemma {:induction false} WantedExactly(stack: seq<Window>, region: Region, p: Pixel)
    ensures Wanted(stack, region, p) <==>
            p in region ||
            exists k {:trigger stack[k]} :: 0 <= k < |stack| && stack[k].painting &&
              (p in stack[k].repaints || p in stack[k].effects) &&
              forall j {:trigger stack[j]} :: k < j < |stack| ==>
                !(stack[j].painting && !stack[j].translucent && p in stack[j].clip)
  {
    if stack != [] {
      WantedExactly(Front(stack), region, p);
      var n := |stack| - 1;
      assert forall j :: 0 <= j < n ==> Front(stack)[j] == stack[j];
      assert stack[n] == Last(stack);
    }
  }

  /** Exactly which pixels a frame reports as damaged: of the dirty ones, those it paints. */
  lemma DamagedExactly(stack: seq<Window>, region: Region, repaint: Region, display: Region, p: Pixel)
    requires p in display
    ensures var job := MakeJob(stack, region, repaint, display);
            p in job.Damaged() <==>
            p in job.dirty && (job.dirty + repaint == display || p in repaint || Wanted(stack, region, p))
  {
    var job := MakeJob(stack, region, repaint, display);
    PaintedExactly(stack, region, repaint, display, p);
    if Wanted(stack, region, p) {
      WantedIsDirty(stack, region, p);
    }
    assert job.dirty + repaint == display ==> p in job.dirty || p in repaint;
  }

  /** The reported damage never includes what was only painted to bring the buffer up to date, so
    * the damage history does not feed on itself. */
  lemma DamageDoesNotGrow(stack: seq<Window>, region: Region, repaint: Region, display: Region)
    ensures var job := MakeJob(stack, region, repaint, display);
            job.Damaged() <= job.dirty
  {
    var job := MakeJob(stack, region, repaint, display);
    JobIsValid(stack, region, repaint, display);
    PaintedAreaIsDirty(job, |job.layers|);
  }
}
