/** Frames presented one after the other into rotating, reused back buffers. */
module FrameHistory {
  import opened Regions
  import opened ScenePainting

  /** How many frames of damage are kept (the newest is added after the oldest is dropped). */
  const MAX_KEPT := 10

  function Union(regions: seq<Region>): Region {
    if regions == [] then {} else Union(Front(regions)) + Last(regions)
  }

  /** What a back buffer of the given age is behind. The newest damage comes first; an age of 0, or
    * one older than the history, means the contents are unknown. */
  function Accumulated(history: seq<Region>, age: int, display: Region): Region {
    if 0 < age <= |history| then Union(history[..age - 1]) else display
  }

  function Recorded(history: seq<Region>, damage: Region): seq<Region> {
    [damage] + (if |history| > MAX_KEPT then Front(history) else history)
  }

  /** A frame whose damage misses the display is kept back; posting a frame can fail. */
  datatype Outcome = Posted | KeptBack | Failed

  /** The input of one frame; `back` is what the back buffer shows before painting. When something is
    * `transformed`, everything is painted. */
  datatype Frame = Frame(
    stack: seq<Window>,
    region: Region,
    transformed: bool,
    age: int,
    back: Buffer,
    outcome: Outcome)

  /** A posted buffer; it may be wrong where damage was `lost`. */
  datatype Shown = Shown(stack: seq<Window>, buffer: Buffer, lost: Region)

  /** What was posted, and the damage recorded for it, newest first; the stacking order painted last,
    * posted or not; and the damage lost when posting failed and not recorded since. */
  datatype Screen = Screen(shown: seq<Shown>, history: seq<Region>, painted: seq<Window>, lost: Region)

  function Repaint(screen: Screen, frame: Frame, display: Region): Region {
    Accumulated(screen.history, frame.age, display)
  }

  function Painted(background: Pixel -> Colour, display: Region, screen: Screen, frame: Frame): Buffer
    requires frame.back.Keys == display
  {
    map p | p in display ::
      if frame.transformed then Composition(background, frame.stack, p)
      else SimpleValue(background, frame.stack, frame.region, Repaint(screen, frame, display), display,
                       frame.back[p], p)
  }

  function DamageOf(display: Region, screen: Screen, frame: Frame): Region {
    if frame.transformed then display
    else MakeJob(frame.stack, frame.region, Repaint(screen, frame, display), display).Damaged() * display
  }

  /** One frame. When posting fails, nothing is recorded, although the windows' repaints are taken. */
  function Present(background: Pixel -> Colour, display: Region, screen: Screen, frame: Frame): Screen
    requires frame.back.Keys == display
  {
    var damage := DamageOf(display, screen, frame);
    match frame.outcome
    case Posted =>
      var lost := screen.lost - damage;
      Screen([Shown(frame.stack, Painted(background, display, screen, frame), lost)] + screen.shown,
             Recorded(screen.history, damage), frame.stack, lost)
    case KeptBack => screen.(painted := frame.stack)
    case Failed => screen.(painted := frame.stack, lost := screen.lost + damage)
  }

  /** What a frame has to come with: a back buffer that, outside the area to repaint, is what the
    * buffer age says it is; and, unless everything is painted, sound clips and the changes since the
    * last frame reported. Only a frame without damage is kept back. */
  ghost predicate Admissible(display: Region, screen: Screen, frame: Frame) {
    && frame.back.Keys == display
    && (0 < frame.age <= |screen.shown| ==>
          Agrees(display, screen, Repaint(screen, frame, display), frame.back, screen.shown[frame.age - 1].buffer))
    && (!frame.transformed ==> forall p, w :: p in display && w in frame.stack ==> w.SoundAt(p))
    && (!frame.transformed && screen.shown != [] ==>
          forall p :: p in display ==> ReportedAt(screen.painted, frame.stack, frame.region, p))
    && (frame.outcome.KeptBack? ==> DamageOf(display, screen, frame) == {})
  }

  /** Two buffers agree, but for the area to repaint and lost damage. */
  predicate Agrees(display: Region, screen: Screen, repaint: Region, b: Buffer, b': Buffer) {
    && b.Keys == b'.Keys == display
    && forall p :: p in display && p !in repaint && p !in screen.lost ==> b[p] == b'[p]
  }

  ghost predicate IsRun(background: Pixel -> Colour, display: Region, frames: seq<Frame>)
    decreases |frames|, 0
  {
    frames != [] ==>
      && IsRun(background, display, Front(frames))
      && Admissible(display, After(background, display, Front(frames)), Last(frames))
  }

  ghost function After(background: Pixel -> Colour, display: Region, frames: seq<Frame>): Screen
    requires IsRun(background, display, frames)
    decreases |frames|, 1
  {
    if frames == [] then Screen([], [], [], {})
    else Present(background, display, After(background, display, Front(frames)), Last(frames))
  }

  /** A buffer shows the composition of its own frame where no damage was lost. */
  ghost predicate ShowsComposition(background: Pixel -> Colour, display: Region, shown: Shown) {
    && shown.buffer.Keys == display
    && forall p :: p in display && p !in shown.lost ==> shown.buffer[p] == Composition(background, shown.stack, p)
  }

  ghost predicate ShowsCompositions(background: Pixel -> Colour, display: Region, screen: Screen) {
    forall k :: 0 <= k < |screen.shown| ==> ShowsComposition(background, display, screen.shown[k])
  }

  /** Nothing changed at `p` between two frames, and no damage is lost there. */
  ghost predicate SameAt(background: Pixel -> Colour, before: seq<Window>, lost: Region, now: seq<Window>, p: Pixel) {
    p !in lost && Composition(background, before, p) == Composition(background, now, p)
  }

  /** The recorded damage holds everything that changed from one posted frame to the next, and what
    * changed since the last one was lost. */
  ghost predicate RecordsChanges(background: Pixel -> Colour, display: Region, screen: Screen) {
    && |screen.history| <= |screen.shown|
    && (forall k, p :: 0 <= k < |screen.history| && k + 1 < |screen.shown| &&
                       p in display && p !in screen.history[k] && p !in screen.shown[k].lost ==>
          SameAt(background, screen.shown[k + 1].stack, screen.shown[k + 1].lost, screen.shown[k].stack, p))
    && (screen.shown != [] ==>
          forall p :: p in display && p !in screen.lost ==>
            SameAt(background, screen.shown[0].stack, screen.shown[0].lost, screen.painted, p))
  }

  lemma {:induction false} UnionExactly(regions: seq<Region>, p: Pixel)
    ensures p in Union(regions) <==> exists k :: 0 <= k < |regions| && p in regions[k]
  {
    if regions != [] {
      UnionExactly(Front(regions), p);
      assert forall k :: 0 <= k < |regions| - 1 ==> Front(regions)[k] == regions[k];
    }
  }

  /** What a buffer is behind: everything if its age is unknown or too old, else the damage of the
    * frames since. */
  lemma AccumulatedExactly(history: seq<Region>, age: int, display: Region, p: Pixel)
    ensures p in Accumulated(history, age, display) <==>
            if age <= 0 || age > |history| then p in display
            else exists k :: 0 <= k < age - 1 && p in history[k]
  {
    if 0 < age <= |history| {
      UnionExactly(history[..age - 1], p);
      assert forall k :: 0 <= k < age - 1 ==> history[..age - 1][k] == history[k];
    }
  }

  /** The newest damage comes first, and eleven frames of damage are kept. */
  lemma RecordedExactly(history: seq<Region>, damage: Region)
    requires |history| <= 11
    ensures var history' := Recorded(history, damage);
            && |history'| == (if |history| == 11 then 11 else |history| + 1) && history'[0] == damage
            && forall k :: 0 < k < |history'| ==> history'[k] == history[k - 1]
  {
  }

  /** A pixel outside the damage of the newest frames, and outside lost damage, has not changed. */
  lemma {:induction false} UnchangedOverHistory(background: Pixel -> Colour, display: Region, screen: Screen,
      age: nat, p: Pixel)
    requires RecordsChanges(background, display, screen)
    requires 0 < age <= |screen.history|
    requires p in display && p !in Union(screen.history[..age - 1]) && p !in screen.lost
    ensures SameAt(background, screen.shown[age - 1].stack, screen.shown[age - 1].lost, screen.painted, p)
  {
    if age == 1 {
      assert p in display;
    } else {
      var recent := screen.history[..age - 1];
      assert Front(recent) == screen.history[..age - 2];
      UnchangedOverHistory(background, display, screen, age - 1, p);
      UnionExactly(recent, p);
      assert recent[age - 2] == screen.history[age - 2];
      assert p !in screen.history[age - 2];
      var older := screen.shown[age - 1];
      assert SameAt(background, older.stack, older.lost, screen.shown[age - 2].stack, p);
    }
  }

  /** What the back buffer shows where it is not repainted: the frame painted last. */
  lemma BackShowsPainted(background: Pixel -> Colour, display: Region, screen: Screen, frame: Frame, p: Pixel)
    requires ShowsCompositions(background, display, screen) && RecordsChanges(background, display, screen)
    requires Admissible(display, screen, frame)
    requires p in display && p !in Repaint(screen, frame, display) && p !in screen.lost
    ensures frame.back[p] == Composition(background, screen.painted, p) && screen.shown != []
  {
    var shown := screen.shown[frame.age - 1];
    UnchangedOverHistory(background, display, screen, frame.age, p);
    assert ShowsComposition(background, display, shown);
    assert frame.back[p] == shown.buffer[p];
  }

  /** One painted frame shows its composition, whether it is posted or not, but for lost damage. Even
    * there it does where it reports damage. */
  lemma PaintShowsComposition(background: Pixel -> Colour, display: Region, screen: Screen, frame: Frame, p: Pixel)
    requires ShowsCompositions(background, display, screen) && RecordsChanges(background, display, screen)
    requires Admissible(display, screen, frame)
    requires p in display && (p in screen.lost ==> p in DamageOf(display, screen, frame))
    ensures Painted(background, display, screen, frame)[p] == Composition(background, frame.stack, p)
  {
    if !frame.transformed {
      var repaint := Repaint(screen, frame, display);
      if p in repaint {
        FastPathRefinesFullRepaint(background, frame.stack, frame.stack, frame.region, repaint, display,
            frame.back[p], p);
      } else if p in screen.lost {
        RightExactly(background, frame.stack, frame.region, repaint, display, frame.back[p], p);
      } else {
        BackShowsPainted(background, display, screen, frame, p);
        FastPathRefinesFullRepaint(background, screen.painted, frame.stack, frame.region, repaint, display,
            frame.back[p], p);
      }
    }
  }

  /** What a frame changes at a pixel is in its damage. */
  lemma UndamagedIsSame(background: Pixel -> Colour, display: Region, screen: Screen, frame: Frame, p: Pixel)
    requires Admissible(display, screen, frame) && screen.shown != []
    requires p in display && p !in DamageOf(display, screen, frame)
    ensures Composition(background, screen.painted, p) == Composition(background, frame.stack, p)
  {
    if Composition(background, screen.painted, p) != Composition(background, frame.stack, p) {
      DamageIsComplete(background, screen.painted, frame.stack, frame.region, Repaint(screen, frame, display), display,
                       p);
    }
  }

  lemma PresentRecordsChanges(background: Pixel -> Colour, display: Region, screen: Screen, frame: Frame)
    requires RecordsChanges(background, display, screen)
    requires Admissible(display, screen, frame)
    ensures RecordsChanges(background, display, Present(background, display, screen, frame))
  {
    var next := Present(background, display, screen, frame);
    var damage := DamageOf(display, screen, frame);
    assert frame.outcome.KeptBack? ==> damage == {};
    if screen.shown != [] {
      forall p | p in display && p !in screen.lost && p !in damage
        ensures SameAt(background, screen.shown[0].stack, screen.shown[0].lost, frame.stack, p)
      {
        assert SameAt(background, screen.shown[0].stack, screen.shown[0].lost, screen.painted, p);
        UndamagedIsSame(background, display, screen, frame, p);
      }
    }
    assert forall p :: p !in next.lost ==> SameAt(background, frame.stack, next.lost, frame.stack, p);
    if frame.outcome.Posted? {
      var shown := Shown(frame.stack, Painted(background, display, screen, frame), next.lost);
      hide SameAt, DamageOf, Painted, Admissible;
      PostedRecordsChanges(background, display, screen, shown, damage);
    }
  }

  lemma PostedRecordsChanges(background: Pixel -> Colour, display: Region, screen: Screen, shown: Shown, damage: Region)
    requires RecordsChanges(background, display, screen)
    requires shown.lost == screen.lost - damage
    requires screen.shown != [] ==>
               forall p :: p in display && p !in screen.lost && p !in damage ==>
                 SameAt(background, screen.shown[0].stack, screen.shown[0].lost, shown.stack, p)
    ensures RecordsChanges(background, display, Screen([shown] + screen.shown, Recorded(screen.history, damage),
                                                       shown.stack, shown.lost))
  {
    var shown', history := [shown] + screen.shown, Recorded(screen.history, damage);
    forall k, p | 0 <= k < |history| && k + 1 < |shown'| && p in display && p !in history[k] && p !in shown'[k].lost
      ensures SameAt(background, shown'[k + 1].stack, shown'[k + 1].lost, shown'[k].stack, p)
    {
      if k > 0 {
        assert history[k] == screen.history[k - 1] && shown'[k] == screen.shown[k - 1];
      }
    }
  }

  lemma PostedShowsComposition(background: Pixel -> Colour, display: Region, screen: Screen, frame: Frame)
    requires ShowsCompositions(background, display, screen) && RecordsChanges(background, display, screen)
    requires Admissible(display, screen, frame)
    ensures ShowsComposition(background, display,
                             Shown(frame.stack, Painted(background, display, screen, frame),
                                   screen.lost - DamageOf(display, screen, frame)))
  {
    var painted := Painted(background, display, screen, frame);
    assert painted.Keys == display;
    hide Painted, DamageOf, ShowsCompositions, RecordsChanges, Admissible;
    forall p | p in display && p !in screen.lost - DamageOf(display, screen, frame)
      ensures painted[p] == Composition(background, frame.stack, p)
    {
      PaintShowsComposition(background, display, screen, frame, p);
    }
  }

  lemma PresentShowsCompositions(background: Pixel -> Colour, display: Region, screen: Screen, frame: Frame)
    requires ShowsCompositions(background, display, screen) && RecordsChanges(background, display, screen)
    requires Admissible(display, screen, frame)
    ensures ShowsCompositions(background, display, Present(background, display, screen, frame))
  {
    assert frame.back.Keys == display;
    hide Painted, DamageOf, ShowsComposition, RecordsChanges, Admissible;
    if frame.outcome.Posted? {
      var next := Present(background, display, screen, frame);
      PostedShowsComposition(background, display, screen, frame);
      assert forall k :: 1 <= k < |next.shown| ==> next.shown[k] == screen.shown[k - 1];
    }
  }

  /** The theorem: in every run, whatever the buffer ages, every posted buffer is the full composition
    * of its frame, although only the reported and outdated parts were painted; but for damage that was
    * lost when posting failed and that no frame has reported again. */
  lemma {:induction false} EveryPresentedBufferIsComplete(background: Pixel -> Colour, display: Region,
      frames: seq<Frame>)
    requires IsRun(background, display, frames)
    ensures ShowsCompositions(background, display, After(background, display, frames))
    ensures RecordsChanges(background, display, After(background, display, frames))
  {
    if frames != [] {
      EveryPresentedBufferIsComplete(background, display, Front(frames));
      var screen := After(background, display, Front(frames));
      PresentRecordsChanges(background, display, screen, Last(frames));
      PresentShowsCompositions(background, display, screen, Last(frames));
      hide Present, ShowsCompositions, RecordsChanges, Admissible;
    }
  }

  /** Over every run the history reaches back as far as the last eleven posted frames. */
  lemma {:induction false} HistoryReachesBack(background: Pixel -> Colour, display: Region, frames: seq<Frame>)
    requires IsRun(background, display, frames)
    ensures var screen := After(background, display, frames);
            |screen.history| == if |screen.shown| < 11 then |screen.shown| else 11
  {
    if frames != [] {
      HistoryReachesBack(background, display, Front(frames));
      var screen := After(background, display, Front(frames));
      RecordedExactly(screen.history, DamageOf(display, screen, Last(frames)));
      hide Recorded, DamageOf, Painted;
    }
  }

  /** The stacking order painted last is that of the last frame, whether it was posted or not. */
  lemma PaintedIsLast(background: Pixel -> Colour, display: Region, frames: seq<Frame>)
    requires IsRun(background, display, frames) && frames != []
    ensures After(background, display, frames).painted == Last(frames).stack
  {
  }

  predicate IsLossless(screen: Screen) {
    screen.lost == {} && forall k :: 0 <= k < |screen.shown| ==> screen.shown[k].lost == {}
  }

  lemma LosesNothing(background: Pixel -> Colour, display: Region, screen: Screen, frame: Frame)
    requires frame.back.Keys == display && IsLossless(screen) && !frame.outcome.Failed?
    ensures IsLossless(Present(background, display, screen, frame))
  {
    hide DamageOf, Painted, Recorded;
    var next := Present(background, display, screen, frame);
    assert next.lost == {};
    if frame.outcome.Posted? {
      assert forall k :: 1 <= k < |next.shown| ==> next.shown[k] == screen.shown[k - 1];
    }
  }

  /** If no posting fails, no damage is lost, and every posted buffer is complete. */
  lemma {:induction false} NothingIsLost(background: Pixel -> Colour, display: Region, frames: seq<Frame>)
    requires IsRun(background, display, frames)
    requires forall frame :: frame in frames ==> !frame.outcome.Failed?
    ensures IsLossless(After(background, display, frames))
  {
    if frames != [] {
      NothingIsLost(background, display, Front(frames));
      assert Last(frames) in frames;
      LosesNothing(background, display, After(background, display, Front(frames)), Last(frames));
      hide Present, IsLossless;
    }
  }

  /** A buffer that was painted but not posted can be used again as one of any age: it agrees with the
    * posted buffer of that age outside what will be repainted. For age 1 that is everywhere. */
  lemma UnpostedBufferIsUsable(background: Pixel -> Colour, display: Region, frames: seq<Frame>, frame: Frame, age: nat)
    requires IsRun(background, display, frames) && !frame.outcome.Posted?
    requires Admissible(display, After(background, display, frames), frame)
    requires 0 < age <= |After(background, display, frames).shown|
    ensures var screen := After(background, display, frames);
            Agrees(display, Present(background, display, screen, frame), Accumulated(screen.history, age, display),
                   Painted(background, display, screen, frame), screen.shown[age - 1].buffer)
  {
    var screen := After(background, display, frames);
    EveryPresentedBufferIsComplete(background, display, frames);
    var next, painted := Present(background, display, screen, frame), Painted(background, display, screen, frame);
    var shown := screen.shown[age - 1];
    assert ShowsComposition(background, display, shown);
    forall p | p in display && p !in Accumulated(screen.history, age, display) && p !in next.lost
      ensures painted[p] == shown.buffer[p]
    {
      PaintShowsComposition(background, display, screen, frame, p);
      UndamagedIsSame(background, display, screen, frame, p);
      UnchangedOverHistory(background, display, screen, age, p);
    }
  }

  /** Keeping a frame back is right: the screen shows its composition already. */
  lemma KeptBackIsShown(background: Pixel -> Colour, display: Region, frames: seq<Frame>, frame: Frame, p: Pixel)
    requires IsRun(background, display, frames) && frame.outcome.KeptBack?
    requires Admissible(display, After(background, display, frames), frame)
    requires After(background, display, frames).shown != []
    requires p in display && p !in After(background, display, frames).lost
    ensures var shown := After(background, display, frames).shown[0];
            p in shown.buffer && shown.buffer[p] == Composition(background, frame.stack, p)
  {
    var screen := After(background, display, frames);
    EveryPresentedBufferIsComplete(background, display, frames);
    assert ShowsComposition(background, display, screen.shown[0]);
    assert SameAt(background, screen.shown[0].stack, screen.shown[0].lost, screen.painted, p);
    UndamagedIsSame(background, display, screen, frame, p);
  }

  // ---------------------------------------------------------------------------------------------
  // A run that loses damage

  const ORIGIN := Pixel(0, 0)

  function Blank(): Pixel -> Colour { p => 0 }

  /** One window that covers the only pixel of the display with a colour. */
  function Single(colour: Colour, repaints: Region): seq<Window> {
    [Window(true, (p, below) => colour, repaints, {}, {}, true)]
  }

  function FrameOf(stack: seq<Window>, age: int, shown: Colour, outcome: Outcome): Frame {
    Frame(stack, {}, false, age, map[ORIGIN := shown], outcome)
  }

  lemma SingleJob(colour: Colour, repaints: Region, repaint: Region)
    ensures var job := MakeJob(Single(colour, repaints), {}, repaint, {ORIGIN});
            job.dirty == repaints && job.repaint == repaint
    ensures ORIGIN in repaints ==> Wanted(Single(colour, repaints), {}, ORIGIN)
  {
    var stack := Single(colour, repaints);
    var window := Last(stack);
    assert Front(stack) == [];
    assert window.PaintRegion({}) == repaints;
    var layers := Scheduled(stack, {});
    assert Scheduled([], {}) == [];
    assert ScheduledFor(window, {}) == [Layer(window, repaints, {}, true)];
    assert layers == [] + [Layer(window, repaints, {}, true)];
    assert Front(layers) == [];
    assert DirtyArea(layers, {}) == {} + repaints;
  }

  /** What a frame of a single window damages and shows. */
  lemma SingleFrame(colour: Colour, repaints: Region, repaint: Region, stale: Colour)
    requires repaints <= {ORIGIN}
    ensures MakeJob(Single(colour, repaints), {}, repaint, {ORIGIN}).Damaged() * {ORIGIN} == repaints
    ensures Composition(Blank(), Single(colour, repaints), ORIGIN) == colour
    ensures ORIGIN in repaint ==>
              SimpleValue(Blank(), Single(colour, repaints), {}, repaint, {ORIGIN}, stale, ORIGIN) == colour
  {
    var stack := Single(colour, repaints);
    SingleJob(colour, repaints, repaint);
    hide MakeJob, Wanted, SimpleValue;
    PaintedExactly(stack, {}, repaint, {ORIGIN}, ORIGIN);
    RightExactly(Blank(), stack, {}, repaint, {ORIGIN}, stale, ORIGIN);
    DamageDoesNotGrow(stack, {}, repaint, {ORIGIN});
    if ORIGIN in repaints {
      assert ORIGIN in MakeJob(stack, {}, repaint, {ORIGIN}).Damaged();
    }
  }

  const FIRST := Single(1, {ORIGIN})
  const SECOND := Single(2, {ORIGIN})
  const THIRD := Single(2, {})
  const POSTED := Screen([Shown(FIRST, map[ORIGIN := 1], {})], [{ORIGIN}], FIRST, {})

  lemma NextFrame(frames: seq<Frame>, screen: Screen, frame: Frame) returns (next: seq<Frame>)
    requires IsRun(Blank(), {ORIGIN}, frames) && After(Blank(), {ORIGIN}, frames) == screen
    requires Admissible({ORIGIN}, screen, frame)
    ensures IsRun(Blank(), {ORIGIN}, next)
    ensures After(Blank(), {ORIGIN}, next) == Present(Blank(), {ORIGIN}, screen, frame)
  {
    next := frames + [frame];
    assert Front(next) == frames;
  }

  lemma FirstIsPosted() returns (frames: seq<Frame>)
    ensures IsRun(Blank(), {ORIGIN}, frames) && After(Blank(), {ORIGIN}, frames) == POSTED
  {
    var screen, frame := Screen([], [], [], {}), FrameOf(FIRST, 0, 0, Posted);
    SingleFrame(1, {ORIGIN}, {ORIGIN}, 0);
    hide SimpleValue, MakeJob;
    assert Repaint(screen, frame, {ORIGIN}) == {ORIGIN};
    frames := NextFrame([], screen, frame);
    assert Painted(Blank(), {ORIGIN}, screen, frame) == map[ORIGIN := 1];
    assert DamageOf({ORIGIN}, screen, frame) == {ORIGIN};
    assert {} - {ORIGIN} == {};
  }

  lemma SecondFails() returns (frames: seq<Frame>)
    ensures IsRun(Blank(), {ORIGIN}, frames)
    ensures After(Blank(), {ORIGIN}, frames) == LOST
  {
    var frame := FrameOf(SECOND, 0, 0, Failed);
    frames := FirstIsPosted();
    SingleFrame(2, {ORIGIN}, {ORIGIN}, 0);
    hide SimpleValue, MakeJob;
    assert DamageOf({ORIGIN}, POSTED, frame) == {ORIGIN};
    assert {} + {ORIGIN} == {ORIGIN};
    frames := NextFrame(frames, POSTED, frame);
  }

  lemma DrawsTheSame()
    ensures ReportedAt(SECOND, THIRD, {}, ORIGIN)
    ensures forall w :: w in THIRD ==> w.SoundAt(ORIGIN)
    ensures Composition(Blank(), THIRD, ORIGIN) == 2
  {
    assert Front(THIRD) == [];
  }

  const LOST := POSTED.(painted := SECOND, lost := {ORIGIN})
  const UNCHANGED := FrameOf(THIRD, 1, 1, KeptBack)

  lemma UnchangedHasNoDamage()
    ensures Repaint(LOST, UNCHANGED, {ORIGIN}) == {} && DamageOf({ORIGIN}, LOST, UNCHANGED) == {}
  {
    assert LOST.history[..0] == [];
    SingleFrame(2, {}, {}, 1);
  }

  lemma UnchangedIsAdmissible()
    ensures Admissible({ORIGIN}, LOST, UNCHANGED)
  {
    UnchangedHasNoDamage();
    DrawsTheSame();
    hide ReportedAt, Repaint, DamageOf, Single;
    assert UNCHANGED.back == POSTED.shown[0].buffer;
  }

  /** After a failed post nothing asks for its damage again: with no further change the next frame is
    * kept back, and the screen goes on showing the frame before. */
  lemma FailedPostLosesDamage() returns (frames: seq<Frame>)
    ensures IsRun(Blank(), {ORIGIN}, frames)
    ensures After(Blank(), {ORIGIN}, frames) == LOST.(painted := THIRD)
    ensures LOST.shown[0].buffer[ORIGIN] == 1 && Composition(Blank(), THIRD, ORIGIN) == 2
  {
    frames := SecondFails();
    UnchangedIsAdmissible();
    DrawsTheSame();
    hide Admissible, Single;
    frames := NextFrame(frames, LOST, UNCHANGED);
  }
}
