/** Maximizing windows fully, vertically and horizontally, and restoring them. */
module Maximize {
  import opened Rects

  /** The mode is a pair of flags; restored is neither. */
  datatype Mode = Mode(vertical: bool, horizontal: bool)

  const RESTORE := Mode(false, false)
  const FULL := Mode(true, true)

  datatype Quicktiles = NoTiles | MaximizeTiles | OtherTiles

  /** No geometry. */
  const NULL_RECT := Rect(0, 0, -1, -1)

  datatype State = State(frame: Rect, mode: Mode, restore: Rect, tiles: Quicktiles)

  /** What keeps the restore geometry from being written, besides quicktiling. */
  datatype Special = Special(fullscreen: bool, moving: bool)

  /** Where the restore geometry is kept for a later restoration of something else. */
  predicate KeepsRestore(s: State, special: Special) {
    special.fullscreen || s.tiles != NoTiles || special.moving
  }

  function SetRestore(s: State, special: Special, geometry: Rect): State {
    if KeepsRestore(s, special) then s else s.(restore := geometry)
  }

  function Restored(frame: Rect, mode: Mode, restore: Rect): Rect {
    var v := if mode.vertical then frame.(top := restore.top, bottom := restore.bottom) else frame;
    if mode.horizontal then v.(left := restore.left, right := restore.right) else v
  }

  function MaximizeRestore(s: State, special: Special): State {
    SetRestore(s.(frame := Restored(s.frame, s.mode, s.restore), mode := RESTORE), special, NULL_RECT)
  }

  function MaximizeVertically(s: State, special: Special, area: Rect): State {
    SetRestore(s.(frame := Sized(s.frame.left, area.top, s.frame.Width(), area.Height()),
        mode := s.mode.(vertical := true)),
               special, s.frame)
  }

  function MaximizeHorizontally(s: State, special: Special, area: Rect): State {
    SetRestore(s.(frame := Sized(area.left, s.frame.top, area.Width(), s.frame.Height()),
        mode := s.mode.(horizontal := true)),
               special, s.frame)
  }

  /** The areas asked for while one request is handled, which may all differ. */
  datatype Areas = Areas(vertical: Rect, horizontal: Rect)

  function UpdateImpl(s: State, special: Special, mode: Mode, areas: Areas): State {
    if mode == RESTORE then MaximizeRestore(s, special)
    else
      var s1 := if mode.vertical && s.mode.horizontal && !mode.horizontal then MaximizeRestore(s, special) else s;
      var s2 := if mode.vertical then MaximizeVertically(s1, special, areas.vertical) else s1;
      var s3 := if mode.horizontal && s.mode.vertical && !mode.vertical then MaximizeRestore(s2, special) else s2;
      var s4 := if mode.horizontal then MaximizeHorizontally(s3, special, areas.horizontal) else s3;
      SetRestore(s4, special, s.frame)
  }

  function Retile(s: State, mode: Mode): State {
    s.(tiles := if mode == FULL then MaximizeTiles else NoTiles)
  }

  /** A request to maximize a resizable window. */
  function Update(s: State, special: Special, mode: Mode, areas: Areas): State {
    if mode == s.mode then
      var s1 := if mode.vertical then MaximizeVertically(s, special, areas.vertical) else s;
      var s2 := if mode.horizontal then MaximizeHorizontally(s1, special, areas.horizontal) else s1;
      SetRestore(s2, special, s.restore)
    else
      var s1 := if s.mode != RESTORE && mode != RESTORE
                then UpdateImpl(s, special, RESTORE, areas).(restore := s.restore) else s;
      Retile(UpdateImpl(s1, special, mode, areas), mode)
  }

  class Window {
    var frame: Rect
    var maxMode: Mode
    var restoreMax: Rect
    var quicktiling: Quicktiles
    var fullscreen: bool
    var moving: bool
    const resizable: bool

    ghost function Abstract(): State
      reads this
    {
      State(frame, maxMode, restoreMax, quicktiling)
    }

    ghost function Around(): Special
      reads this
    {
      Special(fullscreen, moving)
    }

    constructor (frame: Rect, resizable: bool)
      ensures Abstract() == State(frame, RESTORE, NULL_RECT, NoTiles) && Around() == Special(false, false)
      ensures this.resizable == resizable
    {
      this.frame, this.resizable := frame, resizable;
      maxMode, restoreMax, quicktiling, fullscreen, moving := RESTORE, NULL_RECT, NoTiles, false, false;
    }

    method SetRestoreGeometry(geometry: Rect)
      modifies this`restoreMax
      ensures Abstract() == SetRestore(old(Abstract()), Around(), geometry)
    {
      if fullscreen {
        return;
      }
      if quicktiling != NoTiles {
        return;
      }
      if moving {
        return;
      }
      restoreMax := geometry;
    }

    method Restore()
      modifies this`frame, this`maxMode, this`restoreMax
      ensures Abstract() == MaximizeRestore(old(Abstract()), Around())
    {
      var oldMode, restoreGeo, finalRestoreGeo := maxMode, restoreMax, frame;
      if oldMode.vertical {
        finalRestoreGeo := finalRestoreGeo.(top := restoreGeo.top);
        finalRestoreGeo := finalRestoreGeo.(bottom := restoreGeo.bottom);
      }
      if oldMode.horizontal {
        finalRestoreGeo := finalRestoreGeo.(left := restoreGeo.left);
        finalRestoreGeo := finalRestoreGeo.(right := restoreGeo.right);
      }
      frame := finalRestoreGeo;
      maxMode := RESTORE;
      SetRestoreGeometry(NULL_RECT);
    }

    method Vertically(area: Rect)
      modifies this`frame, this`maxMode, this`restoreMax
      ensures Abstract() == MaximizeVertically(old(Abstract()), Around(), area)
    {
      var oldFrame := frame;
      frame := Sized(oldFrame.left, area.top, oldFrame.Width(), area.Height());
      maxMode := maxMode.(vertical := true);
      SetRestoreGeometry(oldFrame);
    }

    method Horizontally(area: Rect)
      modifies this`frame, this`maxMode, this`restoreMax
      ensures Abstract() == MaximizeHorizontally(old(Abstract()), Around(), area)
    {
      var oldFrame := frame;
      frame := Sized(area.left, oldFrame.top, area.Width(), oldFrame.Height());
      maxMode := maxMode.(horizontal := true);
      SetRestoreGeometry(oldFrame);
    }

    method UpdateMaximizedImpl(mode: Mode, areas: Areas)
      requires maxMode != mode
      modifies this`frame, this`maxMode, this`restoreMax
      ensures Abstract() == UpdateImpl(old(Abstract()), Around(), mode, areas)
    {
      if mode == RESTORE {
        Restore();
        return;
      }
      var oldFrame, oldMode := frame, maxMode;
      if mode.vertical {
        if oldMode.horizontal && !mode.horizontal {
          Restore();
        }
        Vertically(areas.vertical);
      }
      if mode.horizontal {
        if oldMode.vertical && !mode.vertical {
          Restore();
        }
        Horizontally(areas.horizontal);
      }
      SetRestoreGeometry(oldFrame);
    }

    /** A request to maximize; the assertion that the mode changes never fails. */
    method UpdateMaximized(mode: Mode, areas: Areas)
      modifies this`frame, this`maxMode, this`restoreMax, this`quicktiling
      ensures Abstract() == if resizable then Update(old(Abstract()), Around(), mode, areas) else old(Abstract())
    {
      if !resizable {
        return;
      }
      var oldMode := maxMode;
      if mode == oldMode {
        var restoreGeo := restoreMax;
        if mode.vertical {
          Vertically(areas.vertical);
        }
        if mode.horizontal {
          Horizontally(areas.horizontal);
        }
        SetRestoreGeometry(restoreGeo);
        return;
      }
      if oldMode != RESTORE && mode != RESTORE {
        var restoreGeo := restoreMax;
        UpdateMaximizedImpl(RESTORE, areas);
        restoreMax := restoreGeo;
      }
      UpdateMaximizedImpl(mode, areas);
      var oldQuicktiling := quicktiling;
      if mode == FULL {
        quicktiling := MaximizeTiles;
      } else {
        quicktiling := NoTiles;
      }
      if oldQuicktiling != quicktiling {
        var frameGeo := frame;
        frame := frameGeo;
      }
    }
  }

  // ---------------------------------------------------------------------------------------------

  datatype Request = Request(mode: Mode, areas: Areas)

  function Run(start: State, special: Special, requests: seq<Request>): State {
    if requests == [] then start
    else
      var request := requests[|requests| - 1];
      Update(Run(start, special, requests[..|requests| - 1]), special, request.mode, request.areas)
  }

  /** A maximized window remembers the frame `f` it came from: the restore geometry is `f`, and the
    * axes it is not maximized on are those of `f`. */
  predicate Remembers(s: State, f: Rect) {
    && (s.mode != RESTORE ==> s.restore == f)
    && (!s.mode.vertical ==> s.frame.top == f.top && s.frame.bottom == f.bottom)
    && (!s.mode.horizontal ==> s.frame.left == f.left && s.frame.right == f.right)
    && s.tiles == if s.mode == FULL then MaximizeTiles else NoTiles
  }

  lemma UpdateRemembers(s: State, mode: Mode, areas: Areas, f: Rect)
    requires Remembers(s, f)
    ensures Remembers(Update(s, Special(false, false), mode, areas), f)
    ensures Update(s, Special(false, false), mode, areas).mode == mode
  {
  }

  /** A window that starts unmaximized and unobstructed remembers its frame over every run of
    * requests, and is in the mode requested last. */
  lemma {:induction false} RunRemembers(start: State, requests: seq<Request>)
    requires start.mode == RESTORE && start.tiles == NoTiles
    ensures var s := Run(start, Special(false, false), requests);
            && Remembers(s, start.frame)
            && s.mode == if requests == [] then RESTORE else requests[|requests| - 1].mode
  {
    if requests != [] {
      var front, request := requests[..|requests| - 1], requests[|requests| - 1];
      RunRemembers(start, front);
      UpdateRemembers(Run(start, Special(false, false), front), request.mode, request.areas, start.frame);
    }
  }

  /** A maximized axis covers the maximize area, whatever the window was before. */
  lemma MaximizedAxesFillArea(s: State, special: Special, request: Request)
    ensures var s' := Update(s, special, request.mode, request.areas);
            && (request.mode.vertical ==>
                  s'.frame.top == request.areas.vertical.top && s'.frame.bottom == request.areas.vertical.bottom)
            && (request.mode.horizontal ==>
                  s'.frame.left == request.areas.horizontal.left && s'.frame.right == request.areas.horizontal.right)
  {
  }

  /** A request sets the mode and the quicktiling that goes with it; asking for the mode the window has
    * changes neither. */
  lemma RequestIsTaken(s: State, special: Special, request: Request)
    ensures var s' := Update(s, special, request.mode, request.areas);
            && s'.mode == request.mode
            && s'.tiles == if request.mode == s.mode then s.tiles
                           else if request.mode.vertical && request.mode.horizontal then MaximizeTiles
                           else NoTiles
  {
  }

  /** A change from one axis to the other puts the former axis back first. */
  lemma SwitchingRestoresOtherAxis(s: State, special: Special, areas: Areas)
    ensures s.mode.horizontal ==>
              var s' := UpdateImpl(s, special, Mode(true, false), areas);
              && s'.mode == Mode(true, false)
              && s'.frame == Rect(s.restore.left, areas.vertical.top, s.restore.right, areas.vertical.bottom)
    ensures s.mode.vertical ==>
              var s' := UpdateImpl(s, special, Mode(false, true), areas);
              && s'.mode == Mode(false, true)
              && s'.frame == Rect(areas.horizontal.left, s.restore.top, areas.horizontal.right, s.restore.bottom)
  {
  }

  /** A restore forgets the restore geometry, unless it is kept for something else. */
  lemma RestoreForgetsExactly(s: State, special: Special, areas: Areas)
    ensures Update(s, special, RESTORE, areas).restore ==
            if s.mode == Mode(false, false) || special.fullscreen || special.moving || s.tiles != NoTiles then s.restore
            else Rect(0, 0, -1, -1)
  {
  }

  // ---------------------------------------------------------------------------------------------
  // The round trip

  function Join(m: Mode, n: Mode): Mode {
    Mode(m.vertical || n.vertical, m.horizontal || n.horizontal)
  }

  /** All axes ever asked for. */
  function Joined(requests: seq<Request>): Mode {
    if requests == [] then RESTORE
    else Join(Joined(requests[..|requests| - 1]), requests[|requests| - 1].mode)
  }

  /** The axes of the first request to maximize. */
  function First(requests: seq<Request>): Mode {
    if requests == [] then RESTORE
    else
      var first := First(requests[..|requests| - 1]);
      if first == RESTORE then requests[|requests| - 1].mode else first
  }

  /** The axes whose geometry the requests overwrite without having remembered it: all of them while
    * the window is fullscreen or being moved; for a quicktiled window only those of the first
    * request, which ends the tiling. */
  function Lost(start: State, special: Special, requests: seq<Request>): Mode {
    if !special.fullscreen && !special.moving && start.tiles == NoTiles then RESTORE
    else if special.fullscreen || special.moving then Joined(requests)
    else First(requests)
  }

  /** In `s` a restore leads to the frame `f`; `kept` is the restore geometry that is not written. */
  predicate LeadsTo(s: State, special: Special, f: Rect, lost: Mode, start: State) {
    && Restored(s.frame, s.mode, s.restore) == f
    && if special.fullscreen || special.moving then
         s.restore == start.restore && Restored(f, lost, start.restore) == f && Join(lost, s.mode) == lost
       else if start.tiles != NoTiles && lost == RESTORE then
         s.mode == RESTORE && s.tiles == start.tiles && s.restore == start.restore
       else
         s.tiles == (if s.mode == FULL then MaximizeTiles else NoTiles)
  }

  lemma RestoredTwice(f: Rect, m: Mode, n: Mode, r: Rect)
    ensures Restored(Restored(f, m, r), n, r) == Restored(f, Join(m, n), r)
  {
  }

  lemma UpdateLeadsOn(s: State, special: Special, f: Rect, lost: Mode, start: State, request: Request)
    requires LeadsTo(s, special, f, lost, start)
    ensures var blocked := special.fullscreen || special.moving || (start.tiles != NoTiles && lost == RESTORE);
            var lost' := if blocked then Join(lost, request.mode) else lost;
            LeadsTo(Update(s, special, request.mode, request.areas), special,
                    if blocked then Restored(f, request.mode, start.restore) else f, lost', start)
  {
  }

  lemma {:induction false} RunLeadsBack(start: State, special: Special, requests: seq<Request>)
    requires start.mode == RESTORE
    ensures var lost := Lost(start, special, requests);
            LeadsTo(Run(start, special, requests), special, Restored(start.frame, lost, start.restore), lost, start)
  {
    if requests != [] {
      var front, request := requests[..|requests| - 1], requests[|requests| - 1];
      RunLeadsBack(start, special, front);
      var lost := Lost(start, special, front);
      UpdateLeadsOn(Run(start, special, front), special, Restored(start.frame, lost, start.restore), lost, start,
          request);
      RestoredTwice(start.frame, lost, request.mode, start.restore);
    }
  }

  /** The round trip of any unmaximized window: any sequence of requests, with areas that change
    * arbitrarily, followed by a restore gives back the frame it had, but for the axes that were lost:
    * they come from the restore geometry kept for something else. */
  lemma MaximizeRoundTrip(start: State, special: Special, requests: seq<Request>, areas: Areas)
    requires start.mode == RESTORE
    ensures var s := Run(start, special, requests + [Request(RESTORE, areas)]);
            && s.mode == RESTORE
            && s.frame == Restored(start.frame, Lost(start, special, requests), start.restore)
  {
    RunLeadsBack(start, special, requests);
    assert (requests + [Request(RESTORE, areas)])[..|requests|] == requests;
  }

  /** Exactly when the frame is given back: if the kept restore geometry agrees with it on the lost
    * axes. Nothing is lost exactly if nothing was to be maximized, or the window was neither
    * fullscreen, quicktiled nor being moved. */
  lemma RoundTripExactly(start: State, special: Special, requests: seq<Request>, areas: Areas)
    requires start.mode == RESTORE
    ensures var lost := Lost(start, special, requests);
            Run(start, special, requests + [Request(RESTORE, areas)]).frame == start.frame <==>
            (lost.vertical ==> start.restore.top == start.frame.top && start.restore.bottom == start.frame.bottom) &&
            (lost.horizontal ==> start.restore.left == start.frame.left && start.restore.right == start.frame.right)
    ensures Lost(start, special, requests) == RESTORE <==>
            (!special.fullscreen && !special.moving && start.tiles == NoTiles) ||
                forall request :: request in requests ==> request.mode == RESTORE
  {
    MaximizeRoundTrip(start, special, requests, areas);
    NothingAskedFor(requests);
  }

  lemma {:induction false} NothingAskedFor(requests: seq<Request>)
    ensures Joined(requests) == RESTORE <==> forall request :: request in requests ==> request.mode == RESTORE
    ensures First(requests) == RESTORE <==> forall request :: request in requests ==> request.mode == RESTORE
  {
    if requests != [] {
      var front, last := requests[..|requests| - 1], requests[|requests| - 1];
      NothingAskedFor(front);
      assert requests == front + [last];
    }
  }
}
