# Verified models of the compositor's painter, idle scheduler, focus chains and window geometry

Each part is modelled twice: as an object with the fields and loops of the code, and as functions
on values that say what each operation computes. The methods are proved to compute their functions;
the lemmas then prove what the program promises about those functions, over all inputs and over whole
runs.

| files | part |
|---|---|
| `ScenePainting.dfy`, `FrameHistory.dfy`, `Scene.dfy` | the optimised paint path against the full repaint, and frames over rotating back buffers |
| `WindowDamage.dfy` | repaints of a window shared between outputs |
| `IdleScheduling.dfy`, `IdleRuns.dfy`, `IdleTiming.dfy`, `IdleSteps.dfy`, `IdleDefects.dfy`, `IdleObject.dfy` | one countdown for many idle listeners |
| `FocusChains.dfy`, `FocusIndex.dfy`, `FocusOrder.dfy`, `FocusChainObject.dfy` | the most-recently-used chain and the subspace chains |
| `Activation.dfy` | mutually recursive activation and the attention chain |
| `Sequences.dfy` | lists of windows and outputs |
| `Rects.dfy`, `WorkArea.dfy`, `MoveResize.dfy`, `TitlePixels.dfy`, `Maximize.dfy` | work-area correction, restricted move and resize, maximize and restore |

Regions are sets of pixels, a window is what painting it does to a pixel given what is below, and
rectangles have inclusive edges. Time is counted in milliseconds; the countdown fires exactly when
it has run out. Callbacks and signals do not call back into the objects.

Main results:

* The optimised paint path leaves the same pixels as a full repaint, and does so for every posted
  buffer of every sequence of frames, whatever the buffer ages, and also with frames that are kept
  back. The damage it reports is complete and never includes what was only painted to bring a buffer
  up to date. When posting fails, damage is lost: every buffer is still complete outside the lost
  damage, a run shows that the screen can stay wrong inside it, and where it comes right is stated
  exactly.
* Damage of a window is never lost to an output, also when the window moves or outputs come and go.
  While the window stays, what is recorded is still going to be repainted, and with outputs that do
  not overlap it is tracked exactly.
* The idle countdown is always consistent, no assertion of the scheduler can fail, and cohorts idle
  in order after a reset. They idle late from the third on, because only the last interval is
  subtracted from the next key. No listener idles before its idle time has passed since it was added
  or an activity was reported, except for two defects of the code: `remove_listener` does not restart
  the countdown when it empties the first cohort, so that the next cohort idles in its place; and
  `add_listener` adds only what has passed of the running interval to the key of a spliced listener,
  so that after a timeout the listener can come into or before the first cohort and idle with it. Two
  more defects concern spliced listeners: one that is removed waits again after the next activity,
  and one that is served when an inhibition starts idles twice. Each of the four has a guard on
  the state before that is shown to be exact, for removals also one that needs no times, and
  `IdleDefects` has a run that ends in it.
* The subspace chains are a faithful index over the most-recently-used chain, over any run of
  orderly calls; what is orderly is read off each call and the chains it finds. A guard that is exact
  for each step is given, too. A run the program can take breaks the index: a window that is not the
  active one is moved to another subspace, and then a window is mapped.
* A window that was inside the work area and fits the new one ends inside it, with its size, and
  is moved no farther than that takes; one whose border hung out over an edge sticks to it with its
  client area. A drag never loses the title bar with one output. Restricted moves and resizes take the
  first geometry on the way back that shows enough of the title bar. Any sequence of maximize requests
  is undone by one restore, for a window that is neither quicktiled, fullscreen nor being moved; for
  the others it is stated exactly which axes are lost.
* Activation terminates, keeps at most one window active, and restores its recursion counter.

Where documentation and code differ, the code is followed. `focus_chain_update` documents that a
window on all subspaces is made present everywhere and that make-first moves it; on subspaces other
than the current one the code only inserts, which `FocusIndex.UpdateKeepsIndexExactly` accounts for.
A decoration that hangs out over the top edge is taken to be as high as the left border is broad
(como/win/geo_restrict.h:246); `WorkArea.TopBorderHangsOut` says what follows.

## Model

| member | source | states |
|---|---|---|
| ScenePainting.AllClipsMeaning | como/render/scene.h:532-540 | the accumulated clips cover a pixel exactly if some non-translucent layer further up clips it |
| ScenePainting.CullingSweep | como/render/scene.h:519-556 | a pixel no higher layer covers is painted exactly if a translucent layer above or an uncovered layer below asks for it |
| ScenePainting.NothingPaintedBelowClip | como/render/scene.h:532-567 | neither the background nor a layer is painted where a higher layer is opaque |
| ScenePainting.FirstPaintIsOpaqueCover | como/render/scene.h:519-567 | a pixel the background does not start is started by its topmost opaque cover |
| ScenePainting.PaintedAreaGrows | como/render/scene.h:558-567 | once painted, a pixel is painted by every layer further up |
| ScenePainting.PaintedExactly | como/render/scene.h:492-567 | which pixels a frame paints, read off the stack: all of them in a full repaint, else the outdated ones and those an uncovered window or the damage asks for |
| ScenePainting.PaintedPixelIsComposition | como/render/scene.h:551-567 | a painted pixel shows the composition of the layers, whatever the buffer held |
| ScenePainting.FastPathRefinesFullRepaint | como/render/scene.h:483-583 | the optimised path shows the full composition at every display pixel, given sound clips, reported changes and a buffer that is right outside its outdated area |
| ScenePainting.RightExactly | como/render/scene.h:483-583 | whatever the buffer held, exactly when the optimised path leaves a pixel with its composition; always where it reports damage |
| ScenePainting.DamageIsComplete | como/render/scene.h:505-582 | the reported damage holds every display pixel whose composition changed, in both branches |
| ScenePainting.DamageDoesNotGrow | como/render/scene.h:569-582 | the reported damage stays inside the dirty area as it was before the outdated area was added |
| ScenePainting.DirtyExactly | como/render/scene.h:404-503 | a pixel is dirty exactly if it is damaged, or a painted window has it among its repaints or effects ask for it |
| ScenePainting.WantedExactly | como/render/scene.h:513-549 | a partial frame is wanted for what is damaged, and for what a window that no opaque one further up covers, or its effects, ask for |
| ScenePainting.DamagedExactly | como/render/scene.h:505-582 | of the dirty pixels exactly those are reported as damaged that the frame paints |
| FrameHistory.UnchangedOverHistory | como/render/gl/backend.h:138-152 | a pixel outside the accumulated damage of the newest frames, and outside lost damage, shows the same in all of them |
| FrameHistory.AccumulatedExactly | como/render/gl/backend.h:138-152 | a buffer is behind by exactly the damage of the frames since, or by everything if its age is unknown or too old |
| FrameHistory.RecordedExactly | como/render/gl/backend.h:157-163 | the newest damage comes first, all others move on, and at most eleven are kept |
| FrameHistory.HistoryReachesBack | como/render/gl/backend.h:157-163 | over every run the history holds the damage of the last eleven posted frames |
| FrameHistory.PaintShowsComposition | como/render/scene.h:224-319 | one frame, on either paint path, into a back buffer of any age shows its composition where no damage was lost, and wherever it reports damage |
| FrameHistory.EveryPresentedBufferIsComplete | como/render/scene.h:224-319 | every buffer posted in any run, of frames on either paint path, kept back or failed among them, shows the full composition of its frame outside lost damage, and the history holds all other changes |
| FrameHistory.PaintedIsLast | como/render/scene.h:419-430 | what later frames report is relative to the frame painted last, posted or not |
| FrameHistory.NothingIsLost | como/render/backend/wlroots/egl_backend.h:264-276 | damage is lost only when posting fails |
| FrameHistory.KeptBackIsShown | como/render/backend/wlroots/egl_backend.h:246-262 | a frame is kept back only if the screen shows its composition already |
| FrameHistory.UnpostedBufferIsUsable | como/render/backend/x11/glx_backend.h:142-159 | a buffer that was not posted can be used again with age 1 or any other |
| FrameHistory.FailedPostLosesDamage | como/render/backend/wlroots/egl_backend.h:264-276 | a run after which the screen shows an outdated frame and nothing is to be repainted: a post failed |
| Scene.Scene.PaintBackground | como/render/scene.h:585-586 | fills the region and nothing else |
| Scene.Scene.PaintWindow | como/render/scene.h:595-620 | draws the window on the visible part of the region and nowhere else |
| Scene.Scene.PrepareSimpleWindowPaint | como/render/scene.h:405-479 | schedules an enabled window with exactly the damage, its repaints and what effects add, grows the dirty area, and takes over its repaints |
| Scene.Scene.PrepareWindows | como/render/scene.h:489-503 | the layers of the enabled windows in order, the union of their regions, and all repaints taken over |
| Scene.Scene.CullLayers | como/render/scene.h:519-549 | leaves every layer with its culled region and yields the union of the clips |
| Scene.Scene.PaintLayers | como/render/scene.h:558-567 | every display pixel holds the value of the layers painted over the growing area, which ends as the whole painted area |
| Scene.Scene.PaintSimpleScreen | como/render/scene.h:483-583 | buffer, reported damage, painted region and taken-over repaints of the optimised path, in terms of the culled job |
| Scene.Scene.PaintGenericScreen | como/render/scene.h:344-402 | the buffer shows the composition of the enabled windows everywhere and all is damaged |
| Scene.Scene.PaintScreen | como/render/scene.h:224-319 | a frame shows the full composition on either path, takes over the repaints of painted windows, and the valid region is exactly what was painted; pixels outside it are untouched |
| Scene.RepaintsAreTakenOver | como/render/scene.h:425-430 | a frame after a painted one finds dirty only what is damaged or effects ask for |
| Scene.PaintedWindowsComposition | como/render/scene.h:353-398 | windows that are not painted leave no trace in the composition |
| Scene.OutputBuffers.AccumulatedDamageHistory | como/render/gl/backend.h:138-152 | the union of the damage since a buffer of that age was presented, or everything |
| Scene.OutputBuffers.AddToDamageHistory | como/render/gl/backend.h:157-163 | the newest damage first, the oldest dropped |
| Sequences.RemoveAllMember | como/utils/algorithm.h:94-98 | exactly the occurrences of one element are removed |
| Sequences.RemoveAllNoDup | como/utils/algorithm.h:94-98 | removing creates no duplicates |
| WindowDamage.Window.AcquireRepaintOutputs | como/win/scene.h:57-69 | the outputs that meet the region become pending, once each |
| WindowDamage.Window.AddRepaint | como/win/damage.h:25-34 | adds the region and makes the outputs it is on pending |
| WindowDamage.Window.AddLayerRepaint | como/win/scene.h:71-80 | the same for a region in absolute coordinates |
| WindowDamage.Window.AddFullRepaint | como/win/scene.h:102-117 | replaces the relative repaints by the visible region and acquires its outputs |
| WindowDamage.Window.RemoveOutput | como/render/wayland/platform.h:142-152 | an output that is gone is pending no more, while all damage stays recorded |
| WindowDamage.Window.ResetRepaints | como/win/damage.h:36-65 | the new repaints and pending outputs after an output repainted |
| WindowDamage.RepaintsExactly | como/win/damage.h:17-23 | a pixel is to be repainted exactly if it is recorded for the screen, or for the window and moved with it |
| WindowDamage.ResetExactly | como/win/damage.h:36-65 | spot by spot what a reset takes away: all after the last output, else what only the reset output shows |
| WindowDamage.AddExactly | como/win/scene.h:57-117 | spot by spot what an addition adds, that only a full repaint forgets any, and which outputs become pending |
| WindowDamage.ChangeExactly | como/render/wayland/platform.h:142-152 | moves and changes of the outputs keep all damage; an output that is gone, and no other, is pending no more |
| WindowDamage.PendingOnce | como/win/scene.h:57-69 | no output is ever pending twice |
| WindowDamage.DamageIsNeverLost | como/win/damage.h:17-65 | under any order of additions, resets, moves of the window and changes of the outputs, what an output still owes stays recorded and the output pending |
| WindowDamage.DamageIsExact | como/win/damage.h:17-65 | without overlapping or added outputs, and while the window stays, a spot is recorded exactly if its output still owes it |
| WindowDamage.NoDamageIsStranded | como/win/damage.h:17-65 | with outputs that may overlap, what is recorded where an output shows it is still to be repainted by an output that shows it |
| WindowDamage.LastResetClearsAll | como/win/damage.h:46-51 | nothing remains once the last pending output is reset |
| IdleScheduling.TimerInvariantKept | como/input/idle.h:132-262 | every step keeps: the countdown runs exactly while someone waits and nothing inhibits, and not past the first cohort |
| IdleScheduling.NoAssertionFails | como/input/idle.h:205-262 | the assertions of the scheduler hold, also that the next waiting time is positive |
| IdleScheduling.RunsAreSafe | como/input/idle.h:132-262 | both over every run with balanced inhibitions |
| IdleScheduling.UnsplicedIsOwnCohorts | como/input/idle.h:297-308 | unsplicing brings every listener into the cohort of its own idle time |
| IdleScheduling.ActivityIsCanonical | como/input/idle.h:184-203 | after an activity report exactly the registered listeners wait, each in its own cohort, none served or spliced |
| IdleScheduling.BooksKept | como/input/idle.h:132-262 | every guarded step keeps each registered listener either served or waiting once |
| IdleScheduling.InhibitServesTwice | como/input/idle.h:241-246 | the first inhibition keeps served listeners from waiting exactly if none of them is spliced |
| IdleScheduling.RemovedListenerReturns | como/input/idle.h:162-182 | a removed listener waits again after the next activity report exactly if it was spliced |
| IdleSteps.AddedIsDueExactly | como/input/idle.h:132-160 | an added listener is due exactly after its idle time, unless it comes before or into the cohort the countdown runs for; nobody else is due any sooner |
| IdleSteps.RemovedIsGone | como/input/idle.h:162-182 | a removed listener, spliced or not, neither waits nor is served; everybody else does as before |
| IdleSteps.RemovedHearsNothing | como/input/idle.h:162-239 | over any run it is not called back until it is added, an activity is reported or an inhibition starts |
| IdleSteps.FirstEntryIsRemoved | como/input/idle.h:282-295 | of several entries of a listener exactly the first one is removed |
| IdleSteps.FirstCohortIsServed | como/input/idle.h:205-239 | exactly the first cohort is served, and the countdown runs for the next one less the last interval |
| IdleSteps.SplicedMoveExactly | como/input/idle.h:297-308 | of a spliced listener exactly the first entry is replaced, by one in its own cohort |
| IdleSteps.ClockRunsOn | como/input/idle.h:132-262 | the summed intervals measure the time since the last reset, through additions, removals and timeouts |
| IdleSteps.InhibitionStopsClock | como/input/idle.h:241-262 | an inhibition stops the clock, and it starts anew with the last one to go |
| IdleRuns.TidyRunsKeepBooks | como/input/idle.h:132-262 | the bookkeeping holds over every run of guarded steps |
| IdleRuns.CallbacksAlternate | como/input/idle.h:184-239 | each listener hears idle and resume strictly in turn, and is served exactly after an idle |
| IdleRuns.ActivityResets | como/input/idle.h:184-203 | an uninhibited activity report restarts the countdown for the first cohort |
| IdleRuns.SortedKeysAreKeys | como/input/idle.h:269 | the cohorts have an increasing sequence of keys |
| IdleRuns.CohortsIdleInOrder | como/input/idle.h:205-239 | after a reset the cohorts idle once each in increasing order, the j-th at its key plus the time of the one two before, and then all are served and the countdown is stopped |
| IdleRuns.FiringTimeIsLate | como/input/idle.h:233-238 | no cohort idles before its key |
| IdleRuns.OnTimeExactly | como/input/idle.h:233-238 | exactly the first two cohorts are on time, and the third if the first waits for nothing |
| IdleTiming.AddKeepsTimeExactly | como/input/idle.h:132-160 | adding keeps everybody from idling early exactly if a spliced listener comes behind the first cohort |
| IdleTiming.RemoveKeepsTimeExactly | como/input/idle.h:162-182 | removing keeps everybody from idling early exactly if the first cohort stays, or the listeners of the one that moves up are due when the countdown runs out |
| IdleTiming.RemovalSinceResetExactly | como/input/idle.h:162-182 | since a reset, after any number of timeouts, that is so exactly if the key of the cohort that moves up is within the running interval |
| IdleTiming.ResetIsKept | como/input/idle.h:162-239 | an uninhibited activity report resets, and timeouts, pauses and removals keep waiting times in step with the intervals |
| IdleTiming.StepKeepsTimeExactly | como/input/idle.h:132-262 | a step keeps all listeners due no earlier than their idle time exactly if it meets its guard |
| IdleTiming.PunctualRunsStayPunctual | como/input/idle.h:132-262 | the same over every run of guarded steps |
| IdleTiming.NoEarlyIdle | como/input/idle.h:132-262 | over such runs, with inhibitions and pauses, nobody idles before its idle time has passed since it was added or an activity was reported |
| IdleDefects.RemovedListenerWaitsAgain | como/input/idle.h:162-203 | a run after which a removed listener waits: it was spliced when it was removed |
| IdleDefects.IdlesTwice | como/input/idle.h:241-262 | a run over which a listener hears idle twice in a row: it was spliced and served when an inhibition started |
| IdleDefects.IdlesEarlyAfterRemoval | como/input/idle.h:162-182 | a run after which a listener idles at half its idle time, since the first cohort was removed |
| IdleDefects.IdlesEarlyAfterAddition | como/input/idle.h:154-159 | a run after which a listener that was added behind a timeout idles early |
| IdleObject.Idle.ListenerMapSetInsert | como/input/idle.h:271-280 | one more entry, no empty cohort |
| IdleObject.Idle.ListenerMapSetRemove | como/input/idle.h:282-295 | the listener's first entry is gone, no empty cohort |
| IdleObject.Idle.UnsetCountdown | como/input/idle.h:297-308 | every spliced listener is back in its own cohort, whatever the order of the loop; nothing is spliced, the countdown is stopped |
| IdleObject.Idle.AddListener | como/input/idle.h:132-160 | the listener waits in its own cohort and the countdown restarts for it if it is due first; else it waits behind the elapsed time and is spliced; the timer invariant is kept |
| IdleObject.Idle.RemoveListener | como/input/idle.h:162-182 | a served listener is dropped, else its first entry is, and the countdown stops if nobody waits; it stays spliced; the timer invariant is kept |
| IdleObject.Idle.ReportActivity | como/input/idle.h:184-203 | the served listeners hear resume once each and wait again in their own cohorts, and the countdown restarts for the first cohort unless inhibited |
| IdleObject.Idle.HandleCountdown | como/input/idle.h:205-239 | the first cohort hears idle once each and is served; the countdown restarts with the next key less the last interval, or is stopped |
| IdleObject.Idle.Inhibit | como/input/idle.h:241-246 | the first inhibition stops the countdown and unsplices; the timer invariant is kept |
| IdleObject.Idle.Uninhibit | como/input/idle.h:248-262 | the last inhibition to go restarts the countdown for the first cohort; the timer invariant is kept |
| FocusChains.UpdateIsExact | como/win/focus_chain_edit.h:65-175 | an update puts the window into exactly the chains called for, keeps the order of all others, makes no duplicates |
| FocusChains.UpdatePlacesExactly | como/win/focus_chain_edit.h:50-175 | at which end of each chain, or behind which window, the updated window is found |
| FocusChains.RemoveIsExact | como/win/focus_chain_edit.h:20-28 | a removal takes the window out of all chains and keeps the order of all others |
| FocusChains.ResizeIsExact | como/win/focus_chain_edit.h:40-49 | exactly the chains between the two sizes are created empty or destroyed, all others are kept |
| FocusIndex.UpdateKeepsIndexExactly | como/win/focus_chain_edit.h:65-175 | exactly when an update keeps every subspace chain equal to the filtered most-recently-used chain |
| FocusIndex.MappingAfterMoveBreaksIndex | como/win/x11/window_create.h:38 | an orderly run, in which a window that is not active is moved to another subspace, after which mapping a window breaks the index |
| FocusIndex.PlainMoveBreaksIndex | como/win/focus_chain_edit.h:65-80 | a plain update of a window that changed its subspace breaks the index even with the active window most recent |
| FocusIndex.ResizeKeepsIndexExactly | como/win/focus_chain_edit.h:40-49 | a resize keeps the index exactly if no listed window lives on a created subspace |
| FocusIndex.StepKeepsIndexExactly | como/win/focus_chain_edit.h:20-175 | the same for every kind of step |
| FocusIndex.IndexStaysFaithfulExactly | como/win/focus_chain_edit.h:20-175 | the exact guard holds at every step of a run exactly if the index is faithful all the way |
| FocusIndex.OrderlyCallKeepsIndex | como/win/focus_chain_edit.h:20-175 | an orderly call meets the exact guard |
| FocusIndex.IndexStaysFaithful | como/win/focus_chain_edit.h:20-175 | the index stays faithful over any run of orderly calls: no window on all subspaces, plain updates of listed windows where they are and of new ones with the active window most recent, no listed window on a created subspace |
| FocusOrder.LatestUseIsSortedByUse | como/win/focus_chain_edit.h:82-88 | over activations and removals the most-recently-used chain holds exactly the windows in use, sorted by last activation |
| FocusOrder.StepsGoBack | como/win/focus_chain_edit.h:207-225 | where stepping through the chain leads |
| FocusOrder.CyclingVisitsAll | como/win/focus_chain_edit.h:207-225 | stepping visits every window once before it is back |
| FocusOrder.MoveAfterIsExact | como/win/focus_chain_edit.h:227-259 | where a moved window ends up, with all others in order |
| FocusOrder.MoveAfterTouchesOnly | como/win/focus_chain_edit.h:268-283 | a move touches one window only in all chains |
| FocusOrder.MoveAfterMovesExactly | como/win/focus_chain_edit.h:268-283 | exactly the chains that list the reference, of subspaces the window is on, and the most-recently-used one are edited |
| FocusOrder.NextOfUnlisted | como/win/focus_chain_edit.h:207-225 | from an unlisted window stepping goes to the front |
| FocusChainObject.FocusChain.Remove | como/win/focus_chain_edit.h:20-28 | the window is gone from every chain |
| FocusChainObject.FocusChain.Update | como/win/focus_chain_edit.h:134-175 | every subspace chain and the most-recently-used chain are edited as called for, whatever the order of the loop |
| FocusChainObject.FocusChain.ResizeSubspaces | como/win/focus_chain_edit.h:40-49 | empty chains for new subspaces, none for removed ones |
| FocusChainObject.FocusChain.NextLatestUse | como/win/focus_chain_edit.h:207-225 | the window before the reference, wrapping around |
| FocusChainObject.FocusChain.MoveWindowAfterInChain | como/win/focus_chain_edit.h:227-259 | the chain with the window put before the reference, or before the last window of its client |
| FocusChainObject.FocusChain.MoveWindowAfter | como/win/focus_chain_edit.h:268-283 | the same in every chain of a subspace the window is on, and in the most-recently-used chain |
| FocusChainObject.FocusChain.Next | como/win/focus_chain_find.h:93-122 | the rearmost usable window other than the reference, or none exactly if there is none |
| FocusChainObject.FocusChain.GetForActivation | como/win/focus_chain_find.h:28-59 | the rearmost window that can be activated, or none exactly if there is none |
| Activation.Space.SetDemandsAttention | como/win/activation.h:332-359 | the attention chain lists exactly the demanding windows; an active window cannot demand |
| Activation.Space.SetActive | como/win/activation.h:500-542 | the recursion ends with exactly the right windows marked, the counter restored; a newly active window is made first or, without tab focus, unlisted |
| Activation.Space.SetActiveWindow | como/win/activation.h:416-488 | the assertion that the window is marked holds; it becomes the only active one, the most recent if it wants tab focus and unlisted if not, and demands nothing |
| Activation.Space.UnsetActiveWindow | como/win/activation.h:367-406 | nothing is active afterwards, although the function is entered again by itself |
| Activation.Space.Activate | como/win/activation.h:500-542 | between calls at most one window is active, and it demands no attention; a newly active window is last in the most-recently-used chain if it wants tab focus and absent if not, with all others in order |
| WorkArea.FindLargestEnd | como/win/geo_restrict.h:171-221 | the largest end of the struts that meet the area |
| WorkArea.FindSmallestStart | como/win/geo_restrict.h:171-221 | the smallest start of the struts that meet the area |
| WorkArea.RowBoundsExactly | como/win/geo_restrict.h:171-221 | the upper and lower bounds are the edges of the screen, or the innermost edges of the struts that meet the frame's columns |
| WorkArea.ColumnBoundsExactly | como/win/geo_restrict.h:171-221 | the same for the left and right bounds and the frame's rows |
| WorkArea.CheckOffscreenPosition | como/win/geo_restrict.h:18-30 | a frame beyond an edge is brought back by a quarter of the screen from that edge, each axis on its own; it meets the screen afterwards, keeps its size, and is not moved if it met it before |
| WorkArea.OnScreenMeetsScreen | como/win/geo_restrict.h:18-30 | the frame meets the screen afterwards, keeps its size, and is not moved if it met it before |
| WorkArea.Window.SidesToCorrect | como/win/geo_restrict.h:223-281 | which sides were left, which stick, and by how much the decoration may hang out |
| WorkArea.Window.CheckWorkspacePosition | como/win/geo_restrict.h:32-333 | the path each kind of window takes; a window that was inside the old bounds and fits ends inside the new ones with its size, one whose decoration was not cut by an edge is settled axis by axis, and any other is corrected side by side |
| WorkArea.SettledWithinExactly | como/win/geo_restrict.h:285-325 | exactly when the settled window is inside the bounds; one that fits is, with its length |
| WorkArea.SettledMovesLeast | como/win/geo_restrict.h:223-325 | how far a window that was inside is moved: to the edge it overlaps or stuck to, and no farther |
| WorkArea.SettledHangsOut | como/win/geo_restrict.h:223-325 | a window that hung out over an edge is not cut and not held back there, but held back at the other edge |
| WorkArea.UncutIsSettled | como/win/geo_restrict.h:223-325 | the corrections one after the other settle each axis, for a window whose decoration no old edge cut |
| WorkArea.LeftBorderHangsOut | como/win/geo_restrict.h:232-290 | a client area that stuck to the left edge with the border hanging out does so again, or the frame where the border would reach into another output |
| WorkArea.RightBorderHangsOut | como/win/geo_restrict.h:254-302 | the same on the right |
| WorkArea.TopBorderHangsOut | como/win/geo_restrict.h:243-325 | the same at the top, where the code takes the left border, and a broader one is cut |
| WorkArea.BottomBorderHangsOut | como/win/geo_restrict.h:265-316 | the same at the bottom |
| WorkArea.ClientIsInside | como/win/geo_restrict.h:303-325 | a client area that was inside the near edges ends inside them |
| WorkArea.ClientIsCutExactly | como/win/geo_restrict.h:297-325 | where a window is cut whose client area, but not its frame, was inside the near edge |
| WorkArea.IntersectingExactly | como/win/geo_restrict.h:288-309 | which frames meet several outputs |
| WorkArea.SettledSticks | como/win/geo_restrict.h:223-301 | a window that stuck to one edge sticks to it afterwards; exactly when the near edge gives way |
| WorkArea.FittingFrameIsContained | como/win/geo_restrict.h:126-332 | a window that fits ends inside the new bounds with its size, whatever the struts and edges |
| WorkArea.BoundsKeepClearOfStruts | como/win/geo_restrict.h:197-221 | a result inside the bounds that keeps the frame's columns meets no top or bottom strut, one that keeps its rows no left or right strut |
| MoveResize.CountPixels | como/win/move.h:448-461 | the visible pixels of the title bar, counted both ways |
| TitlePixels.CountsShown | como/win/move.h:448-461 | the counts are the numbers of title bar pixels in the free areas, all of them or those in areas over its full height |
| TitlePixels.ReachableExactly | como/win/move.h:361-374 | enough is visible if these are as many as a piece 100 pixels wide has, or as the whole frame |
| MoveResize.RestrictedResize | como/win/move.h:429-518 | the resize loop ends, by the title flag and then the distance of the edges, with the geometry the search finds |
| MoveResize.ResizeStaysOnTheWay | como/win/move.h:447-517 | every edge stays between its proposed and previous value; the loop stops for one of three reasons |
| MoveResize.ResizeIsBounded | como/win/move.h:429-518 | a proposal with enough of the title visible is taken as it is; without success the search ends at the previous edges, or at those beside a title whose edge stopped helping, or one step too far, where less of the title is visible than before |
| MoveResize.ResizeIsClosest | como/win/move.h:444-518 | no geometry before the result, over the top, then the left, then the right edge, shows enough of the title, and the title's edge goes exactly as far as that helps |
| MoveResize.SidesGoWhileNoWorse | como/win/move.h:463-515 | once the title's edge has failed, the edges beside it move only while that shows no less |
| MoveResize.RestrictedMove | como/win/move.h:574-645 | the move loop ends, by the distance to the previous position, with the geometry the search finds |
| MoveResize.FindTopPanel | como/win/move.h:611-620 | the row below the first top panel the frame reaches into, or -1 exactly if there is none |
| MoveResize.FirstTopPanelIsPanel | como/win/move.h:613-620 | the search finds the first strut at the top that is wider than high and that the frame reaches into, exactly if there is one |
| MoveResize.MoveStaysOnTheWay | como/win/move.h:587-644 | where the move loop stops, and why |
| MoveResize.MoveTakesTheFirst | como/win/move.h:584-644 | a move goes back pixel by pixel, sideways while part of the title is visible, and takes the first position that shows enough or reaches into a top panel |
| MoveResize.ProposalTakenExactly | como/win/move.h:587-644 | with one output a proposal is taken exactly if it shows enough of the title or changes nothing |
| MoveResize.DragKeepsTitleReachable | como/win/move.h:566-645 | over a drag the title stays visible enough, or with several outputs the top is below a top panel |
| MoveResize.TitleBarStaysReachable | como/win/move.h:364-374 | the same in terms of the required title pixels, free areas and struts |
| Maximize.Window.SetRestoreGeometry | como/win/maximize.h:25-42 | kept while fullscreen, quicktiled or moving |
| Maximize.Window.Restore | como/win/maximize.h:97-123 | the maximized axes take the restore geometry, the mode is restored, the restore geometry forgotten unless it is kept |
| Maximize.Window.UpdateMaximizedImpl | como/win/maximize.h:175-206 | frame, mode and restore geometry after one change of mode |
| Maximize.Window.UpdateMaximized | como/win/maximize.h:208-257 | frame, mode, restore geometry and quicktiling after a request; the assertion that the mode changes never fails |
| Maximize.UpdateRemembers | como/win/maximize.h:208-257 | one request keeps the frame the window came from remembered |
| Maximize.RunRemembers | como/win/maximize.h:208-257 | so does any run, and the mode is the one requested last |
| Maximize.MaximizeRoundTrip | como/win/maximize.h:24-257 | any unmaximized window, after any requests and a restore, has its frame back on all axes but the lost ones, which come from the kept restore geometry |
| Maximize.MaximizedAxesFillArea | como/win/maximize.h:125-173 | the maximized axes fill the maximize area, whatever the window was before |
| Maximize.SwitchingRestoresOtherAxis | como/win/maximize.h:175-206 | a change from one axis to the other puts the former axis back to the restore geometry |
| Maximize.RequestIsTaken | como/win/maximize.h:208-257 | a request sets the mode and the quicktiling that goes with it |
| Maximize.RestoreForgetsExactly | como/win/maximize.h:97-123 | a restore forgets the restore geometry exactly if the window was maximized and the geometry is not kept for something else |
| Maximize.RoundTripExactly | como/win/maximize.h:24-257 | exactly when any requests and a restore give back the frame of any unmaximized window, and when nothing is lost |

## Left out

- PrepareSimpleWindowPaint: takes a window's clip and translucency as given; how they follow from shapes, opacity and decorations is not modelled, only that clip pixels are opaque.
- PaintSimpleScreen: `extendPaintRegion` does nothing, as in the base class, and the background is not painted first.
- PaintScreen: there is one output, so that a pass takes over all repaints of a window; several outputs are the subject of `WindowDamage`. Effects only enlarge the regions of windows; quads, matrices, paint clippers and locked screens are not modelled.
- EveryPresentedBufferIsComplete: the stacking order has a fixed number of slots; a window that appears, disappears or moves in the order changes what its slots draw. Nothing is stated on lost damage until a frame reports it again. A display without buffer age, which is repainted in full, is the case of age 0.
- DamageIsNeverLost: an output keeps its geometry; what an output no longer shows after a move of the window counts as owed no more, and a move makes no output pending; X11 windows, which make all outputs pending at once, are not modelled.
- AddFullRepaint: annexed child windows are not repainted along; they are windows of their own.
- DamageIsExact: after a move, or when an output is added, places that were on no output can be recorded for one that does not owe them.
- IdleScheduling: callbacks do not call back into the scheduler, listeners are values, the inhibit counter does not wrap around at 32 bits, and ownership and moving of the scheduler are not modelled.
- IndexStaysFaithful: moving a window behind another is not among the steps; it can place the window differently in the chains. Windows on all subspaces are covered by the exact guard only.
- Activation.Space: popups, menus, layers, opacity rules, tool windows, X11 properties and the subspace chains are not touched by the model of activation.
- CheckWorkspacePosition: negative borders are corrected as in the code, but only windows with borders that are not negative are settled. The areas of fullscreen, maximized and quicktiled windows and the screen areas are given, size hints change nothing, and the search for the old screen area is not part of this model.
- BoundsKeepClearOfStruts: nothing is stated for results that keep neither the frame's columns nor its rows; the bounds are not computed again for them in the code.
- RestrictedResize: the geometry proposed by the pointer, snapping and size hints before and after the loop are not modelled.
- RestrictedMove: snapping may propose any position; `transposed` is always false in the code and is dropped; moves across screens of windows that cannot be moved are not modelled.
- MaximizeRoundTrip: the window is fullscreen, or being moved, over the whole run or not at all, and only requests change its quicktiling.
- UpdateMaximized: window rules and the adjusted frame size are the identity, the border does not change, and a restore applies the geometry as it is.
- Snapping of moved and resized windows.
- Integer overflow of coordinates and areas.
