# Movie-detail view-state machine

A Dafny model of the view-state controller of the movie-detail screen
(`pages/MovieDetail.tsx`). On this screen a viewer picks an assistive track:
audio description (AD) or closed captions (CC). The screen then shows a
simulated synchronisation for 5000 ms and a "complete" pause for 2000 ms.
After that it opens a player that shows the chosen overlay.

The component is a small, event-driven state machine. The model is a pure
function `MovieStep.Step(state, event)`, where the events are `StartAD`,
`StartCC`, `Cancel`, `Toggle` and `Tick(now)`.

- The state record (`MovieState.State`) holds the source's five pieces of
  component state.
- It also holds the virtual clock, the time the current view was entered, and
  the pending timer, written `Option<Timer(deadline, target)>`.
- The timer effect is modelled by `MovieState.Enter`. When the view really
  changes, the previous timer is dropped and the new view's timer is armed.
- The render dispatch is modelled by `MovieRender.Render`. It decides which
  screen is shown and which buttons that screen offers. A button the current
  screen does not render cannot be pressed, so `Step` ignores it.
- A tick moves the clock forward. Every timer that has come due fires at its
  own deadline. A clock reading earlier than the current time is ignored.
- Button events carry no time. A press happens at the clock's last reading,
  so a press at time t is modelled as `Tick(t)` followed by the button event.

Modules: `Wrappers` (Option), `MovieState` (data model, timer effect,
invariant), `MovieRender` (screens, buttons, badge and warning), `MovieStep`
(handlers, `Step`, `Run`), `MovieProperties` (timeline, safety and scenario
lemmas).

The timers are 5000 ms (line 23) and 2000 ms (line 25). Only the syncing
screen has a cancel button (line 105). `complete` falls through to the
selection screen (line 110), so its AD/CC buttons restart syncing.

## Model

| member | source | states |
|---|---|---|
| MovieState.Initial | pages/MovieDetail.tsx:11-15 | The mounted state is `selection` with no track, `isPlaying` on, glasses connected and no timer; it satisfies the invariant |
| MovieState.Arm | pages/MovieDetail.tsx:19-26 | A timer is armed exactly in `syncing` and `complete`, it targets the successor view and comes due strictly after entry |
| MovieState.Enter | pages/MovieDetail.tsx:17-28 | A real view change replaces the pending timer with the new view's timer and records the entry time; it vibrates on entering `syncing`; setting the same view changes nothing; no other field changes |
| MovieRender.Render | pages/MovieDetail.tsx:45-110 | `playing` renders the player, `syncing` the sync screen, and both `selection` and `complete` the selection screen; the player's AD and CC panels follow the selected track and its transport icon follows `isPlaying` |
| MovieRender.Offered | pages/MovieDetail.tsx:82-159 | AD/CC buttons are offered exactly in `selection` and `complete`, cancel exactly in `syncing`, play/pause exactly in `playing` |
| MovieRender.BadgeShown | pages/MovieDetail.tsx:59-61 | The glasses badge is visible iff the view is `playing` and CC is selected |
| MovieRender.BadgeSaysConnected | pages/MovieDetail.tsx:59-61 | The badge reports "connected" iff playing with CC and the glasses are connected |
| MovieRender.WarningShown | pages/MovieDetail.tsx:75 | The warning is visible iff the view is `playing`, CC is selected and the glasses are disconnected |
| MovieStep.StartTrack | pages/MovieDetail.tsx:31-41 | Selecting a track sets exactly that track's flag, enters `syncing` with a 5000 ms timer to `complete` and a haptic cue, and keeps the invariant |
| MovieStep.CancelSync | pages/MovieDetail.tsx:105 | Cancel lands in `selection` with both flags cleared and no timer, and keeps the invariant |
| MovieStep.TogglePlayback | pages/MovieDetail.tsx:82 | The play/pause button flips `isPlaying` and leaves every other field unchanged |
| MovieStep.Fire | pages/MovieDetail.tsx:23-25 | A firing timer sets its target view, arms that view's timer at the old deadline, and strictly lowers the number of timers still to fire |
| MovieStep.Advance | pages/MovieDetail.tsx:17-28 | After advancing to `now`, no pending timer is due; track, playback and connectivity flags are untouched; timer/state consistency is kept; timers never enter or leave `selection` |
| MovieStep.TickTo | pages/MovieDetail.tsx:17-28 | An earlier clock reading is ignored; otherwise the clock moves to `now`; the invariant is kept; a view change enters the new view no earlier than the deadline of the timer that was pending |
| MovieStep.Step | pages/MovieDetail.tsx:17-41 | Every event keeps the invariant, never moves the clock back, never changes connectivity, and ignores buttons the screen does not render; a view change re-arms no earlier than the previous clock reading: exactly at the press time for a button, and for a tick at a timer deadline no earlier than that of the timer pending before it; haptic cues count entries into `syncing` |
| MovieStep.Run | pages/MovieDetail.tsx:11-41 | Any event sequence keeps the invariant, the connectivity flag and a monotone clock |
| MovieProperties.TickFollowsSchedule | pages/MovieDetail.tsx:17-28 | A tick yields exactly the view and entry time of a closed-form 5000/2000 ms timeline, with that view's timer and nothing else changed |
| MovieProperties.SyncingCompletesOnTime | pages/MovieDetail.tsx:23 | Left alone, `syncing` turns into `complete` exactly when the clock reaches entry + 5000 ms, and into `playing` at entry + 7000 ms |
| MovieProperties.CompletePlaysOnTime | pages/MovieDetail.tsx:25 | Left alone, `complete` turns into `playing` exactly when the clock reaches entry + 2000 ms, with no timer left |
| MovieProperties.NoTimerInSelectionOrPlaying | pages/MovieDetail.tsx:19-26 | `selection` and `playing` hold no timer, and a tick moves only their clock |
| MovieProperties.AdvanceForgetsClock | pages/MovieDetail.tsx:23-25 | Which timers fire does not depend on the clock reading the advance starts from |
| MovieProperties.AdvanceComposes | pages/MovieDetail.tsx:17-28 | Advancing to `a` and then to `b` equals advancing to `b` directly |
| MovieProperties.TickSplit | pages/MovieDetail.tsx:17-28 | A tick to `a` followed by a tick to `b >= a` gives the same state as a single tick to `b` |
| MovieProperties.StartADSelectsAudioDescription | pages/MovieDetail.tsx:31-35 | From either screen that offers it, StartAD gives `adSelected`, not `ccSelected`, `syncing`, a fresh 5000 ms timer and one haptic cue |
| MovieProperties.StartCCSelectsCaptions | pages/MovieDetail.tsx:37-41 | The mirror image for StartCC |
| MovieProperties.CancelReturnsToSelection | pages/MovieDetail.tsx:105 | Cancel from `syncing` returns to `selection`, clears both flags and the timer, and keeps playback and clock |
| MovieProperties.ToggleOnlyFlipsPlayback | pages/MovieDetail.tsx:82 | In `playing` the toggle flips only `isPlaying`; toggling twice restores the state |
| MovieProperties.SelectionWaitsForUser | pages/MovieDetail.tsx:19-27 | From `selection`, no sequence without a track button ever leaves `selection` or arms a timer |
| MovieProperties.CancelledSyncNeverAdvances | pages/MovieDetail.tsx:17-28 | After a cancel, every prefix of any sequence without a track button stays in `selection` with no timer, so the old sync never reaches `complete` |
| MovieProperties.ReachableStatesAreConsistent | pages/MovieDetail.tsx:11-41 | Every state reachable from mounting has exclusive track flags, and its pending timer targets the successor view and is not yet due |
| MovieProperties.OnePanelKindWhilePlaying | pages/MovieDetail.tsx:71-76 | In every reachable `playing` state exactly one of the AD and CC panel sets is shown, and it is the selected track's |
| MovieProperties.WarningNeverShownFromMount | pages/MovieDetail.tsx:15 | Since nothing clears `isGlassesConnected`, no reachable state shows the warning |
| MovieProperties.CaptionScenario | pages/MovieDetail.tsx:37-75 | StartCC followed by a tick at +7000 ms reaches `playing` with CC and the badge; the warning shows iff the glasses are disconnected and disappears once they connect |

## Left out

- Everything the screen draws, except the choice of screen, its buttons, the
  overlay panels, the glasses badge and the warning. This covers styling,
  icons, animations, the poster and the random bar heights (line 98). All of
  it is presentation only.
- `navigator.vibrate` (lines 20-22). It is recorded only as the counter
  `hapticCues` of requested cues. Whether the browser supports vibration is a
  foreign capability.
- `navigate(-1)` (lines 50, 82, 120). It is a router call and changes no
  component state.
- The movie lookup in `MOCK_MOVIES` and the `null` return when no movie is
  found (lines 9, 43). The catalogue module `../constants` is not part of this
  model.
- Real `setTimeout` scheduling. It is replaced by a virtual clock and explicit
  `Tick` events. Unmounting the component is not modelled.
- `isGlassesConnected`: its setter `setIsGlassesConnected` (line 15) is never
  called. It is kept as a state field that no event changes. The badge and warning functions are stated over
  any value of it, so they cover an outside connectivity source too.
