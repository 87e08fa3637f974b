# Click recorder and replayer: a verified model

This project models the engine inside a browser userscript that records a user's
clicks on a canvas-based game and replays them. The model covers:

- **Locating the surface.** `findCanvas` picks the first canvas of largest area
  among those with area above 100.
- **Recording.** Each click is converted to percentages of the canvas size and
  appended to `recordedClicks`. A click closer than 50 pixels to an existing
  point is rejected; existing points are converted back to pixels at the
  canvas's current size for this test.
- **Editing the recording.** Single points can be deleted in edit mode. Clearing
  takes two presses of the clear button, and a 3-second timeout forgets the
  first press.
- **Storage.** The recording is saved under one browser-storage key and loaded
  from it.
- **Replay.** `playOnce` walks the recording in order. `playLoop` repeats rounds
  while the cooperative `isPlaying` flag stays set.

Modules:

- `Options`: the optional value used for "not found".
- `Geometry`: percent and pixel conversion in exact `real` arithmetic, and the
  duplicate test on squared distance.
- `Locator`: `findCanvas`, written as a loop.
- `Replay`: `clickAt`, plus the specification and the loop of one replay round.
- `Recorder`: class `Session`. It holds the script's top-level state
  (`recordedClicks`, `isRecording`, `isPlaying`, `isEditMode`), the
  clear-button counter and its timer (closure variables of `bindEvents`),
  the storage entry, and one method per operation.
- `Scenarios`: client methods that run, through the contracts alone, record
  and replay at another size, the two-press clear, an unparseable stored
  entry, reload, a loop stopped mid-round, and a stale marker deleted after a
  clear.

Inputs of the model:

- The value of `isPlaying` at each check inside a round, and at the loop
  test after each round. Other handlers can change the flag while a replay
  is waiting, so the model takes the values it reads as inputs.
- Whether event dispatch throws for each point.
- Whether the storage refuses a save, for example on quota.
- The click's offset within the canvas's bounding box.

Three behaviours of the code are easy to get wrong, and the model states
them as the code has them:

- **Stopping a loop mid-round.** The rest of the current round does not
  play. The code checks `isPlaying` before every point
  (`scripts/xjjd-auto-click-recorder.user.js:301-305`), so the round ends at
  the next point. See `Scenarios.LoopStoppedMidRound`.
- **Unparseable storage entry.** `loadFromLocal` does not reset the
  recording to empty; it leaves `recordedClicks` as it was (`:136-148`). At
  start-up this is the same thing, because the sequence is still empty.
- **Failed clicks.** `clickAt` returns false only when there is no canvas
  (`:64-69`). `playOnce` returns before its loop in that case, and once the
  canvas is found it is never replaced. So the `if (!success) break` branch
  can never stop a round, and `Replay.PlayPoints` proves that a round ends
  only on the flag.

The check before a round's first point runs in the same synchronous step as
the call to `playOnce`, so it always sees the flag as it was at the call.
Every round that the play button or the loop starts therefore clicks at
least its first point.

A confirmed clear in edit mode leaves the deletable markers on screen
(`:718-723` hide them only when they are shown read-only). Pressing one calls
`deleteClick` with an index past the end of the now empty recording. The
`splice` then removes nothing, the empty recording is saved back under the
key the clear had just removed, and edit mode ends. `Recorder.Remove` and
`Recorder.Session.DeleteClick` model this path, and
`Scenarios.StaleMarkerAfterClear` walks through it.

## Model

| member | source | states |
|---|---|---|
| `Geometry.ToPercent` | scripts/xjjd-auto-click-recorder.user.js:228-229 | converting the percentage back to pixels at the same size gives the original pixel coordinate exactly; coordinates inside the surface map into [0, 100] |
| `Geometry.ToPixel` | scripts/xjjd-auto-click-recorder.user.js:308-309 | a percentage in [0, 100] maps to a pixel coordinate within the surface |
| `Geometry.Normalize` | scripts/xjjd-auto-click-recorder.user.js:227-229 | the recorded point, replayed on a surface of the recording size, is dispatched exactly at the click position |
| `Geometry.Denormalize` | scripts/xjjd-auto-click-recorder.user.js:212-213 | a stored point, at `p / 100 * width` and `p / 100 * height` (also :308-309); a point in [0, 100] on both axes lands on the surface |
| `Geometry.PixelPercentRoundTrip` | scripts/xjjd-auto-click-recorder.user.js:212-213 | converting a stored percentage to pixels and back returns the same percentage |
| `Geometry.DenormalizeRoundTrip` | scripts/xjjd-auto-click-recorder.user.js:212-213 | re-recording a replayed point at the same size stores the same point |
| `Geometry.ReplayScales` | scripts/xjjd-auto-click-recorder.user.js:308-309 | each coordinate, recorded along a side of one length and replayed along a side of any other length, lands at the same fraction of that side (scaled by size'/size); the two axes scale independently |
| `Geometry.SquaredDistance` | scripts/xjjd-auto-click-recorder.user.js:215 | the squared distance is never negative |
| `Geometry.TooClose` | scripts/xjjd-auto-click-recorder.user.js:215-217 | the duplicate test: a click exactly on a recorded point is a duplicate, and a duplicate is within 50 pixels on each axis |
| `Geometry.TooCloseIffNearer` | scripts/xjjd-auto-click-recorder.user.js:215-217 | the squared test holds exactly when the Euclidean distance (the square root) is below 50 pixels |
| `Locator.Area` | scripts/xjjd-auto-click-recorder.user.js:52-54 | a canvas's area is positive exactly when both of its sides are, so a canvas of area above 100 never makes the conversions divide by zero |
| `Locator.FindCanvas` | scripts/xjjd-auto-click-recorder.user.js:44-61 | None exactly when no candidate has area above 100 (an empty page included); otherwise a candidate of area above 100 and of maximal area, with every earlier candidate strictly smaller (ties go to the first) |
| `Replay.ClickAt` | scripts/xjjd-auto-click-recorder.user.js:64-118 | false exactly when there is no canvas, in which case nothing is dispatched; true after the synthesized events and also after the fallback `click()` when dispatch throws |
| `Replay.PointAction` | scripts/xjjd-auto-click-recorder.user.js:307-314 | replaying one point dispatches the synthesized events at its pixel position on the current surface, or falls back to a plain `click()` when dispatch throws |
| `Replay.Replayed` | scripts/xjjd-auto-click-recorder.user.js:301-319 | a round clicks at most one action per recorded point |
| `Replay.ReplayedStopsAtFirstStop` | scripts/xjjd-auto-click-recorder.user.js:301-319 | a round clicks exactly the points before the first check that sees the flag cleared (all of them if it stays set), each at its pixel position and in recorded order |
| `Replay.FirstStop` | scripts/xjjd-auto-click-recorder.user.js:301-305 | the first of n checks that sees the flag cleared (n when none does): the flag is set at every earlier check |
| `Replay.PlayPoints` | scripts/xjjd-auto-click-recorder.user.js:301-319 | the loop of `playOnce` produces exactly the round's specified actions, and as many of them as there are checks before the flag is first seen cleared |
| `Recorder.Remove` | scripts/xjjd-auto-click-recorder.user.js:496 | `splice(i, 1)` for i >= 0: for an index inside the sequence, one element shorter, with elements before i unchanged and elements after i shifted down by one in order; for an index past the end, the sequence unchanged |
| `Recorder.RemoveThenInsert` | scripts/xjjd-auto-click-recorder.user.js:496 | only element i is removed: putting it back at i restores the sequence |
| `Recorder.FirstTooClose` | scripts/xjjd-auto-click-recorder.user.js:210-225 | None exactly when no recorded point is within 50 pixels of the click at the current size; otherwise the index of the first point that is, with no earlier one too close |
| `Recorder.FirstStoppedRound` | scripts/xjjd-auto-click-recorder.user.js:340-346 | the first round after which the flag is seen cleared, as `FirstStop` over the flags seen after each round: the flag was set after every earlier round |
| `Recorder.Session.constructor` | scripts/xjjd-auto-click-recorder.user.js:31-37 | start-up state: no canvas, nothing recorded, every flag cleared, clear counter 0 with no timer pending (the closure variables `bindEvents` declares at lines 684-685), storage as left by earlier visits |
| `Recorder.Session.Locate` | scripts/xjjd-auto-click-recorder.user.js:817-839 | runs only while no canvas is known; the canvas becomes the candidate `findCanvas` chooses, or stays none |
| `Recorder.Session.StartRecord` | scripts/xjjd-auto-click-recorder.user.js:156-180 | a new recording empties the sequence and an appended one keeps it unchanged; both set `isRecording`; the listener is attached only if a canvas exists, and otherwise the call throws (`ok` false) |
| `Recorder.Session.AppendRecord` | scripts/xjjd-auto-click-recorder.user.js:624-633 | with an empty sequence it is refused and changes nothing; otherwise appended recording starts and the sequence is kept |
| `Recorder.Session.SaveToLocal` | scripts/xjjd-auto-click-recorder.user.js:121-134 | the key holds the current sequence afterwards, unless the store refused, in which case the entry is unchanged |
| `Recorder.Session.LoadFromLocal` | scripts/xjjd-auto-click-recorder.user.js:136-148 | loads exactly when the key holds a parseable recording, and then the sequence equals it; an absent or malformed entry leaves the sequence as it was |
| `Recorder.Session.ClearLocal` | scripts/xjjd-auto-click-recorder.user.js:150-153 | the key is absent afterwards |
| `Recorder.Session.StopRecord` | scripts/xjjd-auto-click-recorder.user.js:182-202 | clears `isRecording` and the listener and does not change the sequence; saves it, except when there is no canvas (the detach throws first) or the store refuses |
| `Recorder.Session.RecordHandler` | scripts/xjjd-auto-click-recorder.user.js:204-245 | if some recorded point, converted to pixels at the current size, is within 50 pixels, the sequence is unchanged and the first such index is reported; otherwise the sequence grows by exactly the click in percentages, and earlier points are unchanged and in order |
| `Recorder.Session.ToggleEditMode` | scripts/xjjd-auto-click-recorder.user.js:380-418 | edit mode flips, but can be entered only when something is recorded |
| `Recorder.Session.DeleteClick` | scripts/xjjd-auto-click-recorder.user.js:494-517 | for any marker index in edit mode: exactly that point is removed (nothing when the index is past the end, as for a stale marker after a confirmed clear); the result is saved; edit mode ends once the sequence is empty |
| `Recorder.Session.PressClear` | scripts/xjjd-auto-click-recorder.user.js:684-728 | with nothing recorded nothing changes; a first press sets the counter to 1 and keeps the data and the store; a second press empties the sequence and the store and resets the counter to 0 |
| `Recorder.Session.ClearTimeout` | scripts/xjjd-auto-click-recorder.user.js:703-706 | the pending reset timer sets the counter back to 0, so the next press is a first press again |
| `Recorder.Session.PlayOnce` | scripts/xjjd-auto-click-recorder.user.js:283-322 | refused, with nothing clicked and edit mode unchanged, for an empty recording or a missing canvas; otherwise leaves edit mode and plays exactly the specified round, whose first check sees the flag as it is at the call |
| `Recorder.Session.PlayOnceButton` | scripts/xjjd-auto-click-recorder.user.js:643-657 | refused exactly as `playOnce` is, with edit mode unchanged; otherwise leaves edit mode, plays the specified round, and clicks at least the first point, because the flag was just set; the flag ends cleared |
| `Recorder.Session.PlayLoop` | scripts/xjjd-auto-click-recorder.user.js:324-349 | refused for an empty recording or a missing canvas, with the flag and edit mode unchanged; otherwise plays rounds up to and including the first one after which the flag is seen cleared, and no further round; each round is the specified replay and sees the flag set at its first check; edit mode and the flag end cleared |
| `Recorder.Session.StopPlay` | scripts/xjjd-auto-click-recorder.user.js:351-354 | clears the flag |
| `Scenarios.ReloadRestoresRecording` | scripts/xjjd-auto-click-recorder.user.js:182-189 | after stopping a recording, a new page load over the saved entry loads exactly that sequence |

## Left out

- The user interface is not modelled: the panel, the buttons and their visibility, dragging, status text, `alert`, console output, the marker overlays (`showMarkers`, `hideMarkers`, `showClickMarker`, `showIgnoredMarker`) and the `isShowingMarkers` flag. None of them changes the recording.
- JSON serialization and `localStorage` are foreign calls. The stored value is modelled as either text that parses to a recording or text that does not parse. Two other cases are not modelled. JSON that parses to something that is not a recording is assigned to `recordedClicks` at :140. For `null`, the `.length` at :141 then throws, so the load reports failure and leaves `recordedClicks` null; an object without `length` loads as a non-array. A thrown `removeItem` is not modelled either.
- Event synthesis (`createEvent`, `initMouseEvent`, `dispatchEvent`) and the client and screen offsets it computes are browser APIs.
- Replay.ClickAt: a dispatch that throws after some of its three events have gone out is treated like one that dispatched nothing before the fallback `click()`.
- The delays (`sleep`, `setTimeout` and the 500 ms `setInterval` retry in `init`) are left out. Time appears only as the clear counter's timeout transition and as a repeated call to `Session.Locate`.
- Concurrency between asynchronous handlers is not modelled. The flag values a replay reads are inputs, and the recording is assumed not to change during a replay.
- Recorder.Session.PlayLoop: only runs in which some round ends with the flag cleared are modelled. A loop that is never stopped runs forever.
- A canvas changing size after it has been located is not modelled. The conversion lemmas hold for every surface size.
- Recorder.Session.RecordHandler: the click's position relative to the canvas's bounding box is an input; any CSS scaling between that box and the canvas's intrinsic size is not modelled.
- IEEE floating-point rounding and `Math.sqrt` are left out. Arithmetic is exact, and the distance test is on squares; `Geometry.TooCloseIffNearer` connects it to the square root.
- A negative index for `splice` cannot happen: marker indices come from `forEach` and are never negative.
