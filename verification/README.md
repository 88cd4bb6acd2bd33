# Is there a train? — status widget core in Dafny

This project models the logic of the "is there a train blocking the
crossing" browser widget (`script.js`). The widget's detector is a
simulation: a decision rule over the time of day and one random draw. A
status controller shows "checking" and then yes/no/error on a status
element. A small easter egg on the page heading counts clicks.

The browser's inputs become parameters:

- The wall clock (`getHours`, `getMinutes`) becomes `hour` and `minute`.
- `Math.random()` becomes a `real` draw `r`. The draw is only compared
  with 0.3 and 0.7, so exact reals are faithful.
- The formatted "last updated" time becomes an opaque `stamp` string.
- The DOM element becomes a value: its class list is a `set<string>` and
  its text is a `string`.
- An exception during a check becomes the `Threw` outcome. It records
  whether the new time was already written when the exception was thrown.

Modules:

- `TrainDetector` (`detector.dfy`): the decision rule `Detect`, and an
  independent per-minute threshold table it is proved equal to.
- `StatusController` (`status_controller.dfy`): `SetStatus`, one check as
  an atomic transition `CheckTrainStatus` (pending state, then final
  state), the R-key handler, and any series of checks run one after the
  other.
- `TitleEasterEgg` (`title_easter_egg.dfy`): the click counter, the
  restore timer, and their interleavings.

## Model

| member | source | states |
|---|---|---|
| TrainDetector.Detect | script.js:77-90 | Blocking exactly when the reason is not "No train currently blocking". "Scheduled freight train" exactly in a 10/14/20 o'clock first half hour with a draw above 0.3. A draw of at most 0.3 never blocks. Rush hour (7-9, 16-18) is always clear. Outside windows and rush hour it blocks, as "Unexpected train delay", exactly when the draw exceeds 0.7. |
| TrainDetector.DetectMatchesThreshold | script.js:78-90 | For every draw in [0,1), the rule blocks exactly when the draw exceeds the minute's threshold (0.3 in a train window, 1.0 in rush hour, 0.7 otherwise), and the blocking reason is the one that threshold belongs to. |
| TrainDetector.RushHourNeverTrainTime | script.js:78-79 | No hour and minute is both rush hour and a train window. |
| TrainDetector.BlockingPossibleExactlyOutsideRushHour | script.js:78-90 | At any hour and minute, some draw reports a train if and only if the hour is not a rush hour. |
| StatusController.SetStatus | script.js:93-101 | Afterwards the element carries exactly one of the four status classes, the requested one. Every other class is as before, and the text is the requested text. |
| StatusController.ClassNameInjective | script.js:95-98 | Each status's class is one of the four removed classes, and distinct statuses have distinct classes. |
| StatusController.StatusOfSetStatus | script.js:95-98 | Reading the status back from the element after an update gives the status just set, whatever the element held before. |
| StatusController.SetStatusLastWins | script.js:93-101 | Two updates in a row leave the same element as the second update alone. |
| StatusController.CheckTrainStatus | script.js:33-57 | A check first shows checking/"Checking..." with the old time. A blocking verdict ends in yes/"YES" and a clear verdict in no/"NO", both with the new time. An exception in the timestamp update ends in error/"Error". The time is new if the throw came after it was written (missing "last updated" element, script.js:125). It is old if writing it threw (missing time element, script.js:122). Non-status classes survive both steps. |
| StatusController.CheckAtClock | script.js:43-49 | A check that ran the time-of-day rule ends in yes exactly when the draw exceeds the minute's threshold, otherwise in no. In rush hour it always ends in no. |
| StatusController.OnKeyDown | script.js:26-30 | Keys other than "r"/"R" change nothing. A refresh key leaves the status the check settled on, with that status's label. The time becomes the new stamp exactly when the check wrote it, and otherwise stays. Non-status classes are kept. |
| StatusController.RunChecksInvariant | script.js:33-57 | After any series of checks, the status is the one the last check settled on. The time is the stamp of the last check that wrote its time, or the initial time if no check did. Non-status classes are those the element started with. |
| TitleEasterEgg.Click | script.js:168-176 | After a click the counter lies in 0..4. From a reachable counter, a click advances it modulo five. A reset counter comes with the "Choo Choo!" text, and otherwise the text is untouched. |
| TitleEasterEgg.Restore | script.js:172-174 | The restore timer puts back "🚂 Train Status" and does not touch the counter. |
| TitleEasterEgg.RunCountsClicks | script.js:166-176 | Under any interleaving of clicks and restore timers from page load, the counter equals the number of clicks modulo five. |
| TitleEasterEgg.ClickFiresOnEveryFifth | script.js:168-176 | A click shows "Choo Choo!" exactly when the clicks so far, including it, number a multiple of five. |
| TitleEasterEgg.GreetingsPerFiveClicks | script.js:168-176 | The greeting has been shown exactly (number of clicks) / 5 times. |

## Left out

- Timers and asynchrony: the 30-second `setInterval`, the 1500 ms simulated delay and the animation timeouts (script.js:15, 39, 108-110, 126-128, 131-133). One check is one atomic transition from its pending state to its final state.
- Overlapping checks: the code has no busy flag. A timer tick, an indicator click, the R key or `refreshStatus` can start a check while another is pending. The model runs checks one after another and asserts no mutual exclusion, because the code does not enforce one.
- Styling and scrolling: the cursor, transform and opacity animations and the smooth scrolling of anchor links (script.js:104-110, 125-128, 152-164) are presentation only.
- Time formatting: `toLocaleTimeString` (script.js:113-122) is locale-dependent library code. Its result is the opaque `stamp` parameter.
- Clock and random source: `new Date()` and `Math.random()` (script.js:67-69, 82) are parameters. `Detect` needs no range precondition, because its rule never depends on the ranges. The range of the draw matters only in the threshold lemmas.
- Missing status elements: if the status text or the status indicator is absent, the catch handler's own status update throws too, and the rejection escapes. The model assumes both elements exist. The detection rule cannot throw. So `Threw` stands for an exception in the timestamp update (script.js:122 or 125), raised after the yes/no status was shown.
- Start-up wiring: the constructor, `init`, `addEventListeners`, `refreshStatus` and the `window.trainApp` global (script.js:2-31, 136-149) are glue. The first check at start-up and the indicator click are ordinary checks in `RunChecksInvariant`. The R key is `OnKeyDown`.
- Configuration: config.template.js is a settings literal with no logic. The transit endpoints it names are never called from script.js.
- Other detectors: script.js contains only the time-of-day rule. The transit API client, the image-darkness detector and the model-based detector are not part of it, so they are not part of this model.
- Title restore timer: the 2000 ms delay (script.js:172-174) is dropped. A `Restored` event may happen at any point, even before any greeting or several times per greeting. This covers every real timing, so the counter lemmas still hold.
- Error logging: the `console.error` call in the catch handler (script.js:54) writes to the developer console only, and is not modelled.
