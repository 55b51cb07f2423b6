# ASL letter typer: the stability detector

The repository is a browser page that runs a Teachable Machine image classifier on
webcam frames every 100 ms and "types" a sign-language letter once the user has held
the sign steadily. The only logic in it is the stability detector of the `ASLTyper`
class in `script.js`. It turns the classifier's per-tick list of
`(className, probability)` predictions into at most one typed letter per tick:

- `processPredictions` sorts the list by descending probability (a stable sort), takes
  entry 0 and gates it on the confidence threshold. The gate is inclusive (`>=`).
- `handleStableDetection` counts a streak of the same top letter. It anchors a start
  time when the count first reaches `requiredStableDetections`. It types the letter
  once `detectionDelay` milliseconds have passed since the anchor, and then resets.
- `resetDetection` clears the streak. `typeLetter` appends to the output box and
  `clearOutput` empties it. The two sliders overwrite the threshold and the delay.

The model is functional. The detector state is an immutable `DetectorState` with the
three fields `lastDetection`, `stableDetectionCount` and `detectionStartTime`.
`Detector.Step` is one call of `processPredictions` and `Detector.Run` folds it over a
trace of timestamped samples. `Typer` wraps the detector with the settings and the
output string, and applies the page's events in order.

Modules:
- `Optional` (optional.dfy): `Option` and `Result`.
- `Predictions` (predictions.dfy): the stable descending sort, the top entry, and a
  single-pass scan that picks the same entry.
- `Detector` (detector.dfy): the state, `HandleStableDetection`, `Step` and `Run`.
- `Streaks` (streaks.dfy): properties over traces. These cover splitting a trace, the
  cooldown after a typed letter, and the exact schedule of a held letter.
- `Typer` (typer.dfy): settings events, the output buffer and the clear button.
- `Scenarios` (scenarios.dfy): "A" held at 0.9 every 100 ms from t = 0 under the
  defaults. It types at t = 2900 and t = 5900 and nowhere else, and the output is "AA".

Modelling choices:
- The clock reading `Date.now()` is a parameter `now` of each step (an `int` of
  milliseconds).
- The classifier is opaque: a sample is any `seq<Prediction>`.
- Probabilities and the threshold are `real`, because the code only compares them.
  The delay is a `nat` of milliseconds.
- The threshold and the delay are per-step settings, not state. The sliders change
  them between ticks without touching the streak. `requiredStableDetections` is a field
  of the settings that no event changes.
- An empty prediction list makes `predictions[0].probability` throw. `Step` returns
  `Failure(EmptyPredictions)` for it. The loop's `try`/`catch` in `predict` swallows
  the error, so `Tolerant`, `Run` and `Typer.Apply` treat that tick as a no-op.
- The anchor test is JavaScript truthiness (`!this.detectionStartTime`), so an anchor
  of 0 counts as unset (`Detector.Unset`). No precondition on `now` is needed. The
  held-letter lemmas require that the anchoring tick does not read 0.
- Two details of the code are kept as written:
  - There is no `else` between setting the anchor and testing the delay. With a delay
    of 0, a letter is typed on the very sample that sets the anchor (see
    `Streaks.AnchoringStep`).
  - The count is compared with the requirement only in the same-letter branch. A
    sample that starts a new streak never types, even if the requirement were 1.

## Model

| member | source | states |
|---|---|---|
| `Predictions.SortDescending` | script.js:171-172 | keeps the length; the permutation is `Predictions.SortDescendingIsStableSort` |
| `Predictions.SortDescendingIsStableSort` | script.js:171-172 | the sort orders by descending probability and keeps entries of equal probability in input order, as a stable sort with comparator `b.probability - a.probability` does |
| `Predictions.SortHeadIsFirstMax` | script.js:172-180 | the prediction acted on (entry 0 after the sort) has the largest probability, and every earlier input entry is strictly less probable, so ties go to the earliest entry |
| `Predictions.FirstMaxIndex` | script.js:172-180 | a single left-to-right scan that moves only on a strictly larger probability finds the first maximum, which is the same entry the sort puts first |
| `Detector.HandleStableDetection` | script.js:207-231 | a new letter starts a streak of 1 with no anchor and never types. The same letter adds exactly 1 to the count. A letter is typed iff the count reaches the requirement and `now` minus the anchor (set to `now` if unset) is at least the delay. The typed letter is this one and the state is reset. The anchor is set once and never moves during the streak. The state invariant is preserved |
| `Detector.Step` | script.js:167-192 | an empty list is an error. A top probability below the threshold resets the state and types nothing. The gate is inclusive. Whatever is typed is the top class, needs the count to reach the requirement, and leaves the state reset. The count grows by at most 1 and the invariant is preserved |
| `Detector.Tolerant` | script.js:159-164 | a tick whose prediction step throws leaves the state unchanged and types nothing |
| `Detector.Run` | script.js:207-237 | over any trace, one typed-or-not result per tick. The invariant "no letter iff count 0, anchor only at or above the requirement" holds at the end if it held at the start. The count grows by at most the number of ticks |
| `Streaks.NothingTypedBelowRequired` | script.js:210-214 | while the count cannot reach the requirement, no tick types anything, whatever time passes |
| `Streaks.TypingResets` | script.js:219-223 | the tick that types a letter leaves the detector in the reset state |
| `Streaks.Cooldown` | script.js:214-237 | after a typed letter, the next `required - 1` ticks type nothing, so a held letter needs `required` fresh samples before it can type again |
| `Streaks.HeldLetterCounts` | script.js:207-231 | from idle, a held letter's first ticks only count up (1, 2, ...) without an anchor and without typing |
| `Streaks.AnchoringStep` | script.js:214-223 | the tick on which a held letter's count reaches the requirement anchors at its own time, and types at once when the delay is 0 |
| `Streaks.HeldLetterWaits` | script.js:214-223 | once anchored, a held letter types nothing while less than the delay has passed since the anchor, then types on the first tick at or past it and resets |
| `Streaks.HeldLetterCycle` | script.js:207-237 | a letter held from idle types exactly once, on the first tick at least `delay` after the tick on which the count reached the requirement, and leaves the detector idle |
| `Typer.Apply` | script.js:44-59 | moving a slider changes only that setting and leaves the streak and the output alone. Clearing empties the output and leaves the streak alone. A prediction only appends to the output, and only when it resets the detector. The invariant is preserved |
| `Typer.RunEvents` | script.js:44-59 | folding the slider, prediction (script.js:167-192) and output (script.js:239-251) handlers over any sequence of events, the required count fixed at construction (script.js:10-15) never changes and the detector invariant holds after any sequence of events |
| `Typer.OutputAppendOnly` | script.js:239-241 | without a clear, the output before a sequence of events is a prefix of the output after it |
| `Typer.PredictionsOnlyRunDetector` | script.js:239-241 | with the settings untouched, the application's detector follows the detector's trace and the output gains exactly the letters typed, in order |
| `Scenarios.HeldAScenario` | script.js:10-15 | with the defaults (0.7, 2000 ms, 10), "A" at 0.9 every 100 ms from t = 0 types at t = 2900 and t = 5900 and on no other of the first sixty ticks |
| `Scenarios.HeldATypesTwice` | script.js:239-241 | those sixty ticks fed to a fresh application leave "AA" in the output box |

## Left out

- Camera start and stop (`getUserMedia`, track stopping): browser I/O.
- Model loading (`tmImage.load`) and `model.predict`: foreign asynchronous library
  calls. The classifier is an arbitrary source of samples.
- The `setInterval` loop and the guard in `predict`: timer plumbing. A trace of ticks
  stands in for the loop, and it contains only ticks on which `predict` reached
  `processPredictions`. Only the `catch` of `predict` is modelled (`Detector.Tolerant`).
- `displayPredictions`, the current-letter and confidence text, `updateSettingsDisplay`,
  `toFixed` formatting, console logging and output scrolling: display only.
- `copyOutput` and the clipboard API: external I/O.
- The slider parsing `parseFloat(...) * 1000`: floating-point parsing of UI input. The
  delay is taken as a whole number of milliseconds.
- Floating point: probabilities and the threshold are exact reals, so NaN and rounding
  are not modelled. They are used only in comparisons and in the comparator's difference, whose sign is
  the comparison; the display's percentage scaling is left out with the display.
