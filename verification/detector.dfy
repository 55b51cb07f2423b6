/**
  The letter stability detector of `ASLTyper`: `processPredictions`,
  `handleStableDetection` and `resetDetection`, as a pure step function over an
  immutable state, and its fold over a trace of timestamped samples.

  The state is the three fields `lastDetection`, `stableDetectionCount` and
  `detectionStartTime`. The threshold and the delay are read on every call and can be
  changed by the settings sliders between calls, so they are a parameter of each step,
  not part of the state.
*/
module Detector {
  import opened Optional
  import opened Predictions

  /** The detection settings: confidence threshold, delay in milliseconds, required count. */
  datatype Settings = Settings(threshold: real, delay: nat, required: nat)

  /** The constructor's defaults. */
  const DefaultSettings := Settings(0.7, 2000, 10)

  datatype DetectorState = DetectorState(
    lastDetection: Option<string>,
    stableCount: nat,
    startTime: Option<int>)

  /** The state `resetDetection` leaves, which is also the constructor's initial state. */
  const Idle := DetectorState(None, 0, None)

  /** The state after one sample and the letter typed on it, if any. */
  datatype Outcome = Outcome(state: DetectorState, typed: Option<string>)

  /** Reading `predictions[0].probability` of an empty list throws. */
  datatype Error = EmptyPredictions

  /** A sample of the trace: the classifier's output and the clock reading for it. */
  datatype Tick = Tick(sample: Sample, now: int)

  /**
    The anchor test is `!this.detectionStartTime`, so a timestamp of 0 reads as unset
    just as `null` does.
  */
  predicate Unset(anchor: Option<int>) {
    anchor.None? || anchor.value == 0
  }

  /** The anchor a same-letter sample at `now` measures from once the count is reached. */
  function AnchorAt(anchor: Option<int>, now: int): int {
    if Unset(anchor) then now else anchor.value
  }

  /**
    The state invariant: no letter exactly when the count is 0, and an anchor only once
    the count has reached the required number.
  */
  ghost predicate Valid(s: DetectorState, required: nat) {
    && (s.lastDetection.None? <==> s.stableCount == 0)
    && (s.startTime.Some? ==> s.stableCount >= required)
  }

  /** `handleStableDetection`: a sample whose top entry `letter` met the threshold. */
  function HandleStableDetection(s: DetectorState, letter: string, now: int, cfg: Settings): (r: Outcome)
    // A different letter starts a new streak of one and never types.
    ensures s.lastDetection != Some(letter) ==> r == Outcome(DetectorState(Some(letter), 1, None), None)
    // The same letter adds exactly one to the count unless it types.
    ensures s.lastDetection == Some(letter) && r.typed.None? ==>
              r.state.lastDetection == s.lastDetection && r.state.stableCount == s.stableCount + 1
    // A letter is typed exactly when the count reaches the requirement and the delay
    // has elapsed since the anchor; typing resets the state.
    ensures r.typed.Some? <==>
              && s.lastDetection == Some(letter)
              && s.stableCount + 1 >= cfg.required
              && now - AnchorAt(s.startTime, now) >= cfg.delay
    ensures r.typed.Some? ==> r.typed == Some(letter) && r.state == Idle
    // The anchor is set at `now` when the count first reaches the requirement, and a
    // set anchor never moves while the streak lasts.
    ensures s.lastDetection == Some(letter) && s.stableCount + 1 >= cfg.required && r.typed.None? ==>
              r.state.startTime == Some(AnchorAt(s.startTime, now))
    ensures !Unset(s.startTime) && r.typed.None? && r.state.lastDetection == s.lastDetection ==>
              r.state.startTime == s.startTime
    ensures Valid(s, cfg.required) ==> Valid(r.state, cfg.required)
  {
    if s.lastDetection == Some(letter) then
      var count := s.stableCount + 1;
      if count >= cfg.required then
        var anchor := if Unset(s.startTime) then Some(now) else s.startTime;
        if now - anchor.value >= cfg.delay then Outcome(Idle, Some(letter))
        else Outcome(DetectorState(s.lastDetection, count, anchor), None)
      else Outcome(DetectorState(s.lastDetection, count, s.startTime), None)
    else Outcome(DetectorState(Some(letter), 1, None), None)
  }

  /** `processPredictions`: pick the top entry, gate it on the threshold, update. */
  function Step(s: DetectorState, sample: Sample, now: int, cfg: Settings): (r: Result<Outcome, Error>)
    ensures r.Failure? <==> |sample| == 0
    // The gate is inclusive: below the threshold the state resets and nothing is typed.
    ensures |sample| > 0 && Top(sample).probability < cfg.threshold ==> r == Success(Outcome(Idle, None))
    ensures |sample| > 0 && Top(sample).probability >= cfg.threshold ==>
              r == Success(HandleStableDetection(s, Top(sample).className, now, cfg))
    // Whatever is typed is the top class of this sample, and typing resets the state.
    ensures r.Success? && r.value.typed.Some? ==>
              && Top(sample).probability >= cfg.threshold
              && r.value.typed == Some(Top(sample).className)
              && r.value.state == Idle
              && s.stableCount + 1 >= cfg.required
    ensures r.Success? ==> r.value.state.stableCount <= s.stableCount + 1
    ensures r.Success? && Valid(s, cfg.required) ==> Valid(r.value.state, cfg.required)
  {
    if |sample| == 0 then Failure(EmptyPredictions)
    else
      var top := Top(sample);
      if top.probability >= cfg.threshold then Success(HandleStableDetection(s, top.className, now, cfg))
      else Success(Outcome(Idle, None))
  }

  /**
    One tick of the prediction loop: the step, or nothing at all when the step throws,
    because the caller logs the error and leaves the state as it was.
  */
  function Tolerant(s: DetectorState, tick: Tick, cfg: Settings): (r: Outcome)
    ensures |tick.sample| == 0 ==> r == Outcome(s, None)
    ensures |tick.sample| > 0 ==> Step(s, tick.sample, tick.now, cfg) == Success(r)
  {
    match Step(s, tick.sample, tick.now, cfg)
    case Success(o) => o
    case Failure(_) => Outcome(s, None)
  }

  /** The state after a trace and, per tick, the letter typed on it. */
  datatype RunResult = RunResult(final: DetectorState, typed: seq<Option<string>>)

  /** The prediction loop over a trace of ticks with fixed settings. */
  function Run(s: DetectorState, ticks: seq<Tick>, cfg: Settings): (r: RunResult)
    ensures |r.typed| == |ticks|
    ensures Valid(s, cfg.required) ==> Valid(r.final, cfg.required)
    ensures r.final.stableCount <= s.stableCount + |ticks|
    decreases |ticks|
  {
    if |ticks| == 0 then RunResult(s, [])
    else
      var first := Tolerant(s, ticks[0], cfg);
      var rest := Run(first.state, ticks[1..], cfg);
      RunResult(rest.final, [first.typed] + rest.typed)
  }
}
