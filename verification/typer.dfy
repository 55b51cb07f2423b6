/**
  The whole `ASLTyper` as far as its logic goes: the detector, the two settings that
  the sliders change, and the typed-output buffer that `typeLetter` appends to and
  `clearOutput` empties. Every user or timer action is an event applied in order.
*/
module Typer {
  import opened Optional
  import opened Predictions
  import opened Detector

  datatype Event =
    | Predict(tick: Tick)            // one run of the prediction loop
    | ThresholdInput(threshold: real) // the confidence slider moved
    | DelayInput(delay: nat)          // the delay slider moved, in milliseconds
    | ClearOutput                     // the clear button

  datatype Typer = Typer(detector: DetectorState, settings: Settings, output: string)

  /** The application as the constructor leaves it, with an empty output box. */
  const Initial := Typer(Idle, DefaultSettings, "")

  /** What `typeLetter` appends for a tick: the letter typed, if any. */
  function TypedText(typed: Option<string>): string {
    match typed
    case Some(letter) => letter
    case None => ""
  }

  /** The letters typed over a trace, in order. */
  function TypedTexts(typed: seq<Option<string>>): (r: string)
    ensures (forall k :: 0 <= k < |typed| ==> typed[k] == None) ==> r == ""
  {
    if |typed| == 0 then "" else TypedText(typed[0]) + TypedTexts(typed[1..])
  }

  function Apply(t: Typer, e: Event): (r: Typer)
    // Moving a slider or clearing the output leaves the streak alone.
    ensures !e.Predict? ==> r.detector == t.detector
    ensures e.ThresholdInput? ==> r.settings == t.settings.(threshold := e.threshold) && r.output == t.output
    ensures e.DelayInput? ==> r.settings == t.settings.(delay := e.delay) && r.output == t.output
    ensures e.ClearOutput? ==> r.output == "" && r.settings == t.settings
    // A prediction only ever appends to the output, and only when it resets the detector.
    ensures e.Predict? ==> r.settings == t.settings && t.output <= r.output
    ensures e.Predict? && r.output != t.output ==> r.detector == Idle
    ensures r.settings.required == t.settings.required
    ensures Valid(t.detector, t.settings.required) ==> Valid(r.detector, r.settings.required)
  {
    match e
    case Predict(tick) =>
      var o := Tolerant(t.detector, tick, t.settings);
      Typer(o.state, t.settings, t.output + TypedText(o.typed))
    case ThresholdInput(threshold) => t.(settings := t.settings.(threshold := threshold))
    case DelayInput(delay) => t.(settings := t.settings.(delay := delay))
    case ClearOutput => t.(output := "")
  }

  /** The events applied one after another. */
  function RunEvents(t: Typer, events: seq<Event>): (r: Typer)
    ensures r.settings.required == t.settings.required
    ensures Valid(t.detector, t.settings.required) ==> Valid(r.detector, r.settings.required)
    decreases |events|
  {
    if |events| == 0 then t else RunEvents(Apply(t, events[0]), events[1..])
  }

  /** Without a press of the clear button, the output only grows. */
  lemma {:induction false} OutputAppendOnly(t: Typer, events: seq<Event>)
    requires forall k :: 0 <= k < |events| ==> !events[k].ClearOutput?
    ensures t.output <= RunEvents(t, events).output
    decreases |events|
  {
    if |events| > 0 {
      var tail := events[1..];
      assert forall k :: 0 <= k < |tail| ==> tail[k] == events[k + 1];
      OutputAppendOnly(Apply(t, events[0]), tail);
    }
  }

  /** The trace of prediction-loop runs, one event per tick. */
  function Predicts(ticks: seq<Tick>): (r: seq<Event>)
    ensures |r| == |ticks|
    decreases |ticks|
  {
    if |ticks| == 0 then [] else [Predict(ticks[0])] + Predicts(ticks[1..])
  }

  lemma RunEventsCons(t: Typer, e: Event, rest: seq<Event>)
    ensures RunEvents(t, [e] + rest) == RunEvents(Apply(t, e), rest)
  {
    assert ([e] + rest)[1..] == rest;
  }

  /**
    With the settings untouched, the application runs the detector's trace and its
    output gains exactly the letters the detector typed, in order.
  */
  lemma {:induction false} PredictionsOnlyRunDetector(t: Typer, ticks: seq<Tick>)
    ensures RunEvents(t, Predicts(ticks)) ==
              Typer(Run(t.detector, ticks, t.settings).final, t.settings,
                    t.output + TypedTexts(Run(t.detector, ticks, t.settings).typed))
    decreases |ticks|
  {
    if |ticks| == 0 {
      assert t.output + "" == t.output;
    } else {
      var first := Tolerant(t.detector, ticks[0], t.settings);
      var next := Typer(first.state, t.settings, t.output + TypedText(first.typed));
      RunEventsCons(t, Predict(ticks[0]), Predicts(ticks[1..]));
      PredictionsOnlyRunDetector(next, ticks[1..]);
      var rest := Run(first.state, ticks[1..], t.settings);
      TypedTextsCons(first.typed, rest.typed);
      assert t.output + TypedText(first.typed) + TypedTexts(rest.typed)
          == t.output + (TypedText(first.typed) + TypedTexts(rest.typed));
    }
  }

  lemma TypedTextsCons(first: Option<string>, rest: seq<Option<string>>)
    ensures TypedTexts([first] + rest) == TypedText(first) + TypedTexts(rest)
  {
    assert ([first] + rest)[1..] == rest;
  }
}
