/**
  The worked example of the detector: the letter "A" held at probability 0.9 with a
  sample every 100 ms from t = 0, under the default settings (threshold 0.7, delay
  2000 ms, 10 samples required).
*/
module Scenarios {
  import opened Optional
  import opened Predictions
  import opened Detector
  import opened Streaks
  import opened Typer

  /** A single-entry prediction list is its own top entry. */
  lemma TopOfSingle(p: Prediction)
    ensures Top([p]) == p
  {
    SortHeadIsFirstMax([p]);
    var i :| IsFirstMax([p], i) && [p][i] == Top([p]);
  }

  /** Sixty samples of "A" at 0.9, 100 ms apart, from t = 0 to t = 5900. */
  function HeldA(): (ticks: seq<Tick>)
    ensures |ticks| == 60
    ensures forall k :: 0 <= k < 60 ==> ticks[k] == Tick([Prediction("A", 0.9)], 100 * k)
  {
    seq(60, k => Tick([Prediction("A", 0.9)], 100 * k))
  }

  /** Thirty samples of "A" at 0.9, 100 ms apart, the first at `100 * first`. */
  ghost predicate HeldAFrom(ticks: seq<Tick>, first: nat) {
    && |ticks| == 30
    && forall k :: 0 <= k < 30 ==> ticks[k] == Tick([Prediction("A", 0.9)], 100 * (first + k))
  }

  /** Each run of thirty such samples from idle types one "A", on its last sample. */
  lemma {:induction false} HeldAThirty(ticks: seq<Tick>, first: nat)
    requires HeldAFrom(ticks, first)
    ensures Run(Idle, ticks, DefaultSettings).final == Idle
    ensures forall k :: 0 <= k < 29 ==> Run(Idle, ticks, DefaultSettings).typed[k] == None
    ensures Run(Idle, ticks, DefaultSettings).typed[29] == Some("A")
  {
    var cfg := DefaultSettings;
    TopOfSingle(Prediction("A", 0.9));
    assert forall k :: 0 <= k < |ticks| ==> Holds(ticks[k], "A", cfg);
    HeldThroughoutAll(ticks, "A", cfg);
    assert ticks[9].now == 100 * (first + 9);
    assert ticks[29].now == 100 * (first + 29);
    assert forall k :: 9 <= k < 29 ==> ticks[k].now - ticks[9].now < cfg.delay;
    HeldLetterCycle("A", ticks, cfg);
  }

  /**
    The first "A" is typed at t = 2900, 2000 ms after the tenth sample at t = 900, the
    next only at t = 5900, ten fresh samples later, and nothing else is typed.
  */
  lemma HeldAScenario()
    ensures Run(Idle, HeldA(), DefaultSettings).final == Idle
    ensures forall k :: 0 <= k < 60 ==> (Run(Idle, HeldA(), DefaultSettings).typed[k].Some? <==> k == 29 || k == 59)
    ensures Run(Idle, HeldA(), DefaultSettings).typed[29] == Some("A") && HeldA()[29].now == 2900
    ensures Run(Idle, HeldA(), DefaultSettings).typed[59] == Some("A") && HeldA()[59].now == 5900
  {
    var ticks := HeldA();
    var cfg := DefaultSettings;
    var first := ticks[..30];
    var second := ticks[30..];
    assert ticks == first + second;
    assert HeldAFrom(first, 0);
    assert HeldAFrom(second, 30) by {
      assert forall k :: 0 <= k < 30 ==> second[k] == ticks[30 + k];
    }
    HeldAThirty(first, 0);
    HeldAThirty(second, 30);
    RunAppend(Idle, first, second, cfg);
    var whole := Run(Idle, ticks, cfg);
    assert whole.typed == Run(Idle, first, cfg).typed + Run(Idle, second, cfg).typed;
    forall k | 0 <= k < 60
      ensures whole.typed[k].Some? <==> k == 29 || k == 59
    {
      if k >= 30 {
        assert whole.typed[k] == Run(Idle, second, cfg).typed[k - 30];
      }
    }
    assert whole.typed[59] == Run(Idle, second, cfg).typed[29];
  }

  /** The same sixty samples fed to a freshly constructed application type "AA". */
  lemma HeldATypesTwice()
    ensures RunEvents(Initial, Predicts(HeldA())).output == "AA"
  {
    var ticks := HeldA();
    var run := Run(Idle, ticks, DefaultSettings);
    HeldAScenario();
    PredictionsOnlyRunDetector(Initial, ticks);
    TwoLetters(run.typed);
    assert "" + "AA" == "AA";
  }

  lemma {:induction false} TwoLetters(typed: seq<Option<string>>)
    requires |typed| == 60
    requires forall k :: 0 <= k < 60 ==> (typed[k].Some? <==> k == 29 || k == 59)
    requires typed[29] == Some("A") && typed[59] == Some("A")
    ensures TypedTexts(typed) == "AA"
  {
    var a := typed[..29];
    var b := typed[30..59];
    assert forall k :: 0 <= k < |a| ==> a[k] == typed[k];
    assert forall k :: 0 <= k < |b| ==> b[k] == typed[30 + k];
    assert typed == a + [Some("A")] + b + [Some("A")];
    TypedTextsAppend(a, [Some("A")]);
    TypedTextsAppend(a + [Some("A")], b);
    TypedTextsAppend(a + [Some("A")] + b, [Some("A")]);
    assert TypedTexts([Some("A")]) == "A";
  }

  lemma {:induction false} TypedTextsAppend(a: seq<Option<string>>, b: seq<Option<string>>)
    ensures TypedTexts(a + b) == TypedTexts(a) + TypedTexts(b)
    decreases |a|
  {
    if |a| == 0 {
      assert a + b == b;
    } else {
      assert (a + b)[1..] == a[1..] + b;
      TypedTextsAppend(a[1..], b);
    }
  }
}
