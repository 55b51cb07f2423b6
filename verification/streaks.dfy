/**
  Properties of the detector over traces of ticks: splitting a trace, the count bound
  that keeps commits apart (the cooldown), and the exact commit schedule of a held letter.
*/
module Streaks {
  import opened Optional
  import opened Predictions
  import opened Detector

  /** A trace whose first tick types nothing and moves to `mid`, and whose remainder runs quietly from `mid` to `last`. */
  lemma RunThroughQuietFirst(s: DetectorState, mid: DetectorState, last: DetectorState, ticks: seq<Tick>, cfg: Settings)
    requires |ticks| > 0 && Tolerant(s, ticks[0], cfg) == Outcome(mid, None)
    requires Run(mid, ticks[1..], cfg).final == last
    requires forall k :: 0 <= k < |ticks| - 1 ==> Run(mid, ticks[1..], cfg).typed[k] == None
    ensures Run(s, ticks, cfg).final == last
    ensures forall k :: 0 <= k < |ticks| ==> Run(s, ticks, cfg).typed[k] == None
  {
    var rest := Run(mid, ticks[1..], cfg);
    assert Run(s, ticks, cfg).typed == [None] + rest.typed;
  }

  /** Running a trace in two parts is running it whole. */
  lemma {:induction false} RunAppend(s: DetectorState, a: seq<Tick>, b: seq<Tick>, cfg: Settings)
    ensures Run(s, a + b, cfg) ==
              RunResult(Run(Run(s, a, cfg).final, b, cfg).final,
                        Run(s, a, cfg).typed + Run(Run(s, a, cfg).final, b, cfg).typed)
    decreases |a|
  {
    if |a| == 0 {
      assert a + b == b;
    } else {
      assert (a + b)[0] == a[0];
      assert (a + b)[1..] == a[1..] + b;
      RunAppend(Tolerant(s, a[0], cfg).state, a[1..], b, cfg);
    }
  }

  /**
    While the count cannot reach the requirement, nothing is typed, however much time
    passes between the ticks.
  */
  lemma {:induction false} NothingTypedBelowRequired(s: DetectorState, ticks: seq<Tick>, cfg: Settings)
    requires s.stableCount + |ticks| < cfg.required
    ensures forall i :: 0 <= i < |ticks| ==> Run(s, ticks, cfg).typed[i] == None
    decreases |ticks|
  {
    if |ticks| > 0 {
      var first := Tolerant(s, ticks[0], cfg);
      NothingTypedBelowRequired(first.state, ticks[1..], cfg);
    }
  }

  /** The tick that types a letter leaves the detector idle. */
  lemma {:induction false} TypingResets(s: DetectorState, ticks: seq<Tick>, cfg: Settings, i: nat)
    requires i < |ticks| && Run(s, ticks, cfg).typed[i].Some?
    ensures Run(s, ticks[..i + 1], cfg).final == Idle
    ensures Run(s, ticks[..i + 1], cfg).typed[i] == Run(s, ticks, cfg).typed[i]
    decreases i
  {
    var first := Tolerant(s, ticks[0], cfg);
    if i == 0 {
      assert ticks[..1][1..] == [];
    } else {
      assert ticks[..i + 1][0] == ticks[0];
      assert ticks[..i + 1][1..] == ticks[1..][..i];
      TypingResets(first.state, ticks[1..], cfg, i - 1);
    }
  }

  /**
    The cooldown: after a tick that types a letter, the next `required - 1` ticks type
    nothing, because typing resets the count to 0 and each tick adds at most one to it.
  */
  lemma {:induction false} Cooldown(s: DetectorState, ticks: seq<Tick>, cfg: Settings, i: nat, j: nat)
    requires i < j < |ticks| && j - i < cfg.required
    requires Run(s, ticks, cfg).typed[i].Some?
    ensures Run(s, ticks, cfg).typed[j] == None
  {
    TypingResets(s, ticks, cfg, i);
    var head := ticks[..i + 1];
    var tail := ticks[i + 1..];
    assert ticks == head + tail;
    RunAppend(s, head, tail, cfg);
    NothingTypedBelowRequired(Idle, tail[..j - i], cfg);
    assert tail == tail[..j - i] + tail[j - i..];
    RunAppend(Idle, tail[..j - i], tail[j - i..], cfg);
  }

  /** The tick's top entry is `letter` and it meets the threshold. */
  predicate Holds(tick: Tick, letter: string, cfg: Settings) {
    && |tick.sample| > 0
    && Top(tick.sample).className == letter
    && Top(tick.sample).probability >= cfg.threshold
  }

  /** Every tick of the trace holds `letter`. */
  predicate HeldThroughout(ticks: seq<Tick>, letter: string, cfg: Settings)
    decreases |ticks|
  {
    |ticks| > 0 ==> Holds(ticks[0], letter, cfg) && HeldThroughout(ticks[1..], letter, cfg)
  }

  lemma {:induction false} HeldThroughoutAll(ticks: seq<Tick>, letter: string, cfg: Settings)
    requires forall k :: 0 <= k < |ticks| ==> Holds(ticks[k], letter, cfg)
    ensures HeldThroughout(ticks, letter, cfg)
    decreases |ticks|
  {
    if |ticks| > 0 {
      assert forall k :: 0 <= k < |ticks| - 1 ==> ticks[1..][k] == ticks[k + 1];
      HeldThroughoutAll(ticks[1..], letter, cfg);
    }
  }

  /** The unanchored state after `count` ticks holding `letter` from idle. */
  function Counting(letter: string, count: nat): DetectorState {
    if count == 0 then Idle else DetectorState(Some(letter), count, None)
  }

  lemma CountingStep(letter: string, count: nat, tick: Tick, cfg: Settings)
    requires count + 1 < cfg.required && Holds(tick, letter, cfg)
    ensures Tolerant(Counting(letter, count), tick, cfg) == Outcome(Counting(letter, count + 1), None)
  {
    var s := Counting(letter, count);
    var o := HandleStableDetection(s, letter, tick.now, cfg);
    assert Step(s, tick.sample, tick.now, cfg) == Success(o);
    if count == 0 {
      assert o == Outcome(DetectorState(Some(letter), 1, None), None);
    } else {
      assert o.typed.None?;
    }
  }

  /** Before the requirement is reached, a held letter only counts ticks. */
  lemma {:induction false} HeldLetterCounts(letter: string, count: nat, ticks: seq<Tick>, cfg: Settings)
    requires count + |ticks| < cfg.required
    requires HeldThroughout(ticks, letter, cfg)
    ensures Run(Counting(letter, count), ticks, cfg).final == Counting(letter, count + |ticks|)
    ensures forall k :: 0 <= k < |ticks| ==> Run(Counting(letter, count), ticks, cfg).typed[k] == None
    decreases |ticks|
  {
    if |ticks| > 0 {
      CountingStep(letter, count, ticks[0], cfg);
      HeldLetterCounts(letter, count + 1, ticks[1..], cfg);
      RunThroughQuietFirst(Counting(letter, count), Counting(letter, count + 1), Counting(letter, count + |ticks|), ticks, cfg);
    }
  }

  lemma WaitingStep(letter: string, count: nat, anchor: int, tick: Tick, cfg: Settings)
    requires anchor != 0 && count >= cfg.required
    requires Holds(tick, letter, cfg) && tick.now - anchor < cfg.delay
    ensures Tolerant(DetectorState(Some(letter), count, Some(anchor)), tick, cfg) ==
              Outcome(DetectorState(Some(letter), count + 1, Some(anchor)), None)
  {
    var s := DetectorState(Some(letter), count, Some(anchor));
    assert Step(s, tick.sample, tick.now, cfg) == Success(HandleStableDetection(s, letter, tick.now, cfg));
  }

  /**
    Every tick of the trace but the last comes less than `delay` after `anchor`, and
    the last comes at least `delay` after it.
  */
  predicate DueOnLast(ticks: seq<Tick>, anchor: int, delay: nat)
    decreases |ticks|
  {
    && |ticks| > 0
    && if |ticks| == 1 then ticks[0].now - anchor >= delay
       else ticks[0].now - anchor < delay && DueOnLast(ticks[1..], anchor, delay)
  }

  lemma {:induction false} HeldThroughoutSplit(a: seq<Tick>, b: seq<Tick>, letter: string, cfg: Settings)
    requires HeldThroughout(a + b, letter, cfg)
    ensures HeldThroughout(a, letter, cfg) && HeldThroughout(b, letter, cfg)
    decreases |a|
  {
    if |a| == 0 {
      assert a + b == b;
    } else {
      assert (a + b)[1..] == a[1..] + b;
      HeldThroughoutSplit(a[1..], b, letter, cfg);
    }
  }

  lemma {:induction false} DueOnLastAll(ticks: seq<Tick>, anchor: int, delay: nat)
    requires |ticks| > 0
    requires forall k :: 0 <= k < |ticks| - 1 ==> ticks[k].now - anchor < delay
    requires ticks[|ticks| - 1].now - anchor >= delay
    ensures DueOnLast(ticks, anchor, delay)
    decreases |ticks|
  {
    if |ticks| > 1 {
      assert forall k :: 0 <= k < |ticks| - 1 ==> ticks[1..][k] == ticks[k + 1];
      DueOnLastAll(ticks[1..], anchor, delay);
    }
  }

  /** The first tick of a trace, then the rest from the state it leaves. */
  lemma RunCons(s: DetectorState, ticks: seq<Tick>, cfg: Settings)
    requires |ticks| > 0
    ensures Run(s, ticks, cfg).final == Run(Tolerant(s, ticks[0], cfg).state, ticks[1..], cfg).final
    ensures Run(s, ticks, cfg).typed ==
              [Tolerant(s, ticks[0], cfg).typed] + Run(Tolerant(s, ticks[0], cfg).state, ticks[1..], cfg).typed
  {
  }

  /** Nothing typed before a last letter stays so with a quiet tick in front. */
  lemma QuietThenLetter(whole: seq<Option<string>>, later: seq<Option<string>>, letter: string)
    requires whole == [None] + later && |later| > 0
    requires forall k :: 0 <= k < |later| - 1 ==> later[k] == None
    requires later[|later| - 1] == Some(letter)
    ensures forall k :: 0 <= k < |whole| - 1 ==> whole[k] == None
    ensures whole[|whole| - 1] == Some(letter)
  {
    forall k | 0 <= k < |whole| - 1
      ensures whole[k] == None
    {
      if k > 0 {
        assert whole[k] == later[k - 1];
      }
    }
  }

  /**
    Once anchored, a held letter keeps counting while the delay has not elapsed and
    types on the first tick at least `delay` after the anchor, which leaves the detector idle.
  */
  lemma {:induction false} HeldLetterWaits(letter: string, count: nat, anchor: int, ticks: seq<Tick>, cfg: Settings)
    requires anchor != 0 && count >= cfg.required && |ticks| > 0
    requires HeldThroughout(ticks, letter, cfg) && DueOnLast(ticks, anchor, cfg.delay)
    ensures Run(DetectorState(Some(letter), count, Some(anchor)), ticks, cfg).final == Idle
    ensures forall k :: 0 <= k < |ticks| - 1 ==>
              Run(DetectorState(Some(letter), count, Some(anchor)), ticks, cfg).typed[k] == None
    ensures Run(DetectorState(Some(letter), count, Some(anchor)), ticks, cfg).typed[|ticks| - 1] == Some(letter)
    decreases |ticks|
  {
    var s := DetectorState(Some(letter), count, Some(anchor));
    RunCons(s, ticks, cfg);
    if |ticks| == 1 {
      CommitStep(letter, count, anchor, ticks[0], cfg);
    } else {
      WaitingStep(letter, count, anchor, ticks[0], cfg);
      var tail := ticks[1..];
      var next := DetectorState(Some(letter), count + 1, Some(anchor));
      HeldLetterWaits(letter, count + 1, anchor, tail, cfg);
      QuietThenLetter(Run(s, ticks, cfg).typed, Run(next, tail, cfg).typed, letter);
    }
  }

  lemma CommitStep(letter: string, count: nat, anchor: int, tick: Tick, cfg: Settings)
    requires anchor != 0 && count >= cfg.required
    requires Holds(tick, letter, cfg) && tick.now - anchor >= cfg.delay
    ensures Tolerant(DetectorState(Some(letter), count, Some(anchor)), tick, cfg) == Outcome(Idle, Some(letter))
  {
    var s := DetectorState(Some(letter), count, Some(anchor));
    assert Step(s, tick.sample, tick.now, cfg) == Success(HandleStableDetection(s, letter, tick.now, cfg));
  }

  /**
    The tick on which a held letter's count reaches `required` sets the anchor to its
    own time, and types at once when the delay is 0.
  */
  lemma AnchoringStep(letter: string, tick: Tick, cfg: Settings)
    requires cfg.required >= 2 && Holds(tick, letter, cfg) && tick.now != 0
    ensures cfg.delay == 0 ==> Tolerant(Counting(letter, cfg.required - 1), tick, cfg) == Outcome(Idle, Some(letter))
    ensures cfg.delay > 0 ==>
              Tolerant(Counting(letter, cfg.required - 1), tick, cfg) ==
              Outcome(DetectorState(Some(letter), cfg.required, Some(tick.now)), None)
  {
    var s := Counting(letter, cfg.required - 1);
    assert Step(s, tick.sample, tick.now, cfg) == Success(HandleStableDetection(s, letter, tick.now, cfg));
  }

  /**
    A letter held from idle types exactly once, on the first tick at least `delay`
    after the tick on which the count reached `required`, and leaves the detector idle.
    The anchoring tick must not read 0, which the source takes for an unset anchor.
  */
  lemma {:induction false} HeldLetterCycle(letter: string, ticks: seq<Tick>, cfg: Settings)
    requires cfg.required >= 2 && |ticks| >= cfg.required
    requires HeldThroughout(ticks, letter, cfg)
    requires ticks[cfg.required - 1].now != 0
    requires forall k :: cfg.required - 1 <= k < |ticks| - 1 ==>
               ticks[k].now - ticks[cfg.required - 1].now < cfg.delay
    requires ticks[|ticks| - 1].now - ticks[cfg.required - 1].now >= cfg.delay
    ensures Run(Idle, ticks, cfg).final == Idle
    ensures forall k :: 0 <= k < |ticks| - 1 ==> Run(Idle, ticks, cfg).typed[k] == None
    ensures Run(Idle, ticks, cfg).typed[|ticks| - 1] == Some(letter)
  {
    var n := |ticks|;
    var req := cfg.required;
    var counting := ticks[..req - 1];
    var rest := ticks[req - 1..];
    assert ticks == counting + rest;
    HeldThroughoutSplit(counting, rest, letter, cfg);
    assert Counting(letter, 0) == Idle;
    HeldLetterCounts(letter, 0, counting, cfg);
    RunAppend(Idle, counting, rest, cfg);
    HeldRest(letter, req - 1, rest, cfg);
  }

  /** The part of `HeldLetterCycle` from the anchoring tick on. */
  lemma {:induction false} HeldRest(letter: string, count: nat, rest: seq<Tick>, cfg: Settings)
    requires count >= 1 && count + 1 == cfg.required && |rest| > 0
    requires HeldThroughout(rest, letter, cfg)
    requires rest[0].now != 0
    requires forall k :: 0 <= k < |rest| - 1 ==> rest[k].now - rest[0].now < cfg.delay
    requires rest[|rest| - 1].now - rest[0].now >= cfg.delay
    ensures Run(Counting(letter, count), rest, cfg).final == Idle
    ensures forall k :: 0 <= k < |rest| - 1 ==> Run(Counting(letter, count), rest, cfg).typed[k] == None
    ensures Run(Counting(letter, count), rest, cfg).typed[|rest| - 1] == Some(letter)
  {
    var before := Counting(letter, count);
    AnchoringStep(letter, rest[0], cfg);
    RunCons(before, rest, cfg);
    if |rest| > 1 {
      var tail := rest[1..];
      var anchored := DetectorState(Some(letter), cfg.required, Some(rest[0].now));
      assert forall k :: 0 <= k < |tail| ==> tail[k] == rest[k + 1];
      DueOnLastAll(tail, rest[0].now, cfg.delay);
      HeldLetterWaits(letter, cfg.required, rest[0].now, tail, cfg);
      QuietThenLetter(Run(before, rest, cfg).typed, Run(anchored, tail, cfg).typed, letter);
    }
  }
}
