/**
 * The count-up animation of a stat counter. Each animation frame computes
 * the progress min(elapsed / 1800, 1), shows floor(eased * target) for an
 * ease-out value `eased`, and requests another frame while the progress is
 * below 1; the last frame shows exactly the target. Elapsed time is a whole
 * number of milliseconds and `eased`, a floating-point computation, is an
 * input of each frame.
 */
module CounterAnimation {

  /** The animation's duration in milliseconds. */
  const Duration: nat := 1800

  /** One animation frame as the page sees it: the number displayed and
      whether another frame is requested. */
  datatype Frame = Frame(shown: int, again: bool)

  /** What one frame receives: the elapsed time and the eased progress. */
  datatype Tick = Tick(elapsed: nat, eased: real)

  /** One call of the frame callback. */
  function StepFrame(target: int, t: Tick): (f: Frame)
    ensures f.again <==> t.elapsed < Duration
    ensures !f.again ==> f.shown == target
  {
    if t.elapsed < Duration then Frame((t.eased * target as real).Floor, true)
    else Frame(target, false)
  }

  /** The frames an animation runs on the given ticks: each one while the one
      before requested it. */
  function Run(target: int, ticks: seq<Tick>): (frames: seq<Frame>)
    ensures |frames| <= |ticks|
    ensures frames == [] <==> ticks == []
    ensures forall i :: 0 <= i < |frames| - 1 ==> frames[i].again
    ensures 0 < |frames| < |ticks| ==> !frames[|frames| - 1].again
    decreases |ticks|
  {
    if ticks == [] then []
    else
      var f := StepFrame(target, ticks[0]);
      if f.again then [f] + Run(target, ticks[1..]) else [f]
  }

  predicate Increasing(ticks: seq<Tick>) {
    forall i, j :: 0 <= i < j < |ticks| ==> ticks[i].elapsed < ticks[j].elapsed
  }

  /**
   * The animation stops at the first frame whose elapsed time reaches the
   * duration, and that frame shows exactly the target; every earlier frame
   * requested the next one.
   */
  lemma {:induction false} RunStopsAtDuration(target: int, ticks: seq<Tick>, k: nat)
    requires k < |ticks| && ticks[k].elapsed >= Duration
    requires forall i :: 0 <= i < k ==> ticks[i].elapsed < Duration
    ensures |Run(target, ticks)| == k + 1
    ensures Run(target, ticks)[k] == Frame(target, false)
    ensures forall i :: 0 <= i < k ==> Run(target, ticks)[i].again
    decreases k
  {
    if k > 0 {
      RunStopsAtDuration(target, ticks[1..], k - 1);
    }
  }

  /** No intermediate frame shows a value outside 0..target, as long as the
      eased progress stays in [0, 1). */
  lemma IntermediateBounded(target: int, t: Tick)
    requires 0 <= target && 0.0 <= t.eased < 1.0
    ensures 0 <= StepFrame(target, t).shown <= target
  {
    var x := t.eased * target as real;
    ProductNonNegative(t.eased, target as real);
    ProductNonNegative(1.0 - t.eased, target as real);
    assert (1.0 - t.eased) * target as real == target as real - x;
  }

  lemma ProductNonNegative(a: real, b: real)
    requires 0.0 <= a && 0.0 <= b
    ensures 0.0 <= a * b
  {
  }

  /** With strictly increasing frame times the animation always ends, on the
      target, after at most Duration + 1 frames. */
  lemma RunTerminates(target: int, ticks: seq<Tick>)
    requires Increasing(ticks) && |ticks| > Duration
    ensures 1 <= |Run(target, ticks)| <= Duration + 1
    ensures Run(target, ticks)[|Run(target, ticks)| - 1] == Frame(target, false)
  {
    ElapsedGrows(ticks, Duration);
    var k := FirstReaching(ticks, Duration, 0);
    RunStopsAtDuration(target, ticks, k);
  }

  /** Frame n comes at least n milliseconds after the start. */
  lemma {:induction false} ElapsedGrows(ticks: seq<Tick>, n: nat)
    requires Increasing(ticks) && n < |ticks|
    ensures ticks[n].elapsed >= n
    decreases n
  {
    if n > 0 {
      ElapsedGrows(ticks, n - 1);
      assert ticks[n - 1].elapsed < ticks[n].elapsed;
    }
  }

  /** The first of the ticks from `i` on whose elapsed time reaches `n`. */
  function FirstReaching(ticks: seq<Tick>, n: nat, i: nat): (k: nat)
    requires i <= n < |ticks| && ticks[n].elapsed >= n
    requires forall j :: 0 <= j < i ==> ticks[j].elapsed < n
    ensures i <= k <= n && ticks[k].elapsed >= n
    ensures forall j :: 0 <= j < k ==> ticks[j].elapsed < n
    decreases n - i
  {
    if ticks[i].elapsed >= n then i else FirstReaching(ticks, n, i + 1)
  }

  /** Frame i runs exactly when every earlier frame requested its successor,
      and then it is the callback's result on tick i. */
  lemma {:induction false} RunAt(target: int, ticks: seq<Tick>, i: nat)
    requires i < |ticks|
    ensures |Run(target, ticks)| <= |ticks|
    ensures i < |Run(target, ticks)| <==> forall j :: 0 <= j < i ==> StepFrame(target, ticks[j]).again
    ensures i < |Run(target, ticks)| ==> Run(target, ticks)[i] == StepFrame(target, ticks[i])
    decreases |ticks|
  {
    var f := StepFrame(target, ticks[0]);
    if i == 0 {
      if f.again && |ticks| > 1 {
        RunAt(target, ticks[1..], 0);
      }
    } else {
      RunAt(target, ticks[1..], i - 1);
      forall j | 0 <= j < i - 1
        ensures ticks[1..][j] == ticks[j + 1]
      {
      }
    }
  }

  /** A counter's display while its animation runs. */
  class Counter {
    /** parseInt of the element's data-target attribute. */
    const target: int
    /** The element's text, as a number. */
    var text: int
    /** A frame has been requested and not yet run. */
    var frameRequested: bool

    /** animateCounter: remember the target and request the first frame. */
    constructor (target: int, text: int)
      ensures this.target == target && this.text == text && frameRequested
    {
      this.target := target;
      this.text := text;
      frameRequested := true;
    }

    /** The frame callback. */
    method Step(t: Tick)
      requires frameRequested
      modifies this
      ensures text == StepFrame(target, t).shown
      ensures frameRequested == StepFrame(target, t).again
    {
      var progress := if t.elapsed < Duration then t.elapsed as real / Duration as real else 1.0;
      var eased := if progress == 1.0 then 1.0 else t.eased;
      text := (eased * target as real).Floor;
      if progress < 1.0 {
        frameRequested := true;
      } else {
        text := target;
        frameRequested := false;
      }
    }

    /** The browser running the requested frames on the given ticks until no
        further frame is requested or the ticks run out. */
    method Animate(ticks: seq<Tick>) returns (frames: nat)
      requires frameRequested
      modifies this
      ensures frames == |Run(target, ticks)|
      ensures frames > 0 ==> text == Run(target, ticks)[frames - 1].shown
      ensures frames == 0 ==> text == old(text)
      ensures frameRequested == (frames == |ticks|
                                 && (frames == 0 || Run(target, ticks)[frames - 1].again))
    {
      frames := 0;
      ghost var run := Run(target, ticks);
      if ticks != [] {
        RunAt(target, ticks, 0);
      }
      while frames < |ticks| && frameRequested
        invariant frames <= |run| <= |ticks|
        invariant frames > 0 ==> text == run[frames - 1].shown && frameRequested == run[frames - 1].again
        invariant frames == 0 ==> frameRequested && text == old(text)
        decreases |ticks| - frames
      {
        RunAt(target, ticks, frames);
        if frames > 0 {
          RunAt(target, ticks, frames - 1);
        }
        Step(ticks[frames]);
        frames := frames + 1;
      }
      if frames < |ticks| {
        RunAt(target, ticks, frames);
        if frames > 0 {
          RunAt(target, ticks, frames - 1);
        }
      }
    }
  }
}
