/** The rolling-window face-score manager of libs/js/frp/detection-score-manager.js: a FIFO of
    effective per-frame scores capped at `sampleSize`, a running highest score, a quality query
    that tolerates a bounded number of bad scores in the trailing `recentWindow`, and a one-shot
    countdown whose one-second interval is modelled by an explicit `Tick`. */
module DetectionScore {

  import opened Samples

  /** The countdown element's `textContent`: empty, or the decimal rendering of a number. */
  datatype DisplayText = Blank | Number(n: int)

  /** Everything the countdown touches: the `countdownActive` flag, the interval closure's
      `timeLeft`, and the display element's visibility and text. */
  datatype Countdown = Countdown(active: bool, timeLeft: int, visible: bool, text: DisplayText)

  /** An inactive countdown has its display hidden and empty; an active one is shown. */
  predicate Coherent(c: Countdown)
  {
    if c.active then c.visible else !c.visible && c.text == Blank
  }

  /** `startCountdown(duration)`: only an inactive countdown starts; the display is shown and
      the closure's counter set, but no text is written until the first tick. */
  function Start(c: Countdown, duration: int): (d: Countdown)
    ensures c.active ==> d == c
    ensures !c.active ==> d.active && d.visible && d.timeLeft == duration && d.text == c.text
    ensures Coherent(c) ==> Coherent(d)
  {
    if c.active then c else Countdown(true, duration, true, c.text)
  }

  /** One firing of the one-second interval. With no interval live (inactive) nothing runs.
      Otherwise the current `timeLeft` is written; when it is at most 0 the interval is cleared,
      the display hidden and emptied; in both cases `timeLeft` then drops by one. */
  function Step(c: Countdown): (d: Countdown)
    ensures !c.active ==> d == c
    ensures c.active && c.timeLeft > 0 ==> d == c.(timeLeft := c.timeLeft - 1, text := Number(c.timeLeft))
    ensures c.active && c.timeLeft <= 0 ==> !d.active && !d.visible && d.text == Blank
    ensures Coherent(c) ==> Coherent(d)
  {
    if !c.active then c
    else if c.timeLeft <= 0 then Countdown(false, c.timeLeft - 1, false, Blank)
    else Countdown(true, c.timeLeft - 1, c.visible, Number(c.timeLeft))
  }

  /** `resetCountdown()`: an active countdown is cancelled and its display hidden and emptied;
      an inactive one is left exactly as it is. */
  function Cancel(c: Countdown): (d: Countdown)
    ensures !c.active ==> d == c
    ensures Coherent(c) ==> !d.active && !d.visible && d.text == Blank
  {
    if c.active then Countdown(false, c.timeLeft, false, Blank) else c
  }

  /** `k` successive interval firings. */
  function Steps(c: Countdown, k: nat): (d: Countdown)
    ensures !c.active ==> d == c
    ensures Coherent(c) ==> Coherent(d)
  {
    if k == 0 then c else Step(Steps(c, k - 1))
  }

  /** Started on an inactive countdown with `duration >= 0`, the k-th tick (1 <= k <= duration)
      writes `duration - k + 1` and leaves the countdown running: the display reads duration,
      duration - 1, ..., 1 in turn. */
  lemma {:induction false} CountdownCounts(c: Countdown, duration: int, k: nat)
    requires !c.active && 0 <= duration && k <= duration
    ensures Steps(Start(c, duration), k) ==
            Countdown(true, duration - k, true, if k == 0 then c.text else Number(duration - k + 1))
  {
    if k > 0 {
      CountdownCounts(c, duration, k - 1);
    }
  }

  /** The tick after those, number `duration + 1`, finds `timeLeft == 0` (it writes 0) and ends
      the countdown: inactive, hidden and empty. */
  lemma CountdownEnds(c: Countdown, duration: int)
    requires !c.active && 0 <= duration
    ensures var d := Steps(Start(c, duration), duration + 1); !d.active && !d.visible && d.text == Blank
  {
    CountdownCounts(c, duration, duration);
  }

  /** A negative duration ends on the first tick. */
  lemma CountdownEndsAtOnce(c: Countdown, duration: int)
    requires !c.active && duration < 0
    ensures var d := Steps(Start(c, duration), 1); !d.active && !d.visible && d.text == Blank
  {
  }

  /** Once ended, further ticks change nothing: the interval was cleared. */
  lemma {:induction false} EndedStaysEnded(c: Countdown, k: nat)
    requires !c.active
    ensures Steps(c, k) == c
  {
    if k > 0 {
      EndedStaysEnded(c, k - 1);
    }
  }

  /** The effective score stored for one frame: the raw score when the frame had exactly one
      face and a positive score, 0 otherwise. */
  function EffectiveScore(score: real, isMultiple: bool): (e: real)
    ensures e >= 0.0
    ensures e > 0.0 <==> !isMultiple && score > 0.0
    ensures e > 0.0 ==> e == score
  {
    if !isMultiple && score > 0.0 then score else 0.0
  }

  /** `scores.slice(-w)`: the last `w` entries, or all of them when there are fewer; since
      `-0` is `0`, a window of 0 also takes the whole buffer. */
  function RecentWindow(s: seq<real>, w: nat): (r: seq<real>)
    ensures |r| == if w == 0 || w > |s| then |s| else w
    ensures r == s[|s| - |r|..]
  {
    if w == 0 || w >= |s| then s else s[|s| - w..]
  }

  /** With threshold 0.7 and a window of 5, three low scores are three bad ones and two are
      two: a tolerance of 2 rejects the first buffer and accepts the second. */
  lemma EvaluatorExample()
    ensures |BadIndices(RecentWindow([0.9, 0.9, 0.5, 0.5, 0.5], 5), 0.7)| == 3
    ensures |BadIndices(RecentWindow([0.9, 0.9, 0.9, 0.5, 0.5], 5), 0.7)| == 2
  {
    var s1: seq<real> := [0.9, 0.9, 0.5, 0.5, 0.5];
    var s2: seq<real> := [0.9, 0.9, 0.9, 0.5, 0.5];
    assert RecentWindow(s1, 5) == s1 && RecentWindow(s2, 5) == s2;
    assert BadIndices(s1, 0.7) == {2, 3, 4};
    assert BadIndices(s2, 0.7) == {3, 4};
  }

  /** One `addDetection` on the abstract state: the buffer stays the retained suffix of the
      history, and the running maximum stays the maximum of the history. */
  lemma AddStep(scores: seq<real>, history: seq<real>, high: real, n: nat, e: real)
    requires scores == Retained(history, n) && high == MaxFrom0(history)
    ensures var w := scores + [e]; Retained(history + [e], n) == if |w| > n then w[1..] else w
    ensures MaxFrom0(history + [e]) == Max(high, e)
  {
    RetainedPush(history, n, e);
    MaxFrom0Grows(history, e);
  }

  class DetectionScoreManager {
    const sampleSize: nat
    const threshold: real
    const recentWindow: nat
    const maxBadScoresInWindow: int

    var scores: seq<real>
    var highestScore: real
    var countdownActive: bool
    /** Intervals started by `startCountdown` and not yet cleared (the live `countdownId`s). */
    var liveIntervals: nat
    /** The interval closure's `timeLeft`. */
    var timeLeft: int
    /** `#animation-container`'s `style.display` is 'block' and its `textContent`. */
    var displayVisible: bool
    var displayText: DisplayText

    /** Every effective score added since the last reset, including evicted ones. */
    ghost var history: seq<real>

    ghost predicate Valid()
      reads this
    {
      && scores == Retained(history, sampleSize)
      && highestScore == MaxFrom0(history)
      && liveIntervals == (if countdownActive then 1 else 0)
      && Coherent(CountdownState())
    }

    function CountdownState(): Countdown
      reads this
    {
      Countdown(countdownActive, timeLeft, displayVisible, displayText)
    }

    constructor (sampleSize: nat, threshold: real, recentWindow: nat, maxBadScoresInWindow: int)
      ensures Valid()
      ensures this.sampleSize == sampleSize && this.threshold == threshold
      ensures this.recentWindow == recentWindow && this.maxBadScoresInWindow == maxBadScoresInWindow
      ensures scores == [] && highestScore == 0.0 && history == []
      ensures !countdownActive && !displayVisible && displayText == Blank
    {
      this.sampleSize := sampleSize;
      this.threshold := threshold;
      this.recentWindow := recentWindow;
      this.maxBadScoresInWindow := maxBadScoresInWindow;
      scores := [];
      highestScore := 0.0;
      countdownActive := false;
      liveIntervals := 0;
      timeLeft := 0;
      displayVisible := false;
      displayText := Blank;
      history := [];
    }

    /** Appends the frame's effective score, raises the highest score before evicting, then
        drops exactly the oldest entry if the buffer outgrew `sampleSize`. */
    method AddDetection(score: real, isMultiple: bool)
      requires Valid()
      modifies this`scores, this`highestScore, this`history
      ensures Valid()
      ensures history == old(history) + [EffectiveScore(score, isMultiple)]
      ensures var w := old(scores) + [EffectiveScore(score, isMultiple)];
              scores == if |w| > sampleSize then w[1..] else w
      ensures highestScore == Max(old(highestScore), EffectiveScore(score, isMultiple))
      ensures EffectiveScore(score, isMultiple) == 0.0 ==> highestScore == old(highestScore)
      ensures |scores| == if |history| <= sampleSize then |history| else sampleSize
    {
      var effectiveScore := if !isMultiple && score > 0.0 then score else 0.0;
      AddStep(scores, history, highestScore, sampleSize, effectiveScore);
      history := history + [effectiveScore];
      scores := scores + [effectiveScore];
      if effectiveScore > 0.0 {
        UpdateHighestScore(effectiveScore);
      }
      if |scores| > sampleSize {
        scores := scores[1..];
      }
      assert CountdownState() == old(CountdownState());
    }

    /** Whether the trailing window holds at most `maxBadScoresInWindow` scores below
        `threshold`; reads the state and changes nothing. */
    function EvaluateScores(): (ok: bool)
      reads this
      ensures ok <==> |BadIndices(RecentWindow(scores, recentWindow), threshold)| <= maxBadScoresInWindow
    {
      var recent := RecentWindow(scores, recentWindow);
      BadCountIsCardinality(recent, threshold);
      BadCount(recent, threshold) <= maxBadScoresInWindow
    }

    /** Empties the buffer, zeroes the highest score and cancels any countdown. */
    method ResetAll()
      requires liveIntervals == (if countdownActive then 1 else 0)
      requires Coherent(CountdownState())
      modifies this
      ensures Valid()
      ensures scores == [] && highestScore == 0.0 && history == []
      ensures !countdownActive && !displayVisible && displayText == Blank && liveIntervals == 0
      ensures CountdownState() == Cancel(old(CountdownState()))
    {
      scores := [];
      highestScore := 0.0;
      history := [];
      ResetCountdown();
    }

    /** Raises the highest score to `score` if that is larger. */
    method UpdateHighestScore(score: real)
      modifies this`highestScore
      ensures highestScore == Max(old(highestScore), score)
      ensures highestScore >= old(highestScore)
    {
      if score > highestScore {
        highestScore := score;
      }
    }

    /** The highest effective score since the last reset: at least 0, at least every sample
        seen (evicted ones included), and either 0 or one of those samples. */
    function GetHighestScore(): (h: real)
      reads this
      requires Valid()
      ensures h >= 0.0
      ensures forall i :: 0 <= i < |history| ==> history[i] <= h
      ensures forall i :: 0 <= i < |scores| ==> scores[i] <= h
      ensures h == 0.0 || h in history
    {
      MaxFrom0IsMaximum(history);
      highestScore
    }

    /** True exactly when the buffer is full; it can never hold more than `sampleSize`. */
    function HasEnoughSamples(): (r: bool)
      reads this
      requires Valid()
      ensures r <==> |scores| == sampleSize
      ensures r <==> |history| >= sampleSize
    {
      |scores| >= sampleSize
    }

    /** Starts the one-second countdown unless one is already running; a second call while
        active changes nothing and starts no second interval. */
    method StartCountdown(duration: int)
      requires Valid()
      modifies this
      ensures Valid()
      ensures CountdownState() == Start(old(CountdownState()), duration)
      ensures liveIntervals == 1
      ensures scores == old(scores) && highestScore == old(highestScore) && history == old(history)
    {
      if !countdownActive {
        displayVisible := true;
        timeLeft := duration;
        liveIntervals := liveIntervals + 1;
        countdownActive := true;
      }
    }

    /** One firing of the countdown's interval, if one is live. */
    method Tick()
      requires Valid()
      modifies this
      ensures Valid()
      ensures CountdownState() == Step(old(CountdownState()))
      ensures scores == old(scores) && highestScore == old(highestScore) && history == old(history)
    {
      if countdownActive {
        displayText := Number(timeLeft);
        if timeLeft <= 0 {
          liveIntervals := liveIntervals - 1;
          countdownActive := false;
          displayVisible := false;
          displayText := Blank;
        }
        timeLeft := timeLeft - 1;
      }
    }

    /** Cancels an active countdown, hiding and emptying `#animation-container`. */
    method ResetCountdown()
      requires liveIntervals == (if countdownActive then 1 else 0)
      requires Coherent(CountdownState())
      modifies this
      ensures CountdownState() == Cancel(old(CountdownState()))
      ensures liveIntervals == 0
      ensures scores == old(scores) && highestScore == old(highestScore) && history == old(history)
    {
      if countdownActive {
        liveIntervals := liveIntervals - 1;
        countdownActive := false;
        displayVisible := false;
        displayText := Blank;
      }
    }
  }
}
