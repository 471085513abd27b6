/** The earlier score manager of libs/js/frp/detection-manager.js. It evicts before it appends,
    judges the whole buffer against `sampleSize - threshold * sampleSize`, keeps a second FIFO of
    multiple-face flags and a person-active flag. */
module LegacyDetection {

  import opened Samples

  /** `Array.prototype.shift` as far as the array is concerned: drops the first element, and
      leaves an empty array empty. */
  function Shift<T>(s: seq<T>): (r: seq<T>)
    ensures s == [] ==> r == []
    ensures s != [] ==> [s[0]] + r == s
  {
    if s == [] then [] else s[1..]
  }

  /** A sample size of 0 still leaves the one score just pushed: the bound `addScore` keeps. */
  function ScoreCapacity(sampleSize: nat): (c: nat)
    ensures c >= 1 && c >= sampleSize
    ensures sampleSize >= 1 ==> c == sampleSize
  {
    if sampleSize == 0 then 1 else sampleSize
  }

  class DetectionScoreManager {
    const sampleSize: nat
    const threshold: real

    var scores: seq<real>
    var personActive: bool
    var multipleDetections: seq<bool>
    var highestScore: real
    /** `#animation-container`'s `style.display` is not 'none'. */
    var displayVisible: bool

    /** Every score and every multiple-face flag recorded since the last reset. */
    ghost var scoreHistory: seq<real>
    ghost var flagHistory: seq<bool>

    ghost predicate Valid()
      reads this
    {
      && scores == Retained(scoreHistory, ScoreCapacity(sampleSize))
      && multipleDetections == Retained(flagHistory, sampleSize)
    }

    constructor (sampleSize: nat, threshold: real)
      ensures Valid()
      ensures this.sampleSize == sampleSize && this.threshold == threshold
      ensures scores == [] && multipleDetections == [] && highestScore == 0.0 && !personActive
      ensures scoreHistory == [] && flagHistory == []
    {
      this.sampleSize := sampleSize;
      this.threshold := threshold;
      scores := [];
      personActive := false;
      multipleDetections := [];
      highestScore := 0.0;
      displayVisible := false;
      scoreHistory := [];
      flagHistory := [];
    }

    /** Drops the oldest score first whenever the buffer already holds `sampleSize` scores, then
        appends: for `sampleSize >= 1` the buffer never outgrows it and the new score is last. */
    method AddScore(score: real)
      requires Valid()
      modifies this`scores, this`scoreHistory
      ensures Valid()
      ensures scoreHistory == old(scoreHistory) + [score]
      ensures scores == (if |old(scores)| >= sampleSize then Shift(old(scores)) else old(scores)) + [score]
      ensures |scores| <= ScoreCapacity(sampleSize) && scores[|scores| - 1] == score
      ensures sampleSize >= 1 ==> |scores| <= sampleSize
    {
      RetainedPush(scoreHistory, ScoreCapacity(sampleSize), score);
      scoreHistory := scoreHistory + [score];
      if |scores| >= sampleSize {
        scores := Shift(scores);
      }
      scores := scores + [score];
    }

    /** Whether the number of scores below `threshold`, over the whole buffer, is at most
        `sampleSize - threshold * sampleSize`. */
    function EvaluateScores(): (ok: bool)
      reads this
      ensures ok <==> |BadIndices(scores, threshold)| as real <= sampleSize as real - threshold * sampleSize as real
    {
      BadCountIsCardinality(scores, threshold);
      BadCount(scores, threshold) as real <= sampleSize as real - threshold * sampleSize as real
    }

    /** Records whether the frame showed more than one face, keeping at most `sampleSize` flags
        in arrival order, and answers false exactly when that window is full and every flag in
        it is set. */
    method CheckMultipleDetections(count: int) returns (fewEnough: bool)
      requires Valid()
      modifies this`multipleDetections, this`flagHistory
      ensures Valid()
      ensures flagHistory == old(flagHistory) + [count > 1]
      ensures var w := old(multipleDetections) + [count > 1];
              multipleDetections == if |w| > sampleSize then w[1..] else w
      ensures !fewEnough <==>
                |multipleDetections| == sampleSize &&
                forall i :: 0 <= i < |multipleDetections| ==> multipleDetections[i]
    {
      RetainedPush(flagHistory, sampleSize, count > 1);
      flagHistory := flagHistory + [count > 1];
      multipleDetections := multipleDetections + [count > 1];
      if |multipleDetections| > sampleSize {
        multipleDetections := multipleDetections[1..];
      }
      TrueCountAll(multipleDetections);
      fewEnough := TrueCount(multipleDetections) < sampleSize;
    }

    /** Empties both windows, zeroes the highest score and marks no person active. */
    method ResetScores()
      modifies this`scores, this`personActive, this`multipleDetections, this`highestScore,
               this`scoreHistory, this`flagHistory
      ensures Valid()
      ensures scores == [] && multipleDetections == [] && highestScore == 0.0 && !personActive
      ensures scoreHistory == [] && flagHistory == []
    {
      scores := [];
      personActive := false;
      multipleDetections := [];
      highestScore := 0.0;
      scoreHistory := [];
      flagHistory := [];
    }

    method ActivatePersonDetection()
      modifies this`personActive
      ensures personActive
    {
      personActive := true;
    }

    /** Marks no person active and hides the countdown display. */
    method DeactivatePersonDetection()
      modifies this`personActive, this`displayVisible
      ensures !personActive && !displayVisible
    {
      personActive := false;
      displayVisible := false;
    }

    /** Raises the highest score to `score` if that is larger; it never goes down. */
    method UpdateHighestScore(score: real)
      modifies this`highestScore
      ensures highestScore == Max(old(highestScore), score)
      ensures highestScore >= old(highestScore)
    {
      if score > highestScore {
        highestScore := score;
      }
    }

    function GetHighestScore(): real
      reads this
    {
      highestScore
    }

    function IsPersonActive(): bool
      reads this
    {
      personActive
    }
  }
}
