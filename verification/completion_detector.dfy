/**
  `GeminiChat.wait_for_response`: polls the length of the page's body text
  every two time units until the length has been seen unchanged three times in
  a row, or until the timeout has elapsed. The clock is a counter advanced by
  each two-unit sleep; the body-text reads are an injected stream of samples,
  `None` standing for a read that raised.
 */
module CompletionDetector {
  import opened Wrappers

  /** The time units slept after every poll, and once more after stability is seen. */
  const PollInterval: nat := 2

  /** How many unchanged samples count as a finished answer. */
  const StableThreshold: nat := 3

  /** The timeout `ask` passes (the parameter's default). */
  const DefaultTimeout: int := 60

  /** The detector's memory between polls: the last length seen and how often it has repeated since. */
  datatype PollState = PollState(lastLength: nat, stableCount: nat)

  /** One poll: an equal length counts once more, a new length is recorded and resets the count, a failed read changes nothing. */
  function Step(s: PollState, sample: Option<nat>): (r: PollState)
    ensures sample.None? ==> r == s
    ensures sample.Some? ==> r.lastLength == sample.value
    ensures r.stableCount <= s.stableCount + 1
    ensures r.stableCount > 0 ==> r.lastLength == s.lastLength
    ensures r.stableCount > s.stableCount ==> sample == Some(s.lastLength)
    ensures sample == Some(s.lastLength) ==> r == PollState(s.lastLength, s.stableCount + 1)
    ensures sample.Some? && sample.value != s.lastLength ==> r == PollState(sample.value, 0)
  {
    match sample
    case None => s
    case Some(n) =>
      if n == s.lastLength then PollState(s.lastLength, s.stableCount + 1)
      else PollState(n, 0)
  }

  /** The state after the first `n` polls, starting from length 0 and count 0. */
  function Run(samples: nat -> Option<nat>, n: nat): PollState
  {
    if n == 0 then PollState(0, 0) else Step(Run(samples, n - 1), samples(n - 1))
  }

  /** Some poll that happens before the timeout finds the answer stable. */
  ghost predicate StabilizesBefore(samples: nat -> Option<nat>, timeout: int)
  {
    exists j: nat :: 1 <= j && PollInterval * (j - 1) < timeout && Run(samples, j).stableCount >= StableThreshold
  }

  /**
    The polling loop. `polls` is the number of body-text reads made and
    `elapsed` the time slept; the result is always `true`, and `byStability`
    says which way the loop ended.
   */
  method WaitForResponse(samples: nat -> Option<nat>, timeout: int)
    returns (done: bool, polls: nat, elapsed: int, byStability: bool)
    ensures done
    ensures elapsed == PollInterval * polls
    ensures byStability <==> StabilizesBefore(samples, timeout)
    ensures byStability ==> 1 <= polls && PollInterval * (polls - 1) < timeout
    ensures byStability ==> Run(samples, polls).stableCount == StableThreshold && polls >= 3
    ensures forall j: nat :: j < polls ==> Run(samples, j).stableCount < StableThreshold
    ensures !byStability ==> elapsed >= timeout && (polls == 0 || PollInterval * (polls - 1) < timeout)
  {
    var lastLength: nat := 0;
    var stableCount: nat := 0;
    elapsed := 0;
    polls := 0;
    while elapsed < timeout
      invariant elapsed == PollInterval * polls
      invariant PollState(lastLength, stableCount) == Run(samples, polls)
      invariant stableCount < StableThreshold
      invariant forall j: nat :: j <= polls ==> Run(samples, j).stableCount < StableThreshold
      invariant polls == 0 || PollInterval * (polls - 1) < timeout
      decreases timeout - elapsed
    {
      var sample := samples(polls);
      polls := polls + 1;
      match sample {
        case None =>
        case Some(currentLength) =>
          if currentLength == lastLength {
            stableCount := stableCount + 1;
            if stableCount >= StableThreshold {
              StabilityNeedsThreeReads(samples, polls);
              elapsed := elapsed + PollInterval;
              return true, polls, elapsed, true;
            }
          } else {
            stableCount := 0;
            lastLength := currentLength;
          }
      }
      elapsed := elapsed + PollInterval;
    }
    byStability := false;
    done := true;
  }

  /** How many of the first `n` reads succeeded with length `len`. */
  function EqualReads(samples: nat -> Option<nat>, n: nat, len: nat): (c: nat)
    ensures c <= n
  {
    if n == 0 then 0
    else EqualReads(samples, n - 1, len) + (if samples(n - 1) == Some(len) then 1 else 0)
  }

  /** The stability count never exceeds the number of successful reads of the recorded length. */
  lemma {:induction false} StableCountNeedsEqualReads(samples: nat -> Option<nat>, n: nat)
    ensures Run(samples, n).stableCount <= EqualReads(samples, n, Run(samples, n).lastLength)
  {
    if n > 0 {
      StableCountNeedsEqualReads(samples, n - 1);
      var before := Run(samples, n - 1);
      var after := Run(samples, n);
      if after.stableCount > 0 {
        assert after.lastLength == before.lastLength;
      }
    }
  }

  /** Returning early takes at least three successful reads of one length, and so at least three polls. */
  lemma StabilityNeedsThreeReads(samples: nat -> Option<nat>, n: nat)
    requires Run(samples, n).stableCount >= StableThreshold
    ensures EqualReads(samples, n, Run(samples, n).lastLength) >= 3
    ensures n >= 3
  {
    StableCountNeedsEqualReads(samples, n);
  }

  /** Four successful reads of one length in a row bring the count to the threshold. */
  lemma {:induction false} FourEqualReadsStabilize(samples: nat -> Option<nat>, m: nat, len: nat)
    requires forall j: nat :: m <= j < m + 4 ==> samples(j) == Some(len)
    ensures Run(samples, m + 4).stableCount >= StableThreshold
  {
    assert Run(samples, m + 1).lastLength == len;
    assert Run(samples, m + 2).stableCount >= 1 && Run(samples, m + 2).lastLength == len;
    assert Run(samples, m + 3).stableCount >= 2 && Run(samples, m + 3).lastLength == len;
  }

  /** An answer that stops changing for four polls that all fit before the timeout ends the wait early. */
  lemma SteadyAnswerEndsEarly(samples: nat -> Option<nat>, timeout: int, m: nat, len: nat)
    requires forall j: nat :: m <= j < m + 4 ==> samples(j) == Some(len)
    requires PollInterval * (m + 3) < timeout
    ensures StabilizesBefore(samples, timeout)
  {
    FourEqualReadsStabilize(samples, m, len);
  }

  /** The length the detector holds after `n` polls of reads that all succeed: the last one read, or 0 before any. */
  function LastRead(samples: nat -> Option<nat>, n: nat): nat
    requires forall j: nat :: samples(j).Some?
  {
    if n == 0 then 0 else samples(n - 1).value
  }

  /**
    Reads that all succeed, starting from a non-zero length and changing
    length at every poll, keep the count at zero: the detector only ever
    records the latest length.
   */
  lemma {:induction false} ChangingAnswerNeverStable(samples: nat -> Option<nat>, n: nat)
    requires forall j: nat :: samples(j).Some?
    requires samples(0) != Some(0)
    requires forall j: nat :: 0 < j ==> samples(j) != samples(j - 1)
    ensures Run(samples, n) == PollState(LastRead(samples, n), 0)
  {
    if n > 0 {
      ChangingAnswerNeverStable(samples, n - 1);
      if n > 1 {
        assert samples(n - 1) != samples(n - 2);
      }
    }
  }

  /** So with an answer whose length changes at every poll the wait runs to the timeout. */
  lemma ChangingAnswerTimesOut(samples: nat -> Option<nat>, timeout: int)
    requires forall j: nat :: samples(j).Some?
    requires samples(0) != Some(0)
    requires forall j: nat :: 0 < j ==> samples(j) != samples(j - 1)
    ensures !StabilizesBefore(samples, timeout)
  {
    forall j: nat ensures Run(samples, j).stableCount == 0 {
      ChangingAnswerNeverStable(samples, j);
    }
  }

  /** An answer that grows by one character at every poll is the simplest such answer. */
  lemma GrowingAnswerTimesOut(samples: nat -> Option<nat>, timeout: int)
    requires forall j: nat :: samples(j) == Some(j + 1)
    ensures !StabilizesBefore(samples, timeout)
  {
    ChangingAnswerTimesOut(samples, timeout);
  }

  /** Reads that all fail leave the detector in its initial state; the wait runs to the timeout. */
  lemma {:induction false} FailedReadsChangeNothing(samples: nat -> Option<nat>, n: nat)
    requires forall j: nat :: samples(j).None?
    ensures Run(samples, n) == PollState(0, 0)
  {
    if n > 0 {
      FailedReadsChangeNothing(samples, n - 1);
    }
  }
}
