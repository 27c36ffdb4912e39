/** The bounded retry loop around the candidate search, as a state machine
    driven by what the environment does around each attempt. */
module Retry {

  /** The attempt budget; with the 500 ms pause between attempts this is
      about 30 seconds. The pause itself is not modelled as time; it only
      matters as the place where cancellation is noticed. */
  const MaxAttempts: nat := 60

  /** What one call of the candidate search gives: a patched path, no match,
      or an exception. */
  datatype AttemptResult = Found(path: string) | NotFound | Threw

  /** The environment around one pass of the loop: whether cancellation is
      seen by the loop condition before the attempt, what the attempt
      returns, and whether cancellation interrupts the delay after it. */
  datatype Observation = Observation(cancelledAtCheck: bool, result: AttemptResult, cancelledInDelay: bool)

  /** `attempts` counts the calls of the candidate search made so far. */
  datatype State =
    | Running(attempts: nat)
    | Succeeded(path: string, attempts: nat)
    | Exhausted(attempts: nat)
    | Cancelled(attempts: nat)
  {
    predicate Terminal()
    {
      !Running?
    }
  }

  /** A pass in which nothing stops the loop. */
  predicate Quiet(o: Observation)
  {
    !o.cancelledAtCheck && !o.result.Found? && !o.cancelledInDelay
  }

  /** One pass of the loop: check the condition, attempt, wait. An exception
      from the attempt is treated like "no match". Cancellation ends the loop
      quietly wherever it is seen; only running out of attempts reaches the
      exhaustion warning. */
  function Step(s: State, o: Observation): State
  {
    match s
    case Running(n) =>
      if n >= MaxAttempts then Exhausted(n)
      else if o.cancelledAtCheck then Cancelled(n)
      else if o.result.Found? then Succeeded(o.result.path, n + 1)
      else if o.cancelledInDelay then Cancelled(n + 1)
      else if n + 1 == MaxAttempts then Exhausted(MaxAttempts)
      else Running(n + 1)
    case _ => s
  }

  /** One pass of the loop exactly as the for-statement is written: the
      condition `i <= maxAttempts && !cancelled` failing for either reason
      falls through to the exhaustion warning; only cancellation inside the
      delay returns quietly. */
  function StepAsWritten(s: State, o: Observation): State
  {
    match s
    case Running(n) =>
      if n >= MaxAttempts || o.cancelledAtCheck then Exhausted(n)
      else if o.result.Found? then Succeeded(o.result.path, n + 1)
      else if o.cancelledInDelay then Cancelled(n + 1)
      else if n + 1 == MaxAttempts then Exhausted(MaxAttempts)
      else Running(n + 1)
    case _ => s
  }

  /** Feeds the observations one by one to `step`. */
  function RunWith(step: (State, Observation) -> State, s: State, script: seq<Observation>): State
    decreases |script|
  {
    if |script| == 0 then s else RunWith(step, step(s, script[0]), script[1..])
  }

  /** The loop started from its first attempt. */
  function Run(script: seq<Observation>): State
  {
    RunWith(Step, Running(0), script)
  }

  /** The loop as the program writes it, started from its first attempt. */
  function RunAsWritten(script: seq<Observation>): State
  {
    RunWith(StepAsWritten, Running(0), script)
  }

  /** Index of the first pass that stops the loop, or `|script|` if none does. */
  function FirstEvent(script: seq<Observation>): (k: nat)
    ensures k <= |script|
    ensures forall j :: 0 <= j < k ==> Quiet(script[j])
    ensures k < |script| ==> !Quiet(script[k])
  {
    if |script| == 0 || !Quiet(script[0]) then 0 else 1 + FirstEvent(script[1..])
  }

  /** Reference outcome read off the script directly: the first pass that
      stops the loop decides, unless the budget runs out first. */
  function Outcome(script: seq<Observation>): State
  {
    var k := FirstEvent(script);
    if k >= MaxAttempts then Exhausted(MaxAttempts)
    else if k == |script| then Running(k)
    else if script[k].cancelledAtCheck then Cancelled(k)
    else if script[k].result.Found? then Succeeded(script[k].result.path, k + 1)
    else Cancelled(k + 1)
  }

  /** A terminal state stays as it is. */
  lemma {:induction false} TerminalAbsorbs(s: State, script: seq<Observation>)
    requires s.Terminal()
    ensures RunWith(Step, s, script) == s
    decreases |script|
  {
    if |script| > 0 {
      TerminalAbsorbs(s, script[1..]);
    }
  }

  /** Quiet passes only advance the attempt counter. */
  lemma {:induction false} QuietPrefix(n: nat, script: seq<Observation>, k: nat)
    requires k <= |script| && n + k < MaxAttempts
    requires forall j :: 0 <= j < k ==> Quiet(script[j])
    ensures RunWith(Step, Running(n), script) == RunWith(Step, Running(n + k), script[k..])
    decreases k
  {
    if k > 0 {
      assert Step(Running(n), script[0]) == Running(n + 1);
      QuietPrefix(n + 1, script[1..], k - 1);
      assert script[1..][k - 1..] == script[k..];
    }
  }

  /** The loop computes the reference outcome, for every script. */
  lemma RunMatchesOutcome(script: seq<Observation>)
    ensures Run(script) == Outcome(script)
  {
    var k := FirstEvent(script);
    if k >= MaxAttempts {
      QuietPrefix(0, script, MaxAttempts - 1);
      var rest := script[MaxAttempts - 1..];
      assert Quiet(rest[0]);
      assert Step(Running(MaxAttempts - 1), rest[0]) == Exhausted(MaxAttempts);
      TerminalAbsorbs(Exhausted(MaxAttempts), rest[1..]);
    } else {
      QuietPrefix(0, script, k);
      if k < |script| {
        var rest := script[k..];
        var t := Step(Running(k), rest[0]);
        assert t == Outcome(script);
        TerminalAbsorbs(t, rest[1..]);
      }
    }
  }

  /** At most `MaxAttempts` searches are made, and a script that covers the
      whole budget always ends the loop. */
  lemma AttemptsBounded(script: seq<Observation>)
    ensures Run(script).attempts <= MaxAttempts
    ensures |script| >= MaxAttempts ==> Run(script).Terminal()
    ensures Run(script).Running? ==> Run(script).attempts == |script|
  {
    RunMatchesOutcome(script);
  }

  /** The loop succeeds with `path` after `n` attempts exactly when the
      `n`-th attempt is the first to find a file and nothing stopped the
      loop before it. */
  lemma SucceedsAtFirstFound(script: seq<Observation>, path: string, n: nat)
    ensures Run(script) == Succeeded(path, n) <==>
      && 1 <= n <= MaxAttempts && n <= |script|
      && (forall j :: 0 <= j < n - 1 ==> Quiet(script[j]))
      && !script[n - 1].cancelledAtCheck
      && script[n - 1].result == Found(path)
  {
    RunMatchesOutcome(script);
    if 1 <= n <= MaxAttempts && n <= |script|
      && (forall j :: 0 <= j < n - 1 ==> Quiet(script[j]))
      && !script[n - 1].cancelledAtCheck && script[n - 1].result == Found(path)
    {
      assert !Quiet(script[n - 1]);
      assert FirstEvent(script) == n - 1;
    }
  }

  /** Cancellation seen before an attempt ends the loop with no further
      search; later observations do not matter. */
  lemma CancelBeforeAttempt(script: seq<Observation>, k: nat)
    requires k < MaxAttempts && k < |script|
    requires forall j :: 0 <= j < k ==> Quiet(script[j])
    requires script[k].cancelledAtCheck
    ensures Run(script) == Cancelled(k)
    ensures Run(script) == Run(script[..k + 1])
  {
    RunMatchesOutcome(script);
    RunMatchesOutcome(script[..k + 1]);
    assert !Quiet(script[k]);
    assert FirstEvent(script) == k;
    assert FirstEvent(script[..k + 1]) == k;
  }

  /** Cancellation during the delay after an unsuccessful attempt ends the
      loop before another search; later observations do not matter. */
  lemma CancelDuringDelay(script: seq<Observation>, k: nat)
    requires k < MaxAttempts && k < |script|
    requires forall j :: 0 <= j < k ==> Quiet(script[j])
    requires !script[k].cancelledAtCheck && !script[k].result.Found?
    requires script[k].cancelledInDelay
    ensures Run(script) == Cancelled(k + 1)
    ensures Run(script) == Run(script[..k + 1])
  {
    RunMatchesOutcome(script);
    RunMatchesOutcome(script[..k + 1]);
    assert !Quiet(script[k]);
    assert FirstEvent(script) == k;
    assert FirstEvent(script[..k + 1]) == k;
  }

  /** An attempt that throws is handled exactly like one that finds nothing:
      the loop goes on. */
  lemma ThrowDoesNotEndLoop(script: seq<Observation>, i: nat)
    requires i < |script| && script[i].result == Threw
    ensures Run(script) == Run(script[i := script[i].(result := NotFound)])
  {
    var other := script[i := script[i].(result := NotFound)];
    RunMatchesOutcome(script);
    RunMatchesOutcome(other);
    assert forall j :: 0 <= j < |script| ==> (Quiet(script[j]) <==> Quiet(other[j]));
    assert FirstEvent(script) == FirstEvent(other);
  }

  /** The exhaustion warning is reached exactly when every one of the
      `MaxAttempts` passes goes by without success or cancellation, and then
      all attempts have been made. */
  lemma ExhaustedOnlyAfterAllAttempts(script: seq<Observation>)
    ensures Run(script).Exhausted? <==>
      |script| >= MaxAttempts && forall j :: 0 <= j < MaxAttempts ==> Quiet(script[j])
    ensures Run(script).Exhausted? ==> Run(script).attempts == MaxAttempts
  {
    RunMatchesOutcome(script);
    if |script| >= MaxAttempts && forall j :: 0 <= j < MaxAttempts ==> Quiet(script[j]) {
      var k := FirstEvent(script);
      if k < MaxAttempts {
        assert !Quiet(script[k]);
      }
    }
  }

  /** As written, cancellation seen by the loop condition before attempt
      `k + 1` (after `k` quiet passes) reports exhaustion after only `k`
      attempts, where the corrected loop reports cancellation. */
  lemma CheckCancelReportsExhaustion(script: seq<Observation>, k: nat)
    requires k < MaxAttempts && k < |script|
    requires forall j :: 0 <= j < k ==> Quiet(script[j])
    requires script[k].cancelledAtCheck
    ensures RunAsWritten(script) == Exhausted(k)
    ensures Run(script) == Cancelled(k)
  {
    AsWrittenQuietPrefix(0, script, k);
    AsWrittenTerminalAbsorbs(Exhausted(k), script[k..][1..]);
    CancelBeforeAttempt(script, k);
  }

  /** Quiet passes only advance the attempt counter of the loop as written. */
  lemma {:induction false} AsWrittenQuietPrefix(n: nat, script: seq<Observation>, k: nat)
    requires k <= |script| && n + k < MaxAttempts
    requires forall j :: 0 <= j < k ==> Quiet(script[j])
    ensures RunWith(StepAsWritten, Running(n), script) == RunWith(StepAsWritten, Running(n + k), script[k..])
    decreases k
  {
    if k > 0 {
      assert StepAsWritten(Running(n), script[0]) == Running(n + 1);
      AsWrittenQuietPrefix(n + 1, script[1..], k - 1);
      assert script[1..][k - 1..] == script[k..];
    }
  }

  /** A terminal state stays as it is in the loop as written too. */
  lemma {:induction false} AsWrittenTerminalAbsorbs(s: State, script: seq<Observation>)
    requires s.Terminal()
    ensures RunWith(StepAsWritten, s, script) == s
    decreases |script|
  {
    if |script| > 0 {
      AsWrittenTerminalAbsorbs(s, script[1..]);
    }
  }

  /** From any state, when the loop condition never sees cancellation, the
      loop as written and the corrected loop agree. */
  lemma {:induction false} AsWrittenAgreesWithoutCheckCancel(s: State, script: seq<Observation>)
    requires forall j :: 0 <= j < |script| ==> !script[j].cancelledAtCheck
    ensures RunWith(StepAsWritten, s, script) == RunWith(Step, s, script)
    decreases |script|
  {
    if |script| > 0 {
      assert StepAsWritten(s, script[0]) == Step(s, script[0]);
      AsWrittenAgreesWithoutCheckCancel(Step(s, script[0]), script[1..]);
    }
  }

  /** The loop as written and the corrected loop end in the same state
      whenever the pass that stops the loop is not a cancellation seen by
      the loop condition. Passes after it, and every pass once the budget
      is spent, may show anything, as they do once a cancelled token stays
      cancelled. */
  lemma AsWrittenAgreesUnlessCheckCancelStops(script: seq<Observation>)
    requires FirstEvent(script) < MaxAttempts && FirstEvent(script) < |script| ==>
      !script[FirstEvent(script)].cancelledAtCheck
    ensures RunAsWritten(script) == Run(script)
  {
    var k := FirstEvent(script);
    if k >= MaxAttempts {
      AgreeAfterBudget(script);
    } else if k < |script| {
      AgreeAtEvent(script, k);
    } else {
      QuietPrefix(0, script, k);
      AsWrittenQuietPrefix(0, script, k);
    }
  }

  /** Both loops run out of attempts when the first 60 passes are quiet. */
  lemma AgreeAfterBudget(script: seq<Observation>)
    requires |script| >= MaxAttempts
    requires forall j :: 0 <= j < MaxAttempts ==> Quiet(script[j])
    ensures RunAsWritten(script) == Run(script) == Exhausted(MaxAttempts)
  {
    QuietPrefix(0, script, MaxAttempts - 1);
    AsWrittenQuietPrefix(0, script, MaxAttempts - 1);
    var rest := script[MaxAttempts - 1..];
    assert Quiet(rest[0]);
    TerminalAbsorbs(Exhausted(MaxAttempts), rest[1..]);
    AsWrittenTerminalAbsorbs(Exhausted(MaxAttempts), rest[1..]);
  }

  /** Both loops stop at pass `k` in the same state when that pass does not
      see cancellation at the loop condition. */
  lemma AgreeAtEvent(script: seq<Observation>, k: nat)
    requires k < MaxAttempts && k < |script|
    requires forall j :: 0 <= j < k ==> Quiet(script[j])
    requires !Quiet(script[k]) && !script[k].cancelledAtCheck
    ensures RunAsWritten(script) == Run(script)
  {
    QuietPrefix(0, script, k);
    AsWrittenQuietPrefix(0, script, k);
    var rest := script[k..];
    var t := Step(Running(k), rest[0]);
    assert StepAsWritten(Running(k), rest[0]) == t;
    TerminalAbsorbs(t, rest[1..]);
    AsWrittenTerminalAbsorbs(t, rest[1..]);
  }

  /** In the program as written, cancellation during the delay after an
      unsuccessful attempt ends the loop before another search, whatever the
      later passes show. */
  lemma AsWrittenCancelDuringDelay(script: seq<Observation>, k: nat)
    requires k < MaxAttempts && k < |script|
    requires forall j :: 0 <= j < k ==> Quiet(script[j])
    requires !script[k].cancelledAtCheck && !script[k].result.Found?
    requires script[k].cancelledInDelay
    ensures RunAsWritten(script) == Cancelled(k + 1)
    ensures RunAsWritten(script) == RunAsWritten(script[..k + 1])
  {
    CancelDuringDelay(script, k);
    assert !Quiet(script[k]);
    assert FirstEvent(script) == k;
    assert FirstEvent(script[..k + 1]) == k;
    AsWrittenAgreesUnlessCheckCancelStops(script);
    AsWrittenAgreesUnlessCheckCancelStops(script[..k + 1]);
  }

  /** The program as written also makes at most `MaxAttempts` searches, on
      every script. */
  lemma AsWrittenAttemptsBounded(script: seq<Observation>)
    ensures RunAsWritten(script).attempts <= MaxAttempts
  {
    var k := FirstEvent(script);
    if k < MaxAttempts && k < |script| && script[k].cancelledAtCheck {
      CheckCancelReportsExhaustion(script, k);
    } else {
      AsWrittenAgreesUnlessCheckCancelStops(script);
      AttemptsBounded(script);
    }
  }
}
