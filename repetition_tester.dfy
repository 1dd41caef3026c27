/** The repetition tester: it runs a piece of work again and again until a
    deadline, and keeps the fastest trial, the slowest trial and the running
    total. The clock and the page-fault counter are read by the caller and
    passed in. */
module RepetitionTester {
  import opened Results
  import opened Int64

  /** What one trial, or a fold of several, measured. */
  datatype Metrics = Metrics(pagefaults: int, bytesProcessed: int, timeElapsed: int, trialCount: nat)

  /** `Metrics::default()`. */
  const Zero := Metrics(0, 0, 0, 0)

  /** The starting minimum: every count at `i64::MAX`, so the first trial
      replaces it. */
  const InitialMin := Metrics(I64_MAX, I64_MAX, I64_MAX, 0)

  datatype TestResults = TestResults(min: Metrics, max: Metrics, total: Metrics)

  /** `TestResults::new`. */
  function NewResults(): (r: TestResults)
    ensures r.min.timeElapsed == I64_MAX && r.min.bytesProcessed == I64_MAX && r.min.pagefaults == I64_MAX
    ensures r.max == Zero && r.total == Zero
  {
    TestResults(InitialMin, Zero, Zero)
  }

  datatype TesterState = NotStarted | TrialCompleted | Testing

  /** Folding one finished trial into the results: it is added to the
      total, and replaces the maximum or the minimum only when it is
      strictly slower or strictly faster. */
  function Fold(res: TestResults, curr: Metrics): TestResults
  {
    var total := res.total.(
      bytesProcessed := res.total.bytesProcessed + curr.bytesProcessed,
      timeElapsed := res.total.timeElapsed + curr.timeElapsed,
      pagefaults := res.total.pagefaults + curr.pagefaults);
    var max := if curr.timeElapsed > res.max.timeElapsed then curr else res.max;
    var min := if curr.timeElapsed < res.min.timeElapsed then curr else res.min;
    TestResults(min, max, total)
  }

  function SumTime(ms: seq<Metrics>): int
  {
    if |ms| == 0 then 0 else SumTime(ms[..|ms| - 1]) + ms[|ms| - 1].timeElapsed
  }

  function SumBytes(ms: seq<Metrics>): int
  {
    if |ms| == 0 then 0 else SumBytes(ms[..|ms| - 1]) + ms[|ms| - 1].bytesProcessed
  }

  function SumFaults(ms: seq<Metrics>): int
  {
    if |ms| == 0 then 0 else SumFaults(ms[..|ms| - 1]) + ms[|ms| - 1].pagefaults
  }

  /** `m` is trial `i`, the first of the trials with the smallest time. */
  predicate FastestAt(m: Metrics, trials: seq<Metrics>, i: int)
  {
    0 <= i < |trials| && trials[i] == m
    && (forall k :: 0 <= k < i ==> trials[k].timeElapsed > m.timeElapsed)
    && (forall k :: 0 <= k < |trials| ==> trials[k].timeElapsed >= m.timeElapsed)
  }

  /** `m` is trial `i`, the first of the trials with the largest time. */
  predicate SlowestAt(m: Metrics, trials: seq<Metrics>, i: int)
  {
    0 <= i < |trials| && trials[i] == m
    && (forall k :: 0 <= k < i ==> trials[k].timeElapsed < m.timeElapsed)
    && (forall k :: 0 <= k < |trials| ==> trials[k].timeElapsed <= m.timeElapsed)
  }

  ghost predicate FirstFastest(m: Metrics, trials: seq<Metrics>)
  {
    exists i :: FastestAt(m, trials, i)
  }

  ghost predicate FirstSlowest(m: Metrics, trials: seq<Metrics>)
  {
    exists i :: SlowestAt(m, trials, i)
  }

  /** What the minimum may be: the first fastest trial, or the starting
      minimum while no trial beat `i64::MAX`. */
  ghost predicate MinOf(min: Metrics, trials: seq<Metrics>)
  {
    FirstFastest(min, trials)
    || (min == InitialMin && forall k :: 0 <= k < |trials| ==> trials[k].timeElapsed >= I64_MAX)
  }

  /** What the maximum may be: the first slowest trial, or zero while no
      trial took a positive time. */
  ghost predicate MaxOf(max: Metrics, trials: seq<Metrics>)
  {
    FirstSlowest(max, trials)
    || (max == Zero && forall k :: 0 <= k < |trials| ==> trials[k].timeElapsed <= 0)
  }

  /** The results describe the trials folded so far: the total adds them
      up, the minimum is the first fastest trial (or the starting minimum
      while no trial beat `i64::MAX`) and the maximum is the first slowest
      trial (or zero while no trial took a positive time). */
  ghost predicate Summarises(res: TestResults, trials: seq<Metrics>)
  {
    && res.total.timeElapsed == SumTime(trials)
    && res.total.bytesProcessed == SumBytes(trials)
    && res.total.pagefaults == SumFaults(trials)
    && MinOf(res.min, trials)
    && MaxOf(res.max, trials)
  }

  /** The fresh results summarise no trials. */
  lemma NewSummarisesNothing()
    ensures Summarises(NewResults(), [])
  {
  }

  /** Folding a trial keeps the results a summary of the trials, the new
      one included. */
  lemma FoldSummarises(res: TestResults, trials: seq<Metrics>, curr: Metrics)
    requires Summarises(res, trials)
    ensures Summarises(Fold(res, curr), trials + [curr])
  {
    var all := trials + [curr];
    assert all[..|all| - 1] == trials;
    var r := Fold(res, curr);
    FoldMin(res.min, trials, curr);
    FoldMax(res.max, trials, curr);
  }

  lemma FoldMin(min: Metrics, trials: seq<Metrics>, curr: Metrics)
    requires MinOf(min, trials)
    ensures MinOf(if curr.timeElapsed < min.timeElapsed then curr else min, trials + [curr])
  {
    var all := trials + [curr];
    assert forall k :: 0 <= k < |trials| ==> all[k] == trials[k];
    var i := if FirstFastest(min, trials) then var j :| FastestAt(min, trials, j); j else -1;
    if curr.timeElapsed < min.timeElapsed {
      assert FastestAt(curr, all, |trials|);
    } else if i >= 0 {
      assert FastestAt(min, all, i);
    }
  }

  lemma FoldMax(max: Metrics, trials: seq<Metrics>, curr: Metrics)
    requires MaxOf(max, trials)
    ensures MaxOf(if curr.timeElapsed > max.timeElapsed then curr else max, trials + [curr])
  {
    var all := trials + [curr];
    assert forall k :: 0 <= k < |trials| ==> all[k] == trials[k];
    var i := if FirstSlowest(max, trials) then var j :| SlowestAt(max, trials, j); j else -1;
    if curr.timeElapsed > max.timeElapsed {
      assert SlowestAt(curr, all, |trials|);
    } else if i >= 0 {
      assert SlowestAt(max, all, i);
    }
  }

  /** A trial that ties the minimum or the maximum replaces neither. */
  lemma TiesKeep(res: TestResults, curr: Metrics)
    ensures curr.timeElapsed == res.min.timeElapsed ==> Fold(res, curr).min == res.min
    ensures curr.timeElapsed == res.max.timeElapsed ==> Fold(res, curr).max == res.max
  {
  }

  /** `start_trial_timer` at clock `now` with `faults` page faults so far. */
  function StartTimer(m: Metrics, now: nat, faults: nat): Metrics
    requires now < TWO_64 && faults < TWO_64
  {
    m.(timeElapsed := m.timeElapsed - AsI64(now), pagefaults := m.pagefaults - AsI64(faults))
  }

  /** `end_trial_timer` at clock `now` with `faults` page faults so far. */
  function EndTimer(m: Metrics, now: nat, faults: nat): Metrics
    requires now < TWO_64 && faults < TWO_64
  {
    m.(timeElapsed := m.timeElapsed + AsI64(now), pagefaults := m.pagefaults + AsI64(faults))
  }

  /** `count_bytes`. */
  function CountBytes(m: Metrics, bytes: nat): Metrics
    requires bytes < TWO_64
  {
    m.(bytesProcessed := m.bytesProcessed + AsI64(bytes))
  }

  /** A timed section from `t1` to `t2` adds the elapsed ticks and the new
      page faults, and nothing else. */
  lemma TimedSection(m: Metrics, t1: nat, f1: nat, t2: nat, f2: nat)
    requires t1 <= I64_MAX && t2 <= I64_MAX && f1 <= I64_MAX && f2 <= I64_MAX
    ensures EndTimer(StartTimer(m, t1, f1), t2, f2)
         == m.(timeElapsed := m.timeElapsed + (t2 - t1), pagefaults := m.pagefaults + (f2 - f1))
  {
  }

  /** Counted bytes add up. */
  lemma CountsAdd(m: Metrics, a: nat, b: nat)
    requires a + b <= I64_MAX
    ensures CountBytes(CountBytes(m, a), b) == CountBytes(m, a + b)
  {
  }

  // ---------------------------------------------------------------------------
  // The average printed for the total

  /** The time per trial as `print_result` computes it, dividing by one more
      than the trial count. */
  function AverageTimeAsWritten(m: Metrics): nat
  {
    AsU64(m.timeElapsed) / (m.trialCount + 1)
  }

  /** The time per trial: the total divided by the number of trials folded
      into it; a single trial's metrics, whose count is zero, are their own
      average. */
  function AverageTime(m: Metrics): nat
  {
    AsU64(m.timeElapsed) / (if m.trialCount == 0 then 1 else m.trialCount)
  }

  /** After one trial of 100 ticks (a total of 100 over a count of one)
      the printed average is 50. */
  lemma AverageAsWrittenHalves(total: Metrics)
    requires total.timeElapsed == 100 && total.trialCount == 1
    ensures AverageTimeAsWritten(total) == 50
    ensures AverageTime(total) == 100
  {
  }

  /** For the minimum and the maximum, which are single trials, the two
      agree. */
  lemma AverageOfOneTrial(m: Metrics)
    requires m.trialCount == 0
    ensures AverageTime(m) == AverageTimeAsWritten(m) == AsU64(m.timeElapsed)
  {
  }

  /** The tester. The ghost `trials` lists every trial folded so far. */
  class RepetitionTester {
    var endTime: nat
    var expectedBytes: nat
    var curr: Metrics
    var results: TestResults
    var state: TesterState
    ghost var trials: seq<Metrics>

    /** `total.trial_count` counts the trials begun: those folded, plus the
        one running. */
    ghost predicate Valid()
      reads this
    {
      && Summarises(results, trials)
      && results.total.trialCount == |trials| + (if state == Testing then 1 else 0)
      && (state == NotStarted ==> trials == [] && curr == Zero)
    }

    /** `RepetitionTester::new` at clock `now`, for a test of `ticks` clock
        ticks expected to process `expected` bytes per trial. */
    constructor(now: nat, ticks: nat, expected: nat)
      ensures Valid()
      ensures endTime == now + ticks && expectedBytes == expected
      ensures curr == Zero && results == NewResults() && state == NotStarted && trials == []
    {
      endTime := now + ticks;
      expectedBytes := expected;
      curr := Zero;
      results := NewResults();
      state := NotStarted;
      trials := [];
      NewSummarisesNothing();
    }

    /** `run_new_trial` at clock `now`: fold the trial just run, then either
        stop (the deadline has passed) or begin another trial. */
    method RunNewTrial(now: nat) returns (r: Result<bool>)
      requires Valid()
      modifies this
      ensures r.Ok? ==> Valid()
      ensures endTime == old(endTime) && expectedBytes == old(expectedBytes)
      ensures trials == if old(state) == Testing then old(trials) + [old(curr)] else old(trials)
      ensures results.min == (if old(state) == Testing then Fold(old(results), old(curr)) else old(results)).min
      ensures results.max == (if old(state) == Testing then Fold(old(results), old(curr)) else old(results)).max
      ensures r.Panic? <==> now >= endTime && expectedBytes != AsU64(old(curr).bytesProcessed)
      ensures r == Ok(false) <==> now >= endTime && expectedBytes == AsU64(old(curr).bytesProcessed)
      ensures r == Ok(false) ==> state == TrialCompleted && curr == old(curr) && results.total.trialCount == |trials|
      ensures r == Ok(true) ==> state == Testing && curr == Zero && results.total.trialCount == |trials| + 1
    {
      if state == Testing {
        FoldSummarises(results, trials, curr);
        results := Fold(results, curr);
        trials := trials + [curr];
      }
      if now >= endTime {
        if expectedBytes != AsU64(curr.bytesProcessed) {
          return Panic("Trial finished with different number of bytes read");
        }
        state := TrialCompleted;
        return Ok(false);
      }
      results := results.(total := results.total.(trialCount := results.total.trialCount + 1));
      curr := Zero;
      state := Testing;
      r := Ok(true);
    }

    /** `start_trial_timer` at clock `now` with `faults` page faults so far. */
    method StartTrialTimer(now: nat, faults: nat)
      requires now < TWO_64 && faults < TWO_64
      modifies this
      ensures curr == StartTimer(old(curr), now, faults)
      ensures results == old(results) && state == old(state) && trials == old(trials)
      ensures endTime == old(endTime) && expectedBytes == old(expectedBytes)
    {
      curr := curr.(timeElapsed := curr.timeElapsed - AsI64(now));
      curr := curr.(pagefaults := curr.pagefaults - AsI64(faults));
    }

    /** `end_trial_timer` at clock `now` with `faults` page faults so far. */
    method EndTrialTimer(now: nat, faults: nat)
      requires now < TWO_64 && faults < TWO_64
      modifies this
      ensures curr == EndTimer(old(curr), now, faults)
      ensures results == old(results) && state == old(state) && trials == old(trials)
      ensures endTime == old(endTime) && expectedBytes == old(expectedBytes)
    {
      curr := curr.(timeElapsed := curr.timeElapsed + AsI64(now));
      curr := curr.(pagefaults := curr.pagefaults + AsI64(faults));
    }

    /** `count_bytes`. */
    method CountTrialBytes(bytes: nat)
      requires bytes < TWO_64
      modifies this
      ensures curr == CountBytes(old(curr), bytes)
      ensures results == old(results) && state == old(state) && trials == old(trials)
      ensures endTime == old(endTime) && expectedBytes == old(expectedBytes)
    {
      curr := curr.(bytesProcessed := curr.bytesProcessed + AsI64(bytes));
    }
  }

  /** Once the tester stops, the corrected average of the total is the mean
      time of the folded trials, while the printed one divides by one more. */
  lemma CompletedAverage(res: TestResults, trials: seq<Metrics>)
    requires Summarises(res, trials) && res.total.trialCount == |trials| && |trials| > 0
    requires 0 <= SumTime(trials) < TWO_64
    ensures AverageTime(res.total) == SumTime(trials) / |trials|
    ensures AverageTimeAsWritten(res.total) == SumTime(trials) / (|trials| + 1)
  {
  }
}
