/**
 * The episode loop of the episode printer: reset, then step the environment
 * with the chosen policy's actions until it reports that the episode is done,
 * keeping a step counter and four running totals, and finally averaging the
 * normalized delay over the steps.
 *
 * The environment is not part of this model. Its answers to the successive
 * step calls are given as a trace: element k is what the (k+1)-th step call
 * returned.
 */
module Episode {
  import opened Policies

  /** What one step call returns, reduced to what the loop reads. */
  datatype StepOutcome = StepOutcome(
    observation: Observation,
    reward: real,
    travelTimeReward: real,
    maintenanceReward: real,
    normalizedDelay: real,
    done: bool)

  /** The loop's counter and running totals. */
  datatype EpisodeSummary = EpisodeSummary(
    timestep: nat,
    totalReward: real,
    totalTravelTimeReward: real,
    totalMaintenanceReward: real,
    totalNormalizedDelay: real)

  /** What an episode run leaves behind: the totals, the actions sent at each step and the average delay. */
  datatype EpisodeReport = EpisodeReport(
    summary: EpisodeSummary,
    issued: seq<seq<seq<int>>>,
    averageNormalizedDelay: real)

  /** The four quantities the loop adds up. */
  datatype Quantity = Reward | TravelTimeReward | MaintenanceReward | NormalizedDelay

  /** The environment eventually reports that the episode is done. */
  predicate EventuallyDone(trace: seq<StepOutcome>) {
    exists k :: 0 <= k < |trace| && trace[k].done
  }

  /** Index of the first step that reports the episode done. */
  function FirstDone(trace: seq<StepOutcome>): (r: nat)
    requires EventuallyDone(trace)
    ensures r < |trace| && trace[r].done
    ensures forall k :: 0 <= k < r ==> !trace[k].done
  {
    if trace[0].done then 0
    else
      assert EventuallyDone(trace[1..]) by {
        var k :| 0 <= k < |trace| && trace[k].done;
        assert trace[1..][k - 1] == trace[k];
      }
      1 + FirstDone(trace[1..])
  }

  /** The observation the policy sees before step call k: the reset observation, then each step's result. */
  function ObservationBefore(initial: Observation, trace: seq<StepOutcome>, k: nat): Observation
    requires k <= |trace|
  {
    if k == 0 then initial else trace[k - 1].observation
  }

  /** The counter and totals after the given steps, one step added after another. */
  function Accumulate(steps: seq<StepOutcome>): (s: EpisodeSummary)
    ensures s.timestep == |steps|
  {
    if steps == [] then EpisodeSummary(0, 0.0, 0.0, 0.0, 0.0)
    else
      var before := Accumulate(steps[..|steps| - 1]);
      var last := steps[|steps| - 1];
      EpisodeSummary(
        before.timestep + 1,
        before.totalReward + last.reward,
        before.totalTravelTimeReward + last.travelTimeReward,
        before.totalMaintenanceReward + last.maintenanceReward,
        before.totalNormalizedDelay + last.normalizedDelay)
  }

  function Amount(step: StepOutcome, q: Quantity): real {
    match q
    case Reward => step.reward
    case TravelTimeReward => step.travelTimeReward
    case MaintenanceReward => step.maintenanceReward
    case NormalizedDelay => step.normalizedDelay
  }

  function Total(summary: EpisodeSummary, q: Quantity): real {
    match q
    case Reward => summary.totalReward
    case TravelTimeReward => summary.totalTravelTimeReward
    case MaintenanceReward => summary.totalMaintenanceReward
    case NormalizedDelay => summary.totalNormalizedDelay
  }

  /** The per-step values of one quantity. */
  function Series(steps: seq<StepOutcome>, q: Quantity): seq<real> {
    seq(|steps|, k requires 0 <= k < |steps| => Amount(steps[k], q))
  }

  /** Sum of a sequence, first element first. */
  function Sum(xs: seq<real>): real {
    if xs == [] then 0.0 else xs[0] + Sum(xs[1..])
  }

  lemma {:induction false} SumAppend(xs: seq<real>, x: real)
    ensures Sum(xs + [x]) == Sum(xs) + x
  {
    if xs != [] {
      assert (xs + [x])[1..] == xs[1..] + [x];
      SumAppend(xs[1..], x);
    }
  }

  /** Each running total is exactly the sum of that quantity over the steps taken. */
  lemma {:induction false} AccumulateIsSum(steps: seq<StepOutcome>, q: Quantity)
    ensures Total(Accumulate(steps), q) == Sum(Series(steps, q))
  {
    if steps != [] {
      var n := |steps| - 1;
      AccumulateIsSum(steps[..n], q);
      assert Series(steps, q) == Series(steps[..n], q) + [Amount(steps[n], q)];
      SumAppend(Series(steps[..n], q), Amount(steps[n], q));
    }
  }

  /** Running totals add up over consecutive stretches of steps. */
  lemma {:induction false} AccumulateSplits(a: seq<StepOutcome>, b: seq<StepOutcome>, q: Quantity)
    ensures Total(Accumulate(a + b), q) == Total(Accumulate(a), q) + Total(Accumulate(b), q)
  {
    if b != [] {
      var n := |b| - 1;
      assert (a + b)[..|a + b| - 1] == a + b[..n];
      AccumulateSplits(a, b[..n], q);
    } else {
      assert a + b == a;
    }
  }

  /**
   * The loop: one policy call and one step call per iteration, totals updated
   * from each step's outcome, until a step reports done.
   */
  method Rollout(policy: Policy, initial: Observation, trace: seq<StepOutcome>)
    returns (summary: EpisodeSummary, issued: seq<seq<seq<int>>>)
    requires EventuallyDone(trace)
    ensures summary.timestep == FirstDone(trace) + 1
    ensures summary == Accumulate(trace[..summary.timestep])
    ensures |issued| == summary.timestep
    ensures forall k :: 0 <= k < |issued| ==> issued[k] == PolicyActions(policy, ObservationBefore(initial, trace, k))
  {
    var obs := initial;
    var done := false;
    var timestep: nat := 0;
    var totalReward: real := 0.0;
    var totalTravelTimeReward: real := 0.0;
    var totalMaintenanceReward: real := 0.0;
    var totalNormalizedDelay: real := 0.0;
    issued := [];
    while !done
      invariant timestep <= FirstDone(trace) + 1
      invariant done <==> timestep == FirstDone(trace) + 1
      invariant obs == ObservationBefore(initial, trace, timestep)
      invariant EpisodeSummary(timestep, totalReward, totalTravelTimeReward, totalMaintenanceReward,
                               totalNormalizedDelay) == Accumulate(trace[..timestep])
      invariant |issued| == timestep
      invariant forall k :: 0 <= k < timestep ==> issued[k] == PolicyActions(policy, ObservationBefore(initial, trace, k))
      decreases FirstDone(trace) + 1 - timestep
    {
      timestep := timestep + 1;
      var actions := Act(policy, obs);
      issued := issued + [actions];
      var outcome := trace[timestep - 1];  // the step call's answer to `actions`
      obs, done := outcome.observation, outcome.done;
      totalReward := totalReward + outcome.reward;
      totalTravelTimeReward := totalTravelTimeReward + outcome.travelTimeReward;
      totalMaintenanceReward := totalMaintenanceReward + outcome.maintenanceReward;
      totalNormalizedDelay := totalNormalizedDelay + outcome.normalizedDelay;
      assert trace[..timestep][..timestep - 1] == trace[..timestep - 1];
    }
    summary := EpisodeSummary(timestep, totalReward, totalTravelTimeReward, totalMaintenanceReward,
                              totalNormalizedDelay);
  }

  /**
   * A whole run: resolve the policy by name (an unknown name fails before any
   * step), run the loop, then average the normalized delay over the steps.
   */
  method RunEpisode(policyName: string, initial: Observation, trace: seq<StepOutcome>)
    returns (r: Result<EpisodeReport>)
    requires GetPolicy(policyName).Ok? ==> EventuallyDone(trace)
    ensures GetPolicy(policyName).Err? ==> r == Err(GetPolicy(policyName).message)
    ensures GetPolicy(policyName).Ok? ==> r.Ok?
    ensures r.Ok? ==>
      var report := r.value;
      var steps := trace[..FirstDone(trace) + 1];
      && report.summary == Accumulate(steps)
      && report.summary.timestep >= 1
      && |report.issued| == report.summary.timestep
      && (forall k :: 0 <= k < |report.issued| ==>
            report.issued[k] == PolicyActions(GetPolicy(policyName).value, ObservationBefore(initial, trace, k)))
      && report.averageNormalizedDelay * (report.summary.timestep as real) == Sum(Series(steps, NormalizedDelay))
  {
    var selected := GetPolicy(policyName);
    if selected.Err? {
      return Err(selected.message);
    }
    var summary, issued := Rollout(selected.value, initial, trace);
    var average := summary.totalNormalizedDelay / (summary.timestep as real);
    AccumulateIsSum(trace[..summary.timestep], NormalizedDelay);
    r := Ok(EpisodeReport(summary, issued, average));
  }
}
