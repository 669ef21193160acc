# Episode printer: maintenance policies and episode loop

This project models the decision and bookkeeping core of the imp-act episode
printer (`imp_act/environments/print_episode.py`), a script that plays one
episode of a road-network maintenance environment and reports its rewards.

Two modules:

- `Policies` (`policies.dfy`): the three reference maintenance policies and
  their selection by name. An observation is modelled by the two fields the
  policies read, `edgeObservations` (per edge, the list of segment
  condition-observation codes) and `timeStep`. A policy answers with one action
  code per segment (0 do nothing, 1 inspect, 2 minor repair, 3 major repair,
  4 reconstruct).
  - `DoNothingPolicy` is a function, like the one-line comprehension it models.
  - `FailReplacePolicy` and `HeuristicPolicy` are methods with the source's nested
    loops that append one action per segment and one list per edge. Each is proved
    equal to `MapSegments(edges, rule)`, a specification function that applies a
    per-segment rule (`FailReplaceAction`, `HeuristicRule(t)`) in the same
    append order.
  - The lemmas about `MapSegments` give shape preservation, the exact
    per-segment decision, the range of emitted codes and locality: a segment's
    action depends only on its own code, and on the time step for the heuristic.
  - `GetPolicy` resolves a name to the `Policy` variant, or to an error carrying
    the message `Unknown policy: <name>`.
- `Episode` (`episode.dfy`): the `while not done` loop of `main`. The
  environment is replaced by a trace of step outcomes; element k is what the
  (k+1)-th step call returned. `Rollout` keeps the source's local counter and
  four running totals. It is proved to stop at the first outcome that reports
  done, to count one step per iteration (so the counter is at least 1), to feed
  the policy the reset observation and then each step's observation, and to
  leave totals equal to `Accumulate` of the steps taken. `AccumulateIsSum`
  proves each total equals the plain sum of that quantity's per-step values.
  `RunEpisode` adds the policy lookup before the loop and the average
  normalized delay after it, which is well defined because at least one step
  was taken.

The heuristic's second test (`elif segment >= 5`, line 34) repeats the first
test (line 32), so its "major repair" outcome (action 3) can never be chosen.
The model keeps that branch as written, both in `HeuristicAction` and in the
loop of `HeuristicPolicy`. The contracts state the rule in effect: code >= 5
gives 4, 2 <= code < 5 gives 2, and code < 2 gives 1 on even time steps and 0
on odd ones. They also state that 3 is never emitted. The threshold the
authors meant for that branch cannot be read from the code, so no corrected
rule is proposed.

The parity test `current_time % 2 == 0` is written with Dafny's `%`. For a
divisor of 2 it agrees with Python's `%` on negative time steps as well.

An unknown policy name raises `ValueError` in the code. The model returns
`Err` with the same message text.

## Model

| member | source | states |
|---|---|---|
| `Policies.FailReplaceAction` | imp_act/environments/print_episode.py:18-21 | a segment gets 3 exactly when its code is at least 3, and 0 exactly when it is below 3 |
| `Policies.HeuristicAction` | imp_act/environments/print_episode.py:32-41 | the branch cascade as written decides code >= 5 -> 4, 2 <= code < 5 -> 2, code < 2 -> 1 on even and 0 on odd time steps; it never yields 3, so the branch at line 34 is dead |
| `Policies.MapSegmentsRealizes` | imp_act/environments/print_episode.py:14-23 | building the actions edge by edge and segment by segment keeps the observation's shape and puts the rule's answer for each segment's own code at that segment |
| `Policies.RealizationIsUnique` | imp_act/environments/print_episode.py:15-22 | a per-segment rule fixes the whole action container: two containers that both apply it to the same observation are equal |
| `Policies.DoNothingPolicy` | imp_act/environments/print_episode.py:9-10 | one list per edge with as many entries as the edge has segments, every entry 0 whatever the codes |
| `Policies.FailReplacePolicy` | imp_act/environments/print_episode.py:13-23 | the nested append loops return exactly the fail-and-replace rule applied at every segment |
| `Policies.HeuristicPolicy` | imp_act/environments/print_episode.py:26-43 | the nested append loops, dead branch included, return exactly the heuristic rule at the observation's time step applied at every segment |
| `Policies.GetPolicy` | imp_act/environments/print_episode.py:45-53 | each of "do_nothing", "fail_replace" and "heuristic" selects its policy and only that name does; every other name fails with "Unknown policy: " followed by the name |
| `Policies.GetPolicyInvertsPolicyName` | imp_act/environments/print_episode.py:45-53 | a name selects a policy if and only if it is that policy's name |
| `Policies.Act` | imp_act/environments/print_episode.py:67 | calling the selected policy yields that policy's actions, which apply its per-segment rule at every segment of the observation |
| `Policies.PolicyFollowsItsRule` | imp_act/environments/print_episode.py:9-43 | every policy keeps the observation's shape and answers each segment with its rule applied to that segment's code (0 for do-nothing) |
| `Policies.PolicyPreservesShape` | imp_act/environments/print_episode.py:9-43 | every policy returns as many edges as the observation, and edge i has as many actions as edge i has segments |
| `Policies.PolicyEmitsOnlyItsCodes` | imp_act/environments/print_episode.py:9-43 | do-nothing emits only 0, fail-and-replace only 0 or 3, the heuristic only 0, 1, 2 or 4; all are valid action codes 0..4 |
| `Policies.FailReplaceDecision` | imp_act/environments/print_episode.py:17-21 | fail-and-replace emits 3 at a segment if and only if its code is at least 3, and 0 if and only if it is below 3 |
| `Policies.HeuristicDecision` | imp_act/environments/print_episode.py:31-41 | the heuristic's action at each segment follows the four effective cases from that segment's code and the time step |
| `Policies.ActionDependsOnlyOnOwnSegment` | imp_act/environments/print_episode.py:15-42 | two observations with the same code at segment (i, j) get the same action there, whatever else differs; the time step must also agree only for the heuristic |
| `Policies.ChangingOneSegmentChangesNoOther` | imp_act/environments/print_episode.py:15-42 | changing one segment's code leaves the shape and every other segment's action unchanged |
| `Episode.FirstDone` | imp_act/environments/print_episode.py:65-68 | the index of the first step outcome reporting done: it reports done and no earlier one does |
| `Episode.Accumulate` | imp_act/environments/print_episode.py:59-73 | the step counter after a run of steps equals the number of steps |
| `Episode.AccumulateIsSum` | imp_act/environments/print_episode.py:69-73 | each running total (reward, travel-time reward, maintenance reward, normalized delay) equals the sum of its per-step values |
| `Episode.AccumulateSplits` | imp_act/environments/print_episode.py:69-73 | running totals over two consecutive stretches of steps add up to the total over both |
| `Episode.Rollout` | imp_act/environments/print_episode.py:58-73 | the loop stops at the first step reporting done, the counter equals the number of step calls, one action list was sent per step and it is the policy's answer to the reset observation or the previous step's observation, and the totals are those of the steps taken |
| `Episode.RunEpisode` | imp_act/environments/print_episode.py:58-113 | an unknown policy name fails before any step; otherwise the counter is at least 1, totals and actions are as in the loop, and the average normalized delay times the counter equals the sum of the per-step delays |

## Left out

- Environment construction by name and its `reset`/`step` dynamics (lines 56-57, 68): external library code. Steps are an arbitrary trace of outcomes, fixed in advance. The model does not capture how the environment's answer depends on the actions sent.
- Episodes that never end: the code loops forever if the environment never reports done. `Rollout` requires that some outcome in the trace reports done, and so does `RunEpisode` once the policy name is known; an unknown name fails before any step, whatever the trace.
- Environment failures during reset or step: they propagate out of the code unchanged and are not modelled.
- Observation fields the policies do not read (`edge_beliefs`, `edge_traffic_utilization`, `remaining_budget`, `remaining_budget_years`) and info fields used only for printing (`total_travel_time`, `states`).
- Utilization statistics with `np.max`, `np.min`, `np.mean` and `np.std` (lines 84-89), and belief rounding with `np.round` (line 105): floating-point numerics used only for display.
- All console output (lines 75-82, 91, 94-108, 110-113): formatting only. The values printed at the end are the totals and the average that `RunEpisode` returns.
- Floating-point rounding in the running sums: totals are exact `real` sums.
- Command-line parsing and the `__main__` block (lines 116-122), including the default policy name `heuristic`.
