/**
 * The three reference maintenance policies of the episode printer and their
 * selection by name.
 *
 * An observation holds, for every edge of the road network, the list of its
 * segments' condition-observation codes, plus the environment's time step.
 * A policy answers with one maintenance action code per segment:
 * 0 do nothing, 1 inspect, 2 minor repair, 3 major repair, 4 reconstruct.
 */
module Policies {

  /** The part of an observation the policies read. */
  datatype Observation = Observation(edgeObservations: seq<seq<int>>, timeStep: int)

  /** The closed set of policies that can be selected by name. */
  datatype Policy = DoNothing | FailReplace | Heuristic

  /** A value, or the message of the error raised instead. */
  datatype Result<T> = Ok(value: T) | Err(message: string)

  /** Action codes the environment accepts. */
  predicate IsActionCode(a: int) {
    0 <= a <= 4
  }

  /** Two edge/segment containers have the same number of edges and, edge by edge, the same number of segments. */
  predicate SameShape(a: seq<seq<int>>, b: seq<seq<int>>) {
    |a| == |b| && forall i :: 0 <= i < |a| ==> |a[i]| == |b[i]|
  }

  /** `actions` holds, at every segment of `edges`, what `rule` makes of that segment's code. */
  ghost predicate Realizes(actions: seq<seq<int>>, edges: seq<seq<int>>, rule: int -> int) {
    SameShape(actions, edges) &&
    forall i, j :: 0 <= i < |edges| && 0 <= j < |edges[i]| ==> actions[i][j] == rule(edges[i][j])
  }

  // ---------------------------------------------------------------------------
  // Per-segment decision rules
  // ---------------------------------------------------------------------------

  /** Fail-and-replace decision for one segment: replace a failed segment, leave the rest. */
  function FailReplaceAction(code: int): (a: int)
    ensures a == 3 <==> code >= 3
    ensures a == 0 <==> code < 3
  {
    if code >= 3 then 3 else 0
  }

  /**
   * Heuristic decision for one segment, with the branches in the order the
   * source tests them. The second test repeats the first, so its major-repair
   * outcome can never be chosen: the postconditions give the rule that is in
   * effect, with four outcomes only.
   */
  function HeuristicAction(code: int, timeStep: int): (a: int)
    ensures code >= 5 ==> a == 4
    ensures 2 <= code < 5 ==> a == 2
    ensures code < 2 && timeStep % 2 == 0 ==> a == 1
    ensures code < 2 && timeStep % 2 != 0 ==> a == 0
    ensures a != 3
  {
    if code >= 5 then 4        // reconstruction
    else if code >= 5 then 3   // major repair
    else if code >= 2 then 2   // minor repair
    else if timeStep % 2 == 0 then 1  // inspection
    else 0                     // do nothing
  }

  /** The heuristic's rule at a fixed time step, as a per-segment rule. */
  function HeuristicRule(timeStep: int): int -> int {
    code => HeuristicAction(code, timeStep)
  }

  // ---------------------------------------------------------------------------
  // Whole-observation specification: a rule applied segment by segment
  // ---------------------------------------------------------------------------

  /** The actions of one edge, built by appending one segment's action after another. */
  function MapEdge(edge: seq<int>, rule: int -> int): seq<int> {
    if edge == [] then [] else MapEdge(edge[..|edge| - 1], rule) + [rule(edge[|edge| - 1])]
  }

  /** The actions of every edge, built by appending one edge's actions after another. */
  function MapSegments(edges: seq<seq<int>>, rule: int -> int): seq<seq<int>> {
    if edges == [] then []
    else MapSegments(edges[..|edges| - 1], rule) + [MapEdge(edges[|edges| - 1], rule)]
  }

  lemma {:induction false} MapEdgeAt(edge: seq<int>, rule: int -> int)
    ensures |MapEdge(edge, rule)| == |edge|
    ensures forall j :: 0 <= j < |edge| ==> MapEdge(edge, rule)[j] == rule(edge[j])
  {
    if edge != [] {
      MapEdgeAt(edge[..|edge| - 1], rule);
    }
  }

  /** Applying a rule segment by segment keeps the shape and puts the rule's answer at every segment. */
  lemma {:induction false} MapSegmentsRealizes(edges: seq<seq<int>>, rule: int -> int)
    ensures Realizes(MapSegments(edges, rule), edges, rule)
  {
    if edges != [] {
      var n := |edges| - 1;
      MapSegmentsRealizes(edges[..n], rule);
      MapEdgeAt(edges[n], rule);
    }
  }

  /** A per-segment rule determines the whole action container: two realizations are equal. */
  lemma RealizationIsUnique(a: seq<seq<int>>, b: seq<seq<int>>, edges: seq<seq<int>>, rule: int -> int)
    requires Realizes(a, edges, rule) && Realizes(b, edges, rule)
    ensures a == b
  {
    forall i | 0 <= i < |a|
      ensures a[i] == b[i]
    {
      assert |a[i]| == |b[i]|;
      forall j | 0 <= j < |a[i]|
        ensures a[i][j] == b[i][j]
      {
        assert a[i][j] == rule(edges[i][j]);
      }
    }
  }

  // ---------------------------------------------------------------------------
  // The three policies
  // ---------------------------------------------------------------------------

  /** Do-nothing baseline: action 0 on every segment, whatever the codes. */
  function DoNothingPolicy(observation: Observation): (actions: seq<seq<int>>)
    ensures SameShape(actions, observation.edgeObservations)
    ensures forall i, j :: 0 <= i < |actions| && 0 <= j < |actions[i]| ==> actions[i][j] == 0
  {
    var edges := observation.edgeObservations;
    seq(|edges|, i requires 0 <= i < |edges| => seq(|edges[i]|, _ => 0))
  }

  /** Fail-and-replace policy: nested loops appending one action per segment. */
  method FailReplacePolicy(observation: Observation) returns (actions: seq<seq<int>>)
    ensures actions == MapSegments(observation.edgeObservations, FailReplaceAction)
  {
    var edges := observation.edgeObservations;
    actions := [];
    var i := 0;
    while i < |edges|
      invariant 0 <= i <= |edges|
      invariant actions == MapSegments(edges[..i], FailReplaceAction)
    {
      var edge := edges[i];
      var edgeAction: seq<int> := [];
      var j := 0;
      while j < |edge|
        invariant 0 <= j <= |edge|
        invariant edgeAction == MapEdge(edge[..j], FailReplaceAction)
      {
        var segment := edge[j];
        if segment >= 3 {
          edgeAction := edgeAction + [3];
        } else {
          edgeAction := edgeAction + [0];
        }
        assert edge[..j + 1][..j] == edge[..j];
        j := j + 1;
      }
      assert edge[..j] == edge;
      actions := actions + [edgeAction];
      assert edges[..i + 1][..i] == edges[..i];
      i := i + 1;
    }
    assert edges[..i] == edges;
  }

  /** Heuristic policy: nested loops appending the heuristic's decision for each segment. */
  method HeuristicPolicy(observation: Observation) returns (actions: seq<seq<int>>)
    ensures actions == MapSegments(observation.edgeObservations, HeuristicRule(observation.timeStep))
  {
    var edges := observation.edgeObservations;
    var currentTime := observation.timeStep;
    actions := [];
    var i := 0;
    while i < |edges|
      invariant 0 <= i <= |edges|
      invariant actions == MapSegments(edges[..i], HeuristicRule(currentTime))
    {
      var edge := edges[i];
      var edgeActions: seq<int> := [];
      var j := 0;
      while j < |edge|
        invariant 0 <= j <= |edge|
        invariant edgeActions == MapEdge(edge[..j], HeuristicRule(currentTime))
      {
        var segment := edge[j];
        if segment >= 5 {
          edgeActions := edgeActions + [4];  // reconstruction
        } else if segment >= 5 {
          edgeActions := edgeActions + [3];  // major repair
        } else if segment >= 2 {
          edgeActions := edgeActions + [2];  // minor repair
        } else if currentTime % 2 == 0 {
          edgeActions := edgeActions + [1];  // inspection
        } else {
          edgeActions := edgeActions + [0];  // do nothing
        }
        assert edge[..j + 1][..j] == edge[..j];
        j := j + 1;
      }
      assert edge[..j] == edge;
      actions := actions + [edgeActions];
      assert edges[..i + 1][..i] == edges[..i];
      i := i + 1;
    }
    assert edges[..i] == edges;
  }

  // ---------------------------------------------------------------------------
  // Selecting and applying a policy
  // ---------------------------------------------------------------------------

  /** The name under which each policy is selected. */
  function PolicyName(policy: Policy): string {
    match policy
    case DoNothing => "do_nothing"
    case FailReplace => "fail_replace"
    case Heuristic => "heuristic"
  }

  /** Resolves a policy by name; any other name is an unknown-policy error. */
  function GetPolicy(name: string): (r: Result<Policy>)
    ensures r == Ok(DoNothing) <==> name == "do_nothing"
    ensures r == Ok(FailReplace) <==> name == "fail_replace"
    ensures r == Ok(Heuristic) <==> name == "heuristic"
    ensures r.Err? <==> name !in {"do_nothing", "fail_replace", "heuristic"}
    ensures r.Err? ==> r.message == "Unknown policy: " + name
  {
    if name == "do_nothing" then Ok(DoNothing)
    else if name == "fail_replace" then Ok(FailReplace)
    else if name == "heuristic" then Ok(Heuristic)
    else Err("Unknown policy: " + name)
  }

  /** Selection by name and the naming of policies are inverse to each other. */
  lemma GetPolicyInvertsPolicyName(name: string, policy: Policy)
    ensures GetPolicy(name) == Ok(policy) <==> name == PolicyName(policy)
  {
  }

  /** The per-segment rule each policy follows at a given time step. */
  function PolicyRule(policy: Policy, timeStep: int): int -> int {
    match policy
    case DoNothing => _ => 0
    case FailReplace => FailReplaceAction
    case Heuristic => HeuristicRule(timeStep)
  }

  /** What a policy returns for an observation. */
  function PolicyActions(policy: Policy, observation: Observation): seq<seq<int>> {
    match policy
    case DoNothing => DoNothingPolicy(observation)
    case FailReplace => MapSegments(observation.edgeObservations, FailReplaceAction)
    case Heuristic => MapSegments(observation.edgeObservations, HeuristicRule(observation.timeStep))
  }

  /** Calls the selected policy on an observation. */
  method Act(policy: Policy, observation: Observation) returns (actions: seq<seq<int>>)
    ensures Realizes(actions, observation.edgeObservations, PolicyRule(policy, observation.timeStep))
    ensures actions == PolicyActions(policy, observation)
  {
    match policy {
      case DoNothing =>
        actions := DoNothingPolicy(observation);
      case FailReplace =>
        actions := FailReplacePolicy(observation);
      case Heuristic =>
        actions := HeuristicPolicy(observation);
    }
    PolicyFollowsItsRule(policy, observation);
  }

  /** Every policy answers each segment with its per-segment rule, and keeps the observation's shape. */
  lemma PolicyFollowsItsRule(policy: Policy, observation: Observation)
    ensures Realizes(PolicyActions(policy, observation), observation.edgeObservations,
                     PolicyRule(policy, observation.timeStep))
  {
    match policy
    case DoNothing =>
    case FailReplace =>
      MapSegmentsRealizes(observation.edgeObservations, FailReplaceAction);
    case Heuristic =>
      MapSegmentsRealizes(observation.edgeObservations, HeuristicRule(observation.timeStep));
  }

  /** The action codes a policy can emit. */
  function EmittedCodes(policy: Policy): set<int> {
    match policy
    case DoNothing => {0}
    case FailReplace => {0, 3}
    case Heuristic => {0, 1, 2, 4}
  }

  /** Shape preservation, for every policy. */
  lemma PolicyPreservesShape(policy: Policy, observation: Observation)
    ensures SameShape(PolicyActions(policy, observation), observation.edgeObservations)
  {
    PolicyFollowsItsRule(policy, observation);
  }

  /** Each policy emits only its own codes (the heuristic never emits 3), all of them valid actions. */
  lemma PolicyEmitsOnlyItsCodes(policy: Policy, observation: Observation, i: int, j: int)
    requires 0 <= i < |observation.edgeObservations| && 0 <= j < |observation.edgeObservations[i]|
    ensures |PolicyActions(policy, observation)| == |observation.edgeObservations|
    ensures |PolicyActions(policy, observation)[i]| == |observation.edgeObservations[i]|
    ensures PolicyActions(policy, observation)[i][j] in EmittedCodes(policy)
    ensures IsActionCode(PolicyActions(policy, observation)[i][j])
  {
    PolicyFollowsItsRule(policy, observation);
    var code := observation.edgeObservations[i][j];
    assert PolicyActions(policy, observation)[i][j] == PolicyRule(policy, observation.timeStep)(code);
  }

  /** Fail-and-replace emits 3 at a segment exactly when its code is at least 3, and 0 otherwise. */
  lemma FailReplaceDecision(observation: Observation, i: int, j: int)
    requires 0 <= i < |observation.edgeObservations| && 0 <= j < |observation.edgeObservations[i]|
    ensures |PolicyActions(FailReplace, observation)| == |observation.edgeObservations|
    ensures |PolicyActions(FailReplace, observation)[i]| == |observation.edgeObservations[i]|
    ensures PolicyActions(FailReplace, observation)[i][j] == 3 <==> observation.edgeObservations[i][j] >= 3
    ensures PolicyActions(FailReplace, observation)[i][j] == 0 <==> observation.edgeObservations[i][j] < 3
  {
    PolicyFollowsItsRule(FailReplace, observation);
  }

  /** The heuristic's decision at a segment, from that segment's code and the time step. */
  lemma HeuristicDecision(observation: Observation, i: int, j: int)
    requires 0 <= i < |observation.edgeObservations| && 0 <= j < |observation.edgeObservations[i]|
    ensures |PolicyActions(Heuristic, observation)| == |observation.edgeObservations|
    ensures |PolicyActions(Heuristic, observation)[i]| == |observation.edgeObservations[i]|
    ensures var code, a := observation.edgeObservations[i][j], PolicyActions(Heuristic, observation)[i][j];
      (code >= 5 ==> a == 4) &&
      (2 <= code < 5 ==> a == 2) &&
      (code < 2 && observation.timeStep % 2 == 0 ==> a == 1) &&
      (code < 2 && observation.timeStep % 2 != 0 ==> a == 0)
  {
    PolicyFollowsItsRule(Heuristic, observation);
    var code := observation.edgeObservations[i][j];
    assert PolicyActions(Heuristic, observation)[i][j] == HeuristicAction(code, observation.timeStep);
  }

  /**
   * A segment's action depends on that segment's code only, and for the
   * heuristic on the time step too: two observations that agree on those get
   * the same action there.
   */
  lemma ActionDependsOnlyOnOwnSegment(policy: Policy, o1: Observation, o2: Observation, i: int, j: int)
    requires 0 <= i < |o1.edgeObservations| && 0 <= j < |o1.edgeObservations[i]|
    requires 0 <= i < |o2.edgeObservations| && 0 <= j < |o2.edgeObservations[i]|
    requires o1.edgeObservations[i][j] == o2.edgeObservations[i][j]
    requires policy == Heuristic ==> o1.timeStep == o2.timeStep
    ensures |PolicyActions(policy, o1)| == |o1.edgeObservations| && |PolicyActions(policy, o1)[i]| == |o1.edgeObservations[i]|
    ensures |PolicyActions(policy, o2)| == |o2.edgeObservations| && |PolicyActions(policy, o2)[i]| == |o2.edgeObservations[i]|
    ensures PolicyActions(policy, o1)[i][j] == PolicyActions(policy, o2)[i][j]
  {
    PolicyFollowsItsRule(policy, o1);
    PolicyFollowsItsRule(policy, o2);
  }

  /** Changing the code of segment (p, q) changes no other segment's action. */
  lemma ChangingOneSegmentChangesNoOther(policy: Policy, observation: Observation, p: int, q: int, code: int)
    requires 0 <= p < |observation.edgeObservations| && 0 <= q < |observation.edgeObservations[p]|
    ensures var edges := observation.edgeObservations;
      var changed := observation.(edgeObservations := edges[p := edges[p][q := code]]);
      var before, after := PolicyActions(policy, observation), PolicyActions(policy, changed);
      SameShape(before, after) &&
      forall i, j :: 0 <= i < |before| && 0 <= j < |before[i]| && (i, j) != (p, q) ==> before[i][j] == after[i][j]
  {
    var edges := observation.edgeObservations;
    var changed := observation.(edgeObservations := edges[p := edges[p][q := code]]);
    PolicyFollowsItsRule(policy, observation);
    PolicyFollowsItsRule(policy, changed);
  }
}
