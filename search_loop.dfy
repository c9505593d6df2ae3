/** The main loop of `Search::findPath` (lab1/src/Search.cpp), over a
  * searcher `s` whose open and closed lists it drives round by round. */
module SearchLoop {
  import opened JugState
  import opened Search
  import PairingHeaps
  import RobinHood

  /** One round of the main loop of `findPath`: pop the lightest state
    * `current`; it is a hit when its levels are the target's; otherwise it
    * is opened (closed, kept as the best state when lighter than the best
    * weight, and expanded) exactly when its levels are not closed. */
  method Step(s: Searcher, annealing: bool, draw: nat -> bool, best: State, bestWeight: nat,
              ghost expanded: seq<State>, ghost weights: seq<nat>)
    returns (current: State, hit: bool, expands: bool, newBest: State, newBestWeight: nat,
             ghost expandedNext: seq<State>, ghost weightsNext: seq<nat>)
    requires s.Searching(expanded, weights, best, bestWeight) == true && s.openList.root.Node?
    requires forall e :: e in PairingHeaps.Contents(s.openList.root) ==> allocated(e.0)
    requires |s.targetState.jugs| == |s.capacities|
    modifies s.openList, s.closedList, s.closedList.buckets
    ensures s.Searching(expandedNext, weightsNext, newBest, newBestWeight) == true
    ensures expandedNext == if expands then expanded + [current] else expanded
    ensures weightsNext == if expands then weights + [current.weight] else weights
    ensures forall e :: e in PairingHeaps.Contents(s.openList.root) ==> allocated(e.0)
    ensures hit ==> !expands && s.Reached(current) && s.Held(current) == s.targetState.jugs
    ensures !hit && !expands ==> s.Held(current) in s.closedList.Contents()
    ensures newBest == if expands && current.weight < bestWeight then current else best
    ensures s.closedList.buckets == old(s.closedList.buckets) || fresh(s.closedList.buckets)
  {
    current := s.Take(expanded, weights, best, bestWeight);
    newBest, newBestWeight := best, bestWeight;
    expands := false;
    expandedNext, weightsNext := expanded, weights;
    hit := current.Equals(s.targetState);
    if hit {
      assert current.jugs == s.targetState.jugs;
      return;
    }
    var closed := s.closedList.Contains(current.jugs);
    if !closed {
      expands := true;
      newBest, newBestWeight := s.Open(current, annealing, draw, best, bestWeight, expanded, weights);
      expandedNext, weightsNext := expanded + [current], weights + [current.weight];
    }
  }

  /** The start of `findPath`: the initial state is pushed on the open
    * list, and is the best state, with weight `UintMax`. */
  method Begin(s: Searcher)
    requires s.openList.Valid() && s.openList.root.Nil? && s.closedList.Valid()
    requires s.initialState.parent == null && WithinCapacity(s.start, s.capacities) && s.Intact(s.initialState)
    modifies s.openList
    ensures s.Searching([], [], s.initialState, UintMax) == true
    ensures forall e :: e in PairingHeaps.Contents(s.openList.root) ==> allocated(e.0)
  {
    s.openList.Push(s.initialState, s.initialState.weight);
    assert BestIndex([]) == -1;
    assert PairingHeaps.Contents(s.openList.root) == multiset{(s.initialState, s.initialState.weight)};
  }

  /** What the search state says once the loop is over: the states opened
    * are reached, the best one is among them or the initial state, and,
    * while the closed table has not outgrown its largest size, no levels
    * were opened twice. */
  lemma Settled(s: Searcher, expanded: seq<State>, weights: seq<nat>, best: State, bestWeight: nat)
    requires s.Searching(expanded, weights, best, bestWeight) == true
    ensures |weights| == |expanded| && forall k :: 0 <= k < |expanded| ==> s.Reached(expanded[k])
    ensures best == s.BestState(expanded, weights) && s.Reached(best)
    ensures s.closedList.buckets.Length * 2 <= RobinHood.MaxCapacity ==>
              forall j, k :: 0 <= j < k < |expanded| ==> s.Held(expanded[j]) != s.Held(expanded[k])
  {
    assert forall k :: 0 <= k < |expanded| ==> s.HeldAll(expanded)[k] == s.Held(expanded[k]);
  }

  /** The state `findPath` ends on, the target popped or else the best
    * state, is the last of a parent chain from the initial state whose
    * levels form a walk from the initial levels. */
  lemma Ends(s: Searcher, found: bool, current: State, best: State, bestWeight: nat,
             expanded: seq<State>, weights: seq<nat>)
    requires s.Searching(expanded, weights, best, bestWeight) == true
    requires found ==> s.Reached(current) == true
    ensures var final := if found then current else best;
            Rooted(final) && Chain(final)[0] == s.initialState && Walk(Course(s.start, Chain(final)), s.capacities)
  {
    Settled(s, expanded, weights, best, bestWeight);
    s.ReachedIsWalk(if found then current else best);
  }

  /** The main loop of `findPath`: rounds until the target is popped
    * (`found`), the open list runs dry or `maxSteps` rounds are done;
    * annealing is on once the pops since the last improvement of the best
    * weight pass half the stagnation threshold. It ends on the target
    * popped, or else on the best state opened; `expanded` and `weights`
    * record the states opened. */
  method Run(s: Searcher, maxSteps: nat, draw: (nat, nat) -> bool)
    returns (found: bool, final: State, ghost expanded: seq<State>, ghost weights: seq<nat>)
    requires s.Searching([], [], s.initialState, UintMax) == true
    requires forall e :: e in PairingHeaps.Contents(s.openList.root) ==> allocated(e.0)
    requires |s.targetState.jugs| == |s.capacities|
    modifies s.openList, s.closedList, s.closedList.buckets
    ensures s.closedList.Valid()
    ensures s.closedList.buckets == old(s.closedList.buckets) || fresh(s.closedList.buckets)
    ensures Rooted(final) && Chain(final)[0] == s.initialState && Walk(Course(s.start, Chain(final)), s.capacities)
    ensures found ==> s.Held(final) == s.targetState.jugs
    ensures |weights| == |expanded| && forall k :: 0 <= k < |expanded| ==> s.Reached(expanded[k])
    ensures !found ==> final == s.BestState(expanded, weights)
    ensures s.closedList.buckets.Length * 2 <= RobinHood.MaxCapacity ==>
              forall j, k :: 0 <= j < k < |expanded| ==> s.Held(expanded[j]) != s.Held(expanded[k])
  {
    var steps: nat := 0;
    var sinceImprovement: nat := 0;
    var annealing := false;
    var best, bestWeight := s.initialState, UintMax;
    expanded, weights := [], [];
    found := false;
    var current := s.initialState;
    while steps < maxSteps && !s.openList.Empty()
      invariant s.Searching(expanded, weights, best, bestWeight) == true
      invariant forall e :: e in PairingHeaps.Contents(s.openList.root) ==> allocated(e.0)
      invariant s.closedList.buckets == old(s.closedList.buckets) || fresh(s.closedList.buckets)
      invariant !found
      decreases maxSteps - steps
    {
      var hit, expands, newBest, newBestWeight;
      ghost var expandedNext, weightsNext;
      current, hit, expands, newBest, newBestWeight, expandedNext, weightsNext :=
        Step(s, annealing, (k: nat) => draw(steps, k), best, bestWeight, expanded, weights);
      steps := steps + 1;
      sinceImprovement := sinceImprovement + 1;
      if hit {
        found := true;
        break;
      }
      if expands && current.weight < bestWeight {
        sinceImprovement := 0;
      }
      expanded, weights, best, bestWeight := expandedNext, weightsNext, newBest, newBestWeight;
      annealing := sinceImprovement > StagnationThreshold / 2;
    }
    Settled(s, expanded, weights, best, bestWeight);
    Ends(s, found, current, best, bestWeight, expanded, weights);
    final := if found then current else best;
  }

  /** `findPath`: pop states lightest first until the target is popped,
    * opening each whose levels are not closed. The path returned leads
    * from the initial state to the target, or, when the open list runs
    * dry, to the best state opened. `draw(steps, k)` is the random draw
    * for the `k`-th successor in round `steps`; at most `maxSteps` states
    * are popped. */
  method FindPath(s: Searcher, maxSteps: nat, draw: (nat, nat) -> bool)
    returns (path: Path, final: State, found: bool,
             ghost expanded: seq<State>, ghost weights: seq<nat>)
    requires s.openList.Valid() && s.openList.root.Nil? && s.closedList.Valid()
    requires s.initialState.parent == null && WithinCapacity(s.start, s.capacities) && s.Intact(s.initialState)
    requires |s.targetState.jugs| == |s.capacities|
    modifies s.openList, s.closedList, s.closedList.buckets
    ensures path.states != null && fresh(path.states)
    ensures Rooted(final) && path.length == path.states.Length == |Chain(final)|
    ensures forall k :: 0 <= k < path.length ==> path.states[k] == Chain(final)[k]
    ensures Chain(final)[0] == s.initialState && Walk(Course(s.start, Chain(final)), s.capacities)
    ensures found ==> s.Held(final) == s.targetState.jugs
    ensures |weights| == |expanded| && forall k :: 0 <= k < |expanded| ==> s.Reached(expanded[k])
    ensures !found ==> final == s.BestState(expanded, weights)
    ensures s.closedList.buckets.Length * 2 <= RobinHood.MaxCapacity ==>
              forall j, k :: 0 <= j < k < |expanded| ==> s.Held(expanded[j]) != s.Held(expanded[k])
  {
    Begin(s);
    found, final, expanded, weights := Run(s, maxSteps, draw);
    path := ReconstructPath(final, s.closedList);
  }
}
