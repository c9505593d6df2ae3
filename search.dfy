/** The best-first search of the water-jug puzzle (lab1/src/Search.cpp): an
  * open list of states ordered by weight, a closed list of the states
  * already expanded, the best state seen so far, and the path read back
  * along the parent pointers of the state the search ends on. A state's
  * weight comes from `calculateHeuristic` and the annealing draw from the
  * random number generator; both are function parameters here. */
module Search {
  import opened JugState
  import PairingHeaps
  import RobinHood

  /** `UINT_MAX`, the best weight before any state is expanded. */
  const UintMax: nat := 0xFFFF_FFFF

  /** `StagnationParams::stagnation_threshold`. */
  const StagnationThreshold: nat := 500

  /** The position of the state `findPath` keeps as its best among states
    * expanded with weights `weights`, or -1 when it keeps the initial
    * state: a state replaces the best one when its weight is below the
    * best weight, which starts at `UintMax`. */
  function BestIndex(weights: seq<nat>): (r: int)
    ensures -1 <= r < |weights|
  {
    if weights == [] then -1
    else
      var b := BestIndex(weights[..|weights| - 1]);
      if weights[|weights| - 1] < (if b < 0 then UintMax else weights[b]) then |weights| - 1 else b
  }

  /** The best state is the first of least weight among those below
    * `UintMax`, and the initial state is kept exactly when no weight is
    * below `UintMax`. */
  lemma {:induction false} BestIndexIsFirstLeast(weights: seq<nat>)
    ensures BestIndex(weights) == -1 <==> forall k :: 0 <= k < |weights| ==> weights[k] >= UintMax
    ensures var r := BestIndex(weights);
            r >= 0 ==> weights[r] < UintMax && (forall k :: 0 <= k < |weights| ==> weights[r] <= weights[k])
                       && forall k :: 0 <= k < r ==> weights[r] < weights[k]
  {
    if weights != [] {
      var front := weights[..|weights| - 1];
      BestIndexIsFirstLeast(front);
      assert forall k :: 0 <= k < |front| ==> weights[k] == front[k];
    }
  }

  /** The parent chain of `s` ends: every parent is shallower than its child. */
  ghost predicate Rooted(s: State?)
    decreases if s == null then 0 else s.depth + 1
  {
    s == null || ((s.parent == null || s.parent.depth < s.depth) && Rooted(s.parent))
  }

  /** The states from the root of `s`'s parent chain down to `s`. */
  ghost function Chain(s: State?): seq<State>
    requires Rooted(s)
    decreases if s == null then 0 else s.depth + 1
  {
    if s == null then [] else Chain(s.parent) + [s]
  }

  /** The state at position `k` of `c` is the child of the one before it. */
  ghost predicate LinkedAt(c: seq<State>, k: int)
    requires 0 < k < |c|
  {
    c[k].parent == c[k - 1]
  }

  /** A chain starts at a state without parent, ends at `s`, and each state in
    * it is the parent of the next. */
  lemma {:induction false} ChainShape(s: State)
    requires Rooted(s)
    ensures var c := Chain(s);
            |c| > 0 && c[|c| - 1] == s && c[0].parent == null
            && forall k :: 0 < k < |c| ==> LinkedAt(c, k)
    decreases s.depth
  {
    if s.parent != null {
      ChainShape(s.parent);
      var c := Chain(s);
      forall k | 0 < k < |c|
        ensures LinkedAt(c, k)
      {
        if k < |c| - 1 {
          assert LinkedAt(Chain(s.parent), k);
        }
      }
    }
  }

  /** The levels of the states of `c`, in order. */
  ghost function Trail(c: seq<State>): (r: seq<seq<nat>>)
    reads c`jugs
    ensures |r| == |c| && forall k :: 0 <= k < |c| ==> r[k] == c[k].jugs
  {
    if c == [] then [] else Trail(c[..|c| - 1]) + [c[|c| - 1].jugs]
  }

  /** The levels a chain went through: `root` for its first state (whose
    * levels may be written after its creation), and the levels each later
    * state was created with. */
  ghost function Course(root: seq<nat>, c: seq<State>): (r: seq<seq<nat>>)
    ensures |r| == |c| && (|c| > 0 ==> r[0] == root)
    ensures forall k :: 0 < k < |c| ==> r[k] == c[k].born
  {
    if |c| <= 1 then (if c == [] then [] else [root])
    else Course(root, c[..|c| - 1]) + [c[|c| - 1].born]
  }

  /** Levels within the capacities, each one move away from the one before. */
  ghost predicate Walk(levels: seq<seq<nat>>, capacities: seq<nat>)
  {
    (forall k :: 0 <= k < |levels| ==> WithinCapacity(levels[k], capacities))
    && forall k :: 0 <= k < |levels| - 1 ==> IsMove(levels[k], capacities, levels[k + 1])
  }

  /** A walk stays a walk when one more move is made from its last levels. */
  lemma WalkExtends(levels: seq<seq<nat>>, capacities: seq<nat>, next: seq<nat>)
    requires Walk(levels, capacities) && |levels| > 0
    requires IsMove(levels[|levels| - 1], capacities, next)
    ensures Walk(levels + [next], capacities)
  {
    MoveIsProper(levels[|levels| - 1], capacities, next);
    var w := levels + [next];
    forall k | 0 <= k < |w| - 1
      ensures IsMove(w[k], capacities, w[k + 1])
    {
      if k < |levels| - 1 {
        assert w[k] == levels[k] && w[k + 1] == levels[k + 1];
      } else {
        assert w[k] == levels[|levels| - 1] && w[k + 1] == next;
      }
    }
  }

  /** The levels at positions `from` onwards of `levels`, the first one
    * (the root's) excepted. */
  ghost function NonRootLevels(levels: seq<seq<nat>>, from: nat): set<seq<nat>>
  {
    set k | from <= k < |levels| && 0 < k :: levels[k]
  }

  /** `x` is one of the levels at positions `from` onwards, the root's
    * excepted: `NonRootLevels` one position at a time. */
  ghost predicate Gone(x: seq<nat>, levels: seq<seq<nat>>, from: nat)
    decreases |levels| - from
  {
    from < |levels| && ((from > 0 && levels[from] == x) || Gone(x, levels, from + 1))
  }

  lemma {:induction false} GoneIsNonRoot(x: seq<nat>, levels: seq<seq<nat>>, from: nat)
    ensures Gone(x, levels, from) <==> x in NonRootLevels(levels, from)
    decreases |levels| - from
  {
    if from < |levels| {
      GoneIsNonRoot(x, levels, from + 1);
      if from > 0 && levels[from] == x {
        assert levels[from] in NonRootLevels(levels, from);
      }
      if x in NonRootLevels(levels, from) {
        var k :| from <= k < |levels| && 0 < k && levels[k] == x;
        if k > from {
          assert x in NonRootLevels(levels, from + 1);
        }
      }
    }
  }

  /** The state at `index` of a chain is the child of the one before it, and
    * the first has no parent. */
  lemma Up(chain: seq<State>, index: int)
    requires 0 <= index < |chain|
    requires chain[0].parent == null && forall k :: 0 < k < |chain| ==> LinkedAt(chain, k)
    ensures index == 0 ==> chain[index].parent == null
    ensures index > 0 ==> chain[index].parent == chain[index - 1]
  {
    if index > 0 {
      assert LinkedAt(chain, index);
    }
  }

  /** `if (current->parent) closed_list.removeState(current)`: the levels
    * `key` leave the closed list when their state has a parent, and every
    * other state stays where it was. */
  method Release(closed: RobinHood.RobinHoodTable, hasParent: bool, key: seq<nat>)
    requires closed.Valid()
    modifies closed, closed.buckets
    ensures closed.Valid() && closed.buckets == old(closed.buckets)
    ensures forall x {:trigger x in closed.Contents()} ::
              x in closed.Contents() <==> x in old(closed.Contents()) && !(hasParent && x == key)
  {
    if hasParent {
      closed.RemoveState(key);
    }
  }

  /** `Search::Path`: the states of a path and their number; `states` is
    * `null` once the path has been freed. */
  datatype Path = Path(states: array?<State?>, length: nat)

  /** `freePath`: a path holding an array loses it and its length; a freed
    * path is left as it is, so freeing twice is freeing once. */
  function FreePath(path: Path): (r: Path)
    ensures r.states == null
    ensures path.states != null ==> r.length == 0
    ensures path.states == null ==> r == path
  {
    if path.states != null then Path(null, 0) else path
  }

  /** The first loop of `reconstructPath`: the number of states on the
    * parent chain of `s`. */
  method ChainLength(s: State) returns (length: nat)
    requires Rooted(s)
    ensures length == |Chain(s)|
  {
    length := 0;
    var current: State? := s;
    while current != null
      invariant Rooted(current) && length + |Chain(current)| == |Chain(s)|
      decreases if current == null then 0 else current.depth + 1
    {
      length := length + 1;
      current := current.parent;
    }
  }

  /** The second loop of `reconstructPath`: from `finalState` up the parent
    * chain `chain`, each state goes to its place in a new array of `length`
    * entries, and each one with a parent leaves the closed list `closed`. */
  method FillPath(finalState: State, length: nat, closed: RobinHood.RobinHoodTable,
                  ghost chain: seq<State>, ghost levels: seq<seq<nat>>)
    returns (states: array<State?>)
    requires |chain| == |levels| == length > 0 && chain[length - 1] == finalState
    requires chain[0].parent == null && forall k :: 0 < k < length ==> LinkedAt(chain, k)
    requires forall k :: 0 <= k < length ==> levels[k] == chain[k].jugs
    requires closed.Valid()
    modifies closed, closed.buckets
    ensures fresh(states) && states.Length == length
    ensures forall k :: 0 <= k < length ==> states[k] == chain[k]
    ensures closed.Valid() && closed.buckets == old(closed.buckets)
    ensures closed.Contents() == old(closed.Contents()) - NonRootLevels(levels, 0)
  {
    ghost var before := closed.Contents();
    states := new State?[length];
    var current: State? := finalState;
    var index: int := length - 1;
    while current != null
      invariant -1 <= index < length
      invariant current != null <==> index >= 0
      invariant index >= 0 ==> current == chain[index]
      invariant fresh(states) && forall k :: index < k < length ==> states[k] == chain[k]
      invariant closed.Valid() && closed.buckets == old(closed.buckets)
      invariant forall x {:trigger x in closed.Contents()} ::
                  x in closed.Contents() <==> x in before && !Gone(x, levels, index + 1)
      decreases index + 1
    {
      states[index] := current;
      Up(chain, index);
      Release(closed, current.parent != null, current.jugs);
      current := current.parent;
      index := index - 1;
    }
    forall x
      ensures x in closed.Contents() <==> x in before && x !in NonRootLevels(levels, 0)
    {
      GoneIsNonRoot(x, levels, 0);
    }
  }

  /** While the closed list `closed` has not reached its largest size it
    * holds each of the levels `seen`, no two of them alike. */
  ghost predicate ClosedLog(closed: RobinHood.RobinHoodTable, seen: seq<seq<nat>>)
    reads closed, closed.buckets
  {
    closed.buckets.Length * 2 <= RobinHood.MaxCapacity ==>
      (forall k :: 0 <= k < |seen| ==> seen[k] in closed.Contents())
      && forall j, k :: 0 <= j < k < |seen| ==> seen[j] != seen[k]
  }

  /** `closed_list.insert(current)` for levels `key` not yet closed. */
  method CloseNew(closed: RobinHood.RobinHoodTable, key: seq<nat>, ghost seen: seq<seq<nat>>)
    requires closed.Valid() && ClosedLog(closed, seen) && key !in closed.Contents()
    modifies closed, closed.buckets
    ensures closed.Valid() && ClosedLog(closed, seen + [key])
    ensures closed.buckets == old(closed.buckets) || fresh(closed.buckets)
  {
    var inserted := closed.Insert(key);
  }

  class Searcher {
    const capacities: seq<nat>
    const initialState: State
    const targetState: State
    /** `calculateHeuristic`: the weight it gives a state with these levels
      * at this depth (the target state is fixed for the search). */
    const heuristic: (seq<nat>, nat) -> nat
    /** The levels of the initial state when the search was created. */
    ghost const start: seq<nat>
    var openList: PairingHeaps.PairingHeap<State>
    var closedList: RobinHood.RobinHoodTable

    /** `Search(initial_state, target_state, capacities)`: empty lists, and
      * the initial state weighed if it had not been. */
    constructor (initialState: State, targetState: State, capacities: seq<nat>,
                 heuristic: (seq<nat>, nat) -> nat, maxLoadFactor: real)
      modifies initialState
      ensures this.initialState == initialState && this.targetState == targetState
      ensures this.capacities == capacities && this.heuristic == heuristic
      ensures fresh(openList) && openList.Valid() && openList.root.Nil?
      ensures fresh(closedList) && fresh(closedList.buckets)
      ensures closedList.Valid() && closedList.Contents() == {}
      ensures initialState.jugs == old(initialState.jugs) == start
      ensures initialState.heuristicCalculated
      ensures initialState.weight
              == if old(initialState.heuristicCalculated) then old(initialState.weight)
                 else heuristic(initialState.jugs, initialState.depth)
    {
      this.capacities := capacities;
      this.initialState := initialState;
      this.targetState := targetState;
      this.heuristic := heuristic;
      start := initialState.jugs;
      openList := new PairingHeaps.PairingHeap<State>();
      closedList := new RobinHood.RobinHoodTable(maxLoadFactor);
      new;
      Weigh(initialState);
    }

    /** `calculateHeuristic`: a state not yet weighed gets the weight of its
      * levels at its depth; a weighed one keeps its weight. */
    method Weigh(s: State)
      modifies s`weight, s`heuristicCalculated
      ensures s.heuristicCalculated
      ensures s.weight == if old(s.heuristicCalculated) then old(s.weight) else heuristic(s.jugs, s.depth)
    {
      if !s.heuristicCalculated {
        s.weight := heuristic(s.jugs, s.depth);
        s.heuristicCalculated := true;
      }
    }

    /** The levels of a state as the search sees them: the initial state's
      * current ones, and for every other state those it was created with. */
    ghost function Held(s: State): seq<nat>
    {
      if s == initialState then start else s.born
    }

    /** `s` hangs below the initial state by a chain of legal moves within
      * the capacities: it is the initial state, or a state of greater depth
      * than its reached parent and one move away from it. */
    ghost predicate Reached(s: State)
      decreases s.depth
    {
      if s.parent == null then s == initialState && WithinCapacity(start, capacities)
      else s != initialState && s.parent.depth < s.depth && Reached(s.parent)
           && WithinCapacity(Held(s.parent), capacities) && s.born in Moves(Held(s.parent), capacities)
    }

    /** A weighed state carries the weight of the levels it was created
      * with at its depth. */
    ghost predicate Weighed(s: State)
      reads s`weight, s`heuristicCalculated
    {
      s.heuristicCalculated ==> s.weight == heuristic(s.born, s.depth)
    }

    /** The levels of `s` are still those the search sees. */
    ghost predicate Intact(s: State)
      reads s`jugs
    {
      s.jugs == Held(s)
    }

    /** A reached state is the last of a parent chain that starts at the
      * initial state and whose levels form a walk from the initial levels. */
    lemma {:induction false} ReachedIsWalk(s: State)
      requires Reached(s)
      ensures Rooted(s) && Chain(s)[0] == initialState
      ensures Walk(Course(start, Chain(s)), capacities)
      decreases s.depth
    {
      if s.parent != null {
        ReachedIsWalk(s.parent);
        MovesAreTheRules(Held(s.parent), capacities, s.born);
        ChainShape(s.parent);
        var c := Chain(s.parent);
        assert Chain(s) == c + [s];
        assert (c + [s])[..|c|] == c;
        assert Course(start, c)[|c| - 1] == Held(s.parent);
        WalkExtends(Course(start, c), capacities, s.born);
      } else {
        assert Chain(s) == [s];
      }
    }

    /** A reached state that is intact is within the capacities, and is the
      * initial state exactly when it has no parent. */
    lemma ReachedWithin(s: State)
      requires Reached(s) && Intact(s)
      ensures WithinCapacity(s.jugs, capacities)
      ensures s.parent == null <==> s == initialState
    {
      if s.parent != null {
        MovesAreTheRules(Held(s.parent), capacities, s.born);
        MoveIsProper(Held(s.parent), capacities, s.born);
      }
    }

    /** A child of a reached, intact state, one move away from it and not the
      * initial state, is reached. */
    lemma ReachedChild(current: State, child: State)
      requires Reached(current) && Intact(current)
      requires child.parent == current && child.depth == current.depth + 1 && child != initialState
      requires WithinCapacity(current.jugs, capacities) && child.born in Moves(current.jugs, capacities)
      ensures Reached(child)
    {
    }

    /** The test a successor with `levels` at `depth`, the `k`-th generated,
      * passes to be pushed: its levels are not closed, and while annealing
      * its weight does not exceed `bound`, the expanded state's weight,
      * or its draw succeeds. */
    ghost predicate Accepts(levels: seq<nat>, k: nat, closed: set<seq<nat>>, depth: nat,
                            bound: nat, annealing: bool, draw: nat -> bool)
    {
      levels !in closed && (!annealing || heuristic(levels, depth) <= bound || draw(k))
    }

    /** The levels among `moves[..n]` that pass the test, in order. */
    ghost function Admitted(moves: seq<seq<nat>>, n: nat, closed: set<seq<nat>>, depth: nat,
                            bound: nat, annealing: bool, draw: nat -> bool): seq<seq<nat>>
      requires n <= |moves|
    {
      if n == 0 then []
      else Admitted(moves, n - 1, closed, depth, bound, annealing, draw)
           + (if Accepts(moves[n - 1], n - 1, closed, depth, bound, annealing, draw) then [moves[n - 1]] else [])
    }

    /** One round of the expansion loop of `findPath`: `successor`, the
      * `k`-th successor of a state of weight `bound`, is skipped when its
      * levels are closed; otherwise it is weighed and, if the annealing
      * test accepts it, pushed with its weight onto the open list. */
    method Offer(successor: State, k: nat, bound: nat, annealing: bool, draw: nat -> bool)
      returns (ghost added: seq<(State, nat)>)
      requires openList.Valid() == true && closedList.Valid() == true
      requires successor.jugs == successor.born && Weighed(successor)
      modifies openList, successor`weight, successor`heuristicCalculated
      ensures openList.Valid() && Weighed(successor)
      ensures closedList.buckets == old(closedList.buckets) && closedList.size == old(closedList.size)
      ensures closedList.buckets[..] == old(closedList.buckets[..])
      ensures PairingHeaps.Contents(openList.root) == old(PairingHeaps.Contents(openList.root)) + multiset(added)
      ensures added == if Accepts(successor.born, k, closedList.Contents(), successor.depth, bound, annealing, draw)
                       then [(successor, heuristic(successor.born, successor.depth))] else []
    {
      added := [];
      var isClosed := closedList.Contains(successor.jugs);
      if !isClosed {
        Weigh(successor);
        var accept := !annealing || successor.weight <= bound || draw(k);
        if accept {
          openList.Push(successor, successor.weight);
          added := [(successor, successor.weight)];
        }
      }
    }

    /** `pushed` pairs each of the levels `admitted`, in order, with the
      * state `kids[picks[k]]` created with them and with their weight at
      * `depth`. */
    ghost predicate Tracks(pushed: seq<(State, nat)>, admitted: seq<seq<nat>>, picks: seq<nat>,
                           kids: seq<State>, depth: nat)
    {
      |pushed| == |admitted| == |picks|
      && forall k :: 0 <= k < |pushed| ==>
           picks[k] < |kids| && pushed[k].0 == kids[picks[k]]
           && pushed[k].0.born == admitted[k] && pushed[k].1 == heuristic(admitted[k], depth)
    }

    /** The states among `kids[..n]` whose levels pass the test, in order,
      * each paired with its weight: what offering them one by one pushes. */
    ghost function Pushes(kids: seq<State>, n: nat, closed: set<seq<nat>>,
                          bound: nat, annealing: bool, draw: nat -> bool): seq<(State, nat)>
      requires n <= |kids|
    {
      if n == 0 then []
      else Pushes(kids, n - 1, closed, bound, annealing, draw)
           + (if Accepts(kids[n - 1].born, n - 1, closed, kids[n - 1].depth, bound, annealing, draw)
              then [(kids[n - 1], heuristic(kids[n - 1].born, kids[n - 1].depth))] else [])
    }

    /** Offering the `i`-th of `kids` adds what it pushes to what the
      * first `i` pushed. */
    lemma PushesNext(kids: seq<State>, i: nat, closed: set<seq<nat>>, bound: nat, annealing: bool,
                     draw: nat -> bool, added: seq<(State, nat)>)
      requires i < |kids|
      requires added == if Accepts(kids[i].born, i, closed, kids[i].depth, bound, annealing, draw)
                        then [(kids[i], heuristic(kids[i].born, kids[i].depth))] else []
      ensures multiset(Pushes(kids, i + 1, closed, bound, annealing, draw))
              == multiset(Pushes(kids, i, closed, bound, annealing, draw)) + multiset(added)
    {
      assert Pushes(kids, i + 1, closed, bound, annealing, draw)
             == Pushes(kids, i, closed, bound, annealing, draw) + added;
    }

    /** The states pushed from `kids`, created with the levels `moves` at
      * `depth`, carry exactly the admitted levels, in order. */
    lemma {:induction false} PushesTrack(kids: seq<State>, moves: seq<seq<nat>>, n: nat, closed: set<seq<nat>>,
                                         depth: nat, bound: nat, annealing: bool, draw: nat -> bool)
      returns (picks: seq<nat>)
      requires n <= |kids| == |moves|
      requires forall k :: 0 <= k < |kids| ==> kids[k].born == moves[k] && kids[k].depth == depth
      ensures Tracks(Pushes(kids, n, closed, bound, annealing, draw),
                     Admitted(moves, n, closed, depth, bound, annealing, draw), picks, kids, depth)
    {
      if n == 0 {
        picks := [];
      } else {
        picks := PushesTrack(kids, moves, n - 1, closed, depth, bound, annealing, draw);
        if Accepts(kids[n - 1].born, n - 1, closed, kids[n - 1].depth, bound, annealing, draw) {
          picks := picks + [n - 1];
        }
      }
    }

    /** The successors `kids`, created with the levels `moves` at `depth`,
      * are the first entries of `successors`, and distinct. */
    ghost predicate Brood(successors: array<State?>, kids: seq<State>, moves: seq<seq<nat>>, depth: nat)
      reads successors
    {
      |kids| == |moves| <= successors.Length
      && (forall k :: 0 <= k < |kids| ==> successors[k] == kids[k])
      && (forall k :: 0 <= k < |kids| ==> kids[k].born == moves[k] && kids[k].depth == depth)
      && forall j, k :: 0 <= j < k < |kids| ==> kids[j] != kids[k]
    }

    /** The state of the loop over the successors after `i` rounds: the
      * lists are well formed, the closed levels are still `closed`, the
      * successors `kids` not yet offered still hold their levels and are
      * not yet weighed, and the open list holds
      * `base` and the states pushed from the first `i`. */
    ghost predicate Round(successors: array<State?>, i: nat, bound: nat, annealing: bool, draw: nat -> bool,
                          kids: seq<State>, moves: seq<seq<nat>>, depth: nat,
                          closed: set<seq<nat>>, base: multiset<(State, nat)>)
      reads this, openList, closedList, closedList.buckets, successors, kids
    {
      openList.Valid() && closedList.Valid() && closedList.Contents() == closed
      && i <= |kids| && Brood(successors, kids, moves, depth)
      && (forall k :: i <= k < |kids| ==> kids[k].jugs == kids[k].born && !kids[k].heuristicCalculated)
      && PairingHeaps.Contents(openList.root) == base + multiset(Pushes(kids, i, closed, bound, annealing, draw))
    }

    /** One round of the loop over the successors: the `i`-th is offered. */
    method OfferNext(successors: array<State?>, i: nat, bound: nat, annealing: bool, draw: nat -> bool,
                     ghost kids: seq<State>, ghost moves: seq<seq<nat>>, ghost depth: nat,
                     ghost closed: set<seq<nat>>, ghost base: multiset<(State, nat)>)
      requires i < |kids| && Round(successors, i, bound, annealing, draw, kids, moves, depth, closed, base)
      modifies openList, kids`weight, kids`heuristicCalculated
      ensures Round(successors, i + 1, bound, annealing, draw, kids, moves, depth, closed, base)
    {
      var added := Offer(successors[i], i, bound, annealing, draw);
      forall k | i < k < |kids|
        ensures kids[k].jugs == kids[k].born && !kids[k].heuristicCalculated
      {
        assert kids[i] != kids[k];
      }
      PushesNext(kids, i, closed, bound, annealing, draw, added);
    }

    /** The loop over the successors in `findPath`: the successors `kids`,
      * the first entries of `successors`, are offered in turn, with `bound`
      * the weight of the state they come from. */
    method OfferAll(successors: array<State?>, count: nat, bound: nat, annealing: bool, draw: nat -> bool,
                    ghost kids: seq<State>, ghost moves: seq<seq<nat>>, ghost depth: nat)
      returns (ghost pushed: seq<(State, nat)>)
      requires openList.Valid() && closedList.Valid()
      requires count == |kids| && Brood(successors, kids, moves, depth)
      requires forall k :: 0 <= k < count ==> kids[k].jugs == kids[k].born && !kids[k].heuristicCalculated
      modifies openList, kids`weight, kids`heuristicCalculated
      ensures openList.Valid()
      ensures PairingHeaps.Contents(openList.root) == old(PairingHeaps.Contents(openList.root)) + multiset(pushed)
      ensures pushed == Pushes(kids, count, closedList.Contents(), bound, annealing, draw)
    {
      ghost var closed := closedList.Contents();
      ghost var base := PairingHeaps.Contents(openList.root);
      for i := 0 to count
        invariant Round(successors, i, bound, annealing, draw, kids, moves, depth, closed, base)
      {
        OfferNext(successors, i, bound, annealing, draw, kids, moves, depth, closed, base);
      }
      pushed := Pushes(kids, count, closed, bound, annealing, draw);
    }

    /** `e` pairs a child of `current`, not the initial state, with its
      * weight. */
    ghost predicate Offspring(current: State, e: (State, nat))
    {
      e.0.parent == current && e.0.depth == current.depth + 1 && e.0 != initialState
      && e.1 == heuristic(e.0.born, e.0.depth)
    }

    /** The admitted levels are among the moves. */
    lemma {:induction false} AdmittedAreMoves(moves: seq<seq<nat>>, n: nat, closed: set<seq<nat>>, depth: nat,
                                              bound: nat, annealing: bool, draw: nat -> bool)
      requires n <= |moves|
      ensures forall x :: x in Admitted(moves, n, closed, depth, bound, annealing, draw) ==> x in moves
    {
      if n > 0 {
        AdmittedAreMoves(moves, n - 1, closed, depth, bound, annealing, draw);
      }
    }

    /** The successors of `current` in `findPath`: new states, one per
      * move from its levels, in order, each a child of `current` holding
      * the levels of its move and not yet weighed. */
    method Spawn(current: State)
      returns (successors: array<State?>, count: nat, ghost kids: seq<State>, ghost moves: seq<seq<nat>>)
      requires WithinCapacity(current.jugs, capacities)
      ensures moves == Moves(current.jugs, capacities) && count == |kids|
      ensures Brood(successors, kids, moves, current.depth + 1)
      ensures forall k :: 0 <= k < count ==>
                fresh(kids[k]) && kids[k].parent == current
                && kids[k].jugs == kids[k].born && !kids[k].heuristicCalculated
    {
      moves := Moves(current.jugs, capacities);
      successors, count := current.GenerateSuccessors(capacities);
      kids := seq(count, k requires 0 <= k < count reads successors => successors[k]);
      forall k | 0 <= k < count
        ensures current.IsChild(kids[k], moves[k])
      {
        assert current.IsChild(successors[k], moves[k]);
      }
    }

    /** The states pushed from children of `current` are children of
      * `current` carrying their weights. */
    lemma PushedOffspring(current: State, pushed: seq<(State, nat)>, admitted: seq<seq<nat>>, picks: seq<nat>,
                          kids: seq<State>)
      requires Tracks(pushed, admitted, picks, kids, current.depth + 1)
      requires forall k :: 0 <= k < |kids| ==>
                 kids[k].parent == current && kids[k].depth == current.depth + 1 && kids[k] != initialState
      ensures forall k :: 0 <= k < |pushed| ==> Offspring(current, pushed[k])
    {
      forall k | 0 <= k < |pushed|
        ensures Offspring(current, pushed[k])
      {
        assert pushed[k].0 == kids[picks[k]];
      }
    }

    /** The offering of the successors `kids` of `current`, created with
      * the levels `moves`: the open list gains the states pushed, which
      * carry the admitted levels in order, and every one is new, a child
      * of `current`, and intact. */
    method OfferBrood(current: State, annealing: bool, draw: nat -> bool, successors: array<State?>, count: nat,
                      ghost kids: seq<State>, ghost moves: seq<seq<nat>>)
      returns (ghost pushed: seq<(State, nat)>, ghost picks: seq<nat>)
      requires openList.Valid() && closedList.Valid()
      requires count == |kids| && Brood(successors, kids, moves, current.depth + 1)
      requires forall k :: 0 <= k < count ==>
                 kids[k].parent == current && kids[k] != initialState
                 && kids[k].jugs == kids[k].born && !kids[k].heuristicCalculated
      modifies openList, kids`weight, kids`heuristicCalculated
      ensures openList.Valid()
      ensures PairingHeaps.Contents(openList.root) == old(PairingHeaps.Contents(openList.root)) + multiset(pushed)
      ensures var admitted := Admitted(moves, |moves|, closedList.Contents(), current.depth + 1,
                                       current.weight, annealing, draw);
              |pushed| == |admitted| && forall k :: 0 <= k < |pushed| ==> pushed[k].0.born == admitted[k]
      ensures |picks| == |pushed| && forall k :: 0 <= k < |pushed| ==> picks[k] < |kids| && pushed[k].0 == kids[picks[k]]
      ensures forall k :: 0 <= k < |pushed| ==> Offspring(current, pushed[k]) && Intact(pushed[k].0)
    {
      ghost var closed := closedList.Contents();
      pushed := OfferAll(successors, count, current.weight, annealing, draw, kids, moves, current.depth + 1);
      picks := PushesTrack(kids, moves, count, closed, current.depth + 1, current.weight, annealing, draw);
      PushedOffspring(current, pushed, Admitted(moves, count, closed, current.depth + 1, current.weight, annealing, draw),
                      picks, kids);
      forall k | 0 <= k < |pushed|
        ensures Intact(pushed[k].0)
      {
        assert pushed[k].0 == kids[picks[k]];
      }
    }

    /** The expansion of `current` in `findPath`: its successors, one per
      * move from its levels, are generated and every one whose levels are
      * not closed is weighed and, if the annealing test accepts it, pushed
      * with its weight onto the open list, in the order of the moves.
      * Every pushed state is new, a child of `current`, and intact. */
    method Expand(current: State, annealing: bool, draw: nat -> bool)
      returns (ghost moves: seq<seq<nat>>, ghost pushed: seq<(State, nat)>)
      requires openList.Valid() && closedList.Valid() && WithinCapacity(current.jugs, capacities)
      modifies openList
      ensures openList.Valid()
      ensures PairingHeaps.Contents(openList.root) == old(PairingHeaps.Contents(openList.root)) + multiset(pushed)
      ensures moves == Moves(current.jugs, capacities)
      ensures var admitted := Admitted(moves, |moves|, closedList.Contents(), current.depth + 1,
                                       current.weight, annealing, draw);
              |pushed| == |admitted| && forall k :: 0 <= k < |pushed| ==> pushed[k].0.born == admitted[k]
      ensures forall k :: 0 <= k < |pushed| ==>
                Offspring(current, pushed[k]) && fresh(pushed[k].0) && Intact(pushed[k].0)
    {
      var successors, count;
      ghost var kids;
      successors, count, kids, moves := Spawn(current);
      ghost var picks;
      pushed, picks := OfferBrood(current, annealing, draw, successors, count, kids, moves);
      forall k | 0 <= k < |pushed|
        ensures fresh(pushed[k].0)
      {
        assert pushed[k].0 == kids[picks[k]];
      }
    }

    /** The levels the search sees of each of `states`. */
    ghost function HeldAll(states: seq<State>): (r: seq<seq<nat>>)
      ensures |r| == |states| && forall k :: 0 <= k < |states| ==> r[k] == Held(states[k])
    {
      if states == [] then [] else HeldAll(states[..|states| - 1]) + [Held(states[|states| - 1])]
    }

    /** Every state on the open list `m` is reached and intact. */
    ghost predicate Frontier(m: multiset<(State, nat)>)
      reads set e | e in m :: e.0
    {
      forall e :: e in m ==> Reached(e.0) && Intact(e.0)
    }

    /** The state `findPath` keeps as its best after expanding `expanded`
      * with weights `weights`. */
    ghost function BestState(expanded: seq<State>, weights: seq<nat>): State
      requires |weights| == |expanded|
    {
      var r := BestIndex(weights);
      if r < 0 then initialState else expanded[r]
    }

    /** The record of a search: the states expanded so far are reached,
      * and `best` is the best of them, or the initial state, with its
      * weight. */
    ghost predicate Kept(expanded: seq<State>, weights: seq<nat>, best: State, bestWeight: nat)
    {
      |weights| == |expanded|
      && (forall k :: 0 <= k < |expanded| ==> Reached(expanded[k]))
      && best == BestState(expanded, weights) && Reached(best)
      && bestWeight == (if BestIndex(weights) < 0 then UintMax else weights[BestIndex(weights)])
    }

    /** Expanding `current` with weight `w` extends the record: `current`
      * becomes the best state exactly when `w` is below the best weight. */
    lemma KeptNext(expanded: seq<State>, weights: seq<nat>, best: State, bestWeight: nat, current: State, w: nat)
      requires Kept(expanded, weights, best, bestWeight) && Reached(current)
      ensures Kept(expanded + [current], weights + [w], if w < bestWeight then current else best,
                   if w < bestWeight then w else bestWeight)
    {
      assert (weights + [w])[..|weights|] == weights;
    }

    /** What holds between two rounds of `findPath`: both lists are valid,
      * the open list holds reached, intact states, and the record of the
      * expanded states and the closed list agree with it. */
    ghost predicate Searching(expanded: seq<State>, weights: seq<nat>, best: State, bestWeight: nat)
      reads this, openList, closedList, closedList.buckets
      reads set e | e in PairingHeaps.Contents(openList.root) :: e.0
      reads best
    {
      openList.Valid() && closedList.Valid()
      && Frontier(PairingHeaps.Contents(openList.root))
      && Kept(expanded, weights, best, bestWeight) && Intact(best)
      && ClosedLog(closedList, HeldAll(expanded))
    }

    /** The states pushed by an expansion of a reached, intact state are
      * reached and intact. */
    lemma PushedReached(current: State, moves: seq<seq<nat>>, pushed: seq<(State, nat)>, closed: set<seq<nat>>,
                        bound: nat, annealing: bool, draw: nat -> bool)
      requires Reached(current) && Intact(current) && WithinCapacity(current.jugs, capacities)
      requires moves == Moves(current.jugs, capacities)
      requires var admitted := Admitted(moves, |moves|, closed, current.depth + 1, bound, annealing, draw);
               |pushed| == |admitted| && forall k :: 0 <= k < |pushed| ==> pushed[k].0.born == admitted[k]
      requires forall k :: 0 <= k < |pushed| ==> Offspring(current, pushed[k]) && Intact(pushed[k].0)
      ensures Frontier(multiset(pushed))
    {
      var admitted := Admitted(moves, |moves|, closed, current.depth + 1, bound, annealing, draw);
      AdmittedAreMoves(moves, |moves|, closed, current.depth + 1, bound, annealing, draw);
      forall e | e in multiset(pushed)
        ensures Reached(e.0) && Intact(e.0)
      {
        var k :| 0 <= k < |pushed| && pushed[k] == e;
        assert admitted[k] in admitted;
        ReachedChild(current, e.0);
      }
    }

    /** Part of an open list of reached, intact states is one. */
    lemma FrontierPart(a: multiset<(State, nat)>, b: multiset<(State, nat)>)
      requires Frontier(a) && b <= a
      ensures Frontier(b)
    {
    }

    /** Two open lists of reached, intact states together are one. */
    lemma FrontierJoin(a: multiset<(State, nat)>, b: multiset<(State, nat)>)
      requires Frontier(a) && Frontier(b)
      ensures Frontier(a + b)
    {
    }

    /** The expansion of a reached, intact state keeps the open list one of
      * reached, intact states. */
    method Grow(current: State, annealing: bool, draw: nat -> bool, ghost expanded: seq<State>, ghost weights: seq<nat>,
                best: State, bestWeight: nat)
      requires Searching(expanded, weights, best, bestWeight) && Reached(current) && Intact(current)
      requires forall e :: e in PairingHeaps.Contents(openList.root) ==> allocated(e.0)
      modifies openList
      ensures Searching(expanded, weights, best, bestWeight)
      ensures forall e :: e in PairingHeaps.Contents(openList.root) ==> allocated(e.0)
    {
      ghost var waiting := PairingHeaps.Contents(openList.root);
      ReachedWithin(current);
      ghost var moves, pushed;
      moves, pushed := Expand(current, annealing, draw);
      assert (closedList as object) != (openList as object) && (closedList.buckets as object) != (openList as object);
      assert (best as object) != (openList as object);
      forall e | e in waiting
        ensures Reached(e.0) && Intact(e.0)
      {
        assert old(allocated(e.0)) && (e.0 as object) != (openList as object);
      }
      PushedReached(current, moves, pushed, closedList.Contents(), current.weight, annealing, draw);
      FrontierJoin(waiting, multiset(pushed));
    }

    /** A popped state `current` whose levels are not closed: they are
      * closed, and `current` becomes the best state when its weight is
      * below the best weight. */
    method Admit(current: State, best: State, bestWeight: nat, ghost expanded: seq<State>, ghost weights: seq<nat>)
      returns (newBest: State, newBestWeight: nat)
      requires Searching(expanded, weights, best, bestWeight) && Reached(current) && Intact(current)
      requires Held(current) !in closedList.Contents()
      requires forall e :: e in PairingHeaps.Contents(openList.root) ==> allocated(e.0)
      modifies closedList, closedList.buckets
      ensures Searching(expanded + [current], weights + [current.weight], newBest, newBestWeight)
      ensures forall e :: e in PairingHeaps.Contents(openList.root) ==> allocated(e.0)
      ensures newBest == if current.weight < bestWeight then current else best
      ensures closedList.buckets == old(closedList.buckets) || fresh(closedList.buckets)
    {
      ghost var waiting := PairingHeaps.Contents(openList.root);
      assert HeldAll(expanded + [current]) == HeldAll(expanded) + [current.jugs];
      CloseNew(closedList, current.jugs, HeldAll(expanded));
      assert (openList as object) != (closedList as object) && (openList as object) != (old(closedList.buckets) as object);
      assert (best as object) != (closedList as object) && (best as object) != (old(closedList.buckets) as object);
      forall e | e in waiting
        ensures Reached(e.0) && Intact(e.0)
      {
        assert old(allocated(e.0)) && (e.0 as object) != (closedList as object);
      }
      KeptNext(expanded, weights, best, bestWeight, current, current.weight);
      newBest, newBestWeight := best, bestWeight;
      if current.weight < bestWeight {
        newBest, newBestWeight := current, current.weight;
      }
    }

    /** `open_list.pop()` on a non-empty open list: the state popped is
      * reached and intact, and the rest of the search state is kept. */
    method Take(ghost expanded: seq<State>, ghost weights: seq<nat>, best: State, bestWeight: nat)
      returns (current: State)
      requires Searching(expanded, weights, best, bestWeight) == true && openList.root.Node?
      requires forall e :: e in PairingHeaps.Contents(openList.root) ==> allocated(e.0)
      modifies openList
      ensures Searching(expanded, weights, best, bestWeight)
      ensures forall e :: e in PairingHeaps.Contents(openList.root) ==> allocated(e.0)
      ensures Reached(current) && Intact(current) && WithinCapacity(current.jugs, capacities)
    {
      ghost var waiting := PairingHeaps.Contents(openList.root);
      ghost var top := (openList.root.item, openList.root.weight);
      var popped := openList.Pop();
      current := popped.value;
      assert top in waiting;
      assert (closedList as object) != (openList as object) && (closedList.buckets as object) != (openList as object);
      assert (best as object) != (openList as object);
      forall e | e in waiting
        ensures Reached(e.0) && Intact(e.0)
      {
        assert old(allocated(e.0)) && (e.0 as object) != (openList as object);
      }
      FrontierPart(waiting, PairingHeaps.Contents(openList.root));
      ReachedWithin(current);
    }

    /** The body of the main loop of `findPath` for a popped state
      * `current` whose levels are not closed: they are closed, `current`
      * becomes the best state when its weight is below the best weight,
      * and it is expanded. */
    method Open(current: State, annealing: bool, draw: nat -> bool, best: State, bestWeight: nat,
                ghost expanded: seq<State>, ghost weights: seq<nat>)
      returns (newBest: State, newBestWeight: nat)
      requires Searching(expanded, weights, best, bestWeight) == true && Reached(current) && Intact(current)
      requires Held(current) !in closedList.Contents()
      requires forall e :: e in PairingHeaps.Contents(openList.root) ==> allocated(e.0)
      modifies openList, closedList, closedList.buckets
      ensures Searching(expanded + [current], weights + [current.weight], newBest, newBestWeight)
      ensures forall e :: e in PairingHeaps.Contents(openList.root) ==> allocated(e.0)
      ensures newBest == if current.weight < bestWeight then current else best
      ensures closedList.buckets == old(closedList.buckets) || fresh(closedList.buckets)
    {
      newBest, newBestWeight := Admit(current, best, bestWeight, expanded, weights);
      Grow(current, annealing, draw, expanded + [current], weights + [current.weight], newBest, newBestWeight);
    }
  }

  /** `reconstructPath`: the states from the root of `finalState`'s parent
    * chain down to `finalState`, in a new array; every state of the chain
    * but the root leaves the closed list `closed`. */
  method ReconstructPath(finalState: State, closed: RobinHood.RobinHoodTable) returns (path: Path)
    requires Rooted(finalState) && closed.Valid()
    modifies closed, closed.buckets
    ensures path.states != null && fresh(path.states)
    ensures path.length == path.states.Length == |Chain(finalState)|
    ensures forall k :: 0 <= k < path.length ==> path.states[k] == Chain(finalState)[k]
    ensures closed.Valid() && closed.buckets == old(closed.buckets)
    ensures closed.Contents() == old(closed.Contents()) - NonRootLevels(Trail(Chain(finalState)), 0)
  {
    ghost var chain := Chain(finalState);
    ghost var levels := Trail(chain);
    ChainShape(finalState);
    var length := ChainLength(finalState);
    var states := FillPath(finalState, length, closed, chain, levels);
    assert Trail(chain) == levels;
    path := Path(states, length);
  }
}
