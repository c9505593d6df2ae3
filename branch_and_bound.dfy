/** The branch and bound of lab3/codigo/src/BranchAndBound.cpp: a
  * backtracking search over one shared incremental colouring state, which
  * picks the most dangerous uncoloured vertex, tries its free colours below
  * the target in increasing colour danger and undoes each failed choice,
  * and a driver that moves the target colour count between the bounds.
  * The two danger values (floating-point formulas of the heuristic) are
  * parameters of the search. */
module Backtracking {
  import opened GraphBasics
  import opened ColoringBasics
  import opened GreedyColoring
  import opened IncrementalColoringState
  import opened DangerHeuristic
  import opened FirstFitBounds

  /** The colours of `available` that are below `k` and that no neighbour
    * of `vertex` has, in their order in `available`. */
  function Eligible(adj: seq<set<int>>, colors: seq<int>, vertex: int, available: seq<int>, k: int): (r: seq<int>)
    requires 0 <= vertex < |adj|
    ensures forall c :: c in r <==> c in available && c < k && FreeFor(adj, colors, vertex, c)
  {
    if available == [] then []
    else
      var c := available[|available| - 1];
      var rest := Eligible(adj, colors, vertex, available[..|available| - 1], k);
      assert available == available[..|available| - 1] + [c];
      if c < k && FreeFor(adj, colors, vertex, c) then rest + [c] else rest
  }

  /** Strictly increasing danger along `s`. */
  predicate AscendingDanger(s: seq<int>, danger: int -> real) {
    forall i, j :: 0 <= i < j < |s| ==> danger(s[i]) < danger(s[j])
  }

  /** No entry before position `i` has the danger of `s[i]`. */
  predicate FirstOfDanger(s: seq<int>, i: int, danger: int -> real)
    requires 0 <= i < |s|
  {
    forall j :: 0 <= j < i ==> danger(s[j]) != danger(s[i])
  }

  /** `colorSet.insert({danger(c), c})` on the tree keyed by danger: `c`
    * goes before the first entry of greater danger, and is dropped when an
    * entry of the same danger is there already. Nothing else comes or goes. */
  function InsertByDanger(entries: seq<int>, c: int, danger: int -> real): (r: seq<int>)
    ensures forall x :: x in r ==> x in entries || x == c
    ensures forall y :: y in entries ==> y in r
    ensures c !in r ==> exists y :: y in entries && danger(y) == danger(c)
  {
    if entries == [] then [c]
    else if danger(c) < danger(entries[0]) then [c] + entries
    else if danger(c) == danger(entries[0]) then
      var y := entries[0];
      assert y in entries && danger(y) == danger(c);
      entries
    else
      assert entries == [entries[0]] + entries[1..];
      [entries[0]] + InsertByDanger(entries[1..], c, danger)
  }

  /** The tree after inserting the candidates one by one, read in key order. */
  function ByDanger(candidates: seq<int>, danger: int -> real): (r: seq<int>)
  {
    if candidates == [] then []
    else InsertByDanger(ByDanger(candidates[..|candidates| - 1], danger), candidates[|candidates| - 1], danger)
  }

  /** The entries after the first of an ascending sequence are ascending and
    * all more dangerous than the first. */
  lemma AscendingTail(entries: seq<int>, danger: int -> real)
    requires AscendingDanger(entries, danger) && entries != []
    ensures AscendingDanger(entries[1..], danger)
    ensures forall y :: y in entries[1..] ==> danger(entries[0]) < danger(y)
  {
    var tail := entries[1..];
    forall i, j | 0 <= i < j < |tail| ensures danger(tail[i]) < danger(tail[j]) {
      assert tail[i] == entries[i + 1] && tail[j] == entries[j + 1];
    }
    forall y | y in tail ensures danger(entries[0]) < danger(y) {
      var m :| 0 <= m < |tail| && tail[m] == y;
      assert tail[m] == entries[m + 1];
    }
  }

  /** A colour less dangerous than every entry of an ascending sequence
    * can go in front of it. */
  lemma PrependAscending(x: int, entries: seq<int>, danger: int -> real)
    requires AscendingDanger(entries, danger)
    requires forall y :: y in entries ==> danger(x) < danger(y)
    ensures AscendingDanger([x] + entries, danger)
  {
    var r := [x] + entries;
    forall i, j | 0 <= i < j < |r| ensures danger(r[i]) < danger(r[j]) {
      assert r[j] == entries[j - 1];
      if i > 0 {
        assert r[i] == entries[i - 1];
      }
    }
  }

  /** Inserting into an ascending sequence keeps it ascending. */
  lemma {:induction false} InsertKeepsAscending(entries: seq<int>, c: int, danger: int -> real)
    requires AscendingDanger(entries, danger)
    ensures AscendingDanger(InsertByDanger(entries, c, danger), danger)
  {
    if entries != [] {
      AscendingTail(entries, danger);
      if danger(c) < danger(entries[0]) {
        assert entries == [entries[0]] + entries[1..];
        PrependAscending(c, entries, danger);
      } else if danger(c) > danger(entries[0]) {
        InsertKeepsAscending(entries[1..], c, danger);
        PrependAscending(entries[0], InsertByDanger(entries[1..], c, danger), danger);
      }
    }
  }

  /** Inserting a colour more dangerous than the first entry keeps that
    * entry first and inserts into the rest. */
  lemma InsertPastFirst(entries: seq<int>, c: int, danger: int -> real)
    requires entries != [] && danger(c) > danger(entries[0])
    ensures InsertByDanger(entries, c, danger) == [entries[0]] + InsertByDanger(entries[1..], c, danger)
  {
  }

  /** Inserting a colour whose danger an entry of an ascending sequence
    * already has changes nothing. */
  lemma {:induction false} InsertSameDanger(entries: seq<int>, c: int, danger: int -> real, m: nat)
    requires AscendingDanger(entries, danger)
    requires m < |entries| && danger(entries[m]) == danger(c)
    ensures InsertByDanger(entries, c, danger) == entries
  {
    if m > 0 {
      assert danger(entries[0]) < danger(entries[m]);
      AscendingTail(entries, danger);
      assert entries[1..][m - 1] == entries[m];
      InsertSameDanger(entries[1..], c, danger, m - 1);
      InsertPastFirst(entries, c, danger);
      assert [entries[0]] + entries[1..] == entries;
    }
  }

  /** The tree built from the candidates holds candidates only, in strictly
    * increasing danger (so one colour per danger value). */
  lemma {:induction false} ByDangerAscending(candidates: seq<int>, danger: int -> real)
    ensures AscendingDanger(ByDanger(candidates, danger), danger)
    ensures forall x :: x in ByDanger(candidates, danger) ==> x in candidates
  {
    if candidates != [] {
      var n := |candidates| - 1;
      var front := candidates[..n];
      ByDangerAscending(front, danger);
      InsertKeepsAscending(ByDanger(front, danger), candidates[n], danger);
      assert forall x :: x in front ==> x in candidates;
    }
  }

  /** The tree holds every candidate that comes first among those of its
    * danger. */
  lemma {:induction false} ByDangerKeepsFirsts(candidates: seq<int>, danger: int -> real)
    ensures forall i :: 0 <= i < |candidates| && FirstOfDanger(candidates, i, danger) ==>
      candidates[i] in ByDanger(candidates, danger)
  {
    if candidates != [] {
      var n := |candidates| - 1;
      var front := candidates[..n];
      var c := candidates[n];
      var before := ByDanger(front, danger);
      ByDangerKeepsFirsts(front, danger);
      ByDangerAscending(front, danger);
      forall i | 0 <= i < |candidates| && FirstOfDanger(candidates, i, danger)
        ensures candidates[i] in ByDanger(candidates, danger)
      {
        if i < n {
          assert front[i] == candidates[i];
          assert FirstOfDanger(front, i, danger);
        } else {
          forall y | y in before ensures danger(y) != danger(c) {
            var j :| 0 <= j < n && front[j] == y;
          }
        }
      }
    }
  }

  /** The tree built from the candidates holds candidates only, in strictly
    * increasing danger (so one colour per danger value), and holds every
    * candidate that comes first among those of its danger. */
  lemma ByDangerSpec(candidates: seq<int>, danger: int -> real)
    ensures AscendingDanger(ByDanger(candidates, danger), danger)
    ensures forall x :: x in ByDanger(candidates, danger) ==> x in candidates
    ensures forall i :: 0 <= i < |candidates| && FirstOfDanger(candidates, i, danger) ==>
      candidates[i] in ByDanger(candidates, danger)
  {
    ByDangerAscending(candidates, danger);
    ByDangerKeepsFirsts(candidates, danger);
  }

  /** `after` keeps every colour of `before` and gives each vertex that
    * `before` leaves uncoloured a colour below `k`. */
  predicate Extends(before: seq<int>, after: seq<int>, k: int) {
    |after| == |before|
    && forall v :: 0 <= v < |before| ==>
      if before[v] == Uncolored then 0 <= after[v] < k else after[v] == before[v]
  }

  /** Colouring one uncoloured vertex below `k` and extending the result
    * extends the colouring before. */
  lemma ExtendsAfterColoring(before: seq<int>, vertex: int, color: int, after: seq<int>, k: int)
    requires 0 <= vertex < |before| && before[vertex] == Uncolored && 0 <= color < k
    requires Extends(before[vertex := color], after, k)
    ensures Extends(before, after, k)
  {
    assert after[vertex] == color;
  }

  /** Every vertex of a first-fit colouring below `cap` is uncoloured or
    * has a colour below `cap`. */
  lemma FirstFitBelowCap(adj: seq<set<int>>, order: seq<int>, colors: seq<int>, cap: int)
    requires VertexOrder(adj, order) && |colors| == |adj|
    requires FirstFitUpTo(adj, order, colors, cap, |order|)
    ensures forall v :: 0 <= v < |adj| ==> colors[v] == Uncolored || 0 <= colors[v] < cap
  {
    forall v | 0 <= v < |adj| ensures colors[v] == Uncolored || 0 <= colors[v] < cap {
      assert v in order;
      var j :| 0 <= j < |order| && order[j] == v;
      assert FirstFitAt(adj, order, colors, cap, j);
    }
  }

  class BranchAndBound {
    const adj: seq<set<int>>
    const heuristic: Heuristic
    const bounds: Bounds
    const bestValidSolution: ColoringState
    const bestK: int
    /** `calculateVertexDanger(state, v)`, as a function of the colours. */
    const vertexDanger: (seq<int>, int) -> real
    /** `calculateColorDanger(state, vertex, color)`, as a function of the colours. */
    const colorDanger: (seq<int>, int, int) -> real

    /** `BranchAndBound(g, b, dh)`: keeps the graph, the bounds and the
      * heuristic, and starts from an empty state with `|g|` colours. */
    constructor (g: seq<set<int>>, b: Bounds, dh: Heuristic,
                 vertexDanger: (seq<int>, int) -> real, colorDanger: (seq<int>, int, int) -> real)
      requires InRange(g)
      ensures adj == g && bounds == b && heuristic == dh
      ensures this.vertexDanger == vertexDanger && this.colorDanger == colorDanger
      ensures fresh(bestValidSolution) && bestValidSolution.Valid() && bestValidSolution.adj == g
      ensures bestValidSolution.colors == seq(|g|, _ => Uncolored) && |bestValidSolution.colorClass| == |g|
      ensures bestK == |g|
    {
      adj := g;
      heuristic := dh;
      bounds := b;
      this.vertexDanger := vertexDanger;
      this.colorDanger := colorDanger;
      bestValidSolution := new ColoringState(g, |g|);
      bestK := |g|;
    }

    /** The danger of each colour for `vertex` under the colours `colors`. */
    function ColorDangerOf(colors: seq<int>, vertex: int): int -> real {
      c => colorDanger(colors, vertex, c)
    }

    /** `isColorValid(state, vertex, color)`: no neighbour has the colour. */
    method IsColorValid(state: ColoringState, vertex: int, color: int) returns (b: bool)
      requires state.Valid() && 0 <= vertex < |state.adj|
      ensures b <==> FreeFor(state.adj, state.colors, vertex, color)
    {
      b := state.IsValidAssignment(vertex, color);
    }

    /** `selectBestVertex(state)`: an uncoloured vertex of greatest danger,
      * the lowest-numbered one on a tie, or -1 when no uncoloured vertex
      * has a danger above the lowest double. */
    method SelectBestVertex(state: ColoringState) returns (selected: int)
      requires state.Valid()
      ensures selected == -1 <==>
        forall u :: u in state.uncoloredVertices ==> vertexDanger(state.colors, u) <= -MaxDouble
      ensures selected != -1 ==> selected in state.uncoloredVertices && state.colors[selected] == Uncolored
      ensures selected != -1 ==> forall u :: u in state.uncoloredVertices ==>
        vertexDanger(state.colors, u) < vertexDanger(state.colors, selected)
        || (vertexDanger(state.colors, u) == vertexDanger(state.colors, selected) && selected <= u)
    {
      var colors := state.colors;
      selected := MostDangerous(state.uncoloredVertices, v => vertexDanger(colors, v));
    }

    /** Lines 89-106 of `branchAndBoundRecursive`: every available colour
      * below the target that is a valid assignment goes into the tree keyed
      * by its danger; the result is the tree read in key order. */
    method OrderColors(state: ColoringState, vertex: int, available: seq<int>, targetColors: int)
      returns (colorSet: seq<int>)
      requires state.Valid() && 0 <= vertex < |state.adj|
      ensures colorSet == ByDanger(Eligible(state.adj, state.colors, vertex, available, targetColors),
                                   ColorDangerOf(state.colors, vertex))
      ensures forall c :: c in colorSet ==> c in available && c < targetColors && FreeFor(state.adj, state.colors, vertex, c)
    {
      ghost var danger := ColorDangerOf(state.colors, vertex);
      colorSet := [];
      for t := 0 to |available|
        invariant colorSet == ByDanger(Eligible(state.adj, state.colors, vertex, available[..t], targetColors), danger)
      {
        var color := available[t];
        assert available[..t + 1][..t] == available[..t];
        if color < targetColors {
          var valid := IsColorValid(state, vertex, color);
          if valid {
            colorSet := InsertByDanger(colorSet, color, ColorDangerOf(state.colors, vertex));
          }
        }
      }
      assert available[..|available|] == available;
      ByDangerSpec(Eligible(state.adj, state.colors, vertex, available, targetColors), ColorDangerOf(state.colors, vertex));
    }

    /** `branchAndBoundRecursive(state, targetColors)`. A complete state
      * answers whether it is legal. Otherwise the most dangerous uncoloured
      * vertex takes, in increasing danger, each free colour below the
      * target, the search goes on from there, and the colour is taken back
      * when it fails. Success leaves a complete, legal colouring that only
      * adds colours below the target; failure leaves the colours, the
      * uncoloured list and (without self-loops) the conflict count as they
      * were. */
    method BranchAndBoundRecursive(state: ColoringState, targetColors: int) returns (found: bool)
      requires state.Valid() && state.adj == adj && targetColors >= 0
      modifies state
      decreases |state.uncoloredVertices|, 1
      ensures state.Valid()
      ensures found ==> state.IsComplete() && state.IsLegal()
      ensures found ==> Extends(old(state.colors), state.colors, targetColors)
      ensures !found ==> state.colors == old(state.colors) && state.uncoloredVertices == old(state.uncoloredVertices)
      ensures !found && LoopFree(adj) ==> state.numConflicts == old(state.numConflicts)
      ensures state.numColors >= old(state.numColors)
    {
      if state.IsComplete() {
        return state.IsLegal();
      }
      var vertex := SelectBestVertex(state);
      if vertex == -1 {
        return false;
      }
      var available := state.GetAvailableColors(vertex, targetColors);
      var colorSet := OrderColors(state, vertex, available, targetColors);
      if colorSet == [] {
        return false;
      }
      forall t | 0 <= t < |colorSet| ensures 0 <= colorSet[t] < targetColors {
        assert colorSet[t] in colorSet;
      }
      ghost var colors0 := state.colors;
      ghost var uncolored0 := state.uncoloredVertices;
      ghost var conflicts0 := state.numConflicts;
      ghost var numColors0 := state.numColors;
      for t := 0 to |colorSet|
        invariant state.Valid() && state.adj == adj
        invariant state.colors == colors0 && state.uncoloredVertices == uncolored0
        invariant LoopFree(adj) ==> state.numConflicts == conflicts0
        invariant state.numColors >= numColors0
      {
        found := TryColor(state, vertex, colorSet[t], targetColors);
        if found {
          return true;
        }
      }
      return false;
    }

    /** Lines 117-128 of `branchAndBoundRecursive`: give the uncoloured
      * `vertex` the colour, search on from there, and take the colour back
      * when that search fails. */
    method TryColor(state: ColoringState, vertex: int, color: int, targetColors: int) returns (found: bool)
      requires state.Valid() && state.adj == adj && 0 <= color < targetColors
      requires vertex in state.uncoloredVertices
      modifies state
      decreases |state.uncoloredVertices|, 0
      ensures state.Valid()
      ensures found ==> state.IsComplete() && state.IsLegal()
      ensures found ==> Extends(old(state.colors), state.colors, targetColors)
      ensures !found ==> state.colors == old(state.colors) && state.uncoloredVertices == old(state.uncoloredVertices)
      ensures !found && LoopFree(adj) ==> state.numConflicts == old(state.numConflicts)
      ensures state.numColors >= old(state.numColors)
    {
      ghost var colors0 := state.colors;
      state.AssignColor(vertex, color, targetColors);
      assert |state.uncoloredVertices| < |old(state.uncoloredVertices)|;
      found := BranchAndBoundRecursive(state, targetColors);
      if found {
        ExtendsAfterColoring(colors0, vertex, color, state.colors, targetColors);
        return;
      }
      state.UnassignColor(vertex);
      assert state.colors == colors0[vertex := color][vertex := Uncolored];
      assert state.colors == colors0;
      if LoopFree(adj) {
        TallyOffVertex(adj[vertex], colors0, vertex, color, color);
      }
    }

    /** `generateInitialColoring(k)` for the next round: a fresh valid
      * state whose coloured vertices all have colours below `k`. */
    method InitialState(k: int, order: seq<int>) returns (state: ColoringState)
      requires InRange(adj) && DegreeOrder(adj, order) && heuristic.adj == adj && k >= 0
      modifies heuristic
      ensures heuristic.targetColors == k
      ensures fresh(state) && state.Valid() && state.adj == adj
      ensures forall v :: 0 <= v < |adj| ==> state.colors[v] == Uncolored || 0 <= state.colors[v] < k
    {
      state := heuristic.GenerateInitialColoring(k, order);
      FirstFitBelowCap(adj, order, state.colors, k);
    }

    /** Lines 15-21 of `solve`: search with `k` colours from `state`; on
      * success the state becomes the solution and the upper bound drops to
      * `k`, otherwise the solution and the bounds stay as they are. */
    method Attempt(state: ColoringState, k: int, solution: ColoringState) returns (success: bool)
      requires state.Valid() && state.adj == adj && solution.adj == adj && state != solution && k > 0
      requires forall v :: 0 <= v < |adj| ==> state.colors[v] == Uncolored || 0 <= state.colors[v] < k
      modifies state, solution, bounds
      ensures bounds.lowerBound == old(bounds.lowerBound)
      ensures bounds.upperBound == if success && k < old(bounds.upperBound) then k else old(bounds.upperBound)
      ensures !success ==> unchanged(solution)
      ensures success ==> solution.Valid() && solution.IsComplete() && solution.IsLegal()
      ensures success ==> forall v :: 0 <= v < |adj| ==> 0 <= solution.colors[v] < k
    {
      ghost var start := state.colors;
      var found := BranchAndBoundRecursive(state, k);
      success := found && state.IsLegal() && state.IsComplete();
      if success {
        solution.CopyFrom(state);
        bounds.UpdateUpperBound(k);
        forall v | 0 <= v < |adj| ensures 0 <= solution.colors[v] < k {
          assert Extends(start, state.colors, k);
        }
      }
    }

    /** `solve(solution)`: start at the lower bound with the initial
      * colouring; after a success record the state as the solution, lower
      * the upper bound to `k` and try `k - 1` while above the lower bound;
      * after a failure raise the lower bound to `k + 1` and try `k + 1`
      * while within the upper bound; stop once `k` leaves `1 .. |adj|`.
      * The loop ends, the bounds only tighten, and the solution is either
      * untouched or a complete legal colouring, below the upper bound when
      * the bounds started in order. */
    method Solve(solution: ColoringState, order: seq<int>)
      requires InRange(adj) && DegreeOrder(adj, order) && bounds.lowerBound >= 0
      requires heuristic.adj == adj && bounds.adj == adj && solution.adj == adj
      modifies solution, heuristic, bounds
      ensures bounds.lowerBound >= old(bounds.lowerBound) && bounds.upperBound <= old(bounds.upperBound)
      ensures unchanged(solution) || (solution.Valid() && solution.IsComplete() && solution.IsLegal())
      ensures old(bounds.lowerBound) <= old(bounds.upperBound) && !unchanged(solution) ==>
        forall v :: 0 <= v < |adj| ==> 0 <= solution.colors[v] < bounds.upperBound
    {
      var currentK := bounds.lowerBound;
      var currentState := InitialState(currentK, order);
      ghost var ordered := bounds.lowerBound <= bounds.upperBound;
      ghost var recorded := false;
      while currentK >= bounds.lowerBound && currentK > 0
        invariant fresh(currentState) && currentState.Valid() && currentState.adj == adj
        invariant currentK > 0 ==> forall v :: 0 <= v < |adj| ==>
          currentState.colors[v] == Uncolored || 0 <= currentState.colors[v] < currentK
        invariant bounds.adj == adj && heuristic.adj == adj && solution.adj == adj
        invariant bounds.lowerBound >= old(bounds.lowerBound) && bounds.upperBound <= old(bounds.upperBound)
        invariant !recorded ==> unchanged(solution)
        invariant recorded ==> solution.Valid() && solution.IsComplete() && solution.IsLegal()
        invariant ordered ==> currentK <= bounds.upperBound
        invariant ordered && recorded ==> forall v :: 0 <= v < |adj| ==> 0 <= solution.colors[v] < bounds.upperBound
        decreases if bounds.upperBound > bounds.lowerBound then bounds.upperBound - bounds.lowerBound else 0,
                  currentK - bounds.lowerBound
      {
        var success := Attempt(currentState, currentK, solution);
        if success {
          recorded := true;
          if currentK > bounds.lowerBound {
            currentK := currentK - 1;
            currentState := InitialState(currentK, order);
          } else {
            break;
          }
        } else {
          bounds.UpdateLowerBound(currentK + 1);
          if currentK + 1 <= bounds.upperBound {
            currentK := currentK + 1;
            currentState := InitialState(currentK, order);
          } else {
            break;
          }
        }
        if currentK <= 0 || currentK > |adj| {
          break;
        }
      }
    }
  }
}
