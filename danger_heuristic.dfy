/** The danger heuristic of lab2/codigo/src/DangerHeuristic.cpp over the
  * incremental colouring state: the greedy initial colouring, the neighbour
  * counts, the share ratio, and the choice of vertex and colour. The danger
  * values themselves (floating-point formulas) are parameters. */
module DangerHeuristic {
  import opened GraphBasics
  import opened Sets
  import opened ColoringBasics
  import opened GreedyColoring
  import opened IncrementalColoringState

  /** `std::numeric_limits<double>::max()`, the largest finite double. */
  const MaxDouble: real := 179769313486231570814527423731704356798070567525844996598917476803157260780028538760589558632766878171540458953514382464234321326889464182768467546703537516986049910576551282076245490090389328944075868508455133942304583236903222948165808559332123348274797826204144723168738177180919299881250404026184124858368.0

  /** How many distinct colours the neighbours of `v` have. */
  function Saturation(adj: seq<set<int>>, colors: seq<int>, v: int): nat
    requires 0 <= v < |adj|
  {
    |ColorsAmong(adj[v], colors)|
  }

  /** `v` is uncoloured and no uncoloured vertex has more distinct colours
    * around it. */
  ghost predicate MostSaturated(adj: seq<set<int>>, colors: seq<int>, v: int)
    requires |colors| == |adj|
  {
    0 <= v < |adj| && colors[v] == Uncolored
    && forall u :: 0 <= u < |adj| && colors[u] == Uncolored ==> Saturation(adj, colors, u) <= Saturation(adj, colors, v)
  }

  /** The colours below `k` that `v` may take without a conflict; none for
    * an unknown vertex. */
  ghost function FreeColors(adj: seq<set<int>>, colors: seq<int>, v: int, k: int): set<int>
  {
    if 0 <= v < |adj| then set c | 0 <= c < k && FreeFor(adj, colors, v, c) else {}
  }

  /** Colour `c` could still go to an uncoloured neighbour of `v`. */
  ghost predicate Shareable(adj: seq<set<int>>, colors: seq<int>, v: int, c: int)
    requires 0 <= v < |adj|
  {
    exists u :: u in adj[v] && 0 <= u < |adj| && 0 <= u < |colors| && colors[u] == Uncolored && FreeFor(adj, colors, u, c)
  }

  /** The listed colours that could still go to an uncoloured neighbour of `v`. */
  ghost function SharedAmong(adj: seq<set<int>>, colors: seq<int>, v: int, listed: seq<int>): set<int>
    requires 0 <= v < |adj|
  {
    set c | c in listed && Shareable(adj, colors, v, c)
  }

  lemma SharedAmongSnoc(adj: seq<set<int>>, colors: seq<int>, v: int, listed: seq<int>, c: int)
    requires 0 <= v < |adj|
    ensures SharedAmong(adj, colors, v, listed + [c])
         == SharedAmong(adj, colors, v, listed) + (if Shareable(adj, colors, v, c) then {c} else {})
  {
  }

  /** The colours `v` may take that could also go to an uncoloured neighbour. */
  ghost function SharedColors(adj: seq<set<int>>, colors: seq<int>, v: int, k: int): set<int>
    requires 0 <= v < |adj|
  {
    set c | c in FreeColors(adj, colors, v, k) && Shareable(adj, colors, v, c)
  }

  /** A part over a non-empty whole lies between 0 and 1. */
  lemma RatioBounds(part: nat, whole: nat)
    requires 0 < whole && part <= whole
    ensures 0.0 <= part as real / whole as real <= 1.0
  {
    assert part as real <= whole as real;
  }

  /** The `std::set` loop of `selectBestVertex` over candidates in ascending
    * order keeping the first one of strictly greatest danger, starting from
    * the lowest double: -1 when no candidate's danger exceeds it. */
  method MostDangerous(candidates: set<int>, danger: int -> real) returns (selected: int)
    requires forall u :: u in candidates ==> u >= 0
    ensures selected == -1 <==> forall u :: u in candidates ==> danger(u) <= -MaxDouble
    ensures selected != -1 ==> selected in candidates && forall u :: u in candidates ==>
      danger(u) < danger(selected) || (danger(u) == danger(selected) && selected <= u)
  {
    var maxDanger := -MaxDouble;
    selected := -1;
    var rest := candidates;
    while rest != {}
      invariant rest <= candidates
      invariant forall u, w :: u in rest && w in candidates && w !in rest ==> w < u
      invariant selected == -1 ==>
        maxDanger == -MaxDouble && forall w :: w in candidates && w !in rest ==> danger(w) <= -MaxDouble
      invariant selected != -1 ==>
        selected in candidates && selected !in rest && maxDanger == danger(selected) && maxDanger > -MaxDouble
      invariant selected != -1 ==> forall w :: w in candidates && w !in rest ==>
        danger(w) < maxDanger || (danger(w) == maxDanger && selected <= w)
      decreases |rest|
    {
      var v := PickLeast(rest);
      var d := danger(v);
      if d > maxDanger {
        maxDanger := d;
        selected := v;
      }
      rest := rest - {v};
    }
  }

  class Heuristic {
    const adj: seq<set<int>>
    var targetColors: int

    /** `DangerHeuristic(g)`: the graph, and a colour target of 0. */
    constructor (g: seq<set<int>>)
      ensures adj == g && targetColors == 0
    {
      adj := g;
      targetColors := 0;
    }

    /** `generateInitialColoring(k)`: remember `k`, then visit the vertices
      * by non-increasing degree (`order`, the sorted vector) and give each
      * uncoloured one the first of its available colours below `k`, if
      * any. The result is the first-fit colouring of that order with
      * colours below `k`: conflict-free, and complete only when `k` is
      * large enough. */
    method GenerateInitialColoring(k: int, order: seq<int>) returns (state: ColoringState)
      requires InRange(adj) && k >= 0 && DegreeOrder(adj, order)
      modifies this
      ensures targetColors == k
      ensures fresh(state) && state.Valid() && state.adj == adj && |state.colorClass| == k
      ensures FirstFitUpTo(adj, order, state.colors, k, |order|)
      ensures LoopFree(adj) ==> state.numConflicts == 0
      ensures Simple(adj) ==> state.IsLegal()
    {
      targetColors := k;
      state := new ColoringState(adj, k);
      for i := 0 to |order|
        invariant fresh(state) && targetColors == k
        invariant state.Valid() && state.adj == adj && |state.colorClass| == k
        invariant FirstFitUpTo(adj, order, state.colors, k, i)
        invariant LoopFree(adj) ==> state.numConflicts == 0
      {
        var vertex := order[i];
        if state.GetColor(vertex) == Uncolored {
          var available := state.GetAvailableColors(vertex, k);
          if available != [] {
            var bestColor := available[0];
            assert bestColor in available;
            assert forall d :: 0 <= d < bestColor ==> d !in available;
            assert forall d :: 0 <= d < bestColor ==> !FreeFor(adj, state.colors, vertex, d);
            FirstFitStep(adj, order, state.colors, k, i, bestColor);
            state.AssignColor(vertex, bestColor, k);
            if LoopFree(adj) {
              TallyZero(adj[vertex], state.colors, bestColor);
            }
          } else {
            assert forall d :: 0 <= d < k ==> d !in available;
            assert forall d :: 0 <= d < k ==> !FreeFor(adj, state.colors, vertex, d);
            FirstFitStep(adj, order, state.colors, k, i, Uncolored);
            assert state.colors[vertex := Uncolored] == state.colors;
          }
        }
      }
      if Simple(adj) {
        FirstFitProper(adj, order, state.colors, k);
      }
    }

    /** `getDifferentColoredNeighbors(state, vertex)`: the number of distinct
      * colours among the coloured neighbours, which together with the
      * uncoloured neighbours never exceeds the degree. */
    method GetDifferentColoredNeighbors(state: ColoringState, vertex: int) returns (count: int)
      requires state.Valid() && state.adj == adj
      requires 0 <= vertex < |adj|
      ensures count == Saturation(adj, state.colors, vertex)
      ensures count + Tally(adj[vertex], state.colors, Uncolored) <= |adj[vertex]|
    {
      var seen: set<int> := {};
      var rest := adj[vertex];
      ghost var done: set<int> := {};
      assert ColorsAmong({}, state.colors) == {};
      while rest != {}
        invariant rest <= adj[vertex] && done == adj[vertex] - rest
        invariant seen == ColorsAmong(done, state.colors)
        decreases |rest|
      {
        var u := PickMember(rest);
        ColorsAmongAdd(done, u, state.colors);
        var color := state.GetColor(u);
        if color != Uncolored {
          seen := seen + {color};
        }
        rest := rest - {u};
        done := done + {u};
      }
      assert done == adj[vertex];
      count := |seen|;
      ColorsAmongAtMost(adj[vertex], state.colors);
    }

    /** `getUncoloredNeighbors(state, vertex)`: how many neighbours are
      * uncoloured, at most the degree. */
    method GetUncoloredNeighbors(state: ColoringState, vertex: int) returns (count: int)
      requires state.Valid() && state.adj == adj
      requires 0 <= vertex < |adj|
      ensures count == Tally(adj[vertex], state.colors, Uncolored)
      ensures 0 <= count <= |adj[vertex]|
    {
      count := CountWithColor(adj[vertex], state.colors, Uncolored);
      TallyAtMost(adj[vertex], state.colors, Uncolored);
    }

    /** The inner loop of `getColorShareRatio`: whether some uncoloured
      * neighbour of `vertex` could take `color`, stopping at the first. */
    method ShareableColor(state: ColoringState, vertex: int, color: int) returns (isShared: bool)
      requires state.Valid() && state.adj == adj
      requires 0 <= vertex < |adj|
      ensures isShared <==> Shareable(adj, state.colors, vertex, color)
    {
      isShared := false;
      var rest := adj[vertex];
      while rest != {} && !isShared
        invariant rest <= adj[vertex]
        invariant isShared ==> Shareable(adj, state.colors, vertex, color)
        invariant !isShared ==> forall u :: u in adj[vertex] && u !in rest ==>
          !(state.colors[u] == Uncolored && FreeFor(adj, state.colors, u, color))
        decreases |rest|
      {
        var u := PickMember(rest);
        if state.GetColor(u) == Uncolored {
          var valid := state.IsValidAssignment(u, color);
          if valid {
            isShared := true;
          }
        }
        rest := rest - {u};
      }
    }

    /** The counting loop of `getColorShareRatio`: how many of the listed
      * colours some uncoloured neighbour of `vertex` could take. */
    method CountShared(state: ColoringState, vertex: int, available: seq<int>) returns (shared: int)
      requires state.Valid() && state.adj == adj
      requires 0 <= vertex < |adj|
      requires forall i, j :: 0 <= i < j < |available| ==> available[i] < available[j]
      ensures shared == |SharedAmong(adj, state.colors, vertex, available)|
      ensures shared <= |available|
    {
      shared := 0;
      ghost var counted: set<int> := {};
      for i := 0 to |available|
        invariant counted == SharedAmong(adj, state.colors, vertex, available[..i])
        invariant shared == |counted|
      {
        var color := available[i];
        var isShared := ShareableColor(state, vertex, color);
        assert available[..i + 1] == available[..i] + [color];
        SharedAmongSnoc(adj, state.colors, vertex, available[..i], color);
        assert forall c :: c in available[..i] ==> c < color;
        if isShared {
          shared := shared + 1;
          counted := counted + {color};
        }
      }
      assert available[..|available|] == available;
      DistinctCard(available);
      SubsetCard(counted, set c | c in available);
    }

    /** `getColorShareRatio(state, vertex)`: 0 when the vertex has no
      * available colour; otherwise the share of its available colours that
      * some uncoloured neighbour could also take, between 0 and 1. */
    method GetColorShareRatio(state: ColoringState, vertex: int) returns (ratio: real)
      requires state.Valid() && state.adj == adj && targetColors >= 0
      ensures FreeColors(adj, state.colors, vertex, targetColors) == {} ==> ratio == 0.0
      ensures FreeColors(adj, state.colors, vertex, targetColors) != {} ==>
        0 <= vertex < |adj| &&
        ratio == (|SharedColors(adj, state.colors, vertex, targetColors)| as real)
                 / (|FreeColors(adj, state.colors, vertex, targetColors)| as real)
      ensures 0.0 <= ratio <= 1.0
    {
      ghost var free := FreeColors(adj, state.colors, vertex, targetColors);
      var available := state.GetAvailableColors(vertex, targetColors);
      if available == [] {
        assert forall c :: c !in free;
        assert free == {};
        return 0.0;
      }
      assert 0 <= vertex < |adj|;
      var shared := CountShared(state, vertex, available);
      assert (set c | c in available) == free;
      DistinctCard(available);
      assert SharedAmong(adj, state.colors, vertex, available) == SharedColors(adj, state.colors, vertex, targetColors);
      ratio := shared as real / |available| as real;
      RatioBounds(shared, |available|);
    }

    /** `selectBestVertex(state)`: among the uncoloured vertices of greatest
      * saturation (scanned in index order), the first one of strictly
      * greatest danger; -1 when there is none, or when no such vertex's
      * danger exceeds the lowest double. */
    method SelectBestVertex(state: ColoringState, danger: int -> real) returns (selected: int)
      requires state.Valid() && state.adj == adj
      ensures selected == -1 <==>
        forall u :: MostSaturated(adj, state.colors, u) ==> danger(u) <= -MaxDouble
      ensures selected != -1 ==> MostSaturated(adj, state.colors, selected)
      ensures selected != -1 ==> forall u :: MostSaturated(adj, state.colors, u) ==>
        danger(u) < danger(selected) || (danger(u) == danger(selected) && selected <= u)
    {
      var maxSaturation := -1;
      var top: set<int> := {};
      for v := 0 to |adj|
        invariant forall u :: u in top <==>
          0 <= u < v && state.colors[u] == Uncolored && Saturation(adj, state.colors, u) == maxSaturation
        invariant forall u :: 0 <= u < v && state.colors[u] == Uncolored ==>
          Saturation(adj, state.colors, u) <= maxSaturation
        invariant maxSaturation >= -1 && (maxSaturation >= 0 ==> top != {})
      {
        if state.GetColor(v) == Uncolored {
          var saturation := GetDifferentColoredNeighbors(state, v);
          if saturation > maxSaturation {
            maxSaturation := saturation;
            top := {v};
          } else if saturation == maxSaturation {
            top := top + {v};
          }
        }
      }
      forall u
        ensures u in top <==> MostSaturated(adj, state.colors, u)
      {
        if MostSaturated(adj, state.colors, u) {
          assert maxSaturation >= 0;
          var w :| w in top;
          assert Saturation(adj, state.colors, w) <= Saturation(adj, state.colors, u);
        }
      }
      selected := MostDangerous(top, danger);
    }

    /** `selectBestColor(state, vertex)`: -1 exactly when the vertex has no
      * available colour; otherwise an available colour, scanned in
      * ascending order, of least danger (the first one on a tie), where
      * dangers of the largest double or more are never preferred to the
      * first available colour. */
    method SelectBestColor(state: ColoringState, vertex: int, colorDanger: int -> real) returns (selected: int)
      requires state.Valid() && state.adj == adj && targetColors >= 0
      ensures selected == -1 <==> FreeColors(adj, state.colors, vertex, targetColors) == {}
      ensures selected != -1 ==> selected in FreeColors(adj, state.colors, vertex, targetColors)
      ensures selected != -1 ==> forall c :: c in FreeColors(adj, state.colors, vertex, targetColors) ==>
        (colorDanger(selected) <= colorDanger(c) || MaxDouble <= colorDanger(c))
        && (colorDanger(c) == colorDanger(selected) ==> selected <= c)
    {
      ghost var free := FreeColors(adj, state.colors, vertex, targetColors);
      var available := state.GetAvailableColors(vertex, targetColors);
      assert forall c :: c in free <==> c in available;
      if available == [] {
        assert free == {};
        return -1;
      }
      var minDanger := MaxDouble;
      selected := available[0];
      ghost var at := 0;
      for i := 0 to |available|
        invariant 0 <= at < |available| && at <= i && selected == available[at]
        invariant minDanger <= MaxDouble
        invariant minDanger == MaxDouble ==> at == 0 && forall j :: 0 <= j < i ==> colorDanger(available[j]) >= MaxDouble
        invariant minDanger < MaxDouble ==> minDanger == colorDanger(selected) && at < i
        invariant minDanger < MaxDouble ==> forall j :: 0 <= j < i ==>
          colorDanger(available[j]) >= minDanger && (colorDanger(available[j]) == minDanger ==> at <= j)
      {
        var color := available[i];
        var d := colorDanger(color);
        if d < minDanger {
          minDanger := d;
          selected := color;
          at := i;
        }
      }
      assert selected in available;
      forall c | c in free
        ensures (colorDanger(selected) <= colorDanger(c) || MaxDouble <= colorDanger(c))
          && (colorDanger(c) == colorDanger(selected) ==> selected <= c)
      {
        var j :| 0 <= j < |available| && available[j] == c;
        if colorDanger(c) == colorDanger(selected) && minDanger == MaxDouble {
          assert at == 0;
          assert j == 0 || available[0] < available[j];
        }
        if colorDanger(c) == colorDanger(selected) && minDanger < MaxDouble {
          assert at <= j;
          assert at == j || available[at] < available[j];
        }
      }
    }
  }
}
