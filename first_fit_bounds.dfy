/** The bounds of lab2/codigo/src/Bounds.cpp: a first-fit colouring along
  * the degree order gives the upper bound, a greedily grown clique along the
  * same kind of order the lower bound, and the two update methods move each
  * bound in one direction only. */
module FirstFitBounds {
  import opened GraphBasics
  import opened ColoringBasics
  import opened GreedyColoring

  function Min(a: int, b: int): int { if a < b then a else b }
  function Max(a: int, b: int): int { if a < b then b else a }

  /** Lines 25-39 of `calculateUpperBound`: mark the colours of the coloured
    * neighbours, then take the first unmarked colour below `numColors`, or
    * -1 when every one is taken. */
  method FirstFreeColor(adj: seq<set<int>>, color: seq<int>, vertex: int, numColors: int) returns (firstFree: int)
    requires InRange(adj) && |color| == |adj| && 0 <= vertex < |adj| && numColors >= 0
    requires forall u :: 0 <= u < |color| ==> -1 <= color[u] < numColors
    ensures firstFree == -1 ==> forall d :: 0 <= d < numColors ==> !FreeFor(adj, color, vertex, d)
    ensures firstFree != -1 ==> 0 <= firstFree < numColors && FreeFor(adj, color, vertex, firstFree)
    ensures firstFree != -1 ==> forall d :: 0 <= d < firstFree ==> !FreeFor(adj, color, vertex, d)
  {
    var usedColors := new bool[numColors](_ => false);
    var rest := adj[vertex];
    while rest != {}
      invariant rest <= adj[vertex]
      invariant forall c :: 0 <= c < numColors ==>
        (usedColors[c] <==> exists u :: u in adj[vertex] && u !in rest && color[u] == c)
      decreases |rest|
    {
      var neighbor := PickMember(rest);
      if color[neighbor] != Uncolored {
        usedColors[color[neighbor]] := true;
      }
      rest := rest - {neighbor};
    }
    assert forall c :: 0 <= c < numColors ==> (usedColors[c] <==> !FreeFor(adj, color, vertex, c));
    firstFree := -1;
    for c := 0 to numColors
      invariant forall d :: 0 <= d < c ==> usedColors[d]
    {
      if !usedColors[c] {
        firstFree := c;
        break;
      }
    }
  }

  /** Lines 23-48 of `calculateUpperBound`: along `order`, each vertex takes
    * the first colour its coloured neighbours leave free, or a new one. The
    * result is the first-fit colouring of `order`: every vertex coloured,
    * `numColors` colours in use, at most one per vertex. */
  method FirstFitColoring(adj: seq<set<int>>, order: seq<int>) returns (color: seq<int>, numColors: int)
    requires InRange(adj) && DegreeOrder(adj, order)
    ensures |color| == |adj| && FirstFitUpTo(adj, order, color, |adj|, |adj|)
    ensures UsesExactly(color, numColors) && 0 <= numColors <= |adj|
  {
    color := seq(|adj|, _ => Uncolored);
    numColors := 0;
    ghost var topVertex := -1;
    for i := 0 to |order|
      invariant |color| == |adj| && FirstFitUpTo(adj, order, color, |adj|, i)
      invariant forall j :: 0 <= j < i ==> color[order[j]] != Uncolored
      invariant forall v :: 0 <= v < |adj| ==> -1 <= color[v] < numColors
      invariant 0 <= numColors <= i
      invariant numColors > 0 ==> 0 <= topVertex < |adj| && color[topVertex] == numColors - 1
    {
      var vertex := order[i];
      var assignedColor := FirstFreeColor(adj, color, vertex, numColors);
      if assignedColor == -1 {
        assignedColor := numColors;
        numColors := numColors + 1;
        topVertex := vertex;
      }
      FirstFitStep(adj, order, color, |adj|, i, assignedColor);
      color := color[vertex := assignedColor];
    }
    forall v | 0 <= v < |adj|
      ensures 0 <= color[v] < numColors
    {
      assert v in order;
    }
  }

  /** The graph of the bounds test: the triangle 0-1-2 with vertex 3
    * hanging off vertex 2. */
  function PendantTriangle(): (adj: seq<set<int>>)
    ensures Symmetric(adj) && LoopFree(adj) && |adj| == 4
  {
    [{1, 2}, {0, 2}, {0, 1, 3}, {2}]
  }

  /** Whatever order the sort leaves vertices 0 and 1 in, the first-fit
    * colouring of the test graph uses exactly 3 colours. */
  lemma PendantTriangleNeedsThree(order: seq<int>, colors: seq<int>, numColors: int)
    requires DegreeOrder(PendantTriangle(), order)
    requires |colors| == 4 && FirstFitUpTo(PendantTriangle(), order, colors, 4, 4)
    requires UsesExactly(colors, numColors)
    ensures numColors == 3
  {
    var adj := PendantTriangle();
    assert |adj[0]| == 2 && |adj[1]| == 2 && |adj[2]| == 3 && |adj[3]| == 1;
    assert 2 in order;
    var p :| 0 <= p < 4 && order[p] == 2;
    assert |adj[order[0]]| >= |adj[order[p]]| == 3;
    assert order[0] == 2;
    assert FirstFitAt(adj, order, colors, 4, 0);
    assert colors[2] == 0 by {
      assert !TakenBefore(adj, order, colors, 0, 0);
    }
    forall v | 0 <= v < 4
      ensures colors[v] <= 2
    {
      if v != 2 {
        assert v in order;
        var j :| 0 <= j < 4 && order[j] == v;
        FirstFitWithinDegree(adj, order, colors, 4, 4, j);
      }
    }
    FirstFitSeparates(adj, order, colors, 4);
    CliqueNeedsColors(adj, [0, 1, 2], colors, numColors);
  }

  class Bounds {
    const adj: seq<set<int>>
    var lowerBound: int
    var upperBound: int

    /** `Bounds(graph)`: the upper bound is the first-fit colour count (at
      * most n) and the lower bound the greedy clique size, at least 1. Both
      * computations sort the vertices the same way, so one `order` serves
      * both. On an undirected graph with a vertex the lower bound is at
      * most the upper one. */
    constructor (g: seq<set<int>>, order: seq<int>)
      requires InRange(g) && DegreeOrder(g, order)
      ensures adj == g
      ensures exists colors ::
        |colors| == |g| && FirstFitUpTo(g, order, colors, |g|, |g|) && UsesExactly(colors, upperBound)
      ensures |g| == 0 ==> lowerBound == 1
      ensures |g| > 0 ==> exists clique :: Clique(g, clique) && lowerBound == |clique|
      ensures Symmetric(g) && |g| >= 1 ==> lowerBound <= upperBound
    {
      adj := g;
      lowerBound := 0;
      upperBound := 0;
      new;
      var upper := CalculateUpperBound(order);
      upperBound := Min(upper, |adj|);
      var lower := CalculateLowerBound(order);
      lowerBound := Max(1, lower);
      if |g| > 0 {
        ghost var colors :| |colors| == |g| && FirstFitUpTo(g, order, colors, |g|, |g|) && UsesExactly(colors, upper);
        ghost var clique :| Clique(g, clique) && |clique| == lower;
        if Symmetric(g) {
          CliqueBelowColoring(g, order, colors, |g|, upper, clique);
        }
      }
    }

    /** `calculateUpperBound()`: the number of colours of the first-fit
      * colouring along `order`, at most n, also stored as the upper bound. */
    method CalculateUpperBound(order: seq<int>) returns (bound: int)
      requires InRange(adj) && DegreeOrder(adj, order)
      modifies this
      ensures upperBound == bound && lowerBound == old(lowerBound)
      ensures 0 <= bound <= |adj|
      ensures exists colors ::
        |colors| == |adj| && FirstFitUpTo(adj, order, colors, |adj|, |adj|) && UsesExactly(colors, bound)
    {
      var color, numColors := FirstFitColoring(adj, order);
      upperBound := numColors;
      bound := numColors;
      assert |color| == |adj| && FirstFitUpTo(adj, order, color, |adj|, |adj|) && UsesExactly(color, bound);
    }

    /** `calculateLowerBound()`: 0 for an empty graph; otherwise the size of
      * the greedy clique along `order`, at least 1 and at most n. */
    method CalculateLowerBound(order: seq<int>) returns (bound: int)
      requires InRange(adj) && DegreeOrder(adj, order)
      ensures |adj| == 0 ==> bound == 0
      ensures |adj| > 0 ==> 1 <= bound <= |adj|
      ensures |adj| > 0 ==> exists clique :: Clique(adj, clique) && |clique| == bound
    {
      if |adj| == 0 {
        return 0;
      }
      var clique := GreedyClique(adj, order);
      bound := |clique|;
      DistinctCard(clique);
      BoundedCard((set x | x in clique), |adj|);
    }

    /** `updateLowerBound(newLowerBound)`: the lower bound rises to the new
      * value when that is larger and at most n; otherwise nothing changes. */
    method UpdateLowerBound(newLowerBound: int)
      modifies this
      ensures upperBound == old(upperBound)
      ensures lowerBound == if newLowerBound > old(lowerBound) && newLowerBound <= |adj| then newLowerBound else old(lowerBound)
    {
      if newLowerBound > lowerBound && newLowerBound <= |adj| {
        lowerBound := newLowerBound;
      }
    }

    /** `updateUpperBound(newUpperBound)`: the upper bound falls to the new
      * value when that is smaller and positive; otherwise nothing changes. */
    method UpdateUpperBound(newUpperBound: int)
      modifies this
      ensures lowerBound == old(lowerBound)
      ensures upperBound == if newUpperBound < old(upperBound) && newUpperBound > 0 then newUpperBound else old(upperBound)
    {
      if newUpperBound < upperBound && newUpperBound > 0 {
        upperBound := newUpperBound;
      }
    }
  }

  /** The bounds test: on the test graph the upper bound is 3 and at least
    * the lower one; raising the lower bound to 3 and offering 3 as the
    * upper bound leave both at 3. */
  method PendantTriangleBounds(order: seq<int>) returns (lower: int, upper: int)
    requires DegreeOrder(PendantTriangle(), order)
    ensures lower == 3 && upper == 3
  {
    var bounds := new Bounds(PendantTriangle(), order);
    ghost var colors :| |colors| == 4 && FirstFitUpTo(PendantTriangle(), order, colors, 4, 4)
      && UsesExactly(colors, bounds.upperBound);
    PendantTriangleNeedsThree(order, colors, bounds.upperBound);
    assert bounds.upperBound == 3 && bounds.lowerBound <= 3;
    bounds.UpdateLowerBound(3);
    bounds.UpdateUpperBound(3);
    lower, upper := bounds.lowerBound, bounds.upperBound;
  }
}
