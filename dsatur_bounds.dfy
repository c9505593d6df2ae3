/** The bounds of lab2/src/Bounds.cpp: the lower bound is the size of a
  * greedy clique grown along the vertices sorted by (degree, id)
  * descending, the upper bound the number of colours of a DSatur colouring,
  * and the two update methods move each bound in one direction only. */
module DSaturBounds {
  import opened GraphBasics
  import opened Sets
  import opened ColoringBasics
  import opened GreedyColoring

  /** What sorting the pairs (degree, vertex) in descending order yields:
    * every vertex once, by non-increasing degree, ties by descending id. */
  ghost predicate DegreeIdOrder(adj: seq<set<int>>, order: seq<int>) {
    VertexOrder(adj, order)
    && forall i, j :: 0 <= i < j < |order| ==>
      |adj[order[i]]| > |adj[order[j]]| || (|adj[order[i]]| == |adj[order[j]]| && order[i] > order[j])
  }

  /** `v` is the lowest-numbered vertex of maximum degree. */
  ghost predicate FirstOfMaxDegree(adj: seq<set<int>>, v: int) {
    0 <= v < |adj|
    && (forall w :: 0 <= w < |adj| ==> |adj[w]| <= |adj[v]|)
    && forall w :: 0 <= w < v ==> |adj[w]| < |adj[v]|
  }

  /** The colours of the coloured vertices that list `u` as a neighbour:
    * what `saturation[u]` collects while `u` is uncoloured. */
  ghost function InColors(adj: seq<set<int>>, colors: seq<int>, u: int): set<int>
    requires |colors| == |adj|
  {
    set w | 0 <= w < |adj| && u in adj[w] && colors[w] != Uncolored :: colors[w]
  }

  /** DSatur's preference between two uncoloured vertices: `v` beats `w`
    * when it sees more colours, or as many and has the larger degree. */
  predicate Beats(adj: seq<set<int>>, saturation: seq<set<int>>, v: int, w: int)
    requires |saturation| == |adj| && 0 <= v < |adj| && 0 <= w < |adj|
  {
    |saturation[v]| > |saturation[w]|
    || (|saturation[v]| == |saturation[w]| && |adj[v]| > |adj[w]|)
  }

  /** The colouring as it stood when the `k`-th vertex of `order` was
    * chosen: the first `k` vertices of `order` keep their colours, every
    * other vertex is uncoloured. */
  ghost function Before(colors: seq<int>, order: seq<int>, k: int): (r: seq<int>)
    requires 0 <= k <= |order|
    ensures |r| == |colors|
    ensures forall v :: 0 <= v < |colors| && v !in order[..k] ==> r[v] == Uncolored
  {
    seq(|colors|, v requires 0 <= v < |colors| => if v in order[..k] then colors[v] else Uncolored)
  }

  /** `Beats` read off a colouring rather than the saturation sets: `v`
    * sees more colours than `w`, or as many and has the larger degree. */
  ghost predicate SeesMore(adj: seq<set<int>>, colors: seq<int>, v: int, w: int)
    requires |colors| == |adj| && 0 <= v < |adj| && 0 <= w < |adj|
  {
    |InColors(adj, colors, v)| > |InColors(adj, colors, w)|
    || (|InColors(adj, colors, v)| == |InColors(adj, colors, w)| && |adj[v]| > |adj[w]|)
  }

  /** `v` is the vertex DSatur colours next under `colors`: it is
    * uncoloured, it sees more than every lower-numbered uncoloured vertex,
    * and no higher-numbered uncoloured vertex sees more than it. */
  ghost predicate Preferred(adj: seq<set<int>>, colors: seq<int>, v: int)
    requires |colors| == |adj|
  {
    0 <= v < |adj| && colors[v] == Uncolored
    && (forall w :: 0 <= w < v && colors[w] == Uncolored ==> SeesMore(adj, colors, v, w))
    && forall w :: v < w < |adj| && colors[w] == Uncolored ==> !SeesMore(adj, colors, w, v)
  }

  /** Each of `order[1..i]` was the preferred vertex under the colouring
    * of the vertices before it. */
  ghost predicate Chosen(adj: seq<set<int>>, colors: seq<int>, order: seq<int>, i: int)
    requires |colors| == |adj| && 0 <= i <= |order|
  {
    forall k :: 1 <= k < i ==> Preferred(adj, Before(colors, order, k), order[k])
  }

  /** What a DSatur run over the whole graph leaves behind: a colouring
    * with exactly `numColors` colours in use, produced along `order`, which
    * starts at the lowest-numbered vertex of maximum degree and goes on
    * each time with the preferred vertex under the colours given so far;
    * on an undirected graph each vertex took the least colour its earlier
    * neighbours left free. */
  ghost predicate DSaturRun(adj: seq<set<int>>, colors: seq<int>, order: seq<int>, numColors: int) {
    |colors| == |adj| && VertexOrder(adj, order) && |order| > 0
    && FirstOfMaxDegree(adj, order[0]) && colors[order[0]] == 0
    && Chosen(adj, colors, order, |order|)
    && UsesExactly(colors, numColors)
    && (Symmetric(adj) ==> FirstFitUpTo(adj, order, colors, |adj| + 1, |adj|))
  }

  /** Colouring the uncoloured `v` with `c` adds `c` to what every vertex
    * listed by `v` sees, and changes nothing else. */
  lemma InColorsAfterColoring(adj: seq<set<int>>, colors: seq<int>, v: int, c: int, u: int)
    requires |colors| == |adj| && 0 <= v < |adj| && colors[v] == Uncolored && c != Uncolored
    ensures InColors(adj, colors[v := c], u) == InColors(adj, colors, u) + (if u in adj[v] then {c} else {})
  {
    var colors' := colors[v := c];
    forall d | d in InColors(adj, colors', u)
      ensures d in InColors(adj, colors, u) + (if u in adj[v] then {c} else {})
    {
      var w :| 0 <= w < |adj| && u in adj[w] && colors'[w] != Uncolored && colors'[w] == d;
      if w != v {
        assert colors[w] == d;
      }
    }
    forall d | d in InColors(adj, colors, u)
      ensures d in InColors(adj, colors', u)
    {
      var w :| 0 <= w < |adj| && u in adj[w] && colors[w] != Uncolored && colors[w] == d;
      assert colors'[w] == d;
    }
    if u in adj[v] {
      assert colors'[v] == c;
    }
  }

  /** After the uncoloured `v` takes colour `c` and its uncoloured
    * neighbours record `c`, every uncoloured vertex's saturation set still
    * holds exactly the colours it sees. */
  lemma SaturationStep(adj: seq<set<int>>, colors: seq<int>, saturation: seq<set<int>>, v: int, c: int, marked: seq<set<int>>)
    requires |colors| == |adj| && |saturation| == |adj| && |marked| == |adj|
    requires 0 <= v < |adj| && colors[v] == Uncolored && c != Uncolored
    requires forall u :: 0 <= u < |adj| && colors[u] == Uncolored ==> saturation[u] == InColors(adj, colors, u)
    requires forall u :: 0 <= u < |adj| ==>
      marked[u] == if u in adj[v] && colors[v := c][u] == Uncolored then saturation[u] + {c} else saturation[u]
    ensures forall u :: 0 <= u < |adj| && colors[v := c][u] == Uncolored ==>
      marked[u] == InColors(adj, colors[v := c], u)
  {
    forall u | 0 <= u < |adj| && colors[v := c][u] == Uncolored
      ensures marked[u] == InColors(adj, colors[v := c], u)
    {
      InColorsAfterColoring(adj, colors, v, c, u);
    }
  }

  /** On an undirected graph a vertex sees a colour exactly when one of its
    * neighbours has it, and it sees at most one colour per vertex. */
  lemma InColorsOnSymmetric(adj: seq<set<int>>, colors: seq<int>, u: int)
    requires Symmetric(adj) && |colors| == |adj| && 0 <= u < |adj|
    ensures forall d :: d != Uncolored ==> (d in InColors(adj, colors, u) <==> !FreeFor(adj, colors, u, d))
    ensures |InColors(adj, colors, u)| <= |adj|
  {
    forall d | d != Uncolored && !FreeFor(adj, colors, u, d)
      ensures d in InColors(adj, colors, u)
    {
      var w :| w in adj[u] && 0 <= w < |colors| && colors[w] == d;
      assert u in adj[w];
    }
    SubsetCard(InColors(adj, colors, u), ColorsAmong(adj[u], colors));
    ColorsAmongAtMost(adj[u], colors);
    BoundedCard(adj[u], |adj|);
  }

  /** Lines 44-52 of `calculateDSaturBound`: the scan that keeps the first
    * vertex of strictly larger degree finds the lowest-numbered vertex of
    * maximum degree, and 0 on an empty graph. */
  method HighestDegreeVertex(adj: seq<set<int>>) returns (firstVertex: int)
    ensures |adj| == 0 ==> firstVertex == 0
    ensures |adj| > 0 ==> FirstOfMaxDegree(adj, firstVertex)
  {
    var maxDegree := -1;
    firstVertex := 0;
    for v := 0 to |adj|
      invariant v == 0 ==> maxDegree == -1 && firstVertex == 0
      invariant v > 0 ==> 0 <= firstVertex < v && maxDegree == |adj[firstVertex]|
      invariant forall w :: 0 <= w < v ==> |adj[w]| <= maxDegree
      invariant forall w :: 0 <= w < firstVertex ==> |adj[w]| < maxDegree
    {
      var degree := |adj[v]|;
      if degree > maxDegree {
        maxDegree := degree;
        firstVertex := v;
      }
    }
  }

  /** Lines 65-81 of `calculateDSaturBound`: the uncoloured vertex that no
    * other uncoloured vertex beats, the lowest-numbered one among equals;
    * -1 exactly when every vertex is coloured. */
  method NextVertex(adj: seq<set<int>>, colors: seq<int>, saturation: seq<set<int>>) returns (nextVertex: int)
    requires |colors| == |adj| && |saturation| == |adj|
    ensures nextVertex == -1 <==> forall v :: 0 <= v < |adj| ==> colors[v] != Uncolored
    ensures nextVertex != -1 ==> 0 <= nextVertex < |adj| && colors[nextVertex] == Uncolored
    ensures nextVertex != -1 ==> forall v :: 0 <= v < nextVertex && colors[v] == Uncolored ==>
      Beats(adj, saturation, nextVertex, v)
    ensures nextVertex != -1 ==> forall v :: nextVertex < v < |adj| && colors[v] == Uncolored ==>
      !Beats(adj, saturation, v, nextVertex)
  {
    var maxSat := -1;
    var maxDeg := -1;
    nextVertex := -1;
    for v := 0 to |adj|
      invariant nextVertex == -1 <==> forall w :: 0 <= w < v ==> colors[w] != Uncolored
      invariant nextVertex == -1 ==> maxSat == -1 && maxDeg == -1
      invariant nextVertex != -1 ==> 0 <= nextVertex < v && colors[nextVertex] == Uncolored
      invariant nextVertex != -1 ==> maxSat == |saturation[nextVertex]| && maxDeg == |adj[nextVertex]|
      invariant nextVertex != -1 ==> forall w :: 0 <= w < nextVertex && colors[w] == Uncolored ==>
        Beats(adj, saturation, nextVertex, w)
      invariant nextVertex != -1 ==> forall w :: nextVertex < w < v && colors[w] == Uncolored ==>
        !Beats(adj, saturation, w, nextVertex)
    {
      if colors[v] != Uncolored {
        continue;
      }
      var sat := |saturation[v]|;
      var deg := |adj[v]|;
      if sat > maxSat || (sat == maxSat && deg > maxDeg) {
        maxSat := sat;
        maxDeg := deg;
        nextVertex := v;
      }
    }
  }

  /** Lines 84-86 of `calculateDSaturBound`: the least colour not in `s`. */
  method LeastAbsent(s: set<int>) returns (color: int)
    ensures 0 <= color && color !in s
    ensures forall d :: 0 <= d < color ==> d in s
  {
    color := 0;
    while color in s
      invariant 0 <= color <= |s|
      invariant forall d :: 0 <= d < color ==> d in s
      decreases |s| - color
    {
      CoveringCard(s, color + 1);
      color := color + 1;
    }
  }

  /** Lines 58-60 of `calculateDSaturBound`: every neighbour of `vertex`
    * records `color`. */
  method MarkNeighbors(adj: seq<set<int>>, saturation: seq<set<int>>, vertex: int, color: int)
    returns (marked: seq<set<int>>)
    requires InRange(adj) && |saturation| == |adj| && 0 <= vertex < |adj|
    ensures |marked| == |adj|
    ensures forall u :: 0 <= u < |adj| ==>
      marked[u] == if u in adj[vertex] then saturation[u] + {color} else saturation[u]
  {
    marked := saturation;
    var rest := adj[vertex];
    while rest != {}
      invariant rest <= adj[vertex] && |marked| == |adj|
      invariant forall u :: 0 <= u < |adj| ==>
        marked[u] == if u in adj[vertex] && u !in rest then saturation[u] + {color} else saturation[u]
      decreases |rest|
    {
      var u := PickMember(rest);
      marked := marked[u := marked[u] + {color}];
      rest := rest - {u};
    }
  }

  /** Lines 92-96 of `calculateDSaturBound`: every uncoloured neighbour of
    * `vertex` records `color`. */
  method MarkUncoloredNeighbors(adj: seq<set<int>>, colors: seq<int>, saturation: seq<set<int>>, vertex: int, color: int)
    returns (marked: seq<set<int>>)
    requires InRange(adj) && |colors| == |adj| && |saturation| == |adj| && 0 <= vertex < |adj|
    ensures |marked| == |adj|
    ensures forall u :: 0 <= u < |adj| ==>
      marked[u] == if u in adj[vertex] && colors[u] == Uncolored then saturation[u] + {color} else saturation[u]
  {
    marked := saturation;
    var rest := adj[vertex];
    while rest != {}
      invariant rest <= adj[vertex] && |marked| == |adj|
      invariant forall u :: 0 <= u < |adj| ==>
        marked[u] == if u in adj[vertex] && u !in rest && colors[u] == Uncolored then saturation[u] + {color} else saturation[u]
      decreases |rest|
    {
      var u := PickMember(rest);
      if colors[u] == Uncolored {
        marked := marked[u := marked[u] + {color}];
      }
      rest := rest - {u};
    }
  }

  /** The state of `calculateDSaturBound` after `i` vertices are coloured:
    * they are the first `i` of `order`, every uncoloured vertex's
    * saturation set holds the colours it sees, and on an undirected graph
    * the colouring is first-fit along `order`. */
  ghost predicate Progress(adj: seq<set<int>>, colors: seq<int>, saturation: seq<set<int>>, order: seq<int>, i: int) {
    InRange(adj) && |colors| == |adj| && |saturation| == |adj| && 1 <= i <= |adj|
    && VertexOrder(adj, order)
    && (forall j :: 0 <= j < |adj| ==> (colors[order[j]] != Uncolored <==> j < i))
    && (forall v :: 0 <= v < |adj| ==> colors[v] >= Uncolored)
    && (forall u :: 0 <= u < |adj| && colors[u] == Uncolored ==> saturation[u] == InColors(adj, colors, u))
    && (Symmetric(adj) ==> FirstFitUpTo(adj, order, colors, |adj| + 1, i))
  }

  /** Lines 39-60 of `calculateDSaturBound`: colour `firstVertex` 0 and let
    * its neighbours record colour 0. */
  method ColorFirst(adj: seq<set<int>>, firstVertex: int)
    returns (colors: seq<int>, saturation: seq<set<int>>, ghost order: seq<int>)
    requires InRange(adj) && 0 <= firstVertex < |adj|
    ensures Progress(adj, colors, saturation, order, 1)
    ensures order[0] == firstVertex
    ensures colors == seq(|adj|, v => if v == firstVertex then 0 else Uncolored)
  {
    var n := |adj|;
    colors := seq(n, _ => Uncolored);
    saturation := seq(n, _ => {});
    order := seq(n, i => i);
    forall v | 0 <= v < n
      ensures v in order
    {
      assert order[v] == v;
    }
    FirstFitSwapTail(adj, order, colors, n + 1, 0, firstVertex);
    order := order[0 := order[firstVertex]][firstVertex := order[0]];
    FirstFitStep(adj, order, colors, n + 1, 0, 0);
    forall u | 0 <= u < n
      ensures InColors(adj, colors[firstVertex := 0], u) == InColors(adj, colors, u) + (if u in adj[firstVertex] then {0} else {})
    {
      InColorsAfterColoring(adj, colors, firstVertex, 0, u);
    }
    colors := colors[firstVertex := 0];
    saturation := MarkNeighbors(adj, saturation, firstVertex, 0);
  }

  /** While the saturation sets of the uncoloured vertices hold the colours
    * they see, the vertex no other uncoloured vertex `Beats`, the
    * lowest-numbered among equals, is the preferred one. */
  lemma BeatsIsPreferred(adj: seq<set<int>>, colors: seq<int>, saturation: seq<set<int>>, v: int)
    requires |colors| == |adj| && |saturation| == |adj| && 0 <= v < |adj| && colors[v] == Uncolored
    requires forall u :: 0 <= u < |adj| && colors[u] == Uncolored ==> saturation[u] == InColors(adj, colors, u)
    requires forall w :: 0 <= w < v && colors[w] == Uncolored ==> Beats(adj, saturation, v, w)
    requires forall w :: v < w < |adj| && colors[w] == Uncolored ==> !Beats(adj, saturation, w, v)
    ensures Preferred(adj, colors, v)
  {
  }

  /** Colouring the preferred vertex `nv` as the `i`-th of the order keeps
    * every vertex of the order chosen as the preferred one in its turn. */
  lemma ChosenStep(adj: seq<set<int>>, colors: seq<int>, saturation: seq<set<int>>, order: seq<int>,
                   order': seq<int>, i: int, nv: int, c: int)
    requires Progress(adj, colors, saturation, order, i) && i < |adj|
    requires Chosen(adj, colors, order, i)
    requires |order'| == |order| && order'[..i] == order[..i] && order'[i] == nv
    requires Preferred(adj, colors, nv) && c != Uncolored
    ensures Chosen(adj, colors[nv := c], order', i + 1)
  {
    var colors' := colors[nv := c];
    forall k | 1 <= k < i + 1
      ensures Preferred(adj, Before(colors', order', k), order'[k])
    {
      assert order'[..k] == order[..k];
      forall v | 0 <= v < |colors| && v in order[..k]
        ensures Before(colors', order', k)[v] == Before(colors, order, k)[v]
      {
        var j :| 0 <= j < k && order[j] == v;
        assert colors[order[j]] != Uncolored;
      }
      assert Before(colors', order', k) == Before(colors, order, k);
      if k == i {
        forall v | 0 <= v < |colors|
          ensures Before(colors, order, i)[v] == colors[v]
        {
          assert v in order;
          var j :| 0 <= j < |order| && order[j] == v;
          if j < i {
            assert v in order[..i];
          }
        }
        assert Before(colors, order, i) == colors;
      } else {
        assert order'[k] == order[k];
      }
    }
  }

  /** One round of lines 63-96 of `calculateDSaturBound`: colour the vertex
    * `NextVertex` prefers with the least colour it does not see, and let
    * its uncoloured neighbours record that colour. */
  method ColorNext(adj: seq<set<int>>, colors: seq<int>, saturation: seq<set<int>>, ghost order: seq<int>, ghost i: int)
    returns (nextVertex: int, color: int, colors': seq<int>, saturation': seq<set<int>>, ghost order': seq<int>)
    requires Progress(adj, colors, saturation, order, i) && i < |adj|
    ensures Progress(adj, colors', saturation', order', i + 1)
    ensures order'[0] == order[0]
    ensures Preferred(adj, colors, nextVertex)
    ensures order'[..i] == order[..i] && order'[i] == nextVertex
    ensures 0 <= color && colors' == colors[nextVertex := color]
  {
    var n := |adj|;
    assert colors[order[i]] == Uncolored;
    nextVertex := NextVertex(adj, colors, saturation);
    BeatsIsPreferred(adj, colors, saturation, nextVertex);
    assert nextVertex in order;
    ghost var p :| 0 <= p < n && order[p] == nextVertex;
    color := LeastAbsent(saturation[nextVertex]);
    if Symmetric(adj) {
      FirstFitSwapTail(adj, order, colors, n + 1, i, p);
      InColorsOnSymmetric(adj, colors, nextVertex);
      CoveringCard(saturation[nextVertex], color);
      FirstFitStep(adj, order[i := order[p]][p := order[i]], colors, n + 1, i, color);
    } else {
      SwapKeepsVertexOrder(adj, order, i, p);
    }
    order' := order[i := order[p]][p := order[i]];
    colors' := colors[nextVertex := color];
    forall j | 0 <= j < n
      ensures colors'[order'[j]] != Uncolored <==> j < i + 1
    {
      assert colors[order[j]] != Uncolored <==> j < i;
    }
    saturation' := MarkUncoloredNeighbors(adj, colors', saturation, nextVertex, color);
    SaturationStep(adj, colors, saturation, nextVertex, color, saturation');
    assert VertexOrder(adj, order');
    assert forall v :: 0 <= v < |adj| ==> colors'[v] >= Uncolored;
    assert Symmetric(adj) ==> FirstFitUpTo(adj, order', colors', |adj| + 1, i + 1);
    assert forall u :: 0 <= u < |adj| && colors'[u] == Uncolored ==> saturation'[u] == InColors(adj, colors', u);
  }

  /** On an undirected loop-free graph the DSatur colouring is proper and
    * complete. */
  lemma DSaturProper(adj: seq<set<int>>, colors: seq<int>, order: seq<int>, numColors: int)
    requires Simple(adj) && DSaturRun(adj, colors, order, numColors)
    ensures Proper(adj, colors)
    ensures forall v :: 0 <= v < |adj| ==> colors[v] != Uncolored
  {
    FirstFitProper(adj, order, colors, |adj| + 1);
  }

  /** On an undirected graph the DSatur bound is at most one more than the
    * largest degree. */
  lemma DSaturWithinMaxDegree(adj: seq<set<int>>, colors: seq<int>, order: seq<int>, numColors: int)
    requires Symmetric(adj) && DSaturRun(adj, colors, order, numColors)
    ensures numColors <= MaxDegree(adj) + 1
  {
    UpperWithinMaxDegree(adj, order, colors, |adj| + 1, numColors);
  }

  class Bounds {
    const adj: seq<set<int>>
    var maxClique: seq<int>
    var lowerBound: int
    var upperBound: int

    /** `Bounds(graph)`: the lower bound is the size of the greedy clique
      * along the (degree, id) order, the upper bound the DSatur colour
      * count. On an undirected graph the lower bound is at most the upper
      * one. */
    constructor (g: seq<set<int>>, order: seq<int>)
      requires InRange(g) && |g| >= 1 && DegreeIdOrder(g, order)
      ensures adj == g
      ensures Clique(g, maxClique) && lowerBound == |maxClique| >= 1
      ensures exists colors, dorder :: DSaturRun(g, colors, dorder, upperBound)
      ensures Symmetric(g) ==> lowerBound <= upperBound
    {
      adj := g;
      new;
      maxClique := FindMaximalClique(order);
      lowerBound := |maxClique|;
      upperBound := CalculateDSaturBound();
      if Symmetric(g) {
        ghost var colors, dorder :| DSaturRun(g, colors, dorder, upperBound);
        CliqueBelowColoring(g, dorder, colors, |g| + 1, upperBound, maxClique);
      }
    }

    /** `findMaximalClique()`: the greedy clique along the vertices sorted by
      * (degree, id) descending. No other vertex could join it, and on a
      * non-empty graph it starts with a vertex of maximum degree. */
    method FindMaximalClique(order: seq<int>) returns (clique: seq<int>)
      requires InRange(adj) && DegreeIdOrder(adj, order)
      ensures Clique(adj, clique)
      ensures forall v :: 0 <= v < |adj| && v !in clique ==> exists u :: u in clique && u !in adj[v]
      ensures |adj| > 0 ==> |clique| > 0 && forall v :: 0 <= v < |adj| ==> |adj[v]| <= |adj[clique[0]]|
    {
      clique := GreedyClique(adj, order);
      forall v | 0 <= v < |adj| && |adj| > 0
        ensures |adj[v]| <= |adj[order[0]]|
      {
        assert v in order;
      }
    }

    /** `calculateDSaturBound()`: starting from the lowest-numbered vertex of
      * maximum degree, coloured 0, repeatedly colour the vertex that
      * `NextVertex` prefers with the least colour it does not see; the
      * result is the largest colour used plus one. The source indexes the
      * colour array at vertex 0 first, so it needs a vertex. */
    method CalculateDSaturBound() returns (bound: int)
      requires InRange(adj) && |adj| >= 1
      ensures bound >= 1
      ensures exists colors, order :: DSaturRun(adj, colors, order, bound)
    {
      var n := |adj|;
      var firstVertex := HighestDegreeVertex(adj);
      var colors, saturation, order := ColorFirst(adj, firstVertex);
      var maxColorUsed := 0;
      ghost var topVertex := firstVertex;
      for i := 1 to n
        invariant Progress(adj, colors, saturation, order, i)
        invariant order[0] == firstVertex && colors[firstVertex] == 0
        invariant forall v :: 0 <= v < n ==> colors[v] <= maxColorUsed
        invariant 0 <= topVertex < n && colors[topVertex] == maxColorUsed
        invariant Chosen(adj, colors, order, i)
      {
        var nextVertex, color;
        ghost var colors0, saturation0, order0 := colors, saturation, order;
        nextVertex, color, colors, saturation, order := ColorNext(adj, colors, saturation, order, i);
        ChosenStep(adj, colors0, saturation0, order0, order, i, nextVertex, color);
        if color > maxColorUsed {
          maxColorUsed := color;
          topVertex := nextVertex;
        }
      }
      bound := maxColorUsed + 1;
      forall v | 0 <= v < n
        ensures 0 <= colors[v]
      {
        assert v in order;
      }
      assert DSaturRun(adj, colors, order, bound);
    }

    /** `updateLowerBound(newBound)`: the lower bound rises to the new value
      * when that is larger; otherwise nothing changes. */
    method UpdateLowerBound(newBound: int)
      modifies this
      ensures upperBound == old(upperBound) && maxClique == old(maxClique)
      ensures lowerBound == if newBound > old(lowerBound) then newBound else old(lowerBound)
    {
      if newBound > lowerBound {
        lowerBound := newBound;
      }
    }

    /** `updateUpperBound(newBound)`: the upper bound falls to the new value
      * when that is smaller; otherwise nothing changes. */
    method UpdateUpperBound(newBound: int)
      modifies this
      ensures lowerBound == old(lowerBound) && maxClique == old(maxClique)
      ensures upperBound == if newBound < old(upperBound) then newBound else old(upperBound)
    {
      if newBound < upperBound {
        upperBound := newBound;
      }
    }
  }
}
