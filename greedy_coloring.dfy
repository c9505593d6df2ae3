/** Greedy colouring along a vertex order, the rule shared by the first-fit
  * upper bound and the initial colouring of the danger heuristic: each
  * vertex in turn takes the least colour that none of its already coloured
  * neighbours has. */
module GreedyColoring {
  import opened GraphBasics
  import opened ColoringBasics

  /** `order` lists every vertex of `adj` exactly once. */
  ghost predicate VertexOrder(adj: seq<set<int>>, order: seq<int>) {
    |order| == |adj|
    && (forall i :: 0 <= i < |order| ==> 0 <= order[i] < |adj|)
    && (forall i, j :: 0 <= i < j < |order| ==> order[i] != order[j])
    && (forall v :: 0 <= v < |adj| ==> v in order)
  }

  /** What sorting `0 .. n-1` with the comparison `degree(a) > degree(b)`
    * yields: every vertex once, by non-increasing degree, ties in any order. */
  ghost predicate DegreeOrder(adj: seq<set<int>>, order: seq<int>) {
    VertexOrder(adj, order)
    && forall i, j :: 0 <= i < j < |order| ==> |adj[order[i]]| >= |adj[order[j]]|
  }

  /** Some neighbour of `order[j]` placed before it has colour `c`. */
  ghost predicate TakenBefore(adj: seq<set<int>>, order: seq<int>, colors: seq<int>, j: int, c: int)
    requires VertexOrder(adj, order) && |colors| == |adj| && 0 <= j < |order|
  {
    exists m :: 0 <= m < j && order[m] in adj[order[j]] && colors[order[m]] == c
  }

  /** The vertex at position `j` has the least colour below `cap` that no
    * earlier neighbour has, or is uncoloured when every such colour is taken. */
  ghost predicate FirstFitAt(adj: seq<set<int>>, order: seq<int>, colors: seq<int>, cap: int, j: int)
    requires VertexOrder(adj, order) && |colors| == |adj| && 0 <= j < |order|
  {
    var c := colors[order[j]];
    if c == Uncolored then
      forall d :: 0 <= d < cap ==> TakenBefore(adj, order, colors, j, d)
    else
      0 <= c < cap && !TakenBefore(adj, order, colors, j, c)
      && forall d :: 0 <= d < c ==> TakenBefore(adj, order, colors, j, d)
  }

  /** The first `i` vertices of `order` are coloured first-fit with colours
    * below `cap`, and the others are still uncoloured. */
  ghost predicate FirstFitUpTo(adj: seq<set<int>>, order: seq<int>, colors: seq<int>, cap: int, i: int)
    requires VertexOrder(adj, order) && |colors| == |adj| && 0 <= i <= |order|
  {
    (forall j :: 0 <= j < i ==> FirstFitAt(adj, order, colors, cap, j))
    && forall j :: i <= j < |order| ==> colors[order[j]] == Uncolored
  }

  /** Before position `i` is coloured, the colours around `order[i]` are
    * exactly those of its earlier neighbours. */
  lemma ColoredNeighborIsEarlier(adj: seq<set<int>>, order: seq<int>, colors: seq<int>, cap: int, i: int)
    requires InRange(adj) && VertexOrder(adj, order) && |colors| == |adj| && 0 <= i < |order|
    requires FirstFitUpTo(adj, order, colors, cap, i)
    ensures forall c :: c != Uncolored ==>
      (FreeFor(adj, colors, order[i], c) <==> !TakenBefore(adj, order, colors, i, c))
  {
    forall c | c != Uncolored && !FreeFor(adj, colors, order[i], c)
      ensures TakenBefore(adj, order, colors, i, c)
    {
      var u :| u in adj[order[i]] && 0 <= u < |colors| && colors[u] == c;
      assert u in order;
      var m :| 0 <= m < |order| && order[m] == u;
      assert m < i;
    }
  }

  /** Exchanging two positions of a vertex order gives a vertex order. */
  lemma SwapKeepsVertexOrder(adj: seq<set<int>>, order: seq<int>, i: int, p: int)
    requires VertexOrder(adj, order) && 0 <= i < |order| && 0 <= p < |order|
    ensures VertexOrder(adj, order[i := order[p]][p := order[i]])
  {
    var swapped := order[i := order[p]][p := order[i]];
    forall v | 0 <= v < |adj|
      ensures v in swapped
    {
      assert v in order;
      var k :| 0 <= k < |order| && order[k] == v;
      if k == i {
        assert swapped[p] == v;
      } else if k == p {
        assert swapped[i] == v;
      } else {
        assert swapped[k] == v;
      }
    }
  }

  /** The first-fit colouring of the first `i` positions does not depend on
    * how the later positions are arranged: exchanging two of them keeps it. */
  lemma FirstFitSwapTail(adj: seq<set<int>>, order: seq<int>, colors: seq<int>, cap: int, i: int, p: int)
    requires VertexOrder(adj, order) && |colors| == |adj| && 0 <= i <= p < |order|
    requires FirstFitUpTo(adj, order, colors, cap, i)
    ensures VertexOrder(adj, order[i := order[p]][p := order[i]])
    ensures FirstFitUpTo(adj, order[i := order[p]][p := order[i]], colors, cap, i)
  {
    var swapped := order[i := order[p]][p := order[i]];
    SwapKeepsVertexOrder(adj, order, i, p);
    forall j, d | 0 <= j < i
      ensures TakenBefore(adj, swapped, colors, j, d) <==> TakenBefore(adj, order, colors, j, d)
    {
      assert forall m :: 0 <= m <= j ==> swapped[m] == order[m];
    }
    forall j | 0 <= j < i
      ensures FirstFitAt(adj, swapped, colors, cap, j)
    {
      assert swapped[j] == order[j];
      assert FirstFitAt(adj, order, colors, cap, j);
    }
  }

  /** Colouring `order[i]` with the least colour below `cap` that no
    * neighbour has, or leaving it uncoloured when there is none, extends
    * the first-fit colouring by one position. */
  lemma FirstFitStep(adj: seq<set<int>>, order: seq<int>, colors: seq<int>, cap: int, i: int, c: int)
    requires InRange(adj) && VertexOrder(adj, order) && |colors| == |adj| && 0 <= i < |order|
    requires FirstFitUpTo(adj, order, colors, cap, i)
    requires c == Uncolored ==>
      forall d :: 0 <= d < cap ==> !FreeFor(adj, colors, order[i], d)
    requires c != Uncolored ==>
      0 <= c < cap && FreeFor(adj, colors, order[i], c)
      && forall d :: 0 <= d < c ==> !FreeFor(adj, colors, order[i], d)
    ensures FirstFitUpTo(adj, order, colors[order[i] := c], cap, i + 1)
  {
    var colors' := colors[order[i] := c];
    ColoredNeighborIsEarlier(adj, order, colors, cap, i);
    forall j, d | 0 <= j <= i
      ensures TakenBefore(adj, order, colors', j, d) <==> TakenBefore(adj, order, colors, j, d)
    {
      if TakenBefore(adj, order, colors, j, d) {
        var m :| 0 <= m < j && order[m] in adj[order[j]] && colors[order[m]] == d;
        assert colors'[order[m]] == d;
      }
      if TakenBefore(adj, order, colors', j, d) {
        var m :| 0 <= m < j && order[m] in adj[order[j]] && colors'[order[m]] == d;
        assert colors[order[m]] == d;
      }
    }
    forall j | 0 <= j < i + 1
      ensures FirstFitAt(adj, order, colors', cap, j)
    {
      if j < i {
        assert colors'[order[j]] == colors[order[j]];
        assert FirstFitAt(adj, order, colors, cap, j);
      } else {
        assert colors'[order[i]] == c;
        var top := if c == Uncolored then cap else c;
        forall d | 0 <= d < top
          ensures TakenBefore(adj, order, colors', i, d)
        {
          assert !FreeFor(adj, colors, order[i], d);
          assert TakenBefore(adj, order, colors, i, d);
        }
        if c != Uncolored {
          assert !TakenBefore(adj, order, colors, i, c);
        }
      }
    }
    forall j | i + 1 <= j < |order|
      ensures colors'[order[j]] == Uncolored
    {
      assert order[j] != order[i];
    }
  }

  /** A first-fit colour never exceeds the degree: every smaller colour is
    * held by a different neighbour. */
  lemma FirstFitWithinDegree(adj: seq<set<int>>, order: seq<int>, colors: seq<int>, cap: int, i: int, j: int)
    requires InRange(adj) && VertexOrder(adj, order) && |colors| == |adj| && 0 <= j < i <= |order|
    requires FirstFitUpTo(adj, order, colors, cap, i)
    ensures colors[order[j]] <= |adj[order[j]]|
  {
    var v := order[j];
    assert FirstFitAt(adj, order, colors, cap, j);
    if colors[v] != Uncolored {
      forall d | 0 <= d < colors[v]
        ensures d in ColorsAmong(adj[v], colors)
      {
        assert TakenBefore(adj, order, colors, j, d);
        var m :| 0 <= m < j && order[m] in adj[v] && colors[order[m]] == d;
      }
      CoveringCard(ColorsAmong(adj[v], colors), colors[v]);
      ColorsAmongAtMost(adj[v], colors);
    }
  }

  /** On an undirected graph, once the whole order is coloured first-fit,
    * two distinct neighbours never share a colour. */
  lemma FirstFitSeparates(adj: seq<set<int>>, order: seq<int>, colors: seq<int>, cap: int)
    requires Symmetric(adj) && VertexOrder(adj, order) && |colors| == |adj|
    requires FirstFitUpTo(adj, order, colors, cap, |order|)
    ensures forall v, u :: 0 <= v < |adj| && u in adj[v] && u != v && colors[v] != Uncolored ==>
      colors[u] != colors[v]
  {
    forall v, u | 0 <= v < |adj| && u in adj[v] && u != v && colors[v] != Uncolored
      ensures colors[u] != colors[v]
    {
      assert v in order && u in order;
      var j :| 0 <= j < |order| && order[j] == v;
      var m :| 0 <= m < |order| && order[m] == u;
      assert FirstFitAt(adj, order, colors, cap, j);
      if m < j {
        assert !TakenBefore(adj, order, colors, j, colors[v]);
      } else if colors[u] != Uncolored {
        assert v in adj[u];
        assert FirstFitAt(adj, order, colors, cap, m);
        assert !TakenBefore(adj, order, colors, m, colors[u]);
      }
    }
  }

  /** On an undirected loop-free graph, colouring the whole order first-fit
    * leaves no edge between two vertices of one colour. */
  lemma FirstFitProper(adj: seq<set<int>>, order: seq<int>, colors: seq<int>, cap: int)
    requires Simple(adj) && VertexOrder(adj, order) && |colors| == |adj|
    requires FirstFitUpTo(adj, order, colors, cap, |order|)
    ensures Proper(adj, colors)
  {
    FirstFitSeparates(adj, order, colors, cap);
  }

  /** Each later member of `clique` lists every earlier one as a neighbour,
    * and no vertex appears twice. */
  ghost predicate Clique(adj: seq<set<int>>, clique: seq<int>) {
    (forall i :: 0 <= i < |clique| ==> 0 <= clique[i] < |adj|)
    && (forall i, j :: 0 <= i < j < |clique| ==> clique[i] != clique[j])
    && forall i, j :: 0 <= i < j < |clique| ==> clique[i] in adj[clique[j]]
  }

  /** Every colour is one of `0 .. numColors-1`, and the last one is used. */
  ghost predicate UsesExactly(colors: seq<int>, numColors: int) {
    (forall v :: 0 <= v < |colors| ==> 0 <= colors[v] < numColors)
    && (numColors > 0 ==> exists v :: 0 <= v < |colors| && colors[v] == numColors - 1)
  }

  /** The greedy clique of both bound calculations: along `order`, a vertex
    * joins the clique when it lists every member so far as a neighbour.
    * The result is a clique that no other vertex could have joined, and on
    * a non-empty graph it starts with the first vertex of `order`. */
  method GreedyClique(adj: seq<set<int>>, order: seq<int>) returns (clique: seq<int>)
    requires InRange(adj) && VertexOrder(adj, order)
    ensures Clique(adj, clique)
    ensures forall v :: 0 <= v < |adj| && v !in clique ==> exists u :: u in clique && u !in adj[v]
    ensures |adj| > 0 ==> |clique| > 0 && clique[0] == order[0]
  {
    clique := [];
    for i := 0 to |order|
      invariant Clique(adj, clique)
      invariant forall x :: x in clique ==> x in order[..i]
      invariant forall j :: 0 <= j < i && order[j] !in clique ==> exists u :: u in clique && u !in adj[order[j]]
      invariant i == 0 ==> clique == []
      invariant i > 0 ==> |clique| > 0 && clique[0] == order[0]
    {
      var v := order[i];
      var isConnected := true;
      for k := 0 to |clique|
        invariant isConnected ==> forall m :: 0 <= m < k ==> clique[m] in adj[v]
      {
        if clique[k] !in adj[v] {
          isConnected := false;
          break;
        }
      }
      assert v !in order[..i];
      if isConnected {
        clique := clique + [v];
      }
      assert order[..i + 1] == order[..i] + [v];
    }
    forall v | 0 <= v < |adj| && v !in clique
      ensures exists u :: u in clique && u !in adj[v]
    {
      assert v in order;
    }
  }

  /** The members of a clique take pairwise different colours in a
    * colouring that separates neighbours, so a clique is never larger
    * than the number of colours. */
  lemma CliqueNeedsColors(adj: seq<set<int>>, clique: seq<int>, colors: seq<int>, numColors: int)
    requires InRange(adj) && Clique(adj, clique) && |colors| == |adj|
    requires UsesExactly(colors, numColors) && numColors >= 0
    requires forall v, u :: 0 <= v < |adj| && u in adj[v] && u != v && colors[v] != Uncolored ==>
      colors[u] != colors[v]
    ensures |clique| <= numColors
  {
    var hues := seq(|clique|, i requires 0 <= i < |clique| => colors[clique[i]]);
    forall i, j | 0 <= i < j < |hues|
      ensures hues[i] != hues[j]
    {
      assert clique[i] in adj[clique[j]];
    }
    DistinctCard(hues);
    BoundedCard((set c | c in hues), numColors);
  }

  /** On an undirected graph with a vertex, a clique is never larger than
    * the number of colours of a complete first-fit colouring, which is at
    * least 1, and no larger than the graph. */
  lemma CliqueBelowColoring(adj: seq<set<int>>, order: seq<int>, colors: seq<int>, cap: int, numColors: int, clique: seq<int>)
    requires Symmetric(adj) && |adj| >= 1 && VertexOrder(adj, order)
    requires |colors| == |adj| && FirstFitUpTo(adj, order, colors, cap, |adj|)
    requires UsesExactly(colors, numColors) && Clique(adj, clique)
    ensures 1 <= numColors && |clique| <= numColors && |clique| <= |adj|
  {
    assert 0 <= colors[0] < numColors;
    FirstFitSeparates(adj, order, colors, cap);
    CliqueNeedsColors(adj, clique, colors, numColors);
    DistinctCard(clique);
    BoundedCard((set x | x in clique), |adj|);
  }

  /** The classical greedy bound: a first-fit colouring of the whole order
    * uses at most one colour more than the largest degree. */
  lemma UpperWithinMaxDegree(adj: seq<set<int>>, order: seq<int>, colors: seq<int>, cap: int, numColors: int)
    requires InRange(adj) && VertexOrder(adj, order)
    requires |colors| == |adj| && FirstFitUpTo(adj, order, colors, cap, |adj|)
    requires UsesExactly(colors, numColors)
    ensures numColors <= MaxDegree(adj) + 1
  {
    if numColors > 0 {
      var v :| 0 <= v < |colors| && colors[v] == numColors - 1;
      assert v in order;
      var j :| 0 <= j < |order| && order[j] == v;
      FirstFitWithinDegree(adj, order, colors, cap, |adj|, j);
    }
  }
}
