/** The graph of lab2/codigo/src/Graph.cpp: the same neighbour sets and entry
  * count as lab2/src/Graph.cpp, but `addEdge` refuses self-loops and the
  * loader rebuilds the lists from scratch, keeping the read pairs in a
  * vector between its two passes. */
module SimpleGraph {
  import opened GraphBasics
  import CppStream

  /** `addEdge(v, w)` on the lists alone: nothing for `v == w`. */
  function Link(adj: seq<set<int>>, v: int, w: int): (r: seq<set<int>>)
    requires v == w || 0 <= v < |adj|
    ensures |r| == |adj|
  {
    if v == w then adj else WithEdge(adj, v, w)
  }

  /** The two `addEdge` calls for one pair are `AddPair` with self-loops skipped. */
  lemma LinkBoth(adj: seq<set<int>>, p: (int, int))
    requires 1 <= p.0 <= |adj| && 1 <= p.1 <= |adj|
    ensures Link(Link(adj, p.0 - 1, p.1 - 1), p.1 - 1, p.0 - 1) == AddPair(adj, p, true)
  {
  }

  class Graph {
    var vertexCount: int
    var adj: seq<set<int>>
    var edgeCount: nat

    /** One list per vertex, `edgeCount` counts the stored entries, and no
      * vertex lists itself. */
    ghost predicate Valid()
      reads this
    {
      vertexCount == |adj| && edgeCount == TotalEntries(adj) && LoopFree(adj)
    }

    /** `Graph()`: no vertices. */
    constructor Empty()
      ensures Valid()
      ensures vertexCount == 0 && adj == [] && edgeCount == 0
    {
      vertexCount := 0;
      adj := [];
      edgeCount := 0;
    }

    /** `Graph(int vertices)`: `vertices` empty lists. */
    constructor (vertices: nat)
      ensures Valid()
      ensures vertexCount == vertices && adj == Edgeless(vertices) && edgeCount == 0
    {
      vertexCount := vertices;
      adj := Edgeless(vertices);
      edgeCount := 0;
      EdgelessTotal(vertices);
    }

    function HasEdge(v: int, w: int): bool
      reads this
      requires 0 <= v < |adj|
    {
      w in adj[v]
    }

    function GetDegree(v: int): nat
      reads this
      requires 0 <= v < |adj|
    {
      |adj[v]|
    }

    /** `areNeighbors(a, b)`: the same question as `hasEdge(a, b)`. */
    function AreNeighbors(a: int, b: int): (r: bool)
      reads this
      requires 0 <= a < |adj|
      ensures r == HasEdge(a, b)
    {
      b in adj[a]
    }

    /** `addEdge(v, w)`: returns at once for `v == w` (the vertex is then
      * never looked at); otherwise inserts `w` into `v`'s list, counting it
      * only when it was not there. */
    method AddEdge(v: int, w: int)
      requires Valid()
      requires v == w || 0 <= v < |adj|
      modifies this
      ensures Valid()
      ensures adj == Link(old(adj), v, w)
      ensures v != w ==> HasEdge(v, w)
      ensures edgeCount == old(edgeCount) + (if v == w || w in old(adj)[v] then 0 else 1)
      ensures vertexCount == old(vertexCount)
    {
      if v == w {
        return;
      }
      TotalEntriesUpdate(adj, v, adj[v] + {w});
      if w !in adj[v] {
        adj := adj[v := adj[v] + {w}];
        edgeCount := edgeCount + 1;
      } else {
        assert adj[v] + {w} == adj[v];
        assert adj[v := adj[v] + {w}] == adj;
      }
    }

    /** `getNeighbors(v)`: the members of `v`'s list, each once, in the
      * set's (unspecified) iteration order. */
    method GetNeighbors(v: int) returns (ns: seq<int>)
      requires 0 <= v < |adj|
      ensures |ns| == GetDegree(v)
      ensures forall w :: w in ns <==> HasEdge(v, w)
      ensures forall i, j :: 0 <= i < j < |ns| ==> ns[i] != ns[j]
    {
      ns := [];
      var rest := adj[v];
      while rest != {}
        invariant rest <= adj[v]
        invariant forall u :: u in ns <==> u in adj[v] && u !in rest
        invariant forall i, j :: 0 <= i < j < |ns| ==> ns[i] != ns[j]
        invariant |ns| + |rest| == |adj[v]|
        decreases |rest|
      {
        var w := PickMember(rest);
        ns := ns + [w];
        rest := rest - {w};
      }
    }

    /** `removeEdge(v, w)`: erases one direction only, uncounting it when it
      * was there; the reverse entry and every other list stay. */
    method RemoveEdge(v: int, w: int)
      requires Valid()
      requires 0 <= v < |adj|
      modifies this
      ensures Valid()
      ensures adj == WithoutEdge(old(adj), v, w) && !HasEdge(v, w)
      ensures edgeCount == old(edgeCount) - (if w in old(adj)[v] then 1 else 0)
      ensures GetDegree(v) == old(|adj[v]|) - (if w in old(adj)[v] then 1 else 0)
      ensures forall x :: 0 <= x < |adj| && x != v ==> adj[x] == old(adj)[x]
      ensures vertexCount == old(vertexCount)
    {
      TotalEntriesUpdate(adj, v, adj[v] - {w});
      if w in adj[v] {
        adj := adj[v := adj[v] - {w}];
        edgeCount := edgeCount - 1;
      } else {
        assert adj[v] - {w} == adj[v];
        assert adj[v := adj[v] - {w}] == adj;
      }
    }

    /** `getMaxDegree()`: the largest list size, 0 without vertices. */
    method GetMaxDegree() returns (m: nat)
      requires Valid()
      ensures m == MaxDegree(adj)
      ensures forall v :: 0 <= v < |adj| ==> GetDegree(v) <= m
      ensures |adj| > 0 ==> exists v :: 0 <= v < |adj| && GetDegree(v) == m
    {
      m := 0;
      var i := 0;
      while i < vertexCount
        invariant 0 <= i <= vertexCount
        invariant m == MaxDegree(adj[..i])
      {
        assert adj[..i + 1][..i] == adj[..i];
        if |adj[i]| > m {
          m := |adj[i]|;
        }
        i := i + 1;
      }
      assert adj[..i] == adj;
      if |adj| > 0 {
        var v :| 0 <= v < |adj| && |adj[v]| == m;
        assert GetDegree(v) == m;
      }
    }

    /** The first pass of `createFromFile`: the pairs in reading order and
      * the largest id among them. */
    static method CollectPairs(read: seq<(int, int)>) returns (edges: seq<(int, int)>, maxVertex: int)
      ensures edges == read && maxVertex == MaxId(read)
    {
      edges := [];
      maxVertex := 0;
      var i := 0;
      while i < |read|
        invariant 0 <= i <= |read|
        invariant edges == read[..i] && maxVertex == MaxId(read[..i])
      {
        assert read[..i + 1][..i] == read[..i];
        var (v, w) := read[i];
        var m := if v >= w then v else w;
        maxVertex := if maxVertex >= m then maxVertex else m;
        edges := edges + [(v, w)];
        i := i + 1;
      }
      assert read[..i] == read;
    }

    /** The loop body of the second pass: `addEdge(v-1, w-1)` then
      * `addEdge(w-1, v-1)` for one stored pair. */
    method AddUndirected(p: (int, int))
      requires Valid()
      requires 1 <= p.0 <= |adj| && 1 <= p.1 <= |adj|
      modifies this
      ensures Valid()
      ensures vertexCount == old(vertexCount)
      ensures adj == AddPair(old(adj), p, true)
    {
      LinkBoth(adj, p);
      AddEdge(p.0 - 1, p.1 - 1);
      AddEdge(p.1 - 1, p.0 - 1);
    }

    /** The second pass: one `AddUndirected` for every stored pair, in order. */
    method AddPairs(pairs: seq<(int, int)>)
      requires Valid()
      requires Fits(pairs, |adj|)
      modifies this
      ensures Valid()
      ensures vertexCount == old(vertexCount)
      ensures adj == LoadPairs(old(adj), pairs, true)
    {
      ghost var base := adj;
      var i := 0;
      while i < |pairs|
        invariant 0 <= i <= |pairs|
        invariant vertexCount == old(vertexCount)
        invariant Fits(pairs[..i], |base|)
        invariant adj == LoadPairs(base, pairs[..i], true)
        invariant Valid()
      {
        LoadPairsStep(base, pairs, true, i);
        AddUndirected(pairs[i]);
        i := i + 1;
      }
      assert pairs[..i] == pairs;
    }

    /** `createFromFile(fileName)` on the file's text (`None` when it cannot
      * be opened): the graph is rebuilt from the pairs read, as undirected
      * edges between 0-based vertices, without self-loops, and with as many
      * vertices as the largest id. Ids must be at least 1. */
    method CreateFromFile(content: CppStream.Option<string>) returns (ok: bool)
      requires Valid()
      requires content.Some? ==> PositiveIds(CppStream.ReadIntPairs(content.value, 0))
      modifies this
      ensures Valid()
      ensures ok <==> content.Some?
      ensures !ok ==> adj == old(adj) && edgeCount == old(edgeCount) && vertexCount == old(vertexCount)
      ensures ok ==>
        var pairs := CppStream.ReadIntPairs(content.value, 0);
        vertexCount == MaxId(pairs)
        && adj == LoadPairs(Edgeless(MaxId(pairs)), pairs, true)
        && Symmetric(adj)
        && forall x, y :: 0 <= x < |adj| ==>
             (y in adj[x] <==> x != y && ((x + 1, y + 1) in pairs || (y + 1, x + 1) in pairs))
    {
      if content.None? {
        return false;
      }
      var edges, maxVertex := CollectPairs(CppStream.ReadIntPairs(content.value, 0));
      vertexCount := maxVertex;
      adj := Edgeless(maxVertex);
      edgeCount := 0;
      EdgelessTotal(maxVertex);
      AddPairs(edges);
      LoadFresh(edges, true);
      return true;
    }
  }

  /** The fixture of the graph test: the pairs 1-2, 1-3, 2-3 and 4-5 give
    * a triangle on vertices 0, 1, 2 and an edge 3-4, with degrees 2, 2, 2,
    * 1, 1 and no edge 2-3. */
  lemma TriangleAndEdge()
    ensures var g := LoadPairs(Edgeless(5), [(1, 2), (1, 3), (2, 3), (4, 5)], true);
      g == [{1, 2}, {0, 2}, {0, 1}, {4}, {3}]
      && |g[0]| == 2 && |g[1]| == 2 && |g[2]| == 2 && |g[3]| == 1 && |g[4]| == 1
      && 3 !in g[2]
  {
    var ps := [(1, 2), (1, 3), (2, 3), (4, 5)];
    var g0: seq<set<int>> := [{}, {}, {}, {}, {}];
    var g1: seq<set<int>> := [{1}, {0}, {}, {}, {}];
    var g2: seq<set<int>> := [{1, 2}, {0}, {0}, {}, {}];
    var g3: seq<set<int>> := [{1, 2}, {0, 2}, {0, 1}, {}, {}];
    var g4: seq<set<int>> := [{1, 2}, {0, 2}, {0, 1}, {4}, {3}];
    assert Edgeless(5) == g0;
    AddPairFixture(g0, g1, g2, g3, g4);
    assert ps[..0] == [];
    LoadPairsStep(g0, ps, true, 0);
    LoadPairsStep(g0, ps, true, 1);
    LoadPairsStep(g0, ps, true, 2);
    LoadPairsStep(g0, ps, true, 3);
    assert ps[..4] == ps;
    assert |{1, 2}| == 2 && |{0, 2}| == 2 && |{0, 1}| == 2;
  }

  lemma AddPairFixture(g0: seq<set<int>>, g1: seq<set<int>>, g2: seq<set<int>>, g3: seq<set<int>>, g4: seq<set<int>>)
    requires g0 == [{}, {}, {}, {}, {}]
    requires g1 == [{1}, {0}, {}, {}, {}]
    requires g2 == [{1, 2}, {0}, {0}, {}, {}]
    requires g3 == [{1, 2}, {0, 2}, {0, 1}, {}, {}]
    requires g4 == [{1, 2}, {0, 2}, {0, 1}, {4}, {3}]
    ensures AddPair(g0, (1, 2), true) == g1
    ensures AddPair(g1, (1, 3), true) == g2
    ensures AddPair(g2, (2, 3), true) == g3
    ensures AddPair(g3, (4, 5), true) == g4
  {
    assert WithEdge(WithEdge(g0, 0, 1), 1, 0) == g1 by {
      assert g0[0] + {1} == {1} && g0[1] + {0} == {0};
    }
    assert WithEdge(WithEdge(g1, 0, 2), 2, 0) == g2 by {
      assert g1[0] + {2} == {1, 2} && g1[2] + {0} == {0};
    }
    assert WithEdge(WithEdge(g2, 1, 2), 2, 1) == g3 by {
      assert g2[1] + {2} == {0, 2} && g2[2] + {1} == {0, 1};
    }
    assert WithEdge(WithEdge(g3, 3, 4), 4, 3) == g4 by {
      assert g3[3] + {4} == {4} && g3[4] + {3} == {3};
    }
  }
}
