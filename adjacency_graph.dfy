/** The graph of lab2/src/Graph.cpp: one neighbour set per vertex and a count
  * of the stored (directed) entries. `addEdge` adds one direction only; the
  * loader adds both directions of every 1-based pair it reads. */
module AdjacencyGraph {
  import opened GraphBasics
  import CppStream

  class Graph {
    var vertexCount: int
    var adj: seq<set<int>>
    var edgeCount: nat

    /** `edgeCount` counts the stored entries and there is one list per vertex. */
    ghost predicate Valid()
      reads this
    {
      vertexCount == |adj| && edgeCount == TotalEntries(adj)
    }

    /** `Graph()`: no vertices. */
    constructor Empty()
      ensures Valid()
      ensures vertexCount == 0 && adj == [] && edgeCount == 0
    {
      vertexCount := 0;
      adj := [];
      edgeCount := 0;
    }

    /** `Graph(int vertices)`: `vertices` empty lists. */
    constructor (vertices: nat)
      ensures Valid()
      ensures vertexCount == vertices && adj == Edgeless(vertices) && edgeCount == 0
    {
      vertexCount := vertices;
      adj := Edgeless(vertices);
      edgeCount := 0;
      EdgelessTotal(vertices);
    }

    function HasEdge(v: int, w: int): bool
      reads this
      requires 0 <= v < |adj|
    {
      w in adj[v]
    }

    function GetDegree(v: int): nat
      reads this
      requires 0 <= v < |adj|
    {
      |adj[v]|
    }

    /** `addEdge(v, w)`: inserts `w` into `v`'s list, counting it only when
      * it was not there; the difference between the count and the stored
      * entries is left as it was. */
    method AddEdge(v: int, w: int)
      requires 0 <= v < |adj|
      modifies this
      ensures adj == WithEdge(old(adj), v, w) && HasEdge(v, w)
      ensures edgeCount == old(edgeCount) + (if w in old(adj)[v] then 0 else 1)
      ensures vertexCount == old(vertexCount)
      ensures edgeCount - TotalEntries(adj) == old(edgeCount) - old(TotalEntries(adj))
      ensures old(Valid()) ==> Valid()
    {
      TotalEntriesUpdate(adj, v, adj[v] + {w});
      if w !in adj[v] {
        adj := adj[v := adj[v] + {w}];
        edgeCount := edgeCount + 1;
      } else {
        assert adj[v] + {w} == adj[v];
        assert adj[v := adj[v] + {w}] == adj;
      }
    }

    /** `getNeighbors(v)`: the members of `v`'s list, each once, in the
      * set's (unspecified) iteration order. */
    method GetNeighbors(v: int) returns (ns: seq<int>)
      requires 0 <= v < |adj|
      ensures |ns| == GetDegree(v)
      ensures forall w :: w in ns <==> HasEdge(v, w)
      ensures forall i, j :: 0 <= i < j < |ns| ==> ns[i] != ns[j]
    {
      ns := [];
      var rest := adj[v];
      while rest != {}
        invariant rest <= adj[v]
        invariant forall u :: u in ns <==> u in adj[v] && u !in rest
        invariant forall i, j :: 0 <= i < j < |ns| ==> ns[i] != ns[j]
        invariant |ns| + |rest| == |adj[v]|
        decreases |rest|
      {
        var w := PickMember(rest);
        ns := ns + [w];
        rest := rest - {w};
      }
    }

    /** `removeEdge(v, w)`: erases `w` from `v`'s list, uncounting it only
      * when it was there. */
    method RemoveEdge(v: int, w: int)
      requires Valid()
      requires 0 <= v < |adj|
      modifies this
      ensures Valid()
      ensures adj == WithoutEdge(old(adj), v, w) && !HasEdge(v, w)
      ensures edgeCount == old(edgeCount) - (if w in old(adj)[v] then 1 else 0)
      ensures vertexCount == old(vertexCount)
    {
      TotalEntriesUpdate(adj, v, adj[v] - {w});
      if w in adj[v] {
        adj := adj[v := adj[v] - {w}];
        edgeCount := edgeCount - 1;
      } else {
        assert adj[v] - {w} == adj[v];
        assert adj[v := adj[v] - {w}] == adj;
      }
    }

    /** `isEmpty()`: no stored entry, that is, every list is empty. */
    function IsEmpty(): (b: bool)
      reads this
      requires Valid()
      ensures b <==> forall v :: 0 <= v < |adj| ==> adj[v] == {}
    {
      TotalEntriesZero(adj);
      edgeCount == 0
    }

    /** `clear()`: empties every list and zeroes the count; the vertices stay. */
    method Clear()
      requires Valid()
      modifies this
      ensures Valid()
      ensures adj == Edgeless(old(|adj|)) && edgeCount == 0
      ensures vertexCount == old(vertexCount)
    {
      var i := 0;
      while i < |adj|
        invariant 0 <= i <= |adj| == old(|adj|)
        invariant forall k :: 0 <= k < i ==> adj[k] == {}
        invariant forall k :: i <= k < |adj| ==> adj[k] == old(adj)[k]
        invariant vertexCount == old(vertexCount)
      {
        adj := adj[i := {}];
        i := i + 1;
      }
      edgeCount := 0;
      assert adj == Edgeless(|adj|);
      EdgelessTotal(|adj|);
    }

    /** `getMaxDegree()`: the largest list size, 0 without vertices. */
    method GetMaxDegree() returns (m: nat)
      requires Valid()
      ensures m == MaxDegree(adj)
      ensures forall v :: 0 <= v < |adj| ==> GetDegree(v) <= m
      ensures |adj| > 0 ==> exists v :: 0 <= v < |adj| && GetDegree(v) == m
    {
      m := 0;
      var i := 0;
      while i < vertexCount
        invariant 0 <= i <= vertexCount
        invariant m == MaxDegree(adj[..i])
      {
        assert adj[..i + 1][..i] == adj[..i];
        if |adj[i]| > m {
          m := |adj[i]|;
        }
        i := i + 1;
      }
      assert adj[..i] == adj;
      if |adj| > 0 {
        var v :| 0 <= v < |adj| && |adj[v]| == m;
        assert GetDegree(v) == m;
      }
    }

    /** The first pass of `createFromFile`: the largest id among the pairs. */
    static method ScanMaxVertex(pairs: seq<(int, int)>) returns (maxVertex: int)
      ensures maxVertex == MaxId(pairs)
    {
      maxVertex := 0;
      var i := 0;
      while i < |pairs|
        invariant 0 <= i <= |pairs|
        invariant maxVertex == MaxId(pairs[..i])
      {
        assert pairs[..i + 1][..i] == pairs[..i];
        var (v, w) := pairs[i];
        var m := if v >= w then v else w;
        maxVertex := if maxVertex >= m then maxVertex else m;
        i := i + 1;
      }
      assert pairs[..i] == pairs;
    }

    /** The second pass of `createFromFile`: `addEdge(v-1, w-1)` and
      * `addEdge(w-1, v-1)` for every pair, in order. */
    method AddPairs(pairs: seq<(int, int)>)
      requires vertexCount == |adj|
      requires Fits(pairs, |adj|)
      modifies this
      ensures vertexCount == old(vertexCount) == |adj|
      ensures adj == LoadPairs(old(adj), pairs, false)
      ensures edgeCount - TotalEntries(adj) == old(edgeCount) - old(TotalEntries(adj))
    {
      ghost var base := adj;
      var i := 0;
      while i < |pairs|
        invariant 0 <= i <= |pairs|
        invariant vertexCount == old(vertexCount) == |adj|
        invariant Fits(pairs[..i], |base|)
        invariant adj == LoadPairs(base, pairs[..i], false)
        invariant edgeCount - TotalEntries(adj) == old(edgeCount) - old(TotalEntries(adj))
      {
        LoadPairsStep(base, pairs, false, i);
        ghost var before := adj;
        var v := pairs[i].0;
        var w := pairs[i].1;
        AddEdge(v - 1, w - 1);
        AddEdge(w - 1, v - 1);
        assert adj == AddPair(before, pairs[i], false);
        i := i + 1;
      }
      assert pairs[..i] == pairs;
    }

    /** `createFromFile(fileName)` as written, on the file's text (`None`
      * when it cannot be opened). The lists are resized, not rebuilt, so on
      * a graph that already holds edges those edges survive while the count
      * restarts from 0: the count then covers only the entries this load
      * added. Ids are 1-based and must be at least 1. */
    method CreateFromFile(content: CppStream.Option<string>) returns (ok: bool)
      requires content.Some? ==> PositiveIds(CppStream.ReadIntPairs(content.value, 0))
      modifies this
      ensures ok <==> content.Some?
      ensures !ok ==> adj == old(adj) && edgeCount == old(edgeCount) && vertexCount == old(vertexCount)
      ensures ok ==>
        var pairs := CppStream.ReadIntPairs(content.value, 0);
        var base := Resized(old(adj), MaxId(pairs));
        vertexCount == MaxId(pairs) == |adj|
        && adj == LoadPairs(base, pairs, false)
        && edgeCount == TotalEntries(adj) - TotalEntries(base)
      ensures ok && (forall v :: 0 <= v < |old(adj)| ==> old(adj)[v] == {}) ==> Valid()
    {
      if content.None? {
        return false;
      }
      var pairs := CppStream.ReadIntPairs(content.value, 0);
      var maxVertex := ScanMaxVertex(pairs);
      vertexCount := maxVertex;
      adj := Resized(adj, maxVertex);
      edgeCount := 0;
      ghost var base := adj;
      AddPairs(pairs);
      if forall v :: 0 <= v < |old(adj)| ==> old(adj)[v] == {} {
        assert forall v :: 0 <= v < |base| ==> base[v] == {};
        TotalEntriesZero(base);
      }
      return true;
    }

    /** `createFromFile` with a fresh adjacency, as the loader of
      * lab2/codigo/src/Graph.cpp builds it: the graph holds exactly the
      * pairs read, in both directions, and the count is right. */
    method CreateFromFileFresh(content: CppStream.Option<string>) returns (ok: bool)
      requires Valid()
      requires content.Some? ==> PositiveIds(CppStream.ReadIntPairs(content.value, 0))
      modifies this
      ensures Valid()
      ensures ok <==> content.Some?
      ensures !ok ==> adj == old(adj) && edgeCount == old(edgeCount) && vertexCount == old(vertexCount)
      ensures ok ==>
        var pairs := CppStream.ReadIntPairs(content.value, 0);
        vertexCount == MaxId(pairs)
        && adj == LoadPairs(Edgeless(MaxId(pairs)), pairs, false)
        && Symmetric(adj)
        && forall x, y :: 0 <= x < |adj| ==> (y in adj[x] <==> (x + 1, y + 1) in pairs || (y + 1, x + 1) in pairs)
    {
      if content.None? {
        return false;
      }
      var pairs := CppStream.ReadIntPairs(content.value, 0);
      var maxVertex := ScanMaxVertex(pairs);
      vertexCount := maxVertex;
      adj := Edgeless(maxVertex);
      edgeCount := 0;
      EdgelessTotal(maxVertex);
      AddPairs(pairs);
      LoadFresh(pairs, false);
      return true;
    }
  }

  /** The two loads of the example below, entry by entry. */
  lemma ReloadSteps()
    ensures LoadPairs([{}, {}], [(1, 2)], false) == [{1}, {0}]
    ensures LoadPairs([{1}, {0}, {}], [(2, 3)], false) == [{1}, {0, 2}, {1}]
  {
    var e: seq<set<int>> := [{}, {}];
    assert e[0] + {1} == {1} && e[0 := {1}] == [{1}, {}];
    assert WithEdge(e, 0, 1) == [{1}, {}];
    assert {} + {0} == {0} && [{1}, {}][1 := {0}] == [{1}, {0}];
    assert WithEdge([{1}, {}], 1, 0) == [{1}, {0}];
    var base: seq<set<int>> := [{1}, {0}, {}];
    assert {0} + {2} == {0, 2} && base[1 := {0, 2}] == [{1}, {0, 2}, {}];
    assert WithEdge(base, 1, 2) == [{1}, {0, 2}, {}];
    assert {} + {1} == {1} && [{1}, {0, 2}, {}][2 := {1}] == [{1}, {0, 2}, {1}];
    assert WithEdge([{1}, {0, 2}, {}], 2, 1) == [{1}, {0, 2}, {1}];
    assert [(1, 2)][..0] == [] && [(2, 3)][..0] == [];
  }

  /** Reloading as written keeps edges of the previous file and miscounts:
    * after "1 2" then "2 3", vertex 0 still lists vertex 1 although the
    * second file has no such edge, and the count is 2 for 4 stored entries. */
  lemma ReloadKeepsStaleEdges()
    ensures
      var first := LoadPairs(Edgeless(2), [(1, 2)], false);
      var base := Resized(first, 3);
      var second := LoadPairs(base, [(2, 3)], false);
      1 in second[0]
      && (1, 2) !in [(2, 3)] && (2, 1) !in [(2, 3)]
      && TotalEntries(second) == 4
      && TotalEntries(second) - TotalEntries(base) == 2
  {
    ReloadSteps();
    assert Edgeless(2) == [{}, {}];
    var base: seq<set<int>> := [{1}, {0}, {}];
    assert Resized([{1}, {0}], 3) == base;
    assert [{1}, {0}, {}][..2] == [{1}, {0}];
    assert [{1}, {0}][..1] == [{1}];
    assert [{1}][..0] == [];
    assert [{1}, {0, 2}, {1}][..2] == [{1}, {0, 2}];
    assert [{1}, {0, 2}][..1] == [{1}];
    assert TotalEntries(base) == 2;
    assert |{0, 2}| == 2;
    assert TotalEntries([{1}, {0, 2}, {1}]) == 4;
  }

  /** On a graph without stored entries the two loaders agree. */
  lemma FreshAndResizedAgreeWhenEmpty(adj: seq<set<int>>, pairs: seq<(int, int)>)
    requires forall v :: 0 <= v < |adj| ==> adj[v] == {}
    requires PositiveIds(pairs)
    ensures Resized(adj, MaxId(pairs)) == Edgeless(MaxId(pairs))
  {
  }
}
