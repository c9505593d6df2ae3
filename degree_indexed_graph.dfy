/** The graph of lab2/include/Graphold.h: undirected adjacency sets kept in
  * step with `degreeOrder`, an ordered set of `(degree, vertex)` pairs. The
  * red-black tree is modelled by its in-order sequence, strictly ascending
  * under the lexicographic order on pairs; its `insert` and `erase` are the
  * functions `Insert` and `Erase` below. */
module DegreeIndexedGraph {
  import opened GraphBasics
  import CppStream

  /** `std::less<std::pair<int, int>>`: by degree, then by vertex. */
  predicate Below(a: (int, int), b: (int, int)) {
    a.0 < b.0 || (a.0 == b.0 && a.1 < b.1)
  }

  predicate Ascending(xs: seq<(int, int)>) {
    forall i, j :: 0 <= i < j < |xs| ==> Below(xs[i], xs[j])
  }

  /** The tree's `insert`: a no-op when the pair is already there. */
  function Insert(xs: seq<(int, int)>, p: (int, int)): (r: seq<(int, int)>)
    requires Ascending(xs)
    ensures Ascending(r)
    ensures forall q :: q in r <==> q in xs || q == p
    ensures |r| == if p in xs then |xs| else |xs| + 1
  {
    if |xs| == 0 then [p]
    else if xs[0] == p then xs
    else if Below(p, xs[0]) then
      assert p !in xs;
      [p] + xs
    else
      var tail := Insert(xs[1..], p);
      assert forall q :: q in tail ==> Below(xs[0], q);
      assert forall j :: 0 <= j < |tail| ==> tail[j] in tail;
      [xs[0]] + tail
  }

  /** The tree's `erase`: a no-op when the pair is absent. */
  function Erase(xs: seq<(int, int)>, p: (int, int)): (r: seq<(int, int)>)
    requires Ascending(xs)
    ensures Ascending(r)
    ensures forall q :: q in r <==> q in xs && q != p
    ensures |r| == if p in xs then |xs| - 1 else |xs|
  {
    if |xs| == 0 then []
    else if xs[0] == p then
      assert p !in xs[1..];
      xs[1..]
    else
      var tail := Erase(xs[1..], p);
      assert forall j :: 0 <= j < |tail| ==> tail[j] in tail;
      [xs[0]] + tail
  }

  /** `degreeOrder` is an index of every vertex outside `unindexed`: ascending,
    * holding exactly the pair `(getDegree(v), v)` of each such vertex. */
  ghost predicate IndexedExcept(order: seq<(int, int)>, adj: seq<set<int>>, unindexed: set<int>) {
    Ascending(order)
    && (forall v :: v in unindexed ==> 0 <= v < |adj|)
    && |order| + |unindexed| == |adj|
    && forall p :: p in order <==> 0 <= p.1 < |adj| && p.1 !in unindexed && p.0 == |adj[p.1]|
  }

  /** `degreeOrder` holds exactly the pair `(getDegree(v), v)` of every vertex. */
  ghost predicate Indexes(order: seq<(int, int)>, adj: seq<set<int>>) {
    IndexedExcept(order, adj, {})
  }

  /** `degreeOrder.erase({getDegree(v), v})` takes `v` out of the index. */
  lemma Unindex(order: seq<(int, int)>, adj: seq<set<int>>, unindexed: set<int>, v: int)
    requires IndexedExcept(order, adj, unindexed)
    requires 0 <= v < |adj|
    ensures IndexedExcept(Erase(order, (|adj[v]|, v)), adj, unindexed + {v})
  {
    if v in unindexed {
      assert unindexed + {v} == unindexed;
    } else {
      assert (|adj[v]|, v) in order;
    }
  }

  /** The list of a vertex outside the index may change freely. */
  lemma ChangeUnindexed(order: seq<(int, int)>, adj: seq<set<int>>, unindexed: set<int>, v: int, s: set<int>)
    requires IndexedExcept(order, adj, unindexed)
    requires v in unindexed
    ensures IndexedExcept(order, adj[v := s], unindexed)
  {
  }

  /** `degreeOrder.insert({getDegree(v), v})` puts `v` back under its degree. */
  lemma Reindex(order: seq<(int, int)>, adj: seq<set<int>>, unindexed: set<int>, v: int)
    requires IndexedExcept(order, adj, unindexed)
    requires 0 <= v < |adj|
    ensures IndexedExcept(Insert(order, (|adj[v]|, v)), adj, unindexed - {v})
  {
    if v in unindexed {
      assert (|adj[v]|, v) !in order;
    } else {
      assert unindexed - {v} == unindexed;
    }
  }

  /** The erase, erase, insert, insert, insert, insert of `addEdge` leaves an
    * index of the new lists. */
  lemma AddEdgeReindexes(order: seq<(int, int)>, adj: seq<set<int>>, v1: int, v2: int)
    requires Indexes(order, adj)
    requires 0 <= v1 < |adj| && 0 <= v2 < |adj|
    ensures var o := Erase(Erase(order, (|adj[v1]|, v1)), (|adj[v2]|, v2));
      var a := adj[v1 := adj[v1] + {v2}];
      var b := a[v2 := a[v2] + {v1}];
      Indexes(Insert(Insert(o, (|b[v1]|, v1)), (|b[v2]|, v2)), b)
  {
    Unindex(order, adj, {}, v1);
    var o1 := Erase(order, (|adj[v1]|, v1));
    Unindex(o1, adj, {v1}, v2);
    var o := Erase(o1, (|adj[v2]|, v2));
    var a := adj[v1 := adj[v1] + {v2}];
    ChangeUnindexed(o, adj, {v1, v2}, v1, adj[v1] + {v2});
    var b := a[v2 := a[v2] + {v1}];
    ChangeUnindexed(o, a, {v1, v2}, v2, a[v2] + {v1});
    Reindex(o, b, {v1, v2}, v1);
    Reindex(Insert(o, (|b[v1]|, v1)), b, {v1, v2} - {v1}, v2);
    assert {v1, v2} - {v1} - {v2} == {};
  }

  /** Vertex `u` comes before `w` in a descending walk of `degreeOrder`:
    * a larger degree, or the same degree and a larger id. */
  predicate Outranks(adj: seq<set<int>>, u: int, w: int)
    requires 0 <= u < |adj| && 0 <= w < |adj|
  {
    Below((|adj[w]|, w), (|adj[u]|, u))
  }

  /** Adding an edge already stored in both directions changes nothing. */
  lemma WithEdgePresent(adj: seq<set<int>>, v1: int, v2: int)
    requires 0 <= v1 < |adj| && 0 <= v2 < |adj|
    requires v2 in adj[v1] && v1 in adj[v2]
    ensures WithEdge(WithEdge(adj, v1, v2), v2, v1) == adj
  {
    assert adj[v1] + {v2} == adj[v1];
    assert adj[v2] + {v1} == adj[v2];
  }

  /** The 0-based pairs of the file as the 1-based pairs `LoadPairs` takes. */
  function Shift(edges: seq<(int, int)>): (r: seq<(int, int)>)
    ensures |r| == |edges|
    ensures forall i :: 0 <= i < |edges| ==> r[i] == (edges[i].0 + 1, edges[i].1 + 1)
  {
    seq(|edges|, i requires 0 <= i < |edges| => (edges[i].0 + 1, edges[i].1 + 1))
  }

  lemma ShiftMember(edges: seq<(int, int)>, x: int, y: int)
    ensures (x + 1, y + 1) in Shift(edges) <==> (x, y) in edges
  {
    var r := Shift(edges);
    if (x, y) in edges {
      var i :| 0 <= i < |edges| && edges[i] == (x, y);
      assert r[i] == (x + 1, y + 1);
    }
    if (x + 1, y + 1) in r {
      var i :| 0 <= i < |r| && r[i] == (x + 1, y + 1);
      assert edges[i] == (x, y);
    }
  }

  /** Adding a shifted pair stores the 0-based edge both ways. */
  lemma AddShifted(adj: seq<set<int>>, v1: int, v2: int)
    requires 0 <= v1 < |adj| && 0 <= v2 < |adj|
    ensures AddPair(adj, (v1 + 1, v2 + 1), false) == WithEdge(WithEdge(adj, v1, v2), v2, v1)
  {
  }

  /** Reads `count` pairs with `file >> v1 >> v2`; `None` when an extraction
    * fails. A count below 1 reads nothing, as the `for` loop does. */
  function ReadPairsN(s: string, pos: nat, count: int): (r: CppStream.Option<(seq<(int, int)>, nat)>)
    requires pos <= |s|
    ensures r.Some? ==> |r.value.0| == (if count < 0 then 0 else count) && pos <= r.value.1 <= |s|
    decreases if count < 0 then 0 else count
  {
    if count <= 0 then CppStream.Some(([], pos))
    else
      match CppStream.ReadInt(s, pos)
      case None => CppStream.None
      case Some((v1, p1)) =>
        match CppStream.ReadInt(s, p1)
        case None => CppStream.None
        case Some((v2, p2)) =>
          match ReadPairsN(s, p2, count - 1)
          case None => CppStream.None
          case Some((rest, p3)) => CppStream.Some(([(v1, v2)] + rest, p3))
  }

  /** The text of an edge file: `n m`, then `m` pairs of 0-based ids. */
  function EdgeFile(s: string): CppStream.Option<(int, seq<(int, int)>)>
  {
    match CppStream.ReadInt(s, 0)
    case None => CppStream.None
    case Some((n, p1)) =>
      match CppStream.ReadInt(s, p1)
      case None => CppStream.None
      case Some((m, p2)) =>
        match ReadPairsN(s, p2, m)
        case None => CppStream.None
        case Some((edges, _)) => CppStream.Some((n, edges))
  }

  /** What `fromFile` needs of the text: both header numbers and all `m`
    * pairs read, a vertex count of at least 0, and every id a vertex. */
  predicate WellFormedFile(s: string) {
    EdgeFile(s).Some?
    && var (n, edges) := EdgeFile(s).value;
    n >= 0
    && forall i :: 0 <= i < |edges| ==> 0 <= edges[i].0 < n && 0 <= edges[i].1 < n
  }

  class Graph {
    var numVertices: int
    var adjacencyList: seq<set<int>>
    var degreeOrder: seq<(int, int)>

    /** The lists are undirected, and `degreeOrder` is an index of them:
      * ascending, one pair per vertex, each pair the vertex's current degree. */
    ghost predicate Valid()
      reads this
    {
      numVertices == |adjacencyList|
      && Symmetric(adjacencyList)
      && Indexes(degreeOrder, adjacencyList)
    }

    /** `Graph(n)`: `n` empty lists, and the pair `(0, i)` for every vertex. */
    constructor (n: nat)
      ensures Valid()
      ensures numVertices == n && adjacencyList == Edgeless(n)
    {
      numVertices := n;
      adjacencyList := Edgeless(n);
      var order: seq<(int, int)> := [];
      for i := 0 to n
        invariant Ascending(order) && |order| == i
        invariant forall p :: p in order <==> p.0 == 0 && 0 <= p.1 < i
      {
        order := Insert(order, (0, i));
      }
      degreeOrder := order;
    }

    function IsAdjacent(v1: int, v2: int): bool
      reads this
      requires 0 <= v1 < |adjacencyList|
    {
      v2 in adjacencyList[v1]
    }

    function GetDegree(v: int): nat
      reads this
      requires 0 <= v < |adjacencyList|
    {
      |adjacencyList[v]|
    }

    /** `addEdge(v1, v2)`: when the two are not adjacent, both directions are
      * stored and both vertices are re-indexed under their new degrees;
      * otherwise nothing changes. */
    method AddEdge(v1: int, v2: int)
      requires Valid()
      requires 0 <= v1 < numVertices && 0 <= v2 < numVertices
      modifies this
      ensures Valid()
      ensures numVertices == old(numVertices)
      ensures old(IsAdjacent(v1, v2)) ==>
        adjacencyList == old(adjacencyList) && degreeOrder == old(degreeOrder)
      ensures !old(IsAdjacent(v1, v2)) ==>
        adjacencyList == WithEdge(WithEdge(old(adjacencyList), v1, v2), v2, v1)
      ensures IsAdjacent(v1, v2) && IsAdjacent(v2, v1)
    {
      if !IsAdjacent(v1, v2) {
        AddEdgeReindexes(degreeOrder, adjacencyList, v1, v2);
        WithBothSymmetric(adjacencyList, v1, v2);
        degreeOrder := Erase(degreeOrder, (GetDegree(v1), v1));
        degreeOrder := Erase(degreeOrder, (GetDegree(v2), v2));
        adjacencyList := adjacencyList[v1 := adjacencyList[v1] + {v2}];
        adjacencyList := adjacencyList[v2 := adjacencyList[v2] + {v1}];
        degreeOrder := Insert(degreeOrder, (GetDegree(v1), v1));
        degreeOrder := Insert(degreeOrder, (GetDegree(v2), v2));
      }
    }

    /** `getTopKByDegree(k)`: walks `degreeOrder` from its largest pair down,
      * collecting vertices while fewer than `k` are collected. The
      * comparison is `size_t` against `int`, so a negative `k` converts to a
      * huge bound and every vertex is collected. */
    method GetTopKByDegree(k: int) returns (result: seq<int>)
      requires Valid()
      ensures |result| == if 0 <= k < numVertices then k else numVertices
      ensures forall i :: 0 <= i < |result| ==> 0 <= result[i] < numVertices
      ensures forall i, j :: 0 <= i < j < |result| ==> Outranks(adjacencyList, result[i], result[j])
      ensures forall v, i :: 0 <= v < numVertices && v !in result && 0 <= i < |result| ==>
        Outranks(adjacencyList, result[i], v)
    {
      result := [];
      var it := |degreeOrder|;
      while (k < 0 || |result| < k) && it > 0
        invariant 0 <= it <= |degreeOrder|
        invariant |result| == |degreeOrder| - it
        invariant k >= 0 ==> |result| <= k
        invariant forall i :: 0 <= i < |result| ==> result[i] == degreeOrder[|degreeOrder| - 1 - i].1
      {
        result := result + [degreeOrder[it - 1].1];
        it := it - 1;
      }
      forall i | 0 <= i < |result|
        ensures 0 <= result[i] < numVertices
        ensures degreeOrder[|degreeOrder| - 1 - i] == (|adjacencyList[result[i]]|, result[i])
      {
        assert degreeOrder[|degreeOrder| - 1 - i] in degreeOrder;
      }
      forall v, i | 0 <= v < numVertices && 0 <= i < |result|
        ensures v in result || Outranks(adjacencyList, result[i], v)
      {
        var p := (|adjacencyList[v]|, v);
        assert p in degreeOrder;
        var x :| 0 <= x < |degreeOrder| && degreeOrder[x] == p;
        if x >= it {
          assert result[|degreeOrder| - 1 - x] == v;
        }
      }
    }

    /** `getMaxDegree()`: the first component of the largest pair, 0 when
      * the index is empty. */
    function GetMaxDegree(): (m: int)
      reads this
      requires Valid()
      ensures m == MaxDegree(adjacencyList)
    {
      if |degreeOrder| == 0 then 0
      else
        var top := degreeOrder[|degreeOrder| - 1];
        assert top in degreeOrder;
        assert forall v :: 0 <= v < |adjacencyList| ==> (|adjacencyList[v]|, v) in degreeOrder;
        assert forall v :: 0 <= v < |adjacencyList| ==> |adjacencyList[v]| <= top.0 by {
          forall v | 0 <= v < |adjacencyList| ensures |adjacencyList[v]| <= top.0 {
            var x :| 0 <= x < |degreeOrder| && degreeOrder[x] == (|adjacencyList[v]|, v);
          }
        }
        top.0
    }

    /** The loop of `fromFile`: `addEdge(v1, v2)` for every pair read. */
    method AddEdges(edges: seq<(int, int)>)
      requires Valid()
      requires forall i :: 0 <= i < |edges| ==> 0 <= edges[i].0 < numVertices && 0 <= edges[i].1 < numVertices
      modifies this
      ensures Valid() && numVertices == old(numVertices)
      ensures Fits(Shift(edges), numVertices)
      ensures adjacencyList == LoadPairs(old(adjacencyList), Shift(edges), false)
    {
      ghost var base := adjacencyList;
      ghost var pairs := Shift(edges);
      for i := 0 to |edges|
        invariant Valid() && numVertices == old(numVertices) == |base|
        invariant Fits(pairs[..i], |base|)
        invariant adjacencyList == LoadPairs(base, pairs[..i], false)
      {
        LoadPairsStep(base, pairs, false, i);
        var v1 := edges[i].0;
        var v2 := edges[i].1;
        ghost var before := adjacencyList;
        assert pairs[i] == (v1 + 1, v2 + 1);
        AddShifted(before, v1, v2);
        if IsAdjacent(v1, v2) {
          WithEdgePresent(before, v1, v2);
        }
        AddEdge(v1, v2);
      }
      assert pairs[..|edges|] == pairs;
    }

    /** `Graph::fromFile(filename)` on the file's text (`None` when it cannot
      * be opened, where the source throws): `n` vertices and each of the `m`
      * pairs added as an undirected edge. */
    static method FromFile(content: CppStream.Option<string>) returns (g: Graph?)
      requires content.Some? ==> WellFormedFile(content.value)
      ensures content.None? <==> g == null
      ensures g != null ==> fresh(g) && g.Valid()
      ensures g != null ==>
        var (n, edges) := EdgeFile(content.value).value;
        g.numVertices == n
        && forall x, y :: 0 <= x < n ==>
             (y in g.adjacencyList[x] <==> (x, y) in edges || (y, x) in edges)
    {
      if content.None? {
        return null;
      }
      var (n, edges) := EdgeFile(content.value).value;
      g := new Graph(n);
      ghost var base := g.adjacencyList;
      ghost var pairs := Shift(edges);
      g.AddEdges(edges);
      forall x, y | 0 <= x < n
        ensures y in g.adjacencyList[x] <==> (x, y) in edges || (y, x) in edges
      {
        LoadPairsEntries(base, pairs, false, x, y);
        ShiftMember(edges, x, y);
        ShiftMember(edges, y, x);
      }
    }
  }
}
