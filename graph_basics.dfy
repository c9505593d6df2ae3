/** Adjacency lists as a sequence of neighbour sets, vertex `v` owning
  * `adj[v]`, and the facts about them that every graph variant shares. */
module GraphBasics {

  /** Every neighbour id names a vertex. */
  predicate InRange(adj: seq<set<int>>) {
    forall v, w :: 0 <= v < |adj| && w in adj[v] ==> 0 <= w < |adj|
  }

  /** Every edge is stored in both directions. */
  predicate Symmetric(adj: seq<set<int>>) {
    InRange(adj) && forall v, w :: 0 <= v < |adj| && 0 <= w < |adj| && w in adj[v] ==> v in adj[w]
  }

  predicate LoopFree(adj: seq<set<int>>) {
    forall v :: 0 <= v < |adj| ==> v !in adj[v]
  }

  /** Undirected simple graph: the shape the colouring code relies on. */
  predicate Simple(adj: seq<set<int>>) {
    Symmetric(adj) && LoopFree(adj)
  }

  /** The number of stored (directed) adjacency entries. */
  function TotalEntries(adj: seq<set<int>>): nat
  {
    if |adj| == 0 then 0 else TotalEntries(adj[..|adj| - 1]) + |adj[|adj| - 1]|
  }

  lemma {:induction false} TotalEntriesUpdate(adj: seq<set<int>>, v: int, s: set<int>)
    requires 0 <= v < |adj|
    ensures TotalEntries(adj[v := s]) == TotalEntries(adj) - |adj[v]| + |s|
  {
    var n := |adj| - 1;
    if v < n {
      assert adj[v := s][..n] == adj[..n][v := s];
      TotalEntriesUpdate(adj[..n], v, s);
    } else {
      assert adj[v := s][..n] == adj[..n];
    }
  }

  /** No entries at all exactly when every list is empty. */
  lemma {:induction false} TotalEntriesZero(adj: seq<set<int>>)
    ensures TotalEntries(adj) == 0 <==> forall v :: 0 <= v < |adj| ==> adj[v] == {}
  {
    if |adj| > 0 {
      var n := |adj| - 1;
      TotalEntriesZero(adj[..n]);
      assert forall v :: 0 <= v < n ==> adj[..n][v] == adj[v];
    }
  }

  /** `vector<AdjList>(n)`: n empty lists. */
  function Edgeless(n: nat): (adj: seq<set<int>>)
    ensures |adj| == n && Simple(adj) && InRange(adj)
    ensures forall v :: 0 <= v < n ==> adj[v] == {}
  {
    seq(n, _ => {})
  }

  lemma EdgelessTotal(n: nat)
    ensures TotalEntries(Edgeless(n)) == 0
  {
    TotalEntriesZero(Edgeless(n));
  }

  /** `adj[v].insert(w)`. */
  function WithEdge(adj: seq<set<int>>, v: int, w: int): (r: seq<set<int>>)
    requires 0 <= v < |adj|
  {
    adj[v := adj[v] + {w}]
  }

  /** Storing both directions of an edge keeps the lists undirected. */
  lemma WithBothSymmetric(adj: seq<set<int>>, v: int, w: int)
    requires Symmetric(adj)
    requires 0 <= v < |adj| && 0 <= w < |adj|
    ensures Symmetric(WithEdge(WithEdge(adj, v, w), w, v))
  {
  }

  /** `adj[v].erase(w)`. */
  function WithoutEdge(adj: seq<set<int>>, v: int, w: int): (r: seq<set<int>>)
    requires 0 <= v < |adj|
  {
    adj[v := adj[v] - {w}]
  }

  /** `adj.resize(n)`: cut to `n` lists or padded with empty ones. */
  function Resized(adj: seq<set<int>>, n: nat): (r: seq<set<int>>)
    ensures |r| == n
    ensures forall v :: 0 <= v < n ==> r[v] == if v < |adj| then adj[v] else {}
  {
    if n <= |adj| then adj[..n] else adj + Edgeless(n - |adj|)
  }

  /** `maxVertex = max(maxVertex, max(v, w))` over the pairs, from 0. */
  function MaxId(pairs: seq<(int, int)>): (m: int)
    ensures m >= 0
    ensures forall i :: 0 <= i < |pairs| ==> pairs[i].0 <= m && pairs[i].1 <= m
    ensures m == 0 || exists i :: 0 <= i < |pairs| && (pairs[i].0 == m || pairs[i].1 == m)
  {
    if |pairs| == 0 then 0
    else
      var m := MaxId(pairs[..|pairs| - 1]);
      var p := pairs[|pairs| - 1];
      var r := if m >= p.0 && m >= p.1 then m else if p.0 >= p.1 then p.0 else p.1;
      assert forall i :: 0 <= i < |pairs| - 1 ==> pairs[i] == pairs[..|pairs| - 1][i];
      r
  }

  /** Ids are 1-based in the file, so only ids >= 1 index a vertex. */
  predicate PositiveIds(pairs: seq<(int, int)>) {
    forall i :: 0 <= i < |pairs| ==> pairs[i].0 >= 1 && pairs[i].1 >= 1
  }

  /** Every pair names two of the `n` vertices, 1-based. */
  predicate Fits(pairs: seq<(int, int)>, n: int) {
    forall i :: 0 <= i < |pairs| ==> 1 <= pairs[i].0 <= n && 1 <= pairs[i].1 <= n
  }

  /** `addEdge(v-1, w-1); addEdge(w-1, v-1)` for one pair; with `skipLoops`
    * a pair `v == w` adds nothing, as the self-loop guard makes it. */
  function AddPair(adj: seq<set<int>>, p: (int, int), skipLoops: bool): (r: seq<set<int>>)
    requires 1 <= p.0 <= |adj| && 1 <= p.1 <= |adj|
    ensures |r| == |adj|
  {
    if skipLoops && p.0 == p.1 then adj
    else WithEdge(WithEdge(adj, p.0 - 1, p.1 - 1), p.1 - 1, p.0 - 1)
  }

  /** The adjacency after adding every pair in order. */
  function LoadPairs(adj: seq<set<int>>, pairs: seq<(int, int)>, skipLoops: bool): (r: seq<set<int>>)
    requires Fits(pairs, |adj|)
    ensures |r| == |adj|
  {
    if |pairs| == 0 then adj
    else
      var front := pairs[..|pairs| - 1];
      assert forall i :: 0 <= i < |front| ==> front[i] == pairs[i];
      AddPair(LoadPairs(adj, front, skipLoops), pairs[|pairs| - 1], skipLoops)
  }

  /** Loading one more pair of the same list is one more `AddPair`. */
  lemma LoadPairsStep(adj: seq<set<int>>, pairs: seq<(int, int)>, skipLoops: bool, i: nat)
    requires Fits(pairs, |adj|)
    requires i < |pairs|
    ensures Fits(pairs[..i], |adj|) && Fits(pairs[..i + 1], |adj|)
    ensures 1 <= pairs[i].0 <= |adj| && 1 <= pairs[i].1 <= |adj|
    ensures LoadPairs(adj, pairs[..i + 1], skipLoops)
         == AddPair(LoadPairs(adj, pairs[..i], skipLoops), pairs[i], skipLoops)
  {
    assert pairs[..i + 1][..i] == pairs[..i];
  }

  lemma AddPairEntries(adj: seq<set<int>>, p: (int, int), skipLoops: bool, x: int, y: int)
    requires 1 <= p.0 <= |adj| && 1 <= p.1 <= |adj|
    requires 0 <= x < |adj|
    ensures y in AddPair(adj, p, skipLoops)[x]
        <==> y in adj[x] || ((!skipLoops || x != y) && ((x + 1, y + 1) == p || (y + 1, x + 1) == p))
  {
  }

  lemma InLast<T>(xs: seq<T>, q: T)
    requires |xs| > 0
    ensures q in xs <==> q in xs[..|xs| - 1] || q == xs[|xs| - 1]
  {
    assert xs == xs[..|xs| - 1] + [xs[|xs| - 1]];
  }

  /** Which entries the loaded lists hold: the old ones plus both directions
    * of every pair (self-loops excepted when they are skipped). */
  lemma {:induction false} LoadPairsEntries(adj: seq<set<int>>, pairs: seq<(int, int)>, skipLoops: bool, x: int, y: int)
    requires Fits(pairs, |adj|)
    requires 0 <= x < |adj|
    ensures y in LoadPairs(adj, pairs, skipLoops)[x]
        <==> y in adj[x] || ((!skipLoops || x != y) && ((x + 1, y + 1) in pairs || (y + 1, x + 1) in pairs))
  {
    if |pairs| > 0 {
      var front := pairs[..|pairs| - 1];
      var p := pairs[|pairs| - 1];
      var before := LoadPairs(adj, front, skipLoops);
      assert LoadPairs(adj, pairs, skipLoops) == AddPair(before, p, skipLoops);
      LoadPairsEntries(adj, front, skipLoops, x, y);
      AddPairEntries(before, p, skipLoops, x, y);
      InLast(pairs, (x + 1, y + 1));
      InLast(pairs, (y + 1, x + 1));
    }
  }

  /** Loading pairs into an undirected graph keeps it undirected, keeps ids
    * in range, and keeps it loop-free when self-loops are skipped. */
  lemma LoadPairsShape(adj: seq<set<int>>, pairs: seq<(int, int)>, skipLoops: bool)
    requires Fits(pairs, |adj|)
    requires Symmetric(adj)
    ensures Symmetric(LoadPairs(adj, pairs, skipLoops))
    ensures skipLoops && LoopFree(adj) ==> LoopFree(LoadPairs(adj, pairs, skipLoops))
  {
    var r := LoadPairs(adj, pairs, skipLoops);
    forall v, w | 0 <= v < |r| && w in r[v]
      ensures 0 <= w < |r|
    {
      LoadPairsEntries(adj, pairs, skipLoops, v, w);
      if w !in adj[v] {
        var i :| 0 <= i < |pairs| && (pairs[i] == (v + 1, w + 1) || pairs[i] == (w + 1, v + 1));
      }
    }
    forall v, w | 0 <= v < |r| && 0 <= w < |r| && w in r[v]
      ensures v in r[w]
    {
      LoadPairsEntries(adj, pairs, skipLoops, v, w);
      LoadPairsEntries(adj, pairs, skipLoops, w, v);
    }
    if skipLoops && LoopFree(adj) {
      forall v | 0 <= v < |r| ensures v !in r[v] {
        LoadPairsEntries(adj, pairs, skipLoops, v, v);
      }
    }
  }

  /** Loading into a fresh adjacency gives an undirected graph whose entries
    * are exactly both directions of the pairs (self-loops excepted when
    * they are skipped). */
  lemma LoadFresh(pairs: seq<(int, int)>, skipLoops: bool)
    requires PositiveIds(pairs)
    ensures var r := LoadPairs(Edgeless(MaxId(pairs)), pairs, skipLoops);
      Symmetric(r)
      && (skipLoops ==> LoopFree(r))
      && forall x, y :: 0 <= x < |r| ==>
           (y in r[x] <==> (!skipLoops || x != y) && ((x + 1, y + 1) in pairs || (y + 1, x + 1) in pairs))
  {
    var base := Edgeless(MaxId(pairs));
    var r := LoadPairs(base, pairs, skipLoops);
    LoadPairsShape(base, pairs, skipLoops);
    forall x, y | 0 <= x < |r|
      ensures y in r[x] <==> (!skipLoops || x != y) && ((x + 1, y + 1) in pairs || (y + 1, x + 1) in pairs)
    {
      LoadPairsEntries(base, pairs, skipLoops, x, y);
    }
  }

  /** A list without repeats has as many members as entries. */
  lemma {:induction false} DistinctCard<T>(s: seq<T>)
    requires forall i, j :: 0 <= i < j < |s| ==> s[i] != s[j]
    ensures |set x | x in s| == |s|
  {
    if |s| > 0 {
      var t := s[..|s| - 1];
      DistinctCard(t);
      forall x
        ensures x in s <==> x in t || x == s[|s| - 1]
      {
        if x in s && x != s[|s| - 1] {
          var i :| 0 <= i < |s| && s[i] == x;
          assert t[i] == x;
        }
      }
      assert (set x | x in s) == (set x | x in t) + {s[|s| - 1]};
      assert s[|s| - 1] !in (set x | x in t);
    }
  }

  /** A set of integers drawn from `0 .. k-1` has at most `k` members. */
  lemma {:induction false} BoundedCard(s: set<int>, k: nat)
    requires forall x :: x in s ==> 0 <= x < k
    ensures |s| <= k
  {
    if k > 0 {
      BoundedCard(s - {k - 1}, k - 1);
    } else {
      assert forall x :: x !in s;
      assert s == {};
    }
  }

  /** A set holding all of `0 .. k-1` has at least `k` members. */
  lemma {:induction false} CoveringCard(s: set<int>, k: nat)
    requires forall x :: 0 <= x < k ==> x in s
    ensures |s| >= k
  {
    if k > 0 {
      CoveringCard(s - {k - 1}, k - 1);
    }
  }

  /** Some member of a non-empty set: the next element a set iteration visits. */
  method PickMember<T>(s: set<T>) returns (x: T)
    requires s != {}
    ensures x in s
  {
    assert (forall y :: y !in s) ==> s == {};
    x :| x in s;
  }

  /** The least member: the next element an ordered set iteration visits. */
  method PickLeast(s: set<int>) returns (x: int)
    requires s != {}
    ensures x in s && forall y :: y in s ==> x <= y
  {
    x := PickMember(s);
    var rest := s - {x};
    while rest != {}
      invariant rest <= s && x in s
      invariant forall y :: y in s && y !in rest ==> x <= y
      decreases |rest|
    {
      var y := PickMember(rest);
      if y < x {
        x := y;
      }
      rest := rest - {y};
    }
  }

  /** The largest list size, or 0 without vertices. */
  function MaxDegree(adj: seq<set<int>>): (m: nat)
    ensures forall v :: 0 <= v < |adj| ==> |adj[v]| <= m
    ensures |adj| == 0 ==> m == 0
    ensures |adj| > 0 ==> exists v :: 0 <= v < |adj| && |adj[v]| == m
  {
    if |adj| == 0 then 0
    else
      var m := MaxDegree(adj[..|adj| - 1]);
      assert forall v :: 0 <= v < |adj| - 1 ==> adj[v] == adj[..|adj| - 1][v];
      if |adj[|adj| - 1]| > m then |adj[|adj| - 1]| else m
  }
}
