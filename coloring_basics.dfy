/** Colourings as the colouring code stores them: `colors[v]` is the colour
  * of vertex `v`, or -1 while `v` is uncoloured. */
module ColoringBasics {
  import opened GraphBasics
  import opened Sets

  const Uncolored: int := -1

  /** How many members of `s` are vertices of colour `c`. */
  function Tally(s: set<int>, colors: seq<int>, c: int): nat
  {
    |set u | u in s && 0 <= u < |colors| && colors[u] == c|
  }

  lemma TallyNone(colors: seq<int>, c: int)
    ensures Tally({}, colors, c) == 0
  {
    TallyAtMost({}, colors, c);
  }

  /** A count is 0 exactly when no member has the colour. */
  lemma TallyZero(s: set<int>, colors: seq<int>, c: int)
    ensures Tally(s, colors, c) == 0 <==> forall u :: u in s && 0 <= u < |colors| ==> colors[u] != c
  {
    var t := set u | u in s && 0 <= u < |colors| && colors[u] == c;
    if exists u :: u in s && 0 <= u < |colors| && colors[u] == c {
      var u :| u in s && 0 <= u < |colors| && colors[u] == c;
      assert u in t;
    }
  }

  /** A count never exceeds the size of the set counted over. */
  lemma TallyAtMost(s: set<int>, colors: seq<int>, c: int)
    ensures Tally(s, colors, c) <= |s|
  {
    var t := set u | u in s && 0 <= u < |colors| && colors[u] == c;
    SubsetCard(t, s);
  }

  /** Counting over one more member. */
  lemma TallyAdd(s: set<int>, u: int, colors: seq<int>, c: int)
    requires u !in s
    ensures Tally(s + {u}, colors, c)
         == Tally(s, colors, c) + (if 0 <= u < |colors| && colors[u] == c then 1 else 0)
  {
    var t := set w | w in s && 0 <= w < |colors| && colors[w] == c;
    var t' := set w | w in s + {u} && 0 <= w < |colors| && colors[w] == c;
    if 0 <= u < |colors| && colors[u] == c {
      assert t' == t + {u};
    } else {
      assert t' == t;
    }
  }

  /** No neighbour of `v` has colour `c`: `v` may take `c` without a conflict. */
  predicate FreeFor(adj: seq<set<int>>, colors: seq<int>, v: int, c: int)
    requires 0 <= v < |adj|
  {
    forall u :: u in adj[v] && 0 <= u < |colors| ==> colors[u] != c
  }

  /** The colours in use among the members of `s`. */
  function ColorsAmong(s: set<int>, colors: seq<int>): set<int>
  {
    set u | u in s && 0 <= u < |colors| && colors[u] != Uncolored :: colors[u]
  }

  lemma ColorsAmongAdd(s: set<int>, u: int, colors: seq<int>)
    requires 0 <= u < |colors|
    ensures ColorsAmong(s + {u}, colors)
         == ColorsAmong(s, colors) + (if colors[u] != Uncolored then {colors[u]} else {})
  {
  }

  /** Distinct colours among the coloured members plus the uncoloured
    * members never outnumber the members. */
  lemma {:induction false} ColorsAmongAtMost(s: set<int>, colors: seq<int>)
    requires forall u :: u in s ==> 0 <= u < |colors|
    ensures |ColorsAmong(s, colors)| + Tally(s, colors, Uncolored) <= |s|
    decreases |s|
  {
    if s == {} {
      TallyNone(colors, Uncolored);
      assert ColorsAmong(s, colors) == {};
    } else {
      assert (forall y :: y !in s) ==> s == {};
      var u :| u in s;
      var r := s - {u};
      ColorsAmongAtMost(r, colors);
      assert s == r + {u};
      ColorsAmongAdd(r, u, colors);
      TallyAdd(r, u, colors, Uncolored);
    }
  }

  /** Recolouring vertex `x` from a colour other than `c` to `c` adds it to
    * the count when it is a member; recolouring it from `c` takes it out. */
  lemma TallyRecolor(s: set<int>, colors: seq<int>, x: int, b: int, c: int)
    requires 0 <= x < |colors|
    ensures Tally(s, colors[x := b], c) + (if x in s && colors[x] == c then 1 else 0)
         == Tally(s, colors, c) + (if x in s && b == c then 1 else 0)
  {
    var rest := s - {x};
    var colors' := colors[x := b];
    assert Tally(rest, colors', c) == Tally(rest, colors, c) by {
      assert (set u | u in rest && 0 <= u < |colors'| && colors'[u] == c)
          == (set u | u in rest && 0 <= u < |colors| && colors[u] == c);
    }
    if x in s {
      assert s == rest + {x};
      TallyAdd(rest, x, colors, c);
      TallyAdd(rest, x, colors', c);
    } else {
      assert s == rest;
    }
  }

  /** Vertex `v` is coloured and some neighbour has its colour. */
  predicate Conflicting(adj: seq<set<int>>, colors: seq<int>, v: int)
    requires 0 <= v < |adj| && |colors| == |adj|
  {
    colors[v] != Uncolored && exists u :: u in adj[v] && 0 <= u < |colors| && colors[u] == colors[v]
  }

  lemma ConflictingTally(adj: seq<set<int>>, colors: seq<int>, v: int)
    requires 0 <= v < |adj| && |colors| == |adj|
    ensures Conflicting(adj, colors, v) <==> colors[v] != Uncolored && Tally(adj[v], colors, colors[v]) > 0
  {
    TallyZero(adj[v], colors, colors[v]);
  }

  /** No edge joins two vertices of the same colour; uncoloured vertices
    * never clash. */
  predicate Proper(adj: seq<set<int>>, colors: seq<int>)
    requires |colors| == |adj|
  {
    forall v :: 0 <= v < |adj| ==> !Conflicting(adj, colors, v)
  }

  /** The stored adjacency entries `v -> u` between two vertices of the same
    * colour, over vertices `0 .. k-1`: twice the monochromatic edges on an
    * undirected loop-free graph. */
  function MonoEntries(adj: seq<set<int>>, colors: seq<int>, k: int): nat
    requires |colors| == |adj| && 0 <= k <= |adj|
  {
    if k == 0 then 0
    else
      var own := if colors[k - 1] == Uncolored then 0 else Tally(adj[k - 1], colors, colors[k - 1]);
      MonoEntries(adj, colors, k - 1) + own
  }

  /** No same-coloured entry is left exactly when the colouring is proper. */
  lemma {:induction false} MonoZeroIffProper(adj: seq<set<int>>, colors: seq<int>, k: int)
    requires |colors| == |adj| && 0 <= k <= |adj|
    ensures MonoEntries(adj, colors, k) == 0 <==> forall v :: 0 <= v < k ==> !Conflicting(adj, colors, v)
  {
    if k > 0 {
      MonoZeroIffProper(adj, colors, k - 1);
      ConflictingTally(adj, colors, k - 1);
    }
  }

  /** The members of `s` below `k`. */
  function Under(s: set<int>, k: int): set<int>
  {
    set u | u in s && u < k
  }

  /** Colouring the uncoloured vertex `x` with `b`, over the first `k`
    * vertices: `x`'s own entries appear once `x < k`, and each coloured
    * neighbour below `k` gains the entry back to `x`. */
  lemma {:induction false} ColorOnePrefix(adj: seq<set<int>>, colors: seq<int>, x: int, b: int, k: int)
    requires Symmetric(adj) && LoopFree(adj) && |colors| == |adj|
    requires 0 <= x < |adj| && colors[x] == Uncolored && b != Uncolored
    requires 0 <= k <= |adj|
    ensures MonoEntries(adj, colors[x := b], k)
         == MonoEntries(adj, colors, k) + (if x < k then Tally(adj[x], colors, b) else 0)
            + Tally(Under(adj[x], k), colors, b)
  {
    var colors' := colors[x := b];
    if k == 0 {
      assert Under(adj[x], 0) == {};
    } else {
      var v := k - 1;
      ColorOnePrefix(adj, colors, x, b, v);
      if v in adj[x] {
        assert Under(adj[x], k) == Under(adj[x], v) + {v};
        TallyAdd(Under(adj[x], v), v, colors, b);
      } else {
        assert Under(adj[x], k) == Under(adj[x], v);
      }
      if v == x {
        TallyRecolor(adj[x], colors, x, b, b);
      } else if colors[v] != Uncolored {
        TallyRecolor(adj[v], colors, x, b, colors[v]);
        assert x in adj[v] <==> v in adj[x];
      }
    }
  }

  /** Colouring an uncoloured vertex `x` with `b` adds two same-coloured
    * entries per neighbour already coloured `b`. */
  lemma ColorOne(adj: seq<set<int>>, colors: seq<int>, x: int, b: int)
    requires Symmetric(adj) && LoopFree(adj) && |colors| == |adj|
    requires 0 <= x < |adj| && colors[x] == Uncolored && b != Uncolored
    ensures MonoEntries(adj, colors[x := b], |adj|)
         == MonoEntries(adj, colors, |adj|) + 2 * Tally(adj[x], colors, b)
  {
    ColorOnePrefix(adj, colors, x, b, |adj|);
    assert Under(adj[x], |adj|) == adj[x];
  }

  /** Recolouring a vertex outside `s` leaves the count over `s` alone. */
  lemma TallyOffVertex(s: set<int>, colors: seq<int>, x: int, b: int, c: int)
    requires 0 <= x < |colors| && x !in s
    ensures Tally(s, colors[x := b], c) == Tally(s, colors, c)
  {
    TallyRecolor(s, colors, x, b, c);
  }

  /** Uncolouring a coloured vertex `x` removes two same-coloured entries per
    * neighbour sharing its colour. */
  lemma Uncolor(adj: seq<set<int>>, colors: seq<int>, x: int)
    requires Simple(adj) && |colors| == |adj|
    requires 0 <= x < |adj| && colors[x] != Uncolored
    ensures MonoEntries(adj, colors[x := Uncolored], |adj|) + 2 * Tally(adj[x], colors, colors[x])
         == MonoEntries(adj, colors, |adj|)
  {
    var mid := colors[x := Uncolored];
    ColorOne(adj, mid, x, colors[x]);
    assert mid[x := colors[x]] == colors;
    TallyOffVertex(adj[x], colors, x, Uncolored, colors[x]);
  }

  /** Giving vertex `x` the colour `b`, whatever it had before: the entries
    * of its old colour go, those of the new one come. */
  lemma Recolor(adj: seq<set<int>>, colors: seq<int>, x: int, b: int)
    requires Simple(adj) && |colors| == |adj|
    requires 0 <= x < |adj| && b != Uncolored
    ensures MonoEntries(adj, colors[x := b], |adj|)
            + 2 * (if colors[x] != Uncolored then Tally(adj[x], colors, colors[x]) else 0)
         == MonoEntries(adj, colors, |adj|) + 2 * Tally(adj[x], colors, b)
  {
    var mid := colors[x := Uncolored];
    if colors[x] != Uncolored {
      Uncolor(adj, colors, x);
    } else {
      assert mid == colors;
    }
    ColorOne(adj, mid, x, b);
    assert mid[x := b] == colors[x := b];
    TallyOffVertex(adj[x], colors, x, Uncolored, b);
  }

  /** A neighbour loop that counts the members of `s` having colour `c`. */
  method CountWithColor(s: set<int>, colors: seq<int>, c: int) returns (n: int)
    requires forall u :: u in s ==> 0 <= u < |colors|
    ensures n == Tally(s, colors, c)
  {
    n := 0;
    var rest := s;
    ghost var done: set<int> := {};
    TallyNone(colors, c);
    while rest != {}
      invariant rest <= s && done == s - rest
      invariant n == Tally(done, colors, c)
      decreases |rest|
    {
      var u := PickMember(rest);
      TallyAdd(done, u, colors, c);
      if colors[u] == c {
        n := n + 1;
      }
      rest := rest - {u};
      done := done + {u};
    }
    assert done == s;
  }
}
