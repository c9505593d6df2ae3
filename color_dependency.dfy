/** The colour-dependency shrinking of lab2/include/ColorDependency.h: a
  * vertex whose neighbours show fewer than `maxColor` colours or blanks
  * can always be coloured last, so `recursiveShrink` sets such vertices
  * aside in the order found, and `expand` gives them colours again in the
  * reverse order. */
module Dependency {
  import opened GraphBasics
  import opened ColoringBasics
  import opened GlobalColoringState

  /** `calculatePotentialDifference`: the distinct colours among the
    * coloured neighbours plus the uncoloured neighbours. */
  function PotentialDifference(adj: seq<set<int>>, colors: seq<int>, v: int): nat
    requires 0 <= v < |adj|
  {
    |ColorsAmong(adj[v], colors)| + Tally(adj[v], colors, Uncolored)
  }

  /** `isColorDependent`: the potential difference is below `maxColor`. */
  predicate Dependent(adj: seq<set<int>>, colors: seq<int>, v: int, maxColor: int)
    requires 0 <= v < |adj|
  {
    PotentialDifference(adj, colors, v) < maxColor
  }

  /** The vertices below `k` that are unmarked and dependent, ascending:
    * what one pass of `recursiveShrink` appends. */
  function NewlyDependent(adj: seq<set<int>>, colors: seq<int>, marks: seq<bool>, maxColor: int, k: int): (r: seq<int>)
    requires |marks| == |adj| && 0 <= k <= |adj|
    ensures forall x :: x in r <==> 0 <= x < k && !marks[x] && Dependent(adj, colors, x, maxColor)
    ensures forall i, j :: 0 <= i < j < |r| ==> r[i] < r[j]
    ensures forall i :: 0 <= i < |r| ==> r[i] < k
  {
    if k == 0 then []
    else
      var before := NewlyDependent(adj, colors, marks, maxColor, k - 1);
      if !marks[k - 1] && Dependent(adj, colors, k - 1, maxColor) then before + [k - 1] else before
  }

  /** The marks after one pass: a vertex is marked when it was before or
    * is dependent. */
  function MarkedAfterPass(adj: seq<set<int>>, colors: seq<int>, marks: seq<bool>, maxColor: int): (r: seq<bool>)
    requires |marks| == |adj|
    ensures |r| == |adj|
    ensures forall v :: 0 <= v < |adj| ==> (r[v] <==> marks[v] || Dependent(adj, colors, v, maxColor))
  {
    seq(|adj|, v requires 0 <= v < |adj| => marks[v] || Dependent(adj, colors, v, maxColor))
  }

  /** Dependence looks at the colouring only, which shrinking leaves alone,
    * so a pass after a first one finds nothing new: `recursiveShrink` stops
    * after its second pass. */
  lemma {:induction false} SecondPassFindsNothing(adj: seq<set<int>>, colors: seq<int>, marks: seq<bool>, maxColor: int, k: int)
    requires |marks| == |adj| && 0 <= k <= |adj|
    ensures NewlyDependent(adj, colors, MarkedAfterPass(adj, colors, marks, maxColor), maxColor, k) == []
  {
    if k > 0 {
      SecondPassFindsNothing(adj, colors, marks, maxColor, k - 1);
    }
  }

  /** A vertex is marked exactly when it is in `sequence`, which lists
    * vertices of the graph, each once. */
  ghost predicate Marking(adj: seq<set<int>>, marks: seq<bool>, sequence: seq<int>) {
    |marks| == |adj|
    && (forall i :: 0 <= i < |sequence| ==> 0 <= sequence[i] < |adj|)
    && (forall i, j :: 0 <= i < j < |sequence| ==> sequence[i] != sequence[j])
    && forall v :: 0 <= v < |adj| ==> (marks[v] <==> v in sequence)
  }

  /** A pass keeps marks and sequence in step. */
  lemma PassKeepsMarking(adj: seq<set<int>>, colors: seq<int>, marks: seq<bool>, sequence: seq<int>, maxColor: int)
    requires Marking(adj, marks, sequence)
    ensures Marking(adj, MarkedAfterPass(adj, colors, marks, maxColor),
      sequence + NewlyDependent(adj, colors, marks, maxColor, |adj|))
  {
    var added := NewlyDependent(adj, colors, marks, maxColor, |adj|);
    var sequence' := sequence + added;
    forall i | |sequence| <= i < |sequence'|
      ensures 0 <= sequence'[i] < |adj|
    {
      assert sequence'[i] == added[i - |sequence|] && added[i - |sequence|] in added;
    }
    forall i, j | 0 <= i < j < |sequence'|
      ensures sequence'[i] != sequence'[j]
    {
      if i >= |sequence| {
        assert sequence'[i] == added[i - |sequence|] && sequence'[j] == added[j - |sequence|];
      } else if j >= |sequence| {
        assert sequence'[j] == added[j - |sequence|] && sequence'[j] in added;
        assert sequence'[i] in sequence;
      }
    }
  }

  /** The least colour below `k` that no neighbour of `v` has, or `k` when
    * each of them is taken. */
  function LeastFreeBelow(adj: seq<set<int>>, colors: seq<int>, v: int, k: nat): (c: nat)
    requires 0 <= v < |adj|
    ensures c <= k
    ensures c < k ==> FreeFor(adj, colors, v, c)
    ensures forall d :: 0 <= d < c ==> !FreeFor(adj, colors, v, d)
  {
    if k == 0 then 0
    else
      var c := LeastFreeBelow(adj, colors, v, k - 1);
      if c < k - 1 then c
      else if FreeFor(adj, colors, v, k - 1) then k - 1
      else k
  }

  /** One step of `expand`: `v` takes the least colour in `0 .. numColors`
    * that no neighbour has, when there is one, and the count rises past
    * it. */
  function ExpandStep(adj: seq<set<int>>, colors: seq<int>, numColors: nat, v: int): (r: (seq<int>, nat))
    requires |colors| == |adj| && 0 <= v < |adj|
    ensures |r.0| == |adj|
  {
    var c := LeastFreeBelow(adj, colors, v, numColors + 1);
    if c <= numColors then (colors[v := c], if c >= numColors then c + 1 else numColors)
    else (colors, numColors)
  }

  /** The colours and colour count after `expand` over `order`: one step
    * per vertex, from the last to the first. */
  function Expanded(adj: seq<set<int>>, colors: seq<int>, numColors: nat, order: seq<int>): (r: (seq<int>, nat))
    requires |colors| == |adj| && forall i :: 0 <= i < |order| ==> 0 <= order[i] < |adj|
    ensures |r.0| == |adj|
    decreases |order|
  {
    if |order| == 0 then (colors, numColors)
    else
      var step := ExpandStep(adj, colors, numColors, order[|order| - 1]);
      Expanded(adj, step.0, step.1, order[..|order| - 1])
  }

  /** Expansion colours every listed vertex, keeps every colour below the
    * count, and leaves unlisted vertices as they were. */
  lemma {:induction false} ExpandedColorsListed(adj: seq<set<int>>, colors: seq<int>, numColors: nat, order: seq<int>)
    requires |colors| == |adj| && forall i :: 0 <= i < |order| ==> 0 <= order[i] < |adj|
    requires forall v :: 0 <= v < |colors| ==> colors[v] < numColors
    ensures var (colors', numColors') := Expanded(adj, colors, numColors, order);
      (forall v :: 0 <= v < |adj| ==> colors'[v] < numColors')
      && (forall v :: v in order ==> colors'[v] != Uncolored)
      && (forall v :: 0 <= v < |adj| && v !in order ==> colors'[v] == colors[v])
      && numColors' >= numColors
    decreases |order|
  {
    if |order| > 0 {
      var v := order[|order| - 1];
      var c := LeastFreeBelow(adj, colors, v, numColors + 1);
      var rest := order[..|order| - 1];
      assert FreeFor(adj, colors, v, numColors);
      var colors1 := colors[v := c];
      var numColors1 := if c >= numColors then c + 1 else numColors;
      ExpandedColorsListed(adj, colors1, numColors1, rest);
      var (colors', numColors') := Expanded(adj, colors1, numColors1, rest);
      forall x | x in order
        ensures colors'[x] != Uncolored
      {
        var k :| 0 <= k < |order| && order[k] == x;
        if k < |order| - 1 {
          assert rest[k] == x;
        } else if x !in rest {
          assert colors'[x] == colors1[x];
        }
      }
      assert forall k :: 0 <= k < |rest| ==> rest[k] == order[k];
      forall x | 0 <= x < |adj| && x !in order
        ensures colors'[x] == colors[x]
      {
        assert x !in rest && x != v;
      }
    }
  }

  /** Recolouring a vertex with a colour none of its neighbours has keeps
    * an undirected loop-free graph's colouring proper. */
  lemma RecolorFreeKeepsProper(adj: seq<set<int>>, colors: seq<int>, v: int, c: int)
    requires Simple(adj) && |colors| == |adj| && 0 <= v < |adj| && c != Uncolored
    requires Proper(adj, colors) && FreeFor(adj, colors, v, c)
    ensures Proper(adj, colors[v := c])
  {
    var colors' := colors[v := c];
    forall w | 0 <= w < |adj|
      ensures !Conflicting(adj, colors', w)
    {
      assert !Conflicting(adj, colors, w);
      forall u | u in adj[w] && 0 <= u < |colors'| && colors'[w] != Uncolored
        ensures colors'[u] != colors'[w]
      {
        if w == v {
          assert u != v;
        } else if u == v {
          assert w in adj[v];
        }
      }
    }
  }

  /** Expansion keeps an undirected loop-free graph's colouring proper. */
  lemma {:induction false} ExpandedKeepsProper(adj: seq<set<int>>, colors: seq<int>, numColors: nat, order: seq<int>)
    requires Simple(adj) && |colors| == |adj| && forall i :: 0 <= i < |order| ==> 0 <= order[i] < |adj|
    requires Proper(adj, colors)
    ensures Proper(adj, Expanded(adj, colors, numColors, order).0)
    decreases |order|
  {
    if |order| > 0 {
      var v := order[|order| - 1];
      var c := LeastFreeBelow(adj, colors, v, numColors + 1);
      var rest := order[..|order| - 1];
      if c <= numColors {
        RecolorFreeKeepsProper(adj, colors, v, c);
        ExpandedKeepsProper(adj, colors[v := c], if c >= numColors then c + 1 else numColors, rest);
      } else {
        ExpandedKeepsProper(adj, colors, numColors, rest);
      }
    }
  }

  /** What `expand` promises, on the colouring of a state: every listed
    * vertex ends coloured, the others keep their colour, and no conflict
    * appears on an undirected loop-free graph. */
  lemma ExpandedOutcome(adj: seq<set<int>>, colors: seq<int>, numColors: nat, order: seq<int>)
    requires |colors| == |adj| && forall i :: 0 <= i < |order| ==> 0 <= order[i] < |adj|
    requires forall v :: 0 <= v < |colors| ==> colors[v] < numColors
    ensures forall v :: v in order ==> Expanded(adj, colors, numColors, order).0[v] != Uncolored
    ensures forall v :: 0 <= v < |adj| && v !in order ==> Expanded(adj, colors, numColors, order).0[v] == colors[v]
    ensures Simple(adj) && ConflictCount(adj, colors, |adj|) == 0 ==>
      ConflictCount(adj, Expanded(adj, colors, numColors, order).0, |adj|) == 0
  {
    ExpandedColorsListed(adj, colors, numColors, order);
    ConflictCountZero(adj, colors, |adj|);
    ConflictCountZero(adj, Expanded(adj, colors, numColors, order).0, |adj|);
    if Simple(adj) && ConflictCount(adj, colors, |adj|) == 0 {
      ExpandedKeepsProper(adj, colors, numColors, order);
    }
  }

  class ColorDependency {
    const adj: seq<set<int>>
    var isDependentVertex: seq<bool>
    var shrinkSequence: seq<int>
    const maxColor: int

    /** A vertex is marked exactly when it is in the shrink sequence, which
      * lists vertices of the graph, each once. */
    ghost predicate Valid()
      reads this
    {
      Marking(adj, isDependentVertex, shrinkSequence)
    }

    /** `ColorDependency(g, maxColors)`: no vertex marked, an empty
      * sequence. */
    constructor (g: seq<set<int>>, maxColors: int)
      ensures Valid() && adj == g && maxColor == maxColors
      ensures isDependentVertex == seq(|g|, _ => false) && shrinkSequence == []
    {
      adj := g;
      isDependentVertex := seq(|g|, _ => false);
      shrinkSequence := [];
      maxColor := maxColors;
    }

    /** `isColorDependent(vertex, state)`. */
    method IsColorDependent(vertex: int, state: ColoringState) returns (b: bool)
      requires state.Shaped() == true && state.adj == adj && 0 <= vertex < |adj|
      ensures b <==> Dependent(adj, state.colors, vertex, maxColor)
    {
      var differentColored := state.GetDifferentColoredNeighbors(vertex);
      var uncolored := state.GetUncoloredNeighbors(vertex);
      b := differentColored + uncolored < maxColor;
    }

    /** The loop of lines 32-39 over the current marks, which it only
      * reads: the marks after the pass and the sequence with the unmarked
      * dependent vertices appended in increasing order; `changed` says
      * whether there was one. */
    method Scan(state: ColoringState) returns (marked: seq<bool>, sequence: seq<int>, changed: bool)
      requires |isDependentVertex| == |adj| && state.Shaped() == true && state.adj == adj
      ensures marked == MarkedAfterPass(adj, state.colors, isDependentVertex, maxColor)
      ensures sequence == shrinkSequence + NewlyDependent(adj, state.colors, isDependentVertex, maxColor, |adj|)
      ensures changed <==> NewlyDependent(adj, state.colors, isDependentVertex, maxColor, |adj|) != []
    {
      marked, sequence := isDependentVertex, shrinkSequence;
      changed := false;
      for v := 0 to |adj|
        invariant |marked| == |adj|
        invariant forall w :: 0 <= w < |adj| ==>
          marked[w] == if w < v then isDependentVertex[w] || Dependent(adj, state.colors, w, maxColor) else isDependentVertex[w]
        invariant sequence == shrinkSequence + NewlyDependent(adj, state.colors, isDependentVertex, maxColor, v)
        invariant changed <==> NewlyDependent(adj, state.colors, isDependentVertex, maxColor, v) != []
      {
        var dependent := false;
        if !marked[v] {
          dependent := IsColorDependent(v, state);
        }
        if dependent {
          marked := marked[v := true];
          sequence := sequence + [v];
          changed := true;
        }
      }
    }

    /** One pass of lines 32-39: mark and append, in increasing order, every
      * unmarked dependent vertex; report whether there was one. */
    method ShrinkPass(state: ColoringState) returns (changed: bool)
      requires Valid() && state.Shaped() == true && state.adj == adj
      modifies this
      ensures Valid()
      ensures isDependentVertex == MarkedAfterPass(adj, state.colors, old(isDependentVertex), maxColor)
      ensures shrinkSequence
        == old(shrinkSequence) + NewlyDependent(adj, state.colors, old(isDependentVertex), maxColor, |adj|)
      ensures changed <==> NewlyDependent(adj, state.colors, old(isDependentVertex), maxColor, |adj|) != []
    {
      PassKeepsMarking(adj, state.colors, isDependentVertex, shrinkSequence, maxColor);
      var marked, sequence;
      marked, sequence, changed := Scan(state);
      isDependentVertex, shrinkSequence := marked, sequence;
    }

    /** `recursiveShrink(state)`: passes until one finds nothing new. The
      * state is only read; the sequence grows by the vertices a single
      * pass finds, and at the end no unmarked vertex is dependent. */
    method RecursiveShrink(state: ColoringState)
      requires Valid() && state.Shaped() && state.adj == adj
      modifies this
      ensures Valid()
      ensures shrinkSequence
        == old(shrinkSequence) + NewlyDependent(adj, state.colors, old(isDependentVertex), maxColor, |adj|)
      ensures forall v :: 0 <= v < |adj| && !isDependentVertex[v] ==> !Dependent(adj, state.colors, v, maxColor)
    {
      var changed := ShrinkPass(state);
      ghost var settled := shrinkSequence;
      while changed
        invariant Valid()
        invariant shrinkSequence == settled
        invariant isDependentVertex == MarkedAfterPass(adj, state.colors, old(isDependentVertex), maxColor)
        decreases changed
      {
        SecondPassFindsNothing(adj, state.colors, old(isDependentVertex), maxColor, |adj|);
        changed := ShrinkPass(state);
        assert MarkedAfterPass(adj, state.colors, MarkedAfterPass(adj, state.colors, old(isDependentVertex), maxColor), maxColor)
          == MarkedAfterPass(adj, state.colors, old(isDependentVertex), maxColor);
      }
    }

    /** Lines 46-51 of `expand`: `v` takes the first colour
      * `getAvailableColors` offers, when it offers one. */
    method ExpandVertex(state: ColoringState, v: int)
      requires state.Valid() == true && state.adj == adj && 0 <= v < |adj|
      modifies state
      ensures state.Valid() == true
      ensures (state.colors, state.numColors) == ExpandStep(adj, old(state.colors), old(state.numColors), v)
    {
      ghost var c := LeastFreeBelow(adj, state.colors, v, state.numColors + 1);
      assert FreeFor(adj, state.colors, v, state.numColors);
      var availableColors := state.GetAvailableColors(v);
      assert c <= state.numColors && FreeFor(adj, state.colors, v, c);
      assert c in availableColors;
      ghost var k :| 0 <= k < |availableColors| && availableColors[k] == c;
      assert availableColors[0] <= c;
      assert availableColors[0] in availableColors;
      assert FreeFor(adj, state.colors, v, availableColors[0]);
      if |availableColors| > 0 {
        var _ := state.AssignColor(v, availableColors[0]);
      }
    }

    /** `expand(state)`: from the end of the sequence to its start, each
      * vertex takes the first colour `getAvailableColors` offers. The
      * result is `Expanded`: every listed vertex ends coloured, nothing
      * else changes colour, and a conflict-free colouring of an undirected
      * loop-free graph stays conflict-free. */
    method Expand(state: ColoringState)
      requires Valid() && state.Valid() && state.adj == adj
      modifies state
      ensures state.Valid()
      ensures (state.colors, state.numColors)
        == Expanded(adj, old(state.colors), old(state.numColors), shrinkSequence)
      ensures forall v :: v in shrinkSequence ==> state.colors[v] != Uncolored
      ensures forall v :: 0 <= v < |adj| && v !in shrinkSequence ==> state.colors[v] == old(state.colors[v])
      ensures Simple(adj) && old(state.numConflicts) == 0 ==> state.numConflicts == 0
    {
      ExpandedOutcome(adj, state.colors, state.numColors, shrinkSequence);
      var i := |shrinkSequence|;
      assert shrinkSequence[..i] == shrinkSequence;
      while i > 0
        invariant 0 <= i <= |shrinkSequence|
        invariant state.Valid() == true && state.adj == adj
        invariant Expanded(adj, old(state.colors), old(state.numColors), shrinkSequence)
          == Expanded(adj, state.colors, state.numColors, shrinkSequence[..i])
      {
        i := i - 1;
        assert shrinkSequence[..i + 1][..i] == shrinkSequence[..i];
        ExpandVertex(state, shrinkSequence[i]);
      }
      assert shrinkSequence[..0] == [];
    }
  }
}
