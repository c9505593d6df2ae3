/** The colouring state of lab2/src/ColoringState.cpp and its header
  * lab2/include/ColoringState.h: a colour per vertex (-1 when uncoloured),
  * the vertices of each colour, the uncoloured vertices, the number of
  * colours in use, and a conflict counter recomputed from scratch after
  * every assignment. The graph is the adjacency the state was built over,
  * which the state only reads. */
module GlobalColoringState {
  import opened GraphBasics
  import opened ColoringBasics

  /** The conflicting vertices among `0 .. k-1`. */
  function ConflictCount(adj: seq<set<int>>, colors: seq<int>, k: int): nat
    requires |colors| == |adj| && 0 <= k <= |adj|
  {
    if k == 0 then 0
    else ConflictCount(adj, colors, k - 1) + (if Conflicting(adj, colors, k - 1) then 1 else 0)
  }

  /** The count is 0 exactly when none of the vertices conflicts. */
  lemma {:induction false} ConflictCountZero(adj: seq<set<int>>, colors: seq<int>, k: int)
    requires |colors| == |adj| && 0 <= k <= |adj|
    ensures ConflictCount(adj, colors, k) == 0 <==> forall v :: 0 <= v < k ==> !Conflicting(adj, colors, v)
  {
    if k > 0 {
      ConflictCountZero(adj, colors, k - 1);
    }
  }

  /** At most every vertex conflicts. */
  lemma {:induction false} ConflictCountAtMost(adj: seq<set<int>>, colors: seq<int>, k: int)
    requires |colors| == |adj| && 0 <= k <= |adj|
    ensures ConflictCount(adj, colors, k) <= k
  {
    if k > 0 {
      ConflictCountAtMost(adj, colors, k - 1);
    }
  }

  /** The state's fields but the conflict counter agree: one colour per
    * vertex, each below `numColors`; `colorClass[c]` holds exactly the
    * vertices of colour `c`; every listed uncoloured vertex is uncoloured. */
  ghost predicate ShapedState(adj: seq<set<int>>, colors: seq<int>, numColors: int,
                              colorClass: seq<set<int>>, uncolored: set<int>)
  {
    InRange(adj) && |colors| == |adj|
    && 0 <= numColors <= |colorClass|
    && (forall v :: 0 <= v < |colors| ==> Uncolored <= colors[v] < numColors)
    && (forall c, v {:trigger v in colorClass[c]} {:trigger colors[v], colorClass[c]} :: 0 <= c < |colorClass| ==>
          (v in colorClass[c] <==> 0 <= v < |colors| && colors[v] == c))
    && (forall v :: v in uncolored ==> 0 <= v < |colors| && colors[v] == Uncolored)
  }

  /** Every uncoloured vertex is listed as uncoloured. */
  ghost predicate TrackedState(colors: seq<int>, uncolored: set<int>) {
    forall v :: 0 <= v < |colors| && colors[v] == Uncolored ==> v in uncolored
  }

  /** The field updates of `assignColor` keep the fields in agreement, and
    * keep every uncoloured vertex listed when it was before. */
  lemma AssignKeepsShape(adj: seq<set<int>>, colors: seq<int>, numColors: int,
                         colorClass: seq<set<int>>, uncolored: set<int>, vertex: int, color: int)
    requires ShapedState(adj, colors, numColors, colorClass, uncolored)
    requires 0 <= vertex < |adj| && color >= Uncolored
    ensures
      var grown := if color >= |colorClass| && color != Uncolored
        then colorClass + seq(color + 1 - |colorClass|, _ => {}) else colorClass;
      var oldColor := colors[vertex];
      var removed := if oldColor != Uncolored then grown[oldColor := grown[oldColor] - {vertex}] else grown;
      var unlisted := if oldColor != Uncolored then uncolored else uncolored - {vertex};
      var added := if color != Uncolored then removed[color := removed[color] + {vertex}] else removed;
      var raised := if color != Uncolored && color >= numColors then color + 1 else numColors;
      var listed := if color != Uncolored then unlisted else unlisted + {vertex};
      ShapedState(adj, colors[vertex := color], raised, added, listed)
      && (TrackedState(colors, uncolored) ==> TrackedState(colors[vertex := color], listed))
  {
    var grown := if color >= |colorClass| && color != Uncolored
      then colorClass + seq(color + 1 - |colorClass|, _ => {}) else colorClass;
    var oldColor := colors[vertex];
    var removed := if oldColor != Uncolored then grown[oldColor := grown[oldColor] - {vertex}] else grown;
    var unlisted := if oldColor != Uncolored then uncolored else uncolored - {vertex};
    var added := if color != Uncolored then removed[color := removed[color] + {vertex}] else removed;
    var raised := if color != Uncolored && color >= numColors then color + 1 else numColors;
    var listed := if color != Uncolored then unlisted else unlisted + {vertex};
    var colors' := colors[vertex := color];
    forall c, v | 0 <= c < |grown|
      ensures v in grown[c] <==> 0 <= v < |colors| && colors[v] == c
    {
      if c < |colorClass| {
        assert grown[c] == colorClass[c];
      } else {
        assert grown[c] == {};
        if 0 <= v < |colors| {
          assert colors[v] < numColors <= |colorClass|;
        }
      }
    }
    forall c, v | 0 <= c < |removed|
      ensures v in removed[c] <==> 0 <= v < |colors| && colors[v] == c && v != vertex
    {
      if c == oldColor {
        assert removed[c] == grown[c] - {vertex};
      } else {
        assert removed[c] == grown[c];
      }
    }
    forall c, v | 0 <= c < |added|
      ensures v in added[c] <==> 0 <= v < |colors'| && colors'[v] == c
    {
      if c == color {
        assert added[c] == removed[c] + {vertex};
      } else {
        assert added[c] == removed[c];
      }
    }
    forall v | 0 <= v < |colors'|
      ensures Uncolored <= colors'[v] < raised
    {
    }
    assert 0 <= raised <= |added|;
    forall v | v in listed
      ensures 0 <= v < |colors'| && colors'[v] == Uncolored
    {
    }
  }

  class ColoringState {
    const adj: seq<set<int>>
    var colors: seq<int>
    var numColors: int
    var numConflicts: int
    var colorClass: seq<set<int>>
    var uncoloredVertices: set<int>

    /** Everything but the conflict counter: one colour per vertex, each
      * below `numColors`; `colorClass[c]` holds exactly the vertices of
      * colour `c`; every listed uncoloured vertex is uncoloured. */
    ghost predicate Shaped()
      reads this
    {
      ShapedState(adj, colors, numColors, colorClass, uncoloredVertices)
    }

    /** ... and `numConflicts` counts the conflicting vertices. */
    ghost predicate Valid()
      reads this
    {
      Shaped() && numConflicts == ConflictCount(adj, colors, |adj|)
    }

    /** Every uncoloured vertex is listed as uncoloured. */
    ghost predicate Tracked()
      reads this
    {
      TrackedState(colors, uncoloredVertices)
    }

    /** `ColoringState(g, initialColors)` as the header's second side of its
      * merge conflict writes it: every vertex uncoloured, `initialColors`
      * empty classes, both counters 0, and `uncoloredVertices` left empty. */
    constructor (g: seq<set<int>>, initialColors: nat)
      requires InRange(g)
      ensures Valid()
      ensures adj == g && colors == seq(|g|, _ => Uncolored)
      ensures colorClass == seq(initialColors, _ => {}) && uncoloredVertices == {}
      ensures numColors == 0 && numConflicts == 0
    {
      adj := g;
      colors := seq(|g|, _ => Uncolored);
      colorClass := seq(initialColors, _ => {});
      uncoloredVertices := {};
      numColors := 0;
      numConflicts := 0;
      new;
      ConflictCountZero(adj, colors, |adj|);
    }

    /** The constructor as intended: like the one above, but with every
      * vertex listed as uncoloured, as lab3/codigo/src/ColoringState.cpp
      * builds it. */
    constructor Fresh(g: seq<set<int>>, initialColors: nat)
      requires InRange(g)
      ensures Valid() && Tracked()
      ensures adj == g && colors == seq(|g|, _ => Uncolored)
      ensures colorClass == seq(initialColors, _ => {})
      ensures forall v :: v in uncoloredVertices <==> 0 <= v < |g|
      ensures numColors == 0 && numConflicts == 0
    {
      adj := g;
      colors := seq(|g|, _ => Uncolored);
      colorClass := seq(initialColors, _ => {});
      numColors := 0;
      numConflicts := 0;
      var pending: set<int> := {};
      for v := 0 to |g|
        invariant forall u :: u in pending <==> 0 <= u < v
      {
        pending := pending + {v};
      }
      uncoloredVertices := pending;
      new;
      ConflictCountZero(adj, colors, |adj|);
    }

    function GetColor(v: int): int
      reads this
      requires 0 <= v < |colors|
    {
      colors[v]
    }

    /** `isComplete()`: no vertex is listed as uncoloured. When every
      * uncoloured vertex is listed, that means every vertex has a colour. */
    function IsComplete(): (b: bool)
      reads this
      requires Shaped()
      ensures Tracked() ==> (b <==> forall v :: 0 <= v < |colors| ==> colors[v] != Uncolored)
    {
      assert (forall v :: v !in uncoloredVertices) ==> uncoloredVertices == {};
      uncoloredVertices == {}
    }

    /** `isLegal()`: no conflicts, i.e. the colouring is proper. */
    function IsLegal(): (b: bool)
      reads this
      requires Valid()
      ensures b <==> Proper(adj, colors)
    {
      ConflictCountZero(adj, colors, |adj|);
      numConflicts == 0
    }

    /** `getMaxUsedColor()`: `numColors - 1`, at least every colour in use. */
    function GetMaxUsedColor(): (m: int)
      reads this
      requires Shaped()
      ensures m >= Uncolored
      ensures forall v :: 0 <= v < |colors| ==> colors[v] <= m
    {
      numColors - 1
    }

    /** `isConflicting(vertex)`: coloured, with a neighbour of its colour. */
    method IsConflicting(vertex: int) returns (b: bool)
      requires Shaped()
      requires 0 <= vertex < |adj|
      ensures b == Conflicting(adj, colors, vertex)
    {
      if colors[vertex] == Uncolored {
        return false;
      }
      var rest := adj[vertex];
      while rest != {}
        invariant rest <= adj[vertex]
        invariant forall u :: u in adj[vertex] && u !in rest ==> colors[u] != colors[vertex]
        decreases |rest|
      {
        var u := PickMember(rest);
        if colors[u] == colors[vertex] {
          return true;
        }
        rest := rest - {u};
      }
      return false;
    }

    /** `updateConflicts()`: recounts the conflicting vertices; nothing else
      * changes. */
    method UpdateConflicts()
      requires Shaped()
      modifies this
      ensures Valid()
      ensures colors == old(colors) && colorClass == old(colorClass)
      ensures uncoloredVertices == old(uncoloredVertices) && numColors == old(numColors)
    {
      numConflicts := 0;
      for v := 0 to |adj|
        invariant Shaped()
        invariant colors == old(colors) && colorClass == old(colorClass)
        invariant uncoloredVertices == old(uncoloredVertices) && numColors == old(numColors)
        invariant numConflicts == ConflictCount(adj, colors, v)
      {
        var conflicting := IsConflicting(v);
        if conflicting {
          numConflicts := numConflicts + 1;
        }
      }
    }

    /** `assignColor(vertex, color)`: refuses (the source throws) a vertex out
      * of range or a colour below -1; otherwise grows `colorClass` to hold
      * the colour, moves the vertex from its old class (or from the
      * uncoloured list) to the new one, raises `numColors` past the colour
      * and recounts the conflicts. */
    method AssignColor(vertex: int, color: int) returns (ok: bool)
      requires Valid()
      modifies this
      ensures ok <==> 0 <= vertex < |adj| && color >= Uncolored
      ensures Valid()
      ensures !ok ==> (colors == old(colors) && colorClass == old(colorClass)
        && uncoloredVertices == old(uncoloredVertices)
        && numColors == old(numColors) && numConflicts == old(numConflicts))
      ensures ok ==> colors == old(colors)[vertex := color]
      ensures ok ==> |colorClass| == if color >= old(|colorClass|) then color + 1 else old(|colorClass|)
      ensures ok ==> numColors == if color >= old(numColors) then color + 1 else old(numColors)
      ensures ok ==> (uncoloredVertices
        == if color == Uncolored then old(uncoloredVertices) + {vertex} else old(uncoloredVertices) - {vertex})
      ensures old(Tracked()) ==> Tracked()
    {
      if vertex < 0 || vertex >= |adj| {
        return false;
      }
      if color < Uncolored {
        return false;
      }
      AssignKeepsShape(adj, colors, numColors, colorClass, uncoloredVertices, vertex, color);
      if color >= |colorClass| && color != Uncolored {
        colorClass := colorClass + seq(color + 1 - |colorClass|, _ => {});
      }
      var oldColor := colors[vertex];
      if oldColor != Uncolored {
        colorClass := colorClass[oldColor := colorClass[oldColor] - {vertex}];
      } else {
        uncoloredVertices := uncoloredVertices - {vertex};
      }
      colors := colors[vertex := color];
      if color != Uncolored {
        colorClass := colorClass[color := colorClass[color] + {vertex}];
        if color >= numColors {
          numColors := color + 1;
        }
      } else {
        uncoloredVertices := uncoloredVertices + {vertex};
      }
      UpdateConflicts();
      return true;
    }

    /** `isValidAssignment(vertex, color)`: an existing vertex, a real
      * colour, and no neighbour already has it. */
    method IsValidAssignment(vertex: int, color: int) returns (b: bool)
      requires Shaped()
      ensures b <==> (0 <= vertex < |adj| && color >= 0
        && forall u :: u in adj[vertex] ==> colors[u] != color)
    {
      if vertex < 0 || vertex >= |adj| || color < 0 {
        return false;
      }
      var rest := adj[vertex];
      while rest != {}
        invariant rest <= adj[vertex]
        invariant forall u :: u in adj[vertex] && u !in rest ==> colors[u] != color
        decreases |rest|
      {
        var u := PickMember(rest);
        if colors[u] == color {
          return false;
        }
        rest := rest - {u};
      }
      return true;
    }

    /** `getAvailableColors(vertex)`: in ascending order, the colours
      * `0 .. numColors` that no neighbour has. */
    method GetAvailableColors(vertex: int) returns (available: seq<int>)
      requires Shaped()
      requires 0 <= vertex < |adj|
      ensures forall i, j :: 0 <= i < j < |available| ==> available[i] < available[j]
      ensures forall c :: c in available <==>
        0 <= c <= numColors && forall u :: u in adj[vertex] ==> colors[u] != c
      ensures numColors in available
    {
      var usedColors := new bool[numColors + 1](_ => false);
      var rest := adj[vertex];
      while rest != {}
        invariant rest <= adj[vertex]
        invariant forall c :: 0 <= c <= numColors ==>
          (usedColors[c] <==> exists u :: u in adj[vertex] && u !in rest && colors[u] == c)
        decreases |rest|
      {
        var u := PickMember(rest);
        if colors[u] != Uncolored {
          usedColors[colors[u]] := true;
        }
        rest := rest - {u};
      }
      available := [];
      for c := 0 to numColors + 1
        invariant forall i, j :: 0 <= i < j < |available| ==> available[i] < available[j]
        invariant forall i :: 0 <= i < |available| ==> available[i] < c
        invariant forall d :: d in available <==> 0 <= d < c && !usedColors[d]
      {
        if !usedColors[c] {
          available := available + [c];
        }
      }
    }

    /** `getDeltaConflicts(vertex, newColor)`: 0 for the current colour;
      * otherwise the neighbours of the new colour minus the neighbours of
      * the current one, which counts uncoloured neighbours when the vertex
      * is uncoloured. */
    method GetDeltaConflicts(vertex: int, newColor: int) returns (delta: int)
      requires Shaped()
      requires 0 <= vertex < |adj|
      ensures delta == if colors[vertex] == newColor then 0
        else Tally(adj[vertex], colors, newColor) - Tally(adj[vertex], colors, colors[vertex])
    {
      if colors[vertex] == newColor {
        return 0;
      }
      delta := 0;
      var rest := adj[vertex];
      ghost var done: set<int> := {};
      TallyNone(colors, colors[vertex]);
      while rest != {}
        invariant rest <= adj[vertex] && done == adj[vertex] - rest
        invariant delta + Tally(done, colors, colors[vertex]) == 0
        decreases |rest|
      {
        var u := PickMember(rest);
        TallyAdd(done, u, colors, colors[vertex]);
        if colors[u] == colors[vertex] {
          delta := delta - 1;
        }
        rest := rest - {u};
        done := done + {u};
      }
      assert done == adj[vertex];
      rest := adj[vertex];
      done := {};
      TallyNone(colors, newColor);
      while rest != {}
        invariant rest <= adj[vertex] && done == adj[vertex] - rest
        invariant delta == Tally(done, colors, newColor) - Tally(adj[vertex], colors, colors[vertex])
        decreases |rest|
      {
        var u := PickMember(rest);
        TallyAdd(done, u, colors, newColor);
        if colors[u] == newColor {
          delta := delta + 1;
        }
        rest := rest - {u};
        done := done + {u};
      }
      assert done == adj[vertex];
    }

    /** `getConflictingPairs()`: every edge `v -- u` with `v < u` whose ends
      * share a colour, once, smaller end first. */
    method GetConflictingPairs() returns (conflicts: seq<(int, int)>)
      requires Shaped()
      ensures forall p :: p in conflicts <==>
        0 <= p.0 < |adj| && p.0 < p.1 && p.1 in adj[p.0]
        && colors[p.0] != Uncolored && colors[p.1] == colors[p.0]
      ensures forall i, j :: 0 <= i < j < |conflicts| ==> conflicts[i] != conflicts[j]
    {
      conflicts := [];
      for v := 0 to |adj|
        invariant forall p :: p in conflicts <==>
          0 <= p.0 < v && p.0 < p.1 && p.1 in adj[p.0]
          && colors[p.0] != Uncolored && colors[p.1] == colors[p.0]
        invariant forall i, j :: 0 <= i < j < |conflicts| ==> conflicts[i] != conflicts[j]
      {
        if colors[v] == Uncolored {
          continue;
        }
        var rest := adj[v];
        ghost var before := conflicts;
        while rest != {}
          invariant rest <= adj[v]
          invariant forall p :: p in conflicts <==> (p in before
            || (p.0 == v && p.1 in adj[v] && p.1 !in rest && v < p.1 && colors[p.1] == colors[v]))
          invariant forall i, j :: 0 <= i < j < |conflicts| ==> conflicts[i] != conflicts[j]
          decreases |rest|
        {
          var u := PickMember(rest);
          if u > v && colors[u] == colors[v] {
            conflicts := conflicts + [(v, u)];
          }
          rest := rest - {u};
        }
      }
    }

    /** `getVerticesWithColor(color)`: the class of the colour, each vertex
      * once; nothing for a colour without a class. */
    method GetVerticesWithColor(color: int) returns (vertices: seq<int>)
      requires Shaped()
      ensures forall v :: v in vertices <==>
        0 <= color < |colorClass| && 0 <= v < |colors| && colors[v] == color
      ensures forall i, j :: 0 <= i < j < |vertices| ==> vertices[i] != vertices[j]
    {
      vertices := [];
      if color >= 0 && color < |colorClass| {
        assert forall v :: v in colorClass[color] <==> 0 <= v < |colors| && colors[v] == color;
        var rest := colorClass[color];
        while rest != {}
          invariant rest <= colorClass[color]
          invariant forall v :: v in vertices <==> v in colorClass[color] && v !in rest
          invariant forall i, j :: 0 <= i < j < |vertices| ==> vertices[i] != vertices[j]
          decreases |rest|
        {
          var v := PickMember(rest);
          vertices := vertices + [v];
          rest := rest - {v};
        }
      }
    }

    /** `getDifferentColoredNeighbors(vertex)`: how many distinct colours the
      * coloured neighbours have. */
    method GetDifferentColoredNeighbors(vertex: int) returns (count: int)
      requires Shaped()
      requires 0 <= vertex < |adj|
      ensures count == |ColorsAmong(adj[vertex], colors)|
    {
      var usedColors := new bool[numColors](_ => false);
      count := 0;
      var rest := adj[vertex];
      ghost var done: set<int> := {};
      ghost var seen: set<int> := {};
      assert ColorsAmong({}, colors) == {};
      while rest != {}
        invariant rest <= adj[vertex] && done == adj[vertex] - rest
        invariant seen == ColorsAmong(done, colors)
        invariant forall c :: c in seen ==> 0 <= c < numColors
        invariant forall c :: 0 <= c < numColors ==> (usedColors[c] <==> c in seen)
        invariant count == |seen|
        decreases |rest|
      {
        var u := PickMember(rest);
        ColorsAmongAdd(done, u, colors);
        var color := colors[u];
        if color != Uncolored && !usedColors[color] {
          usedColors[color] := true;
          count := count + 1;
          seen := seen + {color};
        }
        rest := rest - {u};
        done := done + {u};
      }
      assert done == adj[vertex];
    }

    /** `getUncoloredNeighbors(vertex)`: how many neighbours are uncoloured. */
    method GetUncoloredNeighbors(vertex: int) returns (count: int)
      requires Shaped()
      requires 0 <= vertex < |adj|
      ensures count == Tally(adj[vertex], colors, Uncolored)
    {
      count := 0;
      var rest := adj[vertex];
      ghost var done: set<int> := {};
      TallyNone(colors, Uncolored);
      while rest != {}
        invariant rest <= adj[vertex] && done == adj[vertex] - rest
        invariant count == Tally(done, colors, Uncolored)
        decreases |rest|
      {
        var u := PickMember(rest);
        TallyAdd(done, u, colors, Uncolored);
        if colors[u] == Uncolored {
          count := count + 1;
        }
        rest := rest - {u};
        done := done + {u};
      }
      assert done == adj[vertex];
    }

    /** `operator=`: copies every field but the graph; assigning a state to
      * itself changes nothing. */
    method CopyFrom(other: ColoringState)
      modifies this
      ensures colors == old(other.colors) && colorClass == old(other.colorClass)
      ensures uncoloredVertices == old(other.uncoloredVertices)
      ensures numColors == old(other.numColors) && numConflicts == old(other.numConflicts)
      ensures other.Valid() && other.adj == adj ==> Valid()
    {
      if this != other {
        colors := other.colors;
        colorClass := other.colorClass;
        uncoloredVertices := other.uncoloredVertices;
        numColors := other.numColors;
        numConflicts := other.numConflicts;
      }
    }
  }

  /** The constructor as the header writes it leaves the uncoloured list
    * empty, so a fresh state over one vertex reports itself complete while
    * its vertex has no colour. */
  method FreshStateLooksComplete() returns (complete: bool, color: int)
    ensures complete && color == Uncolored
  {
    var s := new ColoringState([{}], 1);
    complete := s.IsComplete();
    color := s.GetColor(0);
  }

  /** Built as intended, the same state is not complete. */
  method FreshStateIsIncomplete() returns (complete: bool, color: int)
    ensures !complete && color == Uncolored
  {
    var s := new ColoringState.Fresh([{}], 1);
    complete := s.IsComplete();
    color := s.GetColor(0);
  }
}
