/** The colouring state of the exact solver (lab3/codigo/src/ColoringState.cpp):
  * conflicts are kept up to date one assignment at a time instead of being
  * recounted, and colours are bounded by a target number of colours. */
module IncrementalColoringState {
  import opened GraphBasics
  import opened ColoringBasics

  /** Each vertex has a colour from -1 up to the last class, and each class
    * holds exactly the vertices of its colour. */
  ghost predicate ClassesMatch(colors: seq<int>, colorClass: seq<set<int>>)
  {
    (forall v :: 0 <= v < |colors| ==> Uncolored <= colors[v] < |colorClass|)
    && (forall c, v {:trigger v in colorClass[c]} ::
          0 <= c < |colorClass| && v in colorClass[c] ==> 0 <= v < |colors| && colors[v] == c)
    && (forall v :: 0 <= v < |colors| && colors[v] != Uncolored ==> v in colorClass[colors[v]])
  }

  /** The fields agree with each other: the classes match the colours,
    * `numColors` stays within the classes, and the uncoloured list holds
    * exactly the uncoloured vertices. */
  ghost predicate Agrees(adj: seq<set<int>>, colors: seq<int>, numColors: int,
                         colorClass: seq<set<int>>, uncolored: set<int>)
  {
    InRange(adj) && |colors| == |adj|
    && 0 <= numColors <= |colorClass|
    && ClassesMatch(colors, colorClass)
    && (forall v :: v in uncolored <==> 0 <= v < |colors| && colors[v] == Uncolored)
  }

  /** Taking `vertex` out of its class and putting it in the class of
    * `color` (nothing for -1) keeps the classes matching the colours. */
  lemma MoveVertex(colors: seq<int>, colorClass: seq<set<int>>, vertex: int, color: int)
    requires ClassesMatch(colors, colorClass)
    requires 0 <= vertex < |colors| && Uncolored <= color < |colorClass|
    ensures
      var removed := if colors[vertex] != Uncolored
        then colorClass[colors[vertex] := colorClass[colors[vertex]] - {vertex}] else colorClass;
      var added := if color != Uncolored then removed[color := removed[color] + {vertex}] else removed;
      ClassesMatch(colors[vertex := color], added)
  {
    var removed := if colors[vertex] != Uncolored
      then colorClass[colors[vertex] := colorClass[colors[vertex]] - {vertex}] else colorClass;
    var added := if color != Uncolored then removed[color := removed[color] + {vertex}] else removed;
    var colors' := colors[vertex := color];
    assert |added| == |removed| == |colorClass|;
    forall c, v | 0 <= c < |added| && v in added[c]
      ensures 0 <= v < |colors'| && colors'[v] == c
    {
      if !(c == color && v == vertex) {
        assert v in removed[c];
        assert v in colorClass[c];
      }
    }
    forall v | 0 <= v < |colors'| && colors'[v] != Uncolored
      ensures v in added[colors'[v]]
    {
      if v != vertex {
        assert v in colorClass[colors[v]];
      }
    }
  }

  /** New empty classes at the end keep the classes matching. */
  lemma GrowClasses(colors: seq<int>, colorClass: seq<set<int>>, extra: nat)
    requires ClassesMatch(colors, colorClass)
    ensures ClassesMatch(colors, colorClass + seq(extra, _ => {}))
  {
    var grown := colorClass + seq(extra, _ => {});
    forall c, v | 0 <= c < |grown| && v in grown[c]
      ensures 0 <= v < |colors| && colors[v] == c
    {
      assert c < |colorClass| && v in colorClass[c];
    }
  }

  /** The class and list updates of an accepted `assignColor` keep the
    * fields in agreement. */
  lemma AssignAgrees(adj: seq<set<int>>, colors: seq<int>, numColors: int, colorClass: seq<set<int>>,
                     uncolored: set<int>, vertex: int, color: int, targetColors: int)
    requires Agrees(adj, colors, numColors, colorClass, uncolored)
    requires 0 <= vertex < |adj| && color >= 0 && (color < |colorClass| || color < targetColors)
    ensures
      var oldColor := colors[vertex];
      var removed := if oldColor != Uncolored then colorClass[oldColor := colorClass[oldColor] - {vertex}] else colorClass;
      var listed := if oldColor != Uncolored then uncolored else uncolored - {vertex};
      var grown := if color >= |removed| then removed + seq(color + 1 - |removed|, _ => {}) else removed;
      var added := grown[color := grown[color] + {vertex}];
      var raised := if color + 1 > numColors && color < targetColors then color + 1 else numColors;
      Agrees(adj, colors[vertex := color], raised, added, listed)
  {
    var oldColor := colors[vertex];
    var removed := if oldColor != Uncolored then colorClass[oldColor := colorClass[oldColor] - {vertex}] else colorClass;
    var grown := if color >= |removed| then removed + seq(color + 1 - |removed|, _ => {}) else removed;
    var blank := colors[vertex := Uncolored];
    MoveVertex(colors, colorClass, vertex, Uncolored);
    if color >= |removed| {
      GrowClasses(blank, removed, color + 1 - |removed|);
    }
    MoveVertex(blank, grown, vertex, color);
    assert blank[vertex := color] == colors[vertex := color];
  }

  /** What an accepted `assignColor` leaves behind, as a whole: the fields
    * still agree, and on an undirected loop-free graph the count is still
    * half the same-coloured entries. */
  lemma AssignKeepsValid(adj: seq<set<int>>, colors: seq<int>, numColors: int, colorClass: seq<set<int>>,
                         uncolored: set<int>, conflicts: int, vertex: int, color: int, targetColors: int)
    requires Agrees(adj, colors, numColors, colorClass, uncolored)
    requires Simple(adj) ==> 2 * conflicts == MonoEntries(adj, colors, |adj|)
    requires 0 <= vertex < |adj| && color >= 0 && (color < |colorClass| || color < targetColors)
    ensures
      var oldColor := colors[vertex];
      var removed := if oldColor != Uncolored then colorClass[oldColor := colorClass[oldColor] - {vertex}] else colorClass;
      var listed := if oldColor != Uncolored then uncolored else uncolored - {vertex};
      var grown := if color >= |removed| then removed + seq(color + 1 - |removed|, _ => {}) else removed;
      var added := grown[color := grown[color] + {vertex}];
      var raised := if color + 1 > numColors && color < targetColors then color + 1 else numColors;
      var colors' := colors[vertex := color];
      var conflicts' := conflicts - (if oldColor != Uncolored then Tally(adj[vertex], colors, oldColor) else 0)
                        + Tally(adj[vertex], colors', color);
      Agrees(adj, colors', raised, added, listed)
      && (Simple(adj) ==> 2 * conflicts' == MonoEntries(adj, colors', |adj|))
  {
    AssignAgrees(adj, colors, numColors, colorClass, uncolored, vertex, color, targetColors);
    if Simple(adj) {
      Recolor(adj, colors, vertex, color);
      TallyOffVertex(adj[vertex], colors, vertex, color, color);
    }
  }

  /** The updates of `unassignColor` on a coloured vertex keep the fields
    * in agreement. */
  lemma UnassignAgrees(adj: seq<set<int>>, colors: seq<int>, numColors: int, colorClass: seq<set<int>>,
                       uncolored: set<int>, vertex: int)
    requires Agrees(adj, colors, numColors, colorClass, uncolored)
    requires 0 <= vertex < |adj| && colors[vertex] != Uncolored
    ensures Agrees(adj, colors[vertex := Uncolored], numColors,
                   colorClass[colors[vertex] := colorClass[colors[vertex]] - {vertex}], uncolored + {vertex})
  {
    MoveVertex(colors, colorClass, vertex, Uncolored);
  }

  class ColoringState {
    const adj: seq<set<int>>
    var colors: seq<int>
    var numColors: int
    var numConflicts: int
    var colorClass: seq<set<int>>
    var uncoloredVertices: set<int>

    ghost predicate Valid()
      reads this
    {
      Agrees(adj, colors, numColors, colorClass, uncoloredVertices)
      && (Simple(adj) ==> 2 * numConflicts == MonoEntries(adj, colors, |adj|))
    }

    /** `ColoringState(g, initialColors)`: every vertex uncoloured and listed
      * as such, `initialColors` empty classes, both counters 0. */
    constructor (g: seq<set<int>>, initialColors: nat)
      requires InRange(g)
      ensures Valid()
      ensures adj == g && colors == seq(|g|, _ => Uncolored)
      ensures colorClass == seq(initialColors, _ => {})
      ensures forall v :: v in uncoloredVertices <==> 0 <= v < |g|
      ensures numColors == 0 && numConflicts == 0
    {
      adj := g;
      colors := seq(|g|, _ => Uncolored);
      numColors := 0;
      numConflicts := 0;
      colorClass := seq(initialColors, _ => {});
      var pending: set<int> := {};
      for v := 0 to |g|
        invariant forall u :: u in pending <==> 0 <= u < v
      {
        pending := pending + {v};
      }
      uncoloredVertices := pending;
      new;
      MonoZeroIffProper(adj, colors, |adj|);
    }

    function GetColor(v: int): int
      reads this
      requires 0 <= v < |colors|
    {
      colors[v]
    }

    /** `isComplete()`: nothing is listed as uncoloured, which on a
      * consistent state means every vertex has a colour. */
    function IsComplete(): (b: bool)
      reads this
      requires Valid()
      ensures b <==> forall v :: 0 <= v < |colors| ==> colors[v] != Uncolored
    {
      assert (forall v :: v !in uncoloredVertices) ==> uncoloredVertices == {};
      uncoloredVertices == {}
    }

    /** `isLegal()`: no conflict is counted, which on an undirected
      * loop-free graph means no edge joins two vertices of one colour. */
    function IsLegal(): (b: bool)
      reads this
      requires Valid()
      ensures Simple(adj) ==> (b <==> Proper(adj, colors))
    {
      assert Simple(adj) ==> (numConflicts == 0 <==> Proper(adj, colors)) by {
        if Simple(adj) {
          MonoZeroIffProper(adj, colors, |adj|);
        }
      }
      numConflicts == 0
    }

    /** The first half of `assignColor`: the vertex leaves its old class and
      * its conflicts with that colour are taken off the count, or, when it
      * had no colour, it leaves the uncoloured list. */
    method Detach(vertex: int)
      requires Agrees(adj, colors, numColors, colorClass, uncoloredVertices)
      requires 0 <= vertex < |adj|
      modifies this
      ensures colors == old(colors) && numColors == old(numColors)
      ensures old(colors)[vertex] != Uncolored ==>
        colorClass == old(colorClass)[old(colors)[vertex] := old(colorClass)[old(colors)[vertex]] - {vertex}]
        && uncoloredVertices == old(uncoloredVertices)
        && numConflicts == old(numConflicts) - Tally(adj[vertex], colors, old(colors)[vertex])
      ensures old(colors)[vertex] == Uncolored ==>
        colorClass == old(colorClass) && uncoloredVertices == old(uncoloredVertices) - {vertex}
        && numConflicts == old(numConflicts)
    {
      var oldColor := colors[vertex];
      if oldColor != Uncolored {
        colorClass := colorClass[oldColor := colorClass[oldColor] - {vertex}];
        var removed := CountWithColor(adj[vertex], colors, oldColor);
        numConflicts := numConflicts - removed;
      } else {
        uncoloredVertices := uncoloredVertices - {vertex};
      }
    }

    /** The second half of `assignColor`, once the class of `color` exists:
      * the vertex takes the colour and joins its class, `numColors` grows
      * for a colour below `targetColors`, and the neighbours of the new
      * colour are added to the count. */
    method Attach(vertex: int, color: int, targetColors: int)
      requires InRange(adj) && |colors| == |adj|
      requires 0 <= vertex < |adj| && 0 <= color < |colorClass|
      modifies this
      ensures colors == old(colors)[vertex := color]
      ensures colorClass == old(colorClass)[color := old(colorClass)[color] + {vertex}]
      ensures numColors == if color + 1 > old(numColors) && color < targetColors then color + 1 else old(numColors)
      ensures uncoloredVertices == old(uncoloredVertices)
      ensures numConflicts == old(numConflicts) + Tally(adj[vertex], colors, color)
    {
      colors := colors[vertex := color];
      colorClass := colorClass[color := colorClass[color] + {vertex}];
      if color + 1 > numColors && color < targetColors {
        numColors := color + 1;
      }
      var added := CountWithColor(adj[vertex], colors, color);
      numConflicts := numConflicts + added;
    }

    /** The accepted path of `assignColor`: the vertex leaves its old class
      * (or the uncoloured list), the class of `color` is created when
      * missing, and the vertex joins it. */
    method Move(vertex: int, color: int, targetColors: int)
      requires Valid()
      requires 0 <= vertex < |adj| && color >= 0 && (color < |colorClass| || color < targetColors)
      modifies this
      ensures Valid()
      ensures colors == old(colors)[vertex := color]
      ensures |colorClass| == if color >= old(|colorClass|) then color + 1 else old(|colorClass|)
      ensures numColors == if color + 1 > old(numColors) && color < targetColors then color + 1 else old(numColors)
      ensures uncoloredVertices == old(uncoloredVertices) - {vertex}
      ensures numConflicts == old(numConflicts) + Tally(adj[vertex], colors, color)
        - (if old(colors)[vertex] != Uncolored then Tally(adj[vertex], old(colors), old(colors)[vertex]) else 0)
    {
      AssignKeepsValid(adj, colors, numColors, colorClass, uncoloredVertices, numConflicts, vertex, color, targetColors);
      Detach(vertex);
      if color >= |colorClass| {
        colorClass := colorClass + seq(color + 1 - |colorClass|, _ => {});
      }
      Attach(vertex, color, targetColors);
    }

    /** `assignColor(vertex, color, targetColors)` with the range check of the
      * colour made before anything is touched: an unknown vertex, or a
      * colour beyond both the classes and `targetColors`, changes nothing.
      * Otherwise the vertex moves to its new class, leaves the uncoloured
      * list, `numColors` grows to `color + 1` only for a colour below
      * `targetColors`, and the conflicts with the old colour's neighbours
      * are traded for those with the new colour's. */
    method AssignColor(vertex: int, color: int, targetColors: int)
      requires Valid()
      requires color >= 0
      modifies this
      ensures Valid()
      ensures !(0 <= vertex < |adj| && (color < old(|colorClass|) || color < targetColors)) ==>
        colors == old(colors) && colorClass == old(colorClass) && numColors == old(numColors)
        && numConflicts == old(numConflicts) && uncoloredVertices == old(uncoloredVertices)
      ensures 0 <= vertex < |adj| && (color < old(|colorClass|) || color < targetColors) ==>
        colors == old(colors)[vertex := color]
        && |colorClass| == (if color >= old(|colorClass|) then color + 1 else old(|colorClass|))
        && numColors == (if color + 1 > old(numColors) && color < targetColors then color + 1 else old(numColors))
        && uncoloredVertices == old(uncoloredVertices) - {vertex}
        && numConflicts == old(numConflicts) + Tally(adj[vertex], colors, color)
           - (if old(colors)[vertex] != Uncolored then Tally(adj[vertex], old(colors), old(colors)[vertex]) else 0)
    {
      if vertex < 0 || vertex >= |adj| {
        return;
      }
      if color >= |colorClass| && color >= targetColors {
        return;
      }
      Move(vertex, color, targetColors);
    }

    /** `assignColor` as written: a colour beyond both the classes and
      * `targetColors` is turned down only after the vertex has left its old
      * class (or the uncoloured list) and its old conflicts were taken off
      * the count, while its colour stays as it was. */
    method AssignColorAsWritten(vertex: int, color: int, targetColors: int)
      requires Valid()
      requires color >= 0
      modifies this
      ensures !(0 <= vertex < |adj|) ==>
        colors == old(colors) && colorClass == old(colorClass) && numColors == old(numColors)
        && numConflicts == old(numConflicts) && uncoloredVertices == old(uncoloredVertices)
      ensures 0 <= vertex < |adj| && color >= old(|colorClass|) && color >= targetColors ==>
        colors == old(colors) && numColors == old(numColors)
        && uncoloredVertices == old(uncoloredVertices) - {vertex}
        && colorClass == (if old(colors)[vertex] != Uncolored
                          then old(colorClass)[old(colors)[vertex] := old(colorClass)[old(colors)[vertex]] - {vertex}]
                          else old(colorClass))
        && numConflicts == old(numConflicts)
           - (if old(colors)[vertex] != Uncolored then Tally(adj[vertex], old(colors), old(colors)[vertex]) else 0)
      ensures 0 <= vertex < |adj| && (color < old(|colorClass|) || color < targetColors) ==>
        colors == old(colors)[vertex := color]
        && |colorClass| == (if color >= old(|colorClass|) then color + 1 else old(|colorClass|))
        && numColors == (if color + 1 > old(numColors) && color < targetColors then color + 1 else old(numColors))
        && uncoloredVertices == old(uncoloredVertices) - {vertex}
        && numConflicts == old(numConflicts) + Tally(adj[vertex], colors, color)
           - (if old(colors)[vertex] != Uncolored then Tally(adj[vertex], old(colors), old(colors)[vertex]) else 0)
    {
      if vertex < 0 || vertex >= |adj| {
        return;
      }
      Detach(vertex);
      if color >= |colorClass| {
        if color < targetColors {
          colorClass := colorClass + seq(color + 1 - |colorClass|, _ => {});
        } else {
          return;
        }
      }
      Attach(vertex, color, targetColors);
    }

    /** `unassignColor(vertex)`: an uncoloured vertex stays as it is; a
      * coloured one leaves its class, joins the uncoloured list, and its
      * conflicts are taken off the count. `numColors` is kept. */
    method UnassignColor(vertex: int)
      requires Valid()
      requires 0 <= vertex < |adj|
      modifies this
      ensures Valid()
      ensures old(colors)[vertex] == Uncolored ==>
        colors == old(colors) && colorClass == old(colorClass) && numConflicts == old(numConflicts)
        && uncoloredVertices == old(uncoloredVertices)
      ensures old(colors)[vertex] != Uncolored ==>
        colors == old(colors)[vertex := Uncolored]
        && colorClass == old(colorClass)[old(colors)[vertex] := old(colorClass)[old(colors)[vertex]] - {vertex}]
        && uncoloredVertices == old(uncoloredVertices) + {vertex}
        && numConflicts == old(numConflicts) - Tally(adj[vertex], colors, old(colors)[vertex])
      ensures numColors == old(numColors)
    {
      var color := colors[vertex];
      if color != Uncolored {
        UnassignAgrees(adj, colors, numColors, colorClass, uncoloredVertices, vertex);
        ghost var before := colors;
        colorClass := colorClass[color := colorClass[color] - {vertex}];
        colors := colors[vertex := Uncolored];
        uncoloredVertices := uncoloredVertices + {vertex};
        var removed := CountWithColor(adj[vertex], colors, color);
        numConflicts := numConflicts - removed;
        if Simple(adj) {
          Uncolor(adj, before, vertex);
          TallyOffVertex(adj[vertex], before, vertex, Uncolored, color);
        }
      }
    }

    /** The copy assignment `solution = currentState`: every field of
      * `other` is taken over, so a valid, complete or legal state stays so. */
    method CopyFrom(other: ColoringState)
      requires other.Valid() && other.adj == adj
      modifies this
      ensures colors == old(other.colors) && colorClass == old(other.colorClass)
      ensures uncoloredVertices == old(other.uncoloredVertices)
      ensures numColors == old(other.numColors) && numConflicts == old(other.numConflicts)
      ensures Valid() && IsComplete() == old(other.IsComplete()) && IsLegal() == old(other.IsLegal())
    {
      if this != other {
        colors := other.colors;
        colorClass := other.colorClass;
        uncoloredVertices := other.uncoloredVertices;
        numColors := other.numColors;
        numConflicts := other.numConflicts;
      }
    }

    /** `isValidAssignment(vertex, color)`: no neighbour has the colour. */
    method IsValidAssignment(vertex: int, color: int) returns (b: bool)
      requires Valid()
      requires 0 <= vertex < |adj|
      ensures b <==> FreeFor(adj, colors, vertex, color)
    {
      var rest := adj[vertex];
      while rest != {}
        invariant rest <= adj[vertex]
        invariant forall u :: u in adj[vertex] && u !in rest ==> colors[u] != color
        decreases |rest|
      {
        var u := PickMember(rest);
        if colors[u] == color {
          return false;
        }
        rest := rest - {u};
      }
      return true;
    }

    /** `getAvailableColors(vertex, targetColors)`: in ascending order, the
      * colours `0 .. targetColors-1` that no neighbour has; nothing for an
      * unknown vertex. */
    method GetAvailableColors(vertex: int, targetColors: int) returns (available: seq<int>)
      requires Valid()
      requires targetColors >= 0
      ensures !(0 <= vertex < |adj|) ==> available == []
      ensures forall i, j :: 0 <= i < j < |available| ==> available[i] < available[j]
      ensures 0 <= vertex < |adj| ==> forall c :: c in available <==>
        0 <= c < targetColors && FreeFor(adj, colors, vertex, c)
    {
      var usedColors := new bool[targetColors](_ => false);
      if vertex < 0 || vertex >= |adj| {
        return [];
      }
      var rest := adj[vertex];
      while rest != {}
        invariant rest <= adj[vertex]
        invariant forall c :: 0 <= c < targetColors ==>
          (usedColors[c] <==> exists u :: u in adj[vertex] && u !in rest && colors[u] == c)
        decreases |rest|
      {
        var u := PickMember(rest);
        var neighborColor := colors[u];
        if neighborColor != Uncolored && neighborColor < targetColors {
          usedColors[neighborColor] := true;
        }
        rest := rest - {u};
      }
      available := [];
      for c := 0 to targetColors
        invariant forall i, j :: 0 <= i < j < |available| ==> available[i] < available[j]
        invariant forall i :: 0 <= i < |available| ==> available[i] < c
        invariant forall d :: d in available <==> 0 <= d < c && !usedColors[d]
      {
        if !usedColors[c] {
          available := available + [c];
        }
      }
    }

    /** `getDeltaConflicts(vertex, newColor)`: the neighbours of the new
      * colour minus those of the current one, where -1 on either side
      * counts nothing. */
    method GetDeltaConflicts(vertex: int, newColor: int) returns (delta: int)
      requires Valid()
      requires 0 <= vertex < |adj|
      ensures delta == (if newColor != Uncolored then Tally(adj[vertex], colors, newColor) else 0)
        - (if colors[vertex] != Uncolored then Tally(adj[vertex], colors, colors[vertex]) else 0)
    {
      delta := 0;
      var currentColor := colors[vertex];
      var rest := adj[vertex];
      ghost var done: set<int> := {};
      TallyNone(colors, currentColor);
      TallyNone(colors, newColor);
      while rest != {}
        invariant rest <= adj[vertex] && done == adj[vertex] - rest
        invariant delta == (if newColor != Uncolored then Tally(done, colors, newColor) else 0)
          - (if currentColor != Uncolored then Tally(done, colors, currentColor) else 0)
        decreases |rest|
      {
        var u := PickMember(rest);
        TallyAdd(done, u, colors, currentColor);
        TallyAdd(done, u, colors, newColor);
        var neighborColor := colors[u];
        if neighborColor == currentColor && currentColor != Uncolored {
          delta := delta - 1;
        }
        if neighborColor == newColor && newColor != Uncolored {
          delta := delta + 1;
        }
        rest := rest - {u};
        done := done + {u};
      }
      assert done == adj[vertex];
    }
  }

  /** On a loop-free graph, `getDeltaConflicts` predicts the conflict count
    * an accepted `assignColor` leaves behind. */
  method DeltaPredictsAssign(s: ColoringState, vertex: int, color: int, targetColors: int) returns (delta: int)
    requires s.Valid() && LoopFree(s.adj)
    requires 0 <= vertex < |s.adj| && color >= 0 && (color < |s.colorClass| || color < targetColors)
    modifies s
    ensures s.Valid() && s.colors == old(s.colors)[vertex := color]
    ensures s.numConflicts == old(s.numConflicts) + delta
  {
    delta := s.GetDeltaConflicts(vertex, color);
    ghost var before := s.colors;
    s.AssignColor(vertex, color, targetColors);
    TallyOffVertex(s.adj[vertex], before, vertex, color, color);
  }

  /** On a loop-free graph, colouring an uncoloured vertex and taking the
    * colour back restores the colours, the uncoloured list and the count. */
  method UnassignUndoesAssign(s: ColoringState, vertex: int, color: int, targetColors: int)
    requires s.Valid() && LoopFree(s.adj)
    requires 0 <= vertex < |s.adj| && s.colors[vertex] == Uncolored
    requires color >= 0 && (color < |s.colorClass| || color < targetColors)
    modifies s
    ensures s.Valid()
    ensures s.colors == old(s.colors) && s.uncoloredVertices == old(s.uncoloredVertices)
    ensures s.numConflicts == old(s.numConflicts)
  {
    ghost var before := s.colors;
    s.AssignColor(vertex, color, targetColors);
    s.UnassignColor(vertex);
    assert s.colors == before[vertex := color][vertex := Uncolored];
    assert s.colors == before;
    TallyOffVertex(s.adj[vertex], before, vertex, color, color);
  }

  /** The triangle `0 -- 1 -- 2 -- 0`. */
  function Triangle(): (adj: seq<set<int>>)
    ensures Simple(adj) && |adj| == 3
  {
    [{1, 2}, {0, 2}, {0, 1}]
  }

  /** As written: on a triangle with two colours, colouring 0 and 1 alike
    * counts one conflict; asking for colour 5 on vertex 1 is turned down,
    * yet the conflict is gone while both vertices still share colour 0.
    * (The first two calls are accepted, where both versions agree.) */
  method OversizedColorDropsConflict() returns (conflicts: int, c0: int, c1: int)
    ensures conflicts == 0 && c0 == 0 && c1 == 0
  {
    var s := new ColoringState(Triangle(), 2);
    assert s.colors == [-1, -1, -1];
    s.AssignColor(0, 0, 2);
    assert s.colors == [0, -1, -1] && |s.colorClass| == 2 && s.adj[0] == {1, 2};
    assert (set u | u in s.adj[0] && 0 <= u < |s.colors| && s.colors[u] == 0) == {};
    assert s.numConflicts == 0;
    s.AssignColor(1, 0, 2);
    assert s.colors == [0, 0, -1] && |s.colorClass| == 2 && s.adj[1] == {0, 2};
    assert (set u | u in s.adj[1] && 0 <= u < |s.colors| && s.colors[u] == 0) == {0};
    assert s.numConflicts == 1;
    s.AssignColorAsWritten(1, 5, 2);
    conflicts := s.numConflicts;
    c0 := s.GetColor(0);
    c1 := s.GetColor(1);
  }

  /** With the range check first, the same calls keep the conflict. */
  method OversizedColorKeepsConflict() returns (conflicts: int, c0: int, c1: int)
    ensures conflicts == 1 && c0 == 0 && c1 == 0
  {
    var s := new ColoringState(Triangle(), 2);
    assert s.colors == [-1, -1, -1];
    s.AssignColor(0, 0, 2);
    assert s.colors == [0, -1, -1] && |s.colorClass| == 2 && s.adj[0] == {1, 2};
    assert (set u | u in s.adj[0] && 0 <= u < |s.colors| && s.colors[u] == 0) == {};
    assert s.numConflicts == 0;
    s.AssignColor(1, 0, 2);
    assert s.colors == [0, 0, -1] && |s.colorClass| == 2 && s.adj[1] == {0, 2};
    assert (set u | u in s.adj[1] && 0 <= u < |s.colors| && s.colors[u] == 0) == {0};
    assert s.numConflicts == 1;
    s.AssignColor(1, 5, 2);
    conflicts := s.numConflicts;
    c0 := s.GetColor(0);
    c1 := s.GetColor(1);
  }
}
