/** A state of the water-jug puzzle: the level of every jug, the moves that
  * lead to the next states (pour one jug into another, fill a jug, empty a
  * jug) and the two-line puzzle file that gives the capacities and the
  * target levels. Levels and capacities are `unsigned int` in the program;
  * the parser keeps them within 2^32-1 and the moves never exceed a
  * capacity, so no arithmetic here wraps. */
module JugState {
  import opened CppStream

  /** The water held by all jugs together. */
  function Total(levels: seq<nat>): nat
  {
    if |levels| == 0 then 0 else levels[0] + Total(levels[1..])
  }

  lemma {:induction false} TotalUpdate(levels: seq<nat>, k: nat, v: nat)
    requires k < |levels|
    ensures Total(levels[k := v]) + levels[k] == Total(levels) + v
    decreases |levels|
  {
    if k > 0 {
      assert levels[k := v][1..] == levels[1..][k - 1 := v];
      TotalUpdate(levels[1..], k - 1, v);
    } else {
      assert levels[k := v][1..] == levels[1..];
    }
  }

  predicate WithinCapacity(levels: seq<nat>, capacities: seq<nat>)
  {
    |levels| == |capacities| && forall k :: 0 <= k < |levels| ==> levels[k] <= capacities[k]
  }

  /** What a pour from jug `i` into jug `j` moves: all of jug `i`, or as much
    * as jug `j` still has room for. */
  function PourAmount(levels: seq<nat>, capacities: seq<nat>, i: nat, j: nat): nat
    requires WithinCapacity(levels, capacities) && i < |levels| && j < |levels|
  {
    var room := capacities[j] - levels[j];
    if levels[i] < room then levels[i] else room
  }

  /** The test under which the successor loop emits the pour from `i` to `j`. */
  predicate CanPour(levels: seq<nat>, capacities: seq<nat>, i: nat, j: nat)
    requires WithinCapacity(levels, capacities) && i < |levels| && j < |levels|
  {
    i != j && levels[i] != 0 && levels[j] != capacities[j]
    && PourAmount(levels, capacities, i, j) > 0
  }

  /** The levels after pouring jug `i` into jug `j`: either `i` ends empty or
    * `j` ends full, no jug overflows, and only those two jugs change. */
  function Pour(levels: seq<nat>, capacities: seq<nat>, i: nat, j: nat): (r: seq<nat>)
    requires WithinCapacity(levels, capacities) && i < |levels| && j < |levels| && i != j
    ensures WithinCapacity(r, capacities)
    ensures r[i] == 0 || r[j] == capacities[j]
    ensures r[i] <= levels[i] && r[j] >= levels[j] && r[i] + r[j] == levels[i] + levels[j]
    ensures forall k :: 0 <= k < |r| && k != i && k != j ==> r[k] == levels[k]
  {
    var a := PourAmount(levels, capacities, i, j);
    levels[i := levels[i] - a][j := levels[j] + a]
  }

  /** Two sequences that differ at most at `i` and `j` differ in total by
    * what those two positions differ by. */
  lemma TotalTwoChanged(s: seq<nat>, t: seq<nat>, i: nat, j: nat)
    requires |s| == |t| && i < |s| && j < |s| && i != j
    requires forall k :: 0 <= k < |s| && k != i && k != j ==> s[k] == t[k]
    ensures Total(t) + s[i] + s[j] == Total(s) + t[i] + t[j]
  {
    var mid := s[i := t[i]];
    TotalUpdate(s, i, t[i]);
    TotalUpdate(mid, j, t[j]);
    assert mid[j := t[j]] == t;
  }

  /** A pour keeps the total amount of water. */
  lemma PourConservesWater(levels: seq<nat>, capacities: seq<nat>, i: nat, j: nat)
    requires WithinCapacity(levels, capacities) && i < |levels| && j < |levels| && i != j
    ensures Total(Pour(levels, capacities, i, j)) == Total(levels)
  {
    TotalTwoChanged(levels, Pour(levels, capacities, i, j), i, j);
  }

  /** The pours out of jug `i` into jugs `0..j-1`, in the order the inner loop
    * emits them. */
  function PoursBefore(levels: seq<nat>, capacities: seq<nat>, i: nat, j: nat): seq<seq<nat>>
    requires WithinCapacity(levels, capacities) && i < |levels| && j <= |levels|
    decreases j
  {
    if j == 0 then []
    else
      PoursBefore(levels, capacities, i, j - 1)
      + (if CanPour(levels, capacities, i, j - 1) then [Pour(levels, capacities, i, j - 1)] else [])
  }

  /** What the outer loop emits for jug `i`: its pours, then filling it, then
    * emptying it. */
  function MovesOf(levels: seq<nat>, capacities: seq<nat>, i: nat): seq<seq<nat>>
    requires WithinCapacity(levels, capacities) && i < |levels|
  {
    PoursBefore(levels, capacities, i, |levels|)
    + (if levels[i] < capacities[i] then [levels[i := capacities[i]]] else [])
    + (if levels[i] > 0 then [levels[i := 0]] else [])
  }

  /** What the outer loop emits for jugs `0..i-1`. */
  function MovesBefore(levels: seq<nat>, capacities: seq<nat>, i: nat): seq<seq<nat>>
    requires WithinCapacity(levels, capacities) && i <= |levels|
    decreases i
  {
    if i == 0 then [] else MovesBefore(levels, capacities, i - 1) + MovesOf(levels, capacities, i - 1)
  }

  /** Every successor of `levels`, in the order `generateSuccessors` emits them. */
  function Moves(levels: seq<nat>, capacities: seq<nat>): seq<seq<nat>>
    requires WithinCapacity(levels, capacities)
  {
    MovesBefore(levels, capacities, |levels|)
  }

  /** `next` is one move on jug `i` away from `levels`: a pour out of `i`,
    * filling `i` when it is not full, or emptying `i` when it holds water. */
  predicate MoveOn(levels: seq<nat>, capacities: seq<nat>, i: nat, next: seq<nat>)
    requires WithinCapacity(levels, capacities) && i < |levels|
  {
    (exists j :: 0 <= j < |levels| && CanPour(levels, capacities, i, j)
                 && next == Pour(levels, capacities, i, j))
    || (levels[i] < capacities[i] && next == levels[i := capacities[i]])
    || (levels[i] > 0 && next == levels[i := 0])
  }

  /** The puzzle's rules: `next` is one move away from `levels`. */
  predicate IsMove(levels: seq<nat>, capacities: seq<nat>, next: seq<nat>)
    requires WithinCapacity(levels, capacities)
  {
    exists i :: 0 <= i < |levels| && MoveOn(levels, capacities, i, next)
  }

  lemma {:induction false} PoursBeforeSpec(levels: seq<nat>, capacities: seq<nat>, i: nat, j: nat, next: seq<nat>)
    requires WithinCapacity(levels, capacities) && i < |levels| && j <= |levels|
    ensures next in PoursBefore(levels, capacities, i, j)
            <==> exists t :: 0 <= t < j && CanPour(levels, capacities, i, t)
                             && next == Pour(levels, capacities, i, t)
    decreases j
  {
    if j > 0 {
      PoursBeforeSpec(levels, capacities, i, j - 1, next);
    }
  }

  lemma {:induction false} MovesBeforeSpec(levels: seq<nat>, capacities: seq<nat>, i: nat, next: seq<nat>)
    requires WithinCapacity(levels, capacities) && i <= |levels|
    ensures next in MovesBefore(levels, capacities, i)
            <==> exists t :: 0 <= t < i && MoveOn(levels, capacities, t, next)
    decreases i
  {
    if i > 0 {
      MovesBeforeSpec(levels, capacities, i - 1, next);
      MovesOfSpec(levels, capacities, i - 1, next);
      var before := MovesBefore(levels, capacities, i - 1);
      var last := MovesOf(levels, capacities, i - 1);
      assert MovesBefore(levels, capacities, i) == before + last;
      assert next in before + last <==> next in before || next in last;
      if exists t :: 0 <= t < i && MoveOn(levels, capacities, t, next) {
        var t :| 0 <= t < i && MoveOn(levels, capacities, t, next);
        if t < i - 1 {
          assert next in before;
        }
      }
    }
  }

  /** The moves on jug `i` are exactly its pours, filling and emptying. */
  lemma MovesOfSpec(levels: seq<nat>, capacities: seq<nat>, i: nat, next: seq<nat>)
    requires WithinCapacity(levels, capacities) && i < |levels|
    ensures next in MovesOf(levels, capacities, i) <==> MoveOn(levels, capacities, i, next)
  {
    PoursBeforeSpec(levels, capacities, i, |levels|, next);
  }

  /** The successor list holds exactly the states one move away. */
  lemma MovesAreTheRules(levels: seq<nat>, capacities: seq<nat>, next: seq<nat>)
    requires WithinCapacity(levels, capacities)
    ensures next in Moves(levels, capacities) <==> IsMove(levels, capacities, next)
  {
    MovesBeforeSpec(levels, capacities, |levels|, next);
  }

  /** Every move keeps the jugs within their capacities and changes the state. */
  lemma MoveIsProper(levels: seq<nat>, capacities: seq<nat>, next: seq<nat>)
    requires WithinCapacity(levels, capacities) && IsMove(levels, capacities, next)
    ensures WithinCapacity(next, capacities) && next != levels
  {
    var i :| 0 <= i < |levels| && MoveOn(levels, capacities, i, next);
    if exists j :: 0 <= j < |levels| && CanPour(levels, capacities, i, j)
                   && next == Pour(levels, capacities, i, j) {
      var j :| 0 <= j < |levels| && CanPour(levels, capacities, i, j)
               && next == Pour(levels, capacities, i, j);
      assert next[i] < levels[i];
    } else if levels[i] < capacities[i] && next == levels[i := capacities[i]] {
      assert next[i] != levels[i];
    } else {
      assert next[i] != levels[i];
    }
  }

  lemma {:induction false} PoursBeforeCount(levels: seq<nat>, capacities: seq<nat>, i: nat, j: nat)
    requires WithinCapacity(levels, capacities) && i < |levels| && j <= |levels|
    ensures |PoursBefore(levels, capacities, i, j)| + (if i < j then 1 else 0) <= j
    decreases j
  {
    if j > 0 {
      PoursBeforeCount(levels, capacities, i, j - 1);
    }
  }

  lemma {:induction false} MovesBeforeCount(levels: seq<nat>, capacities: seq<nat>, i: nat)
    requires WithinCapacity(levels, capacities) && i <= |levels|
    ensures |MovesBefore(levels, capacities, i)| <= i * (|levels| + 1)
    decreases i
  {
    if i > 0 {
      MovesBeforeCount(levels, capacities, i - 1);
      PoursBeforeCount(levels, capacities, i - 1, |levels|);
      assert i * (|levels| + 1) == (i - 1) * (|levels| + 1) + |levels| + 1;
    }
  }

  /** `size * ((size - 1) + 2)` slots are enough for every successor. */
  lemma MovesFitTheBuffer(levels: seq<nat>, capacities: seq<nat>)
    requires WithinCapacity(levels, capacities)
    ensures |Moves(levels, capacities)| <= |levels| * (|levels| + 1)
  {
    MovesBeforeCount(levels, capacities, |levels|);
  }

  /** A step of the buffer-index bound: row `i` of `n` still fits. */
  lemma RowFits(i: nat, n: nat)
    requires i < n
    ensures i * (n + 1) + n + 1 <= n * (n + 1)
  {
    assert i * (n + 1) + n + 1 == (i + 1) * (n + 1);
  }

  /** Parsing the puzzle file */

  /** The number of ' ' characters (tabs are not counted). */
  function SpaceCount(s: string): nat
  {
    if |s| == 0 then 0 else SpaceCount(s[..|s| - 1]) + (if s[|s| - 1] == ' ' then 1 else 0)
  }

  /** The number of jugs a capacities line declares: one more than its spaces. */
  function JugCount(line: string): nat
  {
    1 + SpaceCount(line)
  }

  /** One formatted extraction from a line (`stream >> x`): the value read
    * at a position and the position after it, or `None` when it fails. The
    * runs below are stated for any extraction, so that their lemmas need
    * nothing of how a number is lexed. */
  type Extraction = (string, nat) -> Option<(nat, nat)>

  /** `n` extractions one after another from position `pos`, or `None` when
    * one of them fails. */
  function ReadRun(read: Extraction, s: string, pos: nat, n: nat): (r: Option<seq<nat>>)
    ensures r.Some? ==> |r.value| == n
    decreases n
  {
    if n == 0 then Some([])
    else
      match read(s, pos)
      case None => None
      case Some((v, next)) =>
        match ReadRun(read, s, next, n - 1)
        case None => None
        case Some(vs) => Some([v] + vs)
  }

  /** `r` with `prefix` put in front of its values. */
  function Prepend(prefix: seq<nat>, r: Option<seq<nat>>): Option<seq<nat>>
  {
    if r.None? then None else Some(prefix + r.value)
  }

  lemma PrependTwice(a: seq<nat>, b: seq<nat>, r: Option<seq<nat>>)
    ensures Prepend(a, Prepend(b, r)) == Prepend(a + b, r)
  {
    if r.Some? {
      assert a + (b + r.value) == (a + b) + r.value;
    }
  }

  /** The first `n` extractions from the start of `s`, in the order a loop
    * makes them: the values read and the position after the last, or `None`
    * once one fails. */
  function ReadValues(read: Extraction, s: string, n: nat): (r: Option<(seq<nat>, nat)>)
    ensures r.Some? ==> |r.value.0| == n
  {
    if n == 0 then Some(([], 0))
    else
      match ReadValues(read, s, n - 1)
      case None => None
      case Some((vs, pos)) =>
        match read(s, pos)
        case None => None
        case Some((v, next)) => Some((vs + [v], next))
  }

  function Values(r: Option<(seq<nat>, nat)>): Option<seq<nat>>
  {
    if r.None? then None else Some(r.value.0)
  }

  /** Once an extraction fails, every longer run fails. */
  lemma {:induction false} ReadValuesFail(read: Extraction, s: string, i: nat, n: nat)
    requires i <= n && ReadValues(read, s, i).None?
    ensures ReadValues(read, s, n).None?
    decreases n
  {
    if i < n {
      ReadValuesFail(read, s, i, n - 1);
    }
  }

  /** A successful run starts with every shorter run. */
  lemma {:induction false} ReadValuesPrefix(read: Extraction, s: string, i: nat, n: nat)
    requires i <= n && ReadValues(read, s, n).Some?
    ensures ReadValues(read, s, i).Some?
    ensures ReadValues(read, s, i).value.0 == ReadValues(read, s, n).value.0[..i]
    decreases n
  {
    if i < n {
      ReadValuesPrefix(read, s, i, n - 1);
      assert ReadValues(read, s, n).value.0[..n - 1] == ReadValues(read, s, n - 1).value.0;
    } else {
      assert ReadValues(read, s, n).value.0[..n] == ReadValues(read, s, n).value.0;
    }
  }

  /** Reading `i` values and then `m` more is reading `i + m` values. */
  lemma {:induction false} ReadValuesThenRun(read: Extraction, s: string, i: nat, m: nat)
    requires ReadValues(read, s, i).Some?
    ensures Values(ReadValues(read, s, i + m))
            == Prepend(ReadValues(read, s, i).value.0, ReadRun(read, s, ReadValues(read, s, i).value.1, m))
    decreases m
  {
    var vs := ReadValues(read, s, i).value.0;
    var p := ReadValues(read, s, i).value.1;
    if m == 0 {
      assert vs + [] == vs;
    } else if read(s, p).None? {
      ReadValuesFail(read, s, i + 1, i + m);
    } else {
      var v := read(s, p).value.0;
      var q := read(s, p).value.1;
      ReadValuesThenRun(read, s, i + 1, m - 1);
      PrependTwice(vs, [v], ReadRun(read, s, q, m - 1));
    }
  }

  /** One more extraction after `i` values extends the run by its value, or
    * fails every run longer than `i`. */
  lemma ReadValuesStep(read: Extraction, s: string, i: nat, n: nat, vs: seq<nat>, pos: nat)
    requires i < n && ReadValues(read, s, i) == Some((vs, pos))
    ensures read(s, pos).None? ==> ReadValues(read, s, n).None?
    ensures read(s, pos).Some? ==>
              ReadValues(read, s, i + 1) == Some((vs + [read(s, pos).value.0], read(s, pos).value.1))
              && (ReadValues(read, s, n).Some? ==> ReadValues(read, s, n).value.0[i] == read(s, pos).value.0)
  {
    if read(s, pos).None? {
      ReadValuesFail(read, s, i + 1, n);
    } else if ReadValues(read, s, n).Some? {
      ReadValuesPrefix(read, s, i + 1, n);
      assert ReadValues(read, s, n).value.0[..i + 1][i] == read(s, pos).value.0;
    }
  }

  /** The loop order and the recursive order read the same values. */
  lemma ReadValuesRun(read: Extraction, s: string, n: nat)
    ensures Values(ReadValues(read, s, n)) == ReadRun(read, s, 0, n)
  {
    ReadValuesThenRun(read, s, 0, n);
    var r := ReadRun(read, s, 0, n);
    if r.Some? {
      assert [] + r.value == r.value;
    }
  }

  /** Unsigned extractions yield values of an `unsigned int`. */
  lemma {:induction false} ReadValuesUnsigned(s: string, n: nat)
    requires ReadValues(ReadUnsigned, s, n).Some?
    ensures forall k :: 0 <= k < n ==> ReadValues(ReadUnsigned, s, n).value.0[k] <= UIntMax
  {
    if n > 0 {
      ReadValuesUnsigned(s, n - 1);
    }
  }

  /** A well-formed puzzle: at least one jug, every capacity positive and an
    * `unsigned int`, every target within its capacity. */
  predicate ValidPuzzle(capacities: seq<nat>, targets: seq<nat>)
  {
    |capacities| == |targets| >= 1
    && forall k :: 0 <= k < |capacities| ==> 0 < capacities[k] <= UIntMax && targets[k] <= capacities[k]
  }

  /** The capacities line: `count` unsigned values, none of them zero. */
  function CapacityLine(line: string, count: nat): (r: Option<seq<nat>>)
    ensures r.Some? ==> |r.value| == count
                        && forall k :: 0 <= k < count ==> 0 < r.value[k] <= UIntMax
  {
    match ReadValues(ReadUnsigned, line, count)
    case None => None
    case Some((capacities, _)) =>
      ReadValuesUnsigned(line, count);
      if exists k :: 0 <= k < count && capacities[k] == 0 then None
      else Some(capacities)
  }

  /** The targets line: one unsigned value per jug, none above its jug's
    * capacity. */
  function TargetLine(line: string, capacities: seq<nat>): (r: Option<seq<nat>>)
    ensures r.Some? ==> |r.value| == |capacities|
                        && forall k :: 0 <= k < |capacities| ==> r.value[k] <= capacities[k]
  {
    match ReadValues(ReadUnsigned, line, |capacities|)
    case None => None
    case Some((targets, _)) =>
      if exists k :: 0 <= k < |capacities| && targets[k] > capacities[k] then None
      else Some(targets)
  }

  /** A targets line is rejected as soon as the next extraction fails or
    * reads more than its jug holds. */
  lemma TargetLineFails(line: string, capacities: seq<nat>, i: nat, vs: seq<nat>, pos: nat)
    requires i < |capacities| && ReadValues(ReadUnsigned, line, i) == Some((vs, pos))
    requires ReadUnsigned(line, pos).None? || ReadUnsigned(line, pos).value.0 > capacities[i]
    ensures TargetLine(line, capacities).None?
  {
    ReadValuesStep(ReadUnsigned, line, i, |capacities|, vs, pos);
  }

  /** A targets line read in full, no value above its jug's capacity, is
    * accepted with those values. */
  lemma TargetLineHolds(line: string, capacities: seq<nat>, vs: seq<nat>, pos: nat)
    requires ReadValues(ReadUnsigned, line, |capacities|) == Some((vs, pos))
    requires forall k :: 0 <= k < |capacities| ==> vs[k] <= capacities[k]
    ensures TargetLine(line, capacities) == Some(vs)
  {
  }

  /** The capacities and targets a puzzle file holds, or `None` when the
    * file is rejected: no first line, a capacity that cannot be read or is
    * zero, no second line, a target that cannot be read or exceeds its
    * capacity. Lines after the second are ignored. */
  function ParseJugFile(lines: seq<string>): (r: Option<(seq<nat>, seq<nat>)>)
    ensures r.Some? ==> |lines| >= 2 && ValidPuzzle(r.value.0, r.value.1)
                        && |r.value.0| == JugCount(lines[0])
  {
    if |lines| == 0 then None
    else
      match CapacityLine(lines[0], JugCount(lines[0]))
      case None => None
      case Some(capacities) =>
        if |lines| < 2 then None
        else
          match TargetLine(lines[1], capacities)
          case None => None
          case Some(targets) => Some((capacities, targets))
  }

  /** The levels written as a line: decimal numbers separated by one space. */
  function Format(levels: seq<nat>): string
    requires |levels| >= 1
    decreases |levels|
  {
    if |levels| == 1 then Decimal(levels[0])
    else Decimal(levels[0]) + " " + Format(levels[1..])
  }

  lemma {:induction false} SpaceCountAppend(a: string, b: string)
    ensures SpaceCount(a + b) == SpaceCount(a) + SpaceCount(b)
    decreases |b|
  {
    if |b| == 0 {
      assert a + b == a;
    } else {
      assert (a + b)[..|a + b| - 1] == a + b[..|b| - 1];
      SpaceCountAppend(a, b[..|b| - 1]);
    }
  }

  lemma {:induction false} DigitsHaveNoSpace(s: string)
    requires AllDigits(s)
    ensures SpaceCount(s) == 0
    decreases |s|
  {
    if |s| > 0 {
      assert AllDigits(s[..|s| - 1]);
      DigitsHaveNoSpace(s[..|s| - 1]);
    }
  }

  lemma {:induction false} FormatSpaces(levels: seq<nat>)
    requires |levels| >= 1
    ensures JugCount(Format(levels)) == |levels|
    decreases |levels|
  {
    DigitsHaveNoSpace(Decimal(levels[0]));
    if |levels| > 1 {
      FormatSpaces(levels[1..]);
      SpaceCountAppend(Decimal(levels[0]), " ");
      assert SpaceCount(" ") == 1 by {
        assert " "[..0] == "";
      }
      SpaceCountAppend(Decimal(levels[0]) + " ", Format(levels[1..]));
    }
  }

  /** `read` gives back, one after the other, the numbers of `Format(levels)`
    * written after `p + gap`. */
  predicate ReadsBack(read: Extraction, p: string, gap: string, levels: seq<nat>)
    decreases |levels|
  {
    |levels| >= 1
    && var q := p + gap + Decimal(levels[0]);
       var next: nat := |q|;
       read(p + gap + Format(levels), |p|) == Some((levels[0], next))
       && (|levels| >= 2 ==> ReadsBack(read, q, " ", levels[1..]))
  }

  lemma FormatSplit(p: string, gap: string, levels: seq<nat>)
    requires |levels| >= 2
    ensures p + gap + Format(levels) == (p + gap + Decimal(levels[0])) + " " + Format(levels[1..])
  {
    var d := Decimal(levels[0]);
    var t := Format(levels[1..]);
    assert Format(levels) == d + " " + t;
    var a := p + gap;
    assert a + (d + " " + t) == a + d + " " + t;
  }

  /** The first number of a formatted line reads back. */
  lemma ReadFirstOfFormat(p: string, gap: string, levels: seq<nat>)
    requires |levels| >= 1 && levels[0] <= UIntMax
    requires forall k :: 0 <= k < |gap| ==> IsCSpace(gap[k])
    ensures var next: nat := |p + gap + Decimal(levels[0])|;
            ReadUnsigned(p + gap + Format(levels), |p|) == Some((levels[0], next))
  {
    var d := Decimal(levels[0]);
    if |levels| == 1 {
      assert p + gap + Format(levels) == p + gap + d + "";
      ReadUnsignedDecimalAt(p, gap, levels[0], "");
    } else {
      var tail := Format(levels[1..]);
      assert p + gap + Format(levels) == p + gap + d + (" " + tail);
      ReadUnsignedDecimalAt(p, gap, levels[0], " " + tail);
    }
  }

  /** An extraction that reads each number back reads the whole line back. */
  lemma {:induction false} ReadRunFormat(read: Extraction, p: string, gap: string, levels: seq<nat>)
    requires ReadsBack(read, p, gap, levels)
    ensures ReadRun(read, p + gap + Format(levels), |p|, |levels|) == Some(levels)
    decreases |levels|
  {
    var q := p + gap + Decimal(levels[0]);
    if |levels| == 1 {
      assert [levels[0]] + [] == levels;
    } else {
      FormatSplit(p, gap, levels);
      ReadRunFormat(read, q, " ", levels[1..]);
      assert [levels[0]] + levels[1..] == levels;
    }
  }

  /** Unsigned extraction reads back every number of a formatted line. */
  lemma {:induction false} UnsignedReadsBack(p: string, gap: string, levels: seq<nat>)
    requires |levels| >= 1 && forall k :: 0 <= k < |levels| ==> levels[k] <= UIntMax
    requires forall k :: 0 <= k < |gap| ==> IsCSpace(gap[k])
    ensures ReadsBack(ReadUnsigned, p, gap, levels)
    decreases |levels|
  {
    ReadFirstOfFormat(p, gap, levels);
    if |levels| >= 2 {
      UnsignedReadsBack(p + gap + Decimal(levels[0]), " ", levels[1..]);
    }
  }

  /** A formatted capacities line parses back. */
  lemma CapacityLineFormat(capacities: seq<nat>)
    requires |capacities| >= 1 && forall k :: 0 <= k < |capacities| ==> 0 < capacities[k] <= UIntMax
    ensures CapacityLine(Format(capacities), JugCount(Format(capacities))) == Some(capacities)
  {
    FormatSpaces(capacities);
    UnsignedReadsBack("", "", capacities);
    ReadRunFormat(ReadUnsigned, "", "", capacities);
    assert "" + "" + Format(capacities) == Format(capacities);
    ReadValuesRun(ReadUnsigned, Format(capacities), |capacities|);
  }

  /** A formatted targets line parses back. */
  lemma TargetLineFormat(targets: seq<nat>, capacities: seq<nat>)
    requires |targets| == |capacities| >= 1
    requires forall k :: 0 <= k < |targets| ==> targets[k] <= capacities[k] <= UIntMax
    ensures TargetLine(Format(targets), capacities) == Some(targets)
  {
    UnsignedReadsBack("", "", targets);
    ReadRunFormat(ReadUnsigned, "", "", targets);
    assert "" + "" + Format(targets) == Format(targets);
    ReadValuesRun(ReadUnsigned, Format(targets), |targets|);
  }

  /** Writing a well-formed puzzle as two lines and parsing it gives it back. */
  lemma ParseFormatted(capacities: seq<nat>, targets: seq<nat>, rest: seq<string>)
    requires ValidPuzzle(capacities, targets)
    ensures ParseJugFile([Format(capacities), Format(targets)] + rest) == Some((capacities, targets))
  {
    CapacityLineFormat(capacities);
    TargetLineFormat(targets, capacities);
  }

  /** A state of the search. `size` of the program is `|jugs|`; `depth` and
    * `parent` are only ever set by a constructor. */
  class State {
    var jugs: seq<nat>
    /** The levels the state was created with; the search never writes
      * `jugs` of a state it created. */
    ghost const born: seq<nat>
    const depth: nat
    var weight: nat
    const parent: State?
    var heuristicCalculated: bool

    /** `State()`: no jugs, depth 0, no parent. */
    constructor Empty()
      ensures jugs == [] && born == [] && depth == 0 && weight == 0 && parent == null
      ensures !heuristicCalculated
    {
      jugs := [];
      born := [];
      depth := 0;
      weight := 0;
      parent := null;
      heuristicCalculated := false;
    }

    /** `State(size, jugs, depth, weight, parent)`: the levels are copied. */
    constructor (levels: seq<nat>, depth: nat, weight: nat, parent: State?)
      ensures jugs == levels && born == levels && this.depth == depth && this.weight == weight
      ensures this.parent == parent && !heuristicCalculated
    {
      jugs := levels;
      born := levels;
      this.depth := depth;
      this.weight := weight;
      this.parent := parent;
      heuristicCalculated := false;
    }

    /** `equals`: the first `size` levels of both states agree. */
    function Equals(other: State): (r: bool)
      reads this, other
      requires |jugs| <= |other.jugs|
      ensures r <==> forall k :: 0 <= k < |jugs| ==> jugs[k] == other.jugs[k]
    {
      jugs == other.jugs[..|jugs|]
    }

    /** `s` is a successor of this state holding `levels`. */
    ghost predicate IsChild(s: State?, levels: seq<nat>)
      reads s
    {
      s != null && s.jugs == levels && s.born == levels && s.depth == depth + 1 && s.weight == 0
      && s.parent == this && !s.heuristicCalculated
    }

    /** The first `num` slots of `buffer` hold distinct successors with the
      * levels `moves`, in order. */
    ghost predicate Holds(buffer: array<State?>, num: nat, moves: seq<seq<nat>>)
      reads buffer, buffer[..]
    {
      num == |moves| <= buffer.Length
      && (forall k :: 0 <= k < num ==> IsChild(buffer[k], moves[k]))
      && forall j, k :: 0 <= j < k < num ==> buffer[j] != buffer[k]
    }

    /** `successors[num_successors++] = new State(size, new_jugs, depth + 1, 0, this)`. */
    method Emit(buffer: array<State?>, num: nat, levels: seq<nat>, ghost moves: seq<seq<nat>>)
      returns (next: nat)
      requires Holds(buffer, num, moves) && num < buffer.Length
      modifies buffer
      ensures next == num + 1 && Holds(buffer, next, moves + [levels])
      ensures forall k :: 0 <= k < num ==> buffer[k] == old(buffer[k])
      ensures fresh(buffer[num])
    {
      var s := new State(levels, depth + 1, 0, this);
      buffer[num] := s;
      next := num + 1;
      assert forall k :: 0 <= k < num ==> buffer[k] == old(buffer[k]);
    }

    /** A move that changes only jug `i`, to `v`, made on the scratch levels:
      * a successor is emitted from them and jug `i` is put back. */
    method EmitWithJug(levels: seq<nat>, i: nat, v: nat, scratch: array<nat>,
                       buffer: array<State?>, num: nat, ghost done: seq<seq<nat>>)
      returns (next: nat)
      requires i < |levels| && scratch[..] == levels
      requires Holds(buffer, num, done) && num < buffer.Length
      modifies scratch, buffer
      ensures scratch[..] == levels
      ensures next == num + 1 && Holds(buffer, next, done + [levels[i := v]])
      ensures forall k :: 0 <= k < num ==> buffer[k] == old(buffer[k])
      ensures fresh(buffer[num])
    {
      var original := scratch[i];
      scratch[i] := v;
      assert scratch[..] == levels[i := v];
      next := Emit(buffer, num, scratch[..], done);
      scratch[i] := original;
      assert scratch[..] == levels;
    }

    /** One round of the inner loop of `generateSuccessors`: the pour from `i`
      * into `j` when the test lets it through, made on the scratch levels,
      * which are put back afterwards. */
    method TryPour(levels: seq<nat>, capacities: seq<nat>, i: nat, j: nat, scratch: array<nat>,
                   buffer: array<State?>, num: nat, ghost done: seq<seq<nat>>)
      returns (next: nat)
      requires WithinCapacity(levels, capacities) && i < |levels| && j < |levels|
      requires scratch[..] == levels
      requires Holds(buffer, num, done)
      requires CanPour(levels, capacities, i, j) ==> num < buffer.Length
      modifies scratch, buffer
      ensures scratch[..] == levels
      ensures Holds(buffer, next, done + (if CanPour(levels, capacities, i, j)
                                          then [Pour(levels, capacities, i, j)] else []))
      ensures forall k :: 0 <= k < num ==> buffer[k] == old(buffer[k])
      ensures forall k :: num <= k < next ==> fresh(buffer[k])
    {
      next := num;
      if i == j || scratch[i] == 0 || scratch[j] == capacities[j] {
        assert done + [] == done;
        return;
      }
      var room := capacities[j] - scratch[j];
      var amount := if scratch[i] < room then scratch[i] else room;
      if amount > 0 {
        scratch[i] := scratch[i] - amount;
        scratch[j] := scratch[j] + amount;
        assert scratch[..] == Pour(levels, capacities, i, j);
        next := Emit(buffer, num, scratch[..], done);
        scratch[i] := levels[i];
        scratch[j] := levels[j];
        assert scratch[..] == levels;
      }
    }

    /** The inner loop of `generateSuccessors`: every pour out of jug `i`. */
    method EmitPours(levels: seq<nat>, capacities: seq<nat>, i: nat, scratch: array<nat>,
                     buffer: array<State?>, num: nat, ghost done: seq<seq<nat>>)
      returns (next: nat)
      requires WithinCapacity(levels, capacities) && i < |levels|
      requires scratch[..] == levels
      requires Holds(buffer, num, done) && num + |levels| - 1 <= buffer.Length
      modifies scratch, buffer
      ensures scratch[..] == levels
      ensures Holds(buffer, next, done + PoursBefore(levels, capacities, i, |levels|))
      ensures forall k :: 0 <= k < num ==> buffer[k] == old(buffer[k])
      ensures forall k :: num <= k < next ==> fresh(buffer[k])
    {
      next := num;
      for j := 0 to |levels|
        invariant scratch[..] == levels
        invariant Holds(buffer, next, done + PoursBefore(levels, capacities, i, j))
        invariant forall k :: 0 <= k < num ==> buffer[k] == old(buffer[k])
        invariant forall k :: num <= k < next ==> fresh(buffer[k])
      {
        PoursBeforeCount(levels, capacities, i, j + 1);
        ghost var before := done + PoursBefore(levels, capacities, i, j);
        next := TryPour(levels, capacities, i, j, scratch, buffer, next, before);
        assert before + (if CanPour(levels, capacities, i, j) then [Pour(levels, capacities, i, j)] else [])
               == done + PoursBefore(levels, capacities, i, j + 1);
      }
    }

    /** One round of the outer loop of `generateSuccessors`: the pours out of
      * jug `i`, then filling it, then emptying it. */
    method EmitMovesOf(levels: seq<nat>, capacities: seq<nat>, i: nat, scratch: array<nat>,
                       buffer: array<State?>, num: nat, ghost done: seq<seq<nat>>)
      returns (next: nat)
      requires WithinCapacity(levels, capacities) && i < |levels|
      requires scratch[..] == levels
      requires Holds(buffer, num, done) && num + |levels| + 1 <= buffer.Length
      modifies scratch, buffer
      ensures scratch[..] == levels
      ensures Holds(buffer, next, done + MovesOf(levels, capacities, i))
      ensures forall k :: 0 <= k < num ==> buffer[k] == old(buffer[k])
      ensures forall k :: num <= k < next ==> fresh(buffer[k])
    {
      PoursBeforeCount(levels, capacities, i, |levels|);
      next := EmitPours(levels, capacities, i, scratch, buffer, num, done);
      ghost var emitted := done + PoursBefore(levels, capacities, i, |levels|);
      ghost var filled := emitted;
      if scratch[i] < capacities[i] {
        next := EmitWithJug(levels, i, capacities[i], scratch, buffer, next, emitted);
        filled := emitted + [levels[i := capacities[i]]];
      }
      ghost var emptied := filled;
      if scratch[i] > 0 {
        next := EmitWithJug(levels, i, 0, scratch, buffer, next, filled);
        emptied := filled + [levels[i := 0]];
      }
      assert emptied == done + MovesOf(levels, capacities, i);
    }

    /** `generateSuccessors`: a buffer of `size * (size + 1)` slots whose first
      * `numSuccessors` entries are new states, one per move, in the order of
      * `Moves`; the scratch copy of the levels is back to this state's levels
      * after each move. */
    method GenerateSuccessors(capacities: seq<nat>) returns (successors: array<State?>, numSuccessors: nat)
      requires WithinCapacity(jugs, capacities)
      ensures fresh(successors) && successors.Length == |jugs| * (|jugs| + 1)
      ensures Holds(successors, numSuccessors, Moves(jugs, capacities))
      ensures forall k :: 0 <= k < numSuccessors ==> fresh(successors[k])
    {
      var levels := jugs;
      var n := |levels|;
      successors := new State?[n * (n + 1)](_ => null);
      numSuccessors := 0;
      var newJugs := new nat[n](_ => 0);
      forall k | 0 <= k < n {
        newJugs[k] := levels[k];
      }
      for i := 0 to n
        invariant successors.Length == n * (n + 1)
        invariant newJugs[..] == levels
        invariant Holds(successors, numSuccessors, MovesBefore(levels, capacities, i))
        invariant forall k :: 0 <= k < numSuccessors ==> fresh(successors[k])
      {
        MovesBeforeCount(levels, capacities, i);
        RowFits(i, n);
        numSuccessors := EmitMovesOf(levels, capacities, i, newJugs, successors, numSuccessors,
                                     MovesBefore(levels, capacities, i));
      }
      MovesFitTheBuffer(levels, capacities);
    }

    /** The capacities loop of `readStatesFromFile`: `count` extractions from
      * the first line into a fresh array, stopping at the first one that
      * fails or reads zero. */
    static method ReadCapacities(line: string, count: nat) returns (capacities: seq<nat>, valid: bool)
      ensures |capacities| == count
      ensures valid <==> CapacityLine(line, count).Some?
      ensures valid ==> capacities == CapacityLine(line, count).value
    {
      capacities := seq(count, _ => 0);
      var pos: nat := 0;
      var i := 0;
      while i < count
        invariant i <= count && |capacities| == count
        invariant ReadValues(ReadUnsigned, line, i) == Some((capacities[..i], pos))
        invariant forall k :: 0 <= k < i ==> capacities[k] != 0
      {
        ReadValuesStep(ReadUnsigned, line, i, count, capacities[..i], pos);
        var r := ReadUnsigned(line, pos);
        if r.None? {
          return capacities, false;
        }
        var v := r.value.0;
        capacities := capacities[i := v];
        assert capacities[..i + 1] == capacities[..i] + [v];
        if v == 0 {
          return capacities, false;
        }
        pos := r.value.1;
        i := i + 1;
      }
      assert capacities[..count] == capacities;
      return capacities, true;
    }

    /** The targets loop of `readStatesFromFile`: one extraction per jug from
      * the second line into the zeroed targets, stopping at the first one
      * that fails or exceeds its jug's capacity. */
    static method ReadTargets(line: string, capacities: seq<nat>) returns (targets: seq<nat>, valid: bool)
      ensures |targets| == |capacities|
      ensures TargetLine(line, capacities) == if valid then Some(targets) else None
    {
      var count := |capacities|;
      targets := seq(count, _ => 0);
      var pos: nat := 0;
      var i := 0;
      while i < count
        invariant i <= count && |targets| == count
        invariant ReadValues(ReadUnsigned, line, i) == Some((targets[..i], pos))
        invariant forall k :: 0 <= k < i ==> targets[k] <= capacities[k]
      {
        ReadValuesStep(ReadUnsigned, line, i, count, targets[..i], pos);
        var r := ReadUnsigned(line, pos);
        if r.None? {
          TargetLineFails(line, capacities, i, targets[..i], pos);
          return targets, false;
        }
        var v := r.value.0;
        if v > capacities[i] {
          TargetLineFails(line, capacities, i, targets[..i], pos);
          return targets, false;
        }
        targets := targets[i := v];
        assert targets[..i + 1] == targets[..i] + [v];
        pos := r.value.1;
        i := i + 1;
      }
      assert targets[..count] == targets;
      TargetLineHolds(line, capacities, targets, pos);
      return targets, true;
    }

    /** `readStatesFromFile`: `file` holds the file's lines, or is `None` when
      * the file cannot be opened. The jug count is one more than the number
      * of spaces on the first line; on success `maxState` holds the
      * capacities and `targetState` the target levels, as `ParseJugFile`
      * gives them. */
    static method ReadStatesFromFile(file: Option<seq<string>>, maxState: State?, targetState: State?)
      returns (ok: bool)
      requires maxState == null || maxState != targetState
      modifies maxState, targetState
      ensures ok <==> maxState != null && targetState != null && file.Some?
                      && ParseJugFile(file.value).Some?
      ensures ok ==> maxState.jugs == ParseJugFile(file.value).value.0
                     && targetState.jugs == ParseJugFile(file.value).value.1
      ensures maxState != null && targetState != null && file.Some? && |file.value| > 0 ==>
                |maxState.jugs| == |targetState.jugs| == JugCount(file.value[0])
      ensures maxState == null || targetState == null || file.None? || |file.value| == 0 ==>
                (maxState != null ==> unchanged(maxState)) && (targetState != null ==> unchanged(targetState))
      ensures maxState != null ==> maxState.weight == old(maxState.weight)
                                   && maxState.heuristicCalculated == old(maxState.heuristicCalculated)
      ensures targetState != null ==> targetState.weight == old(targetState.weight)
                                      && targetState.heuristicCalculated == old(targetState.heuristicCalculated)
    {
      if maxState == null || targetState == null {
        return false;
      }
      if file.None? {
        return false;
      }
      var lines := file.value;
      if |lines| == 0 {
        return false;
      }
      var line := lines[0];
      var count := 1;
      for c := 0 to |line|
        invariant count == 1 + SpaceCount(line[..c])
      {
        assert line[..c + 1][..c] == line[..c];
        if line[c] == ' ' {
          count := count + 1;
        }
      }
      assert line[..|line|] == line;
      // new arrays of `count` jugs for both states; the targets start at zero
      maxState.jugs := seq(count, _ => 0);
      targetState.jugs := seq(count, _ => 0);
      var capacities, validCapacities := ReadCapacities(line, count);
      maxState.jugs := capacities;
      if !validCapacities {
        return false;
      }
      if |lines| < 2 {
        return false;
      }
      var targets, validTargets := ReadTargets(lines[1], capacities);
      targetState.jugs := targets;
      if !validTargets {
        return false;
      }
      return true;
    }
  }
}
