/** The counters of lab1/src/HeuristicMetrics.cpp, which record which of the
  * two heuristic components was the smaller one at each evaluation. The static
  * members of the source are the fields of one object here; the counters are
  * `unsigned int` and wrap around at 2^32. */
module HeuristicMetrics {

  const Modulus: nat := 0x1_0000_0000

  predicate IsU32(x: nat) { x < Modulus }

  /** `std::min({w_manhattan, w_pattern})`. */
  function MinOf(wManhattan: nat, wPattern: nat): (m: nat)
    ensures m <= wManhattan && m <= wPattern
    ensures m == wManhattan || m == wPattern
  {
    if wPattern < wManhattan then wPattern else wManhattan
  }

  /** Which counters one call increments. */
  datatype Choice = Choice(manhattan: bool, pattern: bool)

  function ChoiceOf(wManhattan: nat, wPattern: nat): (c: Choice)
  {
    var m := MinOf(wManhattan, wPattern);
    Choice(wManhattan == m, wPattern == m)
  }

  /** Manhattan is credited iff it is not larger, pattern iff it is not larger:
    * every call credits at least one, and a tie credits both. */
  lemma ChoiceMeaning(wManhattan: nat, wPattern: nat)
    ensures ChoiceOf(wManhattan, wPattern).manhattan <==> wManhattan <= wPattern
    ensures ChoiceOf(wManhattan, wPattern).pattern <==> wPattern <= wManhattan
    ensures ChoiceOf(wManhattan, wPattern).manhattan || ChoiceOf(wManhattan, wPattern).pattern
    ensures (ChoiceOf(wManhattan, wPattern).manhattan && ChoiceOf(wManhattan, wPattern).pattern)
        <==> wManhattan == wPattern
  {
  }

  /** `x++` on an `unsigned int`. */
  function Inc32(x: nat): (y: nat)
    requires IsU32(x)
    ensures IsU32(y)
    ensures y == if x + 1 == Modulus then 0 else x + 1
  {
    (x + 1) % Modulus
  }

  /** Counter increments over a run of calls, ignoring wrap-around. */
  function Credits(calls: seq<(nat, nat)>): (r: (nat, nat))
  {
    if |calls| == 0 then (0, 0)
    else
      var c := ChoiceOf(calls[0].0, calls[0].1);
      var rest := Credits(calls[1..]);
      (rest.0 + (if c.manhattan then 1 else 0), rest.1 + (if c.pattern then 1 else 0))
  }

  /** Over any run of calls, the two counters together grow by at least the
    * number of calls and by at most twice that number. */
  lemma {:induction false} CreditsBounds(calls: seq<(nat, nat)>)
    ensures |calls| <= Credits(calls).0 + Credits(calls).1 <= 2 * |calls|
  {
    if |calls| > 0 {
      CreditsBounds(calls[1..]);
      ChoiceMeaning(calls[0].0, calls[0].1);
    }
  }

  class Metrics {
    var totalSteps: nat
    var chosenManhattan: nat
    var chosenPattern: nat

    ghost predicate Valid()
      reads this
    {
      IsU32(totalSteps) && IsU32(chosenManhattan) && IsU32(chosenPattern)
    }

    /** The static initialisers: all three counters start at 0. */
    constructor ()
      ensures Valid()
      ensures totalSteps == 0 && chosenManhattan == 0 && chosenPattern == 0
    {
      totalSteps := 0;
      chosenManhattan := 0;
      chosenPattern := 0;
    }

    /** `recordChoice`: credits the smaller component (both on a tie) and
      * leaves `total_steps` alone. */
    method RecordChoice(wManhattan: nat, wPattern: nat)
      requires Valid()
      requires IsU32(wManhattan) && IsU32(wPattern)
      modifies this
      ensures Valid()
      ensures totalSteps == old(totalSteps)
      ensures chosenManhattan == if wManhattan <= wPattern then Inc32(old(chosenManhattan)) else old(chosenManhattan)
      ensures chosenPattern == if wPattern <= wManhattan then Inc32(old(chosenPattern)) else old(chosenPattern)
    {
      var minVal := MinOf(wManhattan, wPattern);
      if wManhattan == minVal {
        chosenManhattan := Inc32(chosenManhattan);
      }
      if wPattern == minVal {
        chosenPattern := Inc32(chosenPattern);
      }
    }
  }
}
