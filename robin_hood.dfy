/** The closed list of the water-jug search (lab1/src/HashTable.cpp): an
  * open-addressing hash table of states with Robin Hood insertion and
  * backward-shift deletion. Each bucket records how far its state sits
  * from the state's home slot (its probe sequence length, psl); an
  * insertion that has probed further than the resident of a slot takes that
  * slot and carries the resident on. States are compared by their jug
  * levels, so the table stores jug vectors. */
module RobinHood {

  type Key = seq<nat>

  datatype Bucket = Bucket(state: Key, psl: nat, occupied: bool)

  /** A bucket as the constructor, `removeState` and `cleanup` leave it. */
  const EmptyBucket: Bucket := Bucket([], 0, false)

  /** The initial number of buckets, `1u << 18`. */
  const InitialSize: nat := 0x4_0000

  /** An insertion that has probed this far resizes the table. */
  const MaxPsl: nat := 32

  /** The largest capacity an `unsigned int` can double to; doubling it
    * again would wrap to zero. */
  const MaxCapacity: nat := 0x8000_0000

  predicate IsPow2(n: nat)
    decreases n
  {
    n == 1 || (n > 1 && n % 2 == 0 && IsPow2(n / 2))
  }

  function Pow2(k: nat): nat
  {
    if k == 0 then 1 else 2 * Pow2(k - 1)
  }

  lemma {:induction false} Pow2IsPow2(k: nat)
    ensures IsPow2(Pow2(k))
  {
    if k > 0 {
      Pow2IsPow2(k - 1);
      DoubleIsPow2(Pow2(k - 1));
    }
  }

  /** `1u << 18` is a power of two. */
  lemma InitialSizeIsPow2()
    ensures IsPow2(InitialSize)
  {
    assert Pow2(6) == 64;
    assert Pow2(12) == 4096;
    assert Pow2(18) == InitialSize;
    Pow2IsPow2(18);
  }

  lemma {:induction false} DoubleIsPow2(n: nat)
    requires IsPow2(n)
    ensures IsPow2(2 * n)
  {
    assert (2 * n) / 2 == n;
  }

  /** The slot `d` steps after slot `h`, with the index masked by
    * `capacity - 1`; for a power-of-two capacity that is `% capacity`. */
  function Slot(h: int, d: int, cap: nat): (p: nat)
    requires cap > 0
    ensures p < cap
  {
    (h + d) % cap
  }

  function Prev(p: int, cap: nat): (r: nat)
    requires cap > 0
    ensures r < cap
  {
    (p - 1) % cap
  }

  /** Where `d` steps back from slot `h + e` lands. */
  lemma SlotBack(h: int, e: int, d: int, cap: nat)
    requires cap > 0
    ensures (Slot(h, e, cap) - d) % cap == Slot(h, e - d, cap)
  {
    var x := h + e;
    var q := x / cap;
    assert x == q * cap + x % cap;
    assert x - d == q * cap + (x % cap - d);
    ModAddMultiple(x % cap - d, q, cap);
  }

  lemma SlotNext(h: int, e: int, cap: nat)
    requires cap > 0
    ensures (Slot(h, e, cap) + 1) % cap == Slot(h, e + 1, cap)
  {
    SlotBack(h, e, -1, cap);
  }

  lemma ModAddMultiple(a: int, q: int, cap: nat)
    requires cap > 0
    ensures (a + q * cap) % cap == a % cap
  {
    var r := a % cap;
    var k := a / cap;
    assert a == k * cap + r;
    assert a + q * cap == (k + q) * cap + r;
    ModUnique(a + q * cap, k + q, r, cap);
  }

  lemma ModUnique(x: int, k: int, r: int, cap: nat)
    requires cap > 0 && 0 <= r < cap && x == k * cap + r
    ensures x % cap == r
  {
    var k' := x / cap;
    var r' := x % cap;
    if k > k' {
      MulMonotone(k' + 1, k, cap);
    } else if k < k' {
      MulMonotone(k + 1, k', cap);
    }
  }

  lemma MulMonotone(a: int, b: int, c: nat)
    requires a <= b
    ensures a * c <= b * c
  {
    assert b * c - a * c == (b - a) * c;
  }

  /** Every occupied bucket is `psl` slots after its state's home slot
    * `hash & (capacity - 1)`, with `psl` below the insertion limit. */
  ghost predicate WellPlaced(s: seq<Bucket>, hash: Key -> nat)
    requires |s| > 0
  {
    forall p :: 0 <= p < |s| && s[p].occupied ==>
      s[p].psl < MaxPsl && p == Slot(hash(s[p].state), s[p].psl, |s|)
  }

  /** The Robin Hood chain: a displaced state follows an occupied slot whose
    * state is displaced at least one slot less. */
  ghost predicate ChainedAt(s: seq<Bucket>, p: nat)
    requires p < |s|
  {
    s[p].occupied && s[p].psl > 0 ==>
      s[Prev(p, |s|)].occupied && s[p].psl <= s[Prev(p, |s|)].psl + 1
  }

  ghost predicate Chained(s: seq<Bucket>)
  {
    forall p :: 0 <= p < |s| ==> ChainedAt(s, p)
  }

  /** No state is stored twice. */
  ghost predicate Distinct(s: seq<Bucket>)
  {
    forall p, q :: 0 <= p < |s| && 0 <= q < |s| && s[p].occupied && s[q].occupied && s[p].state == s[q].state ==> p == q
  }

  /** The states stored in the buckets. */
  ghost function Keys(s: seq<Bucket>): set<Key>
  {
    set p | 0 <= p < |s| && s[p].occupied :: s[p].state
  }

  ghost predicate TableOk(s: seq<Bucket>, hash: Key -> nat)
  {
    MaxPsl <= |s| <= MaxCapacity && IsPow2(|s|) && WellPlaced(s, hash) && Chained(s) && Distinct(s)
  }

  /** Walking back from a displaced state towards its home slot, every slot
    * is occupied by a state displaced at least as far as the walk has left
    * to go. */
  lemma {:induction false} ChainBack(s: seq<Bucket>, hash: Key -> nat, q: nat, i: nat)
    requires TableOk(s, hash) && q < |s| && s[q].occupied && i <= s[q].psl
    ensures s[(q - i) % |s|].occupied && s[q].psl <= s[(q - i) % |s|].psl + i
    decreases i
  {
    if i == 0 {
      ModUnique(q, 0, q, |s|);
    } else {
      ChainBack(s, hash, q, i - 1);
      var r := (q - (i - 1)) % |s|;
      assert ChainedAt(s, r);
      SlotBack(q, -(i - 1), 1, |s|);
      assert q + -(i - 1) == q - (i - 1);
    }
  }

  /** A search for `key` with probe length `d` has not yet passed the slot
    * that holds `key`, if any. */
  ghost predicate Unpassed(s: seq<Bucket>, key: Key, d: nat)
  {
    forall q :: 0 <= q < |s| && s[q].occupied && s[q].state == key ==> d <= s[q].psl
  }

  /** A slot on the probe path that holds another state moves the search on
    * without passing `key`. */
  lemma StepPast(s: seq<Bucket>, hash: Key -> nat, key: Key, d: nat)
    requires TableOk(s, hash) && Unpassed(s, key, d)
    requires s[Slot(hash(key), d, |s|)].state != key || !s[Slot(hash(key), d, |s|)].occupied
    ensures Unpassed(s, key, d + 1)
  {
  }

  /** A search for `key` that reaches an empty slot, or a slot whose state is
    * displaced less than the search has probed, proves `key` absent. */
  lemma AbsentAtGap(s: seq<Bucket>, hash: Key -> nat, key: Key, d: nat)
    requires TableOk(s, hash) && Unpassed(s, key, d)
    requires var p := Slot(hash(key), d, |s|);
             !s[p].occupied || s[p].psl < d
    ensures key !in Keys(s)
  {
    if key in Keys(s) {
      var q :| 0 <= q < |s| && s[q].occupied && s[q].state == key;
      var e := s[q].psl;
      assert q == Slot(hash(key), e, |s|);
      ChainBack(s, hash, q, e - d);
      SlotBack(hash(key), e, e - d, |s|);
      assert false;
    }
  }

  /** No stored state is displaced as far as the insertion limit. */
  lemma AbsentBeyond(s: seq<Bucket>, hash: Key -> nat, key: Key, d: nat)
    requires TableOk(s, hash) && Unpassed(s, key, d) && MaxPsl <= d
    ensures key !in Keys(s)
  {
  }

  /** The states of `s` are those of `s` with slot `i` replaced by `b`. */
  lemma KeysSet(s: seq<Bucket>, i: nat, b: Bucket)
    requires i < |s| && Distinct(s)
    ensures Keys(s[i := b]) == (Keys(s) - (if s[i].occupied then {s[i].state} else {}))
                               + (if b.occupied then {b.state} else {})
  {
    var t := s[i := b];
    forall k | k in Keys(t)
      ensures k in (Keys(s) - (if s[i].occupied then {s[i].state} else {})) + (if b.occupied then {b.state} else {})
    {
      var p :| 0 <= p < |t| && t[p].occupied && t[p].state == k;
      if p != i {
        assert s[p].occupied && s[p].state == k;
        assert k in Keys(s);
      }
    }
    if b.occupied {
      assert t[i] == b;
      assert b.state in Keys(t);
    }
    forall k | k in Keys(s) && !(s[i].occupied && k == s[i].state)
      ensures k in Keys(t)
    {
      var p :| 0 <= p < |s| && s[p].occupied && s[p].state == k;
      assert p != i;
      assert t[p] == s[p];
    }
  }

  /** An insertion carrying `state` has reached slot `pos` with probe length
    * `psl`, and the slot before it holds a state displaced nearly as far. */
  ghost predicate Carrying(s: seq<Bucket>, hash: Key -> nat, state: Key, pos: nat, psl: nat)
    requires |s| > 0
  {
    pos == Slot(hash(state), psl, |s|) && psl < MaxPsl
    && (psl > 0 ==> s[Prev(pos, |s|)].occupied && psl <= s[Prev(pos, |s|)].psl + 1)
  }

  /** The insertion starts at the home slot. */
  lemma CarryingAtHome(s: seq<Bucket>, hash: Key -> nat, key: Key)
    requires |s| > 0
    ensures Carrying(s, hash, key, hash(key) % |s|, 0)
  {
  }

  /** Placing the carried state in an empty slot keeps the table well formed
    * and adds that state. */
  lemma PlaceKeeps(s: seq<Bucket>, hash: Key -> nat, state: Key, pos: nat, psl: nat)
    requires TableOk(s, hash) && pos < |s| && Carrying(s, hash, state, pos, psl)
    requires !s[pos].occupied && state !in Keys(s)
    ensures TableOk(s[pos := Bucket(state, psl, true)], hash)
    ensures Keys(s[pos := Bucket(state, psl, true)]) == Keys(s) + {state}
  {
    var t := s[pos := Bucket(state, psl, true)];
    KeysSet(s, pos, Bucket(state, psl, true));
    forall p | 0 <= p < |t|
      ensures ChainedAt(t, p)
    {
      assert ChainedAt(s, p);
      if p != pos && Prev(p, |t|) == pos {
        assert !s[Prev(p, |s|)].occupied;
      }
    }
  }

  /** Taking the slot of a resident displaced less than the carried state
    * keeps the table well formed; the resident is carried on from the same
    * slot with its own probe length. */
  lemma SwapKeeps(s: seq<Bucket>, hash: Key -> nat, state: Key, pos: nat, psl: nat)
    requires TableOk(s, hash) && pos < |s| && Carrying(s, hash, state, pos, psl)
    requires s[pos].occupied && s[pos].psl < psl && state !in Keys(s)
    ensures var t := s[pos := Bucket(state, psl, true)];
            TableOk(t, hash)
            && Keys(t) + {s[pos].state} == Keys(s) + {state}
            && s[pos].state !in Keys(t)
            && Carrying(t, hash, s[pos].state, pos, s[pos].psl)
            && t[pos].occupied && s[pos].psl <= t[pos].psl
  {
    var t := s[pos := Bucket(state, psl, true)];
    KeysSet(s, pos, Bucket(state, psl, true));
    forall p | 0 <= p < |t|
      ensures ChainedAt(t, p)
    {
      assert ChainedAt(s, p);
    }
    assert Distinct(t) by {
      forall p, q | 0 <= p < |t| && 0 <= q < |t| && t[p].occupied && t[q].occupied && t[p].state == t[q].state
        ensures p == q
      {
        if p != pos && q != pos {
          assert s[p].state == s[q].state;
        }
      }
    }
    assert ChainedAt(s, pos);
    assert Prev(pos, |t|) != pos;
  }

  /** Moving past a slot whose resident is displaced at least as far keeps
    * the insertion on its probe sequence. */
  lemma AdvanceKeeps(s: seq<Bucket>, hash: Key -> nat, state: Key, pos: nat, psl: nat)
    requires TableOk(s, hash) && pos < |s| && Carrying(s, hash, state, pos, psl)
    requires s[pos].occupied && psl <= s[pos].psl && psl + 1 < MaxPsl
    ensures Carrying(s, hash, state, (pos + 1) % |s|, psl + 1)
  {
    SlotNext(hash(state), psl, |s|);
    SlotBack(pos, 1, 1, |s|);
    ModUnique(pos, 0, pos, |s|);
  }

  lemma NextPrev(p: nat, cap: nat)
    requires p < cap
    ensures Prev((p + 1) % cap, cap) == p
    ensures (Prev(p, cap) + 1) % cap == p
  {
    SlotBack(p, 1, 1, cap);
    SlotNext(p, -1, cap);
    ModUnique(p, 0, p, cap);
  }

  /** The probe length of an occupied bucket, zero for an empty one. */
  function Weight(b: Bucket): nat
  {
    if b.occupied then b.psl else 0
  }

  /** The probe lengths of all occupied buckets added up. */
  ghost function PslSum(s: seq<Bucket>): nat
  {
    if |s| == 0 then 0 else PslSum(s[..|s| - 1]) + Weight(s[|s| - 1])
  }

  lemma {:induction false} PslSumSet(s: seq<Bucket>, i: nat, b: Bucket)
    requires i < |s|
    ensures PslSum(s[i := b]) + Weight(s[i]) == PslSum(s) + Weight(b)
    decreases |s|
  {
    var t := s[i := b];
    if i == |s| - 1 {
      assert t[..|t| - 1] == s[..|s| - 1];
    } else {
      assert t[..|t| - 1] == s[..|s| - 1][i := b];
      PslSumSet(s[..|s| - 1], i, b);
    }
  }

  /** Backward-shift deletion in progress: `t` is the table with the hole at
    * `current` emptied. The table is well formed except possibly at the slot
    * after the hole, whose state is displaced at most one more than the state
    * the hole last held (`holePsl`), and that state's predecessor chain
    * still holds. */
  ghost predicate Shifting(t: seq<Bucket>, hash: Key -> nat, current: nat, holePsl: nat)
  {
    MaxPsl <= |t| <= MaxCapacity && IsPow2(|t|) && WellPlaced(t, hash) && Distinct(t)
    && current < |t| && !t[current].occupied
    && (forall p :: 0 <= p < |t| && p != (current + 1) % |t| ==> ChainedAt(t, p))
    && (t[(current + 1) % |t|].occupied ==> t[(current + 1) % |t|].psl <= holePsl + 1)
    && (holePsl > 0 ==> t[Prev(current, |t|)].occupied && holePsl <= t[Prev(current, |t|)].psl + 1)
  }

  /** The array of the shift differs from the table it stands for only at
    * the hole; moving the next state back keeps it so, with the hole one
    * slot further on. */
  lemma ShiftedView(t: seq<Bucket>, a: seq<Bucket>, current: nat, next: nat)
    requires current < |t| == |a| && a == t[current := a[current]]
    requires next == (current + 1) % |t| && next != current && t[next].psl > 0
    ensures a[current := a[next]][current := a[next].(psl := a[next].psl - 1)] == ShiftedOnce(t, current)[next := t[next]]
  {
  }

  /** Emptying the slot of a found state starts the shift. */
  lemma ShiftStart(s: seq<Bucket>, hash: Key -> nat, q: nat)
    requires TableOk(s, hash) && q < |s| && s[q].occupied
    ensures Shifting(s[q := EmptyBucket], hash, q, s[q].psl)
    ensures Keys(s[q := EmptyBucket]) == Keys(s) - {s[q].state}
  {
    var t := s[q := EmptyBucket];
    KeysSet(s, q, EmptyBucket);
    var next := (q + 1) % |s|;
    forall p | 0 <= p < |t| && p != next
      ensures ChainedAt(t, p)
    {
      assert ChainedAt(s, p);
      if Prev(p, |s|) == q {
        NextPrev(p, |s|);
      }
    }
    assert ChainedAt(s, next);
    NextPrev(q, |s|);
    assert ChainedAt(s, q);
  }

  /** Around a slot of a table with at least three slots, the slots before
    * and after it, and the one after that, are all different. */
  lemma Neighbours(p: nat, cap: nat)
    requires p < cap && 3 <= cap
    ensures Prev(p, cap) != (p + 1) % cap
    ensures ((p + 1) % cap + 1) % cap != p
    ensures Prev(p, cap) != p && (p + 1) % cap != p
  {
    if p == 0 {
      ModUnique(-1, -1, cap - 1, cap);
    } else {
      ModUnique(p - 1, 0, p - 1, cap);
    }
    if p + 1 < cap {
      ModUnique(p + 1, 0, p + 1, cap);
      if p + 2 < cap {
        ModUnique(p + 2, 0, p + 2, cap);
      } else {
        ModUnique(p + 2, 1, 0, cap);
      }
    } else {
      ModUnique(p + 1, 1, 0, cap);
      ModUnique(1, 0, 1, cap);
    }
  }

  /** One step of the shift: the state after the hole moves into the hole
    * with its probe length one lower, and its old slot becomes the hole. */
  ghost function ShiftedOnce(t: seq<Bucket>, current: nat): seq<Bucket>
    requires current < |t| && t[(current + 1) % |t|].psl > 0
  {
    var next := (current + 1) % |t|;
    t[current := t[next].(psl := t[next].psl - 1)][next := EmptyBucket]
  }

  lemma ShiftKeepsPlaced(t: seq<Bucket>, hash: Key -> nat, current: nat, holePsl: nat)
    requires Shifting(t, hash, current, holePsl)
    requires t[(current + 1) % |t|].occupied && t[(current + 1) % |t|].psl > 0
    ensures WellPlaced(ShiftedOnce(t, current), hash) && Distinct(ShiftedOnce(t, current))
    ensures Keys(ShiftedOnce(t, current)) == Keys(t)
  {
    var cap := |t|;
    var next := (current + 1) % cap;
    var t' := ShiftedOnce(t, current);
    Neighbours(current, cap);
    NextPrev(current, cap);
    SlotBack(hash(t[next].state), t[next].psl, 1, cap);
    forall p | 0 <= p < cap && t'[p].occupied
      ensures t'[p].psl < MaxPsl && p == Slot(hash(t'[p].state), t'[p].psl, cap)
    {
      if p != current {
        assert t'[p] == t[p];
      }
    }
    forall p, q | 0 <= p < cap && 0 <= q < cap && t'[p].occupied && t'[q].occupied && t'[p].state == t'[q].state
      ensures p == q
    {
      var p0 := if p == current then next else p;
      var q0 := if q == current then next else q;
      assert t[p0].occupied && t[q0].occupied && t[p0].state == t[q0].state;
    }
    forall k
      ensures k in Keys(t') <==> k in Keys(t)
    {
      if k in Keys(t') {
        var p :| 0 <= p < cap && t'[p].occupied && t'[p].state == k;
        var p0 := if p == current then next else p;
        assert t[p0].occupied && t[p0].state == k;
      }
      if k in Keys(t) {
        var p :| 0 <= p < cap && t[p].occupied && t[p].state == k;
        var p1 := if p == next then current else p;
        assert t'[p1].occupied && t'[p1].state == k;
      }
    }
  }

  lemma ShiftKeepsChain(t: seq<Bucket>, hash: Key -> nat, current: nat, holePsl: nat)
    requires Shifting(t, hash, current, holePsl)
    requires t[(current + 1) % |t|].occupied && t[(current + 1) % |t|].psl > 0
    ensures var next := (current + 1) % |t|;
            var t' := ShiftedOnce(t, current);
            && (forall p :: 0 <= p < |t'| && p != (next + 1) % |t'| ==> ChainedAt(t', p))
            && (t'[(next + 1) % |t'|].occupied ==> t'[(next + 1) % |t'|].psl <= t[next].psl + 1)
            && t'[Prev(next, |t'|)].occupied && t[next].psl <= t'[Prev(next, |t'|)].psl + 1
  {
    var cap := |t|;
    var next := (current + 1) % cap;
    var t' := ShiftedOnce(t, current);
    var after := (next + 1) % cap;
    Neighbours(current, cap);
    NextPrev(current, cap);
    forall p | 0 <= p < cap && p != after
      ensures ChainedAt(t', p)
    {
      if p != current && p != next {
        assert ChainedAt(t, p);
        if Prev(p, cap) == current || Prev(p, cap) == next {
          NextPrev(p, cap);
        }
      }
    }
    assert ChainedAt(t, after);
    NextPrev(next, cap);
  }

  lemma ShiftLowersSum(t: seq<Bucket>, current: nat)
    requires current < |t| && !t[current].occupied && 3 <= |t|
    requires t[(current + 1) % |t|].occupied && t[(current + 1) % |t|].psl > 0
    ensures PslSum(ShiftedOnce(t, current)) < PslSum(t)
  {
    var next := (current + 1) % |t|;
    var moved := t[next].(psl := t[next].psl - 1);
    Neighbours(current, |t|);
    PslSumSet(t, current, moved);
    PslSumSet(t[current := moved], next, EmptyBucket);
  }

  /** Moving the state after the hole back by one slot, one step closer to
    * its home, moves the hole forward and lowers the total probe length. */
  lemma ShiftStep(t: seq<Bucket>, hash: Key -> nat, current: nat, holePsl: nat)
    requires Shifting(t, hash, current, holePsl)
    requires t[(current + 1) % |t|].occupied && t[(current + 1) % |t|].psl > 0
    ensures var next := (current + 1) % |t|;
            Shifting(ShiftedOnce(t, current), hash, next, t[next].psl)
            && Keys(ShiftedOnce(t, current)) == Keys(t)
            && PslSum(ShiftedOnce(t, current)) < PslSum(t)
  {
    ShiftKeepsPlaced(t, hash, current, holePsl);
    ShiftKeepsChain(t, hash, current, holePsl);
    ShiftLowersSum(t, current);
  }

  /** The shift stops at an empty slot or at a state in its home slot; the
    * table is then well formed again. */
  lemma ShiftEnd(t: seq<Bucket>, hash: Key -> nat, current: nat, holePsl: nat)
    requires Shifting(t, hash, current, holePsl)
    requires !(t[(current + 1) % |t|].occupied && t[(current + 1) % |t|].psl > 0)
    ensures TableOk(t, hash)
  {
  }

  /** The states of a prefix of the buckets grow one slot at a time. */
  lemma KeysPrefix(s: seq<Bucket>, i: nat)
    requires i < |s| && Distinct(s)
    ensures Keys(s[..i + 1]) == Keys(s[..i]) + (if s[i].occupied then {s[i].state} else {})
    ensures s[i].occupied ==> s[i].state !in Keys(s[..i])
  {
    var u := s[..i + 1];
    forall k | k in Keys(u)
      ensures k in Keys(s[..i]) + (if s[i].occupied then {s[i].state} else {})
    {
      var p :| 0 <= p < |u| && u[p].occupied && u[p].state == k;
      if p < i {
        assert s[..i][p] == u[p];
      }
    }
    forall k | k in Keys(s[..i])
      ensures k in Keys(u)
    {
      var p :| 0 <= p < i && s[..i][p].occupied && s[..i][p].state == k;
      assert u[p] == s[..i][p];
    }
    if s[i].occupied {
      assert u[i] == s[i];
    }
  }

  /** A table of empty buckets of a valid capacity is well formed and holds
    * nothing. */
  lemma EmptyTableOk(s: seq<Bucket>, hash: Key -> nat)
    requires MaxPsl <= |s| <= MaxCapacity && IsPow2(|s|)
    requires forall p :: 0 <= p < |s| ==> !s[p].occupied
    ensures TableOk(s, hash) && Keys(s) == {}
  {
  }

  /** One probe of a search for `key`: what the slot at probe length `d`
    * tells about `key`, and where the next probe goes. */
  lemma ProbeStep(s: seq<Bucket>, hash: Key -> nat, key: Key, d: nat)
    requires TableOk(s, hash) && Unpassed(s, key, d)
    ensures var p := Slot(hash(key), d, |s|);
            && (!s[p].occupied ==> key !in Keys(s))
            && (s[p].occupied && s[p].state == key ==> key in Keys(s))
            && (s[p].occupied && s[p].state != key && d > s[p].psl ==> key !in Keys(s))
            && (s[p].occupied && s[p].state != key ==> Unpassed(s, key, d + 1))
            && (s[p].occupied && s[p].state != key && MaxPsl <= d + 1 ==> key !in Keys(s))
            && Slot(hash(key), d + 1, |s|) == (p + 1) % |s|
  {
    var p := Slot(hash(key), d, |s|);
    if !s[p].occupied || (s[p].state != key && d > s[p].psl) {
      AbsentAtGap(s, hash, key, d);
    }
    if s[p].occupied && s[p].state != key {
      StepPast(s, hash, key, d);
    }
    SlotNext(hash(key), d, |s|);
  }

  /** The outcome of probing for a slot: the state was placed, an equal
    * state was found, or the probe reached 32 while carrying `carried`. */
  datatype ProbeOutcome = Placed | Duplicate | TooFar(carried: Key)

  /** The loop state of an insertion of `key` into a table that held `k0`:
    * before any swap the table is unchanged and `key` is not yet passed;
    * after one, `key` is in the table and the carried state is not. */
  ghost predicate Inserting(s: seq<Bucket>, hash: Key -> nat, key: Key, k0: set<Key>,
                            state: Key, pos: nat, psl: nat, swapped: bool)
  {
    TableOk(s, hash) && pos < |s| && Carrying(s, hash, state, pos, psl)
    && (!swapped ==> state == key && Keys(s) == k0 && Unpassed(s, key, psl))
    && (swapped ==> key !in k0 && state !in Keys(s) && Keys(s) + {state} == k0 + {key})
  }

  /** No occupied bucket is displaced 32 slots or more, so the probe
    * lengths add up to at most 31 per bucket. */
  lemma {:induction false} PslSumBounded(s: seq<Bucket>)
    requires forall p :: 0 <= p < |s| ==> Weight(s[p]) < MaxPsl
    ensures PslSum(s) <= (MaxPsl - 1) * |s|
    decreases |s|
  {
    if |s| > 0 {
      var u := s[..|s| - 1];
      assert forall p :: 0 <= p < |u| ==> u[p] == s[p];
      PslSumBounded(u);
    }
  }

  lemma InsertStart(s: seq<Bucket>, hash: Key -> nat, key: Key)
    requires TableOk(s, hash)
    ensures Inserting(s, hash, key, Keys(s), key, hash(key) % |s|, 0, false)
  {
  }

  /** An empty slot takes the carried state; `key` was new. */
  lemma InsertPlace(s: seq<Bucket>, hash: Key -> nat, key: Key, k0: set<Key>,
                    state: Key, pos: nat, psl: nat, swapped: bool)
    requires Inserting(s, hash, key, k0, state, pos, psl, swapped) && !s[pos].occupied
    ensures var s' := s[pos := Bucket(state, psl, true)];
            TableOk(s', hash) && key !in k0 && Keys(s') == k0 + {key} && state !in Keys(s)
  {
    if !swapped {
      ProbeStep(s, hash, key, psl);
    }
    PlaceKeeps(s, hash, state, pos, psl);
  }

  /** A slot holding the carried state is only met before any swap, so
    * `key` was already there. */
  lemma InsertDuplicate(s: seq<Bucket>, hash: Key -> nat, key: Key, k0: set<Key>,
                        state: Key, pos: nat, psl: nat, swapped: bool)
    requires Inserting(s, hash, key, k0, state, pos, psl, swapped)
    requires s[pos].occupied && s[pos].state == state
    ensures !swapped && key in k0
  {
    assert s[pos].state in Keys(s);
  }

  /** One probe of `insert` at slot `pos`: an empty slot takes the carried
    * state, the same state stops the probe, and any other state either lets
    * the probe go on from the next slot with the state it now carries or
    * stops it once the distance would reach the limit; the measure drops. */
  lemma ProbeFromUnfold(s: seq<Bucket>, state: Key, pos: nat, psl: nat, next: nat)
    requires pos < |s| && psl < MaxPsl && Bounded(s) && next == (pos + 1) % |s|
    ensures PslSum(s) + MaxPsl <= MaxPsl * (|s| + 1)
    ensures !s[pos].occupied ==> ProbeFrom(s, state, pos, psl) == (s[pos := Bucket(state, psl, true)], Placed)
    ensures s[pos].occupied && s[pos].state == state ==> ProbeFrom(s, state, pos, psl) == (s, Duplicate)
    ensures s[pos].occupied && s[pos].state != state ==>
            var s' := SwapIn(s, state, pos, psl);
            var carried := CarriedOn(s, state, pos, psl);
            Bounded(s') && |s'| == |s|
            && PslSum(s') + carried.1 == PslSum(s) + psl
            && (carried.1 + 1 < MaxPsl ==>
                  ProbeFrom(s, state, pos, psl) == ProbeFrom(s', carried.0, next, carried.1 + 1))
            && (MaxPsl <= carried.1 + 1 ==> ProbeFrom(s, state, pos, psl) == (s', TooFar(carried.0)))
  {
    PslSumBounded(s);
    PslSumSet(s, pos, Bucket(state, psl, true));
  }

  /** The table after the Robin Hood test at `pos`: the carried state takes
    * the slot when the resident is displaced less. */
  function SwapIn(s: seq<Bucket>, state: Key, pos: nat, psl: nat): seq<Bucket>
    requires pos < |s|
  {
    if psl > s[pos].psl then s[pos := Bucket(state, psl, true)] else s
  }

  /** The state carried on after the Robin Hood test at `pos`, and its probe
    * length. */
  function CarriedOn(s: seq<Bucket>, state: Key, pos: nat, psl: nat): (Key, nat)
    requires pos < |s|
  {
    if psl > s[pos].psl then (s[pos].state, s[pos].psl) else (state, psl)
  }

  /** Past a slot holding another state the insertion either goes on to the
    * next slot or, at probe length 32, carries a state that is not in the
    * table. */
  lemma InsertAdvance(s: seq<Bucket>, hash: Key -> nat, key: Key, k0: set<Key>,
                      state: Key, pos: nat, psl: nat, swapped: bool)
    requires Inserting(s, hash, key, k0, state, pos, psl, swapped)
    requires s[pos].occupied && s[pos].state != state
    ensures var s' := SwapIn(s, state, pos, psl);
            var (state', psl') := CarriedOn(s, state, pos, psl);
            var swapped' := swapped || psl > s[pos].psl;
            && |s'| == |s| && Keys(s') + {state'} == Keys(s) + {state}
            && (psl' + 1 < MaxPsl ==> Inserting(s', hash, key, k0, state', (pos + 1) % |s|, psl' + 1, swapped'))
            && (MaxPsl <= psl' + 1 ==>
                  TableOk(s', hash) && key !in k0 && state' !in Keys(s') && Keys(s') + {state'} == k0 + {key})
  {
    if !swapped {
      ProbeStep(s, hash, key, psl);
    }
    if psl > s[pos].psl {
      SwapKeeps(s, hash, state, pos, psl);
      var s' := SwapIn(s, state, pos, psl);
      if s[pos].psl + 1 < MaxPsl {
        AdvanceKeeps(s', hash, s[pos].state, pos, s[pos].psl);
      }
    } else if psl + 1 < MaxPsl {
      AdvanceKeeps(s, hash, state, pos, psl);
    }
  }

  /** No bucket records a probe length of 32 or more. */
  ghost predicate Bounded(s: seq<Bucket>)
  {
    forall p :: 0 <= p < |s| ==> Weight(s[p]) < MaxPsl
  }

  lemma TableOkBounded(s: seq<Bucket>, hash: Key -> nat)
    requires TableOk(s, hash)
    ensures Bounded(s)
  {
  }

  /** Trading one state for another, neither already present, keeps the
    * number of states. */
  lemma ExchangeKeepsSize(a: set<Key>, b: set<Key>, x: Key, y: Key)
    requires x !in a && y !in b && a + {x} == b + {y}
    ensures |a| == |b|
  {
    assert |a + {x}| == |a| + 1;
    assert |b + {y}| == |b| + 1;
  }

  /** The probing loop of `insert` carrying `state` from slot `pos` with probe
    * length `psl`: the table it leaves and how it ended. */
  function ProbeFrom(s: seq<Bucket>, state: Key, pos: nat, psl: nat): (r: (seq<Bucket>, ProbeOutcome))
    requires pos < |s| && psl < MaxPsl && Bounded(s)
    ensures |r.0| == |s| && Bounded(r.0)
    decreases MaxPsl * (|s| + 1) - PslSum(s) - psl
  {
    if !s[pos].occupied then
      PslSumBounded(s[pos := Bucket(state, psl, true)]);
      (s[pos := Bucket(state, psl, true)], Placed)
    else if s[pos].state == state then (s, Duplicate)
    else
      var s' := SwapIn(s, state, pos, psl);
      var carried := CarriedOn(s, state, pos, psl);
      if MaxPsl <= carried.1 + 1 then (s', TooFar(carried.0))
      else
        PslSumSet(s, pos, Bucket(state, psl, true));
        PslSumBounded(s');
        ProbeFrom(s', carried.0, (pos + 1) % |s|, carried.1 + 1)
  }

  /** What `insert`'s probe promises once it stops: the table is still a
    * Robin Hood table, and either `key` was new and now sits in it, or it
    * was already there and nothing changed, or some state (possibly `key`
    * itself) is carried out of the table still to be placed. */
  ghost predicate InsertOutcome(hash: Key -> nat, key: Key, k0: set<Key>, r: (seq<Bucket>, ProbeOutcome))
  {
    && TableOk(r.0, hash)
    && (r.1.Placed? ==> key !in k0 && Keys(r.0) == k0 + {key})
    && (r.1.Duplicate? ==> key in k0 && Keys(r.0) == k0)
    && (r.1.TooFar? ==> key !in k0 && r.1.carried !in Keys(r.0) && Keys(r.0) + {r.1.carried} == k0 + {key})
  }

  /** The probe stops here: at an empty slot, at the same state, or with a
    * carried state whose distance would reach the limit. */
  lemma ProbeFromStops(s: seq<Bucket>, hash: Key -> nat, key: Key, k0: set<Key>,
                       state: Key, pos: nat, psl: nat, swapped: bool)
    requires Inserting(s, hash, key, k0, state, pos, psl, swapped) && Bounded(s)
    requires !s[pos].occupied || s[pos].state == state || MaxPsl <= CarriedOn(s, state, pos, psl).1 + 1
    ensures InsertOutcome(hash, key, k0, ProbeFrom(s, state, pos, psl))
  {
    if !s[pos].occupied {
      InsertPlace(s, hash, key, k0, state, pos, psl, swapped);
    } else if s[pos].state == state {
      InsertDuplicate(s, hash, key, k0, state, pos, psl, swapped);
    } else {
      InsertAdvance(s, hash, key, k0, state, pos, psl, swapped);
      ProbeFromUnfold(s, state, pos, psl, (pos + 1) % |s|);
    }
  }

  /** From any point of the probe where the insertion invariant holds, the
    * probe ends in an outcome `insert` promises. */
  lemma {:induction false} ProbeFromInserts(s: seq<Bucket>, hash: Key -> nat, key: Key, k0: set<Key>,
                                            state: Key, pos: nat, psl: nat, swapped: bool)
    requires Inserting(s, hash, key, k0, state, pos, psl, swapped)
    ensures Bounded(s)
    ensures InsertOutcome(hash, key, k0, ProbeFrom(s, state, pos, psl))
    decreases MaxPsl * (|s| + 1) - PslSum(s) - psl
  {
    TableOkBounded(s, hash);
    PslSumBounded(s);
    var carried := CarriedOn(s, state, pos, psl);
    if !s[pos].occupied || s[pos].state == state || MaxPsl <= carried.1 + 1 {
      ProbeFromStops(s, hash, key, k0, state, pos, psl, swapped);
    } else {
      InsertAdvance(s, hash, key, k0, state, pos, psl, swapped);
      ProbeFromUnfold(s, state, pos, psl, (pos + 1) % |s|);
      ProbeFromInserts(SwapIn(s, state, pos, psl), hash, key, k0, carried.0, (pos + 1) % |s|, carried.1 + 1,
                       swapped || psl > s[pos].psl);
    }
  }


  const Prime1: bv32 := 2654435761
  const Prime2: bv32 := 2246822519
  const Prime3: bv32 := 3266489917

  /** One round of `computeHash`: the jug level, read as an `unsigned int`,
    * is multiplied, rotated and multiplied again, then folded into `h`,
    * which is rotated and multiplied by nine. */
  function MixJug(h: bv32, jug: nat): bv32
  {
    var k0 := (jug % 0x1_0000_0000) as bv32;
    var k1 := k0 * Prime2;
    var k2 := (k1 << 23) | (k1 >> 9);
    var k3 := k2 * Prime3;
    var h1 := h ^ k3;
    var h2 := (h1 << 17) | (h1 >> 15);
    h2 + (h2 << 3)
  }

  /** The rounds of `computeHash` over the first `|jugs|` levels. */
  function MixJugs(jugs: seq<nat>): bv32
  {
    if |jugs| == 0 then Prime1 else MixJug(MixJugs(jugs[..|jugs| - 1]), jugs[|jugs| - 1])
  }

  /** The finalizer of `computeHash`. */
  function Finalize(h: bv32): bv32
  {
    var a := h ^ (h >> 16);
    var b := a * Prime2;
    var c := b ^ (b >> 13);
    var d := c * Prime3;
    d ^ (d >> 16)
  }

  /** The value `computeHash` returns for a state with these jug levels. */
  function HashValue(jugs: seq<nat>): bv32
  {
    Finalize(MixJugs(jugs))
  }

  function HashOf(key: Key): nat
  {
    HashValue(key) as nat
  }

  /** `computeHash`: one mixing round per jug, then the finalizer. */
  method ComputeHash(jugs: seq<nat>) returns (h: bv32)
    ensures h == HashValue(jugs)
  {
    h := Prime1;
    for i := 0 to |jugs|
      invariant h == MixJugs(jugs[..i])
    {
      assert jugs[..i + 1][..i] == jugs[..i];
      h := MixJug(h, jugs[i]);
    }
    assert jugs[..|jugs|] == jugs;
    h := Finalize(h);
  }

  /** The hash of the state with jug levels 4, 0, 0 is not zero. */
  lemma HashOfThreeJugsNonZero()
    ensures HashValue([4, 0, 0]) != 0
  {
    assert [4, 0, 0][..2] == [4, 0] && [4, 0][..1] == [4] && [4][..0] == [];
    var h := MixJug(MixJug(MixJug(Prime1, 4), 0), 0);
    assert MixJugs([4, 0, 0]) == h;
  }

  /** The closed list: `capacity` buckets (a power of two) and the number of
    * states in them. */
  class RobinHoodTable {
    var buckets: array<Bucket>
    var size: nat
    /** The load factor at which an insertion first doubles the table. */
    const maxLoadFactor: real
    /** `computeHash`, fixed when the table is built. */
    const hash: Key -> nat

    ghost predicate Valid()
      reads this, buckets
    {
      TableOk(buckets[..], hash) && size == |Keys(buckets[..])|
    }

    /** The states in the table. */
    ghost function Contents(): set<Key>
      reads this, buckets
    {
      Keys(buckets[..])
    }

    constructor (maxLoadFactor: real)
      ensures Valid() && Contents() == {} && size == 0 && fresh(buckets)
      ensures buckets.Length == InitialSize && this.maxLoadFactor == maxLoadFactor && hash == HashOf
      ensures forall i :: 0 <= i < buckets.Length ==> buckets[i] == EmptyBucket
    {
      this.maxLoadFactor := maxLoadFactor;
      hash := HashOf;
      buckets := new Bucket[InitialSize](_ => EmptyBucket);
      size := 0;
      new;
      InitialSizeIsPow2();
      EmptyTableOk(buckets[..], hash);
    }

    /** `shouldResize`: the table is at least `maxLoadFactor` full. */
    predicate ShouldResize()
      requires buckets.Length > 0
      reads this
    {
      (size as real) / (buckets.Length as real) >= maxLoadFactor
    }

    /** `contains`: probes from the state's home slot and stops at an empty
      * slot, at the state, at a resident displaced less than the probe, or
      * after `capacity` probes. */
    method Contains(key: Key) returns (found: bool)
      requires Valid()
      ensures found <==> key in Contents()
    {
      var cap := buckets.Length;
      var pos := hash(key) % cap;
      var psl: nat := 0;
      ghost var s := buckets[..];
      while true
        invariant psl < cap && pos == Slot(hash(key), psl, cap)
        invariant Unpassed(s, key, psl)
        decreases cap - psl
      {
        ProbeStep(s, hash, key, psl);
        if !buckets[pos].occupied {
          return false;
        }
        if buckets[pos].state == key {
          return true;
        }
        if psl > buckets[pos].psl {
          return false;
        }
        pos := (pos + 1) % cap;
        psl := psl + 1;
        if psl >= cap {
          return false;
        }
      }
    }

    /** `insert`: first doubles a table that is full enough, then probes
      * for a slot. After 32 probes the table doubles and the carried state
      * is inserted again. A table of `MaxCapacity` buckets is not doubled
      * (the source's capacity would wrap to zero); a state carried that far
      * is then lost. */
    method Insert(key: Key) returns (inserted: bool)
      requires Valid()
      modifies this, buckets
      ensures Valid()
      ensures buckets == old(buckets) || fresh(buckets)
      ensures old(buckets.Length) <= buckets.Length
      ensures buckets.Length * 2 <= MaxCapacity ==>
                Contents() == old(Contents()) + {key} && (inserted <==> key !in old(Contents()))
      ensures Contents() <= old(Contents()) + {key}
      ensures !old(ShouldResize()) && key in old(Contents()) ==>
                !inserted && Contents() == old(Contents()) && buckets == old(buckets)
      ensures !old(ShouldResize()) && old(Contents()) == {} ==>
                inserted && Contents() == {key} && buckets == old(buckets)
      decreases MaxCapacity - buckets.Length, 1
    {
      if ShouldResize() && buckets.Length * 2 <= MaxCapacity {
        Resize();
      }
      var outcome := PlaceOrCarry(key);
      if outcome.TooFar? && buckets.Length * 2 <= MaxCapacity {
        Resize();
        inserted := Insert(outcome.carried);
      } else {
        inserted := outcome.Placed?;
      }
    }

    /** The probing loop of `insert` with the count kept: the state is
      * placed, found already present, or a state is carried out of the
      * table by a probe that reached 32 slots. */
    method PlaceOrCarry(key: Key) returns (outcome: ProbeOutcome)
      requires Valid()
      modifies this, buckets
      ensures Valid() && buckets == old(buckets)
      ensures outcome.Placed? ==> key !in old(Contents()) && Contents() == old(Contents()) + {key}
      ensures outcome.Duplicate? ==> key in old(Contents()) && Contents() == old(Contents())
      ensures outcome.TooFar? ==>
                key !in old(Contents()) && outcome.carried !in Contents()
                && Contents() + {outcome.carried} == old(Contents()) + {key}
      ensures old(Contents()) == {} ==> outcome.Placed?
    {
      ghost var s0 := buckets[..];
      ghost var k0 := Keys(s0);
      ghost var start := hash(key) % buckets.Length;
      TableOkBounded(s0, hash);
      InsertStart(s0, hash, key);
      ProbeFromInserts(s0, hash, key, k0, key, start, 0, false);
      if k0 == {} {
        if s0[start].occupied {
          assert s0[start].state in k0;
        }
        ProbeFromUnfold(s0, key, start, 0, (start + 1) % |s0|);
      }
      outcome := Probe(key);
      assert InsertOutcome(hash, key, k0, (buckets[..], outcome));
      if outcome.Placed? {
        size := size + 1;
      } else if outcome.TooFar? {
        ExchangeKeepsSize(Keys(buckets[..]), Keys(s0), outcome.carried, key);
      }
    }

    /** The probing loop of `insert`, from the state's home slot. An equal
      * state stops it; an empty slot takes the carried state; a resident
      * displaced less than the carried state swaps places with it. */
    method Probe(key: Key) returns (outcome: ProbeOutcome)
      requires 0 < buckets.Length && Bounded(buckets[..])
      modifies buckets
      ensures (buckets[..], outcome) == ProbeFrom(old(buckets[..]), key, hash(key) % buckets.Length, 0)
    {
      var cap := buckets.Length;
      var pos: nat := hash(key) % cap;
      var psl: nat := 0;
      var state := key;
      ghost var cur := buckets[..];
      ghost var result := ProbeFrom(cur, key, pos, 0);
      while true
        invariant cap == buckets.Length && cur == buckets[..] && pos < cap && psl < MaxPsl
        invariant Bounded(cur) && ProbeFrom(cur, state, pos, psl) == result
        decreases MaxPsl * (cap + 1) - PslSum(cur) - psl
      {
        var next: nat := (pos + 1) % cap;
        ProbeFromUnfold(cur, state, pos, psl, next);
        var resident := buckets[pos];
        if !resident.occupied {
          buckets[pos] := Bucket(state, psl, true);
          return Placed;
        }
        if resident.state == state {
          return Duplicate;
        }
        cur := SwapIn(cur, state, pos, psl);
        if psl > resident.psl {
          buckets[pos] := Bucket(state, psl, true);
          state := resident.state;
          psl := resident.psl;
        }
        pos := next;
        psl := psl + 1;
        if psl >= MaxPsl {
          return TooFar(state);
        }
      }
    }

    /** `resize`: doubles the capacity and inserts every stored state into
      * the new buckets. */
    method Resize()
      requires Valid() && buckets.Length * 2 <= MaxCapacity
      modifies this
      ensures Valid() && fresh(buckets)
      ensures 2 * old(buckets.Length) <= buckets.Length
      ensures Contents() <= old(Contents())
      ensures buckets.Length * 2 <= MaxCapacity ==> Contents() == old(Contents())
      decreases MaxCapacity - buckets.Length, 0
    {
      var oldBuckets := buckets;
      DoubleIsPow2(oldBuckets.Length);
      buckets := new Bucket[2 * oldBuckets.Length](_ => EmptyBucket);
      size := 0;
      EmptyTableOk(buckets[..], hash);
      assert oldBuckets[..0] == [];
      for i := 0 to oldBuckets.Length
        invariant Valid() && fresh(buckets)
        invariant 2 * oldBuckets.Length <= buckets.Length
        invariant Contents() <= Keys(oldBuckets[..i])
        invariant buckets.Length * 2 <= MaxCapacity ==> Contents() == Keys(oldBuckets[..i])
      {
        KeysPrefix(oldBuckets[..], i);
        assert oldBuckets[..][..i] == oldBuckets[..i] && oldBuckets[..][..i + 1] == oldBuckets[..i + 1];
        if oldBuckets[i].occupied {
          var _ := Insert(oldBuckets[i].state);
        }
      }
      assert oldBuckets[..oldBuckets.Length] == oldBuckets[..];
    }

    /** `removeState`: probe as `contains` does; on a match, shift the
      * following run of displaced states back one slot each (each getting
      * one step closer to home) until an empty slot or a state at home,
      * and empty the last slot of the run. */
    method RemoveState(key: Key)
      requires Valid()
      modifies this, buckets
      ensures Valid() && buckets == old(buckets)
      ensures Contents() == old(Contents()) - {key}
    {
      var cap := buckets.Length;
      var pos: nat := hash(key) % cap;
      var psl: nat := 0;
      ghost var s := buckets[..];
      while true
        invariant buckets == old(buckets) && size == old(size) && buckets[..] == s
        invariant psl <= MaxPsl && pos == Slot(hash(key), psl, cap)
        invariant Unpassed(s, key, psl)
        decreases MaxPsl - psl
      {
        ProbeStep(s, hash, key, psl);
        if !buckets[pos].occupied {
          return;
        }
        if buckets[pos].state == key {
          ShiftStart(s, hash, pos);
          ShiftBack(pos, s[pos].psl);
          size := size - 1;
          return;
        }
        if psl > buckets[pos].psl {
          return;
        }
        pos := (pos + 1) % cap;
        psl := psl + 1;
      }
    }

    /** The backward shift of `removeState` from the slot `start` of the
      * state being removed, with the slot of the last state moved emptied at
      * the end. Until then the array keeps a stale copy of that state; the
      * table it stands for is `t`, with a hole at `current`. */
    method ShiftBack(start: nat, ghost startPsl: nat)
      requires start < buckets.Length
      requires Shifting(buckets[..][start := EmptyBucket], hash, start, startPsl)
      modifies buckets
      ensures TableOk(buckets[..], hash)
      ensures Keys(buckets[..]) == Keys(old(buckets[..])[start := EmptyBucket])
    {
      var cap := buckets.Length;
      var current := start;
      var next: nat := (current + 1) % cap;
      ghost var t := buckets[..][current := EmptyBucket];
      ghost var holePsl := startPsl;
      ghost var k := Keys(t);
      ghost var stale := buckets[current];
      while buckets[next].occupied && buckets[next].psl > 0
        invariant current < cap && next == (current + 1) % cap && cap == buckets.Length
        invariant Shifting(t, hash, current, holePsl) && Keys(t) == k && t[current] == EmptyBucket
        invariant buckets[..] == t[current := stale]
        decreases PslSum(t)
      {
        Neighbours(current, cap);
        ShiftStep(t, hash, current, holePsl);
        ghost var a := buckets[..];
        ShiftedView(t, a, current, next);
        stale := t[next];
        holePsl := t[next].psl;
        t := ShiftedOnce(t, current);
        var moved := buckets[next];
        buckets[current] := moved;
        buckets[current] := buckets[current].(psl := buckets[current].psl - 1);
        assert buckets[..] == a[current := moved][current := moved.(psl := moved.psl - 1)];
        current := next;
        next := (current + 1) % cap;
      }
      Neighbours(current, cap);
      ShiftEnd(t, hash, current, holePsl);
      buckets[current] := EmptyBucket;
      assert buckets[..] == t[current := EmptyBucket] == t;
    }

    /** `cleanup`: every occupied bucket is emptied and the count is reset;
      * the empty buckets are left as they are. */
    method Cleanup()
      requires Valid()
      modifies this, buckets
      ensures Valid() && buckets == old(buckets) && Contents() == {} && size == 0
      ensures forall j :: 0 <= j < buckets.Length ==>
                buckets[j] == (if old(buckets[j]).occupied then EmptyBucket else old(buckets[j]))
    {
      for i := 0 to buckets.Length
        invariant buckets == old(buckets)
        invariant forall j :: 0 <= j < buckets.Length ==>
                    buckets[j] == (if j < i && old(buckets[j]).occupied then EmptyBucket else old(buckets[j]))
      {
        if buckets[i].occupied {
          buckets[i] := EmptyBucket;
        }
      }
      size := 0;
      EmptyTableOk(buckets[..], hash);
    }
  }

  /** The scenario of the table's own test: a fresh table has the initial
    * capacity and empty buckets; the state 4, 0, 0 hashes to a non-zero
    * value, goes in once, is refused the second time, and is gone after
    * `removeState`. The load factor only has to let one state in without a
    * resize. */
  method HashTableScenario(maxLoadFactor: real) returns (first: bool, second: bool, found: bool)
    requires 1.0 / (InitialSize as real) < maxLoadFactor
    ensures first && !second && !found
  {
    var table := new RobinHoodTable(maxLoadFactor);
    assert table.buckets.Length == InitialSize && table.buckets[0] == EmptyBucket;
    HashOfThreeJugsNonZero();
    var state := [4, 0, 0];
    assert !table.ShouldResize();
    first := table.Insert(state);
    assert table.Contents() == {state};
    assert table.size == 1 && table.buckets.Length == InitialSize;
    assert !table.ShouldResize();
    second := table.Insert(state);
    table.RemoveState(state);
    assert state !in table.Contents();
    found := table.Contains(state);
  }
}
