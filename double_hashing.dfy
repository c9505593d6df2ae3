/** The double-hashing variant of the closed list (lab1/src/hashTable.cpp):
  * an open-addressing table of states whose size is a power of two. A
  * state's probe sequence starts at `computeHash` and advances by the odd
  * stride `computeStep`, so it runs through every slot before it comes back
  * to its start. */
module DoubleHashing {
  import RobinHood
  import Sets

  type Key = RobinHood.Key

  datatype Option<T> = None | Some(value: T)

  /** A slot: the state it points to (`None` for a null pointer) and its
    * `occupied` flag. */
  datatype Entry = Entry(state: Option<Key>, occupied: bool)

  /** A slot as `HashEntry()` builds it. */
  const EmptyEntry: Entry := Entry(None, false)

  /** A slot freed by a removal that keeps later states reachable: still
    * occupied, but pointing to no state. */
  const Tombstone: Entry := Entry(None, true)

  /** `INITIAL_SIZE`, `1u << 18`. */
  const InitialSize: nat := RobinHood.InitialSize

  /** `BALANCE_FACTOR`: the table grows once `num_elements * 128` reaches
    * `table_size * 35`. */
  const BalanceFactor: nat := 35

  /** `MAX_PROBES`: an insertion that has passed this many occupied slots
    * doubles the table and starts again. */
  const MaxProbes: nat := 16

  /** The largest size an `unsigned int` can double to. */
  const MaxSize: nat := RobinHood.MaxCapacity

  const Prime1: bv32 := 2654435761
  const Prime2: bv32 := 2246822519
  const Prime3: bv32 := 3266489917

  /** A jug level read as an `unsigned int`: its low 32 bits, built from
    * the highest bit down. */
  function Word(jug: nat): bv32
  {
    if jug == 0 then 0
    else if jug % 2 == 0 then Word(jug / 2) << 1
    else (Word(jug / 2) << 1) | 1
  }

  /** One round of `computeHash` over the jug level `k0`. */
  function HashRound(h: bv32, k0: bv32): bv32
  {
    var k1 := k0 * Prime2;
    var k2 := (k1 << 13) | (k1 >> 19);
    var k3 := k2 * Prime3;
    var h1 := h ^ k3;
    var h2 := (h1 << 13) | (h1 >> 19);
    h2 + (h2 << 3)
  }

  /** One round of `computeStep` over the jug level `k0`. */
  function StepRound(h: bv32, k0: bv32): bv32
  {
    var k1 := k0 * Prime3;
    var k2 := (k1 << 11) | (k1 >> 21);
    var k3 := k2 * Prime1;
    var h1 := h ^ k3;
    var h2 := (h1 << 11) | (h1 >> 21);
    h2 + (h2 << 2)
  }

  /** The 32 bits `computeHash` has mixed before it masks them. */
  function HashBits(jugs: seq<nat>): bv32
  {
    if |jugs| == 0 then Prime1 else HashRound(HashBits(jugs[..|jugs| - 1]), Word(jugs[|jugs| - 1]))
  }

  /** The 32 bits `computeStep` has mixed before it masks them. */
  function StepBits(jugs: seq<nat>): bv32
  {
    if |jugs| == 0 then Prime2 else StepRound(StepBits(jugs[..|jugs| - 1]), Word(jugs[|jugs| - 1]))
  }

  function HashOf(key: Key): nat
  {
    HashBits(key) as nat
  }

  function StepOf(key: Key): nat
  {
    StepBits(key) as nat
  }

  /** `x | 1` on a natural number. */
  function Or1(x: nat): (r: nat)
    ensures r % 2 == 1 && x <= r <= x + 1
    ensures x % 2 == 1 ==> r == x
  {
    if x % 2 == 0 then x + 1 else x
  }

  /** `hash & (table_size - 1)`: for a power-of-two size, the mixed bits
    * modulo the size. */
  function Home(bits: nat, size: nat): (r: nat)
    requires size > 0
    ensures r < size
  {
    bits % size
  }

  /** `((hash | 1) & (table_size - 1)) | 1`. */
  function Stride(bits: nat, size: nat): nat
    requires size > 0
  {
    Or1(Or1(bits) % size)
  }

  /** `computeStep` gives an odd stride smaller than the table. */
  lemma StrideOddAndSmall(bits: nat, size: nat)
    requires RobinHood.IsPow2(size) && size >= 2
    ensures Stride(bits, size) % 2 == 1 && Stride(bits, size) < size
  {
    assert size == 2 * (size / 2);
    OddResidue(Or1(bits), size / 2);
  }

  /** An odd number stays odd modulo an even one. */
  lemma OddResidue(x: nat, m: nat)
    requires m > 0 && x % 2 == 1
    ensures (x % (2 * m)) % 2 == 1
  {
    var q := x / (2 * m);
    var r := x % (2 * m);
    assert x == q * (2 * m) + r;
    assert q * (2 * m) == (q * m) * 2;
    RobinHood.ModAddMultiple(r, q * m, 2);
  }

  /** `computeHash`: one round per jug, then the mask. */
  method ComputeHash(jugs: seq<nat>, size: nat) returns (h: nat)
    requires size > 0
    ensures h == Home(HashBits(jugs) as nat, size) && h < size
  {
    var bits := Prime1;
    for i := 0 to |jugs|
      invariant bits == HashBits(jugs[..i])
    {
      assert jugs[..i + 1][..i] == jugs[..i];
      bits := HashRound(bits, Word(jugs[i]));
    }
    assert jugs[..|jugs|] == jugs;
    h := (bits as nat) % size;
  }

  /** `computeStep`: one round per jug, then an odd stride below the size. */
  method ComputeStep(jugs: seq<nat>, size: nat) returns (s: nat)
    requires RobinHood.IsPow2(size) && size >= 2
    ensures s == Stride(StepBits(jugs) as nat, size)
    ensures s % 2 == 1 && s < size
  {
    var bits := Prime2;
    for i := 0 to |jugs|
      invariant bits == StepBits(jugs[..i])
    {
      assert jugs[..i + 1][..i] == jugs[..i];
      bits := StepRound(bits, Word(jugs[i]));
    }
    assert jugs[..|jugs|] == jugs;
    s := Or1(Or1(bits as nat) % size);
    StrideOddAndSmall(bits as nat, size);
  }

  /** Slot `j` of the probe sequence from `start` with stride `step`; each
    * slot is the one before plus the stride, masked. */
  function PathSlot(start: nat, step: nat, j: nat, size: nat): (p: nat)
    requires start < size
    ensures p < size
  {
    if j == 0 then start else (PathSlot(start, step, j - 1, size) + step) % size
  }

  lemma ModPlus(a: nat, b: nat, n: nat)
    requires n > 0
    ensures (a % n + b) % n == (a + b) % n
  {
    var q := a / n;
    assert a == q * n + a % n;
    RobinHood.ModAddMultiple(a % n + b, q, n);
  }

  /** Slot `j` of the probe sequence is `start + j * step`, masked. */
  lemma {:induction false} PathClosed(start: nat, step: nat, j: nat, size: nat)
    requires start < size
    ensures PathSlot(start, step, j, size) == (start + j * step) % size
  {
    if j == 0 {
      RobinHood.ModUnique(start, 0, start, size);
    } else {
      PathClosed(start, step, j - 1, size);
      ModPlus(start + (j - 1) * step, step, size);
      assert start + (j - 1) * step + step == start + j * step;
    }
  }

  /** After `size` probes the sequence is back at its start. */
  lemma PathCycle(start: nat, step: nat, size: nat)
    requires start < size
    ensures PathSlot(start, step, size, size) == start
  {
    PathClosed(start, step, size, size);
    RobinHood.ModUnique(start, 0, start, size);
    RobinHood.ModAddMultiple(start, step, size);
    assert size * step == step * size;
  }

  /** A product with an odd factor has the parity of the other factor. */
  lemma ProductParity(a: nat, b: nat)
    requires b % 2 == 1
    ensures (a * b) % 2 == a % 2
  {
    var q, r := a / 2, a % 2;
    MulSplit(2 * q, r, b);
    assert (2 * q) * b == (q * b) * 2;
    RobinHood.ModAddMultiple(r * b, q * b, 2);
    if r == 1 {
      assert r * b == b;
    } else {
      assert r * b == 0;
    }
  }

  /** A multiple of `2 * m` is even, and its half is a multiple of `m`. */
  lemma HalveMultiple(x: nat, m: nat)
    requires m > 0 && x % (2 * m) == 0
    ensures x % 2 == 0 && (x / 2) % m == 0
  {
    var k := x / (2 * m);
    assert x == k * (2 * m);
    assert x == 2 * (k * m);
    RobinHood.ModUnique(x / 2, k, 0, m);
  }

  /** For an odd `s` and a power-of-two `n`, `d * s` is a multiple of `n`
    * only when `d` is. */
  lemma {:induction false} OddMultiple(d: nat, s: nat, n: nat)
    requires RobinHood.IsPow2(n) && s % 2 == 1 && 0 < d < n
    ensures (d * s) % n != 0
    decreases n
  {
    if n > 1 && (d * s) % n == 0 {
      var m := n / 2;
      HalveMultiple(d * s, m);
      ProductParity(d, s);
      var e := d / 2;
      assert d * s == 2 * (e * s);
      OddMultiple(e, s, m);
    }
  }

  /** With an odd stride and a power-of-two table, the first `size` probes
    * fall on `size` different slots, so the probe loop reaches every slot
    * before it is back at its start. */
  lemma PathDistinct(start: nat, step: nat, size: nat, i: nat, j: nat)
    requires RobinHood.IsPow2(size) && step % 2 == 1 && start < size && i < j < size
    ensures PathSlot(start, step, i, size) != PathSlot(start, step, j, size)
  {
    PathClosed(start, step, i, size);
    PathClosed(start, step, j, size);
    var d: nat := j - i;
    MulSplit(i, d, step);
    NoEarlyReturn(start + i * step, d, step, size);
  }

  lemma MulSplit(i: nat, d: nat, s: nat)
    ensures (i + d) * s == i * s + d * s
  {
  }

  /** Fewer than `size` strides never bring a probe back to its residue. */
  lemma NoEarlyReturn(x: nat, d: nat, step: nat, size: nat)
    requires RobinHood.IsPow2(size) && step % 2 == 1 && 0 < d < size
    ensures x % size != (x + d * step) % size
  {
    if x % size == (x + d * step) % size {
      SameResidue(x, x + d * step, size);
      OddMultiple(d, step, size);
    }
  }

  /** Numbers with the same residue differ by a multiple. */
  lemma SameResidue(a: nat, b: nat, n: nat)
    requires n > 0 && a <= b && a % n == b % n
    ensures (b - a) % n == 0
  {
    var k := b / n - a / n;
    assert a == (a / n) * n + a % n;
    assert b == (b / n) * n + b % n;
    assert b - a == (b / n) * n - (a / n) * n;
    assert b - a == k * n;
    RobinHood.ModUnique(b - a, k, 0, n);
  }

  /** The slots of the first `m` probes. */
  ghost function Visited(start: nat, step: nat, m: nat, size: nat): set<nat>
    requires start < size
  {
    set j | 0 <= j < m :: PathSlot(start, step, j, size)
  }

  lemma {:induction false} VisitedCount(start: nat, step: nat, m: nat, size: nat)
    requires RobinHood.IsPow2(size) && step % 2 == 1 && start < size && m <= size
    ensures |Visited(start, step, m, size)| == m
  {
    if m > 0 {
      VisitedCount(start, step, m - 1, size);
      var last := PathSlot(start, step, m - 1, size);
      forall j | 0 <= j < m - 1
        ensures PathSlot(start, step, j, size) != last
      {
        PathDistinct(start, step, size, j, m - 1);
      }
      assert Visited(start, step, m, size) == Visited(start, step, m - 1, size) + {last};
    }
  }

  /** The slot indices of a table of `n` slots. */
  ghost function Slots(n: nat): set<nat>
  {
    if n == 0 then {} else Slots(n - 1) + {n - 1}
  }

  lemma {:induction false} SlotsCount(n: nat)
    ensures |Slots(n)| == n
    ensures forall p: nat :: p in Slots(n) <==> p < n
  {
    if n > 0 {
      SlotsCount(n - 1);
    }
  }

  /** With an odd stride and a power-of-two table, every slot is among the
    * first `size` probes: the probe loops of `contains`, `insert` and
    * `removeState` reach every slot before they are back at their start. */
  lemma PathCoversTable(start: nat, step: nat, size: nat, p: nat)
    requires RobinHood.IsPow2(size) && step % 2 == 1 && start < size && p < size
    ensures exists j :: 0 <= j < size && PathSlot(start, step, j, size) == p
  {
    var v := Visited(start, step, size, size);
    if p !in v {
      VisitedCount(start, step, size, size);
      SlotsCount(size);
      Sets.SubsetCard(v, Slots(size) - {p});
    }
  }

  /** The states a table points to. */
  ghost function Keys(t: seq<Entry>): set<Key>
  {
    set p | 0 <= p < |t| && t[p].state.Some? :: t[p].state.value
  }

  /** The probe loop of `contains` at probe `j`, slot `pos`: the slot
    * holding `key`, or `None` at an unoccupied slot or when the next slot
    * is the start again. */
  function FindFrom(t: seq<Entry>, key: Key, start: nat, step: nat, pos: nat, j: nat): Option<nat>
    requires pos < |t|
    decreases |t| - j
  {
    if !t[pos].occupied then None
    else if t[pos].state == Some(key) then Some(pos)
    else
      var next := (pos + step) % |t|;
      if next == start || j + 1 >= |t| then None
      else FindFrom(t, key, start, step, next, j + 1)
  }

  /** The answer of `contains` for `key` on the table `t`, whose slots are
    * chosen by the mixed bits `hashBits` and `stepBits`. */
  function Find(t: seq<Entry>, hashBits: Key -> nat, stepBits: Key -> nat, key: Key): Option<nat>
    requires |t| > 0
  {
    var start := Home(hashBits(key), |t|);
    FindFrom(t, key, start, Stride(stepBits(key), |t|), start, 0)
  }

  /** The table invariant: the size is a power of two, only occupied slots
    * point to a state, and `contains` finds every state where it is. */
  ghost predicate TableOk(t: seq<Entry>, hashBits: Key -> nat, stepBits: Key -> nat)
  {
    && 0 < |t| && RobinHood.IsPow2(|t|)
    && forall p :: 0 <= p < |t| && t[p].state.Some? ==>
         t[p].occupied && Find(t, hashBits, stepBits, t[p].state.value) == Some(p)
  }

  lemma {:induction false} FindFromSound(t: seq<Entry>, key: Key, start: nat, step: nat, pos: nat, j: nat)
    requires pos < |t|
    ensures var r := FindFrom(t, key, start, step, pos, j);
            r.Some? ==> r.value < |t| && t[r.value] == Entry(Some(key), true)
    decreases |t| - j
  {
    var next := (pos + step) % |t|;
    if t[pos].occupied && t[pos].state != Some(key) && next != start && j + 1 < |t| {
      FindFromSound(t, key, start, step, next, j + 1);
    }
  }

  /** `contains` answers true exactly for the states in the table. */
  lemma FindIsMembership(t: seq<Entry>, hashBits: Key -> nat, stepBits: Key -> nat, key: Key)
    requires TableOk(t, hashBits, stepBits)
    ensures Find(t, hashBits, stepBits, key).Some? <==> key in Keys(t)
  {
    var start := Home(hashBits(key), |t|);
    FindFromSound(t, key, start, Stride(stepBits(key), |t|), start, 0);
    var r := Find(t, hashBits, stepBits, key);
    if r.Some? {
      assert t[r.value].state.value == key;
    }
    if key in Keys(t) {
      var p :| 0 <= p < |t| && t[p].state == Some(key);
      assert Find(t, hashBits, stepBits, t[p].state.value) == Some(p);
    }
  }

  /** A table holds each state in one slot only. */
  lemma SlotOfState(t: seq<Entry>, hashBits: Key -> nat, stepBits: Key -> nat, key: Key, p: nat, q: nat)
    requires TableOk(t, hashBits, stepBits) && p < |t| && q < |t|
    requires t[p].state == Some(key) && t[q].state == Some(key)
    ensures p == q
  {
    assert Find(t, hashBits, stepBits, t[p].state.value) == Some(p);
    assert Find(t, hashBits, stepBits, t[q].state.value) == Some(q);
  }

  /** What the probe loop of `insert` ends with: the unoccupied slot that
    * takes the state, an equal state on the path, or too many probes (or a
    * full cycle), after which the table doubles and the insertion starts
    * again. */
  datatype InsertStep = Placed(slot: nat) | Duplicate | Exhausted

  /** The probe loop of `insert` at probe `j`, slot `pos`. */
  function InsertFrom(t: seq<Entry>, key: Key, start: nat, step: nat, pos: nat, j: nat): InsertStep
    requires pos < |t|
    decreases |t| - j
  {
    if !t[pos].occupied then Placed(pos)
    else if t[pos].state == Some(key) then Duplicate
    else
      var next := (pos + step) % |t|;
      if j + 1 >= MaxProbes || next == start || j + 1 >= |t| then Exhausted
      else InsertFrom(t, key, start, step, next, j + 1)
  }

  /** The probe loop of `insert` for `key` from its home slot. */
  function InsertProbe(t: seq<Entry>, hashBits: Key -> nat, stepBits: Key -> nat, key: Key): InsertStep
    requires |t| > 0
  {
    var start := Home(hashBits(key), |t|);
    InsertFrom(t, key, start, Stride(stepBits(key), |t|), start, 0)
  }

  /** The table after `insert` has put `key` in slot `q`. */
  function PlaceAt(t: seq<Entry>, q: nat, key: Key): (r: seq<Entry>)
    requires q < |t|
    ensures |r| == |t|
  {
    t[q := Entry(Some(key), true)]
  }

  /** Where the probe loop of `insert` places a state, `contains` would
    * have stopped unsuccessfully, and after the placement it finds it. */
  lemma {:induction false} InsertFromFinds(t: seq<Entry>, key: Key, start: nat, step: nat, pos: nat, j: nat)
    requires pos < |t|
    ensures var r := InsertFrom(t, key, start, step, pos, j);
            && (r.Placed? ==>
                  && r.slot < |t| && !t[r.slot].occupied
                  && FindFrom(t, key, start, step, pos, j) == None
                  && FindFrom(PlaceAt(t, r.slot, key), key, start, step, pos, j) == Some(r.slot))
            && (r.Duplicate? ==> FindFrom(t, key, start, step, pos, j).Some?)
    decreases |t| - j
  {
    var next := (pos + step) % |t|;
    if t[pos].occupied && t[pos].state != Some(key) && !(j + 1 >= MaxProbes || next == start || j + 1 >= |t|) {
      InsertFromFinds(t, key, start, step, next, j + 1);
      var r := InsertFrom(t, key, start, step, pos, j);
      if r.Placed? {
        assert PlaceAt(t, r.slot, key)[pos] == t[pos];
      }
    }
  }

  /** Filling an unoccupied slot does not change what `contains` finds for
    * a state it found before. */
  lemma {:induction false} PlaceKeepsFind(t: seq<Entry>, q: nat, e: Entry, key: Key, start: nat, step: nat, pos: nat, j: nat)
    requires pos < |t| && q < |t| && !t[q].occupied
    requires FindFrom(t, key, start, step, pos, j).Some?
    ensures FindFrom(t[q := e], key, start, step, pos, j) == FindFrom(t, key, start, step, pos, j)
    decreases |t| - j
  {
    assert t[q := e][pos] == t[pos];
    var next := (pos + step) % |t|;
    if t[pos].state != Some(key) {
      PlaceKeepsFind(t, q, e, key, start, step, next, j + 1);
    }
  }

  lemma KeysPlace(t: seq<Entry>, q: nat, key: Key)
    requires q < |t| && t[q].state.None?
    ensures Keys(PlaceAt(t, q, key)) == Keys(t) + {key}
  {
    var u := PlaceAt(t, q, key);
    forall k | k in Keys(u)
      ensures k in Keys(t) + {key}
    {
      var p :| 0 <= p < |u| && u[p].state.Some? && u[p].state.value == k;
      if p != q {
        assert t[p] == u[p];
      }
    }
    forall k | k in Keys(t)
      ensures k in Keys(u)
    {
      var p :| 0 <= p < |t| && t[p].state.Some? && t[p].state.value == k;
      assert u[p] == t[p];
    }
    assert u[q].state.value == key;
  }

  /** `insert` on a well-formed table: a placed state was absent and is now
    * present, and the table stays well formed; a duplicate was present. */
  lemma InsertProbeOutcome(t: seq<Entry>, hashBits: Key -> nat, stepBits: Key -> nat, key: Key)
    requires TableOk(t, hashBits, stepBits)
    ensures var r := InsertProbe(t, hashBits, stepBits, key);
            && (r.Placed? ==>
                  && r.slot < |t| && key !in Keys(t)
                  && TableOk(PlaceAt(t, r.slot, key), hashBits, stepBits)
                  && Keys(PlaceAt(t, r.slot, key)) == Keys(t) + {key})
            && (r.Duplicate? ==> key in Keys(t))
  {
    var size := |t|;
    var start := Home(hashBits(key), size);
    var step := Stride(stepBits(key), size);
    var r := InsertProbe(t, hashBits, stepBits, key);
    InsertFromFinds(t, key, start, step, start, 0);
    FindIsMembership(t, hashBits, stepBits, key);
    if r.Placed? {
      var q := r.slot;
      var u := PlaceAt(t, q, key);
      KeysPlace(t, q, key);
      forall p | 0 <= p < |u| && u[p].state.Some?
        ensures u[p].occupied && Find(u, hashBits, stepBits, u[p].state.value) == Some(p)
      {
        if p != q {
          var k := t[p].state.value;
          assert u[p] == t[p];
          var s := Home(hashBits(k), size);
          PlaceKeepsFind(t, q, Entry(Some(key), true), k, s, Stride(stepBits(k), size), s, 0);
        }
      }
    }
  }

  /** The probe loop of `removeState` at probe `j`, slot `pos`: the slot
    * that holds `key`, or `None` when the next slot is the start again.
    * Unlike `contains` it does not stop at an unoccupied slot. */
  function RemoveFrom(t: seq<Entry>, key: Key, start: nat, step: nat, pos: nat, j: nat): Option<nat>
    requires pos < |t|
    decreases |t| - j
  {
    if t[pos].occupied && t[pos].state == Some(key) then Some(pos)
    else
      var next := (pos + step) % |t|;
      if next == start || j + 1 >= |t| then None
      else RemoveFrom(t, key, start, step, next, j + 1)
  }

  /** The slot `removeState` clears for `key`. */
  function RemoveProbe(t: seq<Entry>, hashBits: Key -> nat, stepBits: Key -> nat, key: Key): Option<nat>
    requires |t| > 0
  {
    var start := Home(hashBits(key), |t|);
    RemoveFrom(t, key, start, Stride(stepBits(key), |t|), start, 0)
  }

  /** Where `contains` finds a state, the probe loop of `removeState` finds
    * it too; and what that loop finds holds the state. */
  lemma {:induction false} RemoveFromFinds(t: seq<Entry>, key: Key, start: nat, step: nat, pos: nat, j: nat)
    requires pos < |t|
    ensures var r := RemoveFrom(t, key, start, step, pos, j);
            && (r.Some? ==> r.value < |t| && t[r.value] == Entry(Some(key), true))
            && (FindFrom(t, key, start, step, pos, j).Some? ==> r == FindFrom(t, key, start, step, pos, j))
    decreases |t| - j
  {
    var next := (pos + step) % |t|;
    if !(t[pos].occupied && t[pos].state == Some(key)) && next != start && j + 1 < |t| {
      RemoveFromFinds(t, key, start, step, next, j + 1);
    }
  }

  /** `removeState` as evidently intended: the slot keeps its `occupied`
    * flag and loses its state, so probes for other states still pass it. */
  function RemoveWithTombstone(t: seq<Entry>, hashBits: Key -> nat, stepBits: Key -> nat, key: Key): (r: seq<Entry>)
    requires |t| > 0
    ensures |r| == |t|
  {
    match RemoveProbe(t, hashBits, stepBits, key)
    case None => t
    case Some(q) => if q < |t| then t[q := Tombstone] else t
  }

  /** `removeState` as written: the slot is freed outright. */
  function RemoveAsWritten(t: seq<Entry>, hashBits: Key -> nat, stepBits: Key -> nat, key: Key): (r: seq<Entry>)
    requires |t| > 0
    ensures |r| == |t|
  {
    match RemoveProbe(t, hashBits, stepBits, key)
    case None => t
    case Some(q) => if q < |t| then t[q := EmptyEntry] else t
  }

  /** A tombstone in place of `a` does not change what `contains` finds for
    * another state. */
  lemma {:induction false} TombstoneKeepsFind(t: seq<Entry>, q: nat, a: Key, key: Key, start: nat, step: nat, pos: nat, j: nat)
    requires pos < |t| && q < |t| && t[q] == Entry(Some(a), true) && a != key
    ensures FindFrom(t[q := Tombstone], key, start, step, pos, j) == FindFrom(t, key, start, step, pos, j)
    decreases |t| - j
  {
    var next := (pos + step) % |t|;
    if t[pos].occupied && t[pos].state != Some(key) && next != start && j + 1 < |t| {
      TombstoneKeepsFind(t, q, a, key, start, step, next, j + 1);
    }
  }

  lemma KeysClear(t: seq<Entry>, q: nat, e: Entry, key: Key)
    requires q < |t| && t[q].state == Some(key) && e.state.None?
    requires forall p :: 0 <= p < |t| && t[p].state == Some(key) ==> p == q
    ensures Keys(t[q := e]) == Keys(t) - {key}
  {
    var u := t[q := e];
    forall k | k in Keys(u)
      ensures k in Keys(t) - {key}
    {
      var p :| 0 <= p < |u| && u[p].state.Some? && u[p].state.value == k;
      assert p != q && u[p] == t[p];
    }
    forall k | k in Keys(t) - {key}
      ensures k in Keys(u)
    {
      var p :| 0 <= p < |t| && t[p].state.Some? && t[p].state.value == k;
      assert p != q && u[p] == t[p];
    }
  }

  /** Removal with a tombstone removes exactly `key` and keeps the table
    * well formed. */
  lemma TombstoneRemoval(t: seq<Entry>, hashBits: Key -> nat, stepBits: Key -> nat, key: Key)
    requires TableOk(t, hashBits, stepBits)
    ensures var u := RemoveWithTombstone(t, hashBits, stepBits, key);
            TableOk(u, hashBits, stepBits) && Keys(u) == Keys(t) - {key}
  {
    var size := |t|;
    var start := Home(hashBits(key), size);
    RemoveFromFinds(t, key, start, Stride(stepBits(key), size), start, 0);
    FindIsMembership(t, hashBits, stepBits, key);
    match RemoveProbe(t, hashBits, stepBits, key)
    case None =>
    case Some(q) =>
      var u := t[q := Tombstone];
      forall p | 0 <= p < size && t[p].state == Some(key)
        ensures p == q
      {
        SlotOfState(t, hashBits, stepBits, key, p, q);
      }
      KeysClear(t, q, Tombstone, key);
      forall p | 0 <= p < |u| && u[p].state.Some?
        ensures u[p].occupied && Find(u, hashBits, stepBits, u[p].state.value) == Some(p)
      {
        var k := t[p].state.value;
        assert p != q && u[p] == t[p];
        var s := Home(hashBits(k), size);
        TombstoneKeepsFind(t, q, key, k, s, Stride(stepBits(k), size), s, 0);
      }
  }

  /** One probe of `contains`, `insert` or `removeState` at probe `j`:
    * the next slot is the next one of the path, and it is the start again
    * only after `size` probes. */
  lemma PathStep(start: nat, step: nat, size: nat, pos: nat, j: nat)
    requires start < size && j < size && pos == PathSlot(start, step, j, size)
    ensures (pos + step) % size == PathSlot(start, step, j + 1, size)
    ensures (pos + step) % size != start ==> j + 1 < size
  {
    PathCycle(start, step, size);
  }

  /** One probe of `contains`. */
  lemma FindStep(t: seq<Entry>, key: Key, start: nat, step: nat, pos: nat, j: nat)
    requires start < |t| && j < |t| && pos == PathSlot(start, step, j, |t|)
    ensures var next := (pos + step) % |t|;
            var r := FindFrom(t, key, start, step, pos, j);
            && next == PathSlot(start, step, j + 1, |t|)
            && (!t[pos].occupied ==> r == None)
            && (t[pos].occupied && t[pos].state == Some(key) ==> r == Some(pos))
            && (t[pos].occupied && t[pos].state != Some(key) && next == start ==> r == None)
            && (t[pos].occupied && t[pos].state != Some(key) && next != start ==>
                  j + 1 < |t| && r == FindFrom(t, key, start, step, next, j + 1))
  {
    PathStep(start, step, |t|, pos, j);
  }

  /** One probe of `insert`. */
  lemma InsertProbeStep(t: seq<Entry>, key: Key, start: nat, step: nat, pos: nat, j: nat)
    requires start < |t| && j < |t| && pos == PathSlot(start, step, j, |t|)
    ensures var next := (pos + step) % |t|;
            var r := InsertFrom(t, key, start, step, pos, j);
            && next == PathSlot(start, step, j + 1, |t|)
            && (!t[pos].occupied ==> r == Placed(pos))
            && (t[pos].occupied && t[pos].state == Some(key) ==> r == Duplicate)
            && (t[pos].occupied && t[pos].state != Some(key) && (j + 1 >= MaxProbes || next == start) ==> r == Exhausted)
            && (t[pos].occupied && t[pos].state != Some(key) && !(j + 1 >= MaxProbes || next == start) ==>
                  j + 1 < |t| && r == InsertFrom(t, key, start, step, next, j + 1))
  {
    PathStep(start, step, |t|, pos, j);
  }

  /** One probe of `removeState`. */
  lemma RemoveStep(t: seq<Entry>, key: Key, start: nat, step: nat, pos: nat, j: nat)
    requires start < |t| && j < |t| && pos == PathSlot(start, step, j, |t|)
    ensures var next := (pos + step) % |t|;
            var r := RemoveFrom(t, key, start, step, pos, j);
            && next == PathSlot(start, step, j + 1, |t|)
            && (t[pos].occupied && t[pos].state == Some(key) ==> r == Some(pos))
            && (!(t[pos].occupied && t[pos].state == Some(key)) && next == start ==> r == None)
            && (!(t[pos].occupied && t[pos].state == Some(key)) && next != start ==>
                  j + 1 < |t| && r == RemoveFrom(t, key, start, step, next, j + 1))
  {
    PathStep(start, step, |t|, pos, j);
  }

  /** A table with no states is well formed and holds nothing. */
  lemma NoStatesOk(t: seq<Entry>, hashBits: Key -> nat, stepBits: Key -> nat)
    requires 0 < |t| && RobinHood.IsPow2(|t|)
    requires forall p :: 0 <= p < |t| ==> t[p].state.None?
    ensures TableOk(t, hashBits, stepBits) && Keys(t) == {}
  {
  }

  /** The small jug levels the colliding states below are made of. */
  lemma SmallWords()
    ensures Word(1) == 1 && Word(2) == 2 && Word(4) == 4 && Word(5) == 5 && Word(8) == 8
  {
    assert Word(0) == 0;
    assert Word(1) == 1;
    assert Word(2) == 2;
    assert Word(4) == 4;
    assert Word(5) == 5;
  }

  /** The states with jug levels 1, 2, 5 and 2, 8, 4 share their home slot
    * 225722 in a table of `INITIAL_SIZE` slots; the second has stride
    * 17365. */
  lemma CollidingStates()
    ensures Home(HashOf([1, 2, 5]), InitialSize) == 225722
    ensures Home(HashOf([2, 8, 4]), InitialSize) == 225722
    ensures Stride(StepOf([2, 8, 4]), InitialSize) == 17365
  {
    SmallWords();
    assert [1, 2, 5][..2] == [1, 2] && [1, 2][..1] == [1] && [1][..0] == [];
    assert [2, 8, 4][..2] == [2, 8] && [2, 8][..1] == [2] && [2][..0] == [];
    assert HashBits([1, 2, 5]) == HashRound(HashRound(HashRound(Prime1, 1), 2), 5) == 0xf9fb_71ba;
    assert HashBits([2, 8, 4]) == HashRound(HashRound(HashRound(Prime1, 2), 8), 4) == 0x13e3_71ba;
    assert StepBits([2, 8, 4]) == StepRound(StepRound(StepRound(Prime2, 2), 8), 4) == 0x3588_43d4;
  }

  /** A new table after inserting the state 1, 2, 5. */
  function OneStateTable(): (t: seq<Entry>)
    ensures |t| == InitialSize
  {
    PlaceAt(seq(InitialSize, _ => EmptyEntry), 225722, [1, 2, 5])
  }

  /** A new table after inserting the states 1, 2, 5 and 2, 8, 4. */
  function TwoStateTable(): (t: seq<Entry>)
    ensures |t| == InitialSize
  {
    PlaceAt(OneStateTable(), 243087, [2, 8, 4])
  }

  /** The state 1, 2, 5 lands in its home slot of a new table. */
  lemma FirstInsertion()
    ensures InsertProbe(seq(InitialSize, _ => EmptyEntry), HashOf, StepOf, [1, 2, 5]) == Placed(225722)
    ensures TableOk(OneStateTable(), HashOf, StepOf)
  {
    var a: Key := [1, 2, 5];
    CollidingStates();
    RobinHood.InitialSizeIsPow2();
    var t0 := seq(InitialSize, _ => EmptyEntry);
    NoStatesOk(t0, HashOf, StepOf);
    assert InsertProbe(t0, HashOf, StepOf, a) == InsertFrom(t0, a, 225722, Stride(StepOf(a), InitialSize), 225722, 0);
    assert t0[225722] == EmptyEntry;
    InsertProbeOutcome(t0, HashOf, StepOf, a);
  }

  /** The state 2, 8, 4, whose home slot 1, 2, 5 holds, lands one stride
    * further on. */
  lemma SecondInsertion()
    ensures InsertProbe(OneStateTable(), HashOf, StepOf, [2, 8, 4]) == Placed(243087)
    ensures TableOk(TwoStateTable(), HashOf, StepOf)
  {
    var b: Key := [2, 8, 4];
    CollidingStates();
    FirstInsertion();
    var t1 := OneStateTable();
    assert InsertProbe(t1, HashOf, StepOf, b) == InsertFrom(t1, b, 225722, 17365, 225722, 0)
        == InsertFrom(t1, b, 225722, 17365, 243087, 1);
    assert t1[243087] == EmptyEntry;
    InsertProbeOutcome(t1, HashOf, StepOf, b);
  }

  /** After those two insertions, `removeState` as written of 1, 2, 5 leaves
    * 2, 8, 4 in the table where `contains` no longer finds it, so the table
    * invariant is broken. */
  lemma RemoveAsWrittenHidesState()
    ensures var written := RemoveAsWritten(TwoStateTable(), HashOf, StepOf, [1, 2, 5]);
            && [2, 8, 4] in Keys(written)
            && Find(written, HashOf, StepOf, [2, 8, 4]) == None
            && !TableOk(written, HashOf, StepOf)
  {
    var a: Key := [1, 2, 5];
    var b: Key := [2, 8, 4];
    CollidingStates();
    var t2 := TwoStateTable();
    assert t2[225722] == Entry(Some(a), true) && t2[243087] == Entry(Some(b), true);
    assert RemoveProbe(t2, HashOf, StepOf, a) == Some(225722);
    var written := RemoveAsWritten(t2, HashOf, StepOf, a);
    assert written == t2[225722 := EmptyEntry];
    assert written[243087].state == Some(b);
    assert b in Keys(written);
    assert Find(written, HashOf, StepOf, b) == FindFrom(written, b, 225722, 17365, 225722, 0);
  }

  /** With a tombstone in its place, `contains` still finds 2, 8, 4. */
  lemma TombstoneKeepsStateFound()
    ensures Find(RemoveWithTombstone(TwoStateTable(), HashOf, StepOf, [1, 2, 5]), HashOf, StepOf, [2, 8, 4]) == Some(243087)
  {
    var a: Key := [1, 2, 5];
    var b: Key := [2, 8, 4];
    CollidingStates();
    var t2 := TwoStateTable();
    assert t2[225722] == Entry(Some(a), true) && t2[243087] == Entry(Some(b), true);
    assert RemoveProbe(t2, HashOf, StepOf, a) == Some(225722);
    var tomb := RemoveWithTombstone(t2, HashOf, StepOf, a);
    assert tomb == t2[225722 := Tombstone];
    assert Find(tomb, HashOf, StepOf, b) == FindFrom(tomb, b, 225722, 17365, 225722, 0)
        == FindFrom(tomb, b, 225722, 17365, 243087, 1);
  }

  /** The closed list: `table_size` slots (a power of two) and the count
    * `num_elements`. */
  class DoubleHashTable {
    var table: array<Entry>
    var numElements: nat
    /** The mixed bits of `computeHash` and `computeStep`, fixed when the
      * table is built. */
    const hashBits: Key -> nat
    const stepBits: Key -> nat

    ghost predicate Valid()
      reads this, table
    {
      TableOk(table[..], hashBits, stepBits)
    }

    /** The states in the table. */
    ghost function Contents(): set<Key>
      reads this, table
    {
      Keys(table[..])
    }

    constructor ()
      ensures Valid() && Contents() == {} && numElements == 0 && fresh(table)
      ensures table.Length == InitialSize && hashBits == HashOf && stepBits == StepOf
      ensures forall i :: 0 <= i < table.Length ==> table[i] == EmptyEntry
    {
      hashBits := HashOf;
      stepBits := StepOf;
      table := new Entry[InitialSize](_ => EmptyEntry);
      numElements := 0;
      new;
      RobinHood.InitialSizeIsPow2();
      NoStatesOk(table[..], hashBits, stepBits);
    }

    /** `(num_elements << 7) >= (table_size * BALANCE_FACTOR)`, both sides
      * computed as `unsigned int`. */
    predicate ShouldGrow()
      reads this
    {
      (numElements * 128) % 0x1_0000_0000 >= (table.Length * BalanceFactor) % 0x1_0000_0000
    }

    /** `contains`: probe from the home slot by the stride until an
      * unoccupied slot, the state, or the start slot again. */
    method Contains(key: Key) returns (found: bool)
      requires Valid()
      ensures found <==> key in Contents()
    {
      var size := table.Length;
      var start := Home(hashBits(key), size);
      var step := Stride(stepBits(key), size);
      var pos := start;
      ghost var j: nat := 0;
      ghost var t := table[..];
      ghost var result := Find(t, hashBits, stepBits, key);
      FindIsMembership(t, hashBits, stepBits, key);
      while true
        invariant j < size && pos == PathSlot(start, step, j, size)
        invariant FindFrom(t, key, start, step, pos, j) == result
        decreases size - j
      {
        FindStep(t, key, start, step, pos, j);
        var slot := table[pos];
        if !slot.occupied {
          return false;
        }
        if slot.state == Some(key) {
          return true;
        }
        pos := (pos + step) % size;
        if pos == start {
          return false;
        }
        j := j + 1;
      }
    }

    /** The probe loop of `insert`: the first unoccupied slot on the path,
      * an equal state, or `MAX_PROBES` occupied slots passed. */
    method Probe(key: Key) returns (outcome: InsertStep)
      requires 0 < table.Length
      ensures outcome == InsertProbe(table[..], hashBits, stepBits, key)
    {
      var size := table.Length;
      var start := Home(hashBits(key), size);
      var step := Stride(stepBits(key), size);
      var pos := start;
      var probes: nat := 0;
      ghost var t := table[..];
      ghost var result := InsertProbe(t, hashBits, stepBits, key);
      while true
        invariant probes < size && pos == PathSlot(start, step, probes, size)
        invariant InsertFrom(t, key, start, step, pos, probes) == result
        decreases size - probes
      {
        InsertProbeStep(t, key, start, step, pos, probes);
        var slot := table[pos];
        if !slot.occupied {
          return Placed(pos);
        }
        if slot.state == Some(key) {
          return Duplicate;
        }
        pos := (pos + step) % size;
        probes := probes + 1;
        if probes >= MaxProbes || pos == start {
          return Exhausted;
        }
      }
    }

    /** `insert`: double a table that is full enough, then probe; place the
      * state in the first unoccupied slot, or stop at an equal state; after
      * `MAX_PROBES` occupied slots double the table and insert again. A
      * table of `MaxSize` slots is not doubled (its size would wrap to
      * zero), and a state that finds no slot in it is dropped. */
    method Insert(key: Key) returns (inserted: bool)
      requires Valid()
      modifies this, table
      ensures Valid()
      ensures table == old(table) || fresh(table)
      ensures old(table.Length) <= table.Length
      ensures table.Length * 2 <= MaxSize ==>
                Contents() == old(Contents()) + {key} && (inserted <==> key !in old(Contents()))
      ensures Contents() <= old(Contents()) + {key}
      decreases MaxSize - table.Length, 1
    {
      if ShouldGrow() && table.Length * 2 <= MaxSize {
        Resize();
      }
      var outcome := Place(key);
      if outcome.Exhausted? && table.Length * 2 <= MaxSize {
        Resize();
        inserted := Insert(key);
      } else {
        inserted := outcome.Placed?;
      }
    }

    /** The probe loop of `insert` and the placement it ends with. */
    method Place(key: Key) returns (outcome: InsertStep)
      requires Valid()
      modifies this, table
      ensures Valid() && table == old(table)
      ensures outcome.Placed? ==>
                && key !in old(Contents()) && Contents() == old(Contents()) + {key}
                && numElements == old(numElements) + 1
      ensures !outcome.Placed? ==> Contents() == old(Contents()) && numElements == old(numElements)
      ensures outcome.Duplicate? ==> key in old(Contents())
    {
      ghost var t := table[..];
      InsertProbeOutcome(t, hashBits, stepBits, key);
      outcome := Probe(key);
      if outcome.Placed? {
        table[outcome.slot] := Entry(Some(key), true);
        assert table[..] == PlaceAt(t, outcome.slot, key);
        numElements := numElements + 1;
      }
    }

    /** `resize`: a table of twice the size, refilled by inserting every
      * slot that points to a state. */
    method Resize()
      requires Valid() && table.Length * 2 <= MaxSize
      modifies this
      ensures Valid() && fresh(table)
      ensures 2 * old(table.Length) <= table.Length
      ensures Contents() <= old(Contents())
      ensures table.Length * 2 <= MaxSize ==> Contents() == old(Contents())
      decreases MaxSize - table.Length, 0
    {
      var oldTable := table;
      RobinHood.DoubleIsPow2(oldTable.Length);
      table := new Entry[2 * oldTable.Length](_ => EmptyEntry);
      numElements := 0;
      NoStatesOk(table[..], hashBits, stepBits);
      assert oldTable[..0] == [];
      for i := 0 to oldTable.Length
        invariant Valid() && fresh(table)
        invariant 2 * oldTable.Length <= table.Length
        invariant Contents() <= Keys(oldTable[..i])
        invariant table.Length * 2 <= MaxSize ==> Contents() == Keys(oldTable[..i])
      {
        KeysPrefix(oldTable[..], i);
        assert oldTable[..][..i] == oldTable[..i] && oldTable[..][..i + 1] == oldTable[..i + 1];
        if oldTable[i].occupied && oldTable[i].state.Some? {
          var _ := Insert(oldTable[i].state.value);
        }
      }
      assert oldTable[..oldTable.Length] == oldTable[..];
    }

    /** `removeState`, corrected: probe as `contains` does, without
      * stopping at unoccupied slots, and turn the slot holding the state
      * into a tombstone. `num_elements` is left as it is. */
    method RemoveState(key: Key)
      requires Valid()
      modifies table
      ensures table[..] == RemoveWithTombstone(old(table[..]), hashBits, stepBits, key)
      ensures Valid() && Contents() == old(Contents()) - {key}
    {
      var size := table.Length;
      var start := Home(hashBits(key), size);
      var step := Stride(stepBits(key), size);
      var pos := start;
      ghost var j: nat := 0;
      ghost var t := table[..];
      ghost var result := RemoveProbe(t, hashBits, stepBits, key);
      TombstoneRemoval(t, hashBits, stepBits, key);
      while true
        invariant table[..] == t
        invariant j < size && pos == PathSlot(start, step, j, size)
        invariant RemoveFrom(t, key, start, step, pos, j) == result
        decreases size - j
      {
        RemoveStep(t, key, start, step, pos, j);
        var slot := table[pos];
        if slot.occupied && slot.state == Some(key) {
          table[pos] := Tombstone;
          return;
        }
        pos := (pos + step) % size;
        if pos == start {
          return;
        }
        j := j + 1;
      }
    }

    /** `cleanup`: every slot that points to a state is emptied (the states
      * themselves are deleted); `num_elements` is left as it is. */
    method Cleanup()
      requires Valid()
      modifies table
      ensures Valid() && Contents() == {}
      ensures forall i :: 0 <= i < table.Length ==>
                table[i] == (if old(table[i].occupied && table[i].state.Some?) then EmptyEntry else old(table[i]))
    {
      for i := 0 to table.Length
        invariant forall k :: 0 <= k < i ==>
                    table[k] == (if old(table[k].occupied && table[k].state.Some?) then EmptyEntry else old(table[k]))
        invariant forall k :: i <= k < table.Length ==> table[k] == old(table[k])
      {
        if table[i].occupied && table[i].state.Some? {
          table[i] := EmptyEntry;
        }
      }
      NoStatesOk(table[..], hashBits, stepBits);
    }
  }

  /** The states of a prefix grow by the state of the next slot. */
  lemma KeysPrefix(t: seq<Entry>, i: nat)
    requires i < |t|
    ensures Keys(t[..i + 1]) == Keys(t[..i]) + (if t[i].state.Some? then {t[i].state.value} else {})
  {
    var u := t[..i + 1];
    forall k | k in Keys(u)
      ensures k in Keys(t[..i]) + (if t[i].state.Some? then {t[i].state.value} else {})
    {
      var p :| 0 <= p < |u| && u[p].state.Some? && u[p].state.value == k;
      if p < i {
        assert t[..i][p] == u[p];
      }
    }
    forall k | k in Keys(t[..i])
      ensures k in Keys(u)
    {
      var p :| 0 <= p < i && t[..i][p].state.Some? && t[..i][p].state.value == k;
      assert u[p] == t[..i][p];
    }
    if t[i].state.Some? {
      assert u[i] == t[i];
    }
  }
}
