# Water jugs and graph colouring, modelled in Dafny

This project models the core of a two-part course repository written in C++ with two Python helper scripts.

**Water-jug puzzle (lab1).** A state holds the levels of a row of jugs. Its successors are every transfer, fill and empty move. The search pops states lightest first from a pairing heap (the open list). It skips states whose levels are already in the closed list, which is a Robin Hood hash table; a second, double-hashing table exists beside it. The search ends on the target, or else on the best state it opened. The path is rebuilt along the parent chain. A small counter class records which of two heuristic weights was chosen. Parsing of the capacities line and the target line is part of the model.

**Graph colouring (lab2, lab3).** There are three adjacency-set graphs: a directed one, one that skips self-loops, and an older one with a degree index. There are two colouring states. One recounts conflicts globally; the other keeps an incremental count on assign and unassign. The bounds are:
- a first-fit upper bound and a greedy-clique lower bound;
- a DSatur upper bound and a maximal-clique lower bound.

The rest of the colouring core:
- colour-dependency shrinking and expansion;
- a danger heuristic's initial colouring and its selection rules;
- backtracking branch and bound that tightens k between the bounds.

**Scripts.** `runner.py` runs the solver on every `.txt` input. The model covers its sequential parts: the stdin script, the result records, the report block, the sentinel-terminated writer loop and the success count. `renamer.py` turns the `e u v` lines of a DIMACS `.col` file into `u v` lines and derives the output name.

Each core file is modelled in its own form. Classes whose methods update fields in place become Dafny classes with `modifies` clauses: the jug state, both hash tables, the heap, the searcher, the graphs, the colouring states, bounds, dependency and branch and bound. Computations become functions, with lemmas about them. Loops become methods proved against specification functions. Reading a file is a parameter: the lines of the file, or `None` when it cannot be opened.

Some behaviour is taken from the code rather than from its design notes:
- With no input file, `runner.py` does not stop. It starts the writer and an empty pool (lab2/runner.py:134-165), so the model allows zero files.
- The report labels are the Spanish ones the code writes.
- Two tables give the lab1 stagnation threshold: `lab1/include/Search.h` says 300 and `lab1/src/Search.cpp` says 500. The model uses 500.
- The lab3 headers, `lab3` `Bounds.cpp` and `DangerHeuristic.cpp` are not part of this model. The branch and bound uses the lab2/codigo bounds and danger heuristic, whose interface matches the calls in lab3/codigo/src/BranchAndBound.cpp. `isComplete`/`isLegal` are read as in lab2/include/ColoringState.h:64-65.

## Model

| member | source | states |
|---|---|---|
| JugState.Pour | lab1/src/State.cpp:139-148 | a pour from jug i into jug j leaves i empty or j full, overflows no jug, moves water only from i to j and leaves every other jug alone |
| JugState.PourConservesWater | lab1/src/State.cpp:142-148 | a pour keeps the total amount of water |
| JugState.MovesOfSpec | lab1/src/State.cpp:135-173 | the moves emitted for jug i are exactly its possible pours, its filling and its emptying |
| JugState.MovesAreTheRules | lab1/src/State.cpp:134-174 | a state is in the successor list if and only if it is one pour, fill or empty away |
| JugState.MoveIsProper | lab1/src/State.cpp:139-173 | every move keeps the levels within the capacities and yields a different state |
| JugState.MovesFitTheBuffer | lab1/src/State.cpp:128-129 | the number of successors never exceeds the `size * ((size - 1) + 2)` slots allocated |
| JugState.ReadValuesRun | lab1/src/State.cpp:229-234 | reading values in a loop, one extraction after another, gives the same values as reading them recursively |
| JugState.ReadValuesFail | lab1/src/State.cpp:229-233 | once an extraction fails, every longer read of the line fails too |
| JugState.ReadValuesUnsigned | lab1/src/State.cpp:230 | values extracted into an `unsigned int` are at most 2^32 - 1 |
| JugState.CapacityLine | lab1/src/State.cpp:227-241 | an accepted capacities line yields one capacity per jug, each between 1 and 2^32 - 1 |
| JugState.TargetLine | lab1/src/State.cpp:256-276 | an accepted targets line yields one level per jug, none above its jug's capacity |
| JugState.TargetLineFails | lab1/src/State.cpp:258-268 | a targets line is rejected as soon as an extraction fails or a value exceeds its jug's capacity |
| JugState.TargetLineHolds | lab1/src/State.cpp:256-270 | a targets line read in full with every value within capacity is accepted with exactly those values |
| JugState.ParseJugFile | lab1/src/State.cpp:208-278 | an accepted file has at least two lines and gives a valid puzzle whose jug count is one more than the spaces on the first line |
| JugState.FormatSpaces | lab1/src/State.cpp:213-218 | a line of n numbers separated by single spaces counts as n jugs |
| JugState.CapacityLineFormat | lab1/src/State.cpp:226-241 | a capacities line written with single spaces parses back to the same capacities |
| JugState.TargetLineFormat | lab1/src/State.cpp:256-276 | a targets line written with single spaces parses back to the same targets |
| JugState.ParseFormatted | lab1/src/State.cpp:194-279 | a valid puzzle written as two lines is read back unchanged, whatever lines follow |
| JugState.State.Empty | lab1/src/State.cpp:5-12 | the empty state has no jugs, depth and weight 0, no parent and no heuristic computed |
| JugState.State.constructor | lab1/src/State.cpp:15-24 | a new state holds a copy of the given levels, depth, weight and parent, with no heuristic computed |
| JugState.State.Equals | lab1/src/State.cpp:28-31 | two states are equal if and only if their first `size` levels agree |
| JugState.State.Emit | lab1/src/State.cpp:150-151 | a new successor with the given levels goes into the next slot and the earlier slots are unchanged |
| JugState.State.EmitWithJug | lab1/src/State.cpp:159-173 | filling or emptying jug i emits the levels with jug i changed, then restores the scratch levels |
| JugState.State.TryPour | lab1/src/State.cpp:139-156 | a pour is emitted exactly when jug i is not empty and jug j is not full, and the scratch levels are restored |
| JugState.State.EmitPours | lab1/src/State.cpp:138-157 | the inner loop emits every possible pour out of jug i, in the order of j |
| JugState.State.EmitMovesOf | lab1/src/State.cpp:135-173 | one round of the outer loop emits the pours out of jug i, then the fill, then the empty |
| JugState.State.GenerateSuccessors | lab1/src/State.cpp:126-178 | the buffer has `size * (size + 1)` slots and its first `numSuccessors` entries are fresh states, one per legal move in the source's order |
| JugState.State.ReadCapacities | lab1/src/State.cpp:227-241 | the capacities loop succeeds if and only if every extraction succeeds and none is zero, and then yields the capacities line's values |
| JugState.State.ReadTargets | lab1/src/State.cpp:243-276 | the targets loop succeeds exactly when the targets line is accepted, and then yields its values |
| JugState.State.ReadStatesFromFile | lab1/src/State.cpp:194-279 | succeeds if and only if both states are given, the file opens and its contents parse; the states then hold the capacities and the targets read |
| PairingHeaps.RootIsMinimum | lab1/src/Heap.cpp:46-49 | the root of a heap weighs no more than any state in it, so `peek` and `pop` return a lightest state |
| PairingHeaps.Merge | lab1/src/Heap.cpp:65-85 | merging keeps every state of both heaps, is empty only when both are, and roots the result at the root with higher priority (strictly smaller weight, else the second) |
| PairingHeaps.MergeIsHeap | lab1/src/Heap.cpp:65-85 | merging two heaps gives a heap |
| PairingHeaps.MergeTieGoesToSecond | lab1/Codigo/src/Heap.cpp:19-21 | on equal weights the second root wins and the first becomes its leftmost child |
| PairingHeaps.MergePairs | lab1/src/Heap.cpp:88-115 | merging a sibling list in pairs keeps every state and is empty only when the list is |
| PairingHeaps.MergePairsIsHeap | lab1/src/Heap.cpp:88-115 | merging a heap-ordered sibling list in pairs gives a heap |
| PairingHeaps.PushTree | lab1/src/Heap.cpp:10-20 | a push adds exactly the state with its weight |
| PairingHeaps.PopTree | lab1/src/Heap.cpp:28-38 | a pop removes exactly the root's state with its weight |
| PairingHeaps.PushIsHeap | lab1/src/Heap.cpp:10-20 | a push keeps a heap a heap, and the new root is the lighter of the old root and the pushed state |
| PairingHeaps.PopIsHeap | lab1/src/Heap.cpp:22-44 | a pop keeps a heap a heap, and nothing left is lighter than the state popped |
| PairingHeaps.PopsInWeightOrder | lab1/src/Heap.cpp:10-44 | states pushed with weights 10, 5 and 15 come out as 5, 10, 15, and the heap is then empty |
| PairingHeaps.PairingHeap.constructor | lab1/src/Heap.cpp:3 | a new heap is empty with count 0 |
| PairingHeaps.PairingHeap.Push | lab1/src/Heap.cpp:10-20 | the heap stays valid, gains exactly the pushed state and counts one more |
| PairingHeaps.PairingHeap.Pop | lab1/src/Heap.cpp:22-44 | an empty heap gives null and is unchanged; otherwise the result is the old root, a lightest state, which is removed and the count drops by one |
| PairingHeaps.PairingHeap.Peek | lab1/src/Heap.cpp:46-49 | null exactly when the heap is empty, else the root's state |
| PairingHeaps.PairingHeap.EmptyIffNoStates | lab1/src/Heap.cpp:59-62 | in a valid heap the root is null exactly when the count is zero |
| PairingHeaps.PairingHeap.Clear | lab1/src/Heap.cpp:51-57 | after clearing, the heap is empty with count 0 |
| RobinHood.InitialSizeIsPow2 | lab1/src/HashTable.cpp:9-11 | the initial capacity `1 << 18` is a power of two, so masking with `capacity - 1` is taking the remainder |
| RobinHood.DoubleIsPow2 | lab1/src/HashTable.cpp:177 | doubling a power-of-two capacity gives a power of two |
| RobinHood.Slot | lab1/src/HashTable.cpp:24 | the slot reached by masking with `capacity - 1` is always inside the table |
| RobinHood.ChainBack | lab1/src/HashTable.cpp:42-52 | walking back from a displaced state towards its home slot meets only occupied slots whose states are displaced at least as far as the walk still has to go |
| RobinHood.AbsentAtGap | lab1/src/HashTable.cpp:71-81 | a search that reaches an empty slot, or a state displaced less than the search has probed, proves the state absent |
| RobinHood.AbsentBeyond | lab1/src/HashTable.cpp:58 | no stored state is displaced 32 slots or more, so a search that far proves the state absent |
| RobinHood.ProbeStep | lab1/src/HashTable.cpp:70-88 | what one probe of `contains` at probe length d tells about the state, and that the search may go on to the next slot |
| RobinHood.PlaceKeeps | lab1/src/HashTable.cpp:28-33 | placing the carried state in an empty slot keeps the table well formed and adds exactly that state |
| RobinHood.SwapKeeps | lab1/src/HashTable.cpp:42-52 | taking the slot of a resident displaced less keeps the table well formed, and the resident is carried on from that slot with its own probe length |
| RobinHood.AdvanceKeeps | lab1/src/HashTable.cpp:54-55 | passing a resident displaced at least as far keeps the insertion on its probe sequence |
| RobinHood.InsertPlace | lab1/src/HashTable.cpp:28-33 | when insert fills an empty slot, the key was new and the table now holds exactly the old states plus the key |
| RobinHood.InsertDuplicate | lab1/src/HashTable.cpp:37-39 | a slot equal to the carried state is met only before any swap, so the key was already present |
| RobinHood.InsertAdvance | lab1/src/HashTable.cpp:41-61 | after a slot holding another state, the set of states plus the carried one is unchanged and the probe either goes on or stops at probe length 32 with a state not in the table |
| RobinHood.ProbeFrom | lab1/src/HashTable.cpp:27-62 | the probing loop of `insert` keeps the table's size and the 32-slot displacement bound |
| RobinHood.ProbeFromInserts | lab1/src/HashTable.cpp:27-62 | from any point where the insertion invariant holds, the probe ends by placing the key, finding it, or carrying a state out after 32 probes, each time with the table's states accounted for |
| RobinHood.ShiftStart | lab1/src/HashTable.cpp:114-117 | emptying the slot of the state found starts a backward shift and removes exactly that state |
| RobinHood.ShiftStep | lab1/src/HashTable.cpp:119-124 | moving the next displaced state back one slot keeps the states, moves the hole forward and lowers the total displacement |
| RobinHood.ShiftEnd | lab1/src/HashTable.cpp:119-128 | the shift stops at an empty slot or a state at home, and the table is then well formed again |
| RobinHood.EmptyTableOk | lab1/src/HashTable.cpp:3-11 | a table of empty buckets with a valid capacity is well formed and holds nothing |
| RobinHood.ComputeHash | lab1/src/HashTable.cpp:142-166 | the hash is the 32-bit mixing of each jug level followed by the finalizer, with every multiplication wrapping modulo 2^32 |
| RobinHood.HashOfThreeJugsNonZero | lab1/test/test_HashTable.h:14-20 | the state with levels 4, 0, 0 hashes to a non-zero value |
| RobinHood.RobinHoodTable.constructor | lab1/src/HashTable.cpp:9-11 | a new table has the initial capacity, only empty buckets and no states |
| RobinHood.RobinHoodTable.Contains | lab1/src/HashTable.cpp:65-90 | true if and only if the state is in the table |
| RobinHood.RobinHoodTable.Insert | lab1/src/HashTable.cpp:18-63 | while the capacity stays below its largest size, the table then holds exactly the old states plus the key, and the result is true exactly when the key was new; it never gains any other state, and a key already present without a resize leaves it unchanged |
| RobinHood.RobinHoodTable.PlaceOrCarry | lab1/src/HashTable.cpp:23-62 | the probe places a new key, finds a present one, or carries out a state that is no longer stored, keeping the count equal to the number of states |
| RobinHood.RobinHoodTable.Probe | lab1/src/HashTable.cpp:23-62 | the probing loop over the buckets does what `ProbeFrom` says from the key's home slot |
| RobinHood.RobinHoodTable.Resize | lab1/src/HashTable.cpp:172-189 | the capacity at least doubles and, while it stays below its largest size, every stored state is kept |
| RobinHood.RobinHoodTable.RemoveState | lab1/src/HashTable.cpp:104-140 | the table stays well formed and then holds exactly the old states minus the key |
| RobinHood.RobinHoodTable.ShiftBack | lab1/src/HashTable.cpp:116-129 | the backward shift leaves a well-formed table holding the states that remained after the found slot was emptied |
| RobinHood.RobinHoodTable.Cleanup | lab1/src/HashTable.cpp:92-102 | every occupied bucket is emptied, the empty ones are untouched, and the count is zero |
| RobinHood.HashTableScenario | lab1/test/test_HashTable.h:4-38 | a state goes into a fresh table, is refused the second time, and is no longer found after `removeState` |
| DoubleHashing.Or1 | lab1/src/hashTable.cpp:106 | `x \| 1` is odd and is x or x + 1 |
| DoubleHashing.Home | lab1/src/hashTable.cpp:82 | masking with `table_size - 1` gives a slot inside the table |
| DoubleHashing.StrideOddAndSmall | lab1/src/hashTable.cpp:105-106 | the stride is odd and smaller than the table |
| DoubleHashing.ComputeHash | lab1/src/hashTable.cpp:66-83 | the loop computes the 32-bit mixing of each jug level, masked to a slot of the table |
| DoubleHashing.ComputeStep | lab1/src/hashTable.cpp:90-107 | the loop computes the second 32-bit mixing, made into an odd stride below the table size |
| DoubleHashing.PathClosed | lab1/src/hashTable.cpp:117-128 | probe j of the loop is at `start + j * step`, masked |
| DoubleHashing.PathCycle | lab1/src/hashTable.cpp:128 | after `table_size` probes the loop is back at its start slot |
| DoubleHashing.PathDistinct | lab1/src/hashTable.cpp:117-128 | with an odd stride and a power-of-two table, the first `table_size` probes fall on different slots |
| DoubleHashing.PathCoversTable | lab1/src/hashTable.cpp:117-128 | every slot is among the first `table_size` probes, so the loops of `contains`, `insert` and `removeState` can reach any slot |
| DoubleHashing.FindFromSound | lab1/src/hashTable.cpp:117-129 | a slot the probe loop of `contains` stops at holds the state looked for |
| DoubleHashing.FindIsMembership | lab1/src/hashTable.cpp:109-130 | on a well-formed table `contains` answers true exactly for the states in it |
| DoubleHashing.SlotOfState | lab1/src/hashTable.cpp:149-160 | a well-formed table holds each state in one slot only |
| DoubleHashing.InsertFromFinds | lab1/src/hashTable.cpp:149-160 | where `insert` places a state, `contains` would have failed before and finds it afterwards; a duplicate is one `contains` finds |
| DoubleHashing.PlaceKeepsFind | lab1/src/hashTable.cpp:151-155 | filling an unoccupied slot does not change what `contains` finds for a state it found before |
| DoubleHashing.InsertProbeOutcome | lab1/src/hashTable.cpp:141-171 | a placed state was absent, is now present, and the table stays well formed; a duplicate was already present |
| DoubleHashing.RemoveFromFinds | lab1/src/hashTable.cpp:214-223 | the probe loop of `removeState` finds every state `contains` finds, and what it finds holds the state |
| DoubleHashing.RemoveWithTombstone | lab1/src/hashTable.cpp:207-224 | the corrected removal keeps the table's size |
| DoubleHashing.RemoveAsWritten | lab1/src/hashTable.cpp:207-224 | the removal as written keeps the table's size |
| DoubleHashing.TombstoneKeepsFind | lab1/src/hashTable.cpp:218-219 | a tombstone in place of one state does not change what `contains` finds for any other state |
| DoubleHashing.TombstoneRemoval | lab1/src/hashTable.cpp:207-224 | removal with a tombstone removes exactly the key and keeps the table well formed |
| DoubleHashing.FindStep | lab1/src/hashTable.cpp:117-128 | one probe of `contains`: an unoccupied slot ends the search unsuccessfully, the state ends it successfully, else it goes on to the next slot of the path |
| DoubleHashing.InsertProbeStep | lab1/src/hashTable.cpp:149-172 | one probe of `insert`: an unoccupied slot takes the state, an equal state is a duplicate, else the probe goes on |
| DoubleHashing.RemoveStep | lab1/src/hashTable.cpp:214-223 | one probe of `removeState`: the state found ends it, else it goes on until the start slot again |
| DoubleHashing.NoStatesOk | lab1/src/hashTable.cpp:8-10 | a table with no states is well formed and empty |
| DoubleHashing.CollidingStates | lab1/src/hashTable.cpp:66-107 | the states 1, 2, 5 and 2, 8, 4 share home slot 225722 in a table of `INITIAL_SIZE` slots, and the second has stride 17365 |
| DoubleHashing.FirstInsertion | lab1/src/hashTable.cpp:149-155 | 1, 2, 5 lands in its home slot of a new table |
| DoubleHashing.SecondInsertion | lab1/src/hashTable.cpp:149-164 | 2, 8, 4 finds its home slot taken and lands one stride further on |
| DoubleHashing.RemoveAsWrittenHidesState | lab1/src/hashTable.cpp:214-223 | removing 1, 2, 5 as written leaves 2, 8, 4 in the table where `contains` no longer finds it |
| DoubleHashing.TombstoneKeepsStateFound | lab1/src/hashTable.cpp:214-223 | with a tombstone instead, `contains` still finds 2, 8, 4 |
| DoubleHashing.DoubleHashTable.constructor | lab1/src/hashTable.cpp:8-10 | a new table has `INITIAL_SIZE` empty slots and no states |
| DoubleHashing.DoubleHashTable.Contains | lab1/src/hashTable.cpp:109-130 | true if and only if the state is in the table |
| DoubleHashing.DoubleHashTable.Probe | lab1/src/hashTable.cpp:141-172 | the probe loop of `insert` over the array ends as the probe sequence says: placed at the first unoccupied slot, a duplicate, or too many probes |
| DoubleHashing.DoubleHashTable.Insert | lab1/src/hashTable.cpp:132-176 | while the size stays below its largest value, the table then holds the old states plus the key, and the result is true exactly when the key was new; it never gains another state |
| DoubleHashing.DoubleHashTable.Place | lab1/src/hashTable.cpp:141-172 | a placement adds exactly the new key and counts one more element; otherwise nothing changes, and a duplicate was present |
| DoubleHashing.DoubleHashTable.Resize | lab1/src/hashTable.cpp:177-195 | the size at least doubles and, while it stays below its largest value, every stored state is kept |
| DoubleHashing.DoubleHashTable.RemoveState | lab1/src/hashTable.cpp:207-224 | the corrected removal: the table stays well formed and holds exactly the old states minus the key |
| DoubleHashing.DoubleHashTable.Cleanup | lab1/src/hashTable.cpp:197-205 | every slot holding a state is emptied, the other slots are untouched, and the table holds no states |
| HeuristicMetrics.MinOf | lab1/src/HeuristicMetrics.cpp:14 | the minimum is one of the two weights and no larger than either |
| HeuristicMetrics.ChoiceMeaning | lab1/src/HeuristicMetrics.cpp:18-25 | Manhattan is credited if and only if its weight is not larger, pattern if and only if its weight is not larger; every call credits at least one, and both exactly on a tie |
| HeuristicMetrics.Inc32 | lab1/src/HeuristicMetrics.cpp:19 | an `unsigned int` increment wraps from 2^32 - 1 to 0 |
| HeuristicMetrics.CreditsBounds | lab1/src/HeuristicMetrics.cpp:10-31 | over any run of calls the two counters together grow by at least the number of calls and at most twice it |
| HeuristicMetrics.Metrics.constructor | lab1/src/HeuristicMetrics.cpp:6-8 | all three counters start at 0 |
| HeuristicMetrics.Metrics.RecordChoice | lab1/src/HeuristicMetrics.cpp:10-31 | credits the smaller weight (both on a tie) with a wrapping increment and leaves `total_steps` alone |
| Search.BestIndexIsFirstLeast | lab1/src/Search.cpp:63-67 | the best state kept is the first of least weight among the states opened with weight below `UINT_MAX`, and the initial state is kept exactly when none is below it |
| Search.ChainShape | lab1/src/Search.cpp:131-137 | the parent chain of a state starts at a state without parent, ends at the state, and links each state to the next |
| Search.WalkExtends | lab1/src/State.cpp:126-178 | a sequence of legal moves stays one when one more legal move is made from its last levels |
| Search.Up | lab1/src/Search.cpp:143-149 | walking up the chain from the end, each state's parent is the state before it and the first has none |
| Search.Release | lab1/src/Search.cpp:145-146 | a state's levels leave the closed list exactly when it has a parent; nothing else changes |
| Search.FreePath | lab1/src/Search.cpp:154-161 | a path holding an array loses it and its length becomes 0; a freed path is left as it is |
| Search.ChainLength | lab1/src/Search.cpp:131-137 | the first loop counts exactly the states on the parent chain |
| Search.FillPath | lab1/src/Search.cpp:139-149 | the second loop puts each chain state at its place in a new array and removes from the closed list the levels of every chain state but the root |
| Search.CloseNew | lab1/src/Search.cpp:60-61 | closing levels not yet closed records them in the closed list once |
| Search.ReconstructPath | lab1/src/Search.cpp:128-152 | the path is a new array holding the parent chain from its root down to the final state, and the closed list loses exactly the levels of the chain's non-root states |
| Search.Searcher.constructor | lab1/src/Search.cpp:3-10 | a new search has an empty open list and an empty closed list, keeps its inputs, and has the initial state weighed |
| Search.Searcher.Weigh | lab1/src/State.cpp:32-34 | a state not yet weighed gets the heuristic's weight for its levels and depth; a weighed state keeps its weight |
| Search.Searcher.ReachedIsWalk | lab1/src/Search.cpp:47-92 | a state reached by the search ends a parent chain from the initial state whose levels form a sequence of legal moves |
| Search.Searcher.ReachedWithin | lab1/src/Search.cpp:47-92 | a reached state stays within the capacities and has no parent exactly when it is the initial state |
| Search.Searcher.ReachedChild | lab1/src/Search.cpp:69-85 | a successor of a reached state, one legal move away, is reached |
| Search.Searcher.Offer | lab1/src/Search.cpp:75-91 | a successor is pushed with its weight exactly when its levels are not closed and annealing is off, it is no heavier than its parent, or the draw accepts it; the closed list is unchanged |
| Search.Searcher.PushesNext | lab1/src/Search.cpp:74-92 | offering successor i adds what it pushes to what the earlier successors pushed |
| Search.Searcher.PushesTrack | lab1/src/Search.cpp:74-92 | the states pushed carry exactly the admitted levels, in the order of the moves |
| Search.Searcher.OfferNext | lab1/src/Search.cpp:75-91 | one round of the successor loop keeps the loop's record of what was pushed |
| Search.Searcher.OfferAll | lab1/src/Search.cpp:74-92 | the open list gains exactly the successors the test admits, in order |
| Search.Searcher.AdmittedAreMoves | lab1/src/Search.cpp:74-92 | every admitted level is one of the moves |
| Search.Searcher.Spawn | lab1/src/Search.cpp:69-71 | the successors are new states, one per legal move in order, each a child of the current state, not yet weighed |
| Search.Searcher.PushedOffspring | lab1/src/Search.cpp:85 | every state pushed is a child of the current state carrying its weight |
| Search.Searcher.OfferBrood | lab1/src/Search.cpp:69-93 | the open list gains the pushed states, which carry the admitted levels in order and are new children of the current state |
| Search.Searcher.Expand | lab1/src/Search.cpp:69-93 | expanding a state pushes, in the order of its moves, a new child for each move whose levels are not closed and which the annealing test accepts |
| Search.Searcher.KeptNext | lab1/src/Search.cpp:63-67 | opening a state makes it the best state exactly when its weight is below the best weight |
| Search.Searcher.PushedReached | lab1/src/Search.cpp:69-93 | the states an expansion pushes are reached from the initial state and carry their levels |
| Search.Searcher.FrontierPart | lab1/src/Search.cpp:48 | part of an open list of reached states is one, so popping keeps it |
| Search.Searcher.FrontierJoin | lab1/src/Search.cpp:85 | two open lists of reached states together are one, so pushing keeps it |
| Search.Searcher.Grow | lab1/src/Search.cpp:69-93 | expanding a reached state keeps the search invariant: the open list holds only reached states |
| Search.Searcher.Admit | lab1/src/Search.cpp:60-67 | the popped state's levels are closed and recorded once, and it becomes the best state exactly when it is lighter than the best weight |
| Search.Searcher.Take | lab1/src/Search.cpp:48 | the state popped is reached from the initial state and within the capacities, and the search invariant holds |
| Search.Searcher.Open | lab1/src/Search.cpp:60-106 | opening a state not yet closed closes it, updates the best state, expands it, and keeps the search invariant |
| SearchLoop.Step | lab1/src/Search.cpp:47-110 | one round: a hit is a reached state whose levels are the target's; otherwise the state is opened exactly when its levels were not closed, and the best state changes only to a lighter opened state |
| SearchLoop.Begin | lab1/src/Search.cpp:38-45 | after pushing the initial state, the search invariant holds with the initial state as best and best weight `UINT_MAX` |
| SearchLoop.Settled | lab1/src/Search.cpp:47-123 | the states opened are reached, the best one is the first lightest of them or the initial state, and no levels were opened twice while the closed table stays below its largest size |
| SearchLoop.Ends | lab1/src/Search.cpp:57-125 | the state the search ends on, the target popped or else the best state, ends a parent chain from the initial state along legal moves |
| SearchLoop.Run | lab1/src/Search.cpp:47-125 | the loop ends on the target, whose levels are the target's, or else on the best state opened; the final state ends a chain of legal moves from the initial state; no levels are opened twice |
| SearchLoop.FindPath | lab1/src/Search.cpp:36-126 | the path returned runs from the initial state by legal moves to the target when it is found, and otherwise to the best state opened |
| GraphBasics.Edgeless | lab2/src/Graph.cpp:9 | n empty neighbour lists form a simple, undirected graph with ids in range |
| GraphBasics.TotalEntriesZero | lab2/src/Graph.cpp:44 | a graph stores no entry exactly when every neighbour list is empty |
| GraphBasics.WithBothSymmetric | lab2/src/Graph.cpp:74-75 | storing both directions of an edge keeps the lists undirected |
| GraphBasics.Resized | lab2/src/Graph.cpp:69 | `resize(n)` keeps the first n lists and pads with empty ones |
| GraphBasics.MaxId | lab2/src/Graph.cpp:61-64 | the largest id over the pairs, from 0: no id above it, and it is 0 or one of the ids |
| GraphBasics.LoadPairsEntries | lab2/src/Graph.cpp:73-76 | after loading, a list holds its old entries plus both directions of every pair (without self-loops when they are skipped) |
| GraphBasics.LoadPairsShape | lab2/codigo/src/Graph.cpp:70-73 | loading pairs into an undirected graph keeps it undirected, and loop-free when self-loops are skipped |
| GraphBasics.LoadFresh | lab2/codigo/src/Graph.cpp:55-73 | loading into fresh lists gives an undirected graph holding exactly both directions of the pairs |
| GraphBasics.MaxDegree | lab2/src/Graph.cpp:91-97 | the largest list size, reached by some vertex, or 0 without vertices |
| AdjacencyGraph.Graph.Empty | lab2/src/Graph.cpp:3-6 | the default graph has no vertices and no edges |
| AdjacencyGraph.Graph.constructor | lab2/src/Graph.cpp:7-11 | a new graph has the given number of empty lists and no edges |
| AdjacencyGraph.Graph.AddEdge | lab2/src/Graph.cpp:13-18 | w is in v's list afterwards and the count grows by one exactly when it was not there before |
| AdjacencyGraph.Graph.GetNeighbors | lab2/src/Graph.cpp:24-31 | the neighbours of v, each once, as many as its degree |
| AdjacencyGraph.Graph.RemoveEdge | lab2/src/Graph.cpp:33-38 | w is no longer in v's list and the count drops by one exactly when it was there |
| AdjacencyGraph.Graph.IsEmpty | lab2/src/Graph.cpp:44 | on a consistent graph the count is zero exactly when every list is empty |
| AdjacencyGraph.Graph.Clear | lab2/src/Graph.cpp:46-51 | every list is emptied and the count is zero; the vertices stay |
| AdjacencyGraph.Graph.GetMaxDegree | lab2/src/Graph.cpp:91-97 | the largest degree, reached by some vertex, or 0 without vertices |
| AdjacencyGraph.Graph.ScanMaxVertex | lab2/src/Graph.cpp:60-65 | the first pass finds the largest id among the pairs |
| AdjacencyGraph.Graph.AddPairs | lab2/src/Graph.cpp:72-76 | the second pass adds both directions of every pair in order |
| AdjacencyGraph.Graph.CreateFromFile | lab2/src/Graph.cpp:53-79 | as written: succeeds exactly when the file opens; the lists are resized rather than rebuilt, so earlier edges survive while the count restarts from 0 |
| AdjacencyGraph.Graph.CreateFromFileFresh | lab2/codigo/src/Graph.cpp:49-81 | the corrected loader: the graph holds exactly both directions of the pairs read, one vertex per id up to the largest, and the count equals the entries stored |
| AdjacencyGraph.ReloadKeepsStaleEdges | lab2/src/Graph.cpp:68-70 | loading "1 2" and then "2 3" leaves vertex 0 listing vertex 1 although the second file has no such edge, and counts 2 edges for 4 stored entries |
| AdjacencyGraph.FreshAndResizedAgreeWhenEmpty | lab2/src/Graph.cpp:69 | on a graph without entries, resizing gives the same lists as building fresh ones |
| SimpleGraph.LinkBoth | lab2/codigo/src/Graph.cpp:71-72 | the two `addEdge` calls for one pair add both directions, and nothing for a self-loop |
| SimpleGraph.Graph.Empty | lab2/codigo/src/Graph.cpp:3-6 | the default graph has no vertices and no edges |
| SimpleGraph.Graph.constructor | lab2/codigo/src/Graph.cpp:7-11 | a new graph has the given number of empty lists and no edges |
| SimpleGraph.Graph.AreNeighbors | lab2/codigo/src/Graph.cpp:101-103 | `areNeighbors(a, b)` answers the same as `hasEdge(a, b)` |
| SimpleGraph.Graph.AddEdge | lab2/codigo/src/Graph.cpp:13-22 | a self-loop changes nothing; otherwise w is in v's list and the count grows exactly when it was new |
| SimpleGraph.Graph.GetNeighbors | lab2/codigo/src/Graph.cpp:28-36 | the neighbours of v, each once, as many as its degree |
| SimpleGraph.Graph.RemoveEdge | lab2/codigo/src/Graph.cpp:38-43 | only the v-to-w direction is erased, the count drops exactly when it was there, and every other list is unchanged |
| SimpleGraph.Graph.GetMaxDegree | lab2/codigo/src/Graph.cpp:93-99 | the largest degree, reached by some vertex, or 0 without vertices |
| SimpleGraph.Graph.CollectPairs | lab2/codigo/src/Graph.cpp:55-62 | the first pass keeps the pairs in reading order and finds the largest id |
| SimpleGraph.Graph.AddUndirected | lab2/codigo/src/Graph.cpp:71-72 | one stored pair is added in both directions, self-loops excepted |
| SimpleGraph.Graph.AddPairs | lab2/codigo/src/Graph.cpp:70-73 | the second pass adds every stored pair in order |
| SimpleGraph.Graph.CreateFromFile | lab2/codigo/src/Graph.cpp:49-81 | succeeds exactly when the file opens; the graph is rebuilt to hold exactly both directions of the pairs read, without self-loops, with as many vertices as the largest id |
| SimpleGraph.TriangleAndEdge | lab2/codigo/src/Graph.cpp:49-81 | the pairs 1-2, 1-3, 2-3, 4-5 give a triangle on 0, 1, 2 and an edge 3-4, with degrees 2, 2, 2, 1, 1 |
| DegreeIndexedGraph.Insert | lab2/include/Graphold.h:33-35 | inserting into the ordered tree keeps it ascending, adds the pair, and leaves it alone when already present |
| DegreeIndexedGraph.Erase | lab2/include/Graphold.h:33-35 | erasing from the ordered tree keeps it ascending and removes just the pair, if present |
| DegreeIndexedGraph.AddEdgeReindexes | lab2/include/Graphold.h:44-53 | the erase, erase, insert, insert, insert, insert of `addEdge` leaves the index holding exactly the pair (degree, vertex) of every vertex |
| DegreeIndexedGraph.WithEdgePresent | lab2/include/Graphold.h:44 | adding an edge already stored both ways changes nothing |
| DegreeIndexedGraph.ReadPairsN | lab2/include/Graphold.h:99-103 | reading m pairs yields m pairs, and nothing for a count below 1 |
| DegreeIndexedGraph.Graph.constructor | lab2/include/Graphold.h:37-41 | n empty lists, and every vertex indexed under degree 0 |
| DegreeIndexedGraph.Graph.AddEdge | lab2/include/Graphold.h:43-54 | for two vertices not adjacent both directions are stored and both are re-indexed under their new degrees; otherwise nothing changes |
| DegreeIndexedGraph.Graph.GetTopKByDegree | lab2/include/Graphold.h:67-75 | k vertices, or every vertex when k is negative or at least the vertex count, distinct, in descending (degree, id) order, and no vertex left out outranks one chosen |
| DegreeIndexedGraph.Graph.GetMaxDegree | lab2/include/Graphold.h:77-81 | the largest degree, 0 without vertices |
| DegreeIndexedGraph.Graph.AddEdges | lab2/include/Graphold.h:99-103 | the loop adds every pair read as an undirected edge |
| DegreeIndexedGraph.Graph.FromFile | lab2/include/Graphold.h:86-106 | a file that cannot be opened gives no graph; otherwise n vertices, and x and y are adjacent exactly when the file lists the pair either way |
| CppStream.ReadInt | lab2/src/Graph.cpp:62 | `file >> v` yields an `int` in range and advances past what it read, or fails |
| CppStream.ReadUnsigned | lab1/src/State.cpp:230 | `ss >> x` for an `unsigned int` yields a value at most 2^32 - 1 and advances, or fails |
| CppStream.ReadUnsignedDecimal | lab1/src/State.cpp:230 | extraction reads back exactly what decimal printing writes |
| CppStream.ReadUnsignedDecimalAt | lab1/src/State.cpp:260 | after any white space a printed number reads back and the stream stops right after its digits |
| Text.SplitJoin | lab2/runner.py:33-48 | splitting a join on the same separator gives back the pieces when none contains it |
| Text.WordsJoin | lab3/codigo/examples/renamer.py:10-11 | splitting on white space undoes a join with single spaces |
| Text.ReadLines | lab3/codigo/examples/renamer.py:5 | `readlines()` cuts the text into non-empty lines that concatenate back to it, each ending at its only newline except possibly the last |
| BatchRunner.StdinScript | lab2/runner.py:33-48 | the child's input reads back, line by line, as "1", the path under examples/, "2", "4" |
| BatchRunner.MakeRecord | lab2/runner.py:57-87 | the record names the file and timestamp, succeeds exactly when the child completed, and carries its output, or empty output with the timeout or exception message |
| BatchRunner.HeaderLines | lab2/runner.py:104-107 | a block's header reads back as the blank line, the rule, the file line, the timestamp line and the rule |
| BatchRunner.BlockShape | lab2/runner.py:104-112 | a block starts with its header and stdout, ends with a newline, and carries the error section exactly when stderr is not empty |
| BatchRunner.BeforeSentinel | lab2/runner.py:97-100 | the records handled are exactly those before the first `None`, in queue order |
| BatchRunner.SentinelStops | lab2/runner.py:97-100 | records put after the sentinel are never written |
| BatchRunner.WriteResults | lab2/runner.py:93-114 | the writer loop stops at the first `None` and appends one block per record before it, in order |
| BatchRunner.InputFiles | lab2/runner.py:135 | the input files are exactly the directory entries ending in `.txt`, in listing order |
| BatchRunner.InputFilesIdempotent | lab2/runner.py:135 | filtering the list again keeps it as it is |
| BatchRunner.WorkerCount | lab2/runner.py:149 | between 2 and 32 workers, 32 or twice the CPU count, whichever is smaller |
| BatchRunner.SuccessCountIsCardinality | lab2/runner.py:170-171 | the tally is the number of successful records and never exceeds the number of files |
| BatchRunner.AllCompletedAllSucceed | lab2/runner.py:170 | when every child completes, every file counts as a success |
| ColEdgeExtractor.EdgeSourceLines | lab3/codigo/examples/renamer.py:8-9 | the lines kept are edge lines of the file, no more of them than the file has |
| ColEdgeExtractor.EdgeSourceLinesAppend | lab3/codigo/examples/renamer.py:8-11 | the filter works line by line: every edge line is kept, in file order, and no other line |
| ColEdgeExtractor.EdgeText | lab3/codigo/examples/renamer.py:10-11 | an output line holds no newline |
| ColEdgeExtractor.Edges | lab3/codigo/examples/renamer.py:7-11 | one output entry per edge line, in file order |
| ColEdgeExtractor.OutputLines | lab3/codigo/examples/renamer.py:13-14 | reading the output back line by line gives exactly the edge list when there is at least one edge |
| ColEdgeExtractor.NoEdgesEmptyOutput | lab3/codigo/examples/renamer.py:13-14 | with no edge line the output file is empty |
| ColEdgeExtractor.EdgeTextTokens | lab3/codigo/examples/renamer.py:10-11 | each output line holds the tokens of its source line after the first, separated by single spaces |
| ColEdgeExtractor.DefaultNameOfColFile | lab3/codigo/examples/renamer.py:2-3 | `stem.col` is written to `stem_edges.txt` |
| ColEdgeExtractor.DefaultNameWithoutCol | lab3/codigo/examples/renamer.py:2-3 | a name without `.col` is kept unchanged, so the output would overwrite the input |
| ColoringBasics.TallyZero | lab2/src/ColoringState.cpp:170-178 | counting neighbours of a colour gives 0 exactly when no neighbour has it |
| ColoringBasics.TallyAtMost | lab2/src/ColoringState.cpp:170-178 | a per-colour neighbour count never exceeds the degree |
| ColoringBasics.TallyAdd | lab2/src/ColoringState.cpp:172-176 | one more neighbour raises the count by one exactly when it has the colour |
| ColoringBasics.ColorsAmongAtMost | lab2/src/ColoringState.cpp:158-178 | distinct neighbour colours plus uncoloured neighbours never outnumber the neighbours |
| ColoringBasics.TallyRecolor | lab3/codigo/src/ColoringState.cpp:18-52 | recolouring one vertex moves it between the per-colour counts and touches no other count |
| ColoringBasics.ConflictingTally | lab2/src/ColoringState.cpp:84-94 | a vertex conflicts exactly when it is coloured and some neighbour has its colour |
| ColoringBasics.MonoZeroIffProper | lab3/codigo/src/ColoringState.cpp:48-52 | no same-coloured adjacency entry is left exactly when the colouring is proper |
| ColoringBasics.ColorOnePrefix | lab3/codigo/src/ColoringState.cpp:48-52 | colouring an uncoloured vertex, over the first k vertices, adds its own same-coloured entries and one back-entry per such neighbour below k |
| ColoringBasics.ColorOne | lab3/codigo/src/ColoringState.cpp:48-52 | colouring an uncoloured vertex adds two same-coloured entries per neighbour already of that colour |
| ColoringBasics.TallyOffVertex | lab3/codigo/src/ColoringState.cpp:21-25 | recolouring a vertex outside a neighbour set leaves the count over that set alone |
| ColoringBasics.Uncolor | lab3/codigo/src/ColoringState.cpp:128-141 | uncolouring a vertex removes two same-coloured entries per neighbour that shared its colour |
| ColoringBasics.Recolor | lab3/codigo/src/ColoringState.cpp:16-52 | recolouring removes the entries of the old colour and adds those of the new one |
| ColoringBasics.CountWithColor | lab2/src/ColoringState.cpp:170-178 | the neighbour loop returns exactly how many members of the set have the colour |
| GlobalColoringState.ConflictCountZero | lab2/src/ColoringState.cpp:75-82 | the recount is 0 exactly when no vertex conflicts |
| GlobalColoringState.ConflictCountAtMost | lab2/src/ColoringState.cpp:75-82 | at most every vertex is counted as conflicting |
| GlobalColoringState.AssignKeepsShape | lab2/src/ColoringState.cpp:14-37 | the field updates of assignColor keep colours, colour classes and the uncoloured list in agreement |
| GlobalColoringState.ColoringState.constructor | lab2/include/ColoringState.h:27-31 | as written: every vertex uncoloured, initialColors empty classes, counters 0, and the uncoloured list left empty |
| GlobalColoringState.ColoringState.Fresh | lab3/codigo/src/ColoringState.cpp:3-9 | as intended: the same state with every vertex listed as uncoloured |
| GlobalColoringState.ColoringState.IsComplete | lab2/include/ColoringState.h:64 | when the uncoloured list is kept up to date, complete means every vertex has a colour |
| GlobalColoringState.ColoringState.IsLegal | lab2/include/ColoringState.h:65 | legal exactly when no edge joins two vertices of the same colour |
| GlobalColoringState.ColoringState.GetMaxUsedColor | lab2/src/ColoringState.cpp:107 | at least -1 and no smaller than any colour in use |
| GlobalColoringState.ColoringState.IsConflicting | lab2/src/ColoringState.cpp:84-94 | true exactly when the vertex is coloured and a neighbour shares its colour |
| GlobalColoringState.ColoringState.UpdateConflicts | lab2/src/ColoringState.cpp:75-82 | the counter becomes the number of conflicting vertices; nothing else changes |
| GlobalColoringState.ColoringState.AssignColor | lab2/src/ColoringState.cpp:3-40 | rejected exactly for a vertex out of range or a colour below -1, changing nothing; otherwise only that vertex's colour changes, it moves to its new class or the uncoloured list, numColors covers the colour and the counter is recounted |
| GlobalColoringState.ColoringState.IsValidAssignment | lab2/src/ColoringState.cpp:42-54 | true exactly for an existing vertex, a colour >= 0, and no neighbour already of that colour |
| GlobalColoringState.ColoringState.GetAvailableColors | lab2/src/ColoringState.cpp:56-73 | in ascending order, exactly the colours 0..numColors that no neighbour has; numColors itself is always available |
| GlobalColoringState.ColoringState.GetDeltaConflicts | lab2/src/ColoringState.cpp:109-130 | 0 for the current colour, otherwise neighbours of the new colour minus neighbours of the current one |
| GlobalColoringState.ColoringState.GetConflictingPairs | lab2/src/ColoringState.cpp:132-146 | every same-coloured edge exactly once, smaller end first |
| GlobalColoringState.ColoringState.GetVerticesWithColor | lab2/src/ColoringState.cpp:96-105 | exactly the vertices of that colour, each once, or none for a colour without a class |
| GlobalColoringState.ColoringState.GetDifferentColoredNeighbors | lab2/src/ColoringState.cpp:158-169 | the number of distinct colours among the coloured neighbours |
| GlobalColoringState.ColoringState.GetUncoloredNeighbors | lab2/src/ColoringState.cpp:170-178 | the number of uncoloured neighbours |
| GlobalColoringState.ColoringState.CopyFrom | lab2/include/ColoringState.h:37-50 | every field but the graph becomes the other state's; self-assignment changes nothing |
| GlobalColoringState.FreshStateLooksComplete | lab2/include/ColoringState.h:27-31 | as written: a fresh one-vertex state reports itself complete while its vertex is uncoloured |
| GlobalColoringState.FreshStateIsIncomplete | lab3/codigo/src/ColoringState.cpp:3-9 | built as intended, the same state is not complete |
| IncrementalColoringState.MoveVertex | lab3/codigo/src/ColoringState.cpp:18-42 | taking a vertex out of its class and into the class of its new colour keeps the classes equal to the colour map |
| IncrementalColoringState.GrowClasses | lab3/codigo/src/ColoringState.cpp:29-31 | appending empty classes keeps the classes equal to the colour map |
| IncrementalColoringState.AssignAgrees | lab3/codigo/src/ColoringState.cpp:16-46 | the class, list and numColors updates of an accepted assignColor keep the fields in agreement |
| IncrementalColoringState.AssignKeepsValid | lab3/codigo/src/ColoringState.cpp:16-52 | an accepted assignColor keeps the fields in agreement and the counter equal to the number of same-coloured edges |
| IncrementalColoringState.UnassignAgrees | lab3/codigo/src/ColoringState.cpp:128-134 | unassigning a coloured vertex keeps the fields in agreement |
| IncrementalColoringState.ColoringState.constructor | lab3/codigo/src/ColoringState.cpp:3-9 | every vertex uncoloured and listed as such, initialColors empty classes, both counters 0 |
| IncrementalColoringState.ColoringState.IsComplete | lab2/include/ColoringState.h:64 | on a consistent state, complete exactly when every vertex has a colour |
| IncrementalColoringState.ColoringState.IsLegal | lab2/include/ColoringState.h:65 | on an undirected loop-free graph, legal exactly when no edge joins two vertices of one colour |
| IncrementalColoringState.ColoringState.Detach | lab3/codigo/src/ColoringState.cpp:16-28 | the vertex leaves its old class and its conflicts with that colour leave the count, or it leaves the uncoloured list |
| IncrementalColoringState.ColoringState.Attach | lab3/codigo/src/ColoringState.cpp:41-52 | the vertex takes the colour and joins its class, numColors grows only for a colour below targetColors, and its new conflicts are counted |
| IncrementalColoringState.ColoringState.Move | lab3/codigo/src/ColoringState.cpp:16-52 | the accepted path: only that vertex's colour changes, the classes grow to hold the colour, and the fields stay consistent |
| IncrementalColoringState.ColoringState.AssignColor | lab3/codigo/src/ColoringState.cpp:11-53 | corrected: an unknown vertex or a colour beyond both the classes and targetColors changes nothing; otherwise the vertex is recoloured and the conflict count traded from the old colour to the new |
| IncrementalColoringState.ColoringState.AssignColorAsWritten | lab3/codigo/src/ColoringState.cpp:11-53 | as written: an oversized colour is turned down after the vertex left its class and its old conflicts were subtracted, while its colour stays |
| IncrementalColoringState.ColoringState.UnassignColor | lab3/codigo/src/ColoringState.cpp:128-142 | an uncoloured vertex is left alone; a coloured one leaves its class, joins the uncoloured list and its conflicts leave the count; numColors is kept |
| IncrementalColoringState.ColoringState.CopyFrom | lab3/codigo/src/BranchAndBound.cpp:20 | every field of the other state is taken over, so validity, completeness and legality carry over |
| IncrementalColoringState.ColoringState.IsValidAssignment | lab3/codigo/src/ColoringState.cpp:55-62 | true exactly when no neighbour has the colour |
| IncrementalColoringState.ColoringState.GetAvailableColors | lab3/codigo/src/ColoringState.cpp:64-87 | nothing for an unknown vertex; otherwise, ascending, exactly the colours below targetColors that no neighbour has |
| IncrementalColoringState.ColoringState.GetDeltaConflicts | lab3/codigo/src/ColoringState.cpp:112-126 | neighbours of the new colour minus neighbours of the current one, -1 counting nothing on either side |
| IncrementalColoringState.DeltaPredictsAssign | lab3/codigo/src/ColoringState.cpp:11-53 | on a loop-free graph, the delta is exactly the change an accepted assignColor makes to the conflict count |
| IncrementalColoringState.UnassignUndoesAssign | lab3/codigo/src/ColoringState.cpp:128-142 | on a loop-free graph, colouring an uncoloured vertex then unassigning it restores colours, uncoloured list and count |
| IncrementalColoringState.Triangle | lab3/codigo/src/ColoringState.cpp:48-52 | the triangle used in the demonstrations is an undirected loop-free graph on three vertices |
| IncrementalColoringState.OversizedColorDropsConflict | lab3/codigo/src/ColoringState.cpp:18-38 | as written: after an oversized colour is turned down, the conflict between two vertices of colour 0 is no longer counted |
| IncrementalColoringState.OversizedColorKeepsConflict | lab3/codigo/src/ColoringState.cpp:29-38 | with the range check first, the same calls keep the conflict counted |
| Dependency.NewlyDependent | lab2/include/ColorDependency.h:33-39 | exactly the unmarked colour-dependent vertices, in increasing order: what one pass appends |
| Dependency.MarkedAfterPass | lab2/include/ColorDependency.h:33-35 | after a pass a vertex is marked exactly when it was marked before or is colour-dependent |
| Dependency.SecondPassFindsNothing | lab2/include/ColorDependency.h:29-40 | the state is only read, so the pass after a first one finds nothing new and the loop stops after two passes |
| Dependency.PassKeepsMarking | lab2/include/ColorDependency.h:33-39 | a pass keeps the marks and the shrink sequence in step: marked exactly when listed, each vertex listed once |
| Dependency.LeastFreeBelow | lab2/src/ColoringState.cpp:56-73 | the least colour below k no neighbour has (all smaller ones are taken), or k when there is none |
| Dependency.ExpandStep | lab2/include/ColorDependency.h:46-51 | one step of expand on the colour list: the vertex takes the first available colour; what it guarantees is stated by ExpandedColorsListed and RecolorFreeKeepsProper |
| Dependency.Expanded | lab2/include/ColorDependency.h:45-52 | expand over the sequence from its end to its start; what it guarantees is stated by ExpandedColorsListed, ExpandedKeepsProper and ExpandedOutcome |
| Dependency.ExpandedColorsListed | lab2/include/ColorDependency.h:45-52 | expansion colours every listed vertex with a colour below the new count and leaves unlisted vertices as they were |
| Dependency.RecolorFreeKeepsProper | lab2/include/ColorDependency.h:48-50 | giving a vertex a colour none of its neighbours has keeps a proper colouring proper |
| Dependency.ExpandedKeepsProper | lab2/include/ColorDependency.h:45-52 | expansion keeps a proper colouring of an undirected loop-free graph proper |
| Dependency.ExpandedOutcome | lab2/include/ColorDependency.h:44-53 | every listed vertex ends coloured, the others keep their colour, and no conflict appears on an undirected loop-free graph |
| Dependency.ColorDependency.constructor | lab2/include/ColorDependency.h:24-26 | no vertex marked, the shrink sequence empty, maxColor as given |
| Dependency.ColorDependency.IsColorDependent | lab2/include/ColorDependency.h:12-21 | true exactly when distinct neighbour colours plus uncoloured neighbours fall below maxColor |
| Dependency.ColorDependency.Scan | lab2/include/ColorDependency.h:32-39 | the marks after the pass, the sequence with the newly dependent vertices appended, and whether there was one |
| Dependency.ColorDependency.ShrinkPass | lab2/include/ColorDependency.h:32-39 | marks and appends, in increasing order, every unmarked dependent vertex, and reports whether there was one |
| Dependency.ColorDependency.RecursiveShrink | lab2/include/ColorDependency.h:29-41 | the sequence grows by exactly the vertices one pass finds, and at the end no unmarked vertex is colour-dependent |
| Dependency.ColorDependency.ExpandVertex | lab2/include/ColorDependency.h:46-51 | the vertex takes the first colour getAvailableColors offers, as ExpandStep says |
| Dependency.ColorDependency.Expand | lab2/include/ColorDependency.h:44-53 | the colouring becomes Expanded: every listed vertex coloured, nothing else recoloured, a proper colouring stays proper |
| DSaturBounds.InColorsAfterColoring | lab2/src/Bounds.cpp:88-96 | colouring an uncoloured vertex adds its colour to what each of its listed neighbours sees, and nothing else |
| DSaturBounds.SaturationStep | lab2/src/Bounds.cpp:88-96 | after a vertex is coloured and its uncoloured neighbours record the colour, each uncoloured vertex's saturation set is still exactly the colours it sees |
| DSaturBounds.InColorsOnSymmetric | lab2/src/Bounds.cpp:73-86 | on an undirected graph a vertex sees a colour exactly when a neighbour has it, and sees no more colours than there are vertices |
| DSaturBounds.HighestDegreeVertex | lab2/src/Bounds.cpp:44-52 | the lowest-numbered vertex of maximum degree, or 0 on an empty graph |
| DSaturBounds.NextVertex | lab2/src/Bounds.cpp:65-81 | -1 exactly when every vertex is coloured; otherwise an uncoloured vertex of highest saturation, then highest degree, lowest-numbered among equals |
| DSaturBounds.LeastAbsent | lab2/src/Bounds.cpp:84-86 | the least non-negative colour not in the set |
| DSaturBounds.MarkNeighbors | lab2/src/Bounds.cpp:58-60 | exactly the neighbours of the vertex gain the colour in their saturation sets |
| DSaturBounds.MarkUncoloredNeighbors | lab2/src/Bounds.cpp:92-96 | exactly the uncoloured neighbours of the vertex gain the colour in their saturation sets |
| DSaturBounds.ColorFirst | lab2/src/Bounds.cpp:39-60 | only the first vertex has a colour, 0, and the saturation sets hold exactly the colours each uncoloured vertex sees |
| DSaturBounds.BeatsIsPreferred | lab2/src/Bounds.cpp:69-80 | the vertex the scan keeps is the preferred one: most distinct neighbour colours, then highest degree, then lowest number |
| DSaturBounds.ChosenStep | lab2/src/Bounds.cpp:63-97 | colouring the preferred vertex keeps every vertex of the colouring order chosen as the preferred one in its turn |
| DSaturBounds.ColorNext | lab2/src/Bounds.cpp:63-96 | one round colours the preferred vertex with the least colour none of its neighbours has and keeps the saturation sets exact |
| DSaturBounds.DSaturProper | lab2/src/Bounds.cpp:38-100 | on an undirected loop-free graph the DSatur colouring is complete and proper |
| DSaturBounds.DSaturWithinMaxDegree | lab2/src/Bounds.cpp:38-100 | on an undirected graph the DSatur bound is at most the largest degree plus one |
| DSaturBounds.Bounds.constructor | lab2/src/Bounds.cpp:3-7 | the lower bound is the size of a non-empty clique, the upper bound the colour count of a DSatur run, and on an undirected graph lower <= upper |
| DSaturBounds.Bounds.FindMaximalClique | lab2/src/Bounds.cpp:9-36 | a clique to which no other vertex can be added, starting with a vertex of maximum degree on a non-empty graph |
| DSaturBounds.Bounds.CalculateDSaturBound | lab2/src/Bounds.cpp:38-100 | at least 1, and the colour count of a complete DSatur run: each vertex chosen by saturation, degree and id, coloured with the least colour it does not see |
| DSaturBounds.Bounds.UpdateLowerBound | lab2/src/Bounds.cpp:108-112 | the lower bound becomes the larger of the old and the new value; nothing else changes |
| DSaturBounds.Bounds.UpdateUpperBound | lab2/src/Bounds.cpp:114-118 | the upper bound becomes the smaller of the old and the new value; nothing else changes |
| FirstFitBounds.FirstFreeColor | lab2/codigo/src/Bounds.cpp:25-39 | the first colour below numColors that no neighbour has (all smaller ones taken), or -1 exactly when every one is taken |
| FirstFitBounds.FirstFitColoring | lab2/codigo/src/Bounds.cpp:23-48 | the first-fit colouring along the degree order: every vertex coloured with the first colour its earlier neighbours leave free, numColors colours in use, at most n |
| FirstFitBounds.PendantTriangle | lab2/codigo/test/test.cpp:133-144 | the test graph is undirected and loop-free on four vertices |
| FirstFitBounds.PendantTriangleNeedsThree | lab2/codigo/test/test.cpp:146-151 | whatever order the sort leaves equal degrees in, first fit colours the test graph with exactly 3 colours |
| FirstFitBounds.Bounds.constructor | lab2/codigo/src/Bounds.cpp:3-6 | the upper bound is the first-fit colour count, the lower bound a clique size (1 on an empty graph), and on an undirected graph with a vertex lower <= upper |
| FirstFitBounds.Bounds.CalculateUpperBound | lab2/codigo/src/Bounds.cpp:8-53 | the colour count of a first-fit colouring along the degree order, between 0 and n, also stored as the upper bound |
| FirstFitBounds.Bounds.CalculateLowerBound | lab2/codigo/src/Bounds.cpp:55-92 | 0 for an empty graph; otherwise the size of a clique, between 1 and n |
| FirstFitBounds.Bounds.UpdateLowerBound | lab2/codigo/src/Bounds.cpp:96-101 | the lower bound rises to the new value only when that is larger and at most n |
| FirstFitBounds.Bounds.UpdateUpperBound | lab2/codigo/src/Bounds.cpp:103-108 | the upper bound falls to the new value only when that is smaller and positive |
| FirstFitBounds.PendantTriangleBounds | lab2/codigo/test/test.cpp:131-159 | on the test graph the upper bound is 3, and raising the lower bound to 3 and offering 3 as upper bound leave both at 3 |
| DangerHeuristic.SharedAmongSnoc | lab2/codigo/src/DangerHeuristic.cpp:239-247 | one more available colour adds it to the shared ones exactly when some uncoloured neighbour could take it |
| DangerHeuristic.RatioBounds | lab2/codigo/src/DangerHeuristic.cpp:249 | the share ratio, a part over a non-empty whole, lies between 0 and 1 |
| DangerHeuristic.MostDangerous | lab2/codigo/src/DangerHeuristic.cpp:112-149 | -1 exactly when no candidate's danger exceeds the lowest double; otherwise the lowest-numbered candidate of strictly greatest danger |
| DangerHeuristic.Heuristic.constructor | lab2/codigo/src/DangerHeuristic.cpp:3 | the graph, and a colour target of 0 |
| DangerHeuristic.Heuristic.GenerateInitialColoring | lab2/codigo/src/DangerHeuristic.cpp:171-207 | the first-fit colouring along the non-increasing degree order with colours below k; conflict-free on a loop-free graph and legal on an undirected one |
| DangerHeuristic.Heuristic.GetDifferentColoredNeighbors | lab2/codigo/src/DangerHeuristic.cpp:210-220 | the number of distinct colours among the coloured neighbours; with the uncoloured neighbours, at most the degree |
| DangerHeuristic.Heuristic.GetUncoloredNeighbors | lab2/codigo/src/DangerHeuristic.cpp:222-231 | the number of uncoloured neighbours, at most the degree |
| DangerHeuristic.Heuristic.ShareableColor | lab2/codigo/src/DangerHeuristic.cpp:240-246 | true exactly when some uncoloured neighbour could take the colour |
| DangerHeuristic.Heuristic.CountShared | lab2/codigo/src/DangerHeuristic.cpp:238-248 | the number of listed colours some uncoloured neighbour could take, at most the number listed |
| DangerHeuristic.Heuristic.GetColorShareRatio | lab2/codigo/src/DangerHeuristic.cpp:233-250 | 0 without an available colour; otherwise the shared available colours over the available colours, between 0 and 1 |
| DangerHeuristic.Heuristic.SelectBestVertex | lab2/codigo/src/DangerHeuristic.cpp:111-150 | -1 exactly when no uncoloured vertex of greatest saturation has danger above the lowest double; otherwise such a vertex of strictly greatest danger, lowest-numbered among equals |
| DangerHeuristic.Heuristic.SelectBestColor | lab2/codigo/src/DangerHeuristic.cpp:152-169 | -1 exactly when no colour is available; otherwise an available colour of least danger, the first on a tie, never displacing the first colour with a danger of the largest double or more |
| GreedyColoring.ColoredNeighborIsEarlier | lab2/codigo/src/Bounds.cpp:23-47 | before a position is coloured, a colour is free for its vertex exactly when no earlier neighbour holds it |
| GreedyColoring.SwapKeepsVertexOrder | lab2/codigo/src/Bounds.cpp:19-21 | exchanging two positions of a vertex order, as the sort does, gives a vertex order |
| GreedyColoring.FirstFitSwapTail | lab2/codigo/src/Bounds.cpp:19-47 | the colouring of the first i positions does not depend on how the later positions are arranged |
| GreedyColoring.FirstFitStep | lab2/codigo/src/Bounds.cpp:25-47 | giving the next vertex the least free colour below the cap, or none when there is none, extends the first-fit colouring by one position |
| GreedyColoring.FirstFitWithinDegree | lab2/codigo/src/Bounds.cpp:33-47 | a first-fit colour never exceeds the vertex's degree |
| GreedyColoring.FirstFitSeparates | lab2/codigo/src/Bounds.cpp:23-48 | on an undirected graph, once the whole order is coloured, two distinct neighbours never share a colour |
| GreedyColoring.FirstFitProper | lab2/codigo/src/Bounds.cpp:23-48 | on an undirected loop-free graph the complete first-fit colouring is proper |
| GreedyColoring.GreedyClique | lab2/codigo/src/Bounds.cpp:73-86 | a clique to which no other vertex could be added, starting with the first vertex of the order on a non-empty graph |
| GreedyColoring.CliqueNeedsColors | lab2/codigo/src/Bounds.cpp:3-6 | a clique is never larger than the number of colours of a colouring that separates neighbours |
| GreedyColoring.CliqueBelowColoring | lab2/codigo/src/Bounds.cpp:3-6 | on an undirected graph with a vertex, the clique lower bound is at most the first-fit upper bound, which is between 1 and n |
| GreedyColoring.UpperWithinMaxDegree | lab2/codigo/src/Bounds.cpp:23-50 | a complete first-fit colouring uses at most the largest degree plus one colours |
| Backtracking.Eligible | lab3/codigo/src/BranchAndBound.cpp:98-106 | exactly the available colours below the target that no neighbour has |
| Backtracking.InsertByDanger | lab3/codigo/src/BranchAndBound.cpp:103 | inserting keyed by danger adds only the colour, drops no entry, and drops the colour only when an entry of equal danger is present |
| Backtracking.AscendingTail | lab3/codigo/src/BranchAndBound.cpp:116 | the tail of a danger-ordered colour set is ordered and more dangerous than its head |
| Backtracking.PrependAscending | lab3/codigo/src/BranchAndBound.cpp:103 | a colour less dangerous than every entry may go first |
| Backtracking.InsertKeepsAscending | lab3/codigo/src/BranchAndBound.cpp:103 | inserting keeps the colour set in strictly increasing danger |
| Backtracking.InsertPastFirst | lab3/codigo/src/BranchAndBound.cpp:103 | a colour more dangerous than the first entry is inserted after it |
| Backtracking.InsertSameDanger | lab3/codigo/src/BranchAndBound.cpp:103 | inserting a colour whose danger is already present changes nothing |
| Backtracking.ByDangerAscending | lab3/codigo/src/BranchAndBound.cpp:98-106 | the set built from the candidates holds candidates only, in strictly increasing danger |
| Backtracking.ByDangerKeepsFirsts | lab3/codigo/src/BranchAndBound.cpp:98-106 | the set holds every candidate that is the first of its danger value |
| Backtracking.ByDangerSpec | lab3/codigo/src/BranchAndBound.cpp:89-106 | candidates only, strictly increasing danger, and the first candidate of every danger value kept |
| Backtracking.ExtendsAfterColoring | lab3/codigo/src/BranchAndBound.cpp:120-123 | a colouring extending the state after one vertex was coloured below the target extends the state before |
| Backtracking.FirstFitBelowCap | lab2/codigo/src/DangerHeuristic.cpp:186-201 | every vertex of a first-fit colouring below the cap is uncoloured or coloured below the cap |
| Backtracking.BranchAndBound.constructor | lab3/codigo/src/BranchAndBound.cpp:2-4 | keeps the graph, bounds and heuristic, with an empty best solution over the graph and n colours |
| Backtracking.BranchAndBound.IsColorValid | lab3/codigo/src/BranchAndBound.cpp:134-137 | true exactly when no neighbour has the colour |
| Backtracking.BranchAndBound.SelectBestVertex | lab3/codigo/src/BranchAndBound.cpp:139-153 | -1 exactly when no uncoloured vertex has danger above the lowest double; otherwise an uncoloured vertex of strictly greatest danger, lowest-numbered on a tie |
| Backtracking.BranchAndBound.OrderColors | lab3/codigo/src/BranchAndBound.cpp:89-106 | the valid available colours below the target, one per danger value, in increasing danger |
| Backtracking.BranchAndBound.BranchAndBoundRecursive | lab3/codigo/src/BranchAndBound.cpp:68-132 | success leaves a complete legal colouring that only adds colours below the target; failure restores the colours, the uncoloured list and (without self-loops) the conflict count |
| Backtracking.BranchAndBound.TryColor | lab3/codigo/src/BranchAndBound.cpp:116-129 | colours the vertex and searches on; success as above, failure takes the colour back and restores the state |
| Backtracking.BranchAndBound.InitialState | lab3/codigo/src/BranchAndBound.cpp:9-10 | a fresh valid state whose coloured vertices all have colours below k |
| Backtracking.BranchAndBound.Attempt | lab3/codigo/src/BranchAndBound.cpp:15-21 | on success the state becomes the solution and the upper bound drops to k when smaller; otherwise solution and bounds stay |
| Backtracking.BranchAndBound.Solve | lab3/codigo/src/BranchAndBound.cpp:6-66 | the loop ends, the bounds only tighten, and the solution is untouched or a complete legal colouring; when the bounds started in order, its colours lie below the final upper bound |

## Left out

- DoubleHashing.DoubleHashTable.RemoveState: leaves a tombstone, which is the corrected behaviour (see Findings). The code as written, which clears the slot, is modelled by the function `DoubleHashing.RemoveAsWritten` (lab1/src/hashTable.cpp:214-223).
- DoubleHashing.DoubleHashTable.Insert: promises its contents only while `table.Length * 2 <= MaxSize` (2^31). The same guard on growth stands in for the source's size arithmetic, which wraps to 0 there.
- DoubleHashing.DoubleHashTable.Resize: the same bound as Insert.
- RobinHood.RobinHoodTable.Insert: promises its contents only while `buckets.Length * 2 <= MaxCapacity` (2^31). The source's capacity doubling wraps around beyond that.
- RobinHood.RobinHoodTable.Resize: the same bound as Insert.
- AdjacencyGraph.Graph.CreateFromFile: requires every id read to be at least 1 (`PositiveIds`). For an id of 0 or less the source indexes out of range, which is undefined behaviour.
- AdjacencyGraph.Graph.CreateFromFileFresh: the same requirement, for the same reason.
- SimpleGraph.Graph.CreateFromFile: the same requirement, for the same reason.
- DegreeIndexedGraph.Graph.FromFile: requires a well-formed file (`WellFormedFile`): both header numbers, all the pairs, and every id a vertex. On other input the source reads unset values or indexes out of range.
- DSaturBounds.Bounds.CalculateDSaturBound: requires a vertex. On an empty graph the source writes `colors[0]` of an empty vector.
- DSaturBounds.Bounds.constructor: the same requirement as CalculateDSaturBound.
- IncrementalColoringState.ColoringState.AssignColor: requires `color >= 0`. A negative colour makes the source index `colorClass[-1]`; every caller passes an available colour.
- IncrementalColoringState.ColoringState.AssignColorAsWritten: the same requirement as AssignColor.
- BatchRunner.StdinScript: requires a file name without a newline. The script is a fixed four-line text, and a newline in the name would add a line.
- JugState.State.ReadStatesFromFile: requires its two out-states to be different objects, since aliasing is not modelled.
- JugState.State.ReadStatesFromFile: on a failed parse it keeps what was read, while the source frees the arrays.
- GlobalColoringState.ColoringState.constructor: requires every neighbour id to be a vertex (`InRange`). The source's graph only stores such ids.
- GlobalColoringState.ColoringState.Fresh: the same requirement as the constructor.
- DangerHeuristic: the danger values are `real` oracles with no NaN, infinity or rounding. `calculateF`, `calculateVertexDanger` and `calculateColorDanger` (lab2/codigo/src/DangerHeuristic.cpp:5-109) are floating point and are not modelled. Their results are parameters, and the lowest and largest double are explicit constants.
- Backtracking.BranchAndBound.SelectBestVertex: the danger order is the same kind of oracle. Ties go to the lowest-numbered vertex, but the order of lab3's uncoloured container is not part of this model.
- SearchLoop.FindPath: the random draw `rand() % 100 < temperature * 100` is an oracle `draw(steps, k)`.
- SearchLoop.FindPath: `generateRandomVariations`, the annealing temperature and its cooling, `updateAdaptiveParams`/`updateWeights`, tracing, printing and the statistics counters are left out. They only add states or change numbers that do not decide the result.
- SearchLoop.FindPath: at most `maxSteps` states are popped, a fuel bound that the source does not have. When the fuel runs out the result is the best state, as when the open list runs dry.
- SearchLoop.FindPath: the unsigned step counters are unbounded integers, so their wrap-around is not modelled.
- SearchLoop.FindPath: requires the state a new `Search` is in (lab1/src/Search.cpp:3-10): an empty open list, a valid closed table, an initial state without a parent whose levels fit the capacities, and a target with one level per jug.
- Search.Searcher.Weigh: `calculateHeuristic`'s weighted mix of distances is a parameter. Only `recordChoice`'s counting is modelled (HeuristicMetrics).
- IncrementalColoringState.ColoringState.UnassignColor: `numColors` is not lowered when the last vertex of the top colour is unassigned; the source does the same.
- AdjacencyGraph.Graph.GetNeighbors: the neighbours come out in the iteration order of the set. The source's hash set has an unspecified order too.
- SimpleGraph.Graph.GetNeighbors: the same as AdjacencyGraph.Graph.GetNeighbors.
- Concurrency of `runner.py` is left out: the thread pool, the queue's locking, the subprocess, its timeout and the clock (the timestamp is a parameter). So are all printing and tracing, the `print` methods, the benchmarks and `main` programs.

## Findings

| source | as written | input that shows it | evidently intended | confidence | as-written member | corrected member |
|---|---|---|---|---|---|---|
| lab2/src/Graph.cpp:68-70 | a reload resizes the lists instead of rebuilding them, so edges from an earlier file survive while the edge count restarts at 0 | load "1 2", then load "2 3" into the same graph: the edge 0-1 is still there | a reload holds exactly the new file's edges | high, not executed | AdjacencyGraph.ReloadKeepsStaleEdges | AdjacencyGraph.Graph.CreateFromFileFresh |
| lab2/include/ColoringState.h:27-31 | the constructor leaves `uncoloredVertices` empty, so `isComplete()` is true on a fresh state | a one-vertex graph: a fresh state reports itself complete while vertex 0 has colour -1 | every vertex starts in the uncoloured list, as lab3/codigo/src/ColoringState.cpp:6-8 does | high, not executed | GlobalColoringState.FreshStateLooksComplete | GlobalColoringState.FreshStateIsIncomplete |
| lab3/codigo/src/ColoringState.cpp:18-38 | a colour at or beyond both the class count and `targetColors` is turned down only after the vertex left its class and its old conflicts were subtracted | triangle, 2 target colours: colour vertices 0 and 1 with 0 (one conflict), then ask for colour 5 on vertex 1; the count drops to 0 while both still share colour 0 | check the colour range before touching the state | high, not executed | IncrementalColoringState.OversizedColorDropsConflict | IncrementalColoringState.OversizedColorKeepsConflict |
| lab1/src/hashTable.cpp:214-223 | removal clears the slot without a tombstone, so a key placed further along the same probe path can no longer be found | insert states 1,2,5 and 2,8,4 (same home slot 225722 with a table of 2^18; the second is placed at 243087 after stride 17365), remove the first: `contains` of the second is false | a removal keeps every other stored state findable | high, not executed | DoubleHashing.RemoveAsWrittenHidesState | DoubleHashing.TombstoneKeepsStateFound |
