# Doctrina containers: a Dafny model

Doctrina is a small C library of containers. This project models its four parts that carry
unbounded properties and proves those properties for all inputs, all runs and all reachable states:

* the **pairing heap** (`src/heap.c`): shape, heap order, conservation, sorted draining, teardown,
  and the amortised bound on the number of comparisons;
* the **hash function** (`src/internal/hash.c`; it is named `xxh3`, its arithmetic is that of
  XXH64 with little-endian reads): the loops against a specification over pieces of the input, and
  which parts of the computation can be undone;
* the **open-addressing map and set** (`src/map.c`, `src/set.c`) for an arbitrary hash function:
  when the table is a finite map, what a deletion does to other keys, when an insertion fails, and
  the serialisation of a set;
* their clients: **graph construction** (`src/graph.c`) as a multigraph, and the **trie**
  (`src/trie.c`) as a set of words.

## How it is laid out

Each part has a specification on values and, beside it, the code as it runs.

| files | what they hold |
|---|---|
| `PairingTree`, `PairingPotential`, `PairingRuns` | child/sibling trees as values, the potential, runs over many heaps |
| `PairingHeap`, `PairingProgram` | `heap_node_t` and `heap_t` as classes linked in place, and programs over many such heaps |
| `Products` | the nonlinear arithmetic of the amortised analysis |
| `Words`, `XorBytes`, `XxHash`, `XxHashProofs` | `uint64_t` operators, the hash as a function, its proofs and its loops |
| `ReferenceValues` | published values of XXH64, one for each path through the hash |
| `Probing`, `Capacity` | linear probing over a fixed table, for any hash and any bucket contents |
| `MapModel`, `HashMap` | `src/map.c` on tables and as a class over an array of buckets |
| `SetModel`, `HashSet` | the same for `src/set.c`, with `set_getall` |
| `Counterexamples` | inputs on which `src/map.c` is not a finite map, for the library's own hash |
| `GraphModel`, `Graph` | graph construction on an explicit memory, and as a class that holds a `HashMap.Map` of nodes and a `HashSet.Set` for each node |
| `Trie` | trie nodes with 255 child pointers |

A pointer graph is described by a ghost value that names its objects: `Shape` for a heap (a finite
tree of node objects, none twice), a map from paths to nodes for a trie (no node at two paths). The
methods keep these values in step with the pointers, so "no sharing, no cycles" is part of `Valid()`.

`uint64_t` is the natural numbers below 2^64 with `Add`, `Sub`, `Mul` reduced modulo 2^64; `Xor` is
computed bit by bit and `ShiftRight` by halving; they are the operators of the machine
(`XorBytes.XorWord`, `Words.ShiftIsQuotient`). A `heap_compare_t` is a function `cmp` to `int`;
order is claimed where `cmp(a, b) <= 0` is a total preorder, everything else for any `cmp`.

What `calloc` and `free` do is a set of allocated objects that the methods pass on: `Free` demands that
the object is allocated, so nothing is freed twice, and each contract says which objects are left. A
teardown also returns the objects in the order in which it freed them: a node comes after everything
that is reached through it.

The probing theory does not depend on the hash. `Refines(t, hash, m)` says that the table t stands
for the finite map m: looking up each stored key leads to its slot, and the stored entries are those
of m. A run keeps this after every operation exactly if it is a `SafeRun`, in which no deletion
empties a slot that another stored key is probed for through (`MapModel.AlwaysRefinesIff`,
`SetModel.AlwaysRefinesIff`); runs without deletions are safe (`MapModel.PutsAreSafe`).

Promises that the code keeps only sometimes are stated with the exact condition, and
`Counterexamples.LibraryFails` has inputs for the library's own hash on which they fail:

* a probe sequence visits every slot exactly if `hash + size` does not pass 2^64 or `size` divides
  2^64 (`Probing.CoversIff`); which slots it visits otherwise is `Reached`, and `map_set` fails exactly
  if the key is not found and those slots are occupied (`Probing.WriteFailsExactly`). In a table of
  three slots a key with the largest hash is refused while slot 2 is empty;
* after `map_del` another stored key is still found exactly if its probe does not pass the emptied
  slot (`Probing.RemoveLookup`, `Probing.RemoveRefines`). In a table of two slots deleting a key loses
  the other one if both hash to the same slot;
* a key that is not found comes back with a write to another key exactly if the write fills the slot
  where its probe ended and a copy of it lies behind, with no other gap on the way
  (`Probing.WriteBringsBackIff`). After deletions that broke a chain, a deleted key can come back; with
  intact chains it cannot (`Probing.WriteKeepsAbsent`), and a deletion never brings a key back
  (`Probing.RemoveKeepsAbsent`);
* after `map_set` the new value is what `map_get` returns exactly if the key was new or the length
  recorded for it is the length of the new value, and there is a data buffer (`MapModel.SetThenGet`),
  since `bucket_update` does not store the new length and an empty value has no buffer. A value of two
  bytes for a key that was made with one comes back as one byte.

An empty key is compared by `memcmp` of no bytes, which is taken to find it equal to itself.

## Model

| member | source | states |
|---|---|---|
| PairingTree.MergeNodesElems | src/heap.c:37-59 | merging two roots keeps exactly the elements of both |
| PairingTree.MergeNodesOrdered | src/heap.c:37-59 | merging two heaps gives one root in heap order |
| PairingTree.MergePairsShape | src/heap.c:61-80 | for every list: one root without sibling, as many nodes, and one comparison less than there are trees |
| PairingTree.MergePairsElems | src/heap.c:61-80 | the two-pass merge keeps exactly the elements of the list |
| PairingTree.MergePairsOrdered | src/heap.c:61-80 | the two-pass merge of an ordered list is a heap |
| PairingTree.RootIsMinimum | src/heap.c:148-156 | the root of a heap is a minimum of its contents |
| PairingTree.MergeNodesRoot | src/heap.c:49-58 | of two minima the one of the first heap stays at the root unless the second is less, also when they compare equal |
| PairingTree.MergePairsTop | src/heap.c:61-80 | the new root is the first among the least roots of the list: at most all of them, strictly below the earlier ones |
| PairingTree.DrainSorts | src/heap.c:158-175 | popping until empty gives a permutation of the contents in `cmp` order |
| PairingTree.MergeNodesInOrder | src/heap.c:177-193 | merging a tree into a heap leaves a heap if and only if the tree is in the order of the heap |
| PairingPotential.MergeNodesPotential | src/heap.c:37-59 | merging sizes m and n changes the potential by exactly (m+n)(m+n-1)/(mn) |
| PairingPotential.MergePairsPotential | src/heap.c:61-80 | the two-pass merge of k trees and s nodes raises the potential by at most 4s^3/2^k |
| PairingPotential.MergeAmortised | src/heap.c:131-146 | push and merge: 2^comparisons times new potential is at most 2N times the old |
| PairingPotential.PopAmortised | src/heap.c:158-175 | pop: 2^comparisons times new potential is at most 2N^2 times the old |
| PairingRuns.RunContents | src/heap.c:131-193 | over every run of push, pop and merge: contents plus popped equals initial contents plus pushed |
| PairingRuns.RunOrdered | src/heap.c:131-193 | over every run each heap stays a heap, with a minimum at its root |
| PairingRuns.RunAmortised | src/heap.c:131-193 | 2^comparisons times the final potential is at most (2N^2)^m times the initial one |
| PairingRuns.ComparisonBound | src/heap.c:131-193 | m operations on heaps started empty, never above N nodes, make C comparisons with 2^C <= (2N^2)^m |
| PairingRuns.ComparisonsLogarithmic | src/heap.c:131-193 | with at most 2^e nodes, m operations make at most (2e+1)m comparisons |
| PairingRuns.PushAll | src/heap.c:131-146 | pushing a sequence puts exactly its elements into the heap |
| PairingRuns.PopAll | src/heap.c:158-175 | popping a heap as often as it has nodes pops what draining it gives, and leaves it empty |
| PairingRuns.HeapSorts | src/heap.c:131-175 | pushing a sequence on a new heap and popping as often sorts it |
| PairingHeap.MergeNodes | src/heap.c:37-59 | the pointer version builds exactly the merged tree from the same nodes, without sharing |
| PairingHeap.MergePairs | src/heap.c:61-80 | the recursion on pointers builds exactly the two-pass merge from the same nodes and makes that many comparisons |
| PairingHeap.Compare | src/heap.c:49-49 | one call of cmp adds one to the count |
| PairingHeap.DestroyNode | src/heap.c:82-97 | teardown terminates and frees the nodes of the forest in post-order |
| PairingHeap.PostOrderOnce | src/heap.c:82-97 | no node is freed twice |
| PairingHeap.FreedAfterBelow | src/heap.c:82-97 | every node is freed after all nodes below its child and its sibling, through which it is read |
| PairingHeap.Heap.constructor | src/heap.c:100-114 | a new heap is empty |
| PairingHeap.Heap.Absorb | src/heap.c:143-143 | assigning the merged root unites the nodes and the elements, and keeps the heap valid if and only if what is merged in has its order |
| PairingHeap.Heap.Destroy | src/heap.c:116-129 | frees exactly the nodes of the heap, in post-order, and then the heap itself |
| PairingHeap.Heap.Push | src/heap.c:131-146 | adds one element, in one newly allocated node, and keeps the heap valid; the old minimum stays what heap_poll returns unless the new element is less |
| PairingHeap.Heap.Poll | src/heap.c:148-156 | NULL exactly for an empty heap, otherwise a minimum |
| PairingHeap.Heap.Pop | src/heap.c:158-175 | takes out a minimum, frees exactly its node, and keeps the heap valid; the next minimum is the first least of the children of the old root |
| PairingHeap.Heap.Merge | src/heap.c:177-193 | the multiset union, in the nodes of both; the minimum of the first stays on top unless that of the second is less; the second heap is freed; the result is a heap if and only if the second has the order of the first, as it has if both share `cmp`; NULL handles pass the other heap through |
| PairingProgram.Perform | src/heap.c:131-193 | one operation on heap objects that share no node is the step of the run, with as many calls of cmp |
| PairingProgram.Execute | src/heap.c:131-193 | a program over heap objects ends in the heaps, with the popped data and the calls of cmp, of the run of values |
| PairingProgram.ExecuteFromNew | src/heap.c:100-193 | the pointers of m operations on new heaps call cmp C times with 2^C <= (2N^2)^m |
| PairingProgram.Sort | src/heap.c:131-175 | the pointers sort n items into a permutation in `cmp` order, with C calls of cmp where 2^C <= (2n^2)^(2n) |
| Words.MulInverse | src/internal/hash.c:71-73 | multiplication modulo 2^64 is undone by the inverse factor |
| Words.ShiftIsQuotient | src/internal/hash.c:149-153 | the shift that halves repeatedly is `>>`: the quotient by 2^k |
| XorBytes.XorWord | src/internal/hash.c:94-153 | the exclusive or of the model is `^` on each of the eight bytes |
| Words.RotlInverse | src/internal/hash.c:50-53 | rotating by r and by 64 - r cancel |
| Words.UnXorShiftInverse | src/internal/hash.c:149-153 | `h ^= h >> r` is a bijection for r of at least 22 |
| XxHash.MixLaneBijection | src/internal/hash.c:126-129 | the mixing of a tail lane is a bijection of uint64_t |
| XxHash.StirBijection | src/internal/hash.c:130-146 | what follows the exclusive or in each tail step is a bijection of the accumulator |
| XxHash.FinishBijection | src/internal/hash.c:149-153 | the final mix is a bijection with an explicit inverse |
| XxHashProofs.ConsumesEveryByte | src/internal/hash.c:61-147 | the stripes, lanes, word and bytes that are read are the input cut up, each byte once |
| XxHashProofs.StepInjective | src/internal/hash.c:124-147 | from equal results of a tail step, equal accumulators if and only if equal pieces |
| XxHashProofs.TailInjective | src/internal/hash.c:122-155 | inputs of one length that differ in at most one tail piece have equal hashes if and only if they are equal |
| XxHashProofs.OneStripeInjective | src/internal/hash.c:69-88 | inputs that differ in at most one stripe leave the stripe loop alike if and only if they are equal |
| XxHashProofs.SeedInjective | src/internal/hash.c:117-155 | for inputs below 32 bytes different seeds give different hashes |
| XxHashProofs.InitShift | src/internal/hash.c:64-67 | adding to the seed adds the same to each of the four accumulators |
| XxHashProofs.StripesSeedInjective | src/internal/hash.c:61-88 | over the same stripes different seeds leave different accumulators |
| ReferenceValues.EmptyInput | src/internal/hash.c:117-155 | the empty input has the XXH64 values for the seeds 0 and 2654435761 |
| ReferenceValues.EightZeros | src/internal/hash.c:117-155 | eight zero bytes have their XXH64 value: the lane path |
| ReferenceValues.ShortInput | src/internal/hash.c:117-155 | 31 bytes of text with seed 1 have their XXH64 value: three lanes, a word and three bytes |
| ReferenceValues.LongInput | src/internal/hash.c:55-156 | 39 bytes of text have their XXH64 value: stripe, convergence, word and byte paths |
| XxHashProofs.Hash8Bijection | src/internal/hash.c:117-155 | on eight-byte keys the hash is a bijection, with Unhash8 as its inverse in both directions |
| XxHashProofs.OneLaneBijection | src/internal/hash.c:124-155 | for every input and seed, one eight-byte lane of the tail can be chosen in exactly one way to give any wanted hash |
| XxHashProofs.Xxh3 | src/internal/hash.c:55-156 | the loops terminate and compute the specified hash for every input and seed |
| XxHashProofs.StripeLoop | src/internal/hash.c:61-115 | the do-while loop covers exactly the full stripes |
| XxHashProofs.LaneLoop | src/internal/hash.c:124-133 | the lane loop stops within eight bytes of the end and has folded the lanes before |
| XxHashProofs.WordAndByteLoop | src/internal/hash.c:135-147 | the word and byte steps fold the rest |
| Probing.LookupRefines | src/map.c:205-262 | a probe finds a key exactly if it is in the finite map, at its value |
| Probing.WriteOwn | src/map.c:264-291 | in every table: what is written under a key is what its next probe finds |
| Probing.WriteFrame | src/map.c:264-291 | in every table: a write leaves all other keys that could be found where they are |
| Probing.WriteUncovers | src/map.c:264-291 | in every table: what a write does to the probe for any other key that was not found |
| Probing.WriteBringsBackIff | src/map.c:264-291 | in every table: a write brings another key back if and only if it fills the gap in front of a copy of that key |
| Probing.WriteKeepsAbsent | src/map.c:264-291 | with intact chains a write makes no other key appear |
| Probing.WriteRefines | src/map.c:264-291 | a successful write is the update of the finite map, for any hash and any wrap-around |
| Probing.RemoveOwn | src/map.c:293-318 | in every table: a deleted key is gone and a second deletion fails |
| Probing.RemoveLookup | src/map.c:293-318 | in every table: another key is still found exactly if its probe does not pass the emptied slot |
| Probing.RemoveKeepsAbsent | src/map.c:293-318 | in every table: a deletion makes no other key appear |
| Probing.RemoveRefines | src/map.c:293-318 | the table stands for the map minus the key exactly if no other stored key is probed for through the emptied slot |
| Probing.EmptyNextIsSafe | src/map.c:293-318 | without harmful wrap-around an empty next slot makes the deletion safe |
| Probing.CleanSlot | src/map.c:271-273 | without harmful wrap-around the probes walk once around the table |
| Probing.CoversIff | src/map.c:271-273 | a probe sequence visits all slots if and only if it does not wrap or the size divides 2^64 |
| Probing.VisitsIff | src/map.c:271-273 | the slots that a probe sequence visits, wrapped or not |
| Probing.WriteFailsExactly | src/map.c:264-291 | in every table: map_set fails if and only if the key is not found and all slots that its sequence reaches are occupied |
| Probing.WriteFailsIff | src/map.c:264-291 | without harmful wrap-around map_set fails if and only if the key is absent and no slot is empty |
| Counterexamples.DeletionLoses | src/map.c:293-318 | in a table of two slots, deleting one of two keys with the same slot loses the other |
| Counterexamples.DeletedKeyReturns | src/map.c:264-318 | a key that map_del has removed comes back when another key is set |
| Counterexamples.WrapFails | src/map.c:264-291 | map_set refuses a key with the largest hash although a slot is empty |
| Counterexamples.LongerIsCut | src/map.c:107-141 | in a table of one slot, a longer value comes back cut |
| Counterexamples.LibraryFails | src/map.c:203-318 | all four happen with `__hash__` and its seed, on eight-byte keys |
| Capacity.FullAtCapacity | src/map.c:264-291 | a table that stands for m is full if and only if m has as many keys as slots |
| MapModel.SetThenGet | src/map.c:107-125 | for every update that the code defines: map_get returns the value just set if and only if the key was new or its recorded length is the same, and the bucket has data |
| MapModel.ShorterUpdateIsUndefined | src/map.c:107-141 | after a shorter update map_get reads beyond the buffer |
| MapModel.EmptyValueExits | src/map.c:127-141 | a key made with an empty value makes map_get exit |
| MapModel.LongerUpdateIsCut | src/map.c:107-141 | a longer update comes back cut to the recorded length |
| MapModel.DelThenGone | src/map.c:293-318 | after a successful map_del: map_exists is 0, map_get is NULL, map_del is -1 |
| MapModel.AlwaysRefinesIff | src/map.c:205-318 | the table stands for the finite map after every operation of a run if and only if no deletion breaks a chain |
| MapModel.RunRefines | src/map.c:205-318 | over every safe run map_get and map_exists agree with the finite map on all keys and every answer is defined |
| MapModel.EqualLengthRun | src/map.c:205-318 | over safe runs with one value length for each key, map_get returns the value last set and not deleted since, NULL otherwise |
| MapModel.PutsAreSafe | src/map.c:264-291 | delete-free runs are safe |
| MapModel.RunIsBoundedMap | src/map.c:264-318 | over safe runs that set no key with harmful wrap-around, the table is a finite map of bounded capacity |
| MapModel.NewMapRun | src/map.c:153-174 | from map_new(n): over such runs the table is a finite map that takes exactly n keys |
| HashMap.Bucket.Update | src/map.c:107-125 | the data buffer after bucket_update, the recorded length unchanged; the buffer must have room |
| HashMap.Map.constructor | src/map.c:153-174 | a new map is an empty table |
| HashMap.Map.Get | src/map.c:205-236 | the probe loop answers as the table does, the exit in bucket_data included |
| HashMap.Map.Exists | src/map.c:238-262 | the probe loop finds exactly the keys the table holds |
| HashMap.Map.Set | src/map.c:264-291 | the probe loop writes exactly the specified slot, or returns -1 and changes nothing |
| HashMap.Map.Del | src/map.c:293-318 | the probe loop empties exactly the slot of the key, or returns -1 and changes nothing |
| SetModel.AddRefines | src/set.c:243-294 | set_exists is membership; set_add adds the key and nothing else, and leaves a set that has it alone |
| SetModel.AddFailsIff | src/set.c:269-294 | set_add fails if and only if the key is new and there is no empty slot |
| SetModel.RemoveRefinesSet | src/set.c:296-321 | the table stands for the set minus the key if and only if no other key is probed for through the slot |
| SetModel.AlwaysRefinesIff | src/set.c:243-321 | the table stands for the finite set after every operation of a run if and only if no removal breaks a chain |
| SetModel.RunRefines | src/set.c:243-321 | after a safe run set_exists is membership in the finite set |
| SetModel.RunIsBoundedSet | src/set.c:269-321 | over safe runs that add no key with harmful wrap-around, the table is a finite set of bounded capacity |
| SetModel.NewSetRun | src/set.c:110-131 | from set_new(n): over such runs the table is a finite set that takes exactly n keys |
| SetModel.JoinedIs | src/set.c:188-241 | the answer is NULL if and only if every slot is empty, otherwise the keys one after the other, whatever their lengths |
| SetModel.InOrderAppend | src/set.c:199-238 | the keys come in slot order |
| SetModel.GetAllRoundTrip | src/set.c:188-241 | the answer is NULL if and only if the set is empty; for keys of one length, its chunks are the keys of the set, each once |
| HashSet.Set.constructor | src/set.c:110-131 | a new set is an empty table of as many slots as asked for |
| HashSet.Set.Exists | src/set.c:243-267 | the probe loop finds exactly the keys of the table |
| HashSet.Set.Add | src/set.c:269-294 | the probe loop adds the key as specified, or returns -1 and changes nothing |
| HashSet.Set.Remove | src/set.c:296-321 | the probe loop empties exactly the slot of the key, or returns -1 |
| HashSet.Set.GetAll | src/set.c:188-241 | the concatenation of the keys in slot order, its length, and NULL for an empty set; the exit in bucket_key exactly for an empty key |
| GraphModel.AddNodeRepresents | src/graph.c:354-378 | equal data share one node, new data get a new node without edges; the exit is taken exactly when map_set fails |
| GraphModel.EdgeSetFull | src/graph.c:120-127 | the sixteen-slot edge set takes exactly 16 edges, whatever the hash |
| GraphModel.OutDegree | src/graph.c:380-386 | the keys in the edge set of a node are the edges of the calls with that source, as many as there were calls |
| GraphModel.AddEdgeRepresents | src/graph.c:380-386 | graph_add_edge adds exactly its call to the multigraph |
| GraphModel.AddEdgeFailsIff | src/graph.c:354-386 | it exits if and only if the data do not fit into the map or the source has sixteen edges |
| GraphModel.RunRepresents | src/graph.c:354-386 | every run without exit builds the multigraph of its calls |
| GraphModel.RunSucceedsIff | src/graph.c:354-386 | without harmful wrap-around a run gets through if and only if the distinct data fit into the map and no source has more than sixteen calls |
| GraphModel.NewGraphRun | src/graph.c:129-143 | from a new graph: exactly under these limits, and then the multigraph of the calls is built |
| GraphModel.AddEdgeReady | src/graph.c:354-386 | an address found in the node map is always that of a node with an edge set, for both calls of graph_add_node |
| Graph.Graph.constructor | src/graph.c:129-143 | a new graph has no nodes and no calls |
| Graph.Graph.CreateNode | src/graph.c:68-84 | the new node has its data and an empty edge set that no other node shares |
| Graph.Graph.AddNode | src/graph.c:354-378 | the node is found or made as specified, the exit is taken exactly when specified, and no two nodes share memory |
| Graph.Graph.Connect | src/graph.c:382-383 | the destination node is found or made, and the new edge leads to it |
| Graph.Graph.NodeAddEdge | src/graph.c:120-127 | enters the edge into the set of that node only, or exits exactly when set_add fails |
| Graph.Graph.AddEdge | src/graph.c:380-386 | it exits exactly when specified; on success the graph is the multigraph of the earlier calls and this one |
| Trie.Trie.constructor | src/trie.c:73-85 | a new trie has no words |
| Trie.Trie.Insert | src/trie.c:107-124 | adds exactly the word and nodes for exactly its prefixes, keeps the node graph a tree and every earlier node at its path |
| Trie.Trie.Search | src/trie.c:126-142 | true if and only if the word is in the trie |
| Trie.TrieNodeDestroy | src/trie.c:48-66 | frees exactly the nodes of the subtree, in post-order |
| Trie.PostOrderNodes | src/trie.c:48-66 | every node of the subtree is freed, and none twice |
| Trie.FreedAfterBelow | src/trie.c:48-66 | every node is freed after all nodes below it |
| Trie.Trie.Destroy | src/trie.c:87-105 | frees every node of the trie and no other |

## Left out

- Graph.Graph.CreateNode: nodes and edges are kept field by field for each address (data, edge set, destination) instead of as one object each, because their addresses are stored as bytes; the addresses returned by calloc are parameters that must be unused. The data a node points to are taken as their bytes at the time of the call.
- Graph.Graph.AddEdge: when the code exits, what has been allocated by then is not described further.
- HashMap.Map.Set: an update that writes past its buffer (the recorded length again, after a shorter update) or reallocates it to no bytes has no defined effect and is excluded by `Settable`.
- MapModel.RunRefines: runs with an empty value or an update shorter than the recorded length are outside `AdmissibleRun`: after one, map_get may exit or read beyond the buffer.
- HashMap.Map.Get: a bucket whose buffer is shorter than its recorded length, which a shorter update leaves, is read beyond its end; such a call has no defined answer and is excluded.
- PairingHeap.Heap.Merge: the two heaps are distinct, as the code needs; a heap merged from two orders is not in order, and no operation on it is modelled.
- PairingHeap.DestroyNode: the set of allocated objects says what is freed and that it was allocated until then, not what happens to the memory.
- Trie.Trie.Insert: words are made of bytes 1 to 254; byte 255 is not an index into the 255 children.
- XxHashProofs.Xxh3: reads are little-endian; a big-endian machine computes a different function.
- XxHashProofs.TailInjective: two inputs that differ in a stripe may have equal hashes; nothing is claimed there beyond `OneStripeInjective`.
- `graph_bfs` and `graph_dfs`: as written `visited` is never added to, a byte count is used as an edge count, and the buffer returned by `map_get` is used as the node.
- `src/deque.c`: the writer is reset and resizing is tried in ways that leave no general first-in first-out order.
- `src/stack.c`, `src/pq.c`, `src/list.c`, `set_get`, and the empty `btree` and `rtree` files would add only easy members.
- Allocation failure, messages on stderr, leaked buffers and NULL containers are not modelled; calloc always returns a new zeroed object.
- The statistical quality of the hash is not addressed.
