# Consistent hashing rings and collision-resolution hash tables

This project models the five Python classes at the heart of the
consistent-hashing design repository:

- `ConsistentHashRing` of hashring_simulation.py is the weighted ring. It has a
  sorted list `ring` of virtual-node positions, a map `nodes_map` from position
  to physical node, and a map `weights` from node to weight.
  - `add_node` places `vnodes * weight` virtual nodes. When a position is
    taken, it re-hashes the key with `"_collision"` appended.
  - `remove_node` recomputes the unsuffixed positions and pops them.
  - `get_nodes` walks clockwise from `bisect_left`, collecting up to `n`
    distinct owners.
- `ConsistentHashRing` of consistent_hashring.py is the minimal ring. It has
  no weights and no collision handling: `add_node` and a single-owner
  `get_node`.
- `RobinHoodHash`: open addressing that records each entry's distance from its
  home slot. An entry being placed that is further from home than the resident
  takes the slot.
- `ChainingHash`: separate chaining. Each bucket is a list of `(key, value)`
  tuples, and `_resize` doubles the capacity once the load factor reaches 0.75.
- `LinearProbingHash`: open addressing with linear probing.

Each class is a Dafny `class` with the fields the Python updates. Python
lists become `seq` fields that the methods reassign, and the flat slot lists
of the two open-addressing tables become `array`s updated in place. Every
method is proved against a specification:

- The rings are specified by state functions and predicates (`AddNodeState`,
  `AddStep`, `RemoveState`), with the consistent-hashing properties proved
  about those.
- The tables are specified by a ghost map `M` from key to value together with
  a layout predicate tying `M` to the slots or buckets.

Modules:

| module | file | contents |
|---|---|---|
| `Wrappers` | wrappers.dfy | `Option` |
| `Bisect` | bisect.dfy | sorted sequences, `bisect_left` (`LowerBound`), `insort` (`InsertSorted`), the owning position of a hash (`IsSuccessor`, `Successor`) |
| `RingKeys` | ring_keys.dfy | `str(n)` and its reading back, the virtual-node key `f"{name}#{i}"`, the `"_collision"` suffix, a node's positions |
| `Modular` | modular.dfy | wrapping probe sequences `(h % n + e) % n` |
| `Slots` | slots.dfy | the `(key, value)` tuple, the outcome of an `insert`, counting taken slots |
| `MinimalRing` | minimal_ring.dfy | consistent_hashring.py |
| `WeightedRing` | weighted_ring.dfy | hashring_simulation.py, lines 8-75 |
| `RobinHood` | robin_hood.dfy | robin_hood_hashing.py |
| `SeparateChaining` | separate_chaining.dfy | separate_chaining.py |
| `LinearProbing` | linear_probing.dfy | open_addressing_linear_probing.py |

Hash functions are parameters, given to each constructor as a function
`Hash`. This covers mmh3, MD5 and Python's `hash`. The ring properties hold
for every hash function, except where a lemma names its assumption about
collisions. The weighted ring's `add_node` loops until a suffixed key hashes
to a free position, so its model requires exactly the inputs on which that
loop ends (`AddEnds`). Collisions are allowed. `AddEnds` holds, for example,
whenever no virtual node's unsuffixed position is taken or shared with another
(`NoCollisionEnds`).

An `insert` that the Python would abort with an exception returns an
`Outcome` and leaves the table untouched:

- `NoCapacity`: `size / capacity` on a capacity of 0 raises `ZeroDivisionError`.
- `ResizeMissing`: in the two open-addressing tables, once `size / capacity >= 0.75`,
  `insert` calls `self._resize()`, which neither class defines, so Python
  raises `AttributeError`.

The load-factor test `size / capacity >= 0.75` is modelled as the exact
integer comparison `4 * size >= 3 * capacity`.

## Model

| member | source | states |
|---|---|---|
| `Bisect.LowerBound` | hashring_simulation.py:51 | `bisect_left`: an index in `0..len(s)` with every value before it below `x` and every value from it on at least `x` |
| `Bisect.InsertSorted` | hashring_simulation.py:36 | `insort` keeps the list sorted, adds exactly one copy of `x` and keeps every other value (multiset) |
| `Bisect.InsertSortedStrict` | hashring_simulation.py:32-36 | `insort` of a value not already in a strictly sorted list keeps it free of repeats |
| `Bisect.Successor` | consistent_hashring.py:43-47 | `s[bisect_left(s, h) % len(s)]` is the owning position of `h`: the least position at or after `h`, or the least position of all when `h` is past the last |
| `Bisect.SuccessorOnly` | consistent_hashring.py:43-47 | the owning position of a hash is unique, and it is the one the modulo wrap-around picks |
| `Bisect.SuccessorSurvivesRemoval` | hashring_simulation.py:53-55 | removing other positions does not change which position owns a hash |
| `Bisect.PopStrict` | hashring_simulation.py:54 | `ring.pop(idx)` on a strictly sorted ring removes exactly `ring[idx]` and keeps it strictly sorted |
| `Bisect.StrictlySortedUnique` | hashring_simulation.py:36 | a strictly sorted ring is determined by its set of positions |
| `RingKeys.NatToString` | hashring_simulation.py:28 | `str(i)` for a natural number: a non-empty string of decimal digits |
| `RingKeys.ParseNatToString` | hashring_simulation.py:28 | the decimal string of `i` reads back as `i`, so `str` loses nothing |
| `RingKeys.VnodeKey` | hashring_simulation.py:28-29 | the key `f"{name}#{i}"`: the node name, then `#`, then digits that read back as `i` |
| `RingKeys.VnodeKeyInjective` | hashring_simulation.py:27-29 | two virtual nodes of one node with equal keys have the same index, so the keys of `range(effective_vnodes)` are pairwise distinct |
| `RingKeys.Collided` | hashring_simulation.py:32-34 | the key after `j` rounds of `vnode_key += "_collision"`: the original key in front, ten characters longer per round |
| `RingKeys.Positions` | hashring_simulation.py:47-49 | the positions `hash(f"{name}#{i}")` for `i` in `range(count)`, in order |
| `Modular.ProbeNext` | open_addressing_linear_probing.py:22 | one step of `index = (index + 1) % capacity` is one more step along the probe sequence from the home slot |
| `Modular.ProbeInjective` | robin_hood_hashing.py:46-47 | fewer than `capacity` steps from a home slot never visit a slot twice |
| `Slots.OccupiedUpdate` | open_addressing_linear_probing.py:24-25 | filling a slot adds one to the count of taken slots exactly when the slot was empty |
| `Slots.FreeAhead` | robin_hood_hashing.py:22 | with fewer entries than slots, probing from any home slot meets an empty slot within `capacity` steps, so the insert loops end |
| `MinimalRing.AddNodeState` | consistent_hashring.py:20-32 | after `add_node(name)` the ring is still sorted and gains exactly the node's `vnodes` positions, with duplicates counted. Those positions are owned by `name`, overwriting any earlier owner, and every other position keeps its owner |
| `MinimalRing.AddNodeOwns` | consistent_hashring.py:22-32 | `add_node` grows `ring` by exactly `vnodes` entries and leaves `nodes_map[hash(f"{name}#{i}")] == name` for every `i < vnodes` |
| `MinimalRing.CollisionOverwrites` | consistent_hashring.py:28-32 | two nodes whose virtual nodes share a position: the node added second owns it (last writer wins), and the position appears in `ring` twice |
| `MinimalRing.Build` | consistent_hashring.py:5-14 | the ring built from a node list keeps the sorted-ring invariant |
| `MinimalRing.BuildOwners` | consistent_hashring.py:12-14 | every position of a built ring is owned by one of the nodes it was built from |
| `MinimalRing.BuildStep` | consistent_hashring.py:12-14 | building from one more node is one more `add_node` |
| `MinimalRing.ConsistentHashRing.constructor` | consistent_hashring.py:5-14 | constructing with a node list gives the same state as `add_node` on each node in order |
| `MinimalRing.ConsistentHashRing.AddNode` | consistent_hashring.py:20-32 | the loop of `insort` and map writes leaves exactly the state `AddNodeState` describes, and keeps the ring sorted with every position owned |
| `MinimalRing.ConsistentHashRing.InsertVnode` | consistent_hashring.py:28-32 | one turn of the loop: `insort` into the ring and a write of the owner map |
| `MinimalRing.ConsistentHashRing.GetNode` | consistent_hashring.py:34-50 | `None` exactly when the ring is empty; otherwise the owner of the position that owns the key's hash, wrapping to `ring[0]`; reads only |
| `WeightedRing.VnodeCountIsProduct` | hashring_simulation.py:25 | the number of virtual nodes is `vnodes * weight` |
| `WeightedRing.FirstFreeUnique` | hashring_simulation.py:32-34 | the collision loop's stopping point is unique: a key has one first free position on its suffix chain |
| `WeightedRing.PlacedFresh` | hashring_simulation.py:32-37 | every placed position was free before `add_node` and no position is placed twice, so no existing owner is overwritten |
| `WeightedRing.PlacedUnique` | hashring_simulation.py:27-37 | the placement `add_node` makes is determined by the positions already taken |
| `WeightedRing.AddKeepsInv` | hashring_simulation.py:32-37 | `add_node` keeps the ring strictly sorted and its set of positions equal to the keys of `nodes_map`. This is the whole-state form of what `AddingStep` proves one step at a time |
| `WeightedRing.AddMovesKeysOnlyToNewNode` | hashring_simulation.py:22-37 | after `add_node(name)`, any key either keeps its previous owner or now belongs to `name` |
| `WeightedRing.RemoveState` | hashring_simulation.py:39-55 | the state after `remove_node` keeps the invariant: the ring is strictly sorted and in sync with `nodes_map` |
| `WeightedRing.Without` | hashring_simulation.py:47-55 | the ring after popping a set of positions holds exactly its old positions minus that set |
| `WeightedRing.WithoutStrict` | hashring_simulation.py:53-55 | dropping positions keeps the ring strictly sorted |
| `WeightedRing.AddThenRemoveRestores` | hashring_simulation.py:22-55 | `add_node(X)` then `remove_node(X)` on a ring that did not know `X` gives back exactly the earlier ring, owner map and weights, provided no virtual node of `X` took the collision branch |
| `WeightedRing.CollisionBreaksRemove` | hashring_simulation.py:22-55 | when `X`'s first virtual node collided, `remove_node(X)` deletes the already-taken unsuffixed position and leaves `X`'s suffixed position on the ring, still owned by `X` |
| `WeightedRing.RemoveKeepsSurvivingOwners` | hashring_simulation.py:39-55 | a key whose owning position survives `remove_node` keeps that position and its owner |
| `WeightedRing.Clockwise` | hashring_simulation.py:66-68 | a walk of `k` steps meets `k` owners, one per step. `ClockwiseAt` states which owner each is |
| `WeightedRing.ClockwiseAt` | hashring_simulation.py:66-68 | step `i` of the clockwise walk reads the owner of `ring[(start_idx + i) % len(ring)]` |
| `WeightedRing.ClockwiseCovers` | hashring_simulation.py:66-68 | a walk over the whole ring meets the owner of every position |
| `WeightedRing.Dedup` | hashring_simulation.py:70-71 | dropping repeats never makes the list longer. `DedupMeaning` states what is kept |
| `WeightedRing.DedupMeaning` | hashring_simulation.py:70-71 | appending only names not yet collected gives a list with no repeats that holds every name met |
| `WeightedRing.DedupHead` | hashring_simulation.py:70-71 | the first name met is the first name collected |
| `WeightedRing.Capped` | hashring_simulation.py:73-74 | the `break` at `len(targets) == n` cuts the list to `n` names when `n >= 1` and never fires otherwise |
| `WeightedRing.GetNodesMeaning` | hashring_simulation.py:57-75 | on a non-empty ring `get_nodes` returns distinct names, each the owner of some position, at most `n` of them; when fewer than `n` come back (or `n < 1`), every owner on the ring is among them, so the length is `min(n, number of distinct owners)` |
| `WeightedRing.CountOwners` | hashring_simulation.py:70-74 | a repeat-free list of owners, at most `n >= 1` long and holding every owner when shorter than `n`, has `min(n, number of distinct owners)` entries |
| `WeightedRing.GetNodesCount` | hashring_simulation.py:57-75 | with `n >= 1`, `get_nodes(key, n)` on a non-empty ring returns exactly `min(n, number of distinct owners)` names |
| `WeightedRing.GetNodesFirst` | hashring_simulation.py:61-71 | the first name returned owns the smallest position at or after the key's hash, wrapping to `ring[0]` |
| `WeightedRing.GetNodesStep` | hashring_simulation.py:66-71 | one turn of the loop extends the deduplicated walk by one step |
| `WeightedRing.CappedAtBreak` | hashring_simulation.py:73-74 | leaving the loop at `n` names returns the first `n` distinct owners of the whole walk |
| `WeightedRing.AddEndsFree` | hashring_simulation.py:32-34 | when the rest of the add loop ends (`AddEnds`), the chain of the next virtual node has a free position, so its collision loop stops |
| `WeightedRing.AddEndsStep` | hashring_simulation.py:27-37 | when the rest of the add loop ends, it still ends from the next virtual node on, after this one is placed at the first free position of its chain |
| `WeightedRing.NoCollisionEnds` | hashring_simulation.py:27-37 | when no virtual node's unsuffixed position is taken or shared with another of the node's virtual nodes, `add_node` ends, each loop on its first test |
| `WeightedRing.RemovingDone` | hashring_simulation.py:39-55 | once every unsuffixed position of the node is dropped from the ring and map, the state is exactly `RemoveState` |
| `WeightedRing.AddingStep` | hashring_simulation.py:36-37 | placing the next virtual node at the first free position of its chain keeps the add loop's invariant |
| `WeightedRing.AddingDone` | hashring_simulation.py:22-37 | the add loop, run to the end, has made exactly the step `add_node` promises |
| `WeightedRing.ConsistentHashRing.constructor` | hashring_simulation.py:9-16 | an empty ring with no owners and no weights |
| `WeightedRing.ConsistentHashRing.AddNode` | hashring_simulation.py:22-37 | requires exactly that every collision loop ends (`AddEnds`). It records `weights[name] = weight`. It places `vnodes * weight` fresh positions, each at the first free position of its `"_collision"` chain and owned by `name`. The ring stays strictly sorted, equals the keys of `nodes_map`, and every earlier owner is kept |
| `WeightedRing.ConsistentHashRing.PlaceVnode` | hashring_simulation.py:28-37 | requires only that the virtual node's chain has a free position. One turn of the add loop then inserts, owned by `name`, the first free position of that chain into the sorted ring; the owner map gains exactly that key |
| `WeightedRing.ConsistentHashRing.InsertVnode` | hashring_simulation.py:36-37 | `insort` into the ring and a write of the owner map; weights untouched |
| `WeightedRing.ConsistentHashRing.ResolveCollision` | hashring_simulation.py:28-34 | requires only that the key's `"_collision"` chain has a free position, which is exactly when the loop stops. It returns the first free position of that chain and the suffixed key that hashes to it |
| `WeightedRing.ConsistentHashRing.DropPosition` | hashring_simulation.py:51-55 | pops `h` from the ring and the owner map together when it is on the ring, and changes nothing otherwise; the ring stays strictly sorted |
| `WeightedRing.ConsistentHashRing.RemoveNode` | hashring_simulation.py:39-55 | an unknown node changes nothing. Otherwise the weight is dropped and every unsuffixed position of the node leaves the ring and the owner map together. The ring stays strictly sorted and in sync with `nodes_map` |
| `WeightedRing.ConsistentHashRing.GetNodes` | hashring_simulation.py:57-75 | `[]` on an empty ring; otherwise the first `n` distinct owners met walking clockwise from `bisect_left`; reads only |
| `RobinHood.DistMeaning` | robin_hood_hashing.py:46-47 | every stored triple's distance is `(slot - hash(key) % capacity) % capacity` |
| `RobinHood.KeysUnique` | robin_hood_hashing.py:30 | no key is stored in two slots |
| `RobinHood.Behind` | robin_hood_hashing.py:37-43 | the Robin Hood ordering: behind an entry `d` steps from a home, every slot back to that home is taken by an entry at least as far from its own home |
| `RobinHood.PlaceEmpty` | robin_hood_hashing.py:24-27 | reaching an empty slot means the carried key is new; storing it there keeps the layout and counts one more taken slot |
| `RobinHood.PlaceMatch` | robin_hood_hashing.py:30-32 | finding the carried key means it is stored in this slot at this distance; the new value keeps the layout and the count |
| `RobinHood.SwapKeeps` | robin_hood_hashing.py:37-43 | swapping a poorer entry in loses nothing: carrying the displaced resident on, the stored pairs are the old ones plus the carried pair |
| `RobinHood.SwapCarries` | robin_hood_hashing.py:37-47 | after a swap the layout holds and the resident is carried on from the next slot, one step further from home |
| `RobinHood.Pass` | robin_hood_hashing.py:46-47 | passing a resident at least as far from home moves the carried entry one slot on, one step further from its home |
| `RobinHood.WalkEndsEmpty` | robin_hood_hashing.py:24-27 | the loop ending at an empty slot stores the old map plus `key`, with one more taken slot |
| `RobinHood.WalkEndsMatch` | robin_hood_hashing.py:30-32 | the loop ending on the carried key means `key` was stored before the loop, in this slot of the untouched table, and only its value changes |
| `RobinHood.RobinHoodHash.constructor` | robin_hood_hashing.py:7-11 | `capacity` empty slots, size 0, the empty map |
| `RobinHood.RobinHoodHash.FillEmpty` | robin_hood_hashing.py:24-27 | the empty-slot branch stores the old map plus `key` and adds one to `size` |
| `RobinHood.RobinHoodHash.Overwrite` | robin_hood_hashing.py:30-32 | the same-key branch gives `key` the new value in its own slot; nothing else changes |
| `RobinHood.RobinHoodHash.Swap` | robin_hood_hashing.py:37-43 | the carried entry takes the slot and the resident is carried on from the next slot |
| `RobinHood.RobinHoodHash.Collide` | robin_hood_hashing.py:34-47 | one collision round: swap when the carried entry is further from home, otherwise leave the table alone; then move one slot on with the distance one higher |
| `RobinHood.RobinHoodHash.Insert` | robin_hood_hashing.py:13-47 | fails untouched on a zero capacity or a load of 0.75 or more. Otherwise it terminates, and the stored map becomes the old one with `key` mapped to `value`. `size` grows by 1 exactly when the key was absent. An existing key is updated in its own slot at the same distance, and nothing else changes. The distance, ordering and uniqueness invariants are kept |
| `SeparateChaining.EmptyTable` | separate_chaining.py:10 | `[[] for _ in range(n)]`: `n` buckets, all empty |
| `SeparateChaining.Overwritten` | separate_chaining.py:26-28 | the bucket with the tuple for `key` given the new value and every other tuple kept |
| `SeparateChaining.EmptyChained` | separate_chaining.py:6-11 | a fresh table stores the empty map and holds no tuple |
| `SeparateChaining.KeysUnique` | separate_chaining.py:26-33 | no key is stored at two places of the table |
| `SeparateChaining.ReplaceChained` | separate_chaining.py:26-29 | replacing the value where the key sits stores the map with the key updated and keeps the tuple count |
| `SeparateChaining.AppendChained` | separate_chaining.py:32-33 | appending a key absent from its bucket stores the map with the key added and counts one tuple more |
| `SeparateChaining.ChainedKeys` | separate_chaining.py:42-44 | the buckets hold exactly the keys of the stored map |
| `SeparateChaining.NotYetMoved` | separate_chaining.py:42-44 | walking the old buckets in order, every tuple carries a key not met before, an entry of the old map |
| `SeparateChaining.MoveNext` | separate_chaining.py:43-44 | re-inserting the next old tuple adds a new key and keeps the load below the threshold of the doubled table |
| `SeparateChaining.MovedAll` | separate_chaining.py:42-44 | once every old tuple is re-inserted, the stored map is the old map, and the load is below 0.75 |
| `SeparateChaining.ChainingHash.Index` | separate_chaining.py:13-15 | `_hash`: the home bucket `hash(key) % capacity`, within the table |
| `SeparateChaining.ChainingHash.constructor` | separate_chaining.py:6-11 | `capacity` empty buckets, size 0, the empty map |
| `SeparateChaining.ChainingHash.Insert` | separate_chaining.py:17-33 | fails untouched on a zero capacity. It resizes exactly when `4*size >= 3*capacity`, doubling the capacity. The stored map becomes the old one with `key` mapped to `value`, and `size` grows by 1 exactly when the key was new. Without a resize, only the key's bucket changes: overwritten in place, or the pair appended |
| `SeparateChaining.ChainingHash.Overwrite` | separate_chaining.py:26-29 | the update branch: only the key's bucket changes, its value is replaced in place, and `size` is unchanged |
| `SeparateChaining.ChainingHash.Append` | separate_chaining.py:32-33 | the append branch: the pair goes at the end of its bucket and `size` grows by 1 |
| `SeparateChaining.ChainingHash.Resize` | separate_chaining.py:35-44 | doubles the capacity and preserves the stored map and `size`, leaving the load below 0.75 |
| `SeparateChaining.ChainingHash.Clear` | separate_chaining.py:36-39 | the reset: the new capacity, all buckets empty, size 0 |
| `SeparateChaining.ChainingHash.MoveBucket` | separate_chaining.py:43-44 | re-inserting one old bucket adds exactly its keys to the stored map, with no nested resize |
| `SeparateChaining.FindKey` | separate_chaining.py:26-27 | the first position of the bucket holding `key`, or the bucket's length when no position does |
| `LinearProbing.KeysUnique` | open_addressing_linear_probing.py:19-25 | no key is stored in two slots |
| `LinearProbing.ReplaceKeepsLayout` | open_addressing_linear_probing.py:19-21 | overwriting the slot of a stored key stores the map with that key updated and keeps the count of taken slots |
| `LinearProbing.PlaceKeepsLayout` | open_addressing_linear_probing.py:18-25 | probing past other keys to an empty slot proves the key absent. Storing it there keeps the layout, including an unbroken run from every home slot to its entry, with one more taken slot |
| `LinearProbing.LinearProbingHash.constructor` | open_addressing_linear_probing.py:6-9 | `capacity` empty slots, size 0, the empty map |
| `LinearProbing.LinearProbingHash.FindSlot` | open_addressing_linear_probing.py:15-22 | the probe loop terminates. It stops, within `capacity` steps of the home slot, at the slot holding `key` or at an empty one, having passed only slots holding other keys |
| `LinearProbing.LinearProbingHash.Insert` | open_addressing_linear_probing.py:11-25 | fails untouched on a zero capacity or a load of 0.75 or more. Otherwise the stored map becomes the old one with `key` mapped to `value`. An existing key is updated in its own slot with `size` unchanged. A new key goes into the first empty slot on its probe sequence, every slot before it on that sequence taken, `size` grows by 1, and no other slot changes |
| `LinearProbing.LinearProbingHash.Overwrite` | open_addressing_linear_probing.py:19-21 | the update branch: only the key's own slot changes, and `size` is unchanged |
| `LinearProbing.LinearProbingHash.Fill` | open_addressing_linear_probing.py:24-25 | the closing lines: the empty slot reached gets the pair and `size` grows by 1 |

## Left out

- Hash functions: mmh3 (hashring_simulation.py:20), MD5 (consistent_hashring.py:18) and Python's per-process randomized `hash` are parameters of the constructors. Their values are not computed.
- Python's `str(i)` in the key `f"{name}#{i}"` is written out for natural numbers. Nothing depends on its digits beyond the keys being fixed strings.
- `WeightedRing.ConsistentHashRing.AddNode`: weights are natural numbers. A fractional weight and the truncation `int(vnodes * weight)` of a float are not modelled.
- `WeightedRing.ConsistentHashRing.AddNode`: it requires `AddEnds`, that the `"_collision"` chain of every virtual node reaches a free position. That excludes exactly the calls on which the Python loop never stops. A call that does not terminate is not modelled.
- Default arguments are not modelled: `n=2` of `get_nodes`, `vnodes=100` of both rings, `nodes=None` of the minimal ring (passed as the empty list, which `if nodes:` treats the same way), `weight=1` of `add_node` and `capacity=8` of the three tables. Callers of the model pass these values explicitly.
- `vnodes` of both rings and `capacity` of the three tables are natural numbers. Python also accepts negative values, which the model does not cover:
  - A negative `vnodes` gives an empty `range`, so it behaves like 0.
  - A negative `capacity` gives an empty slot or bucket list. The first `insert` then raises `IndexError`, because `0 / capacity >= 0.75` is false.
- `PhysicalNode`, `Infrastructure` and `main` (hashring_simulation.py:78-163) are left out. They are a print-driven simulation of servers around the ring.
- `bisect.bisect_left` and `bisect.insort` are modelled by what they compute, not by their binary search. The library code is not part of this model.
- `RobinHood.RobinHoodHash.Insert` returns `ResizeMissing` where the Python raises `AttributeError` for its undefined `_resize`. No resize is invented. The same holds for `LinearProbing.LinearProbingHash.Insert`.
- A zero capacity, where `size / capacity` raises `ZeroDivisionError`, returns `NoCapacity` in all three tables.
- Load factor: `size / capacity >= 0.75` is computed exactly as `4 * size >= 3 * capacity`. A float quotient rounded for a capacity beyond 2^53 is not modelled.
- `SeparateChaining.ChainingHash.Insert`: after a resize it states the stored map, `size` and the capacity, but not the order of tuples inside the new buckets.
- `RobinHood.RobinHoodHash.Insert`: for a new key it states the stored map, `size` and the layout invariants, but not the exact sequence of swapped slots.
- Exceptions other than the two above (a key whose `__eq__` or `__hash__` raises) and Python's object identity are not modelled. Keys are values compared with `==`.
- explore-hashing.py and siphash.rs are not part of this model. They only print hash values.
