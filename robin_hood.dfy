/**
 * `RobinHoodHash` of robin_hood_hashing.py: open addressing in which each
 * slot holds `(key, value, distance_from_home)`. An entry being placed that
 * is further from its home slot than the slot's resident takes the slot,
 * and the loop goes on to place the displaced resident. Python's `hash` is
 * the constructor's `hash` argument.
 */
module RobinHood {
  import opened Wrappers
  import opened Modular
  import opened Slots

  /** A stored `(key, value, distance_from_home)` triple. */
  datatype Entry<K, V> = Entry(key: K, val: V, dist: nat)

  /** Each stored triple sits `dist` slots past its key's home slot, with `dist` below the capacity. */
  ghost predicate DistOk<K, V>(t: seq<Option<Entry<K, V>>>, hash: K -> int) {
    forall i :: 0 <= i < |t| && t[i].Some? ==>
      t[i].value.dist < |t| && Probe(hash(t[i].value.key), t[i].value.dist, |t|) == i
  }

  /**
   * The Robin Hood ordering: an entry away from its home slot has, in the slot
   * before it, an entry at most one step closer to its own home.
   */
  ghost predicate Ordered<K, V>(t: seq<Option<Entry<K, V>>>) {
    forall i :: 0 <= i < |t| ==> OrderedAt(t, i)
  }

  /** The Robin Hood ordering at slot `i`. */
  ghost predicate OrderedAt<K, V>(t: seq<Option<Entry<K, V>>>, i: nat) {
    i < |t| &&
    (t[i].Some? && t[i].value.dist > 0 ==>
       t[Prev(i, |t|)].Some? && t[Prev(i, |t|)].value.dist + 1 >= t[i].value.dist)
  }

  /** The slots store the map `M`, key `k` in slot `Slot[k]`, and hold nothing else. */
  ghost predicate Stores<K, V>(t: seq<Option<Entry<K, V>>>, M: map<K, V>, Slot: map<K, nat>) {
    && M.Keys == Slot.Keys
    && (forall k :: k in Slot ==>
          Slot[k] < |t| && t[Slot[k]].Some? && t[Slot[k]].value.key == k && t[Slot[k]].value.val == M[k])
    && (forall i :: 0 <= i < |t| && t[i].Some? ==> t[i].value.key in Slot && Slot[t[i].value.key] == i)
  }

  ghost predicate Layout<K, V>(t: seq<Option<Entry<K, V>>>, hash: K -> int, M: map<K, V>, Slot: map<K, nat>) {
    DistOk(t, hash) && Ordered(t) && Stores(t, M, Slot)
  }

  /** The stored distance is `(slot - hash(key) % capacity) % capacity`. */
  lemma DistMeaning<K, V>(t: seq<Option<Entry<K, V>>>, hash: K -> int, i: nat)
    requires DistOk(t, hash) && i < |t| && t[i].Some?
    ensures t[i].value.dist == (i - hash(t[i].value.key) % |t|) % |t|
  {
    ProbeDistance(hash(t[i].value.key), t[i].value.dist, |t|);
  }

  /** No key is stored in two slots. */
  lemma KeysUnique<K, V>(t: seq<Option<Entry<K, V>>>, M: map<K, V>, Slot: map<K, nat>, i: nat, j: nat)
    requires Stores(t, M, Slot)
    requires i < |t| && j < |t| && t[i].Some? && t[j].Some? && t[i].value.key == t[j].value.key
    ensures i == j
  {
    assert Slot[t[i].value.key] == i;
  }

  /**
   * Behind a slot `d` steps from home `h` whose entry is at least `d` from its
   * own home, every slot back to `h` is taken, the one `e` steps from `h` by
   * an entry at least `e` from its home.
   */
  lemma {:induction false} Behind<K, V>(t: seq<Option<Entry<K, V>>>, h: int, d: nat)
    requires Ordered(t) && 0 < |t|
    requires t[Probe(h, d, |t|)].Some? && t[Probe(h, d, |t|)].value.dist >= d
    ensures forall e :: 0 <= e <= d ==> t[Probe(h, e, |t|)].Some? && t[Probe(h, e, |t|)].value.dist >= e
  {
    if d > 0 {
      ProbePrev(h, d, |t|);
      assert OrderedAt(t, Probe(h, d, |t|));
      Behind(t, h, d - 1);
    }
  }

  /**
   * The state of `insert`'s loop: the table is laid out; the entry being
   * placed, `(ck, _, cd)`, is at `index`, `cd` steps past its home, behind
   * an entry at most one step closer to its own home; and if `ck` is also
   * stored, it is stored at least `cd` steps from home.
   */
  ghost predicate Carrying<K, V>(t: seq<Option<Entry<K, V>>>, hash: K -> int, M: map<K, V>, Slot: map<K, nat>,
                                 ck: K, cd: nat, index: nat) {
    && Layout(t, hash, M, Slot)
    && 0 < |t| && cd < |t| && index == Probe(hash(ck), cd, |t|)
    && (cd > 0 ==> t[Probe(hash(ck), cd - 1, |t|)].Some? && t[Probe(hash(ck), cd - 1, |t|)].value.dist + 1 >= cd)
    && (ck in Slot ==> t[Slot[ck]].value.dist >= cd)
  }

  /** Writing an entry into slot `i` that lies `dist` steps past its home keeps every distance right. */
  lemma DistOkPut<K, V>(t: seq<Option<Entry<K, V>>>, hash: K -> int, i: nat, e: Entry<K, V>)
    requires DistOk(t, hash) && i < |t|
    requires e.dist < |t| && Probe(hash(e.key), e.dist, |t|) == i
    ensures DistOk(t[i := Some(e)], hash)
  {
  }

  /**
   * Writing an entry into slot `i` keeps the Robin Hood ordering when the
   * slot before it is close enough to home for the new entry, and the new
   * entry is at least as far from home as the resident it replaces.
   */
  lemma OrderedPut<K, V>(t: seq<Option<Entry<K, V>>>, i: nat, e: Entry<K, V>)
    requires Ordered(t) && i < |t|
    requires e.dist > 0 ==>
               t[i := Some(e)][Prev(i, |t|)].Some? && t[i := Some(e)][Prev(i, |t|)].value.dist + 1 >= e.dist
    requires t[i].Some? ==> e.dist >= t[i].value.dist
    ensures Ordered(t[i := Some(e)])
  {
    var t' := t[i := Some(e)];
    forall j | 0 <= j < |t| ensures OrderedAt(t', j) {
      assert OrderedAt(t, j);
    }
  }

  /** Storing a new key in an empty slot stores the map extended with it. */
  lemma StoresAdd<K, V>(t: seq<Option<Entry<K, V>>>, M: map<K, V>, Slot: map<K, nat>, i: nat, e: Entry<K, V>)
    requires Stores(t, M, Slot) && i < |t| && t[i].None? && e.key !in Slot
    ensures Stores(t[i := Some(e)], M[e.key := e.val], Slot[e.key := i])
  {
  }

  /** Giving a stored key a new value in its own slot stores the map with that key updated. */
  lemma StoresReplace<K, V>(t: seq<Option<Entry<K, V>>>, M: map<K, V>, Slot: map<K, nat>, i: nat, e: Entry<K, V>)
    requires Stores(t, M, Slot) && i < |t| && t[i].Some? && t[i].value.key == e.key
    ensures Stores(t[i := Some(e)], M[e.key := e.val], Slot)
  {
  }

  /** Putting a new key in place of a stored one stores the map with the one swapped for the other. */
  lemma StoresSwap<K, V>(t: seq<Option<Entry<K, V>>>, M: map<K, V>, Slot: map<K, nat>, i: nat, e: Entry<K, V>)
    requires Stores(t, M, Slot) && i < |t| && t[i].Some? && e.key !in Slot
    ensures Stores(t[i := Some(e)], M[e.key := e.val] - {t[i].value.key}, Slot[e.key := i] - {t[i].value.key})
  {
    var t', x := t[i := Some(e)], t[i].value.key;
    var M', Slot' := M[e.key := e.val] - {x}, Slot[e.key := i] - {x};
    forall j | 0 <= j < |t'| && t'[j].Some? ensures t'[j].value.key in Slot' && Slot'[t'[j].value.key] == j {
      if j != i {
        assert Slot[t[j].value.key] == j;
      }
    }
  }

  /** A key stored in slot `Slot[k]` lies `dist` steps past its home; an entry at least `cd` from home puts every slot up to `cd` steps before it in use. */
  lemma StoredAhead<K, V>(t: seq<Option<Entry<K, V>>>, hash: K -> int, M: map<K, V>, Slot: map<K, nat>, k: K)
    requires Layout(t, hash, M, Slot) && k in Slot
    ensures 0 < |t| && Probe(hash(k), t[Slot[k]].value.dist, |t|) == Slot[k]
    ensures forall e :: 0 <= e <= t[Slot[k]].value.dist ==>
              t[Probe(hash(k), e, |t|)].Some? && t[Probe(hash(k), e, |t|)].value.dist >= e
  {
    Behind(t, hash(k), t[Slot[k]].value.dist);
  }

  /** An empty slot reached: the carried key is not stored, and storing it there keeps the layout. */
  lemma PlaceEmpty<K, V>(t: seq<Option<Entry<K, V>>>, hash: K -> int, M: map<K, V>, Slot: map<K, nat>,
                         ck: K, cv: V, cd: nat, index: nat)
    requires Carrying(t, hash, M, Slot, ck, cd, index) && t[index].None?
    ensures ck !in M
    ensures Layout(t[index := Some(Entry(ck, cv, cd))], hash, M[ck := cv], Slot[ck := index])
    ensures Occupied(t[index := Some(Entry(ck, cv, cd))]) == Occupied(t) + 1
  {
    if ck in Slot {
      StoredAhead(t, hash, M, Slot, ck);
    }
    if cd > 0 {
      ProbePrev(hash(ck), cd, |t|);
    }
    DistOkPut(t, hash, index, Entry(ck, cv, cd));
    OrderedPut(t, index, Entry(ck, cv, cd));
    StoresAdd(t, M, Slot, index, Entry(ck, cv, cd));
    OccupiedUpdate(t, index, Entry(ck, cv, cd));
  }

  /** The carried key found: it is stored right there, and replacing its value keeps the layout. */
  lemma PlaceMatch<K, V>(t: seq<Option<Entry<K, V>>>, hash: K -> int, M: map<K, V>, Slot: map<K, nat>,
                         ck: K, cv: V, cd: nat, index: nat)
    requires Carrying(t, hash, M, Slot, ck, cd, index) && t[index].Some? && t[index].value.key == ck
    ensures ck in M && Slot[ck] == index && t[index].value.dist == cd
    ensures Layout(t[index := Some(Entry(ck, cv, cd))], hash, M[ck := cv], Slot)
    ensures Occupied(t[index := Some(Entry(ck, cv, cd))]) == Occupied(t)
  {
    assert Probe(hash(ck), t[index].value.dist, |t|) == index;
    ProbeInjective(hash(ck), t[index].value.dist, cd, |t|);
    assert OrderedAt(t, index);
    DistOkPut(t, hash, index, Entry(ck, cv, cd));
    OrderedPut(t, index, Entry(ck, cv, cd));
    StoresReplace(t, M, Slot, index, Entry(ck, cv, cd));
    OccupiedUpdate(t, index, Entry(ck, cv, cd));
  }

  /**
   * A resident closer to its home than the carried entry: the carried key is
   * not stored, and the carried entry taking the slot leaves the table and
   * the resident, carried on, holding the same pairs as before.
   */
  lemma SwapKeeps<K, V>(t: seq<Option<Entry<K, V>>>, hash: K -> int, M: map<K, V>, Slot: map<K, nat>,
                        ck: K, cv: V, cd: nat, index: nat)
    requires Carrying(t, hash, M, Slot, ck, cd, index)
    requires t[index].Some? && t[index].value.key != ck && t[index].value.dist < cd
    ensures ck !in M
    ensures var x := t[index].value;
            && x.key in M && M[x.key] == x.val
            && (M[ck := cv] - {x.key})[x.key := x.val] == M[ck := cv]
            && Occupied(t[index := Some(Entry(ck, cv, cd))]) == Occupied(t)
  {
    if ck in Slot {
      StoredAhead(t, hash, M, Slot, ck);
    }
    assert Slot[t[index].value.key] == index;
    OccupiedUpdate(t, index, Entry(ck, cv, cd));
  }

  /** In a table with an empty slot, a stored entry can move one slot on and stay within the capacity. */
  lemma NextSlot<K, V>(t: seq<Option<Entry<K, V>>>, hash: K -> int, i: nat)
    requires DistOk(t, hash) && Ordered(t) && i < |t| && t[i].Some? && Occupied(t) < |t|
    ensures t[i].value.dist + 1 < |t|
    ensures (i + 1) % |t| == Probe(hash(t[i].value.key), t[i].value.dist + 1, |t|)
  {
    var k, d := t[i].value.key, t[i].value.dist;
    Behind(t, hash(k), d);
    RunShort(t, hash(k), d);
    ProbeNext(hash(k), d, |t|);
  }

  /** The carried entry taking the slot of a resident closer to home keeps the layout. */
  lemma SwapLayout<K, V>(t: seq<Option<Entry<K, V>>>, hash: K -> int, M: map<K, V>, Slot: map<K, nat>,
                         ck: K, cv: V, cd: nat, index: nat)
    requires Carrying(t, hash, M, Slot, ck, cd, index) && ck !in Slot
    requires t[index].Some? && t[index].value.dist < cd
    ensures Layout(t[index := Some(Entry(ck, cv, cd))], hash,
                   M[ck := cv] - {t[index].value.key}, Slot[ck := index] - {t[index].value.key})
  {
    ProbePrev(hash(ck), cd, |t|);
    DistOkPut(t, hash, index, Entry(ck, cv, cd));
    OrderedPut(t, index, Entry(ck, cv, cd));
    StoresSwap(t, M, Slot, index, Entry(ck, cv, cd));
  }

  /**
   * After the swap the table is still laid out, and the resident is carried
   * on from the next slot, one step further from its home, behind the entry
   * that displaced it.
   */
  lemma SwapCarries<K, V>(t: seq<Option<Entry<K, V>>>, hash: K -> int, M: map<K, V>, Slot: map<K, nat>,
                          ck: K, cv: V, cd: nat, index: nat)
    requires Carrying(t, hash, M, Slot, ck, cd, index) && Occupied(t) < |t| && ck !in Slot
    requires t[index].Some? && t[index].value.dist < cd
    ensures var x := t[index].value;
            Carrying(t[index := Some(Entry(ck, cv, cd))], hash, M[ck := cv] - {x.key}, Slot[ck := index] - {x.key},
                     x.key, x.dist + 1, (index + 1) % |t|)
  {
    var x := t[index].value;
    var t' := t[index := Some(Entry(ck, cv, cd))];
    SwapLayout(t, hash, M, Slot, ck, cv, cd, index);
    NextSlot(t, hash, index);
    assert t'[Probe(hash(x.key), x.dist, |t|)] == Some(Entry(ck, cv, cd));
  }

  /** A resident at least as far from home: the carried entry moves on to the next slot. */
  lemma Pass<K, V>(t: seq<Option<Entry<K, V>>>, hash: K -> int, M: map<K, V>, Slot: map<K, nat>,
                   ck: K, cd: nat, index: nat)
    requires Carrying(t, hash, M, Slot, ck, cd, index) && Occupied(t) < |t|
    requires t[index].Some? && t[index].value.key != ck && t[index].value.dist >= cd
    ensures Carrying(t, hash, M, Slot, ck, cd + 1, (index + 1) % |t|)
  {
    if cd > 0 {
      Behind(t, hash(ck), cd - 1);
    }
    RunShort(t, hash(ck), cd);
    ProbeNext(hash(ck), cd, |t|);
    if ck in Slot {
      assert Probe(hash(ck), t[Slot[ck]].value.dist, |t|) == Slot[ck];
    }
  }

  /**
   * The state of `insert(key, value)`'s loop over the table `t`, which was
   * `t0` storing `M0` at slots `Slot0` when the loop began: the entry
   * `(ck, cv, cd)` is carried at `index` over a table storing `Mt` at slots
   * `St`, and storing the carried entry too would store `M0` with `key`
   * mapped to `value`. The walk is `steps` slots past `key`'s home and has
   * not passed the empty slot `gap` steps past it. A stored `key` is found
   * before anything moves; a new `key` leaves the carried key unstored.
   */
  ghost predicate Walking<K, V>(t: seq<Option<Entry<K, V>>>, hash: K -> int, t0: seq<Option<Entry<K, V>>>,
                                M0: map<K, V>, Slot0: map<K, nat>, key: K, value: V, Mt: map<K, V>, St: map<K, nat>,
                                ck: K, cv: V, cd: nat, index: nat, steps: nat, gap: nat) {
    && Carrying(t, hash, Mt, St, ck, cd, index)
    && Occupied(t) < |t|
    && Mt[ck := cv] == M0[key := value]
    && index == Probe(hash(key), steps, |t|) && steps <= gap && t[Probe(hash(key), gap, |t|)].None?
    && (key !in M0 ==> ck !in Mt)
    && (key in M0 ==> t == t0 && ck == key && cv == value && Mt == M0 && St == Slot0)
  }

  /** The first round of the loop: `key` itself carried from its home slot. */
  lemma WalkStart<K, V>(t: seq<Option<Entry<K, V>>>, hash: K -> int, M: map<K, V>, Slot: map<K, nat>,
                        key: K, value: V, gap: nat)
    requires Layout(t, hash, M, Slot) && 0 < |t| && Occupied(t) < |t|
    requires gap < |t| && t[Probe(hash(key), gap, |t|)].None?
    ensures Walking(t, hash, t, M, Slot, key, value, M, Slot, key, value, 0, hash(key) % |t|, 0, gap)
  {
    if key in Slot {
      StoredAhead(t, hash, M, Slot, key);
    }
  }

  /** An empty slot ends the loop: `key` was new, and the table with the carried entry there stores `M0` plus `key`. */
  lemma WalkEndsEmpty<K, V>(t: seq<Option<Entry<K, V>>>, hash: K -> int, t0: seq<Option<Entry<K, V>>>,
                            M0: map<K, V>, Slot0: map<K, nat>, key: K, value: V, Mt: map<K, V>, St: map<K, nat>,
                            ck: K, cv: V, cd: nat, index: nat, steps: nat, gap: nat)
    requires Walking(t, hash, t0, M0, Slot0, key, value, Mt, St, ck, cv, cd, index, steps, gap)
    requires t[index].None?
    ensures key !in M0
    ensures Layout(t[index := Some(Entry(ck, cv, cd))], hash, M0[key := value], St[ck := index])
    ensures Occupied(t[index := Some(Entry(ck, cv, cd))]) == Occupied(t) + 1
  {
    PlaceEmpty(t, hash, Mt, St, ck, cv, cd, index);
  }

  /**
   * The carried key found ends the loop: it is `key`, stored before the
   * loop in this very slot of the untouched table, and the new value there
   * stores `M0` with `key` updated.
   */
  lemma WalkEndsMatch<K, V>(t: seq<Option<Entry<K, V>>>, hash: K -> int, t0: seq<Option<Entry<K, V>>>,
                            M0: map<K, V>, Slot0: map<K, nat>, key: K, value: V, Mt: map<K, V>, St: map<K, nat>,
                            ck: K, cv: V, cd: nat, index: nat, steps: nat, gap: nat)
    requires Walking(t, hash, t0, M0, Slot0, key, value, Mt, St, ck, cv, cd, index, steps, gap)
    requires t[index].Some? && t[index].value.key == ck
    ensures key in M0 && ck == key && cv == value && t == t0 && Slot0[key] == index
    ensures t[index := Some(Entry(ck, cv, cd))] == t0[Slot0[key] := Some(Entry(key, value, t0[Slot0[key]].value.dist))]
    ensures Layout(t[index := Some(Entry(ck, cv, cd))], hash, M0[key := value], Slot0)
    ensures Occupied(t[index := Some(Entry(ck, cv, cd))]) == Occupied(t)
  {
    PlaceMatch(t, hash, Mt, St, ck, cv, cd, index);
  }

  /** A resident closer to home is swapped out, and the loop goes on carrying it from the next slot. */
  lemma WalkSwaps<K, V>(t: seq<Option<Entry<K, V>>>, hash: K -> int, t0: seq<Option<Entry<K, V>>>,
                        M0: map<K, V>, Slot0: map<K, nat>, key: K, value: V, Mt: map<K, V>, St: map<K, nat>,
                        ck: K, cv: V, cd: nat, index: nat, steps: nat, gap: nat)
    requires Walking(t, hash, t0, M0, Slot0, key, value, Mt, St, ck, cv, cd, index, steps, gap)
    requires t[index].Some? && t[index].value.key != ck && t[index].value.dist < cd
    ensures var x := t[index].value;
            Walking(t[index := Some(Entry(ck, cv, cd))], hash, t0, M0, Slot0, key, value,
                    Mt[ck := cv] - {x.key}, St[ck := index] - {x.key}, x.key, x.val, x.dist + 1,
                    (index + 1) % |t|, steps + 1, gap)
    ensures Occupied(t[index := Some(Entry(ck, cv, cd))]) == Occupied(t)
  {
    var x := t[index].value;
    SwapKeeps(t, hash, Mt, St, ck, cv, cd, index);
    SwapCarries(t, hash, Mt, St, ck, cv, cd, index);
    ProbeNext(hash(key), steps, |t|);
    assert index != Probe(hash(key), gap, |t|);
  }

  /** A resident at least as far from home stays, and the loop goes on from the next slot. */
  lemma WalkPasses<K, V>(t: seq<Option<Entry<K, V>>>, hash: K -> int, t0: seq<Option<Entry<K, V>>>,
                         M0: map<K, V>, Slot0: map<K, nat>, key: K, value: V, Mt: map<K, V>, St: map<K, nat>,
                         ck: K, cv: V, cd: nat, index: nat, steps: nat, gap: nat)
    requires Walking(t, hash, t0, M0, Slot0, key, value, Mt, St, ck, cv, cd, index, steps, gap)
    requires t[index].Some? && t[index].value.key != ck && t[index].value.dist >= cd
    ensures Walking(t, hash, t0, M0, Slot0, key, value, Mt, St, ck, cv, cd + 1, (index + 1) % |t|, steps + 1, gap)
  {
    Pass(t, hash, Mt, St, ck, cd, index);
    ProbeNext(hash(key), steps, |t|);
  }

  class RobinHoodHash<K(==), V> {
    /** Python's built-in `hash`. */
    const Hash: K -> int
    /** The flat list of slots; its length is `capacity`. */
    const table: array<Option<Entry<K, V>>>
    /** Number of stored keys. */
    var size: nat
    /** The key -> value map the table stores. */
    ghost var M: map<K, V>
    /** The slot of each stored key. */
    ghost var Slot: map<K, nat>

    ghost predicate Valid()
      reads this, table
    {
      Layout(table[..], Hash, M, Slot) && size == Occupied(table[..])
    }

    /** `RobinHoodHash(capacity)`: `capacity` empty slots. */
    constructor (capacity: nat, hash: K -> int)
      ensures Valid()
      ensures Hash == hash && table.Length == capacity && fresh(table)
      ensures size == 0 && M == map[] && forall i :: 0 <= i < capacity ==> table[i] == None
    {
      Hash := hash;
      table := new Option<Entry<K, V>>[capacity](_ => None);
      size := 0;
      M := map[];
      Slot := map[];
      new;
      NoneOccupied(table[..]);
    }

    /**
     * `self.table[index] = (curr_key, curr_val, curr_dist)` on an empty slot,
     * then `self.size += 1`: the loop of `insert` ends with `key` added.
     */
    method FillEmpty(index: nat, ck: K, cv: V, cd: nat, ghost t0: seq<Option<Entry<K, V>>>,
                     ghost M0: map<K, V>, ghost Slot0: map<K, nat>, ghost key: K, ghost value: V,
                     ghost Mt: map<K, V>, ghost St: map<K, nat>, ghost steps: nat, ghost gap: nat)
      requires Walking(table[..], Hash, t0, M0, Slot0, key, value, Mt, St, ck, cv, cd, index, steps, gap)
      requires size == Occupied(table[..]) && table[index].None?
      modifies this, table
      ensures Valid()
      ensures key !in M0 && M == M0[key := value] && size == old(size) + 1
      ensures table[..] == old(table[..])[index := Some(Entry(ck, cv, cd))]
    {
      ghost var t := table[..];
      WalkEndsEmpty(t, Hash, t0, M0, Slot0, key, value, Mt, St, ck, cv, cd, index, steps, gap);
      table[index] := Some(Entry(ck, cv, cd));
      assert table[..] == t[index := Some(Entry(ck, cv, cd))];
      size := size + 1;
      M, Slot := M0[key := value], St[ck := index];
    }

    /**
     * `self.table[index] = (curr_key, curr_val, curr_dist)` on the slot
     * holding the carried key: the loop of `insert` ends with `key`, stored
     * before it began, given the new value in its own slot.
     */
    method Overwrite(index: nat, ck: K, cv: V, cd: nat, ghost t0: seq<Option<Entry<K, V>>>,
                     ghost M0: map<K, V>, ghost Slot0: map<K, nat>, ghost key: K, ghost value: V,
                     ghost Mt: map<K, V>, ghost St: map<K, nat>, ghost steps: nat, ghost gap: nat)
      requires Walking(table[..], Hash, t0, M0, Slot0, key, value, Mt, St, ck, cv, cd, index, steps, gap)
      requires size == Occupied(table[..]) && table[index].Some? && table[index].value.key == ck
      modifies this, table
      ensures Valid()
      ensures key in M0 && M == M0[key := value] && size == old(size) && Slot == Slot0
      ensures table[..] == t0[Slot0[key] := Some(Entry(key, value, t0[Slot0[key]].value.dist))]
    {
      ghost var t := table[..];
      WalkEndsMatch(t, Hash, t0, M0, Slot0, key, value, Mt, St, ck, cv, cd, index, steps, gap);
      table[index] := Some(Entry(ck, cv, cd));
      assert table[..] == t[index := Some(Entry(ck, cv, cd))];
      M, Slot := M0[key := value], Slot0;
    }

    /**
     * `self.table[index] = (curr_key, curr_val, curr_dist)` over a resident
     * closer to its home: the resident, one slot further on, is what the
     * loop of `insert` carries next.
     */
    method Swap(index: nat, ck: K, cv: V, cd: nat, ghost t0: seq<Option<Entry<K, V>>>,
                ghost M0: map<K, V>, ghost Slot0: map<K, nat>, ghost key: K, ghost value: V,
                ghost Mt: map<K, V>, ghost St: map<K, nat>, ghost steps: nat, ghost gap: nat)
      returns (ghost Mt': map<K, V>, ghost St': map<K, nat>)
      requires Walking(table[..], Hash, t0, M0, Slot0, key, value, Mt, St, ck, cv, cd, index, steps, gap)
      requires size == Occupied(table[..])
      requires table[index].Some? && table[index].value.key != ck && table[index].value.dist < cd
      modifies table
      ensures Walking(table[..], Hash, t0, M0, Slot0, key, value, Mt', St',
                      old(table[index].value.key), old(table[index].value.val), old(table[index].value.dist) + 1,
                      (index + 1) % table.Length, steps + 1, gap)
      ensures size == Occupied(table[..])
      ensures table[..] == old(table[..])[index := Some(Entry(ck, cv, cd))]
    {
      ghost var t := table[..];
      var x := table[index].value;
      WalkSwaps(t, Hash, t0, M0, Slot0, key, value, Mt, St, ck, cv, cd, index, steps, gap);
      table[index] := Some(Entry(ck, cv, cd));
      assert table[..] == t[index := Some(Entry(ck, cv, cd))];
      Mt', St' := Mt[ck := cv] - {x.key}, St[ck := index] - {x.key};
    }

    /**
     * The rest of a round of `insert`'s loop on a slot held by another key:
     * a carried entry further from home than the resident takes the slot and
     * the resident is carried on instead; then the walk moves to the next
     * slot, one step further from the carried entry's home.
     */
    method Collide(index: nat, ck: K, cv: V, cd: nat, ghost t0: seq<Option<Entry<K, V>>>,
                   ghost M0: map<K, V>, ghost Slot0: map<K, nat>, ghost key: K, ghost value: V,
                   ghost Mt: map<K, V>, ghost St: map<K, nat>, ghost steps: nat, ghost gap: nat)
      returns (index': nat, ck': K, cv': V, cd': nat, ghost Mt': map<K, V>, ghost St': map<K, nat>, ghost steps': nat)
      requires Walking(table[..], Hash, t0, M0, Slot0, key, value, Mt, St, ck, cv, cd, index, steps, gap)
      requires size == Occupied(table[..])
      requires table[index].Some? && table[index].value.key != ck
      modifies table
      ensures Walking(table[..], Hash, t0, M0, Slot0, key, value, Mt', St', ck', cv', cd', index', steps', gap)
      ensures size == Occupied(table[..]) && steps' == steps + 1
      ensures index' == (index + 1) % table.Length
      ensures old(table[index].value.dist) < cd ==>
                && table[..] == old(table[..])[index := Some(Entry(ck, cv, cd))]
                && ck' == old(table[index].value.key) && cv' == old(table[index].value.val)
                && cd' == old(table[index].value.dist) + 1
      ensures old(table[index].value.dist) >= cd ==> table[..] == old(table[..]) && (ck', cv', cd') == (ck, cv, cd + 1)
    {
      var existing := table[index].value;
      ck', cv', cd', Mt', St' := ck, cv, cd, Mt, St;
      if cd > existing.dist {
        Mt', St' := Swap(index, ck, cv, cd, t0, M0, Slot0, key, value, Mt, St, steps, gap);
        ck', cv', cd' := existing.key, existing.val, existing.dist;
      } else {
        WalkPasses(table[..], Hash, t0, M0, Slot0, key, value, Mt, St, ck, cv, cd, index, steps, gap);
      }
      index' := (index + 1) % table.Length;
      cd' := cd' + 1;
      steps' := steps + 1;
    }

    /**
     * `insert(key, value)`. Fails before touching the table on a zero
     * capacity or a load factor of 0.75 or more (where the source calls its
     * missing `_resize`). Otherwise walks from the key's home slot carrying
     * the entry to place: an empty slot takes it and `size` grows; a slot
     * holding the carried key gets the new value; a resident closer to its
     * home than the carried entry is swapped out and carried on. The stored
     * map becomes the old one with `key` mapped to `value`; an existing key
     * is updated in its own slot and nothing else moves.
     */
    method Insert(key: K, value: V) returns (outcome: Outcome)
      requires Valid()
      modifies this, table
      ensures Valid()
      ensures outcome == if table.Length == 0 then NoCapacity
                         else if 4 * old(size) >= 3 * table.Length then ResizeMissing
                         else if key in old(M) then Replaced
                         else Added
      ensures outcome.NoCapacity? || outcome.ResizeMissing? ==> unchanged(this, table)
      ensures outcome.Added? || outcome.Replaced? ==> M == old(M)[key := value]
      ensures outcome.Added? ==> size == old(size) + 1
      ensures outcome.Replaced? ==>
                && size == old(size) && Slot == old(Slot)
                && table[..] == old(table[..])[Slot[key] := Some(Entry(key, value, old(table[..])[Slot[key]].value.dist))]
    {
      if table.Length == 0 {
        return NoCapacity;
      }
      if 4 * size >= 3 * table.Length {
        return ResizeMissing;
      }
      var n := table.Length;
      var currKey, currVal, currDist: nat := key, value, 0;
      var index: nat := Hash(key) % n;
      ghost var t0, M0, Slot0 := table[..], M, Slot;
      ghost var Mt, St := M, Slot;
      ghost var steps: nat := 0;
      ghost var gap := FreeAhead(table[..], Hash(key));
      WalkStart(t0, Hash, M, Slot, key, value, gap);
      while true
        invariant Walking(table[..], Hash, t0, M0, Slot0, key, value, Mt, St, currKey, currVal, currDist, index, steps, gap)
        invariant size == old(size) == Occupied(table[..]) && M == M0 && Slot == Slot0
        decreases gap - steps
      {
        if table[index].None? {
          FillEmpty(index, currKey, currVal, currDist, t0, M0, Slot0, key, value, Mt, St, steps, gap);
          return Added;
        }
        if table[index].value.key == currKey {
          Overwrite(index, currKey, currVal, currDist, t0, M0, Slot0, key, value, Mt, St, steps, gap);
          return Replaced;
        }
        index, currKey, currVal, currDist, Mt, St, steps :=
          Collide(index, currKey, currVal, currDist, t0, M0, Slot0, key, value, Mt, St, steps, gap);
      }
    }
  }
}
