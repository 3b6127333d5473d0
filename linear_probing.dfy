/**
 * `LinearProbingHash` of open_addressing_linear_probing.py: `(key, value)`
 * tuples stored directly in a fixed list of slots. A key goes to its home
 * slot `hash(key) % capacity`, or to the first empty slot after it,
 * wrapping; an existing key has its value replaced where it sits. Python's
 * `hash` is the constructor's `hash` argument.
 */
module LinearProbing {
  import opened Wrappers
  import opened Modular
  import opened Slots

  /**
   * The slots `t` store the map `M`, key `k` sitting `Dist[k]` steps past its
   * home slot: each key in exactly one slot, each taken slot holding the key
   * placed there, and no empty slot between a key's home and its slot (the
   * run that probing for the key walks along).
   */
  ghost predicate Layout<K, V>(t: seq<Option<Item<K, V>>>, hash: K -> int, M: map<K, V>, Dist: map<K, nat>) {
    Stores(t, hash, M, Dist) && Claimed(t, hash, Dist) && Runs(t, hash, Dist)
  }

  /** Each key of `M` sits `Dist[k]` slots past its home with its value. */
  ghost predicate Stores<K, V>(t: seq<Option<Item<K, V>>>, hash: K -> int, M: map<K, V>, Dist: map<K, nat>) {
    && M.Keys == Dist.Keys
    && forall k :: k in Dist ==> 0 < |t| && Dist[k] < |t| && t[Probe(hash(k), Dist[k], |t|)] == Some(Item(k, M[k]))
  }

  /** Each taken slot holds a key placed in exactly that slot. */
  ghost predicate Claimed<K, V>(t: seq<Option<Item<K, V>>>, hash: K -> int, Dist: map<K, nat>) {
    forall i :: 0 <= i < |t| && t[i].Some? ==>
      t[i].value.key in Dist && Probe(hash(t[i].value.key), Dist[t[i].value.key], |t|) == i
  }

  /** No empty slot lies between a key's home and its slot. */
  ghost predicate Runs<K, V>(t: seq<Option<Item<K, V>>>, hash: K -> int, Dist: map<K, nat>) {
    forall k, e :: k in Dist && 0 <= e < Dist[k] ==> 0 < |t| && t[Probe(hash(k), e, |t|)].Some?
  }

  /** The first `d` slots probed for `key` are taken by other keys. */
  ghost predicate ProbedPast<K, V>(t: seq<Option<Item<K, V>>>, hash: K -> int, key: K, d: nat) {
    forall e :: 0 <= e < d ==>
      0 < |t| && t[Probe(hash(key), e, |t|)].Some? && t[Probe(hash(key), e, |t|)].value.key != key
  }

  /** No key is stored in two slots. */
  lemma KeysUnique<K, V>(t: seq<Option<Item<K, V>>>, hash: K -> int, M: map<K, V>, Dist: map<K, nat>, i: nat, j: nat)
    requires Layout(t, hash, M, Dist)
    requires i < |t| && j < |t| && t[i].Some? && t[j].Some? && t[i].value.key == t[j].value.key
    ensures i == j
  {
    var k := t[i].value.key;
    assert Probe(hash(k), Dist[k], |t|) == i;
  }

  /** Overwriting the slot of a stored key with a new value stores the map with that key updated. */
  lemma ReplaceKeepsLayout<K, V>(t: seq<Option<Item<K, V>>>, hash: K -> int, M: map<K, V>, Dist: map<K, nat>,
                                 i: nat, key: K, value: V)
    requires Layout(t, hash, M, Dist)
    requires i < |t| && t[i].Some? && t[i].value.key == key
    ensures key in M && Probe(hash(key), Dist[key], |t|) == i
    ensures Layout(t[i := Some(Item(key, value))], hash, M[key := value], Dist)
    ensures Occupied(t[i := Some(Item(key, value))]) == Occupied(t)
  {
    OccupiedUpdate(t, i, Item(key, value));
  }

  /**
   * Probing for `key` passed `d` taken slots holding other keys and reached
   * an empty one: the key is absent, and storing it there keeps the layout.
   */
  lemma PlaceKeepsLayout<K, V>(t: seq<Option<Item<K, V>>>, hash: K -> int, M: map<K, V>, Dist: map<K, nat>,
                               key: K, value: V, d: nat)
    requires Layout(t, hash, M, Dist)
    requires 0 < |t| && d < |t| && t[Probe(hash(key), d, |t|)].None? && ProbedPast(t, hash, key, d)
    ensures key !in M
    ensures Layout(t[Probe(hash(key), d, |t|) := Some(Item(key, value))], hash, M[key := value], Dist[key := d])
    ensures Occupied(t[Probe(hash(key), d, |t|) := Some(Item(key, value))]) == Occupied(t) + 1
  {
    PlaceAbsent(t, hash, M, Dist, key, d);
    PlaceStores(t, hash, M, Dist, key, value, d);
    PlaceClaimed(t, hash, Dist, key, value, d);
    PlaceRuns(t, hash, Dist, key, value, d);
    OccupiedUpdate(t, Probe(hash(key), d, |t|), Item(key, value));
  }

  /** A key stored in the table would sit in a taken slot of its probe sequence. */
  lemma PlaceAbsent<K, V>(t: seq<Option<Item<K, V>>>, hash: K -> int, M: map<K, V>, Dist: map<K, nat>, key: K, d: nat)
    requires Layout(t, hash, M, Dist)
    requires 0 < |t| && d < |t| && t[Probe(hash(key), d, |t|)].None? && ProbedPast(t, hash, key, d)
    ensures key !in M
  {
  }

  lemma PlaceStores<K, V>(t: seq<Option<Item<K, V>>>, hash: K -> int, M: map<K, V>, Dist: map<K, nat>,
                          key: K, value: V, d: nat)
    requires Stores(t, hash, M, Dist) && key !in M
    requires 0 < |t| && d < |t| && t[Probe(hash(key), d, |t|)].None?
    ensures Stores(t[Probe(hash(key), d, |t|) := Some(Item(key, value))], hash, M[key := value], Dist[key := d])
  {
  }

  lemma PlaceClaimed<K, V>(t: seq<Option<Item<K, V>>>, hash: K -> int, Dist: map<K, nat>,
                           key: K, value: V, d: nat)
    requires Claimed(t, hash, Dist) && key !in Dist
    requires 0 < |t| && d < |t| && t[Probe(hash(key), d, |t|)].None?
    ensures Claimed(t[Probe(hash(key), d, |t|) := Some(Item(key, value))], hash, Dist[key := d])
  {
  }

  lemma PlaceRuns<K, V>(t: seq<Option<Item<K, V>>>, hash: K -> int, Dist: map<K, nat>,
                        key: K, value: V, d: nat)
    requires Runs(t, hash, Dist) && key !in Dist
    requires 0 < |t| && d < |t| && t[Probe(hash(key), d, |t|)].None? && ProbedPast(t, hash, key, d)
    ensures Runs(t[Probe(hash(key), d, |t|) := Some(Item(key, value))], hash, Dist[key := d])
  {
  }

  class LinearProbingHash<K(==), V> {
    /** Python's built-in `hash`. */
    const Hash: K -> int
    /** The flat list of slots; its length is `capacity`. */
    const table: array<Option<Item<K, V>>>
    /** Number of stored keys. */
    var size: nat
    /** The key -> value map the table stores. */
    ghost var M: map<K, V>
    /** How far past its home slot each key sits. */
    ghost var Dist: map<K, nat>

    ghost predicate Valid()
      reads this, table
    {
      Layout(table[..], Hash, M, Dist) && size == |M| && size == Occupied(table[..])
    }

    /** `LinearProbingHash(capacity)`: `capacity` empty slots. */
    constructor (capacity: nat, hash: K -> int)
      ensures Valid()
      ensures Hash == hash && table.Length == capacity && fresh(table)
      ensures size == 0 && M == map[] && forall i :: 0 <= i < capacity ==> table[i] == None
    {
      Hash := hash;
      table := new Option<Item<K, V>>[capacity](_ => None);
      size := 0;
      M := map[];
      Dist := map[];
      new;
      NoneOccupied(table[..]);
    }

    /**
     * The probe loop of `insert`: from the home slot of `key`, step forward,
     * wrapping, past taken slots holding other keys. It stops at the slot
     * holding `key` or at the first empty slot, which exists because the
     * table is below its load limit.
     */
    method FindSlot(key: K) returns (index: nat, ghost steps: nat)
      requires 0 < table.Length && Occupied(table[..]) < table.Length
      ensures steps < table.Length && index == Probe(Hash(key), steps, table.Length)
      ensures table[index].None? || table[index].value.key == key
      ensures ProbedPast(table[..], Hash, key, steps)
    {
      var n := table.Length;
      var hash := Hash;
      index := hash(key) % n;
      steps := 0;
      ghost var gap := FreeAhead(table[..], hash(key));
      while table[index].Some? && table[index].value.key != key
        invariant index == Probe(hash(key), steps, n) && steps <= gap && table[Probe(hash(key), gap, n)].None?
        invariant forall e :: 0 <= e < steps ==>
                    table[Probe(hash(key), e, n)].Some? && table[Probe(hash(key), e, n)].value.key != key
        decreases gap - steps
      {
        assert (index + 1) % n == Probe(hash(key), steps + 1, n) by {
          ProbeNext(hash(key), steps, n);
        }
        index := (index + 1) % n;
        steps := steps + 1;
      }
    }

    /**
     * `insert(key, value)`. Fails before touching the table on a zero
     * capacity or a load factor of 0.75 or more (where the source calls its
     * missing `_resize`). Otherwise probes from the home slot: a slot holding
     * `key` gets the new value in place; else the first empty slot gets the
     * pair and `size` grows by one. Either way the stored map becomes the old
     * one with `key` mapped to `value`, and no other slot changes.
     */
    method Insert(key: K, value: V) returns (outcome: Outcome)
      requires Valid()
      modifies this, table
      ensures Valid()
      ensures outcome == if table.Length == 0 then NoCapacity
                         else if 4 * old(size) >= 3 * table.Length then ResizeMissing
                         else if key in old(M) then Replaced
                         else Added
      ensures outcome.NoCapacity? || outcome.ResizeMissing? ==> unchanged(this, table)
      ensures outcome.Added? || outcome.Replaced? ==> M == old(M)[key := value]
      ensures outcome.Replaced? ==>
                && size == old(size) && Dist == old(Dist)
                && table[..] == old(table[..])[Probe(Hash(key), Dist[key], table.Length) := Some(Item(key, value))]
      ensures outcome.Added? ==>
                && size == old(size) + 1 && Dist == old(Dist)[key := Dist[key]]
                && table[..] == old(table[..])[Probe(Hash(key), Dist[key], table.Length) := Some(Item(key, value))]
                && old(table[..])[Probe(Hash(key), Dist[key], table.Length)].None?
                && forall e :: 0 <= e < Dist[key] ==> old(table[..])[Probe(Hash(key), e, table.Length)].Some?
    {
      if table.Length == 0 {
        return NoCapacity;
      }
      if 4 * size >= 3 * table.Length {
        return ResizeMissing;
      }
      var index, steps := FindSlot(key);
      if table[index].Some? {
        Overwrite(index, key, value);
        return Replaced;
      }
      Fill(index, key, value, steps);
      return Added;
    }

    /** The update branch of `insert`: the slot holding `key` gets the new value in place. */
    method Overwrite(index: nat, key: K, value: V)
      requires Valid() && index < table.Length && table[index].Some? && table[index].value.key == key
      modifies this, table
      ensures Valid() && key in old(M) && M == old(M)[key := value]
      ensures size == old(size) && Dist == old(Dist) && index == Probe(Hash(key), Dist[key], table.Length)
      ensures table[..] == old(table[..])[index := Some(Item(key, value))]
    {
      ghost var t := table[..];
      ReplaceKeepsLayout(t, Hash, M, Dist, index, key, value);
      table[index] := Some(Item(key, value));
      assert table[..] == t[index := Some(Item(key, value))];
      M := M[key := value];
    }

    /** The closing lines of `insert`: the empty slot probing reached gets the pair and `size` grows. */
    method Fill(index: nat, key: K, value: V, ghost steps: nat)
      requires Valid() && 0 < table.Length && steps < table.Length
      requires index == Probe(Hash(key), steps, table.Length) && table[index].None?
      requires ProbedPast(table[..], Hash, key, steps)
      modifies this, table
      ensures Valid() && key !in old(M) && M == old(M)[key := value]
      ensures size == old(size) + 1 && Dist == old(Dist)[key := steps]
      ensures table[..] == old(table[..])[index := Some(Item(key, value))]
    {
      ghost var t := table[..];
      PlaceKeepsLayout(t, Hash, M, Dist, key, value, steps);
      table[index] := Some(Item(key, value));
      assert table[..] == t[index := Some(Item(key, value))];
      size := size + 1;
      M := M[key := value];
      Dist := Dist[key := steps];
    }
  }
}
