/**
 * `ChainingHash` of separate_chaining.py: a list of `capacity` buckets, each a
 * list of `(key, value)` tuples. A key lives in bucket `hash(key) % capacity`;
 * a new key is appended to its bucket, an existing one has its value replaced
 * where it sits. Once the load factor `size / capacity` reaches 0.75,
 * `insert` first doubles the capacity and inserts every entry again. Python's
 * `hash` is the constructor's `hash` argument.
 */
module SeparateChaining {
  import opened Slots

  /** The keys stored in one bucket. */
  ghost function BucketKeys<K, V>(bucket: seq<Item<K, V>>): set<K> {
    set e | e in bucket :: e.key
  }

  /** The keys stored in a list of buckets. */
  ghost function KeysIn<K, V>(t: seq<seq<Item<K, V>>>): set<K> {
    if t == [] then {} else KeysIn(t[..|t| - 1]) + BucketKeys(t[|t| - 1])
  }

  /** The number of tuples in a list of buckets. */
  function Total<K, V>(t: seq<seq<Item<K, V>>>): nat {
    if t == [] then 0 else Total(t[..|t| - 1]) + |t[|t| - 1]|
  }

  /** `[[] for _ in range(n)]`. */
  function EmptyTable<K, V>(n: nat): (t: seq<seq<Item<K, V>>>)
    ensures |t| == n && forall b :: 0 <= b < n ==> t[b] == []
  {
    seq(n, _ => [])
  }

  /** No key appears twice in a bucket. */
  ghost predicate DistinctKeys<K, V>(bucket: seq<Item<K, V>>) {
    forall i, j :: 0 <= i < j < |bucket| ==> bucket[i].key != bucket[j].key
  }

  /** The tuple at position `e` of bucket `b` is an entry of `M` whose key belongs in bucket `b`. */
  ghost predicate Holds<K, V>(t: seq<seq<Item<K, V>>>, hash: K -> int, M: map<K, V>, b: nat, e: nat) {
    && b < |t| && e < |t[b]|
    && t[b][e].key in M && M[t[b][e].key] == t[b][e].val
    && hash(t[b][e].key) % |t| == b
  }

  /** Bucket `b` holds distinct keys, each an entry of `M` whose home is `b`. */
  ghost predicate BucketOk<K, V>(t: seq<seq<Item<K, V>>>, hash: K -> int, M: map<K, V>, b: nat) {
    b < |t| && DistinctKeys(t[b]) && forall e :: 0 <= e < |t[b]| ==> Holds(t, hash, M, b, e)
  }

  /**
   * The buckets `t` store the map `M`: every tuple lies in the bucket
   * `hash(key) % len(t)` and is an entry of `M`, keys are distinct within a
   * bucket, and every entry of `M` is in its bucket.
   */
  ghost predicate Chained<K, V>(t: seq<seq<Item<K, V>>>, hash: K -> int, M: map<K, V>) {
    AllBucketsOk(t, hash, M) && AllStored(t, hash, M)
  }

  /** Every bucket is as `BucketOk` says. */
  ghost predicate AllBucketsOk<K, V>(t: seq<seq<Item<K, V>>>, hash: K -> int, M: map<K, V>) {
    forall b :: 0 <= b < |t| ==> BucketOk(t, hash, M, b)
  }

  /** Every entry of `M` is in its home bucket. */
  ghost predicate AllStored<K, V>(t: seq<seq<Item<K, V>>>, hash: K -> int, M: map<K, V>) {
    forall k :: k in M ==> 0 < |t| && Item(k, M[k]) in t[hash(k) % |t|]
  }

  /** `M` cut down to the keys in `P`. */
  ghost function Restrict<K, V>(M: map<K, V>, P: set<K>): (r: map<K, V>)
    ensures r.Keys == M.Keys * P && forall k :: k in r ==> r[k] == M[k]
  {
    map k | k in M && k in P :: M[k]
  }

  /** The bucket with the value of `key` replaced by `value` where it sits. */
  function Overwritten<K(==), V>(bucket: seq<Item<K, V>>, key: K, value: V): (r: seq<Item<K, V>>)
    ensures |r| == |bucket|
    ensures forall e :: 0 <= e < |r| ==> r[e] == if bucket[e].key == key then Item(key, value) else bucket[e]
  {
    seq(|bucket|, e requires 0 <= e < |bucket| => if bucket[e].key == key then Item(key, value) else bucket[e])
  }

  /** With distinct keys, replacing the value of `key` touches exactly the position holding it. */
  lemma OverwrittenAt<K, V>(bucket: seq<Item<K, V>>, key: K, value: V, i: nat)
    requires DistinctKeys(bucket) && i < |bucket| && bucket[i].key == key
    ensures Overwritten(bucket, key, value) == bucket[i := Item(key, value)]
  {
    forall e | 0 <= e < |bucket| && e != i ensures bucket[e].key != key {
      if e < i { assert bucket[e].key != bucket[i].key; } else { assert bucket[i].key != bucket[e].key; }
    }
  }

  /** Every bucket of a fresh table is empty: it stores the empty map and no tuple. */
  lemma EmptyChained<K, V>(n: nat, hash: K -> int)
    ensures Chained(EmptyTable<K, V>(n), hash, map[]) && Total(EmptyTable<K, V>(n)) == 0
  {
    EmptyTotal(EmptyTable<K, V>(n));
  }

  lemma {:induction false} EmptyTotal<K, V>(t: seq<seq<Item<K, V>>>)
    requires forall b :: 0 <= b < |t| ==> t[b] == []
    ensures Total(t) == 0
  {
    if t != [] {
      EmptyTotal(t[..|t| - 1]);
    }
  }

  /** Changing one bucket changes the tuple count by the change in its length. */
  lemma {:induction false} TotalUpdate<K, V>(t: seq<seq<Item<K, V>>>, b: nat, s: seq<Item<K, V>>)
    requires b < |t|
    ensures Total(t[b := s]) == Total(t) - |t[b]| + |s|
  {
    var t' := t[b := s];
    if b < |t| - 1 {
      assert t'[..|t| - 1] == t[..|t| - 1][b := s];
      TotalUpdate(t[..|t| - 1], b, s);
    } else {
      assert t'[..|t| - 1] == t[..|t| - 1];
    }
  }

  /** No key is stored at two positions of the table. */
  lemma KeysUnique<K, V>(t: seq<seq<Item<K, V>>>, hash: K -> int, M: map<K, V>, b: nat, i: nat, c: nat, j: nat)
    requires Chained(t, hash, M)
    requires b < |t| && i < |t[b]| && c < |t| && j < |t[c]| && t[b][i].key == t[c][j].key
    ensures b == c && i == j
  {
    assert BucketOk(t, hash, M, b) && BucketOk(t, hash, M, c);
    assert Holds(t, hash, M, b, i) && Holds(t, hash, M, c, j);
  }

  /**
   * Replacing the value at the position holding `key` stores the map with
   * `key` updated, and keeps the tuple count.
   */
  lemma ReplaceChained<K, V>(t: seq<seq<Item<K, V>>>, hash: K -> int, M: map<K, V>, b: nat, i: nat, key: K, value: V)
    requires Chained(t, hash, M) && b < |t| && i < |t[b]| && t[b][i].key == key
    ensures key in M
    ensures Chained(t[b := t[b][i := Item(key, value)]], hash, M[key := value])
    ensures Total(t[b := t[b][i := Item(key, value)]]) == Total(t)
  {
    assert BucketOk(t, hash, M, b) && Holds(t, hash, M, b, i);
    ReplaceBuckets(t, hash, M, b, i, key, value);
    ReplaceStored(t, hash, M, b, i, key, value);
    TotalUpdate(t, b, t[b][i := Item(key, value)]);
  }

  lemma ReplaceBuckets<K, V>(t: seq<seq<Item<K, V>>>, hash: K -> int, M: map<K, V>, b: nat, i: nat, key: K, value: V)
    requires Chained(t, hash, M) && b < |t| && i < |t[b]| && t[b][i].key == key
    ensures AllBucketsOk(t[b := t[b][i := Item(key, value)]], hash, M[key := value])
  {
    var t': seq<seq<Item<K, V>>>, M' := t[b := t[b][i := Item(key, value)]], M[key := value];
    forall c | 0 <= c < |t| ensures BucketOk(t', hash, M', c) {
      assert BucketOk(t, hash, M, c);
      forall e | 0 <= e < |t'[c]| ensures Holds(t', hash, M', c, e) {
        assert Holds(t, hash, M, c, e);
        if t[c][e].key == key {
          KeysUnique(t, hash, M, b, i, c, e);
        }
      }
      forall x, y | 0 <= x < y < |t'[c]| ensures t'[c][x].key != t'[c][y].key {
        assert t[c][x].key != t[c][y].key;
      }
    }
  }

  lemma ReplaceStored<K, V>(t: seq<seq<Item<K, V>>>, hash: K -> int, M: map<K, V>, b: nat, i: nat, key: K, value: V)
    requires Chained(t, hash, M) && b < |t| && i < |t[b]| && t[b][i].key == key
    ensures AllStored(t[b := t[b][i := Item(key, value)]], hash, M[key := value])
  {
    var t', M' := t[b := t[b][i := Item(key, value)]], M[key := value];
    assert BucketOk(t, hash, M, b) && Holds(t, hash, M, b, i);
    forall k | k in M' ensures Item(k, M'[k]) in t'[hash(k) % |t'|] {
      if k == key {
        assert t'[b][i] == Item(k, M'[k]);
      } else {
        var h := hash(k) % |t|;
        var j :| 0 <= j < |t[h]| && t[h][j] == Item(k, M[k]);
        assert t'[h][j] == Item(k, M'[k]);
      }
    }
  }

  /**
   * Appending `key`, absent from its home bucket, to that bucket stores the
   * map with `key` added, and counts one tuple more.
   */
  lemma AppendChained<K, V>(t: seq<seq<Item<K, V>>>, hash: K -> int, M: map<K, V>, key: K, value: V)
    requires Chained(t, hash, M) && 0 < |t|
    requires forall e :: 0 <= e < |t[hash(key) % |t|]| ==> t[hash(key) % |t|][e].key != key
    ensures key !in M
    ensures var b := hash(key) % |t|;
            Chained(t[b := t[b] + [Item(key, value)]], hash, M[key := value])
    ensures var b := hash(key) % |t|;
            Total(t[b := t[b] + [Item(key, value)]]) == Total(t) + 1
  {
    var b := hash(key) % |t|;
    AppendBuckets(t, hash, M, key, value);
    AppendStored(t, hash, M, key, value);
    TotalUpdate(t, b, t[b] + [Item(key, value)]);
  }

  lemma AppendBuckets<K, V>(t: seq<seq<Item<K, V>>>, hash: K -> int, M: map<K, V>, key: K, value: V)
    requires Chained(t, hash, M) && 0 < |t| && key !in M
    requires forall e :: 0 <= e < |t[hash(key) % |t|]| ==> t[hash(key) % |t|][e].key != key
    ensures var b := hash(key) % |t|;
            AllBucketsOk(t[b := t[b] + [Item(key, value)]], hash, M[key := value])
  {
    var b := hash(key) % |t|;
    var t': seq<seq<Item<K, V>>>, M' := t[b := t[b] + [Item(key, value)]], M[key := value];
    forall c | 0 <= c < |t| ensures BucketOk(t', hash, M', c) {
      assert BucketOk(t, hash, M, c);
      forall e | 0 <= e < |t'[c]| ensures Holds(t', hash, M', c, e) {
        if c != b || e < |t[b]| {
          assert Holds(t, hash, M, c, e);
        }
      }
      forall x, y | 0 <= x < y < |t'[c]| ensures t'[c][x].key != t'[c][y].key {
        if c != b || y < |t[b]| {
          assert t[c][x].key != t[c][y].key;
        }
      }
    }
  }

  lemma AppendStored<K, V>(t: seq<seq<Item<K, V>>>, hash: K -> int, M: map<K, V>, key: K, value: V)
    requires Chained(t, hash, M) && 0 < |t| && key !in M
    ensures var b := hash(key) % |t|;
            AllStored(t[b := t[b] + [Item(key, value)]], hash, M[key := value])
  {
    var b := hash(key) % |t|;
    var t', M' := t[b := t[b] + [Item(key, value)]], M[key := value];
    forall k | k in M' ensures Item(k, M'[k]) in t'[hash(k) % |t'|] {
      if k == key {
        assert t'[b][|t[b]|] == Item(k, M'[k]);
      } else {
        var h := hash(k) % |t|;
        var j :| 0 <= j < |t[h]| && t[h][j] == Item(k, M[k]);
        assert t'[h][j] == Item(k, M'[k]);
      }
    }
  }

  /** The first `n` buckets hold exactly the keys of `M` whose home is below `n`. */
  lemma {:induction false} KeysInPrefix<K, V>(t: seq<seq<Item<K, V>>>, hash: K -> int, M: map<K, V>, n: nat)
    requires Chained(t, hash, M) && n <= |t|
    ensures KeysIn(t[..n]) == set k | k in M && hash(k) % |t| < n
  {
    if n > 0 {
      KeysInPrefix(t, hash, M, n - 1);
      assert t[..n][..n - 1] == t[..n - 1];
      assert BucketOk(t, hash, M, n - 1);
      forall k | k in M && hash(k) % |t| == n - 1 ensures k in BucketKeys(t[n - 1]) {
        var j :| 0 <= j < |t[n - 1]| && t[n - 1][j] == Item(k, M[k]);
      }
      forall k | k in BucketKeys(t[n - 1]) ensures k in M && hash(k) % |t| == n - 1 {
        var j :| 0 <= j < |t[n - 1]| && t[n - 1][j].key == k;
        assert Holds(t, hash, M, n - 1, j);
      }
    }
  }

  /** A table stores exactly the keys of the map it stores. */
  lemma ChainedKeys<K, V>(t: seq<seq<Item<K, V>>>, hash: K -> int, M: map<K, V>)
    requires Chained(t, hash, M)
    ensures KeysIn(t) == M.Keys
  {
    KeysInPrefix(t, hash, M, |t|);
    assert t[..|t|] == t;
    forall k | k in M ensures hash(k) % |t| < |t| {
    }
  }

  /**
   * Walking the old buckets in order, the tuple at position `e` of bucket `b`
   * carries a key not met before, an entry of the old map.
   */
  lemma NotYetMoved<K, V>(t: seq<seq<Item<K, V>>>, hash: K -> int, M: map<K, V>, b: nat, e: nat)
    requires Chained(t, hash, M) && b < |t| && e < |t[b]|
    ensures t[b][e].key in M && M[t[b][e].key] == t[b][e].val
    ensures t[b][e].key !in KeysIn(t[..b]) + BucketKeys(t[b][..e])
  {
    assert BucketOk(t, hash, M, b) && Holds(t, hash, M, b, e);
    KeysInPrefix(t, hash, M, b);
  }

  /** One more tuple of the old bucket `b` met. */
  lemma MovedStep<K, V>(t: seq<seq<Item<K, V>>>, b: nat, e: nat)
    requires b < |t| && e < |t[b]|
    ensures BucketKeys(t[b][..e + 1]) == BucketKeys(t[b][..e]) + {t[b][e].key}
  {
    assert t[b][..e + 1] == t[b][..e] + [t[b][e]];
  }

  /** The whole of bucket `b` met. */
  lemma MovedBucket<K, V>(t: seq<seq<Item<K, V>>>, b: nat)
    requires b < |t|
    ensures KeysIn(t[..b + 1]) == KeysIn(t[..b]) + BucketKeys(t[b][..|t[b]|])
  {
    assert t[..b + 1][..b] == t[..b];
    assert t[b][..|t[b]|] == t[b];
  }

  /** A set with an element outside a subset of it is larger than the subset. */
  lemma StrictSubsetSmaller<K>(A: set<K>, B: set<K>, x: K)
    requires A <= B && x in B && x !in A
    ensures |A| < |B|
  {
    assert B == A + (B - A) && A * (B - A) == {};
    assert x in B - A;
  }

  /**
   * `move on` bookkeeping of `_resize`: while the old entries are inserted
   * again, the map stored so far is the old map cut down to the keys met.
   */
  ghost predicate Moving<K, V>(t0: seq<seq<Item<K, V>>>, hash: K -> int, M0: map<K, V>, M: map<K, V>, P: set<K>) {
    Chained(t0, hash, M0) && 4 * |M0| < 3 * |t0| + 4 && M == Restrict(M0, P)
  }

  /** Inserting the next old tuple adds its key to the stored map, which stays below the threshold. */
  lemma MoveNext<K, V>(t0: seq<seq<Item<K, V>>>, hash: K -> int, M0: map<K, V>, M: map<K, V>, b: nat, e: nat)
    requires b < |t0| && e < |t0[b]|
    requires Moving(t0, hash, M0, M, KeysIn(t0[..b]) + BucketKeys(t0[b][..e]))
    ensures t0[b][e].key !in M && 4 * |M| < 3 * (2 * |t0|)
    ensures Moving(t0, hash, M0, M[t0[b][e].key := t0[b][e].val],
                   KeysIn(t0[..b]) + BucketKeys(t0[b][..e + 1]))
  {
    MoveFresh(t0, hash, M0, M, b, e);
    MoveGrow(t0, hash, M0, M, b, e);
  }

  lemma MoveFresh<K, V>(t0: seq<seq<Item<K, V>>>, hash: K -> int, M0: map<K, V>, M: map<K, V>, b: nat, e: nat)
    requires b < |t0| && e < |t0[b]|
    requires Moving(t0, hash, M0, M, KeysIn(t0[..b]) + BucketKeys(t0[b][..e]))
    ensures t0[b][e].key in M0 && M0[t0[b][e].key] == t0[b][e].val
    ensures t0[b][e].key !in M && 4 * |M| < 3 * (2 * |t0|)
  {
    NotYetMoved(t0, hash, M0, b, e);
    StrictSubsetSmaller(M.Keys, M0.Keys, t0[b][e].key);
  }

  lemma MoveGrow<K, V>(t0: seq<seq<Item<K, V>>>, hash: K -> int, M0: map<K, V>, M: map<K, V>, b: nat, e: nat)
    requires b < |t0| && e < |t0[b]| && t0[b][e].key in M0 && M0[t0[b][e].key] == t0[b][e].val
    requires Moving(t0, hash, M0, M, KeysIn(t0[..b]) + BucketKeys(t0[b][..e]))
    ensures Moving(t0, hash, M0, M[t0[b][e].key := t0[b][e].val],
                   KeysIn(t0[..b]) + BucketKeys(t0[b][..e + 1]))
  {
    MovedStep(t0, b, e);
    RestrictGrow(M0, KeysIn(t0[..b]) + BucketKeys(t0[b][..e]), t0[b][e].key);
  }

  /** Letting one more key of `M` through the cut adds its entry. */
  lemma RestrictGrow<K, V>(M: map<K, V>, P: set<K>, x: K)
    requires x in M
    ensures Restrict(M, P)[x := M[x]] == Restrict(M, P + {x})
  {
  }

  /** Before any old tuple is inserted again, nothing has been met and nothing is stored. */
  lemma MoveStart<K, V>(t0: seq<seq<Item<K, V>>>, hash: K -> int, M0: map<K, V>)
    requires Chained(t0, hash, M0) && 4 * |M0| < 3 * |t0| + 4
    ensures Moving(t0, hash, M0, map[], KeysIn(t0[..0]))
  {
    assert t0[..0] == [];
  }

  /**
   * Every old tuple inserted again: the stored map is the old one, and with
   * the capacity doubled its load is below the threshold.
   */
  lemma MovedAll<K, V>(t0: seq<seq<Item<K, V>>>, hash: K -> int, M0: map<K, V>, M: map<K, V>)
    requires Moving(t0, hash, M0, M, KeysIn(t0[..|t0|]))
    ensures M == M0
    ensures 0 < |t0| ==> 4 * |M| < 3 * (2 * |t0|)
  {
    ChainedKeys(t0, hash, M0);
    assert t0[..|t0|] == t0;
    if |t0| == 1 {
      assert |M| <= 1;
    }
  }

  class ChainingHash<K(==), V> {
    /** Python's built-in `hash`. */
    const Hash: K -> int
    /** Number of buckets. */
    var capacity: nat
    /** Number of stored keys. */
    var size: nat
    /** The buckets, each a list of `(key, value)` tuples. */
    var table: seq<seq<Item<K, V>>>
    /** The key -> value map the table stores. */
    ghost var M: map<K, V>

    /**
     * The buckets store `M`, `size` counts both its keys and the tuples, and
     * the load stays within one insertion of the 0.75 threshold.
     */
    ghost predicate Valid()
      reads this
    {
      && |table| == capacity && Chained(table, Hash, M)
      && size == |M| && size == Total(table)
      && 4 * size < 3 * capacity + 4
    }

    /** `_hash(key)`: the home bucket `hash(key) % capacity`. */
    function Index(key: K): (i: nat)
      reads this
      requires 0 < capacity
      ensures i < capacity && i == Hash(key) % capacity
    {
      Hash(key) % capacity
    }

    /** `ChainingHash(capacity)`: `capacity` empty buckets. */
    constructor (capacity: nat, hash: K -> int)
      ensures Valid()
      ensures Hash == hash && this.capacity == capacity && size == 0 && M == map[]
      ensures table == EmptyTable(capacity)
    {
      Hash := hash;
      this.capacity := capacity;
      size := 0;
      table := EmptyTable(capacity);
      M := map[];
      new;
      EmptyChained<K, V>(capacity, hash);
    }

    /**
     * `insert(key, value)`. Fails before touching the table on a zero
     * capacity (`size / capacity` raises). At a load factor of 0.75 or more it
     * first resizes, doubling the capacity. Then a key already in its bucket
     * has its value replaced in place and a new key is appended to its
     * bucket, growing `size`. Either way the stored map becomes the old one
     * with `key` mapped to `value`; without a resize no other tuple moves.
     */
    method Insert(key: K, value: V) returns (outcome: Outcome)
      requires Valid()
      modifies this
      decreases if 0 < capacity && 4 * size >= 3 * capacity then 2 else 0, 0
      ensures Valid()
      ensures outcome == if old(capacity) == 0 then NoCapacity else if key in old(M) then Replaced else Added
      ensures outcome.NoCapacity? ==> unchanged(this)
      ensures !outcome.NoCapacity? ==> M == old(M)[key := value]
      ensures capacity == if 0 < old(capacity) && 4 * old(size) >= 3 * old(capacity) then 2 * old(capacity)
                          else old(capacity)
      ensures size == if outcome.Added? then old(size) + 1 else old(size)
      ensures outcome.Replaced? && capacity == old(capacity) ==>
                var b := Hash(key) % capacity;
                table == old(table)[b := Overwritten(old(table)[b], key, value)]
      ensures outcome.Added? && capacity == old(capacity) ==>
                var b := Hash(key) % capacity;
                table == old(table)[b := old(table)[b] + [Item(key, value)]]
    {
      if capacity == 0 {
        return NoCapacity;
      }
      if 4 * size >= 3 * capacity {
        Resize();
      }
      var index := Index(key);
      var i := FindKey(table[index], key);
      if i < |table[index]| {
        Overwrite(index, i, key, value);
        return Replaced;
      }
      Append(index, key, value);
      return Added;
    }

    /** `bucket[i] = (key, value)` for the position `i` holding `key`. */
    method Overwrite(index: nat, i: nat, key: K, value: V)
      requires Valid() && index < capacity && i < |table[index]| && table[index][i].key == key
      modifies this
      ensures Valid() && key in old(M) && M == old(M)[key := value]
      ensures capacity == old(capacity) && size == old(size) && index == Hash(key) % capacity
      ensures table == old(table)[index := Overwritten(old(table)[index], key, value)]
    {
      ghost var t := table;
      ReplaceChained(t, Hash, M, index, i, key, value);
      assert BucketOk(t, Hash, M, index) && Holds(t, Hash, M, index, i);
      OverwrittenAt(t[index], key, value, i);
      table := table[index := table[index][i := Item(key, value)]];
      M := M[key := value];
    }

    /** `bucket.append((key, value))` and `self.size += 1` for a key absent from its bucket. */
    method Append(index: nat, key: K, value: V)
      requires Valid() && 0 < capacity && index == Hash(key) % capacity && 4 * size < 3 * capacity
      requires forall e :: 0 <= e < |table[index]| ==> table[index][e].key != key
      modifies this
      ensures Valid() && key !in old(M) && M == old(M)[key := value]
      ensures capacity == old(capacity) && size == old(size) + 1
      ensures table == old(table)[index := old(table)[index] + [Item(key, value)]]
    {
      AppendChained(table, Hash, M, key, value);
      table := table[index := table[index] + [Item(key, value)]];
      size := size + 1;
      M := M[key := value];
    }

    /**
     * `_resize()`: doubles the capacity, empties the table and inserts every
     * old tuple again, bucket by bucket. The stored map and `size` come out
     * unchanged, and the load factor below 0.75, so none of those inserts
     * resizes again.
     */
    method Resize()
      requires Valid()
      modifies this
      decreases 1, 1
      ensures Valid()
      ensures capacity == 2 * old(capacity) && M == old(M) && size == old(size)
      ensures 0 < old(capacity) ==> 4 * size < 3 * capacity
    {
      var oldTable := table;
      ghost var M0 := M;
      MoveStart(oldTable, Hash, M0);
      Clear(2 * capacity);
      for b := 0 to |oldTable|
        invariant Valid() && capacity == 2 * |oldTable|
        invariant Moving(oldTable, Hash, M0, M, KeysIn(oldTable[..b]))
      {
        MoveBucket(oldTable[b], oldTable, M0, b);
      }
      MovedAll(oldTable, Hash, M0, M);
    }

    /** `self.capacity = capacity`, `self.table = [[] for _ in range(capacity)]`, `self.size = 0`. */
    method Clear(capacity: nat)
      modifies this
      ensures Valid() && this.capacity == capacity && table == EmptyTable(capacity) && size == 0 && M == map[]
    {
      this.capacity := capacity;
      table := EmptyTable(capacity);
      size := 0;
      M := map[];
      EmptyChained<K, V>(capacity, Hash);
    }

    /** The inner loop of `_resize`: `self.insert(k, v)` for each tuple of the old bucket `b`, in order. */
    method MoveBucket(bucket: seq<Item<K, V>>, ghost t0: seq<seq<Item<K, V>>>, ghost M0: map<K, V>, ghost b: nat)
      requires b < |t0| && bucket == t0[b]
      requires Valid() && capacity == 2 * |t0| && Moving(t0, Hash, M0, M, KeysIn(t0[..b]))
      modifies this
      decreases 1, 0
      ensures Valid() && capacity == old(capacity) && Moving(t0, Hash, M0, M, KeysIn(t0[..b + 1]))
    {
      for e := 0 to |bucket|
        invariant Valid() && capacity == 2 * |t0|
        invariant Moving(t0, Hash, M0, M, KeysIn(t0[..b]) + BucketKeys(bucket[..e]))
      {
        MoveNext(t0, Hash, M0, M, b, e);
        var _ := Insert(bucket[e].key, bucket[e].val);
      }
      MovedBucket(t0, b);
    }
  }

  /**
   * The `for i, (k, v) in enumerate(bucket)` search of `insert`: the first
   * position holding `key`, or the bucket's length when none does.
   */
  method FindKey<K(==), V>(bucket: seq<Item<K, V>>, key: K) returns (i: nat)
    ensures i <= |bucket|
    ensures i < |bucket| ==> bucket[i].key == key
    ensures forall e :: 0 <= e < i ==> bucket[e].key != key
  {
    i := 0;
    while i < |bucket| && bucket[i].key != key
      invariant i <= |bucket|
      invariant forall e :: 0 <= e < i ==> bucket[e].key != key
    {
      i := i + 1;
    }
  }
}
