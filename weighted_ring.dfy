/**
 * The weighted consistent hash ring of hashring_simulation.py. A node of
 * weight `w` gets `vnodes * w` virtual nodes; a virtual node whose position is
 * already taken is re-hashed with `"_collision"` appended until it lands on a
 * free position, so every position is listed once. Removal recomputes the
 * unsuffixed positions only. Lookups walk the ring clockwise collecting
 * distinct owners. The MurmurHash3 hash is the constructor's `hash` argument.
 */
module WeightedRing {
  import opened Bisect
  import opened RingKeys

  /** The ring's stored state: sorted positions, their owners, and each node's weight. */
  datatype RingState = RingState(ring: seq<int>, nodesMap: map<int, string>, weights: map<string, nat>)

  /** The ring is strictly sorted and lists exactly the positions that have an owner. */
  ghost predicate Inv(s: RingState) {
    StrictlySorted(s.ring) && Elems(s.ring) == s.nodesMap.Keys
  }

  /**
   * `int(self.vnodes * weight)` for a whole-number weight, written as repeated
   * addition so that the product stays out of the arithmetic the add and
   * remove loops need.
   */
  function VnodeCount(vnodes: nat, weight: nat): nat {
    if weight == 0 then 0 else VnodeCount(vnodes, weight - 1) + vnodes
  }

  /** The repeated addition is the product `vnodes * weight`. */
  lemma {:induction false} VnodeCountIsProduct(vnodes: nat, weight: nat)
    ensures VnodeCount(vnodes, weight) == vnodes * weight
  {
    if weight > 0 {
      VnodeCountIsProduct(vnodes, weight - 1);
    }
  }

  // ---------------------------------------------------------------------------
  // add_node
  // ---------------------------------------------------------------------------

  /**
   * `key` suffixed `j` times is the first free position of its collision
   * chain: it is not in `taken`, and every shorter suffix hashed into `taken`.
   */
  ghost predicate FirstFree(hash: string -> int, taken: set<int>, key: string, j: nat) {
    && hash(Collided(key, j)) !in taken
    && forall k :: 0 <= k < j ==> hash(Collided(key, k)) in taken
  }

  /**
   * The positions `added` (and the number of suffixes `probes` each needed)
   * are what `add_node(name)` picks one virtual node after another: virtual
   * node `i` takes the first free position of its chain, where the positions
   * taken are the earlier ones plus those placed for virtual nodes `0..i-1`.
   */
  ghost predicate Placed(hash: string -> int, taken: set<int>, name: string, added: seq<int>, probes: seq<nat>) {
    && |probes| == |added|
    && forall i :: 0 <= i < |added| ==> PlacedAt(hash, taken, name, added, probes, i)
  }

  /** Virtual node `i` sits at the first free position of its chain, given the positions placed before it. */
  ghost predicate PlacedAt(hash: string -> int, taken: set<int>, name: string, added: seq<int>, probes: seq<nat>, i: nat) {
    && i < |added| && i < |probes|
    && added[i] == hash(Collided(VnodeKey(name, i), probes[i]))
    && FirstFree(hash, taken + Elems(added[..i]), VnodeKey(name, i), probes[i])
  }

  /**
   * `s'` is the state after `add_node(name, weight)` on `s`, having placed
   * `added`: the weight is recorded, the ring gains exactly the placed
   * positions and stays strictly sorted, the placed positions are owned by
   * `name`, and every earlier position keeps its owner.
   */
  ghost predicate AddStep(s: RingState, s': RingState, hash: string -> int, vnodes: nat, name: string, weight: nat,
                          added: seq<int>, probes: seq<nat>) {
    && |added| == VnodeCount(vnodes, weight)
    && Placed(hash, s.nodesMap.Keys, name, added, probes)
    && StrictlySorted(s'.ring)
    && Elems(s'.ring) == Elems(s.ring) + Elems(added)
    && s'.nodesMap.Keys == s.nodesMap.Keys + Elems(added)
    && (forall p :: p in s'.nodesMap ==> s'.nodesMap[p] == if p in s.nodesMap then s.nodesMap[p] else name)
    && s'.weights == s.weights[name := weight]
  }

  /** The collision chain of a key has one first free position. */
  lemma FirstFreeUnique(hash: string -> int, taken: set<int>, key: string, j1: nat, j2: nat)
    requires FirstFree(hash, taken, key, j1) && FirstFree(hash, taken, key, j2)
    ensures j1 == j2
  {
  }

  /** Placed positions are new: none was taken before and none is placed twice. */
  lemma PlacedFresh(hash: string -> int, taken: set<int>, name: string, added: seq<int>, probes: seq<nat>)
    requires Placed(hash, taken, name, added, probes)
    ensures forall i :: 0 <= i < |added| ==> added[i] !in taken
    ensures forall i, j :: 0 <= j < i < |added| ==> added[j] != added[i]
  {
    forall i | 0 <= i < |added| ensures added[i] !in taken {
      assert PlacedAt(hash, taken, name, added, probes, i);
    }
    forall i, j | 0 <= j < i < |added| ensures added[j] != added[i] {
      assert PlacedAt(hash, taken, name, added, probes, i);
      assert added[j] in Elems(added[..i]) by { assert added[..i][j] == added[j]; }
    }
  }

  /** Two sequences that agree up to `k` and at `k` agree up to `k + 1`. */
  lemma PrefixStep<T>(a: seq<T>, b: seq<T>, k: nat)
    requires k < |a| && k < |b| && a[..k] == b[..k] && a[k] == b[k]
    ensures a[..k + 1] == b[..k + 1]
  {
    assert a[..k + 1] == a[..k] + [a[k]] && b[..k + 1] == b[..k] + [b[k]];
  }

  /**
   * `add_node` is deterministic: the placement of a node's virtual nodes is
   * fixed by the positions already taken.
   */
  lemma {:induction false} PlacedUnique(hash: string -> int, taken: set<int>, name: string,
                                        a1: seq<int>, p1: seq<nat>, a2: seq<int>, p2: seq<nat>)
    requires Placed(hash, taken, name, a1, p1) && Placed(hash, taken, name, a2, p2)
    requires |a1| == |a2|
    ensures a1 == a2 && p1 == p2
  {
    var k := 0;
    while k < |a1|
      invariant 0 <= k <= |a1|
      invariant a1[..k] == a2[..k] && p1[..k] == p2[..k]
    {
      assert PlacedAt(hash, taken, name, a1, p1, k) && PlacedAt(hash, taken, name, a2, p2, k);
      FirstFreeUnique(hash, taken + Elems(a1[..k]), VnodeKey(name, k), p1[k], p2[k]);
      PrefixStep(a1, a2, k);
      PrefixStep(p1, p2, k);
      k := k + 1;
    }
    assert a1 == a1[..k] && a2 == a2[..k] && p1 == p1[..k] && p2 == p2[..k];
  }

  /**
   * `add_node` keeps the ring's invariant. The step itself is shown to keep the
   * ring strictly sorted in `AddingStep`; this states the consequence for the
   * state as a whole.
   */
  lemma AddKeepsInv(s: RingState, s': RingState, hash: string -> int, vnodes: nat, name: string, weight: nat,
                    added: seq<int>, probes: seq<nat>)
    requires Inv(s) && AddStep(s, s', hash, vnodes, name, weight, added, probes)
    ensures Inv(s')
  {
  }

  /**
   * Consistent hashing's promise for `add_node`: a key either keeps the owner
   * it had, or moves to the node just added.
   */
  lemma AddMovesKeysOnlyToNewNode(s: RingState, s': RingState, hash: string -> int, vnodes: nat, name: string,
                                  weight: nat, added: seq<int>, probes: seq<nat>, h: int, p: int, p': int)
    requires Inv(s) && AddStep(s, s', hash, vnodes, name, weight, added, probes)
    requires IsSuccessor(s.nodesMap.Keys, h, p) && IsSuccessor(s'.nodesMap.Keys, h, p')
    ensures s'.nodesMap[p'] == s.nodesMap[p] || s'.nodesMap[p'] == name
  {
    if p' in s.nodesMap {
      SuccessorSurvivesRemoval(s'.nodesMap.Keys, s.nodesMap.Keys, h, p');
      SuccessorUnique(s.nodesMap.Keys, h, p, p');
    }
  }

  // ---------------------------------------------------------------------------
  // remove_node
  // ---------------------------------------------------------------------------

  /** The values of `s` that are not in `xs`, in their order. */
  function Without(s: seq<int>, xs: set<int>): (r: seq<int>)
    ensures Elems(r) == Elems(s) - xs
  {
    if s == [] then
      []
    else
      var rest := Without(s[1..], xs);
      assert Elems(s) == {s[0]} + Elems(s[1..]) by { assert s == [s[0]] + s[1..]; }
      if s[0] in xs then
        rest
      else
        assert Elems([s[0]] + rest) == {s[0]} + Elems(rest);
        [s[0]] + rest
  }

  /** Dropping values keeps a list strictly sorted. */
  lemma {:induction false} WithoutStrict(s: seq<int>, xs: set<int>)
    requires StrictlySorted(s)
    ensures StrictlySorted(Without(s, xs))
  {
    if s != [] {
      StrictTail(s);
      WithoutStrict(s[1..], xs);
      var rest := Without(s[1..], xs);
      if s[0] !in xs {
        var r := [s[0]] + rest;
        forall i, j | 0 <= i < j < |r| ensures InOrder(r, i, j) && Before(r, i, j) {
          if i == 0 {
            assert rest[j - 1] in Elems(rest);
            var k :| 0 <= k < |s[1..]| && s[1..][k] == rest[j - 1];
            assert s[k + 1] == rest[j - 1];
          } else {
            assert Before(rest, i - 1, j - 1);
          }
        }
      }
    }
  }

  /**
   * The state after `remove_node(name)`: unchanged for an unknown node;
   * otherwise the weight is forgotten and the node's unsuffixed positions
   * `hash(f"{name}#{i}")`, `i < vnodes * weight`, leave the ring and the owner
   * map, whoever owns them.
   */
  function RemoveState(s: RingState, hash: string -> int, vnodes: nat, name: string): (s': RingState)
    requires Inv(s)
    ensures Inv(s')
  {
    if name !in s.weights then
      s
    else
      var gone := Elems(Positions(hash, name, VnodeCount(vnodes, s.weights[name])));
      WithoutStrict(s.ring, gone);
      RingState(Without(s.ring, gone), s.nodesMap - gone, s.weights - {name})
  }

  /**
   * Removing a node that was just added to a ring that did not know it, with
   * no collision on the way, gives back exactly the ring before the add.
   */
  lemma AddThenRemoveRestores(s: RingState, s1: RingState, hash: string -> int, vnodes: nat, name: string,
                              weight: nat, added: seq<int>, probes: seq<nat>)
    requires Inv(s) && name !in s.weights
    requires AddStep(s, s1, hash, vnodes, name, weight, added, probes)
    requires forall i :: 0 <= i < |probes| ==> probes[i] == 0
    ensures Inv(s1) && RemoveState(s1, hash, vnodes, name) == s
  {
    var s2 := RemoveState(s1, hash, vnodes, name);
    var ps := Positions(hash, name, VnodeCount(vnodes, weight));
    assert added == ps by {
      forall i | 0 <= i < |added| ensures added[i] == ps[i] {
        assert probes[i] == 0 && PlacedAt(hash, s.nodesMap.Keys, name, added, probes, i);
      }
    }
    PlacedFresh(hash, s.nodesMap.Keys, name, added, probes);
    assert Elems(added) !! s.nodesMap.Keys;
    StrictlySortedUnique(s2.ring, s.ring);
    assert s2.nodesMap == s.nodesMap by {
      assert s2.nodesMap.Keys == s.nodesMap.Keys;
      forall p | p in s.nodesMap ensures s2.nodesMap[p] == s.nodesMap[p] {
        assert p !in Elems(ps);
      }
    }
    assert s2.weights == s.weights;
  }

  /**
   * What a collision does to removal: when `name`'s first virtual node found
   * its position owned by another node and moved to a suffixed position,
   * `remove_node(name)` takes the other node's position off the ring and
   * leaves `name`'s suffixed position behind, still owned by `name`.
   */
  lemma CollisionBreaksRemove(s: RingState, s1: RingState, hash: string -> int, vnodes: nat, name: string,
                              weight: nat, added: seq<int>, probes: seq<nat>)
    requires Inv(s) && name !in s.weights
    requires AddStep(s, s1, hash, vnodes, name, weight, added, probes)
    requires VnodeCount(vnodes, weight) > 0
    requires hash(VnodeKey(name, 0)) in s.nodesMap
    requires forall i :: 0 <= i < VnodeCount(vnodes, weight) ==> added[0] != hash(VnodeKey(name, i))
    ensures var s2 := RemoveState(s1, hash, vnodes, name);
            && hash(VnodeKey(name, 0)) !in s2.nodesMap
            && added[0] in s2.nodesMap && s2.nodesMap[added[0]] == name
            && name !in s2.weights
  {
    var ps := Positions(hash, name, VnodeCount(vnodes, weight));
    assert ps[0] == hash(VnodeKey(name, 0));
    forall i | 0 <= i < |ps| ensures ps[i] != added[0] {
      assert ps[i] == hash(VnodeKey(name, i));
    }
    assert added[0] !in Elems(ps);
    PlacedFresh(hash, s.nodesMap.Keys, name, added, probes);
  }

  /**
   * Consistent hashing's promise for `remove_node`: a key whose owning
   * position survives the removal keeps that position and its owner.
   */
  lemma RemoveKeepsSurvivingOwners(s: RingState, hash: string -> int, vnodes: nat, name: string, h: int, p: int)
    requires Inv(s)
    requires IsSuccessor(s.nodesMap.Keys, h, p)
    requires p in RemoveState(s, hash, vnodes, name).nodesMap
    ensures IsSuccessor(RemoveState(s, hash, vnodes, name).nodesMap.Keys, h, p)
    ensures RemoveState(s, hash, vnodes, name).nodesMap[p] == s.nodesMap[p]
  {
    SuccessorSurvivesRemoval(s.nodesMap.Keys, RemoveState(s, hash, vnodes, name).nodesMap.Keys, h, p);
  }

  // ---------------------------------------------------------------------------
  // get_nodes
  // ---------------------------------------------------------------------------

  /**
   * The owners met walking `k` steps clockwise from index `start`: the owner
   * of `ring[(start + i) % len(ring)]` for each `i < k`, in that order.
   */
  function Clockwise(ring: seq<int>, m: map<int, string>, start: nat, k: nat): (owners: seq<string>)
    requires ring != [] && Elems(ring) <= m.Keys
    ensures |owners| == k
  {
    if k == 0 then
      []
    else
      var p := ring[(start + k - 1) % |ring|];
      assert p in Elems(ring);
      Clockwise(ring, m, start, k - 1) + [m[p]]
  }

  /** Step `i` of the walk meets the owner of `ring[(start + i) % len(ring)]`. */
  lemma {:induction false} ClockwiseAt(ring: seq<int>, m: map<int, string>, start: nat, k: nat)
    requires ring != [] && Elems(ring) <= m.Keys
    ensures forall i :: 0 <= i < k ==>
              ring[(start + i) % |ring|] in m && Clockwise(ring, m, start, k)[i] == m[ring[(start + i) % |ring|]]
  {
    if k > 0 {
      ClockwiseAt(ring, m, start, k - 1);
      assert ring[(start + (k - 1)) % |ring|] in Elems(ring);
    }
  }

  ghost predicate Distinct(s: seq<string>) {
    forall i, j :: 0 <= i < j < |s| ==> s[i] != s[j]
  }

  /** The values of `s` with repeats dropped, each kept where it first occurs. */
  function Dedup(s: seq<string>): (r: seq<string>)
    ensures |r| <= |s|
  {
    if s == [] then
      []
    else
      var init := Dedup(s[..|s| - 1]);
      assert s == s[..|s| - 1] + [s[|s| - 1]];
      if s[|s| - 1] in init then init else init + [s[|s| - 1]]
  }

  /** Dropping repeats commutes with appending one value. */
  lemma DedupSnoc(s: seq<string>, x: string)
    ensures Dedup(s + [x]) == if x in Dedup(s) then Dedup(s) else Dedup(s) + [x]
  {
    assert (s + [x])[..|s|] == s;
  }

  /** Dropping repeats leaves each value of `s` exactly once. */
  lemma {:induction false} DedupMeaning(s: seq<string>)
    ensures Distinct(Dedup(s))
    ensures forall x :: x in Dedup(s) <==> x in s
  {
    if s != [] {
      var init := s[..|s| - 1];
      DedupMeaning(init);
      DedupSnoc(init, s[|s| - 1]);
      assert s == init + [s[|s| - 1]];
    }
  }

  /** Dropping repeats keeps prefixes: a longer walk only adds owners at the end. */
  lemma {:induction false} DedupPrefix(a: seq<string>, b: seq<string>)
    requires a <= b
    ensures Dedup(a) <= Dedup(b)
    decreases |b|
  {
    if |a| < |b| {
      var init := b[..|b| - 1];
      assert a <= init;
      DedupPrefix(a, init);
      DedupSnoc(init, b[|b| - 1]);
      assert b == init + [b[|b| - 1]];
    } else {
      assert a == b;
    }
  }

  /** The first value survives dropping repeats. */
  lemma {:induction false} DedupHead(s: seq<string>)
    requires s != []
    ensures Dedup(s) != [] && Dedup(s)[0] == s[0]
  {
    DedupPrefix([s[0]], s);
    assert Dedup([s[0]]) == [s[0]] by { DedupSnoc([], s[0]); assert [] + [s[0]] == [s[0]]; }
  }

  /** `targets` as the loop leaves it: cut at `n` values when `n >= 1`, never cut otherwise. */
  function Capped(s: seq<string>, n: int): (r: seq<string>)
    ensures r <= s
    ensures n >= 1 ==> |r| == if |s| < n then |s| else n
    ensures n < 1 ==> r == s
  {
    if n >= 1 && |s| > n then s[..n] else s
  }

  /** The clockwise walk over the whole ring meets every position once. */
  lemma ClockwiseCovers(ring: seq<int>, m: map<int, string>, start: nat)
    requires ring != [] && Elems(ring) == m.Keys && start <= |ring|
    ensures forall p :: p in m ==> m[p] in Clockwise(ring, m, start, |ring|)
  {
    var owners := Clockwise(ring, m, start, |ring|);
    ClockwiseAt(ring, m, start, |ring|);
    forall p | p in m ensures m[p] in owners {
      var j :| 0 <= j < |ring| && ring[j] == p;
      var i := if j >= start then j - start else |ring| - start + j;
      assert (start + i) % |ring| == j by {
        if j >= start {
          Modular.ModWrap(j, |ring|);
        } else {
          assert start + i == |ring| + j;
          ModShift(j, |ring|);
        }
      }
      assert owners[i] == m[p];
    }
  }

  lemma ModShift(j: nat, n: nat)
    requires j < n
    ensures (n + j) % n == j
  {
  }

  /** The nodes that own at least one position of the ring. */
  ghost function Owners(m: map<int, string>): set<string>
  {
    set p | p in m :: m[p]
  }

  /** Every owner met on the walk owns some position. */
  lemma ClockwiseOwners(ring: seq<int>, m: map<int, string>, start: nat, k: nat)
    requires ring != [] && Elems(ring) <= m.Keys
    ensures forall x :: x in Clockwise(ring, m, start, k) ==> x in Owners(m)
  {
    var walk := Clockwise(ring, m, start, k);
    ClockwiseAt(ring, m, start, k);
    forall x | x in walk ensures x in Owners(m) {
      var i :| 0 <= i < |walk| && walk[i] == x;
      var p := ring[(start + i) % |ring|];
      assert p in m && m[p] == x;
    }
  }

  /**
   * What `get_nodes(key, n)` returns on a non-empty ring: distinct nodes,
   * each the owner of some position, at most `n` of them when `n >= 1`, and,
   * when fewer than `n` come back (or `n < 1`), every owner on the ring.
   */
  lemma GetNodesMeaning(ring: seq<int>, m: map<int, string>, start: nat, n: int)
    requires ring != [] && Elems(ring) == m.Keys && start <= |ring|
    ensures var targets := Capped(Dedup(Clockwise(ring, m, start, |ring|)), n);
            && Distinct(targets)
            && (forall x :: x in targets ==> x in Owners(m))
            && (n >= 1 ==> |targets| <= n)
            && (n < 1 || |targets| < n ==> forall p :: p in m ==> m[p] in targets)
  {
    var d := Dedup(Clockwise(ring, m, start, |ring|));
    var targets := Capped(d, n);
    DedupMeaning(Clockwise(ring, m, start, |ring|));
    assert forall x :: x in targets ==> x in d;
    ClockwiseOwners(ring, m, start, |ring|);
    ClockwiseCovers(ring, m, start);
  }

  /** A list without repeats holds as many distinct values as it has entries. */
  lemma {:induction false} DistinctCard(s: seq<string>)
    requires Distinct(s)
    ensures |set x | x in s| == |s|
  {
    if s != [] {
      var t := s[..|s| - 1];
      assert s == t + [s[|s| - 1]];
      DistinctCard(t);
      assert (set x | x in s) == (set x | x in t) + {s[|s| - 1]};
    }
  }

  /**
   * Distinct owners, at most `n >= 1` of them, and all of them when fewer
   * than `n`: that is `min(n, number of distinct owners)` names.
   */
  lemma CountOwners(targets: seq<string>, m: map<int, string>, n: int)
    requires Distinct(targets) && n >= 1 && |targets| <= n
    requires forall x :: x in targets ==> x in Owners(m)
    requires |targets| < n ==> forall p :: p in m ==> m[p] in targets
    ensures |targets| == if n < |Owners(m)| then n else |Owners(m)|
  {
    DistinctCard(targets);
    var names := set x | x in targets;
    assert Owners(m) == names + (Owners(m) - names);
  }

  /** With `n >= 1`, `get_nodes(key, n)` returns `min(n, number of distinct owners)` names. */
  lemma GetNodesCount(ring: seq<int>, m: map<int, string>, start: nat, n: int)
    requires ring != [] && Elems(ring) == m.Keys && start <= |ring| && n >= 1
    ensures |Capped(Dedup(Clockwise(ring, m, start, |ring|)), n)| == if n < |Owners(m)| then n else |Owners(m)|
  {
    GetNodesMeaning(ring, m, start, n);
    CountOwners(Capped(Dedup(Clockwise(ring, m, start, |ring|)), n), m, n);
  }

  /**
   * The first node `get_nodes(key, n)` returns is the owner of the position
   * that owns the key's hash, the node `get_node` of a plain ring would pick.
   */
  lemma GetNodesFirst(ring: seq<int>, m: map<int, string>, h: int, n: int)
    requires ring != [] && Sorted(ring) && Elems(ring) <= m.Keys
    ensures var targets := Capped(Dedup(Clockwise(ring, m, LowerBound(ring, h), |ring|)), n);
            targets != [] && targets[0] == m[Successor(ring, h)]
  {
    var start := LowerBound(ring, h);
    var walk := Clockwise(ring, m, start, |ring|);
    ClockwiseAt(ring, m, start, |ring|);
    DedupHead(walk);
    Modular.ModWrap(start, |ring|);
    assert walk[0] == m[ring[start % |ring|]];
  }

  /** The walk over `k` steps is the start of any longer walk. */
  lemma ClockwisePrefix(ring: seq<int>, m: map<int, string>, start: nat, k: nat, k': nat)
    requires ring != [] && Elems(ring) <= m.Keys && k <= k'
    ensures Clockwise(ring, m, start, k) <= Clockwise(ring, m, start, k')
  {
    ClockwiseAt(ring, m, start, k);
    ClockwiseAt(ring, m, start, k');
    assert Clockwise(ring, m, start, k) == Clockwise(ring, m, start, k')[..k];
  }

  /** When the loop stops at `n` distinct owners, those are the first `n` of the whole walk. */
  lemma CappedAtBreak(a: seq<string>, b: seq<string>, n: int)
    requires a <= b && n >= 1 && |Dedup(a)| == n
    ensures Capped(Dedup(b), n) == Dedup(a)
  {
    DedupPrefix(a, b);
  }

  /** One more step of the `get_nodes` loop: the next owner is appended unless already collected. */
  lemma GetNodesStep(ring: seq<int>, m: map<int, string>, start: nat, i: nat, targets: seq<string>, name: string)
    requires ring != [] && Elems(ring) <= m.Keys
    requires targets == Dedup(Clockwise(ring, m, start, i))
    requires ring[(start + i) % |ring|] in m && name == m[ring[(start + i) % |ring|]]
    ensures (if name in targets then targets else targets + [name]) == Dedup(Clockwise(ring, m, start, i + 1))
  {
    assert Clockwise(ring, m, start, i + 1) == Clockwise(ring, m, start, i) + [name];
    DedupSnoc(Clockwise(ring, m, start, i), name);
  }

  /** The `get_nodes` loop ran to the end without collecting `n` owners: nothing was cut. */
  lemma GetNodesDone(walk: seq<string>, n: int)
    requires n >= 1 ==> |Dedup(walk)| < n
    ensures Capped(Dedup(walk), n) == Dedup(walk)
  {
  }

  /** Placing one more virtual node at the first free position of its chain extends the placement. */
  lemma PlacedSnoc(hash: string -> int, taken: set<int>, name: string, added: seq<int>, probes: seq<nat>, j: nat)
    requires Placed(hash, taken, name, added, probes)
    requires FirstFree(hash, taken + Elems(added), VnodeKey(name, |added|), j)
    ensures Placed(hash, taken, name, added + [hash(Collided(VnodeKey(name, |added|), j))], probes + [j])
  {
    var h := hash(Collided(VnodeKey(name, |added|), j));
    var added', probes' := added + [h], probes + [j];
    forall i | 0 <= i < |added'| ensures PlacedAt(hash, taken, name, added', probes', i) {
      if i < |added| {
        assert PlacedAt(hash, taken, name, added, probes, i);
        assert added'[..i] == added[..i];
      } else {
        assert added'[..i] == added;
      }
    }
  }

  /**
   * `add_node`'s loop ends once it has placed virtual nodes `i..count-1` of
   * `name` on a ring whose positions are `taken`: the `"_collision"` chain of
   * each of them reaches a free position, the positions taken growing by the
   * one placed for each virtual node before it. These are exactly the calls
   * on which every collision loop of `add_node` stops.
   */
  ghost predicate AddEnds(hash: string -> int, name: string, taken: set<int>, i: nat, count: nat)
    decreases count - i
  {
    i < count ==>
      exists j: nat :: && FirstFree(hash, taken, VnodeKey(name, i), j)
                       && AddEnds(hash, name, taken + {hash(Collided(VnodeKey(name, i), j))}, i + 1, count)
  }

  /** While the add loop still has virtual nodes to place, the next one's chain has a free position. */
  lemma AddEndsFree(hash: string -> int, name: string, taken: set<int>, i: nat, count: nat)
    requires AddEnds(hash, name, taken, i, count) && i < count
    ensures exists j: nat :: hash(Collided(VnodeKey(name, i), j)) !in taken
  {
    var j: nat :| FirstFree(hash, taken, VnodeKey(name, i), j);
    assert hash(Collided(VnodeKey(name, i), j)) !in taken;
  }

  /** Placing the next virtual node at the first free position of its chain leaves the rest able to end. */
  lemma AddEndsStep(hash: string -> int, name: string, taken: set<int>, i: nat, count: nat, j: nat)
    requires AddEnds(hash, name, taken, i, count) && i < count
    requires FirstFree(hash, taken, VnodeKey(name, i), j)
    ensures AddEnds(hash, name, taken + {hash(Collided(VnodeKey(name, i), j))}, i + 1, count)
  {
    var j0: nat :| && FirstFree(hash, taken, VnodeKey(name, i), j0)
                   && AddEnds(hash, name, taken + {hash(Collided(VnodeKey(name, i), j0))}, i + 1, count);
    FirstFreeUnique(hash, taken, VnodeKey(name, i), j0, j);
  }

  /**
   * Without any collision the add loop ends: when the unsuffixed positions
   * `hash(f"{name}#{k}")` are free and pairwise distinct, each virtual node
   * takes its own on the first probe.
   */
  lemma {:induction false} NoCollisionEnds(hash: string -> int, name: string, taken: set<int>, i: nat, count: nat)
    requires forall k :: i <= k < count ==> hash(VnodeKey(name, k)) !in taken
    requires forall k1, k2 :: i <= k1 < k2 < count ==> hash(VnodeKey(name, k1)) != hash(VnodeKey(name, k2))
    ensures AddEnds(hash, name, taken, i, count)
    decreases count - i
  {
    if i < count {
      var h := hash(VnodeKey(name, i));
      assert Collided(VnodeKey(name, i), 0) == VnodeKey(name, i);
      NoCollisionEnds(hash, name, taken + {h}, i + 1, count);
      assert FirstFree(hash, taken, VnodeKey(name, i), 0);
    }
  }

  /** `insort` of a position not yet on a strictly sorted ring adds it and keeps the ring strictly sorted. */
  lemma InsortFresh(ring0: seq<int>, ring: seq<int>, added: seq<int>, h: int)
    requires StrictlySorted(ring) && Elems(ring) == Elems(ring0) + Elems(added) && h !in Elems(ring)
    ensures StrictlySorted(InsertSorted(ring, h))
    ensures Elems(InsertSorted(ring, h)) == Elems(ring0) + Elems(added + [h])
  {
    assert Elems(added + [h]) == Elems(added) + {h};
    InsertSortedStrict(ring, h);
    InsertSortedElems(ring, h);
  }

  /** Mapping a new position to `name` keeps the owner map's part of the add loop's invariant. */
  lemma OwnFresh(m0: map<int, string>, m: map<int, string>, added: seq<int>, name: string, h: int)
    requires m.Keys == m0.Keys + Elems(added) && h !in m
    requires forall p :: p in m ==> m[p] == if p in m0 then m0[p] else name
    ensures m[h := name].Keys == m0.Keys + Elems(added + [h])
    ensures forall p :: p in m[h := name] ==> m[h := name][p] == if p in m0 then m0[p] else name
  {
    OwnFreshKeys(m0, m, added, name, h);
    OwnFreshValues(m0, m, name, h);
  }

  lemma OwnFreshKeys(m0: map<int, string>, m: map<int, string>, added: seq<int>, name: string, h: int)
    requires m.Keys == m0.Keys + Elems(added)
    ensures m[h := name].Keys == m0.Keys + Elems(added + [h])
  {
    assert Elems(added + [h]) == Elems(added) + {h};
  }

  lemma OwnFreshValues(m0: map<int, string>, m: map<int, string>, name: string, h: int)
    requires m0.Keys <= m.Keys && h !in m
    requires forall p :: p in m ==> m[p] == if p in m0 then m0[p] else name
    ensures forall p :: p in m[h := name] ==> m[h := name][p] == if p in m0 then m0[p] else name
  {
  }

  /**
   * The add loop's state after placing `added`: the ring and the owner map
   * of `s0` extended by exactly those positions, all owned by `name`.
   */
  ghost predicate Adding(s0: RingState, ring: seq<int>, m: map<int, string>, hash: string -> int, name: string,
                         added: seq<int>, probes: seq<nat>) {
    && Placed(hash, s0.nodesMap.Keys, name, added, probes)
    && StrictlySorted(ring) && Elems(ring) == Elems(s0.ring) + Elems(added)
    && m.Keys == s0.nodesMap.Keys + Elems(added)
    && (forall p :: p in m ==> m[p] == if p in s0.nodesMap then s0.nodesMap[p] else name)
  }

  /** Placing the next virtual node at the first free position of its chain continues the add loop. */
  lemma AddingStep(s0: RingState, ring: seq<int>, m: map<int, string>, hash: string -> int, name: string,
                   added: seq<int>, probes: seq<nat>, j: nat)
    requires Inv(s0) && Adding(s0, ring, m, hash, name, added, probes)
    requires FirstFree(hash, m.Keys, VnodeKey(name, |added|), j)
    ensures var h := hash(Collided(VnodeKey(name, |added|), j));
            Adding(s0, InsertSorted(ring, h), m[h := name], hash, name,
                   added + [h], probes + [j])
  {
    AddingPlaced(s0, ring, m, hash, name, added, probes, j);
    AddingRing(s0, ring, m, hash, name, added, probes, j);
    AddingOwners(s0, ring, m, hash, name, added, probes, j);
  }

  /** The add loop, run to the end, has made exactly the step `add_node` promises. */
  lemma AddingDone(s0: RingState, s: RingState, hash: string -> int, vnodes: nat, name: string, weight: nat,
                   added: seq<int>, probes: seq<nat>)
    requires Inv(s0) && Adding(s0, s.ring, s.nodesMap, hash, name, added, probes)
    requires |added| == VnodeCount(vnodes, weight) && s.weights == s0.weights[name := weight]
    ensures Inv(s) && AddStep(s0, s, hash, vnodes, name, weight, added, probes)
  {
  }

  /**
   * Where `remove_node`'s loop ends: every position of `name` dropped from
   * the ring and the map, and `name` dropped from the weights.
   */
  lemma RemovingDone(s0: RingState, s: RingState, hash: string -> int, vnodes: nat, name: string)
    requires Inv(s0) && name in s0.weights && s.weights == s0.weights - {name}
    requires var gone := Elems(Positions(hash, name, VnodeCount(vnodes, s0.weights[name])));
             && StrictlySorted(s.ring) && Elems(s.ring) == Elems(s0.ring) - gone
             && s.nodesMap == s0.nodesMap - gone
    ensures Inv(s) && s == RemoveState(s0, hash, vnodes, name)
  {
    var gone := Elems(Positions(hash, name, VnodeCount(vnodes, s0.weights[name])));
    WithoutStrict(s0.ring, gone);
    StrictlySortedUnique(s.ring, Without(s0.ring, gone));
  }

  /** The placement part of `AddingStep`. */
  lemma AddingPlaced(s0: RingState, ring: seq<int>, m: map<int, string>, hash: string -> int, name: string,
                     added: seq<int>, probes: seq<nat>, j: nat)
    requires Adding(s0, ring, m, hash, name, added, probes)
    requires FirstFree(hash, m.Keys, VnodeKey(name, |added|), j)
    ensures Placed(hash, s0.nodesMap.Keys, name, added + [hash(Collided(VnodeKey(name, |added|), j))], probes + [j])
  {
    PlacedSnoc(hash, s0.nodesMap.Keys, name, added, probes, j);
  }

  /** The ring part of `AddingStep`. */
  lemma AddingRing(s0: RingState, ring: seq<int>, m: map<int, string>, hash: string -> int, name: string,
                   added: seq<int>, probes: seq<nat>, j: nat)
    requires Inv(s0) && Adding(s0, ring, m, hash, name, added, probes)
    requires FirstFree(hash, m.Keys, VnodeKey(name, |added|), j)
    ensures var h := hash(Collided(VnodeKey(name, |added|), j));
            StrictlySorted(InsertSorted(ring, h)) && Elems(InsertSorted(ring, h)) == Elems(s0.ring) + Elems(added + [h])
  {
    InsortFresh(s0.ring, ring, added, hash(Collided(VnodeKey(name, |added|), j)));
  }

  /** The owner-map part of `AddingStep`. */
  lemma AddingOwners(s0: RingState, ring: seq<int>, m: map<int, string>, hash: string -> int, name: string,
                     added: seq<int>, probes: seq<nat>, j: nat)
    requires Adding(s0, ring, m, hash, name, added, probes)
    requires FirstFree(hash, m.Keys, VnodeKey(name, |added|), j)
    ensures var h := hash(Collided(VnodeKey(name, |added|), j));
            var m' := m[h := name];
            && m'.Keys == s0.nodesMap.Keys + Elems(added + [h])
            && (forall p :: p in m' ==> m'[p] == if p in s0.nodesMap then s0.nodesMap[p] else name)
  {
    OwnFresh(s0.nodesMap, m, added, name, hash(Collided(VnodeKey(name, |added|), j)));
  }

  class ConsistentHashRing {
    /** Base number of virtual nodes per unit of weight. */
    const vnodes: nat
    /** The MurmurHash3 position function. */
    const Hash: string -> int
    /** Sorted list of virtual-node positions. */
    var ring: seq<int>
    /** Position -> physical node name. */
    var nodesMap: map<int, string>
    /** Weight of each added node, kept for removal. */
    var weights: map<string, nat>

    function State(): RingState
      reads this
    {
      RingState(ring, nodesMap, weights)
    }

    ghost predicate Valid()
      reads this
    {
      Inv(State())
    }

    /** `ConsistentHashRing(vnodes)`: an empty ring. */
    constructor (vnodes: nat, hash: string -> int)
      ensures Valid()
      ensures this.vnodes == vnodes && Hash == hash
      ensures State() == RingState([], map[], map[])
    {
      this.vnodes := vnodes;
      Hash := hash;
      ring := [];
      nodesMap := map[];
      weights := map[];
    }

    /**
     * `add_node(node_name, weight)`: records the weight and places
     * `vnodes * weight` virtual nodes, re-hashing each with `"_collision"`
     * appended until its position is free. The ghost results are the placed
     * positions and the number of suffixes each needed.
     */
    method AddNode(nodeName: string, weight: nat) returns (ghost added: seq<int>, ghost probes: seq<nat>)
      requires Valid()
      requires AddEnds(Hash, nodeName, nodesMap.Keys, 0, VnodeCount(vnodes, weight))
      modifies this
      ensures Valid()
      ensures AddStep(old(State()), State(), Hash, vnodes, nodeName, weight, added, probes)
    {
      ghost var s0 := State();
      weights := weights[nodeName := weight];
      var effectiveVnodes := VnodeCount(vnodes, weight);
      added, probes := [], [];
      for i := 0 to effectiveVnodes
        invariant weights == s0.weights[nodeName := weight]
        invariant |added| == i
        invariant Adding(s0, ring, nodesMap, Hash, nodeName, added, probes)
        invariant AddEnds(Hash, nodeName, nodesMap.Keys, i, effectiveVnodes)
      {
        ghost var taken := nodesMap.Keys;
        AddEndsFree(Hash, nodeName, taken, i, effectiveVnodes);
        added, probes := PlaceVnode(nodeName, i, s0, added, probes);
        AddEndsStep(Hash, nodeName, taken, i, effectiveVnodes, probes[i]);
      }
      AddingDone(s0, State(), Hash, vnodes, nodeName, weight, added, probes);
    }

    /**
     * One turn of `add_node`'s loop: virtual node `i` of `nodeName` goes to
     * the first free position of its collision chain, which is inserted into
     * the sorted ring and mapped to `nodeName`.
     */
    method PlaceVnode(nodeName: string, i: nat, ghost s0: RingState,
                      ghost added: seq<int>, ghost probes: seq<nat>) returns (ghost added': seq<int>, ghost probes': seq<nat>)
      requires Inv(s0) && Adding(s0, ring, nodesMap, Hash, nodeName, added, probes)
      requires |added| == i && exists j: nat :: Hash(Collided(VnodeKey(nodeName, i), j)) !in nodesMap
      modifies this
      ensures Adding(s0, ring, nodesMap, Hash, nodeName, added', probes') && |added'| == i + 1
      ensures FirstFree(Hash, old(nodesMap).Keys, VnodeKey(nodeName, i), probes'[i])
      ensures added'[i] == Hash(Collided(VnodeKey(nodeName, i), probes'[i]))
      ensures nodesMap.Keys == old(nodesMap).Keys + {added'[i]}
      ensures added' == added + [added'[i]] && added'[i] !in old(nodesMap)
      ensures ring == InsertSorted(old(ring), added'[i]) && nodesMap == old(nodesMap)[added'[i] := nodeName]
      ensures weights == old(weights)
    {
      var vnodeKey := VnodeKey(nodeName, i);
      var h;
      ghost var j;
      vnodeKey, h, j := ResolveCollision(vnodeKey);
      AddingStep(s0, ring, nodesMap, Hash, nodeName, added, probes, j);
      InsertVnode(nodeName, h);
      added', probes' := added + [h], probes + [j];
    }

    /** `bisect.insort(self.ring, h)` and `self.nodes_map[h] = node_name`. */
    method InsertVnode(nodeName: string, h: int)
      requires Sorted(ring)
      modifies this
      ensures ring == InsertSorted(old(ring), h) && nodesMap == old(nodesMap)[h := nodeName]
      ensures weights == old(weights)
    {
      ring := InsertSorted(ring, h);
      nodesMap := nodesMap[h := nodeName];
    }

    /**
     * The collision loop of `add_node`: re-hashes `vnodeKey` with
     * `"_collision"` appended while its position is taken. Ends on the first
     * free position of the key's chain; the loop stops exactly when the chain
     * has a free position. Only reads the ring.
     */
    method ResolveCollision(key: string) returns (vnodeKey: string, h: int, ghost j: nat)
      requires exists j: nat :: Hash(Collided(key, j)) !in nodesMap
      ensures vnodeKey == Collided(key, j) && h == Hash(vnodeKey)
      ensures FirstFree(Hash, nodesMap.Keys, key, j)
    {
      ghost var free: nat :| Hash(Collided(key, free)) !in nodesMap;
      vnodeKey := key;
      h := Hash(vnodeKey);
      j := 0;
      while h in nodesMap
        invariant vnodeKey == Collided(key, j) && h == Hash(vnodeKey)
        invariant j <= free
        invariant forall k :: 0 <= k < j ==> Hash(Collided(key, k)) in nodesMap
        decreases free - j
      {
        vnodeKey := vnodeKey + "_collision";
        h := Hash(vnodeKey);
        j := j + 1;
      }
    }

    /**
     * One step of `remove_node`'s loop: `bisect_left` finds where `h` would
     * sit, and only a position actually there is popped from the ring and
     * the owner map.
     */
    method DropPosition(h: int)
      requires StrictlySorted(ring) && Elems(ring) == nodesMap.Keys
      modifies this
      ensures StrictlySorted(ring) && Elems(ring) == old(Elems(ring)) - {h}
      ensures nodesMap == old(nodesMap) - {h} && weights == old(weights)
    {
      var idx := LowerBound(ring, h);
      if idx < |ring| && ring[idx] == h {
        PopStrict(ring, idx);
        ring := ring[..idx] + ring[idx + 1..];
        nodesMap := nodesMap - {h};
      } else {
        forall k | 0 <= k < |ring| ensures ring[k] != h {
          if k > idx { StrictAt(ring, idx, k); }
        }
        assert h !in nodesMap;
      }
    }

    /**
     * `remove_node(node_name)`: nothing for an unknown node; otherwise forgets
     * the weight and, for each unsuffixed position `hash(f"{name}#{i}")` found
     * in the ring by `bisect_left`, pops it from the ring and the owner map.
     */
    method RemoveNode(nodeName: string)
      requires Valid()
      modifies this
      ensures Valid()
      ensures State() == RemoveState(old(State()), Hash, vnodes, nodeName)
    {
      if nodeName !in weights {
        return;
      }
      ghost var ring0, nodesMap0, weights0 := ring, nodesMap, weights;
      var hash := Hash;
      var weight := weights[nodeName];
      weights := weights - {nodeName};
      var effectiveVnodes := VnodeCount(vnodes, weight);
      for i := 0 to effectiveVnodes
        invariant weights == weights0 - {nodeName}
        invariant StrictlySorted(ring) && Elems(ring) == Elems(ring0) - Elems(Positions(hash, nodeName, i))
        invariant nodesMap == nodesMap0 - Elems(Positions(hash, nodeName, i))
      {
        var vnodeKey := VnodeKey(nodeName, i);
        var h := hash(vnodeKey);
        ghost var gone := Elems(Positions(hash, nodeName, i));
        DropPosition(h);
        PositionsStep(hash, nodeName, i);
        assert Elems(Positions(hash, nodeName, i + 1)) == gone + {h};
        assert Elems(ring0) - gone - {h} == Elems(ring0) - (gone + {h});
      }
      RemovingDone(RingState(ring0, nodesMap0, weights0), State(), hash, vnodes, nodeName);
    }

    /**
     * `get_nodes(key, n)`: `[]` on an empty ring; otherwise walks the ring
     * clockwise from `bisect_left`, appending each owner not yet collected,
     * and stops once `n` have been collected. Only reads the ring.
     */
    method GetNodes(key: string, n: int) returns (targets: seq<string>)
      requires Valid()
      ensures ring == [] ==> targets == []
      ensures ring != [] ==> targets == Capped(Dedup(Clockwise(ring, nodesMap, LowerBound(ring, Hash(key)), |ring|)), n)
    {
      targets := [];
      if ring == [] {
        return;
      }
      var r, m := ring, nodesMap;
      assert Elems(r) <= m.Keys;
      var h := Hash(key);
      var startIdx := LowerBound(r, h);
      for i := 0 to |r|
        invariant targets == Dedup(Clockwise(r, m, startIdx, i))
        invariant n >= 1 ==> |targets| < n
      {
        var idx := (startIdx + i) % |r|;
        assert r[idx] in Elems(r);
        var nodeName := m[r[idx]];
        GetNodesStep(r, m, startIdx, i, targets, nodeName);
        if nodeName !in targets {
          targets := targets + [nodeName];
        }
        if |targets| == n {
          ClockwisePrefix(r, m, startIdx, i + 1, |r|);
          CappedAtBreak(Clockwise(r, m, startIdx, i + 1), Clockwise(r, m, startIdx, |r|), n);
          return;
        }
      }
      GetNodesDone(Clockwise(r, m, startIdx, |r|), n);
    }
  }
}
