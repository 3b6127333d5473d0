/**
 * The minimal consistent hash ring of consistent_hashring.py: every node gets
 * `vnodes` positions `hash(f"{name}#{i}")`, kept in a sorted list with a map
 * from position to node. There are no weights and no collision handling: a
 * position hashed twice is listed twice and owned by whoever was added last.
 * The MD5 hash is the constructor's `hash` argument.
 */
module MinimalRing {
  import opened Wrappers
  import opened Bisect
  import opened RingKeys

  /** The ring's stored state: the sorted positions and the owner of each. */
  datatype RingState = RingState(ring: seq<int>, nodesMap: map<int, string>)

  /** The ring is sorted and lists exactly the positions that have an owner. */
  ghost predicate Inv(s: RingState) {
    Sorted(s.ring) && Elems(s.ring) == s.nodesMap.Keys
  }

  /**
   * The state after `add_node(name)`: each position of `name` inserted into the
   * sorted ring in turn, and mapped to `name`. The ring stays sorted and gains
   * exactly the node's positions (a position hashed twice is listed twice);
   * each of them is owned by `name`, overwriting any earlier owner, and every
   * other position keeps its owner.
   */
  function AddNodeState(s: RingState, hash: string -> int, vnodes: nat, name: string): (s': RingState)
    requires Inv(s)
    ensures Inv(s')
    ensures && multiset(s'.ring) == multiset(s.ring) + multiset(Positions(hash, name, vnodes))
            && s'.nodesMap.Keys == s.nodesMap.Keys + Elems(Positions(hash, name, vnodes))
            && forall p :: p in s'.nodesMap ==>
                 s'.nodesMap[p] == if p in Positions(hash, name, vnodes) then name else s.nodesMap[p]
  {
    var ps := Positions(hash, name, vnodes);
    RingState(InsertAll(s.ring, ps), AssignOwner(s.nodesMap, ps, name))
  }

  /** Adding the first `i + 1` virtual nodes is one `insort` and one map write past adding the first `i`. */
  lemma AddOneStep(s: RingState, hash: string -> int, name: string, i: nat)
    requires Inv(s)
    ensures var t := AddNodeState(s, hash, i, name);
            var p := hash(VnodeKey(name, i));
            AddNodeState(s, hash, i + 1, name) == RingState(InsertSorted(t.ring, p), t.nodesMap[p := name])
  {
    PositionsStep(hash, name, i);
    InsertAllStep(s.ring, Positions(hash, name, i), hash(VnodeKey(name, i)));
    AssignOwnerStep(s.nodesMap, Positions(hash, name, i), hash(VnodeKey(name, i)), name);
  }

  /**
   * `add_node` grows the ring by exactly `vnodes` entries and leaves every
   * `hash(f"{name}#{i}")` owned by `name`.
   */
  lemma AddNodeOwns(s: RingState, hash: string -> int, vnodes: nat, name: string)
    requires Inv(s)
    ensures var s' := AddNodeState(s, hash, vnodes, name);
            && |s'.ring| == |s.ring| + vnodes
            && forall i :: 0 <= i < vnodes ==>
                 hash(VnodeKey(name, i)) in s'.nodesMap && s'.nodesMap[hash(VnodeKey(name, i))] == name
  {
    var s' := AddNodeState(s, hash, vnodes, name);
    var ps := Positions(hash, name, vnodes);
    assert |s'.ring| == |multiset(s'.ring)|;
    forall i | 0 <= i < vnodes
      ensures hash(VnodeKey(name, i)) in s'.nodesMap && s'.nodesMap[hash(VnodeKey(name, i))] == name
    {
      assert ps[i] == hash(VnodeKey(name, i));
      assert ps[i] in Elems(ps);
    }
  }

  /** The state `ConsistentHashRing(nodes, vnodes)` builds: `add_node` of each node in order, from an empty ring. */
  function Build(hash: string -> int, vnodes: nat, nodes: seq<string>): (s: RingState)
    ensures Inv(s)
  {
    if nodes == [] then
      RingState([], map[])
    else
      AddNodeState(Build(hash, vnodes, nodes[..|nodes| - 1]), hash, vnodes, nodes[|nodes| - 1])
  }

  /** Every position of a built ring is owned by one of the nodes it was built from. */
  lemma {:induction false} BuildOwners(hash: string -> int, vnodes: nat, nodes: seq<string>)
    ensures forall p :: p in Build(hash, vnodes, nodes).nodesMap ==> Build(hash, vnodes, nodes).nodesMap[p] in nodes
  {
    if nodes != [] {
      var init := nodes[..|nodes| - 1];
      BuildOwners(hash, vnodes, init);
      forall p | p in Build(hash, vnodes, nodes).nodesMap ensures Build(hash, vnodes, nodes).nodesMap[p] in nodes {
        if Build(hash, vnodes, nodes).nodesMap[p] != nodes[|nodes| - 1] {
          assert Build(hash, vnodes, init).nodesMap[p] in init;
        }
      }
    }
  }

  /** Building from one more node is one more `add_node`. */
  lemma BuildStep(hash: string -> int, vnodes: nat, nodes: seq<string>, k: nat)
    requires k < |nodes|
    ensures Build(hash, vnodes, nodes[..k + 1]) == AddNodeState(Build(hash, vnodes, nodes[..k]), hash, vnodes, nodes[k])
  {
    assert nodes[..k + 1][..k] == nodes[..k];
  }

  /**
   * Two virtual nodes of different nodes that hash to the same position: the
   * node added second becomes the position's only owner (last writer wins),
   * and the position appears in the ring twice.
   */
  lemma CollisionOverwrites(s: RingState, hash: string -> int, vnodes: nat, a: string, b: string, i: nat, j: nat)
    requires Inv(s)
    requires i < vnodes && j < vnodes
    requires hash(VnodeKey(a, i)) == hash(VnodeKey(b, j))
    ensures var s2 := AddNodeState(AddNodeState(s, hash, vnodes, a), hash, vnodes, b);
            var p := hash(VnodeKey(b, j));
            p in s2.nodesMap && s2.nodesMap[p] == b && multiset(s2.ring)[p] >= 2
  {
    CollisionOwner(s, hash, vnodes, a, b, j);
    CollisionTwice(s, hash, vnodes, a, b, i, j);
  }

  /** The position of `b`'s `j`-th virtual node is owned by `b` once `b` is added. */
  lemma CollisionOwner(s: RingState, hash: string -> int, vnodes: nat, a: string, b: string, j: nat)
    requires Inv(s) && j < vnodes
    ensures var s2 := AddNodeState(AddNodeState(s, hash, vnodes, a), hash, vnodes, b);
            var p := hash(VnodeKey(b, j));
            p in s2.nodesMap && s2.nodesMap[p] == b
  {
    var pb := Positions(hash, b, vnodes);
    assert pb[j] == hash(VnodeKey(b, j));
    assert pb[j] in Elems(pb);
  }

  /** A position shared by `a`'s `i`-th and `b`'s `j`-th virtual node is listed once for each. */
  lemma CollisionTwice(s: RingState, hash: string -> int, vnodes: nat, a: string, b: string, i: nat, j: nat)
    requires Inv(s) && i < vnodes && j < vnodes
    requires hash(VnodeKey(a, i)) == hash(VnodeKey(b, j))
    ensures var s2 := AddNodeState(AddNodeState(s, hash, vnodes, a), hash, vnodes, b);
            multiset(s2.ring)[hash(VnodeKey(b, j))] >= 2
  {
    var p := hash(VnodeKey(b, j));
    var pa, pb := Positions(hash, a, vnodes), Positions(hash, b, vnodes);
    assert pa[i] == p && pb[j] == p;
    assert multiset(pa)[p] >= 1 && multiset(pb)[p] >= 1;
  }

  class ConsistentHashRing {
    /** Virtual nodes per physical node. */
    const vnodes: nat
    /** The MD5-based position function. */
    const Hash: string -> int
    /** Sorted list of virtual-node positions. */
    var ring: seq<int>
    /** Position -> physical node name. */
    var nodesMap: map<int, string>

    function State(): RingState
      reads this
    {
      RingState(ring, nodesMap)
    }

    ghost predicate Valid()
      reads this
    {
      Inv(RingState(ring, nodesMap))
    }

    /** `ConsistentHashRing(nodes, vnodes)`: the same as `add_node` on each node in order. */
    constructor (nodes: seq<string>, vnodes: nat, hash: string -> int)
      ensures Valid()
      ensures this.vnodes == vnodes && Hash == hash
      ensures State() == Build(hash, vnodes, nodes)
    {
      this.vnodes := vnodes;
      Hash := hash;
      ring := [];
      nodesMap := map[];
      new;
      for k := 0 to |nodes|
        invariant this.vnodes == vnodes && Hash == hash
        invariant State() == Build(hash, vnodes, nodes[..k])
      {
        BuildStep(hash, vnodes, nodes, k);
        AddNode(nodes[k]);
      }
      assert nodes[..|nodes|] == nodes;
    }

    /** `add_node(node_name)`: inserts the node's `vnodes` positions and maps each to it. */
    method AddNode(nodeName: string)
      requires Valid()
      modifies this
      ensures Valid()
      ensures State() == AddNodeState(old(State()), Hash, vnodes, nodeName)
    {
      ghost var s0 := State();
      var hash, count := Hash, vnodes;
      for i := 0 to count
        invariant State() == AddNodeState(s0, hash, i, nodeName)
      {
        var vnodeHash := hash(VnodeKey(nodeName, i));
        AddOneStep(s0, hash, nodeName, i);
        InsertVnode(nodeName, vnodeHash);
      }
    }

    /** `bisect.insort(self.ring, vnode_hash)` and `self.nodes_map[vnode_hash] = node_name`. */
    method InsertVnode(nodeName: string, h: int)
      requires Sorted(ring)
      modifies this
      ensures ring == InsertSorted(old(ring), h) && nodesMap == old(nodesMap)[h := nodeName]
    {
      ring := InsertSorted(ring, h);
      nodesMap := nodesMap[h := nodeName];
    }

    /**
     * `get_node(request_key)`: `None` on an empty ring; otherwise the owner of
     * the first position at or after the key's hash, wrapping to the smallest
     * position. Only reads the ring.
     */
    function GetNode(requestKey: string): (r: Option<string>)
      reads this
      requires Valid()
      ensures r == None <==> ring == []
      ensures forall p :: IsSuccessor(Elems(ring), Hash(requestKey), p) ==> r == Some(nodesMap[p])
    {
      if ring == [] then
        None
      else
        var keyHash := Hash(requestKey);
        var idx := LowerBound(ring, keyHash);
        var actualIdx := idx % |ring|;
        SuccessorOnly(ring, keyHash);
        assert ring[actualIdx] == Successor(ring, keyHash);
        Some(nodesMap[ring[actualIdx]])
    }
  }
}
