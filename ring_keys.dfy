/**
 * The strings both rings hash to place virtual nodes, and the owner map update
 * their add loops perform.
 */
module RingKeys {
  import opened Bisect

  /** The decimal digit for `d`. */
  function DigitChar(d: nat): (c: char)
    requires d < 10
    ensures '0' <= c <= '9' && c as int - '0' as int == d
  {
    ('0' as int + d) as char
  }

  /** A string of decimal digits only. */
  ghost predicate Digits(s: string) {
    forall i :: 0 <= i < |s| ==> '0' <= s[i] <= '9'
  }

  /** `int(s)` for a string of decimal digits. */
  function Parse(s: string): nat
    requires Digits(s)
  {
    if s == [] then 0 else Parse(s[..|s| - 1]) * 10 + (s[|s| - 1] as int - '0' as int)
  }

  /** Python's `str(n)` for a non-negative integer: at least one digit, and nothing but digits. */
  function NatToString(n: nat): (r: string)
    ensures r != [] && Digits(r)
    decreases n
  {
    if n < 10 then [DigitChar(n)] else NatToString(n / 10) + [DigitChar(n % 10)]
  }

  /** `int(str(n)) == n`: the decimal string reads back as the number. */
  lemma {:induction false} ParseNatToString(n: nat)
    ensures Parse(NatToString(n)) == n
    decreases n
  {
    if n < 10 {
      assert NatToString(n)[..0] == [];
    } else {
      var s := NatToString(n / 10);
      ParseNatToString(n / 10);
      assert (s + [DigitChar(n % 10)])[..|s|] == s;
    }
  }

  /** The key `f"{name}#{i}"` of virtual node `i` of node `name`: the name, `#`, then digits reading back as `i`. */
  function VnodeKey(name: string, i: nat): (k: string)
    ensures |k| > |name| + 1 && k[..|name| + 1] == name + "#"
    ensures Digits(k[|name| + 1..]) && Parse(k[|name| + 1..]) == i
  {
    var k := name + "#" + NatToString(i);
    assert k[|name| + 1..] == NatToString(i);
    ParseNatToString(i);
    k
  }

  /** The virtual nodes of one node have pairwise distinct keys. */
  lemma VnodeKeyInjective(name: string, i: nat, i': nat)
    requires VnodeKey(name, i) == VnodeKey(name, i')
    ensures i == i'
  {
    var k := VnodeKey(name, i);
    assert Parse(k[|name| + 1..]) == i;
  }

  /** `key` after `"_collision"` has been appended to it `j` times: `key` still in front, ten characters longer per suffix. */
  function Collided(key: string, j: nat): (r: string)
    ensures |r| == |key| + 10 * j && r[..|key|] == key
  {
    if j == 0 then key else Collided(key, j - 1) + "_collision"
  }

  /** The positions `hash(f"{name}#{i}")` for `i` in `range(count)`, in that order. */
  function Positions(hash: string -> int, name: string, count: nat): (ps: seq<int>)
    ensures |ps| == count
    ensures forall i :: 0 <= i < count ==> ps[i] == hash(VnodeKey(name, i))
  {
    if count == 0 then [] else Positions(hash, name, count - 1) + [hash(VnodeKey(name, count - 1))]
  }

  /** Positions of the first `count + 1` virtual nodes extend those of the first `count`. */
  lemma PositionsStep(hash: string -> int, name: string, count: nat)
    ensures Positions(hash, name, count + 1) == Positions(hash, name, count) + [hash(VnodeKey(name, count))]
  {
  }

  /** `m[p] = name` for each `p` of `ps` in turn. */
  function AssignOwner(m: map<int, string>, ps: seq<int>, name: string): (r: map<int, string>)
    ensures r.Keys == m.Keys + Elems(ps)
    ensures forall p :: p in r ==> r[p] == if p in ps then name else m[p]
  {
    if ps == [] then
      m
    else
      var init := ps[..|ps| - 1];
      assert ps == init + [ps[|ps| - 1]];
      AssignOwner(m, init, name)[ps[|ps| - 1] := name]
  }

  /** One more owner assignment after the others. */
  lemma AssignOwnerStep(m: map<int, string>, ps: seq<int>, p: int, name: string)
    ensures AssignOwner(m, ps + [p], name) == AssignOwner(m, ps, name)[p := name]
  {
    assert (ps + [p])[..|ps|] == ps;
  }
}
