/**
 * Sorted integer sequences and the two operations of Python's `bisect` module
 * that both rings use: `bisect_left` (LowerBound) and `insort` (InsertSorted).
 * They are library calls in the rings, so they are modelled by what they
 * compute, not by a binary search.
 */
module Bisect {
  import Modular

  /** The set of values held in `s`. */
  function Elems(s: seq<int>): set<int> {
    set x | x in s
  }

  /** Sorted ascending. */
  ghost predicate Sorted(s: seq<int>) {
    forall i, j :: 0 <= i < j < |s| ==> InOrder(s, i, j)
  }

  /** The values at indices `i` and `j` of `s` are in ascending order. */
  ghost predicate InOrder(s: seq<int>, i: int, j: int) {
    0 <= i < |s| && 0 <= j < |s| && s[i] <= s[j]
  }

  /** Sorted ascending with no value twice. */
  ghost predicate StrictlySorted(s: seq<int>) {
    Sorted(s) && forall i, j :: 0 <= i < j < |s| ==> Before(s, i, j)
  }

  /** The value at index `i` of `s` is below the one at index `j`. */
  ghost predicate Before(s: seq<int>, i: int, j: int) {
    0 <= i < |s| && 0 <= j < |s| && s[i] < s[j]
  }

  /** Two values of a sorted sequence are in order. */
  lemma SortedAt(s: seq<int>, i: int, j: int)
    requires Sorted(s) && 0 <= i <= j < |s|
    ensures s[i] <= s[j]
  {
    if i < j {
      assert InOrder(s, i, j);
    }
  }

  /** Two values of a strictly sorted sequence are strictly in order. */
  lemma StrictAt(s: seq<int>, i: int, j: int)
    requires StrictlySorted(s) && 0 <= i < j < |s|
    ensures s[i] < s[j]
  {
    assert Before(s, i, j);
  }

  /** The tail of a sorted sequence is sorted, and its head is its least value. */
  lemma SortedTail(s: seq<int>)
    requires Sorted(s) && s != []
    ensures Sorted(s[1..])
    ensures forall k :: 0 <= k < |s| ==> s[0] <= s[k]
  {
    forall i, j | 0 <= i < j < |s| - 1 ensures InOrder(s[1..], i, j) {
      assert InOrder(s, i + 1, j + 1);
    }
    forall k | 0 <= k < |s| ensures s[0] <= s[k] {
      SortedAt(s, 0, k);
    }
  }

  /** The tail of a strictly sorted sequence is strictly sorted, and its head is below every other value. */
  lemma StrictTail(s: seq<int>)
    requires StrictlySorted(s) && s != []
    ensures StrictlySorted(s[1..])
    ensures forall k :: 0 < k < |s| ==> s[0] < s[k]
  {
    SortedTail(s);
    forall i, j | 0 <= i < j < |s| - 1 ensures Before(s[1..], i, j) {
      assert Before(s, i + 1, j + 1);
    }
    forall k | 0 < k < |s| ensures s[0] < s[k] {
      StrictAt(s, 0, k);
    }
  }

  /** `bisect.bisect_left(s, x)`: the index of the first value not below `x`. */
  function LowerBound(s: seq<int>, x: int): (i: nat)
    requires Sorted(s)
    ensures i <= |s|
    ensures forall j :: 0 <= j < i ==> s[j] < x
    ensures forall j :: i <= j < |s| ==> x <= s[j]
  {
    if s == [] then
      0
    else
      SortedTail(s);
      if x <= s[0] then 0 else 1 + LowerBound(s[1..], x)
  }

  /**
   * `p` is the position of `positions` that owns hash `h` on the ring: the
   * smallest position at or after `h`, or, when every position lies before
   * `h`, the smallest position of all (the ring wraps around).
   */
  ghost predicate IsSuccessor(positions: set<int>, h: int, p: int) {
    && p in positions
    && ((h <= p && forall q :: q in positions && h <= q ==> p <= q)
        || ((forall q :: q in positions ==> q < h) && forall q :: q in positions ==> p <= q))
  }

  /** At most one position owns a hash. */
  lemma SuccessorUnique(positions: set<int>, h: int, p: int, p': int)
    requires IsSuccessor(positions, h, p) && IsSuccessor(positions, h, p')
    ensures p == p'
  {
  }

  /** A position keeps owning `h` when other positions are taken away. */
  lemma SuccessorSurvivesRemoval(positions: set<int>, fewer: set<int>, h: int, p: int)
    requires IsSuccessor(positions, h, p)
    requires fewer <= positions && p in fewer
    ensures IsSuccessor(fewer, h, p)
  {
  }

  /** `s[bisect_left(s, h) % len(s)]`: the owning position of `h`, wrapping to index 0. */
  function Successor(s: seq<int>, h: int): (p: int)
    requires Sorted(s) && s != []
    ensures IsSuccessor(Elems(s), h, p)
  {
    var i := LowerBound(s, h);
    Modular.ModWrap(i, |s|);
    if i < |s| then
      assert forall q :: q in Elems(s) && h <= q ==> s[i] <= q by {
        forall q | q in Elems(s) && h <= q ensures s[i] <= q {
          var j :| 0 <= j < |s| && s[j] == q;
          SortedAt(s, i, j);
        }
      }
      s[i % |s|]
    else
      assert forall q :: q in Elems(s) ==> s[0] <= q by {
        forall q | q in Elems(s) ensures s[0] <= q {
          var j :| 0 <= j < |s| && s[j] == q;
          SortedAt(s, 0, j);
        }
      }
      s[i % |s|]
  }

  /** Every position that owns `h` is the one `Successor` finds. */
  lemma SuccessorOnly(s: seq<int>, h: int)
    requires Sorted(s) && s != []
    ensures forall p :: IsSuccessor(Elems(s), h, p) ==> p == Successor(s, h)
  {
    forall p | IsSuccessor(Elems(s), h, p) ensures p == Successor(s, h) {
      SuccessorUnique(Elems(s), h, p, Successor(s, h));
    }
  }

  /** A value no greater than any element of a sorted sequence can go in front of it. */
  lemma ConsSorted(a: int, s: seq<int>)
    requires Sorted(s)
    requires forall k :: 0 <= k < |s| ==> a <= s[k]
    ensures Sorted([a] + s)
  {
    var r := [a] + s;
    forall i, j | 0 <= i < j < |r| ensures InOrder(r, i, j) {
      assert r[j] == s[j - 1];
      if i > 0 {
        assert InOrder(s, i - 1, j - 1);
      }
    }
  }

  /** A lower bound of every element of `s` and of `x` bounds every element of a permutation of `s + [x]`. */
  lemma BoundPermutation(a: int, s: seq<int>, x: int, r: seq<int>)
    requires multiset(r) == multiset(s) + multiset{x}
    requires a <= x && forall k :: 0 <= k < |s| ==> a <= s[k]
    ensures forall k :: 0 <= k < |r| ==> a <= r[k]
  {
    forall k | 0 <= k < |r| ensures a <= r[k] {
      assert r[k] in multiset(r);
      if r[k] != x {
        assert r[k] in multiset(s);
        var j :| 0 <= j < |s| && s[j] == r[k];
      }
    }
  }

  /** `bisect.insort(s, x)`: `x` placed after every value not greater than it. */
  function InsertSorted(s: seq<int>, x: int): (r: seq<int>)
    requires Sorted(s)
    ensures Sorted(r)
    ensures multiset(r) == multiset(s) + multiset{x}
    ensures |r| == |s| + 1
  {
    if s == [] then
      [x]
    else if x < s[0] then
      SortedTail(s);
      ConsSorted(x, s);
      [x] + s
    else
      SortedTail(s);
      var rest := InsertSorted(s[1..], x);
      assert s == [s[0]] + s[1..];
      BoundPermutation(s[0], s[1..], x, rest);
      ConsSorted(s[0], rest);
      [s[0]] + rest
  }

  /** `insort` adds exactly the value `x`. */
  lemma InsertSortedElems(s: seq<int>, x: int)
    requires Sorted(s)
    ensures Elems(InsertSorted(s, x)) == Elems(s) + {x}
  {
    var r := InsertSorted(s, x);
    forall y ensures y in Elems(r) <==> y in Elems(s) + {x} {
      assert y in Elems(r) <==> y in multiset(r);
      assert y in Elems(s) <==> y in multiset(s);
    }
  }

  /** `insort` of a new value keeps a list free of repeats. */
  lemma {:induction false} InsertSortedStrict(s: seq<int>, x: int)
    requires StrictlySorted(s) && x !in s
    ensures StrictlySorted(InsertSorted(s, x))
  {
    if s == [] {
      assert InsertSorted(s, x) == [x];
    } else if x < s[0] {
      var r := InsertSorted(s, x);
      assert r == [x] + s;
      forall i, j | 0 <= i < j < |r| ensures Before(r, i, j) {
        if i == 0 { SortedAt(s, 0, j - 1); } else { assert Before(s, i - 1, j - 1); }
      }
    } else {
      StrictTail(s);
      var rest := InsertSorted(s[1..], x);
      InsertSortedStrict(s[1..], x);
      InsertSortedElems(s[1..], x);
      var r := InsertSorted(s, x);
      assert r == [s[0]] + rest;
      forall i, j | 0 <= i < j < |r| ensures Before(r, i, j) {
        if i == 0 {
          assert rest[j - 1] in Elems(s[1..]) + {x};
          if rest[j - 1] != x {
            var k :| 0 <= k < |s[1..]| && s[1..][k] == rest[j - 1];
            assert s[k + 1] == rest[j - 1];
          }
        } else {
          assert Before(rest, i - 1, j - 1);
        }
      }
    }
  }

  /** `insort` applied to each value of `xs` in order, as the rings' add loops do. */
  function InsertAll(s: seq<int>, xs: seq<int>): (r: seq<int>)
    requires Sorted(s)
    ensures Sorted(r)
    ensures multiset(r) == multiset(s) + multiset(xs)
    ensures |r| == |s| + |xs|
    ensures Elems(r) == Elems(s) + Elems(xs)
  {
    if xs == [] then
      s
    else
      var init := xs[..|xs| - 1];
      assert xs == init + [xs[|xs| - 1]];
      InsertSortedElems(InsertAll(s, init), xs[|xs| - 1]);
      InsertSorted(InsertAll(s, init), xs[|xs| - 1])
  }

  /** One more `insort` after the others. */
  lemma InsertAllStep(s: seq<int>, xs: seq<int>, x: int)
    requires Sorted(s)
    ensures InsertAll(s, xs + [x]) == InsertSorted(InsertAll(s, xs), x)
  {
    assert (xs + [x])[..|xs|] == xs;
  }

  /** `s.pop(i)` on a strictly sorted list drops exactly the value `s[i]` and stays strictly sorted. */
  lemma PopStrict(s: seq<int>, i: nat)
    requires StrictlySorted(s) && i < |s|
    ensures StrictlySorted(s[..i] + s[i + 1..])
    ensures Elems(s[..i] + s[i + 1..]) == Elems(s) - {s[i]}
  {
    var r := s[..i] + s[i + 1..];
    forall a, b | 0 <= a < b < |r| ensures InOrder(r, a, b) && Before(r, a, b) {
      var a' := if a < i then a else a + 1;
      var b' := if b < i then b else b + 1;
      assert r[a] == s[a'] && r[b] == s[b'];
      assert Before(s, a', b');
    }
    forall x | x in Elems(s) - {s[i]} ensures x in Elems(r) {
      var j :| 0 <= j < |s| && s[j] == x;
      if j < i { assert r[j] == x; } else { assert r[j - 1] == x; }
    }
    forall x | x in Elems(r) ensures x in Elems(s) - {s[i]} {
      var k :| 0 <= k < |r| && r[k] == x;
      var k' := if k < i then k else k + 1;
      assert r[k] == s[k'];
      if k' < i { StrictAt(s, k', i); } else { StrictAt(s, i, k'); }
    }
  }

  /** A strictly sorted sequence is determined by the values it holds. */
  lemma {:induction false} StrictlySortedUnique(a: seq<int>, b: seq<int>)
    requires StrictlySorted(a) && StrictlySorted(b)
    requires Elems(a) == Elems(b)
    ensures a == b
  {
    assert a != [] ==> a[0] in Elems(b);
    assert b != [] ==> b[0] in Elems(a);
    if a != [] && b != [] {
      assert a[0] == b[0] by {
        assert a[0] in Elems(b) && b[0] in Elems(a);
        var i :| 0 <= i < |b| && b[i] == a[0];
        var j :| 0 <= j < |a| && a[j] == b[0];
        SortedAt(b, 0, i);
        SortedAt(a, 0, j);
      }
      StrictTail(a);
      StrictTail(b);
      assert Elems(a[1..]) == Elems(b[1..]) by {
        forall x | x in Elems(a[1..]) ensures x in Elems(b[1..]) {
          var k :| 0 <= k < |a[1..]| && a[1..][k] == x;
          assert a[k + 1] == x && x in Elems(b);
          var m :| 0 <= m < |b| && b[m] == x;
          assert m != 0 && b[1..][m - 1] == x;
        }
        forall x | x in Elems(b[1..]) ensures x in Elems(a[1..]) {
          var k :| 0 <= k < |b[1..]| && b[1..][k] == x;
          assert b[k + 1] == x && x in Elems(a);
          var m :| 0 <= m < |a| && a[m] == x;
          assert m != 0 && a[1..][m - 1] == x;
        }
      }
      StrictlySortedUnique(a[1..], b[1..]);
      assert a == [a[0]] + a[1..] && b == [b[0]] + b[1..];
    }
  }
}
