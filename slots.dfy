/**
 * What the hash tables share: the `(key, value)` tuples they store, the
 * outcomes of an `insert`, and, for the two open-addressing tables, a flat
 * list of slots that are `None` or hold an entry and the count of occupied
 * slots.
 */
module Slots {
  import opened Wrappers
  import opened Modular

  /** A stored `(key, value)` tuple. */
  datatype Item<K, V> = Item(key: K, val: V)

  /**
   * How an `insert` ends: a new key stored (`size` grows), an existing key's
   * value replaced, or one of the two exceptions the Python raises before
   * touching the table: `size / capacity` on a zero capacity
   * (`ZeroDivisionError`), and, in the two open-addressing tables, the call
   * of the `_resize` method that neither of them defines (`AttributeError`)
   * once the load factor reaches 0.75.
   */
  datatype Outcome = Added | Replaced | NoCapacity | ResizeMissing

  /** The number of slots that are not `None`. */
  function Occupied<T>(t: seq<Option<T>>): (c: nat)
    ensures c <= |t|
  {
    if t == [] then 0 else Occupied(t[..|t| - 1]) + (if t[|t| - 1].Some? then 1 else 0)
  }

  /** Filling a slot counts once more if it was empty and leaves the count alone otherwise. */
  lemma {:induction false} OccupiedUpdate<T>(t: seq<Option<T>>, i: nat, x: T)
    requires i < |t|
    ensures Occupied(t[i := Some(x)]) == Occupied(t) + (if t[i].None? then 1 else 0)
  {
    var t' := t[i := Some(x)];
    assert t'[..|t| - 1] == if i < |t| - 1 then t[..|t| - 1][i := Some(x)] else t[..|t| - 1];
    if i < |t| - 1 {
      OccupiedUpdate(t[..|t| - 1], i, x);
    }
  }

  /** A list of empty slots counts none. */
  lemma {:induction false} NoneOccupied<T>(t: seq<Option<T>>)
    requires forall i :: 0 <= i < |t| ==> t[i].None?
    ensures Occupied(t) == 0
  {
    if t != [] {
      NoneOccupied(t[..|t| - 1]);
    }
  }

  /** A list all of whose slots are taken counts every slot. */
  lemma {:induction false} AllOccupied<T>(t: seq<Option<T>>)
    requires forall i :: 0 <= i < |t| ==> t[i].Some?
    ensures Occupied(t) == |t|
  {
    if t != [] {
      AllOccupied(t[..|t| - 1]);
    }
  }

  /** With fewer entries than slots, probing from any home meets an empty slot within `|t|` steps. */
  lemma FreeAhead<T>(t: seq<Option<T>>, h: int) returns (gap: nat)
    requires 0 < |t| && Occupied(t) < |t|
    ensures gap < |t| && t[Probe(h, gap, |t|)].None?
  {
    if forall i :: 0 <= i < |t| ==> t[i].Some? {
      AllOccupied(t);
    }
    var i :| 0 <= i < |t| && t[i].None?;
    gap := (i - h) % |t|;
    ProbeCovers(h, i, |t|);
  }

  /**
   * A run of taken slots from a home cannot go all the way round a list
   * that has an empty slot.
   */
  lemma RunShort<T>(t: seq<Option<T>>, h: int, d: nat)
    requires 0 < |t| && Occupied(t) < |t|
    requires forall e :: 0 <= e <= d ==> t[Probe(h, e, |t|)].Some?
    ensures d + 1 < |t|
  {
    if d + 1 >= |t| {
      forall i | 0 <= i < |t| ensures t[i].Some? {
        ProbeCovers(h, i, |t|);
        assert t[Probe(h, (i - h) % |t|, |t|)].Some?;
      }
      AllOccupied(t);
    }
  }
}
