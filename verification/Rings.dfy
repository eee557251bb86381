/** Circular buffers: `n` items from place `r` on, wrapping round. */
module Rings {

  /** The place `i` steps after `r`, for `i` up to the capacity. */
  function Slot(r: nat, i: nat, capacity: nat): (s: nat)
    requires r < capacity && i <= capacity
    ensures s < capacity
  {
    if r + i < capacity then r + i else r + i - capacity
  }

  lemma SlotIsMod(r: nat, i: nat, capacity: nat)
    requires r < capacity && i <= capacity
    ensures Slot(r, i, capacity) == (r + i) % capacity
  {
    if r + i < capacity {
      ModSmall(r + i, capacity);
    } else {
      ModOnce(r + i - capacity, capacity);
    }
  }

  lemma ModSmall(x: nat, m: nat)
    requires x < m
    ensures x % m == x
  {
  }

  lemma ModOnce(x: nat, m: nat)
    requires x < m
    ensures (x + m) % m == x
  {
    var q := (x + m) / m;
    assert x + m == q * m + (x + m) % m;
    assert q == 1;
  }

  /** The items of the ring, oldest first. */
  function Items<T>(a: seq<T>, r: nat, n: nat): (s: seq<T>)
    requires r < |a| && n <= |a|
    ensures |s| == n
    ensures forall i :: 0 <= i < n ==> s[i] == a[Slot(r, i, |a|)]
  {
    seq(n, i requires 0 <= i < n => a[Slot(r, i, |a|)])
  }

  /** Writing behind the last item adds to the end. */
  lemma Push<T>(a: seq<T>, r: nat, n: nat, x: T)
    requires r < |a| && n < |a|
    ensures Items(a[Slot(r, n, |a|) := x], r, n + 1) == Items(a, r, n) + [x]
  {
  }

  /** Moving the first place on drops the oldest items. */
  lemma Drop<T>(a: seq<T>, r: nat, n: nat, k: nat)
    requires r < |a| && k <= n <= |a|
    ensures Items(a, Slot(r, k, |a|), n - k) == Items(a, r, n)[k..]
    ensures Slot(Slot(r, k, |a|), n - k, |a|) == Slot(r, n, |a|)
  {
    forall i | 0 <= i < n - k
      ensures Slot(Slot(r, k, |a|), i, |a|) == Slot(r, k + i, |a|)
    {
    }
  }

  lemma Next(r: nat, n: nat, capacity: nat)
    requires r < capacity && n < capacity
    ensures Slot(r, n + 1, capacity) == (Slot(r, n, capacity) + 1) % capacity
  {
    SlotIsMod(Slot(r, n, capacity), 1, capacity);
  }
}
