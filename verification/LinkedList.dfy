/**
  xdelta3-list.h: circular doubly linked lists through links inside the elements.  The
  links of `n` elements are numbered from 0, the list itself is link `n`.
 */
module LinkedList {
  import opened Bytes

  /** Once around the list. */
  function Ring(order: seq<nat>, n: nat): (r: seq<nat>)
    ensures |r| == |order| + 2
  {
    [n] + order + [n]
  }

  /** Step `i` around the list, forward and backward. */
  predicate Step(next: seq<nat>, prev: seq<nat>, ring: seq<nat>, i: nat) {
    && i + 1 < |ring| && ring[i] < |next| && ring[i + 1] < |prev|
    && next[ring[i]] == ring[i + 1] && prev[ring[i + 1]] == ring[i]
  }

  /** The links say what the order is. */
  predicate Linked(next: seq<nat>, prev: seq<nat>, order: seq<nat>, n: nat) {
    && |next| == |prev| == n + 1 && Distinct(order)
    && (forall i | 0 <= i < |order| :: order[i] < n)
    && forall i: nat | i <= |order| :: Step(next, prev, Ring(order, n), i)
  }

  /** Where an element is in the ring. */
  lemma RingAt(order: seq<nat>, n: nat, i: nat)
    requires i <= |order| + 1
    ensures Ring(order, n)[i] == if i == 0 || i == |order| + 1 then n else order[i - 1]
  {
  }

  function Without(order: seq<nat>, k: nat): (r: seq<nat>)
    requires k < |order|
    ensures |r| == |order| - 1
  {
    order[..k] + order[k + 1..]
  }

  lemma PushLinked(next: seq<nat>, prev: seq<nat>, order: seq<nat>, n: nat, e: nat)
    requires Linked(next, prev, order, n) && e < n && e !in order
    ensures prev[n] <= n
    ensures var last := prev[n]; Linked(next[last := e][e := n], prev[n := e][e := last], order + [e], n)
  {
    var m := |order|;
    var a, b := Ring(order, n), Ring(order + [e], n);
    assert Step(next, prev, a, m);
    var last := prev[n];
    var nx, pv := next[last := e][e := n], prev[n := e][e := last];
    forall i: nat | i <= m + 1
      ensures Step(nx, pv, b, i)
    {
      RingAt(order + [e], n, i);
      RingAt(order + [e], n, i + 1);
      RingAt(order, n, m);
      if i < m {
        assert Step(next, prev, a, i);
        RingAt(order, n, i);
        RingAt(order, n, i + 1);
      }
    }
  }

  lemma RemoveLinked(next: seq<nat>, prev: seq<nat>, order: seq<nat>, n: nat, k: nat)
    requires Linked(next, prev, order, n) && k < |order|
    ensures var e := order[k];
      && e < n && next[e] <= n && prev[e] <= n
      && Linked(next[prev[e] := next[e]], prev[next[e] := prev[e]], Without(order, k), n)
  {
    var e := order[k];
    var a := Ring(order, n);
    assert Step(next, prev, a, k) && Step(next, prev, a, k + 1);
    RingAt(order, n, k);
    RingAt(order, n, k + 1);
    RingAt(order, n, k + 2);
    var nx, pv := next[prev[e] := next[e]], prev[next[e] := prev[e]];
    forall i: nat | i < |order|
      ensures Step(nx, pv, Ring(Without(order, k), n), i)
    {
      RemoveStep(next, prev, order, n, k, i);
    }
  }

  lemma RemoveStep(next: seq<nat>, prev: seq<nat>, order: seq<nat>, n: nat, k: nat, i: nat)
    requires Linked(next, prev, order, n) && k < |order| && i < |order| && order[k] < |next| == |prev|
    requires next[order[k]] == (if k + 1 == |order| then n else order[k + 1])
    requires prev[order[k]] == (if k == 0 then n else order[k - 1])
    ensures var e := order[k];
      Step(next[prev[e] := next[e]], prev[next[e] := prev[e]], Ring(Without(order, k), n), i)
  {
    RingAt(Without(order, k), n, i);
    RingAt(Without(order, k), n, i + 1);
    RingAt(order, n, i);
    RingAt(order, n, i + 1);
    RingAt(order, n, i + 2);
    var j: nat := if i <= k then i else i + 1;
    assert Step(next, prev, Ring(order, n), j);
  }

  class Links {
    const n: nat
    const next: array<nat>
    const prev: array<nat>
    ghost var order: seq<nat>

    ghost predicate Valid()
      reads this, next, prev
    {
      next != prev && next.Length == prev.Length == n + 1 && Linked(next[..], prev[..], order, n)
    }

    /** _init */
    constructor (n: nat)
      ensures Valid() && this.n == n && order == [] && fresh(next) && fresh(prev)
    {
      this.n := n;
      next, prev, order := new nat[n + 1](_ => n), new nat[n + 1](_ => n), [];
      new;
      RingAt([], n, 0);
      RingAt([], n, 1);
    }

    /** _add */
    method Add(before: nat, after: nat, e: nat)
      requires next != prev && next.Length == prev.Length == n + 1 && before <= n && after <= n && e <= n
      modifies next, prev
      ensures next[..] == old(next[..])[before := e][e := after]
      ensures prev[..] == old(prev[..])[after := e][e := before]
    {
      prev[after] := e;
      next[before] := e;
      next[e] := after;
      prev[e] := before;
    }

    /** _push_back */
    method PushBack(e: nat)
      requires Valid() && e < n && e !in order
      modifies this`order, next, prev
      ensures Valid() && order == old(order) + [e]
    {
      hide Linked;
      LinkedSize(next[..], prev[..], order, n);
      PushLinked(next[..], prev[..], order, n, e);
      Add(prev[n], n, e);
      order := order + [e];
    }

    /** _del */
    method Del(after: nat, before: nat)
      requires next != prev && next.Length == prev.Length == n + 1 && before <= n && after <= n
      modifies next, prev
      ensures next[..] == old(next[..])[before := after]
      ensures prev[..] == old(prev[..])[after := before]
    {
      prev[after] := before;
      next[before] := after;
    }

    /** _remove */
    method Remove(e: nat, ghost k: nat)
      requires Valid() && k < |order| && order[k] == e
      modifies this`order, next, prev
      ensures Valid() && order == Without(old(order), k)
    {
      hide Linked, Without;
      RemoveLinked(next[..], prev[..], order, n, k);
      Del(next[e], prev[e]);
      order := Without(order, k);
    }

    /** _pop_front */
    method PopFront() returns (e: nat)
      requires Valid() && order != []
      modifies this`order, next, prev
      ensures Valid() && e == old(order)[0] && order == old(order)[1..]
    {
      hide Linked;
      LinkedSize(next[..], prev[..], order, n);
      RemoveLinked(next[..], prev[..], order, n, 0);
      e := next[n];
      Del(next[e], prev[e]);
      assert Without(order, 0) == order[1..];
      order := order[1..];
    }

    /** _empty */
    method Empty() returns (b: bool)
      requires Valid()
      ensures b <==> order == []
    {
      LinkedSize(next[..], prev[..], order, n);
      b := next[n] == n;
    }
  }

  lemma LinkedSize(next: seq<nat>, prev: seq<nat>, order: seq<nat>, n: nat)
    requires Linked(next, prev, order, n)
    ensures prev[n] <= n && next[n] == (if order == [] then n else order[0])
    ensures order != [] ==> order[0] < n
  {
    var a := Ring(order, n);
    RingAt(order, n, 0);
    RingAt(order, n, 1);
    RingAt(order, n, |order|);
    assert Step(next, prev, a, 0) && Step(next, prev, a, |order|);
  }
}
