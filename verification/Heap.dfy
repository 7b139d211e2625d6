/**
  xdelta3-djw.h: the heap of subtrees by weight, ties broken by depth.  Slot 0 holds a
  sentinel no entry is less than, so that heap_insert needs no test for the top.
 */
module Heap {
  import opened Bytes

  datatype Ent = Ent(depth: nat, freq: nat, parent: nat)

  /** heap_less */
  predicate Less(a: Ent, b: Ent) {
    a.freq < b.freq || (a.freq == b.freq && a.depth < b.depth)
  }

  predicate Entries(h: seq<nat>, ents: seq<Ent>) {
    && |h| > 0 && h[0] == 0 && |ents| > 0 && ents[0].freq == ents[0].depth == 0
    && forall i | 0 <= i < |h| :: h[i] < |ents|
  }

  /** Slot `i` is not less than its parent. */
  predicate Above(h: seq<nat>, ents: seq<Ent>, i: nat)
    requires Entries(h, ents) && i < |h|
  {
    !Less(ents[h[i]], ents[h[i / 2]])
  }

  /** Heap order everywhere, but for the slots in `but`. */
  predicate OrderedBut(h: seq<nat>, ents: seq<Ent>, but: set<nat>)
    requires Entries(h, ents)
  {
    forall i: nat | 1 <= i < |h| && i !in but :: Above(h, ents, i)
  }

  predicate IsHeap(h: seq<nat>, ents: seq<Ent>) {
    Entries(h, ents) && OrderedBut(h, ents, {})
  }

  /** The children of slot `p` are not less than the parent of `p`. */
  predicate Bridged(h: seq<nat>, ents: seq<Ent>, p: nat)
    requires Entries(h, ents) && p < |h|
  {
    forall c: nat | 1 <= c < |h| && c / 2 == p :: !Less(ents[h[c]], ents[h[p / 2]])
  }

  function Swap(h: seq<nat>, p: nat, q: nat): (r: seq<nat>)
    requires p < |h| && q < |h|
    ensures multiset(r) == multiset(h)
  {
    h[p := h[q]][q := h[p]]
  }

  lemma {:induction false} RootLeast(h: seq<nat>, ents: seq<Ent>, i: nat)
    requires IsHeap(h, ents) && 1 <= i < |h|
    ensures !Less(ents[h[i]], ents[h[1]])
    decreases i
  {
    if i > 1 {
      RootLeast(h, ents, i / 2);
      assert Above(h, ents, i);
    }
  }

  /** Moving a small entry up one level. */
  lemma MoveUp(h: seq<nat>, ents: seq<Ent>, p: nat)
    requires Entries(h, ents) && 1 <= p < |h|
    requires OrderedBut(h, ents, {p}) && Bridged(h, ents, p)
    requires Less(ents[h[p]], ents[h[p / 2]])
    ensures p / 2 >= 1
    ensures var r := Swap(h, p, p / 2);
      Entries(r, ents) && OrderedBut(r, ents, {p / 2}) && Bridged(r, ents, p / 2)
  {
    var q := p / 2;
    var r := Swap(h, p, q);
    assert q >= 1;
    forall i: nat | 1 <= i < |r| && i !in {q}
      ensures Above(r, ents, i)
    {
      if i != p {
        assert Above(h, ents, i);
      }
    }
    assert Above(h, ents, q);
    forall c: nat | 1 <= c < |r| && c / 2 == q
      ensures !Less(ents[r[c]], ents[r[q / 2]])
    {
      if c != p {
        assert Above(h, ents, c);
      }
    }
  }

  /** Moving a large entry down to where its smaller child was. */
  lemma MoveDown(h: seq<nat>, ents: seq<Ent>, p: nat, pc: nat)
    requires Entries(h, ents) && 1 <= p < pc < |h| && pc / 2 == p
    requires OrderedBut(h, ents, {2 * p, 2 * p + 1}) && Bridged(h, ents, p)
    requires forall c: nat | 1 <= c < |h| && c / 2 == p :: !Less(ents[h[c]], ents[h[pc]])
    requires Less(ents[h[pc]], ents[h[p]])
    ensures var r := Swap(h, p, pc);
      Entries(r, ents) && OrderedBut(r, ents, {2 * pc, 2 * pc + 1}) && Bridged(r, ents, pc)
  {
    var r := Swap(h, p, pc);
    forall i: nat | 1 <= i < |r| && i !in {2 * pc, 2 * pc + 1}
      ensures Above(r, ents, i)
    {
      if i / 2 != p && i != p {
        assert Above(h, ents, i);
      }
    }
    forall c: nat | 1 <= c < |r| && c / 2 == pc
      ensures !Less(ents[r[c]], ents[r[pc / 2]])
    {
      assert Above(h, ents, c);
    }
  }

  /** `r` is `h`, but for slot `p`, which is to hold `e`. */
  predicate Hole(r: seq<nat>, h: seq<nat>, p: nat, e: nat) {
    |r| == |h| && p < |h| && h[p] == e && forall i | 0 <= i < |h| && i != p :: r[i] == h[i]
  }

  lemma HoleUp(r: seq<nat>, h: seq<nat>, p: nat, q: nat, e: nat)
    requires Hole(r, h, p, e) && q < |h| && q != p
    ensures Hole(r[p := r[q]], Swap(h, p, q), q, e)
  {
  }

  lemma HoleFilled(r: seq<nat>, h: seq<nat>, p: nat, e: nat)
    requires Hole(r, h, p, e)
    ensures r[p := e] == h
  {
  }

  /** heap_insert */
  method HeapInsert(heap: array<nat>, ents: array<Ent>, p0: nat, e: nat)
    requires 1 <= p0 < heap.Length && e < ents.Length && IsHeap(heap[..p0], ents[..])
    modifies heap
    ensures IsHeap(heap[..p0 + 1], ents[..])
    ensures multiset(heap[..p0 + 1]) == multiset(old(heap[..p0])) + multiset{e}
  {
    hide Less, Above, OrderedBut, Bridged, IsHeap, Swap;
    var p, pp := p0, p0 / 2;
    ghost var es := ents[..];
    ghost var h := heap[..p0] + [e];
    StartInsert(heap[..p0], es, e);
    ghost var m := multiset(h);
    while Less(ents[e], ents[heap[pp]])
      invariant 1 <= p <= p0 && pp == p / 2 && Hole(heap[..p0 + 1], h, p, e)
      invariant Entries(h, es) && OrderedBut(h, es, {p}) && Bridged(h, es, p)
      invariant multiset(h) == m
      decreases p
    {
      MoveUp(h, es, p);
      HoleUp(heap[..p0 + 1], h, p, pp, e);
      ghost var r := heap[..p0 + 1];
      heap[p] := heap[pp];
      assert heap[..p0 + 1] == r[p := r[pp]];
      h := Swap(h, p, pp);
      p := pp;
      pp := p / 2;
    }
    HoleFilled(heap[..p0 + 1], h, p, e);
    EndInsert(h, es, p);
    ghost var r := heap[..p0 + 1];
    heap[p] := e;
    assert heap[..p0 + 1] == r[p := e];
  }

  lemma StartInsert(h: seq<nat>, ents: seq<Ent>, e: nat)
    requires IsHeap(h, ents) && e < |ents|
    ensures var r := h + [e];
      && Entries(r, ents) && OrderedBut(r, ents, {|h|}) && Bridged(r, ents, |h|)
      && multiset(r) == multiset(h) + multiset{e}
  {
    var r := h + [e];
    forall i: nat | 1 <= i < |r| && i !in {|h|}
      ensures Above(r, ents, i)
    {
      assert Above(h, ents, i);
    }
  }

  lemma EndInsert(h: seq<nat>, ents: seq<Ent>, p: nat)
    requires Entries(h, ents) && 1 <= p < |h| && OrderedBut(h, ents, {p})
    requires !Less(ents[h[p]], ents[h[p / 2]])
    ensures IsHeap(h, ents)
  {
    forall i: nat | 1 <= i < |h|
      ensures Above(h, ents, i)
    {
    }
  }

  /** heap_extract; the caller has already counted one entry less. */
  method HeapExtract(heap: array<nat>, ents: array<Ent>, last: nat) returns (smallest: nat)
    requires last + 1 < heap.Length && IsHeap(heap[..last + 2], ents[..])
    modifies heap
    ensures IsHeap(heap[..last + 1], ents[..]) && smallest == old(heap[1])
    ensures multiset(old(heap[..last + 2])) == multiset(heap[..last + 1]) + multiset{smallest}
  {
    hide Less, Above;
    smallest := heap[1];
    StartExtract(heap[..last + 2], ents[..]);
    heap[1] := heap[last + 1];
    ghost var es := ents[..];
    ghost var h := Shrunk(old(heap[..last + 2]));
    assert last > 0 ==> heap[..last + 1] == h;
    assert last == 0 ==> heap[..1] == old(heap[..2])[..1];
    if last > 0 {
      SiftDown(heap, ents, last);
    }
  }

  /** The loop of heap_extract. */
  method SiftDown(heap: array<nat>, ents: array<Ent>, last: nat)
    requires 0 < last < heap.Length && Entries(heap[..last + 1], ents[..])
    requires OrderedBut(heap[..last + 1], ents[..], {2, 3}) && Bridged(heap[..last + 1], ents[..], 1)
    modifies heap
    ensures IsHeap(heap[..last + 1], ents[..])
    ensures multiset(heap[..last + 1]) == multiset(old(heap[..last + 1]))
  {
    hide Less, Above, OrderedBut, Bridged, IsHeap, Swap;
    ghost var es := ents[..];
    var p: nat := 1;
    while true
      invariant 1 <= p <= last && Entries(heap[..last + 1], es)
      invariant OrderedBut(heap[..last + 1], es, {2 * p, 2 * p + 1}) && Bridged(heap[..last + 1], es, p)
      invariant multiset(heap[..last + 1]) == multiset(old(heap[..last + 1]))
      decreases last - p
    {
      ghost var h := heap[..last + 1];
      var pc := p * 2;
      if pc > last {
        EndExtract(h, es, p);
        break;
      }
      if pc < last && Less(ents[heap[pc + 1]], ents[heap[pc]]) {
        pc := pc + 1;
      }
      SmallerChild(h, es, p, pc);
      if !Less(ents[heap[pc]], ents[heap[p]]) {
        StopAt(h, es, p, pc);
        break;
      }
      MoveDown(h, es, p, pc);
      heap[pc], heap[p] := heap[p], heap[pc];
      Swapped(h, heap[..last + 1], p, pc);
      p := pc;
    }
  }

  lemma Swapped(h: seq<nat>, r: seq<nat>, p: nat, q: nat)
    requires p < |h| == |r| && q < |h| && p != q
    requires r[p] == h[q] && r[q] == h[p] && forall i | 0 <= i < |h| && i != p && i != q :: r[i] == h[i]
    ensures r == Swap(h, p, q)
  {
  }

  lemma SmallerChild(h: seq<nat>, ents: seq<Ent>, p: nat, pc: nat)
    requires Entries(h, ents) && 1 <= p && 2 * p <= pc <= 2 * p + 1 && pc < |h|
    requires if 2 * p + 1 < |h| && Less(ents[h[2 * p + 1]], ents[h[2 * p]]) then pc == 2 * p + 1 else pc == 2 * p
    ensures forall c: nat | 1 <= c < |h| && c / 2 == p :: !Less(ents[h[c]], ents[h[pc]])
  {
    forall c: nat | 1 <= c < |h| && c / 2 == p ensures !Less(ents[h[c]], ents[h[pc]]) {
      assert c == 2 * p || c == 2 * p + 1;
    }
  }

  lemma EndExtract(h: seq<nat>, ents: seq<Ent>, p: nat)
    requires Entries(h, ents) && 1 <= p < |h| && OrderedBut(h, ents, {2 * p, 2 * p + 1})
    requires forall c: nat | 1 <= c < |h| && c / 2 == p :: !Less(ents[h[c]], ents[h[p]])
    ensures IsHeap(h, ents)
  {
    forall i: nat | 1 <= i < |h|
      ensures Above(h, ents, i)
    {
      if i / 2 != p {
        assert i !in {2 * p, 2 * p + 1};
      }
    }
  }

  lemma StopAt(h: seq<nat>, ents: seq<Ent>, p: nat, pc: nat)
    requires Entries(h, ents) && 1 <= p < |h| && pc < |h| && OrderedBut(h, ents, {2 * p, 2 * p + 1})
    requires forall c: nat | 1 <= c < |h| && c / 2 == p :: !Less(ents[h[c]], ents[h[pc]])
    requires !Less(ents[h[pc]], ents[h[p]])
    ensures IsHeap(h, ents)
  {
    EndExtract(h, ents, p);
  }

  /** The heap with its last entry in the place of its first. */
  function Shrunk(h: seq<nat>): (r: seq<nat>)
    requires |h| >= 2
  {
    h[1 := h[|h| - 1]][..|h| - 1]
  }

  lemma ShrunkItems(h: seq<nat>)
    requires |h| >= 2
    ensures multiset(h) == multiset(Shrunk(h)) + multiset{h[1]}
  {
    var g := h[1 := h[|h| - 1]];
    assert g == Shrunk(h) + [h[|h| - 1]];
    assert multiset(g) == multiset(h) - multiset{h[1]} + multiset{h[|h| - 1]};
  }

  lemma StartExtract(h: seq<nat>, ents: seq<Ent>)
    requires IsHeap(h, ents) && |h| >= 2
    ensures |h| == 2 ==> IsHeap(h[..1], ents) && multiset(h) == multiset(h[..1]) + multiset{h[1]}
    ensures |h| > 2 ==> var r := Shrunk(h);
      && Entries(r, ents) && OrderedBut(r, ents, {2, 3}) && Bridged(r, ents, 1)
      && multiset(h) == multiset(r) + multiset{h[1]}
  {
    if |h| == 2 {
      assert h == h[..1] + [h[1]];
    } else {
      var r := Shrunk(h);
      ShrunkItems(h);
      forall i: nat | 1 <= i < |r| && i !in {2, 3}
        ensures Above(r, ents, i)
      {
        assert Above(h, ents, i);
      }
      assert Bridged(r, ents, 1);
    }
  }
}
