/**
  xdelta3-djw.h: djw_build_prefix.  A heap of subtrees yields the two least, which are
  joined, until one tree is left; where it is too deep for the code lengths allowed, all
  weights are flattened and the tree is built again.
 */
module Huffman {
  import opened Bytes
  import opened Binary
  import opened Heap
  import opened Sums
  import opened PrefixTree
  import opened TreeLengths
  import Optimal
  import Shortest
  import Codes

  /** The heap holds the sentinel and, once each, the roots not in `out`. */
  ghost predicate Rooted(h: seq<nat>, e: seq<Ent>, out: set<nat>) {
    forall x: nat :: multiset(h)[x] == if x == 0 || (IsRoot(e, x) && x !in out) then 1 else 0
  }

  lemma Slots(h: seq<nat>, e: seq<Ent>, out: set<nat>)
    requires Rooted(h, e, out) && |h| > 0 && h[0] == 0
    ensures forall i | 1 <= i < |h| :: IsRoot(e, h[i]) && h[i] !in out
  {
    forall i | 1 <= i < |h|
      ensures IsRoot(e, h[i]) && h[i] !in out
    {
      assert h == h[..i] + [h[i]] + h[i + 1..];
      assert multiset(h) == multiset(h[..i]) + multiset{h[i]} + multiset(h[i + 1..]);
      assert multiset(h)[h[i]] > 0;
      assert h[..i][0] == h[0] && multiset(h[..i])[h[0]] >= 1;
    }
  }

  lemma SlotOf(h: seq<nat>, e: seq<Ent>, out: set<nat>, x: nat) returns (i: nat)
    requires Rooted(h, e, out) && |h| > 0 && h[0] == 0 && IsRoot(e, x) && x !in out
    ensures 1 <= i < |h| && h[i] == x
  {
    assert multiset(h)[x] == 1;
    assert x in h;
    i :| 0 <= i < |h| && h[i] == x;
  }

  ghost predicate LeastRoot(e: seq<Ent>, x: nat, out: set<nat>) {
    IsRoot(e, x) && x !in out && forall y: nat | IsRoot(e, y) && y !in out :: !Less(e[y], e[x])
  }

  /** The entry on top of the heap is a least root, and it is the one taken out. */
  lemma Popped(h: seq<nat>, h': seq<nat>, full: seq<Ent>, n: nat, out: set<nat>, x: nat)
    requires IsHeap(h, full) && |h| >= 2 && n <= |full| && Rooted(h, full[..n], out)
    requires h[1] == x && multiset(h) == multiset(h') + multiset{x}
    ensures LeastRoot(full[..n], x, out) && Rooted(h', full[..n], out + {x})
  {
    hide IsHeap;
    var e := full[..n];
    HeapEntries(h, full);
    Slots(h, e, out);
    forall y: nat
      ensures multiset(h')[y] == if y == 0 || (IsRoot(e, y) && y !in out + {x}) then 1 else 0
    {
      assert multiset(h)[y] == multiset(h')[y] + multiset{x}[y];
    }
    forall y: nat | IsRoot(e, y) && y !in out
      ensures !Less(e[y], e[x])
    {
      var i := SlotOf(h, e, out, y);
      RootLeast(h, full, i);
    }
  }

  lemma HeapEntries(h: seq<nat>, full: seq<Ent>)
    requires IsHeap(h, full)
    ensures Entries(h, full)
  {
  }

  /** Weights and depths are all the heap depends on. */
  lemma HeapFrame(h: seq<nat>, e: seq<Ent>, e': seq<Ent>)
    requires IsHeap(h, e) && |e'| == |e|
    requires forall i | 0 <= i < |h| :: e'[h[i]].freq == e[h[i]].freq && e'[h[i]].depth == e[h[i]].depth
    ensures IsHeap(h, e')
  {
    forall i: nat | 1 <= i < |h| ensures Above(h, e', i) {
      assert Above(h, e, i);
      assert h[i] == h[i] && h[i / 2] == h[i / 2];
    }
  }

  // ---------------------------------------------------------- first heap

  /** A symbol not looked at yet becomes a tree of its own. */
  predicate Fresh(e: seq<Ent>, a: nat, n: nat) {
    |e| > a && n <= a + 1 && forall x | 0 < x < n :: e[x].depth == e[x].parent == 0
  }

  lemma AddRoot(h: seq<nat>, h': seq<nat>, e: seq<Ent>, n: nat, x: Ent)
    requires n == |e| > 0 && Rooted(h, e, {}) && x.parent == 0
    requires multiset(h') == if x.freq != 0 then multiset(h) + multiset{n} else multiset(h)
    ensures Rooted(h', e + [x], {})
  {
    forall y: nat
      ensures multiset(h')[y] == if y == 0 || IsRoot(e + [x], y) then 1 else 0
    {
      assert multiset(h)[y] == if y == 0 || IsRoot(e, y) then 1 else 0;
      assert y < |e| ==> (e + [x])[y] == e[y];
    }
  }

  /** The number of weights that are not zero. */
  function Occurring(w: seq<nat>): nat {
    if w == [] then 0 else Occurring(w[..|w| - 1]) + if w[|w| - 1] != 0 then 1 else 0
  }

  lemma {:induction false} OccurringZeros(w: seq<nat>)
    ensures Occurring(w) + Codes.Count(w, 0) == |w|
    decreases |w|
  {
    if w != [] {
      OccurringZeros(w[..|w| - 1]);
    }
  }

  lemma OccurringNext(w: seq<nat>, i: nat)
    requires i < |w|
    ensures Occurring(w[..i + 1]) == Occurring(w[..i]) + if w[i] != 0 then 1 else 0
  {
    assert w[..i + 1][..i] == w[..i];
  }

  lemma RootedStart(e: seq<Ent>)
    requires |e| == 1
    ensures Rooted([0], e, {})
  {
    assert multiset([0 as nat]) == multiset{0};
  }

  /** The initial heap of djw_build_prefix. */
  method InitialHeap(heap: array<nat>, ents: array<Ent>, asize: nat) returns (last: nat)
    requires asize > 0 && heap.Length > asize && ents.Length > asize
    modifies heap, ents
    ensures last == Occurring(old(Weights(ents[..], asize))) <= asize
    ensures Weights(ents[..], asize) == old(Weights(ents[..], asize))
    ensures IsHeap(heap[..last + 1], ents[..]) && Rooted(heap[..last + 1], ents[..asize + 1], {})
    ensures Fresh(ents[..], asize, asize + 1)
  {
    hide IsHeap, Rooted, Occurring;
    ghost var w := Weights(ents[..], asize);
    last := 0;
    heap[0] := 0;
    ents[0] := Ent(0, 0, 0);
    FirstHeap(heap[..1], ents[..]);
    assert w[..0] == [];
    OccurringNone();
    var i := 0;
    while i < asize
      invariant i <= asize && last <= i && last == Occurring(w[..i])
      invariant IsHeap(heap[..last + 1], ents[..]) && Rooted(heap[..last + 1], ents[..i + 1], {})
      invariant Fresh(ents[..], asize, i + 1)
      invariant forall j | 0 <= j < asize :: ents[j + 1].freq == w[j]
    {
      last := InitialStep(heap, ents, i, last);
      OccurringNext(w, i);
      i := i + 1;
    }
    assert w[..asize] == w;
  }

  lemma OccurringNone()
    ensures Occurring([]) == 0
  {
  }

  lemma FirstHeap(h: seq<nat>, e: seq<Ent>)
    requires h == [0] && |e| > 0 && e[0] == Ent(0, 0, 0)
    ensures IsHeap(h, e) && Rooted(h, e[..1], {})
  {
    RootedStart(e[..1]);
  }

  method InitialStep(heap: array<nat>, ents: array<Ent>, i: nat, last0: nat) returns (last: nat)
    requires last0 <= i && i + 1 < heap.Length && i + 1 < ents.Length
    requires IsHeap(heap[..last0 + 1], ents[..]) && Rooted(heap[..last0 + 1], ents[..i + 1], {})
    modifies heap, ents
    ensures last == last0 + (if old(ents[i + 1].freq) != 0 then 1 else 0)
    ensures ents[..] == old(ents[..])[i + 1 := Ent(0, old(ents[i + 1].freq), 0)]
    ensures IsHeap(heap[..last + 1], ents[..]) && Rooted(heap[..last + 1], ents[..i + 2], {})
  {
    hide IsHeap, Rooted;
    ghost var h, e := heap[..last0 + 1], ents[..];
    ents[i + 1] := ents[i + 1].(depth := 0, parent := 0);
    KeepHeap(h, e, ents[..], i + 1);
    last := InsertUsed(heap, ents, last0, i + 1);
    AddRoot(h, heap[..last + 1], e[..i + 1], i + 1, ents[i + 1]);
    assert ents[..i + 2] == e[..i + 1] + [ents[i + 1]];
  }

  /** A symbol without weight is left out of the heap. */
  method InsertUsed(heap: array<nat>, ents: array<Ent>, last0: nat, x: nat) returns (last: nat)
    requires last0 + 1 < heap.Length && x < ents.Length && IsHeap(heap[..last0 + 1], ents[..])
    modifies heap
    ensures last == last0 + (if ents[x].freq != 0 then 1 else 0)
    ensures IsHeap(heap[..last + 1], ents[..])
    ensures var m := old(multiset(heap[..last0 + 1]));
      multiset(heap[..last + 1]) == if ents[x].freq != 0 then m + multiset{x} else m
  {
    hide IsHeap;
    last := last0;
    if ents[x].freq != 0 {
      last := last + 1;
      HeapInsert(heap, ents, last, x);
    }
  }

  /** Entries from `n` on are not in the heap. */
  lemma KeepHeap(h: seq<nat>, e: seq<Ent>, e': seq<Ent>, n: nat)
    requires IsHeap(h, e) && n <= |e| == |e'| && Rooted(h, e[..n], {}) && n > 0
    requires forall x | 0 <= x < n :: e'[x].freq == e[x].freq && e'[x].depth == e[x].depth
    ensures IsHeap(h, e')
  {
    Slots(h, e[..n], {});
    HeapFrame(h, e, e');
  }

  // --------------------------------------------------------------- joins

  ghost predicate Growing(h: seq<nat>, full: seq<Ent>, n: nat, kids: seq<Kids>, a: nat, w: nat) {
    n <= |full| && IsHeap(h, full) && Rooted(h, full[..n], {}) && Grown(full[..n], kids, a, w)
  }

  /** What every join keeps. */
  ghost predicate Grown(e: seq<Ent>, kids: seq<Kids>, a: nat, w: nat) {
    Forest(e, kids, a) && Steep(e, w) && Greedy(e, kids, a) && a < |e| == |kids|
  }

  lemma StartGrowing(h: seq<nat>, full: seq<Ent>, a: nat, kids: seq<Kids>)
    requires 0 < a < |full| && IsHeap(h, full) && Rooted(h, full[..a + 1], {}) && Fresh(full, a, a + 1)
    requires |kids| == a + 1
    ensures Growing(h, full, a + 1, kids, a, 1)
  {
    hide IsHeap, Rooted;
    assert Fib(2) == 1;
  }

  /** A least root comes out of the heap. */
  method PopLeast(heap: array<nat>, ents: array<Ent>, last: nat, n: nat, ghost out: set<nat>) returns (x: nat)
    requires 1 <= last < heap.Length && n <= ents.Length
    requires IsHeap(heap[..last + 1], ents[..]) && Rooted(heap[..last + 1], ents[..n], out)
    modifies heap
    ensures IsHeap(heap[..last], ents[..]) && Rooted(heap[..last], ents[..n], out + {x})
    ensures LeastRoot(ents[..n], x, out)
  {
    hide IsHeap, Rooted, LeastRoot;
    ghost var h := heap[..last + 1];
    x := HeapExtract(heap, ents, last - 1);
    Popped(h, heap[..last], ents[..], n, out, x);
  }

  method PopTwo(heap: array<nat>, ents: array<Ent>, last: nat, n: nat) returns (l: nat, r: nat)
    requires 2 <= last < heap.Length && n <= ents.Length
    requires IsHeap(heap[..last + 1], ents[..]) && Rooted(heap[..last + 1], ents[..n], {})
    modifies heap
    ensures IsHeap(heap[..last - 1], ents[..]) && Rooted(heap[..last - 1], ents[..n], {l, r})
    ensures LeastTwo(ents[..n], l, r)
  {
    hide IsHeap, Rooted, LeastRoot;
    l := PopLeast(heap, ents, last, n, {});
    assert {} + {l} == {l};
    r := PopLeast(heap, ents, last - 1, n, {l});
    assert {l} + {r} == {l, r};
    LeastOfBoth(ents[..n], l, r);
  }

  /** Two roots than which no other one is lighter, the lighter of them first. */
  ghost predicate LeastTwo(e: seq<Ent>, l: nat, r: nat) {
    && IsRoot(e, l) && IsRoot(e, r) && l != r && !Less(e[r], e[l])
    && forall x: nat | IsRoot(e, x) && x != l :: !Less(e[x], e[r])
  }

  lemma LeastOfBoth(e: seq<Ent>, l: nat, r: nat)
    requires LeastRoot(e, l, {}) && LeastRoot(e, r, {l})
    ensures LeastTwo(e, l, r)
  {
  }

  /** One turn of the loop that builds the tree. */
  method JoinTwo(heap: array<nat>, ents: array<Ent>, last: nat, n: nat, ghost kids: seq<Kids>, ghost a: nat,
      ghost w: nat)
    returns (l: nat, r: nat, ghost w': nat)
    requires 2 <= last < heap.Length && n < ents.Length && Growing(heap[..last + 1], ents[..], n, kids, a, w)
    modifies heap, ents
    ensures a < n && Weights(ents[..n + 1], a) == Weights(old(ents[..n]), a)
    ensures Growing(heap[..last], ents[..], n + 1, kids + [(l, r)], a, w')
  {
    hide IsHeap, Rooted, Growing, Join, Weights, LeastTwo;
    ghost var full := ents[..];
    GrowingHeap(heap[..last + 1], full, n, kids, a, w);
    l, r := PopTwo(heap, ents, last, n);
    LeastBelow(full[..n], l, r);
    w' := full[r].freq;
    ghost var h := heap[..last - 1];
    Linking(ents, n, l, r);
    JoinHeap(h, full, ents[..], n, l, r);
    HeapInsert(heap, ents, last - 1, n);
    JoinKeeps(heap[..last], h, full, ents[..], n, kids, a, w, l, r);
  }

  lemma LeastBelow(e: seq<Ent>, l: nat, r: nat)
    requires LeastTwo(e, l, r)
    ensures l < |e| && r < |e| && l != r
  {
  }

  lemma GrowingHeap(h: seq<nat>, full: seq<Ent>, n: nat, kids: seq<Kids>, a: nat, w: nat)
    requires Growing(h, full, n, kids, a, w)
    ensures 0 < a < n == |kids| && n <= |full| && Grown(full[..n], kids, a, w)
    ensures IsHeap(h, full) && Rooted(h, full[..n], {}) && Entries(h, full)
  {
  }

  /** The new entry and the links to it. */
  method Linking(ents: array<Ent>, n: nat, l: nat, r: nat)
    requires n < ents.Length && l < n && r < n && l != r
    modifies ents
    ensures ents[..n + 1] == Join(old(ents[..n]), l, r)
    ensures forall x | n < x < ents.Length :: ents[x] == old(ents[x])
  {
    ents[n] := Ent(1 + Max(ents[l].depth, ents[r].depth), ents[l].freq + ents[r].freq, 0);
    ents[l] := ents[l].(parent := n);
    ents[r] := ents[r].(parent := n);
  }

  /** The heap after two entries have been taken out and joined. */
  lemma JoinHeap(h: seq<nat>, full: seq<Ent>, full': seq<Ent>, n: nat, l: nat, r: nat)
    requires IsHeap(h, full) && 0 < n < |full| == |full'| && l < n && r < n && l != r
    requires Rooted(h, full[..n], {l, r})
    requires full'[..n + 1] == Join(full[..n], l, r)
    ensures IsHeap(h, full')
  {
    Slots(h, full[..n], {l, r});
    forall i | 0 <= i < |h|
      ensures full'[h[i]].freq == full[h[i]].freq && full'[h[i]].depth == full[h[i]].depth
    {
      assert full'[h[i]] == full'[..n + 1][h[i]];
    }
    HeapFrame(h, full, full');
  }

  lemma JoinKeeps(h': seq<nat>, h: seq<nat>, full: seq<Ent>, full': seq<Ent>, n: nat, kids: seq<Kids>, a: nat,
      w: nat, l: nat, r: nat)
    requires 0 < a < n < |full| == |full'| && |kids| == n && Grown(full[..n], kids, a, w)
    requires Rooted(h, full[..n], {l, r}) && multiset(h') == multiset(h) + multiset{n}
    requires LeastTwo(full[..n], l, r) && full'[..n + 1] == Join(full[..n], l, r) && IsHeap(h', full')
    ensures Growing(h', full', n + 1, kids + [(l, r)], a, full[r].freq)
    ensures Weights(full'[..n + 1], a) == Weights(full[..n], a)
  {
    hide Rooted, IsHeap, Forest, Steep, Greedy;
    var e := full[..n];
    JoinForest(e, kids, a, l, r);
    JoinSteep(e, w, l, r);
    JoinGreedy(e, kids, a, l, r);
    JoinRooted(h', h, e, n, l, r);
  }

  lemma JoinRooted(h': seq<nat>, h: seq<nat>, e: seq<Ent>, n: nat, l: nat, r: nat)
    requires n == |e| && IsRoot(e, l) && IsRoot(e, r) && l != r
    requires Rooted(h, e, {l, r}) && multiset(h') == multiset(h) + multiset{n}
    ensures Rooted(h', Join(e, l, r), {})
  {
    forall x: nat
      ensures multiset(h')[x] == if x == 0 || IsRoot(Join(e, l, r), x) then 1 else 0
    {
      assert multiset(h)[x] == if x == 0 || (IsRoot(e, x) && x !in {l, r}) then 1 else 0;
    }
  }

  /** One root left, and it is the last join. */
  lemma OneTree(h: seq<nat>, full: seq<Ent>, n: nat, kids: seq<Kids>, a: nat, w: nat)
    requires Growing(h, full, n, kids, a, w) && |h| == 2 && n > a + 1
    ensures Tree(full[..n], kids, a)
  {
    var e := full[..n];
    HeapEntries(h, full);
    assert Linked(e, kids, a, n - 1) && Inner(e, kids, n - 1);
    assert IsRoot(e, n - 1);
    var i := SlotOf(h, e, {}, n - 1);
    forall x: nat | IsRoot(e, x) ensures x == n - 1 {
      var j := SlotOf(h, e, {}, x);
    }
  }

  /** The finished tree of a pass, as the code lengths need it. */
  ghost predicate Finished(e: seq<Ent>, kids: seq<Kids>, a: nat, w: nat) {
    Tree(e, kids, a) && Steep(e, w) && Greedy(e, kids, a)
  }

  /** The loop of djw_build_prefix that joins subtrees until one is left. */
  method BuildTree(heap: array<nat>, ents: array<Ent>, last0: nat, asize: nat)
    returns (n: nat, ghost kids: seq<Kids>, ghost w: nat)
    requires 2 <= last0 <= asize < heap.Length && ents.Length == 2 * asize
    requires IsHeap(heap[..last0 + 1], ents[..]) && Rooted(heap[..last0 + 1], ents[..asize + 1], {})
    requires Fresh(ents[..], asize, asize + 1)
    modifies heap, ents
    ensures asize < n <= ents.Length && Finished(ents[..n], kids, asize, w)
    ensures Weights(ents[..n], asize) == old(Weights(ents[..asize + 1], asize))
  {
    hide IsHeap, Rooted, Growing, Weights, Finished;
    n := asize + 1;
    kids, w := Repeat((0, 0), n), 1;
    var last := last0;
    StartGrowing(heap[..last + 1], ents[..], asize, kids);
    while last > 1
      invariant 1 <= last <= last0 && n == asize + 1 + (last0 - last)
      invariant Growing(heap[..last + 1], ents[..], n, kids, asize, w)
      invariant Weights(ents[..n], asize) == old(Weights(ents[..asize + 1], asize))
      decreases last
    {
      ghost var l, r;
      l, r, w := JoinTwo(heap, ents, last, n, kids, asize, w);
      kids := kids + [(l, r)];
      n := n + 1;
      last := last - 1;
    }
    AllJoined(heap[..2], ents[..], n, kids, asize, w);
  }

  lemma AllJoined(h: seq<nat>, full: seq<Ent>, n: nat, kids: seq<Kids>, a: nat, w: nat)
    requires Growing(h, full, n, kids, a, w) && |h| == 2 && n > a + 1
    ensures Finished(full[..n], kids, a, w)
  {
    OneTree(h, full, n, kids, a, w);
  }

  // ------------------------------------------------------------- lengths

  /** Counting parents. */
  method CountParents(ents: array<Ent>, i: nat, n: nat, ghost kids: seq<Kids>, ghost a: nat) returns (b: nat)
    requires 0 < i < n <= ents.Length && Forest(ents[..n], kids, a)
    ensures b == Level(ents[..n], kids, a, i)
  {
    hide Level, Forest;
    b := 0;
    ghost var e := ents[..n];
    ParentLevel(e, kids, a, i);
    var p := ents[i].parent;
    while p != 0
      invariant p < n
      invariant Level(e, kids, a, i) == b + if p == 0 then 0 else 1 + Level(e, kids, a, p)
      decreases if p == 0 then 0 else n - p
    {
      ParentLevel(e, kids, a, p);
      b := b + 1;
      p := ents[p].parent;
    }
  }

  lemma ParentLevel(e: seq<Ent>, kids: seq<Kids>, a: nat, x: nat)
    requires Forest(e, kids, a) && 0 < x < |e|
    ensures e[x].parent < |e| && (e[x].parent != 0 ==> x < e[x].parent)
    ensures Level(e, kids, a, x) == if e[x].parent == 0 then 0 else 1 + Level(e, kids, a, e[x].parent)
  {
    assert Linked(e, kids, a, x);
  }

  /** The loop of djw_build_prefix over the symbols. */
  method TreeCodeLengths(ents: array<Ent>, freq: seq<nat>, maxlen: nat, n: nat, ghost kids: seq<Kids>)
    returns (clen: array<nat>, overflow: bool, totalBits: nat)
    requires |freq| < n <= ents.Length && Forest(ents[..n], kids, |freq|)
    ensures fresh(clen) && clen[..] == Lengths(ents[..n], kids, |freq|)
    ensures overflow <==> !Codes.AtMost(clen[..], maxlen)
    ensures totalBits == Dot(clen[..], freq)
  {
    hide Level, Forest, Dot;
    ghost var e := ents[..n];
    var asize := |freq|;
    clen := new nat[asize];
    overflow, totalBits := false, 0;
    DotStart(freq);
    for i := 0 to asize
      invariant forall j | 0 <= j < i :: clen[j] == LengthAt(e, kids, asize, j)
      invariant overflow <==> !Codes.AtMost(clen[..i], maxlen)
      invariant totalBits == Dot(clen[..i], freq[..i])
    {
      var b: nat := 0;
      if ents[i + 1].freq != 0 {
        b := CountParents(ents, i + 1, n, kids, asize);
        if b > maxlen {
          overflow := true;
        }
        totalBits := totalBits + b * freq[i];
      }
      ghost var before := clen[..i];
      clen[i] := b;
      assert clen[..i + 1] == before + [b] && freq[..i + 1] == freq[..i] + [freq[i]];
      DotNext(before, freq[..i], b, freq[i]);
      AtMostNext(before, b, maxlen);
    }
    assert clen[..asize] == clen[..] && freq[..asize] == freq;
  }

  lemma DotStart(s: seq<nat>)
    ensures s[..0] == [] && Dot([], []) == 0
  {
  }

  lemma DotNext(a: seq<nat>, b: seq<nat>, x: nat, y: nat)
    requires |a| == |b|
    ensures Dot(a + [x], b + [y]) == Dot(a, b) + x * y
  {
    assert (a + [x])[..|a|] == a && (b + [y])[..|b|] == b;
  }

  lemma AtMostNext(a: seq<nat>, x: nat, max: nat)
    ensures Codes.AtMost(a + [x], max) <==> Codes.AtMost(a, max) && x <= max
  {
    assert (a + [x])[|a|] == x;
    assert forall i | 0 <= i < |a| :: (a + [x])[i] == a[i];
  }

  // ---------------------------------------------------------- new weights

  /** One symbol alone is given another one for company. */
  function Start(freq: seq<nat>): (w: seq<nat>)
    requires |freq| >= 2
    ensures |w| == |freq|
  {
    if Occurring(freq) == 1 then freq[Company(freq) := 1] else freq
  }

  function Company(freq: seq<nat>): (s: nat)
    requires |freq| >= 2
    ensures s < |freq|
  {
    if freq[0] != 0 then |freq| - 1 else 0
  }

  function Flattened(w: seq<nat>): (r: seq<nat>)
    ensures |r| == |w|
  {
    seq(|w|, i requires 0 <= i < |w| => w[i] / 2 + 1)
  }

  /** The weights after `passes` trees that were too deep. */
  function Reweighted(w: seq<nat>, passes: nat): (r: seq<nat>)
    ensures |r| == |w|
  {
    if passes == 0 then w else Flattened(Reweighted(w, passes - 1))
  }

  /** Every pass halves how far a weight is above two; weights below become one. */
  lemma {:induction false} ReweightedAt(w: seq<nat>, passes: nat, i: nat)
    requires i < |w|
    ensures Reweighted(w, passes)[i] == 2 + (w[i] - 2) / Pow2(passes)
    decreases passes
  {
    if passes > 0 {
      ReweightedAt(w, passes - 1, i);
      var x: int := w[i];
      HalfAgain(x - 2, Pow2(passes - 1));
    } else {
      assert Pow2(0) == 1;
    }
  }

  lemma HalfAgain(x: int, p: nat)
    requires p > 0
    ensures x / p / 2 == x / (2 * p)
  {
    var q, r := x / p, x % p;
    var h, b := q / 2, q % 2;
    var m := 2 * p;
    assert x == h * m + (b * p + r) by {
      assert x == q * p + r && q == 2 * h + b;
      assert (2 * h + b) * p == h * m + b * p;
    }
    assert 0 <= b * p + r < m by { assert b == 0 || b == 1; }
    QuotientIs(x, m, h, b * p + r);
  }

  lemma QuotientIs(x: int, m: nat, h: int, rest: int)
    requires m > 0 && x == h * m + rest && 0 <= rest < m
    ensures x / m == h
  {
    var k := x / m - h;
    assert x == x / m * m + x % m;
    assert k * m == rest - x % m by { assert (x / m - h) * m == x / m * m - h * m; }
    if k > 0 {
      Arith.Multiples(0, k, m);
    } else if k < 0 {
      assert (-k) * m == -(k * m);
      Arith.Multiples(0, -k, m);
    }
  }

  /** A symbol that occurs alone is joined by the first one, and the first by the last. */
  lemma CompanyIs(freq: seq<nat>, s: nat)
    requires |freq| >= 2 && s < |freq| && freq[s] > 0 && forall i | 0 <= i < |freq| && i != s :: freq[i] == 0
    ensures Start(freq) == freq[if s == 0 then |freq| - 1 else 0 := 1]
  {
    OccursOnce(freq, s);
  }

  lemma {:induction false} OccursOnce(freq: seq<nat>, s: nat)
    requires forall i | 0 <= i < |freq| && i != s :: freq[i] == 0
    requires s < |freq| ==> freq[s] > 0
    ensures Occurring(freq) == if s < |freq| then 1 else 0
    decreases |freq|
  {
    if freq != [] {
      OccursOnce(freq[..|freq| - 1], s);
    }
  }

  lemma NoPasses(w: seq<nat>)
    ensures Reweighted(w, 0) == w
  {
  }

  lemma {:induction false} OccurringUpdate(w: seq<nat>, i: nat, x: nat)
    requires i < |w|
    ensures Occurring(w[i := x]) == Occurring(w) + (if x != 0 then 1 else 0) - (if w[i] != 0 then 1 else 0)
    decreases |w|
  {
    var n := |w| - 1;
    if i < n {
      OccurringUpdate(w[..n], i, x);
      assert w[i := x][..n] == w[..n][i := x];
    } else {
      assert w[i := x][..n] == w[..n];
    }
  }

  lemma {:induction false} OccurringSome(w: seq<nat>, i: nat)
    requires i < |w| && w[i] != 0
    ensures Occurring(w) >= 1
    decreases |w|
  {
    if i < |w| - 1 {
      OccurringSome(w[..|w| - 1], i);
    }
  }

  lemma CompanyIsNew(freq: seq<nat>)
    requires |freq| >= 2 && Occurring(freq) == 1
    ensures freq[Company(freq)] == 0 && Occurring(Start(freq)) == 2
  {
    var s := Company(freq);
    OccurringUpdate(freq, s, 1);
    OccurringUpdate(freq, s, 0);
    if freq[s] != 0 {
      OccurringSome(freq[s := 0], 0);
    }
  }

  lemma {:induction false} AllOccurring(w: seq<nat>)
    requires forall i | 0 <= i < |w| :: w[i] != 0
    ensures Occurring(w) == |w|
    decreases |w|
  {
    if w != [] {
      AllOccurring(w[..|w| - 1]);
    }
  }

  lemma {:induction false} FlattenedTotal(w: seq<nat>)
    requires forall i | 0 <= i < |w| :: w[i] != 0
    ensures Total(Flattened(w)) <= Total(w)
    ensures (exists i :: 0 <= i < |w| && w[i] > 2) ==> Total(Flattened(w)) < Total(w)
    decreases |w|
  {
    if w != [] {
      var n := |w| - 1;
      assert Flattened(w)[..n] == Flattened(w[..n]);
      FlattenedTotal(w[..n]);
      if w[n] <= 2 && exists i :: 0 <= i < |w| && w[i] > 2 {
        var i :| 0 <= i < |w| && w[i] > 2;
        assert w[..n][i] > 2;
      }
    }
  }

  /** Another pass has fewer symbols without weight or less weight in all. */
  lemma FlatteningEnds(w: seq<nat>, heavy: nat)
    requires |w| >= 2 && heavy > 2 * |w| && Total(w) >= heavy
    ensures var w' := Flattened(w);
      && Occurring(w') == |w| && Occurring(w) <= |w|
      && (Occurring(w) < |w| || Total(w') < Total(w))
  {
    var w' := Flattened(w);
    AllOccurring(w');
    OccurringZeros(w);
    if Occurring(w) == |w| {
      forall i | 0 <= i < |w| ensures w[i] != 0 {
        if w[i] == 0 {
          Codes.CountPositive(w, i);
        }
      }
      if forall i | 0 <= i < |w| :: w[i] <= 2 {
        TotalAtMost(w, 2);
      }
      FlattenedTotal(w);
    }
  }

  // ------------------------------------------------------------ the whole

  /** The words of the weighted symbols are no longer than `h`. */
  predicate WordsWithin(c: seq<nat>, w: seq<nat>, h: nat) {
    |c| == |w| && forall i | 0 <= i < |w| && w[i] > 0 :: c[i] <= h
  }

  /** Code lengths for the weights `w`: nothing is longer than `maxlen`, exactly the
      weighted symbols have a word, no word is left over, no other prefix code for these
      symbols is cheaper, and none as cheap has a shorter longest word. */
  ghost predicate BestLengths(clen: seq<nat>, w: seq<nat>, maxlen: nat) {
    && |clen| == |w| && Codes.AtMost(clen, maxlen)
    && Codes.KraftSum(clen, maxlen) == Pow2(maxlen)
    && (forall i | 0 <= i < |w| :: clen[i] > 0 <==> w[i] > 0)
    && (forall c: seq<nat>, m: nat | Optimal.Covers(c, w, m) :: Dot(clen, w) <= Dot(c, w))
    && (forall c: seq<nat>, m: nat, h: nat | Optimal.Covers(c, w, m) && WordsWithin(c, w, h) ::
          Dot(c, w) <= Dot(clen, w) ==> Codes.AtMost(clen, h))
  }

  /** Some code is cheaper than all that keep the limit. */
  ghost predicate TooDeep(w: seq<nat>, maxlen: nat) {
    exists clen: seq<nat>, m: nat :: Optimal.Covers(clen, w, m) && BeatsWithin(clen, w, maxlen)
  }

  ghost predicate BeatsWithin(clen: seq<nat>, w: seq<nat>, maxlen: nat) {
    |clen| == |w| && forall c: seq<nat>, m: nat | Optimal.Covers(c, w, m) && WordsWithin(c, w, maxlen) ::
      Dot(clen, w) < Dot(c, w)
  }

  lemma OverflowIsTooDeep(e: seq<Ent>, kids: seq<Kids>, a: nat, w: nat, maxlen: nat)
    requires Finished(e, kids, a, w) && !Codes.AtMost(Lengths(e, kids, a), maxlen)
    ensures TooDeep(Weights(e, a), maxlen)
  {
    hide Steep, Greedy, LengthAt, Fib, Dot;
    TreeSize(e, kids, a);
    var clen, ws, m := Lengths(e, kids, a), Weights(e, a), e[|e| - 1].depth;
    forall i | 0 <= i < a ensures clen[i] <= m && (ws[i] > 0 ==> clen[i] > 0) {
      DeepIsHeavy(e, kids, a, w, i);
      LengthInTree(e, kids, a, i);
    }
    TreeKraft(e, kids, a, m, w);
    assert Optimal.Covers(clen, ws, m);
    forall c: seq<nat>, n: nat | Optimal.Covers(c, ws, n) && WordsWithin(c, ws, maxlen)
      ensures Dot(clen, ws) < Dot(c, ws)
    {
      if Dot(c, ws) <= Dot(clen, ws) {
        Shortest.TreeIsShortest(e, kids, a, c, n, maxlen);
      }
    }
  }

  lemma LengthInTree(e: seq<Ent>, kids: seq<Kids>, a: nat, i: nat)
    requires Tree(e, kids, a) && i < a
    ensures LengthAt(e, kids, a, i) <= e[|e| - 1].depth
  {
    if e[i + 1].freq > 0 {
      LevelDepth(e, kids, a, i + 1);
    }
  }

  lemma FinishedIsBest(e: seq<Ent>, kids: seq<Kids>, a: nat, w: nat, maxlen: nat)
    requires Finished(e, kids, a, w) && Codes.AtMost(Lengths(e, kids, a), maxlen)
    ensures BestLengths(Lengths(e, kids, a), Weights(e, a), maxlen)
  {
    hide Tree, Steep, Greedy, Dot, LengthAt;
    TreeSize(e, kids, a);
    TreeKraft(e, kids, a, maxlen, w);
    forall i | 0 <= i < a
      ensures Lengths(e, kids, a)[i] > 0 <==> Weights(e, a)[i] > 0
    {
      DeepIsHeavy(e, kids, a, w, i);
    }
    forall c: seq<nat>, m: nat | Optimal.Covers(c, Weights(e, a), m)
      ensures Dot(Lengths(e, kids, a), Weights(e, a)) <= Dot(c, Weights(e, a))
    {
      Optimal.TreeIsOptimal(e, kids, a, c, m);
    }
    forall c: seq<nat>, m: nat, h: nat |
        Optimal.Covers(c, Weights(e, a), m) && WordsWithin(c, Weights(e, a), h)
        && Dot(c, Weights(e, a)) <= Dot(Lengths(e, kids, a), Weights(e, a))
      ensures Codes.AtMost(Lengths(e, kids, a), h)
    {
      Shortest.TreeIsShortest(e, kids, a, c, m, h);
    }
  }

  lemma OverflowIsHeavy(e: seq<Ent>, kids: seq<Kids>, a: nat, w: nat, maxlen: nat)
    requires Finished(e, kids, a, w) && !Codes.AtMost(Lengths(e, kids, a), maxlen)
    ensures Total(Weights(e, a)) >= Fib(maxlen + 3)
  {
    hide Steep, Greedy, LengthAt, Fib;
    var clen := Lengths(e, kids, a);
    var i :| 0 <= i < a && clen[i] > maxlen;
    DeepIsHeavy(e, kids, a, w, i);
    FibMonotone(maxlen + 3, clen[i] + 2);
  }

  /** One tree, and new weights where it is too deep. */
  method OnePass(heap: array<nat>, ents: array<Ent>, freq: seq<nat>, maxlen: nat, last: nat)
    returns (clen: array<nat>, overflow: bool, totalBits: nat)
    requires 2 <= last <= |freq| < heap.Length && ents.Length == 2 * |freq|
    requires IsHeap(heap[..last + 1], ents[..]) && Rooted(heap[..last + 1], ents[..|freq| + 1], {})
    requires Fresh(ents[..], |freq|, |freq| + 1)
    modifies heap, ents
    ensures fresh(clen) && clen.Length == |freq|
    ensures var w := old(Weights(ents[..|freq| + 1], |freq|));
      if overflow then
        Total(w) >= Fib(maxlen + 3) && TooDeep(w, maxlen) && Weights(ents[..], |freq|) == Flattened(w)
      else BestLengths(clen[..], w, maxlen) && totalBits == Dot(clen[..], freq)
  {
    hide IsHeap, Rooted, Fib, BestLengths, Finished, Dot, Forest, Flattened, TooDeep;
    var asize := |freq|;
    var n;
    ghost var kids, w;
    n, kids, w := BuildTree(heap, ents, last, asize);
    ghost var e := ents[..n];
    FinishedForest(e, kids, asize, w);
    clen, overflow, totalBits := TreeCodeLengths(ents, freq, maxlen, n, kids);
    if overflow {
      OverflowIsHeavy(e, kids, asize, w, maxlen);
      OverflowIsTooDeep(e, kids, asize, w, maxlen);
      SameWeights(e, ents[..], asize);
      Flatten(ents, asize);
    } else {
      FinishedIsBest(e, kids, asize, w, maxlen);
    }
  }

  lemma FinishedForest(e: seq<Ent>, kids: seq<Kids>, a: nat, w: nat)
    requires Finished(e, kids, a, w)
    ensures a < |e| && Forest(e, kids, a)
  {
  }

  method Flatten(ents: array<Ent>, asize: nat)
    requires asize < ents.Length
    modifies ents
    ensures Weights(ents[..], asize) == Flattened(old(Weights(ents[..], asize)))
  {
    for i := 1 to asize + 1
      invariant forall j | 0 < j < i :: ents[j].freq == old(ents[j].freq) / 2 + 1
      invariant forall j | i <= j < ents.Length :: ents[j] == old(ents[j])
    {
      ents[i] := ents[i].(freq := ents[i].freq / 2 + 1);
    }
  }

  /** What the weights of a pass are. */
  ghost predicate PassWeights(freq: seq<nat>, w: seq<nat>, passes: nat) {
    && |freq| >= 2 && |w| == |freq| && Occurring(freq) > 0
    && (Occurring(w) >= 2 ==> w == Reweighted(Start(freq), passes))
    && (Occurring(w) < 2 ==> w == freq && passes == 0)
  }

  lemma FirstPass(freq: seq<nat>)
    requires |freq| >= 2 && Occurring(freq) > 0
    ensures PassWeights(freq, freq, 0)
  {
  }

  lemma FakedPass(freq: seq<nat>, w: seq<nat>, passes: nat)
    requires PassWeights(freq, w, passes) && Occurring(w) == 1
    ensures w == freq && passes == 0 && Start(freq) == w[Company(freq) := 1]
    ensures Occurring(Start(freq)) == 2 && PassWeights(freq, Start(freq), 0)
  {
    CompanyIsNew(freq);
  }

  lemma OccurringAtMost(w: seq<nat>)
    ensures Occurring(w) <= |w|
  {
    OccurringZeros(w);
  }

  lemma NextPass(freq: seq<nat>, w: seq<nat>, passes: nat, heavy: nat)
    requires PassWeights(freq, w, passes) && Occurring(w) >= 2 && heavy > 2 * |w| && Total(w) >= heavy
    requires passes > 0 ==> Total(Start(freq)) >= heavy
    ensures PassWeights(freq, Flattened(w), passes + 1) && Total(Start(freq)) >= heavy
    ensures Occurring(w) <= Occurring(Flattened(w)) == |w|
    ensures Occurring(w) < |w| || Total(Flattened(w)) < Total(w)
  {
    FlatteningEnds(w, heavy);
  }

  /** djw_build_prefix.  The bound on the alphabet holds of all three the compressor has:
      symbols, code lengths and group selectors. */
  method BuildPrefix(freq: seq<nat>, maxlen: nat)
    returns (clen: array<nat>, totalBits: nat, ghost w: seq<nat>, ghost passes: nat)
    requires |freq| >= 2 && 2 * |freq| < Fib(maxlen + 3) && Occurring(freq) > 0
    ensures fresh(clen) && clen.Length == |freq|
    ensures w == Reweighted(Start(freq), passes) && BestLengths(clen[..], w, maxlen)
    ensures forall k: nat | k < passes :: TooDeep(Reweighted(Start(freq), k), maxlen)
    ensures Total(Start(freq)) < Fib(maxlen + 3) ==> passes == 0
    ensures totalBits == Dot(clen[..], freq)
  {
    hide Fib, BestLengths, Start, Reweighted, Occurring, PassWeights, Total, Dot, Flattened, IsHeap, Rooted, TooDeep;
    var asize := |freq|;
    var ents := new Ent[2 * asize](_ => Ent(0, 0, 0));
    var heap := new nat[asize + 1];
    LoadWeights(ents, freq);
    w, passes := freq, 0;
    var overflow := true;
    clen, totalBits := new nat[asize], 0;
    FirstPass(freq);
    while overflow
      invariant fresh(ents) && fresh(heap) && fresh(clen) && clen.Length == asize
      invariant ents.Length == 2 * asize && heap.Length == asize + 1 && |w| == asize
      invariant PassWeights(freq, w, passes)
      invariant forall k: nat | k < passes :: TooDeep(Reweighted(Start(freq), k), maxlen)
      invariant overflow ==> Weights(ents[..], asize) == w
      invariant passes > 0 ==> Total(Start(freq)) >= Fib(maxlen + 3)
      invariant !overflow ==> Occurring(w) >= 2 && BestLengths(clen[..], w, maxlen) && totalBits == Dot(clen[..], freq)
      decreases asize - Occurring(w), Total(w), overflow
    {
      OccurringAtMost(w);
      PassOccurs(freq, w, passes);
      var last := InitialHeap(heap, ents, asize);
      if last == 1 {
        FakedPass(freq, w, passes);
        var s := if freq[0] != 0 then asize - 1 else 0;
        Reweigh(ents, asize, s, 1);
        w := w[s := 1];
      } else {
        SameWeights(ents[..asize + 1], ents[..], asize);
        clen, overflow, totalBits := OnePass(heap, ents, freq, maxlen, last);
        if overflow {
          LastPass(freq, w, passes);
          NextPass(freq, w, passes, Fib(maxlen + 3));
          w, passes := Flattened(w), passes + 1;
        }
      }
    }
    LastPass(freq, w, passes);
  }

  lemma LastPass(freq: seq<nat>, w: seq<nat>, passes: nat)
    requires PassWeights(freq, w, passes) && Occurring(w) >= 2
    ensures w == Reweighted(Start(freq), passes)
  {
  }

  lemma PassOccurs(freq: seq<nat>, w: seq<nat>, passes: nat)
    requires PassWeights(freq, w, passes)
    ensures Occurring(w) > 0
  {
  }

  lemma SameWeights(e: seq<Ent>, full: seq<Ent>, a: nat)
    requires a < |e| <= |full| && forall x | 0 < x <= a :: e[x].freq == full[x].freq
    ensures Weights(e, a) == Weights(full, a)
  {
  }

  method LoadWeights(ents: array<Ent>, freq: seq<nat>)
    requires |freq| < ents.Length
    modifies ents
    ensures Weights(ents[..], |freq|) == freq
  {
    for i := 0 to |freq|
      invariant forall j | 0 <= j < i :: ents[j + 1].freq == freq[j]
    {
      ents[i + 1] := ents[i + 1].(freq := freq[i]);
    }
  }

  method Reweigh(ents: array<Ent>, asize: nat, s: nat, f: nat)
    requires s < asize < ents.Length
    modifies ents
    ensures Weights(ents[..], asize) == old(Weights(ents[..], asize))[s := f]
  {
    ents[s + 1] := ents[s + 1].(freq := f);
  }

  /** Flattening never leaves a symbol without weight. */
  lemma {:induction false} WeightsStay(freq: seq<nat>, passes: nat, i: nat)
    requires |freq| >= 2 && i < |freq| && freq[i] > 0
    ensures Reweighted(Start(freq), passes)[i] > 0
  {
    if passes > 0 {
      WeightsStay(freq, passes - 1, i);
    }
  }
}
