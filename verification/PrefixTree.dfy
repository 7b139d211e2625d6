/**
  xdelta3-djw.h: the forest djw_build_prefix grows by joining two least subtrees at a
  time.  Entry 0 is the sentinel, entries 1 to `a` are the symbols, later ones are the
  joins in the order they were made.  `kids` names the two subtrees of each join; the
  program itself keeps only the link to the parent.
 */
module PrefixTree {
  import opened Bytes
  import opened Binary
  import opened Heap
  import opened Sums

  type Kids = (nat, nat)

  predicate Inner(e: seq<Ent>, kids: seq<Kids>, x: nat)
    requires 0 < x < |e| == |kids|
  {
    var (l, r) := kids[x];
    && 0 < l < x && 0 < r < x && l != r
    && e[l].parent == x == e[r].parent && e[l].freq > 0 && e[r].freq > 0
    && e[x].freq == e[l].freq + e[r].freq && e[x].depth == 1 + Max(e[l].depth, e[r].depth)
  }

  predicate Linked(e: seq<Ent>, kids: seq<Kids>, a: nat, x: nat)
    requires 0 < x < |e| == |kids|
  {
    var p := e[x].parent;
    && (if x <= a then e[x].depth == 0 else Inner(e, kids, x))
    && (p != 0 ==> a < p < |e| && x < p && e[x].freq > 0 && (x == kids[p].0 || x == kids[p].1))
  }

  predicate Forest(e: seq<Ent>, kids: seq<Kids>, a: nat) {
    && 0 < a < |e| == |kids|
    && forall x | 0 < x < |e| :: Linked(e, kids, a, x)
  }

  predicate IsRoot(e: seq<Ent>, x: nat) {
    0 < x < |e| && e[x].freq > 0 && e[x].parent == 0
  }

  /** The subtrees that were there when all joins up to entry `k` had been made. */
  predicate Active(e: seq<Ent>, x: nat, k: nat) {
    0 < x < |e| && x <= k && e[x].freq > 0 && (e[x].parent == 0 || e[x].parent > k)
  }

  function Fib(n: nat): nat {
    if n < 2 then n else Fib(n - 1) + Fib(n - 2)
  }

  /** Weights grow with depth.  `w` is the heaviest subtree joined so far. */
  predicate Steep(e: seq<Ent>, w: nat) {
    forall x | 0 < x < |e| && e[x].freq > 0 :: SteepAt(e[x], w)
  }

  predicate SteepAt(n: Ent, w: nat) {
    && n.freq >= Fib(n.depth + 2)
    && (n.depth > 0 ==> Fib(n.depth + 1) <= w)
    && (n.parent == 0 ==> w <= n.freq)
  }

  /** Join `k` took the two least subtrees of its time, by weight and then by depth. */
  ghost predicate LeastPair(e: seq<Ent>, kids: seq<Kids>, k: nat)
    requires 0 < k < |e| == |kids|
  {
    var (l, r) := kids[k];
    l < |e| && r < |e| && forall x: nat | Active(e, x, k - 1) && x != l ::
      !Less(e[x], e[l]) && (x != r ==> !Less(e[x], e[r]))
  }

  ghost predicate Greedy(e: seq<Ent>, kids: seq<Kids>, a: nat) {
    |e| == |kids| && forall k | a < k < |e| :: LeastPair(e, kids, k)
  }

  function Join(e: seq<Ent>, l: nat, r: nat): (e': seq<Ent>)
    requires l < |e| && r < |e|
    ensures |e'| == |e| + 1
  {
    e[l := e[l].(parent := |e|)][r := e[r].(parent := |e|)]
      + [Ent(1 + Max(e[l].depth, e[r].depth), e[l].freq + e[r].freq, 0)]
  }

  // ------------------------------------------------------------ one join

  lemma JoinForest(e: seq<Ent>, kids: seq<Kids>, a: nat, l: nat, r: nat)
    requires Forest(e, kids, a) && IsRoot(e, l) && IsRoot(e, r) && l != r
    ensures Forest(Join(e, l, r), kids + [(l, r)], a)
  {
    var e', kids' := Join(e, l, r), kids + [(l, r)];
    forall x | 0 < x < |e'|
      ensures Linked(e', kids', a, x)
    {
      if x < |e| {
        assert Linked(e, kids, a, x);
        if x > a {
          assert Inner(e, kids, x);
        }
      } else {
        assert kids'[x] == (l, r);
      }
    }
  }

  lemma JoinSteep(e: seq<Ent>, w: nat, l: nat, r: nat)
    requires IsRoot(e, l) && IsRoot(e, r) && l != r && Steep(e, w)
    requires !Less(e[r], e[l]) && forall x: nat | IsRoot(e, x) && x != l :: !Less(e[x], e[r])
    ensures Steep(Join(e, l, r), e[r].freq)
  {
    hide Fib;
    var e' := Join(e, l, r);
    assert SteepAt(e[l], w) && SteepAt(e[r], w);
    forall x | 0 < x < |e'| && e'[x].freq > 0
      ensures SteepAt(e'[x], e[r].freq)
    {
      if x < |e| {
        assert SteepAt(e[x], w);
        assert x != l && x != r && e[x].parent == 0 ==> IsRoot(e, x);
      } else if e[l].depth <= e[r].depth {
        JoinWeight(e[r].depth, e[r].freq, e[l].freq, w);
      } else {
        JoinWeight(e[l].depth, e[l].freq, e[r].freq, w);
      }
    }
  }

  /** Fibonacci's recurrence, where the deeper of two subtrees has depth `d`. */
  lemma JoinWeight(d: nat, deep: nat, other: nat, w: nat)
    requires deep >= Fib(d + 2) && (d > 0 ==> Fib(d + 1) <= w) && w <= other && other > 0
    ensures deep + other >= Fib(d + 3)
  {
    assert Fib(3) == Fib(2) + Fib(1) && Fib(2) == 1;
  }

  lemma JoinGreedy(e: seq<Ent>, kids: seq<Kids>, a: nat, l: nat, r: nat)
    requires Forest(e, kids, a) && IsRoot(e, l) && IsRoot(e, r) && l != r && Greedy(e, kids, a)
    requires !Less(e[r], e[l]) && forall x: nat | IsRoot(e, x) && x != l :: !Less(e[x], e[r])
    ensures Greedy(Join(e, l, r), kids + [(l, r)], a)
  {
    var e', kids' := Join(e, l, r), kids + [(l, r)];
    forall k | a < k < |e'|
      ensures LeastPair(e', kids', k)
    {
      if k < |e| {
        assert LeastPair(e, kids, k);
        assert kids'[k] == kids[k];
      }
      forall x: nat | Active(e', x, k - 1)
        ensures x < |e| && (if k < |e| then Active(e, x, k - 1) else x == l || x == r || IsRoot(e, x))
      {
        assert Linked(e, kids, a, x);
      }
    }
  }

  // ------------------------------------------------------- levels, depth

  /** How many parents an entry has. */
  function Level(e: seq<Ent>, kids: seq<Kids>, a: nat, x: nat): nat
    requires Forest(e, kids, a) && 0 < x < |e|
    decreases |e| - x
  {
    assert Linked(e, kids, a, x);
    if e[x].parent == 0 then 0 else 1 + Level(e, kids, a, e[x].parent)
  }

  /** One tree: its root is the last join. */
  ghost predicate Tree(e: seq<Ent>, kids: seq<Kids>, a: nat) {
    Forest(e, kids, a) && |e| > a + 1 && forall x: nat | IsRoot(e, x) :: x == |e| - 1
  }

  lemma {:induction false} LevelDepth(e: seq<Ent>, kids: seq<Kids>, a: nat, x: nat)
    requires Tree(e, kids, a) && 0 < x < |e| && e[x].freq > 0
    ensures e[x].depth + Level(e, kids, a, x) <= e[|e| - 1].depth
    ensures x <= a ==> Level(e, kids, a, x) > 0
    decreases |e| - x
  {
    assert Linked(e, kids, a, x);
    var p := e[x].parent;
    if p == 0 {
      assert IsRoot(e, x);
    } else {
      assert Linked(e, kids, a, p);
      assert Inner(e, kids, p);
      LevelDepth(e, kids, a, p);
    }
  }

  lemma {:induction false} FibMonotone(a: nat, b: nat)
    requires a <= b
    ensures Fib(a) <= Fib(b)
    decreases b
  {
    if a < b {
      FibMonotone(a, b - 1);
    }
  }

  // ---------------------------------------------------------- the frontier

  /** The values of the active entries at time `k`, zero for all others. */
  function Mask(e: seq<Ent>, v: seq<nat>, k: nat): (s: seq<nat>)
    requires |v| == |e|
    ensures |s| == |e|
  {
    seq(|e|, x requires 0 <= x < |e| => if Active(e, x, k) then v[x] else 0)
  }

  lemma MaskStep(e: seq<Ent>, kids: seq<Kids>, a: nat, v: seq<nat>, k: nat)
    requires Tree(e, kids, a) && |v| == |e| && a < k < |e|
    ensures var (l, r) := kids[k];
      && 0 < l < k && 0 < r < k && l != r
      && Active(e, l, k - 1) && Active(e, r, k - 1) && Active(e, k, k) && !Active(e, k, k - 1)
      && Mask(e, v, k - 1)[l] == v[l] && Mask(e, v, k - 1)[r] == v[r] && Mask(e, v, k - 1)[k] == 0
      && Mask(e, v, k) == Mask(e, v, k - 1)[l := 0][r := 0][k := v[k]]
  {
    var (l, r) := kids[k];
    assert Linked(e, kids, a, k);
    assert Inner(e, kids, k);
    forall x | 0 <= x < |e|
      ensures Mask(e, v, k)[x] == Mask(e, v, k - 1)[l := 0][r := 0][k := v[k]][x]
    {
      if x > 0 {
        assert Linked(e, kids, a, x);
      }
    }
  }

  lemma MaskLast(e: seq<Ent>, kids: seq<Kids>, a: nat, v: seq<nat>)
    requires Tree(e, kids, a) && |v| == |e|
    ensures Total(Mask(e, v, |e| - 1)) == v[|e| - 1]
  {
    var n := |e| - 1;
    var m := Mask(e, v, n);
    assert Linked(e, kids, a, n);
    assert Inner(e, kids, n);
    forall x | 0 <= x < n ensures m[x] == 0 {
      if x > 0 {
        assert Linked(e, kids, a, x);
        assert !IsRoot(e, x);
      }
    }
    assert IsRoot(e, n) && m[n] == v[n];
    TotalZeros(m[..n]);
  }

  /** Where a value adds up at every join but for an extra `w`, the values of the symbols
      add up to that of the root and all the extras. */
  lemma {:induction false} Frontier(e: seq<Ent>, kids: seq<Kids>, a: nat, v: seq<nat>, w: seq<nat>, k: nat)
    requires Tree(e, kids, a) && |v| == |w| == |e| && a <= k < |e|
    requires forall x | a < x < |e| :: Adds(v, w, kids[x], x)
    ensures Total(Mask(e, v, k)) == v[|e| - 1] + Total(w[k + 1..])
    decreases |e| - k
  {
    hide Mask, Active, Linked, Inner, IsRoot;
    if k == |e| - 1 {
      MaskLast(e, kids, a, v);
      assert w[k + 1..] == [];
    } else {
      Frontier(e, kids, a, v, w, k + 1);
      var (l, r) := kids[k + 1];
      var m := Mask(e, v, k);
      MaskStep(e, kids, a, v, k + 1);
      TotalMerge(m, l, r, k + 1, v[k + 1]);
      assert Adds(v, w, kids[k + 1], k + 1);
      assert w[k + 1..] == [w[k + 1]] + w[k + 2..];
      TotalCons(w[k + 1], w[k + 2..]);
    }
  }

  predicate Adds(v: seq<nat>, w: seq<nat>, lr: Kids, x: nat)
    requires x < |v| == |w|
  {
    lr.0 < |v| && lr.1 < |v| && v[lr.0] + v[lr.1] == v[x] + w[x]
  }
}
