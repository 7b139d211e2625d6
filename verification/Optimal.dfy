/** The code lengths of a greedy tree are the cheapest any prefix code can have. */
module Optimal {
  import opened Bytes
  import opened Binary
  import opened Sums
  import opened Heap
  import opened PrefixTree
  import opened TreeLengths
  import Arith
  import Codes

  /** The part of all code words of length `max` each weighted entry takes up. */
  function Words(g: seq<nat>, c: seq<nat>, max: nat): (s: seq<nat>)
    requires |c| == |g|
    ensures |s| == |g|
  {
    seq(|g|, x requires 0 <= x < |g| => Word(g[x], c[x], max))
  }

  function Load(g: seq<nat>, c: seq<nat>, max: nat): nat
    requires |c| == |g|
  {
    Total(Words(g, c, max))
  }

  function Word(weight: nat, len: nat, max: nat): nat {
    if weight > 0 && len <= max then Pow2(max - len) else 0
  }

  predicate Fits(g: seq<nat>, c: seq<nat>, max: nat) {
    && |c| == |g| && Load(g, c, max) <= Pow2(max)
    && forall x | 0 <= x < |g| && g[x] > 0 :: c[x] <= max
  }

  lemma {:induction false} DotUpdate(c: seq<nat>, g: seq<nat>, i: nat, ci: nat, gi: nat)
    requires |c| == |g| && i < |g|
    ensures Dot(c[i := ci], g[i := gi]) == Dot(c, g) - c[i] * g[i] + ci * gi
    decreases |g|
  {
    var n := |g| - 1;
    if i < n {
      assert c[i := ci][..n] == c[..n][i := ci] && g[i := gi][..n] == g[..n][i := gi];
      DotUpdate(c[..n], g[..n], i, ci, gi);
    } else {
      assert c[i := ci][..n] == c[..n] && g[i := gi][..n] == g[..n];
    }
  }

  lemma LoadUpdate(g: seq<nat>, c: seq<nat>, max: nat, i: nat, gi: nat, ci: nat)
    requires |c| == |g| && i < |g|
    ensures Load(g[i := gi], c[i := ci], max) == Load(g, c, max) - Word(g[i], c[i], max) + Word(gi, ci, max)
  {
    TotalUpdate(Words(g, c, max), i, Word(gi, ci, max));
    assert Words(g[i := gi], c[i := ci], max) == Words(g, c, max)[i := Word(gi, ci, max)];
  }

  /** Another length for one entry. */
  lemma LengthUpdate(g: seq<nat>, c: seq<nat>, max: nat, i: nat, ci: nat)
    requires |c| == |g| && i < |g|
    ensures Load(g, c[i := ci], max) == Load(g, c, max) - Word(g[i], c[i], max) + Word(g[i], ci, max)
    ensures Dot(c[i := ci], g) == Dot(c, g) - c[i] * g[i] + ci * g[i]
  {
    hide Dot, Load, Word;
    assert g[i := g[i]] == g;
    LoadUpdate(g, c, max, i, g[i], ci);
    DotUpdate(c, g, i, ci, g[i]);
  }

  /** One entry taken out. */
  lemma Removal(g: seq<nat>, c: seq<nat>, max: nat, i: nat)
    requires |c| == |g| && i < |g|
    ensures Load(g[i := 0], c, max) == Load(g, c, max) - Word(g[i], c[i], max)
    ensures Dot(c, g[i := 0]) == Dot(c, g) - c[i] * g[i]
  {
    hide Dot, Load;
    assert c[i := c[i]] == c;
    LoadUpdate(g, c, max, i, 0, c[i]);
    DotUpdate(c, g, i, c[i], 0);
  }

  // ------------------------------------------------ the two longest words

  predicate Longest(g: seq<nat>, c: seq<nat>, x: nat, but: nat) {
    |c| == |g| && x < |g| && g[x] > 0 && x != but && forall z | 0 <= z < |g| && g[z] > 0 && z != but :: c[z] <= c[x]
  }

  lemma {:induction false} FindLongest(g: seq<nat>, c: seq<nat>, but: nat, some: nat) returns (x: nat)
    requires |c| == |g| && some < |g| && g[some] > 0 && some != but
    ensures Longest(g, c, x, but)
    decreases |g|
  {
    var n := |g| - 1;
    x := some;
    if exists y :: 0 <= y < n && g[y] > 0 && y != but {
      var y: nat :| y < n && g[y] > 0 && y != but;
      x := FindLongest(g[..n], c[..n], but, y);
      forall z | 0 <= z < n && g[z] > 0 && z != but ensures c[z] <= c[x] {
        assert g[..n][z] == g[z] && c[..n][z] == c[z];
      }
      if g[n] > 0 && n != but && c[x] < c[n] {
        x := n;
      }
    } else {
      assert some == n;
    }
  }

  /** Words no longer than `m` take up whole units of 2^(max-m). */
  lemma {:induction false} WholeUnits(g: seq<nat>, c: seq<nat>, max: nat, m: nat) returns (q: nat)
    requires |c| == |g| && m <= max && forall z | 0 <= z < |g| && g[z] > 0 :: c[z] <= m
    ensures Load(g, c, max) == q * Pow2(max - m)
  {
    hide Pow2;
    if g == [] {
      q := 0;
    } else {
      var n := |g| - 1;
      q := WholeUnits(g[..n], c[..n], max, m);
      assert Words(g, c, max)[..n] == Words(g[..n], c[..n], max);
      if g[n] > 0 {
        var u, k := Pow2(max - m), Pow2(m - c[n]);
        Pow2Sum(max - m, m - c[n]);
        assert max - m + (m - c[n]) == max - c[n];
        Factor(q, k, u);
        q := q + k;
      }
    }
  }

  lemma Factor(q: nat, k: nat, u: nat)
    ensures q * u + u * k == (q + k) * u
  {
  }

  /** Below a multiple, one more unit still fits. */
  lemma RoomForOne(q: nat, u: nat, t: nat, m: nat)
    requires q * u < Pow2(t) && m <= t && u == Pow2(t - m)
    ensures q * u + u <= Pow2(t)
  {
    hide Pow2;
    Pow2Sum(t - m, m);
    assert t - m + m == t;
    var p := Pow2(m);
    assert p * u == u * p;
    if q < p {
      Arith.Multiples(q, p, u);
    } else if q > p {
      Arith.Multiples(p, q, u);
    }
  }

  /** The longest word can be made as short as the second longest. */
  lemma LevelTop(g: seq<nat>, c: seq<nat>, max: nat, x: nat, y: nat) returns (c': seq<nat>)
    requires Fits(g, c, max) && Longest(g, c, x, |g|) && Longest(g, c, y, x)
    ensures c[y] <= c[x] && c' == c[x := c[y]]
    ensures Fits(g, c', max) && Dot(c', g) <= Dot(c, g)
    ensures c'[x] == c'[y] > 0 && Longest(g, c', x, |g|)
  {
    hide Dot, Load, Pow2;
    var m := c[y];
    c' := c[x := m];
    var q := WholeUnits(g[x := 0], c, max, m);
    Removal(g, c, max, x);
    RoomForOne(q, Pow2(max - m), max, m);
    LengthUpdate(g, c, max, x, m);
    Monotone(m, c[x], g[x]);
    if m == 0 {
      TwoEmpty(g, c', max, x, y);
    }
  }

  lemma Monotone(a: nat, b: nat, w: nat)
    requires a <= b
    ensures a * w <= b * w
  {
    Arith.Product(b - a, w);
  }

  /** Two empty words are too much for any code. */
  lemma TwoEmpty(g: seq<nat>, c: seq<nat>, max: nat, x: nat, y: nat)
    requires |c| == |g| && x < |g| && y < |g| && x != y && g[x] > 0 && g[y] > 0 && c[x] == c[y] == 0
    ensures Load(g, c, max) > Pow2(max)
  {
    hide Load, Pow2;
    Removal(g, c, max, x);
    Removal(g[x := 0], c, max, y);
  }

  /** Exchanging the lengths of two entries. */
  lemma Exchange(g: seq<nat>, c: seq<nat>, max: nat, p: nat, q: nat) returns (c': seq<nat>)
    requires Fits(g, c, max) && p < |g| && q < |g| && 0 < g[p] <= g[q] && c[p] <= c[q] && p != q
    ensures c' == c[p := c[q]][q := c[p]]
    ensures Fits(g, c', max) && Dot(c', g) <= Dot(c, g)
  {
    hide Dot, Load, Pow2;
    c' := c[p := c[q]][q := c[p]];
    LengthUpdate(g, c, max, p, c[q]);
    LengthUpdate(g, c[p := c[q]], max, q, c[p]);
    Rearrange(c[p], c[q], g[p], g[q]);
  }

  lemma Rearrange(a: nat, b: nat, u: nat, v: nat)
    requires a <= b && u <= v
    ensures b * u + a * v <= a * u + b * v
  {
    Arith.Product(b - a, v - u);
    assert (b - a) * (v - u) == b * v - b * u - a * v + a * u;
  }

  /** Some code as cheap gives the two least weights words of equal length. */
  lemma PairUp(g: seq<nat>, c: seq<nat>, max: nat, l: nat, r: nat) returns (c': seq<nat>)
    requires Fits(g, c, max) && l < |g| && r < |g| && l != r && g[l] > 0 && g[r] > 0
    requires forall z | 0 <= z < |g| && g[z] > 0 && z != l :: g[l] <= g[z] && g[r] <= g[z]
    ensures |c'| == |g| && Fits(g, c', max) && Dot(c', g) <= Dot(c, g) && c'[l] == c'[r] > 0
  {
    hide Dot, Load, Pow2;
    var x := FindLongest(g, c, |g|, l);
    var y := FindLongest(g, c, x, if x == l then r else l);
    c' := LevelTop(g, c, max, x, y);
    var m := c'[x];
    var z := if l == x then y else x;
    if l != x && l != y {
      z := y;
      c' := Exchange(g, c', max, l, x);
    }
    assert c'[l] == c'[z] == m && z != l && g[z] > 0 && c'[r] <= m;
    if r != z {
      c' := Exchange(g, c', max, r, z);
    }
  }

  // --------------------------------------------------------- one join more

  /** A code for two siblings costs one bit for each of them more than for their join. */
  lemma SplitPair(g: seq<nat>, c: seq<nat>, max: nat, l: nat, r: nat, k: nat)
    requires Fits(g, c, max) && l < |g| && r < |g| && k < |g| && l != r && k != l && k != r
    requires g[l] > 0 && g[r] > 0 && g[k] == 0 && c[l] == c[r] > 0
    ensures var g', c' := g[l := 0][r := 0][k := g[l] + g[r]], c[k := c[l] - 1];
      Fits(g', c', max) && Dot(c', g') + g[l] + g[r] == Dot(c, g)
  {
    hide Dot, Load, Pow2;
    var m, s := c[l], g[l] + g[r];
    var g2 := g[l := 0][r := 0];
    Removal(g, c, max, l);
    Removal(g[l := 0], c, max, r);
    LoadUpdate(g2, c, max, k, s, m - 1);
    DotUpdate(c, g2, k, m - 1, s);
    HalfWord(max, m);
    Siblings(m, g[l], g[r]);
  }

  lemma HalfWord(max: nat, m: nat)
    requires 0 < m <= max
    ensures Pow2(max - (m - 1)) == 2 * Pow2(max - m)
  {
  }

  lemma Siblings(m: nat, u: nat, v: nat)
    requires m > 0
    ensures m * u + m * v == (m - 1) * (u + v) + u + v
  {
  }

  /** No code for the entries active at time `k` costs less than the joins still to come. */
  lemma {:induction false} JoinsNeeded(e: seq<Ent>, kids: seq<Kids>, a: nat, k: nat, c: seq<nat>, max: nat)
    requires Tree(e, kids, a) && Greedy(e, kids, a) && a <= k < |e|
    requires Fits(Mask(e, Freqs(e), k), c, max)
    ensures Dot(c, Mask(e, Freqs(e), k)) >= Total(Freqs(e)[k + 1..])
    decreases |e| - k
  {
    hide Mask, Fits, Dot, Tree, Greedy;
    TreeSize(e, kids, a);
    if k + 1 < |e| {
      var g := Mask(e, Freqs(e), k);
      var (l, r) := kids[k + 1];
      LeastAt(e, kids, a, k + 1);
      var c' := PairUp(g, c, max, l, r);
      assert |g| == |e|;
      SplitPair(g, c', max, l, r, k + 1);
      JoinsNeeded(e, kids, a, k + 1, c'[k + 1 := c'[l] - 1], max);
      assert Freqs(e)[k + 1..] == [e[k + 1].freq] + Freqs(e)[k + 2..];
      TotalCons(e[k + 1].freq, Freqs(e)[k + 2..]);
    }
  }

  /** What join `k` did to the weights of the active entries. */
  lemma LeastAt(e: seq<Ent>, kids: seq<Kids>, a: nat, k: nat)
    requires Tree(e, kids, a) && Greedy(e, kids, a) && a < k < |e|
    ensures var ((l, r), g) := (kids[k], Mask(e, Freqs(e), k - 1));
      && l < |e| && r < |e| && l != r && l != k && r != k
      && g[l] > 0 && g[r] > 0 && g[k] == 0 && e[k].freq == g[l] + g[r]
      && Mask(e, Freqs(e), k) == g[l := 0][r := 0][k := g[l] + g[r]]
      && forall z | 0 <= z < |e| && g[z] > 0 && z != l :: g[l] <= g[z] && g[r] <= g[z]
  {
    MaskStep(e, kids, a, Freqs(e), k);
    assert LeastPair(e, kids, k);
    assert Linked(e, kids, a, k);
    assert Inner(e, kids, k);
  }

  // -------------------------------------------------------------- the code

  /** Code lengths `c` of a prefix code with a word for every weighted symbol. */
  predicate Covers(c: seq<nat>, w: seq<nat>, max: nat) {
    |c| == |w| && Codes.KraftOk(c, max) && forall i | 0 <= i < |w| && w[i] > 0 :: c[i] > 0
  }

  /** A code for the symbols as one for the entries. */
  function Spread(c: seq<nat>, n: nat): (s: seq<nat>)
    requires |c| < n
    ensures |s| == n
  {
    [0] + c + Repeat(0, n - |c| - 1)
  }

  lemma {:induction false} KraftAtLeast(c: seq<nat>, w: seq<nat>, max: nat)
    requires |c| == |w| && Codes.AtMost(c, max) && forall i | 0 <= i < |w| && w[i] > 0 :: c[i] > 0
    ensures Load(w, c, max) <= Codes.KraftSum(c, max)
  {
    if c != [] {
      var n := |c| - 1;
      KraftAtLeast(c[..n], w[..n], max);
      assert Words(w, c, max)[..n] == Words(w[..n], c[..n], max);
    }
  }

  lemma {:induction false} DotAppend(a: seq<nat>, b: seq<nat>, c: seq<nat>, d: seq<nat>)
    requires |a| == |b| && |c| == |d|
    ensures Dot(a + c, b + d) == Dot(a, b) + Dot(c, d)
    decreases |c|
  {
    if c == [] {
      assert a + c == a && b + d == b;
    } else {
      var n := |c| - 1;
      DotAppend(a, b, c[..n], d[..n]);
      assert (a + c)[..|a| + n] == a + c[..n] && (b + d)[..|a| + n] == b + d[..n];
    }
  }

  lemma SpreadFits(c: seq<nat>, w: seq<nat>, max: nat, n: nat)
    requires Covers(c, w, max) && |w| < n
    ensures Fits(Spread(w, n), Spread(c, n), max) && Dot(Spread(c, n), Spread(w, n)) == Dot(c, w)
  {
    hide Dot, Load, Pow2, Codes.KraftOk;
    LoadSpread(c, w, max, n);
    DotSpread(c, w, n);
    KraftBound(c, w, max);
  }

  lemma KraftBound(c: seq<nat>, w: seq<nat>, max: nat)
    requires Covers(c, w, max)
    ensures Load(w, c, max) <= Pow2(max) && forall x | 0 <= x < |w| :: c[x] <= max
  {
    KraftAtLeast(c, w, max);
  }

  lemma LoadSpread(c: seq<nat>, w: seq<nat>, max: nat, n: nat)
    requires |c| == |w| < n
    ensures Load(Spread(w, n), Spread(c, n), max) == Load(w, c, max)
  {
    hide Word, Total;
    var zeros: seq<nat> := Repeat(0, n - |w| - 1);
    NoWords(zeros, max);
    NoWords([0], max);
    assert Words(Spread(w, n), Spread(c, n), max) == [0] + Words(w, c, max) + zeros;
    TotalZeros(zeros);
    TotalAppend([0] + Words(w, c, max), zeros);
    TotalCons(0, Words(w, c, max));
  }

  lemma NoWords(g: seq<nat>, max: nat)
    requires forall i | 0 <= i < |g| :: g[i] == 0
    ensures Words(g, g, max) == g && forall i | 0 <= i < |g| :: Word(g[i], g[i], max) == 0
  {
  }

  lemma DotSpread(c: seq<nat>, w: seq<nat>, n: nat)
    requires |c| == |w| < n
    ensures Dot(Spread(c, n), Spread(w, n)) == Dot(c, w)
  {
    var zeros: seq<nat> := Repeat(0, n - |w| - 1);
    DotAppend([0] + c, [0] + w, zeros, zeros);
    DotAppend([0], [0], c, w);
    DotZeros(zeros);
    DotZeros([0]);
  }

  lemma {:induction false} DotZeros(z: seq<nat>)
    requires forall i | 0 <= i < |z| :: z[i] == 0
    ensures Dot(z, z) == 0
  {
    if z != [] {
      DotZeros(z[..|z| - 1]);
    }
  }

  /** Huffman's theorem. */
  lemma TreeIsOptimal(e: seq<Ent>, kids: seq<Kids>, a: nat, c: seq<nat>, max: nat)
    requires Tree(e, kids, a) && Greedy(e, kids, a) && Covers(c, Weights(e, a), max)
    ensures Dot(Lengths(e, kids, a), Weights(e, a)) <= Dot(c, Weights(e, a))
  {
    hide Mask, Fits, Dot, Tree, Greedy;
    TreeSize(e, kids, a);
    TreeCost(e, kids, a);
    SpreadFits(c, Weights(e, a), max, |e|);
    SymbolsActive(e, kids, a, Freqs(e));
    assert Symbols(e, a, Freqs(e)) == Weights(e, a);
    JoinsNeeded(e, kids, a, a, Spread(c, |e|), max);
  }
}
