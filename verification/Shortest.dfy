/**
  Ties are broken by depth, and therefore no code that is as cheap as that of a greedy tree
  has a shorter longest word.
 */
module Shortest {
  import opened Bytes
  import opened Binary
  import opened Sums
  import opened Heap
  import opened PrefixTree
  import opened TreeLengths
  import opened Optimal
  import Codes

  /** With words of the lengths `c`, nothing hangs lower than `h`; entry `x` is itself a tree
      of depth `d[x]`. */
  predicate Under(g: seq<nat>, c: seq<nat>, d: seq<nat>, h: nat) {
    |c| == |g| == |d| && forall x | 0 <= x < |g| && g[x] > 0 :: c[x] + d[x] <= h
  }

  predicate NotAfter(g: seq<nat>, d: seq<nat>, x: nat, y: nat) {
    x < |g| == |d| && y < |g| && (g[x] < g[y] || (g[x] == g[y] && d[x] <= d[y]))
  }

  predicate LeastOfAll(g: seq<nat>, d: seq<nat>, l: nat, r: nat) {
    && |g| == |d| && l < |g| && r < |g| && l != r && g[l] > 0 && g[r] > 0
    && (forall z: nat | z < |g| && g[z] > 0 :: NotAfter(g, d, l, z))
    && forall z: nat | z < |g| && g[z] > 0 && z != l :: NotAfter(g, d, r, z)
  }

  ghost predicate NoCheaper(g: seq<nat>, max: nat, n: nat) {
    forall c: seq<nat> | Fits(g, c, max) :: Dot(c, g) >= n
  }

  /** Exchanging the words of two entries saves something where it moves a heavy one up. */
  lemma ExchangeUnder(g: seq<nat>, c: seq<nat>, d: seq<nat>, max: nat, p: nat, q: nat, n: nat, h: nat)
    returns (c': seq<nat>)
    requires Fits(g, c, max) && Dot(c, g) == n && NoCheaper(g, max, n) && Under(g, c, d, h)
    requires NotAfter(g, d, p, q) && g[p] > 0 && c[p] <= c[q] && p != q
    ensures c' == c[p := c[q]][q := c[p]] && Fits(g, c', max) && Dot(c', g) == n && Under(g, c', d, h)
  {
    hide Fits, Dot;
    c' := c[p := c[q]][q := c[p]];
    if c[p] < c[q] {
      ExchangeCost(g, c, max, p, q);
      assert Fits(g, c', max) && Dot(c', g) <= n;
      assert Dot(c', g) >= n;
      assert g[p] == g[q];
    } else {
      assert c' == c;
    }
  }

  lemma ExchangeCost(g: seq<nat>, c: seq<nat>, max: nat, p: nat, q: nat)
    requires Fits(g, c, max) && p < |g| && q < |g| && 0 < g[p] <= g[q] && c[p] < c[q] && p != q
    ensures var c' := c[p := c[q]][q := c[p]];
      Fits(g, c', max) && Dot(c', g) <= Dot(c, g) && (g[p] < g[q] ==> Dot(c', g) < Dot(c, g))
  {
    hide Dot, Load, Pow2;
    LengthUpdate(g, c, max, p, c[q]);
    LengthUpdate(g, c[p := c[q]], max, q, c[p]);
    Rearrange(c[p], c[q], g[p], g[q]);
    if g[p] < g[q] {
      RearrangeLess(c[p], c[q], g[p], g[q]);
    }
  }

  lemma RearrangeLess(a: nat, b: nat, u: nat, v: nat)
    requires a < b && u < v
    ensures b * u + a * v < a * u + b * v
  {
    assert (b - a) * (v - u) == b * v - b * u - a * v + a * u;
    assert (b - a) * (v - u) > 0;
  }

  /** Two of the longest words, made equally long. */
  lemma TopUnder(g: seq<nat>, c: seq<nat>, d: seq<nat>, max: nat, x: nat, y: nat, n: nat, h: nat)
    returns (c': seq<nat>)
    requires Fits(g, c, max) && Dot(c, g) == n && NoCheaper(g, max, n) && Under(g, c, d, h)
    requires Longest(g, c, x, |g|) && Longest(g, c, y, x)
    ensures Fits(g, c', max) && Dot(c', g) == n && Under(g, c', d, h)
    ensures c'[x] == c'[y] > 0 && Longest(g, c', x, |g|)
  {
    hide Fits, Dot;
    c' := LevelTop(g, c, max, x, y);
    assert Dot(c', g) >= n;
  }

  /** Some code as cheap and as flat gives the two least entries words of equal length. */
  lemma PairUpUnder(g: seq<nat>, c: seq<nat>, d: seq<nat>, max: nat, l: nat, r: nat, n: nat, h: nat)
    returns (c': seq<nat>)
    requires Fits(g, c, max) && Dot(c, g) == n && NoCheaper(g, max, n) && Under(g, c, d, h)
    requires LeastOfAll(g, d, l, r)
    ensures Fits(g, c', max) && Dot(c', g) == n && Under(g, c', d, h) && c'[l] == c'[r] > 0
  {
    hide Fits, Dot, NoCheaper, Under, NotAfter;
    assert |c| == |g| by { UnderSize(g, c, d, h); }
    var x := FindLongest(g, c, |g|, l);
    var y := FindLongest(g, c, x, if x == l then r else l);
    c' := TopUnder(g, c, d, max, x, y, n, h);
    UnderSize(g, c', d, h);
    var m := c'[x];
    var z := if l == x then y else x;
    if l != x && l != y {
      z := y;
      c' := ExchangeUnder(g, c', d, max, l, x, n, h);
    }
    assert c'[l] == c'[z] == m && z != l && g[z] > 0 && c'[r] <= m;
    if r != z {
      c' := ExchangeUnder(g, c', d, max, r, z, n, h);
    }
  }

  lemma UnderSize(g: seq<nat>, c: seq<nat>, d: seq<nat>, h: nat)
    requires Under(g, c, d, h)
    ensures |c| == |g| == |d|
  {
  }

  function Depths(e: seq<Ent>): (d: seq<nat>)
    ensures |d| == |e|
  {
    seq(|e|, x requires 0 <= x < |e| => e[x].depth)
  }

  /** No cheapest code for the entries active at time `k` keeps everything above the depth of
      the finished tree. */
  lemma {:induction false} HeightNeeded(e: seq<Ent>, kids: seq<Kids>, a: nat, k: nat, c: seq<nat>, max: nat, h: nat)
    requires Tree(e, kids, a) && Greedy(e, kids, a) && a <= k < |e|
    requires Fits(Mask(e, Freqs(e), k), c, max) && Dot(c, Mask(e, Freqs(e), k)) == Total(Freqs(e)[k + 1..])
    requires Under(Mask(e, Freqs(e), k), c, Depths(e), h)
    ensures e[|e| - 1].depth <= h
    decreases |e| - k
  {
    hide Mask, Load, Dot, Tree, Greedy, Under, Total, LeastOfAll;
    TreeSize(e, kids, a);
    var g, n := Mask(e, Freqs(e), k), Total(Freqs(e)[k + 1..]);
    if k + 1 < |e| {
      forall c: seq<nat> | Fits(g, c, max) ensures Dot(c, g) >= n {
        JoinsNeeded(e, kids, a, k, c, max);
      }
      var (l, r) := kids[k + 1];
      LeastDepth(e, kids, a, k + 1);
      LeastAt(e, kids, a, k + 1);
      var c' := PairUpUnder(g, c, Depths(e), max, l, r, n, h);
      UnderSize(g, c', Depths(e), h);
      SplitPair(g, c', max, l, r, k + 1);
      JoinUnder(e, kids, a, k + 1, c', h);
      assert Freqs(e)[k + 1..] == [e[k + 1].freq] + Freqs(e)[k + 2..];
      TotalCons(e[k + 1].freq, Freqs(e)[k + 2..]);
      HeightNeeded(e, kids, a, k + 1, c'[k + 1 := c'[l] - 1], max, h);
    } else {
      RootUnder(e, kids, a, c, h);
    }
  }

  lemma RootUnder(e: seq<Ent>, kids: seq<Kids>, a: nat, c: seq<nat>, h: nat)
    requires Tree(e, kids, a) && Under(Mask(e, Freqs(e), |e| - 1), c, Depths(e), h)
    ensures e[|e| - 1].depth <= h
  {
    var n := |e| - 1;
    assert Linked(e, kids, a, n) && Inner(e, kids, n);
    assert Mask(e, Freqs(e), n)[n] == e[n].freq;
  }

  /** What join `k` did, by weight and depth. */
  lemma LeastDepth(e: seq<Ent>, kids: seq<Kids>, a: nat, k: nat)
    requires Tree(e, kids, a) && Greedy(e, kids, a) && a < k < |e|
    ensures var ((l, r), g) := (kids[k], Mask(e, Freqs(e), k - 1));
      l < |e| && r < |e| && LeastOfAll(g, Depths(e), l, r) && e[k].depth == 1 + Max(e[l].depth, e[r].depth)
  {
    LeastAt(e, kids, a, k);
    assert LeastPair(e, kids, k);
    assert Linked(e, kids, a, k);
    assert Inner(e, kids, k);
  }

  /** The join hangs one higher than its two parts. */
  lemma JoinUnder(e: seq<Ent>, kids: seq<Kids>, a: nat, k: nat, c: seq<nat>, h: nat)
    requires Tree(e, kids, a) && Greedy(e, kids, a) && a < k < |e|
    requires Under(Mask(e, Freqs(e), k - 1), c, Depths(e), h)
    requires kids[k].0 < |c| && kids[k].1 < |c| && c[kids[k].0] == c[kids[k].1] > 0
    ensures k < |c| && Under(Mask(e, Freqs(e), k), c[k := c[kids[k].0] - 1], Depths(e), h)
  {
    hide Mask, Tree, Greedy;
    TreeSize(e, kids, a);
    LeastAt(e, kids, a, k);
    LeastDepth(e, kids, a, k);
  }

  /** Among the cheapest codes, that of the tree has the shortest longest word. */
  lemma TreeIsShortest(e: seq<Ent>, kids: seq<Kids>, a: nat, c: seq<nat>, max: nat, h: nat)
    requires Tree(e, kids, a) && Greedy(e, kids, a) && Covers(c, Weights(e, a), max)
    requires Dot(c, Weights(e, a)) <= Dot(Lengths(e, kids, a), Weights(e, a))
    requires forall i | 0 <= i < a && e[i + 1].freq > 0 :: c[i] <= h
    ensures Codes.AtMost(Lengths(e, kids, a), h)
  {
    hide Mask, Fits, Dot, Tree, Greedy, Under, Codes.KraftOk;
    TreeSize(e, kids, a);
    TreeCost(e, kids, a);
    TreeIsOptimal(e, kids, a, c, max);
    SpreadFits(c, Weights(e, a), max, |e|);
    SymbolsActive(e, kids, a, Freqs(e));
    assert Symbols(e, a, Freqs(e)) == Weights(e, a);
    SpreadUnder(e, kids, a, c, h);
    HeightNeeded(e, kids, a, a, Spread(c, |e|), max, h);
    forall i | 0 <= i < a ensures Lengths(e, kids, a)[i] <= h {
      if e[i + 1].freq > 0 {
        LevelDepth(e, kids, a, i + 1);
      }
    }
  }

  lemma SpreadUnder(e: seq<Ent>, kids: seq<Kids>, a: nat, c: seq<nat>, h: nat)
    requires Tree(e, kids, a) && |c| == a && forall i | 0 <= i < a && e[i + 1].freq > 0 :: c[i] <= h
    ensures a < |e| && Under(Mask(e, Freqs(e), a), Spread(c, |e|), Depths(e), h)
  {
    hide Mask;
    SymbolsActive(e, kids, a, Freqs(e));
    var g, s := Mask(e, Freqs(e), a), Spread(c, |e|);
    forall x | 0 <= x < |e| && g[x] > 0 ensures s[x] + Depths(e)[x] <= h {
      assert 0 < x <= a && g[x] == e[x].freq;
      assert Linked(e, kids, a, x);
      assert s[x] == c[x - 1];
    }
  }
}
