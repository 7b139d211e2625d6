/**
  xdelta3-djw.h: the code lengths of the compressor are the best for what it counts.
 */
module DjwBest {
  import opened Bytes
  import opened Binary
  import opened Codes
  import opened Sums
  import opened Huffman
  import Optimal
  import PrefixTree

  /** How often each of the first `n` symbols comes. */
  function CountsOf(codes: seq<nat>, n: nat): (freq: seq<nat>)
    ensures |freq| == n
  {
    seq(n, c requires 0 <= c < n => Count(codes, c))
  }

  /** No code with a word for every weighted symbol is cheaper. */
  ghost predicate Cheapest(clen: seq<nat>, w: seq<nat>) {
    |clen| == |w| && forall c: seq<nat>, m: nat | Optimal.Covers(c, w, m) :: Dot(clen, w) <= Dot(c, w)
  }

  /** The best lengths for the counts; where these give a tree that is too deep, for the
      weights after the first pass whose tree is not. */
  ghost predicate BestCode(clen: seq<nat>, freq: seq<nat>, maxlen: nat, passes: nat) {
    && |freq| >= 2 && BestLengths(clen, Reweighted(Start(freq), passes), maxlen)
    && (forall k: nat | k < passes :: TooDeep(Reweighted(Start(freq), k), maxlen))
    && (Total(Start(freq)) < PrefixTree.Fib(maxlen + 3) ==> passes == 0)
  }

  /** The number of passes is not free. */
  lemma PassesAre(clen: seq<nat>, clen': seq<nat>, freq: seq<nat>, maxlen: nat, passes: nat, passes': nat)
    requires BestCode(clen, freq, maxlen, passes) && BestCode(clen', freq, maxlen, passes')
    ensures passes == passes'
  {
    hide Start, Reweighted;
    BestIsNotTooDeep(clen, Reweighted(Start(freq), passes), maxlen);
    BestIsNotTooDeep(clen', Reweighted(Start(freq), passes'), maxlen);
  }

  lemma BestIsNotTooDeep(clen: seq<nat>, w: seq<nat>, maxlen: nat)
    requires BestLengths(clen, w, maxlen)
    ensures !TooDeep(w, maxlen)
  {
    hide Dot, KraftSum;
    assert Optimal.Covers(clen, w, maxlen) && WordsWithin(clen, w, maxlen);
    forall c: seq<nat>, m: nat | Optimal.Covers(c, w, m) ensures !BeatsWithin(c, w, maxlen) {
    }
  }

  /** The best lengths for what occurs in a sequence of codes. */
  ghost predicate BestFor(clen: seq<nat>, codes: seq<nat>, n: nat, maxlen: nat) {
    exists passes: nat :: BestCode(clen, CountsOf(codes, n), maxlen, passes)
  }

  // ------------------------------------------------- one symbol, or several

  lemma {:induction false} OnlyOne(freq: seq<nat>, x: nat, i: nat)
    requires Occurring(freq) == 1 && x < |freq| && freq[x] > 0 && i < |freq| && i != x
    ensures freq[i] == 0
  {
    if freq[i] > 0 {
      OccurringUpdate(freq, x, 0);
      OccurringSome(freq[x := 0], i);
    }
  }

  lemma {:induction false} FindOne(freq: seq<nat>) returns (x: nat)
    requires Occurring(freq) > 0
    ensures x < |freq| && freq[x] > 0
    decreases |freq|
  {
    var n := |freq| - 1;
    x := n;
    if freq[n] == 0 {
      x := FindOne(freq[..n]);
    }
  }

  lemma {:induction false} KraftOnes(c: seq<nat>)
    requires forall i | 0 <= i < |c| :: c[i] <= 1
    ensures KraftSum(c, 1) == Occurring(c)
    decreases |c|
  {
    assert Pow2(0) == 1;
    if c != [] {
      KraftOnes(c[..|c| - 1]);
    }
  }

  lemma {:induction false} ZeroCost(c: seq<nat>, w: seq<nat>)
    requires |c| == |w| && forall i | 0 <= i < |w| :: w[i] == 0
    ensures Dot(c, w) == 0
    decreases |w|
  {
    if w != [] {
      ZeroCost(c[..|w| - 1], w[..|w| - 1]);
    }
  }

  /** The cost of a code for one symbol. */
  lemma OneCost(c: seq<nat>, freq: seq<nat>, x: nat)
    requires |c| == |freq| && x < |freq| && forall i | 0 <= i < |freq| && i != x :: freq[i] == 0
    ensures Dot(c, freq) == c[x] * freq[x]
  {
    ZeroCost(c, freq[x := 0]);
    Optimal.DotUpdate(c, freq[x := 0], x, c[x], freq[x]);
    assert c[x := c[x]] == c && freq[x := 0][x := freq[x]] == freq;
  }

  /** Words of one bit for two symbols. */
  function Ones(n: nat, x: nat, s: nat): (c: seq<nat>)
    ensures |c| == n
  {
    seq(n, i requires 0 <= i < n => if i == x || i == s then 1 else 0)
  }

  lemma OnesCover(freq: seq<nat>, x: nat)
    requires |freq| >= 2 && Occurring(freq) == 1 && x < |freq| && freq[x] > 0
    ensures var s := Company(freq);
      s != x && Optimal.Covers(Ones(|freq|, x, s), Start(freq), 1)
      && Dot(Ones(|freq|, x, s), Start(freq)) == freq[x] + 1
  {
    hide Company, Dot, KraftSum;
    CompanyIsNew(freq);
    var n, s := |freq|, Company(freq);
    forall i | 0 <= i < n && i != x ensures freq[i] == 0 {
      OnlyOne(freq, x, i);
    }
    var c := Ones(n, x, s);
    KraftOnes(c);
    SameOccurring(c, Start(freq));
    OneCost(c, freq, x);
    Optimal.DotUpdate(c, freq, s, c[s], 1);
    assert c[s := c[s]] == c;
    assert Pow2(1) == 2 by { assert Pow2(0) == 1; }
  }

  lemma {:induction false} SameOccurring(a: seq<nat>, b: seq<nat>)
    requires |a| == |b| && forall i | 0 <= i < |a| :: a[i] > 0 <==> b[i] > 0
    ensures Occurring(a) == Occurring(b)
    decreases |a|
  {
    if a != [] {
      SameOccurring(a[..|a| - 1], b[..|b| - 1]);
    }
  }

  /** The best lengths for the counts with company are the cheapest for the counts. */
  lemma StartCheapest(clen: seq<nat>, freq: seq<nat>, maxlen: nat)
    requires |freq| >= 2 && Occurring(freq) > 0 && BestLengths(clen, Start(freq), maxlen)
    ensures Cheapest(clen, freq)
  {
    hide Dot, Company, Occurring, KraftSum;
    if Occurring(freq) == 1 {
      var x := FindOne(freq);
      OnesCover(freq, x);
      var s := Company(freq);
      forall i | 0 <= i < |freq| && i != x ensures freq[i] == 0 {
        OnlyOne(freq, x, i);
      }
      OneCost(clen, freq, x);
      Optimal.DotUpdate(clen, freq, s, clen[s], 1);
      assert clen[s := clen[s]] == clen && Dot(clen, Start(freq)) == clen[x] * freq[x] + clen[s];
      OneBit(clen[x], clen[s], freq[x]);
      forall c: seq<nat>, m: nat | Optimal.Covers(c, freq, m) ensures Dot(clen, freq) <= Dot(c, freq) {
        OneCost(c, freq, x);
        AtLeastOne(c[x], freq[x]);
      }
    }
  }

  lemma OneBit(a: nat, b: nat, w: nat)
    requires a > 0 && b > 0 && w > 0 && a * w + b <= w + 1
    ensures a == 1
  {
    var p := (a - 1) * w;
    assert a * w == w + p;
    NoProduct(a - 1, w);
  }

  lemma NoProduct(x: nat, w: nat)
    requires w > 0
    ensures x * w == 0 ==> x == 0
  {
  }

  lemma AtLeastOne(a: nat, w: nat)
    requires a > 0
    ensures a * w >= w
  {
    assert a * w == w + (a - 1) * w;
  }

  // ------------------------------------------------------------ totals

  lemma {:induction false} TotalCounts(codes: seq<nat>, n: nat)
    requires forall i | 0 <= i < |codes| :: codes[i] < n
    ensures Total(CountsOf(codes, n)) == |codes|
    decreases |codes|
  {
    if codes == [] {
      TotalZeros(CountsOf(codes, n));
    } else {
      var m := |codes| - 1;
      var c := codes[m];
      TotalCounts(codes[..m], n);
      var f := CountsOf(codes[..m], n);
      assert CountsOf(codes, n) == f[c := f[c] + 1];
      TotalUpdate(f, c, f[c] + 1);
    }
  }

  /** Data short enough never give a tree that is too deep. */
  lemma ShortIsLight(freq: seq<nat>)
    requires |freq| >= 2 && Occurring(freq) > 0
    ensures Total(Start(freq)) <= Total(freq) + 1
  {
    hide Company, Total;
    if Occurring(freq) == 1 {
      CompanyIsNew(freq);
      TotalUpdate(freq, Company(freq), 1);
    }
  }
}
