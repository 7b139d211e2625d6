/** The code lengths a finished tree gives its symbols. */
module TreeLengths {
  import opened Bytes
  import opened Binary
  import opened Heap
  import opened Sums
  import opened PrefixTree
  import Codes

  /** The weights of the symbols. */
  function Weights(e: seq<Ent>, a: nat): (w: seq<nat>)
    requires a < |e|
    ensures |w| == a
  {
    seq(a, i requires 0 <= i < a => e[i + 1].freq)
  }

  function LengthAt(e: seq<Ent>, kids: seq<Kids>, a: nat, i: nat): nat
    requires Forest(e, kids, a) && i < a
  {
    if e[i + 1].freq > 0 then Level(e, kids, a, i + 1) else 0
  }

  function Lengths(e: seq<Ent>, kids: seq<Kids>, a: nat): (clen: seq<nat>)
    requires Forest(e, kids, a)
    ensures |clen| == a
  {
    seq(a, i requires 0 <= i < a => LengthAt(e, kids, a, i))
  }

  /** At the time of the symbols, those with weight are active. */
  function Symbols(e: seq<Ent>, a: nat, v: seq<nat>): (s: seq<nat>)
    requires a < |e| == |v|
    ensures |s| == a
  {
    seq(a, i requires 0 <= i < a => if e[i + 1].freq > 0 then v[i + 1] else 0)
  }

  lemma SymbolsActive(e: seq<Ent>, kids: seq<Kids>, a: nat, v: seq<nat>)
    requires Forest(e, kids, a) && |v| == |e|
    ensures Mask(e, v, a) == [0] + Symbols(e, a, v) + Repeat(0, |e| - a - 1)
    ensures Total(Mask(e, v, a)) == Total(Symbols(e, a, v))
  {
    var zeros: seq<nat> := Repeat(0, |e| - a - 1);
    var m := [0] + Symbols(e, a, v) + zeros;
    forall x | 0 <= x < |e|
      ensures Mask(e, v, a)[x] == m[x]
    {
      if x > 0 {
        assert Linked(e, kids, a, x);
      }
    }
    TotalZeros(zeros);
    TotalAppend([0] + Symbols(e, a, v), zeros);
    TotalCons(0, Symbols(e, a, v));
  }

  // --------------------------------------------------------- depth bound

  function Freqs(e: seq<Ent>): (v: seq<nat>)
    ensures |v| == |e|
  {
    seq(|e|, x requires 0 <= x < |e| => e[x].freq)
  }

  lemma FreqsAdd(e: seq<Ent>, kids: seq<Kids>, a: nat)
    requires Forest(e, kids, a)
    ensures forall x | a < x < |e| :: Adds(Freqs(e), Repeat(0, |e|), kids[x], x)
  {
    forall x | a < x < |e|
      ensures Adds(Freqs(e), Repeat(0, |e|), kids[x], x)
    {
      assert Linked(e, kids, a, x);
      assert Inner(e, kids, x);
    }
  }

  /** The root weighs what all symbols weigh. */
  lemma RootWeight(e: seq<Ent>, kids: seq<Kids>, a: nat)
    requires Tree(e, kids, a)
    ensures e[|e| - 1].freq == Total(Weights(e, a))
  {
    FreqsAdd(e, kids, a);
    var zeros: seq<nat> := Repeat(0, |e|);
    Frontier(e, kids, a, Freqs(e), zeros, a);
    TotalZeros(zeros[a + 1..]);
    SymbolsActive(e, kids, a, Freqs(e));
    assert Symbols(e, a, Freqs(e)) == Weights(e, a);
  }

  /** A long code needs a heavy tree. */
  lemma DeepIsHeavy(e: seq<Ent>, kids: seq<Kids>, a: nat, w: nat, i: nat)
    requires Tree(e, kids, a) && Steep(e, w) && i < a
    ensures Fib(LengthAt(e, kids, a, i) + 2) <= Total(Weights(e, a))
    ensures LengthAt(e, kids, a, i) > 0 <==> e[i + 1].freq > 0
  {
    var n := |e| - 1;
    RootWeight(e, kids, a);
    assert Linked(e, kids, a, n) && Inner(e, kids, n);
    assert SteepAt(e[n], w);
    if e[i + 1].freq > 0 {
      LevelDepth(e, kids, a, i + 1);
      FibMonotone(LengthAt(e, kids, a, i) + 2, e[n].depth + 2);
    } else {
      FibMonotone(2, e[n].depth + 2);
    }
  }

  // --------------------------------------------------------------- Kraft

  function Shares(e: seq<Ent>, kids: seq<Kids>, a: nat, max: nat): (v: seq<nat>)
    requires Forest(e, kids, a)
    ensures |v| == |e|
  {
    seq(|e|, x requires 0 <= x < |e| => Share(e, kids, a, max, x))
  }

  /** The part of all code words of length `max` that begin with the path to `x`. */
  function Share(e: seq<Ent>, kids: seq<Kids>, a: nat, max: nat, x: nat): nat
    requires Forest(e, kids, a) && x < |e|
  {
    if 0 < x && Level(e, kids, a, x) <= max then Pow2(max - Level(e, kids, a, x)) else 0
  }

  lemma SharesAdd(e: seq<Ent>, kids: seq<Kids>, a: nat, max: nat, x: nat)
    requires Forest(e, kids, a) && a < x < |e| && Level(e, kids, a, x) < max
    ensures Adds(Shares(e, kids, a, max), Repeat(0, |e|), kids[x], x)
  {
    assert Linked(e, kids, a, x);
    assert Inner(e, kids, x);
  }

  /** Where every symbol is within `max`, every join is well within. */
  lemma {:induction false} InnerLevel(e: seq<Ent>, kids: seq<Kids>, a: nat, max: nat, x: nat)
    requires Tree(e, kids, a) && a < x < |e|
    requires Codes.AtMost(Lengths(e, kids, a), max)
    ensures Level(e, kids, a, x) < max
    decreases x
  {
    assert Linked(e, kids, a, x);
    assert Inner(e, kids, x);
    var l := kids[x].0;
    if l > a {
      InnerLevel(e, kids, a, max, l);
    } else {
      assert Lengths(e, kids, a)[l - 1] == LengthAt(e, kids, a, l - 1) <= max;
    }
  }

  lemma RootLevel(e: seq<Ent>, kids: seq<Kids>, a: nat)
    requires Tree(e, kids, a)
    ensures Level(e, kids, a, |e| - 1) == 0
  {
    assert Linked(e, kids, a, |e| - 1);
  }

  lemma {:induction false} KraftTotal(clen: seq<nat>, max: nat, s: seq<nat>)
    requires |s| == |clen| && Codes.AtMost(clen, max)
    requires forall i | 0 <= i < |s| :: s[i] == if clen[i] > 0 then Pow2(max - clen[i]) else 0
    ensures Codes.KraftSum(clen, max) == Total(s)
  {
    if s != [] {
      KraftTotal(clen[..|clen| - 1], max, s[..|s| - 1]);
    }
  }

  lemma ShareTotal(e: seq<Ent>, kids: seq<Kids>, a: nat, max: nat)
    requires Tree(e, kids, a) && Codes.AtMost(Lengths(e, kids, a), max)
    ensures Total(Symbols(e, a, Shares(e, kids, a, max))) == Pow2(max)
  {
    hide Tree, Mask, Level, Pow2;
    TreeSize(e, kids, a);
    var v := Shares(e, kids, a, max);
    var zeros: seq<nat> := Repeat(0, |e|);
    forall x | a < x < |e|
      ensures Adds(v, zeros, kids[x], x)
    {
      InnerLevel(e, kids, a, max, x);
      SharesAdd(e, kids, a, max, x);
    }
    Frontier(e, kids, a, v, zeros, a);
    TotalZeros(zeros[a + 1..]);
    SymbolsActive(e, kids, a, v);
    RootLevel(e, kids, a);
  }

  /** The code lengths of a tree leave no code word unused. */
  lemma TreeKraft(e: seq<Ent>, kids: seq<Kids>, a: nat, max: nat, w: nat)
    requires Tree(e, kids, a) && Steep(e, w) && Codes.AtMost(Lengths(e, kids, a), max)
    ensures Codes.KraftSum(Lengths(e, kids, a), max) == Pow2(max)
  {
    hide Tree, Steep, Level, Pow2, Total, Fib, LengthAt;
    ShareTotal(e, kids, a, max);
    TreeSize(e, kids, a);
    var s, clen := Symbols(e, a, Shares(e, kids, a, max)), Lengths(e, kids, a);
    forall i | 0 <= i < a
      ensures s[i] == if clen[i] > 0 then Pow2(max - clen[i]) else 0
    {
      DeepIsHeavy(e, kids, a, w, i);
      if e[i + 1].freq > 0 {
        LengthIsLevel(e, kids, a, i);
      }
    }
    KraftTotal(clen, max, s);
  }

  lemma LengthIsLevel(e: seq<Ent>, kids: seq<Kids>, a: nat, i: nat)
    requires Forest(e, kids, a) && i < a && e[i + 1].freq > 0
    ensures LengthAt(e, kids, a, i) == Level(e, kids, a, i + 1)
  {
  }

  lemma TreeSize(e: seq<Ent>, kids: seq<Kids>, a: nat)
    requires Tree(e, kids, a)
    ensures 0 < a && a + 1 < |e| == |kids| && Forest(e, kids, a)
  {
  }

  // ---------------------------------------------------------------- cost

  function Costs(e: seq<Ent>, kids: seq<Kids>, a: nat): (v: seq<nat>)
    requires Forest(e, kids, a)
    ensures |v| == |e|
  {
    seq(|e|, x requires 0 <= x < |e| => if x == 0 then 0 else Level(e, kids, a, x) * e[x].freq)
  }

  lemma CostsAdd(e: seq<Ent>, kids: seq<Kids>, a: nat, x: nat)
    requires Forest(e, kids, a) && a < x < |e|
    ensures Adds(Costs(e, kids, a), Freqs(e), kids[x], x)
  {
    assert Linked(e, kids, a, x);
    assert Inner(e, kids, x);
    var (l, r) := kids[x];
    var n := Level(e, kids, a, x);
    assert Level(e, kids, a, l) == n + 1 == Level(e, kids, a, r);
    calc {
      (n + 1) * e[l].freq + (n + 1) * e[r].freq;
      (n + 1) * (e[l].freq + e[r].freq);
      n * e[x].freq + e[x].freq;
    }
  }

  lemma {:induction false} DotTotal(clen: seq<nat>, w: seq<nat>, s: seq<nat>)
    requires |clen| == |w| == |s| && forall i | 0 <= i < |s| :: s[i] == clen[i] * w[i]
    ensures Dot(clen, w) == Total(s)
  {
    if s != [] {
      var n := |s| - 1;
      DotTotal(clen[..n], w[..n], s[..n]);
    }
  }

  /** The cost of the code is the sum of all joins. */
  lemma TreeCost(e: seq<Ent>, kids: seq<Kids>, a: nat)
    requires Tree(e, kids, a)
    ensures Dot(Lengths(e, kids, a), Weights(e, a)) == Total(Freqs(e)[a + 1..])
  {
    hide Mask, Level, Tree;
    TreeSize(e, kids, a);
    var v := Costs(e, kids, a);
    forall x | a < x < |e|
      ensures Adds(v, Freqs(e), kids[x], x)
    {
      CostsAdd(e, kids, a, x);
    }
    Frontier(e, kids, a, v, Freqs(e), a);
    SymbolsActive(e, kids, a, v);
    RootLevel(e, kids, a);
    DotTotal(Lengths(e, kids, a), Weights(e, a), Symbols(e, a, v));
  }
}
