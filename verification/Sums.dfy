/** Sums over sequences. */
module Sums {
  function Total(s: seq<nat>): nat {
    if s == [] then 0 else Total(s[..|s| - 1]) + s[|s| - 1]
  }

  lemma {:induction false} TotalZeros(s: seq<nat>)
    requires forall i | 0 <= i < |s| :: s[i] == 0
    ensures Total(s) == 0
  {
    if s != [] {
      TotalZeros(s[..|s| - 1]);
    }
  }

  lemma {:induction false} TotalUpdate(s: seq<nat>, i: nat, x: nat)
    requires i < |s|
    ensures Total(s[i := x]) == Total(s) - s[i] + x
    decreases |s|
  {
    var n := |s| - 1;
    if i < n {
      TotalUpdate(s[..n], i, x);
      assert s[i := x][..n] == s[..n][i := x];
    } else {
      assert s[i := x][..n] == s[..n];
    }
  }

  /** Two places emptied, an empty one filled. */
  lemma TotalMerge(s: seq<nat>, i: nat, j: nat, k: nat, x: nat)
    requires i < |s| && j < |s| && k < |s| && i != j && i != k && j != k && s[k] == 0
    ensures Total(s[i := 0][j := 0][k := x]) == Total(s) - s[i] - s[j] + x
  {
    TotalUpdate(s, i, 0);
    TotalUpdate(s[i := 0], j, 0);
    TotalUpdate(s[i := 0][j := 0], k, x);
  }

  lemma {:induction false} TotalCons(x: nat, s: seq<nat>)
    ensures Total([x] + s) == x + Total(s)
    decreases |s|
  {
    if s == [] {
      assert ([x] + s)[..0] == [];
    } else {
      TotalCons(x, s[..|s| - 1]);
      assert ([x] + s)[..|s|] == [x] + s[..|s| - 1];
    }
  }

  lemma {:induction false} TotalAppend(s: seq<nat>, t: seq<nat>)
    ensures Total(s + t) == Total(s) + Total(t)
    decreases |t|
  {
    if t == [] {
      assert s + t == s;
    } else {
      TotalAppend(s, t[..|t| - 1]);
      assert (s + t)[..|s + t| - 1] == s + t[..|t| - 1];
    }
  }

  lemma {:induction false} TotalAtMost(s: seq<nat>, m: nat)
    requires forall i | 0 <= i < |s| :: s[i] <= m
    ensures Total(s) <= m * |s|
  {
    if s != [] {
      TotalAtMost(s[..|s| - 1], m);
    }
  }

  /** Sum of products. */
  function Dot(a: seq<nat>, b: seq<nat>): nat
    requires |a| == |b|
  {
    if a == [] then 0
    else
      var n := |a| - 1;
      Dot(a[..n], b[..n]) + a[n] * b[n]
  }
}
