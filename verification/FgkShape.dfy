/**
  xdelta3-fgk.h: the tree of the adaptive code, by places.  All nodes stand in one order,
  by weight; places 2k and 2k+1 are siblings, and `up[k]` is the place of their parent.
  Place 0 is the node all unseen symbols share, the last place is the root.
 */
module FgkShape {
  import opened Bytes
  import opened Binary

  datatype Shape = Shape(lab: seq<nat>, up: seq<nat>, w: seq<nat>, zeros: seq<nat>)

  /** Some pair has its parent at place `i`. */
  predicate HasChildren(s: Shape, i: nat) {
    exists k :: 0 <= k < |s.up| && s.up[k] == i
  }

  /** A binary tree over the places.  Symbols are numbered below `a`, joins from `a` on. */
  predicate Tree(s: Shape, a: nat) {
    var n := |s.lab|;
    && n % 2 == 1 && |s.up| == n / 2 && |s.w| == n
    && Distinct(s.lab) && (forall i | 0 <= i < n :: s.lab[i] < a + n / 2)
    && (forall k | 0 <= k < n / 2 :: 2 * k + 1 < s.up[k] < n)
    && Distinct(s.up) && (n >= 3 ==> s.up[0] == 2)
    && forall i: nat | i < n :: s.lab[i] >= a <==> HasChildren(s, i)
  }

  /** The unseen symbols, the first of which has place 0; all others have a place. */
  predicate Unseen(s: Shape, a: nat) {
    && s.zeros != [] && |s.up| + |s.zeros| == a && Distinct(s.zeros) && |s.lab| > 0 && s.lab[0] == s.zeros[0]
    && (forall j | 0 <= j < |s.zeros| :: s.zeros[j] < a)
    && (forall i, j | 1 <= i < |s.lab| && 0 <= j < |s.zeros| :: s.lab[i] != s.zeros[j])
    && forall c: nat | c < a :: c in s.zeros || c in s.lab
  }

  /** Weights grow from place to place but for the root, which stands apart.  A node weighs
      what its children do; the one at place `d`, if any, is about to be made so. */
  predicate Weighed(s: Shape, d: int) {
    var n := |s.lab|;
    && |s.w| == n > 0 && |s.up| == n / 2
    && s.w[0] == 0 && (forall i | 1 <= i < n :: s.w[i] > 0)
    && (forall i, j | 1 <= i <= j < n - 1 :: s.w[i] <= s.w[j])
    && forall k: nat | k < |s.up| :: SumAt(s, d, k)
  }

  predicate SumAt(s: Shape, d: int, k: nat) {
    k < |s.up| && 2 * k + 1 < |s.w| && s.up[k] < |s.w|
    && s.w[2 * k] + s.w[2 * k + 1] == s.w[s.up[k]] + if s.up[k] == d then 1 else 0
  }

  predicate Good(s: Shape, a: nat, d: int) {
    Tree(s, a) && Unseen(s, a) && Weighed(s, d)
  }

  // ---------------------------------------------------------- one increment

  /** The last place with the weight of place `i`: the leader of its block. */
  function Last(w: seq<nat>, i: nat): (q: nat)
    requires 1 <= i < |w| - 1
    ensures i <= q < |w| - 1 && w[q] == w[i]
    ensures q + 1 < |w| - 1 ==> w[q + 1] != w[q]
    decreases |w| - i
  {
    if i + 1 < |w| - 1 && w[i + 1] == w[i] then Last(w, i + 1) else i
  }

  function Exchanged(x: nat, p: nat, q: nat): nat {
    if x == p then q else if x == q then p else x
  }

  /** Two nodes trade places, and with them all below them. */
  function Swapped(s: Shape, p: nat, q: nat): (r: Shape)
    requires p < |s.lab| && q < |s.lab|
    ensures |r.lab| == |s.lab| && |r.up| == |s.up| && r.w == s.w && r.zeros == s.zeros
  {
    Shape(s.lab[p := s.lab[q]][q := s.lab[p]],
          seq(|s.up|, k requires 0 <= k < |s.up| => Exchanged(s.up[k], p, q)), s.w, s.zeros)
  }

  function Heavier(s: Shape, p: nat): (r: Shape)
    requires p < |s.w|
  {
    s.(w := s.w[p := s.w[p] + 1])
  }

  /** The parent at place `i`'s pair. */
  function Parent(s: Shape, i: nat): nat
    requires i / 2 < |s.up|
  {
    s.up[i / 2]
  }

  /** Where the walk of fgk_update_tree may stand: at the root, or at a place that its
      block's leader can trade with. */
  predicate Standing(s: Shape, a: nat, p: nat) {
    Good(s, a, p) && 1 <= p < |s.lab| && (p == 2 ==> |s.lab| == 3)
  }

  /** The node beside the unseen symbols weighs as much as its parent.  Where the parent
      leads the block, both become heavier where they are. */
  predicate Beside(s: Shape, p: nat)
    requires |s.w| > 2
  {
    p == 1 && |s.w| > 3 && Last(s.w, 1) == 2
  }

  /** One step of the walk, and the next place. */
  function Lifted(s: Shape, p: nat): (r: (Shape, nat))
    requires 1 <= p < |s.lab| - 1 && |s.lab| == |s.w| && |s.up| == |s.w| / 2 && |s.w| % 2 == 1
  {
    if Beside(s, p) then (Heavier(Heavier(s, 1), 2), s.up[1])
    else
      var q := Last(s.w, p);
      var t := Swapped(s, p, q);
      (Heavier(t, q), t.up[q / 2])
  }

  /** The walk of fgk_update_tree from place `p` to the root. */
  ghost function Climb(s: Shape, a: nat, p: nat): (r: Shape)
    requires Standing(s, a, p)
    ensures Good(r, a, -1) && |r.lab| == |s.lab| && r.zeros == s.zeros
    decreases |s.lab| - p
  {
    if p == |s.lab| - 1 then
      RootDone(s, a);
      Heavier(s, p)
    else
      LiftedStands(s, a, p);
      var (t, q) := Lifted(s, p);
      Climb(t, a, q)
  }

  // ------------------------------------------------------------------ lemmas

  lemma RootDone(s: Shape, a: nat)
    requires |s.lab| > 1 && Standing(s, a, |s.lab| - 1)
    ensures Good(Heavier(s, |s.lab| - 1), a, -1)
  {
    var n := |s.lab|;
    var r := Heavier(s, n - 1);
    forall k: nat | k < |r.up| ensures SumAt(r, -1, k) {
      assert SumAt(s, n - 1, k);
      assert 2 * k + 1 < s.up[k];
    }
    SameTree(s, r, a);
  }

  lemma SameTree(s: Shape, r: Shape, a: nat)
    requires Tree(s, a) && Unseen(s, a) && r.lab == s.lab && r.up == s.up && r.zeros == s.zeros && |r.w| == |s.w|
    ensures Tree(r, a) && Unseen(r, a)
  {
    forall i: nat | i < |r.lab| ensures r.lab[i] >= a <==> HasChildren(r, i) {
      assert s.lab[i] >= a <==> HasChildren(s, i);
      if HasChildren(s, i) {
        var k :| 0 <= k < |s.up| && s.up[k] == i;
        assert r.up[k] == i;
      }
    }
  }

  /** The children of a node in the same block as one before it are before both. */
  lemma ChildrenBefore(s: Shape, a: nat, d: int, p: nat, q: nat, k: nat)
    requires Good(s, a, d) && 1 <= p < q < |s.lab| - 1 && s.w[p] == s.w[q] && d != q
    requires k < |s.up| && s.up[k] == q && !(p == 1 && q == 2)
    ensures 2 * k + 1 < p
  {
    assert SumAt(s, d, k);
    assert s.up[0] == 2;
    assert k > 0 ==> s.w[2 * k] < s.w[q] && s.w[2 * k + 1] < s.w[q];
  }

  lemma SwapChildren(s: Shape, p: nat, q: nat, i: nat)
    requires p < |s.lab| && q < |s.lab|
    ensures HasChildren(Swapped(s, p, q), i) <==> HasChildren(s, Exchanged(i, p, q))
  {
    var r := Swapped(s, p, q);
    if HasChildren(r, i) {
      var k :| 0 <= k < |r.up| && r.up[k] == i;
      assert s.up[k] == Exchanged(i, p, q);
    }
    if HasChildren(s, Exchanged(i, p, q)) {
      var k :| 0 <= k < |s.up| && s.up[k] == Exchanged(i, p, q);
      assert r.up[k] == i;
    }
  }

  /** Trading places with the leader of the block keeps the tree. */
  lemma SwapTree(s: Shape, a: nat, d: int, p: nat, q: nat)
    requires Good(s, a, d) && d == p && 1 <= p < q < |s.lab| - 1 && p != 2 && s.w[p] == s.w[q] && !(p == 1 && q == 2)
    ensures Tree(Swapped(s, p, q), a)
  {
    var r := Swapped(s, p, q);
    forall k | 0 <= k < |r.up| ensures 2 * k + 1 < r.up[k] < |r.lab| {
      if s.up[k] == q {
        ChildrenBefore(s, a, d, p, q, k);
      }
    }
    forall i: nat | i < |r.lab| ensures r.lab[i] >= a <==> HasChildren(r, i) {
      SwapChildren(s, p, q, i);
      assert r.lab[i] == s.lab[Exchanged(i, p, q)];
      assert s.lab[Exchanged(i, p, q)] >= a <==> HasChildren(s, Exchanged(i, p, q));
    }
  }

  lemma SwapUnseen(s: Shape, a: nat, p: nat, q: nat)
    requires Unseen(s, a) && 1 <= p < |s.lab| && 1 <= q < |s.lab|
    ensures Unseen(Swapped(s, p, q), a)
  {
    var r := Swapped(s, p, q);
    assert forall i | 0 <= i < |r.lab| :: r.lab[i] == s.lab[Exchanged(i, p, q)];
    forall c: nat | c < a ensures c in r.zeros || c in r.lab {
      if c !in s.zeros {
        assert c in s.lab;
        var i :| 0 <= i < |s.lab| && s.lab[i] == c;
        assert r.lab[Exchanged(i, p, q)] == c;
      }
    }
  }

  /** A step of the walk leaves the next place to be set right. */
  lemma LiftedStands(s: Shape, a: nat, p: nat)
    requires Standing(s, a, p) && p < |s.lab| - 1
    ensures var (t, q) := Lifted(s, p);
      Standing(t, a, q) && p < q && |t.lab| == |s.lab| && t.zeros == s.zeros
  {
    if Beside(s, p) {
      BesideLifted(s, a);
    } else {
      var q := Last(s.w, p);
      if p == 1 {
        assert SumAt(s, 1, 0);
      }
      if p < q {
        SwapTree(s, a, p, p, q);
        SwapUnseen(s, a, p, q);
      } else {
        SwapSelf(s, p);
      }
      SwapLifted(s, a, p, q);
    }
  }

  lemma SwapSelf(s: Shape, p: nat)
    requires p < |s.lab|
    ensures Swapped(s, p, p) == s
  {
    assert Swapped(s, p, p).lab == s.lab && Swapped(s, p, p).up == s.up;
  }

  lemma BesideLifted(s: Shape, a: nat)
    requires Standing(s, a, 1) && 1 < |s.lab| - 1 && Beside(s, 1)
    ensures var t := Heavier(Heavier(s, 1), 2);
      Standing(t, a, s.up[1]) && s.up[1] > 2
  {
    var n := |s.lab|;
    var t := Heavier(Heavier(s, 1), 2);
    SameTree(s, t, a);
    forall k: nat | k < |t.up| ensures SumAt(t, s.up[1], k) {
      assert SumAt(s, 1, k);
      assert 2 * k + 1 < s.up[k];
      assert k > 1 ==> s.up[k] != s.up[1] && s.up[k] != s.up[0];
    }
  }

  lemma SwapLifted(s: Shape, a: nat, p: nat, q: nat)
    requires Standing(s, a, p) && p < |s.lab| - 1 && q == Last(s.w, p) && !Beside(s, p)
    requires Tree(Swapped(s, p, q), a) && Unseen(Swapped(s, p, q), a)
    ensures var t := Swapped(s, p, q);
      Standing(Heavier(t, q), a, t.up[q / 2]) && p < t.up[q / 2]
  {
    hide Tree, Unseen;
    var t := Swapped(s, p, q);
    var r := Heavier(t, q);
    SameTree(t, r, a);
    LiftedWeights(s, a, p, q);
    SwapAbove(s, a, p, q);
  }

  lemma SwapAbove(s: Shape, a: nat, p: nat, q: nat)
    requires Standing(s, a, p) && p < |s.lab| - 1 && q == Last(s.w, p) && !Beside(s, p)
    requires Tree(Swapped(s, p, q), a)
    ensures var t := Swapped(s, p, q);
      |s.lab| > 2 && q / 2 < |t.up| && p <= q < t.up[q / 2] < |t.lab| && (t.up[q / 2] == 2 ==> |t.lab| == 3)
  {
    var t := Swapped(s, p, q);
    assert q / 2 > 0 ==> t.up[q / 2] != t.up[0];
    assert SumAt(s, p, 0);
    assert 2 * (q / 2) + 1 < t.up[q / 2];
  }

  lemma LiftedWeights(s: Shape, a: nat, p: nat, q: nat)
    requires Standing(s, a, p) && p < |s.lab| - 1 && q == Last(s.w, p) && !Beside(s, p)
    requires Tree(Swapped(s, p, q), a)
    ensures var t := Swapped(s, p, q); q / 2 < |t.up| && Weighed(Heavier(t, q), t.up[q / 2])
  {
    var t := Swapped(s, p, q);
    var r := Heavier(t, q);
    assert |t.up| == |s.up| && q / 2 < |t.up|;
    hide Tree, Standing, Last, Beside, Heavier, SumAt;
    forall k: nat | k < |r.up| ensures SumAt(r, t.up[q / 2], k) {
      LiftedSum(s, a, p, q, k);
    }
  }

  lemma LiftedSum(s: Shape, a: nat, p: nat, q: nat, k: nat)
    requires Standing(s, a, p) && p < |s.lab| - 1 && q == Last(s.w, p) && !Beside(s, p)
    requires Tree(Swapped(s, p, q), a) && k < |s.up|
    ensures var t := Swapped(s, p, q); q / 2 < |t.up| && SumAt(Heavier(t, q), t.up[q / 2], k)
  {
    var t := Swapped(s, p, q);
    assert SumAt(s, p, k);
    assert 2 * k + 1 < t.up[k];
    assert k != q / 2 ==> t.up[k] != t.up[q / 2];
    assert 2 * (q / 2) == q || 2 * (q / 2) + 1 == q;
  }

  // ----------------------------------------------------- the first occurrence

  function Gone(zeros: seq<nat>, c: nat): (r: seq<nat>)
    requires c in zeros
    ensures |r| == |zeros| - 1
  {
    if zeros[0] == c then zeros[1..] else [zeros[0]] + Gone(zeros[1..], c)
  }

  lemma {:induction false} GoneIs(zeros: seq<nat>, c: nat, x: nat)
    requires c in zeros && Distinct(zeros)
    ensures Distinct(Gone(zeros, c)) && (x in Gone(zeros, c) <==> x in zeros && x != c)
    decreases |zeros|
  {
    if zeros[0] != c {
      GoneIs(zeros[1..], c, x);
      GoneIs(zeros[1..], c, zeros[0]);
      forall j | 0 <= j < |Gone(zeros[1..], c)| ensures Gone(zeros[1..], c)[j] != zeros[0] {
        assert Gone(zeros[1..], c)[j] in Gone(zeros[1..], c);
      }
    }
  }

  /** fgk_increase_zero_weight: the place of the unseen symbols goes to a new node, with
      the unseen symbols that are left and the new symbol below it.  Their weights are
      those they get at once: one each. */
  function Inserted(s: Shape, a: nat, c: nat): (r: Shape)
    requires |s.lab| > 0 && |s.w| == |s.lab| && c in s.zeros && |s.zeros| >= 2
    ensures |r.lab| == |s.lab| + 2 && |r.zeros| == |s.zeros| - 1
  {
    var zeros := Gone(s.zeros, c);
    Shape([zeros[0], c, a + |s.up|] + s.lab[1..],
          [2] + seq(|s.up|, k requires 0 <= k < |s.up| => s.up[k] + 2),
          [0, 1, 1] + s.w[1..], zeros)
  }

  /** fgk_update_tree */
  ghost function Updated(s: Shape, a: nat, c: nat): (r: Shape)
    requires Good(s, a, -1) && c < a && (c in s.zeros ==> |s.zeros| >= 2)
    ensures Good(r, a, -1)
  {
    if c in s.zeros then
      InsertedGood(s, a, c);
      if |s.lab| == 1 then Inserted(s, a, c) else Climb(Inserted(s, a, c), a, 4)
    else
      SeenStands(s, a, c);
      Climb(s, a, PlaceOf(s.lab, c))
  }

  function PlaceOf(lab: seq<nat>, x: nat): (i: nat)
    requires x in lab
    ensures i < |lab| && lab[i] == x
  {
    if lab[0] == x then 0 else 1 + PlaceOf(lab[1..], x)
  }

  lemma SeenStands(s: Shape, a: nat, c: nat)
    requires Good(s, a, -1) && c < a && c !in s.zeros
    ensures c in s.lab && Standing(s, a, PlaceOf(s.lab, c))
  {
    assert c in s.lab;
    var p := PlaceOf(s.lab, c);
    LeafStands(s, a, p);
  }

  lemma LeafStands(s: Shape, a: nat, p: nat)
    requires Good(s, a, -1) && 1 <= p < |s.lab| && s.lab[p] < a
    ensures Standing(s, a, p)
  {
    assert !HasChildren(s, p);
    assert |s.lab| >= 3 ==> s.up[0] == 2;
    forall k: nat | k < |s.up| ensures SumAt(s, p, k) {
      assert SumAt(s, -1, k);
    }
  }

  lemma InsertedGood(s: Shape, a: nat, c: nat)
    requires Good(s, a, -1) && c in s.zeros && |s.zeros| >= 2
    ensures var r := Inserted(s, a, c);
      if |s.lab| == 1 then Good(r, a, -1) else Standing(r, a, 4)
  {
    var r := Inserted(s, a, c);
    InsertedTree(s, a, c);
    InsertedUnseen(s, a, c);
    var d: int := if |s.lab| == 1 then -1 else 4;
    InsertedWeights(s, a, c, d);
  }

  lemma InsertedTree(s: Shape, a: nat, c: nat)
    requires Good(s, a, -1) && c in s.zeros && |s.zeros| >= 2
    ensures Tree(Inserted(s, a, c), a)
  {
    var r := Inserted(s, a, c);
    InsertedDistinct(s, a, c);
    forall k | 0 <= k < |r.up| ensures 2 * k + 1 < r.up[k] < |r.lab| {
    }
    forall i: nat | i < |r.lab| ensures r.lab[i] >= a <==> HasChildren(r, i) {
      InsertedChildren(s, a, c, i);
    }
  }

  lemma InsertedDistinct(s: Shape, a: nat, c: nat)
    requires Good(s, a, -1) && c in s.zeros && |s.zeros| >= 2
    ensures Distinct(Inserted(s, a, c).lab) && forall i | 0 <= i < |s.lab| + 2 ::
        Inserted(s, a, c).lab[i] < a + |s.up| + 1
  {
    hide Weighed;
    var r := Inserted(s, a, c);
    GoneIs(s.zeros, c, r.zeros[0]);
    assert r.zeros[0] in r.zeros;
    assert c in s.zeros && r.zeros[0] in s.zeros;
    var jc :| 0 <= jc < |s.zeros| && s.zeros[jc] == c;
    var jz :| 0 <= jz < |s.zeros| && s.zeros[jz] == r.zeros[0];
    forall i | 3 <= i < |r.lab| ensures r.lab[i] == s.lab[i - 2] && r.lab[i] != c && r.lab[i] != r.zeros[0] {
    }
  }

  lemma InsertedChildren(s: Shape, a: nat, c: nat, i: nat)
    requires Good(s, a, -1) && c in s.zeros && |s.zeros| >= 2 && i < |s.lab| + 2
    ensures var r := Inserted(s, a, c); r.lab[i] >= a <==> HasChildren(r, i)
  {
    var r := Inserted(s, a, c);
    GoneIs(s.zeros, c, r.zeros[0]);
    assert r.zeros[0] in r.zeros && c in s.zeros;
    if i == 2 {
      assert r.up[0] == 2;
    } else if i < 2 {
      assert r.lab[i] < a;
    } else {
      assert r.lab[i] == s.lab[i - 2];
      assert s.lab[i - 2] >= a <==> HasChildren(s, i - 2);
      if HasChildren(s, i - 2) {
        var k :| 0 <= k < |s.up| && s.up[k] == i - 2;
        assert r.up[k + 1] == i;
      }
      if HasChildren(r, i) {
        var k :| 0 <= k < |r.up| && r.up[k] == i;
        assert s.up[k - 1] == i - 2;
      }
    }
  }

  lemma InsertedUnseen(s: Shape, a: nat, c: nat)
    requires Good(s, a, -1) && c in s.zeros && |s.zeros| >= 2
    ensures Unseen(Inserted(s, a, c), a)
  {
    var r := Inserted(s, a, c);
    GoneIs(s.zeros, c, c);
    forall j | 0 <= j < |r.zeros| ensures r.zeros[j] < a && r.zeros[j] != c && r.zeros[j] in s.zeros {
      GoneIs(s.zeros, c, r.zeros[j]);
      assert r.zeros[j] in r.zeros;
    }
    forall i, j | 1 <= i < |r.lab| && 0 <= j < |r.zeros| ensures r.lab[i] != r.zeros[j] {
      assert r.zeros[j] in s.zeros;
      var k :| 0 <= k < |s.zeros| && s.zeros[k] == r.zeros[j];
      assert i > 2 ==> r.lab[i] == s.lab[i - 2];
    }
    forall x: nat | x < a ensures x in r.zeros || x in r.lab {
      GoneIs(s.zeros, c, x);
      if x == c {
        assert r.lab[1] == c;
      } else if x !in s.zeros {
        assert x in s.lab;
        var i :| 0 <= i < |s.lab| && s.lab[i] == x;
        assert r.lab[i + 2] == x;
      }
    }
  }

  lemma InsertedWeights(s: Shape, a: nat, c: nat, d: int)
    requires Good(s, a, -1) && c in s.zeros && |s.zeros| >= 2
    requires d == if |s.lab| == 1 then -1 else 4
    ensures Weighed(Inserted(s, a, c), d)
  {
    var r := Inserted(s, a, c);
    assert forall i | 3 <= i < |r.w| :: r.w[i] == s.w[i - 2];
    forall k: nat | k < |r.up| ensures SumAt(r, d, k) {
      if k > 0 {
        assert SumAt(s, -1, k - 1);
        assert k > 1 ==> s.up[k - 1] != s.up[0];
      }
    }
  }

  // ------------------------------------------------------------------- codes

  /** The way from the root to a place: left is 0, right is 1. */
  function Path(s: Shape, a: nat, i: nat): (bits: seq<bool>)
    requires Tree(s, a) && i < |s.lab|
    decreases |s.lab| - i
  {
    if i == |s.lab| - 1 then [] else Path(s, a, s.up[i / 2]) + [i % 2 == 1]
  }

  /** The pair below a place. */
  function Below(s: Shape, i: nat): (k: nat)
    requires HasChildren(s, i)
    ensures k < |s.up| && s.up[k] == i
  {
    Search(s.up, i, 0)
  }

  function Search(up: seq<nat>, i: nat, from: nat): (k: nat)
    requires exists k :: from <= k < |up| && up[k] == i
    ensures from <= k < |up| && up[k] == i
    decreases |up| - from
  {
    if up[from] == i then from else Search(up, i, from + 1)
  }

  /** The place `m` steps below the root on the way to place `t`. */
  function Ancestor(s: Shape, a: nat, t: nat, m: nat): (i: nat)
    requires Tree(s, a) && t < |s.lab| && m <= |Path(s, a, t)|
    ensures i < |s.lab|
    decreases |s.lab| - t
  {
    if m == |Path(s, a, t)| then t else Ancestor(s, a, s.up[t / 2], m)
  }

  lemma {:induction false} AncestorStep(s: Shape, a: nat, t: nat, m: nat)
    requires Tree(s, a) && t < |s.lab| && m < |Path(s, a, t)|
    ensures var j := Ancestor(s, a, t, m + 1);
      j < |s.lab| - 1 && Ancestor(s, a, t, m) == s.up[j / 2] && (Path(s, a, t)[m] <==> j % 2 == 1)
    decreases |s.lab| - t
  {
    if m + 1 < |Path(s, a, t)| {
      AncestorStep(s, a, s.up[t / 2], m);
    }
  }

  lemma {:induction false} AncestorRoot(s: Shape, a: nat, t: nat)
    requires Tree(s, a) && t < |s.lab|
    ensures Ancestor(s, a, t, 0) == |s.lab| - 1
    decreases |s.lab| - t
  {
    if t < |s.lab| - 1 {
      AncestorRoot(s, a, s.up[t / 2]);
    }
  }

  /** How many bits it takes to number `k` things. */
  function ZeroBits(k: nat): nat {
    if k <= 1 then 0 else 1 + ZeroBits((k + 1) / 2)
  }

  /** The code of a symbol: the way to its place, and for an unseen one its number among
      the unseen ones. */
  function Code(s: Shape, a: nat, c: nat): seq<bool>
    requires Tree(s, a) && (c in s.zeros || c in s.lab) && |s.lab| > 0
  {
    if c in s.zeros then Path(s, a, 0) + ToBits(PlaceOf(s.zeros, c), ZeroBits(|s.zeros|))
    else Path(s, a, PlaceOf(s.lab, c))
  }
}
