/** xdelta3-fgk.h: what promoting a node and adding one do to blocks and pointers. */
module FgkUpdate {
  import opened Bytes
  import opened FgkShape
  import opened FgkLinks

  predicate Sorted(w: seq<nat>) {
    forall i, j | 1 <= i <= j < |w| - 1 :: w[i] <= w[j]
  }

  // ------------------------------------------------------------- promotion

  /** fgk_promote on the last node of a block. */
  function PromotedLeader(block: seq<int>, leader: seq<int>, lab: seq<nat>, q: nat): (r: seq<int>)
    requires 1 <= q < |lab| && InRange(lab, |block|) && 0 <= block[lab[q]] < |leader|
  {
    if block[lab[q - 1]] == block[lab[q]] then leader[block[lab[q]] := lab[q - 1]] else leader
  }

  predicate JoinsNext(w: seq<nat>, q: nat) {
    q + 1 < |w| - 1 && w[q + 1] == w[q] + 1
  }

  /** A node that is not at the end of the block left behind leads its block as before. */
  lemma PromotedEnd(block: seq<int>, leader: seq<int>, lab: seq<nat>, w: seq<nat>, q: nat, i: nat)
    requires Blocks(block, leader, lab, w) && Sorted(w) && 2 <= q < |lab| - 1 && EndOfBlock(w, q)
    requires EndOfBlock(w[q := w[q] + 1], i) && i != q
    ensures 0 <= block[lab[i]] < |leader| && PromotedLeader(block, leader, lab, q)[block[lab[i]]] == lab[i]
  {
    assert block[lab[i]] == block[lab[q]] <==> w[i] == w[q];
    assert block[lab[q - 1]] == block[lab[q]] <==> w[q - 1] == w[q];
    if i != q - 1 || w[i] != w[q] {
      assert EndOfBlock(w, i);
      if i < q {
        EndBelow(w, i, q);
      } else {
        EndBelow(w, q, i);
      }
    }
  }

  lemma EndBelow(w: seq<nat>, i: nat, j: nat)
    requires Sorted(w) && EndOfBlock(w, i) && i < j < |w| - 1
    ensures w[i] < w[j]
  {
    assert w[i] <= w[i + 1] <= w[j];
  }

  lemma PromotedJoin(block: seq<int>, leader: seq<int>, lab: seq<nat>, w: seq<nat>, q: nat)
    requires Blocks(block, leader, lab, w) && Distinct(lab) && Sorted(w) && 2 <= q < |lab| - 1 && EndOfBlock(w, q)
    requires JoinsNext(w, q) && 0 <= block[lab[q]] < |leader|
    ensures Blocks(block[lab[q] := block[lab[q + 1]]], PromotedLeader(block, leader, lab, q), lab, w[q := w[q] + 1])
  {
    hide Sorted, Distinct, PromotedLeader;
    var w', block', leader' := w[q := w[q] + 1], block[lab[q] := block[lab[q + 1]]],
        PromotedLeader(block, leader, lab, q);
    assert |leader'| == |leader| by { PromotedSize(block, leader, lab, q); }
    forall i: nat | 1 <= i < |lab| - 1
      ensures block'[lab[i]] == block[lab[if i == q then q + 1 else i]] && w'[i] == w[if i == q then q + 1 else i]
    {
      PlaceKept(block, lab, q, block[lab[q + 1]], i);
    }
    forall i: nat | EndOfBlock(w', i) ensures leader'[block'[lab[i]]] == lab[i] {
      PromotedEnd(block, leader, lab, w, q, i);
    }
  }

  lemma PromotedSize(block: seq<int>, leader: seq<int>, lab: seq<nat>, q: nat)
    requires 1 <= q < |lab| && InRange(lab, |block|) && 0 <= block[lab[q]] < |leader|
    ensures |PromotedLeader(block, leader, lab, q)| == |leader|
  {
  }

  lemma PlaceKept(block: seq<int>, lab: seq<nat>, q: nat, b: int, i: nat)
    requires Distinct(lab) && InRange(lab, |block|) && q < |lab| && i < |lab|
    ensures block[lab[q] := b][lab[i]] == if i == q then b else block[lab[i]]
  {
  }

  /** Nothing else weighs what the node will. */
  lemma AloneWeighs(w: seq<nat>, q: nat, i: nat)
    requires Sorted(w) && 1 <= q < |w| - 1 && EndOfBlock(w, q) && !JoinsNext(w, q) && 1 <= i < |w| - 1 && i != q
    ensures w[i] != w[q] + 1
  {
    if i > q {
      assert w[q] <= w[q + 1] <= w[i];
    }
  }

  lemma PromotedAlone(block: seq<int>, leader: seq<int>, lab: seq<nat>, w: seq<nat>, q: nat)
    requires Blocks(block, leader, lab, w) && Distinct(lab) && Sorted(w) && 2 <= q < |lab| - 1 && EndOfBlock(w, q)
    requires !JoinsNext(w, q) && 0 <= block[lab[q]] < |leader|
    ensures Blocks(block[lab[q] := |leader|], PromotedLeader(block, leader, lab, q) + [lab[q]], lab, w[q := w[q] + 1])
  {
    hide Sorted, Distinct, PromotedLeader, JoinsNext;
    var w', block', most := w[q := w[q] + 1], block[lab[q] := |leader|], PromotedLeader(block, leader, lab, q);
    var leader' := most + [lab[q]];
    assert |most| == |leader| by { PromotedSize(block, leader, lab, q); }
    forall i: nat | 1 <= i < |lab| - 1
      ensures block'[lab[i]] == if i == q then |leader| else block[lab[i]]
      ensures i != q ==> w'[i] == w[i] && w[i] != w'[q]
    {
      PlaceKept(block, lab, q, |leader|, i);
      if i != q {
        AloneWeighs(w, q, i);
      }
    }
    forall i: nat | EndOfBlock(w', i) ensures leader'[block'[lab[i]]] == lab[i] {
      if i != q {
        PromotedEnd(block, leader, lab, w, q, i);
      }
    }
  }

  /** The parent of the unseen symbols and the node beside them go on together. */
  lemma PromotedBoth(block: seq<int>, leader: seq<int>, lab: seq<nat>, w: seq<nat>)
    requires Blocks(block, leader, lab, w) && Distinct(lab) && Sorted(w) && |lab| > 4
    requires w[1] == w[2] && w[3] != w[2]
    ensures var block' := if w[3] == w[2] + 1 then block[lab[2] := block[lab[3]]][lab[1] := block[lab[3]]] else block;
      Blocks(block', leader, lab, w[1 := w[1] + 1][2 := w[2] + 1])
  {
    hide Sorted, Distinct;
    var joins := w[3] == w[2] + 1;
    var block' := if joins then block[lab[2] := block[lab[3]]][lab[1] := block[lab[3]]] else block;
    var w' := w[1 := w[1] + 1][2 := w[2] + 1];
    forall i: nat | 1 <= i < |lab| - 1
      ensures block'[lab[i]] == block[lab[if joins && i < 3 then 3 else i]]
      ensures joins ==> w'[i] == w[if i < 3 then 3 else i]
      ensures !joins ==> (w'[i] == w'[1] <==> i < 3) && (i >= 3 ==> w[i] != w[1])
    {
      PlaceKept(block, lab, 2, block[lab[3]], i);
      PlaceKept(block[lab[2] := block[lab[3]]], lab, 1, block[lab[3]], i);
      BothBelow(w, i);
    }
    forall i: nat | EndOfBlock(w', i) ensures leader[block'[lab[i]]] == lab[i] {
      assert EndOfBlock(w, i);
    }
  }

  lemma BothBelow(w: seq<nat>, i: nat)
    requires Sorted(w) && |w| > 4 && w[1] == w[2] && w[3] != w[2] && 1 <= i < |w| - 1
    ensures i >= 3 ==> w[i] >= w[3] > w[2]
  {
  }

  /** Where fgk_promote does its work: at the end of a block, or at the parent of the unseen
      symbols when the node beside them has become heavier. */
  predicate Promotable(s: Shape, q: nat, now: seq<nat>) {
    && |now| == |s.w| && 1 <= q < |s.w| - 1
    && (q == 1 || (q == 2 && |s.w| > 4 && now == Heavier(s, 1).w && s.w[1] == s.w[2] && s.w[3] != s.w[2])
        || (q > 2 && now == s.w && EndOfBlock(s.w, q)))
    && (forall i | 2 <= i < |now| :: now[i] > 0)
  }

  // -------------------------------------------------------------- insertion

  /** The unseen symbols without the one at `j`. */
  function SplicedLeft(lc: seq<int>, zeros: seq<nat>, j: nat): (r: seq<int>)
    requires j < |zeros| && InRange(zeros, |lc|)
    ensures |r| == |lc|
  {
    if j + 1 == |zeros| then lc
    else lc[zeros[j + 1] := if j == 0 then NONE else zeros[j - 1]]
  }

  function SplicedRight(rc: seq<int>, zeros: seq<nat>, j: nat): (r: seq<int>)
    requires j < |zeros| && InRange(zeros, |rc|)
    ensures |r| == |rc|
  {
    if j == 0 then rc
    else rc[zeros[j - 1] := if j + 1 == |zeros| then NONE else zeros[j + 1]]
  }

  lemma {:induction false} GoneAt(zeros: seq<nat>, j: nat)
    requires j < |zeros| && Distinct(zeros)
    ensures Gone(zeros, zeros[j]) == zeros[..j] + zeros[j + 1..]
    decreases |zeros|
  {
    if j > 0 {
      GoneAt(zeros[1..], j - 1);
      assert zeros[1..][..j - 1] == zeros[1..j] && zeros[1..][j..] == zeros[j + 1..];
      assert [zeros[0]] + zeros[1..j] == zeros[..j];
    }
  }

  lemma SplicedAt(lc: seq<int>, rc: seq<int>, zeros: seq<nat>, j: nat, x: nat)
    requires InRange(zeros, |lc|) && InRange(zeros, |rc|) && Distinct(zeros) && j < |zeros| && x < |zeros| && x != j
    ensures SplicedLeft(lc, zeros, j)[zeros[x]]
         == if x == j + 1 then (if j == 0 then NONE else zeros[j - 1]) else lc[zeros[x]]
    ensures SplicedRight(rc, zeros, j)[zeros[x]]
         == if x + 1 == j then (if j + 1 == |zeros| then NONE else zeros[j + 1]) else rc[zeros[x]]
  {
  }

  /** The list of unseen symbols after one has been taken out. */
  lemma SplicedZeros(v: Ptrs, r: Ptrs, zeros: seq<nat>, j: nat)
    requires ZeroList(v, zeros) && Distinct(zeros) && j < |zeros| && |zeros| >= 2
    requires InRange(zeros, |v.leftChild|) && InRange(zeros, |v.rightChild|)
    requires |r.weight| == |v.weight| && |r.leftChild| == |v.leftChild| && |r.rightChild| == |v.rightChild|
    requires InRange(zeros, |v.weight|) && forall x: nat | x < |zeros|
        && x != j :: r.weight[zeros[x]] == v.weight[zeros[x]]
    requires forall x: nat | x < |zeros| && x != j :: SplicedTo(v, r, zeros, j, x)
    ensures ZeroList(r, zeros[..j] + zeros[j + 1..])
  {
    hide SplicedLeft, SplicedRight;
    var g := zeros[..j] + zeros[j + 1..];
    forall i: nat | i < |g| ensures ZeroAt(r, g, i)
    {
      var x: nat := if i < j then i else i + 1;
      assert ZeroAt(v, zeros, x);
      assert g[i] == zeros[x];
      assert i + 1 < |g| ==> g[i + 1] == zeros[if i + 1 < j then i + 1 else i + 2];
      assert i > 0 ==> g[i - 1] == zeros[if i - 1 < j then i - 1 else i];
      assert SplicedTo(v, r, zeros, j, x);
      SplicedAt(v.leftChild, v.rightChild, zeros, j, x);
    }
  }

  predicate SplicedTo(v: Ptrs, r: Ptrs, zeros: seq<nat>, j: nat, x: nat) {
    && j < |zeros| && x < |zeros| && InRange(zeros, |v.leftChild|) && InRange(zeros, |v.rightChild|)
    && |r.leftChild| == |v.leftChild| && |r.rightChild| == |v.rightChild|
    && r.leftChild[zeros[x]] == SplicedLeft(v.leftChild, zeros, j)[zeros[x]]
    && r.rightChild[zeros[x]] == SplicedRight(v.rightChild, zeros, j)[zeros[x]]
  }

  /** The order with the unseen symbols, the new one and their join in front. */
  function InFront(z: nat, c: nat, ni: nat, lab: seq<nat>): (t: seq<nat>)
    requires |lab| > 0
    ensures |t| == |lab| + 2 && t[0] == z && t[1] == c && t[2] == ni
    ensures forall i | 3 <= i < |t| :: t[i] == lab[i - 2]
  {
    [z, c, ni] + lab[1..]
  }

  lemma InsertedNeighbours(left: seq<int>, right: seq<int>, lab: seq<nat>, z: nat, c: nat, ni: nat)
    requires |lab| > 0 && Neighbours(left, right, lab) && Distinct(InFront(z, c, ni, lab))
    requires InRange(InFront(z, c, ni, lab), |left|) && InRange(InFront(z, c, ni, lab), |right|)
    requires z < |left| && c < |left| && ni < |left| && z < |right| && c < |right| && ni < |right|
    ensures var l1 := if |lab| > 1 then left[ni := c][lab[1] := ni][c := z] else left[ni := c][c := z];
      var r1 := right[ni := right[lab[0]]][c := ni][z := c];
      Neighbours(l1, r1, InFront(z, c, ni, lab))
  {
    var t := InFront(z, c, ni, lab);
    assert t[1] == c && t[0] == z && t[2] == ni;
    if |lab| > 1 {
      assert t[3] == lab[1];
    }
    hide InFront;
    var l1 := if |lab| > 1 then left[ni := c][lab[1] := ni][c := z] else left[ni := c][c := z];
    var r1 := right[ni := right[lab[0]]][c := ni][z := c];
    forall i | 1 <= i < |t| ensures l1[t[i]] == t[i - 1] {
      if i > 3 {
        assert t[i] == lab[i - 2] && t[i - 1] == lab[i - 3] && t[i] != t[3];
      }
    }
    forall i | 1 <= i < |t| ensures r1[t[i - 1]] == t[i] {
      if i > 3 {
        assert t[i] == lab[i - 2] && t[i - 1] == lab[i - 3];
      }
    }
  }

  lemma InsertedLabels(s: Shape, a: nat, c: nat)
    requires Good(s, a, -1) && c in s.zeros && |s.zeros| >= 2
    ensures var t := Inserted(s, a, c);
      |s.lab| > 0 && t.lab == InFront(t.zeros[0], c, a + |s.up|, s.lab) && Distinct(t.lab)
  {
    InsertedTree(s, a, c);
  }

  /** The pointers of the family after a node has been put in the place of the unseen ones. */
  predicate Adopted(parent: seq<int>, lc: seq<int>, rc: seq<int>, parent': seq<int>, lc': seq<int>, rc': seq<int>,
                    lab: seq<nat>, z: nat, c: nat, ni: nat) {
    && |lab| > 0 && |parent'| == |parent| && |lc'| == |lc| && |rc'| == |rc|
    && InRange(lab, |parent|) && InRange(lab, |lc|) && InRange(lab, |rc|)
    && z < |parent| && z < |lc| && z < |rc| && c < |parent| && c < |lc| && c < |rc| && ni < |parent| && ni < |lc|
        && ni < |rc|
    && InRange(InFront(z, c, ni, lab), |parent|) && InRange(InFront(z, c, ni, lab), |lc|)
        && InRange(InFront(z, c, ni, lab), |rc|)
    && parent'[z] == ni == parent'[c] && lc'[ni] == z && rc'[ni] == c && lc'[c] == NONE == rc'[c]
    && (forall i | 1 <= i < |lab| :: parent'[lab[i]] == parent[lab[i]])
    && (forall i | 1 <= i < |lab| && i != 2 :: lc'[lab[i]] == lc[lab[i]])
    && (forall i | 1 <= i < |lab| :: rc'[lab[i]] == rc[lab[i]])
    && (|lab| > 2 ==> parent'[ni] == lab[2] && lc'[lab[2]] == ni)
  }

  lemma InsertedFamily(parent: seq<int>, lc: seq<int>, rc: seq<int>, parent': seq<int>, lc': seq<int>, rc': seq<int>,
                       s: Shape, t: Shape, a: nat, c: nat)
    requires Tree(s, a) && Tree(t, a) && Family(parent, lc, rc, s, a) && |s.lab| > 0 && |t.zeros| > 0
    requires t.lab == InFront(t.zeros[0], c, a + |s.up|, s.lab) && |t.up| == |s.up| + 1 && t.up[0] == 2
    requires forall k | 0 <= k < |s.up| :: t.up[k + 1] == s.up[k] + 2
    requires Adopted(parent, lc, rc, parent', lc', rc', s.lab, t.zeros[0], c, a + |s.up|)
    ensures Family(parent', lc', rc', t, a)
  {
    forall k: nat | k < |t.up| ensures PairAt(parent', lc', rc', t, k) {
      InsertedPair(parent, lc, rc, parent', lc', rc', s, t, a, c, k);
    }
    forall i | 1 <= i < |t.lab| && t.lab[i] < a ensures lc'[t.lab[i]] == NONE == rc'[t.lab[i]] {
      if i > 2 {
        assert t.lab[i] == s.lab[i - 2];
        if i == 4 {
          assert s.up[0] == 2 && HasChildren(s, 2);
        }
      }
    }
  }

  lemma TreeSizes(s: Shape, a: nat)
    requires Tree(s, a)
    ensures |s.lab| == 2 * |s.up| + 1
  {
  }

  lemma InsertedPair(parent: seq<int>, lc: seq<int>, rc: seq<int>, parent': seq<int>, lc': seq<int>, rc': seq<int>,
                     s: Shape, t: Shape, a: nat, c: nat, k: nat)
    requires Tree(s, a) && Tree(t, a) && Family(parent, lc, rc, s, a) && |s.lab| > 0 && |t.zeros| > 0 && k < |t.up|
    requires t.lab == InFront(t.zeros[0], c, a + |s.up|, s.lab) && |t.up| == |s.up| + 1 && t.up[0] == 2
    requires forall k | 0 <= k < |s.up| :: t.up[k + 1] == s.up[k] + 2
    requires Adopted(parent, lc, rc, parent', lc', rc', s.lab, t.zeros[0], c, a + |s.up|)
    ensures PairAt(parent', lc', rc', t, k)
  {
    hide Tree, Family, InFront;
    var z, ni := t.zeros[0], a + |s.up|;
    assert t.lab[0] == z && t.lab[1] == c && t.lab[2] == ni;
    TreeSizes(s, a);
    TreeSizes(t, a);
    if k > 0 {
      OldPair(parent, lc, rc, s, t, a, c, k);
    }
  }

  lemma UpsAt(s: Shape, a: nat, k: nat)
    requires Tree(s, a) && k < |s.up|
    ensures |s.lab| == 2 * |s.up| + 1 && 2 * k + 1 < s.up[k] < |s.lab|
    ensures s.up[0] == 2 && (k > 0 ==> s.up[k] != 2)
  {
  }

  /** A pair there was before, one pair further on. */
  lemma OldPair(parent: seq<int>, lc: seq<int>, rc: seq<int>, s: Shape, t: Shape, a: nat, c: nat, k: nat)
    requires Tree(s, a) && Tree(t, a) && Family(parent, lc, rc, s, a) && |s.lab| > 0 && |t.zeros| > 0 && 0 < k < |t.up|
    requires t.lab == InFront(t.zeros[0], c, a + |s.up|, s.lab) && |t.up| == |s.up| + 1
    requires forall k | 0 <= k < |s.up| :: t.up[k + 1] == s.up[k] + 2
    ensures |s.lab| > 2 && 2 * k + 1 < |t.lab| && t.up[k] < |t.lab| && 2 <= s.up[k - 1] < |s.lab|
    ensures t.lab[t.up[k]] == s.lab[s.up[k - 1]] && t.lab[2 * k + 1] == s.lab[2 * k - 1]
    ensures k == 1 ==> s.up[0] == 2
    ensures k > 1 ==> t.lab[2 * k] == s.lab[2 * k - 2] && s.up[k - 1] != 2
    ensures PairAt(parent, lc, rc, s, k - 1)
  {
    hide Tree, Family, PairAt, InFront;
    PairOf(parent, lc, rc, s, a, k - 1);
    UpsAt(s, a, k - 1);
    TreeSizes(t, a);
  }

  /** The two new places join the block of weight one. */
  lemma InsertedJoins(block: seq<int>, leader: seq<int>, lab: seq<nat>, w: seq<nat>, z: nat, c: nat, ni: nat)
    requires |lab| >= 3 && Blocks(block, leader, lab, w) && (forall i | 1 <= i < |lab| :: w[i] > 0) && w[1] == 1
    requires Distinct(InFront(z, c, ni, lab)) && InRange(InFront(z, c, ni, lab), |block|) && c < |block| && ni < |block|
    requires lab[1] < |block|
    ensures Blocks(block[ni := block[lab[1]]][c := block[lab[1]]], leader, InFront(z, c, ni, lab), [0, 1, 1] + w[1..])
  {
    var t, w' := InFront(z, c, ni, lab), [0, 1, 1] + w[1..];
    var block' := block[ni := block[lab[1]]][c := block[lab[1]]];
    InsertedTail(block, lab, w, z, c, ni, block[lab[1]]);
    hide InFront;
    forall i: nat | EndOfBlock(w', i) ensures leader[block'[t[i]]] == t[i] {
      if i >= 3 {
        assert EndOfBlock(w, i - 2);
      }
    }
  }

  /** Or they make one. */
  lemma InsertedAlone(block: seq<int>, leader: seq<int>, lab: seq<nat>, w: seq<nat>, z: nat, c: nat, ni: nat)
    requires |lab| >= 3 && Blocks(block, leader, lab, w) && Sorted(w) && (forall i | 1 <= i < |lab| :: w[i] > 0)
        && w[1] != 1
    requires Distinct(InFront(z, c, ni, lab)) && InRange(InFront(z, c, ni, lab), |block|) && c < |block| && ni < |block|
    ensures Blocks(block[ni := |leader|][c := |leader|], leader + [ni], InFront(z, c, ni, lab), [0, 1, 1] + w[1..])
  {
    var t, w' := InFront(z, c, ni, lab), [0, 1, 1] + w[1..];
    var block', leader' := block[ni := |leader|][c := |leader|], leader + [ni];
    InsertedTail(block, lab, w, z, c, ni, |leader|);
    hide InFront;
    forall i: nat | EndOfBlock(w', i) ensures leader'[block'[t[i]]] == t[i] {
      if i >= 3 {
        assert EndOfBlock(w, i - 2);
      }
    }
  }

  lemma InsertedTail(block: seq<int>, lab: seq<nat>, w: seq<nat>, z: nat, c: nat, ni: nat, b: int)
    requires |lab| >= 3 && |w| == |lab| && Distinct(InFront(z, c, ni, lab)) && InRange(InFront(z, c, ni, lab), |block|)
    requires c < |block| && ni < |block|
    ensures var t, w' := InFront(z, c, ni, lab), [0, 1, 1] + w[1..];
      var block' := block[ni := b][c := b];
      && t[1] == c && t[2] == ni && block'[t[1]] == b == block'[t[2]] && |w'| == |t| && w'[1] == w'[2] == 1
      && forall i | 3 <= i < |t| :: t[i] == lab[i - 2] && w'[i] == w[i - 2] && t[i] < |block|
          && block'[t[i]] == block[t[i]]
  {
    var t := InFront(z, c, ni, lab);
    assert t[1] == c && t[2] == ni;
  }

  lemma InsertedWeighs(weight: seq<nat>, lab: seq<nat>, w: seq<nat>, z: nat, c: nat, ni: nat)
    requires Weights(weight, lab, w) && |lab| > 0 && Distinct(InFront(z, c, ni, lab))
        && InRange(InFront(z, c, ni, lab), |weight|)
    requires z < |weight| && c < |weight| && ni < |weight| && weight[z] == 0 && weight[c] == 0
    ensures Weights(weight[ni := 0], InFront(z, c, ni, lab), [0, 0, 0] + w[1..])
  {
    var t := InFront(z, c, ni, lab);
    assert t[0] == z && t[1] == c && t[2] == ni;
    forall i | 0 <= i < |t| ensures weight[ni := 0][t[i]] == ([0, 0, 0] + w[1..])[i] {
      if i >= 3 {
        assert t[i] == lab[i - 2] && t[i] != t[2];
      }
    }
  }

  /** What fgk_increase_zero_weight does to the pointers, but for the blocks. */
  ghost predicate Extended(v: Ptrs, r: Ptrs, s: Shape, z: nat, c: nat, ni: nat, j: nat) {
    && |s.lab| > 0 && Sizes(r, |v.weight|) && Sizes(v, |v.weight|) && InRange(s.lab, |v.weight|)
        && InRange(s.zeros, |v.weight|)
    && j < |s.zeros| && c < |v.weight| && z < |v.weight| && ni < |v.weight| && |s.lab| != 2
    && r.weight == v.weight[ni := 0]
    && r.left == (if |s.lab| > 1 then v.left[ni := c][s.lab[1] := ni][c := z] else v.left[ni := c][c := z])
    && r.right == v.right[ni := v.right[s.lab[0]]][c := ni][z := c]
    && r.parent == v.parent[ni := v.parent[s.lab[0]]][c := ni][z := ni]
    && r.leftChild == SplicedLeft(if |s.lab| > 1 then v.leftChild[s.lab[2] := ni] else v.leftChild, s.zeros, j)
        [ni := z][c := NONE]
    && r.rightChild == SplicedRight(v.rightChild[ni := c], s.zeros, j)[c := NONE]
  }

  /** Which of the nodes concerned are the same. */
  ghost predicate Numbers(s: Shape, t: Shape, a: nat, j: nat) {
    && a > 0 && j < |s.zeros| && t.zeros != [] && |s.lab| > 0
    && Tree(s, a) && Tree(t, a) && a + |s.up| < 2 * a - 1 && s.zeros[j] < a && t.zeros[0] < a
        && t.zeros[0] != s.zeros[j]
    && t.lab == InFront(t.zeros[0], s.zeros[j], a + |s.up|, s.lab) && Distinct(t.lab)
        && t.zeros == s.zeros[..j] + s.zeros[j + 1..]
    && (forall x | 0 <= x < |t.lab| :: t.lab[x] < 2 * a - 1)
    && (forall x | 0 <= x < |s.zeros| :: s.zeros[x] < a)
    && (forall x | 0 <= x < |s.lab| :: s.lab[x] != a + |s.up| && s.lab[x] < 2 * a - 1)
    && (forall x, y | 1 <= x < |s.lab| && 0 <= y < |s.zeros| :: s.lab[x] != s.zeros[y])
    && t.zeros[0] in s.zeros && (|s.lab| > 1 ==> |s.lab| > 2 && s.lab[2] >= a)
    && Distinct(s.zeros) && s.lab[0] == s.zeros[0] && Distinct(s.lab) && |t.up| == |s.up| + 1 && t.up[0] == 2
    && (forall k | 0 <= k < |s.up| :: t.up[k + 1] == s.up[k] + 2) && |s.w| == |s.lab| && t.w == [0, 1, 1] + s.w[1..]
    && (|s.up| > 0 ==> s.up[0] == 2) && |s.up| == |s.lab| / 2
  }

  lemma InsertedNumbers(s: Shape, a: nat, j: nat)
    requires Good(s, a, -1) && j < |s.zeros| && |s.zeros| >= 2 && InRange(s.lab, 2 * a - 1)
    ensures Numbers(s, Inserted(s, a, s.zeros[j]), a, j)
  {
    var c := s.zeros[j];
    var t := Inserted(s, a, c);
    InsertedTree(s, a, c);
    InsertedUnseen(s, a, c);
    InsertedLabels(s, a, c);
    GoneIs(s.zeros, c, t.zeros[0]);
    GoneAt(s.zeros, j);
    assert t.zeros[0] in t.zeros && t.zeros[0] == t.lab[0];
    if |s.lab| > 1 {
      assert HasChildren(s, 2) by { assert s.up[0] == 2; }
    }
  }

  lemma InsertedOrder(v: Ptrs, r: Ptrs, s: Shape, t: Shape, a: nat, j: nat)
    requires Numbers(s, t, a, j) && Sizes(v, 2 * a - 1) && Neighbours(v.left, v.right, s.lab)
    requires Extended(v, r, s, t.zeros[0], s.zeros[j], a + |s.up|, j)
    ensures Neighbours(r.left, r.right, t.lab)
  {
    hide Neighbours, Tree, InFront;
    InsertedNeighbours(v.left, v.right, s.lab, t.zeros[0], s.zeros[j], a + |s.up|);
  }

  lemma SplicedElsewhere(lc: seq<int>, rc: seq<int>, zeros: seq<nat>, j: nat, x: nat)
    requires j < |zeros| && InRange(zeros, |lc|) && InRange(zeros, |rc|) && x < |lc| && x < |rc|
    requires forall y | 0 <= y < |zeros| :: zeros[y] != x
    ensures SplicedLeft(lc, zeros, j)[x] == lc[x] && SplicedRight(rc, zeros, j)[x] == rc[x]
  {
  }

  lemma InsertedAdopted(v: Ptrs, r: Ptrs, s: Shape, t: Shape, a: nat, j: nat)
    requires Numbers(s, t, a, j) && Sizes(v, 2 * a - 1) && Family(v.parent, v.leftChild, v.rightChild, s, a)
    requires Extended(v, r, s, t.zeros[0], s.zeros[j], a + |s.up|, j)
    ensures Adopted(v.parent, v.leftChild, v.rightChild, r.parent, r.leftChild, r.rightChild, s.lab, t.zeros[0],
        s.zeros[j], a + |s.up|)
  {
    hide Tree, Family, Neighbours, Numbers, Extended, SplicedLeft, SplicedRight, KeptAt;
    AdoptedRange(v, r, s, t, a, j);
    UnseenParent(v, s, t, a, j);
    AdoptedNew(v, r, s, t, a, j);
    forall i: nat | 1 <= i < |s.lab| ensures KeptAt(v, r, s.lab[i], i == 2) {
      AdoptedAt(v, r, s, t, a, j, i);
    }
    forall i | 1 <= i < |s.lab|
      ensures r.parent[s.lab[i]] == v.parent[s.lab[i]] && r.rightChild[s.lab[i]] == v.rightChild[s.lab[i]]
      ensures i != 2 ==> r.leftChild[s.lab[i]] == v.leftChild[s.lab[i]]
    {
      KeptThere(v, r, s.lab[i], i == 2);
    }
  }

  lemma KeptThere(v: Ptrs, r: Ptrs, x: nat, second: bool)
    requires KeptAt(v, r, x, second) && x < |v.parent| && x < |v.leftChild| && x < |v.rightChild|
    requires |r.parent| == |v.parent| && |r.leftChild| == |v.leftChild| && |r.rightChild| == |v.rightChild|
    ensures r.parent[x] == v.parent[x] && r.rightChild[x] == v.rightChild[x]
        && (second || r.leftChild[x] == v.leftChild[x])
  {
  }

  /** The leaf of the unseen symbols hangs below the node two places on. */
  lemma UnseenParent(v: Ptrs, s: Shape, t: Shape, a: nat, j: nat)
    requires Numbers(s, t, a, j) && Family(v.parent, v.leftChild, v.rightChild, s, a)
    ensures |s.lab| > 1 ==> |s.lab| > 2 && |s.up| > 0 && s.up[0] == 2
    ensures |s.lab| > 1 ==> s.lab[0] < |v.parent| && v.parent[s.lab[0]] == s.lab[2]
  {
    if |s.lab| > 1 {
      hide Family, Distinct, InFront, Unseen;
      ParentOf(v.parent, v.leftChild, v.rightChild, s, a, 0);
    }
  }

  lemma AdoptedRange(v: Ptrs, r: Ptrs, s: Shape, t: Shape, a: nat, j: nat)
    requires Numbers(s, t, a, j) && Sizes(v, 2 * a - 1) && Extended(v, r, s, t.zeros[0], s.zeros[j], a + |s.up|, j)
    ensures a > 0 && |s.lab| > 0 && Sizes(r, 2 * a - 1) && InRange(s.lab, 2 * a - 1) && t.zeros != [] && j < |s.zeros|
    ensures t.zeros[0] < 2 * a - 1 && s.zeros[j] < 2 * a - 1 && a + |s.up| < 2 * a - 1
    ensures InRange(InFront(t.zeros[0], s.zeros[j], a + |s.up|, s.lab), 2 * a - 1)
  {
  }

  predicate KeptAt(v: Ptrs, r: Ptrs, x: nat, second: bool) {
    && x < |v.parent| && x < |r.parent| && x < |v.leftChild| && x < |r.leftChild| && x < |v.rightChild|
        && x < |r.rightChild|
    && r.parent[x] == v.parent[x] && r.rightChild[x] == v.rightChild[x] && (second || r.leftChild[x] == v.leftChild[x])
  }

  lemma AdoptedAt(v: Ptrs, r: Ptrs, s: Shape, t: Shape, a: nat, j: nat, i: nat)
    requires Numbers(s, t, a, j) && Sizes(v, 2 * a - 1) && Extended(v, r, s, t.zeros[0], s.zeros[j], a + |s.up|, j)
        && 1 <= i < |s.lab|
    ensures KeptAt(v, r, s.lab[i], i == 2)
  {
    hide Tree, SplicedLeft, SplicedRight, InFront;
    var x, c, z, ni := s.lab[i], s.zeros[j], t.zeros[0], a + |s.up|;
    var lc, rc := if |s.lab| > 1 then v.leftChild[s.lab[2] := ni] else v.leftChild, v.rightChild[ni := c];
    SplicedElsewhere(lc, rc, s.zeros, j, x);
    assert x != c && x != ni && x != z;
    assert i != 2 ==> x != s.lab[2];
  }

  lemma AdoptedNew(v: Ptrs, r: Ptrs, s: Shape, t: Shape, a: nat, j: nat)
    requires Numbers(s, t, a, j) && Sizes(v, 2 * a - 1) && Extended(v, r, s, t.zeros[0], s.zeros[j], a + |s.up|, j)
    requires |s.lab| > 1 ==> |s.up| > 0 && s.up[0] == 2 && v.parent[s.lab[0]] == s.lab[2]
    ensures var (z, c, ni) := (t.zeros[0], s.zeros[j], a + |s.up|);
      && r.parent[z] == ni == r.parent[c] && r.leftChild[ni] == z && r.rightChild[ni] == c
          && r.leftChild[c] == NONE == r.rightChild[c]
      && (|s.lab| > 2 ==> r.parent[ni] == s.lab[2] && r.leftChild[s.lab[2]] == ni)
  {
    hide Tree, SplicedLeft, SplicedRight, InFront;
    var c, z, ni := s.zeros[j], t.zeros[0], a + |s.up|;
    var lc, rc := if |s.lab| > 1 then v.leftChild[s.lab[2] := ni] else v.leftChild, v.rightChild[ni := c];
    SplicedElsewhere(lc, rc, s.zeros, j, ni);
    if |s.lab| > 2 {
      SplicedElsewhere(lc, rc, s.zeros, j, s.lab[2]);
      assert s.lab[2] != c && s.lab[2] != ni;
    }
  }

  /** The join is nowhere in the list of unseen symbols. */
  lemma StillZero(v: Ptrs, s: Shape, t: Shape, a: nat, j: nat, x: nat)
    requires Numbers(s, t, a, j) && Sizes(v, 2 * a - 1) && ZeroAt(v, s.zeros, x)
    ensures ZeroAt(v.(leftChild := if |s.lab| > 1 then v.leftChild[s.lab[2] := a + |s.up|] else v.leftChild,
                      rightChild := v.rightChild[a + |s.up| := s.zeros[j]]), s.zeros, x)
  {
    hide Tree, InFront, Distinct;
  }

  lemma ExtendedSizes(v: Ptrs, r: Ptrs, s: Shape, t: Shape, a: nat, j: nat)
    requires Numbers(s, t, a, j) && Sizes(v, 2 * a - 1)
    requires Extended(v, r, s, t.zeros[0], s.zeros[j], a + |s.up|, j)
    ensures Sizes(r, 2 * a - 1) && InRange(s.zeros, 2 * a - 1) && Distinct(s.zeros) && j < |s.zeros|
    ensures a + |s.up| < 2 * a - 1 && InRange(s.lab, 2 * a - 1) && |s.lab| != 2
    ensures t.zeros == s.zeros[..j] + s.zeros[j + 1..]
  {
    hide Tree, InFront, Distinct, SplicedLeft, SplicedRight;
  }

  lemma ExtendedAt(v: Ptrs, r: Ptrs, s: Shape, t: Shape, a: nat, j: nat, x: nat)
    requires Numbers(s, t, a, j) && Sizes(v, 2 * a - 1) && x < |s.zeros| && x != j
    requires Extended(v, r, s, t.zeros[0], s.zeros[j], a + |s.up|, j)
    ensures s.zeros[x] < |v.weight| == |r.weight| && r.weight[s.zeros[x]] == v.weight[s.zeros[x]]
    ensures SplicedTo(v.(leftChild := if |s.lab| > 1 then v.leftChild[s.lab[2] := a + |s.up|] else v.leftChild,
                         rightChild := v.rightChild[a + |s.up| := s.zeros[j]]), r, s.zeros, j, x)
  {
    hide Tree, InFront, SplicedLeft, SplicedRight;
    assert s.zeros[x] != s.zeros[j];
  }

  lemma InsertedList(v: Ptrs, r: Ptrs, s: Shape, t: Shape, a: nat, j: nat)
    requires Numbers(s, t, a, j) && Sizes(v, 2 * a - 1) && ZeroList(v, s.zeros) && |s.zeros| >= 2
    requires Extended(v, r, s, t.zeros[0], s.zeros[j], a + |s.up|, j)
    ensures ZeroList(r, t.zeros)
  {
    hide Tree, SplicedLeft, SplicedRight, InFront, ZeroAt, Numbers, Extended;
    ExtendedSizes(v, r, s, t, a, j);
    var u := v.(leftChild := if |s.lab| > 1 then v.leftChild[s.lab[2] := a + |s.up|] else v.leftChild,
                rightChild := v.rightChild[a + |s.up| := s.zeros[j]]);
    forall x: nat | x < |s.zeros| ensures ZeroAt(u, s.zeros, x) {
      assert ZeroAt(v, s.zeros, x);
      StillZero(v, s, t, a, j, x);
    }
    forall x: nat | x < |s.zeros| && x != j
      ensures SplicedTo(u, r, s.zeros, j, x) && r.weight[s.zeros[x]] == v.weight[s.zeros[x]]
    {
      ExtendedAt(v, r, s, t, a, j, x);
    }
    SplicedZeros(u, r, s.zeros, j);
  }

  lemma InsertedRepresents(v: Ptrs, r: Ptrs, s: Shape, t: Shape, a: nat, j: nat)
    requires Represents(v, s, a, s.w) && Numbers(s, t, a, j) && |s.zeros| >= 2 && |t.w| > 2
    requires Extended(v, r, s, t.zeros[0], s.zeros[j], a + |s.up|, j) && Blocks(r.block, r.leader, t.lab, t.w)
    ensures Represents(r, t, a, t.w[1 := 0][2 := 0])
  {
    hide Tree, Neighbours, Family, ZeroList, Blocks, Weights, Adopted, Numbers, Extended, InFront;
    RepresentsParts(v, s, a, s.w);
    InsertedOrder(v, r, s, t, a, j);
    InsertedAdopted(v, r, s, t, a, j);
    InsertedKin(v, r, s, t, a, j);
    InsertedList(v, r, s, t, a, j);
    InsertedNow(v, s, t, a, j);
    InsertedRange(v, r, s, t, a, j);
  }

  lemma InsertedKin(v: Ptrs, r: Ptrs, s: Shape, t: Shape, a: nat, j: nat)
    requires Numbers(s, t, a, j) && Family(v.parent, v.leftChild, v.rightChild, s, a)
    requires Adopted(v.parent, v.leftChild, v.rightChild, r.parent, r.leftChild, r.rightChild, s.lab, t.zeros[0],
        s.zeros[j], a + |s.up|)
    ensures Family(r.parent, r.leftChild, r.rightChild, t, a)
  {
    hide Tree, Family, Adopted, InFront;
    InsertedFamily(v.parent, v.leftChild, v.rightChild, r.parent, r.leftChild, r.rightChild, s, t, a, s.zeros[j]);
  }

  lemma InsertedNow(v: Ptrs, s: Shape, t: Shape, a: nat, j: nat)
    requires Numbers(s, t, a, j) && ZeroList(v, s.zeros) && Sizes(v, 2 * a - 1) && Weights(v.weight, s.lab, s.w)
    ensures |t.w| > 2 && a + |s.up| < |v.weight| && Weights(v.weight[a + |s.up| := 0], t.lab, t.w[1 := 0][2 := 0])
  {
    hide Tree, InFront;
    ZeroWeight(v, s, t, a, j);
    InsertedWeighs(v.weight, s.lab, s.w, t.zeros[0], s.zeros[j], a + |s.up|);
    assert t.w[1 := 0][2 := 0] == [0, 0, 0] + s.w[1..];
  }

  lemma InsertedRange(v: Ptrs, r: Ptrs, s: Shape, t: Shape, a: nat, j: nat)
    requires Numbers(s, t, a, j) && Sizes(v, 2 * a - 1) && Extended(v, r, s, t.zeros[0], s.zeros[j], a + |s.up|, j)
    ensures Sizes(r, 2 * a - 1) && InRange(t.lab, 2 * a - 1) && r.weight == v.weight[a + |s.up| := 0]
  {
  }

  lemma ZeroWeight(v: Ptrs, s: Shape, t: Shape, a: nat, j: nat)
    requires Numbers(s, t, a, j) && ZeroList(v, s.zeros) && Sizes(v, 2 * a - 1)
    ensures v.weight[t.zeros[0]] == 0 && v.weight[s.zeros[j]] == 0
    ensures InRange(InFront(t.zeros[0], s.zeros[j], a + |s.up|, s.lab), 2 * a - 1)
  {
    assert ZeroAt(v, s.zeros, j);
    var k :| 0 <= k < |s.zeros| && s.zeros[k] == t.zeros[0];
    assert ZeroAt(v, s.zeros, k);
  }

  lemma RepresentsParts(v: Ptrs, s: Shape, a: nat, now: seq<nat>)
    requires Represents(v, s, a, now)
    ensures a > 0 && Sizes(v, 2 * a - 1) && InRange(s.lab, 2 * a - 1) && |now| == |s.lab|
    ensures Neighbours(v.left, v.right, s.lab) && Family(v.parent, v.leftChild, v.rightChild, s, a)
    ensures ZeroList(v, s.zeros) && Blocks(v.block, v.leader, s.lab, s.w) && Weights(v.weight, s.lab, now)
  {
  }
}
