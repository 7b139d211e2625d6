/**
  xdelta3-fgk.h: the pointers that make up the tree, the order and the blocks, and what
  they say about it.  Nodes are numbered; -1 is no node.
 */
module FgkLinks {
  import opened Bytes
  import opened FgkShape

  const NONE: int := -1

  datatype Ptrs = Ptrs(weight: seq<nat>, parent: seq<int>, leftChild: seq<int>, rightChild: seq<int>,
                       left: seq<int>, right: seq<int>, block: seq<int>, leader: seq<int>)

  predicate Sizes(v: Ptrs, total: nat) {
    |v.weight| == |v.parent| == |v.leftChild| == |v.rightChild| == |v.left| == |v.right| == |v.block| == total
  }

  predicate InRange(lab: seq<nat>, total: nat) {
    forall i | 0 <= i < |lab| :: lab[i] < total
  }

  /** Neighbours in the order. */
  predicate Neighbours(left: seq<int>, right: seq<int>, lab: seq<nat>) {
    && InRange(lab, |left|) && InRange(lab, |right|)
    && (forall i | 1 <= i < |lab| :: left[lab[i]] == lab[i - 1])
    && forall i | 1 <= i < |lab| :: right[lab[i - 1]] == lab[i]
  }

  /** Parents and children. */
  predicate PairAt(parent: seq<int>, leftChild: seq<int>, rightChild: seq<int>, s: Shape, k: nat) {
    && k < |s.up| && 2 * k + 1 < |s.lab| && s.up[k] < |s.lab|
    && s.lab[2 * k] < |parent| && s.lab[2 * k + 1] < |parent|
    && s.lab[s.up[k]] < |leftChild| && s.lab[s.up[k]] < |rightChild|
    && parent[s.lab[2 * k]] == s.lab[s.up[k]] == parent[s.lab[2 * k + 1]]
    && leftChild[s.lab[s.up[k]]] == s.lab[2 * k] && rightChild[s.lab[s.up[k]]] == s.lab[2 * k + 1]
  }

  predicate Family(parent: seq<int>, leftChild: seq<int>, rightChild: seq<int>, s: Shape, a: nat) {
    && InRange(s.lab, |parent|) && InRange(s.lab, |leftChild|) && InRange(s.lab, |rightChild|)
    && (forall k: nat | k < |s.up| :: PairAt(parent, leftChild, rightChild, s, k))
    && forall i | 1 <= i < |s.lab| && s.lab[i] < a :: leftChild[s.lab[i]] == NONE == rightChild[s.lab[i]]
  }

  /** The unseen symbols, linked through their child pointers. */
  predicate ZeroList(v: Ptrs, zeros: seq<nat>) {
    forall j: nat | j < |zeros| :: ZeroAt(v, zeros, j)
  }

  predicate ZeroAt(v: Ptrs, zeros: seq<nat>, j: nat) {
    && j < |zeros| && zeros[j] < |v.weight| && zeros[j] < |v.leftChild| && zeros[j] < |v.rightChild|
    && v.weight[zeros[j]] == 0
    && v.leftChild[zeros[j]] == (if j == 0 then NONE else zeros[j - 1])
    && v.rightChild[zeros[j]] == if j + 1 == |zeros| then NONE else zeros[j + 1]
  }

  /** The end of a block: the next place weighs more, or is the root. */
  predicate EndOfBlock(w: seq<nat>, i: nat) {
    1 <= i < |w| - 1 && (i + 1 < |w| - 1 ==> w[i + 1] != w[i])
  }

  /** One block for each weight, but for the root, led by its last node. */
  ghost predicate Blocks(block: seq<int>, leader: seq<int>, lab: seq<nat>, w: seq<nat>) {
    && |w| == |lab| && InRange(lab, |block|)
    && (forall i | 1 <= i < |lab| - 1 :: 0 <= block[lab[i]] < |leader|)
    && (forall i, j | 1 <= i < |lab| - 1 && 1 <= j < |lab| - 1 :: block[lab[i]] == block[lab[j]] <==> w[i] == w[j])
    && forall i: nat | EndOfBlock(w, i) :: leader[block[lab[i]]] == lab[i]
  }

  predicate Weights(weight: seq<nat>, lab: seq<nat>, now: seq<nat>) {
    |now| == |lab| && InRange(lab, |weight|) && forall i | 0 <= i < |lab| :: weight[lab[i]] == now[i]
  }

  /** The pointers say what the shape is; the weights may lag behind those of the shape. */
  ghost predicate Represents(v: Ptrs, s: Shape, a: nat, now: seq<nat>) {
    && a > 0 && Sizes(v, 2 * a - 1) && InRange(s.lab, 2 * a - 1)
    && Neighbours(v.left, v.right, s.lab) && Family(v.parent, v.leftChild, v.rightChild, s, a) && ZeroList(v, s.zeros)
    && Blocks(v.block, v.leader, s.lab, s.w) && Weights(v.weight, s.lab, now)
  }

  // ----------------------------------------------------------- trading places

  /** The order with two nodes exchanged, as the program rewires it. */
  function NewLeft(left: seq<int>, lab: seq<nat>, p: nat, q: nat): (r: seq<int>)
    requires InRange(lab, |left|) && 1 <= p < q < |lab| - 1
    ensures |r| == |left|
  {
    var x, y := lab[p], lab[q];
    var l1 := left[lab[q + 1] := x];
    if q == p + 1 then l1[y := lab[p - 1]][x := y]
    else l1[lab[p + 1] := y][y := lab[p - 1]][x := lab[q - 1]]
  }

  function NewRight(right: seq<int>, lab: seq<nat>, p: nat, q: nat): (r: seq<int>)
    requires InRange(lab, |right|) && 1 <= p < q < |lab| - 1
    ensures |r| == |right|
  {
    var x, y := lab[p], lab[q];
    var r1 := right[lab[p - 1] := y][x := lab[q + 1]];
    if q == p + 1 then r1[y := x]
    else r1[y := lab[p + 1]][lab[q - 1] := x]
  }

  lemma NewNeighbours(left: seq<int>, right: seq<int>, lab: seq<nat>, p: nat, q: nat)
    requires Neighbours(left, right, lab) && Distinct(lab) && 1 <= p < q < |lab| - 1
    ensures Neighbours(NewLeft(left, lab, p, q), NewRight(right, lab, p, q), lab[p := lab[q]][q := lab[p]])
  {
    var r := lab[p := lab[q]][q := lab[p]];
    var l', r' := NewLeft(left, lab, p, q), NewRight(right, lab, p, q);
    forall i | 1 <= i < |r| ensures l'[r[i]] == r[i - 1] {
      NewLeftAt(left, right, lab, p, q, i);
    }
    forall i | 1 <= i < |r| ensures r'[r[i - 1]] == r[i] {
      NewRightAt(left, right, lab, p, q, i);
    }
  }

  lemma NewLeftAt(left: seq<int>, right: seq<int>, lab: seq<nat>, p: nat, q: nat, i: nat)
    requires Neighbours(left, right, lab) && Distinct(lab) && 1 <= p < q < |lab| - 1 && 1 <= i < |lab|
    ensures var r := lab[p := lab[q]][q := lab[p]]; NewLeft(left, lab, p, q)[r[i]] == r[i - 1]
  {
  }

  lemma NewRightAt(left: seq<int>, right: seq<int>, lab: seq<nat>, p: nat, q: nat, i: nat)
    requires Neighbours(left, right, lab) && Distinct(lab) && 1 <= p < q < |lab| - 1 && 1 <= i < |lab|
    ensures var r := lab[p := lab[q]][q := lab[p]]; NewRight(right, lab, p, q)[r[i - 1]] == r[i]
  {
  }

  /** The child pointers with two nodes exchanged below their parents. */
  function NewChildren(child: seq<int>, s: Shape, p: nat, q: nat, odd: nat): (r: seq<int>)
    requires InRange(s.lab, |child|) && p / 2 < |s.up| && q / 2 < |s.up| && p < |s.lab| && q < |s.lab|
    requires s.up[p / 2] < |s.lab| && s.up[q / 2] < |s.lab|
    ensures |r| == |child|
  {
    var c := if p % 2 == odd then child[s.lab[s.up[p / 2]] := s.lab[q]] else child;
    if q % 2 == odd then c[s.lab[s.up[q / 2]] := s.lab[p]] else c
  }

  function NewParent(parent: seq<int>, x: nat, y: nat): (r: seq<int>)
    requires x < |parent| && y < |parent|
    ensures |r| == |parent|
  {
    parent[x := parent[y]][y := parent[x]]
  }

  /** The pointers after fgk_move_right has exchanged places `p` and `q`. */
  function Moved(v: Ptrs, s: Shape, a: nat, p: nat, q: nat): (r: Ptrs)
    requires a > 0 && Tree(s, a) && Sizes(v, 2 * a - 1) && InRange(s.lab, 2 * a - 1) && 1 <= p < q < |s.lab| - 1
    requires 0 <= v.block[s.lab[p]] < |v.leader|
  {
    var x, y := s.lab[p], s.lab[q];
    Ptrs(v.weight, NewParent(v.parent, x, y),
         NewChildren(v.leftChild, s, p, q, 0), NewChildren(v.rightChild, s, p, q, 1),
         NewLeft(v.left, s.lab, p, q), NewRight(v.right, s.lab, p, q), v.block, v.leader[v.block[x] := x])
  }

  lemma ParentIsJoin(s: Shape, a: nat, p: nat)
    requires Tree(s, a) && p < |s.lab| - 1
    ensures p / 2 < |s.up| && s.up[p / 2] < |s.lab| && s.lab[s.up[p / 2]] >= a
  {
    assert s.up[p / 2] < |s.lab|;
    assert HasChildren(s, s.up[p / 2]);
  }

  /** The parent and the children of a place, in the pointers. */
  lemma ParentOf(parent: seq<int>, lc: seq<int>, rc: seq<int>, s: Shape, a: nat, i: nat)
    requires Tree(s, a) && Family(parent, lc, rc, s, a) && i < |s.lab| - 1
    ensures i / 2 < |s.up| && s.up[i / 2] < |s.lab| && s.lab[i] < |parent| && parent[s.lab[i]] == s.lab[s.up[i / 2]]
  {
    assert PairAt(parent, lc, rc, s, i / 2);
    assert i == 2 * (i / 2) || i == 2 * (i / 2) + 1;
  }

  lemma MovedParent(parent: seq<int>, lc: seq<int>, rc: seq<int>, s: Shape, a: nat, p: nat, q: nat, i: nat)
    requires Tree(s, a) && p < q < |s.lab| - 1 && i < |s.lab| - 1 && Family(parent, lc, rc, s, a)
    requires s.lab[p] < |parent| && s.lab[q] < |parent|
    ensures var t := Swapped(s, p, q);
      t.lab[i] < |parent| && i / 2 < |s.up| && s.up[i / 2] < |s.lab|
      && NewParent(parent, s.lab[p], s.lab[q])[t.lab[i]] == s.lab[s.up[i / 2]]
  {
    ParentOf(parent, lc, rc, s, a, i);
    ParentOf(parent, lc, rc, s, a, p);
    ParentOf(parent, lc, rc, s, a, q);
    assert Distinct(s.lab);
    hide Tree, Family;
  }

  lemma UpLabel(s: Shape, a: nat, p: nat, q: nat, k: nat)
    requires Tree(s, a) && p < |s.lab| && q < |s.lab| && k < |s.up|
    ensures var t := Swapped(s, p, q);
      s.up[k] < |s.lab| && t.up[k] < |t.lab| && 2 * k + 1 < |s.lab| - 1 && t.lab[t.up[k]] == s.lab[s.up[k]]
  {
    assert 2 * k + 1 < s.up[k];
  }

  /** One child pointer after the exchange. */
  lemma MovedChild(child: seq<int>, s: Shape, a: nat, p: nat, q: nat, odd: nat, k: nat)
    requires Tree(s, a) && p < q < |s.lab| - 1 && k < |s.up| && odd < 2 && InRange(s.lab, |child|)
    requires p / 2 < |s.up| && q / 2 < |s.up| && s.up[p / 2] < |s.lab| && s.up[q / 2] < |s.lab|
    requires s.up[k] < |s.lab| && 2 * k + odd < |s.lab| && child[s.lab[s.up[k]]] == s.lab[2 * k + odd]
    ensures NewChildren(child, s, p, q, odd)[s.lab[s.up[k]]] == Swapped(s, p, q).lab[2 * k + odd]
  {
    assert p == 2 * k + odd <==> p / 2 == k && p % 2 == odd;
    assert q == 2 * k + odd <==> q / 2 == k && q % 2 == odd;
    assert p / 2 != k ==> s.up[p / 2] != s.up[k] && s.lab[s.up[p / 2]] != s.lab[s.up[k]];
    assert q / 2 != k ==> s.up[q / 2] != s.up[k] && s.lab[s.up[q / 2]] != s.lab[s.up[k]];
    hide Tree;
  }

  lemma MovedPair(parent: seq<int>, lc: seq<int>, rc: seq<int>, s: Shape, a: nat, p: nat, q: nat, k: nat)
    requires Tree(s, a) && p < q < |s.lab| - 1 && k < |s.up| && Family(parent, lc, rc, s, a)
    requires p / 2 < |s.up| && q / 2 < |s.up| && s.up[p / 2] < |s.lab| && s.up[q / 2] < |s.lab|
    requires s.lab[p] < |parent| && s.lab[q] < |parent| && InRange(s.lab, |lc|) && InRange(s.lab, |rc|)
        && InRange(s.lab, |parent|)
    ensures PairAt(NewParent(parent, s.lab[p], s.lab[q]), NewChildren(lc, s, p, q, 0), NewChildren(rc, s, p, q, 1),
        Swapped(s, p, q), k)
  {
    hide NewParent, NewChildren, Swapped, Tree, Family;
    UpLabel(s, a, p, q, k);
    PairOf(parent, lc, rc, s, a, k);
    MovedParent(parent, lc, rc, s, a, p, q, 2 * k);
    MovedParent(parent, lc, rc, s, a, p, q, 2 * k + 1);
    MovedChild(lc, s, a, p, q, 0, k);
    MovedChild(rc, s, a, p, q, 1, k);
  }

  lemma PairOf(parent: seq<int>, lc: seq<int>, rc: seq<int>, s: Shape, a: nat, k: nat)
    requires Family(parent, lc, rc, s, a) && k < |s.up|
    ensures PairAt(parent, lc, rc, s, k)
  {
  }

  lemma MovedFamily(parent: seq<int>, lc: seq<int>, rc: seq<int>, s: Shape, a: nat, p: nat, q: nat)
    requires Tree(s, a) && 1 <= p < q < |s.lab| - 1 && Family(parent, lc, rc, s, a)
    requires p / 2 < |s.up| && q / 2 < |s.up| && s.up[p / 2] < |s.lab| && s.up[q / 2] < |s.lab|
    ensures Family(NewParent(parent, s.lab[p], s.lab[q]), NewChildren(lc, s, p, q, 0), NewChildren(rc, s, p, q, 1),
        Swapped(s, p, q), a)
  {
    hide NewParent, NewChildren;
    var t := Swapped(s, p, q);
    var parent', lc', rc' := NewParent(parent, s.lab[p], s.lab[q]), NewChildren(lc, s, p, q, 0),
        NewChildren(rc, s, p, q, 1);
    forall k: nat | k < |t.up| ensures PairAt(parent', lc', rc', t, k) {
      MovedPair(parent, lc, rc, s, a, p, q, k);
    }
    forall i | 1 <= i < |t.lab| && t.lab[i] < a ensures lc'[t.lab[i]] == NONE == rc'[t.lab[i]] {
      assert t.lab[i] == s.lab[Exchanged(i, p, q)];
      ChildrenKept(lc, s, a, p, q, 0, t.lab[i]);
      ChildrenKept(rc, s, a, p, q, 1, t.lab[i]);
    }
  }

  /** Symbols keep what they have in the child pointers. */
  lemma ChildrenKept(child: seq<int>, s: Shape, a: nat, p: nat, q: nat, odd: nat, x: nat)
    requires Tree(s, a) && p < q < |s.lab| - 1 && InRange(s.lab, |child|) && x < a && x < |child|
    requires p / 2 < |s.up| && q / 2 < |s.up| && s.up[p / 2] < |s.lab| && s.up[q / 2] < |s.lab|
    ensures NewChildren(child, s, p, q, odd)[x] == child[x]
  {
    ParentIsJoin(s, a, p);
    ParentIsJoin(s, a, q);
  }

  lemma MovedBlocks(block: seq<int>, leader: seq<int>, lab: seq<nat>, w: seq<nat>, p: nat, q: nat)
    requires Blocks(block, leader, lab, w) && Distinct(lab) && 1 <= p < q < |lab| - 1 && EndOfBlock(w, q)
    requires forall j | p <= j <= q :: w[j] == w[p]
    ensures Blocks(block, leader[block[lab[p]] := lab[p]], lab[p := lab[q]][q := lab[p]], w)
  {
    var r := lab[p := lab[q]][q := lab[p]];
    assert w[p + 1] == w[p] && block[lab[p]] == block[lab[q]];
    assert forall i | 1 <= i < |lab| - 1 :: block[r[i]] == block[lab[i]];
  }

  lemma MovedRepresents(v: Ptrs, s: Shape, a: nat, p: nat, q: nat)
    requires Tree(s, a) && Unseen(s, a) && Represents(v, s, a, s.w) && 1 <= p < q < |s.lab| - 1 && EndOfBlock(s.w, q)
    requires forall j | p <= j <= q :: s.w[j] == s.w[p]
    ensures Represents(Moved(v, s, a, p, q), Swapped(s, p, q), a, s.w)
  {
    hide NewLeft, NewRight, NewParent, NewChildren, Neighbours, Family, Blocks, Tree, Unseen;
    var t := Swapped(s, p, q);
    BlockOf(v.block, v.leader, s.lab, s.w, p);
    ParentIsJoin(s, a, p);
    ParentIsJoin(s, a, q);
    assert Distinct(s.lab) && (forall j | 0 <= j < |s.zeros| :: s.zeros[j] < a) by { ShapeFacts(s, a); }
    NewNeighbours(v.left, v.right, s.lab, p, q);
    MovedFamily(v.parent, v.leftChild, v.rightChild, s, a, p, q);
    MovedBlocks(v.block, v.leader, s.lab, s.w, p, q);
    MovedZeros(v, Moved(v, s, a, p, q), s, a, p, q);
    MovedWeights(v.weight, s, p, q);
  }

  lemma ShapeFacts(s: Shape, a: nat)
    requires Tree(s, a) && Unseen(s, a)
    ensures Distinct(s.lab) && (forall j | 0 <= j < |s.zeros| :: s.zeros[j] < a)
  {
  }

  lemma MovedWeights(weight: seq<nat>, s: Shape, p: nat, q: nat)
    requires Weights(weight, s.lab, s.w) && p < |s.lab| && q < |s.lab| && s.w[p] == s.w[q]
    ensures Weights(weight, Swapped(s, p, q).lab, s.w) && InRange(Swapped(s, p, q).lab, |weight|)
  {
    assert forall i | 0 <= i < |s.lab| :: Swapped(s, p, q).lab[i] == s.lab[Exchanged(i, p, q)];
  }

  lemma MovedZeros(v: Ptrs, r: Ptrs, s: Shape, a: nat, p: nat, q: nat)
    requires Tree(s, a) && p < q < |s.lab| - 1 && InRange(s.lab, |v.leftChild|) && InRange(s.lab, |v.rightChild|)
    requires p / 2 < |s.up| && q / 2 < |s.up| && s.up[p / 2] < |s.lab| && s.up[q / 2] < |s.lab|
    requires ZeroList(v, s.zeros) && forall j | 0 <= j < |s.zeros| :: s.zeros[j] < a
    requires r.weight == v.weight && r.leftChild == NewChildren(v.leftChild, s, p, q, 0)
        && r.rightChild == NewChildren(v.rightChild, s, p, q, 1)
    ensures ZeroList(r, s.zeros)
  {
    hide NewChildren, Tree;
    forall j: nat | j < |s.zeros|
      ensures ZeroAt(r, s.zeros, j)
    {
      assert ZeroAt(v, s.zeros, j);
      ChildrenKept(v.leftChild, s, a, p, q, 0, s.zeros[j]);
      ChildrenKept(v.rightChild, s, a, p, q, 1, s.zeros[j]);
    }
  }

  lemma BlockOf(block: seq<int>, leader: seq<int>, lab: seq<nat>, w: seq<nat>, i: nat)
    requires Blocks(block, leader, lab, w) && 1 <= i < |lab| - 1
    ensures lab[i] < |block| && 0 <= block[lab[i]] < |leader|
    ensures EndOfBlock(w, i) ==> leader[block[lab[i]]] == lab[i]
  {
  }
}
