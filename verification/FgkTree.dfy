/** xdelta3-fgk.h: the tree of the adaptive code, as the program keeps it. */
module FgkTree {
  import opened Bytes
  import opened Binary
  import opened FgkShape
  import opened FgkLinks
  import opened FgkUpdate
  import opened FgkStage

  datatype Node = Node(weight: nat, parent: int, leftChild: int, rightChild: int, left: int, right: int, block: int)

  /** The fields of all nodes, one by one. */
  function Fields(nodes: seq<Node>, leader: seq<int>): (v: Ptrs)
    ensures Sizes(v, |nodes|) && v.leader == leader
  {
    Ptrs(seq(|nodes|, i requires 0 <= i < |nodes| => nodes[i].weight),
         seq(|nodes|, i requires 0 <= i < |nodes| => nodes[i].parent),
         seq(|nodes|, i requires 0 <= i < |nodes| => nodes[i].leftChild),
         seq(|nodes|, i requires 0 <= i < |nodes| => nodes[i].rightChild),
         seq(|nodes|, i requires 0 <= i < |nodes| => nodes[i].left),
         seq(|nodes|, i requires 0 <= i < |nodes| => nodes[i].right),
         seq(|nodes|, i requires 0 <= i < |nodes| => nodes[i].block), leader)
  }

  class Fgk {
    const a: nat
    const node: array<Node>
    var leader: seq<int>
    var root: int
    var zeros: int
    var freeNode: int
    var count: nat
    var exp: nat
    var rem: nat
    ghost var shape: Shape

    /** fgk_alloc and fgk_init */
    constructor (size: nat)
      requires size >= 2
      ensures Valid() && a == size && shape == FirstShape(size) && fresh(node)
    {
      hide Pow2;
      a := size;
      node := new Node[2 * size - 1](i => InitNode(i, size));
      leader, root, zeros, freeNode, shape := [], 0, 0, size, FirstShape(size);
      count := size + 1;
      exp, rem := 0, 0;
      new;
      FactorRemaining();
      FirstValid(node[..], size);
    }

    ghost function View(): Ptrs
      reads this, node
    {
      Fields(node[..], leader)
    }

    /** Between two symbols, while some symbol is unseen. */
    ghost predicate Valid()
      reads this, node
    {
      Around(shape, shape.w) && Good(shape, a, -1) && Counted(|shape.zeros|) && freeNode == a + |shape.up|
    }

    method SetLeft(x: int, y: int)
      requires 0 <= x < node.Length
      modifies node
      ensures View() == old(View()).(left := old(View()).left[x := y])
    {
      node[x] := node[x].(left := y);
      OneField(old(node[..]), node[..], x, leader);
    }

    method SetRight(x: int, y: int)
      requires 0 <= x < node.Length
      modifies node
      ensures View() == old(View()).(right := old(View()).right[x := y])
    {
      node[x] := node[x].(right := y);
      OneField(old(node[..]), node[..], x, leader);
    }

    method SetParent(x: int, y: int)
      requires 0 <= x < node.Length
      modifies node
      ensures View() == old(View()).(parent := old(View()).parent[x := y])
    {
      node[x] := node[x].(parent := y);
      OneField(old(node[..]), node[..], x, leader);
    }

    method SetLeftChild(x: int, y: int)
      requires 0 <= x < node.Length
      modifies node
      ensures View() == old(View()).(leftChild := old(View()).leftChild[x := y])
    {
      node[x] := node[x].(leftChild := y);
      OneField(old(node[..]), node[..], x, leader);
    }

    method SetRightChild(x: int, y: int)
      requires 0 <= x < node.Length
      modifies node
      ensures View() == old(View()).(rightChild := old(View()).rightChild[x := y])
    {
      node[x] := node[x].(rightChild := y);
      OneField(old(node[..]), node[..], x, leader);
    }

    method SetBlock(x: int, y: int)
      requires 0 <= x < node.Length
      modifies node
      ensures View() == old(View()).(block := old(View()).block[x := y])
    {
      node[x] := node[x].(block := y);
      OneField(old(node[..]), node[..], x, leader);
    }

    method SetWeight(x: int, w: nat)
      requires 0 <= x < node.Length
      modifies node
      ensures View() == old(View()).(weight := old(View()).weight[x := w])
    {
      node[x] := node[x].(weight := w);
      OneField(old(node[..]), node[..], x, leader);
    }

    /** fgk_make_block */
    method MakeBlock(lead: int)
      requires 0 <= lead < node.Length
      modifies this`leader, node
      ensures View() == old(View()).(block := old(View()).block[lead := |old(leader)|], leader := old(leader) + [lead])
      ensures leader == old(leader) + [lead]
    {
      hide Fields;
      LeaderField(node[..], leader, leader + [lead]);
      leader := leader + [lead];
      SetBlock(lead, |leader| - 1);
    }

    lemma Reads(x: int)
      requires 0 <= x < node.Length
      ensures var v := View();
        node[x] == Node(v.weight[x], v.parent[x], v.leftChild[x], v.rightChild[x], v.left[x], v.right[x], v.block[x])
    {
    }

    /** The exchange of two nodes in the order: the part of fgk_move_right on neighbours. */
    method Relink(x: int, y: int, ghost lab: seq<nat>, ghost p: nat, ghost q: nat)
      requires InRange(lab, node.Length) && Distinct(lab) && 1 <= p < q < |lab| - 1 && x == lab[p] && y == lab[q]
      requires Neighbours(View().left, View().right, lab)
      modifies node
      ensures View() == old(View()).(left := NewLeft(old(View().left), lab, p, q),
          right := NewRight(old(View().right), lab, p, q))
    {
      hide Neighbours, Fields;
      ghost var v := View();
      PlacesAround(v.left, v.right, lab, p, q);
      Reads(x);
      Reads(y);
      SetLeft(node[y].right, x);
      if node[x].left != NONE {
        Reads(x);
        SetRight(node[x].left, y);
      }
      Reads(x);
      Reads(y);
      var tmp := node[x].right;
      SetRight(x, node[y].right);
      if tmp == y {
        SetRight(y, x);
      } else {
        SetLeft(tmp, y);
        SetRight(y, tmp);
      }
      Reads(x);
      Reads(y);
      tmp := node[y].left;
      SetLeft(y, node[x].left);
      if tmp == x {
        SetLeft(x, y);
      } else {
        SetRight(tmp, x);
        SetLeft(x, tmp);
      }
    }

    /** The exchange of two nodes below their parents: the rest of fgk_move_right. */
    method Reparent(x: int, y: int, ghost s: Shape, ghost p: nat, ghost q: nat)
      requires Tree(s, a) && InRange(s.lab, node.Length) && 1 <= p < q < |s.lab| - 1 && x == s.lab[p] && y == s.lab[q]
      requires Family(View().parent, View().leftChild, View().rightChild, s, a)
      modifies node
      ensures View() == old(View()).(parent := NewParent(old(View().parent), x, y),
                                     leftChild := NewChildren(old(View().leftChild), s, p, q, 0),
                                     rightChild := NewChildren(old(View().rightChild), s, p, q, 1))
    {
      hide Family, Tree, Fields;
      ghost var v := View();
      ChildSide(v.parent, v.leftChild, v.rightChild, s, a, p);
      ChildSide(v.parent, v.leftChild, v.rightChild, s, a, q);
      PairDistinct(s, a, p, q);
      Reads(x);
      Reads(y);
      var px, py := node[x].parent, node[y].parent;
      Reads(px);
      Reads(py);
      var xRight, yRight := node[px].rightChild == x, node[py].rightChild == y;
      SetParent(x, py);
      SetParent(y, px);
      if xRight {
        SetRightChild(px, y);
      } else {
        SetLeftChild(px, y);
      }
      if yRight {
        SetRightChild(py, x);
      } else {
        SetLeftChild(py, x);
      }
    }

    /** fgk_move_right: a node trades places with the leader of its block, unless it leads
        itself, its parent does, or it has no weight yet. */
    method MoveRight(x: int, ghost p: nat, ghost now: seq<nat>)
      requires Around(shape, now) && 1 <= p < |shape.lab| - 1 && x == shape.lab[p]
      requires now[p] == 0 || now == shape.w || Last(shape.w, p) == p
      modifies this`leader, node
      ensures var q := Last(shape.w, p);
        if now[p] == 0 || q == p || Parent(shape, p) == q then View() == old(View())
        else now == shape.w && Represents(View(), Swapped(shape, p, q), a, now)
    {
      hide Fields, Represents, Tree, Unseen, Moved, Sorted, Swapped;
      TreeSize(shape, a);
      ghost var s, v, q := shape, View(), Last(shape.w, p);
      HoldsLeader(v, s, a, now, p);
      Reads(x);
      var y := leader[node[x].block];
      if !(x == y || node[x].parent == y || node[x].weight == 0) {
        LastBlock(s.w, p);
        Exchange(x, y, p, q);
        MovedRepresents(v, s, a, p, q);
      }
    }

    /** The part of fgk_move_right that moves. */
    method Exchange(x: int, y: int, ghost p: nat, ghost q: nat)
      requires node.Length == 2 * a - 1 > 0 && Represents(View(), shape, a, shape.w) && Tree(shape, a)
      requires 1 <= p < q < |shape.lab| - 1 && x == shape.lab[p] && y == shape.lab[q]
      modifies this`leader, node
      ensures View() == MovedFrom(old(View()), shape, a, p, q)
    {
      hide Fields, Represents, Tree, Moved;
      ghost var s, v := shape, View();
      HoldsParts(v, s, a, s.w);
      BlockOf(v.block, v.leader, s.lab, s.w, p);
      Relink(x, y, s.lab, p, q);
      Reparent(x, y, s, p, q);
      Reads(x);
      leader := leader[node[x].block := x];
      LeaderField(node[..], old(leader), leader);
      PairDistinct(s, a, p, q);
      MovedIs(v, View(), s, a, p, q);
    }

    /** All the pointers of a shape, but for the blocks. */
    ghost predicate Around(s: Shape, now: seq<nat>)
      reads this, node
    {
      && node.Length == 2 * a - 1 > 0 && Represents(View(), s, a, now) && Tree(s, a) && Unseen(s, a) && Sorted(s.w)
      && root == s.lab[|s.lab| - 1] && zeros == s.lab[0]
    }

    /** fgk_promote on a node that leads its block, away from the unseen symbols. */
    method Promote(x: int, ghost s: Shape, ghost q: nat, ghost now: seq<nat>)
      requires Around(s, now) && 1 <= q < |s.lab| - 1 && x == s.lab[q]
      requires now[q] != 0 ==> Promotable(s, q, now)
      modifies this`leader, node
      ensures now[q] == 0 || q == 1 ==> View() == old(View())
      ensures now[q] != 0 && q != 1 ==> View() == old(View()).(block := View().block, leader := leader)
      ensures now[q] != 0 && q > 2 ==> Blocks(View().block, leader, s.lab, Heavier(s, q).w)
      ensures now[q] != 0 && q == 2 ==> Blocks(View().block, leader, s.lab, Heavier(Heavier(s, 1), 2).w)
    {
      hide Fields, Represents, Tree, Unseen, Sorted, Blocks;
      TreeSize(s, a);
      PromoteFacts(View(), s, a, q, now, root);
      Reads(x);
      if node[x].weight != 0 {
        Reads(node[x].left);
        Reads(node[x].right);
        if node[x].leftChild != NONE {
          Reads(node[x].leftChild);
        }
        if node[x].left == node[x].rightChild && node[x].leftChild != NONE && node[node[x].leftChild].weight == 0 {
          PromoteTwo(x, s, now);
        } else if node[x].left != zeros {
          PromoteLeader(x, s, q, now);
        }
      }
    }

    /** The node beside the unseen symbols and its parent go into the next block. */
    method PromoteTwo(x: int, ghost s: Shape, ghost now: seq<nat>)
      requires Around(s, now) && |s.lab| > 4 && x == s.lab[2] && now == Heavier(s, 1).w
      requires s.w[1] == s.w[2] && s.w[3] != s.w[2]
      modifies node
      ensures View() == old(View()).(block := View().block)
      ensures Blocks(View().block, leader, s.lab, Heavier(Heavier(s, 1), 2).w)
    {
      hide Fields, Represents, Tree, Unseen, Blocks, Heavier;
      ghost var v := View();
      BothFacts(v, s, a, now);
      TwoHeavier(s);
      Reads(x);
      var left, right := node[x].left, node[x].right;
      Reads(right);
      PromotedBoth(v.block, v.leader, s.lab, s.w);
      if node[x].weight + 1 == node[right].weight && right != root {
        SetBlock(x, node[right].block);
        Reads(right);
        SetBlock(left, node[right].block);
      }
    }

    method PromoteLeader(x: int, ghost s: Shape, ghost q: nat, ghost now: seq<nat>)
      requires Around(s, now) && 3 <= q < |s.lab| - 1 && x == s.lab[q] && now == s.w && EndOfBlock(s.w, q)
      modifies this`leader, node
      ensures View() == old(View()).(block := View().block, leader := leader)
      ensures Blocks(View().block, leader, s.lab, Heavier(s, q).w)
    {
      hide Fields, Represents, Tree, Unseen, Blocks;
      ghost var v := View();
      LeaderFacts(v, s, a, q);
      Reads(x);
      var left, right, cur := node[x].left, node[x].right, node[x].block;
      Reads(left);
      Reads(right);
      if node[left].block == cur {
        leader := leader[cur := left];
      }
      LeaderField(node[..], old(leader), leader);
      if node[x].weight + 1 == node[right].weight && right != root {
        PromotedJoin(v.block, v.leader, s.lab, s.w, q);
        SetBlock(x, node[right].block);
      } else {
        PromotedAlone(v.block, v.leader, s.lab, s.w, q);
        MakeBlock(x);
      }
    }

    /** A stage of fgk_update_tree: the walk stands at place `p`, and `target` is what the
        tree will be. */
    ghost predicate Climbing(phase: Phase, p: nat, target: Shape)
      reads this, node
    {
      Stage(shape, a, phase, p, target) && Around(shape, NowOf(shape, phase))
    }

    /** The body of the loop of fgk_update_tree. */
    method Lift(x: int, ghost phase: Phase, ghost p: nat, ghost target: Shape)
      returns (next: int, ghost phase': Phase, ghost p': nat)
      requires Climbing(phase, p, target) && p < |shape.lab| - 1 && x == shape.lab[p]
      modifies this`leader, this`shape, node
      ensures Climbing(phase', p', target) && p < p' < |shape.lab| && next == shape.lab[p']
      ensures |shape.lab| == |old(shape).lab| && shape.zeros == old(shape).zeros
    {
      hide Fields, Represents, Tree, Unseen, Sorted, Blocks, Stage, NowOf, Swapped, Promotable, MovedTo, LiftedTo;
      ghost var s := shape;
      StageFacts(s, a, phase, p, target);
      TreeSize(s, a);
      PhaseSize(s, a, phase, p, target);
      ghost var now, moved, lifted := NowOf(s, phase), MovedTo(s, phase, p), LiftedTo(s, phase, p);
      StageMoved(s, a, phase, p, target);
      StageNext(s, a, phase, p, target);
      MoveToLeader(x, phase, p, target);
      PromoteWeigh(x, phase, p, target);
      ParentNext(View(), lifted.0, a, NowOf(lifted.0, lifted.1), moved.1);
      Reads(x);
      next := node[x].parent;
      shape, phase', p' := lifted.0, lifted.1, lifted.2;
    }

    method MoveToLeader(x: int, ghost phase: Phase, ghost p: nat, ghost target: Shape)
      requires Climbing(phase, p, target) && |shape.w| == |shape.lab| > 2 && |shape.up| == |shape.w| / 2
      requires 1 <= p < |shape.lab| - 1 && x == shape.lab[p]
      modifies this`leader, node
      ensures Around(MovedTo(shape, phase, p).0, NowOf(shape, phase))
    {
      hide Fields, Represents, Tree, Unseen, Sorted, Stage, NowOf, Swapped;
      StageFacts(shape, a, phase, p, target);
      StageMoved(shape, a, phase, p, target);
      MoveWhen(shape, a, phase, p, target);
      MoveRight(x, p, NowOf(shape, phase));
    }

    /** The node is promoted and gets heavier. */
    method PromoteWeigh(x: int, ghost phase: Phase, ghost p: nat, ghost target: Shape)
      requires Stage(shape, a, phase, p, target) && |shape.w| == |shape.lab| > 2 && |shape.up| == |shape.w| / 2
      requires 1 <= p < |shape.lab| - 1 && x == shape.lab[p] && (phase.NewJoin? || phase.Side? ==> |shape.w| > 4)
      requires Around(MovedTo(shape, phase, p).0, NowOf(shape, phase))
      modifies this`leader, node
      ensures var (r, ph, p2) := LiftedTo(shape, phase, p); |r.w| > 2 && Around(r, NowOf(r, ph))
    {
      hide Fields, Represents, Tree, Unseen, Sorted, Blocks, Stage, NowOf, Swapped, Promotable, MovedTo, LiftedTo,
          Heavier;
      ghost var s, u := shape, View();
      StageMoved(s, a, phase, p, target);
      StageNext(s, a, phase, p, target);
      ghost var now, moved, lifted := NowOf(s, phase), MovedTo(s, phase, p), LiftedTo(s, phase, p);
      PromoteBlocks(x, phase, p, target);
      NodeWeight(u, moved.0, a, now, moved.1);
      StageFacts(lifted.0, a, lifted.1, lifted.2, target);
      WeighOne(x, u, moved.0, lifted.0, now, moved.1);
    }

    method WeighOne(x: int, ghost u: Ptrs, ghost t: Shape, ghost r: Shape, ghost now: seq<nat>, ghost q: nat)
      requires node.Length == 2 * a - 1 > 0 && Represents(u, t, a, now) && Tree(t, a) && Unseen(t, a)
      requires 1 <= q < |t.lab| && |now| == |t.lab| && t.lab[q] == x && x < node.Length && |u.weight| == node.Length
          && u.weight[x] == now[q]
      requires View() == u.(block := View().block, leader := View().leader)
      requires r.lab == t.lab && r.up == t.up && r.zeros == t.zeros && Blocks(View().block, View().leader, r.lab, r.w)
      requires Tree(r, a) && Unseen(r, a) && Sorted(r.w) && root == r.lab[|r.lab| - 1] && zeros == r.lab[0]
      modifies node
      ensures Around(r, now[q := now[q] + 1])
    {
      hide Fields, Represents, Tree, Unseen, Sorted, Blocks;
      Reads(x);
      SetWeight(x, node[x].weight + 1);
      SizesKept(u, t, a, now);
      Reweighed(u, View(), t, r, a, now, q);
    }

    method PromoteBlocks(x: int, ghost phase: Phase, ghost p: nat, ghost target: Shape)
      requires Stage(shape, a, phase, p, target) && |shape.w| == |shape.lab| > 2 && |shape.up| == |shape.w| / 2
      requires 1 <= p < |shape.lab| - 1 && x == shape.lab[p] && (phase.NewJoin? || phase.Side? ==> |shape.w| > 4)
      requires Around(MovedTo(shape, phase, p).0, NowOf(shape, phase))
      modifies this`leader, node
      ensures View() == old(View()).(block := View().block, leader := leader)
      ensures Blocks(View().block, leader, MovedTo(shape, phase, p).0.lab, LiftedTo(shape, phase, p).0.w)
    {
      hide Fields, Represents, Tree, Unseen, Sorted, Blocks, Stage, NowOf, Swapped, Promotable, MovedTo, LiftedTo,
          Heavier;
      ghost var s, u := shape, View();
      StageMoved(s, a, phase, p, target);
      ghost var now, moved := NowOf(s, phase), MovedTo(s, phase, p);
      HoldsParts(u, moved.0, a, now);
      Promote(x, moved.0, moved.1, now);
      PromotedBlocks(u, View(), s, a, phase, p, target);
      PromotedRest(u, View(), now, moved.1);
    }

    // -------------------------------------------------- the first occurrence

    /** How many symbols are unseen, and in how many bits their places are numbered. */
    ghost predicate Counted(k: nat)
      reads this
    {
      count == k && count == Pow2(exp) + rem && rem < Pow2(exp)
    }

    /** fgk_factor_remaining */
    method FactorRemaining()
      requires count >= 2
      modifies this`count, this`exp, this`rem
      ensures Counted(old(count) - 1)
    {
      hide Pow2;
      count := count - 1;
      exp := 0;
      var i := count;
      Shifted(count, 0);
      while i > 1
        invariant i >= 1 && i == High(count, exp) && count == old(count) - 1
        decreases i
      {
        Shifted(count, exp);
        exp := exp + 1;
        i := i / 2;
      }
      Leading(count, exp);
      rem := count - Pow2(exp);
    }

    /** fgk_eliminate_zero */
    method EliminateZero(c: int, ghost list: seq<nat>, ghost j: nat)
      requires ZeroList(View(), list) && InRange(list, node.Length) && Distinct(list) && j < |list| && list[j] == c
          && |list| >= 2
      requires zeros == list[0] && count == |list|
      modifies this`zeros, this`count, this`exp, this`rem, node
      ensures Counted(|list| - 1) && zeros == (list[..j] + list[j + 1..])[0]
      ensures View() == old(View()).(leftChild := SplicedLeft(old(View().leftChild), list, j),
                                     rightChild := SplicedRight(old(View().rightChild), list, j))
    {
      hide Fields, ZeroList;
      ghost var v := View();
      FactorRemaining();
      ListPlaces(v, list, j);
      Reads(c);
      Reads(zeros);
      if node[c].leftChild == NONE {
        zeros := node[zeros].rightChild;
        SetLeftChild(zeros, NONE);
      } else if node[c].rightChild == NONE {
        SetRightChild(node[c].leftChild, NONE);
      } else {
        var before, after := node[c].leftChild, node[c].rightChild;
        SetLeftChild(after, before);
        SetRightChild(before, after);
      }
    }

    /** fgk_increase_zero_weight, while more than one symbol is unseen. */
    method IncreaseZeroWeight(c: nat, ghost j: nat) returns (x: int)
      requires Around(shape, shape.w) && Good(shape, a, -1) && Counted(|shape.zeros|) && freeNode == a + |shape.up|
      requires j < |shape.zeros| && shape.zeros[j] == c && |shape.zeros| >= 2
      modifies this, node
      ensures x == c && |shape.w| > 2 && shape == Inserted(old(shape), a, c)
      ensures Around(shape, NowOf(shape, NewSymbol)) && Counted(|shape.zeros|) && freeNode == a + |shape.up|
    {
      hide Fields, Represents, Tree, Unseen, Sorted, Blocks, Good, Inserted, Numbers, NowOf, Extended;
      ghost var s, v := shape, View();
      InsertStart(v, s, a, j);
      ghost var t := Inserted(s, a, c);
      x := c;
      var newInternal := freeNode;
      freeNode := freeNode + 1;
      NewNode(newInternal, c, s, t, j);
      Hang(c, newInternal, v, s, t, j);
      InsertedRepresents(v, View(), s, t, a, j);
      InsertEnd(s, a, j);
      shape := t;
    }

    /** The new join and its place, before the unseen symbols are hung below it. */
    method NewNode(newInternal: int, c: nat, ghost s: Shape, ghost t: Shape, ghost j: nat)
      requires Around(s, s.w) && j < |s.zeros| && s.zeros[j] == c && Numbers(s, t, a, j) && newInternal == a + |s.up|
      requires forall i | 1 <= i < |s.lab| :: s.w[i] > 0
      modifies this`leader, this`root, node
      ensures root == if |s.lab| == 1 then newInternal else old(root)
      ensures Begun(old(View()), View(), s, c, newInternal)
      ensures Blocks(View().block, leader, t.lab, t.w)
    {
      hide Fields, Represents, Tree, Unseen, Sorted, Blocks, Numbers, Inserted;
      ghost var v := View();
      NewNodeFacts(v, s, t, a, j);
      var zeroPtr := zeros;
      Reads(zeroPtr);
      SetParent(newInternal, node[zeroPtr].parent);
      Reads(zeroPtr);
      SetRight(newInternal, node[zeroPtr].right);
      SetWeight(newInternal, 0);
      SetRightChild(newInternal, c);
      SetLeft(newInternal, c);
      if zeros == root {
        root := newInternal;
        MakeBlock(c);
        MakeBlock(newInternal);
        OneBlock(v.block, v.leader, s, t, a, j);
      } else {
        LinkJoin(newInternal, zeroPtr, v, s);
        JoinBlock(newInternal, c, v, s, t, j);
      }
    }

    /** The join between the neighbours and below the parent of the unseen symbols. */
    method LinkJoin(newInternal: int, zeroPtr: int, ghost v: Ptrs, ghost s: Shape)
      requires |s.lab| > 2 && Sizes(v, node.Length) && InRange(s.lab, node.Length) && 0 <= newInternal < node.Length
      requires zeroPtr == s.lab[0] && View().parent[zeroPtr] == s.lab[2] && View().right[newInternal] == s.lab[1]
      requires View().rightChild[s.lab[2]] != zeroPtr
      modifies node
      ensures View() == old(View()).(left := old(View()).left[s.lab[1] := newInternal],
                                     leftChild := old(View()).leftChild[s.lab[2] := newInternal])
    {
      hide Fields;
      Reads(newInternal);
      SetLeft(node[newInternal].right, newInternal);
      Reads(zeroPtr);
      var p := node[zeroPtr].parent;
      Reads(p);
      // the unseen symbols are never a right child
      if node[p].rightChild == zeroPtr {
        assert false;
      } else {
        SetLeftChild(p, newInternal);
      }
    }

    /** The block of the new symbol and its join. */
    method JoinBlock(newInternal: int, c: nat, ghost v: Ptrs, ghost s: Shape, ghost t: Shape, ghost j: nat)
      requires node.Length == 2 * a - 1 > 0 && Represents(v, s, a, s.w) && Numbers(s, t, a, j) && Sorted(s.w)
          && s.zeros[j] == c
      requires newInternal == a + |s.up| && |s.lab| > 1 && forall i | 1 <= i < |s.lab| :: s.w[i] > 0
      requires View().block == v.block && leader == v.leader && View().weight == v.weight[newInternal := 0]
      requires newInternal < node.Length && View().right[newInternal] == s.lab[1]
      modifies this`leader, node
      ensures View() == old(View()).(block := View().block, leader := leader)
      ensures Blocks(View().block, leader, t.lab, t.w)
    {
      hide Fields, Represents, Tree, Unseen, Blocks, Numbers, Inserted;
      JoinFacts(v, s, t, a, j);
      Reads(newInternal);
      var right := node[newInternal].right;
      Reads(right);
      if node[right].weight == 1 {
        SetBlock(newInternal, node[right].block);
        InsertedJoins(v.block, v.leader, s.lab, s.w, t.zeros[0], c, newInternal);
      } else {
        MakeBlock(newInternal);
        InsertedAlone(v.block, v.leader, s.lab, s.w, t.zeros[0], c, newInternal);
      }
      Reads(newInternal);
      SetBlock(c, node[newInternal].block);
    }

    /** The unseen symbols left over and the new symbol go below the join. */
    method Hang(c: nat, newInternal: int, ghost v: Ptrs, ghost s: Shape, ghost t: Shape, ghost j: nat)
      requires node.Length == 2 * a - 1 > 0 && ZeroList(v, s.zeros) && Sizes(v, 2 * a - 1) && Numbers(s, t, a, j)
          && |s.zeros| >= 2
      requires Begun(v, View(), s, c, newInternal) && s.zeros[j] == c && newInternal == a + |s.up|
      requires zeros == s.zeros[0] && count == |s.zeros|
      modifies this`zeros, this`count, this`exp, this`rem, node
      ensures Extended(v, View(), s, t.zeros[0], c, newInternal, j) && View().block == old(View()).block
          && leader == old(leader)
      ensures zeros == t.zeros[0] && Counted(|s.zeros| - 1)
    {
      hide Fields, Tree, InFront, SplicedLeft, SplicedRight;
      HangFacts(v, View(), s, t, a, c, newInternal, j);
      EliminateZero(c, s.zeros, j);
      SetLeftChild(newInternal, zeros);
      SetRight(c, newInternal);
      SetLeft(c, zeros);
      SetParent(c, newInternal);
      SetLeftChild(c, NONE);
      SetRightChild(c, NONE);
      SetParent(zeros, newInternal);
      SetRight(zeros, c);
    }

    /** fgk_update_tree */
    method UpdateTree(c: nat)
      requires Valid() && c < a && (c in shape.zeros ==> |shape.zeros| >= 2)
      modifies this, node
      ensures Valid() && shape == Updated(old(shape), a, c)
    {
      hide Fields, Represents, Tree, Unseen, Sorted, Blocks, Good, Stage, NowOf, Updated, Climb;
      ghost var s := shape;
      ghost var target := Updated(s, a, c);
      var x;
      ghost var phase;
      ghost var p: nat;
      x, phase, p := FirstNode(c, target);
      while x != root
        invariant Climbing(phase, p, target) && p < |shape.lab| && x == shape.lab[p]
        invariant Counted(|shape.zeros|) && freeNode == a + |shape.lab| / 2
        decreases |shape.lab| - p
      {
        x, phase, p := Lift(x, phase, p, target);
      }
      FinishRoot(phase, p, target);
    }

    /** The node where the walk begins. */
    method FirstNode(c: nat, ghost target: Shape) returns (x: int, ghost phase: Phase, ghost p: nat)
      requires Valid() && c < a && (c in shape.zeros ==> |shape.zeros| >= 2) && target == Updated(shape, a, c)
      modifies this, node
      ensures Climbing(phase, p, target) && p < |shape.lab| && x == shape.lab[p]
      ensures Counted(|shape.zeros|) && freeNode == a + |shape.lab| / 2
    {
      hide Fields, Represents, Tree, Unseen, Sorted, Blocks, Good, Stage, NowOf, Updated, Climb;
      ghost var s := shape;
      x := c;
      SymbolWeight(View(), s, a, c);
      Reads(c);
      if node[c].weight == 0 {
        ghost var j := PlaceOf(s.zeros, c);
        x := IncreaseZeroWeight(c, j);
        phase, p := NewSymbol, 1;
        FreshStage(s, a, c);
      } else {
        phase := Usual;
        p := SeenStage(s, a, c);
      }
    }

    /** The root gets heavier last. */
    method FinishRoot(ghost phase: Phase, ghost p: nat, ghost target: Shape)
      requires Climbing(phase, p, target) && p < |shape.lab| && shape.lab[p] == root
      modifies this`shape, node
      ensures Around(target, target.w) && shape == target && Good(target, a, -1)
      ensures target.zeros == old(shape).zeros && |target.up| == |old(shape).lab| / 2
    {
      hide Fields, Represents, Tree, Unseen, Sorted, Blocks, Good, Stage, NowOf, Climb;
      StageFacts(shape, a, phase, p, target);
      ghost var s, u, now := shape, View(), NowOf(shape, phase);
      RootStage(s, a, phase, p, target);
      NodeWeight(u, s, a, now, p);
      HoldsParts(u, s, a, now);
      RootBlocks(u.block, u.leader, s, target);
      Reads(root);
      SetWeight(root, node[root].weight + 1);
      Reweighed(u, View(), s, target, a, now, p);
      shape := target;
    }
  }

  /** The state fgk_init leaves: all symbols in a list, and a tree of one node. */
  function FirstShape(size: nat): Shape
    requires size > 0
  {
    Shape([0], [], [0], seq(size, i => i))
  }

  /** fgk_init_node */
  function InitNode(i: nat, size: nat): Node {
    if i < size then Node(0, NONE, if i >= 1 then i - 1 else NONE, if i + 1 < size then i + 1 else NONE, NONE, NONE,
        NONE)
    else Node(0, NONE, NONE, NONE, NONE, NONE, NONE)
  }

  lemma FirstValid(nodes: seq<Node>, size: nat)
    requires size >= 2 && |nodes| == 2 * size - 1 && forall i: nat | i < |nodes| :: nodes[i] == InitNode(i, size)
    ensures var s := FirstShape(size);
      Represents(Fields(nodes, []), s, size, s.w) && Good(s, size, -1) && Sorted(s.w)
  {
    var s, v := FirstShape(size), Fields(nodes, []);
    forall j: nat | j < |s.zeros| ensures ZeroAt(v, s.zeros, j) {
      assert v.leftChild[j] == nodes[j].leftChild && v.rightChild[j] == nodes[j].rightChild
          && v.weight[j] == nodes[j].weight;
    }
    forall c: nat | c < size ensures c in s.zeros {
      assert s.zeros[c] == c;
    }
  }

  lemma SymbolWeight(v: Ptrs, s: Shape, a: nat, c: nat)
    requires Represents(v, s, a, s.w) && Good(s, a, -1) && c < a
    ensures a > 0 && c < 2 * a - 1 && |v.weight| == 2 * a - 1 && (v.weight[c] == 0 <==> c in s.zeros)
    ensures c in s.zeros || c in s.lab
  {
    if c in s.zeros {
      var j := PlaceOf(s.zeros, c);
      assert ZeroAt(v, s.zeros, j);
    } else {
      assert c in s.lab;
      var i := PlaceOf(s.lab, c);
      assert v.weight[s.lab[i]] == s.w[i];
      assert s.lab[0] == s.zeros[0];
    }
  }

  lemma FreshStage(s: Shape, a: nat, c: nat)
    requires Good(s, a, -1) && c < a && c in s.zeros && |s.zeros| >= 2
    ensures var t := Inserted(s, a, c);
      Stage(t, a, NewSymbol, 1, Updated(s, a, c)) && |t.lab| > 2 && t.lab[1] == c && |t.up| == |t.lab| / 2
  {
    hide Climb;
    InsertedGood(s, a, c);
    InsertedLabels(s, a, c);
    if |s.lab| > 1 {
      assert s.up[0] == 2;
    }
  }

  lemma SeenStage(s: Shape, a: nat, c: nat) returns (p: nat)
    requires Good(s, a, -1) && c < a && c !in s.zeros
    ensures 1 <= p < |s.lab| && s.lab[p] == c && |s.up| == |s.lab| / 2
    ensures Stage(s, a, Usual, p, Updated(s, a, c)) && |s.w| > 2 && NowOf(s, Usual) == s.w
  {
    hide Climb;
    SeenStands(s, a, c);
    p := PlaceOf(s.lab, c);
  }

  /** At the root the weights are one short of the target. */
  lemma RootStage(s: Shape, a: nat, phase: Phase, p: nat, target: Shape)
    requires Stage(s, a, phase, p, target) && p < |s.lab| && s.lab[p] == s.lab[|s.lab| - 1] && |s.w| > 2
    ensures p == |s.lab| - 1 && 1 <= p && |s.w| == |s.lab| && target.lab == s.lab && target.up == s.up
        && target.zeros == s.zeros
    ensures target.w == NowOf(s, phase)[p := NowOf(s, phase)[p] + 1] && |s.up| == |s.lab| / 2
    ensures Good(target, a, -1) && Tree(target, a) && Unseen(target, a) && Sorted(target.w) && Tree(s, a)
        && Unseen(s, a)
    ensures forall i | 0 <= i < |s.w| - 1 :: target.w[i] == s.w[i]
  {
    assert Distinct(s.lab);
    match phase
    case Usual => RootDone(s, a);
    case NewSymbol =>
    case NewJoin =>
    case Side =>
  }

  lemma RootBlocks(block: seq<int>, leader: seq<int>, s: Shape, t: Shape)
    requires Blocks(block, leader, s.lab, s.w) && t.lab == s.lab && |t.w| == |s.w| && |s.w| > 2
    requires forall i | 0 <= i < |s.w| - 1 :: t.w[i] == s.w[i]
    ensures Blocks(block, leader, t.lab, t.w)
  {
    forall i: nat | EndOfBlock(t.w, i) ensures leader[block[t.lab[i]]] == t.lab[i] {
      assert EndOfBlock(s.w, i);
    }
  }

  /** The pointers with the new join in place. */
  ghost predicate Begun(v: Ptrs, r: Ptrs, s: Shape, c: nat, ni: int) {
    && |s.lab| > 0 && |s.lab| != 2 && Sizes(v, |v.weight|) && InRange(s.lab, |v.weight|) && 0 <= ni < |v.weight|
    && r == v.(weight := v.weight[ni := 0], parent := v.parent[ni := v.parent[s.lab[0]]],
               left := if |s.lab| > 1 then v.left[ni := c][s.lab[1] := ni] else v.left[ni := c],
               right := v.right[ni := v.right[s.lab[0]]],
               leftChild := if |s.lab| > 1 then v.leftChild[s.lab[2] := ni] else v.leftChild,
               rightChild := v.rightChild[ni := c], block := r.block, leader := r.leader)
  }

  lemma NewNodeFacts(v: Ptrs, s: Shape, t: Shape, a: nat, j: nat)
    requires Represents(v, s, a, s.w) && Numbers(s, t, a, j)
    ensures a > 0 && 0 <= a + |s.up| < 2 * a - 1 && |s.lab| > 0 && |s.lab| != 2 && Sizes(v, 2 * a - 1)
        && InRange(s.lab, 2 * a - 1)
    ensures s.zeros[j] < 2 * a - 1 && s.zeros[j] != a + |s.up| && s.lab[0] != a + |s.up|
    ensures s.lab[0] == s.lab[|s.lab| - 1] <==> |s.lab| == 1
    ensures |s.lab| > 1 ==>
      && |s.lab| > 2 && v.parent[s.lab[0]] == s.lab[2] && v.right[s.lab[0]] == s.lab[1]
      && v.rightChild[s.lab[2]] != s.lab[0]
    ensures |s.lab| > 1 ==> s.lab[1] != a + |s.up| && s.lab[2] != a + |s.up|
  {
    if |s.lab| > 1 {
      ChildSide(v.parent, v.leftChild, v.rightChild, s, a, 0);
    }
  }

  lemma OneBlock(block: seq<int>, leader: seq<int>, s: Shape, t: Shape, a: nat, j: nat)
    requires Numbers(s, t, a, j) && |s.lab| == 1 && |block| == 2 * a - 1
    ensures s.zeros[j] < |block| && a + |s.up| < |block|
    ensures Blocks(block[s.zeros[j] := |leader|][a + |s.up| := |leader| + 1], leader + [s.zeros[j]] + [a + |s.up|],
        t.lab, t.w)
  {
    assert |t.lab| == 3 && t.lab[1] == s.zeros[j];
  }

  lemma JoinFacts(v: Ptrs, s: Shape, t: Shape, a: nat, j: nat)
    requires Represents(v, s, a, s.w) && Numbers(s, t, a, j) && |s.lab| > 1
    ensures a > 0 && |s.lab| >= 3 && InRange(s.lab, 2 * a - 1) && Sizes(v, 2 * a - 1) && t.zeros != [] && j < |s.zeros|
    ensures s.zeros[j] < 2 * a - 1 && a + |s.up| < 2 * a - 1 && s.lab[1] != a + |s.up| && s.lab[1] != s.zeros[j]
    ensures t.lab == InFront(t.zeros[0], s.zeros[j], a + |s.up|, s.lab) && t.w == [0, 1, 1] + s.w[1..]
    ensures Distinct(t.lab) && InRange(t.lab, 2 * a - 1) && Blocks(v.block, v.leader, s.lab, s.w)
    ensures |s.w| == |s.lab| && v.weight[s.lab[1]] == s.w[1] && s.zeros[j] != a + |s.up|
  {
  }

  lemma HangFacts(v: Ptrs, u: Ptrs, s: Shape, t: Shape, a: nat, c: nat, ni: nat, j: nat)
    requires a > 0 && ZeroList(v, s.zeros) && Sizes(v, 2 * a - 1) && Numbers(s, t, a, j) && |s.zeros| >= 2
    requires Begun(v, u, s, c, ni) && s.zeros[j] == c && ni == a + |s.up|
    ensures ZeroList(u, s.zeros) && InRange(s.zeros, 2 * a - 1) && Distinct(s.zeros)
    ensures t.zeros == s.zeros[..j] + s.zeros[j + 1..] && t.zeros[0] < 2 * a - 1 && c < 2 * a - 1 && ni < 2 * a - 1
        && t.zeros[0] != c && t.zeros[0] != ni && c != ni
    ensures |v.leftChild| == |v.rightChild| == 2 * a - 1
  {
    hide Tree, InFront;
    forall x: nat | x < |s.zeros| ensures ZeroAt(u, s.zeros, x) {
      assert ZeroAt(v, s.zeros, x);
    }
  }

  lemma InsertStart(v: Ptrs, s: Shape, a: nat, j: nat)
    requires Represents(v, s, a, s.w) && Good(s, a, -1) && j < |s.zeros| && |s.zeros| >= 2
    ensures a > 0 && Numbers(s, Inserted(s, a, s.zeros[j]), a, j) && ZeroList(v, s.zeros) && Sizes(v, 2 * a - 1)
    ensures |s.w| == |s.lab| > 0 && (forall i | 1 <= i < |s.lab| :: s.w[i] > 0) && s.lab[0] == s.zeros[0]
    ensures |Inserted(s, a, s.zeros[j]).w| > 2
  {
    InsertedNumbers(s, a, j);
  }

  lemma InsertEnd(s: Shape, a: nat, j: nat)
    requires Good(s, a, -1) && j < |s.zeros| && |s.zeros| >= 2
    ensures var t := Inserted(s, a, s.zeros[j]);
      && Tree(t, a) && Unseen(t, a) && Sorted(t.w) && |t.w| > 2 && NowOf(t, NewSymbol) == t.w[1 := 0][2 := 0]
      && |t.zeros| == |s.zeros| - 1 && |t.up| == |s.up| + 1 && t.lab[0] == t.zeros[0] && |t.lab| == |s.lab| + 2
      && t.lab[|t.lab| - 1] == if |s.lab| == 1 then a + |s.up| else s.lab[|s.lab| - 1]
  {
    InsertedGood(s, a, s.zeros[j]);
  }

  lemma ListPlaces(v: Ptrs, list: seq<nat>, j: nat)
    requires ZeroList(v, list) && Distinct(list) && j < |list| && |list| >= 2
    ensures list[j] < |v.leftChild| && list[j] < |v.rightChild| && list[0] < |v.rightChild|
    ensures v.leftChild[list[j]] == (if j == 0 then NONE else list[j - 1])
    ensures v.rightChild[list[j]] == (if j + 1 == |list| then NONE else list[j + 1])
    ensures v.rightChild[list[0]] == list[1] && (list[j..j] == [])
    ensures (list[..j] + list[j + 1..])[0] == if j == 0 then list[1] else list[0]
  {
    assert ZeroAt(v, list, j) && ZeroAt(v, list, 0);
  }

  lemma Shifted(n: nat, k: nat)
    requires n > 0
    ensures High(n, 0) == n && High(n, k + 1) == High(n, k) / 2
  {
    HighNext(n, k + 1);
    assert Pow2(0) == 1;
  }

  /** What is left of a number when its leading digit is. */
  lemma Leading(n: nat, k: nat)
    requires High(n, k) == 1
    ensures Pow2(k) <= n < 2 * Pow2(k)
  {
    var q, r := n / Pow2(k), n % Pow2(k);
    assert n == q * Pow2(k) + r;
  }

  lemma SizesKept(u: Ptrs, t: Shape, a: nat, now: seq<nat>)
    requires Represents(u, t, a, now)
    ensures a > 0 && Sizes(u, 2 * a - 1)
  {
  }

  lemma NodeWeight(v: Ptrs, s: Shape, a: nat, now: seq<nat>, q: nat)
    requires Represents(v, s, a, now) && q < |s.lab|
    ensures a > 0 && s.lab[q] < 2 * a - 1 && |now| == |s.lab| && |v.weight| == 2 * a - 1 && v.weight[s.lab[q]] == now[q]
  {
  }

  lemma PromotedRest(u: Ptrs, v: Ptrs, now: seq<nat>, q: nat)
    requires q < |now|
    requires now[q] == 0 || q == 1 ==> v == u
    requires now[q] != 0 && q != 1 ==> v == u.(block := v.block, leader := v.leader)
    ensures v == u.(block := v.block, leader := v.leader)
  {
  }

  /** The blocks fit the weights that come next. */
  lemma PromotedBlocks(u: Ptrs, v: Ptrs, s: Shape, a: nat, phase: Phase, p: nat, target: Shape)
    requires Stage(s, a, phase, p, target) && |s.w| == |s.lab| > 2 && |s.up| == |s.w| / 2 && 1 <= p < |s.lab| - 1
    requires phase.NewJoin? || phase.Side? ==> |s.w| > 4
    requires var (t, q) := MovedTo(s, phase, p);
      var now := NowOf(s, phase);
      && t.w == s.w && |t.lab| == |s.lab| && 1 <= q < |s.lab| - 1 && Blocks(u.block, u.leader, t.lab, t.w)
      && (phase.Usual? || t == s)
      && (phase.Usual? && p != 1 ==> q > 2 && !Beside(s, p))
      && (phase.Usual? && p == 1 && |s.lab| > 3 && !Beside(s, p) ==> q > 2)
      && (now[q] == 0 || q == 1 ==> v == u)
      && (now[q] != 0 && q > 2 ==> Blocks(v.block, v.leader, t.lab, Heavier(t, q).w))
      && (now[q] != 0 && q == 2 ==> Blocks(v.block, v.leader, t.lab, Heavier(Heavier(t, 1), 2).w))
    ensures Blocks(v.block, v.leader, MovedTo(s, phase, p).0.lab, LiftedTo(s, phase, p).0.w)
  {
    StageFacts(s, a, phase, p, target);
    match phase
    case Usual =>
      hide Tree, Unseen, Standing, Climb, Blocks;
      var (t, q) := MovedTo(s, phase, p);
      if |s.lab| == 3 {
        ThreeBlocks(u.block, u.leader, t.lab, t.w);
      }
    case NewSymbol =>
    case NewJoin =>
    case Side =>
  }

  /** With one symbol there is one block. */
  lemma ThreeBlocks(block: seq<int>, leader: seq<int>, lab: seq<nat>, w: seq<nat>)
    requires Blocks(block, leader, lab, w) && |lab| == 3
    ensures Blocks(block, leader, lab, w[1 := w[1] + 1])
  {
    assert EndOfBlock(w, 1);
  }

  /** One node heavier, and blocks to match. */
  lemma Reweighed(u: Ptrs, v: Ptrs, t: Shape, r: Shape, a: nat, now: seq<nat>, q: nat)
    requires Represents(u, t, a, now) && Tree(t, a) && Unseen(t, a) && 1 <= q < |t.lab| && |now| == |t.lab|
        && t.lab[q] < |u.weight|
    requires r.lab == t.lab && r.up == t.up && r.zeros == t.zeros && Blocks(v.block, v.leader, r.lab, r.w)
    requires v == u.(block := v.block, leader := v.leader, weight := u.weight[t.lab[q] := now[q] + 1])
        && |v.block| == |u.block|
    ensures Represents(v, r, a, now[q := now[q] + 1])
  {
    hide Represents, Tree, Unseen, Family, Neighbours, ZeroList, Blocks, Weights, Distinct;
    RepresentsParts(u, t, a, now);
    TreeLabels(t, a);
    SameFamily(u.parent, u.leftChild, u.rightChild, t, r, a);
    StillUnseen(u, v, t, a, q);
    WeighsAfter(u.weight, t.lab, now, q);
    RepresentsAll(v, r, a, now[q := now[q] + 1]);
  }

  lemma TreeLabels(s: Shape, a: nat)
    requires Tree(s, a)
    ensures Distinct(s.lab)
  {
  }

  lemma RepresentsAll(v: Ptrs, s: Shape, a: nat, now: seq<nat>)
    requires a > 0 && Sizes(v, 2 * a - 1) && InRange(s.lab, 2 * a - 1) && |now| == |s.lab|
    requires Neighbours(v.left, v.right, s.lab) && Family(v.parent, v.leftChild, v.rightChild, s, a)
    requires ZeroList(v, s.zeros) && Blocks(v.block, v.leader, s.lab, s.w) && Weights(v.weight, s.lab, now)
    ensures Represents(v, s, a, now)
  {
  }

  lemma SameFamily(parent: seq<int>, lc: seq<int>, rc: seq<int>, t: Shape, r: Shape, a: nat)
    requires Family(parent, lc, rc, t, a) && r.lab == t.lab && r.up == t.up
    ensures Family(parent, lc, rc, r, a)
  {
    forall k: nat | k < |r.up| ensures PairAt(parent, lc, rc, r, k) {
      assert PairAt(parent, lc, rc, t, k);
    }
  }

  lemma StillUnseen(u: Ptrs, v: Ptrs, t: Shape, a: nat, q: nat)
    requires ZeroList(u, t.zeros) && Unseen(t, a) && 1 <= q < |t.lab| && t.lab[q] < |u.weight| == |v.weight|
    requires v.leftChild == u.leftChild && v.rightChild == u.rightChild
    requires forall x | 0 <= x < |u.weight| && x != t.lab[q] :: v.weight[x] == u.weight[x]
    ensures ZeroList(v, t.zeros)
  {
    forall j: nat | j < |t.zeros| ensures ZeroAt(v, t.zeros, j) {
      assert ZeroAt(u, t.zeros, j);
      assert t.lab[q] != t.zeros[j];
    }
  }

  lemma WeighsAfter(weight: seq<nat>, lab: seq<nat>, now: seq<nat>, q: nat)
    requires Weights(weight, lab, now) && Distinct(lab) && q < |lab|
    ensures q < |now| && lab[q] < |weight| && Weights(weight[lab[q] := now[q] + 1], lab, now[q := now[q] + 1])
  {
  }

  lemma ParentNext(v: Ptrs, s: Shape, a: nat, now: seq<nat>, q: nat)
    requires Represents(v, s, a, now) && Tree(s, a) && q < |s.lab| - 1
    ensures a > 0 && s.lab[q] < 2 * a - 1 && q / 2 < |s.up| && s.up[q / 2] < |s.lab|
        && v.parent[s.lab[q]] == s.lab[s.up[q / 2]]
  {
    ParentOf(v.parent, v.leftChild, v.rightChild, s, a, q);
  }

  lemma PhaseSize(s: Shape, a: nat, phase: Phase, p: nat, target: Shape)
    requires Stage(s, a, phase, p, target) && p < |s.lab| - 1
    ensures phase.NewJoin? || phase.Side? ==> |s.w| > 4
  {
  }

  /** When fgk_move_right moves. */
  lemma MoveWhen(s: Shape, a: nat, phase: Phase, p: nat, target: Shape)
    requires Stage(s, a, phase, p, target) && |s.w| == |s.lab| > 2 && 1 <= p < |s.lab| - 1 && |s.up| == |s.w| / 2
    ensures var (now, q) := (NowOf(s, phase), Last(s.w, p));
      if now[p] == 0 || q == p || Parent(s, p) == q then MovedTo(s, phase, p) == (s, p)
      else now == s.w && MovedTo(s, phase, p) == (Swapped(s, p, q), q)
  {
    if phase.Side? {
      TreeIsOdd(s, a);
    }
  }

  lemma PromoteFacts(v: Ptrs, s: Shape, a: nat, q: nat, now: seq<nat>, root: int)
    requires Represents(v, s, a, now) && Tree(s, a) && Unseen(s, a) && 1 <= q < |s.lab| - 1
    requires now[q] != 0 ==> Promotable(s, q, now)
    ensures a > 0 && |now| == |s.lab| && s.lab[q] < 2 * a - 1 && v.weight[s.lab[q]] == now[q]
    ensures v.left[s.lab[q]] == s.lab[q - 1] < 2 * a - 1 && v.right[s.lab[q]] == s.lab[q + 1] < 2 * a - 1
    ensures v.leftChild[s.lab[q]] == NONE || 0 <= v.leftChild[s.lab[q]] < 2 * a - 1
    ensures now[q] != 0 ==> (q == 1 <==> s.lab[q - 1] == s.lab[0])
    ensures now[q] != 0 ==> var lc := v.leftChild[s.lab[q]];
      (q == 2 <==> s.lab[q - 1] == v.rightChild[s.lab[q]] && lc != NONE && v.weight[lc] == 0)
  {
    HoldsParts(v, s, a, now);
    if s.lab[q] >= a {
      assert HasChildren(s, q);
      var k := Below(s, q);
      PairOf(v.parent, v.leftChild, v.rightChild, s, a, k);
      assert s.lab[0] == s.zeros[0];
      assert ZeroAt(v, s.zeros, 0);
      assert k == 0 <==> q == 2;
      assert v.weight[s.lab[2 * k]] == now[2 * k];
    } else {
      assert q != 2 by { if q == 2 { assert HasChildren(s, 2) by { assert s.up[0] == 2; } } }
    }
  }

  lemma TwoHeavier(s: Shape)
    requires |s.w| > 4
    ensures Heavier(Heavier(s, 1), 2).w == s.w[1 := s.w[1] + 1][2 := s.w[2] + 1]
    ensures Heavier(s, 1).w[2] == s.w[2] && Heavier(s, 1).w[3] == s.w[3]
  {
  }

  lemma BothFacts(v: Ptrs, s: Shape, a: nat, now: seq<nat>)
    requires Represents(v, s, a, now) && Tree(s, a) && |s.lab| > 4
    ensures a > 0 && forall i | 0 <= i < 5 :: s.lab[i] < 2 * a - 1
    ensures v.left[s.lab[2]] == s.lab[1] && v.right[s.lab[2]] == s.lab[3]
    ensures |now| == |s.lab| == |s.w| && v.weight[s.lab[2]] == now[2] && v.weight[s.lab[3]] == now[3]
    ensures s.lab[3] != s.lab[|s.lab| - 1] && s.lab[3] != s.lab[2] && Distinct(s.lab)
    ensures Blocks(v.block, v.leader, s.lab, s.w)
  {
    HoldsParts(v, s, a, now);
  }

  lemma LeaderFacts(v: Ptrs, s: Shape, a: nat, q: nat)
    requires Represents(v, s, a, s.w) && Tree(s, a) && 3 <= q < |s.lab| - 1
    ensures a > 0 && InRange(s.lab, 2 * a - 1) && |s.w| == |s.lab| && Distinct(s.lab)
    ensures v.left[s.lab[q]] == s.lab[q - 1] && v.right[s.lab[q]] == s.lab[q + 1]
    ensures v.weight[s.lab[q]] == s.w[q] && v.weight[s.lab[q + 1]] == s.w[q + 1]
    ensures Blocks(v.block, v.leader, s.lab, s.w) && 0 <= v.block[s.lab[q]] < |v.leader|
    ensures s.lab[q + 1] == s.lab[|s.lab| - 1] <==> q + 1 == |s.lab| - 1
  {
    HoldsParts(v, s, a, s.w);
    BlockOf(v.block, v.leader, s.lab, s.w, q);
  }

  /** Moved, where the pointers are those of a tree. */
  ghost function MovedFrom(v: Ptrs, s: Shape, a: nat, p: nat, q: nat): Ptrs
    requires a > 0 && Represents(v, s, a, s.w) && Tree(s, a) && 1 <= p < q < |s.lab| - 1
  {
    BlockOf(v.block, v.leader, s.lab, s.w, p);
    Moved(v, s, a, p, q)
  }

  lemma TreeSize(s: Shape, a: nat)
    requires Tree(s, a)
    ensures |s.w| == |s.lab| && |s.lab| % 2 == 1 && |s.up| == |s.lab| / 2
    ensures |s.lab| >= 3 ==> s.up[0] == 2
    ensures forall k | 0 <= k < |s.up| :: 2 * k + 1 < s.up[k] < |s.lab|
  {
  }

  lemma LeaderField(nodes: seq<Node>, leader: seq<int>, leader': seq<int>)
    ensures Fields(nodes, leader') == Fields(nodes, leader).(leader := leader')
  {
  }

  lemma MovedIs(v: Ptrs, r: Ptrs, s: Shape, a: nat, p: nat, q: nat)
    requires a > 0 && Tree(s, a) && Sizes(v, 2 * a - 1) && InRange(s.lab, 2 * a - 1) && 1 <= p < q < |s.lab| - 1
    requires 0 <= v.block[s.lab[p]] < |v.leader|
    requires p / 2 < |s.up| && q / 2 < |s.up| && s.up[p / 2] < |s.lab| && s.up[q / 2] < |s.lab|
    requires r == Ptrs(v.weight, NewParent(v.parent, s.lab[p], s.lab[q]), NewChildren(v.leftChild, s, p, q, 0),
                       NewChildren(v.rightChild, s, p, q, 1), NewLeft(v.left, s.lab, p, q),
                           NewRight(v.right, s.lab, p, q),
                       v.block, v.leader[v.block[s.lab[p]] := s.lab[p]])
    ensures r == Moved(v, s, a, p, q)
  {
  }

  /** What the pointers say of a node's block, parent and weight. */
  lemma HoldsLeader(v: Ptrs, s: Shape, a: nat, now: seq<nat>, p: nat)
    requires Represents(v, s, a, now) && Tree(s, a) && Sorted(s.w) && 1 <= p < |s.lab| - 1
    ensures var q := Last(s.w, p);
      && s.lab[p] < 2 * a - 1 && 0 <= v.block[s.lab[p]] < |v.leader| && v.leader[v.block[s.lab[p]]] == s.lab[q]
      && v.weight[s.lab[p]] == now[p] && p / 2 < |s.up| && s.up[p / 2] < |s.lab|
      && v.parent[s.lab[p]] == s.lab[s.up[p / 2]]
      && (s.lab[q] == s.lab[p] <==> q == p) && (s.lab[q] == s.lab[s.up[p / 2]] <==> s.up[p / 2] == q)
  {
    var q := Last(s.w, p);
    BlockOf(v.block, v.leader, s.lab, s.w, p);
    BlockOf(v.block, v.leader, s.lab, s.w, q);
    ChildSide(v.parent, v.leftChild, v.rightChild, s, a, p);
    assert EndOfBlock(s.w, q);
  }

  lemma HoldsParts(v: Ptrs, s: Shape, a: nat, now: seq<nat>)
    requires Represents(v, s, a, now) && Tree(s, a)
    ensures a > 0 && Sizes(v, 2 * a - 1) && InRange(s.lab, 2 * a - 1) && Distinct(s.lab)
    ensures Neighbours(v.left, v.right, s.lab) && Family(v.parent, v.leftChild, v.rightChild, s, a)
    ensures ZeroList(v, s.zeros) && Blocks(v.block, v.leader, s.lab, s.w) && Weights(v.weight, s.lab, now)
  {
  }

  /** A node is below its parent on the side of its place. */
  lemma ChildSide(parent: seq<int>, lc: seq<int>, rc: seq<int>, s: Shape, a: nat, i: nat)
    requires Tree(s, a) && Family(parent, lc, rc, s, a) && i < |s.lab| - 1
    ensures i / 2 < |s.up| && s.up[i / 2] < |s.lab| && s.lab[i] < |parent| && s.lab[s.up[i / 2]] < |lc|
        && s.lab[s.up[i / 2]] < |rc|
    ensures parent[s.lab[i]] == s.lab[s.up[i / 2]] && (rc[s.lab[s.up[i / 2]]] == s.lab[i] <==> i % 2 == 1)
  {
    PairOf(parent, lc, rc, s, a, i / 2);
    assert i == 2 * (i / 2) || i == 2 * (i / 2) + 1;
    assert 2 * (i / 2) + 1 < s.up[i / 2];
    assert s.lab[2 * (i / 2)] != s.lab[2 * (i / 2) + 1];
  }

  lemma PairDistinct(s: Shape, a: nat, p: nat, q: nat)
    requires Tree(s, a) && p < q < |s.lab| - 1
    ensures p / 2 < |s.up| && q / 2 < |s.up| && s.up[p / 2] < |s.lab| && s.up[q / 2] < |s.lab| && s.lab[p] != s.lab[q]
    ensures s.lab[s.up[p / 2]] == s.lab[s.up[q / 2]] <==> p / 2 == q / 2
  {
    assert s.up[p / 2] < |s.lab| && s.up[q / 2] < |s.lab|;
  }

  lemma OneField(before: seq<Node>, now: seq<Node>, x: nat, leader: seq<int>)
    requires x < |before| == |now| && now == before[x := now[x]]
    ensures var v, r := Fields(before, leader), Fields(now, leader);
      && r.weight == v.weight[x := now[x].weight] && r.parent == v.parent[x := now[x].parent]
      && r.leftChild == v.leftChild[x := now[x].leftChild] && r.rightChild == v.rightChild[x := now[x].rightChild]
      && r.left == v.left[x := now[x].left] && r.right == v.right[x := now[x].right]
      && r.block == v.block[x := now[x].block]
      && before[x] == Node(v.weight[x], v.parent[x], v.leftChild[x], v.rightChild[x], v.left[x], v.right[x], v.block[x])
      && (forall s: seq<int>, i | 0 <= i < |s| :: s[i := s[i]] == s)
  {
  }

  lemma PlacesAround(left: seq<int>, right: seq<int>, lab: seq<nat>, p: nat, q: nat)
    requires Neighbours(left, right, lab) && Distinct(lab) && 1 <= p < q < |lab| - 1
    ensures left[lab[p]] == lab[p - 1] && right[lab[p]] == lab[p + 1] && left[lab[q]] == lab[q - 1]
        && right[lab[q]] == lab[q + 1]
    ensures lab[p + 1] == lab[q] <==> q == p + 1
    ensures lab[q - 1] == lab[p] <==> q == p + 1
    ensures lab[p - 1] != lab[p] && lab[p - 1] != lab[q] && lab[q + 1] != lab[p] && lab[q + 1] != lab[q]
        && lab[p - 1] != lab[q + 1]
    ensures lab[p] != lab[q] && lab[p - 1] != lab[p + 1] && lab[p - 1] != lab[q - 1] && lab[q + 1] != lab[p + 1]
        && lab[q + 1] != lab[q - 1]
  {
  }
}
