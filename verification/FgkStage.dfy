/** xdelta3-fgk.h: the stages of fgk_update_tree, and what each makes of the tree. */
module FgkStage {
  import opened Bytes
  import opened FgkShape
  import opened FgkLinks
  import opened FgkUpdate

  /** Most nodes are exchanged and promoted; the symbol and the join just added only get
      their first weight; and beside the unseen symbols a node is left where it is, when
      its parent leads the block. */
  datatype Phase = Usual | NewSymbol | NewJoin | Side

  /** The weights as they are in a phase. */
  function NowOf(s: Shape, phase: Phase): (now: seq<nat>)
    requires |s.w| > 2
    ensures |now| == |s.w|
  {
    match phase
    case Usual => s.w
    case NewSymbol => s.w[1 := 0][2 := 0]
    case NewJoin => s.w[2 := 0]
    case Side => Heavier(s, 1).w
  }

  /** A tree with a new symbol, whose own places have weight one already. */
  ghost predicate FreshTree(s: Shape, a: nat, target: Shape) {
    && |s.w| == |s.lab| > 2 && s.w[1] == 1 && s.w[2] == 1
    && if |s.lab| == 3 then Good(s, a, -1) && target == s
       else Standing(s, a, 4) && s.up[1] == 4 && target == Climb(s, a, 4)
  }

  ghost predicate Stage(s: Shape, a: nat, phase: Phase, p: nat, target: Shape) {
    match phase
    case Usual => |s.lab| > 2 && Standing(s, a, p) && target == Climb(s, a, p)
    case NewSymbol => p == 1 && FreshTree(s, a, target)
    case NewJoin => p == 2 && FreshTree(s, a, target)
    case Side => p == 2 && |s.lab| > 3 && Standing(s, a, 1) && Beside(s, 1) && target == Climb(s, a, 1)
  }

  lemma StageFacts(s: Shape, a: nat, phase: Phase, p: nat, target: Shape)
    requires Stage(s, a, phase, p, target)
    ensures Tree(s, a) && Unseen(s, a) && Sorted(s.w) && |s.w| == |s.lab| > 2 && 1 <= p < |s.lab|
    ensures p < |s.lab| - 1 ==> NowOf(s, phase)[p] == 0 || NowOf(s, phase) == s.w || Last(s.w, p) == p
    ensures forall i | 1 <= i < |s.w| :: s.w[i] > 0
  {
  }

  /** After the exchange, and where the node is then. */
  function MovedTo(s: Shape, phase: Phase, p: nat): (r: (Shape, nat))
    requires |s.w| == |s.lab| > 2 && 1 <= p < |s.lab| - 1 && |s.up| == |s.w| / 2
  {
    if phase.Usual? && Last(s.w, p) != p && Parent(s, p) != Last(s.w, p)
    then (Swapped(s, p, Last(s.w, p)), Last(s.w, p))
    else (s, p)
  }

  lemma StageMoved(s: Shape, a: nat, phase: Phase, p: nat, target: Shape)
    requires Stage(s, a, phase, p, target) && |s.w| == |s.lab| > 2 && 1 <= p < |s.lab| - 1 && |s.up| == |s.w| / 2
    ensures var (t, q) := MovedTo(s, phase, p);
      && Tree(t, a) && Unseen(t, a) && Sorted(t.w) && |t.lab| == |s.lab| && |t.w| == |s.w| && 1 <= q < |t.lab| - 1
      && t.lab[q] == s.lab[p] && t.lab[0] == s.lab[0] && t.lab[|t.lab| - 1] == s.lab[|s.lab| - 1]
      && t.w == s.w && t.zeros == s.zeros
      && (NowOf(s, phase)[q] != 0 ==> Promotable(t, q, NowOf(s, phase)))
      && (phase.Usual? || t == s)
      && (phase.Usual? && p != 1 ==> q > 2 && !Beside(s, p))
      && (phase.Usual? && p == 1 && |s.lab| > 3 && !Beside(s, p) ==> q > 2)
  {
    match phase
    case Usual => UsualMoved(s, a, p);
    case NewSymbol => FreshMoved(s, a, target);
    case NewJoin => FreshMoved(s, a, target);
    case Side => SideMoved(s, a);
  }

  lemma FreshMoved(s: Shape, a: nat, target: Shape)
    requires FreshTree(s, a, target)
    ensures Tree(s, a) && Unseen(s, a) && Sorted(s.w) && s.w[1] == 1 && s.w[2] == 1
    ensures forall i | 1 <= i < |s.w| :: s.w[i] > 0
  {
  }

  lemma SideMoved(s: Shape, a: nat)
    requires Standing(s, a, 1) && |s.lab| > 3 && Beside(s, 1) && |s.w| == |s.lab|
    ensures Tree(s, a) && Unseen(s, a) && Sorted(s.w) && Promotable(s, 2, Heavier(s, 1).w)
  {
    assert SumAt(s, 1, 0);
    TreeIsOdd(s, a);
  }

  lemma TreeIsOdd(s: Shape, a: nat)
    requires Tree(s, a) && |s.lab| > 3
    ensures |s.lab| > 4
  {
  }

  lemma UsualMoved(s: Shape, a: nat, p: nat)
    requires Standing(s, a, p) && |s.w| == |s.lab| > 2 && 1 <= p < |s.lab| - 1 && |s.up| == |s.w| / 2
    ensures var (t, q) := MovedTo(s, Usual, p);
      && Tree(t, a) && Unseen(t, a) && Sorted(t.w) && |t.lab| == |s.lab| && 1 <= q < |t.lab| - 1
      && t.lab[q] == s.lab[p] && t.lab[0] == s.lab[0] && t.lab[|t.lab| - 1] == s.lab[|s.lab| - 1]
      && t.w == s.w && t.zeros == s.zeros && Promotable(t, q, s.w)
      && (p != 1 ==> q > 2 && !Beside(s, p))
      && (p == 1 && |s.lab| > 3 && !Beside(s, p) ==> q > 2)
  {
    var q := Last(s.w, p);
    UsualPlaces(s, a, p);
    LastBlock(s.w, p);
    if q != p && Parent(s, p) != q {
      SwapTree(s, a, p, p, q);
      SwapUnseen(s, a, p, q);
    }
    hide Tree, Unseen, HasChildren;
  }

  lemma LastBlock(w: seq<nat>, p: nat)
    requires Sorted(w) && 1 <= p < |w| - 1
    ensures var q := Last(w, p); EndOfBlock(w, q) && forall j | p <= j <= q :: w[j] == w[p]
  {
    var q := Last(w, p);
    forall j | p <= j <= q ensures w[j] == w[p] {
      assert w[p] <= w[j] <= w[q];
    }
  }

  /** Where the walk meets a block whose leader is the parent. */
  lemma UsualPlaces(s: Shape, a: nat, p: nat)
    requires Standing(s, a, p) && |s.lab| > 2 && p < |s.lab| - 1
    ensures p != 2 && s.up[0] == 2 && p / 2 < |s.up| && s.up[p / 2] < |s.lab|
    ensures var q := Last(s.w, p);
      && (Parent(s, p) == q <==> Beside(s, p))
      && (p == 1 && |s.lab| > 3 ==> q >= 2)
      && (|s.lab| == 3 ==> p == 1 && q == 1 && Parent(s, 1) == 2)
  {
    var q := Last(s.w, p);
    assert SumAt(s, p, 0);
    assert SumAt(s, p, p / 2);
    assert 2 * (p / 2) == p || 2 * (p / 2) + 1 == p;
    assert 2 * (p / 2) + 1 < s.up[p / 2];
  }

  /** The tree, the phase and the place after one turn of the loop. */
  function LiftedTo(s: Shape, phase: Phase, p: nat): (r: (Shape, Phase, nat))
    requires |s.w| == |s.lab| > 2 && 1 <= p < |s.lab| - 1 && |s.up| == |s.w| / 2
    requires phase.NewJoin? || phase.Side? ==> |s.w| > 4
  {
    match phase
    case Usual =>
      if Beside(s, p) then (s, Side, 2)
      else
        var (t, q) := MovedTo(s, phase, p);
        (Heavier(t, q), Usual, Parent(t, q))
    case NewSymbol => (s, NewJoin, 2)
    case NewJoin => (s, Usual, Parent(s, 2))
    case Side => (Heavier(Heavier(s, 1), 2), Usual, Parent(s, 2))
  }

  lemma StageNext(s: Shape, a: nat, phase: Phase, p: nat, target: Shape)
    requires Stage(s, a, phase, p, target) && |s.w| == |s.lab| > 2 && 1 <= p < |s.lab| - 1 && |s.up| == |s.w| / 2
    requires phase.NewJoin? || phase.Side? ==> |s.w| > 4
    ensures Next(s, a, phase, p, target)
  {
    match phase
    case Usual => UsualNext(s, a, p);
    case NewSymbol => NewSymbolNext(s, a, target);
    case NewJoin => NewJoinNext(s, a, target);
    case Side => SideNext(s, a);
  }

  /** One turn of the loop leads to the next stage. */
  ghost predicate Next(s: Shape, a: nat, phase: Phase, p: nat, target: Shape)
    requires |s.w| == |s.lab| > 2 && 1 <= p < |s.lab| - 1 && |s.up| == |s.w| / 2
    requires phase.NewJoin? || phase.Side? ==> |s.w| > 4
  {
    var (t, q) := MovedTo(s, phase, p);
    var (r, phase', p') := LiftedTo(s, phase, p);
    && |r.w| == |s.w| && Stage(r, a, phase', p', target) && p < p' < |s.lab| && |r.lab| == |s.lab| && r.zeros == s.zeros
    && q < |s.lab| - 1 && q / 2 < |r.up| && p' == r.up[q / 2]
    && NowOf(r, phase') == NowOf(s, phase)[q := NowOf(s, phase)[q] + 1]
    && r.lab == t.lab && r.up == t.up
  }

  lemma UsualNext(s: Shape, a: nat, p: nat)
    requires Standing(s, a, p) && |s.w| == |s.lab| > 2 && 1 <= p < |s.lab| - 1 && |s.up| == |s.w| / 2
    ensures Next(s, a, Usual, p, Climb(s, a, p))
  {
    if Beside(s, p) {
      UsualPlaces(s, a, p);
      ClimbStep(s, a, p);
      BesideNext(s, a);
    } else {
      OtherNext(s, a, p);
    }
  }

  lemma OtherNext(s: Shape, a: nat, p: nat)
    requires Standing(s, a, p) && |s.w| == |s.lab| > 2 && 1 <= p < |s.lab| - 1 && |s.up| == |s.w| / 2 && !Beside(s, p)
    ensures Next(s, a, Usual, p, Climb(s, a, p))
  {
    hide Tree, Unseen, Weighed, Climb, Beside, Last, Standing, Lifted, MovedTo, LiftedTo;
    UsualPlaces(s, a, p);
    ClimbStep(s, a, p);
    StandingOdd(s, a, p);
    LiftedIs(s, p);
  }

  lemma StandingOdd(s: Shape, a: nat, p: nat)
    requires Standing(s, a, p)
    ensures |s.w| % 2 == 1
  {
  }

  lemma BesideNext(s: Shape, a: nat)
    requires |s.w| == |s.lab| > 3 && |s.up| == |s.w| / 2 && Standing(s, a, 1) && Beside(s, 1) && Parent(s, 1) == 2
        && Last(s.w, 1) == 2
    ensures Next(s, a, Usual, 1, Climb(s, a, 1))
  {
    hide Standing, Climb;
  }

  /** The step the program takes is the step of the walk. */
  lemma LiftedIs(s: Shape, p: nat)
    requires |s.w| == |s.lab| > 2 && 1 <= p < |s.lab| - 1 && |s.up| == |s.w| / 2 && |s.w| % 2 == 1
    requires !Beside(s, p) && Parent(s, p) != Last(s.w, p)
    ensures var (t, q) := MovedTo(s, Usual, p);
      && q == Last(s.w, p) && t == Swapped(s, p, q) && q < |s.lab| - 1 && q / 2 < |t.up|
      && LiftedTo(s, Usual, p) == (Heavier(t, q), Usual, t.up[q / 2])
      && Lifted(s, p) == (Heavier(t, q), t.up[q / 2])
  {
    if Last(s.w, p) == p {
      SwapSelf(s, p);
    }
  }

  lemma ClimbStep(s: Shape, a: nat, p: nat)
    requires Standing(s, a, p) && p < |s.lab| - 1
    ensures var (t, q) := Lifted(s, p);
      Standing(t, a, q) && Climb(s, a, p) == Climb(t, a, q) && p < q < |t.lab| && |t.lab| == |s.lab|
          && t.zeros == s.zeros
  {
    LiftedStands(s, a, p);
    hide Standing, Lifted;
  }

  lemma NewSymbolNext(s: Shape, a: nat, target: Shape)
    requires FreshTree(s, a, target) && |s.up| == |s.w| / 2 && 1 < |s.lab| - 1
    ensures Next(s, a, NewSymbol, 1, target)
  {
    assert s.up[0] == 2 by { assert Tree(s, a); }
    hide FreshTree;
  }

  lemma NewJoinNext(s: Shape, a: nat, target: Shape)
    requires FreshTree(s, a, target) && |s.up| == |s.w| / 2 && |s.w| > 4
    ensures Next(s, a, NewJoin, 2, target)
  {
    hide Standing, Climb;
  }

  lemma SideNext(s: Shape, a: nat)
    requires |s.w| == |s.lab| > 4 && |s.up| == |s.w| / 2 && Standing(s, a, 1) && Beside(s, 1)
    ensures Next(s, a, Side, 2, Climb(s, a, 1))
  {
    hide Standing, Climb, Lifted;
    BesideLifted(s, a);
    ClimbStep(s, a, 1);
    BesidePlaces(s, a);
  }

  lemma BesidePlaces(s: Shape, a: nat)
    requires |s.w| == |s.lab| > 4 && Standing(s, a, 1) && Beside(s, 1)
    ensures |s.up| > 1 && 2 < s.up[1] < |s.lab| && Parent(s, 2) == s.up[1]
    ensures Lifted(s, 1) == (Heavier(Heavier(s, 1), 2), s.up[1])
  {
    BesideLifted(s, a);
  }
}
