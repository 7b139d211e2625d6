/**
  xdelta3-fgk.h: which number stands for a symbol that comes for the first time.  The list of
  unseen symbols stays in order, so that the number is how many unseen ones are below it.
 */
module FgkOrder {
  import opened Bytes
  import opened Binary
  import opened FgkShape
  import opened FgkCodec
  import FgkTree
  import FgkUpdate
  import Fgk

  predicate Ascending(zeros: seq<nat>) {
    forall i, j | 0 <= i < j < |zeros| :: zeros[i] < zeros[j]
  }

  lemma AscendingCut(zeros: seq<nat>, j: nat)
    requires j < |zeros| && Ascending(zeros)
    ensures Ascending(zeros[..j] + zeros[j + 1..])
  {
  }

  lemma AscendingGone(zeros: seq<nat>, c: nat)
    requires c in zeros && Ascending(zeros) && Distinct(zeros)
    ensures Ascending(Gone(zeros, c))
  {
    hide Ascending, Gone, Distinct;
    var j := PlaceOf(zeros, c);
    FgkUpdate.GoneAt(zeros, j);
    AscendingCut(zeros, j);
  }

  /** An update keeps the order. */
  lemma UpdatedAscends(s: Shape, a: nat, c: nat)
    requires Good(s, a, -1) && c < a && (c in s.zeros ==> |s.zeros| >= 2) && Ascending(s.zeros)
    ensures Ascending(Updated(s, a, c).zeros)
  {
    hide Good, Updated, Ascending;
    UpdatedZeros(s, a, c);
    if c in s.zeros {
      ZerosDistinct(s, a);
      AscendingGone(s.zeros, c);
    }
  }

  // ------------------------------------------------------- along the data

  /** The tree as it stands when symbol `k` of the data is coded. */
  ghost function ShapeAt(s: Shape, a: nat, data: seq<nat>, k: nat): (r: Shape)
    requires Roomy(s, a, data) && k < |data|
    ensures Good(r, a, -1) && Tree(r, a) && (data[k] in r.zeros || data[k] in r.lab) && |r.lab| > 0 && data[k] < a
    decreases |data|
  {
    if k == 0 then
      Known(s, a, data[0]);
      s
    else ShapeAt(Updated(s, a, data[0]), a, data[1..], k - 1)
  }

  /** The codes of the data from symbol `k` on. */
  ghost function CodesFrom(s: Shape, a: nat, data: seq<nat>, k: nat): seq<bool>
    requires Roomy(s, a, data) && k <= |data|
    decreases |data| - k
  {
    if k == |data| then [] else Code(ShapeAt(s, a, data, k), a, data[k]) + CodesFrom(s, a, data, k + 1)
  }

  lemma {:induction false} CodesShift(s: Shape, a: nat, data: seq<nat>, k: nat)
    requires Roomy(s, a, data) && 0 < k <= |data| && !Final(s, data[0])
    ensures CodesFrom(s, a, data, k) == CodesFrom(Updated(s, a, data[0]), a, data[1..], k - 1)
    decreases |data| - k
  {
    hide Good, Updated, Code;
    if k < |data| {
      CodesShift(s, a, data, k + 1);
    }
  }

  /** What is written is the code of every symbol in the tree its predecessors have left. */
  lemma {:induction false} EncodedIsCodes(s: Shape, a: nat, data: seq<nat>)
    requires Roomy(s, a, data)
    ensures Encoded(s, a, data) == CodesFrom(s, a, data, 0)
    decreases |data|
  {
    hide Good, Updated, Code;
    if data != [] {
      Known(s, a, data[0]);
      if Final(s, data[0]) {
        assert CodesFrom(s, a, data, 1) == [];
      } else {
        EncodedIsCodes(Updated(s, a, data[0]), a, data[1..]);
        CodesShift(s, a, data, 1);
      }
    }
  }

  /** The unseen symbols are in order, and they are those that have not come yet. */
  ghost predicate UnseenAre(s: Shape, a: nat, seen: seq<nat>) {
    Ascending(s.zeros) && forall x: nat :: x in s.zeros <==> x < a && x !in seen
  }

  lemma {:induction false} UnseenAt(s: Shape, a: nat, data: seq<nat>, k: nat, seen: seq<nat>)
    requires Roomy(s, a, data) && k < |data| && UnseenAre(s, a, seen)
    ensures UnseenAre(ShapeAt(s, a, data, k), a, seen + data[..k])
    decreases |data|
  {
    hide Good, Updated, Ascending;
    if k == 0 {
      assert seen + data[..0] == seen;
    } else {
      var c := data[0];
      UpdatedAscends(s, a, c);
      UnseenNext(s, a, c, seen);
      UnseenAt(Updated(s, a, c), a, data[1..], k - 1, seen + [c]);
      assert seen + [c] + data[1..][..k - 1] == seen + data[..k];
    }
  }

  lemma UnseenNext(s: Shape, a: nat, c: nat, seen: seq<nat>)
    requires Good(s, a, -1) && c < a && (c in s.zeros ==> |s.zeros| >= 2) && UnseenAre(s, a, seen)
    ensures UnseenAre(Updated(s, a, c), a, seen + [c])
  {
    hide Good, Updated, Ascending;
    UpdatedAscends(s, a, c);
    UpdatedZeros(s, a, c);
    ZerosDistinct(s, a);
    forall x: nat ensures x in Updated(s, a, c).zeros <==> x < a && x !in seen + [c] {
      if c in s.zeros {
        GoneIs(s.zeros, c, x);
      }
    }
  }

  lemma FirstUnseen()
    ensures UnseenAre(FirstShape(), ALPHABET_SIZE, [])
  {
    var z := FirstShape().zeros;
    forall x: nat ensures x in z <==> x < ALPHABET_SIZE {
      if x < ALPHABET_SIZE {
        assert z[x] == x;
      }
    }
  }

  // ------------------------------------------------------------ the number

  /** The symbols below `c` that have not come yet. */
  function UnseenBelow(seen: seq<nat>, c: nat): set<nat> {
    set x: nat | x < c && x !in seen
  }

  function SetOf(s: seq<nat>): set<nat> {
    set x | x in s
  }

  lemma OneMore(s: seq<nat>, x: nat)
    requires x !in s
    ensures |SetOf(s + [x])| == |SetOf(s)| + 1
  {
    assert SetOf(s + [x]) == SetOf(s) + {x};
  }

  lemma NotBefore(zeros: seq<nat>, j: nat)
    requires Ascending(zeros) && j < |zeros|
    ensures zeros[j] !in zeros[..j] && zeros[..j + 1] == zeros[..j] + [zeros[j]]
  {
  }

  lemma {:induction false} CountFirst(zeros: seq<nat>, j: nat)
    requires Ascending(zeros) && j <= |zeros|
    ensures |SetOf(zeros[..j])| == j
    decreases j
  {
    hide Ascending;
    if j > 0 {
      CountFirst(zeros, j - 1);
      NotBefore(zeros, j - 1);
      OneMore(zeros[..j - 1], zeros[j - 1]);
    } else {
      assert SetOf(zeros[..0]) == {};
    }
  }

  lemma BelowPlace(zeros: seq<nat>, j: nat, x: nat)
    requires Ascending(zeros) && j < |zeros|
    ensures x in zeros[..j] <==> x in zeros && x < zeros[j]
  {
    if x in zeros && x < zeros[j] {
      var i :| 0 <= i < |zeros| && zeros[i] == x;
      assert zeros[..j][i] == x;
    }
  }

  /** The place in the list is the number of unseen symbols below. */
  lemma PlaceIsCount(s: Shape, a: nat, seen: seq<nat>, c: nat)
    requires UnseenAre(s, a, seen) && c in s.zeros
    ensures PlaceOf(s.zeros, c) == |UnseenBelow(seen, c)|
  {
    hide Ascending;
    var j := PlaceOf(s.zeros, c);
    CountFirst(s.zeros, j);
    forall x: nat ensures x in SetOf(s.zeros[..j]) <==> x in UnseenBelow(seen, c) {
      BelowPlace(s.zeros, j, x);
    }
    assert SetOf(s.zeros[..j]) == UnseenBelow(seen, c);
  }

  lemma UnseenCount(s: Shape, a: nat, seen: seq<nat>)
    requires UnseenAre(s, a, seen)
    ensures |s.zeros| == |UnseenBelow(seen, a)|
  {
    var n := |s.zeros|;
    if n > 0 {
      var last := s.zeros[n - 1];
      Fgk.PlaceIs(s.zeros, last, n - 1) by { LastPlace(s.zeros, last); }
      PlaceIsCount(s, a, seen, last);
      assert UnseenBelow(seen, a) == UnseenBelow(seen, last) + {last};
    } else {
      assert UnseenBelow(seen, a) == {};
    }
  }

  lemma LastPlace(zeros: seq<nat>, c: nat)
    requires Ascending(zeros) && zeros != [] && c == zeros[|zeros| - 1]
    ensures PlaceOf(zeros, c) == |zeros| - 1
  {
  }

  /** The code of a symbol that comes for the first time: the way to the unseen ones, and how
      many of those are below it. */
  lemma NewCode(data: seq<nat>, k: nat)
    requires Roomy(FirstShape(), ALPHABET_SIZE, data) && k < |data| && data[k] !in data[..k]
    ensures var s := ShapeAt(FirstShape(), ALPHABET_SIZE, data, k);
      Code(s, ALPHABET_SIZE, data[k]) == Path(s, ALPHABET_SIZE, 0)
        + ToBits(|UnseenBelow(data[..k], data[k])|, ZeroBits(|UnseenBelow(data[..k], ALPHABET_SIZE)|))
  {
    hide Good, Updated, FgkTree.FirstShape, UnseenBelow, Path, ToBits, Tree;
    var s := ShapeAt(FirstShape(), ALPHABET_SIZE, data, k);
    FirstUnseen();
    UnseenAt(FirstShape(), ALPHABET_SIZE, data, k, []);
    assert [] + data[..k] == data[..k];
    PlaceIsCount(s, ALPHABET_SIZE, data[..k], data[k]);
    UnseenCount(s, ALPHABET_SIZE, data[..k]);
  }

  lemma {:induction false} BelowAll(c: nat)
    ensures |UnseenBelow([], c)| == c
    decreases c
  {
    if c == 0 {
      assert UnseenBelow([], 0) == {};
    } else {
      BelowAll(c - 1);
      assert UnseenBelow([], c) == UnseenBelow([], c - 1) + {c - 1};
    }
  }

  lemma BelowBut(c: nat, d: nat)
    ensures |UnseenBelow([c], d)| == if c < d then d - 1 else d
  {
    BelowAll(d);
    if c < d {
      assert UnseenBelow([], d) == UnseenBelow([c], d) + {c};
    } else {
      assert UnseenBelow([], d) == UnseenBelow([c], d);
    }
  }

  lemma EightBits()
    ensures ZeroBits(ALPHABET_SIZE) == 8 == ZeroBits(ALPHABET_SIZE - 1)
  {
    assert ZeroBits(8) == 3 && ZeroBits(64) == 3 + ZeroBits(8);
  }

  /** The first byte of all data is sent as it is. */
  lemma FirstCode(data: seq<byte>)
    requires Roomy(FirstShape(), ALPHABET_SIZE, data) && data != []
    ensures ToBits(data[0], 8) <= Encoded(FirstShape(), ALPHABET_SIZE, data)
  {
    hide Good, Updated, UnseenBelow, ToBits, Tree, Encoded, ZeroBits;
    var s := FirstShape();
    EncodedIsCodes(s, ALPHABET_SIZE, data);
    FirstIsByte(data);
  }

  /** The tree of one byte: the byte to the right, all others to the left. */
  lemma ShapeOfOne(c: nat)
    requires c < ALPHABET_SIZE
    ensures Good(FirstShape(), ALPHABET_SIZE, -1) && c in FirstShape().zeros && |FirstShape().zeros| == ALPHABET_SIZE
    ensures var s := Updated(FirstShape(), ALPHABET_SIZE, c);
      && s.lab == [s.zeros[0], c, ALPHABET_SIZE] && s.up == [2]
      && s.zeros == Gone(FirstShape().zeros, c)
  {
    hide Good;
    FirstGood();
    assert FirstShape().zeros[c] == c;
  }

  /** The second one is one bit if it is the first again; otherwise a bit leads to the unseen
      bytes, and eight bits number it among them. */
  lemma SecondCode(c: byte, d: byte)
    ensures Roomy(FirstShape(), ALPHABET_SIZE, [c, d])
    ensures Encoded(FirstShape(), ALPHABET_SIZE, [c, d])
      == ToBits(c, 8) + if d == c then [true] else [false] + ToBits(if d < c then d else d - 1, 8)
  {
    hide Good, Updated, UnseenBelow, ToBits, Encoded, ZeroBits, Gone, FgkTree.FirstShape;
    var data: seq<byte> := [c, d];
    RoomOfTwo(data);
    var s := FirstShape();
    FirstCode(data);
    EncodedIsCodes(s, ALPHABET_SIZE, data);
    ShapeOfOne(c);
    FirstUnseen();
    var r := ShapeAt(s, ALPHABET_SIZE, data, 1);
    ShapeSecond(s, ALPHABET_SIZE, data);
    UnseenAt(s, ALPHABET_SIZE, data, 1, []);
    assert [] + data[..1] == [c];
    FirstIsByte(data);
    assert Path(r, ALPHABET_SIZE, 2) == [];
    if d == c {
      assert PlaceOf(r.lab, c) == 1 by { SecondPlace(r, c); }
      assert Path(r, ALPHABET_SIZE, 1) == [true];
    } else {
      assert data[..1] == [c];
      NewCode(data, 1);
      BelowBut(c, d);
      BelowBut(c, ALPHABET_SIZE);
      EightBits();
      assert Path(r, ALPHABET_SIZE, 0) == [false];
    }
    assert CodesFrom(s, ALPHABET_SIZE, data, 2) == [];
  }

  lemma ShapeSecond(s: Shape, a: nat, data: seq<nat>)
    requires Roomy(s, a, data) && |data| > 1
    ensures data[0] < a && Good(s, a, -1) && (data[0] in s.zeros ==> |s.zeros| >= 2)
    ensures ShapeAt(s, a, data, 1) == Updated(s, a, data[0])
  {
    hide Good, Updated;
    assert ShapeAt(Updated(s, a, data[0]), a, data[1..], 0) == Updated(s, a, data[0]);
  }

  lemma SecondPlace(r: Shape, c: nat)
    requires |r.zeros| > 0 && r.lab == [r.zeros[0], c, ALPHABET_SIZE] && c !in r.zeros
    ensures PlaceOf(r.lab, c) == 1
  {
    assert r.lab[1..] == [c, ALPHABET_SIZE];
  }

  lemma FirstIsByte(data: seq<byte>)
    requires Roomy(FirstShape(), ALPHABET_SIZE, data) && data != []
    ensures Code(ShapeAt(FirstShape(), ALPHABET_SIZE, data, 0), ALPHABET_SIZE, data[0]) == ToBits(data[0], 8)
  {
    hide Good, Updated, UnseenBelow, ToBits, Tree, ZeroBits;
    var s := FirstShape();
    NewCode(data, 0);
    assert data[..0] == [];
    BelowAll(data[0]);
    BelowAll(ALPHABET_SIZE);
    EightBits();
    assert Path(s, ALPHABET_SIZE, 0) == [];
    assert [] + ToBits(data[0], 8) == ToBits(data[0], 8);
  }

  lemma RoomOfTwo(data: seq<byte>)
    requires |data| == 2
    ensures Roomy(FirstShape(), ALPHABET_SIZE, data)
  {
    var x: byte := if data[0] == 0 then 1 else 0;
    assert !SeenBefore(data, x);
    FirstRoom(data);
  }
}
