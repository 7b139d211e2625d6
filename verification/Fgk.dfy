/** xdelta3-fgk.h: the adaptive Huffman code, and reading it. */
module Fgk {
  import opened Bytes
  import opened Binary
  import opened BitIO
  import opened FgkShape
  import opened FgkLinks
  import opened FgkUpdate
  import opened FgkTree
  import Arith

  // --------------------------------------------------------------- bit stacks

  function Reversed(s: seq<bool>): (r: seq<bool>)
    ensures |r| == |s|
  {
    if s == [] then [] else Reversed(s[1..]) + [s[0]]
  }

  lemma {:induction false} ReversedAppend(s: seq<bool>, b: bool)
    ensures Reversed(s + [b]) == [b] + Reversed(s)
    decreases |s|
  {
    if s == [] {
      assert (s + [b])[1..] == [];
    } else {
      assert (s + [b])[1..] == s[1..] + [b];
      ReversedAppend(s[1..], b);
    }
  }

  lemma LastIsFirst(s: seq<bool>)
    requires s != []
    ensures Reversed(s) == [s[|s| - 1]] + Reversed(s[..|s| - 1])
  {
    hide Reversed;
    var front, last := s[..|s| - 1], s[|s| - 1];
    ReversedAppend(front, last);
    assert front + [last] == s;
  }

  /** The digits of a number from the other end. */
  lemma {:induction false} ReversedBits(value: nat, n: nat)
    requires value < Pow2(n)
    ensures Reversed(LowBits(value, n)) == ToBits(value, n)
    decreases n
  {
    if n > 0 {
      var low, rest := value % 2, value / 2;
      ReversedBits(rest, n - 1);
      assert LowBits(value, n)[1..] == LowBits(rest, n - 1);
      ToBitsLast(value, n);
    }
  }

  lemma {:induction false} ToBitsLast(value: nat, n: nat)
    requires value < Pow2(n) && n > 0
    ensures value / 2 < Pow2(n - 1) && ToBits(value, n) == ToBits(value / 2, n - 1) + [value % 2 == 1]
    decreases n
  {
    if n == 1 {
      assert Pow2(1) == 2 && Pow2(0) == 1;
      assert ToBits(value, 1) == [value == 1] + ToBits(0, 0);
    } else {
      var p := Pow2(n - 2);
      assert Pow2(n - 1) == 2 * p;
      var q, r := value / (2 * p), value % (2 * p);
      Halves(value, p);
      ToBitsLast(r, n - 1);
      assert [q % 2 == 1] + (ToBits(r / 2, n - 2) + [r % 2 == 1]) == [q % 2 == 1] + ToBits(r / 2, n - 2) + [r % 2 == 1];
    }
  }

  /** Leaving out the lowest digit and splitting off the highest ones. */
  lemma Halves(v: nat, p: nat)
    requires p > 0
    ensures v / 2 / p == v / (2 * p) && v / 2 % p == v % (2 * p) / 2 && v % 2 == v % (2 * p) % 2
  {
    var q, r := v / (2 * p), v % (2 * p);
    assert v == q * (2 * p) + r;
    assert q * (2 * p) == 2 * (q * p);
    assert v / 2 == q * p + r / 2;
    Arith.DivisionUnique(v / 2, p, q, r / 2);
  }

  // --------------------------------------------------- numbering the unseen

  lemma {:induction false} EnoughBits(k: nat)
    ensures k <= Pow2(ZeroBits(k)) && (ZeroBits(k) > 0 ==> Pow2(ZeroBits(k) - 1) < k)
    decreases k
  {
    if k > 1 {
      EnoughBits((k + 1) / 2);
    } else {
      assert Pow2(0) == 1;
    }
  }

  lemma BitsAre(k: nat, n: nat)
    requires k > 0 && k <= Pow2(n) && (n > 0 ==> Pow2(n - 1) < k)
    ensures n == ZeroBits(k)
  {
    EnoughBits(k);
    var m := ZeroBits(k);
    if n < m {
      Pow2Monotone(n, m - 1);
    } else if m < n {
      Pow2Monotone(m, n - 1);
    }
  }

  /** fgk_encode_data and fgk_decode_bit: the number of bits, from what is kept. */
  lemma FactoredBits(count: nat, exp: nat, rem: nat)
    requires count > 0 && count == Pow2(exp) + rem && rem < Pow2(exp)
    ensures (if rem == 0 then exp else exp + 1) == ZeroBits(count)
  {
    if rem == 0 {
      if exp > 0 {
        assert Pow2(exp) == 2 * Pow2(exp - 1);
      }
      BitsAre(count, exp);
    } else {
      BitsAre(count, exp + 1);
    }
  }

  /** A coder: the tree, and the bits of the symbol in hand. */
  class Coder {
    const h: FgkTree.Fgk
    var codedBits: seq<bool>
    var decodePtr: int

    constructor (size: nat)
      requires size >= 2
      ensures fresh(h) && fresh(h.node) && h.Valid() && h.a == size && h.shape == FirstShape(size)
      ensures codedBits == [] && decodePtr == h.root
    {
      h := new FgkTree.Fgk(size);
      codedBits, decodePtr := [], 0;
      new;
      decodePtr := h.root;
    }

    /** fgk_find_nth_zero */
    method FindNthZero(n: nat) returns (idx: nat)
      requires h.Valid() && n in h.shape.zeros
      ensures idx == PlaceOf(h.shape.zeros, n)
    {
      hide Represents, Tree, Unseen, Sorted, Good;
      ghost var zl := h.shape.zeros;
      ListOf(h.View(), h.shape, h.a);
      PlaceFirst(zl, n);
      var head: int := h.zeros;
      idx := 0;
      while head != n
        invariant idx <= PlaceOf(zl, n) && head == zl[idx]
        decreases |zl| - idx
      {
        assert ZeroAt(h.View(), zl, idx);
        h.Reads(head);
        head := h.node[head].rightChild;
        idx := idx + 1;
      }
      PlaceIs(zl, n, idx);
    }

    /** fgk_nth_zero: a number too high means the last one. */
    method NthZero(n0: nat) returns (c: nat)
      requires h.Valid()
      ensures h.shape.zeros != [] && c == h.shape.zeros[Min(n0, |h.shape.zeros| - 1)]
    {
      hide Represents, Tree, Unseen, Sorted, Good;
      ghost var zl := h.shape.zeros;
      ListOf(h.View(), h.shape, h.a);
      var ret: int := h.zeros;
      var n := n0;
      ghost var at: nat := 0;
      assert ZeroAt(h.View(), zl, 0);
      h.Reads(ret);
      while n != 0 && h.node[ret].rightChild != NONE
        invariant at + n == n0 && at < |zl| && ret == zl[at] && 0 <= ret < h.node.Length
        decreases n
      {
        assert ZeroAt(h.View(), zl, at);
        h.Reads(ret);
        ret := h.node[ret].rightChild;
        at := at + 1;
        n := n - 1;
      }
      assert ZeroAt(h.View(), zl, at);
      h.Reads(ret);
      c := ret;
    }

    /** fgk_encode_data: the bits of a symbol, last bit first, and the tree after it. */
    method EncodeData(n: nat)
      requires h.Valid() && n < h.a && (n in h.shape.zeros ==> |h.shape.zeros| >= 2)
      modifies this, h, h.node
      ensures h.Valid() && h.shape == Updated(old(h.shape), h.a, n)
      ensures Tree(old(h.shape), h.a) && (n in old(h.shape).zeros || n in old(h.shape).lab) && |old(h.shape).lab| > 0
      ensures Reversed(codedBits) == Code(old(h.shape), h.a, n)
    {
      hide Represents, Tree, Unseen, Sorted, Good, Code, Updated, Reversed;
      EncodeBits(n);
      h.UpdateTree(n);
    }

    /** fgk_encode_data before it changes the tree.  The last unseen symbol needs no number. */
    method EncodeBits(n: nat)
      requires h.Valid() && n < h.a
      modifies this
      ensures Tree(h.shape, h.a) && (n in h.shape.zeros || n in h.shape.lab) && |h.shape.lab| > 0
      ensures Reversed(codedBits) == Code(h.shape, h.a, n)
    {
      hide Represents, Tree, Unseen, Sorted, Good, Path, Code, Reversed, Pow2;
      ghost var s := h.shape;
      ShapeSymbols(h.View(), s, h.a, n);
      SymbolWeight(h.View(), s, h.a, n);
      h.Reads(n);
      var target: int := n;
      ghost var t: nat := 0;
      codedBits := [];
      NoneReversed();
      if h.node[n].weight == 0 {
        NumberBits(n);
        target := h.zeros;
      } else {
        t := PlaceOf(s.lab, n);
      }
      ghost var base := Reversed(codedBits);
      ClimbPath(target, t);
      CodeIs(s, h.a, n, t, base);
    }

    /** Whether a symbol is the only one that has not been seen. */
    method LastUnseen(n: nat) returns (last: bool)
      requires h.Valid() && n < h.a
      ensures last <==> n in h.shape.zeros && |h.shape.zeros| < 2
    {
      hide Represents, Tree, Unseen, Sorted, Good;
      SymbolWeight(h.View(), h.shape, h.a, n);
      h.Reads(n);
      last := h.node[n].weight == 0 && h.count < 2;
    }

    /** The number of an unseen symbol, lowest bit first. */
    method NumberBits(n: nat)
      requires h.Valid() && n in h.shape.zeros && codedBits == []
      modifies this
      ensures Reversed(codedBits) == ToBits(PlaceOf(h.shape.zeros, n), ZeroBits(|h.shape.zeros|))
          && decodePtr == old(decodePtr)
    {
      hide Represents, Tree, Unseen, Sorted, Good, Pow2, LowBits, Reversed, ToBits;
      var place := FindNthZero(n);
      FactoredBits(h.count, h.exp, h.rem);
      EnoughBits(h.count);
      var bits: nat := if h.rem == 0 then h.exp else h.exp + 1;
      ghost var total := bits;
      var shift: nat := 1;
      ghost var k: nat := 0;
      PowerNext(0);
      NoLowBits(place);
      while bits > 0
        invariant k + bits == total && shift == Pow2(k) && codedBits == LowBits(place, k)
        invariant decodePtr == old(decodePtr)
        decreases bits
      {
        LowBitsNext(place, k);
        PowerNext(k);
        codedBits := codedBits + [Test(place, shift)];
        bits := bits - 1;
        shift := shift * 2;
        k := k + 1;
      }
      ReversedBits(place, total);
    }

    /** The way from a node up to the root. */
    method ClimbPath(start: int, ghost t: nat)
      requires h.Valid() && t < |h.shape.lab| && h.shape.lab[t] == start
      modifies this
      ensures Tree(h.shape, h.a) && Reversed(codedBits) == Path(h.shape, h.a, t) + Reversed(old(codedBits))
    {
      hide Represents, Unseen, Sorted, Path, Reversed;
      ghost var s, a := h.shape, h.a;
      var target := start;
      ghost var i := t;
      ghost var base := Reversed(codedBits);
      while target != h.root
        invariant i < |s.lab| && target == s.lab[i]
        invariant Path(s, a, t) + base == Path(s, a, i) + Reversed(codedBits)
        decreases |s.lab| - i
      {
        assert i < |s.lab| - 1;
        UpFrom(h.View(), s, a, i);
        h.Reads(target);
        var parent := h.node[target].parent;
        h.Reads(parent);
        var bit := h.node[parent].rightChild == target;
        ghost var before := Reversed(codedBits);
        ReversedAppend(codedBits, bit);
        codedBits := codedBits + [bit];
        assert Path(s, a, s.up[i / 2]) + [bit] + before == Path(s, a, s.up[i / 2]) + ([bit] + before);
        target := parent;
        i := s.up[i / 2];
      }
      RootPath(s, a, i);
      assert [] + Reversed(codedBits) == Reversed(codedBits);
    }

    /** Where the decoder is after `m` bits of the code of `c`: on the way to its place,
        or, for an unseen symbol, collecting its number. */
    ghost predicate Reading(c: nat, m: nat)
      requires h.Valid() && (c in h.shape.zeros || c in h.shape.lab)
      reads this, h, h.node
    {
      var s, a := h.shape, h.a;
      var path := WayTo(s, a, c);
      && m <= |Code(s, a, c)| && |path| <= |Code(s, a, c)|
      && (if m <= |path| then codedBits == [] && decodePtr == s.lab[Ancestor(s, a, TargetOf(s, c), m)]
          else codedBits == Code(s, a, c)[|path|..m] && decodePtr == s.lab[0])
    }

    /** fgk_decode_bit */
    method DecodeBit(b: bool, ghost c: nat, ghost m: nat) returns (done: bool)
      requires h.Valid() && c < h.a && (c in h.shape.zeros || c in h.shape.lab)
      requires Reading(c, m) && m < |Code(h.shape, h.a, c)| && b == Code(h.shape, h.a, c)[m]
      modifies this
      ensures Reading(c, m + 1) && (done <==> m + 1 == |Code(h.shape, h.a, c)|)
    {
      hide Represents, Tree, Unseen, Sorted, Good, Path, Code, Ancestor, Pow2;
      ghost var s, a, v := h.shape, h.a, h.View();
      ShapeSymbols(v, s, a, c);
      CodeParts(s, a, c);
      ghost var i := if m <= |WayTo(s, a, c)| then Ancestor(s, a, TargetOf(s, c), m) else 0;
      PlaceNode(v, s, a, i);
      h.Reads(decodePtr);
      if m < |WayTo(s, a, c)| {
        WayDown(v, s, a, TargetOf(s, c), m);
      } else {
        AtTheEnd(s, a, c);
      }
      if h.node[decodePtr].weight == 0 {
        done := Collect(b, c, m);
      } else {
        done := Descend(b, c, m);
      }
    }

    /** One bit of the number of an unseen symbol. */
    method Collect(b: bool, ghost c: nat, ghost m: nat) returns (done: bool)
      requires h.Valid() && c < h.a && c in h.shape.zeros
      requires Reading(c, m) && |WayTo(h.shape, h.a, c)| <= m < |Code(h.shape, h.a, c)| && b == Code(h.shape, h.a, c)[m]
      modifies this
      ensures Reading(c, m + 1) && (done <==> m + 1 == |Code(h.shape, h.a, c)|)
    {
      hide Represents, Tree, Unseen, Sorted, Good, Path, Code, Ancestor, Pow2;
      ghost var s, a := h.shape, h.a;
      ShapeSymbols(h.View(), s, a, c);
      CodeParts(s, a, c);
      AtTheEnd(s, a, c);
      FactoredBits(h.count, h.exp, h.rem);
      var bitsreq := if h.rem == 0 then h.exp else h.exp + 1;
      codedBits := codedBits + [b];
      done := |codedBits| >= bitsreq;
    }

    /** One step down the tree. */
    method Descend(b: bool, ghost c: nat, ghost m: nat) returns (done: bool)
      requires h.Valid() && c < h.a && (c in h.shape.zeros || c in h.shape.lab)
      requires Reading(c, m) && m < |WayTo(h.shape, h.a, c)| && m < |Code(h.shape, h.a, c)|
          && b == Code(h.shape, h.a, c)[m]
      modifies this
      ensures Reading(c, m + 1) && (done <==> m + 1 == |Code(h.shape, h.a, c)|)
    {
      hide Represents, Tree, Unseen, Sorted, Good, Path, Code, Ancestor, Pow2;
      ghost var s, a, v := h.shape, h.a, h.View();
      ShapeSymbols(v, s, a, c);
      CodeParts(s, a, c);
      assert b == Code(s, a, c)[..|WayTo(s, a, c)|][m];
      WayDown(v, s, a, TargetOf(s, c), m);
      OnTheWay(v, s, a, c, m);
      PlaceNode(v, s, a, Ancestor(s, a, TargetOf(s, c), m + 1));
      h.Reads(decodePtr);
      if b {
        decodePtr := h.node[decodePtr].rightChild;
      } else {
        decodePtr := h.node[decodePtr].leftChild;
      }
      h.Reads(decodePtr);
      if h.node[decodePtr].leftChild == NONE {
        done := h.node[decodePtr].weight != 0 || h.count == 1;
      } else {
        done := false;
      }
    }

    /** fgk_decode_data: the symbol, and the tree after it. */
    method DecodeData(ghost c: nat) returns (elt: nat)
      requires h.Valid() && c < h.a && (c in h.shape.zeros || c in h.shape.lab)
          && (c in h.shape.zeros ==> |h.shape.zeros| >= 2)
      requires Reading(c, |Code(h.shape, h.a, c)|)
      modifies this, h, h.node
      ensures h.Valid() && elt == c && h.shape == Updated(old(h.shape), h.a, c)
      ensures codedBits == [] && decodePtr == h.root
    {
      hide Represents, Tree, Unseen, Sorted, Good, Code, Updated;
      elt := DecodeSymbol(c);
      codedBits := [];
      h.UpdateTree(elt);
      decodePtr := h.root;
    }

    /** Whether the code read is that of the only symbol that has not been seen. */
    method AtLastUnseen(ghost c: nat) returns (last: bool)
      requires h.Valid() && c < h.a && (c in h.shape.zeros || c in h.shape.lab)
      requires Reading(c, |Code(h.shape, h.a, c)|)
      ensures last <==> c in h.shape.zeros && |h.shape.zeros| < 2
    {
      hide Represents, Tree, Unseen, Sorted, Good, Path, Code, Ancestor, Pow2, ToNat, ToBits;
      ghost var s, a, v := h.shape, h.a, h.View();
      ShapeSymbols(v, s, a, c);
      CodeParts(s, a, c);
      ReadEnd(v, s, a, c);
      h.Reads(decodePtr);
      last := h.node[decodePtr].weight == 0 && h.count < 2;
    }

    /** fgk_decode_data before it changes the tree.  For the last unseen symbol no bits have
        come, and the number is made from what an earlier one has left. */
    method DecodeSymbol(ghost c: nat) returns (elt: nat)
      requires h.Valid() && c < h.a && (c in h.shape.zeros || c in h.shape.lab)
      requires Reading(c, |Code(h.shape, h.a, c)|)
      ensures elt == c
    {
      hide Represents, Tree, Unseen, Sorted, Good, Path, Code, Ancestor, Pow2, ToNat, ToBits;
      ghost var s, a, v := h.shape, h.a, h.View();
      ShapeSymbols(v, s, a, c);
      CodeParts(s, a, c);
      ReadEnd(v, s, a, c);
      h.Reads(decodePtr);
      elt := 0;
      if h.node[decodePtr].weight == 0 {
        var n := Number(c);
        elt := NthZero(n);
      } else {
        elt := decodePtr;
      }
    }

    /** The number of an unseen symbol. */
    method Number(ghost c: nat) returns (n: nat)
      requires h.Valid() && c < h.a && c in h.shape.zeros && |h.shape.lab| > 0
      requires Reading(c, |Code(h.shape, h.a, c)|)
      ensures |h.shape.zeros| > 0 && h.shape.zeros[Min(n, |h.shape.zeros| - 1)] == c
    {
      hide Represents, Tree, Unseen, Sorted, Good, Path, Code, Ancestor, Pow2, ToNat, ToBits;
      ghost var s, a, v := h.shape, h.a, h.View();
      ShapeSymbols(v, s, a, c);
      CodeParts(s, a, c);
      ReadEnd(v, s, a, c);
      if codedBits == [] {
        n := *;
        assert |s.zeros| == 1;
        OnlyOne(s.zeros, c, n);
      } else {
        n := NumberOf();
        assert |s.zeros| > 1;
        assert codedBits == ToBits(PlaceOf(s.zeros, c), ZeroBits(|s.zeros|));
        assert n == PlaceOf(s.zeros, c) < |s.zeros|;
      }
    }

    /** The number the bits collected say. */
    method NumberOf() returns (n: nat)
      requires codedBits != []
      ensures n == ToNat(codedBits)
    {
      hide ToNat;
      n := 0;
      var i: nat := 0;
      NoDigitsRead();
      while i < |codedBits| - 1
        invariant i < |codedBits| && n == 2 * ToNat(codedBits[..i])
        decreases |codedBits| - i
      {
        assert codedBits[..i + 1] == codedBits[..i] + [codedBits[i]];
        NatOfAppend(codedBits[..i], codedBits[i]);
        n := n + if codedBits[i] then 1 else 0;
        n := n * 2;
        i := i + 1;
      }
      NatOfAppend(codedBits[..i], codedBits[i]);
      assert codedBits == codedBits[..i] + [codedBits[i]];
      n := n + if codedBits[i] then 1 else 0;
    }
  }

  /** Whatever the number, it means the last one. */
  lemma OnlyOne(zeros: seq<nat>, c: nat, n: nat)
    requires zeros == [c]
    ensures zeros[Min(n, |zeros| - 1)] == c
  {
  }

  lemma NoDigitsRead()
    ensures ToNat([]) == 0
  {
  }

  /** The place a symbol's code leads to. */
  function TargetOf(s: Shape, c: nat): (t: nat)
    requires c in s.zeros || c in s.lab
    requires |s.lab| > 0
    ensures t < |s.lab|
  {
    if c in s.zeros then 0 else PlaceOf(s.lab, c)
  }

  function WayTo(s: Shape, a: nat, c: nat): seq<bool>
    requires Tree(s, a) && (c in s.zeros || c in s.lab) && |s.lab| > 0
  {
    Path(s, a, TargetOf(s, c))
  }

  lemma CodeParts(s: Shape, a: nat, c: nat)
    requires Tree(s, a) && (c in s.zeros || c in s.lab) && |s.lab| > 0
    ensures var (path, code) := (WayTo(s, a, c), Code(s, a, c));
      && |path| <= |code| && code[..|path|] == path
      && (c in s.zeros ==>
         code[|path|..] == ToBits(PlaceOf(s.zeros, c), ZeroBits(|s.zeros|)) && |code| == |path| + ZeroBits(|s.zeros|))
      && (c !in s.zeros ==> code == path)
  {
  }

  lemma PlaceNode(v: Ptrs, s: Shape, a: nat, i: nat)
    requires Represents(v, s, a, s.w) && Good(s, a, -1) && i < |s.lab|
    ensures a > 0 && s.lab[i] < 2 * a - 1 && |v.weight| == 2 * a - 1 && v.weight[s.lab[i]] == s.w[i]
        && (s.w[i] == 0 <==> i == 0)
  {
  }

  /** How much of the code is left at a node on the way, `m` steps down of `way`. */
  predicate Arrived(v: Ptrs, s: Shape, a: nat, j: nat, m: nat, way: nat, code: nat, unseen: bool) {
    && a > 0 && j < |s.lab| && j < |s.w| && s.lab[j] < 2 * a - 1 == |v.leftChild| && m <= code
    && (v.leftChild[s.lab[j]] == NONE <==> m == way)
    && (m == way ==> (s.w[j] != 0 || |s.zeros| == 1 <==> m == code))
    && (m < way ==> m < code)
    && (m == way && unseen ==> s.lab[j] == s.lab[0])
  }

  lemma OnTheWay(v: Ptrs, s: Shape, a: nat, c: nat, m: nat)
    requires Represents(v, s, a, s.w) && Good(s, a, -1) && Tree(s, a) && (c in s.zeros || c in s.lab) && |s.lab| > 0
    requires m < |WayTo(s, a, c)| && c < a
    ensures Arrived(v, s, a, Ancestor(s, a, TargetOf(s, c), m + 1), m + 1, |WayTo(s, a, c)|, |Code(s, a, c)|,
        c in s.zeros)
  {
    hide Represents, Good, Tree, Path, Ancestor, Code, ZeroBits, PlaceOf, ToBits;
    CodeParts(s, a, c);
    ChildOrLeaf(v, s, a, c, m + 1);
    WayLength(s, c);
    WeightsOfAll(s, a);
  }

  lemma WeightsOfAll(s: Shape, a: nat)
    requires Good(s, a, -1)
    ensures |s.w| == |s.lab|
  {
  }

  /** One step down, by place and by pointer. */
  lemma WayDown(v: Ptrs, s: Shape, a: nat, t: nat, m: nat)
    requires Represents(v, s, a, s.w) && Tree(s, a) && t < |s.lab| && m < |Path(s, a, t)|
    ensures var (i, j) := (Ancestor(s, a, t, m), Ancestor(s, a, t, m + 1));
      && i > 0 && a > 0 && s.lab[i] < 2 * a - 1 && s.lab[j] < 2 * a - 1
      && |v.leftChild| == |v.rightChild| == |v.weight| == 2 * a - 1
      && s.lab[j] == if Path(s, a, t)[m] then v.rightChild[s.lab[i]] else v.leftChild[s.lab[i]]
  {
    AncestorStep(s, a, t, m);
    HoldsParts(v, s, a, s.w);
    var j := Ancestor(s, a, t, m + 1);
    PairOf(v.parent, v.leftChild, v.rightChild, s, a, j / 2);
    assert j == 2 * (j / 2) || j == 2 * (j / 2) + 1;
    hide Represents, Tree;
  }

  /** The number of an unseen symbol has a bit at least, unless it is the last one. */
  lemma WayLength(s: Shape, c: nat)
    ensures c in s.zeros ==> (ZeroBits(|s.zeros|) > 0 <==> |s.zeros| >= 2)
  {
    EnoughBits(|s.zeros|);
  }

  /** Only at the end of the way is a leaf. */
  lemma ChildOrLeaf(v: Ptrs, s: Shape, a: nat, c: nat, m: nat)
    requires Represents(v, s, a, s.w) && Good(s, a, -1) && (c in s.zeros || c in s.lab) && |s.lab| > 0
        && m <= |WayTo(s, a, c)| && c < a
    ensures var i := Ancestor(s, a, TargetOf(s, c), m);
      && a > 0 && s.lab[i] < 2 * a - 1 == |v.leftChild|
      && (v.leftChild[s.lab[i]] == NONE <==> m == |WayTo(s, a, c)|)
      && (m == |WayTo(s, a, c)| ==> i == TargetOf(s, c) && (s.w[i] != 0 <==> c !in s.zeros))
  {
    var t := TargetOf(s, c);
    var i := Ancestor(s, a, t, m);
    HoldsParts(v, s, a, s.w);
    if m == |WayTo(s, a, c)| {
      if c in s.zeros {
        assert ZeroAt(v, s.zeros, 0);
      } else {
        assert s.lab[t] == c && t != 0;
      }
    } else {
      AncestorStep(s, a, t, m);
      var j := Ancestor(s, a, t, m + 1);
      PairOf(v.parent, v.leftChild, v.rightChild, s, a, j / 2);
    }
  }

  lemma AtTheEnd(s: Shape, a: nat, c: nat)
    requires Good(s, a, -1) && (c in s.zeros || c in s.lab) && |s.lab| > 0 && Tree(s, a)
    ensures Ancestor(s, a, TargetOf(s, c), |WayTo(s, a, c)|) == TargetOf(s, c)
    ensures c in s.zeros ==> TargetOf(s, c) == 0
  {
  }

  /** What the decoder has at the end of a code. */
  lemma ReadEnd(v: Ptrs, s: Shape, a: nat, c: nat)
    requires Represents(v, s, a, s.w) && Good(s, a, -1) && (c in s.zeros || c in s.lab) && |s.lab| > 0 && Tree(s, a)
    ensures var t := TargetOf(s, c);
      && Ancestor(s, a, t, |WayTo(s, a, c)|) == t && a > 0 && s.lab[t] < 2 * a - 1 && |v.weight| == 2 * a - 1
      && (v.weight[s.lab[t]] == 0 <==> c in s.zeros) && (c !in s.zeros ==> s.lab[t] == c)
    ensures c in s.zeros && |s.zeros| == 1 ==> |WayTo(s, a, c)| == |Code(s, a, c)| && s.zeros == [c]
    ensures c in s.zeros && |s.zeros| > 1 ==> var b := ToBits(PlaceOf(s.zeros, c), ZeroBits(|s.zeros|));
      b != [] && Code(s, a, c)[|WayTo(s, a, c)|..|Code(s, a, c)|] == b && |WayTo(s, a, c)| < |Code(s, a, c)|
      && ToNat(b) == PlaceOf(s.zeros, c) < |s.zeros| && s.zeros[PlaceOf(s.zeros, c)] == c
  {
    var t := TargetOf(s, c);
    PlaceNode(v, s, a, t);
    CodeParts(s, a, c);
    WayLength(s, c);
    if c !in s.zeros {
      assert s.lab[0] == s.zeros[0];
      assert s.lab[t] == c;
    } else if |s.zeros| > 1 {
      assert Code(s, a, c)[|WayTo(s, a, c)|..|Code(s, a, c)|] == Code(s, a, c)[|WayTo(s, a, c)|..];
      EnoughBits(|s.zeros|);
      NatOfBits(PlaceOf(s.zeros, c), ZeroBits(|s.zeros|));
    }
  }

  lemma NoneReversed()
    ensures Reversed([]) == []
  {
  }

  lemma LowBitsNext(v: nat, k: nat)
    ensures LowBits(v, k + 1) == LowBits(v, k) + [Test(v, Pow2(k))]
    decreases k
  {
    if k == 0 {
      assert Pow2(0) == 1;
      assert LowBits(v / 2, 0) == [];
    } else {
      LowBitsNext(v / 2, k - 1);
      Arith.DivideTwice(v, 2, Pow2(k - 1));
    }
  }

  lemma ListOf(v: Ptrs, s: Shape, a: nat)
    requires Represents(v, s, a, s.w) && Good(s, a, -1)
    ensures a > 0 && |v.rightChild| == 2 * a - 1 && ZeroList(v, s.zeros) && s.zeros != [] && s.lab[0] == s.zeros[0]
    ensures forall j | 0 <= j < |s.zeros| :: s.zeros[j] < a
    ensures |s.lab| > 0
  {
  }

  lemma {:induction false} PlaceFirst(lab: seq<nat>, x: nat)
    requires x in lab
    ensures forall k | 0 <= k < PlaceOf(lab, x) :: lab[k] != x
    decreases |lab|
  {
    if lab[0] != x {
      PlaceFirst(lab[1..], x);
      var p := PlaceOf(lab, x);
      forall k | 0 <= k < p ensures lab[k] != x {
        assert k > 0 ==> lab[k] == lab[1..][k - 1];
      }
    }
  }

  lemma PlaceIs(lab: seq<nat>, x: nat, i: nat)
    requires x in lab && i <= PlaceOf(lab, x) && lab[i] == x
    ensures i == PlaceOf(lab, x)
  {
    PlaceFirst(lab, x);
  }

  lemma ShapeSymbols(v: Ptrs, s: Shape, a: nat, c: nat)
    requires Represents(v, s, a, s.w) && Good(s, a, -1) && c < a
    ensures Tree(s, a) && (c in s.zeros || c in s.lab) && |s.lab| > 0 && s.zeros != [] && s.lab[0] == s.zeros[0]
  {
  }

  lemma UpFrom(v: Ptrs, s: Shape, a: nat, i: nat)
    requires Represents(v, s, a, s.w) && Tree(s, a) && i < |s.lab| - 1
    ensures a > 0 && s.lab[i] < 2 * a - 1 && i / 2 < |s.up| && i < s.up[i / 2] < |s.lab|
        && s.lab[s.up[i / 2]] < 2 * a - 1
    ensures v.parent[s.lab[i]] == s.lab[s.up[i / 2]] && (v.rightChild[s.lab[s.up[i / 2]]] == s.lab[i] <==> i % 2 == 1)
    ensures Path(s, a, i) == Path(s, a, s.up[i / 2]) + [i % 2 == 1]
  {
    HoldsParts(v, s, a, s.w);
    ChildSide(v.parent, v.leftChild, v.rightChild, s, a, i);
    assert 2 * (i / 2) + 1 < s.up[i / 2];
  }

  lemma RootPath(s: Shape, a: nat, i: nat)
    requires Tree(s, a) && i < |s.lab| && s.lab[i] == s.lab[|s.lab| - 1]
    ensures i == |s.lab| - 1 && Path(s, a, i) == []
  {
  }

  lemma CodeIs(s: Shape, a: nat, c: nat, t: nat, base: seq<bool>)
    requires Tree(s, a) && (c in s.zeros || c in s.lab) && |s.lab| > 0 && t < |s.lab|
    requires if c in s.zeros then t == 0 && base == ToBits(PlaceOf(s.zeros, c), ZeroBits(|s.zeros|))
             else t == PlaceOf(s.lab, c) && base == []
    ensures Path(s, a, t) + base == Code(s, a, c)
  {
    assert Path(s, a, t) + [] == Path(s, a, t);
  }
}
