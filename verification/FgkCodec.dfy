/**
  xdelta3-fgk.h: the adaptive compressor and its inverse.  Both sides make the same changes
  to the same tree, so neither has to send it.
 */
module FgkCodec {
  import opened Bytes
  import opened Binary
  import opened BitIO
  import opened FgkShape
  import FgkTree
  import opened Fgk
  import FgkLinks
  import FgkUpdate

  const ALPHABET_SIZE: nat := 256

  /** The symbol is the only one that has not been seen. */
  predicate Final(s: Shape, c: nat) {
    c in s.zeros && |s.zeros| < 2
  }

  /** Some symbol is still unseen before each of the data. */
  ghost predicate Roomy(s: Shape, a: nat, data: seq<nat>)
    decreases |data|
  {
    Good(s, a, -1)
    && (data != [] ==>
          data[0] < a && if Final(s, data[0]) then |data| == 1 else Roomy(Updated(s, a, data[0]), a, data[1..]))
  }

  /** The codes of the data, each in the tree its predecessors have left. */
  ghost function Encoded(s: Shape, a: nat, data: seq<nat>): seq<bool>
    requires Roomy(s, a, data)
    decreases |data|
  {
    if data == [] then []
    else
      Known(s, a, data[0]);
      Code(s, a, data[0])
      + if Final(s, data[0]) then [] else Encoded(Updated(s, a, data[0]), a, data[1..])
  }

  lemma Known(s: Shape, a: nat, c: nat)
    requires Good(s, a, -1) && c < a
    ensures Tree(s, a) && (c in s.zeros || c in s.lab) && |s.lab| > 0
  {
  }

  /** Only the symbol itself is taken from the unseen ones. */
  lemma UpdatedZeros(s: Shape, a: nat, c: nat)
    requires Good(s, a, -1) && c < a && (c in s.zeros ==> |s.zeros| >= 2)
    ensures Updated(s, a, c).zeros == if c in s.zeros then Gone(s.zeros, c) else s.zeros
  {
    if c in s.zeros {
      InsertedGood(s, a, c);
    } else {
      SeenStands(s, a, c);
    }
  }

  /** A symbol that does not come before the last byte leaves room for all others. */
  lemma {:induction false} RoomFor(s: Shape, a: nat, data: seq<nat>, x: nat)
    requires Good(s, a, -1) && x in s.zeros && (forall i | 0 <= i < |data| - 1 :: data[i] != x)
    requires forall i | 0 <= i < |data| :: data[i] < a
    ensures Roomy(s, a, data)
    decreases |data|
  {
    hide Good, Updated;
    if data != [] && !Final(s, data[0]) {
      var c := data[0];
      if c == x {
        assert data[1..] == [];
        RoomForNone(Updated(s, a, c), a, data[1..]);
      } else {
        if c in s.zeros {
          ZerosDistinct(s, a);
          GoneIs(s.zeros, c, x);
        }
        UpdatedZeros(s, a, c);
        RoomFor(Updated(s, a, c), a, data[1..], x);
      }
    } else if data != [] {
      OnlyFinal(s, data[0], x);
    }
  }

  lemma RoomForNone(s: Shape, a: nat, data: seq<nat>)
    requires Good(s, a, -1) && data == []
    ensures Roomy(s, a, data)
  {
  }

  lemma OnlyFinal(s: Shape, c: nat, x: nat)
    requires Final(s, c) && x in s.zeros
    ensures c == x
  {
  }

  lemma ZerosDistinct(s: Shape, a: nat)
    requires Good(s, a, -1)
    ensures Distinct(s.zeros)
  {
  }

  /** Every symbol has come before the last byte. */
  predicate AllSeen(data: seq<byte>) {
    forall x: byte :: SeenBefore(data, x)
  }

  predicate SeenBefore(data: seq<byte>, x: byte) {
    data != [] && x in data[..|data| - 1]
  }

  lemma FirstRoom(data: seq<byte>)
    requires !AllSeen(data)
    ensures Roomy(FirstShape(), ALPHABET_SIZE, data)
  {
    FirstGood();
    var x: byte :| !SeenBefore(data, x);
    assert FirstShape().zeros[x] == x;
    forall i | 0 <= i < |data| - 1 ensures data[i] != x {
      assert data[i] == data[..|data| - 1][i];
    }
    RoomFor(FirstShape(), ALPHABET_SIZE, data, x);
  }

  function FirstShape(): Shape { FgkTree.FirstShape(ALPHABET_SIZE) }

  lemma FirstGood()
    ensures Good(FirstShape(), ALPHABET_SIZE, -1)
  {
    var nodes := seq(2 * ALPHABET_SIZE - 1, i requires 0 <= i => FgkTree.InitNode(i, ALPHABET_SIZE));
    FgkTree.FirstValid(nodes, ALPHABET_SIZE);
  }

  /** The zero bits that fill the last byte. */
  function Padding(n: nat): (p: nat)
    ensures p < 8
  {
    (8 - n % 8) % 8
  }

  lemma PaddingIs(out: seq<byte>, n: nat, p: nat)
    requires |BitsOf(out)| == n + p && p < 8
    ensures p == Padding(n)
  {
    hide BitsOf;
    assert |BitsOf(out)| == 8 * |out|;
  }

  /** xd3_encode_fgk */
  method EncodeFgk(data: seq<byte>, pageAvail: nat, next: nat) returns (out: seq<byte>)
    requires !AllSeen(data)
    ensures Roomy(FirstShape(), ALPHABET_SIZE, data)
    ensures var bits := Encoded(FirstShape(), ALPHABET_SIZE, data);
      BitsOf(out) == bits + Repeat(false, Padding(|bits|))
  {
    hide Good, Updated, Code, Roomy, Encoded, BitsOf, FgkLinks.Represents, Tree, Unseen, FgkUpdate.Sorted, LowBits,
        Repeat;
    FirstRoom(data);
    var w := new BitWriter(pageAvail, next);
    var coder := new Coder(ALPHABET_SIZE);
    ghost var all := Encoded(FirstShape(), ALPHABET_SIZE, data);
    assert data[0..] == data && [] + all == all;
    var i: nat := 0;
    while i < |data|
      invariant i <= |data| && w.Valid() && coder.h.Valid() && coder.h.a == ALPHABET_SIZE
      invariant fresh(w) && fresh(coder) && fresh(coder.h) && fresh(coder.h.node)
      invariant Roomy(coder.h.shape, ALPHABET_SIZE, data[i..])
      invariant w.Bits() + Encoded(coder.h.shape, ALPHABET_SIZE, data[i..]) == all
    {
      assert data[i..][1..] == data[i + 1..];
      EncodeNext(coder, w, data[i], data[i..]);
      i := i + 1;
    }
    NothingEncoded(coder.h.shape, data[i..]);
    assert w.Bits() + [] == w.Bits();
    ghost var padding := w.FlushBits();
    out := w.out;
    PaddingIs(out, |all|, padding);
  }

  /** One symbol to the output.  What becomes of the tree after the last unseen symbol is not
      part of the model: nothing reads it any more. */
  method EncodeNext(coder: Coder, w: BitWriter, c: byte, ghost data: seq<byte>)
    requires w.Valid() && coder.h.Valid() && coder.h.a == ALPHABET_SIZE
    requires Roomy(coder.h.shape, ALPHABET_SIZE, data) && data != [] && data[0] == c
    modifies coder, coder.h, coder.h.node, w
    ensures w.Valid() && coder.h.Valid() && Roomy(coder.h.shape, ALPHABET_SIZE, data[1..])
    ensures w.Bits() + Encoded(coder.h.shape, ALPHABET_SIZE, data[1..])
         == old(w.Bits()) + Encoded(old(coder.h.shape), ALPHABET_SIZE, data)
  {
    hide Good, Updated, Code, Roomy, Encoded, BitsOf, FgkLinks.Represents, Tree, Unseen, FgkUpdate.Sorted, Reversed;
    ghost var s, before := coder.h.shape, w.Bits();
    OneEncoded(s, data);
    var last := coder.LastUnseen(c);
    if last {
      coder.EncodeBits(c);
    } else {
      coder.EncodeData(c);
    }
    EmitCode(coder, w);
    ghost var code, more := Code(s, ALPHABET_SIZE, c), Encoded(coder.h.shape, ALPHABET_SIZE, data[1..]);
    assert before + (code + more) == before + code + more;
  }

  lemma OneEncoded(s: Shape, data: seq<nat>)
    requires Roomy(s, ALPHABET_SIZE, data) && data != []
    ensures data[0] < ALPHABET_SIZE && Good(s, ALPHABET_SIZE, -1)
    ensures Tree(s, ALPHABET_SIZE) && (data[0] in s.zeros || data[0] in s.lab) && |s.lab| > 0
    ensures var r := if Final(s, data[0]) then s else Updated(s, ALPHABET_SIZE, data[0]);
      Roomy(r, ALPHABET_SIZE, data[1..])
      && Encoded(s, ALPHABET_SIZE, data) == Code(s, ALPHABET_SIZE, data[0]) + Encoded(r, ALPHABET_SIZE, data[1..])
  {
    hide Good, Updated, Code;
    Known(s, ALPHABET_SIZE, data[0]);
    if Final(s, data[0]) {
      assert data[1..] == [];
      RoomForNone(s, ALPHABET_SIZE, data[1..]);
    }
  }

  lemma NothingEncoded(s: Shape, data: seq<nat>)
    requires Roomy(s, ALPHABET_SIZE, data) && data == []
    ensures Encoded(s, ALPHABET_SIZE, data) == []
  {
  }

  /** fgk_get_encoded_bit, until there is none. */
  method EmitCode(coder: Coder, w: BitWriter)
    requires w.Valid()
    modifies coder, w
    ensures w.Valid() && w.Bits() == old(w.Bits()) + Reversed(old(coder.codedBits))
  {
    hide Reversed;
    ghost var all := old(w.Bits()) + Reversed(coder.codedBits);
    while |coder.codedBits| > 0
      invariant w.Valid() && w.Bits() + Reversed(coder.codedBits) == all
      decreases |coder.codedBits|
    {
      LastIsFirst(coder.codedBits);
      ghost var before, more := w.Bits(), Reversed(coder.codedBits[..|coder.codedBits| - 1]);
      var bit := coder.codedBits[|coder.codedBits| - 1];
      assert before + ([bit] + more) == before + [bit] + more;
      coder.codedBits := coder.codedBits[..|coder.codedBits| - 1];
      w.EncodeBit(bit);
    }
    NoneReversed();
    assert w.Bits() + [] == w.Bits();
  }

  /** One symbol from the input. */
  method DecodeOne(coder: Coder, r: BitReader, ghost c: nat, ghost rest: seq<bool>) returns (ok: bool, elt: nat)
    requires r.Valid() && coder.h.Valid() && coder.codedBits == [] && coder.decodePtr == coder.h.root
    requires c < coder.h.a
    requires Tree(coder.h.shape, coder.h.a) && (c in coder.h.shape.zeros || c in coder.h.shape.lab)
        && |coder.h.shape.lab| > 0
    requires r.Rest() == Code(coder.h.shape, coder.h.a, c) + rest
    requires Code(coder.h.shape, coder.h.a, c) != []
    modifies coder, coder.h, coder.h.node, r
    ensures r.Valid() && coder.h.Valid() && ok && elt == c && r.Rest() == rest
    ensures if Final(old(coder.h.shape), c) then coder.h.shape == old(coder.h.shape)
            else coder.codedBits == [] && coder.decodePtr == coder.h.root
                 && coder.h.shape == Updated(old(coder.h.shape), coder.h.a, c)
  {
    hide Good, Updated, Code, FgkLinks.Represents, Tree, Unseen, FgkUpdate.Sorted, Ancestor, Path;
    ghost var s, a := coder.h.shape, coder.h.a;
    ghost var code := Code(s, a, c);
    StartReading(s, a, c);
    ghost var m: nat := 0;
    var done := false;
    ok, elt := true, 0;
    assert code[0..] == code;
    while !done && ok
      invariant ok && r.Valid() && coder.h.Valid() && coder.h.shape == s && m <= |code|
      invariant coder.Reading(c, m) && r.Rest() == code[m..] + rest && (done <==> m == |code|)
      decreases |code| - m
    {
      var bit;
      FirstLeft(code, m, rest);
      ok, bit := r.ReadBit();
      SameStart(code[m], code[m + 1..] + rest, bit, r.Rest());
      done := coder.DecodeBit(bit, c, m);
      m := m + 1;
    }
    assert code[m..] + rest == rest;
    var last := coder.AtLastUnseen(c);
    if last {
      elt := coder.DecodeSymbol(c);
    } else {
      elt := coder.DecodeData(c);
    }
  }

  lemma FirstLeft(code: seq<bool>, m: nat, rest: seq<bool>)
    requires m < |code|
    ensures code[m..] + rest == [code[m]] + (code[m + 1..] + rest)
  {
  }

  lemma SameStart(a: bool, s: seq<bool>, b: bool, t: seq<bool>)
    ensures [a] + s == [b] + t ==> a == b && s == t
  {
    assert ([a] + s)[0] == a && ([a] + s)[1..] == s;
    assert ([b] + t)[0] == b && ([b] + t)[1..] == t;
  }

  lemma StartReading(s: Shape, a: nat, c: nat)
    requires Tree(s, a) && (c in s.zeros || c in s.lab) && |s.lab| > 0
    ensures Ancestor(s, a, TargetOf(s, c), 0) == |s.lab| - 1 && |WayTo(s, a, c)| <= |Code(s, a, c)|
  {
    AncestorRoot(s, a, TargetOf(s, c));
    CodeParts(s, a, c);
  }

  /** No symbol has an empty code. */
  lemma CodeNotEmpty(s: Shape, a: nat, c: nat)
    requires Good(s, a, -1) && c < a && Tree(s, a) && (c in s.zeros || c in s.lab) && |s.lab| > 0 && a > 1
    ensures Code(s, a, c) != []
  {
    WayLength(s, c);
    if c in s.zeros {
      assert |s.zeros| == 1 ==> |s.up| == a - 1 && |s.lab| > 1;
    } else {
      var p := PlaceOf(s.lab, c);
      LeafStands(s, a, p);
      assert s.lab[0] == s.zeros[0] && p > 0;
      assert s.up[|s.up| - 1] == |s.lab| - 1;
      assert HasChildren(s, |s.lab| - 1);
    }
  }

  /** The input holds the codes of the data, and then something else. */
  ghost predicate Ahead(s: Shape, data: seq<nat>, input: seq<bool>, rest: seq<bool>) {
    Roomy(s, ALPHABET_SIZE, data) && input == Encoded(s, ALPHABET_SIZE, data) + rest
  }

  /** The next symbol of the data from the input. */
  method DecodeNext(coder: Coder, r: BitReader, ghost data: seq<byte>, ghost rest: seq<bool>)
    returns (ok: bool, elt: nat)
    requires r.Valid() && coder.h.Valid() && coder.h.a == ALPHABET_SIZE && coder.codedBits == []
        && coder.decodePtr == coder.h.root
    requires data != [] && Ahead(coder.h.shape, data, r.Rest(), rest)
    modifies coder, coder.h, coder.h.node, r
    ensures r.Valid() && coder.h.Valid()
    ensures |data| > 1 ==> coder.codedBits == [] && coder.decodePtr == coder.h.root
    ensures ok && elt == data[0] && Ahead(coder.h.shape, data[1..], r.Rest(), rest)
  {
    hide Good, Updated, Code, Encoded, FgkLinks.Represents, Tree, Unseen, FgkUpdate.Sorted;
    ghost var s := coder.h.shape;
    OneEncoded(s, data);
    CodeNotEmpty(s, ALPHABET_SIZE, data[0]);
    ghost var code := Code(s, ALPHABET_SIZE, data[0]);
    ghost var next := if Final(s, data[0]) then s else Updated(s, ALPHABET_SIZE, data[0]);
    ghost var more := Encoded(next, ALPHABET_SIZE, data[1..]);
    assert code + more + rest == code + (more + rest);
    ok, elt := DecodeOne(coder, r, data[0], more + rest);
  }

  /** xd3_decode_fgk: the number of bytes is known from outside. */
  method DecodeFgk(r: BitReader, n: nat, ghost data: seq<byte>, ghost rest: seq<bool>)
    returns (ok: bool, output: array<byte>)
    requires r.Valid() && n == |data| && Roomy(FirstShape(), ALPHABET_SIZE, data)
    requires r.Rest() == Encoded(FirstShape(), ALPHABET_SIZE, data) + rest
    modifies r
    ensures r.Valid() && fresh(output) && ok && output[..] == data && r.Rest() == rest
  {
    hide Good, Updated, Code, Roomy, Encoded, FgkLinks.Represents, Tree, Unseen, FgkUpdate.Sorted;
    var coder := new Coder(ALPHABET_SIZE);
    output := new byte[n];
    ok := true;
    var i: nat := 0;
    assert data[0..] == data;
    while i < n && ok
      invariant ok && i <= n && r.Valid() && coder.h.Valid() && coder.h.a == ALPHABET_SIZE
      invariant fresh(coder) && fresh(coder.h) && fresh(coder.h.node) && fresh(output) && output.Length == n
      invariant i < n ==> coder.codedBits == [] && coder.decodePtr == coder.h.root
      invariant Roomy(coder.h.shape, ALPHABET_SIZE, data[i..]) && output[..i] == data[..i]
      invariant r.Rest() == Encoded(coder.h.shape, ALPHABET_SIZE, data[i..]) + rest
      decreases n - i
    {
      assert data[i..][1..] == data[i + 1..];
      var elt;
      ok, elt := DecodeNext(coder, r, data[i..], rest);
      output[i] := elt;
      i := i + 1;
    }
    NothingEncoded(coder.h.shape, data[i..]);
    assert [] + rest == rest;
  }

  /** A compressed section with any bytes after it is decompressed to what it was made of,
      and exactly its own bytes are consumed, for all data but those that go on after every
      byte has come. */
  method RoundTrip(data: seq<byte>, pageAvail: nat, next: nat, following: seq<byte>)
    returns (sent: seq<byte>, ok: bool, output: seq<byte>, consumed: nat)
    requires !AllSeen(data)
    ensures ok && output == data && consumed == |sent|
  {
    hide Roomy, Encoded, BitsOf, Good, Updated, Code, Repeat, LowBits, FgkTree.FirstShape;
    sent := EncodeFgk(data, pageAvail, next);
    var r := new BitReader(sent + following);
    ghost var bits := Encoded(FirstShape(), ALPHABET_SIZE, data);
    ghost var padding := Padding(|bits|);
    ghost var rest := Repeat(false, padding) + BitsOf(following);
    BitsOfJoin(sent, following);
    Associative(bits, Repeat(false, padding), BitsOf(following));
    var a;
    ok, a := DecodeFgk(r, |data|, data, rest);
    output, consumed := a[..], r.pos;
    Consumed(r, |sent|, padding, following);
  }
}
