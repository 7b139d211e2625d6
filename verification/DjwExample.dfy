/**
  xdelta3-djw.h: a compressed section written out bit by bit, with the constants of the
  program: two bytes, 97 and 98, in one group whose code gives each of them one bit.
 */
module DjwExample {
  import opened Bytes
  import opened Binary
  import opened Codes
  import opened Mtf
  import opened MtfDecode
  import opened DjwFormat
  import Djw

  function Join(words: seq<seq<bool>>): seq<bool> {
    if words == [] then [] else words[0] + Join(words[1..])
  }

  /** The code lengths of the bytes. */
  function TwoBytes(): seq<nat> {
    Zeros(97) + ([1, 1] + Zeros(157))
  }

  function Zeros(n: nat): seq<nat> { Repeat(0, n) }

  /** The lengths as they are sent: runs of zeros, the place of length 1, and the places of
      lengths sent before. */
  const SENT: seq<nat> := [0, 1, 0, 0, 0, 1, 14, 0, 2, 1, 0, 1, 1, 1, 0, 0]

  /** The code for that: words for 0, 1, 2 and 14. */
  const OF_LENGTHS: seq<nat> := [1, 2, 3, 0, 0, 0, 0, 0, 0, 0, 0, 0, 0, 0, 3, 0, 0, 0, 0, 0, 0, 0]

  function Section(): Layout {
    Layout([TwoBytes()], OF_LENGTHS, 15, 2, [0], [], [97, 98])
  }

  // ------------------------------------------------------ the lengths as sent

  lemma DigitFirst(run: nat)
    requires run > 0
    ensures Digits(run) == [(run - 1) % 2] + Digits((run - 1) / 2)
  {
  }

  lemma RunOf97()
    ensures Digits(97) == [0, 1, 0, 0, 0, 1]
  {
    hide Digits;
    DigitFirst(97);
    DigitFirst(48);
    DigitFirst(23);
    DigitFirst(11);
    DigitFirst(5);
    DigitFirst(2);
    NoRun();
  }

  lemma RunOf156()
    ensures Digits(156) == [1, 0, 1, 1, 1, 0, 0]
  {
    hide Digits;
    DigitFirst(156);
    DigitFirst(77);
    DigitFirst(38);
    DigitFirst(18);
    DigitFirst(8);
    DigitFirst(3);
    DigitFirst(1);
    NoRun();
  }

  /** The places of lengths 1 and 0, in turn. */
  lemma PlaceOfOne()
    ensures 1 in CLEN_MTF && Index(CLEN_MTF, 1) == 13
  {
    assert CLEN_MTF[13] == 1;
    assert CLEN_MTF[..13] == [0, 4, 5, 6, 7, 8, 9, 10, 3, 11, 2, 12, 13];
    hide Index;
    IndexIs(CLEN_MTF, 1, 13);
  }

  lemma PlaceOfZero(mtf: seq<nat>, j: nat)
    requires 0 < j < |mtf| && mtf[0] == 0 && mtf[j] == 1
    ensures var r := MoveFront(mtf, j); r[0] == 1 && r[1] == 0 && Index(r, 0) == 1 && MoveFront(r, 1)[0] == 0
  {
    var r := [mtf[j]] + mtf[..j] + mtf[j + 1..];
    assert MoveFront(mtf, j) == r && r[..1] == [1];
    IndexIs(r, 0, 1);
  }

  predicate Fronts(k: seq<nat>, mtf: seq<nat>, m: nat) {
    |mtf| > 0 && m < |k| && (forall i | 0 <= i < m :: k[i] == mtf[0]) && k[m] != mtf[0]
  }

  /** A run of the front, and then a symbol that is not in front. */
  lemma RunThenPlace(k: seq<nat>, mtf: seq<nat>, m: nat, j: nat)
    requires |mtf| > 0 && m < |k| && Fronts(k, mtf, m) && Known(k, mtf) && k[m] in mtf && Index(mtf, k[m]) == j
    ensures Known(k[m + 1..], MoveFront(mtf, j))
    ensures Encode(k, mtf, 0) == Digits(m) + ([j + 1] + Encode(k[m + 1..], MoveFront(mtf, j), 0))
  {
    hide Digits, Encode, MoveFront, Known, Index, Fronts;
    TailSplit(k, m);
    RunFirst(k, mtf, m);
    PlaceFirst(k[m..], mtf, j);
  }

  lemma RunFirst(k: seq<nat>, mtf: seq<nat>, m: nat)
    requires Fronts(k, mtf, m) && Known(k, mtf)
    ensures Known(k[m..], mtf) && Encode(k, mtf, 0) == Digits(m) + Encode(k[m..], mtf, 0) && k[m] != mtf[0]
  {
    hide Digits, Encode, MoveFront, Known, Index;
    EncodeRun(k, mtf, 0, m);
  }

  lemma TailSplit(k: seq<nat>, m: nat)
    requires m < |k|
    ensures k[m..] != [] && k[m..][0] == k[m] && k[m..][1..] == k[m + 1..]
  {
  }

  lemma PlaceFirst(t: seq<nat>, mtf: seq<nat>, j: nat)
    requires |mtf| > 0 && t != [] && Known(t, mtf) && t[0] != mtf[0] && t[0] in mtf && Index(mtf, t[0]) == j
    ensures Known(t[1..], MoveFront(mtf, j))
    ensures Encode(t, mtf, 0) == [j + 1] + Encode(t[1..], MoveFront(mtf, j), 0)
  {
    hide Digits, Encode, MoveFront, Known, Index;
    EncodeFirst(t, mtf, 0);
    NoRun();
    assert j != 0;
    NothingBefore(j + 1, Encode(t[1..], MoveFront(mtf, j), 0));
  }

  lemma NothingBefore(c: nat, rest: seq<nat>)
    ensures [] + [c] + rest == [c] + rest
  {
  }

  /** The lengths from any list with 0 in front and 1 somewhere behind. */
  lemma LengthsFrom(mtf: seq<nat>, j: nat)
    requires 0 < j < |mtf| && mtf[0] == 0 && Known(TwoBytes(), mtf) && 1 in mtf && Index(mtf, 1) == j
    ensures Encode(TwoBytes(), mtf, 0) == Digits(97) + ([j + 1] + (Digits(1) + ([2] + Digits(156))))
  {
    hide Digits, Encode, MoveFront, Index, Known;
    var k, k1, k2 := TwoBytes(), [1] + Zeros(157), Zeros(156);
    KnownAt(k, 97, mtf);
    RunThenPlace(k, mtf, 97, j);
    assert k[98..] == k1;
    PlaceOfZero(mtf, j);
    var r := MoveFront(mtf, j);
    KnownAt(k1, 1, r);
    RunThenPlace(k1, r, 1, 1);
    assert k1[2..] == k2;
    var q := MoveFront(r, 1);
    EncodeRun(k2, q, 0, 156);
    EncodeEnd(k2, q, 0);
    NoRun();
    assert k2[156..] == [];
    assert Digits(156) + [] == Digits(156);
  }

  lemma LengthsSent()
    ensures Known(TwoBytes(), CLEN_MTF) && Encode(TwoBytes(), CLEN_MTF, 0) == SENT
  {
    hide Digits, Encode, Index;
    FewLengths();
    LengthsKnown(TwoBytes());
    PlaceOfOne();
    LengthsFrom(CLEN_MTF, 13);
    RunOf97();
    RunOf156();
    OneRun();
  }

  lemma FewLengths()
    ensures AtMost(TwoBytes(), MAX_CODELEN)
  {
  }

  lemma OneRun()
    ensures Digits(1) == [0]
  {
    NoRun();
  }

  // -------------------------------------------------------------- the codes

  lemma {:induction false} KraftJoin(a: seq<nat>, b: seq<nat>, n: nat)
    ensures KraftSum(a + b, n) == KraftSum(a, n) + KraftSum(b, n)
    decreases |b|
  {
    if b == [] {
      assert a + b == a;
    } else {
      var m := |b| - 1;
      KraftJoin(a, b[..m], n);
      assert (a + b)[..|a| + m] == a + b[..m];
    }
  }

  lemma {:induction false} KraftZeros(k: nat, n: nat)
    ensures KraftSum(Zeros(k), n) == 0
    decreases k
  {
    if k > 0 {
      assert Zeros(k)[..k - 1] == Zeros(k - 1);
      KraftZeros(k - 1, n);
    }
  }

  lemma KraftOne(c: nat, n: nat)
    requires 0 < c <= n
    ensures KraftSum([c], n) == Pow2(n - c)
  {
    assert [c][..0] == [];
  }

  lemma CodesFit()
    ensures KraftOk(TwoBytes(), 20) && KraftOk(OF_LENGTHS, 15)
  {
    hide KraftSum;
    FewLengths();
    var t := Zeros(157);
    KraftZeros(97, 20);
    KraftZeros(157, 20);
    KraftJoin(Zeros(97), [1, 1] + t, 20);
    KraftJoin([1, 1], t, 20);
    KraftJoin([1], [1], 20);
    assert [1] + [1] == [1, 1];
    KraftOne(1, 20);
    assert Pow2(20) == 2 * Pow2(19);
    SmallFits();
  }

  lemma SmallFits()
    ensures KraftSum(OF_LENGTHS, 15) == Pow2(15)
  {
    hide KraftSum;
    assert OF_LENGTHS == [1] + ([2] + ([3] + (Zeros(11) + ([3] + Zeros(7)))));
    KraftZeros(7, 15);
    KraftZeros(11, 15);
    KraftJoin([3], Zeros(7), 15);
    KraftJoin(Zeros(11), [3] + Zeros(7), 15);
    KraftJoin([3], Zeros(11) + ([3] + Zeros(7)), 15);
    KraftJoin([2], [3] + (Zeros(11) + ([3] + Zeros(7))), 15);
    KraftJoin([1], [2] + ([3] + (Zeros(11) + ([3] + Zeros(7)))), 15);
    KraftOne(1, 15);
    KraftOne(2, 15);
    KraftOne(3, 15);
    assert Pow2(15) == 2 * Pow2(14) && Pow2(14) == 2 * Pow2(13) && Pow2(13) == 2 * Pow2(12);
  }

  /** The words of the two bytes. */
  lemma ByteWords()
    ensures CodeBits(TwoBytes(), 97) == [false] && CodeBits(TwoBytes(), 98) == [true]
  {
    CodeStarts(TwoBytes(), 97);
    CodeFollows(TwoBytes(), 97, 98);
    assert Pow2(0) == 1;
    assert ToBits(0, 1) == [false] + ToBits(0, 0) && ToBits(1, 1) == [true] + ToBits(0, 0);
  }

  /** The words of the codes for the lengths. */
  lemma LengthWords()
    ensures CodeBits(OF_LENGTHS, 0) == [false] && CodeBits(OF_LENGTHS, 1) == [true, false]
    ensures CodeBits(OF_LENGTHS, 2) == [true, true, false] && CodeBits(OF_LENGTHS, 14) == [true, true, true]
  {
    hide Code, ToBits;
    LengthCodes();
    OneBit();
    TwoBits();
    ThreeBits();
  }

  lemma OneBit()
    ensures ToBits(0, 1) == [false] && ToBits(1, 1) == [true]
  {
    assert Pow2(0) == 1;
  }

  lemma TwoBits()
    ensures ToBits(2, 2) == [true, false] && ToBits(3, 2) == [true, true]
  {
    assert Pow2(1) == 2;
    assert ToBits(2, 2) == [true] + ToBits(0, 1) && ToBits(3, 2) == [true] + ToBits(1, 1);
    OneBit();
  }

  lemma ThreeBits()
    ensures ToBits(0, 3) == [false, false, false] && ToBits(6, 3) == [true, true, false]
    ensures ToBits(7, 3) == [true, true, true] && ToBits(1, 3) == [false, false, true]
  {
    assert Pow2(2) == 4 && Pow2(1) == 2;
    assert ToBits(0, 3) == [false] + ToBits(0, 2) && ToBits(0, 2) == [false] + ToBits(0, 1);
    assert ToBits(1, 3) == [false] + ToBits(1, 2) && ToBits(1, 2) == [false] + ToBits(1, 1);
    assert ToBits(6, 3) == [true] + ToBits(2, 2) && ToBits(7, 3) == [true] + ToBits(3, 2);
    OneBit();
    TwoBits();
  }

  lemma FourBits()
    ensures ToBits(0, 4) == [false, false, false, false] && ToBits(1, 4) == [false, false, false, true]
    ensures ToBits(2, 4) == [false, false, true, false] && ToBits(3, 4) == [false, false, true, true]
    ensures ToBits(8, 4) == [true, false, false, false]
  {
    assert Pow2(3) == 8 && Pow2(2) == 4 && Pow2(1) == 2;
    assert ToBits(0, 4) == [false] + ToBits(0, 3) && ToBits(1, 4) == [false] + ToBits(1, 3);
    assert ToBits(8, 4) == [true] + ToBits(0, 3);
    assert ToBits(2, 4) == [false] + ToBits(2, 3) && ToBits(2, 3) == [false] + ToBits(2, 2);
    assert ToBits(3, 4) == [false] + ToBits(3, 3) && ToBits(3, 3) == [false] + ToBits(3, 2);
    ThreeBits();
    TwoBits();
  }

  lemma LengthCodes()
    ensures Code(OF_LENGTHS, 0) == 0 && Code(OF_LENGTHS, 1) == 2 && Code(OF_LENGTHS, 2) == 6
    ensures Code(OF_LENGTHS, 14) == 7
  {
    hide Code;
    CodeStarts(OF_LENGTHS, 0);
    CodeFollows(OF_LENGTHS, 0, 1);
    CodeFollows(OF_LENGTHS, 1, 2);
    CodeFollows(OF_LENGTHS, 2, 14);
    assert Pow2(0) == 1 && Pow2(1) == 2;
  }

  // ------------------------------------------------------------- the section

  /** The words of a sequence of codes, if they are known. */
  lemma {:induction false} WordsJoin(clen: seq<nat>, codes: seq<nat>, words: seq<seq<bool>>)
    requires HasWords(clen, codes) && |words| == |codes|
    requires forall i | 0 <= i < |codes| :: words[i] == CodeBits(clen, codes[i])
    ensures WordBits(clen, codes) == Join(words)
    decreases |codes|
  {
    hide CodeBits;
    if codes != [] {
      WordsJoin(clen, codes[1..], words[1..]);
    }
  }

  lemma {:induction false} FieldsJoin(values: seq<nat>, width: nat, fields: seq<seq<bool>>)
    requires |fields| == |values| && forall i | 0 <= i < |values| :: fields[i] == ToBits(values[i], width)
    ensures FieldBits(values, width) == Join(fields)
    decreases |values|
  {
    hide ToBits;
    if values != [] {
      FieldsJoin(values[1..], width, fields[1..]);
    }
  }

  lemma {:induction false} JoinBoth(a: seq<seq<bool>>, b: seq<seq<bool>>)
    ensures Join(a + b) == Join(a) + Join(b)
    decreases |a|
  {
    if a == [] {
      assert a + b == b;
    } else {
      assert (a + b)[1..] == a[1..] + b;
      JoinBoth(a[1..], b);
    }
  }

  /** The lengths of the words for the codes. */
  const NIBBLES: seq<seq<bool>> := [
    [false, false, false, true], [false, false, true, false], [false, false, true, true],
    [false, false, false, false], [false, false, false, false], [false, false, false, false],
    [false, false, false, false], [false, false, false, false], [false, false, false, false],
    [false, false, false, false], [false, false, false, false], [false, false, false, false],
    [false, false, false, false], [false, false, false, false], [false, false, true, true]
  ]

  /** The words of what is sent for the lengths. */
  const WORDS: seq<seq<bool>> := [
    [false], [true, false], [false], [false], [false], [true, false], [true, true, true], [false],
    [true, true, false], [true, false], [false], [true, false], [true, false], [true, false], [false], [false]
  ]

  lemma NibblesRight()
    ensures FieldBits(OF_LENGTHS[..15], 4) == Join(NIBBLES)
  {
    hide ToBits;
    FourBits();
    FieldsJoin(OF_LENGTHS[..15], 4, NIBBLES);
  }

  lemma WordsRight()
    ensures HasWords(OF_LENGTHS, SENT) && WordBits(OF_LENGTHS, SENT) == Join(WORDS)
  {
    hide CodeBits;
    LengthWords();
    WordsJoin(OF_LENGTHS, SENT, WORDS);
  }

  lemma BodyRight()
    ensures HasWords(TwoBytes(), [97, 98]) && WordBits(TwoBytes(), [97, 98]) == [false, true]
  {
    hide CodeBits;
    ByteWords();
    WordsJoin(TwoBytes(), [97, 98], [[false], [true]]);
    assert Join([[false], [true]]) == [false] + Join([[true]]) && Join([[true]]) == [true] + Join([]);
  }

  lemma HeaderFormed()
    ensures Header(OF_LENGTHS, 15) && Groups([TwoBytes()])
  {
    hide KraftOk;
    CodesFit();
  }

  lemma LengthsFormed()
    ensures Kept(Flat([TwoBytes()]), 0, ALPHABET_SIZE) == TwoBytes()
    ensures CodeOf(TwoBytes(), CLEN_MTF, OF_LENGTHS) && SameZeros(Flat([TwoBytes()]), ALPHABET_SIZE)
  {
    hide Known, Encode, Kept, CodeBits, HasWords;
    LengthsSent();
    WordsRight();
    assert [TwoBytes()][..0] == [];
    assert Flat([TwoBytes()]) == TwoBytes();
    Djw.KeptFirst(TwoBytes(), 0);
  }

  lemma BodyFormed()
    ensures Spells([TwoBytes()], [97, 98]) && Selects([0], 1, 2, 2)
  {
    assert Sectors(2, 2) == 1 + Sectors(0, 2);
  }

  lemma SectionFormed()
    ensures WellFormed(Section()) && Kept(Flat([TwoBytes()]), 0, ALPHABET_SIZE) == TwoBytes()
  {
    hide Kept, Flat, Header, Groups, CodeOf, SameZeros, Spells, Selects, TwoBytes;
    HeaderFormed();
    LengthsFormed();
    BodyFormed();
  }

  lemma SectionParts()
    requires WellFormed(Section()) && Kept(Flat([TwoBytes()]), 0, ALPHABET_SIZE) == TwoBytes()
    requires Known(TwoBytes(), CLEN_MTF) && Encode(TwoBytes(), CLEN_MTF, 0) == SENT
    requires HasWords(OF_LENGTHS, SENT) && HasWords(TwoBytes(), [97, 98])
    ensures LayoutBits(Section())
         == ToBits(0, 3) + (ToBits(8, 4) + (FieldBits(OF_LENGTHS[..15], 4)
            + (WordBits(OF_LENGTHS, SENT) + WordBits(TwoBytes(), [97, 98]))))
  {
    hide KraftOk, Known, Encode, Kept, ToBits, WordBits, FieldBits, Spells;
    var l := Section();
    Djw.OneSector(TwoBytes(), [97, 98]);
    assert SizeBits(l) == [] && SelectorBits(l) == [];
    var a, b, c, d := ToBits(8, 4), FieldBits(OF_LENGTHS[..15], 4), WordBits(OF_LENGTHS, SENT), BodyBits(l);
    assert PrefixBits(l) == a + b + c;
    assert [] + ((a + b + c) + ([] + d)) == a + (b + (c + d));
  }

  /** The bits of the section: the number of groups, of code lengths, the code lengths in four
      bits each, the lengths of the bytes, and the two bytes. */
  lemma SectionWritten()
    ensures WellFormed(Section())
    ensures LayoutBits(Section())
         == [false, false, false] + ([true, false, false, false] + (Join(NIBBLES) + (Join(WORDS) + [false, true])))
  {
    hide KraftOk, Known, Encode, Kept, ToBits, WordBits, FieldBits, WellFormed;
    SectionFormed();
    LengthsSent();
    NibblesRight();
    WordsRight();
    BodyRight();
    ThreeBits();
    FourBits();
    SectionParts();
  }

  /** Two groups, sectors of five bytes, the first in the first group and the second in the
      second: the size of the sectors, the lengths of the selectors' words, and their words. */
  lemma SelectorsWritten(l: Layout)
    requires WellFormed(l) && |l.clens| == 2 && l.sectorSize == 5 && l.sel == [0, 1] && l.selclen == [1, 0, 1]
    ensures LayoutBits(l) == [false, false, true] + (SizeBits(l) + (PrefixBits(l) + (SelectorBits(l) + BodyBits(l))))
    ensures SizeBits(l) == [false, false, false, false, false]
    ensures SelectorBits(l)
         == [false, false, true] + [false, false, false] + [false, false, true] + [false] + [true]
  {
    hide WellFormed, PrefixBits, BodyBits, ToBits, Encode, WordBits, FieldBits, CodeBits;
    ThreeBits();
    FourBits();
    assert ToBits(0, 5) == [false] + ToBits(0, 4) by { NoBits(); }
    SelectorParts(l);
    SelectorsSent();
    SelectorWords();
    FieldsJoin([1, 0, 1], 3, [[false, false, true], [false, false, false], [false, false, true]]);
    WordsJoin([1, 0, 1], [0, 2], [[false], [true]]);
    var f, z := [false, false, true], [false, false, false];
    assert Join([f, z, f]) == f + Join([z, f]) && Join([z, f]) == z + Join([f]) && Join([f]) == f + Join([]);
    assert Join([[false], [true]]) == [false] + Join([[true]]) && Join([[true]]) == [true] + Join([]);
  }

  lemma NoBits()
    ensures ToBits(0, 5) == [false] + ToBits(0, 4)
  {
  }

  lemma SelectorParts(l: Layout)
    requires WellFormed(l) && |l.clens| == 2 && l.sel == [0, 1] && l.selclen == [1, 0, 1]
    ensures CodeOf([0, 1], Numbers(2), [1, 0, 1])
    ensures SelectorBits(l) == FieldBits([1, 0, 1], 3) + WordBits([1, 0, 1], Encode([0, 1], Numbers(2), 0))
  {
    hide Groups, Header, CodeOf, Spells, Kept, SameZeros, WordBits, FieldBits, Encode;
  }

  lemma SelectorsSent()
    ensures Known([0, 1], Numbers(2)) && Encode([0, 1], Numbers(2), 0) == [0, 2]
  {
    hide Digits, Encode, MoveFront, Index, Numbers;
    var k, mtf := [0, 1], Numbers(2);
    NumbersPlace();
    RunThenPlace(k, mtf, 1, 1);
    SelectorsEnd(k[2..], MoveFront(mtf, 1));
    OneRun();
  }

  lemma NumbersPlace()
    ensures Known([0, 1], Numbers(2)) && 1 in Numbers(2) && Index(Numbers(2), 1) == 1 && Numbers(2)[0] == 0
  {
    hide Index;
    var mtf := Numbers(2);
    assert mtf[0] == 0 && mtf[1] == 1;
    assert mtf[..1] == [0];
    IndexIs(mtf, 1, 1);
  }

  lemma SelectorsEnd(k: seq<nat>, mtf: seq<nat>)
    requires k == [] && |mtf| > 0
    ensures Known(k, mtf) && Encode(k, mtf, 0) == []
  {
    NoRun();
  }

  lemma SelectorWords()
    ensures CodeBits([1, 0, 1], 0) == [false] && CodeBits([1, 0, 1], 2) == [true]
  {
    CodeStarts([1, 0, 1], 0);
    CodeFollows([1, 0, 1], 0, 2);
    assert Pow2(0) == 1;
    OneBit();
  }
}
