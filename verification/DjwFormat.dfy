/**
  xdelta3-djw.h: the bits of a compressed section.  After the number of groups come the
  code lengths of the groups, the group of each sector, and the words of the bytes.
 */
module DjwFormat {
  import opened Bytes
  import opened Binary
  import opened BitIO
  import opened Codes
  import opened Mtf
  import opened MtfDecode
  import opened Sums
  import Arith
  import PrefixTree

  const ALPHABET_SIZE: nat := 256
  const TOTAL_CODES: nat := MAX_CODELEN + 2
  const EXTRA_12OFFSET: nat := 7
  const EXTRA_CODE_BITS: nat := 4
  const CLCLEN_BITS: nat := 4
  const MAX_CLCLEN: nat := 15
  const MAX_GROUPS: nat := 8
  const GROUP_BITS: nat := 3
  const SECTORSZ_MULT: nat := 5
  const SECTORSZ_BITS: nat := 5
  const GBCLEN_BITS: nat := 3
  const MAX_GBCLEN: nat := 7
  const EFFICIENCY_BITS: nat := 16

  /** djw_init_clen_mtf_1_2: the likeliest code lengths first. */
  const CLEN_MTF: seq<nat> := [0, 4, 5, 6, 7, 8, 9, 10, 3, 11, 2, 12, 13, 1, 14, 15, 16, 17, 18, 19, 20]

  lemma LengthsKnown(clen: seq<nat>)
    requires AtMost(clen, MAX_CODELEN)
    ensures |CLEN_MTF| == MAX_CODELEN + 1 && Known(clen, CLEN_MTF)
  {
    forall i | 0 <= i < |clen| ensures clen[i] in CLEN_MTF {
      assert CLEN_MTF[0] == 0 && CLEN_MTF[1] == 4 && CLEN_MTF[2] == 5 && CLEN_MTF[3] == 6 && CLEN_MTF[4] == 7
        && CLEN_MTF[5] == 8 && CLEN_MTF[6] == 9 && CLEN_MTF[7] == 10 && CLEN_MTF[8] == 3 && CLEN_MTF[9] == 11
        && CLEN_MTF[10] == 2 && CLEN_MTF[11] == 12 && CLEN_MTF[12] == 13 && CLEN_MTF[13] == 1 && CLEN_MTF[14] == 14
        && CLEN_MTF[15] == 15 && CLEN_MTF[16] == 16 && CLEN_MTF[17] == 17 && CLEN_MTF[18] == 18
        && CLEN_MTF[19] == 19 && CLEN_MTF[20] == 20;
    }
  }

  /** The three alphabets are small enough for the depth limits of their codes. */
  lemma AlphabetsFit()
    ensures 2 * ALPHABET_SIZE < PrefixTree.Fib(MAX_CODELEN + 3)
    ensures 2 * TOTAL_CODES < PrefixTree.Fib(MAX_CLCLEN + 3)
    ensures 2 * (MAX_GROUPS + 1) < PrefixTree.Fib(MAX_GBCLEN + 3)
  {
    Fibs(8);
    assert PrefixTree.Fib(10) == 55;
    FibNext(10, 55, 34); FibNext(11, 89, 55); FibNext(12, 144, 89); FibNext(13, 233, 144);
    FibNext(14, 377, 233); FibNext(15, 610, 377); FibNext(16, 987, 610); FibNext(17, 1597, 987);
    PrefixTree.FibMonotone(18, 23);
  }

  lemma Fibs(n: nat)
    ensures PrefixTree.Fib(8) == 21 && PrefixTree.Fib(9) == 34 && PrefixTree.Fib(10) == 55
  {
    assert PrefixTree.Fib(2) == 1 && PrefixTree.Fib(3) == 2 && PrefixTree.Fib(4) == 3 && PrefixTree.Fib(5) == 5;
    assert PrefixTree.Fib(6) == 8 && PrefixTree.Fib(7) == 13;
  }

  lemma FibNext(n: nat, f: nat, g: nat)
    requires n > 0 && PrefixTree.Fib(n) == f && PrefixTree.Fib(n - 1) == g
    ensures PrefixTree.Fib(n + 1) == f + g
  {
  }

  // ---------------------------------------------------------- fixed fields

  /** Numbers of the same width one after the other. */
  function FieldBits(values: seq<nat>, width: nat): (bits: seq<bool>)
  {
    if values == [] then [] else ToBits(values[0], width) + FieldBits(values[1..], width)
  }

  lemma {:induction false} FieldBitsAppend(values: seq<nat>, v: nat, width: nat)
    ensures FieldBits(values + [v], width) == FieldBits(values, width) + ToBits(v, width)
    decreases |values|
  {
    if values == [] {
      assert [v][1..] == [] && values + [v] == [v];
      assert ToBits(v, width) + [] == ToBits(v, width);
    } else {
      assert (values + [v])[1..] == values[1..] + [v];
      FieldBitsAppend(values[1..], v, width);
    }
  }

  lemma {:induction false} WordBitsAppend(clen: seq<nat>, codes: seq<nat>, c: nat)
    requires HasWords(clen, codes + [c])
    ensures HasWords(clen, codes) && c < |clen| && clen[c] > 0
    ensures WordBits(clen, codes + [c]) == WordBits(clen, codes) + CodeBits(clen, c)
    decreases |codes|
  {
    assert (codes + [c])[|codes|] == c;
    forall i | 0 <= i < |codes| ensures codes[i] < |clen| && clen[codes[i]] > 0 {
      assert codes[i] == (codes + [c])[i];
    }
    if codes == [] {
      assert [c][1..] == [] && codes + [c] == [c];
      assert CodeBits(clen, c) + [] == CodeBits(clen, c);
    } else {
      assert (codes + [c])[1..] == codes[1..] + [c];
      forall i | 0 <= i < |codes[1..] + [c]| ensures (codes[1..] + [c])[i] < |clen| && clen[(codes[1..] + [c])[i]] > 0 {
        assert (codes[1..] + [c])[i] == (codes + [c])[i + 1];
      }
      WordBitsAppend(clen, codes[1..], c);
    }
  }

  // ------------------------------------------------------------ the prefix

  /** Lengths a decoder can build tables from. */
  predicate Lengths(clen: seq<nat>, n: nat, max: nat) {
    |clen| == n && KraftOk(clen, max)
  }

  /** A symbol sequence in move-to-front code and the code for it. */
  predicate CodeOf(k: seq<nat>, table: seq<nat>, clclen: seq<nat>) {
    |table| > 0 && Known(k, table) && HasWords(clclen, Encode(k, table, 0))
  }

  function RunBits(k: seq<nat>, table: seq<nat>, clclen: seq<nat>): seq<bool>
    requires CodeOf(k, table, clclen)
  {
    WordBits(clclen, Encode(k, table, 0))
  }

  /** The code for code lengths: `num` of its own lengths are sent, the others are zero. */
  predicate Header(clclen: seq<nat>, num: nat) {
    && Lengths(clclen, TOTAL_CODES, MAX_CLCLEN) && EXTRA_12OFFSET <= num <= TOTAL_CODES
    && forall i | num <= i < TOTAL_CODES :: clclen[i] == 0
  }

  function HeaderBits(clclen: seq<nat>, num: nat): seq<bool>
    requires Header(clclen, num)
  {
    ToBits(num - EXTRA_12OFFSET, EXTRA_CODE_BITS) + FieldBits(clclen[..num], CLCLEN_BITS)
  }

  // -------------------------------------------------------------- the data

  /** How many sectors a section has. */
  function Sectors(len: nat, size: nat): nat
    requires size > 0
  {
    if len == 0 then 0 else 1 + Sectors(len - if len < size then len else size, size)
  }

  lemma {:induction false} SectorFormula(len: nat, size: nat)
    requires len > 0 && size > 0
    ensures Sectors(len, size) == 1 + (len - 1) / size
    decreases len
  {
    if len <= size {
      Arith.DivisionUnique(len - 1, size, 0, len - 1);
    } else {
      SectorFormula(len - size, size);
      var q, r := (len - size - 1) / size, (len - size - 1) % size;
      Arith.DivisionUnique(len - 1, size, q + 1, r);
    }
  }

  /** Every group's code has a word for every byte. */
  predicate Spells(clens: seq<seq<nat>>, data: seq<byte>) {
    forall g, i | 0 <= g < |clens| && 0 <= i < |data| :: data[i] < |clens[g]| && clens[g][data[i]] > 0
  }

  predicate Selects(sel: seq<nat>, groups: nat, len: nat, size: nat) {
    size > 0 && |sel| == Sectors(len, size) && forall i | 0 <= i < |sel| :: sel[i] < groups
  }

  function SectorLength(len: nat, size: nat): (n: nat)
    ensures n <= len && n <= size
    ensures len > 0 && size > 0 ==> n > 0
  {
    if len < size then len else size
  }

  /** Each sector in the code of its group. */
  function DataBits(clens: seq<seq<nat>>, sel: seq<nat>, size: nat, data: seq<byte>): seq<bool>
    requires Spells(clens, data) && Selects(sel, |clens|, |data|, size)
    decreases |data|
  {
    if data == [] then [] else
      var n := SectorLength(|data|, size);
      SectorSplit(clens, sel, size, data);
      WordBits(clens[sel[0]], data[..n]) + DataBits(clens, sel[1..], size, data[n..])
  }

  lemma SectorSplit(clens: seq<seq<nat>>, sel: seq<nat>, size: nat, data: seq<byte>)
    requires Spells(clens, data) && Selects(sel, |clens|, |data|, size) && data != []
    ensures var n := SectorLength(|data|, size);
      && |sel| > 0 && sel[0] < |clens| && HasWords(clens[sel[0]], data[..n])
      && Spells(clens, data[n..]) && Selects(sel[1..], |clens|, |data| - n, size)
  {
  }

  // ------------------------------------------------------------- the whole

  /** Everything a compressed section says.  With one group there are no sectors. */
  datatype Layout = Layout(clens: seq<seq<nat>>, clclen: seq<nat>, num: nat,
                           sectorSize: nat, sel: seq<nat>, selclen: seq<nat>, data: seq<byte>)

  /** The code lengths of all groups. */
  function Flat(clens: seq<seq<nat>>): seq<nat> {
    if clens == [] then [] else Flat(clens[..|clens| - 1]) + clens[|clens| - 1]
  }

  predicate Groups(clens: seq<seq<nat>>) {
    0 < |clens| <= MAX_GROUPS && forall g | 0 <= g < |clens| :: Lengths(clens[g], ALPHABET_SIZE, MAX_CODELEN)
  }

  /** The groups a selector can name, in the order the encoder starts with. */
  function Numbers(n: nat): (s: seq<nat>)
    ensures |s| == n && forall i | 0 <= i < n :: s[i] == i
  {
    seq(n, i => i)
  }

  predicate WellFormed(l: Layout) {
    && Groups(l.clens) && Header(l.clclen, l.num) && l.data != []
    && CodeOf(Kept(Flat(l.clens), 0, ALPHABET_SIZE), CLEN_MTF, l.clclen)
    && SameZeros(Flat(l.clens), ALPHABET_SIZE)
    && Spells(l.clens, l.data) && Selects(l.sel, |l.clens|, |l.data|, l.sectorSize)
    && (|l.clens| == 1 ==> l.sectorSize == |l.data|)
    && (|l.clens| > 1 ==>
          && l.sectorSize % SECTORSZ_MULT == 0 && l.sectorSize <= 32 * SECTORSZ_MULT
          && Lengths(l.selclen, |l.clens| + 1, MAX_GBCLEN)
          && CodeOf(l.sel, Numbers(|l.clens|), l.selclen))
  }

  function PrefixBits(l: Layout): seq<bool>
    requires WellFormed(l)
  {
    HeaderBits(l.clclen, l.num) + RunBits(Kept(Flat(l.clens), 0, ALPHABET_SIZE), CLEN_MTF, l.clclen)
  }

  function SelectorBits(l: Layout): seq<bool>
    requires WellFormed(l)
  {
    if |l.clens| > 1 then FieldBits(l.selclen, GBCLEN_BITS) + RunBits(l.sel, Numbers(|l.clens|), l.selclen) else []
  }

  function SizeBits(l: Layout): seq<bool>
    requires WellFormed(l)
  {
    if |l.clens| > 1 then ToBits(l.sectorSize / SECTORSZ_MULT - 1, SECTORSZ_BITS) else []
  }

  function BodyBits(l: Layout): seq<bool>
    requires WellFormed(l)
  {
    DataBits(l.clens, l.sel, l.sectorSize, l.data)
  }

  function LayoutBits(l: Layout): seq<bool>
    requires WellFormed(l)
  {
    ToBits(|l.clens| - 1, GROUP_BITS)
    + (SizeBits(l) + (PrefixBits(l) + (SelectorBits(l) + BodyBits(l))))
  }
}
