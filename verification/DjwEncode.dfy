/** xdelta3-djw.h: xd3_encode_huff. */
module DjwEncode {
  import opened Bytes
  import opened Binary
  import opened BitIO
  import opened Codes
  import opened Mtf
  import opened MtfDecode
  import opened Sums
  import opened DjwFormat
  import opened DjwBest
  import Huffman
  import Optimal
  import PrefixTree
  import Arith

  // ------------------------------------------------------------ words

  /** djw_count_freqs */
  method CountFreqs(data: seq<byte>) returns (freq: array<nat>)
    ensures fresh(freq) && freq.Length == ALPHABET_SIZE && Counts(freq[..], data)
  {
    hide Counts;
    freq := new nat[ALPHABET_SIZE](_ => 0);
    NothingCounted(freq[..], data[..0]);
    for i := 0 to |data|
      invariant Counts(freq[..], data[..i])
    {
      CountsAppend(freq[..], data[..i], data[i]);
      assert data[..i + 1] == data[..i] + [data[i]];
      ghost var f := freq[..];
      freq[data[i]] := freq[data[i]] + 1;
      assert freq[..] == f[data[i] := f[data[i]] + 1];
    }
    assert data[..|data|] == data;
  }

  /** A code the encoder can use: `code` has the words of `clen`. */
  ghost predicate Coded(clen: seq<nat>, code: seq<nat>, max: nat) {
    && |code| == |clen| && KraftOk(clen, max)
    && forall i | 0 <= i < |clen| && clen[i] > 0 :: code[i] == Code(clen, i)
  }

  method EmitWord(w: BitWriter, clen: seq<nat>, code: array<nat>, sym: nat, ghost max: nat)
    requires w.Valid() && Coded(clen, code[..], max) && sym < |clen| && clen[sym] > 0
    modifies w
    ensures w.Valid() && w.Bits() == old(w.Bits()) + CodeBits(clen, sym)
  {
    hide Code;
    CodeFits(clen, sym, max);
    assert code[sym] == code[..][sym];
    w.EncodeBits(clen[sym], code[sym]);
  }

  /** The words of a sequence of symbols. */
  method EmitWords(w: BitWriter, clen: seq<nat>, code: array<nat>, syms: seq<nat>, ghost max: nat)
    requires w.Valid() && Coded(clen, code[..], max) && HasWords(clen, syms)
    modifies w
    ensures w.Valid() && w.Bits() == old(w.Bits()) + WordBits(clen, syms)
  {
    hide Coded, WordBits, CodeBits;
    CodedSize(clen, code[..], max);
    NoWordBits(clen, syms[..0]);
    assert old(w.Bits()) + [] == old(w.Bits());
    for i := 0 to |syms|
      invariant w.Valid() && HasWords(clen, syms[..i])
      invariant w.Bits() == old(w.Bits()) + WordBits(clen, syms[..i])
    {
      EmitWord(w, clen, code, syms[i], max);
      assert syms[..i + 1] == syms[..i] + [syms[i]];
      WordBitsAppend(clen, syms[..i], syms[i]);
      Associative(old(w.Bits()), WordBits(clen, syms[..i]), CodeBits(clen, syms[i]));
    }
    assert syms[..|syms|] == syms;
  }

  lemma CodedSize(clen: seq<nat>, code: seq<nat>, max: nat)
    requires Coded(clen, code, max)
    ensures |code| == |clen|
  {
  }

  /** Numbers of the same width. */
  method EmitFields(w: BitWriter, values: seq<nat>, width: nat)
    requires w.Valid() && width > 0 && forall i | 0 <= i < |values| :: values[i] < Pow2(width)
    modifies w
    ensures w.Valid() && w.Bits() == old(w.Bits()) + FieldBits(values, width)
  {
    hide FieldBits, ToBits, Pow2;
    NoFieldBits(values[..0], width);
    assert old(w.Bits()) + [] == old(w.Bits());
    for i := 0 to |values|
      invariant w.Valid() && w.Bits() == old(w.Bits()) + FieldBits(values[..i], width)
    {
      w.EncodeBits(width, values[i]);
      assert values[..i + 1] == values[..i] + [values[i]];
      FieldBitsAppend(values[..i], values[i], width);
      Associative(old(w.Bits()), FieldBits(values[..i], width), ToBits(values[i], width));
    }
    assert values[..|values|] == values;
  }

  lemma NoFieldBits(values: seq<nat>, width: nat)
    requires values == []
    ensures FieldBits(values, width) == []
  {
  }

  // ----------------------------------------------- codes from frequencies

  /** Every code that occurs has a word. */
  lemma OccurringHaveWords(freq: seq<nat>, codes: seq<nat>, clen: seq<nat>, w: seq<nat>, passes: nat, max: nat)
    requires |freq| >= 2 && Counts(freq, codes) && Within(codes, |freq| - 1)
    requires w == Huffman.Reweighted(Huffman.Start(freq), passes) && Huffman.BestLengths(clen, w, max)
    ensures HasWords(clen, codes)
  {
    forall i | 0 <= i < |codes|
      ensures codes[i] < |clen| && clen[codes[i]] > 0
    {
      CountPositive(codes, i);
      Huffman.WeightsStay(freq, passes, codes[i]);
    }
  }

  lemma SomethingOccurs(freq: seq<nat>, codes: seq<nat>)
    requires |freq| > 0 && Counts(freq, codes) && codes != [] && Within(codes, |freq| - 1)
    ensures Huffman.Occurring(freq) > 0
  {
    CountPositive(codes, 0);
    Huffman.OccurringSome(freq, codes[0]);
  }

  lemma CountsAre(freq: seq<nat>, codes: seq<nat>)
    requires Counts(freq, codes)
    ensures freq == CountsOf(codes, |freq|)
  {
  }

  /** The code djw_build_prefix and djw_build_codes make for what occurs. */
  method BuildCode(freq: seq<nat>, maxlen: nat, ghost codes: seq<nat>)
    returns (clen: seq<nat>, code: array<nat>, totalBits: nat)
    requires |freq| >= 2 && 2 * |freq| < PrefixTree.Fib(maxlen + 3) && maxlen <= MAX_CODELEN
    requires Counts(freq, codes) && codes != [] && Within(codes, |freq| - 1)
    ensures fresh(code) && Lengths(clen, |freq|, maxlen) && Coded(clen, code[..], maxlen) && HasWords(clen, codes)
    ensures totalBits == Dot(clen, freq)
    ensures BestFor(clen, codes, |freq|, maxlen)
    ensures |codes| + 1 < PrefixTree.Fib(maxlen + 3) ==> Cheapest(clen, CountsOf(codes, |freq|))
  {
    hide Counts, HasWords, Dot, Huffman.BestLengths, Huffman.Reweighted, Huffman.Start, PrefixTree.Fib, Code,
      Huffman.TooDeep, CountsOf, Cheapest, Total;
    SomethingOccurs(freq, codes);
    CountsAre(freq, codes);
    var lengths;
    ghost var w, passes;
    lengths, totalBits, w, passes := Huffman.BuildPrefix(freq, maxlen);
    clen := lengths[..];
    assert BestCode(clen, freq, maxlen, passes);
    if |codes| + 1 < PrefixTree.Fib(maxlen + 3) {
      TotalCounts(codes, |freq|);
      ShortIsLight(freq);
      Huffman.NoPasses(Huffman.Start(freq));
      StartCheapest(clen, freq, maxlen);
    }
    OccurringHaveWords(freq, codes, clen, w, passes, maxlen);
    BestIsLengths(clen, w, maxlen);
    code := BuildCodes(clen);
  }

  lemma BestIsLengths(clen: seq<nat>, w: seq<nat>, max: nat)
    requires Huffman.BestLengths(clen, w, max)
    ensures Lengths(clen, |w|, max) && forall m: nat | max <= m :: AtMost(clen, m)
  {
  }

  // ----------------------------------------------------------- the prefix

  lemma FirstEncoded(k: seq<nat>, table: seq<nat>, run: nat)
    requires |table| > 0 && Known(k, table) && (k != [] || run > 0)
    ensures Encode(k, table, run) != []
    decreases |k|
  {
    if k != [] {
      var j := Index(table, k[0]);
      if j == 0 {
        FirstEncoded(k[1..], table, run + 1);
      }
    }
  }

  /** The lengths of the code for code lengths are the best ones, and no zero at their end is
      sent that need not be. */
  ghost predicate BestHeader(symbols: seq<nat>, clclen: seq<nat>, num: nat)
    requires Header(clclen, num) && CodeOf(symbols, CLEN_MTF, clclen)
  {
    && BestFor(clclen, Encode(symbols, CLEN_MTF, 0), TOTAL_CODES, MAX_CLCLEN)
    && (num > EXTRA_12OFFSET ==> clclen[num - 1] > 0)
  }

  /** djw_encode_prefix */
  method EncodePrefix(w: BitWriter, symbols: seq<nat>) returns (ghost clclen: seq<nat>, ghost num: nat)
    requires w.Valid() && symbols != [] && AtMost(symbols, MAX_CODELEN)
    modifies w
    ensures w.Valid() && Header(clclen, num) && CodeOf(symbols, CLEN_MTF, clclen) && BestHeader(symbols, clclen, num)
    ensures w.Bits() == old(w.Bits()) + (HeaderBits(clclen, num) + RunBits(symbols, CLEN_MTF, clclen))
  {
    hide Encode, Known, HasWords, WordBits, Coded, Counts, Within, KraftOk, FieldBits, ToBits, PrefixTree.Fib, BestFor,
      Cheapest;
    LengthsKnown(symbols);
    AlphabetsFit();
    var mtf := new nat[MAX_CODELEN + 1](i requires 0 <= i < MAX_CODELEN + 1 => CLEN_MTF[i]);
    assert mtf[..] == CLEN_MTF;
    var mtfsym := new nat[|symbols|];
    var mcount, clfreq := ComputeMtf12(symbols, mtf, mtfsym, MAX_CODELEN);
    ghost var codes := mtfsym[..mcount];
    EncodeBound(symbols, CLEN_MTF, 0);
    FirstEncoded(symbols, CLEN_MTF, 0);
    var cl, clcode, bits := BuildCode(clfreq[..], MAX_CLCLEN, codes);
    clclen := cl;
    var n := EmitHeader(w, cl);
    num := n;
    EmitWords(w, cl, clcode, mtfsym[..mcount], MAX_CLCLEN);
    Associative(old(w.Bits()), HeaderBits(cl, n), WordBits(cl, codes));
  }

  /** The lengths of the code for code lengths, without the zeros at the end. */
  method EmitHeader(w: BitWriter, clclen: seq<nat>) returns (num: nat)
    requires w.Valid() && Lengths(clclen, TOTAL_CODES, MAX_CLCLEN)
    modifies w
    ensures w.Valid() && Header(clclen, num) && w.Bits() == old(w.Bits()) + HeaderBits(clclen, num)
    ensures num > EXTRA_12OFFSET ==> clclen[num - 1] > 0
  {
    hide FieldBits, ToBits;
    num := TOTAL_CODES;
    while num > EXTRA_12OFFSET && clclen[num - 1] == 0
      invariant EXTRA_12OFFSET <= num <= TOTAL_CODES
      invariant forall i | num <= i < TOTAL_CODES :: clclen[i] == 0
    {
      num := num - 1;
    }
    SmallPowers();
    w.EncodeBits(EXTRA_CODE_BITS, num - EXTRA_12OFFSET);
    EmitFields(w, clclen[..num], CLCLEN_BITS);
    Associative(old(w.Bits()), ToBits(num - EXTRA_12OFFSET, EXTRA_CODE_BITS), FieldBits(clclen[..num], CLCLEN_BITS));
  }

  // --------------------------------------------------------------- data

  /** The bytes of one sector and all sectors after it. */
  method EncodeData(w: BitWriter, clens: seq<seq<nat>>, codes: seq<array<nat>>, sel: seq<nat>, size: nat,
      data: seq<byte>)
    requires w.Valid() && |codes| == |clens| && Spells(clens, data) && Selects(sel, |clens|, |data|, size)
    requires forall g | 0 <= g < |clens| :: Coded(clens[g], codes[g][..], MAX_CODELEN)
    modifies w
    ensures w.Valid() && w.Bits() == old(w.Bits()) + DataBits(clens, sel, size, data)
  {
    hide Coded, WordBits, HasWords, Spells, Selects, DataBits;
    var at: nat, sector: nat := 0, 0;
    assert data[0..] == data && sel[0..] == sel;
    ghost var all := old(w.Bits()) + DataBits(clens, sel, size, data);
    while at < |data|
      invariant at <= |data| && sector <= |sel| && w.Valid()
      invariant Spells(clens, data[at..]) && Selects(sel[sector..], |clens|, |data[at..]|, size)
      invariant w.Bits() + DataBits(clens, sel[sector..], size, data[at..]) == all
      decreases |data| - at
    {
      ghost var rest, later := data[at..], sel[sector..];
      DataSplit(clens, later, size, rest);
      var n := SectorLength(|data| - at, size);
      assert rest[..n] == data[at..at + n] && rest[n..] == data[at + n..] && later[1..] == sel[sector + 1..];
      ghost var before := w.Bits();
      EmitWords(w, clens[sel[sector]], codes[sel[sector]], data[at..at + n], MAX_CODELEN);
      Associative(before, WordBits(clens[sel[sector]], data[at..at + n]), DataBits(clens, later[1..], size, rest[n..]));
      sector := sector + 1;
      at := at + n;
    }
    NoDataBits(clens, sel[sector..], size, data[at..]);
    assert w.Bits() + [] == w.Bits();
  }

  lemma DataSplit(clens: seq<seq<nat>>, sel: seq<nat>, size: nat, data: seq<byte>)
    requires Spells(clens, data) && Selects(sel, |clens|, |data|, size) && data != []
    ensures var n := SectorLength(|data|, size);
      && 0 < n && |sel| > 0 && sel[0] < |clens| && HasWords(clens[sel[0]], data[..n])
      && Spells(clens, data[n..]) && Selects(sel[1..], |clens|, |data[n..]|, size)
      && DataBits(clens, sel, size, data) == WordBits(clens[sel[0]], data[..n])
          + DataBits(clens, sel[1..], size, data[n..])
  {
    hide Spells, HasWords, WordBits;
    SectorSplit(clens, sel, size, data);
  }

  lemma NoDataBits(clens: seq<seq<nat>>, sel: seq<nat>, size: nat, data: seq<byte>)
    requires Spells(clens, data) && Selects(sel, |clens|, |data|, size) && data == []
    ensures DataBits(clens, sel, size, data) == []
  {
  }

  /** The total the encoder weighs against the input is the length of what it sends. */
  lemma {:induction false} WordsLength(clen: seq<nat>, data: seq<nat>, freq: seq<nat>)
    requires Counts(freq, data) && |freq| == |clen| && HasWords(clen, data)
    ensures |WordBits(clen, data)| == Dot(clen, freq)
    decreases |data|
  {
    hide Counts, HasWords, WordBits, Dot, CodeBits, Count;
    if data == [] {
      NoneCounted(freq, data);
      DotZero(clen, freq);
      NoWordBits(clen, data);
    } else {
      var n := |data| - 1;
      var d, c := data[..n], data[n];
      assert data == d + [c];
      WordBitsAppend(clen, d, c);
      Fewer(freq, d, c);
      var f := freq[c := freq[c] - 1];
      WordsLength(clen, d, f);
      assert clen[c := clen[c]] == clen;
      Optimal.DotUpdate(clen, freq, c, clen[c], freq[c] - 1);
      OneFewer(clen[c], freq[c]);
    }
  }

  lemma OneFewer(a: nat, b: nat)
    requires b > 0
    ensures a * (b - 1) == a * b - a
  {
  }

  lemma NoneCounted(freq: seq<nat>, data: seq<nat>)
    requires Counts(freq, data) && data == []
    ensures forall c | 0 <= c < |freq| :: freq[c] == 0
  {
    forall c: nat | c < |freq| ensures freq[c] == 0 {
      assert Count(data, c) == 0;
    }
  }

  lemma Fewer(freq: seq<nat>, d: seq<nat>, c: nat)
    requires Counts(freq, d + [c]) && c < |freq|
    ensures freq[c] > 0 && Counts(freq[c := freq[c] - 1], d)
  {
    assert (d + [c])[..|d|] == d;
    CountPositive(d + [c], |d|);
  }

  lemma {:induction false} DotZero(clen: seq<nat>, freq: seq<nat>)
    requires |clen| == |freq| && forall i | 0 <= i < |freq| :: freq[i] == 0
    ensures Dot(clen, freq) == 0
  {
    if freq != [] {
      var n := |freq| - 1;
      DotZero(clen[..n], freq[..n]);
    }
  }
}
