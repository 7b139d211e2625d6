/** xdelta3-djw.h: the secondary compressor and its inverse. */
module Djw {
  import opened Bytes
  import opened Binary
  import opened BitIO
  import opened Codes
  import opened Mtf
  import opened MtfDecode
  import opened Sums
  import opened DjwFormat
  import opened DjwBest
  import opened DjwEncode
  import DjwDecode
  import PrefixTree
  import Arith

  // ------------------------------------------------------------ one group

  /** One group: the whole section is one sector. */
  function Single(clen: seq<nat>, clclen: seq<nat>, num: nat, data: seq<byte>): Layout {
    Layout([clen], clclen, num, |data|, [0], [], data)
  }

  lemma SingleFormed(clen: seq<nat>, clclen: seq<nat>, num: nat, data: seq<byte>)
    requires Lengths(clen, ALPHABET_SIZE, MAX_CODELEN) && Header(clclen, num) && CodeOf(clen, CLEN_MTF, clclen)
    requires HasWords(clen, data) && data != []
    ensures var l := Single(clen, clclen, num, data);
      WellFormed(l) && LayoutBits(l) == ToBits(0, GROUP_BITS)
          + (HeaderBits(clclen, num) + RunBits(clen, CLEN_MTF, clclen)) + WordBits(clen, data)
  {
    hide Header, CodeOf, WordBits, HeaderBits, RunBits, ToBits, KraftOk;
    var l := Single(clen, clclen, num, data);
    assert Flat([clen]) == clen by { assert [clen][..0] == []; assert Flat([]) == []; assert [] + clen == clen; }
    KeptFirst(clen, 0);
    assert Sectors(|data|, |data|) == 1 by { assert Sectors(0, |data|) == 0; }
    assert Spells([clen], data);
    OneSector(clen, data);
    Bracketed(ToBits(0, GROUP_BITS), PrefixBits(l), BodyBits(l));
  }

  lemma Bracketed(a: seq<bool>, b: seq<bool>, c: seq<bool>)
    ensures a + ([] + (b + ([] + c))) == a + b + c
  {
    assert [] + (b + ([] + c)) == b + c;
  }

  lemma {:induction false} KeptFirst(v: seq<nat>, n: nat)
    requires n <= |v| <= ALPHABET_SIZE
    ensures Kept(v, n, ALPHABET_SIZE) == v[n..]
    decreases |v| - n
  {
    if n < |v| {
      KeptFirst(v, n + 1);
    }
  }

  lemma OneSector(clen: seq<nat>, data: seq<byte>)
    requires Spells([clen], data) && Selects([0], 1, |data|, |data|) && data != [] && HasWords(clen, data)
    ensures DataBits([clen], [0], |data|, data) == WordBits(clen, data)
  {
    hide WordBits;
    DataSplit([clen], [0], |data|, data);
    assert data[..|data|] == data;
    NoDataBits([clen], [0][1..], |data|, data[|data|..]);
    assert WordBits(clen, data) + [] == WordBits(clen, data);
  }

  /** Whether a section is worth sending: the data takes `bits`, and the output page holds
      `at` bytes when they are about to be written. */
  predicate Saves(bits: nat, at: nat, len: nat, inefficient: bool) {
    inefficient || bits + 8 * at + EFFICIENCY_BITS < 8 * len
  }

  /** The code lengths of a section of one group are the best for its data, and so are those
      of its prefix. */
  ghost predicate BestSingle(l: Layout, clen: seq<nat>, data: seq<byte>) {
    && WellFormed(l) && l.data == data && l.clens == [clen] && CodeOf(clen, CLEN_MTF, l.clclen)
    && BestHeader(clen, l.clclen, l.num)
  }

  /** What the branch for one group comes to on an output page with `first` of `avail` bytes:
      the section is declined just when it would not get small enough with the best lengths
      there are. */
  ghost predicate SingleOutcome(accepted: bool, clen: seq<nat>, l: Layout, at: nat, data: seq<byte>, inefficient: bool,
                                first: nat, avail: nat, before: nat)
  {
    && |clen| == ALPHABET_SIZE && BestFor(clen, data, ALPHABET_SIZE, MAX_CODELEN)
    && (|data| + 1 < PrefixTree.Fib(MAX_CODELEN + 3) ==> Cheapest(clen, CountsOf(data, ALPHABET_SIZE)))
    && var bits := Dot(clen, CountsOf(data, ALPHABET_SIZE));
    && (accepted <==> Saves(bits, at, |data|, inefficient))
    && (Saves(bits, 0, |data|, inefficient) ==>
          BestSingle(l, clen, data) && at == PageNext(first, avail, (before + GROUP_BITS + |PrefixBits(l)|) / 8))
  }

  /** The branch of xd3_encode_huff for one group. */
  method EncodeSingle(w: BitWriter, data: seq<byte>, inefficient: bool)
    returns (accepted: bool, outputBits: nat, ghost clen: seq<nat>, ghost l: Layout, ghost at: nat)
    requires w.Valid() && data != []
    modifies w
    ensures SingleOutcome(accepted, clen, l, at, data, inefficient, w.first, w.pageAvail, |old(w.Bits())|)
    ensures outputBits == Dot(clen, CountsOf(data, ALPHABET_SIZE))
    ensures accepted ==> w.Valid() && BestSingle(l, clen, data) && w.Bits() == old(w.Bits()) + LayoutBits(l)
    ensures accepted ==> outputBits == |BodyBits(l)|
  {
    hide WellFormed, LayoutBits, Lengths, Coded, HasWords, WordBits, Counts, Header, CodeOf, HeaderBits, RunBits,
        ToBits;
    hide PrefixTree.Fib, Dot, BodyBits, Known, BestFor, Cheapest, CountsOf, BestHeader, PageNext, PrefixBits;
    l, at := Layout([], [], 0, 0, [], [], []), 0;
    ghost var start := w.Bits();
    AlphabetsFit();
    SmallPowers();
    var freq := CountFreqs(data);
    ByteCodes(data);
    w.EncodeBits(GROUP_BITS, 0);
    CountsAre(freq[..], data);
    var lengths, code;
    lengths, code, outputBits := BuildCode(freq[..], MAX_CODELEN, data);
    clen := lengths;
    SingleLengths(clen);
    accepted := inefficient || outputBits + EFFICIENCY_BITS < 8 * |data|;
    if accepted {
      ghost var clclen, num := EncodePrefix(w, lengths);
      SingleFormed(clen, clclen, num, data);
      l := Single(clen, clclen, num, data);
      SinglePrefix(l, clen, data);
      w.WholeBytes();
      at := w.pageNext;
      accepted := inefficient || outputBits + 8 * w.pageNext + EFFICIENCY_BITS < 8 * |data|;
      if accepted {
        EmitWords(w, lengths, code, data, MAX_CODELEN);
        SingleBody(clen, data, freq[..], clclen, num);
        ThreeParts(start, ToBits(0, GROUP_BITS), HeaderBits(clclen, num) + RunBits(clen, CLEN_MTF, clclen),
            WordBits(clen, data));
      }
    }
  }

  lemma SinglePrefix(l: Layout, clen: seq<nat>, data: seq<byte>)
    requires WellFormed(l) && l.clens == [clen] && CodeOf(clen, CLEN_MTF, l.clclen)
    ensures PrefixBits(l) == HeaderBits(l.clclen, l.num) + RunBits(clen, CLEN_MTF, l.clclen)
    ensures |ToBits(0, GROUP_BITS)| == GROUP_BITS
  {
    hide CodeOf, HeaderBits, RunBits, Header;
    assert Flat([clen]) == clen by { assert [clen][..0] == []; assert Flat([]) == []; assert [] + clen == clen; }
    SingleRow(l.clens, clen);
    KeptFirst(clen, 0);
  }

  lemma SingleRow(clens: seq<seq<nat>>, clen: seq<nat>)
    requires Groups(clens) && clens == [clen]
    ensures |clen| == ALPHABET_SIZE
  {
    assert Lengths(clens[0], ALPHABET_SIZE, MAX_CODELEN);
  }

  lemma ByteCodes(data: seq<byte>)
    ensures Within(data, ALPHABET_SIZE - 1)
  {
  }

  lemma SingleLengths(clen: seq<nat>)
    requires Lengths(clen, ALPHABET_SIZE, MAX_CODELEN)
    ensures AtMost(clen, MAX_CODELEN) && |clen| == ALPHABET_SIZE
  {
  }

  lemma SingleBody(clen: seq<nat>, data: seq<byte>, freq: seq<nat>, clclen: seq<nat>, num: nat)
    requires WellFormed(Single(clen, clclen, num, data)) && HasWords(clen, data) && |freq| == |clen|
        && Counts(freq, data)
    ensures |BodyBits(Single(clen, clclen, num, data))| == Dot(clen, freq)
  {
    hide WordBits, HasWords, Dot, Counts, Groups, Header, CodeOf, SameZeros, Kept, Flat;
    OneSector(clen, data);
    WordsLength(clen, data, freq);
  }

  lemma ThreeParts(s: seq<bool>, a: seq<bool>, b: seq<bool>, c: seq<bool>)
    ensures s + a + b + c == s + (a + b + c)
  {
  }

  // -------------------------------------------------------- several groups

  /** What the search for groups comes to: the code lengths of each group, the group of
      each sector, and the length of the data in these codes. */
  datatype Plan = Plan(clens: seq<seq<nat>>, sectorSize: nat, sel: seq<nat>, outputBits: nat)

  /** Every group has a word for every byte that occurs anywhere, and the groups agree on
      the bytes that do not. */
  predicate PlanFor(p: Plan, data: seq<byte>) {
    && Groups(p.clens) && |p.clens| > 1 && data != []
    && 0 < p.sectorSize <= 32 * SECTORSZ_MULT && p.sectorSize % SECTORSZ_MULT == 0
    && Spells(p.clens, data) && Selects(p.sel, |p.clens|, |data|, p.sectorSize)
    && SameZeros(Flat(p.clens), ALPHABET_SIZE)
  }

  lemma {:induction false} KeptTail(v: seq<nat>, a: seq<nat>, i: nat)
    requires |v| >= ALPHABET_SIZE && i <= |a|
    ensures Kept(v + a, |v| + i, ALPHABET_SIZE) == NonZeros(a, i)
    decreases |a| - i
  {
    if i < |a| {
      KeptTail(v, a, i + 1);
      assert (v + a)[|v| + i] == a[i];
    }
  }

  /** The lengths that are not zero, from `i` on. */
  function NonZeros(a: seq<nat>, i: nat): seq<nat>
    requires i <= |a|
    decreases |a| - i
  {
    if i == |a| then [] else if a[i] == 0 then NonZeros(a, i + 1) else [a[i]] + NonZeros(a, i + 1)
  }

  lemma {:induction false} KeptSplit(v: seq<nat>, a: seq<nat>, n: nat)
    requires n <= |v| && |v| >= ALPHABET_SIZE
    ensures Kept(v + a, n, ALPHABET_SIZE) == Kept(v, n, ALPHABET_SIZE) + NonZeros(a, 0)
    decreases |v| - n
  {
    if n == |v| {
      KeptTail(v, a, 0);
      assert [] + NonZeros(a, 0) == NonZeros(a, 0);
    } else {
      KeptSplit(v, a, n + 1);
      assert (v + a)[n] == v[n];
      assert [v[n]] + (Kept(v, n + 1, ALPHABET_SIZE) + NonZeros(a, 0))
          == [v[n]] + Kept(v, n + 1, ALPHABET_SIZE) + NonZeros(a, 0);
    }
  }

  /** djw_compute_multi_prefix */
  method ComputeMultiPrefix(clens: seq<seq<nat>>) returns (symbols: seq<nat>)
    requires clens != [] && forall g | 0 <= g < |clens| :: |clens[g]| == ALPHABET_SIZE && AtMost(clens[g], MAX_CODELEN)
    ensures symbols == Kept(Flat(clens), 0, ALPHABET_SIZE)
    ensures AtMost(symbols, MAX_CODELEN) && symbols != []
  {
    hide Kept, NonZeros;
    symbols := clens[0];
    FlatOne(clens);
    KeptFirst(clens[0], 0);
    for gp := 1 to |clens|
      invariant symbols == Kept(Flat(clens[..gp]), 0, ALPHABET_SIZE)
      invariant AtMost(symbols, MAX_CODELEN) && |symbols| >= ALPHABET_SIZE
    {
      ghost var before, a := symbols, clens[gp];
      NonZerosEnd(a);
      assert before + NonZeros(a, 0) == symbols + NonZeros(a, 0);
      for i := 0 to ALPHABET_SIZE
        invariant symbols + NonZeros(a, i) == before + NonZeros(a, 0)
        invariant AtMost(symbols, MAX_CODELEN) && |symbols| >= ALPHABET_SIZE
      {
        NonZerosStep(a, i, symbols);
        if clens[gp][i] != 0 {
          symbols := symbols + [clens[gp][i]];
        }
      }
      assert symbols + [] == symbols;
      FlatNext(clens, gp);
      KeptSplit(Flat(clens[..gp]), a, 0);
    }
    assert clens[..|clens|] == clens;
  }

  lemma FlatOne(clens: seq<seq<nat>>)
    requires clens != []
    ensures Flat(clens[..1]) == clens[0] && clens[0][0..] == clens[0]
  {
    assert clens[..1][..0] == [];
    assert Flat([]) == [] && [] + clens[0] == clens[0];
  }

  lemma FlatNext(clens: seq<seq<nat>>, gp: nat)
    requires 0 < gp < |clens| && forall g | 0 <= g < |clens| :: |clens[g]| == ALPHABET_SIZE
    ensures Flat(clens[..gp + 1]) == Flat(clens[..gp]) + clens[gp]
    ensures |Flat(clens[..gp])| >= ALPHABET_SIZE
  {
    assert clens[..gp + 1][..gp] == clens[..gp];
    DjwDecode.FlatLength(clens[..gp], ALPHABET_SIZE);
    assert gp * ALPHABET_SIZE >= ALPHABET_SIZE;
  }

  lemma NonZerosEnd(a: seq<nat>)
    ensures NonZeros(a, |a|) == []
  {
  }

  lemma NonZerosStep(a: seq<nat>, i: nat, s: seq<nat>)
    requires i < |a|
    ensures (if a[i] != 0 then s + [a[i]] else s) + NonZeros(a, i + 1) == s + NonZeros(a, i)
  {
  }

  /** The groups of the sectors, in a code of their own. */
  method EncodeSelectors(w: BitWriter, sel: seq<nat>, groups: nat) returns (ghost selclen: seq<nat>, selectBits: nat)
    requires w.Valid() && 1 < groups <= MAX_GROUPS && sel != [] && forall i | 0 <= i < |sel| :: sel[i] < groups
    modifies w
    ensures w.Valid() && Lengths(selclen, groups + 1, MAX_GBCLEN) && CodeOf(sel, Numbers(groups), selclen)
    ensures w.Bits() == old(w.Bits()) + (FieldBits(selclen, GBCLEN_BITS) + RunBits(sel, Numbers(groups), selclen))
    ensures selectBits == |RunBits(sel, Numbers(groups), selclen)|
    ensures BestFor(selclen, Encode(sel, Numbers(groups), 0), groups + 1, MAX_GBCLEN)
  {
    hide Encode, Known, HasWords, WordBits, Coded, Counts, Within, KraftOk, FieldBits, ToBits, PrefixTree.Fib, Dot,
      BestFor, Cheapest;
    AlphabetsFit();
    var grmtf := new nat[groups](i => i);
    assert grmtf[..] == Numbers(groups);
    SelectorsKnown(sel, groups);
    var gbestMtf := new nat[|sel|];
    var mcount, freq := ComputeMtf12(sel, grmtf, gbestMtf, groups);
    ghost var codes := gbestMtf[..mcount];
    EncodeBound(sel, Numbers(groups), 0);
    FirstEncoded(sel, Numbers(groups), 0);
    CountsPrefix(freq[..], codes, groups + 1);
    var cl, code;
    cl, code, selectBits := BuildCode(freq[..groups + 1], MAX_GBCLEN, codes);
    selclen := cl;
    WordsLength(cl, codes, freq[..groups + 1]);
    SmallLengths(cl, groups + 1);
    EmitFields(w, cl, GBCLEN_BITS);
    EmitWords(w, cl, code, gbestMtf[..mcount], MAX_GBCLEN);
    Associative(old(w.Bits()), FieldBits(cl, GBCLEN_BITS), WordBits(cl, codes));
  }

  lemma SelectorsKnown(sel: seq<nat>, groups: nat)
    requires forall i | 0 <= i < |sel| :: sel[i] < groups
    ensures Known(sel, Numbers(groups))
  {
    forall i | 0 <= i < |sel| ensures sel[i] in Numbers(groups) {
      assert Numbers(groups)[sel[i]] == sel[i];
    }
  }

  lemma CountsPrefix(freq: seq<nat>, codes: seq<nat>, n: nat)
    requires Counts(freq, codes) && n <= |freq|
    ensures Counts(freq[..n], codes)
  {
  }

  lemma SmallLengths(clen: seq<nat>, n: nat)
    requires Lengths(clen, n, MAX_GBCLEN)
    ensures forall i | 0 <= i < |clen| :: clen[i] < Pow2(GBCLEN_BITS)
  {
    SmallPowers();
  }

  /** A section in several groups. */
  function Several(p: Plan, clclen: seq<nat>, num: nat, selclen: seq<nat>, data: seq<byte>): Layout {
    Layout(p.clens, clclen, num, p.sectorSize, p.sel, selclen, data)
  }

  lemma SeveralFormed(p: Plan, clclen: seq<nat>, num: nat, selclen: seq<nat>, data: seq<byte>)
    requires PlanFor(p, data) && Header(clclen, num) && Lengths(selclen, |p.clens| + 1, MAX_GBCLEN)
    requires CodeOf(Kept(Flat(p.clens), 0, ALPHABET_SIZE), CLEN_MTF, clclen)
        && CodeOf(p.sel, Numbers(|p.clens|), selclen)
    ensures var l := Several(p, clclen, num, selclen, data);
      WellFormed(l) && LayoutBits(l) ==
        ToBits(|p.clens| - 1, GROUP_BITS) + (ToBits(p.sectorSize / SECTORSZ_MULT - 1, SECTORSZ_BITS)
        + ((HeaderBits(clclen, num) + RunBits(Kept(Flat(p.clens), 0, ALPHABET_SIZE), CLEN_MTF, clclen))
        + ((FieldBits(selclen, GBCLEN_BITS) + RunBits(p.sel, Numbers(|p.clens|), selclen))
        + DataBits(p.clens, p.sel, p.sectorSize, data))))
  {
    hide Header, CodeOf, HeaderBits, RunBits, ToBits, FieldBits, DataBits, Groups, Spells, Selects, SameZeros, Kept,
        Flat, Lengths;
    assert Selects(p.sel, |p.clens|, |data|, p.sectorSize);
  }

  /** A section for the plan, with the best codes for its prefix and its selectors. */
  ghost predicate BestSeveral(l: Layout, p: Plan, data: seq<byte>) {
    && WellFormed(l) && l.data == data && l.clens == p.clens && l.sectorSize == p.sectorSize && l.sel == p.sel
    && |l.clens| > 1
    && BestHeader(Kept(Flat(l.clens), 0, ALPHABET_SIZE), l.clclen, l.num)
    && BestFor(l.selclen, Encode(l.sel, Numbers(|l.clens|), 0), |l.clens| + 1, MAX_GBCLEN)
  }

  /** What the branch for several groups comes to: the section is declined just when it would
      not get small enough with the lengths of the plan. */
  ghost predicate SeveralOutcome(accepted: bool, l: Layout, at: nat, p: Plan, data: seq<byte>, inefficient: bool,
                                 first: nat, avail: nat, before: nat)
  {
    if !Saves(p.outputBits, 0, |data|, inefficient) then !accepted
    else
      && BestSeveral(l, p, data)
      && at == PageNext(first, avail,
                        (before + GROUP_BITS + SECTORSZ_BITS + |PrefixBits(l)| + |SelectorBits(l)|) / 8)
      && (accepted <==>
            Saves(p.outputBits + |RunBits(l.sel, Numbers(|l.clens|), l.selclen)|, at, |data|, inefficient))
  }

  /** The other branch of xd3_encode_huff, from the search for groups on. */
  method EncodeSeveral(w: BitWriter, data: seq<byte>, p: Plan, inefficient: bool)
    returns (accepted: bool, ghost l: Layout, ghost at: nat)
    requires w.Valid() && PlanFor(p, data)
    modifies w
    ensures SeveralOutcome(accepted, l, at, p, data, inefficient, w.first, w.pageAvail, |old(w.Bits())|)
    ensures accepted ==> w.Valid() && BestSeveral(l, p, data) && w.Bits() == old(w.Bits()) + LayoutBits(l)
  {
    hide WellFormed, LayoutBits, Lengths, Coded, Header, CodeOf, HeaderBits, RunBits, ToBits, PlanFor, Kept, Flat,
        FieldBits, DataBits, BestHeader, BestFor, PageNext, PrefixBits, SelectorBits, Encode;
    l, at := Layout([], [], 0, 0, [], [], []), 0;
    ghost var start := w.Bits();
    SmallPowers();
    PlanParts(p, data);
    var groups := |p.clens|;
    w.EncodeBits(GROUP_BITS, groups - 1);
    w.EncodeBits(SECTORSZ_BITS, p.sectorSize / SECTORSZ_MULT - 1);
    accepted := inefficient || p.outputBits + EFFICIENCY_BITS < 8 * |data|;
    if accepted {
      var symbols := ComputeMultiPrefix(p.clens);
      ghost var clclen, num := EncodePrefix(w, symbols);
      ghost var selclen;
      var selectBits;
      selclen, selectBits := EncodeSelectors(w, p.sel, groups);
      SeveralFormed(p, clclen, num, selclen, data);
      l := Several(p, clclen, num, selclen, data);
      SeveralHead(l, p);
      w.WholeBytes();
      at := w.pageNext;
      accepted := inefficient || p.outputBits + selectBits + 8 * w.pageNext + EFFICIENCY_BITS < 8 * |data|;
      if accepted {
        var codes := AllCodes(p.clens);
        EncodeData(w, p.clens, codes, p.sel, p.sectorSize, data);
        FiveParts(start, ToBits(groups - 1, GROUP_BITS), ToBits(p.sectorSize / SECTORSZ_MULT - 1, SECTORSZ_BITS),
                  HeaderBits(clclen, num) + RunBits(symbols, CLEN_MTF, clclen),
                  FieldBits(selclen, GBCLEN_BITS) + RunBits(p.sel, Numbers(groups), selclen),
                  DataBits(p.clens, p.sel, p.sectorSize, data));
      }
    }
  }

  lemma SeveralHead(l: Layout, p: Plan)
    requires WellFormed(l) && |l.clens| > 1
    ensures CodeOf(Kept(Flat(l.clens), 0, ALPHABET_SIZE), CLEN_MTF, l.clclen)
    ensures PrefixBits(l)
      == HeaderBits(l.clclen, l.num) + RunBits(Kept(Flat(l.clens), 0, ALPHABET_SIZE), CLEN_MTF, l.clclen)
    ensures CodeOf(l.sel, Numbers(|l.clens|), l.selclen)
    ensures SelectorBits(l) == FieldBits(l.selclen, GBCLEN_BITS) + RunBits(l.sel, Numbers(|l.clens|), l.selclen)
    ensures |ToBits(|l.clens| - 1, GROUP_BITS)| == GROUP_BITS
    ensures |ToBits(l.sectorSize / SECTORSZ_MULT - 1, SECTORSZ_BITS)| == SECTORSZ_BITS
  {
    hide CodeOf, HeaderBits, RunBits, Header, Groups, Spells, Selects, SameZeros, Kept, Flat, FieldBits;
  }

  lemma PlanParts(p: Plan, data: seq<byte>)
    requires PlanFor(p, data)
    ensures 1 < |p.clens| <= 8 && 0 <= p.sectorSize / SECTORSZ_MULT - 1 < 32 && p.sectorSize > 0
    ensures forall g | 0 <= g < |p.clens| :: |p.clens[g]| == ALPHABET_SIZE && KraftOk(p.clens[g], MAX_CODELEN)
    ensures p.sel != [] && (forall i | 0 <= i < |p.sel| :: p.sel[i] < |p.clens|)
    ensures Spells(p.clens, data) && Selects(p.sel, |p.clens|, |data|, p.sectorSize)
  {
    forall g | 0 <= g < |p.clens| ensures |p.clens[g]| == ALPHABET_SIZE && KraftOk(p.clens[g], MAX_CODELEN) {
      assert Lengths(p.clens[g], ALPHABET_SIZE, MAX_CODELEN);
    }
  }

  lemma FiveParts(s: seq<bool>, a: seq<bool>, b: seq<bool>, c: seq<bool>, d: seq<bool>, e: seq<bool>)
    ensures s + a + b + c + d + e == s + (a + (b + (c + (d + e))))
  {
    Associative(s, a, b + (c + (d + e)));
    Associative(s + a, b, c + (d + e));
    Associative(s + a + b, c, d + e);
    Associative(s + a + b + c, d, e);
  }

  /** The words of every group. */
  method AllCodes(clens: seq<seq<nat>>) returns (codes: seq<array<nat>>)
    requires forall g | 0 <= g < |clens| :: KraftOk(clens[g], MAX_CODELEN)
    ensures |codes| == |clens| && forall g | 0 <= g < |clens| :: Coded(clens[g], codes[g][..], MAX_CODELEN)
  {
    hide Code, KraftSum;
    codes := [];
    for gp := 0 to |clens|
      invariant |codes| == gp
      invariant forall g | 0 <= g < gp :: allocated(codes[g]) && Coded(clens[g], codes[g][..], MAX_CODELEN)
    {
      var code := BuildCodes(clens[gp]);
      codes := codes + [code];
    }
  }

  // ------------------------------------------------------------- the whole

  /** xd3_encode_huff on an output page that already holds `next` bytes.  Without a plan
      there is one group. */
  method EncodeHuff(data: seq<byte>, plan: Option<Plan>, inefficient: bool, pageAvail: nat, next: nat)
    returns (accepted: bool, out: seq<byte>, ghost clen: seq<nat>, ghost l: Layout, ghost at: nat, ghost padding: nat)
    requires data != [] && (plan.Some? ==> PlanFor(plan.value, data))
    ensures plan.None? ==> SingleOutcome(accepted, clen, l, at, data, inefficient, next, pageAvail, 0)
    ensures plan.Some? ==> SeveralOutcome(accepted, l, at, plan.value, data, inefficient, next, pageAvail, 0)
    ensures accepted ==> WellFormed(l) && l.data == data
    ensures accepted ==> padding < 8 && BitsOf(out) == LayoutBits(l) + Repeat(false, padding)
    ensures accepted <== inefficient
  {
    hide WellFormed, LayoutBits, PlanFor, BitsOf, PrefixBits, SelectorBits, PageNext, BestFor, BestHeader, Dot;
    var w := new BitWriter(pageAvail, next);
    out, padding, clen := [], 0, [];
    if plan.None? {
      var bits;
      accepted, bits, clen, l, at := EncodeSingle(w, data, inefficient);
    } else {
      accepted, l, at := EncodeSeveral(w, data, plan.value, inefficient);
    }
    if accepted {
      assert [] + LayoutBits(l) == LayoutBits(l);
      padding := w.FlushBits();
      out := w.out;
    }
  }

  /** A compressed section with any bytes after it is decompressed to what it was made of,
      and exactly its own bytes are consumed.  With one group this holds of all data;
      several groups must agree on the bytes without a word. */
  method RoundTrip(data: seq<byte>, plan: Option<Plan>, inefficient: bool, pageAvail: nat, next: nat,
      following: seq<byte>)
    returns (accepted: bool, sent: seq<byte>, ok: bool, output: seq<byte>, consumed: nat)
    requires data != [] && (plan.Some? ==> PlanFor(plan.value, data))
    ensures inefficient ==> accepted
    ensures accepted ==> ok && output == data && consumed == |sent|
  {
    hide WellFormed, LayoutBits, PlanFor, BitsOf;
    ghost var clen, l, at, padding;
    ok, output, consumed := false, [], 0;
    accepted, sent, clen, l, at, padding := EncodeHuff(data, plan, inefficient, pageAvail, next);
    if accepted {
      var r := new BitReader(sent + following);
      ghost var rest := Repeat(false, padding) + BitsOf(following);
      BitsOfJoin(sent, following);
      Associative(LayoutBits(l), Repeat(false, padding), BitsOf(following));
      var a;
      ok, a := DjwDecode.DecodeHuff(r, |data|, true, l, rest);
      output := a[..];
      consumed := r.pos;
      Consumed(r, |sent|, padding, following);
    }
  }
}
