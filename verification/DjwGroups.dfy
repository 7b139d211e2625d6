/**
  xdelta3-djw.h: the code lengths of several groups.  A group counts only some of the data,
  but gets a word for every byte that occurs anywhere.
 */
module DjwGroups {
  import opened Bytes
  import opened Codes
  import opened Mtf
  import opened MtfDecode
  import opened DjwFormat
  import opened Huffman
  import opened Sums
  import DjwDecode
  import DjwEncode
  import Djw
  import PrefixTree

  /** A group counts no byte that does not occur. */
  predicate PartOf(freq: seq<nat>, counts: seq<nat>) {
    |freq| == |counts| && forall i | 0 <= i < |freq| :: counts[i] == 0 ==> freq[i] == 0
  }

  /** Every byte that occurs counts for something. */
  function Filled(freq: seq<nat>, counts: seq<nat>): (f: seq<nat>)
    requires |freq| == |counts|
    ensures |f| == |counts|
  {
    seq(|counts|, i requires 0 <= i < |counts| => if freq[i] == 0 && counts[i] != 0 then 1 else freq[i])
  }

  /** The same symbols have a weight. */
  predicate Alike(a: seq<nat>, b: seq<nat>) {
    |a| == |b| && forall i | 0 <= i < |a| :: a[i] == 0 <==> b[i] == 0
  }

  lemma FilledAlike(freq: seq<nat>, counts: seq<nat>)
    requires PartOf(freq, counts)
    ensures Alike(Filled(freq, counts), counts)
  {
  }

  lemma {:induction false} AlikeOccurring(a: seq<nat>, b: seq<nat>)
    requires Alike(a, b)
    ensures Occurring(a) == Occurring(b)
    decreases |a|
  {
    if a != [] {
      AlikeOccurring(a[..|a| - 1], b[..|b| - 1]);
    }
  }

  /** Company for a single symbol is the same for all groups. */
  lemma AlikeStart(a: seq<nat>, b: seq<nat>)
    requires Alike(a, b) && |a| >= 2
    ensures Alike(Start(a), Start(b))
  {
    AlikeOccurring(a, b);
  }

  /** What the compressor knows of the lengths of a group after `passes` trees too deep. */
  ghost predicate GroupCode(clen: seq<nat>, freq: seq<nat>, passes: nat) {
    && |freq| == ALPHABET_SIZE && BestLengths(clen, Reweighted(Start(freq), passes), MAX_CODELEN)
    && (Total(Start(freq)) < PrefixTree.Fib(MAX_CODELEN + 3) ==> passes == 0)
  }

  ghost predicate GroupCodes(clens: seq<seq<nat>>, evolve: seq<seq<nat>>, counts: seq<nat>, passes: seq<nat>) {
    && |counts| == ALPHABET_SIZE && |clens| == |passes| == |evolve|
    && forall g | 0 <= g < |evolve| ::
         PartOf(evolve[g], counts) && GroupCode(clens[g], Filled(evolve[g], counts), passes[g])
  }

  /** Every byte that occurs has a word. */
  predicate WordsFor(clen: seq<nat>, counts: seq<nat>) {
    |clen| == |counts| && forall i | 0 <= i < |clen| :: counts[i] > 0 ==> clen[i] > 0
  }

  /** The loop over the groups that recomputes their code lengths. */
  method GroupLengths(evolve: seq<seq<nat>>, counts: seq<nat>) returns (clens: seq<seq<nat>>, ghost passes: seq<nat>)
    requires |counts| == ALPHABET_SIZE && Occurring(counts) > 0
    requires forall g | 0 <= g < |evolve| :: PartOf(evolve[g], counts)
    ensures GroupCodes(clens, evolve, counts, passes)
    ensures |clens| == |evolve| && forall g | 0 <= g < |clens| :: WordsFor(clens[g], counts)
  {
    hide BestLengths, Reweighted, Start, PrefixTree.Fib, Occurring, Total, Dot;
    clens, passes := [], [];
    for g := 0 to |evolve|
      invariant GroupCodes(clens, evolve[..g], counts, passes)
    {
      var freq := Filled(evolve[g], counts);
      FilledAlike(evolve[g], counts);
      AlikeOccurring(freq, counts);
      AlphabetsFit();
      var clen, bits;
      ghost var w, n;
      clen, bits, w, n := BuildPrefix(freq, MAX_CODELEN);
      clens, passes := clens + [clen[..]], passes + [n];
    }
    assert evolve[..|evolve|] == evolve;
    forall g: nat | g < |clens| ensures WordsFor(clens[g], counts) {
      WordsForAll(clens, evolve, counts, passes, g);
    }
  }

  /** A tree that was too deep gives every byte a word, whether it occurs or not. */
  lemma WordsOf(clen: seq<nat>, freq: seq<nat>, passes: nat, i: nat)
    requires GroupCode(clen, freq, passes) && i < ALPHABET_SIZE
    ensures |clen| == ALPHABET_SIZE && (clen[i] > 0 <==> passes > 0 || Start(freq)[i] > 0)
  {
    hide Start;
  }

  /** All groups went the same way: none had to weigh its symbols again, or all had. */
  predicate SameWay(passes: seq<nat>) {
    forall g | 0 <= g < |passes| :: passes[g] > 0 <==> passes[0] > 0
  }

  lemma RowOf(clens: seq<seq<nat>>, g: nat, i: nat)
    requires g < |clens| && i < ALPHABET_SIZE && forall h | 0 <= h < |clens| :: |clens[h]| == ALPHABET_SIZE
    ensures g * ALPHABET_SIZE + i < |Flat(clens)| && Flat(clens)[g * ALPHABET_SIZE + i] == clens[g][i]
  {
    hide Flat;
    DjwDecode.FlatSlice(clens, g, ALPHABET_SIZE);
    var at := g * ALPHABET_SIZE;
    assert Flat(clens)[at..at + ALPHABET_SIZE][i] == Flat(clens)[at + i];
  }

  predicate AllAlike(clens: seq<seq<nat>>) {
    forall g: nat :: 0 < g < |clens| ==> AlikeBefore(clens, g)
  }

  predicate AlikeBefore(clens: seq<seq<nat>>, g: nat) {
    0 < g < |clens| && Alike(clens[g - 1], clens[g])
  }

  /** The zeros agree from group to group, seen in the rows. */
  lemma RowsAgree(clens: seq<seq<nat>>)
    requires forall h | 0 <= h < |clens| :: |clens[h]| == ALPHABET_SIZE
    ensures SameZeros(Flat(clens), ALPHABET_SIZE) <==> AllAlike(clens)
  {
    hide Flat;
    var v := Flat(clens);
    DjwDecode.FlatLength(clens, ALPHABET_SIZE);
    if SameZeros(v, ALPHABET_SIZE) {
      forall g: nat | 0 < g < |clens| ensures AlikeBefore(clens, g) {
        RowLikeLast(clens, g);
      }
    }
    if AllAlike(clens) {
      forall n: nat | ALPHABET_SIZE <= n < |v|
        ensures v[n - ALPHABET_SIZE] == 0 <==> v[n] == 0
      {
        var g: nat, i: nat := n / ALPHABET_SIZE, n % ALPHABET_SIZE;
        assert n == g * ALPHABET_SIZE + i && 0 < g < |clens|;
        RowOf(clens, g, i);
        RowOf(clens, g - 1, i);
        assert AlikeBefore(clens, g);
      }
    }
  }

  lemma RowLikeLast(clens: seq<seq<nat>>, g: nat)
    requires 0 < g < |clens| && forall h | 0 <= h < |clens| :: |clens[h]| == ALPHABET_SIZE
    requires SameZeros(Flat(clens), ALPHABET_SIZE)
    ensures AlikeBefore(clens, g)
  {
    hide Flat;
    forall i: nat | i < ALPHABET_SIZE ensures clens[g - 1][i] == 0 <==> clens[g][i] == 0 {
      RowOf(clens, g, i);
      RowOf(clens, g - 1, i);
      var n: nat := g * ALPHABET_SIZE + i;
      assert n - ALPHABET_SIZE == (g - 1) * ALPHABET_SIZE + i;
    }
  }

  lemma GroupWords(clens: seq<seq<nat>>, evolve: seq<seq<nat>>, counts: seq<nat>, passes: seq<nat>, g: nat, i: nat)
    requires GroupCodes(clens, evolve, counts, passes) && g < |clens| && i < ALPHABET_SIZE
    ensures |clens[g]| == ALPHABET_SIZE && (clens[g][i] > 0 <==> passes[g] > 0 || Start(counts)[i] > 0)
  {
    hide Start, GroupCode;
    assert PartOf(evolve[g], counts);
    WordsOf(clens[g], Filled(evolve[g], counts), passes[g], i);
    FilledAlike(evolve[g], counts);
    AlikeStart(Filled(evolve[g], counts), counts);
  }

  /** The groups agree on the bytes without a word, as the coding of the lengths takes for
      granted, just when every byte has a word anyway or all groups went the same way. */
  lemma ZerosAgree(clens: seq<seq<nat>>, evolve: seq<seq<nat>>, counts: seq<nat>, passes: seq<nat>)
    requires GroupCodes(clens, evolve, counts, passes) && |clens| > 0
    ensures SameZeros(Flat(clens), ALPHABET_SIZE) <==>
      SameWay(passes) || forall i | 0 <= i < ALPHABET_SIZE :: Start(counts)[i] > 0
  {
    hide Start, GroupCode, SameZeros, Flat, PartOf;
    forall g: nat, i: nat | g < |clens| && i < ALPHABET_SIZE
      ensures |clens[g]| == ALPHABET_SIZE && (clens[g][i] > 0 <==> passes[g] > 0 || Start(counts)[i] > 0)
    {
      GroupWords(clens, evolve, counts, passes, g, i);
    }
    forall h | 0 <= h < |clens| ensures |clens[h]| == ALPHABET_SIZE {
      GroupWords(clens, evolve, counts, passes, h, 0);
    }
    RowsAgree(clens);
    if AllAlike(clens) && exists i :: 0 <= i < ALPHABET_SIZE && Start(counts)[i] == 0 {
      var i :| 0 <= i < ALPHABET_SIZE && Start(counts)[i] == 0;
      AlikeFirst(clens, passes, i);
    }
    if SameWay(passes) || forall i | 0 <= i < ALPHABET_SIZE :: Start(counts)[i] > 0 {
      forall g: nat | 0 < g < |clens| ensures AlikeBefore(clens, g) {
        assert SameWay(passes) ==> (passes[g] > 0 <==> passes[g - 1] > 0);
        forall i: nat | i < ALPHABET_SIZE ensures clens[g - 1][i] == 0 <==> clens[g][i] == 0 {
          GroupWords(clens, evolve, counts, passes, g, i);
          GroupWords(clens, evolve, counts, passes, g - 1, i);
        }
      }
    }
  }

  /** A byte without a word in one group has none in any. */
  lemma AlikeFirst(clens: seq<seq<nat>>, passes: seq<nat>, i: nat)
    requires AllAlike(clens) && |passes| == |clens| && i < ALPHABET_SIZE
    requires forall g | 0 <= g < |clens| :: |clens[g]| == ALPHABET_SIZE && (clens[g][i] > 0 <==> passes[g] > 0)
    ensures SameWay(passes)
  {
    for g: nat := 0 to |clens|
      invariant forall h | 0 <= h < g :: passes[h] > 0 <==> passes[0] > 0
    {
      assert g > 0 ==> AlikeBefore(clens, g);
    }
  }

  /** Groups that are light enough all go the same way. */
  lemma LightSameWay(clens: seq<seq<nat>>, evolve: seq<seq<nat>>, counts: seq<nat>, passes: seq<nat>)
    requires GroupCodes(clens, evolve, counts, passes)
    requires forall g | 0 <= g < |evolve| :: Light(evolve[g], counts)
    ensures SameWay(passes)
  {
    hide BestLengths, Reweighted, Start, PrefixTree.Fib, Total;
    forall g | 0 <= g < |passes| ensures passes[g] == 0 {
      assert Light(evolve[g], counts) && PartOf(evolve[g], counts);
    }
  }

  /** No tree for the group can be too deep. */
  predicate Light(freq: seq<nat>, counts: seq<nat>) {
    |freq| == |counts| == ALPHABET_SIZE && Total(Start(Filled(freq, counts))) < PrefixTree.Fib(MAX_CODELEN + 3)
  }

  lemma WordsForAll(clens: seq<seq<nat>>, evolve: seq<seq<nat>>, counts: seq<nat>, passes: seq<nat>, g: nat)
    requires GroupCodes(clens, evolve, counts, passes) && g < |clens|
    ensures WordsFor(clens[g], counts)
  {
    hide GroupCode, Start;
    GroupWords(clens, evolve, counts, passes, g, 0);
    forall i: nat | i < |clens[g]| && counts[i] > 0 ensures clens[g][i] > 0 {
      GroupWords(clens, evolve, counts, passes, g, i);
      StartStays(counts, i);
    }
  }

  lemma GroupsHaveWords(clens: seq<seq<nat>>, evolve: seq<seq<nat>>, counts: seq<nat>, passes: seq<nat>,
      data: seq<byte>)
    requires GroupCodes(clens, evolve, counts, passes) && Counts(counts, data)
    ensures Spells(clens, data)
  {
    hide GroupCodes, Start, Counts;
    forall g, i | 0 <= g < |clens| && 0 <= i < |data|
      ensures data[i] < |clens[g]| && clens[g][data[i]] > 0
    {
      Occurs(counts, data, i);
      assert |counts| == ALPHABET_SIZE by { CountsAll(clens, evolve, counts, passes); }
      GroupWords(clens, evolve, counts, passes, g, data[i]);
      StartStays(counts, data[i]);
    }
  }

  lemma CountsAll(clens: seq<seq<nat>>, evolve: seq<seq<nat>>, counts: seq<nat>, passes: seq<nat>)
    requires GroupCodes(clens, evolve, counts, passes)
    ensures |counts| == ALPHABET_SIZE
  {
  }

  lemma Occurs(counts: seq<nat>, data: seq<byte>, i: nat)
    requires Counts(counts, data) && i < |data|
    ensures data[i] < |counts| ==> counts[data[i]] > 0
  {
    CountPositive(data, i);
  }

  lemma StartStays(counts: seq<nat>, i: nat)
    requires |counts| >= 2 && i < |counts| && counts[i] > 0
    ensures Start(counts)[i] > 0
  {
  }

  lemma GroupsBounded(clens: seq<seq<nat>>, evolve: seq<seq<nat>>, counts: seq<nat>, passes: seq<nat>)
    requires GroupCodes(clens, evolve, counts, passes) && 0 < |clens| <= MAX_GROUPS
    ensures Groups(clens)
  {
    hide BestLengths, Reweighted, Start, Lengths;
    forall g | 0 <= g < |clens| ensures Lengths(clens[g], ALPHABET_SIZE, MAX_CODELEN) {
      DjwEncode.BestIsLengths(clens[g], Reweighted(Start(Filled(evolve[g], counts)), passes[g]), MAX_CODELEN);
    }
  }

  /** Lengths made from the counts of the groups are a plan just when every byte has a word
      or all groups went the same way. */
  lemma GroupsPlan(p: Djw.Plan, data: seq<byte>, evolve: seq<seq<nat>>, counts: seq<nat>, passes: seq<nat>)
    requires GroupCodes(p.clens, evolve, counts, passes) && Counts(counts, data) && data != []
    requires 1 < |p.clens| <= MAX_GROUPS && 0 < p.sectorSize <= 32 * SECTORSZ_MULT && p.sectorSize % SECTORSZ_MULT == 0
    requires Selects(p.sel, |p.clens|, |data|, p.sectorSize)
    ensures Djw.PlanFor(p, data) <==>
      SameWay(passes) || forall i | 0 <= i < ALPHABET_SIZE :: Start(counts)[i] > 0
  {
    hide GroupCodes, Start, Groups, Spells, SameZeros, Flat, Selects, Counts;
    CountsAll(p.clens, evolve, counts, passes);
    GroupsBounded(p.clens, evolve, counts, passes);
    GroupsHaveWords(p.clens, evolve, counts, passes, data);
    ZerosAgree(p.clens, evolve, counts, passes);
  }

  /** Several groups, from their counts on: what is compressed in light groups comes back. */
  method GroupsRoundTrip(data: seq<byte>, counts: seq<nat>, evolve: seq<seq<nat>>, sectorSize: nat, sel: seq<nat>,
      outputBits: nat, inefficient: bool, pageAvail: nat, next: nat, following: seq<byte>)
    returns (accepted: bool, sent: seq<byte>, ok: bool, output: seq<byte>, consumed: nat)
    requires |counts| == ALPHABET_SIZE && Counts(counts, data) && data != [] && 1 < |evolve| <= MAX_GROUPS
    requires forall g | 0 <= g < |evolve| :: PartOf(evolve[g], counts) && Light(evolve[g], counts)
    requires 0 < sectorSize <= 32 * SECTORSZ_MULT && sectorSize % SECTORSZ_MULT == 0
    requires Selects(sel, |evolve|, |data|, sectorSize)
    ensures inefficient ==> accepted
    ensures accepted ==> ok && output == data && consumed == |sent|
  {
    hide Start, GroupCode, Light, Djw.PlanFor, Selects, Counts, PartOf;
    Djw.ByteCodes(data);
    DjwEncode.SomethingOccurs(counts, data);
    var clens;
    ghost var passes;
    clens, passes := GroupLengths(evolve, counts);
    LightSameWay(clens, evolve, counts, passes);
    var plan := Djw.Plan(clens, sectorSize, sel, outputBits);
    GroupsPlan(plan, data, evolve, counts, passes);
    accepted, sent, ok, output, consumed := Djw.RoundTrip(data, Some(plan), inefficient, pageAvail, next, following);
  }
}
