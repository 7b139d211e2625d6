/**
  xdelta3-djw.h: canonical prefix codes.  The encoder assigns codes from code lengths
  (djw_build_codes); the decoder builds limit, base and order tables from the same
  lengths (djw_build_decoder) and walks the input bit by bit (djw_decode_symbol).
 */
module Codes {
  import opened Bytes
  import opened Binary
  import opened BitIO
  import Arith

  const MAX_CODELEN: nat := 20

  /** How many of the lengths are `l`. */
  function Count(clen: seq<nat>, l: nat): nat {
    if clen == [] then 0
    else Count(clen[..|clen| - 1], l) + if clen[|clen| - 1] == l then 1 else 0
  }

  /** The place of symbol `i` among the symbols of its own length. */
  function Rank(clen: seq<nat>, i: nat): nat
    requires i < |clen|
  {
    Count(clen[..i], clen[i])
  }

  /** The first code of length `l`, and the number of shorter codes. */
  function First(clen: seq<nat>, l: nat): nat {
    if l <= 1 then 0 else 2 * (First(clen, l - 1) + Count(clen, l - 1))
  }

  function Before(clen: seq<nat>, l: nat): nat {
    if l <= 1 then 0 else Before(clen, l - 1) + Count(clen, l - 1)
  }

  function Code(clen: seq<nat>, i: nat): nat
    requires i < |clen|
  {
    First(clen, clen[i]) + Rank(clen, i)
  }

  /** The code word of symbol `i`, as it is sent. */
  function CodeBits(clen: seq<nat>, i: nat): (bits: seq<bool>)
    requires i < |clen|
    ensures |bits| == clen[i]
  {
    ToBits(Code(clen, i), clen[i])
  }

  /** The Kraft sum of the code lengths up to `n`, in units of 2^-n. */
  function KraftSum(clen: seq<nat>, n: nat): nat {
    if clen == [] then 0
    else
      var c := clen[|clen| - 1];
      KraftSum(clen[..|clen| - 1], n) + if 0 < c <= n then Pow2(n - c) else 0
  }

  predicate AtMost(clen: seq<nat>, n: nat) {
    forall i | 0 <= i < |clen| :: clen[i] <= n
  }

  /** Code lengths that some prefix code has. */
  predicate KraftOk(clen: seq<nat>, n: nat) {
    AtMost(clen, n) && KraftSum(clen, n) <= Pow2(n)
  }

  predicate AnyCode(clen: seq<nat>) {
    exists i | 0 <= i < |clen| :: clen[i] > 0
  }

  // -------------------------------------------------------------- counting

  lemma {:induction false} CountPrefix(clen: seq<nat>, i: nat, l: nat)
    requires i <= |clen|
    ensures Count(clen[..i], l) <= Count(clen, l)
    ensures i < |clen| && clen[i] == l ==> Count(clen[..i], l) < Count(clen, l)
    decreases |clen|
  {
    if i < |clen| {
      CountPrefix(clen[..|clen| - 1], i, l);
      assert clen[..|clen| - 1][..i] == clen[..i];
    } else {
      assert clen[..i] == clen;
    }
  }

  lemma CountNext(clen: seq<nat>, i: nat, l: nat)
    requires i < |clen|
    ensures Count(clen[..i + 1], l) == Count(clen[..i], l) + if clen[i] == l then 1 else 0
  {
    assert clen[..i + 1][..i] == clen[..i];
  }

  lemma {:induction false} CountPositive(clen: seq<nat>, i: nat)
    requires i < |clen|
    ensures Count(clen, clen[i]) > 0
  {
    CountPrefix(clen, i, clen[i]);
  }

  lemma {:induction false} CountZero(clen: seq<nat>, l: nat)
    requires forall i | 0 <= i < |clen| :: clen[i] != l
    ensures Count(clen, l) == 0
    decreases |clen|
  {
    if clen != [] {
      CountZero(clen[..|clen| - 1], l);
    }
  }

  lemma {:induction false} CountFound(clen: seq<nat>, l: nat) returns (i: nat)
    requires Count(clen, l) > 0
    ensures i < |clen| && clen[i] == l
    decreases |clen|
  {
    if clen[|clen| - 1] == l {
      i := |clen| - 1;
    } else {
      i := CountFound(clen[..|clen| - 1], l);
    }
  }

  lemma {:induction false} BeforeMonotone(clen: seq<nat>, a: nat, b: nat)
    requires 1 <= a <= b
    ensures Before(clen, a) <= Before(clen, b)
    ensures a < b ==> Before(clen, a) + Count(clen, a) <= Before(clen, b)
    decreases b
  {
    if a < b {
      BeforeMonotone(clen, a, b - 1);
    }
  }

  /** One more symbol changes one count, and so one step of the running totals. */
  lemma {:induction false} BeforeAppend(clen: seq<nat>, c: nat, l: nat)
    ensures Before(clen + [c], l) == Before(clen, l) + if 0 < c < l then 1 else 0
    decreases l
  {
    if l > 1 {
      BeforeAppend(clen, c, l - 1);
      assert (clen + [c])[..|clen|] == clen;
    }
  }

  /** Symbols with codes are no more than all symbols. */
  lemma {:induction false} BeforeBound(clen: seq<nat>, l: nat)
    ensures Before(clen, l) <= |clen|
    decreases |clen|
  {
    if clen == [] {
      BeforeEmpty(l);
    } else {
      var n := |clen| - 1;
      BeforeBound(clen[..n], l);
      BeforeAppend(clen[..n], clen[n], l);
      assert clen[..n] + [clen[n]] == clen;
    }
  }

  lemma {:induction false} BeforeEmpty(l: nat)
    ensures Before([], l) == 0 && First([], l) == 0
    decreases l
  {
    if l > 1 {
      BeforeEmpty(l - 1);
    }
  }

  lemma {:induction false} FirstAppend(clen: seq<nat>, c: nat, l: nat)
    ensures First(clen + [c], l) + Count(clen + [c], l)
         == First(clen, l) + Count(clen, l)
            + (if 0 < c <= l then Pow2(l - c) else if c == l then 1 else 0)
    decreases l
  {
    assert (clen + [c])[..|clen|] == clen;
    if l > 1 {
      FirstAppend(clen, c, l - 1);
    }
  }

  /** The last code of every length is the Kraft sum so far. */
  lemma {:induction false} KraftFirst(clen: seq<nat>, n: nat)
    requires n > 0
    ensures First(clen, n) + Count(clen, n) == KraftSum(clen, n)
    decreases |clen|
  {
    if clen == [] {
      BeforeEmpty(n);
    } else {
      var m := |clen| - 1;
      KraftFirst(clen[..m], n);
      FirstAppend(clen[..m], clen[m], n);
      assert clen[..m] + [clen[m]] == clen;
    }
  }

  lemma {:induction false} FirstBound(clen: seq<nat>, l: nat, n: nat)
    requires 1 <= l <= n && KraftOk(clen, n)
    ensures First(clen, l) + Count(clen, l) <= Pow2(l)
    decreases n - l
  {
    if l == n {
      KraftFirst(clen, n);
    } else {
      FirstBound(clen, l + 1, n);
    }
  }

  lemma CodeFits(clen: seq<nat>, i: nat, n: nat)
    requires KraftOk(clen, n) && i < |clen| && clen[i] > 0
    ensures Code(clen, i) < First(clen, clen[i]) + Count(clen, clen[i]) <= Pow2(clen[i])
  {
    CountPrefix(clen, i, clen[i]);
    FirstBound(clen, clen[i], n);
  }

  /** Longer codes start after everything shorter codes can be extended to. */
  lemma {:induction false} FirstScaled(clen: seq<nat>, a: nat, b: nat)
    requires 1 <= a < b
    ensures (First(clen, a) + Count(clen, a)) * Pow2(b - a) <= First(clen, b)
    decreases b
  {
    if a + 1 == b {
      assert Pow2(1) == 2;
    } else {
      FirstScaled(clen, a, b - 1);
      Doubled(First(clen, a) + Count(clen, a), Pow2(b - 1 - a), First(clen, b - 1));
    }
  }

  lemma Doubled(x: nat, p: nat, y: nat)
    requires x * p <= y
    ensures x * (2 * p) <= 2 * y
  {
  }

  // ------------------------------------------------------ canonical order

  /** Symbols by the length of their words, and by number among those of one length. */
  predicate Earlier(clen: seq<nat>, i: nat, j: nat)
    requires i < |clen| && j < |clen|
  {
    clen[i] < clen[j] || (clen[i] == clen[j] && i < j)
  }

  lemma {:induction false} CountSame(clen: seq<nat>, a: nat, b: nat, l: nat)
    requires a <= b <= |clen| && forall k | a <= k < b :: clen[k] != l
    ensures Count(clen[..b], l) == Count(clen[..a], l)
    decreases b
  {
    if a < b {
      CountSame(clen, a, b - 1, l);
      CountNext(clen, b - 1, l);
    }
  }

  lemma {:induction false} FirstGap(clen: seq<nat>, a: nat, b: nat)
    requires 1 <= a < b && forall l | a < l < b :: Count(clen, l) == 0
    ensures First(clen, b) == (First(clen, a) + Count(clen, a)) * Pow2(b - a)
    decreases b
  {
    hide First, Count;
    FirstStep(clen, b);
    if a + 1 == b {
      assert Pow2(1) == 2;
    } else {
      FirstGap(clen, a, b - 1);
      Twice(First(clen, a) + Count(clen, a), Pow2(b - 1 - a));
    }
  }

  lemma FirstStep(clen: seq<nat>, l: nat)
    requires l > 1
    ensures First(clen, l) == 2 * (First(clen, l - 1) + Count(clen, l - 1))
  {
  }

  lemma Twice(x: nat, p: nat)
    ensures 2 * (x * p) == x * (2 * p)
  {
  }

  /** The first word is all zeros. */
  lemma CodeStarts(clen: seq<nat>, i: nat)
    requires i < |clen| && clen[i] > 0 && forall k | 0 <= k < |clen| && clen[k] > 0 :: !Earlier(clen, k, i)
    ensures Code(clen, i) == 0
  {
    NoShorter(clen, clen[i]);
    CountSame(clen, 0, i, clen[i]);
  }

  /** Every other word is the one before it plus one, made as long as it must be. */
  lemma CodeFollows(clen: seq<nat>, i: nat, j: nat)
    requires i < |clen| && j < |clen| && clen[i] > 0 && Earlier(clen, i, j)
    requires forall k | 0 <= k < |clen| && clen[k] > 0 && Earlier(clen, i, k) :: !Earlier(clen, k, j)
    ensures clen[i] <= clen[j] && Code(clen, j) == (Code(clen, i) + 1) * Pow2(clen[j] - clen[i])
  {
    hide First, Count;
    CountNext(clen, i, clen[i]);
    if clen[i] == clen[j] {
      CountSame(clen, i + 1, j, clen[i]);
      assert Pow2(0) == 1;
    } else {
      assert clen[..|clen|] == clen;
      CountSame(clen, i + 1, |clen|, clen[i]);
      CountSame(clen, 0, j, clen[j]);
      NoneCounted(clen[j]);
      assert clen[..0] == [];
      forall l: nat | clen[i] < l < clen[j] ensures Count(clen, l) == 0 {
        CountZero(clen, l);
      }
      FirstGap(clen, clen[i], clen[j]);
    }
  }

  // ------------------------------------------------------ assigning codes

  predicate Assigned(codes: seq<nat>, clen: seq<nat>, n: nat, l: nat)
    requires |codes| == |clen| && n <= |clen|
  {
    forall i | 0 <= i < |clen| && 0 < clen[i] && (clen[i] < l || (clen[i] == l && i < n)) :: codes[i] == Code(clen, i)
  }

  /** djw_build_codes */
  method BuildCodes(clen: seq<nat>) returns (codes: array<nat>)
    requires AtMost(clen, MAX_CODELEN)
    ensures fresh(codes) && codes.Length == |clen|
    ensures forall i | 0 <= i < |clen| && clen[i] > 0 :: codes[i] == Code(clen, i)
  {
    hide Code, First;
    codes := new nat[|clen|];
    var minClen: nat, maxClen: nat := MAX_CODELEN, 0;
    for i := 0 to |clen|
      invariant 0 < minClen <= MAX_CODELEN && maxClen <= MAX_CODELEN
      invariant forall j | 0 <= j < i && clen[j] > 0 :: minClen <= clen[j] <= maxClen
    {
      if clen[i] > 0 && clen[i] < minClen {
        minClen := clen[i];
      }
      maxClen := Max(maxClen, clen[i]);
    }
    NoShorter(clen, minClen);
    var code: nat, l: nat := 0, minClen;
    while l <= maxClen
      invariant minClen <= l && code == First(clen, l)
      invariant Assigned(codes[..], clen, 0, l)
      decreases maxClen + 1 - l
    {
      code := AssignLength(codes, clen, l);
      FirstNext(clen, l);
      code := code * 2;
      l := l + 1;
    }
  }

  /** The codes of one length, in symbol order. */
  method AssignLength(codes: array<nat>, clen: seq<nat>, l: nat) returns (code: nat)
    requires codes.Length == |clen| && l > 0 && Assigned(codes[..], clen, 0, l)
    modifies codes
    ensures code == First(clen, l) + Count(clen, l)
    ensures Assigned(codes[..], clen, 0, l + 1)
  {
    hide First, Count;
    code := First(clen, l);
    NoneCounted(l);
    for i := 0 to |clen|
      invariant clen[..0] == []
      invariant code == First(clen, l) + Count(clen[..i], l)
      invariant Assigned(codes[..], clen, i, l)
    {
      CountNext(clen, i, l);
      if clen[i] == l {
        codes[i] := code;
        code := code + 1;
      }
    }
    assert clen[..|clen|] == clen;
  }

  lemma NoneCounted(l: nat)
    ensures Count([], l) == 0
  {
  }

  lemma FirstNext(clen: seq<nat>, l: nat)
    requires l > 0
    ensures First(clen, l + 1) == 2 * (First(clen, l) + Count(clen, l))
    ensures Before(clen, l + 1) == Before(clen, l) + Count(clen, l)
  {
  }

  lemma {:induction false} NoShorter(clen: seq<nat>, l: nat)
    requires forall j | 0 <= j < |clen| && clen[j] > 0 :: l <= clen[j]
    ensures First(clen, l) == 0 && Before(clen, l) == 0
    decreases l
  {
    if l > 1 {
      NoShorter(clen, l - 1);
      CountZero(clen, l - 1);
    }
  }

  // ------------------------------------------------------ decoding tables

  /** What djw_build_decoder hands to djw_decode_symbol. */
  datatype Table = Table(minLen: nat, maxLen: nat, base: seq<int>, limit: seq<int>, inorder: seq<nat>)

  /** The entries of the tables in terms of the code lengths.  With no code at all the
      table refuses every input. */
  ghost predicate TableOf(t: Table, clen: seq<nat>) {
    && |t.base| == |t.limit| && |t.inorder| == |clen| && t.maxLen < |t.base| && t.minLen > 0
    && (if AnyCode(clen) then t.minLen <= t.maxLen else t.maxLen == 0)
    && (forall i | 0 <= i < |clen| && clen[i] > 0 :: t.minLen <= clen[i] <= t.maxLen)
    && (forall l | t.minLen <= l <= t.maxLen :: t.base[l] == First(clen, l) - Before(clen, l))
    && (forall l | t.minLen <= l <= t.maxLen :: t.limit[l] == First(clen, l) + Count(clen, l) - 1)
    && (forall i | 0 <= i < |clen| && clen[i] > 0 ::
          Place(clen, i) < |t.inorder| && t.inorder[Place(clen, i)] == i)
  }

  /** The place of symbol `i` in the order of codes. */
  function Place(clen: seq<nat>, i: nat): nat
    requires i < |clen|
  {
    Before(clen, clen[i]) + Rank(clen, i)
  }

  lemma PlaceBound(clen: seq<nat>, i: nat)
    requires i < |clen| && clen[i] > 0
    ensures Place(clen, i) < Before(clen, clen[i] + 1) <= |clen|
  {
    CountPrefix(clen, i, clen[i]);
    BeforeBound(clen, clen[i] + 1);
  }

  lemma PlaceInjective(clen: seq<nat>, i: nat, j: nat)
    requires i < j < |clen| && clen[i] > 0 && clen[j] > 0
    ensures Place(clen, i) != Place(clen, j)
  {
    PlaceBound(clen, i);
    PlaceBound(clen, j);
    if clen[i] == clen[j] {
      CountPrefix(clen[..j], i, clen[i]);
      assert clen[..j][..i] == clen[..i];
    } else if clen[i] < clen[j] {
      BeforeMonotone(clen, clen[i] + 1, clen[j]);
    } else {
      BeforeMonotone(clen, clen[j] + 1, clen[i]);
    }
  }

  /** djw_build_decoder */
  method BuildDecoder(clen: seq<nat>, absMax: nat) returns (t: Table)
    requires |clen| > 0 && 0 < absMax <= MAX_CODELEN && AtMost(clen, absMax)
    ensures TableOf(t, clen) && t.maxLen <= absMax
  {
    hide First, Before, Count, Place;
    var nrClen := CountLengths(clen, absMax);
    var minLen: nat := 1;
    while minLen <= absMax && nrClen[minLen] == 0
      invariant 1 <= minLen <= absMax + 1
      invariant forall l | 1 <= l < minLen :: nrClen[l] == 0
    {
      minLen := minLen + 1;
    }
    var maxLen: nat := absMax;
    while maxLen != 0 && nrClen[maxLen] == 0
      invariant maxLen <= absMax
      invariant forall l | maxLen < l <= absMax :: nrClen[l] == 0
    {
      maxLen := maxLen - 1;
    }
    LengthsBetween(clen, absMax, minLen, maxLen);
    var base, limit, tmpBase := FillBase(clen, absMax, nrClen, minLen, maxLen);
    var inorder := FillOrder(clen, minLen, maxLen, tmpBase);
    t := Table(minLen, maxLen, base[..], limit[..], inorder[..]);
  }

  /** Bounds outside of which no length occurs. */
  lemma LengthsBetween(clen: seq<nat>, absMax: nat, lo: nat, hi: nat)
    requires AtMost(clen, absMax) && 1 <= lo <= absMax + 1 && hi <= absMax
    requires forall l | 1 <= l < lo :: Count(clen, l) == 0
    requires forall l | hi < l <= absMax :: Count(clen, l) == 0
    requires lo <= absMax ==> Count(clen, lo) > 0
    requires hi > 0 ==> Count(clen, hi) > 0
    ensures forall i | 0 <= i < |clen| && clen[i] > 0 :: lo <= clen[i] <= hi
    ensures if AnyCode(clen) then lo <= hi else hi == 0
  {
    forall i | 0 <= i < |clen| && clen[i] > 0
      ensures lo <= clen[i] <= hi
    {
      CountPositive(clen, i);
    }
    if hi > 0 {
      var i := CountFound(clen, hi);
    }
  }

  method CountLengths(clen: seq<nat>, absMax: nat) returns (nrClen: array<int>)
    requires AtMost(clen, absMax)
    ensures fresh(nrClen) && nrClen.Length == absMax + 2
    ensures forall l | 0 <= l <= absMax :: nrClen[l] == Count(clen, l)
  {
    nrClen := new int[absMax + 2];
    for l := 0 to absMax + 1
      invariant forall j | 0 <= j < l :: nrClen[j] == 0
    {
      nrClen[l] := 0;
    }
    assert clen[..0] == [];
    for i := 0 to |clen|
      invariant forall l | 0 <= l <= absMax :: nrClen[l] == Count(clen[..i], l)
    {
      forall l | 0 <= l <= absMax
        ensures Count(clen[..i + 1], l) == Count(clen[..i], l) + if clen[i] == l then 1 else 0
      {
        CountNext(clen, i, l);
      }
      nrClen[clen[i]] := nrClen[clen[i]] + 1;
    }
    assert clen[..|clen|] == clen;
  }

  method FillBase(clen: seq<nat>, absMax: nat, nrClen: array<int>, minLen: nat, maxLen: nat)
    returns (base: array<int>, limit: array<int>, tmpBase: array<int>)
    requires nrClen.Length == absMax + 2 && 1 <= minLen <= absMax + 1 && maxLen <= absMax
    requires forall l | 0 <= l <= absMax :: nrClen[l] == Count(clen, l)
    requires forall i | 0 <= i < |clen| && clen[i] > 0 :: minLen <= clen[i]
    ensures fresh(base) && fresh(limit) && fresh(tmpBase) && base != tmpBase && limit != tmpBase
    ensures base.Length == limit.Length == tmpBase.Length == absMax + 2
    ensures forall l | minLen <= l <= maxLen :: base[l] == First(clen, l) - Before(clen, l)
    ensures forall l | minLen <= l <= maxLen :: limit[l] == First(clen, l) + Count(clen, l) - 1
    ensures forall l | minLen <= l <= maxLen :: tmpBase[l] == Before(clen, l)
  {
    hide First, Before, Count;
    base, limit, tmpBase := new int[absMax + 2], new int[absMax + 2], new int[absMax + 2];
    tmpBase[minLen] := 0;
    base[minLen] := 0;
    limit[minLen] := nrClen[minLen] - 1;
    NoShorter(clen, minLen);
    var i := minLen + 1;
    while i <= maxLen
      invariant minLen < i
      invariant forall l | minLen <= l < i && l <= maxLen :: base[l] == First(clen, l) - Before(clen, l)
      invariant forall l | minLen <= l < i && l <= maxLen :: limit[l] == First(clen, l) + Count(clen, l) - 1
      invariant forall l | minLen <= l < i && l <= maxLen :: tmpBase[l] == Before(clen, l)
    {
      FirstNext(clen, i - 1);
      var lastLimit := (limit[i - 1] + 1) * 2;
      tmpBase[i] := tmpBase[i - 1] + nrClen[i - 1];
      limit[i] := lastLimit + nrClen[i] - 1;
      base[i] := lastLimit - tmpBase[i];
      i := i + 1;
    }
  }

  method FillOrder(clen: seq<nat>, minLen: nat, maxLen: nat, tmpBase: array<int>) returns (inorder: array<nat>)
    requires 0 < minLen && maxLen < tmpBase.Length
    requires forall i | 0 <= i < |clen| && clen[i] > 0 :: minLen <= clen[i] <= maxLen
    requires forall l | minLen <= l <= maxLen :: tmpBase[l] == Before(clen, l)
    modifies tmpBase
    ensures fresh(inorder) && inorder.Length == |clen|
    ensures forall i | 0 <= i < |clen| && clen[i] > 0 ::
      Place(clen, i) < inorder.Length && inorder[Place(clen, i)] == i
  {
    hide Before, Count;
    inorder := new nat[|clen|];
    assert clen[..0] == [];
    forall l | minLen <= l <= maxLen ensures Count(clen[..0], l) == 0 {
      NoneCounted(l);
    }
    for i := 0 to |clen|
      invariant forall l | minLen <= l <= maxLen :: tmpBase[l] == Before(clen, l) + Count(clen[..i], l)
      invariant forall j | 0 <= j < i && clen[j] > 0 ::
        Place(clen, j) < inorder.Length && inorder[Place(clen, j)] == j
    {
      forall l | minLen <= l <= maxLen
        ensures Count(clen[..i + 1], l) == Count(clen[..i], l) + if clen[i] == l then 1 else 0
      {
        CountNext(clen, i, l);
      }
      var l := clen[i];
      if l != 0 {
        PlaceBound(clen, i);
        forall j | 0 <= j < i && clen[j] > 0 ensures Place(clen, j) != Place(clen, i) {
          PlaceInjective(clen, j, i);
        }
        inorder[tmpBase[l]] := i;
        tmpBase[l] := tmpBase[l] + 1;
      }
    }
  }

  // ------------------------------------------------------- the code walk

  predicate Names(t: Table, k: nat) {
    k < |t.inorder| && t.inorder[k] < |t.inorder|
  }

  /** Every offset a table can produce names a symbol, whatever the lengths are. */
  ghost predicate Sound(t: Table) {
    && |t.base| == |t.limit| && t.maxLen < |t.base|
    && forall l: nat, k: nat | t.minLen <= l <= t.maxLen && k <= t.limit[l] - t.base[l] :: Names(t, k)
  }

  lemma {:induction false} RankFound(clen: seq<nat>, l: nat, r: nat) returns (i: nat)
    requires r < Count(clen, l)
    ensures i < |clen| && clen[i] == l && Rank(clen, i) == r
    decreases |clen|
  {
    var n := |clen| - 1;
    if r < Count(clen[..n], l) {
      i := RankFound(clen[..n], l, r);
      assert clen[..n][..i] == clen[..i];
    } else {
      i := n;
    }
  }

  lemma {:induction false} LengthFound(clen: seq<nat>, k: nat, m: nat) returns (l: nat)
    requires k < Before(clen, m)
    ensures 1 <= l < m && Before(clen, l) <= k < Before(clen, l + 1)
    decreases m
  {
    if k < Before(clen, m - 1) {
      l := LengthFound(clen, k, m - 1);
    } else {
      l := m - 1;
    }
  }

  /** Every place below the number of codes is some symbol's. */
  lemma PlaceFound(clen: seq<nat>, k: nat, m: nat) returns (i: nat)
    requires k < Before(clen, m)
    ensures i < |clen| && clen[i] > 0 && Place(clen, i) == k
  {
    var l := LengthFound(clen, k, m);
    i := RankFound(clen, l, k - Before(clen, l));
  }

  lemma TableIsSound(t: Table, clen: seq<nat>)
    requires TableOf(t, clen)
    ensures Sound(t)
  {
    hide First, Count, Before, Place;
    forall l: nat, k: nat | t.minLen <= l <= t.maxLen && k <= t.limit[l] - t.base[l]
      ensures Names(t, k)
    {
      FirstNext(clen, l);
      var i := PlaceFound(clen, k, l + 1);
    }
  }

  datatype Read = Bad | Sym(value: nat, rest: seq<bool>)

  /** The decision the decoder takes once `code`, of `n` bits, is within its limit. */
  function Finish(t: Table, code: nat, n: nat, rest: seq<bool>): (r: Read)
    requires Sound(t) && t.minLen <= n <= t.maxLen && code <= t.limit[n]
    ensures r.Sym? ==> r.value < |t.inorder| && r.rest == rest
  {
    assert t.base[n] <= code ==> Names(t, code - t.base[n]);
    if t.base[n] <= code then Sym(t.inorder[code - t.base[n]], rest) else Bad
  }

  /** djw_decode_symbol on the bits not read yet, after `n` bits worth `code`. */
  function Walk(t: Table, code: nat, n: nat, s: seq<bool>): (r: Read)
    requires Sound(t)
    ensures r.Sym? ==> r.value < |t.inorder| && |r.rest| < |s|
    decreases |s|
  {
    if s == [] || n >= t.maxLen then Bad
    else
      var code' := 2 * code + if s[0] then 1 else 0;
      if t.minLen <= n + 1 && code' <= t.limit[n + 1] then Finish(t, code', n + 1, s[1..])
      else Walk(t, code', n + 1, s[1..])
  }

  /** The walk over a code word, from any point inside it. */
  lemma {:induction false} WalkInside(t: Table, clen: seq<nat>, max: nat, i: nat, left: nat, rest: seq<bool>)
    requires TableOf(t, clen) && Sound(t) && KraftOk(clen, max)
    requires i < |clen| && 0 < left <= clen[i]
    ensures var c := Code(clen, i);
      Walk(t, High(c, left), clen[i] - left, ToBits(Low(c, left), left) + rest) == Sym(i, rest)
    decreases left
  {
    hide First, Count, Before, ToBits, TableOf, High, Low, Sound, KraftOk;
    var c := Code(clen, i);
    LengthInTable(t, clen, i);
    WalkBit(c, left, rest);
    if left > 1 {
      WalkOn(t, clen, max, i, left - 1);
      WalkInside(t, clen, max, i, left - 1, rest);
    } else {
      NoDigits(Low(c, 0));
      assert [] + rest == rest;
      AllLow(c, clen[i]) by { CodeFits(clen, i, max); }
      WalkEnd(t, clen, max, i);
    }
  }

  /** Reading one bit of a number moves it from the low part to the high part. */
  lemma WalkBit(c: nat, n: nat, rest: seq<bool>)
    requires n > 0
    ensures var s := ToBits(Low(c, n), n) + rest;
      && s != [] && s[1..] == ToBits(Low(c, n - 1), n - 1) + rest
      && High(c, n - 1) == 2 * High(c, n) + if s[0] then 1 else 0
  {
    hide ToBits;
    NextBit(c, n);
    HighNext(c, n);
    var b := High(c, n - 1) % 2;
    assert ToBits(Low(c, n), n) + rest == [b == 1] + (ToBits(Low(c, n - 1), n - 1) + rest);
  }

  lemma LengthInTable(t: Table, clen: seq<nat>, i: nat)
    requires TableOf(t, clen) && i < |clen| && clen[i] > 0
    ensures 0 < t.minLen <= clen[i] <= t.maxLen
  {
  }

  /** A proper prefix of a code word is above the limit of its length. */
  lemma WalkOn(t: Table, clen: seq<nat>, max: nat, i: nat, left: nat)
    requires TableOf(t, clen) && KraftOk(clen, max) && i < |clen| && 0 < left < clen[i]
    ensures t.maxLen < |t.limit| && clen[i] <= t.maxLen
    ensures t.minLen <= clen[i] - left ==> High(Code(clen, i), left) > t.limit[clen[i] - left]
  {
    hide First, Count, Before, Code;
    var n := clen[i] - left;
    if t.minLen <= n {
      LimitAt(t, clen, i, n);
      FirstScaled(clen, n, clen[i]);
      CodeAtLeast(clen, i);
      Beyond(First(clen, n) + Count(clen, n), Code(clen, i), left);
    }
  }

  lemma LimitAt(t: Table, clen: seq<nat>, i: nat, l: nat)
    requires TableOf(t, clen) && i < |clen| && t.minLen <= l <= clen[i]
    ensures 0 < t.minLen && l < |t.limit| && t.limit[l] == First(clen, l) + Count(clen, l) - 1
  {
    hide First, Count, Before;
  }

  lemma CodeAtLeast(clen: seq<nat>, i: nat)
    requires i < |clen|
    ensures First(clen, clen[i]) <= Code(clen, i)
  {
    hide First, Count;
  }

  lemma Beyond(first: nat, code: nat, left: nat)
    requires first * Pow2(left) <= code
    ensures first <= High(code, left)
  {
    hide Pow2;
    Arith.QuotientAtLeast(code, first, Pow2(left));
  }

  /** The whole code word is within the limit and names its symbol. */
  lemma WalkEnd(t: Table, clen: seq<nat>, max: nat, i: nat)
    requires TableOf(t, clen) && Sound(t) && KraftOk(clen, max) && i < |clen| && clen[i] > 0
    ensures var c, len := Code(clen, i), clen[i];
      && t.minLen <= len <= t.maxLen && t.base[len] <= c <= t.limit[len]
      && c - t.base[len] < |t.inorder| && t.inorder[c - t.base[len]] == i
  {
    hide First, Count, Before;
    CodeFits(clen, i, max);
  }

  /** The decoder stops after exactly the bits of the code word, with its symbol. */
  lemma WalkCode(t: Table, clen: seq<nat>, max: nat, i: nat, rest: seq<bool>)
    requires TableOf(t, clen) && Sound(t) && KraftOk(clen, max) && i < |clen| && clen[i] > 0
    ensures Walk(t, 0, 0, CodeBits(clen, i) + rest) == Sym(i, rest)
  {
    CodeFits(clen, i, max);
    AllLow(Code(clen, i), clen[i]);
    WalkInside(t, clen, max, i, clen[i], rest);
  }

  /** No code word begins another one. */
  lemma PrefixFree(clen: seq<nat>, max: nat, t: Table, i: nat, j: nat)
    requires KraftOk(clen, max) && TableOf(t, clen) && Sound(t)
    requires i < |clen| && j < |clen| && clen[i] > 0 && clen[j] > 0
    requires CodeBits(clen, i) <= CodeBits(clen, j)
    ensures i == j
  {
    var a, b := CodeBits(clen, i), CodeBits(clen, j);
    assert b == a + b[|a|..] && b + [] == b;
    WalkCode(t, clen, max, i, b[|a|..]);
    WalkCode(t, clen, max, j, []);
  }

  /** djw_decode_symbol */
  method DecodeSymbol(r: BitReader, t: Table, maxSym: nat) returns (ok: bool, sym: nat)
    requires r.Valid() && Sound(t) && |t.inorder| <= maxSym + 1
    modifies r
    ensures r.Valid()
    ensures var w := Walk(t, 0, 0, old(r.Rest()));
      if ok then w == Sym(sym, r.Rest()) else w == Bad
  {
    hide Finish;
    var code: nat, bits: nat := 0, 0;
    ok, sym := true, 0;
    while true
      invariant r.Valid() && bits <= t.maxLen && ok
      invariant Walk(t, code, bits, r.Rest()) == Walk(t, 0, 0, old(r.Rest()))
      decreases t.maxLen - bits
    {
      if bits == t.maxLen {
        ok := false;
        break;
      }
      var bit;
      ghost var s := r.Rest();
      ok, bit := r.ReadBit();
      if !ok {
        break;
      }
      assert s[1..] == r.Rest();
      bits := bits + 1;
      code := 2 * code + if bit then 1 else 0;
      if bits >= t.minLen && code <= t.limit[bits] {
        assert Finish(t, code, bits, r.Rest()) == Walk(t, 0, 0, old(r.Rest()));
        ok, sym := Lookup(t, code, bits, maxSym, r.Rest());
        break;
      }
    }
  }

  /** The end of djw_decode_symbol. */
  method Lookup(t: Table, code: nat, bits: nat, maxSym: nat, ghost rest: seq<bool>) returns (ok: bool, sym: nat)
    requires Sound(t) && |t.inorder| <= maxSym + 1
    requires t.minLen <= bits <= t.maxLen && code <= t.limit[bits]
    ensures if ok then Finish(t, code, bits, rest) == Sym(sym, rest) else Finish(t, code, bits, rest) == Bad
  {
    ok, sym := false, 0;
    if t.base[bits] <= code {
      assert Names(t, code - t.base[bits]);
      var offset := code - t.base[bits];
      if offset <= maxSym {
        ok, sym := true, t.inorder[offset];
      }
    }
  }
}
