/**
  xdelta3-djw.h: move-to-front coding with runs.  A symbol is sent as its place in a list
  that keeps recent symbols in front; a run of places zero is sent as the digits, 1 or 2,
  of its length in base two, least significant first.
 */
module Mtf {
  import opened Bytes
  import opened Binary
  import opened BitIO
  import Codes

  const RUN_0: nat := 0
  const RUN_1: nat := 1

  // ----------------------------------------------------- the list of symbols

  function MoveFront(mtf: seq<nat>, j: nat): (r: seq<nat>)
    requires j < |mtf|
    ensures |r| == |mtf| && multiset(r) == multiset(mtf)
  {
    assert mtf == mtf[..j] + [mtf[j]] + mtf[j + 1..];
    [mtf[j]] + mtf[..j] + mtf[j + 1..]
  }

  function Index(mtf: seq<nat>, sym: nat): (j: nat)
    requires sym in mtf
    ensures j < |mtf| && mtf[j] == sym && sym !in mtf[..j]
  {
    if mtf[0] == sym then 0 else
      var j := 1 + Index(mtf[1..], sym);
      assert mtf[..j] == [mtf[0]] + mtf[1..][..j - 1];
      j
  }

  lemma IndexIs(mtf: seq<nat>, sym: nat, j: nat)
    requires j < |mtf| && mtf[j] == sym && sym !in mtf[..j]
    ensures Index(mtf, sym) == j
  {
    NotBefore(mtf, sym, j);
    NotBefore(mtf, sym, Index(mtf, sym));
  }

  lemma NotBefore(mtf: seq<nat>, sym: nat, j: nat)
    requires j <= |mtf| && sym !in mtf[..j]
    ensures forall k | 0 <= k < j :: mtf[k] != sym
    ensures sym in mtf ==> j < |mtf|
  {
    forall k | 0 <= k < j ensures mtf[k] != sym {
      assert mtf[..j][k] == mtf[k];
    }
    assert mtf[..|mtf|] == mtf;
  }

  predicate Known(symbols: seq<nat>, mtf: seq<nat>) {
    forall i | 0 <= i < |symbols| :: symbols[i] in mtf
  }

  lemma MoveFrontKnown(symbols: seq<nat>, mtf: seq<nat>, j: nat)
    requires j < |mtf| && Known(symbols, mtf)
    ensures Known(symbols, MoveFront(mtf, j))
  {
    forall i | 0 <= i < |symbols| ensures symbols[i] in MoveFront(mtf, j) {
      assert symbols[i] in multiset(mtf);
    }
  }

  // ------------------------------------------------------------ the encoder

  /** The digits of a run. */
  function Digits(run: nat): (d: seq<nat>)
    ensures |d| <= run
    ensures forall i | 0 <= i < |d| :: d[i] <= RUN_1
  {
    if run == 0 then [] else [(run - 1) % 2] + Digits((run - 1) / 2)
  }

  /** What digits stand for: 0 is one, 1 is two, and every place weighs twice the one before. */
  function Weighed(d: seq<nat>): nat {
    if d == [] then 0 else d[0] + 1 + 2 * Weighed(d[1..])
  }

  lemma {:induction false} DigitsWeigh(run: nat)
    ensures Weighed(Digits(run)) == run
  {
    if run > 0 {
      DigitsWeigh((run - 1) / 2);
    }
  }

  function Encode(symbols: seq<nat>, mtf: seq<nat>, run: nat): (codes: seq<nat>)
    requires |mtf| > 0 && Known(symbols, mtf)
    decreases |symbols|
  {
    if symbols == [] then Digits(run)
    else
      var j := Index(mtf, symbols[0]);
      MoveFrontKnown(symbols[1..], mtf, j);
      if j == 0 then Encode(symbols[1..], mtf, run + 1)
      else Digits(run) + [j + RUN_1] + Encode(symbols[1..], MoveFront(mtf, j), 0)
  }

  predicate Within(codes: seq<nat>, n: nat) {
    forall i | 0 <= i < |codes| :: codes[i] <= n
  }

  lemma WithinJoin(a: seq<nat>, c: nat, b: seq<nat>, n: nat)
    requires Within(a, n) && c <= n && Within(b, n)
    ensures Within(a + [c] + b, n)
  {
  }

  lemma DigitsWithin(run: nat, n: nat)
    requires n > 0
    ensures Within(Digits(run), n)
  {
  }

  /** Never more codes than symbols, and no code beyond the number of places. */
  lemma {:induction false} EncodeBound(symbols: seq<nat>, mtf: seq<nat>, run: nat)
    requires |mtf| > 0 && Known(symbols, mtf)
    ensures |Encode(symbols, mtf, run)| <= |symbols| + run
    ensures Within(Encode(symbols, mtf, run), |mtf|)
    decreases |symbols|
  {
    hide Digits, Within, MoveFront, Known, Encode, Index;
    DigitsWithin(run, |mtf|);
    if symbols == [] {
      EncodeEnd(symbols, mtf, run);
    } else {
      EncodeFirst(symbols, mtf, run);
      var j := Index(mtf, symbols[0]);
      if j == 0 {
        EncodeBound(symbols[1..], mtf, run + 1);
      } else {
        var more := Encode(symbols[1..], MoveFront(mtf, j), 0);
        EncodeBound(symbols[1..], MoveFront(mtf, j), 0);
        WithinJoin(Digits(run), j + RUN_1, more, |mtf|);
      }
    }
  }

  /** The first symbol of a sequence. */
  lemma EncodeFirst(symbols: seq<nat>, mtf: seq<nat>, run: nat)
    requires |mtf| > 0 && Known(symbols, mtf) && symbols != []
    ensures symbols[0] in mtf && Known(symbols[1..], mtf)
    ensures var j := Index(mtf, symbols[0]);
      && Known(symbols[1..], MoveFront(mtf, j))
      && Encode(symbols, mtf, run) ==
           (if j == 0 then Encode(symbols[1..], mtf, run + 1)
            else Digits(run) + [j + RUN_1] + Encode(symbols[1..], MoveFront(mtf, j), 0))
      && (j == 0 ==> MoveFront(mtf, j) == mtf)
  {
    hide Digits, Encode, MoveFront, Known, Index;
    assert symbols[0..] == symbols;
    KnownAt(symbols, 0, mtf);
    EncodeStep(symbols, 0, mtf, run);
  }

  /** djw_update_mtf, and the search of the encoder before it. */
  method ToFront(mtf: array<nat>, j: nat)
    requires j < mtf.Length
    modifies mtf
    ensures mtf[..] == MoveFront(old(mtf[..]), j)
  {
    var sym, k := mtf[j], j;
    while k >= 1
      invariant k <= j
      invariant forall i | 0 <= i < mtf.Length :: mtf[i] == if k < i <= j then old(mtf[i - 1]) else old(mtf[i])
    {
      mtf[k] := mtf[k - 1];
      k := k - 1;
    }
    mtf[0] := sym;
  }

  method FindFront(mtf: array<nat>, sym: nat) returns (j: nat)
    requires sym in mtf[..]
    modifies mtf
    ensures j < mtf.Length && j == Index(old(mtf[..]), sym) && mtf[..] == MoveFront(old(mtf[..]), j)
  {
    j := 0;
    while mtf[j] != sym
      invariant j < mtf.Length && sym !in mtf[..j] && mtf[..] == old(mtf[..])
      decreases mtf.Length - j
    {
      assert mtf[..j + 1] == mtf[..j] + [mtf[j]];
      j := j + 1;
      assert mtf[..][..j] == mtf[..j];
      NotBefore(mtf[..], sym, j);
    }
    IndexIs(mtf[..], sym, j);
    assert mtf[..][..j] == mtf[..j];
    ToFront(mtf, j);
  }

  /** How often each code was emitted. */
  predicate Counts(freq: seq<nat>, codes: seq<nat>) {
    forall c: nat | c < |freq| :: freq[c] == Codes.Count(codes, c)
  }

  lemma CountsAppend(freq: seq<nat>, codes: seq<nat>, c: nat)
    requires Counts(freq, codes) && c < |freq|
    ensures Counts(freq[c := freq[c] + 1], codes + [c])
  {
    assert (codes + [c])[..|codes|] == codes;
  }

  /** One code at the end of the output. */
  method Put(mtfsym: array<nat>, at: nat, freq: array<nat>, c: nat)
    requires at < mtfsym.Length && c < freq.Length && mtfsym != freq && Counts(freq[..], mtfsym[..at])
    modifies mtfsym, freq
    ensures mtfsym[..at + 1] == old(mtfsym[..at]) + [c] && Counts(freq[..], mtfsym[..at + 1])
  {
    CountsAppend(freq[..], mtfsym[..at], c);
    mtfsym[at] := c;
    ghost var f := freq[..];
    freq[c] := freq[c] + 1;
    assert freq[..] == f[c := f[c] + 1];
    assert mtfsym[..at + 1] == old(mtfsym[..at]) + [c];
  }

  /** djw_update_1_2 */
  method EmitRun(run0: nat, at0: nat, mtfsym: array<nat>, freq: array<nat>) returns (at: nat)
    requires run0 > 0 && at0 + run0 <= mtfsym.Length && freq.Length >= 2 && mtfsym != freq
    requires Counts(freq[..], mtfsym[..at0])
    modifies mtfsym, freq
    ensures at0 <= at <= at0 + run0 && mtfsym[..at] == old(mtfsym[..at0]) + Digits(run0)
    ensures Counts(freq[..], mtfsym[..at])
  {
    hide Counts, Digits;
    at := at0;
    var run := run0;
    while true
      invariant run > 0 && at0 <= at && at + run <= at0 + run0
      invariant Counts(freq[..], mtfsym[..at])
      invariant mtfsym[..at] + Digits(run) == old(mtfsym[..at0]) + Digits(run0)
      decreases run
    {
      ghost var before := mtfsym[..at];
      run := run - 1;
      var code := if run % 2 == 1 then RUN_1 else RUN_0;
      Put(mtfsym, at, freq, code);
      at := at + 1;
      run := run / 2;
      DigitsStep(2 * run + code + 1);
      assert before + ([code] + Digits(run)) == mtfsym[..at] + Digits(run);
      if run < 1 {
        break;
      }
    }
    NoRun();
  }

  lemma DigitsStep(run: nat)
    requires run > 0
    ensures Digits(run) == [(run - 1) % 2] + Digits((run - 1) / 2)
  {
  }

  /** A place other than the front, after the run before it. */
  method EmitPlace(run: nat, at0: nat, mtfsym: array<nat>, freq: array<nat>, j: nat) returns (at: nat)
    requires at0 + run < mtfsym.Length && j + RUN_1 < freq.Length && 1 < freq.Length && mtfsym != freq
    requires Counts(freq[..], mtfsym[..at0])
    modifies mtfsym, freq
    ensures at0 < at <= at0 + run + 1 && mtfsym[..at] == old(mtfsym[..at0]) + Digits(run) + [j + RUN_1]
    ensures Counts(freq[..], mtfsym[..at])
  {
    hide Counts, Digits;
    at := at0;
    NoRun();
    if run > 0 {
      at := EmitRun(run, at, mtfsym, freq);
    }
    Put(mtfsym, at, freq, j + RUN_1);
    at := at + 1;
  }

  lemma EncodeStep(symbols: seq<nat>, i: nat, mtf: seq<nat>, run: nat)
    requires i < |symbols| && |mtf| > 0 && Known(symbols, mtf)
    ensures Known(symbols[i..], mtf) && Known(symbols[i + 1..], mtf)
    ensures var j := Index(mtf, symbols[i]);
      && Known(symbols, MoveFront(mtf, j)) && Known(symbols[i + 1..], MoveFront(mtf, j))
      && Encode(symbols[i..], mtf, run) ==
           (if j == 0 then Encode(symbols[i + 1..], mtf, run + 1)
            else Digits(run) + [j + RUN_1] + Encode(symbols[i + 1..], MoveFront(mtf, j), 0))
      && (j == 0 ==> MoveFront(mtf, j) == mtf)
  {
    MoveFrontKnown(symbols, mtf, Index(mtf, symbols[i]));
    assert symbols[i..][1..] == symbols[i + 1..];
  }

  /** djw_compute_mtf_1_2 */
  method ComputeMtf12(symbols: seq<nat>, mtf: array<nat>, mtfsym: array<nat>, nsym: nat)
    returns (mcount: nat, freq: array<nat>)
    requires 0 < mtf.Length <= nsym + 1 && Known(symbols, mtf[..])
    requires mtfsym.Length >= |symbols| && mtfsym != mtf
    modifies mtf, mtfsym
    ensures mcount <= |symbols| && mtfsym[..mcount] == Encode(symbols, old(mtf[..]), 0)
    ensures fresh(freq) && freq.Length == nsym + 2 && Counts(freq[..], mtfsym[..mcount])
  {
    hide Counts, Known, Encode, Digits;
    freq := new nat[nsym + 2](_ => 0);
    mcount := 0;
    var i: nat, run: nat := 0, 0;
    NothingCounted(freq[..], mtfsym[..0]);
    ghost var all := Encode(symbols, mtf[..], 0);
    WholeEncode(symbols, mtfsym[..0], all);
    while i < |symbols|
      invariant i <= |symbols| && mcount + run <= i
      invariant mtf.Length > 0 && Known(symbols, mtf[..]) && Known(symbols[i..], mtf[..])
      invariant mtfsym[..mcount] + Encode(symbols[i..], mtf[..], run) == all
      invariant Counts(freq[..], mtfsym[..mcount])
    {
      mcount, run := OneSymbol(symbols, i, mtf, run, mtfsym, mcount, freq);
      i := i + 1;
    }
    EncodeEnd(symbols, mtf[..], run);
    if run > 0 {
      mcount := EmitRun(run, mcount, mtfsym, freq);
    } else {
      NoRun();
    }
  }

  /** The body of the loop: the run grows, or it is sent and the place after it. */
  method OneSymbol(symbols: seq<nat>, i: nat, mtf: array<nat>, run: nat, mtfsym: array<nat>, mcount: nat,
                   freq: array<nat>)
    returns (mcount': nat, run': nat)
    requires i < |symbols| && mcount + run <= i < mtfsym.Length && mtfsym != mtf && freq != mtf && freq != mtfsym
    requires 0 < mtf.Length < freq.Length && Known(symbols, mtf[..]) && Known(symbols[i..], mtf[..])
    requires Counts(freq[..], mtfsym[..mcount])
    modifies mtf, mtfsym, freq
    ensures mcount' + run' <= i + 1 && Known(symbols, mtf[..]) && Known(symbols[i + 1..], mtf[..])
    ensures mtfsym[..mcount'] + Encode(symbols[i + 1..], mtf[..], run')
         == old(mtfsym[..mcount]) + Encode(symbols[i..], old(mtf[..]), run)
    ensures Counts(freq[..], mtfsym[..mcount'])
  {
    hide Counts, Known, Encode, Digits, MoveFront;
    ghost var before, table := mtfsym[..mcount], mtf[..];
    EncodeStep(symbols, i, table, run);
    KnownAt(symbols, i, table);
    mcount', run' := mcount, run;
    var j := FindFront(mtf, symbols[i]);
    if j == 0 {
      run' := run + 1;
    } else {
      mcount' := EmitPlace(run, mcount, mtfsym, freq, j);
      Regroup(before, Digits(run), j + RUN_1, Encode(symbols[i + 1..], mtf[..], 0));
      run' := 0;
    }
  }

  lemma NothingCounted(freq: seq<nat>, codes: seq<nat>)
    requires codes == [] && forall c | 0 <= c < |freq| :: freq[c] == 0
    ensures Counts(freq, codes)
  {
  }

  lemma WholeEncode(symbols: seq<nat>, none: seq<nat>, all: seq<nat>)
    requires none == []
    ensures symbols[0..] == symbols && none + all == all
  {
  }

  lemma KnownAt(symbols: seq<nat>, i: nat, mtf: seq<nat>)
    requires Known(symbols, mtf) && i < |symbols|
    ensures symbols[i] in mtf
  {
  }

  lemma NoRun()
    ensures Digits(0) == []
  {
  }

  lemma Regroup(a: seq<nat>, b: seq<nat>, c: nat, d: seq<nat>)
    ensures a + (b + [c] + d) == a + b + [c] + d
  {
  }

  lemma EncodeEnd(symbols: seq<nat>, mtf: seq<nat>, run: nat)
    requires |mtf| > 0 && Known(symbols, mtf)
    ensures symbols[|symbols|..] == [] && Known([], mtf) && Encode([], mtf, run) == Digits(run)
  {
  }
}
