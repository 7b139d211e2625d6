/** xdelta3-djw.h: undoing move-to-front coding with runs, on prefix coded input. */
module MtfDecode {
  import opened Bytes
  import opened Binary
  import opened BitIO
  import opened Codes
  import opened Mtf
  import Arith

  /** The state of djw_decode_1_2: the values so far, how often the front is still to be
      repeated, the place to be moved to the front next, and the weight of the next digit
      of a run as a power of two. */
  datatype Runs = Runs(values: seq<nat>, rep: nat, place: nat, shift: nat, table: seq<nat>)

  datatype Decoded = Corrupt | Decoded(values: seq<nat>, rest: seq<bool>)

  datatype Turned = Failed | Turned(st: Runs, rest: seq<bool>)

  /** A place already known to hold zero: it did so in the group before. */
  predicate Skipped(values: seq<nat>, n: nat, skip: nat) {
    skip != 0 && skip <= n && n - skip < |values| && values[n - skip] == 0
  }

  ghost predicate Usable(t: Table, table: seq<nat>) {
    Sound(t) && |t.inorder| <= |table| + 1 && |table| > 0
  }

  /** One turn of the loop. */
  ghost function Turn(t: Table, s: seq<bool>, st: Runs, skip: nat): (r: Turned)
    requires Usable(t, st.table) && st.place < |st.table|
    ensures r.Turned? ==> Usable(t, r.st.table) && r.st.place < |r.st.table|
    ensures r.Turned? ==> if st.rep == 0 && st.place == 0 && !Skipped(st.values, |st.values|, skip)
                          then r.st.values == st.values && (r.st.rep != 0 || r.st.place != 0)
                          else |r.st.values| == |st.values| + 1
  {
    if Skipped(st.values, |st.values|, skip) then
      Turned(st.(values := st.values + [0]), s)
    else if st.rep != 0 then
      Turned(st.(values := st.values + [st.table[0]], rep := st.rep - 1), s)
    else if st.place != 0 then
      Turned(st.(values := st.values + [st.table[st.place]], table := MoveFront(st.table, st.place), place := 0), s)
    else match Walk(t, 0, 0, s)
      case Bad => Failed
      case Sym(c, rest) =>
        if c <= RUN_1 then Turned(st.(rep := (c + 1) * Pow2(st.shift), shift := st.shift + 1), rest)
        else Turned(st.(place := c - 1, shift := 0), rest)
  }

  /** djw_decode_1_2 on the bits not read yet. */
  ghost function Decode(t: Table, s: seq<bool>, st: Runs, elts: nat, skip: nat): Decoded
    requires Usable(t, st.table) && st.place < |st.table| && |st.values| <= elts
    decreases elts - |st.values|, if st.rep == 0 && st.place == 0 then 1 else 0
  {
    if |st.values| == elts then
      if st.rep != 0 then Corrupt else Decoded(st.values, s)
    else
      var r := Turn(t, s, st, skip);
      if r.Failed? then Corrupt else Decode(t, r.rest, r.st, elts, skip)
  }

  // ------------------------------------------------------ groups of tables

  /** The values that are sent: zeros after the first group are not. */
  function Kept(v: seq<nat>, n: nat, skip: nat): (k: seq<nat>)
    requires n <= |v|
    decreases |v| - n
  {
    if n == |v| then []
    else if skip != 0 && skip <= n && v[n] == 0 then Kept(v, n + 1, skip)
    else [v[n]] + Kept(v, n + 1, skip)
  }

  /** Every group has its zeros where the group before has them. */
  predicate SameZeros(v: seq<nat>, skip: nat) {
    skip != 0 ==> forall n: nat | skip <= n < |v| :: v[n - skip] == 0 <==> v[n] == 0
  }

  /** What the decoder makes of values that were kept. */
  function Reinserted(kept: seq<nat>, done: seq<nat>, elts: nat, skip: nat): (v: Option<seq<nat>>)
    requires |done| <= elts
    decreases elts - |done|
  {
    if |done| == elts then (if kept == [] then Some(done) else None)
    else if Skipped(done, |done|, skip) then Reinserted(kept, done + [0], elts, skip)
    else if kept == [] then None
    else Reinserted(kept[1..], done + [kept[0]], elts, skip)
  }

  lemma {:induction false} ReinsertedPrefix(kept: seq<nat>, done: seq<nat>, elts: nat, skip: nat)
    requires |done| <= elts
    ensures var v := Reinserted(kept, done, elts, skip);
      v.Some? ==> |v.value| == elts && v.value[..|done|] == done
    decreases elts - |done|
  {
    if |done| < elts {
      if Skipped(done, |done|, skip) {
        ReinsertedPrefix(kept, done + [0], elts, skip);
      } else if kept != [] {
        ReinsertedPrefix(kept[1..], done + [kept[0]], elts, skip);
      }
      var v := Reinserted(kept, done, elts, skip);
      if v.Some? {
        assert v.value[..|done|] == v.value[..|done| + 1][..|done|];
      }
    }
  }

  lemma {:induction false} KeptNonzero(v: seq<nat>, n: nat, skip: nat)
    requires skip != 0 && skip <= n <= |v|
    ensures forall i | 0 <= i < |Kept(v, n, skip)| :: Kept(v, n, skip)[i] != 0
    decreases |v| - n
  {
    if n < |v| {
      KeptNonzero(v, n + 1, skip);
    }
  }

  predicate SameZerosFrom(v: seq<nat>, n: nat, skip: nat) {
    skip != 0 ==> forall i: nat | n <= i < |v| && skip <= i :: v[i - skip] == 0 <==> v[i] == 0
  }

  lemma {:induction false} ReinsertedFrom(v: seq<nat>, n: nat, skip: nat)
    requires n <= |v|
    ensures Reinserted(Kept(v, n, skip), v[..n], |v|, skip) == Some(v) <==> SameZerosFrom(v, n, skip)
    decreases |v| - n
  {
    var kept := Kept(v, n, skip);
    if n == |v| {
      assert v[..n] == v;
    } else {
      ReinsertedFrom(v, n + 1, skip);
      assert v[..n + 1] == v[..n] + [v[n]];
      var here := skip != 0 && skip <= n;
      assert SameZerosFrom(v, n, skip) <==>
        SameZerosFrom(v, n + 1, skip) && (here ==> (v[n - skip] == 0 <==> v[n] == 0));
      if here && v[n - skip] == 0 && v[n] != 0 {
        ReinsertedPrefix(kept, v[..n] + [0], |v|, skip);
        assert (v[..n] + [0])[n] != v[..n + 1][n];
      } else if here && v[n - skip] != 0 && v[n] == 0 && kept != [] {
        KeptNonzero(v, n + 1, skip);
        ReinsertedPrefix(kept[1..], v[..n] + [kept[0]], |v|, skip);
        assert (v[..n] + [kept[0]])[n] != v[..n + 1][n];
      } else if kept != [] {
        assert [v[n]] + Kept(v, n + 1, skip) == kept ==> kept[1..] == Kept(v, n + 1, skip);
      }
    }
  }

  /** Leaving out zeros is undone exactly where all groups have the same zeros. */
  lemma ZerosRestored(v: seq<nat>, skip: nat)
    ensures Reinserted(Kept(v, 0, skip), [], |v|, skip) == Some(v) <==> SameZeros(v, skip)
  {
    ReinsertedFrom(v, 0, skip);
    assert v[..0] == [];
  }

  // ------------------------------------------------------- undoing the code

  predicate HasWords(clen: seq<nat>, codes: seq<nat>) {
    forall i | 0 <= i < |codes| :: codes[i] < |clen| && clen[codes[i]] > 0
  }

  /** The code words of a sequence of codes. */
  function WordBits(clen: seq<nat>, codes: seq<nat>): (bits: seq<bool>)
    requires HasWords(clen, codes)
  {
    if codes == [] then [] else CodeBits(clen, codes[0]) + WordBits(clen, codes[1..])
  }

  /** How often a sequence begins with `x`. */
  function Leading(k: seq<nat>, x: nat): (n: nat)
    ensures n <= |k|
    ensures forall i | 0 <= i < n :: k[i] == x
    ensures n < |k| ==> k[n] != x
  {
    if k == [] || k[0] != x then 0 else 1 + Leading(k[1..], x)
  }

  /** The copies of the front still to come when digits worth `q` are not read yet. */
  function Copies(st: Runs, q: nat): nat {
    st.rep + Pow2(st.shift) * q
  }

  /** A state of the decoder on its way to values `v`, whose kept rest is `k`. */
  predicate Aligned(k: seq<nat>, st: Runs, q: nat) {
    && |st.table| > 0 && st.place < |st.table| && Known(k, st.table)
    && if st.place != 0 then
         st.rep == 0 && q == 0 && k != [] && k[0] == st.table[st.place]
       else
         var m := Copies(st, q);
         m <= |k| && (forall i | 0 <= i < m :: k[i] == st.table[0]) && (m < |k| ==> k[m] != st.table[0])
  }

  lemma TailKnown(k: seq<nat>, m: nat, mtf: seq<nat>)
    requires m <= |k| && Known(k, mtf)
    ensures Known(k[m..], mtf)
  {
  }

  /** The codes the decoder has not read yet. */
  function Unread(k: seq<nat>, st: Runs, q: nat): seq<nat>
    requires Aligned(k, st, q)
  {
    if st.place != 0 then
      MoveFrontKnown(k, st.table, st.place);
      Encode(k[1..], MoveFront(st.table, st.place), 0)
    else
      Digits(q) + Encode(k[Copies(st, q)..], st.table, 0)
  }

  /** The encoder sends a run of the front as its digits. */
  lemma {:induction false} EncodeRun(k: seq<nat>, mtf: seq<nat>, run: nat, m: nat)
    requires |mtf| > 0 && Known(k, mtf) && m <= |k|
    requires forall i | 0 <= i < m :: k[i] == mtf[0]
    requires m < |k| ==> k[m] != mtf[0]
    ensures Known(k[m..], mtf)
    ensures Encode(k, mtf, run) == Digits(run + m) + Encode(k[m..], mtf, 0)
    decreases m
  {
    hide Digits, Encode, MoveFront, Known, Index;
    if m == 0 {
      assert k[0..] == k;
      if k == [] {
        NoRun();
        EncodeEnd(k, mtf, run);
        EncodeEnd(k, mtf, 0);
      } else {
        EncodePlace(k, mtf, run);
      }
    } else {
      EncodeFirst(k, mtf, run);
      IndexIs(mtf, mtf[0], 0);
      EncodeRun(k[1..], mtf, run + 1, m - 1);
      assert k[1..][m - 1..] == k[m..];
    }
  }

  /** A symbol that is not in front ends the run before it. */
  lemma EncodePlace(k: seq<nat>, mtf: seq<nat>, run: nat)
    requires |mtf| > 0 && Known(k, mtf) && k != [] && k[0] != mtf[0]
    ensures Encode(k, mtf, run) == Digits(run) + Encode(k, mtf, 0)
  {
    hide Digits, Encode, MoveFront, Known, Index;
    NoRun();
    EncodeFirst(k, mtf, run);
    EncodeFirst(k, mtf, 0);
    var j := Index(mtf, k[0]);
    Regroup(Digits(run), [], j + RUN_1, Encode(k[1..], MoveFront(mtf, j), 0));
    assert Digits(run) + [] == Digits(run);
  }

  /** Sending `k` from the start. */
  lemma Begin(k: seq<nat>, values: seq<nat>, table: seq<nat>, shift: nat)
    requires |table| > 0 && Known(k, table)
    ensures var st, q := Runs(values, 0, 0, 0, table), Leading(k, table[0]);
      Aligned(k, st, q) && Unread(k, st, q) == Encode(k, table, 0)
  {
    hide Encode, Digits, Known, Pow2, Copies;
    var q := Leading(k, table[0]);
    NoShift(values, table, q);
    EncodeRun(k, table, 0, q);
  }

  lemma NoShift(values: seq<nat>, table: seq<nat>, q: nat)
    ensures Copies(Runs(values, 0, 0, 0, table), q) == q
  {
    assert Pow2(0) == 1;
  }

  /** One copy of the front. */
  lemma CopyFront(k: seq<nat>, st: Runs, q: nat)
    requires Aligned(k, st, q) && st.rep > 0
    ensures k != [] && k[0] == st.table[0]
    ensures var st' := st.(values := st.values + [st.table[0]], rep := st.rep - 1);
      Aligned(k[1..], st', q) && Unread(k[1..], st', q) == Unread(k, st, q)
  {
    hide Pow2, Encode, Digits;
    var m := Copies(st, q);
    Arith.Product(Pow2(st.shift), q);
    assert st.place == 0 && 0 < m;
    TailKnown(k, 1, st.table);
    assert k[1..][m - 1..] == k[m..];
  }

  /** The symbol after a run. */
  lemma TakePlace(k: seq<nat>, st: Runs)
    requires Aligned(k, st, 0) && st.place != 0 && st.shift == 0
    ensures k != [] && k[0] == st.table[st.place]
    ensures var st' := st.(values := st.values + [st.table[st.place]], table := MoveFront(st.table, st.place),
        place := 0);
      var q := Leading(k[1..], st'.table[0]);
      Aligned(k[1..], st', q) && Unread(k[1..], st', q) == Unread(k, st, 0)
  {
    MoveFrontKnown(k, st.table, st.place);
    TailKnown(k, 1, MoveFront(st.table, st.place));
    Begin(k[1..], st.values + [st.table[st.place]], MoveFront(st.table, st.place), 0);
  }

  /** One digit of a run. */
  lemma TakeDigit(k: seq<nat>, st: Runs, q: nat)
    requires Aligned(k, st, q) && st.rep == 0 && st.place == 0 && q > 0
    ensures var d := (q - 1) % 2;
      var st' := st.(rep := (d + 1) * Pow2(st.shift), shift := st.shift + 1);
      && Aligned(k, st', (q - 1) / 2)
      && Unread(k, st, q) == [d] + Unread(k, st', (q - 1) / 2)
  {
    hide Encode;
    var d, r, p := (q - 1) % 2, (q - 1) / 2, Pow2(st.shift);
    assert (d + 1) * p + (2 * p) * r == p * q by {
      assert q == d + 1 + 2 * r;
      Arith.Regroup(r, 2, d + 1, p);
    }
    var st' := st.(rep := (d + 1) * p, shift := st.shift + 1);
    assert Copies(st', r) == Copies(st, q);
    assert [d] + Digits(r) + Encode(k[Copies(st, q)..], st.table, 0)
        == [d] + (Digits(r) + Encode(k[Copies(st, q)..], st.table, 0));
  }

  /** The code of a place. */
  lemma TakeCode(k: seq<nat>, st: Runs)
    requires Aligned(k, st, 0) && st.rep == 0 && st.place == 0 && k != []
    ensures var j := Index(st.table, k[0]);
      && 0 < j && Aligned(k, st.(place := j, shift := 0), 0)
      && Unread(k, st, 0) == [j + RUN_1] + Unread(k, st.(place := j, shift := 0), 0)
  {
    hide Digits, Encode;
    NoRun();
    assert Copies(st, 0) == 0 && k[0..] == k;
    EncodeStep(k, 0, st.table, 0);
  }

  /** A state reached by the decoder on the words of the values `v`. */
  predicate OnWay(v: seq<nat>, skip: nat, st: Runs, q: nat) {
    && |st.values| <= |v| && st.values == v[..|st.values|]
    && Aligned(Kept(v, |st.values|, skip), st, q)
    && (st.place != 0 ==> st.shift == 0)
  }

  function Left(v: seq<nat>, skip: nat, st: Runs, q: nat): seq<nat>
    requires OnWay(v, skip, st, q)
  {
    Unread(Kept(v, |st.values|, skip), st, q)
  }

  lemma TurnSkip(v: seq<nat>, skip: nat, st: Runs, q: nat)
    requires OnWay(v, skip, st, q) && SameZeros(v, skip) && |st.values| < |v|
    requires Skipped(st.values, |st.values|, skip)
    ensures var st' := st.(values := st.values + [0]);
      OnWay(v, skip, st', q) && Left(v, skip, st', q) == Left(v, skip, st, q)
  {
    hide Encode, Digits;
    var n := |st.values|;
    assert v[n] == 0;
    assert v[..n + 1] == v[..n] + [v[n]];
  }

  lemma KeptHere(v: seq<nat>, skip: nat, n: nat)
    requires n < |v| && SameZeros(v, skip) && !Skipped(v[..n], n, skip)
    ensures Kept(v, n, skip) == [v[n]] + Kept(v, n + 1, skip)
    ensures v[..n + 1] == v[..n] + [v[n]]
  {
  }

  lemma TurnCopy(v: seq<nat>, skip: nat, st: Runs, q: nat)
    requires OnWay(v, skip, st, q) && SameZeros(v, skip) && |st.values| < |v|
    requires !Skipped(st.values, |st.values|, skip) && st.rep > 0
    ensures var st' := st.(values := st.values + [st.table[0]], rep := st.rep - 1);
      OnWay(v, skip, st', q) && Left(v, skip, st', q) == Left(v, skip, st, q)
  {
    hide Unread, Copies, Known, SameZeros;
    KeptHere(v, skip, |st.values|);
    CopyFront(Kept(v, |st.values|, skip), st, q);
  }

  lemma TurnPlace(v: seq<nat>, skip: nat, st: Runs) returns (q: nat)
    requires OnWay(v, skip, st, 0) && SameZeros(v, skip) && |st.values| < |v|
    requires !Skipped(st.values, |st.values|, skip) && st.place != 0
    ensures var st' := st.(values := st.values + [st.table[st.place]], table := MoveFront(st.table, st.place),
        place := 0);
      OnWay(v, skip, st', q) && Left(v, skip, st', q) == Left(v, skip, st, 0)
  {
    hide Unread, Copies, Known, SameZeros, MoveFront;
    KeptHere(v, skip, |st.values|);
    var k := Kept(v, |st.values|, skip);
    TakePlace(k, st);
    q := Leading(k[1..], MoveFront(st.table, st.place)[0]);
  }

  /** What reading one code does to the state. */
  function After(st: Runs, c: nat): Runs {
    if c <= RUN_1 then st.(rep := (c + 1) * Pow2(st.shift), shift := st.shift + 1)
    else st.(place := c - 1, shift := 0)
  }

  lemma TurnCode(v: seq<nat>, skip: nat, st: Runs, q: nat) returns (c: nat, q': nat)
    requires OnWay(v, skip, st, q) && SameZeros(v, skip) && |st.values| < |v|
    requires !Skipped(st.values, |st.values|, skip) && st.rep == 0 && st.place == 0
    ensures OnWay(v, skip, After(st, c), q') && Left(v, skip, st, q) == [c] + Left(v, skip, After(st, c), q')
  {
    hide Unread, Copies, Known, SameZeros, MoveFront;
    KeptHere(v, skip, |st.values|);
    var k := Kept(v, |st.values|, skip);
    if q > 0 {
      TakeDigit(k, st, q);
      c, q' := (q - 1) % 2, (q - 1) / 2;
    } else {
      TakeCode(k, st);
      c, q' := Index(st.table, k[0]) + RUN_1, 0;
    }
  }

  /** Tables that read the words of `clen`. */
  ghost predicate Reads(t: Table, clen: seq<nat>, max: nat) {
    TableOf(t, clen) && Sound(t) && KraftOk(clen, max)
  }

  lemma ReadWord(t: Table, clen: seq<nat>, max: nat, codes: seq<nat>, c: nat, rest: seq<bool>)
    requires Reads(t, clen, max) && HasWords(clen, [c] + codes)
    ensures c < |t.inorder| && HasWords(clen, codes)
    ensures Walk(t, 0, 0, WordBits(clen, [c] + codes) + rest) == Sym(c, WordBits(clen, codes) + rest)
  {
    hide Code, First, Count, Before, KraftOk, Walk, CodeBits;
    assert ([c] + codes)[0] == c && ([c] + codes)[1..] == codes;
    forall i | 0 <= i < |codes| ensures codes[i] < |clen| && clen[codes[i]] > 0 {
      assert codes[i] == ([c] + codes)[i + 1];
    }
    WalkCode(t, clen, max, c, WordBits(clen, codes) + rest);
    assert CodeBits(clen, c) + WordBits(clen, codes) + rest == CodeBits(clen, c) + (WordBits(clen, codes) + rest);
  }

  lemma WayEnd(v: seq<nat>, skip: nat, st: Runs, q: nat)
    requires OnWay(v, skip, st, q) && |st.values| == |v|
    ensures st.rep == 0 && st.values == v && Left(v, skip, st, q) == []
  {
    Arith.Product(Pow2(st.shift), q);
    assert q > 0 ==> Pow2(st.shift) * q > 0;
  }

  /** Decoding the words of the values gives the values. */
  lemma {:induction false} Undone(t: Table, clen: seq<nat>, max: nat, v: seq<nat>, skip: nat, st: Runs, q: nat,
      rest: seq<bool>)
    requires Reads(t, clen, max) && Usable(t, st.table) && SameZeros(v, skip)
    requires OnWay(v, skip, st, q) && HasWords(clen, Left(v, skip, st, q))
    ensures Decode(t, WordBits(clen, Left(v, skip, st, q)) + rest, st, |v|, skip) == Decoded(v, rest)
    decreases |v| - |st.values|, if st.rep == 0 && st.place == 0 then 1 else 0
  {
    hide Reads, Left, OnWay, SameZeros, Walk, HasWords, WordBits, Skipped, MoveFront;
    OnWayPlace(v, skip, st, q);
    var codes := Left(v, skip, st, q);
    var s := WordBits(clen, codes) + rest;
    if |st.values| == |v| {
      WayEnd(v, skip, st, q);
      NoWordBits(clen, codes);
    } else if Skipped(st.values, |st.values|, skip) {
      TurnSkip(v, skip, st, q);
      Undone(t, clen, max, v, skip, st.(values := st.values + [0]), q, rest);
    } else if st.rep != 0 {
      TurnCopy(v, skip, st, q);
      Undone(t, clen, max, v, skip, st.(values := st.values + [st.table[0]], rep := st.rep - 1), q, rest);
    } else if st.place != 0 {
      var q' := TurnPlace(v, skip, st);
      Undone(t, clen, max, v, skip, Turn(t, s, st, skip).st, q', rest);
    } else {
      var c, q' := TurnCode(v, skip, st, q);
      var st' := After(st, c);
      ReadWord(t, clen, max, Left(v, skip, st', q'), c, rest);
      Undone(t, clen, max, v, skip, st', q', rest);
    }
  }

  lemma OnWayPlace(v: seq<nat>, skip: nat, st: Runs, q: nat)
    requires OnWay(v, skip, st, q)
    ensures |st.values| <= |v| && st.place < |st.table| && (st.place != 0 ==> q == 0 && st.rep == 0)
  {
  }

  lemma NoWordBits(clen: seq<nat>, codes: seq<nat>)
    requires codes == []
    ensures HasWords(clen, codes) && WordBits(clen, codes) == [] && forall s: seq<bool> :: [] + s == s
  {
  }

  /** djw_decode_1_2 undoes djw_compute_mtf_1_2, zeros left out included. */
  lemma RoundTrip(t: Table, clen: seq<nat>, max: nat, v: seq<nat>, skip: nat, table: seq<nat>, rest: seq<bool>)
    requires Reads(t, clen, max) && Usable(t, table) && SameZeros(v, skip)
    requires Known(Kept(v, 0, skip), table) && HasWords(clen, Encode(Kept(v, 0, skip), table, 0))
    ensures Decode(t, WordBits(clen, Encode(Kept(v, 0, skip), table, 0)) + rest, Runs([], 0, 0, 0, table), |v|, skip)
         == Decoded(v, rest)
  {
    hide Reads, SameZeros, HasWords, WordBits, Known, Encode, Decode, Unread, Aligned;
    var k := Kept(v, 0, skip);
    Begin(k, [], table, 0);
    var st := Runs([], 0, 0, 0, table);
    var q := Leading(k, table[0]);
    assert v[..0] == [];
    Undone(t, clen, max, v, skip, st, q, rest);
  }

  lemma OneTurn(t: Table, s: seq<bool>, st: Runs, elts: nat, skip: nat)
    requires Usable(t, st.table) && st.place < |st.table| && |st.values| < elts
    ensures var r := Turn(t, s, st, skip);
      Decode(t, s, st, elts, skip) == if r.Failed? then Corrupt else Decode(t, r.rest, r.st, elts, skip)
  {
  }

  /** The values in the array and the rest of the state. */
  method CopyTurn(values: array<nat>, n: nat, mtfvals: array<nat>, rep: nat, place: nat, shift: nat, skip: nat,
                  ghost t: Table, ghost s: seq<bool>)
    returns (rep': nat, place': nat)
    requires n < values.Length && place < mtfvals.Length && Usable(t, mtfvals[..]) && values != mtfvals
    requires Skipped(values[..n], n, skip) || rep != 0 || place != 0
    modifies values, mtfvals
    ensures place' < mtfvals.Length
    ensures Turn(t, s, Runs(old(values[..n]), rep, place, shift, old(mtfvals[..])), skip)
         == Turned(Runs(values[..n + 1], rep', place', shift, mtfvals[..]), s)
  {
    hide Usable, Walk, MoveFront;
    rep', place' := rep, place;
    var x: nat := 0;
    ghost var before := values[..n];
    if skip != 0 && n >= skip && values[n - skip] == 0 {
      x := 0;
    } else if rep != 0 {
      x := mtfvals[0];
      rep' := rep - 1;
    } else {
      x := mtfvals[place];
      ToFront(mtfvals, place);
      place' := 0;
    }
    values[n] := x;
    assert values[..n + 1] == before + [x];
  }

  /** The next repeat code or symbol. */
  method CodeTurn(r: BitReader, t: Table, shift: nat, maxSym: nat, ghost st: Runs, ghost skip: nat)
    returns (ok: bool, rep: nat, place: nat, shift': nat)
    requires r.Valid() && Usable(t, st.table) && |t.inorder| <= maxSym + 1
    requires st.rep == 0 && st.place == 0 && st.shift == shift && !Skipped(st.values, |st.values|, skip)
    modifies r
    ensures r.Valid()
    ensures var u := Turn(t, old(r.Rest()), st, skip);
      if ok then u == Turned(st.(rep := rep, place := place, shift := shift'), r.Rest()) else u == Failed
  {
    hide Walk;
    rep, place, shift' := 0, 0, shift;
    ok, place := DecodeSymbol(r, t, maxSym);
    if ok {
      if place <= RUN_1 {
        rep := (place + 1) * Pow2(shift);
        place := 0;
        shift' := shift + 1;
      } else {
        place := place - 1;
        shift' := 0;
      }
    }
  }

  /** djw_decode_1_2 */
  method DecodeRuns(r: BitReader, t: Table, mtfvals: array<nat>, elts: nat, skip: nat, maxSym: nat)
    returns (ok: bool, values: array<nat>)
    requires r.Valid() && Usable(t, mtfvals[..]) && |t.inorder| <= maxSym + 1
    modifies r, mtfvals
    ensures r.Valid() && fresh(values) && values.Length == elts
    ensures var d := Decode(t, old(r.Rest()), Runs([], 0, 0, 0, old(mtfvals[..])), elts, skip);
      if ok then d == Decoded(values[..], r.Rest()) else d == Corrupt
  {
    hide Usable, Walk, MoveFront, Decode, Turn;
    values := new nat[elts];
    var n: nat, rep: nat, place: nat, shift: nat := 0, 0, 0, 0;
    TableNotEmpty(t, mtfvals[..]);
    assert values[..0] == [];
    ghost var whole := Decode(t, r.Rest(), Runs([], 0, 0, 0, mtfvals[..]), elts, skip);
    ok := true;
    while ok && n < elts
      invariant n <= elts && r.Valid() && fresh(values) && values.Length == elts && values != mtfvals
      invariant Usable(t, mtfvals[..]) && (ok ==> place < mtfvals.Length)
      invariant ok ==> Decode(t, r.Rest(), Runs(values[..n], rep, place, shift, mtfvals[..]), elts, skip) == whole
      invariant !ok ==> whole == Corrupt
      decreases ok, elts - n, if rep == 0 && place == 0 then 1 else 0
    {
      ghost var st, s := Runs(values[..n], rep, place, shift, mtfvals[..]), r.Rest();
      OneTurn(t, s, st, elts, skip);
      if (skip != 0 && n >= skip && values[n - skip] == 0) || rep != 0 || place != 0 {
        rep, place := CopyTurn(values, n, mtfvals, rep, place, shift, skip, t, s);
        n := n + 1;
      } else {
        ok, rep, place, shift := CodeTurn(r, t, shift, maxSym, st, skip);
      }
    }
    if ok {
      LastTurn(t, r.Rest(), Runs(values[..n], rep, place, shift, mtfvals[..]), elts, skip);
      assert values[..n] == values[..];
      if rep != 0 {
        ok := false;
      }
    }
  }

  lemma TableNotEmpty(t: Table, table: seq<nat>)
    requires Usable(t, table)
    ensures |table| > 0
  {
  }

  lemma LastTurn(t: Table, s: seq<bool>, st: Runs, elts: nat, skip: nat)
    requires Usable(t, st.table) && st.place < |st.table| && |st.values| == elts
    ensures Decode(t, s, st, elts, skip) == if st.rep != 0 then Corrupt else Decoded(st.values, s)
  {
  }
}
