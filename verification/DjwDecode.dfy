/** xdelta3-djw.h: xd3_decode_huff. */
module DjwDecode {
  import opened Bytes
  import opened Binary
  import opened BitIO
  import opened Codes
  import opened Mtf
  import opened MtfDecode
  import opened DjwFormat
  import Arith

  // ---------------------------------------------------------- fixed fields

  lemma FieldSplit(values: seq<nat>, width: nat, i: nat, rest: seq<bool>)
    requires i < |values| && values[i] < Pow2(width)
    ensures var s := FieldBits(values[i..], width) + rest;
      && width <= |s| && ToNat(s[..width]) == values[i]
      && s[width..] == FieldBits(values[i + 1..], width) + rest
  {
    hide ToNat, Pow2;
    var s := FieldBits(values[i..], width) + rest;
    assert values[i..][1..] == values[i + 1..];
    var word := ToBits(values[i], width);
    assert s == word + (FieldBits(values[i + 1..], width) + rest);
    assert s[..width] == word;
    NatOfBits(values[i], width);
  }

  /** Numbers of the same width, as long as the input lasts. */
  method DecodeFields(r: BitReader, n: nat, width: nat, ghost known: bool, ghost values: seq<nat>,
      ghost rest: seq<bool>)
    returns (ok: bool, out: array<nat>)
    requires r.Valid() && width > 0
    requires known ==>
      |values| == n && (forall i | 0 <= i < n :: values[i] < Pow2(width)) && r.Rest() == FieldBits(values, width) + rest
    modifies r
    ensures r.Valid() && fresh(out) && out.Length == n
    ensures ok ==> forall i | 0 <= i < n :: out[i] < Pow2(width)
    ensures known ==> ok && out[..] == values && r.Rest() == rest
  {
    hide FieldBits, Pow2, ToNat;
    out := new nat[n];
    ok := true;
    var i := 0;
    assert values[0..] == values;
    while ok && i < n
      invariant i <= n && r.Valid() && fresh(out)
      invariant ok ==> forall j | 0 <= j < i :: out[j] < Pow2(width)
      invariant known ==>
        ok && (forall j | 0 <= j < i :: out[j] == values[j]) && r.Rest() == FieldBits(values[i..], width) + rest
      decreases ok, n - i
    {
      if known {
        FieldSplit(values, width, i, rest);
      }
      var value;
      ok, value := r.DecodeBits(width);
      if ok {
        out[i] := value;
        i := i + 1;
      }
    }
    NoFields(values, n, width);
  }

  lemma NoFields(values: seq<nat>, n: nat, width: nat)
    ensures n == |values| ==> FieldBits(values[n..], width) == []
    ensures forall s: seq<bool> :: [] + s == s
  {
  }

  /** One number. */
  method DecodeField(r: BitReader, width: nat, ghost known: bool, ghost value: nat, ghost rest: seq<bool>)
    returns (ok: bool, v: nat)
    requires r.Valid() && width > 0
    requires known ==> value < Pow2(width) && r.Rest() == ToBits(value, width) + rest
    modifies r
    ensures r.Valid() && (ok ==> v < Pow2(width))
    ensures known ==> ok && v == value && r.Rest() == rest
  {
    hide Pow2, ToNat, ToBits;
    ghost var s := r.Rest();
    ok, v := r.DecodeBits(width);
    if known {
      NatOfBits(value, width);
      assert s[..width] == ToBits(value, width) && s[width..] == rest;
    }
  }

  // ------------------------------------------------------------ the prefix

  /** djw_decode_clclen: the tables for code lengths. */
  method DecodeHeader(r: BitReader, ghost known: bool, ghost cl: seq<nat>, ghost num: nat, ghost rest: seq<bool>)
    returns (ok: bool, t: Table)
    requires r.Valid()
    requires known ==> Header(cl, num) && r.Rest() == HeaderBits(cl, num) + rest
    modifies r
    ensures r.Valid() && (ok ==> Sound(t) && |t.inorder| == TOTAL_CODES)
    ensures known ==> ok && TableOf(t, cl) && r.Rest() == rest
  {
    hide FieldBits, Pow2, TableOf, Sound, ToBits, KraftOk;
    t := Table(1, 0, [], [], []);
    var n: nat;
    ghost var fields := if known then FieldBits(cl[..num], CLCLEN_BITS) else [];
    if known {
      HeaderSplit(cl, num, rest);
    }
    SmallPowers();
    ok, n := DecodeField(r, EXTRA_CODE_BITS, known, if known then num - EXTRA_12OFFSET else 0, fields + rest);
    if ok {
      n := n + EXTRA_12OFFSET;
      var sent;
      ok, sent := DecodeFields(r, n, CLCLEN_BITS, known, if known then cl[..num] else [], rest);
      if ok {
        var clen := Padded(sent, n);
        assert known ==> clen == cl;
        t := BuildDecoder(clen, MAX_CLCLEN);
        TableIsSound(t, clen);
        TableSize(t, clen);
      }
    }
  }

  lemma TableSize(t: Table, clen: seq<nat>)
    requires TableOf(t, clen)
    ensures |t.inorder| == |clen|
  {
  }

  lemma HeaderSplit(cl: seq<nat>, num: nat, rest: seq<bool>)
    requires Header(cl, num)
    ensures num - EXTRA_12OFFSET < Pow2(EXTRA_CODE_BITS)
    ensures HeaderBits(cl, num) + rest == ToBits(num - EXTRA_12OFFSET, EXTRA_CODE_BITS)
        + (FieldBits(cl[..num], CLCLEN_BITS) + rest)
    ensures forall i | 0 <= i < num :: cl[i] < Pow2(CLCLEN_BITS)
  {
    SmallPowers();
  }

  /** The lengths that were not sent are zero. */
  method Padded(sent: array<nat>, n: nat) returns (clen: seq<nat>)
    requires sent.Length == n <= TOTAL_CODES && forall i | 0 <= i < n :: sent[i] <= MAX_CLCLEN
    ensures |clen| == TOTAL_CODES && clen[..n] == sent[..] && AtMost(clen, MAX_CLCLEN)
    ensures forall i | n <= i < TOTAL_CODES :: clen[i] == 0
  {
    var all := new nat[TOTAL_CODES];
    for i := 0 to n
      invariant forall j | 0 <= j < i :: all[j] == sent[j]
    {
      all[i] := sent[i];
    }
    for i := n to TOTAL_CODES
      invariant forall j | 0 <= j < n :: all[j] == sent[j]
      invariant forall j | n <= j < i :: all[j] == 0
    {
      all[i] := 0;
    }
    clen := all[..];
  }

  /** All values come from the list of symbols. */
  lemma {:induction false} ValuesBounded(t: Table, s: seq<bool>, st: Runs, elts: nat, skip: nat, bound: nat)
    requires Usable(t, st.table) && st.place < |st.table| && |st.values| <= elts
    requires AtMost(st.values, bound) && AtMost(st.table, bound)
    ensures var d := Decode(t, s, st, elts, skip); d.Decoded? ==> AtMost(d.values, bound)
    decreases elts - |st.values|, if st.rep == 0 && st.place == 0 then 1 else 0
  {
    hide Usable, Walk, MoveFront;
    if |st.values| < elts {
      OneTurn(t, s, st, elts, skip);
      var u := Turn(t, s, st, skip);
      if u.Turned? {
        if st.place != 0 {
          FrontAtMost(st.table, st.place, bound);
        }
        ValuesBounded(t, u.rest, u.st, elts, skip, bound);
      }
    }
  }

  lemma FrontAtMost(table: seq<nat>, j: nat, bound: nat)
    requires j < |table| && AtMost(table, bound)
    ensures AtMost(MoveFront(table, j), bound)
  {
  }

  /** Values in move-to-front code, from a list with every value at most `bound`. */
  method DecodeValues(r: BitReader, t: Table, table: seq<nat>, elts: nat, skip: nat, bound: nat,
                      ghost known: bool, ghost clclen: seq<nat>, ghost max: nat, ghost v: seq<nat>,
                          ghost rest: seq<bool>)
    returns (ok: bool, values: array<nat>)
    requires r.Valid() && Usable(t, table) && AtMost(table, bound) && |t.inorder| <= TOTAL_CODES + 1
    requires known ==> |v| == elts && SameZeros(v, skip) && CodeOf(Kept(v, 0, skip), table, clclen)
    requires known ==> Reads(t, clclen, max) && r.Rest() == RunBits(Kept(v, 0, skip), table, clclen) + rest
    modifies r
    ensures r.Valid() && fresh(values) && values.Length == elts && (ok ==> AtMost(values[..], bound))
    ensures known ==> ok && values[..] == v && r.Rest() == rest
  {
    hide Usable, Reads, CodeOf, Decode, Kept, SameZeros, AtMost;
    var mtf := new nat[|table|](i requires 0 <= i < |table| => table[i]);
    assert mtf[..] == table;
    NoValues(bound);
    TableNotEmpty(t, table);
    ghost var s := r.Rest();
    if known {
      ValuesBack(t, clclen, max, v, skip, table, rest);
    }
    ok, values := DecodeRuns(r, t, mtf, elts, skip, TOTAL_CODES);
    ValuesBounded(t, s, Runs([], 0, 0, 0, table), elts, skip, bound);
  }

  lemma NoValues(bound: nat)
    ensures AtMost([], bound)
  {
  }

  lemma ValuesBack(t: Table, clclen: seq<nat>, max: nat, v: seq<nat>, skip: nat, table: seq<nat>, rest: seq<bool>)
    requires Usable(t, table) && SameZeros(v, skip) && CodeOf(Kept(v, 0, skip), table, clclen)
    requires Reads(t, clclen, max)
    ensures Decode(t, RunBits(Kept(v, 0, skip), table, clclen) + rest, Runs([], 0, 0, 0, table), |v|, skip)
        == Decoded(v, rest)
  {
    hide Usable, Reads, Decode, Kept, SameZeros, Encode, WordBits, HasWords;
    RoundTrip(t, clclen, max, v, skip, table, rest);
  }

  // ---------------------------------------------------------- group tables

  lemma {:induction false} FlatSlice(clens: seq<seq<nat>>, g: nat, size: nat)
    requires g < |clens| && forall h | 0 <= h < |clens| :: |clens[h]| == size
    ensures |Flat(clens)| == |clens| * size && (g + 1) * size <= |clens| * size
    ensures Flat(clens)[g * size..(g + 1) * size] == clens[g]
    decreases |clens|
  {
    hide Flat;
    var n := |clens| - 1;
    FlatLast(clens);
    FlatLength(clens[..n], size);
    FlatLength(clens, size);
    Rows(g, n, size);
    var low := Flat(clens[..n]);
    if g < n {
      FlatSlice(clens[..n], g, size);
      SliceOfSum(low, clens[n], g * size, (g + 1) * size);
    } else {
      SliceOfLast(low, clens[n]);
    }
  }

  lemma FlatLast(clens: seq<seq<nat>>)
    requires clens != []
    ensures Flat(clens) == Flat(clens[..|clens| - 1]) + clens[|clens| - 1]
  {
  }

  lemma Rows(g: nat, n: nat, size: nat)
    requires g <= n
    ensures (g + 1) * size == g * size + size && (n + 1) * size == n * size + size && g * size <= n * size
    ensures g < n ==> (g + 1) * size <= n * size
  {
    if g < n {
      Arith.Multiples(g, n, size);
    }
  }

  lemma SliceOfSum<T>(a: seq<T>, b: seq<T>, lo: nat, hi: nat)
    requires lo <= hi <= |a|
    ensures (a + b)[lo..hi] == a[lo..hi]
  {
  }

  lemma SliceOfLast<T>(a: seq<T>, b: seq<T>)
    ensures (a + b)[|a|..|a| + |b|] == b
  {
  }

  lemma {:induction false} FlatLength(clens: seq<seq<nat>>, size: nat)
    requires forall h | 0 <= h < |clens| :: |clens[h]| == size
    ensures |Flat(clens)| == |clens| * size
    decreases |clens|
  {
    if clens != [] {
      var n := |clens| - 1;
      FlatLength(clens[..n], size);
      assert (n + 1) * size == n * size + size;
    }
  }

  ghost predicate TablesOf(tables: seq<Table>, clens: seq<seq<nat>>) {
    |tables| == |clens| && forall g | 0 <= g < |clens| :: TableOf(tables[g], clens[g])
  }

  ghost predicate AllSound(tables: seq<Table>) {
    forall g | 0 <= g < |tables| :: Sound(tables[g]) && |tables[g].inorder| == ALPHABET_SIZE
  }

  /** The decoding tables of all groups. */
  method BuildTables(clen: array<nat>, groups: nat, ghost known: bool, ghost clens: seq<seq<nat>>)
    returns (tables: seq<Table>)
    requires clen.Length == groups * ALPHABET_SIZE && AtMost(clen[..], MAX_CODELEN)
    requires known ==> Groups(clens) && |clens| == groups && clen[..] == Flat(clens)
    ensures |tables| == groups && AllSound(tables) && (known ==> TablesOf(tables, clens))
  {
    hide TableOf, Sound, KraftOk;
    tables := [];
    var gp := 0;
    while gp < groups
      invariant |tables| == gp <= groups && AllSound(tables)
      invariant known ==> TablesOf(tables, clens[..gp])
    {
      var at := gp * ALPHABET_SIZE;
      assert (gp + 1) * ALPHABET_SIZE <= groups * ALPHABET_SIZE;
      if known {
        FlatSlice(clens, gp, ALPHABET_SIZE);
      }
      var lengths := clen[at..at + ALPHABET_SIZE];
      assert known ==> lengths == clens[gp];
      var t := BuildDecoder(lengths, MAX_CODELEN);
      TableIsSound(t, lengths);
      TableSize(t, lengths);
      tables := tables + [t];
      gp := gp + 1;
    }
    assert known ==> clens[..groups] == clens;
  }

  // -------------------------------------------------------------- the data

  lemma ByteWord(clen: seq<nat>, data: seq<byte>, i: nat, t: Table, max: nat, rest: seq<bool>)
    requires Reads(t, clen, max) && HasWords(clen, data) && i < |data|
    ensures HasWords(clen, data[i..]) && HasWords(clen, data[i + 1..])
    ensures Walk(t, 0, 0, WordBits(clen, data[i..]) + rest) == Sym(data[i], WordBits(clen, data[i + 1..]) + rest)
  {
    hide Reads, Walk, WordBits;
    assert data[i..] == [data[i]] + data[i + 1..];
    ReadWord(t, clen, max, data[i + 1..], data[i], rest);
  }

  /** The bytes of one sector. */
  method DecodeSector(r: BitReader, t: Table, n: nat, output: array<byte>, at: nat,
                      ghost known: bool, ghost clen: seq<nat>, ghost data: seq<byte>, ghost rest: seq<bool>)
    returns (ok: bool)
    requires r.Valid() && Sound(t) && |t.inorder| == ALPHABET_SIZE && n > 0 && at + n <= output.Length
    requires known ==> |data| == n && HasWords(clen, data) && Reads(t, clen, MAX_CODELEN)
    requires known ==> r.Rest() == WordBits(clen, data) + rest
    modifies r, output
    ensures r.Valid() && output[..at] == old(output[..at])
    ensures known ==> ok && output[at..at + n] == data && r.Rest() == rest
  {
    hide Reads, Walk, WordBits, Sound, HasWords;
    ok := true;
    var i: nat := 0;
    assert data[0..] == data;
    while ok && i < n
      invariant i <= n && r.Valid() && output[..at] == old(output[..at])
      invariant known ==> ok && HasWords(clen, data[i..]) && r.Rest() == WordBits(clen, data[i..]) + rest
      invariant known ==> forall j | 0 <= j < i :: output[at + j] == data[j]
      decreases ok, n - i
    {
      if known {
        ByteWord(clen, data, i, t, MAX_CODELEN, rest);
      }
      ghost var s := r.Rest();
      var sym;
      ok, sym := DecodeSymbol(r, t, ALPHABET_SIZE);
      if ok {
        WalkNames(t, s);
        output[at + i] := sym;
        i := i + 1;
      }
    }
    if known {
      NoWords(clen, data[n..]);
    }
  }

  lemma WalkNames(t: Table, s: seq<bool>)
    requires Sound(t)
    ensures var w := Walk(t, 0, 0, s); w.Sym? ==> w.value < |t.inorder|
  {
  }

  lemma NoWords(clen: seq<nat>, data: seq<byte>)
    requires data == []
    ensures HasWords(clen, data) && WordBits(clen, data) == [] && forall s: seq<bool> :: [] + s == s
  {
  }

  /** What is left of the data when `sectors` and bytes have been decoded. */
  lemma NextSector(clens: seq<seq<nat>>, tables: seq<Table>, sel: seq<nat>, size: nat, data: seq<byte>, rest: seq<bool>)
    requires Groups(clens) && TablesOf(tables, clens) && AllSound(tables) && data != []
    requires Spells(clens, data) && Selects(sel, |clens|, |data|, size)
    ensures var n := SectorLength(|data|, size);
      && |sel| > 0 && sel[0] < |clens| && HasWords(clens[sel[0]], data[..n])
          && Reads(tables[sel[0]], clens[sel[0]], MAX_CODELEN)
      && Spells(clens, data[n..]) && Selects(sel[1..], |clens|, |data[n..]|, size)
      && DataBits(clens, sel, size, data) + rest
         == WordBits(clens[sel[0]], data[..n]) + (DataBits(clens, sel[1..], size, data[n..]) + rest)
  {
    hide Spells, Selects, HasWords, WordBits, TableOf, Sound, KraftOk;
    SectorSplit(clens, sel, size, data);
    ReadsFrom(clens, tables, sel[0]);
  }

  lemma ReadsFrom(clens: seq<seq<nat>>, tables: seq<Table>, g: nat)
    requires Groups(clens) && TablesOf(tables, clens) && AllSound(tables) && g < |clens|
    ensures Reads(tables[g], clens[g], MAX_CODELEN)
  {
    assert Lengths(clens[g], ALPHABET_SIZE, MAX_CODELEN);
  }

  ghost predicate DataLeft(bits: seq<bool>, clens: seq<seq<nat>>, sel: seq<nat>, size: nat, data: seq<byte>,
      rest: seq<bool>) {
    Spells(clens, data) && Selects(sel, |clens|, |data|, size) && bits == DataBits(clens, sel, size, data) + rest
  }

  lemma NoDataLeft(bits: seq<bool>, clens: seq<seq<nat>>, sel: seq<nat>, size: nat, data: seq<byte>, rest: seq<bool>)
    requires DataLeft(bits, clens, sel, size, data, rest) && data == []
    ensures bits == rest
  {
    assert DataBits(clens, sel, size, data) == [];
  }

  /** The loop of xd3_decode_huff over the sectors.  A selector beyond the groups, which
      the program only asserts against, is refused. */
  method DecodeData(r: BitReader, tables: seq<Table>, sel: seq<nat>, size: nat, outputBytes: nat,
                    ghost known: bool, ghost clens: seq<seq<nat>>, ghost data: seq<byte>, ghost rest: seq<bool>)
    returns (ok: bool, output: array<byte>)
    requires r.Valid() && AllSound(tables) && size > 0
    requires known ==> |data| == outputBytes && Groups(clens) && TablesOf(tables, clens)
    requires known ==> DataLeft(r.Rest(), clens, sel, size, data, rest)
    requires |sel| == Sectors(outputBytes, size)
    modifies r
    ensures r.Valid() && fresh(output) && output.Length == outputBytes
    ensures known ==> ok && output[..] == data && r.Rest() == rest
  {
    hide Groups, TablesOf, AllSound, DataLeft, DataBits;
    output := new byte[outputBytes];
    ok := true;
    var at: nat, c: nat := 0, 0;
    assert data[0..] == data && sel[0..] == sel;
    while ok && c < |sel|
      invariant c <= |sel| && at <= outputBytes && r.Valid() && fresh(output) && output.Length == outputBytes
      invariant ok ==> |sel| - c == Sectors(outputBytes - at, size)
      invariant known ==>
        ok && DataLeft(r.Rest(), clens, sel[c..], size, data[at..], rest) && output[..at] == data[..at]
      decreases ok, |sel| - c
    {
      var n := SectorLength(outputBytes - at, size);
      SectorCount(outputBytes - at, size);
      ghost var before := output[..at];
      if sel[c] < |tables| {
        ok := SectorAt(r, tables, sel, c, size, n, output, at, known, clens, data, rest);
      } else {
        if known {
          SelectorOk(r.Rest(), clens, tables, sel, c, size, data[at..], rest);
        }
        ok := false;
      }
      if known {
        assert output[..at + n] == output[..at] + output[at..at + n];
        assert data[..at + n] == data[..at] + data[at..at + n];
      }
      at := at + n;
      c := c + 1;
    }
    if ok {
      SectorCount(outputBytes - at, size);
    }
    if known {
      NoDataLeft(r.Rest(), clens, sel[c..], size, data[at..], rest);
      assert output[..at] == output[..] && data[..at] == data;
    }
  }

  lemma SectorCount(len: nat, size: nat)
    requires size > 0
    ensures Sectors(len, size) == if len == 0 then 0 else 1 + Sectors(len - SectorLength(len, size), size)
  {
  }

  lemma SelectorOk(bits: seq<bool>, clens: seq<seq<nat>>, tables: seq<Table>, sel: seq<nat>, c: nat, size: nat,
                   data: seq<byte>, rest: seq<bool>)
    requires c < |sel| && DataLeft(bits, clens, sel[c..], size, data, rest) && TablesOf(tables, clens)
    ensures sel[c] < |tables|
  {
    assert sel[c..][0] == sel[c];
  }

  /** One sector in the code of its group. */
  method SectorAt(r: BitReader, tables: seq<Table>, sel: seq<nat>, c: nat, size: nat, n: nat, output: array<byte>,
      at: nat,
                  ghost known: bool, ghost clens: seq<seq<nat>>, ghost data: seq<byte>, ghost rest: seq<bool>)
    returns (ok: bool)
    requires r.Valid() && AllSound(tables) && size > 0 && c < |sel| && sel[c] < |tables|
    requires 0 < n && at + n <= output.Length && n == SectorLength(output.Length - at, size)
    requires known ==> |data| == output.Length && Groups(clens) && TablesOf(tables, clens)
    requires known ==> DataLeft(r.Rest(), clens, sel[c..], size, data[at..], rest)
    modifies r, output
    ensures r.Valid() && output[..at] == old(output[..at])
    ensures known ==> ok && output[at..at + n] == data[at..at + n]
    ensures known ==> DataLeft(r.Rest(), clens, sel[c + 1..], size, data[at + n..], rest)
  {
    hide Groups, TablesOf, DataBits, Spells, Selects, Reads, Sound, HasWords, WordBits;
    ghost var clen, part, more: seq<bool> := [], [], [];
    if known {
      NextSector(clens, tables, sel[c..], size, data[at..], rest);
      clen, part := clens[sel[c]], data[at..at + n];
      more := DataBits(clens, sel[c..][1..], size, data[at..][n..]) + rest;
      assert data[at..][..n] == part && sel[c..][1..] == sel[c + 1..] && data[at..][n..] == data[at + n..];
    }
    ok := DecodeSector(r, tables[sel[c]], n, output, at, known, clen, part, more);
  }

  // ------------------------------------------------------------- the whole

  /** The code lengths of every group, and their tables. */
  method DecodePrefix(r: BitReader, groups: nat, ghost known: bool, ghost l: Layout, ghost rest: seq<bool>)
    returns (ok: bool, tables: seq<Table>)
    requires r.Valid() && groups > 0
    requires known ==> WellFormed(l) && |l.clens| == groups && r.Rest() == PrefixBits(l) + rest
    modifies r
    ensures r.Valid() && (ok ==> |tables| == groups && AllSound(tables))
    ensures known ==> ok && TablesOf(tables, l.clens) && r.Rest() == rest
  {
    hide HeaderBits, RunBits, Groups, AllSound, TablesOf, Header, CodeOf, SameZeros, Kept, TableOf, Sound;
    hide Reads, PrefixBits, WellFormed, Flat, AtMost;
    tables := [];
    var t;
    ghost var v, cl: seq<nat>, num: nat := [], [], 0;
    ghost var more: seq<bool> := [];
    if known {
      v, cl, num := Flat(l.clens), l.clclen, l.num;
      PrefixParts(l, rest);
      more := RunBits(Kept(v, 0, ALPHABET_SIZE), CLEN_MTF, cl) + rest;
    }
    ok, t := DecodeHeader(r, known, cl, num, more);
    if ok {
      LengthTable();
      assert Usable(t, CLEN_MTF);
      if known {
        ReadsHeader(t, cl, num);
      }
      var clen;
      ok, clen := DecodeValues(r, t, CLEN_MTF, groups * ALPHABET_SIZE, ALPHABET_SIZE, MAX_CODELEN, known, cl,
          MAX_CLCLEN, v, rest);
      if ok {
        tables := BuildTables(clen, groups, known, if known then l.clens else []);
      }
    }
  }

  lemma PrefixParts(l: Layout, rest: seq<bool>)
    requires WellFormed(l)
    ensures Header(l.clclen, l.num) && Groups(l.clens)
    ensures var v := Flat(l.clens);
      && |v| == |l.clens| * ALPHABET_SIZE && SameZeros(v, ALPHABET_SIZE)
      && CodeOf(Kept(v, 0, ALPHABET_SIZE), CLEN_MTF, l.clclen)
      && PrefixBits(l) + rest == HeaderBits(l.clclen, l.num)
          + (RunBits(Kept(v, 0, ALPHABET_SIZE), CLEN_MTF, l.clclen) + rest)
  {
    hide HeaderBits, RunBits, Header, CodeOf, SameZeros, Kept, Spells, Selects, Sectors, Lengths, Flat;
    FlatSize(l.clens);
  }

  lemma FlatSize(clens: seq<seq<nat>>)
    requires Groups(clens)
    ensures |Flat(clens)| == |clens| * ALPHABET_SIZE
  {
    forall h | 0 <= h < |clens| ensures |clens[h]| == ALPHABET_SIZE {
      assert Lengths(clens[h], ALPHABET_SIZE, MAX_CODELEN);
    }
    FlatLength(clens, ALPHABET_SIZE);
  }

  lemma ReadsHeader(t: Table, cl: seq<nat>, num: nat)
    requires Header(cl, num) && TableOf(t, cl) && Sound(t)
    ensures Reads(t, cl, MAX_CLCLEN)
  {
  }

  lemma LengthTable()
    ensures |CLEN_MTF| == MAX_CODELEN + 1 && AtMost(CLEN_MTF, MAX_CODELEN)
  {
  }

  /** The group of each sector. */
  method DecodeSelectors(r: BitReader, groups: nat, sectors: nat, ghost known: bool, ghost l: Layout,
      ghost rest: seq<bool>)
    returns (ok: bool, sel: seq<nat>)
    requires r.Valid() && 1 < groups <= MAX_GROUPS
    requires known ==> WellFormed(l) && |l.clens| == groups && |l.sel| == sectors && r.Rest() == SelectorBits(l) + rest
    modifies r
    ensures r.Valid() && (ok ==> |sel| == sectors)
    ensures known ==> ok && sel == l.sel && r.Rest() == rest
  {
    hide RunBits, CodeOf, Spells, Selects, TableOf, Sound, Groups, Header, SameZeros, Kept, Reads, FieldBits,
        KraftOk, AtMost;
    sel := [];
    ghost var more := if known then RunBits(l.sel, Numbers(groups), l.selclen) + rest else [];
    if known {
      assert SelectorBits(l) + rest == FieldBits(l.selclen, GBCLEN_BITS) + more;
      SelectorFields(l);
    }
    SmallPowers();
    var selClen;
    ok, selClen := DecodeFields(r, groups + 1, GBCLEN_BITS, known, if known then l.selclen else [], more);
    if ok {
      GroupLengths(selClen[..]);
      var t := BuildDecoder(selClen[..], MAX_GBCLEN);
      TableIsSound(t, selClen[..]);
      TableSize(t, selClen[..]);
      NumbersBelow(groups);
      ghost var cl := if known then l.selclen else [];
      if known {
        SelectorReads(t, l);
        SelectorTable(l, rest);
      }
      var values;
      ok, values := DecodeValues(r, t, Numbers(groups + 1), sectors, 0, groups, known, cl, MAX_GBCLEN,
          if known then l.sel else [], rest);
      sel := values[..];
    }
  }

  lemma GroupLengths(clen: seq<nat>)
    requires forall i | 0 <= i < |clen| :: clen[i] < 8
    ensures AtMost(clen, MAX_GBCLEN)
  {
  }

  lemma NumbersBelow(groups: nat)
    ensures AtMost(Numbers(groups + 1), groups)
  {
  }

  lemma SelectorFields(l: Layout)
    requires WellFormed(l) && |l.clens| > 1
    ensures |l.selclen| == |l.clens| + 1 && forall i | 0 <= i < |l.selclen| :: l.selclen[i] < Pow2(GBCLEN_BITS)
  {
    SmallPowers();
  }

  lemma SelectorReads(t: Table, l: Layout)
    requires WellFormed(l) && |l.clens| > 1 && TableOf(t, l.selclen) && Sound(t)
    ensures Reads(t, l.selclen, MAX_GBCLEN)
  {
  }

  /** One more number at the end of the decoder's list makes no difference. */
  lemma {:induction false} EncodeExtend(k: seq<nat>, table: seq<nat>, x: nat, run: nat)
    requires |table| > 0 && Known(k, table)
    ensures Known(k, table + [x]) && Encode(k, table + [x], run) == Encode(k, table, run)
    decreases |k|
  {
    hide Digits, Encode, MoveFront, Known, Index;
    KnownExtend(k, table, x);
    if k == [] {
      EncodeEnd(k, table, run);
      EncodeEnd(k, table + [x], run);
    } else {
      EncodeFirst(k, table, run);
      EncodeFirst(k, table + [x], run);
      FrontExtend(k[0], table, x);
      var j := Index(table, k[0]);
      if j == 0 {
        EncodeExtend(k[1..], table, x, run + 1);
      } else {
        EncodeExtend(k[1..], MoveFront(table, j), x, 0);
      }
    }
  }

  lemma KnownExtend(k: seq<nat>, table: seq<nat>, x: nat)
    requires Known(k, table)
    ensures Known(k, table + [x])
  {
  }

  lemma FrontExtend(sym: nat, table: seq<nat>, x: nat)
    requires sym in table
    ensures var j := Index(table, sym);
      Index(table + [x], sym) == j && MoveFront(table + [x], j) == MoveFront(table, j) + [x]
  {
    var j := Index(table, sym);
    assert (table + [x])[..j] == table[..j];
    IndexIs(table + [x], sym, j);
  }

  lemma SelectorTable(l: Layout, rest: seq<bool>)
    requires WellFormed(l) && |l.clens| > 1
    ensures Kept(l.sel, 0, 0) == l.sel && SameZeros(l.sel, 0)
    ensures CodeOf(l.sel, Numbers(|l.clens| + 1), l.selclen)
    ensures RunBits(l.sel, Numbers(|l.clens| + 1), l.selclen) == RunBits(l.sel, Numbers(|l.clens|), l.selclen)
  {
    hide Encode, Known, HasWords, WordBits;
    var n := |l.clens|;
    KeptAll(l.sel, 0);
    assert Numbers(n + 1) == Numbers(n) + [n];
    EncodeExtend(l.sel, Numbers(n), n, 0);
  }

  lemma {:induction false} KeptAll(v: seq<nat>, n: nat)
    requires n <= |v|
    ensures Kept(v, n, 0) == v[n..]
    decreases |v| - n
  {
    if n < |v| {
      KeptAll(v, n + 1);
    }
  }

  /** xd3_decode_huff: the number of bytes is known from outside.  From the bits of any
      well-formed layout come its bytes, and no further bit is read. */
  method DecodeHuff(r: BitReader, outputBytes: nat, ghost known: bool, ghost l: Layout, ghost rest: seq<bool>)
    returns (ok: bool, output: array<byte>)
    requires r.Valid()
    requires known ==> WellFormed(l) && |l.data| == outputBytes && r.Rest() == LayoutBits(l) + rest
    modifies r
    ensures r.Valid() && (ok ==> 0 < outputBytes == output.Length)
    ensures known ==> ok && output[..] == l.data && r.Rest() == rest
  {
    hide WellFormed, AllSound, TablesOf, DataLeft, PrefixBits, SelectorBits, SizeBits, LayoutBits, BodyBits, Groups,
        ToBits;
    output := new byte[0];
    ok := outputBytes > 0;
    ghost var b3 := if known then BodyBits(l) + rest else [];
    ghost var b2 := if known then SelectorBits(l) + b3 else [];
    ghost var b1 := if known then PrefixBits(l) + b2 else [];
    ghost var b0 := if known then SizeBits(l) + b1 else [];
    if known {
      LayoutParts(l, rest);
    }
    SmallPowers();
    if ok {
      var groups: nat;
      ok, groups := DecodeField(r, GROUP_BITS, known, if known then |l.clens| - 1 else 0, b0);
      if ok {
        groups := groups + 1;
        var sectorSize: nat;
        ok, sectorSize := DecodeSize(r, groups, outputBytes, known, l, b1);
        if ok {
          var tables;
          ok, tables := DecodePrefix(r, groups, known, l, b2);
          if ok {
            ok, output := DecodeBody(r, groups, tables, sectorSize, outputBytes, known, l, rest);
          }
        }
      }
    }
  }

  /** The selectors and what they select. */
  method DecodeBody(r: BitReader, groups: nat, tables: seq<Table>, sectorSize: nat, outputBytes: nat,
                    ghost known: bool, ghost l: Layout, ghost rest: seq<bool>)
    returns (ok: bool, output: array<byte>)
    requires r.Valid() && 0 < groups <= MAX_GROUPS && AllSound(tables) && sectorSize > 0 && outputBytes > 0
    requires known ==> WellFormed(l) && |l.data| == outputBytes && |l.clens| == groups && TablesOf(tables, l.clens)
    requires known ==> sectorSize == l.sectorSize
    requires known ==> r.Rest() == SelectorBits(l) + (BodyBits(l) + rest)
    modifies r
    ensures r.Valid() && (ok ==> output.Length == outputBytes)
    ensures known ==> ok && output[..] == l.data && r.Rest() == rest
  {
    hide WellFormed, AllSound, TablesOf, DataLeft, SelectorBits, BodyBits, Groups, Sectors;
    ghost var b3 := if known then BodyBits(l) + rest else [];
    ok, output := true, new byte[0];
    var sel: seq<nat> := [0];
    var sectors := 1 + (outputBytes - 1) / sectorSize;
    SectorFormula(outputBytes, sectorSize);
    if known {
      LayoutSectors(l, b3);
    }
    if groups > 1 {
      ok, sel := DecodeSelectors(r, groups, sectors, known, l, b3);
    } else {
      sel := Repeat(0, sectors);
    }
    if ok {
      if known {
        LayoutData(l, r.Rest(), rest);
        assert sel == l.sel;
      }
      ok, output := DecodeData(r, tables, sel, sectorSize, outputBytes, known,
                               if known then l.clens else [], if known then l.data else [], rest);
    }
  }

  lemma LayoutSectors(l: Layout, b3: seq<bool>)
    requires WellFormed(l)
    ensures |l.sel| == Sectors(|l.data|, l.sectorSize) && Groups(l.clens)
    ensures |l.clens| == 1 ==> SelectorBits(l) + b3 == b3 && l.sel == Repeat(0, |l.sel|)
  {
    hide Groups, Header, CodeOf, SameZeros, Kept, Spells, Sectors, Lengths;
  }

  lemma LayoutData(l: Layout, bits: seq<bool>, rest: seq<bool>)
    requires WellFormed(l) && bits == BodyBits(l) + rest
    ensures DataLeft(bits, l.clens, l.sel, l.sectorSize, l.data, rest)
  {
  }

  lemma LayoutParts(l: Layout, rest: seq<bool>)
    requires WellFormed(l)
    ensures 0 < |l.clens| <= MAX_GROUPS && l.sectorSize > 0 && l.data != []
    ensures var b3 := BodyBits(l) + rest;
      LayoutBits(l) + rest == ToBits(|l.clens| - 1, GROUP_BITS)
          + (SizeBits(l) + (PrefixBits(l) + (SelectorBits(l) + b3)))
  {
    hide BodyBits, SizeBits, PrefixBits, SelectorBits, Header, CodeOf, SameZeros, Kept, Spells, Sectors, Lengths,
        ToBits;
    FourParts(ToBits(|l.clens| - 1, GROUP_BITS), SizeBits(l), PrefixBits(l), SelectorBits(l), BodyBits(l), rest);
  }

  lemma FourParts(a: seq<bool>, b: seq<bool>, c: seq<bool>, d: seq<bool>, e: seq<bool>, f: seq<bool>)
    ensures (a + (b + (c + (d + e)))) + f == a + (b + (c + (d + (e + f))))
  {
    assert (d + e) + f == d + (e + f);
    assert (c + (d + e)) + f == c + (d + (e + f));
    assert (b + (c + (d + e))) + f == b + (c + (d + (e + f)));
  }

  /** The size of a sector, sent where there is more than one group. */
  method DecodeSize(r: BitReader, groups: nat, outputBytes: nat, ghost known: bool, ghost l: Layout,
      ghost rest: seq<bool>)
    returns (ok: bool, sectorSize: nat)
    requires r.Valid() && outputBytes > 0
    requires known ==> WellFormed(l) && |l.data| == outputBytes && |l.clens| == groups && r.Rest() == SizeBits(l) + rest
    modifies r
    ensures r.Valid() && sectorSize > 0
    ensures known ==> ok && sectorSize == l.sectorSize && r.Rest() == rest
  {
    hide WellFormed, ToBits;
    ok, sectorSize := true, outputBytes;
    if known {
      SizeOf(l, rest);
    }
    if groups > 1 {
      ok, sectorSize := DecodeField(r, SECTORSZ_BITS, known, if known then l.sectorSize / SECTORSZ_MULT - 1 else 0,
          rest);
      sectorSize := (sectorSize + 1) * SECTORSZ_MULT;
    }
  }

  lemma SizeOf(l: Layout, rest: seq<bool>)
    requires WellFormed(l)
    ensures |l.clens| > 1 ==>
      var v := l.sectorSize / SECTORSZ_MULT - 1;
      0 <= v < Pow2(SECTORSZ_BITS) && (v + 1) * SECTORSZ_MULT == l.sectorSize && SizeBits(l) == ToBits(v, SECTORSZ_BITS)
    ensures |l.clens| <= 1 ==> l.sectorSize == |l.data| && SizeBits(l) + rest == rest
  {
    hide Header, CodeOf, SameZeros, Kept, Spells, Sectors, Lengths, ToBits;
    SmallPowers();
  }
}
