/**
  xdelta.c: which matches are made.  The table of xdp_generate_delta_int, the longest match of
  try_match, and the search of compute_copies as a function of the target and the sources.
 */
module Search {
  import opened Bytes
  import opened Pages
  import opened Control
  import opened Matching
  import opened Rolling

  /** What a delta is made from: the target, the files (the patch data first) with the checksums
      of their blocks, and how these are hashed. */
  datatype Setting = Setting(input: Paged, files: seq<seq<byte>>, sums: seq<seq<Checksum>>, hash: Checksum -> nat,
                             prime: nat, chew: Chew)

  // --------------------------------------------------------------- the table

  function Entry(k: nat, j: nat): nat { j * QUERY_SIZE_POW + 1 + k }

  function EntrySource(entry: nat): int { entry % QUERY_SIZE_POW - 1 }

  function EntryBlock(entry: nat): nat { entry / QUERY_SIZE_POW }

  lemma EntryParts(k: nat, j: nat)
    requires k <= QUERY_SIZE_POW - 2
    ensures EntrySource(Entry(k, j)) == k && EntryBlock(Entry(k, j)) == j
  {
  }

  predicate IsBlock(s: Setting, k: int, j: int) {
    0 <= k < |s.sums| && 0 <= j < |s.sums[k]|
  }

  function Slot(s: Setting, k: int, j: int): (x: nat)
    requires s.prime > 0 && IsBlock(s, k, j)
    ensures x < s.prime
  {
    s.hash(s.sums[k][j]) % s.prime
  }

  /** Blocks are entered source by source, each source from its end. */
  predicate Before(k: int, j: int, k': int, j': int) {
    k < k' || (k == k' && j >= j')
  }

  /** A slot names a block that belongs there. */
  predicate Belongs(s: Setting, table: seq<nat>, x: nat)
    requires s.prime > 0 && x < |table|
  {
    var k, j := EntrySource(table[x]), EntryBlock(table[x]);
    IsBlock(s, k, j) && Slot(s, k, j) == x
  }

  /** The block a checksum is looked up for is there, or a block of the same slot entered later. */
  predicate Present(s: Setting, table: seq<nat>, k: nat, j: nat)
    requires |table| == s.prime > 0 && IsBlock(s, k, j)
  {
    var e := table[Slot(s, k, j)];
    e != 0 && Before(k, j, EntrySource(e), EntryBlock(e))
  }

  /** The table with the blocks up to one entered. */
  ghost predicate FilledTo(s: Setting, table: seq<nat>, k: int, j: int) {
    && |table| == s.prime > 0
    && (forall x: nat | x < |table| && table[x] != 0 ::
          Belongs(s, table, x) && Before(EntrySource(table[x]), EntryBlock(table[x]), k, j))
    && (forall k': nat, j': nat | IsBlock(s, k', j') && Before(k', j', k, j) :: Present(s, table, k', j'))
  }

  /** A slot is empty if no block belongs there, and otherwise names the one entered last:
      of the last source with such a block, the first. */
  ghost predicate Filled(s: Setting, table: seq<nat>) {
    && |table| == s.prime > 0
    && (forall x: nat | x < |table| && table[x] != 0 :: Belongs(s, table, x))
    && (forall k: nat, j: nat | IsBlock(s, k, j) :: Present(s, table, k, j))
  }

  lemma EntersNext(s: Setting, t: seq<nat>, k: nat, j: nat)
    requires FilledTo(s, t, k, j + 1) && IsBlock(s, k, j) && k <= QUERY_SIZE_POW - 2
    ensures FilledTo(s, t[Slot(s, k, j) := Entry(k, j)], k, j)
  {
    EntryParts(k, j);
    var t' := t[Slot(s, k, j) := Entry(k, j)];
    forall x: nat | x < |t'| && t'[x] != 0
      ensures Belongs(s, t', x) && Before(EntrySource(t'[x]), EntryBlock(t'[x]), k, j)
    {
      if x != Slot(s, k, j) {
        assert Belongs(s, t, x);
      }
    }
    forall k': nat, j': nat | IsBlock(s, k', j') && Before(k', j', k, j)
      ensures Present(s, t', k', j')
    {
      if !(k' == k && j' == j) {
        assert Present(s, t, k', j');
      }
    }
  }

  /** No block is entered yet. */
  lemma NothingFilled(s: Setting, table: seq<nat>)
    requires |table| == s.prime > 0 && forall x | 0 <= x < |table| :: table[x] == 0
    ensures FilledTo(s, table, -1, 0)
  {
  }

  lemma NextSource(s: Setting, table: seq<nat>, k: nat)
    requires FilledTo(s, table, k - 1, 0) && k < |s.sums|
    ensures FilledTo(s, table, k, |s.sums[k]|)
  {
    hide Belongs, Present;
  }

  lemma AllFilled(s: Setting, table: seq<nat>)
    requires FilledTo(s, table, |s.sums| - 1, 0)
    ensures Filled(s, table)
  {
    hide Belongs, Present;
  }

  // ----------------------------------------------------------- the longest match

  /** How far two files agree from two places on. */
  function Ahead(x: seq<byte>, i: nat, y: seq<byte>, j: nat): (n: nat)
    requires i <= |x| && j <= |y|
    ensures i + n <= |x| && j + n <= |y|
    decreases |x| - i
  {
    if i < |x| && j < |y| && x[i] == y[j] then 1 + Ahead(x, i + 1, y, j + 1) else 0
  }

  /** How far they agree before two places, at most `limit` bytes. */
  function Behind(x: seq<byte>, i: nat, y: seq<byte>, j: nat, limit: nat): (n: nat)
    requires limit <= i <= |x| && limit <= j <= |y|
    ensures n <= limit
  {
    if limit > 0 && x[i - 1] == y[j - 1] then 1 + Behind(x, i - 1, y, j - 1, limit - 1) else 0
  }

  /** One byte of an agreement, and what is left without it. */
  lemma AgreeForward(x: seq<byte>, i: nat, y: seq<byte>, j: nat, n: nat, p: nat)
    requires AgreeAfter(x, i, y, j, n) && p < n
    ensures x[i + p] == y[j + p] && AgreeAfter(x, i + 1, y, j + 1, n - 1)
  {
    var a, b := x[i..i + n], y[j..j + n];
    assert a[p] == x[i + p] && b[p] == y[j + p];
    assert x[i + 1..i + n] == a[1..] && y[j + 1..j + n] == b[1..];
  }

  lemma AgreeBackward(x: seq<byte>, i: nat, y: seq<byte>, j: nat, n: nat, p: nat)
    requires AgreeBefore(x, i, y, j, n) && p < n
    ensures x[i - 1 - p] == y[j - 1 - p] && AgreeBefore(x, i - 1, y, j - 1, n - 1)
  {
    SliceBackward(x, i, n, p);
    SliceBackward(y, j, n, p);
  }

  lemma SliceBackward(x: seq<byte>, i: nat, n: nat, p: nat)
    requires p < n <= i <= |x|
    ensures x[i - n..i][n - 1 - p] == x[i - 1 - p] && x[i - 1 - (n - 1)..i - 1] == x[i - n..i][..n - 1]
  {
  }

  /** Files that agree for `n` bytes and not for one more. */
  lemma {:induction false} AheadIs(x: seq<byte>, i: nat, y: seq<byte>, j: nat, n: nat)
    requires AgreeAfter(x, i, y, j, n)
    requires i + n == |x| || j + n == |y| || x[i + n] != y[j + n]
    ensures Ahead(x, i, y, j) == n
    decreases n
  {
    if n > 0 {
      AgreeForward(x, i, y, j, n, 0);
      AheadIs(x, i + 1, y, j + 1, n - 1);
    }
  }

  lemma {:induction false} BehindIs(x: seq<byte>, i: nat, y: seq<byte>, j: nat, limit: nat, n: nat)
    requires limit <= i && limit <= j && n <= limit && AgreeBefore(x, i, y, j, n)
    requires n < limit ==> DifferBefore(x, i, y, j, n)
    ensures Behind(x, i, y, j, limit) == n
    decreases n
  {
    if n > 0 {
      AgreeBackward(x, i, y, j, n, 0);
      BehindIs(x, i - 1, y, j - 1, limit - 1, n - 1);
    }
  }

  lemma {:induction false} AheadAgrees(x: seq<byte>, i: nat, y: seq<byte>, j: nat)
    requires i <= |x| && j <= |y|
    ensures var n := Ahead(x, i, y, j);
      AgreeAfter(x, i, y, j, n) && (i + n == |x| || j + n == |y| || x[i + n] != y[j + n])
    decreases |x| - i
  {
    var n := Ahead(x, i, y, j);
    if n > 0 {
      AheadAgrees(x, i + 1, y, j + 1);
      assert x[i..i + n] == [x[i]] + x[i + 1..i + n] && y[j..j + n] == [y[j]] + y[j + 1..j + n];
    }
  }

  lemma {:induction false} BehindAgrees(x: seq<byte>, i: nat, y: seq<byte>, j: nat, limit: nat)
    requires limit <= i <= |x| && limit <= j <= |y|
    ensures var n := Behind(x, i, y, j, limit);
      AgreeBefore(x, i, y, j, n) && (n < limit ==> DifferBefore(x, i, y, j, n))
    decreases limit
  {
    var n := Behind(x, i, y, j, limit);
    if n > 0 {
      BehindAgrees(x, i - 1, y, j - 1, limit - 1);
      LastByte(x, i, n);
      LastByte(y, j, n);
    }
  }

  lemma AgreeWithin(x: seq<byte>, i: nat, y: seq<byte>, j: nat, n: nat)
    requires AgreeAfter(x, i, y, j, n)
    ensures i + n <= |x| && j + n <= |y|
  {
  }

  lemma LastByte(x: seq<byte>, i: nat, n: nat)
    requires 0 < n <= i <= |x|
    ensures x[i - n..i] == x[i - 1 - (n - 1)..i - 1] + [x[i - 1]]
  {
  }

  /** No agreement is longer. */
  lemma AheadMost(x: seq<byte>, i: nat, y: seq<byte>, j: nat, n: nat)
    requires AgreeAfter(x, i, y, j, n)
    ensures n <= Ahead(x, i, y, j)
  {
    hide AgreeAfter;
    AgreeWithin(x, i, y, j, n);
    AheadAgrees(x, i, y, j);
    if n > Ahead(x, i, y, j) {
      AgreeForward(x, i, y, j, n, Ahead(x, i, y, j));
    }
  }

  lemma BehindMost(x: seq<byte>, i: nat, y: seq<byte>, j: nat, limit: nat, n: nat)
    requires limit <= i && limit <= j && n <= limit && AgreeBefore(x, i, y, j, n)
    ensures n <= Behind(x, i, y, j, limit)
  {
    hide AgreeBefore;
    AgreeInside(x, i, y, j, n);
    BehindAgrees(x, i, y, j, limit);
    if n > Behind(x, i, y, j, limit) {
      AgreeBackward(x, i, y, j, n, Behind(x, i, y, j, limit));
    }
  }

  // --------------------------------------------------------------- the search

  /** A slot that is not empty names a checksum of a file other than the patch data. */
  predicate EntryOk(s: Setting, entry: nat) {
    var k, j := EntrySource(entry), EntryBlock(entry);
    0 < k < |s.files| && IsBlock(s, k, j) && j * QUERY_SIZE_POW <= |s.files[k]|
  }

  predicate Usable(s: Setting, table: seq<nat>) {
    && |table| == s.prime > 0 && |s.files| > 0
    && forall x | 0 <= x < |table| && table[x] != 0 :: EntryOk(s, table[x])
  }

  /** The files have no more checksums than whole windows, and the patch data has none. */
  predicate Fits(s: Setting) {
    && |s.files| == |s.sums| > 0 && s.sums[0] == []
    && forall k | 0 <= k < |s.files| :: |s.sums[k]| * QUERY_SIZE_POW <= |s.files[k]|
  }

  lemma FilledIsUsable(s: Setting, table: seq<nat>)
    requires Filled(s, table) && Fits(s)
    ensures Usable(s, table)
  {
    forall x | 0 <= x < |table| && table[x] != 0
      ensures EntryOk(s, table[x])
    {
      assert Belongs(s, table, x);
    }
  }

  /** A window does not reach another page. */
  predicate OnOnePage(s: Setting, at: nat) {
    at + QUERY_SIZE_POW <= |s.input.data| && at % s.input.pageSize + QUERY_SIZE_POW <= s.input.pageSize
  }

  function Sum(s: Setting, at: nat): Checksum
    requires at + QUERY_SIZE_POW <= |s.input.data|
  {
    Rolling.Of(s.input.data[at..at + QUERY_SIZE_POW], s.chew)
  }

  /** What the table says of a window. */
  function LookUp(s: Setting, table: seq<nat>, at: nat): nat
    requires |table| == s.prime > 0 && at + QUERY_SIZE_POW <= |s.input.data|
  {
    table[s.hash(Sum(s, at)) % s.prime]
  }

  /** A place of the target and one of a source, with as much before and after them as agrees. */
  datatype Match = Match(index: nat, offset: nat, back: nat, forward: nat)

  function Meet(f: Paged, file: seq<byte>, outPos: nat, at: nat, k: nat, from: nat): (t: Match)
    requires outPos <= at <= |f.data| && from <= |file|
    ensures t.back <= from && t.back <= at - outPos && t.index == k && t.offset == from
    ensures at + t.forward <= |f.data| && from + t.forward <= |file|
  {
    Match(k, from, Behind(f.data, at, file, from, Limit(f, outPos, at, from)), Ahead(f.data, at, file, from))
  }

  /** Matching goes back to the bytes not yet described, on the page of the window only. */
  function Limit(f: Paged, outPos: nat, at: nat, from: nat): (n: nat)
    requires outPos <= at
    ensures n <= from && n <= at - outPos
  {
    Min(Min(from, at - outPos), at % f.pageSize)
  }

  predicate Long(t: Match) { t.back + t.forward >= QUERY_SIZE_POW }

  /** A block, tried on a window. */
  function TryBlock(s: Setting, outPos: nat, at: nat, k: nat, j: nat): (r: Option<Match>)
    requires outPos <= at && at + QUERY_SIZE_POW <= |s.input.data|
    requires k < |s.files| && IsBlock(s, k, j) && j * QUERY_SIZE_POW <= |s.files[k]|
    ensures r.Some? ==> r.value == Meet(s.input, s.files[k], outPos, at, k, j * QUERY_SIZE_POW) && Long(r.value)
  {
    if s.sums[k][j] != Sum(s, at) then None else
      var t := Meet(s.input, s.files[k], outPos, at, k, j * QUERY_SIZE_POW);
      if Long(t) then Some(t) else None
  }

  /** What the table gives for a window. */
  function TryAt(s: Setting, table: seq<nat>, outPos: nat, at: nat): (r: Option<Match>)
    requires Usable(s, table) && outPos <= at && at + QUERY_SIZE_POW <= |s.input.data|
    ensures r.Some? ==> r.value.index < |s.files| && r.value.back <= r.value.offset && outPos + r.value.back <= at
    ensures r.Some? ==> at + r.value.forward <= |s.input.data| && Long(r.value)
  {
    var e := LookUp(s, table, at);
    if e == 0 then None else TryBlock(s, outPos, at, EntrySource(e), EntryBlock(e))
  }

  /** A match is taken: what lies before it is inserted. */
  function Took(f: Paged, m: Made, at: nat, t: Match): (r: Made)
    requires t.index < |m.tracks| && t.back <= t.offset && m.outPos + t.back <= at && at + t.forward <= |f.data|
    ensures |r.tracks| == |m.tracks| && r.outPos == at + t.forward
  {
    Make(Inserted(m, f.data[m.outPos..at - t.back]), t.index, t.offset - t.back, t.offset + t.forward)
  }

  /** Where the page of a place ends. */
  function PageEndOf(f: Paged, n: nat): (e: nat)
    requires n < |f.data|
    ensures n < e <= |f.data|
  {
    Min(n - n % f.pageSize + f.pageSize, |f.data|)
  }

  /** The rest of the target, page by page. */
  function Rest(f: Paged, m: Made): (r: Made)
    requires |m.tracks| > 0 && m.outPos <= |f.data|
    decreases |f.data| - m.outPos
  {
    if m.outPos == |f.data| then m else Rest(f, Inserted(m, f.data[m.outPos..PageEndOf(f, m.outPos)]))
  }

  /** compute_copies, from a window on: the first match is taken, and the search goes on after
      it.  What is left of a page is inserted when the next one is begun. */
  function Searched(s: Setting, table: seq<nat>, m: Made, at: nat): (r: Made)
    requires Usable(s, table) && |m.tracks| == |s.files| && m.outPos <= at <= |s.input.data|
    decreases |s.input.data| - at, at - m.outPos
  {
    if at + QUERY_SIZE_POW > |s.input.data| then Rest(s.input, m)
    else if at % s.input.pageSize == 0 && m.outPos < at then
      Searched(s, table, Inserted(m, s.input.data[m.outPos..at]), at)
    else if OnOnePage(s, at) && TryAt(s, table, m.outPos, at).Some? then
      var t := TryAt(s, table, m.outPos, at).value;
      Searched(s, table, Took(s.input, m, at, t), at + t.forward)
    else Searched(s, table, m, at + 1)
  }

  // ------------------------------------------------------- the way of a search

  predicate Ready(s: Setting, table: seq<nat>, m: Made, at: nat) {
    Usable(s, table) && |m.tracks| == |s.files| && m.outPos <= at <= |s.input.data|
  }

  /** The search comes from one place to another. */
  predicate Leads(s: Setting, table: seq<nat>, m0: Made, at0: nat, m: Made, at: nat) {
    && Ready(s, table, m0, at0) && Ready(s, table, m, at)
    && Searched(s, table, m0, at0) == Searched(s, table, m, at)
  }

  /** The search ends, and the rest is inserted. */
  predicate Ends(s: Setting, table: seq<nat>, m0: Made, at0: nat, m: Made) {
    && Ready(s, table, m0, at0) && |m.tracks| > 0 && m.outPos <= |s.input.data|
    && Searched(s, table, m0, at0) == Rest(s.input, m)
  }

  lemma LeadsSame(s: Setting, table: seq<nat>, m: Made, at: nat)
    requires Ready(s, table, m, at)
    ensures Leads(s, table, m, at, m, at)
  {
  }

  lemma LeadsOn(s: Setting, table: seq<nat>, m0: Made, at0: nat, m1: Made, at1: nat, m2: Made, at2: nat)
    requires Leads(s, table, m0, at0, m1, at1) && Leads(s, table, m1, at1, m2, at2)
    ensures Leads(s, table, m0, at0, m2, at2)
  {
    hide Searched;
  }

  lemma LeadsPlace(s: Setting, table: seq<nat>, m0: Made, at0: nat, m: Made, at: nat)
    requires Leads(s, table, m0, at0, m, at)
    ensures Ready(s, table, m, at)
  {
  }

  lemma EndsAfter(s: Setting, table: seq<nat>, m0: Made, at0: nat, m1: Made, at1: nat, m: Made)
    requires Leads(s, table, m0, at0, m1, at1) && Ends(s, table, m1, at1, m)
    ensures Ends(s, table, m0, at0, m)
  {
    hide Searched, Rest;
  }

  lemma EndsShort(s: Setting, table: seq<nat>, m0: Made, at0: nat, m: Made, at: nat)
    requires Leads(s, table, m0, at0, m, at) && at + QUERY_SIZE_POW > |s.input.data|
    ensures Ends(s, table, m0, at0, m)
  {
    hide Rest;
  }

  lemma EndsThere(s: Setting, table: seq<nat>, m0: Made, at0: nat, m: Made)
    requires Ends(s, table, m0, at0, m)
    ensures Ready(s, table, m0, at0) && |m.tracks| > 0 && m.outPos <= |s.input.data|
    ensures Searched(s, table, m0, at0) == Rest(s.input, m)
  {
  }

  /** One window is searched. */
  lemma StepSearch(s: Setting, table: seq<nat>, m: Made, at: nat)
    requires Ready(s, table, m, at) && OnOnePage(s, at) && (at % s.input.pageSize == 0 ==> m.outPos == at)
    ensures var t := TryAt(s, table, m.outPos, at);
      if t.None? then Leads(s, table, m, at, m, at + 1)
      else Leads(s, table, m, at, Took(s.input, m, at, t.value), at + t.value.forward)
  {
    hide TryAt, Took;
  }

  /** Places too near the end of a page for a window. */
  lemma {:induction false} SkipToPage(s: Setting, table: seq<nat>, m: Made, pg: nat, at: nat)
    requires Ready(s, table, m, at) && Start(s.input, pg) <= m.outPos < Start(s.input, pg + 1) <= |s.input.data|
    requires at <= Start(s.input, pg + 1) < at + QUERY_SIZE_POW
    ensures var next := Start(s.input, pg + 1);
      Leads(s, table, m, at, Inserted(m, s.input.data[m.outPos..next]), next)
    decreases Start(s.input, pg + 1) - at
  {
    hide Start, TryAt, Took, Usable, Inserted, Rest, Leads, Searched, Ready, OnOnePage;
    ReadyPlace(s, table, m, at);
    if at == Start(s.input, pg + 1) {
      PageBegins(s, table, m, pg);
    } else {
      var next := Start(s.input, pg + 1);
      var i := Inserted(m, s.input.data[m.outPos..next]);
      StartNext(s.input, pg);
      PlaceUnique(s.input, pg, at - Start(s.input, pg));
      StepSkip(s, table, m, at);
      SkipToPage(s, table, m, pg, at + 1);
      LeadsOn(s, table, m, at, m, at + 1, i, next);
    }
  }

  lemma ReadyPlace(s: Setting, table: seq<nat>, m: Made, at: nat)
    requires Ready(s, table, m, at)
    ensures m.outPos <= at <= |s.input.data| && |m.tracks| > 0
    ensures at < |s.input.data| ==> Ready(s, table, m, at + 1)
  {
  }

  /** No window fits here. */
  lemma StepSkip(s: Setting, table: seq<nat>, m: Made, at: nat)
    requires Ready(s, table, m, at) && at < |s.input.data|
    requires at % s.input.pageSize == 0 ==> m.outPos == at
    requires at % s.input.pageSize + QUERY_SIZE_POW > s.input.pageSize
    ensures Leads(s, table, m, at, m, at + 1)
  {
    hide Took, TryAt, Rest;
    if at + QUERY_SIZE_POW > |s.input.data| {
      ShortBefore(s, table, m, at, at + 1);
    }
  }

  /** At the end of a page, what is left of it is inserted. */
  lemma PageBegins(s: Setting, table: seq<nat>, m: Made, pg: nat)
    requires Start(s.input, pg) <= m.outPos < Start(s.input, pg + 1) <= |s.input.data|
    requires Ready(s, table, m, Start(s.input, pg + 1))
    ensures var next := Start(s.input, pg + 1);
      |m.tracks| > 0 && Leads(s, table, m, next, Inserted(m, s.input.data[m.outPos..next]), next)
  {
    hide Start, TryAt, Took, Inserted, PageEndOf, Rest;
    var next := Start(s.input, pg + 1);
    InsertedPlace(m, s.input.data[m.outPos..next]);
    PlaceUnique(s.input, pg + 1, 0);
    EndOfPage(s.input, pg, m.outPos);
    RestNext(s.input, m);
  }

  lemma ShortBefore(s: Setting, table: seq<nat>, m: Made, at: nat, at': nat)
    requires Ready(s, table, m, at) && Ready(s, table, m, at') && |s.input.data| < at + QUERY_SIZE_POW && at <= at'
    ensures Searched(s, table, m, at) == Searched(s, table, m, at')
  {
    hide Rest;
  }

  lemma EndOfPage(f: Paged, pg: nat, n: nat)
    requires Start(f, pg) <= n < Start(f, pg + 1) <= |f.data|
    ensures PageEndOf(f, n) == Start(f, pg + 1)
  {
    hide Start;
    StartNext(f, pg);
    PlaceUnique(f, pg, n - Start(f, pg));
  }

  lemma RestNext(f: Paged, m: Made)
    requires |m.tracks| > 0 && m.outPos < |f.data|
    ensures Rest(f, m) == Rest(f, Inserted(m, f.data[m.outPos..PageEndOf(f, m.outPos)]))
  {
  }

  lemma RestDone(f: Paged, m: Made)
    requires |m.tracks| > 0 && m.outPos == |f.data|
    ensures Rest(f, m) == m
  {
  }

  // -------------------------------------------------------- what it promises

  /** The sources the bytes of the target are taken from. */
  function TakenFrom(insts: seq<Inst>): seq<nat> {
    if insts == [] then [] else
      var n := |insts| - 1;
      TakenFrom(insts[..n]) + Repeat(insts[n].index, insts[n].length)
  }

  lemma TakenFromCopied(insts: seq<Inst>, k: nat, from: nat, to: nat)
    requires from <= to
    ensures TakenFrom(Copied(insts, k, from, to)) == TakenFrom(insts) + Repeat(k, to - from)
  {
    var r, n := Copied(insts, k, from, to), |insts| - 1;
    if Continues(insts, k, from) {
      assert r[..n] == insts[..n];
      assert Repeat(k, insts[n].length) + Repeat(k, to - from) == Repeat(k, r[n].length);
    } else {
      assert r[..|insts|] == insts;
    }
  }

  /** As many bytes as are described. */
  predicate Counted(m: Made) { |TakenFrom(m.insts)| == m.outPos }

  predicate Extends(m: Made, r: Made) {
    TakenFrom(m.insts) <= TakenFrom(r.insts)
  }

  lemma ExtendsOn(a: Made, b: Made, c: Made)
    requires Extends(a, b) && Extends(b, c)
    ensures Extends(a, c)
  {
    hide TakenFrom;
  }

  lemma MakeCounted(m: Made, k: nat, from: nat, to: nat)
    requires Counted(m) && from <= to && k < |m.tracks|
    ensures Counted(Make(m, k, from, to)) && Extends(m, Make(m, k, from, to))
    ensures forall w | m.outPos <= w < m.outPos + (to - from) :: TakenFrom(Make(m, k, from, to).insts)[w] == k
  {
    hide TakenFrom, Copied;
    TakenFromCopied(m.insts, k, from, to);
  }

  lemma InsertedCounted(m: Made, bytes: seq<byte>)
    requires Counted(m) && 0 < |m.tracks|
    ensures Counted(Inserted(m, bytes)) && Extends(m, Inserted(m, bytes))
  {
    hide TakenFrom, Copied;
    if bytes != [] {
      MakeCounted(m, 0, |m.dataOut|, |m.dataOut| + |bytes|);
    }
  }

  lemma TookCounted(f: Paged, m: Made, at: nat, t: Match)
    requires Counted(m) && t.index < |m.tracks| && t.back <= t.offset && m.outPos + t.back <= at
    requires at + t.forward <= |f.data|
    ensures var r := Took(f, m, at, t);
      Counted(r) && Extends(m, r) && forall w | at - t.back <= w < at + t.forward :: TakenFrom(r.insts)[w] == t.index
  {
    hide TakenFrom, Make, Inserted, Extends;
    var bytes := f.data[m.outPos..at - t.back];
    InsertedCounted(m, bytes);
    var i := Inserted(m, bytes);
    assert i.outPos == at - t.back && |i.tracks| == |m.tracks| by { InsertedPlace(m, bytes); }
    MakeCounted(i, t.index, t.offset - t.back, t.offset + t.forward);
    ExtendsOn(m, i, Took(f, m, at, t));
  }

  lemma InsertedPlace(m: Made, bytes: seq<byte>)
    requires 0 < |m.tracks|
    ensures Inserted(m, bytes).outPos == m.outPos + |bytes| && |Inserted(m, bytes).tracks| == |m.tracks|
  {
  }

  lemma {:induction false} RestExtends(f: Paged, m: Made)
    requires Counted(m) && |m.tracks| > 0 && m.outPos <= |f.data|
    ensures Extends(m, Rest(f, m)) && Counted(Rest(f, m)) && Rest(f, m).outPos == |f.data|
    decreases |f.data| - m.outPos
  {
    hide TakenFrom, Inserted, PageEndOf;
    if m.outPos < |f.data| {
      var bytes := f.data[m.outPos..PageEndOf(f, m.outPos)];
      var i := Inserted(m, bytes);
      InsertedPlace(m, bytes);
      InsertedCounted(m, bytes);
      RestExtends(f, i);
      ExtendsOn(m, i, Rest(f, i));
    }
  }

  /** A window that is a block of a source, which the table names. */
  predicate Certain(s: Setting, table: seq<nat>, w: nat) {
    && Usable(s, table) && OnOnePage(s, w) && var e := LookUp(s, table, w);
    && e != 0 && s.sums[EntrySource(e)][EntryBlock(e)] == Sum(s, w)
    && AgreeAfter(s.input.data, w, s.files[EntrySource(e)], EntryBlock(e) * QUERY_SIZE_POW, QUERY_SIZE_POW)
  }

  lemma CertainFound(s: Setting, table: seq<nat>, outPos: nat, w: nat)
    requires Certain(s, table, w) && outPos <= w
    ensures OnOnePage(s, w) && TryAt(s, table, outPos, w).Some?
  {
    hide AgreeAfter, Rolling.Of;
    var e := LookUp(s, table, w);
    AheadMost(s.input.data, w, s.files[EntrySource(e)], EntryBlock(e) * QUERY_SIZE_POW, QUERY_SIZE_POW);
  }

  /** The match taken agrees with the target, and is no longer on either side only for the
      reasons the source gives. */
  lemma FoundIsLongest(s: Setting, table: seq<nat>, outPos: nat, at: nat)
    requires Usable(s, table) && outPos <= at && OnOnePage(s, at) && TryAt(s, table, outPos, at).Some?
    ensures var t := TryAt(s, table, outPos, at).value;
      && 0 < t.index < |s.files| && var x, y := s.input.data, s.files[t.index];
      && AgreeBefore(x, at, y, t.offset, t.back) && AgreeAfter(x, at, y, t.offset, t.forward)
      && t.back + t.forward >= QUERY_SIZE_POW
      && (t.back == t.offset || t.back == at - outPos || t.back == at % s.input.pageSize
          || DifferBefore(x, at, y, t.offset, t.back))
      && (at + t.forward == |x| || t.offset + t.forward == |y| || x[at + t.forward] != y[t.offset + t.forward])
  {
    hide AgreeBefore, AgreeAfter, DifferBefore, Rolling.Of;
    var t := TryAt(s, table, outPos, at).value;
    AheadAgrees(s.input.data, at, s.files[t.index], t.offset);
    BehindAgrees(s.input.data, at, s.files[t.index], t.offset, Limit(s.input, outPos, at, t.offset));
  }

  /** What two files agree on around a place of each. */
  predicate Agreement(x: seq<byte>, i: nat, y: seq<byte>, j: nat, back: nat, forward: nat) {
    AgreeBefore(x, i, y, j, back) && AgreeAfter(x, i, y, j, forward)
  }

  /** Nothing is found exactly where the slot is empty, the checksum named there is another,
      or every agreement around the window is too short. */
  lemma NothingFound(s: Setting, table: seq<nat>, outPos: nat, at: nat)
    requires Usable(s, table) && outPos <= at && OnOnePage(s, at)
    ensures var e := LookUp(s, table, at);
      TryAt(s, table, outPos, at).None? <==>
        e == 0 || s.sums[EntrySource(e)][EntryBlock(e)] != Sum(s, at) ||
        forall back: nat, forward: nat | back <= at - outPos && back <= at % s.input.pageSize
            && Agreement(s.input.data, at, s.files[EntrySource(e)], EntryBlock(e) * QUERY_SIZE_POW, back, forward) ::
          back + forward < QUERY_SIZE_POW
  {
    hide AgreeBefore, AgreeAfter, DifferBefore, Rolling.Of;
    var e := LookUp(s, table, at);
    if e != 0 && s.sums[EntrySource(e)][EntryBlock(e)] == Sum(s, at) {
      var x, y, from := s.input.data, s.files[EntrySource(e)], EntryBlock(e) * QUERY_SIZE_POW;
      var t := Meet(s.input, y, outPos, at, EntrySource(e), from);
      AheadAgrees(x, at, y, from);
      BehindAgrees(x, at, y, from, Limit(s.input, outPos, at, from));
      assert Agreement(x, at, y, from, t.back, t.forward);
      forall back: nat, forward: nat | back <= at - outPos && back <= at % s.input.pageSize
          && Agreement(x, at, y, from, back, forward)
        ensures back <= t.back && forward <= t.forward
      {
        AgreeInside(x, at, y, from, back);
        AheadMost(x, at, y, from, forward);
        BehindMost(x, at, y, from, Limit(s.input, outPos, at, from), back);
      }
    }
  }

  lemma AgreeInside(x: seq<byte>, i: nat, y: seq<byte>, j: nat, n: nat)
    requires AgreeBefore(x, i, y, j, n)
    ensures n <= i <= |x| && n <= j <= |y|
  {
  }

  /** No block of the same slot is entered later. */
  ghost predicate EnteredLast(s: Setting, k: nat, j: nat)
    requires s.prime > 0 && IsBlock(s, k, j)
  {
    forall k': nat, j': nat | IsBlock(s, k', j') && Slot(s, k', j') == Slot(s, k, j) :: Before(k', j', k, j)
  }

  /** A window equals a block whose checksum is right and is the one its slot keeps. */
  ghost predicate Repeats(s: Setting, w: nat, k: nat, j: nat) {
    && s.prime > 0 && OnOnePage(s, w) && 0 < k < |s.files| && IsBlock(s, k, j) && s.sums[k][j] == Sum(s, w)
    && AgreeAfter(s.input.data, w, s.files[k], j * QUERY_SIZE_POW, QUERY_SIZE_POW)
    && EnteredLast(s, k, j)
  }

  lemma RepeatsIsCertain(s: Setting, table: seq<nat>, w: nat, k: nat, j: nat)
    requires Usable(s, table) && Filled(s, table) && Repeats(s, w, k, j)
    ensures Certain(s, table, w) && var e := LookUp(s, table, w); EntrySource(e) == k && EntryBlock(e) == j
  {
    hide Rolling.Of, AgreeAfter;
    var x := Slot(s, k, j);
    assert Present(s, table, k, j);
    assert Belongs(s, table, x);
  }

  /** What a finished search adds: nothing made before is lost, and a window that is known to
      be a block has been found. */
  predicate Completes(s: Setting, table: seq<nat>, m: Made, r: Made, at: nat, w: nat) {
    && Extends(m, r) && Counted(r) && r.outPos == |s.input.data|
    && (at <= w && Certain(s, table, w) ==> w < |TakenFrom(r.insts)| && TakenFrom(r.insts)[w] != 0)
  }

  lemma CompletesOn(s: Setting, table: seq<nat>, m: Made, i: Made, r: Made, at: nat, w: nat)
    requires Extends(m, i) && Completes(s, table, i, r, at, w)
    ensures Completes(s, table, m, r, at, w)
  {
    hide TakenFrom, Certain;
    ExtendsOn(m, i, r);
  }

  lemma CompletesBehind(s: Setting, table: seq<nat>, m: Made, r: Made, at: nat, at0: nat, w: nat)
    requires Completes(s, table, m, r, at, w) && Counted(m) && at0 <= at
    requires at0 <= w < at && Certain(s, table, w) ==> w < m.outPos && TakenFrom(m.insts)[w] != 0
    ensures Completes(s, table, m, r, at0, w)
  {
    hide TakenFrom, Certain;
  }

  /** Every window that is known to be a block is found: its first byte is copied. */
  lemma {:induction false} SearchCopies(s: Setting, table: seq<nat>, m: Made, at: nat, w: nat)
    requires Usable(s, table) && |m.tracks| == |s.files| > 0 && m.outPos <= at <= |s.input.data| && Counted(m)
    ensures Completes(s, table, m, Searched(s, table, m, at), at, w)
    decreases |s.input.data| - at, at - m.outPos
  {
    hide TakenFrom, Inserted, Rest, Extends, Took, Usable, TryAt, Certain, OnOnePage, Counted, Completes;
    if at + QUERY_SIZE_POW > |s.input.data| {
      RestCompletes(s, table, m, at, w);
    } else if at % s.input.pageSize == 0 && m.outPos < at {
      var bytes := s.input.data[m.outPos..at];
      InsertedPlace(m, bytes);
      InsertedCounted(m, bytes);
      SearchCopies(s, table, Inserted(m, bytes), at, w);
      CompletesOn(s, table, m, Inserted(m, bytes), Searched(s, table, m, at), at, w);
    } else if OnOnePage(s, at) && TryAt(s, table, m.outPos, at).Some? {
      var t := TryAt(s, table, m.outPos, at).value;
      FoundElsewhere(s, table, m.outPos, at);
      TookCounted(s.input, m, at, t);
      var r := Took(s.input, m, at, t);
      SearchCopies(s, table, r, at + t.forward, w);
      CompletesBehind(s, table, r, Searched(s, table, m, at), at + t.forward, at, w);
      CompletesOn(s, table, m, r, Searched(s, table, m, at), at, w);
    } else {
      SearchCopies(s, table, m, at + 1, w);
      if Certain(s, table, at) {
        CertainFound(s, table, m.outPos, at);
        assert false;
      }
      CompletesBehind(s, table, m, Searched(s, table, m, at), at + 1, at, w);
    }
  }

  lemma RestCompletes(s: Setting, table: seq<nat>, m: Made, at: nat, w: nat)
    requires |m.tracks| > 0 && m.outPos <= at <= |s.input.data| < at + QUERY_SIZE_POW && Counted(m)
    ensures Completes(s, table, m, Rest(s.input, m), at, w)
  {
    hide TakenFrom, Extends, Counted, Rest;
    RestExtends(s.input, m);
  }

  lemma FoundElsewhere(s: Setting, table: seq<nat>, outPos: nat, at: nat)
    requires Usable(s, table) && outPos <= at && OnOnePage(s, at) && TryAt(s, table, outPos, at).Some?
    ensures TryAt(s, table, outPos, at).value.index != 0
    ensures at < at + TryAt(s, table, outPos, at).value.forward || outPos < at
  {
    hide Rolling.Of;
  }

  /** The target is its only source, and the checksum of the first block is right. */
  predicate SameFile(s: Setting) {
    && s.prime > 0 && |s.files| == |s.sums| == 2 && s.files[1] == s.input.data && s.sums[0] == []
    && OnOnePage(s, 0) && s.sums[1] != [] && s.sums[1][0] == Sum(s, 0)
  }

  /** It is one copy, whatever else is in the table. */
  lemma SameIsOneCopy(s: Setting, table: seq<nat>, m: Made)
    requires Ready(s, table, m, 0) && Filled(s, table) && SameFile(s) && m.insts == [] && m.dataOut == []
    ensures Searched(s, table, m, 0).insts == [Inst(1, 0, |s.input.data|)] && Searched(s, table, m, 0).dataOut == []
  {
    hide Rolling.Of;
    RepeatsIsCertain(s, table, 0, 1, 0);
    CertainFound(s, table, 0, 0);
    AheadIs(s.input.data, 0, s.input.data, 0, |s.input.data|);
  }

  /** The bytes of the sources before the `n`-th, without the patch data. */
  function Lengths(files: seq<seq<byte>>, n: nat): nat
    requires n <= |files|
  {
    if n <= 1 then 0 else Lengths(files, n - 1) + |files[n - 1]|
  }

  lemma {:induction false} LengthCounts(files: seq<seq<byte>>, n: nat, k: nat)
    requires 0 < k < n <= |files|
    ensures |files[k]| <= Lengths(files, n)
  {
    if k < n - 1 {
      LengthCounts(files, n - 1, k);
    }
  }

  /** Too little to go by: no window is a block. */
  lemma NoRepeats(s: Setting)
    requires Fits(s) && (|s.input.data| < QUERY_SIZE_POW || Lengths(s.files, |s.files|) < QUERY_SIZE_POW)
    ensures forall w: nat, k: nat, j: nat :: !Repeats(s, w, k, j)
  {
    hide Lengths;
    forall w: nat, k: nat, j: nat
      ensures !Repeats(s, w, k, j)
    {
      if Repeats(s, w, k, j) {
        LengthCounts(s.files, |s.files|, k);
      }
    }
  }

  lemma NotSame(s: Setting)
    requires Fits(s) && (|s.input.data| < QUERY_SIZE_POW || Lengths(s.files, |s.files|) < QUERY_SIZE_POW)
    ensures !SameFile(s)
  {
    hide Lengths;
    if |s.files| > 1 {
      LengthCounts(s.files, |s.files|, 1);
    }
  }

  /** As many bytes are taken as are produced. */
  lemma {:induction false} TakenFromAll(insts: seq<Inst>, contents: seq<seq<byte>>)
    requires AllInRange(insts, contents)
    ensures |TakenFrom(insts)| == |Output(insts, contents)|
  {
    if insts != [] {
      TakenFromAll(insts[..|insts| - 1], contents);
      assert InRange(insts[|insts| - 1], contents);
    }
  }

  lemma MadeCounted(m: Made, files: seq<seq<byte>>, target: seq<byte>)
    requires MadeOk(m, files, target)
    ensures Counted(m) && (m.insts == [] ==> m.dataOut == [])
  {
    TakenFromAll(m.insts, files[0 := m.dataOut]);
  }

  /** Every window that equals the block its slot names is copied. */
  lemma AllRepeats(s: Setting, table: seq<nat>, m: Made)
    requires Fits(s) && Filled(s, table) && Ready(s, table, m, 0) && Counted(m)
    ensures forall w: nat, k: nat, j: nat | Repeats(s, w, k, j) ::
      var r := Searched(s, table, m, 0); w < |TakenFrom(r.insts)| && TakenFrom(r.insts)[w] != 0
  {
    hide Filled, Usable, Counted, TakenFrom, Searched, Repeats, Certain;
    forall w: nat, k: nat, j: nat | Repeats(s, w, k, j)
      ensures var r := Searched(s, table, m, 0); w < |TakenFrom(r.insts)| && TakenFrom(r.insts)[w] != 0
    {
      RepeatsIsCertain(s, table, w, k, j);
      SearchCopies(s, table, m, 0, w);
    }
  }
}
