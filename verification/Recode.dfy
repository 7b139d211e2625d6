/**
  main_merge_output of xdelta3-main.h: cutting a whole-file program back into target
  windows and handing every window to the encoder.
 */
module Recode {
  import opened Bytes
  import opened Delta
  import opened Vcdiff
  import opened Merge
  import opened Flatten
  import Decoder

  // ----------------------------------------------------- the encoder's side

  /** What the merge tells the encoder about one stretch of the window at `pos`
      (xd3_found_match, xd3_emit_run).  Source addresses are file offsets, target
      addresses are relative to the window. */
  datatype Match = Match(pos: nat, size: nat, addr: nat, isSource: bool) | RunOf(pos: nat, size: nat, value: byte)

  /** The three sections of an encoded window. */
  datatype Sections = Sections(ops: seq<Opcode>, addrs: seq<nat>, data: seq<byte>)

  predicate Ordered(ms: seq<Match>, pos: nat, len: nat)
    decreases |ms|
  {
    if ms == [] then pos <= len
    else pos <= ms[0].pos && Ordered(ms[1..], ms[0].pos + ms[0].size, len)
  }

  lemma {:induction false} OrderedEnd(ms: seq<Match>, pos: nat, len: nat)
    requires Ordered(ms, pos, len)
    ensures pos <= len && (ms != [] ==> ms[0].pos + ms[0].size <= len)
    decreases |ms|
  {
    if ms != [] {
      OrderedEnd(ms[1..], ms[0].pos + ms[0].size, len);
    }
  }

  function AddOf(bytes: seq<byte>): Sections {
    if bytes == [] then Sections([], [], [])
    else Sections([Opcode(Half(Add, |bytes|, 0), Noop)], [], bytes)
  }

  function Encoded(m: Match, srcbase: nat, srclen: nat): Sections
    requires m.Match? && m.isSource ==> srcbase <= m.addr
  {
    match m
    case Match(_, size, addr, isSource) =>
      Sections([Opcode(Half(Cpy, size, 0), Noop)], [if isSource then addr - srcbase else srclen + addr], [])
    case RunOf(_, size, value) => Sections([Opcode(Half(Run, size, 0), Noop)], [], [value])
  }

  function Join(a: Sections, b: Sections): Sections {
    Sections(a.ops + b.ops, a.addrs + b.addrs, a.data + b.data)
  }

  predicate FromBase(ms: seq<Match>, srcbase: nat) {
    forall i | 0 <= i < |ms| && ms[i].Match? && ms[i].isSource :: srcbase <= ms[i].addr
  }

  /** The window the encoder makes of its input buffer and the matches: bytes no
      match covers become ADD instructions. */
  function EncodeFrom(ms: seq<Match>, buf: seq<byte>, pos: nat, srcbase: nat, srclen: nat): Sections
    requires Ordered(ms, pos, |buf|) && FromBase(ms, srcbase)
    decreases |ms|
  {
    OrderedEnd(ms, pos, |buf|);
    if ms == [] then AddOf(buf[pos..])
    else
      Join(AddOf(buf[pos..ms[0].pos]),
           Join(Encoded(ms[0], srcbase, srclen),
                EncodeFrom(ms[1..], buf, ms[0].pos + ms[0].size, srcbase, srclen)))
  }

  function SourceRange(addr: nat, size: nat): (o: seq<Origin>)
    ensures |o| == size
  {
    seq(size, k requires 0 <= k < size => Src(addr + k))
  }

  /** `m` describes a stretch of a window with symbolic content `o`. */
  predicate Matches(m: Match, o: seq<Origin>) {
    && m.pos + m.size <= |o|
    && match m
       case Match(pos, size, addr, isSource) =>
         if isSource then o[pos..pos + size] == SourceRange(addr, size)
         else addr < pos && forall j | pos <= j < pos + size :: o[j] == o[j - pos + addr]
       case RunOf(pos, size, value) => o[pos..pos + size] == Repeat(Lit(value), size)
  }

  /** A source copy stays inside the source window chosen for it. */
  predicate Within(m: Match, lo: nat, hi: nat) {
    m.Match? && m.isSource ==> lo <= m.addr && m.addr + m.size <= hi
  }

  predicate Describes(m: Match, o: seq<Origin>, srcbase: nat, srclen: nat) {
    Matches(m, o) && Within(m, srcbase, srcbase + srclen)
  }

  predicate AllDescribe(ms: seq<Match>, o: seq<Origin>, srcbase: nat, srclen: nat) {
    forall i | 0 <= i < |ms| :: Describes(ms[i], o, srcbase, srclen)
  }

  /** An empty source copy at the first byte of the window whose address is just behind the
      copy window: the decoder takes it for a copy from a target not yet written. */
  function LostAt(end: nat): Match {
    Match(0, 0, end, true)
  }

  predicate Covers(m: Match, j: nat) {
    m.pos <= j < m.pos + m.size
  }

  /** Bytes from `pos` on that no match covers are literals of the buffer. */
  predicate GapsFilled(ms: seq<Match>, buf: seq<byte>, o: seq<Origin>, pos: nat)
    requires |buf| == |o|
  {
    forall j | pos <= j < |o| :: (exists i | 0 <= i < |ms| :: Covers(ms[i], j)) || o[j] == Lit(buf[j])
  }

  /** The gap before the first match is all literals, and so are the later ones. */
  lemma FirstGap(ms: seq<Match>, buf: seq<byte>, o: seq<Origin>, pos: nat)
    requires |buf| == |o| && Ordered(ms, pos, |buf|) && GapsFilled(ms, buf, o, pos)
    ensures ms == [] ==> pos <= |o| && o[pos..] == Lits(buf[pos..])
    ensures ms != [] ==>
      && pos <= ms[0].pos <= |o| && o[pos..ms[0].pos] == Lits(buf[pos..ms[0].pos])
      && GapsFilled(ms[1..], buf, o, ms[0].pos + ms[0].size)
  {
    OrderedEnd(ms, pos, |buf|);
    if ms != [] {
      forall j, i | pos <= j < ms[0].pos && 0 <= i < |ms| ensures !Covers(ms[i], j) {
        OrderedAt(ms, pos, |buf|, i);
      }
      var next := ms[0].pos + ms[0].size;
      forall j | next <= j < |o|
        ensures (exists i | 0 <= i < |ms[1..]| :: Covers(ms[1..][i], j)) || o[j] == Lit(buf[j])
      {
        if i :| 0 <= i < |ms| && Covers(ms[i], j) {
          assert Covers(ms[1..][i - 1], j);
        }
      }
    }
  }

  lemma {:induction false} OrderedAt(ms: seq<Match>, pos: nat, len: nat, i: nat)
    requires Ordered(ms, pos, len) && i < |ms|
    ensures ms[0].pos <= ms[i].pos && ms[i].pos + ms[i].size <= len
    decreases i
  {
    OrderedEnd(ms, pos, len);
    if i > 0 {
      OrderedAt(ms[1..], ms[0].pos + ms[0].size, len, i - 1);
    }
  }

  lemma {:induction false} OrderedAppend(ms: seq<Match>, m: Match, pos: nat, len: nat)
    requires Ordered(ms, pos, len) && len <= m.pos
    ensures Ordered(ms + [m], pos, m.pos + m.size)
    decreases |ms|
  {
    if ms != [] {
      assert (ms + [m])[1..] == ms[1..] + [m];
      OrderedAppend(ms[1..], m, ms[0].pos + ms[0].size, len);
    }
  }

  lemma {:induction false} OrderedLonger(ms: seq<Match>, pos: nat, len: nat, len': nat)
    requires Ordered(ms, pos, len) && len <= len'
    ensures Ordered(ms, pos, len')
    decreases |ms|
  {
    if ms != [] {
      OrderedLonger(ms[1..], ms[0].pos + ms[0].size, len, len');
    }
  }

  lemma {:induction false} HalvesJoin(a: seq<Opcode>, b: seq<Opcode>)
    ensures Halves(a + b) == Halves(a) + Halves(b)
    decreases |a|
  {
    if a == [] {
      assert a + b == b;
    } else {
      assert (a + b)[1..] == a[1..] + b;
      HalvesJoin(a[1..], b);
    }
  }

  lemma HalvesOne(h: Half)
    ensures Halves([Opcode(h, Noop)]) == [h, Noop]
  {
    assert [Opcode(h, Noop)][1..] == [];
  }

  /** Reading one instruction of the encoder back. */
  lemma OneOp(h: Half, rest: seq<Half>, s: State<Origin>, seg: seq<Origin>, tgtLen: nat)
    ensures Interpret(Halves([Opcode(h, Noop)]) + rest, s, seg, |seg|, tgtLen)
         == match Step(h, s, seg, |seg|, tgtLen)
            case None => None
            case Some(s') => Interpret(rest, s', seg, |seg|, tgtLen)
  {
    hide Interpret, Step;
    HalvesOne(h);
    assert [h, Noop] + rest == [h] + ([Noop] + rest);
    InterpretCons(h, [Noop] + rest, s, seg, |seg|, tgtLen);
    match Step(h, s, seg, |seg|, tgtLen)
    case None =>
    case Some(s') =>
      InterpretCons(Noop, rest, s', seg, |seg|, tgtLen);
      Decoder.NoopStep(s', seg, |seg|, tgtLen);
  }

  lemma AddReads(bytes: seq<byte>, rest: seq<Half>, addrs: seq<nat>, data: seq<Origin>, out: seq<Origin>,
                 seg: seq<Origin>, tgtLen: nat)
    requires |out| + |bytes| <= tgtLen
    ensures var a := AddOf(bytes);
      Interpret(Halves(a.ops) + rest, State(a.addrs + addrs, Lits(a.data) + data, out), seg, |seg|, tgtLen)
      == Interpret(rest, State(addrs, data, out + Lits(bytes)), seg, |seg|, tgtLen)
  {
    hide Interpret;
    assert [] + addrs == addrs && [] + rest == rest;
    if bytes == [] {
      assert Lits([]) + data == data && out + Lits(bytes) == out;
    } else {
      var d := Lits(bytes) + data;
      assert d[..|bytes|] == Lits(bytes) && d[|bytes|..] == data;
      OneOp(Half(Add, |bytes|, 0), rest, State(addrs, d, out), seg, tgtLen);
    }
  }

  lemma MatchReads(m: Match, rest: seq<Half>, addrs: seq<nat>, data: seq<Origin>, o: seq<Origin>,
                   seg: seq<Origin>, srcbase: nat)
    requires Describes(m, o, srcbase, |seg|) && seg == SourceRange(srcbase, |seg|)
    ensures m.Match? && m.isSource ==> srcbase <= m.addr
    ensures var e := Encoded(m, srcbase, |seg|);
      Interpret(Halves(e.ops) + rest, State(e.addrs + addrs, Lits(e.data) + data, o[..m.pos]), seg, |seg|, |o|)
      == if m == LostAt(srcbase + |seg|) then None
         else Interpret(rest, State(addrs, data, o[..m.pos + m.size]), seg, |seg|, |o|)
  {
    hide Interpret, Step, Halves, SourceRange, CopyForward, Lits, Matches, LostAt;
    MatchInside(m, o);
    var e := Encoded(m, srcbase, |seg|);
    var s := State(e.addrs + addrs, Lits(e.data) + data, o[..m.pos]);
    if m.RunOf? {
      RunStep(m, addrs, data, o, seg);
      OneOp(Half(Run, m.size, 0), rest, s, seg, |o|);
    } else if m.isSource {
      SourceStep(m, addrs, data, o, seg, srcbase);
      OneOp(Half(Cpy, m.size, 0), rest, s, seg, |o|);
    } else {
      TargetStep(m, addrs, data, o, seg);
      OneOp(Half(Cpy, m.size, 0), rest, s, seg, |o|);
    }
    OnlySourceLost(m, srcbase + |seg|);
  }

  lemma MatchInside(m: Match, o: seq<Origin>)
    requires Matches(m, o)
    ensures m.pos + m.size <= |o|
  {
  }

  lemma OnlySourceLost(m: Match, end: nat)
    ensures m == LostAt(end) ==> m.Match? && m.isSource
  {
  }

  lemma InCons(ms: seq<Match>, x: Match)
    requires ms != []
    ensures x in ms <==> x == ms[0] || x in ms[1..]
  {
    assert ms == [ms[0]] + ms[1..];
  }

  lemma RunStep(m: Match, addrs: seq<nat>, data: seq<Origin>, o: seq<Origin>, seg: seq<Origin>)
    requires m.RunOf? && Matches(m, o)
    ensures m.pos + m.size <= |o|
    ensures Step(Half(Run, m.size, 0), State([] + addrs, Lits([m.value]) + data, o[..m.pos]), seg, |seg|, |o|)
         == Some(State(addrs, data, o[..m.pos + m.size]))
  {
    var d := Lits([m.value]) + data;
    assert [] + addrs == addrs && d[0] == Lit(m.value) && d[1..] == data;
    assert o[..m.pos] + o[m.pos..m.pos + m.size] == o[..m.pos + m.size];
  }

  lemma SourceStep(m: Match, addrs: seq<nat>, data: seq<Origin>, o: seq<Origin>, seg: seq<Origin>, srcbase: nat)
    requires m.Match? && m.isSource && Describes(m, o, srcbase, |seg|) && seg == SourceRange(srcbase, |seg|)
    ensures Step(Half(Cpy, m.size, 0), State([m.addr - srcbase] + addrs, Lits([]) + data, o[..m.pos]), seg, |seg|, |o|)
         == if m == LostAt(srcbase + |seg|) then None else Some(State(addrs, data, o[..m.pos + m.size]))
  {
    var a := [m.addr - srcbase] + addrs;
    assert a[0] == m.addr - srcbase && a[1..] == addrs && Lits([]) + data == data;
    if m.size > 0 {
      assert seg[m.addr - srcbase..m.addr - srcbase + m.size] == SourceRange(m.addr, m.size);
      assert o[..m.pos] + o[m.pos..m.pos + m.size] == o[..m.pos + m.size];
    }
  }

  lemma TargetStep(m: Match, addrs: seq<nat>, data: seq<Origin>, o: seq<Origin>, seg: seq<Origin>)
    requires m.Match? && !m.isSource && Describes(m, o, 0, |seg|)
    ensures Step(Half(Cpy, m.size, 0), State([|seg| + m.addr] + addrs, Lits([]) + data, o[..m.pos]), seg, |seg|, |o|)
         == Some(State(addrs, data, o[..m.pos + m.size]))
  {
    hide CopyForward;
    var a := [|seg| + m.addr] + addrs;
    assert a[0] == |seg| + m.addr && a[1..] == addrs && Lits([]) + data == data;
    CopyDescribed(o, m.pos, m.addr, m.size);
  }

  lemma {:induction false} CopyDescribed(o: seq<Origin>, pos: nat, addr: nat, size: nat)
    requires pos + size <= |o| && addr < pos
    requires forall j | pos <= j < pos + size :: o[j] == o[j - pos + addr]
    ensures CopyForward(o[..pos], addr, size) == o[..pos + size]
    decreases size
  {
    if size > 0 {
      assert o[pos] == o[pos - pos + addr];
      assert o[..pos] + [o[..pos][addr]] == o[..pos + 1];
      assert forall j | pos + 1 <= j < pos + size :: o[j] == o[j - (pos + 1) + (addr + 1)];
      CopyDescribed(o, pos + 1, addr + 1, size - 1);
    }
  }

  /** The encoded window decodes to the content its matches and buffer describe. */
  lemma {:induction false} EncodeReads(ms: seq<Match>, buf: seq<byte>, o: seq<Origin>, pos: nat, srcbase: nat,
      seg: seq<Origin>)
    requires |buf| == |o| && Ordered(ms, pos, |buf|) && FromBase(ms, srcbase)
    requires AllDescribe(ms, o, srcbase, |seg|) && GapsFilled(ms, buf, o, pos)
    requires seg == SourceRange(srcbase, |seg|)
    ensures pos <= |o|
    ensures var e := EncodeFrom(ms, buf, pos, srcbase, |seg|);
      Interpret(Halves(e.ops), State(e.addrs, Lits(e.data), o[..pos]), seg, |seg|, |o|)
      == if LostAt(srcbase + |seg|) in ms then None else Some(o)
    decreases |ms|
  {
    hide Interpret, Describes, Encoded, AddOf, GapsFilled, LostAt, Halves, Lits;
    OrderedEnd(ms, pos, |buf|);
    FirstGap(ms, buf, o, pos);
    if ms == [] {
      FinalGap(buf, o, pos, seg);
    } else {
      var m, next := ms[0], ms[0].pos + ms[0].size;
      var a, b, c := AddOf(buf[pos..m.pos]), Encoded(m, srcbase, |seg|), EncodeFrom(ms[1..], buf, next, srcbase, |seg|);
      InCons(ms, LostAt(srcbase + |seg|));
      EncodeReads(ms[1..], buf, o, next, srcbase, seg);
      assert Describes(m, o, srcbase, |seg|);
      MatchReads(m, Halves(c.ops), c.addrs, Lits(c.data), o, seg, srcbase);
      AddReads(buf[pos..m.pos], Halves(b.ops) + Halves(c.ops), b.addrs + c.addrs, Lits(b.data) + Lits(c.data), o[..pos],
               seg, |o|);
      assert o[..pos] + o[pos..m.pos] == o[..m.pos];
      JoinReads(a, b, c);
    }
  }

  lemma JoinReads(a: Sections, b: Sections, c: Sections)
    ensures var e := Join(a, Join(b, c));
      && Halves(e.ops) == Halves(a.ops) + (Halves(b.ops) + Halves(c.ops))
      && e.addrs == a.addrs + (b.addrs + c.addrs)
      && Lits(e.data) == Lits(a.data) + (Lits(b.data) + Lits(c.data))
  {
    hide Lits, Halves;
    HalvesJoin(b.ops, c.ops);
    HalvesJoin(a.ops, b.ops + c.ops);
    LitsJoin(b.data, c.data);
    LitsJoin(a.data, b.data + c.data);
  }

  lemma LitsJoin(a: seq<byte>, b: seq<byte>)
    ensures Lits(a + b) == Lits(a) + Lits(b)
  {
  }

  lemma FinalGap(buf: seq<byte>, o: seq<Origin>, pos: nat, seg: seq<Origin>)
    requires |buf| == |o| && pos <= |buf| && o[pos..] == Lits(buf[pos..])
    ensures var e := AddOf(buf[pos..]);
      Interpret(Halves(e.ops), State(e.addrs, Lits(e.data), o[..pos]), seg, |seg|, |o|) == Some(o)
  {
    hide Interpret;
    var e := AddOf(buf[pos..]);
    AddReads(buf[pos..], [], [], [], o[..pos], seg, |o|);
    assert Halves(e.ops) + [] == Halves(e.ops) && e.addrs + [] == e.addrs && Lits(e.data) + [] == Lits(e.data);
    assert o[..pos] + o[pos..] == o;
    NothingLeft(o, seg);
  }

  lemma NothingLeft(o: seq<Origin>, seg: seq<Origin>)
    ensures Interpret([], State([], [], o), seg, |seg|, |o|) == Some(o)
  {
  }

  // ------------------------------------------------- cutting into windows

  /** An instruction without its first `n` bytes: the data of a run does not move. */
  function Cut(i: Inst, n: nat): Inst
    requires n <= i.size
  {
    if i.kind == Run then i.(size := i.size - n) else i.(addr := i.addr + n, size := i.size - n)
  }

  /** The program `origs` with everything before file position `at` written; the
      instruction at `instPos` has been shortened in place. */
  predicate Cursor(origs: seq<Inst>, insts: seq<Inst>, instPos: nat, at: nat) {
    && |insts| == |origs| && instPos <= |origs|
    && (forall k | instPos < k < |origs| :: insts[k] == origs[k])
    && if instPos == |origs| then at == End(origs)
       else
         var i := origs[instPos];
         && i.position <= at <= i.position + i.size && (i.size > 0 ==> at < i.position + i.size)
         && insts[instPos] == Cut(i, at - i.position)
  }

  /** Between two windows the empty instructions at the border are still to come. */
  predicate Border(origs: seq<Inst>, instPos: nat, at: nat) {
    instPos <= |origs| && (instPos > 0 ==> origs[instPos - 1].position < at)
  }

  // ------------------------------------------------------ the source window

  predicate IsSourceCopy(i: Inst) {
    i.kind == Cpy && i.mode != Here
  }

  /** Whether an instruction is written, in part or, if it is empty, at all, in the window
      [lo, hi). */
  predicate Touches(i: Inst, lo: nat, hi: nat) {
    if i.size == 0 then lo <= i.position < hi else Max(lo, i.position) < Min(hi, i.position + i.size)
  }

  /** The source bytes of the part in the window. */
  function Clip(i: Inst, lo: nat, hi: nat): (nat, nat)
    requires Touches(i, lo, hi)
  {
    (i.addr + (Max(lo, i.position) - i.position), i.addr + (Min(hi, i.position + i.size) - i.position))
  }

  function Grow(hull: Option<(nat, nat)>, c: (nat, nat)): Option<(nat, nat)> {
    match hull
    case None => Some(c)
    case Some(h) => Some((Min(h.0, c.0), Max(h.1, c.1)))
  }

  /** The least range that holds all source copies in a window. */
  function Hull(insts: seq<Inst>, lo: nat, hi: nat): Option<(nat, nat)>
    decreases |insts|
  {
    if insts == [] then None
    else
      var i, rest := insts[|insts| - 1], Hull(insts[..|insts| - 1], lo, hi);
      if IsSourceCopy(i) && Touches(i, lo, hi) then Grow(rest, Clip(i, lo, hi)) else rest
  }

  lemma {:induction false} HullUntouched(insts: seq<Inst>, n: nat, lo: nat, hi: nat)
    requires n <= |insts| && forall k | n <= k < |insts| :: !Touches(insts[k], lo, hi)
    ensures Hull(insts, lo, hi) == Hull(insts[..n], lo, hi)
    decreases |insts|
  {
    if n == |insts| {
      assert insts[..n] == insts;
    } else {
      var front := insts[..|insts| - 1];
      HullUntouched(front, n, lo, hi);
      assert front[..n] == insts[..n];
    }
  }

  lemma HullNext(insts: seq<Inst>, n: nat, lo: nat, hi: nat)
    requires n < |insts|
    ensures Hull(insts[..n + 1], lo, hi) ==
      var i, rest := insts[n], Hull(insts[..n], lo, hi);
      if IsSourceCopy(i) && Touches(i, lo, hi) then Grow(rest, Clip(i, lo, hi)) else rest
  {
    assert insts[..n + 1][..n] == insts[..n];
  }

  /** Nothing before the cursor lies in the window that starts there. */
  lemma BeforeBorder(insts: seq<Inst>, addsLen: nat, n: nat, lo: nat, hi: nat)
    requires InstsOk(insts, addsLen) && Border(insts, n, lo) && End(insts[..n]) <= lo
    ensures forall k | 0 <= k < n :: insts[k].position < lo && !Touches(insts[k], lo, hi)
    ensures Hull(insts[..n], lo, hi) == None
  {
    forall k | 0 <= k < n ensures insts[k].position < lo && !Touches(insts[k], lo, hi) {
      Positions(insts, addsLen, k, n - 1);
      PrefixOk(insts, addsLen, k);
      PrefixOk(insts, addsLen, n - 1);
      Positions(insts, addsLen, k + 1, n);
      assert End(insts[..k + 1]) == insts[k].position + insts[k].size;
    }
    HullUntouched(insts[..n], 0, lo, hi);
    assert insts[..n][..0] == [];
  }

  /** Nothing behind the window lies in it. */
  lemma BehindWindow(insts: seq<Inst>, addsLen: nat, n: nat, lo: nat, hi: nat)
    requires InstsOk(insts, addsLen) && n <= |insts| && hi <= End(insts[..n])
    ensures forall k | n <= k < |insts| :: hi <= insts[k].position && !Touches(insts[k], lo, hi)
    ensures Hull(insts, lo, hi) == Hull(insts[..n], lo, hi)
  {
    forall k | n <= k < |insts| ensures hi <= insts[k].position && !Touches(insts[k], lo, hi) {
      Positions(insts, addsLen, n, k);
      PrefixOk(insts, addsLen, k);
    }
    HullUntouched(insts, n, lo, hi);
  }

  /** The bytes of one cut piece of an instruction, in terms of the symbolic file. */
  lemma PieceAt(insts: seq<Inst>, adds: seq<byte>, num: nat, at: nat, take: nat)
    requires InstsOk(insts, |adds|) && num < |insts|
    requires insts[num].position <= at && at + take <= insts[num].position + insts[num].size
    ensures var i, sym := Cut(insts[num], at - insts[num].position), Symbolic(insts, adds);
      && at + take <= |sym|
      && match i.kind
         case Run => i.addr < |adds| && sym[at..at + take] == Repeat(Lit(adds[i.addr]), take)
         case Add => i.addr + take <= |adds| && sym[at..at + take] == Lits(adds[i.addr..i.addr + take])
         case Cpy =>
           if i.mode == Here then i.addr < at && forall j | at <= j < at + take :: sym[j] == sym[j - at + i.addr]
           else sym[at..at + take] == SourceRange(i.addr, take)
  {
    hide InstsOk, Symbolic, Direct, SourceRange, Repeat, Lits;
    var i, n := insts[num], at - insts[num].position;
    SourcePiece(Whole(insts, adds, [], End(insts)), num, n, take);
    if IsTargetCopy(i) {
      TargetPiece(insts, adds, num, at, take);
    } else {
      DirectPiece(i, adds, n, take);
    }
  }

  lemma TargetPiece(insts: seq<Inst>, adds: seq<byte>, num: nat, at: nat, take: nat)
    requires InstsOk(insts, |adds|) && num < |insts| && IsTargetCopy(insts[num])
    requires insts[num].position <= at && at + take <= insts[num].position + insts[num].size
    requires at + take <= |Symbolic(insts, adds)| && insts[num].addr < insts[num].position
    ensures var i, sym := insts[num], Symbolic(insts, adds);
      forall j | at <= j < at + take :: sym[j] == sym[j - at + (i.addr + (at - i.position))]
  {
    hide InstsOk, Symbolic;
    var i, sym := insts[num], Symbolic(insts, adds);
    forall j | at <= j < at + take
      ensures sym[j] == sym[j - at + (i.addr + (at - i.position))]
    {
      SymbolicAt(insts, adds, num, j - i.position);
    }
  }

  lemma DirectPiece(i: Inst, adds: seq<byte>, n: nat, take: nat)
    requires InstOk(i, |adds|, i.position) && !IsTargetCopy(i) && n + take <= i.size
    ensures Direct(i, adds, n, take) ==
      match i.kind
      case Run => Repeat(Lit(adds[i.addr]), take)
      case Add => Lits(adds[i.addr + n..i.addr + n + take])
      case Cpy => SourceRange(i.addr + n, take)
  {
    var d := Direct(i, adds, n, take);
    forall k | 0 <= k < take
      ensures d[k] == match i.kind
                      case Run => Lit(adds[i.addr])
                      case Add => Lit(adds[i.addr + n..i.addr + n + take][k])
                      case Cpy => Src(i.addr + n + k)
    {
      assert d[k] == DirectAt(i, adds, n + k);
    }
  }

  /** What the inner loop of main_merge_output has collected for the window with
      symbolic content `o`, up to `pos`. */
  ghost predicate Collected(ms: seq<Match>, buf: seq<byte>, o: seq<Origin>, pos: nat, srcset: bool, lo: nat, hi: nat)
  {
    && pos <= |o| <= |buf| && Ordered(ms, 0, pos) && lo <= hi
    && (forall i | 0 <= i < |ms| :: Matches(ms[i], o) && Within(ms[i], lo, hi))
    && (!srcset ==> forall i | 0 <= i < |ms| :: !(ms[i].Match? && ms[i].isSource))
    && (forall j | 0 <= j < pos :: (exists i | 0 <= i < |ms| :: Covers(ms[i], j)) || o[j] == Lit(buf[j]))
  }

  /** A new match extends the collection. */
  lemma CollectMatch(ms: seq<Match>, m: Match, buf: seq<byte>, o: seq<Origin>, pos: nat, srcset: bool, lo: nat, hi: nat,
                     srcset': bool, lo': nat, hi': nat)
    requires Collected(ms, buf, o, pos, srcset, lo, hi)
    requires m.pos == pos && Matches(m, o) && Within(m, lo', hi')
    requires srcset ==> srcset' && lo' <= lo && hi <= hi'
    requires lo' <= hi' && (!srcset' ==> !(m.Match? && m.isSource))
    ensures Collected(ms + [m], buf, o, pos + m.size, srcset', lo', hi')
  {
    OrderedAppend(ms, m, 0, pos);
    var ms' := ms + [m];
    forall j | 0 <= j < pos + m.size
      ensures (exists i | 0 <= i < |ms'| :: Covers(ms'[i], j)) || o[j] == Lit(buf[j])
    {
      if j < pos {
        if i :| 0 <= i < |ms| && Covers(ms[i], j) {
          assert Covers(ms'[i], j);
        }
      } else {
        assert Covers(ms'[|ms|], j);
      }
    }
  }

  /** Literal bytes put into the buffer extend it too. */
  lemma CollectAdd(ms: seq<Match>, buf: seq<byte>, buf': seq<byte>, o: seq<Origin>, pos: nat, take: nat,
                   srcset: bool, lo: nat, hi: nat)
    requires Collected(ms, buf, o, pos, srcset, lo, hi)
    requires pos + take <= |o| && |buf'| == |buf| && buf'[..pos] == buf[..pos]
    requires o[pos..pos + take] == Lits(buf'[pos..pos + take])
    ensures Collected(ms, buf', o, pos + take, srcset, lo, hi)
  {
    OrderedLonger(ms, 0, pos, pos + take);
    forall j | 0 <= j < pos + take
      ensures (exists i | 0 <= i < |ms| :: Covers(ms[i], j)) || o[j] == Lit(buf'[j])
    {
      if j < pos {
        assert buf'[..pos][j] == buf[..pos][j];
      } else {
        assert o[pos..pos + take][j - pos] == Lits(buf'[pos..pos + take])[j - pos];
      }
    }
  }

  /** The encoder's window for a full collection decodes to the window content. */
  lemma CollectedDecodes(ms: seq<Match>, buf: seq<byte>, o: seq<Origin>, srcset: bool, lo: nat, hi: nat, adler32: nat)
    requires Collected(ms, buf, o, |o|, srcset, lo, hi)
    ensures var base, len := if srcset then lo else 0, if srcset then hi - lo else 0;
      && Ordered(ms, 0, |buf[..|o|]|) && FromBase(ms, base)
      && var e := EncodeFrom(ms, buf[..|o|], 0, base, len);
         SymbolicWindow(Window(base, len, |o|, adler32, e.ops, e.addrs, e.data))
         == if srcset && LostAt(hi) in ms then None else Some(o)
  {
    hide Interpret, Matches, EncodeFrom;
    var base, len := if srcset then lo else 0, if srcset then hi - lo else 0;
    var e := EncodeFrom(ms, buf[..|o|], 0, base, len);
    var w := Window(base, len, |o|, adler32, e.ops, e.addrs, e.data);
    assert SymbolicSegment(w) == SourceRange(base, len);
    assert o[..0] == [];
    EncodeReads(ms, buf[..|o|], o, 0, base, SourceRange(base, len));
    if LostAt(base + len) in ms {
      var i :| 0 <= i < |ms| && ms[i] == LostAt(base + len);
      assert srcset;
    }
  }

  /** How much of a source file a program reads. */
  function SourceNeed(insts: seq<Inst>): nat
    decreases |insts|
  {
    if insts == [] then 0
    else
      var i := insts[|insts| - 1];
      var rest := SourceNeed(insts[..|insts| - 1]);
      if i.kind == Cpy && i.mode != Here then Max(rest, i.addr + i.size) else rest
  }

  lemma {:induction false} NeedAt(insts: seq<Inst>, n: nat)
    requires n < |insts|
    ensures insts[n].kind == Cpy && insts[n].mode != Here ==> insts[n].addr + insts[n].size <= SourceNeed(insts)
    decreases |insts|
  {
    if n < |insts| - 1 {
      NeedAt(insts[..|insts| - 1], n);
    }
  }

  /** All that the inner loop knows: the program `origs` with symbolic file `sym` is
      written up to `at`, inside the window [start, start + size). */
  ghost predicate InWindow(origs: seq<Inst>, adds: seq<byte>, sym: seq<Origin>, start: nat, size: nat) {
    && InstsOk(origs, |adds|) && sym == Symbolic(origs, adds) && start + size <= |sym|
    && AllStayIn(origs, start, start + size)
  }

  /** What the next `take` bytes of the window are, by the instruction in hand. */
  ghost predicate Reads(inst: Inst, adds: seq<byte>, sym: seq<Origin>, start: nat, size: nat, windowPos: nat,
      take: nat) {
    && windowPos + take <= size && start + size <= |sym|
    && var at := start + windowPos;
       match inst.kind
       case Run => inst.addr < |adds| && sym[at..at + take] == Repeat(Lit(adds[inst.addr]), take)
       case Add => inst.addr + take <= |adds| && sym[at..at + take] == Lits(adds[inst.addr..inst.addr + take])
       case Cpy =>
         if inst.mode == Here then
           inst.addr < at && (take > 0 ==> start <= inst.addr)
           && forall j | at <= j < at + take :: sym[j] == sym[j - at + inst.addr]
         else sym[at..at + take] == SourceRange(inst.addr, take)
  }

  /** An empty target copy at the first byte of a window reads below it. */
  predicate BelowStart(i: Inst, start: nat) {
    IsTargetCopy(i) && i.size == 0 && i.position == start
  }

  lemma PieceReads(origs: seq<Inst>, insts: seq<Inst>, adds: seq<byte>, sym: seq<Origin>, instPos: nat, start: nat,
                   size: nat, windowPos: nat)
    requires InWindow(origs, adds, sym, start, size) && instPos < |origs| && windowPos < size
    requires Cursor(origs, insts, instPos, start + windowPos)
    ensures var inst := insts[instPos];
      var take := Min(inst.size, size - windowPos);
      && Reads(inst, adds, sym, start, size, windowPos, take)
      && (inst.kind == Cpy && inst.mode != Here ==> inst.addr + take <= SourceNeed(origs))
      && (IsTargetCopy(inst) ==> (start <= inst.addr <==> !BelowStart(origs[instPos], start)))
  {
    hide InWindow, Cursor, InstsOk, Symbolic, AllStayIn, SourceRange, SourceNeed, Cut, StaysIn, Repeat, Lits;
    WindowParts(origs, adds, sym, start, size);
    CursorAt(origs, insts, instPos, start + windowPos);
    PieceFacts(origs, |adds|, start, size, instPos);
    CutInside(origs[instPos], |adds|, start + windowPos - origs[instPos].position, start, start + size);
    PieceAt(origs, adds, instPos, start + windowPos, Min(insts[instPos].size, size - windowPos));
    NeedAt(origs, instPos);
  }

  lemma CutInside(i: Inst, addsLen: nat, n: nat, lo: nat, hi: nat)
    requires InstOk(i, addsLen, i.position) && StaysIn(i, lo, hi)
    requires n <= i.size && lo <= i.position + n < hi && (i.size > 0 ==> n < i.size)
    ensures var c := Cut(i, n);
      c.kind == i.kind && c.mode == i.mode && c.size == i.size - n && (i.kind == Cpy ==> c.addr == i.addr + n)
    ensures IsTargetCopy(i) ==> (lo <= i.addr + n <==> !BelowStart(i, lo))
  {
  }

  lemma WindowParts(origs: seq<Inst>, adds: seq<byte>, sym: seq<Origin>, start: nat, size: nat)
    requires InWindow(origs, adds, sym, start, size)
    ensures InstsOk(origs, |adds|) && sym == Symbolic(origs, adds) && start + size <= |sym|
    ensures AllStayIn(origs, start, start + size)
  {
    hide InstsOk, Symbolic, AllStayIn;
  }

  lemma CursorAt(origs: seq<Inst>, insts: seq<Inst>, instPos: nat, at: nat)
    requires Cursor(origs, insts, instPos, at) && instPos < |origs|
    ensures var i := origs[instPos];
      && |insts| == |origs| && i.position <= at <= i.position + i.size && (i.size > 0 ==> at < i.position + i.size)
      && insts[instPos] == Cut(i, at - i.position)
  {
  }

  /** The source window collected so far, as an option. */
  function HullOf(srcset: bool, lo: nat, hi: nat): Option<(nat, nat)> {
    if srcset then Some((lo, hi)) else None
  }

  /** One round of the inner loop of main_merge_output.  It fails where the program has
      an assertion: at a target copy that reads below the window. */
  method FillPiece(stream: WholeState, instPos: nat, start: nat, windowPos: nat, size: nat, bdata: array<byte>,
                   ms: seq<Match>, srcset: bool, srcmin: nat, srcmax: nat, ghost origs: seq<Inst>,
                   ghost sym: seq<Origin>)
    returns (ok: bool, take: nat, ms': seq<Match>, srcset': bool, srcmin': nat, srcmax': nat)
    requires InWindow(origs, stream.adds, sym, start, size)
    requires instPos < |origs| && windowPos < size <= bdata.Length
    requires Cursor(origs, stream.inst, instPos, start + windowPos)
    requires Collected(ms, bdata[..], sym[start..start + size], windowPos, srcset, srcmin, srcmax)
    modifies bdata
    ensures take == Min(stream.inst[instPos].size, size - windowPos)
    ensures ok <==> !BelowStart(origs[instPos], start)
    ensures ok ==> Collected(ms', bdata[..], sym[start..start + size], windowPos + take, srcset', srcmin', srcmax')
    ensures ok ==>
      Extended(ms, srcset, srcmin, srcmax, stream.inst[instPos], windowPos, take, ms', srcset', srcmin', srcmax')
    ensures srcmax' <= Max(srcmax, SourceNeed(origs))
  {
    hide InWindow, Collected, Reads, SourceNeed;
    PieceReads(origs, stream.inst, stream.adds, sym, instPos, start, size, windowPos);
    CursorAt(origs, stream.inst, instPos, start + windowPos);
    var inst := stream.inst[instPos];
    take := Min(inst.size, size - windowPos);
    ReadsInside(inst, stream.adds, sym, start, size, windowPos, take);
    ok, ms', srcset', srcmin', srcmax' := true, ms, srcset, srcmin, srcmax;
    if inst.kind == Cpy {
      ok, ms', srcset', srcmin', srcmax' :=
        FillCopy(inst, start, windowPos, take, bdata[..], ms, srcset, srcmin, srcmax, sym, size, stream.adds);
    } else {
      ms' := FillData(inst, stream.adds, start, size, windowPos, take, bdata, ms, srcset, srcmin, srcmax, sym);
    }
  }

  /** How one instruction changes the matches and the source window. */
  ghost predicate Extended(ms: seq<Match>, srcset: bool, lo: nat, hi: nat, inst: Inst, windowPos: nat, take: nat,
                     ms': seq<Match>, srcset': bool, lo': nat, hi': nat) {
    if IsSourceCopy(inst) then
      && ms' == ms + [Match(windowPos, take, inst.addr, true)]
      && HullOf(srcset', lo', hi') == Grow(HullOf(srcset, lo, hi), (inst.addr, inst.addr + take))
    else
      && HullOf(srcset', lo', hi') == HullOf(srcset, lo, hi)
      && (ms' == ms || exists m: Match :: ms' == ms + [m] && !(m.Match? && m.isSource))
  }

  lemma ReadsInside(inst: Inst, adds: seq<byte>, sym: seq<Origin>, start: nat, size: nat, windowPos: nat, take: nat)
    requires Reads(inst, adds, sym, start, size, windowPos, take)
    ensures windowPos + take <= size && start + size <= |sym|
  {
  }

  /** The run and add cases. */
  method FillData(inst: Inst, adds: seq<byte>, ghost start: nat, ghost size: nat, windowPos: nat, take: nat,
                  bdata: array<byte>, ms: seq<Match>, ghost srcset: bool, ghost srcmin: nat, ghost srcmax: nat,
                  ghost sym: seq<Origin>)
    returns (ms': seq<Match>)
    requires inst.kind != Cpy && Reads(inst, adds, sym, start, size, windowPos, take) && size <= bdata.Length
    requires Collected(ms, bdata[..], sym[start..start + size], windowPos, srcset, srcmin, srcmax)
    modifies bdata
    ensures Collected(ms', bdata[..], sym[start..start + size], windowPos + take, srcset, srcmin, srcmax)
    ensures ms' == ms || exists m: Match :: ms' == ms + [m] && !(m.Match? && m.isSource)
  {
    hide Collected, Matches, Repeat, Lits;
    ghost var o := sym[start..start + size];
    SubSlice(sym, start, start + size, windowPos, windowPos + take);
    if inst.kind == Run {
      var m := RunOf(windowPos, take, adds[inst.addr]);
      ms' := ms + [m];
      CollectRun(ms, m, bdata[..], o, windowPos, srcset, srcmin, srcmax);
    } else {
      ghost var before := bdata[..];
      ms' := ms;
      MemCopy(bdata, windowPos, adds[inst.addr..inst.addr + take]);
      CollectAdd(ms, before, bdata[..], o, windowPos, take, srcset, srcmin, srcmax);
    }
  }

  lemma PieceFacts(origs: seq<Inst>, addsLen: nat, start: nat, size: nat, n: nat)
    requires InstsOk(origs, addsLen) && AllStayIn(origs, start, start + size) && n < |origs|
    ensures InstOk(origs[n], addsLen, origs[n].position) && StaysIn(origs[n], start, start + size)
  {
    hide InstsOk;
    PrefixOk(origs, addsLen, n);
  }

  /** memcpy into the input buffer. */
  method MemCopy(bdata: array<byte>, at: nat, bytes: seq<byte>)
    requires at + |bytes| <= bdata.Length
    modifies bdata
    ensures bdata[..][..at] == old(bdata[..])[..at]
    ensures bdata[..][at..at + |bytes|] == bytes
  {
    for k := 0 to |bytes|
      invariant bdata[..][..at] == old(bdata[..])[..at]
      invariant forall j | 0 <= j < k :: bdata[at + j] == bytes[j]
    {
      bdata[at + k] := bytes[k];
    }
    forall j | 0 <= j < |bytes| ensures bdata[..][at..at + |bytes|][j] == bytes[j] {
      assert bdata[at + j] == bytes[j];
    }
  }

  /** The copy case: widen the source window, or make the address relative. */
  method FillCopy(inst: Inst, start: nat, windowPos: nat, take: nat, ghost buf: seq<byte>,
                  ms: seq<Match>, srcset: bool, srcmin: nat, srcmax: nat, ghost sym: seq<Origin>, ghost size: nat,
                  ghost adds: seq<byte>)
    returns (ok: bool, ms': seq<Match>, srcset': bool, srcmin': nat, srcmax': nat)
    requires inst.kind == Cpy && Reads(inst, adds, sym, start, size, windowPos, take)
    requires Collected(ms, buf, sym[start..start + size], windowPos, srcset, srcmin, srcmax)
    ensures ok <==> inst.mode != Here || start <= inst.addr
    ensures ok ==> Collected(ms', buf, sym[start..start + size], windowPos + take, srcset', srcmin', srcmax')
    ensures ok ==> Extended(ms, srcset, srcmin, srcmax, inst, windowPos, take, ms', srcset', srcmin', srcmax')
    ensures srcmax' <= if inst.mode == Here then srcmax else Max(srcmax, inst.addr + take)
  {
    hide Collected, Matches;
    ok, ms', srcset', srcmin', srcmax' := true, ms, srcset, srcmin, srcmax;
    ghost var o := sym[start..start + size];
    CollectedRange(ms, buf, o, windowPos, srcset, srcmin, srcmax);
    var addr := inst.addr;
    if inst.mode != Here {
      if srcset {
        srcmin' := Min(srcmin, inst.addr);
        srcmax' := Max(srcmax, inst.addr + take);
      } else {
        srcset' := true;
        srcmin' := inst.addr;
        srcmax' := inst.addr + take;
        NoSourceYet(ms, buf, o, windowPos, srcmin, srcmax, srcmin', srcmax');
      }
    } else if inst.addr < start {
      ok := false;
    } else {
      addr := inst.addr - start;
    }
    if ok {
      var m := Match(windowPos, take, addr, inst.mode != Here);
      CopyMatches(m, sym, start, size, inst.addr);
      ms' := ms + [m];
      if srcset || inst.mode == Here {
        CollectMatch(ms, m, buf, o, windowPos, srcset, srcmin, srcmax, srcset', srcmin', srcmax');
      } else {
        CollectMatch(ms, m, buf, o, windowPos, false, srcmin', srcmax', srcset', srcmin', srcmax');
      }
    }
  }

  lemma SubSlice<T>(s: seq<T>, a: nat, b: nat, lo: nat, hi: nat)
    requires a <= b <= |s| && lo <= hi <= b - a
    ensures s[a..b][lo..hi] == s[a + lo..a + hi]
  {
    forall k | 0 <= k < hi - lo
      ensures s[a..b][lo..hi][k] == s[a + lo..a + hi][k]
    {
      assert s[a..b][lo + k] == s[a + lo + k];
    }
  }

  lemma CollectedRange(ms: seq<Match>, buf: seq<byte>, o: seq<Origin>, pos: nat, srcset: bool, lo: nat, hi: nat)
    requires Collected(ms, buf, o, pos, srcset, lo, hi)
    ensures lo <= hi && |o| <= |buf|
  {
  }

  /** Before the first source copy the bounds of the source window are arbitrary. */
  lemma NoSourceYet(ms: seq<Match>, buf: seq<byte>, o: seq<Origin>, pos: nat, lo: nat, hi: nat, lo': nat, hi': nat)
    requires Collected(ms, buf, o, pos, false, lo, hi) && lo' <= hi'
    ensures Collected(ms, buf, o, pos, false, lo', hi')
  {
  }

  lemma CollectRun(ms: seq<Match>, m: Match, buf: seq<byte>, o: seq<Origin>, pos: nat, srcset: bool, lo: nat, hi: nat)
    requires Collected(ms, buf, o, pos, srcset, lo, hi)
    requires m.RunOf? && m.pos == pos && pos + m.size <= |o| && o[pos..pos + m.size] == Repeat(Lit(m.value), m.size)
    ensures Collected(ms + [m], buf, o, pos + m.size, srcset, lo, hi)
  {
    CollectMatch(ms, m, buf, o, pos, srcset, lo, hi, srcset, lo, hi);
  }

  lemma CopyMatches(m: Match, sym: seq<Origin>, start: nat, size: nat, addr: nat)
    requires m.Match? && start + size <= |sym| && m.pos + m.size <= size
    requires var at := start + m.pos;
      if m.isSource then m.addr == addr && sym[at..at + m.size] == SourceRange(addr, m.size)
      else start <= addr < at && m.addr == addr - start
           && forall j | at <= j < at + m.size :: sym[j] == sym[j - at + addr]
    ensures Matches(m, sym[start..start + size])
  {
    var o, at := sym[start..start + size], start + m.pos;
    if m.isSource {
      SubSlice(sym, start, start + size, m.pos, m.pos + m.size);
    } else {
      forall j | m.pos <= j < m.pos + m.size
        ensures o[j] == o[j - m.pos + m.addr]
      {
        assert sym[start + j] == sym[(start + j) - at + addr];
      }
    }
  }

  /** No empty target copy stands at the first byte of the window. */
  predicate NoneBelow(insts: seq<Inst>, start: nat) {
    forall k | 0 <= k < |insts| :: !BelowStart(insts[k], start)
  }

  /** What has been collected of the first `done` instructions. */
  ghost predicate Progress(origs: seq<Inst>, done: nat, start: nat, size: nat, ms: seq<Match>, srcset: bool, lo: nat,
                           hi: nat) {
    && done <= |origs|
    && HullOf(srcset, lo, hi) == Hull(origs[..done], start, start + size)
    && NoneBelow(origs[..done], start)
    && forall e: nat :: LostAt(e) in ms <==> EmptyCopy(e, start) in origs[..done]
  }

  /** An empty source copy. */
  function EmptyCopy(addr: nat, position: nat): Inst {
    Inst(Cpy, Source, 0, addr, position)
  }

  lemma ProgressStart(origs: seq<Inst>, addsLen: nat, instPos: nat, start: nat, size: nat)
    requires InstsOk(origs, addsLen) && Border(origs, instPos, start) && End(origs[..instPos]) <= start
    ensures Progress(origs, instPos, start, size, [], false, 0, 0)
  {
    BeforeBorder(origs, addsLen, instPos, start, start + size);
  }

  lemma ProgressStep(origs: seq<Inst>, addsLen: nat, n: nat, start: nat, size: nat, windowPos: nat, take: nat,
                     ms: seq<Match>, srcset: bool, lo: nat, hi: nat,
                     ms': seq<Match>, srcset': bool, lo': nat, hi': nat)
    requires Progress(origs, n, start, size, ms, srcset, lo, hi) && n < |origs| && windowPos < size
    requires InstOk(origs[n], addsLen, origs[n].position) && !BelowStart(origs[n], start)
    requires var i, at := origs[n], start + windowPos;
      && i.position <= at <= i.position + i.size && (i.size > 0 ==> at < i.position + i.size)
      && at == Max(start, i.position)
      && take == Min(i.size - (at - i.position), size - windowPos)
      && Extended(ms, srcset, lo, hi, Cut(i, at - i.position), windowPos, take, ms', srcset', lo', hi')
    ensures Progress(origs, n + 1, start, size, ms', srcset', lo', hi')
  {
    hide Hull;
    HullNext(origs, n, start, start + size);
    assert origs[..n + 1] == origs[..n] + [origs[n]];
    StepHull(origs[n], start, size, windowPos, take);
    StepLost(ms, origs[n], addsLen, start, windowPos, take, srcset, lo, hi, ms', srcset', lo', hi');
  }

  /** The part of an instruction that is written in the window is its part of the hull. */
  lemma StepHull(i: Inst, start: nat, size: nat, windowPos: nat, take: nat)
    requires var at := start + windowPos;
      && windowPos < size && i.position <= at <= i.position + i.size && (i.size > 0 ==> at < i.position + i.size)
      && at == Max(start, i.position) && take == Min(i.size - (at - i.position), size - windowPos)
    ensures var c := Cut(i, start + windowPos - i.position);
      && Touches(i, start, start + size) && IsSourceCopy(c) == IsSourceCopy(i)
      && (IsSourceCopy(i) ==> Clip(i, start, start + size) == (c.addr, c.addr + take))
  {
  }

  lemma StepLost(ms: seq<Match>, i: Inst, addsLen: nat, start: nat, windowPos: nat, take: nat, srcset: bool, lo: nat,
                 hi: nat, ms': seq<Match>, srcset': bool, lo': nat, hi': nat)
    requires InstOk(i, addsLen, i.position)
    requires var at := start + windowPos;
      && i.position <= at <= i.position + i.size && (i.size > 0 ==> at < i.position + i.size && take > 0)
      && (i.size == 0 ==> take == 0)
      && Extended(ms, srcset, lo, hi, Cut(i, at - i.position), windowPos, take, ms', srcset', lo', hi')
    ensures forall e: nat :: LostAt(e) in ms' <==> LostAt(e) in ms || i == EmptyCopy(e, start)
  {
    hide Grow, HullOf;
    var c := Cut(i, start + windowPos - i.position);
    if IsSourceCopy(c) {
      forall e: nat
        ensures LostAt(e) in ms' <==> LostAt(e) in ms || i == EmptyCopy(e, start)
      {
        assert LostAt(e) in ms' <==> LostAt(e) in ms || LostAt(e) == Match(windowPos, take, c.addr, true);
      }
    } else if ms' != ms {
      var m :| ms' == ms + [m] && !(m.Match? && m.isSource);
      forall e: nat ensures LostAt(e) in ms' <==> LostAt(e) in ms {
        assert LostAt(e) in ms' <==> LostAt(e) in ms || LostAt(e) == m;
      }
    }
  }

  lemma ProgressEnd(origs: seq<Inst>, addsLen: nat, n: nat, start: nat, size: nat, ms: seq<Match>, srcset: bool,
                    lo: nat, hi: nat)
    requires InstsOk(origs, addsLen) && Progress(origs, n, start, size, ms, srcset, lo, hi)
    requires size > 0 && start + size <= End(origs[..n])
    ensures Progress(origs, |origs|, start, size, ms, srcset, lo, hi)
  {
    hide Hull, InstsOk;
    BehindWindow(origs, addsLen, n, start, start + size);
    assert origs[..|origs|] == origs;
    forall k | 0 <= k < |origs| ensures !BelowStart(origs[k], start) {
      if k < n {
        assert origs[..n][k] == origs[k];
      }
    }
    forall e: nat ensures EmptyCopy(e, start) in origs <==> EmptyCopy(e, start) in origs[..n] {
      if EmptyCopy(e, start) in origs {
        var k :| 0 <= k < |origs| && origs[k] == EmptyCopy(e, start);
        assert k < n;
        assert origs[..n][k] == origs[k];
      }
    }
  }

  /** The state of the inner loop: `done` instructions have had their turn in the window. */
  ghost predicate Filling(origs: seq<Inst>, insts: seq<Inst>, instPos: nat, done: nat, start: nat, size: nat,
                          windowPos: nat, ms: seq<Match>, srcset: bool, lo: nat, hi: nat) {
    && windowPos <= size && instPos <= |origs| && Cursor(origs, insts, instPos, start + windowPos)
    && done <= |origs| && Progress(origs, done, start, size, ms, srcset, lo, hi)
    && (windowPos < size ==> instPos == done)
    && (0 < windowPos == size ==> start + size <= End(origs[..done]))
    && (0 < windowPos < size && instPos < |origs| ==> origs[instPos].position == start + windowPos)
    && (instPos > 0 && size > 0 ==> origs[instPos - 1].position < start + size)
  }

  lemma FillingStart(origs: seq<Inst>, addsLen: nat, insts: seq<Inst>, instPos: nat, start: nat, size: nat)
    requires InstsOk(origs, addsLen) && Cursor(origs, insts, instPos, start) && Border(origs, instPos, start)
    ensures Filling(origs, insts, instPos, instPos, start, size, 0, [], false, 0, 0)
  {
    hide Cursor, InstsOk, Progress, End;
    CursorBehind(origs, addsLen, insts, instPos, start);
    ProgressStart(origs, addsLen, instPos, start, size);
  }

  /** The body of the inner loop. */
  method FillOne(stream: WholeState, instPos: nat, start: nat, windowPos: nat, size: nat, bdata: array<byte>,
                 ms: seq<Match>, srcset: bool, srcmin: nat, srcmax: nat, ghost origs: seq<Inst>,
                 ghost sym: seq<Origin>)
    returns (ok: bool, instPos': nat, windowPos': nat, ms': seq<Match>, srcset': bool, srcmin': nat, srcmax': nat)
    requires InWindow(origs, stream.adds, sym, start, size) && start + size <= |sym|
    requires instPos < |stream.inst| == |origs| && windowPos < size <= bdata.Length
    requires Filling(origs, stream.inst, instPos, instPos, start, size, windowPos, ms, srcset, srcmin, srcmax)
    requires Collected(ms, bdata[..], sym[start..start + size], windowPos, srcset, srcmin, srcmax)
    modifies stream`inst, bdata
    ensures ok <==> !BelowStart(origs[instPos], start)
    ensures ok ==>
      Filling(origs, stream.inst, instPos', instPos + 1, start, size, windowPos', ms', srcset', srcmin', srcmax')
    ensures ok ==> Collected(ms', bdata[..], sym[start..start + size], windowPos', srcset', srcmin', srcmax')
    ensures |stream.inst| == |origs| && windowPos <= windowPos' <= size
    ensures ok ==> instPos' == instPos + 1 || (instPos' == instPos && windowPos' == size)
    ensures srcmax' <= Max(srcmax, SourceNeed(origs))
  {
    hide InWindow, Collected, Cursor, SourceNeed, Progress, InstsOk, BelowStart, Extended, End;
    ghost var at := start + windowPos;
    WindowParts(origs, stream.adds, sym, start, size);
    CursorAt(origs, stream.inst, instPos, at);
    PieceFacts(origs, |stream.adds|, start, size, instPos);
    var take;
    instPos', windowPos' := instPos, windowPos;
    ok, take, ms', srcset', srcmin', srcmax' :=
      FillPiece(stream, instPos, start, windowPos, size, bdata, ms, srcset, srcmin, srcmax, origs, sym);
    if ok {
      ProgressStep(origs, |stream.adds|, instPos, start, size, windowPos, take, ms, srcset, srcmin, srcmax,
                   ms', srcset', srcmin', srcmax');
      instPos' := Advance(stream, instPos, take, origs, at);
      windowPos' := windowPos + take;
    }
  }

  /** The inner loop of main_merge_output: collects one window. */
  method FillWindow(stream: WholeState, instPos0: nat, start: nat, size: nat, bdata: array<byte>,
                    ghost origs: seq<Inst>, ghost sym: seq<Origin>)
    returns (ok: bool, instPos: nat, ms: seq<Match>, srcset: bool, srcmin: nat, srcmax: nat)
    requires InWindow(origs, stream.adds, sym, start, size) && size <= bdata.Length
    requires Cursor(origs, stream.inst, instPos0, start) && Border(origs, instPos0, start)
    modifies stream`inst, bdata
    ensures ok <==> size == 0 || NoneBelow(origs, start)
    ensures ok ==> Cursor(origs, stream.inst, instPos, start + size) && Border(origs, instPos, start + size)
    ensures start + size <= |sym|
    ensures ok ==> Collected(ms, bdata[..], sym[start..start + size], size, srcset, srcmin, srcmax)
    ensures ok && size > 0 ==> Progress(origs, |origs|, start, size, ms, srcset, srcmin, srcmax)
    ensures ok && size == 0 ==> ms == [] && !srcset
    ensures srcmax <= SourceNeed(origs)
  {
    hide InWindow, Collected, Cursor, SourceNeed, Progress, InstsOk, BelowStart, Filling, Border;
    ok, instPos, ms, srcset, srcmin, srcmax := true, instPos0, [], false, 0, 0;
    var windowPos: nat := 0;
    ghost var done: nat := instPos0;
    WindowParts(origs, stream.adds, sym, start, size);
    NothingCollected(bdata[..], sym[start..start + size]);
    CursorSize(origs, stream.inst, instPos, start);
    FillingStart(origs, |stream.adds|, stream.inst, instPos, start, size);
    while windowPos < size && instPos < |stream.inst| && ok
      invariant windowPos <= size && instPos <= |stream.inst| == |origs|
      invariant ok ==> Filling(origs, stream.inst, instPos, done, start, size, windowPos, ms, srcset, srcmin, srcmax)
      invariant ok ==> Collected(ms, bdata[..], sym[start..start + size], windowPos, srcset, srcmin, srcmax)
      invariant ok && windowPos < size ==> instPos == done
      invariant size == 0 ==> ok && ms == [] && !srcset && instPos == instPos0 && stream.inst == old(stream.inst)
      invariant !ok ==> windowPos < size && !NoneBelow(origs, start)
      invariant srcmax <= SourceNeed(origs)
      decreases ok, |stream.inst| - instPos, size - windowPos
    {
      var instPos': nat, windowPos': nat;
      ok, instPos', windowPos', ms, srcset, srcmin, srcmax :=
        FillOne(stream, instPos, start, windowPos, size, bdata, ms, srcset, srcmin, srcmax, origs, sym);
      if ok {
        done := instPos + 1;
        instPos, windowPos := instPos', windowPos';
        FillingSize(origs, stream.inst, instPos, done, start, size, windowPos, ms, srcset, srcmin, srcmax);
      }
    }
    if ok {
      WindowFilled(origs, stream.adds, stream.inst, instPos, done, start, size, windowPos, ms, srcset, srcmin, srcmax,
                   sym);
    }
  }

  lemma FillingSize(origs: seq<Inst>, insts: seq<Inst>, instPos: nat, done: nat, start: nat, size: nat,
                    windowPos: nat, ms: seq<Match>, srcset: bool, lo: nat, hi: nat)
    requires Filling(origs, insts, instPos, done, start, size, windowPos, ms, srcset, lo, hi)
    ensures instPos <= |origs| && (windowPos < size ==> instPos == done)
  {
  }

  lemma WindowFilled(origs: seq<Inst>, adds: seq<byte>, insts: seq<Inst>, instPos: nat, done: nat, start: nat,
                     size: nat, windowPos: nat, ms: seq<Match>, srcset: bool, lo: nat, hi: nat, sym: seq<Origin>)
    requires InstsOk(origs, |adds|) && sym == Symbolic(origs, adds) && start + size <= |sym| && |insts| == |origs|
    requires Filling(origs, insts, instPos, done, start, size, windowPos, ms, srcset, lo, hi)
    requires windowPos == size || instPos == |insts|
    ensures windowPos == size && Cursor(origs, insts, instPos, start + size)
    ensures size > 0 ==> Border(origs, instPos, start + size)
    ensures size > 0 ==> Progress(origs, |origs|, start, size, ms, srcset, lo, hi) && NoneBelow(origs, start)
  {
    hide Cursor, Progress, InstsOk, Symbolic, NoneBelow, End;
    if windowPos < size {
      CursorWhole(origs, adds, insts, start + windowPos);
      assert false;
    } else if size > 0 {
      ProgressEnd(origs, |adds|, done, start, size, ms, srcset, lo, hi);
      AllProgress(origs, start, size, ms, srcset, lo, hi);
    }
  }

  lemma AllProgress(origs: seq<Inst>, start: nat, size: nat, ms: seq<Match>, srcset: bool, lo: nat, hi: nat)
    requires Progress(origs, |origs|, start, size, ms, srcset, lo, hi)
    ensures NoneBelow(origs, start) && HullOf(srcset, lo, hi) == Hull(origs, start, start + size)
    ensures forall e: nat :: LostAt(e) in ms <==> EmptyCopy(e, start) in origs
  {
    assert origs[..|origs|] == origs;
  }

  lemma CursorBehind(origs: seq<Inst>, addsLen: nat, insts: seq<Inst>, instPos: nat, at: nat)
    requires InstsOk(origs, addsLen) && Cursor(origs, insts, instPos, at)
    ensures instPos <= |origs| && End(origs[..instPos]) <= at
  {
    hide InstsOk;
    PrefixOk(origs, addsLen, instPos);
    assert origs[..|origs|] == origs;
  }

  /** What is left of the instruction, or the next one. */
  method Advance(stream: WholeState, instPos: nat, take: nat, ghost origs: seq<Inst>, ghost at: nat)
    returns (instPos': nat)
    requires InstsOk(origs, |stream.adds|) && instPos < |stream.inst| == |origs|
    requires Cursor(origs, stream.inst, instPos, at) && take <= stream.inst[instPos].size
    requires take == 0 ==> stream.inst[instPos].size == 0
    modifies stream`inst
    ensures Cursor(origs, stream.inst, instPos', at + take) && instPos' <= |stream.inst| == |origs|
    ensures instPos' == if take == old(stream.inst[instPos].size) then instPos + 1 else instPos
    ensures take == old(stream.inst[instPos].size) && instPos' < |origs| ==> origs[instPos'].position == at + take
    ensures origs[instPos].position <= at && at + old(stream.inst[instPos].size) == End(origs[..instPos + 1])
  {
    hide InstsOk, Cursor, End;
    CursorStep(origs, |stream.adds|, stream.inst, instPos, at, take);
    var inst := stream.inst[instPos];
    instPos' := instPos;
    if take == inst.size {
      instPos' := instPos + 1;
    } else {
      if inst.kind != Run {
        inst := inst.(addr := inst.addr + take);
      }
      stream.inst := stream.inst[instPos := inst.(size := inst.size - take)];
    }
  }

  lemma NothingCollected(buf: seq<byte>, o: seq<Origin>)
    requires |o| <= |buf|
    ensures Collected([], buf, o, 0, false, 0, 0)
  {
  }

  lemma CursorSize(origs: seq<Inst>, insts: seq<Inst>, instPos: nat, at: nat)
    requires Cursor(origs, insts, instPos, at)
    ensures instPos <= |insts| == |origs|
  {
  }

  lemma CursorWhole(origs: seq<Inst>, adds: seq<byte>, insts: seq<Inst>, at: nat)
    requires InstsOk(origs, |adds|) && Cursor(origs, insts, |origs|, at)
    ensures at == |Symbolic(origs, adds)|
  {
    hide InstsOk, Symbolic;
    assert |Symbolic(origs, adds)| == End(origs);
  }

  /** The program writes the window: no assertion fails. */
  predicate WindowWritten(insts: seq<Inst>, lo: nat, hi: nat) {
    && (lo < hi ==> NoneBelow(insts, lo))
    && var h := Hull(insts, lo, hi); h.Some? ==> h.value.0 < h.value.1
  }

  /** What it writes is valid: no empty source copy stands at the first byte with an
      address just behind the source window. */
  predicate WindowDecodes(insts: seq<Inst>, lo: nat, hi: nat) {
    var h := Hull(insts, lo, hi); h.Some? ==> EmptyCopy(h.value.1, lo) !in insts
  }

  /** The source window, if there is one. */
  function SourceOf(w: Window): Option<(nat, nat)> {
    if w.cpylen == 0 then None else Some((w.cpyoff, w.cpyoff + w.cpylen))
  }

  /** One window: its matches and its buffer go to the encoder, together with the
      source window just large enough for its source copies, which must not be empty. */
  method EncodeWindow(stream: WholeState, instPos0: nat, start: nat, size: nat, adler32: nat, bdata: array<byte>,
                      ghost origs: seq<Inst>, ghost sym: seq<Origin>)
    returns (ok: bool, instPos: nat, w: Window)
    requires InWindow(origs, stream.adds, sym, start, size) && size <= bdata.Length
    requires Cursor(origs, stream.inst, instPos0, start) && Border(origs, instPos0, start)
    modifies stream`inst, bdata
    ensures ok <==> WindowWritten(origs, start, start + size)
    ensures ok ==> Cursor(origs, stream.inst, instPos, start + size) && Border(origs, instPos, start + size)
    ensures ok ==>
      SymbolicWindow(w) == if WindowDecodes(origs, start, start + size) then Some(sym[start..start + size]) else None
    ensures ok ==> w.cpyoff + w.cpylen <= SourceNeed(origs)
    ensures ok ==> w.tgtlen == size && w.adler32 == adler32 && SourceOf(w) == Hull(origs, start, start + size)
  {
    hide InWindow, Collected, Cursor, EncodeFrom, SymbolicWindow, Hull, NoneBelow, Progress, EmptyCopy, LostAt, Border;
    var ms, srcset, srcmin, srcmax;
    w := Window(0, 0, 0, 0, [], [], []);
    ok, instPos, ms, srcset, srcmin, srcmax := FillWindow(stream, instPos0, start, size, bdata, origs, sym);
    if ok {
      assert start + size <= |sym| by { InWindowSize(origs, stream.adds, sym, start, size); }
      ghost var o := sym[start..start + size];
      if size > 0 {
        AllProgress(origs, start, size, ms, srcset, srcmin, srcmax);
      } else {
        NoHull(origs, start);
      }
      CollectedDecodes(ms, bdata[..], o, srcset, srcmin, srcmax, adler32);
      CollectedRange(ms, bdata[..], o, size, srcset, srcmin, srcmax);
      var base, len := if srcset then srcmin else 0, if srcset then srcmax - srcmin else 0;
      var e := EncodeFrom(ms, bdata[..][..size], 0, base, len);
      w := Window(base, len, size, adler32, e.ops, e.addrs, e.data);
      ok := !(srcset && len == 0);
    }
  }

  lemma NoHull(insts: seq<Inst>, lo: nat)
    ensures Hull(insts, lo, lo) == None
  {
    HullUntouched(insts, 0, lo, lo);
    assert insts[..0] == [];
  }

  lemma InWindowSize(origs: seq<Inst>, adds: seq<byte>, sym: seq<Origin>, start: nat, size: nat)
    requires InWindow(origs, adds, sym, start, size)
    ensures start + size <= |sym|
  {
  }

  lemma CursorStep(origs: seq<Inst>, addsLen: nat, insts: seq<Inst>, instPos: nat, at: nat, take: nat)
    requires InstsOk(origs, addsLen) && instPos < |origs| && Cursor(origs, insts, instPos, at)
    requires take <= insts[instPos].size && (take == 0 ==> insts[instPos].size == 0)
    ensures take == insts[instPos].size ==> Cursor(origs, insts, instPos + 1, at + take)
    ensures take < insts[instPos].size ==>
      Cursor(origs, insts[instPos := Cut(insts[instPos], take)], instPos, at + take)
    ensures origs[instPos].position <= at && at + insts[instPos].size == End(origs[..instPos + 1])
    ensures instPos + 1 < |origs| ==> origs[instPos + 1].position == End(origs[..instPos + 1])
  {
    PrefixOk(origs, addsLen, instPos + 1);
    assert End(origs[..instPos + 1]) == origs[instPos].position + origs[instPos].size;
    assert instPos + 1 == |origs| ==> origs[..instPos + 1] == origs;
  }

  predicate WrittenAt(d: Whole, n: nat) {
    n < |d.wininfo| &&
    var lo := WinStart(d.wininfo, n); WindowWritten(d.insts, lo, lo + d.wininfo[n].length)
  }

  predicate DecodesAt(d: Whole, n: nat) {
    n < |d.wininfo| &&
    var lo := WinStart(d.wininfo, n); WindowDecodes(d.insts, lo, lo + d.wininfo[n].length)
  }

  /** The program is written to its end: there is a window, the last instruction is not
      empty, and no window runs into an assertion. */
  predicate Written(d: Whole) {
    && d.wininfo != [] && (d.insts != [] ==> d.insts[|d.insts| - 1].size > 0)
    && forall n | 0 <= n < |d.wininfo| :: WrittenAt(d, n)
  }

  predicate AllDecode(d: Whole, n: nat) {
    forall k | 0 <= k < n :: DecodesAt(d, k)
  }

  /** And what is written is valid. */
  predicate Cuttable(d: Whole) {
    Written(d) && AllDecode(d, |d.wininfo|)
  }

  /** A written window has the length and the checksum recorded, and the least source window
      for its source copies. */
  predicate Labels(w: Window, d: Whole, n: nat) {
    n < |d.wininfo| &&
    var lo, info := WinStart(d.wininfo, n), d.wininfo[n];
    w.tgtlen == info.length && w.adler32 == info.adler32 && SourceOf(w) == Hull(d.insts, lo, lo + info.length)
  }

  predicate LabelledTo(ws: seq<Window>, d: Whole, n: nat) {
    |ws| == n <= |d.wininfo| && forall k | 0 <= k < n :: Labels(ws[k], d, k)
  }

  /** Every window recorded is written, but for those at the end that hold nothing. */
  predicate Labelled(ws: seq<Window>, d: Whole) {
    && LabelledTo(ws, d, |ws|) && ws != []
    && (|ws| > 1 ==> d.wininfo[|ws| - 1].length > 0)
    && forall k | |ws| <= k < |d.wininfo| :: d.wininfo[k].length == 0
  }

  predicate LastSolid(d: Whole) {
    d.insts != [] ==> d.insts[|d.insts| - 1].size > 0
  }

  lemma NothingLabelled(d: Whole)
    ensures LabelledTo([], d, 0)
  {
  }

  lemma LabelNext(ws: seq<Window>, w: Window, d: Whole, n: nat)
    requires LabelledTo(ws, d, n) && Labels(w, d, n)
    ensures LabelledTo(ws + [w], d, n + 1)
  {
  }

  /** Where instructions are left and the last one is not empty, bytes are left. */
  lemma MoreToCome(d: Whole, insts: seq<Inst>, instPos: nat, at: nat)
    requires WellFormed(d) && LastSolid(d) && Cursor(d.insts, insts, instPos, at) && instPos < |d.insts|
    ensures at < d.length
  {
    hide InstsOk;
    var n := |d.insts| - 1;
    PrefixOk(d.insts, |d.adds|, n);
    PrefixOk(d.insts, |d.adds|, instPos + 1);
    assert d.insts[n].position == End(d.insts[..n]) && d.length == d.insts[n].position + d.insts[n].size;
    if instPos < n {
      Positions(d.insts, |d.adds|, instPos + 1, n);
      assert End(d.insts[..instPos + 1]) == d.insts[instPos].position + d.insts[instPos].size;
    }
  }

  lemma RestEmpty(d: Whole, n: nat)
    requires Windowed(d) && 0 < n <= |d.wininfo| && WinStart(d.wininfo, n) == d.length
    ensures forall k | n <= k < |d.wininfo| :: d.wininfo[k].length == 0
  {
    hide AllStayIn, WinStart;
    forall k | n <= k < |d.wininfo| ensures d.wininfo[k].length == 0 {
      WinStartMonotone(d.wininfo, n, k);
      WinStartNext(d.wininfo, k);
      WinStartMonotone(d.wininfo, k + 1, |d.wininfo|);
    }
  }

  lemma LabelsEnd(ws: seq<Window>, d: Whole, n: nat)
    requires LabelledTo(ws, d, n) && 0 < n && WinStart(d.wininfo, n) == d.length && Written(d)
    requires n > 1 && LastSolid(d) ==> WinStart(d.wininfo, n - 1) < d.length
    requires forall k | n <= k < |d.wininfo| :: d.wininfo[k].length == 0
    ensures Labelled(ws, d)
  {
    hide WrittenAt, Labels;
  }

  /** main_merge_output once the deltas are merged.  It comes to an end without a failed
      assertion just when the program can be written, and the windows decode to the file
      of the program just when it can be cut; otherwise they are invalid.  The only error is
      a window whose recorded offset is not where the window starts. */
  method MergeOutput(stream: WholeState) returns (r: Status, ws: seq<Window>)
    requires WellFormed(stream.Value()) && Windowed(stream.Value())
    modifies stream`inst
    ensures r in {Ok, Internal, Overrun, Asserts} && (r == Internal ==> !OffsetsMatch(stream.wininfo))
    ensures r == Ok ==> Written(old(stream.Value()))
    ensures OffsetsMatch(stream.wininfo) && Written(old(stream.Value())) ==> r == Ok
    ensures r == Ok ==>
      FileOrigins(ws) == if Cuttable(old(stream.Value())) then Some(old(stream.Origins())) else None
    ensures r == Ok ==> CopyWindowsFit(ws, SourceNeed(old(stream.inst)))
    ensures r == Ok ==> Labelled(ws, old(stream.Value()))
    ensures stream.wininfo == old(stream.wininfo)
  {
    hide InstsOk, Symbolic, Windowed, Cursor, SymbolicWindow, WinStart, InWindow, FileOrigins, CopyWindowsFit,
      SourceNeed, OffsetsMatch, Hull, WindowWritten, WindowDecodes, Border, AllDecode, Written, LabelledTo, Labels,
      LastSolid;
    ghost var origs, sym, d := stream.inst, stream.Origins(), stream.Value();
    var bdata := new byte[0];
    var instPos: nat, outputPos: nat, windowNum: nat, atLeastOnce := 0, 0, 0, false;
    r, ws := Ok, [];
    assert sym[..0] == [];
    FirstCursor(origs, |stream.adds|);
    FirstWindow(d, SourceNeed(origs));
    NothingLabelled(d);
    while r == Ok && (instPos < |stream.inst| || !atLeastOnce)
      invariant fresh(bdata) && stream.wininfo == d.wininfo && windowNum <= |d.wininfo|
      invariant r in {Ok, Internal, Overrun, Asserts} && (r == Internal ==> !OffsetsMatch(d.wininfo))
      invariant r == Overrun || r == Asserts ==> !Written(d)
      invariant r == Ok ==> outputPos == WinStart(d.wininfo, windowNum) <= |sym|
      invariant r == Ok ==> Cursor(origs, stream.inst, instPos, outputPos) && |stream.inst| == |origs|
      invariant r == Ok ==> Border(origs, instPos, outputPos)
      invariant !atLeastOnce <==> windowNum == 0 && r == Ok
      invariant r == Ok ==> forall n | 0 <= n < windowNum :: WrittenAt(d, n)
      invariant r == Ok ==> FileOrigins(ws) == if AllDecode(d, windowNum) then Some(sym[..outputPos]) else None
      invariant r == Ok ==> CopyWindowsFit(ws, SourceNeed(origs))
      invariant r == Ok ==> LabelledTo(ws, d, windowNum)
      invariant r == Ok && windowNum > 1 && LastSolid(d) ==> WinStart(d.wininfo, windowNum - 1) < d.length
      decreases r == Ok, |stream.wininfo| - windowNum
    {
      atLeastOnce := true;
      if windowNum == |stream.wininfo| {
        r := Overrun;
        TooManyInsts(d, stream.inst, instPos, outputPos);
      } else {
        WindowAt(d, sym, windowNum);
        OffsetAt(stream.wininfo, windowNum);
        if LastSolid(d) && instPos < |stream.inst| {
          MoreToCome(d, stream.inst, instPos, outputPos);
        }
        var size := stream.wininfo[windowNum].length;
        if outputPos != stream.wininfo[windowNum].offset {
          r := Internal;
        } else {
          if bdata.Length < size {
            bdata := new byte[size];
          }
          var ok, w;
          ok, instPos, w := EncodeWindow(stream, instPos, outputPos, size, stream.wininfo[windowNum].adler32, bdata,
                                         origs, sym);
          if !ok {
            r := Asserts;
            NotWritten(d, windowNum);
          } else {
            FileAppend(ws, w, sym, outputPos, outputPos + size, d, windowNum);
            FitAppend(ws, w, SourceNeed(origs));
            LabelNext(ws, w, d, windowNum);
            ws := ws + [w];
            outputPos := outputPos + size;
            windowNum := windowNum + 1;
            CursorLength(origs, stream.inst, instPos, outputPos);
          }
        }
      }
    }
    if r == Ok {
      CursorEnd(origs, stream.inst, instPos, outputPos);
      AllWritten(d, windowNum);
      RestEmpty(d, windowNum);
      LabelsEnd(ws, d, windowNum);
      assert sym[..outputPos] == sym;
    }
  }

  lemma NotWritten(d: Whole, n: nat)
    requires n < |d.wininfo| && !WrittenAt(d, n)
    ensures !Written(d)
  {
  }

  lemma FirstWindow(d: Whole, n: nat)
    ensures WinStart(d.wininfo, 0) == 0 && FileOrigins([]) == Some([]) && CopyWindowsFit([], n) && AllDecode(d, 0)
  {
  }

  lemma OffsetAt(wininfo: seq<WinInfo>, n: nat)
    requires n < |wininfo|
    ensures OffsetsMatch(wininfo) ==> wininfo[n].offset == WinStart(wininfo, n)
  {
  }

  /** Where windows run out before the instructions do, the last instruction is empty. */
  lemma TooManyInsts(d: Whole, insts: seq<Inst>, instPos: nat, at: nat)
    requires WellFormed(d) && Windowed(d) && at == WinStart(d.wininfo, |d.wininfo|)
    requires Cursor(d.insts, insts, instPos, at) && (d.wininfo == [] || instPos < |d.insts|)
    ensures !Written(d)
  {
    hide AllStayIn, InstsOk, WinStart;
    if d.wininfo != [] {
      var n := |d.insts| - 1;
      assert d.insts[..|d.insts|] == d.insts;
      PrefixOk(d.insts, |d.adds|, instPos + 1);
      PrefixOk(d.insts, |d.adds|, n);
      Positions(d.insts, |d.adds|, instPos + 1, |d.insts|);
      assert End(d.insts[..instPos + 1]) == d.insts[instPos].position + d.insts[instPos].size;
      if instPos < n {
        Positions(d.insts, |d.adds|, instPos + 1, n);
      }
    }
  }

  /** Windows behind the end of the file hold nothing. */
  lemma AllWritten(d: Whole, windowNum: nat)
    requires WellFormed(d) && Windowed(d) && 0 < windowNum <= |d.wininfo| && WinStart(d.wininfo, windowNum) == d.length
    requires Border(d.insts, |d.insts|, d.length) && forall n | 0 <= n < windowNum :: WrittenAt(d, n)
    ensures Written(d) && (AllDecode(d, |d.wininfo|) <==> AllDecode(d, windowNum))
  {
    hide AllStayIn, InstsOk, WinStart, Hull, NoneBelow;
    forall n | windowNum <= n < |d.wininfo| ensures WrittenAt(d, n) && DecodesAt(d, n) {
      WinStartMonotone(d.wininfo, windowNum, n);
      WinStartNext(d.wininfo, n);
      WinStartMonotone(d.wininfo, n + 1, |d.wininfo|);
      NoHull(d.insts, d.length);
    }
  }

  lemma WindowAt(d: Whole, sym: seq<Origin>, n: nat)
    requires WellFormed(d) && Windowed(d) && n < |d.wininfo| && sym == Symbolic(d.insts, d.adds)
    ensures WinStart(d.wininfo, n + 1) == WinStart(d.wininfo, n) + d.wininfo[n].length <= |sym|
    ensures InWindow(d.insts, d.adds, sym, WinStart(d.wininfo, n), d.wininfo[n].length)
  {
    hide AllStayIn, Symbolic, InstsOk, WinStart;
    WinStartNext(d.wininfo, n);
    WinStartMonotone(d.wininfo, n + 1, |d.wininfo|);
  }

  lemma CursorLength(origs: seq<Inst>, insts: seq<Inst>, instPos: nat, at: nat)
    requires Cursor(origs, insts, instPos, at)
    ensures |insts| == |origs|
  {
  }

  lemma FirstCursor(insts: seq<Inst>, addsLen: nat)
    requires InstsOk(insts, addsLen)
    ensures Cursor(insts, insts, 0, 0) && Border(insts, 0, 0)
  {
    PrefixOk(insts, addsLen, 0);
  }

  lemma CursorEnd(origs: seq<Inst>, insts: seq<Inst>, instPos: nat, at: nat)
    requires Cursor(origs, insts, instPos, at) && instPos >= |insts|
    ensures at == End(origs) && instPos == |origs|
  {
  }

  lemma FileAppend(ws: seq<Window>, w: Window, sym: seq<Origin>, lo: nat, hi: nat, d: Whole, n: nat)
    requires lo <= hi <= |sym|
    requires FileOrigins(ws) == if AllDecode(d, n) then Some(sym[..lo]) else None
    requires SymbolicWindow(w) == if DecodesAt(d, n) then Some(sym[lo..hi]) else None
    ensures FileOrigins(ws + [w]) == if AllDecode(d, n + 1) then Some(sym[..hi]) else None
  {
    hide SymbolicWindow, DecodesAt;
    assert (ws + [w])[..|ws|] == ws;
    assert sym[..lo] + sym[lo..hi] == sym[..hi];
    assert AllDecode(d, n + 1) <==> AllDecode(d, n) && DecodesAt(d, n);
  }

  lemma FitAppend(ws: seq<Window>, w: Window, n: nat)
    requires CopyWindowsFit(ws, n) && w.cpyoff + w.cpylen <= n
    ensures CopyWindowsFit(ws + [w], n)
  {
  }

  /** What the merge command must do to every source the first delta applies to. */
  ghost predicate RecodesComposition(ws: seq<Window>, input: Whole, first: Whole)
    requires WellFormed(input) && WellFormed(first) && Fits(input.insts, first.length)
  {
    forall src: seq<byte> | Fits(first.insts, |src|) ::
      FileBytes(ws, src) == Some(Decode(input.insts, input.adds, Decode(first.insts, first.adds, src)))
  }

  lemma {:induction false} WellFormedIsInput(insts: seq<Inst>, addsLen: nat)
    requires InstsOk(insts, addsLen)
    ensures InputOk(insts, addsLen)
    decreases |insts|
  {
    if insts != [] {
      WellFormedIsInput(insts[..|insts| - 1], addsLen);
    }
  }

  /** Merging keeps every target copy inside its window. */
  lemma MergedWindowed(merged: Whole, input: Whole, first: Whole)
    requires IsComposition(merged, input, first) && merged.wininfo == input.wininfo && Windowed(input)
    ensures Windowed(merged)
  {
    hide Symbolic, InstsOk, WinStart, Below;
    forall n | 0 <= n < |merged.wininfo|
      ensures AllStayIn(merged.insts, WinStart(merged.wininfo, n),
          WinStart(merged.wininfo, n) + merged.wininfo[n].length)
    {
      SameTargets(input.insts, merged.insts, WinStart(input.wininfo, n),
          WinStart(input.wininfo, n) + input.wininfo[n].length);
    }
    MergedLength(merged, input, first);
  }

  lemma MergedLength(merged: Whole, input: Whole, first: Whole)
    requires IsComposition(merged, input, first)
    ensures merged.length == input.length
  {
  }

  lemma SameTargets(was: seq<Inst>, now: seq<Inst>, lo: nat, hi: nat)
    requires NoNewTargetCopy(was, now) && AllStayIn(was, lo, hi)
    ensures AllStayIn(now, lo, hi)
  {
    forall k | 0 <= k < |now|
      ensures StaysIn(now[k], lo, hi)
    {
      if IsTargetCopy(now[k]) {
        var j :| 0 <= j < |was| && was[j] == now[k];
        assert StaysIn(was[j], lo, hi);
      }
    }
  }

  lemma RecodeCorrect(ws: seq<Window>, merged: Whole, input: Whole, first: Whole)
    requires IsComposition(merged, input, first)
    requires FileOrigins(ws) == Some(Symbolic(merged.insts, merged.adds))
    ensures RecodesComposition(ws, input, first)
  {
    hide Symbolic, InstsOk, Decode, FileBytes, FileOrigins;
    forall src: seq<byte> | Fits(first.insts, |src|)
      ensures FileBytes(ws, src) == Some(Decode(input.insts, input.adds, Decode(first.insts, first.adds, src)))
    {
      CompositionDecodes(merged, input, first, src);
      FlattenedDecodes(merged, ws, src);
    }
  }

  /** What writing a program as windows comes to. */
  ghost predicate Result(r: Status, ws: seq<Window>, d: Whole)
    requires WellFormed(d)
  {
    && (r == Ok <==> Written(d)) && r in {Ok, Overrun, Asserts}
    && (r == Ok ==> FileOrigins(ws) == if Cuttable(d) then Some(Symbolic(d.insts, d.adds)) else None)
    && (r == Ok ==> Labelled(ws, d))
  }

  /** main_merge_output as a whole: the last delta, read into `stream`, is merged with
      `mergeStream` and written as windows.  Where the merged program can be cut, decoding
      these windows against any source does what the two deltas do one after the other. */
  method MergeFinal(stream: WholeState, mergeStream: WholeState) returns (r: Status, ws: seq<Window>)
    requires stream != mergeStream && WellFormed(mergeStream.Value())
    requires WellFormed(stream.Value()) && Windowed(stream.Value()) && OffsetsMatch(stream.wininfo)
    modifies stream
    ensures !old(Mergeable(stream.Value(), mergeStream.Value())) ==>
      r == Outcome(old(stream.inst), mergeStream.length) != Ok
    ensures old(Mergeable(stream.Value(), mergeStream.Value())) ==>
      var m := old(Merged(stream.Value(), mergeStream.Value()));
      && IsComposition(m, old(stream.Value()), mergeStream.Value()) && Result(r, ws, m)
      && (Cuttable(m) ==> RecodesComposition(ws, old(stream.Value()), mergeStream.Value()))
      && m.wininfo == old(stream.wininfo)
      && (NoneEmpty(mergeStream.inst) && NoneEmpty(old(stream.inst)) ==> NoneEmpty(m.insts))
  {
    hide Symbolic, InstsOk, Windowed, InputOk, Decode, Fits, Merged, Written, AllDecode, OffsetsMatch, Labelled;
    ghost var input, first := stream.Value(), mergeStream.Value();
    ws := [];
    WellFormedIsInput(input.insts, |input.adds|);
    r := stream.MergeInputOutput(mergeStream);
    if r == Ok {
      ghost var merged := stream.Value();
      MergedWindowed(merged, input, first);
      r, ws := MergeOutput(stream);
      if Cuttable(merged) {
        RecodeCorrect(ws, merged, input, first);
      }
    }
  }

  // ----------------------------------------- programs that can always be cut

  lemma {:induction false} SolidHull(insts: seq<Inst>, lo: nat, hi: nat)
    requires NoneEmpty(insts)
    ensures var h := Hull(insts, lo, hi); h.Some? ==> h.value.0 < h.value.1
    decreases |insts|
  {
    if insts != [] {
      SolidHull(insts[..|insts| - 1], lo, hi);
    }
  }

  /** A program in which no instruction is empty can be cut into any windows. */
  lemma SolidCuttable(d: Whole)
    requires d.wininfo != [] && NoneEmpty(d.insts)
    ensures Cuttable(d)
  {
    hide Hull, WinStart;
    forall n | 0 <= n < |d.wininfo| ensures WrittenAt(d, n) && DecodesAt(d, n) {
      var lo := WinStart(d.wininfo, n);
      SolidHull(d.insts, lo, lo + d.wininfo[n].length);
    }
  }
}
