/**
  One VCDIFF target window (sections 3 to 6 of RFC 3284): half-instructions with
  their sizes, copy addresses and literal data in three separate sections, and an
  address space made of the copy window followed by the target window.
 */
module Vcdiff {
  import opened Bytes
  import opened Delta

  /** Half of an opcode.  For copies `addr` is filled in when the instruction is
      parsed, from the address section. */
  datatype Half = Noop | Half(kind: Kind, size: nat, addr: nat)

  /** An opcode of the instruction section: two half-instructions of the code
      table, with explicit sizes already read. */
  datatype Opcode = Opcode(first: Half, second: Half)

  function Halves(ops: seq<Opcode>): seq<Half> {
    if ops == [] then [] else [ops[0].first, ops[0].second] + Halves(ops[1..])
  }

  /** The bounds checks on a copy address. */
  predicate CopyOk(addr: nat, size: nat, segLen: nat, outLen: nat) {
    addr < segLen + outLen && (addr < segLen ==> addr + size <= segLen)
  }

  /** What is left of the address and data sections, and the target bytes written. */
  datatype State<T> = State(addrs: seq<nat>, data: seq<T>, out: seq<T>)

  /**
    One half-instruction.  `seg` holds as much of the copy window (of declared
    length `segLen`) as the source really has.  `None` is an error: an address or
    size out of bounds, or missing addresses, data or source bytes.
   */
  function Step<T>(h: Half, s: State<T>, seg: seq<T>, segLen: nat, tgtLen: nat): (r: Option<State<T>>)
    requires |seg| <= segLen
    ensures r.Some? && h.Half? ==> |r.value.out| == |s.out| + h.size <= tgtLen
    ensures r.Some? ==> s.out <= r.value.out
  {
    if h.Noop? then Some(s)
    else if |s.out| + h.size > tgtLen then None
    else match h.kind
      case Run =>
        if s.data == [] then None
        else Some(s.(data := s.data[1..], out := s.out + Repeat(s.data[0], h.size)))
      case Add =>
        if |s.data| < h.size then None
        else Some(s.(data := s.data[h.size..], out := s.out + s.data[..h.size]))
      case Cpy =>
        if s.addrs == [] || !CopyOk(s.addrs[0], h.size, segLen, |s.out|) then None
        else
          var addr, s' := s.addrs[0], s.(addrs := s.addrs[1..]);
          if addr >= segLen then Some(s'.(out := CopyForward(s.out, addr - segLen, h.size)))
          else if h.size == 0 then Some(s')
          else if addr + h.size > |seg| then None
          else Some(s'.(out := s.out + seg[addr..addr + h.size]))
  }

  /**
    The reference interpreter of a window.  Besides the errors of its instructions,
    left-over data or addresses and a wrong target length are errors.
   */
  function Interpret<T>(halves: seq<Half>, s: State<T>, seg: seq<T>, segLen: nat, tgtLen: nat): (r: Option<seq<T>>)
    requires |seg| <= segLen
    ensures r.Some? ==> |r.value| == tgtLen && s.out <= r.value
    decreases |halves|
  {
    if halves == [] then
      if s.addrs == [] && s.data == [] && |s.out| == tgtLen then Some(s.out) else None
    else match Step(halves[0], s, seg, segLen, tgtLen)
      case None => None
      case Some(s') => Interpret(halves[1..], s', seg, segLen, tgtLen)
  }

  lemma InterpretCons<T>(h: Half, rest: seq<Half>, s: State<T>, seg: seq<T>, segLen: nat, tgtLen: nat)
    requires |seg| <= segLen
    ensures Interpret([h] + rest, s, seg, segLen, tgtLen)
         == match Step(h, s, seg, segLen, tgtLen)
            case None => None
            case Some(s') => Interpret(rest, s', seg, segLen, tgtLen)
  {
    assert ([h] + rest)[1..] == rest;
  }

  /** A window as it lies in a delta file; without a copy window `cpylen` is zero. */
  datatype Window = Window(cpyoff: nat, cpylen: nat, tgtlen: nat, adler32: nat,
                           ops: seq<Opcode>, addrs: seq<nat>, data: seq<byte>)

  /** The part of a copy window that the source file really has. */
  function Segment(cpyoff: nat, cpylen: nat, src: seq<byte>): (seg: seq<byte>)
    ensures |seg| <= cpylen
  {
    src[Min(cpyoff, |src|)..Min(cpyoff + cpylen, |src|)]
  }

  lemma SegmentSlice(cpyoff: nat, cpylen: nat, src: seq<byte>, a: nat, n: nat)
    requires a + n <= cpylen && 0 < n && cpyoff + a + n <= |src|
    ensures a + n <= |Segment(cpyoff, cpylen, src)|
    ensures Segment(cpyoff, cpylen, src)[a..a + n] == src[cpyoff + a..cpyoff + a + n]
  {
  }

  function DecodeWindow(w: Window, src: seq<byte>): (r: Option<seq<byte>>)
    ensures r.Some? ==> |r.value| == w.tgtlen
  {
    Interpret(Halves(w.ops), State(w.addrs, w.data, []), Segment(w.cpyoff, w.cpylen, src), w.cpylen, w.tgtlen)
  }

  function SymbolicSegment(w: Window): (seg: seq<Origin>)
    ensures |seg| == w.cpylen
  {
    seq(w.cpylen, k requires 0 <= k < w.cpylen => Src(w.cpyoff + k))
  }

  function Lits(data: seq<byte>): (o: seq<Origin>)
    ensures |o| == |data|
  {
    seq(|data|, k requires 0 <= k < |data| => Lit(data[k]))
  }

  /** The window run without its source: the origin of every byte. */
  function SymbolicWindow(w: Window): (r: Option<seq<Origin>>)
    ensures r.Some? ==> |r.value| == w.tgtlen
  {
    Interpret(Halves(w.ops), State(w.addrs, Lits(w.data), []), SymbolicSegment(w), w.cpylen, w.tgtlen)
  }

  ghost predicate StateBelow(s: State<Origin>, n: nat) {
    Below(s.data, n) && Below(s.out, n)
  }

  function EvalState(s: State<Origin>, src: seq<byte>): State<byte>
    requires StateBelow(s, |src|)
  {
    State(s.addrs, Eval(s.data, src), Eval(s.out, src))
  }

  lemma StepEval(h: Half, s: State<Origin>, seg: seq<Origin>, tgtLen: nat, src: seq<byte>)
    requires Below(seg, |src|) && StateBelow(s, |src|)
    ensures var r := Step(h, s, seg, |seg|, tgtLen);
            var b := Step(h, EvalState(s, src), Eval(seg, src), |seg|, tgtLen);
            && (r.Some? <==> b.Some?)
            && (r.Some? ==> StateBelow(r.value, |src|) && b.value == EvalState(r.value, src))
  {
    if h.Half? && |s.out| + h.size <= tgtLen {
      match h.kind {
        case Run => RunEval(h, s, seg, tgtLen, src);
        case Add =>
          if |s.data| >= h.size {
            EvalSlice(s.data, h.size, |s.data|, src);
            EvalSlice(s.data, 0, h.size, src);
            EvalConcat(s.out, s.data[..h.size], src);
          }
        case Cpy => CpyEval(h, s, seg, tgtLen, src);
      }
    }
  }

  lemma RunEval(h: Half, s: State<Origin>, seg: seq<Origin>, tgtLen: nat, src: seq<byte>)
    requires Below(seg, |src|) && StateBelow(s, |src|) && h.Half? && h.kind == Run
    ensures var r := Step(h, s, seg, |seg|, tgtLen);
            var b := Step(h, EvalState(s, src), Eval(seg, src), |seg|, tgtLen);
            && (r.Some? <==> b.Some?)
            && (r.Some? ==> StateBelow(r.value, |src|) && b.value == EvalState(r.value, src))
  {
    if s.data != [] {
      EvalSlice(s.data, 1, |s.data|, src);
      var run := Repeat(s.data[0], h.size);
      assert Eval(run, src) == Repeat(Eval(s.data, src)[0], h.size);
      EvalConcat(s.out, run, src);
    }
  }

  lemma CpyEval(h: Half, s: State<Origin>, seg: seq<Origin>, tgtLen: nat, src: seq<byte>)
    requires Below(seg, |src|) && StateBelow(s, |src|) && h.Half? && h.kind == Cpy
    ensures var r := Step(h, s, seg, |seg|, tgtLen);
            var b := Step(h, EvalState(s, src), Eval(seg, src), |seg|, tgtLen);
            && (r.Some? <==> b.Some?)
            && (r.Some? ==> StateBelow(r.value, |src|) && b.value == EvalState(r.value, src))
  {
    hide CopyForward;
    if s.addrs != [] && CopyOk(s.addrs[0], h.size, |seg|, |s.out|) {
      var addr := s.addrs[0];
      if addr >= |seg| {
        CopyForwardEval(s.out, src, addr - |seg|, h.size);
      } else {
        EvalSlice(seg, addr, addr + h.size, src);
        EvalConcat(s.out, seg[addr..addr + h.size], src);
      }
    }
  }

  /** `bytes` is as much of the segment `seg` as the source has. */
  ghost predicate Truncated(seg: seq<Origin>, bytes: seq<byte>, src: seq<byte>) {
    && |bytes| <= |seg|
    && Below(seg[..|bytes|], |src|) && bytes == Eval(seg[..|bytes|], src)
    && forall k | |bytes| <= k < |seg| :: seg[k].Src? && seg[k].at >= |src|
  }

  /** One half-instruction run on bytes fails only where it fails without them or reads
      beyond the end of the source. */
  lemma StepReads(h: Half, s: State<Origin>, seg: seq<Origin>, bytes: seq<byte>, tgtLen: nat, src: seq<byte>)
    requires Truncated(seg, bytes, src) && StateBelow(s, |src|)
    ensures var r := Step(h, s, seg, |seg|, tgtLen);
            var b := Step(h, EvalState(s, src), bytes, |seg|, tgtLen);
            && (b.Some? <==> r.Some? && Below(r.value.out, |src|))
            && (b.Some? ==> StateBelow(r.value, |src|) && b.value == EvalState(r.value, src))
  {
    if h.Half? && h.kind == Cpy && s.addrs != [] && s.addrs[0] < |seg| {
      SourceReads(h, s, seg, bytes, tgtLen, src);
    } else {
      // the segment is not looked at
      var none := seq(|seg|, _ => Lit(0));
      StepEval(h, s, none, tgtLen, src);
      assert Step(h, s, none, |seg|, tgtLen) == Step(h, s, seg, |seg|, tgtLen);
    }
  }

  lemma SliceOfTake<T>(s: seq<T>, n: nat, lo: nat, hi: nat)
    requires lo <= hi <= n <= |s|
    ensures s[..n][lo..hi] == s[lo..hi]
  {
  }

  lemma SourceReads(h: Half, s: State<Origin>, seg: seq<Origin>, bytes: seq<byte>, tgtLen: nat, src: seq<byte>)
    requires Truncated(seg, bytes, src) && StateBelow(s, |src|)
    requires h.Half? && h.kind == Cpy && s.addrs != [] && s.addrs[0] < |seg|
    ensures var r := Step(h, s, seg, |seg|, tgtLen);
            var b := Step(h, EvalState(s, src), bytes, |seg|, tgtLen);
            && (b.Some? <==> r.Some? && Below(r.value.out, |src|))
            && (b.Some? ==> StateBelow(r.value, |src|) && b.value == EvalState(r.value, src))
  {
    var addr, size := s.addrs[0], h.size;
    if |s.out| + size <= tgtLen && 0 < size && addr + size <= |seg| {
      var piece := seg[addr..addr + size];
      if addr + size <= |bytes| {
        var front := seg[..|bytes|];
        assert piece == front[addr..addr + size] by { SliceOfTake(seg, |bytes|, addr, addr + size); }
        EvalSlice(front, addr, addr + size, src);
        EvalConcat(s.out, piece, src);
      } else {
        var last := s.out + piece;
        assert last[|last| - 1] == seg[addr + size - 1];
      }
    }
  }

  lemma {:induction false} InterpretReads(halves: seq<Half>, s: State<Origin>, seg: seq<Origin>, bytes: seq<byte>,
                                          tgtLen: nat, src: seq<byte>)
    requires Truncated(seg, bytes, src) && StateBelow(s, |src|)
    ensures var r := Interpret(halves, s, seg, |seg|, tgtLen);
            var b := Interpret(halves, EvalState(s, src), bytes, |seg|, tgtLen);
            && (b.Some? <==> r.Some? && Below(r.value, |src|))
            && (b.Some? ==> b.value == Eval(r.value, src))
    decreases |halves|
  {
    if halves != [] {
      hide Step, Truncated;
      SameLength(seg, bytes, src);
      StepReads(halves[0], s, seg, bytes, tgtLen, src);
      match Step(halves[0], s, seg, |seg|, tgtLen)
      case None =>
      case Some(s') =>
        var r := Interpret(halves[1..], s', seg, |seg|, tgtLen);
        if Below(s'.out, |src|) {
          InterpretReads(halves[1..], s', seg, bytes, tgtLen, src);
        } else if r.Some? {
          BelowPrefix(s'.out, r.value, |src|);
        }
    }
  }

  lemma SameLength(seg: seq<Origin>, bytes: seq<byte>, src: seq<byte>)
    requires Truncated(seg, bytes, src)
    ensures |bytes| <= |seg|
  {
  }

  lemma BelowPrefix(o: seq<Origin>, all: seq<Origin>, n: nat)
    requires o <= all
    ensures Below(all, n) ==> Below(o, n)
  {
  }

  /** The window decodes against a source just when it runs without one and every byte it
      takes from the source is there; then both runs agree. */
  lemma WindowEval(w: Window, src: seq<byte>)
    ensures DecodeWindow(w, src).Some? <==> SymbolicWindow(w).Some? && Below(SymbolicWindow(w).value, |src|)
    ensures DecodeWindow(w, src).Some? ==> DecodeWindow(w, src).value == Eval(SymbolicWindow(w).value, src)
  {
    var seg, bytes, s := SymbolicSegment(w), Segment(w.cpyoff, w.cpylen, src), State(w.addrs, Lits(w.data), []);
    assert bytes == Eval(seg[..|bytes|], src);
    assert EvalState(s, src) == State(w.addrs, w.data, []);
    InterpretReads(Halves(w.ops), s, seg, bytes, w.tgtlen, src);
  }
}
