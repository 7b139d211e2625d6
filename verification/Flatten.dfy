/**
  xdelta3-merge.h: flattening the windows of a delta into one whole-file program
  with absolute addresses (xd3_whole_append_inst, xd3_whole_append_window).
 */
module Flatten {
  import opened Bytes
  import opened Delta
  import opened Vcdiff
  import opened Decoder
  import opened Merge

  /** Literal bytes the half-instructions will take from the data section. */
  function DataNeeded(halves: seq<Half>): nat {
    if halves == [] then 0
    else
      (if halves[0].Noop? then 0
       else match halves[0].kind case Run => 1 case Add => halves[0].size case Cpy => 0)
      + DataNeeded(halves[1..])
  }

  function TotalSize(halves: seq<Half>): nat {
    if halves == [] then 0 else Size(halves[0]) + TotalSize(halves[1..])
  }

  /** What a merge takes on trust, because it skips the checks of the output loop:
      the data section is long enough and the sizes add up to the window length. */
  predicate Trusted(w: Window) {
    DataNeeded(Halves(w.ops)) <= |w.data| && TotalSize(Halves(w.ops)) == w.tgtlen
  }

  /** The reference interpreter uses up the data section and fills the target exactly. */
  lemma {:induction false} AcceptedNeeds<T>(halves: seq<Half>, s: State<T>, seg: seq<T>, segLen: nat, tgtLen: nat)
    requires |seg| <= segLen && Interpret(halves, s, seg, segLen, tgtLen).Some?
    ensures DataNeeded(halves) == |s.data| && |s.out| + TotalSize(halves) == tgtLen
    decreases |halves|
  {
    if halves != [] {
      var s' := Step(halves[0], s, seg, segLen, tgtLen).value;
      AcceptedNeeds(halves[1..], s', seg, segLen, tgtLen);
    }
  }

  /** Every valid window may be trusted. */
  lemma ValidIsTrusted(w: Window)
    requires SymbolicWindow(w).Some?
    ensures Trusted(w)
  {
    AcceptedNeeds(Halves(w.ops), State(w.addrs, Lits(w.data), []), SymbolicSegment(w), w.cpylen, w.tgtlen);
  }

  lemma {:induction false} CopyForwardShift<T>(pre: seq<T>, out: seq<T>, addr: nat, n: nat)
    requires addr < |out|
    ensures CopyForward(pre + out, |pre| + addr, n) == pre + CopyForward(out, addr, n)
    decreases n
  {
    if n > 0 {
      assert (pre + out) + [(pre + out)[|pre| + addr]] == pre + (out + [out[addr]]);
      CopyForwardShift(pre, out + [out[addr]], addr + 1, n - 1);
    }
  }

  lemma LitsSlice(data: seq<byte>, lo: nat, hi: nat)
    requires lo <= hi <= |data|
    ensures Lits(data[lo..hi]) == Lits(data)[lo..hi]
  {
  }

  /** The whole-file instruction for a parsed half-instruction. */
  function Absolute(h: Half, addsLen: nat, position: nat, cpyoff: nat, cpylen: nat, winstart: nat): Inst
    requires h.Half?
  {
    if h.kind != Cpy then Inst(h.kind, Here, h.size, addsLen, position)
    else if h.addr < cpylen then Inst(Cpy, Source, h.size, cpyoff + h.addr, position)
    else Inst(Cpy, Here, h.size, winstart + h.addr - cpylen, position)
  }

  /** The literal bytes a half-instruction owns. */
  function Owned(h: Half, data: seq<byte>): seq<byte>
    requires h.Half? && h.kind == Run ==> data != []
    requires h.Half? && h.kind == Add ==> h.size <= |data|
  {
    if h.Noop? || h.kind == Cpy then [] else if h.kind == Run then [data[0]] else data[..h.size]
  }

  /** Appending the absolute form of an instruction to the whole-file program does
      what the reference interpreter of the window does. */
  ghost predicate Agrees(h: Half, addrs: seq<nat>, data: seq<byte>, pre: seq<Origin>, out: seq<Origin>, adds: seq<byte>,
                         cpyoff: nat, seg: seq<Origin>, tgtLen: nat)
    requires Ready(h, data, out, cpyoff, seg, tgtLen)
  {
    var i, owned := Absolute(h, |adds|, |pre + out|, cpyoff, |seg|, |pre|), Owned(h, data);
    var r := Step(h, State(Taken(h) + addrs, Lits(data), out), seg, |seg|, tgtLen);
    && InstOk(i, |adds + owned|, |pre + out|)
    && r.Some? && r.value.addrs == addrs && r.value.data == Lits(data[|owned|..])
    && ExecSymbolic(i, adds + owned, pre + out) == pre + r.value.out
  }

  ghost predicate Ready(h: Half, data: seq<byte>, out: seq<Origin>, cpyoff: nat, seg: seq<Origin>, tgtLen: nat) {
    && h.Half? && |out| + h.size <= tgtLen && Checked(h, |seg|, |out|)
    && (forall k | 0 <= k < |seg| :: seg[k] == Src(cpyoff + k))
    && (h.kind == Run ==> data != [])
    && (h.kind == Add ==> h.size <= |data|)
  }

  lemma RunAgrees(h: Half, addrs: seq<nat>, data: seq<byte>, pre: seq<Origin>, out: seq<Origin>, adds: seq<byte>,
                  cpyoff: nat, seg: seq<Origin>, tgtLen: nat)
    requires Ready(h, data, out, cpyoff, seg, tgtLen) && h.kind == Run
    ensures Agrees(h, addrs, data, pre, out, adds, cpyoff, seg, tgtLen)
  {
    var i, owned := Absolute(h, |adds|, |pre + out|, cpyoff, |seg|, |pre|), Owned(h, data);
    assert [] + addrs == addrs;
    LitsSlice(data, 1, |data|);
    assert Direct(i, adds + owned, 0, h.size) == Repeat(Lits(data)[0], h.size);
    Associative(pre, out, Repeat(Lits(data)[0], h.size));
  }

  lemma AddAgrees(h: Half, addrs: seq<nat>, data: seq<byte>, pre: seq<Origin>, out: seq<Origin>, adds: seq<byte>,
                  cpyoff: nat, seg: seq<Origin>, tgtLen: nat)
    requires Ready(h, data, out, cpyoff, seg, tgtLen) && h.kind == Add
    ensures Agrees(h, addrs, data, pre, out, adds, cpyoff, seg, tgtLen)
  {
    var i, owned := Absolute(h, |adds|, |pre + out|, cpyoff, |seg|, |pre|), Owned(h, data);
    assert [] + addrs == addrs;
    LitsSlice(data, h.size, |data|);
    LitsSlice(data, 0, h.size);
    assert Direct(i, adds + owned, 0, h.size) == Lits(data)[..h.size];
    Associative(pre, out, Lits(data)[..h.size]);
  }

  lemma SourceCopyAgrees(h: Half, addrs: seq<nat>, data: seq<byte>, pre: seq<Origin>, out: seq<Origin>, adds: seq<byte>,
                         cpyoff: nat, seg: seq<Origin>, tgtLen: nat)
    requires Ready(h, data, out, cpyoff, seg, tgtLen) && h.kind == Cpy && h.addr < |seg|
    ensures Agrees(h, addrs, data, pre, out, adds, cpyoff, seg, tgtLen)
  {
    hide CopyForward;
    var i := Absolute(h, |adds|, |pre + out|, cpyoff, |seg|, |pre|);
    assert (Taken(h) + addrs)[1..] == addrs && adds + [] == adds;
    assert Direct(i, adds, 0, h.size) == seg[h.addr..h.addr + h.size];
    Associative(pre, out, seg[h.addr..h.addr + h.size]);
    if h.size == 0 {
      assert out + seg[h.addr..h.addr + h.size] == out;
    }
  }

  lemma TargetCopyAgrees(h: Half, addrs: seq<nat>, data: seq<byte>, pre: seq<Origin>, out: seq<Origin>, adds: seq<byte>,
                         cpyoff: nat, seg: seq<Origin>, tgtLen: nat)
    requires Ready(h, data, out, cpyoff, seg, tgtLen) && h.kind == Cpy && h.addr >= |seg|
    ensures Agrees(h, addrs, data, pre, out, adds, cpyoff, seg, tgtLen)
  {
    hide CopyForward;
    assert (Taken(h) + addrs)[1..] == addrs && adds + [] == adds;
    CopyForwardShift(pre, out, h.addr - |seg|, h.size);
  }

  lemma AllAgree(h: Half, addrs: seq<nat>, data: seq<byte>, pre: seq<Origin>, out: seq<Origin>, adds: seq<byte>,
                 cpyoff: nat, seg: seq<Origin>, tgtLen: nat)
    requires Ready(h, data, out, cpyoff, seg, tgtLen)
    ensures Agrees(h, addrs, data, pre, out, adds, cpyoff, seg, tgtLen)
  {
    hide Agrees;
    match h.kind {
      case Run => RunAgrees(h, addrs, data, pre, out, adds, cpyoff, seg, tgtLen);
      case Add => AddAgrees(h, addrs, data, pre, out, adds, cpyoff, seg, tgtLen);
      case Cpy =>
        if h.addr < |seg| {
          SourceCopyAgrees(h, addrs, data, pre, out, adds, cpyoff, seg, tgtLen);
        } else {
          TargetCopyAgrees(h, addrs, data, pre, out, adds, cpyoff, seg, tgtLen);
        }
    }
  }

  /** Target copies at or after file position `lo` read nothing below it. */
  predicate InsideFrom(insts: seq<Inst>, lo: nat) {
    forall i | i in insts && IsTargetCopy(i) && (lo < i.position || (lo == i.position && i.size > 0)) :: lo <= i.addr
  }

  /** Every instruction of `now` is one of `was` or starts at `lo` or later. */
  predicate NewFrom(was: seq<Inst>, now: seq<Inst>, lo: nat) {
    forall i | i in now :: i in was || lo <= i.position
  }

  predicate NoEmptyHalf(halves: seq<Half>) {
    forall h | h in halves && h.Half? :: h.size > 0
  }

  /** The window written so far: `whole` extends the earlier windows `pre` by `out`,
      and the rest of the sections finishes it. */
  ghost predicate Flattening(whole: Whole, pre: seq<Origin>, out: seq<Origin>, halves: seq<Half>, addrs: seq<nat>,
                             data: seq<byte>, w: Window)
  {
    && WellFormed(whole) && Symbolic(whole.insts, whole.adds) == pre + out
    && InsideFrom(whole.insts, |pre|)
    && DataNeeded(halves) <= |data| && |out| + TotalSize(halves) == w.tgtlen
    && Interpret(halves, State(addrs, Lits(data), out), SymbolicSegment(w), w.cpylen, w.tgtlen) == SymbolicWindow(w)
  }

  // --------------------------------------- what flattening makes, one by one

  /** A parsed half-instruction as an instruction of the whole file. */
  function FlatOne(whole: Whole, h: Half, data: seq<byte>, w: Window, winstart: nat): Whole
    requires h.Half? && Enough(h, data)
  {
    Whole(whole.insts + [Absolute(h, |whole.adds|, whole.length, w.cpyoff, w.cpylen, winstart)],
          whole.adds + Owned(h, data), whole.wininfo, whole.length + h.size)
  }

  /** The literal data is there. */
  predicate Enough(h: Half, data: seq<byte>) {
    h.Half? ==> (h.kind == Run ==> data != []) && (h.kind == Add ==> h.size <= |data|)
  }

  /** The half-instructions of a window, as far as they can be read. */
  function FlatHalves(whole: Whole, halves: seq<Half>, addrs: seq<nat>, data: seq<byte>, w: Window,
                      winstart: nat): Whole
    decreases |halves|
  {
    if halves == [] then whole
    else if halves[0].Noop? then FlatHalves(whole, halves[1..], addrs, data, w, winstart)
    else
      var h := halves[0];
      if (h.kind == Cpy && addrs == []) || !Enough(h, data) then whole
      else
        var p, rest := if h.kind == Cpy then h.(addr := addrs[0]) else h, if h.kind == Cpy then addrs[1..] else addrs;
        FlatHalves(FlatOne(whole, p, data, w, winstart), halves[1..], rest, data[|Owned(p, data)|..], w, winstart)
  }

  lemma FlatNext(whole: Whole, h: Half, p: Half, halves: seq<Half>, addrs: seq<nat>, data: seq<byte>, w: Window,
                 winstart: nat)
    requires SameShape(h, p) && Enough(p, data)
    ensures FlatHalves(whole, [h] + halves, Taken(p) + addrs, data, w, winstart) ==
      if p.Noop? then FlatHalves(whole, halves, addrs, data, w, winstart)
      else FlatHalves(FlatOne(whole, p, data, w, winstart), halves, addrs, data[|Owned(p, data)|..], w, winstart)
  {
    assert ([h] + halves)[1..] == halves;
    if p.Noop? || p.kind != Cpy {
      assert [] + addrs == addrs;
    } else {
      assert ([p.addr] + addrs)[1..] == addrs;
    }
  }

  /** A window behind the program of the windows before it. */
  function FlatWindow(whole: Whole, w: Window, winstart: nat): Whole {
    FlatHalves(whole.(wininfo := whole.wininfo + [WinInfo(winstart, w.tgtlen, w.adler32)]),
               Halves(w.ops), w.addrs, w.data, w, winstart)
  }

  function TargetLength(ws: seq<Window>): nat {
    if ws == [] then 0 else TargetLength(ws[..|ws| - 1]) + ws[|ws| - 1].tgtlen
  }

  /** The program that flattening makes of a delta. */
  function FlatFile(ws: seq<Window>): Whole {
    if ws == [] then Whole([], [], [], 0)
    else
      var n := |ws| - 1;
      FlatWindow(FlatFile(ws[..n]), ws[n], TargetLength(ws[..n]))
  }

  /** xd3_whole_append_inst.  Where the literal data runs out, bytes behind it are read. */
  method AppendInst(stream: Stream, whole: WholeState, inst: Half, winstart: nat, ghost good: bool,
                    ghost pre: seq<Origin>, ghost out: seq<Origin>, ghost rest: seq<Half>, ghost addrs: seq<nat>,
                    ghost w: Window)
    returns (ok: bool, ghost out': seq<Origin>)
    requires stream.decCpyoff == w.cpyoff && stream.decCpylen == w.cpylen && inst.Half?
    requires good ==> |pre| == winstart && |out| + inst.size <= w.tgtlen && Checked(inst, w.cpylen, |out|)
    requires good ==> Flattening(whole.Value(), pre, out, [inst] + rest, Taken(inst) + addrs, stream.dataSect, w)
    modifies stream`dataSect, whole
    ensures ok <==> Enough(inst, old(stream.dataSect))
    ensures ok ==> whole.Value() == FlatOne(old(whole.Value()), inst, old(stream.dataSect), w, winstart)
    ensures ok ==> stream.dataSect == old(stream.dataSect)[|Owned(inst, old(stream.dataSect))|..]
    ensures good ==> ok && Flattening(whole.Value(), pre, out', rest, addrs, stream.dataSect, w)
    ensures good ==> |out'| == |out| + inst.size && NewFrom(old(whole.inst), whole.inst, winstart)
    ensures whole.wininfo == old(whole.wininfo)
    ensures inst.size > 0 ==> NoNewEmpty(old(whole.inst), whole.inst)
  {
    hide Flattening, Step;
    ghost var data := stream.dataSect;
    out' := out;
    if good {
      out' := AppendedFlattening(whole.Value(), pre, out, inst, rest, addrs, data, w);
      FlatteningReady(whole.Value(), pre, out, inst, rest, Taken(inst) + addrs, data, w);
    }
    ok := (inst.kind == Run ==> stream.dataSect != []) && (inst.kind == Add ==> inst.size <= |stream.dataSect|);
    if ok {
      var winst := Inst(inst.kind, Here, inst.size, 0, whole.length);
      whole.length := whole.length + inst.size;
      match inst.kind {
        case Run =>
          winst := winst.(addr := |whole.adds|);
          whole.adds := whole.adds + [stream.dataSect[0]];
          stream.dataSect := stream.dataSect[1..];
        case Add =>
          winst := winst.(addr := |whole.adds|);
          whole.adds := whole.adds + stream.dataSect[..inst.size];
          stream.dataSect := stream.dataSect[inst.size..];
        case Cpy =>
          if inst.addr < stream.decCpylen {
            winst := winst.(mode := Source, addr := stream.decCpyoff + inst.addr);
          } else {
            winst := winst.(addr := winstart + inst.addr - stream.decCpylen);
          }
          assert whole.adds == whole.adds + [] && stream.dataSect == stream.dataSect[0..];
      }
      whole.inst := whole.inst + [winst];
    }
  }

  lemma FlatteningReady(whole: Whole, pre: seq<Origin>, out: seq<Origin>, inst: Half, rest: seq<Half>, addrs: seq<nat>,
                        data: seq<byte>, w: Window)
    requires inst.Half? && Flattening(whole, pre, out, [inst] + rest, addrs, data, w)
    ensures whole.length == |pre| + |out|
    ensures inst.kind == Run ==> data != []
    ensures inst.kind == Add ==> inst.size <= |data|
  {
    hide Interpret;
    DataNeededCons(inst, rest);
  }

  lemma AppendedFlattening(whole: Whole, pre: seq<Origin>, out: seq<Origin>, inst: Half, rest: seq<Half>,
                           addrs: seq<nat>, data: seq<byte>, w: Window) returns (out': seq<Origin>)
    requires inst.Half? && |out| + inst.size <= w.tgtlen && Checked(inst, w.cpylen, |out|)
    requires Flattening(whole, pre, out, [inst] + rest, Taken(inst) + addrs, data, w)
    ensures inst.kind == Run ==> data != []
    ensures inst.kind == Add ==> inst.size <= |data|
    ensures |out'| == |out| + inst.size
    ensures var i, owned := Absolute(inst, |whole.adds|, whole.length, w.cpyoff, w.cpylen, |pre|), Owned(inst, data);
      Flattening(Whole(whole.insts + [i], whole.adds + owned, whole.wininfo, whole.length + inst.size),
                 pre, out', rest, addrs, data[|owned|..], w)
  {
    hide CopyForward, Direct, Interpret, InstOk, DataNeeded, TotalSize, Step, ExecSymbolic, Symbolic, InstsOk, Lits,
      InsideFrom, Owned, Checked, WellFormed, SymbolicWindow, SymbolicSegment, Taken;
    FlatteningReady(whole, pre, out, inst, rest, Taken(inst) + addrs, data, w);
    DataNeededCons(inst, rest);
    var seg := SymbolicSegment(w);
    assert Ready(inst, data, out, w.cpyoff, seg, w.tgtlen) by { SegmentReady(w); }
    AllAgree(inst, addrs, data, pre, out, whole.adds, w.cpyoff, seg, w.tgtlen);
    var s := State(Taken(inst) + addrs, Lits(data), out);
    InterpretCons(inst, rest, s, seg, w.cpylen, w.tgtlen);
    out' := Step(inst, s, seg, w.cpylen, w.tgtlen).value.out;
    var i, owned := Absolute(inst, |whole.adds|, whole.length, w.cpyoff, w.cpylen, |pre|), Owned(inst, data);
    AppendedWhole(whole, pre + out, i, owned, inst.size, pre + out');
    AppendedInside(whole.insts, inst, |whole.adds|, whole.length, w, |pre|);
    OwnedLength(inst, data);
  }

  lemma SegmentReady(w: Window)
    ensures forall k | 0 <= k < |SymbolicSegment(w)| :: SymbolicSegment(w)[k] == Src(w.cpyoff + k)
  {
  }

  lemma OwnedLength(h: Half, data: seq<byte>)
    requires h.Half? && Enough(h, data)
    ensures |Owned(h, data)| == if h.kind == Cpy then 0 else if h.kind == Run then 1 else h.size
  {
  }

  lemma AppendedWhole(whole: Whole, was: seq<Origin>, i: Inst, owned: seq<byte>, size: nat, now: seq<Origin>)
    requires WellFormed(whole) && Symbolic(whole.insts, whole.adds) == was
    requires InstOk(i, |whole.adds + owned|, |was|) && i.position == whole.length == |was| && i.size == size
    requires ExecSymbolic(i, whole.adds + owned, was) == now
    ensures var next := Whole(whole.insts + [i], whole.adds + owned, whole.wininfo, whole.length + size);
      WellFormed(next) && Symbolic(next.insts, next.adds) == now
  {
    hide InstOk, ExecSymbolic, Symbolic, InstsOk;
    AddsExtend(whole.insts, whole.adds, owned);
    SymbolicAppend(whole.insts, i, whole.adds + owned);
    AppendOk(whole.insts, i, |whole.adds + owned|);
  }

  lemma AppendedInside(insts: seq<Inst>, inst: Half, addsLen: nat, length: nat, w: Window, winstart: nat)
    requires inst.Half? && InsideFrom(insts, winstart)
    ensures InsideFrom(insts + [Absolute(inst, addsLen, length, w.cpyoff, w.cpylen, winstart)], winstart)
  {
  }

  lemma DataNeededCons(h: Half, rest: seq<Half>)
    ensures DataNeeded([h] + rest) == DataNeeded(rest) +
      if h.Noop? || h.kind == Cpy then 0 else if h.kind == Run then 1 else h.size
    ensures TotalSize([h] + rest) == Size(h) + TotalSize(rest)
  {
    assert ([h] + rest)[1..] == rest;
  }

  /** `stream` is about to parse the sections of `w`. */
  ghost predicate AtWindow(stream: Stream, w: Window)
    reads stream
  {
    && stream.decCpyoff == w.cpyoff && stream.decCpylen == w.cpylen && stream.decTgtlen == w.tgtlen
    && stream.decMaxpos == w.cpylen + w.tgtlen && stream.decPosition == w.cpylen
    && stream.instSect == w.ops && stream.addrSect == w.addrs && stream.dataSect == w.data
  }

  /** One round of xd3_whole_append_window: an opcode, both its halves appended. */
  method AppendPair(stream: Stream, whole: WholeState, winstart: nat, ghost good: bool, ghost pre: seq<Origin>,
                    ghost out: seq<Origin>, ghost w: Window)
    returns (code: Code, ghost out': seq<Origin>)
    requires stream.decCpyoff == w.cpyoff && stream.decCpylen == w.cpylen && stream.decTgtlen == w.tgtlen
    requires stream.decMaxpos == w.cpylen + w.tgtlen && stream.instSect != []
    requires w.cpylen <= stream.decPosition <= stream.decMaxpos
    requires good ==> |pre| == winstart && w.cpylen + |out| == stream.decPosition
    requires good ==> Flattening(whole.Value(), pre, out, Halves(stream.instSect), stream.addrSect, stream.dataSect, w)
    modifies stream`dataSect, stream`decPosition, stream`addrSect, stream`instSect, stream`current1, stream`current2,
             whole
    ensures stream.instSect == old(stream.instSect)[1..] && code in {Success, BadInput, ReadsOn}
    ensures code == Success ==>
      && w.cpylen <= stream.decPosition <= stream.decMaxpos
      && FlatHalves(whole.Value(), Halves(stream.instSect), stream.addrSect, stream.dataSect, w, winstart)
         == old(FlatHalves(whole.Value(), Halves(stream.instSect), stream.addrSect, stream.dataSect, w, winstart))
    ensures good && code == Success ==>
      && w.cpylen + |out'| == stream.decPosition
      && Flattening(whole.Value(), pre, out', Halves(stream.instSect), stream.addrSect, stream.dataSect, w)
    ensures good && code != Success ==> code == BadInput && SymbolicWindow(w) == None
    ensures whole.wininfo == old(whole.wininfo)
    ensures good ==> NewFrom(old(whole.inst), whole.inst, winstart)
    ensures NoEmptyHalf(old(Halves(stream.instSect))) ==>
      NoNewEmpty(old(whole.inst), whole.inst) && NoEmptyHalf(Halves(stream.instSect))
  {
    hide CopyForward, Interpret, Flattening, RejectedPair, FlatHalves, FlatOne, NewFrom, NoNewEmpty, Enough,
      NoEmptyHalf;
    ghost var inst, rest, addrs := stream.instSect[0], Halves(stream.instSect[1..]), stream.addrSect;
    ghost var whole0, data0 := whole.Value(), stream.dataSect;
    assert Halves(stream.instSect) == [inst.first, inst.second] + rest;
    ghost var solid := NoEmptyHalf(Halves(stream.instSect));
    if solid {
      EmptyHalves(inst, rest);
    }
    NoneYet(whole.inst, winstart);
    code := stream.ParsePair();
    out' := out;
    if code == Success {
      var h1, h2 := stream.current1, stream.current2;
      if good {
        ParsedFlattening(whole0, pre, out, inst, h1, h2, rest, stream.addrSect, stream.dataSect, w);
      }
      ghost var addrs2, middle := Taken(h2) + stream.addrSect, whole.inst;
      assert [inst.first, inst.second] + rest == [inst.first] + ([inst.second] + rest);
      code, out' := AppendSide(stream, whole, h1, winstart, good, pre, out', [h2] + rest, addrs2, w,
                               inst.first, [inst.second] + rest);
      middle := whole.inst;
      if code == Success {
        code, out' := AppendSide(stream, whole, h2, winstart, good, pre, out', rest, stream.addrSect, w,
                                 inst.second, rest);
        if good {
          NewTwiceFrom(whole0.insts, middle, whole.inst, winstart);
        }
        if solid {
          NewTwice(whole0.insts, middle, whole.inst);
        }
      }
    } else if good {
      RejectedFlattening(whole0, pre, out, inst, rest, addrs, data0, w);
    }
  }

  /** One side of an opcode, which may be nothing. */
  method AppendSide(stream: Stream, whole: WholeState, h: Half, winstart: nat, ghost good: bool, ghost pre: seq<Origin>,
                    ghost out: seq<Origin>, ghost rest: seq<Half>, ghost addrs: seq<nat>, ghost w: Window,
                    ghost raw: Half, ghost raws: seq<Half>)
    returns (code: Code, ghost out': seq<Origin>)
    requires stream.decCpyoff == w.cpyoff && stream.decCpylen == w.cpylen && SameShape(raw, h)
    requires good ==> |pre| == winstart && |out| + Size(h) <= w.tgtlen && Checked(h, w.cpylen, |out|)
    requires good ==> Flattening(whole.Value(), pre, out, [h] + rest, Taken(h) + addrs, stream.dataSect, w)
    modifies stream`dataSect, whole
    ensures code in {Success, ReadsOn} && whole.wininfo == old(whole.wininfo)
    ensures code == Success ==>
      FlatHalves(whole.Value(), raws, addrs, stream.dataSect, w, winstart)
      == old(FlatHalves(whole.Value(), [raw] + raws, Taken(h) + addrs, stream.dataSect, w, winstart))
    ensures good ==> code == Success && Flattening(whole.Value(), pre, out', rest, addrs, stream.dataSect, w)
    ensures good ==> |out'| == |out| + Size(h) && NewFrom(old(whole.inst), whole.inst, winstart)
    ensures (h.Half? ==> h.size > 0) ==> NoNewEmpty(old(whole.inst), whole.inst)
  {
    hide CopyForward, Interpret, Flattening, FlatHalves, FlatOne, NewFrom, NoNewEmpty;
    ghost var whole0, data0 := whole.Value(), stream.dataSect;
    code, out' := Success, out;
    NoneYet(whole.inst, winstart);
    if h.Half? {
      var ok;
      ok, out' := AppendInst(stream, whole, h, winstart, good, pre, out, rest, addrs, w);
      if !ok {
        code := ReadsOn;
      }
    } else if good {
      NoopFlattening(whole0, pre, out, rest, addrs, data0, w);
    }
    if code == Success {
      FlatNext(whole0, raw, h, raws, addrs, data0, w, winstart);
    }
  }

  lemma NoneYet(insts: seq<Inst>, lo: nat)
    ensures NewFrom(insts, insts, lo) && NoNewEmpty(insts, insts)
  {
  }

  lemma NewTwiceFrom(a: seq<Inst>, b: seq<Inst>, c: seq<Inst>, lo: nat)
    requires NewFrom(a, b, lo) && NewFrom(b, c, lo)
    ensures NewFrom(a, c, lo)
  {
  }

  lemma EmptyHalves(inst: Opcode, rest: seq<Half>)
    requires NoEmptyHalf([inst.first, inst.second] + rest)
    ensures NoEmptyHalf(rest)
    ensures inst.first.Half? ==> inst.first.size > 0
    ensures inst.second.Half? ==> inst.second.size > 0
  {
    var all := [inst.first, inst.second] + rest;
    assert all[0] in all && all[1] in all;
    assert forall h | h in rest :: h in all;
  }

  lemma ParsedFlattening(whole: Whole, pre: seq<Origin>, out: seq<Origin>, inst: Opcode, h1: Half, h2: Half,
                         rest: seq<Half>, addrs: seq<nat>, data: seq<byte>, w: Window)
    requires SameShape(inst.first, h1) && SameShape(inst.second, h2)
    requires Flattening(whole, pre, out, [inst.first, inst.second] + rest, Taken(h1) + (Taken(h2) + addrs), data, w)
    ensures Flattening(whole, pre, out, [h1] + ([h2] + rest), Taken(h1) + (Taken(h2) + addrs), data, w)
  {
    hide Interpret, Step, DataNeeded, TotalSize, WellFormed, Symbolic, Lits, Taken, SymbolicWindow, SymbolicSegment;
    var seg := SymbolicSegment(w);
    Associative(Taken(h1), Taken(h2), addrs);
    ParseKeepsMeaning(inst.first, inst.second, h1, h2, rest, addrs, Lits(data), out, seg, w.cpylen, w.tgtlen);
    PendingNoop([inst.first, inst.second] + rest, Taken(h1) + Taken(h2) + addrs, Lits(data), out, seg, w.cpylen,
        w.tgtlen);
    assert [h1, h2] + rest == [h1] + ([h2] + rest);
    PairNeeds(inst.first, inst.second, h1, h2, rest);
  }

  lemma PairNeeds(h1: Half, h2: Half, p1: Half, p2: Half, rest: seq<Half>)
    requires SameShape(h1, p1) && SameShape(h2, p2)
    ensures DataNeeded([h1, h2] + rest) == DataNeeded([p1] + ([p2] + rest))
    ensures TotalSize([h1, h2] + rest) == TotalSize([p1] + ([p2] + rest))
  {
    hide DataNeeded, TotalSize;
    assert [h1, h2] + rest == [h1] + ([h2] + rest);
    DataNeededCons(p1, [p2] + rest);
    DataNeededCons(p2, rest);
    DataNeededCons(h1, [h2] + rest);
    DataNeededCons(h2, rest);
  }

  lemma NoopFlattening(whole: Whole, pre: seq<Origin>, out: seq<Origin>, rest: seq<Half>, addrs: seq<nat>,
                       data: seq<byte>, w: Window)
    requires Flattening(whole, pre, out, [Noop] + rest, [] + addrs, data, w)
    ensures Flattening(whole, pre, out, rest, addrs, data, w)
  {
    hide Interpret;
    var s := State(addrs, Lits(data), out);
    assert [] + addrs == addrs;
    InterpretCons(Noop, rest, s, SymbolicSegment(w), w.cpylen, w.tgtlen);
    DataNeededCons(Noop, rest);
  }

  lemma RejectedFlattening(whole: Whole, pre: seq<Origin>, out: seq<Origin>, inst: Opcode, rest: seq<Half>,
                           addrs: seq<nat>, data: seq<byte>, w: Window)
    requires Flattening(whole, pre, out, [inst.first, inst.second] + rest, addrs, data, w)
    requires RejectedPair(inst, addrs, w.cpylen, |out|, w.tgtlen)
    ensures SymbolicWindow(w) == None
  {
    hide Interpret, RejectedPair;
    var seg := SymbolicSegment(w);
    PendingNoop([inst.first, inst.second] + rest, addrs, Lits(data), out, seg, w.cpylen, w.tgtlen);
    RejectedMeansNone(inst, rest, addrs, Lits(data), out, seg, w.cpylen, w.tgtlen);
  }

  lemma {:induction false} EndsBelow(insts: seq<Inst>, addsLen: nat)
    requires InstsOk(insts, addsLen)
    ensures forall i | i in insts :: i.position + i.size <= End(insts)
    decreases |insts|
  {
    if insts != [] {
      EndsBelow(insts[..|insts| - 1], addsLen);
      assert insts == insts[..|insts| - 1] + [insts[|insts| - 1]];
    }
  }

  /** xd3_whole_append_window: the instructions of the window are appended one by one.  A
      valid window adds exactly its own bytes, and every window that is refused, or whose
      literal data runs out, is invalid. */
  method AppendWindow(stream: Stream, whole: WholeState, winstart: nat, adler32: nat, ghost w: Window)
    returns (code: Code)
    requires AtWindow(stream, w) && adler32 == w.adler32
    modifies stream`dataSect, stream`decPosition, stream`addrSect, stream`instSect, stream`current1, stream`current2,
             whole
    ensures code in {Success, BadInput, ReadsOn}
    ensures code != Success && old(Sound(whole, winstart)) ==> SymbolicWindow(w) == None
    ensures code == Success ==> whole.Value() == FlatWindow(old(whole.Value()), w, winstart)
    ensures whole.wininfo == old(whole.wininfo) + [WinInfo(winstart, w.tgtlen, adler32)]
    ensures old(Sound(whole, winstart)) && Trusted(w) && code == Success ==>
      && Sound(whole, winstart + w.tgtlen) && InsideFrom(whole.inst, winstart)
      && NewFrom(old(whole.inst), whole.inst, winstart)
    ensures NoEmptyHalf(Halves(w.ops)) ==> NoNewEmpty(old(whole.inst), whole.inst)
    ensures old(Sound(whole, winstart)) && SymbolicWindow(w).Some? ==>
      code == Success && Sound(whole, winstart + w.tgtlen)
      && whole.Origins() == old(whole.Origins()) + SymbolicWindow(w).value
  {
    hide CopyForward, Step, ExecSymbolic, RejectedPair, FlatHalves, NewFrom, NoNewEmpty, NoEmptyHalf, Trusted,
      Flattening, SymbolicWindow, Symbolic;
    ghost var good := Sound(whole, winstart) && Trusted(w);
    NoneYet(whole.inst, winstart);
    if SymbolicWindow(w).Some? {
      ValidIsTrusted(w);
    }
    whole.wininfo := whole.wininfo + [WinInfo(winstart, stream.decTgtlen, adler32)];
    ghost var pre: seq<Origin>, out: seq<Origin> := [], [];
    if good {
      pre := whole.Origins();
      FlatteningStart(whole.Value(), pre, w);
    }
    ghost var start := whole.Value();
    code := Success;
    while stream.instSect != [] && code == Success
      invariant stream.decCpyoff == w.cpyoff && stream.decCpylen == w.cpylen && stream.decTgtlen == w.tgtlen
      invariant stream.decMaxpos == w.cpylen + w.tgtlen && code in {Success, BadInput, ReadsOn}
      invariant code == Success ==>
        && w.cpylen <= stream.decPosition <= stream.decMaxpos
        && FlatHalves(whole.Value(), Halves(stream.instSect), stream.addrSect, stream.dataSect, w, winstart)
           == FlatHalves(start, Halves(w.ops), w.addrs, w.data, w, winstart)
      invariant good && code == Success ==>
        && |pre| == winstart && w.cpylen + |out| == stream.decPosition
        && Flattening(whole.Value(), pre, out, Halves(stream.instSect), stream.addrSect, stream.dataSect, w)
      invariant good && code != Success ==> SymbolicWindow(w) == None
      invariant whole.wininfo == old(whole.wininfo) + [WinInfo(winstart, w.tgtlen, adler32)]
      invariant good ==> NewFrom(old(whole.inst), whole.inst, winstart)
      invariant NoEmptyHalf(Halves(w.ops)) ==>
        NoNewEmpty(old(whole.inst), whole.inst) && NoEmptyHalf(Halves(stream.instSect))
      decreases |stream.instSect|
    {
      ghost var had := whole.inst;
      code, out := AppendPair(stream, whole, winstart, good, pre, out, w);
      if good {
        NewTwiceFrom(old(whole.inst), had, whole.inst, winstart);
      }
      if NoEmptyHalf(Halves(w.ops)) {
        NewTwice(old(whole.inst), had, whole.inst);
      }
    }
    if code == Success {
      FlatNothing(whole.Value(), stream.addrSect, stream.dataSect, w, winstart);
      if good {
        FlatteningEnd(whole.Value(), pre, out, stream.addrSect, stream.dataSect, w);
      }
    }
  }

  /** The program so far is well formed and ends where the window starts. */
  ghost predicate Sound(whole: WholeState, winstart: nat)
    reads whole
  {
    WellFormed(whole.Value()) && whole.length == winstart
  }

  lemma FlatNothing(whole: Whole, addrs: seq<nat>, data: seq<byte>, w: Window, winstart: nat)
    ensures FlatHalves(whole, [], addrs, data, w, winstart) == whole
  {
  }

  lemma FlatteningStart(whole: Whole, pre: seq<Origin>, w: Window)
    requires WellFormed(whole) && pre == Symbolic(whole.insts, whole.adds) && Trusted(w)
    ensures Flattening(whole, pre, [], Halves(w.ops), w.addrs, w.data, w)
  {
    hide Interpret, Symbolic, InstsOk, Halves;
    assert pre + [] == pre;
    EndsBelow(whole.insts, |whole.adds|);
  }

  lemma FlatteningEnd(whole: Whole, pre: seq<Origin>, out: seq<Origin>, addrs: seq<nat>, data: seq<byte>, w: Window)
    requires Flattening(whole, pre, out, [], addrs, data, w)
    ensures WellFormed(whole) && whole.length == |pre| + w.tgtlen && InsideFrom(whole.insts, |pre|)
    ensures SymbolicWindow(w).Some? ==> Symbolic(whole.insts, whole.adds) == pre + SymbolicWindow(w).value
  {
  }

  // ------------------------------------------------------- whole files

  /** Where a target copy overlaps the window [lo, hi), or stands in it without a byte, it
      reads inside that window. */
  predicate StaysIn(i: Inst, lo: nat, hi: nat) {
    var p := Max(lo, i.position);
    IsTargetCopy(i) && (p < Min(hi, i.position + i.size) || lo < i.position < hi) ==> lo <= i.addr + (p - i.position)
  }

  predicate AllStayIn(insts: seq<Inst>, lo: nat, hi: nat) {
    forall i | 0 <= i < |insts| :: StaysIn(insts[i], lo, hi)
  }

  /** The start of window `n`. */
  function WinStart(wininfo: seq<WinInfo>, n: nat): nat
    requires n <= |wininfo|
  {
    if n == 0 then 0 else WinStart(wininfo, n - 1) + wininfo[n - 1].length
  }

  /** Every window is recorded to start where the windows before it end. */
  predicate OffsetsMatch(wininfo: seq<WinInfo>) {
    forall n | 0 <= n < |wininfo| :: wininfo[n].offset == WinStart(wininfo, n)
  }

  lemma OffsetsNext(wininfo: seq<WinInfo>, info: WinInfo)
    requires OffsetsMatch(wininfo) && info.offset == WinStart(wininfo, |wininfo|)
    ensures OffsetsMatch(wininfo + [info])
    ensures WinStart(wininfo + [info], |wininfo| + 1) == info.offset + info.length
  {
    hide WinStart;
    var all := wininfo + [info];
    forall n | 0 <= n < |all| ensures all[n].offset == WinStart(all, n) {
      WinStartPrefix(wininfo, [info], n);
    }
    WinStartNext(all, |wininfo|);
  }

  lemma WinStartNext(wininfo: seq<WinInfo>, n: nat)
    requires n < |wininfo|
    ensures WinStart(wininfo, 0) == 0
    ensures WinStart(wininfo, n + 1) == WinStart(wininfo, n) + wininfo[n].length
  {
  }

  lemma {:induction false} WinStartMonotone(wininfo: seq<WinInfo>, n: nat, m: nat)
    requires n <= m <= |wininfo|
    ensures WinStart(wininfo, n) <= WinStart(wininfo, m)
    decreases m
  {
    if n < m {
      WinStartMonotone(wininfo, n, m - 1);
    }
  }

  /** The windows of the delta cover its file and no target copy leaves its window. */
  predicate Windowed(d: Whole) {
    && WinStart(d.wininfo, |d.wininfo|) == d.length
    && forall n | 0 <= n < |d.wininfo| ::
         AllStayIn(d.insts, WinStart(d.wininfo, n), WinStart(d.wininfo, n) + d.wininfo[n].length)
  }

  lemma {:induction false} WinStartPrefix(wininfo: seq<WinInfo>, more: seq<WinInfo>, n: nat)
    requires n <= |wininfo|
    ensures WinStart(wininfo + more, n) == WinStart(wininfo, n)
    decreases n
  {
    if n > 0 {
      WinStartPrefix(wininfo, more, n - 1);
    }
  }

  /** A window appended at the end keeps every target copy inside its window. */
  lemma WindowedStep(was: Whole, now: Whole, info: WinInfo)
    requires WellFormed(was) && Windowed(was)
    requires now.wininfo == was.wininfo + [info] && now.length == was.length + info.length
    requires NewFrom(was.insts, now.insts, was.length) && InsideFrom(now.insts, was.length)
    ensures Windowed(now)
  {
    hide WinStart, InstsOk;
    var k := |was.wininfo|;
    WinStartPrefix(was.wininfo, [info], k);
    WinStartNext(now.wininfo, k);
    EndsBelow(was.insts, |was.adds|);
    forall n | 0 <= n < |now.wininfo|
      ensures AllStayIn(now.insts, WinStart(now.wininfo, n), WinStart(now.wininfo, n) + now.wininfo[n].length)
    {
      if n < k {
        WinStartPrefix(was.wininfo, [info], n);
        WinStartNext(was.wininfo, n);
        WinStartMonotone(was.wininfo, n + 1, k);
        OldWindow(was, now, WinStart(was.wininfo, n), WinStart(was.wininfo, n) + was.wininfo[n].length);
      }
    }
  }

  lemma OldWindow(was: Whole, now: Whole, lo: nat, hi: nat)
    requires AllStayIn(was.insts, lo, hi) && hi <= was.length
    requires NewFrom(was.insts, now.insts, was.length)
    ensures AllStayIn(now.insts, lo, hi)
  {
    forall k | 0 <= k < |now.insts|
      ensures StaysIn(now.insts[k], lo, hi)
    {
      if now.insts[k] in was.insts {
        var j :| 0 <= j < |was.insts| && was.insts[j] == now.insts[k];
        assert StaysIn(was.insts[j], lo, hi);
      }
    }
  }

  /** The target file of a sequence of windows, or `None` if one is malformed. */
  function FileBytes(ws: seq<Window>, src: seq<byte>): (r: Option<seq<byte>>)
    decreases |ws|
  {
    if ws == [] then Some([])
    else
      var n := |ws| - 1;
      var init, last := FileBytes(ws[..n], src), DecodeWindow(ws[n], src);
      if init.Some? && last.Some? then Some(init.value + last.value) else None
  }

  function FileOrigins(ws: seq<Window>): (r: Option<seq<Origin>>)
    decreases |ws|
  {
    if ws == [] then Some([])
    else
      var n := |ws| - 1;
      var init, last := FileOrigins(ws[..n]), SymbolicWindow(ws[n]);
      if init.Some? && last.Some? then Some(init.value + last.value) else None
  }

  predicate CopyWindowsFit(ws: seq<Window>, n: nat) {
    forall i | 0 <= i < |ws| :: ws[i].cpyoff + ws[i].cpylen <= n
  }

  /** A delta applies to a source just when it is valid and takes nothing from behind the
      end of the source. */
  lemma {:induction false} FileEval(ws: seq<Window>, src: seq<byte>)
    ensures FileBytes(ws, src).Some? <==> FileOrigins(ws).Some? && Below(FileOrigins(ws).value, |src|)
    ensures FileBytes(ws, src).Some? ==> FileBytes(ws, src).value == Eval(FileOrigins(ws).value, src)
    decreases |ws|
  {
    hide SymbolicWindow, DecodeWindow;
    if ws != [] {
      var n := |ws| - 1;
      FileEval(ws[..n], src);
      WindowEval(ws[n], src);
      if FileOrigins(ws).Some? {
        var a, b := FileOrigins(ws[..n]).value, SymbolicWindow(ws[n]).value;
        BelowConcat(a, b, |src|);
        if Below(a + b, |src|) {
          EvalConcat(a, b, src);
        }
      }
    }
  }

  lemma BelowConcat(a: seq<Origin>, b: seq<Origin>, n: nat)
    ensures Below(a + b, n) <==> Below(a, n) && Below(b, n)
  {
    var c := a + b;
    assert forall i | 0 <= i < |a| :: c[i] == a[i];
    assert forall i | 0 <= i < |b| :: c[|a| + i] == b[i];
  }

  lemma {:induction false} FilePrefix(ws: seq<Window>, n: nat)
    requires FileOrigins(ws).Some? && n <= |ws|
    ensures FileOrigins(ws[..n]).Some?
    decreases |ws|
  {
    if n < |ws| {
      FilePrefix(ws[..|ws| - 1], n);
      assert ws[..|ws| - 1][..n] == ws[..n];
    } else {
      assert ws[..n] == ws;
    }
  }

  /** A flattened delta turns every source into the file its windows describe. */
  lemma FlattenedDecodes(whole: Whole, ws: seq<Window>, src: seq<byte>)
    requires WellFormed(whole) && FileOrigins(ws) == Some(Symbolic(whole.insts, whole.adds))
    ensures Fits(whole.insts, |src|) <==> FileBytes(ws, src).Some?
    ensures Fits(whole.insts, |src|) ==> FileBytes(ws, src) == Some(Decode(whole.insts, whole.adds, src))
  {
    hide FileOrigins, FileBytes, Symbolic, Decode, InstsOk;
    FileEval(ws, src);
    if Below(Symbolic(whole.insts, whole.adds), |src|) {
      BelowFits(whole.insts, whole.adds, |src|);
      DecodeIsEval(whole.insts, whole.adds, src);
    } else if Fits(whole.insts, |src|) {
      SymbolicBelow(whole.insts, whole.adds, |src|);
    }
  }

  /** The first `i` windows have been flattened. */
  ghost predicate FlatTo(ws: seq<Window>, i: nat, d: Whole, winstart: nat) {
    && i <= |ws| && |d.wininfo| == i && d == FlatFile(ws[..i])
    && OffsetsMatch(d.wininfo) && winstart == WinStart(d.wininfo, i) == TargetLength(ws[..i])
    && (AllTrusted(ws[..i]) ==> WellFormed(d) && d.length == winstart && Windowed(d))
    && (FileOrigins(ws).Some? ==>
          AllTrusted(ws[..i]) && FileOrigins(ws[..i]) == Some(Symbolic(d.insts, d.adds)))
    && (AllSolidWindows(ws) ==> NoneEmpty(d.insts))
  }

  predicate AllSolidWindows(ws: seq<Window>) {
    forall i | 0 <= i < |ws| :: NoEmptyHalf(Halves(ws[i].ops))
  }

  /** Flattening every window of a delta, as main_input does for a merge.  Windows that lack
      literal data or are shorter than they say are not told apart by the program; a valid
      delta has none. */
  method FlattenFile(ws: seq<Window>) returns (code: Code, whole: WholeState)
    ensures fresh(whole) && code in {Success, BadInput, ReadsOn}
    ensures code != Success ==> FileOrigins(ws) == None
    ensures code == Success ==> whole.Value() == FlatFile(ws) && OffsetsMatch(whole.wininfo)
    ensures FileOrigins(ws).Some? ==>
      WellFormed(whole.Value()) && whole.Origins() == FileOrigins(ws).value && |whole.wininfo| == |ws|
    ensures code == Success && AllTrusted(ws) ==> Windowed(whole.Value())
    ensures code == Success && AllSolidWindows(ws) ==> NoneEmpty(whole.inst)
  {
    hide Symbolic, InstsOk, Trusted, Windowed, OffsetsMatch, WinStart, FlatWindow, NoneEmpty, AllSolidWindows,
      TargetLength, FileOrigins, AllTrusted;
    whole := new WholeState();
    FlattenedNothing(whole.Value(), ws);
    code := Success;
    var i: nat, winstart: nat := 0, 0;
    while i < |ws| && code == Success
      invariant i <= |ws| && fresh(whole) && code in {Success, BadInput, ReadsOn}
      invariant code != Success ==> FileOrigins(ws) == None
      invariant code == Success ==> FlatTo(ws, i, whole.Value(), winstart)
      decreases |ws| - i
    {
      code := FlattenNext(ws, i, whole, winstart);
      winstart := winstart + ws[i].tgtlen;
      i := i + 1;
    }
    assert ws[..|ws|] == ws;
  }

  /** One more window. */
  method FlattenNext(ws: seq<Window>, i: nat, whole: WholeState, winstart: nat) returns (code: Code)
    requires i < |ws| && FlatTo(ws, i, whole.Value(), winstart)
    modifies whole
    ensures code in {Success, BadInput, ReadsOn} && (code != Success ==> FileOrigins(ws) == None)
    ensures code == Success ==> FlatTo(ws, i + 1, whole.Value(), winstart + ws[i].tgtlen)
  {
    hide Symbolic, InstsOk, Interpret, SymbolicWindow, Trusted, Halves, Windowed, NoEmptyHalf, NewFrom, InsideFrom,
      OffsetsMatch, WinStart, FlatWindow, NoneEmpty, NoNewEmpty, AllTrusted, FileOrigins;
    var stream := new Stream(ws[i], 1, false, None, _ => 0, []);
    ghost var pre, info := whole.Value(), WinInfo(winstart, ws[i].tgtlen, ws[i].adler32);
    assert ws[..i + 1][..i] == ws[..i];
    if FileOrigins(ws).Some? {
      FilePrefix(ws, i + 1);
      FileLast(ws[..i + 1]);
    }
    TrustedNext(ws, i);
    code := AppendWindow(stream, whole, winstart, ws[i].adler32, ws[i]);
    if code == Success {
      if AllTrusted(ws[..i + 1]) {
        WindowedStep(pre, whole.Value(), info);
      }
      if AllSolidWindows(ws) {
        StillSolid(pre.insts, whole.inst);
      }
      OffsetsNext(pre.wininfo, info);
    }
  }

  predicate AllTrusted(ws: seq<Window>) {
    forall i | 0 <= i < |ws| :: Trusted(ws[i])
  }

  lemma TrustedNext(ws: seq<Window>, n: nat)
    requires n < |ws|
    ensures AllTrusted(ws[..n + 1]) <==> AllTrusted(ws[..n]) && Trusted(ws[n])
  {
    hide Trusted;
    var now, next := ws[..n], ws[..n + 1];
    assert next == now + [ws[n]];
    assert forall i | 0 <= i < n :: next[i] == now[i];
  }

  /** The last window of a valid delta is valid, and so are the windows before it. */
  lemma FileLast(ws: seq<Window>)
    requires FileOrigins(ws).Some? && ws != []
    ensures var n := |ws| - 1;
      && FileOrigins(ws[..n]).Some? && SymbolicWindow(ws[n]).Some? && Trusted(ws[n])
      && FileOrigins(ws).value == FileOrigins(ws[..n]).value + SymbolicWindow(ws[n]).value
  {
    hide SymbolicWindow, Trusted;
    ValidIsTrusted(ws[|ws| - 1]);
  }

  lemma StillSolid(was: seq<Inst>, now: seq<Inst>)
    requires NoneEmpty(was) && NoNewEmpty(was, now)
    ensures NoneEmpty(now)
  {
  }

  lemma FlattenedNothing(whole: Whole, ws: seq<Window>)
    requires whole == Whole([], [], [], 0)
    ensures FlatTo(ws, 0, whole, 0)
  {
    assert ws[..0] == [];
  }
}
