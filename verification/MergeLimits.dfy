/**
  Valid deltas that the merge command reads but cannot write again, or writes as windows
  that are refused: one for every part of the condition on empty instructions.
 */
module MergeLimits {
  import opened Bytes
  import opened Delta
  import opened Vcdiff
  import opened Decoder
  import opened Merge
  import opened Flatten
  import opened Recode
  import opened MergeCommand

  /** A window of one opcode that makes one byte. */
  function OneOp(first: Half, second: Half, cpylen: nat, addrs: seq<nat>, data: seq<byte>): Window {
    Window(0, cpylen, 1, 0, [Opcode(first, second)], addrs, data)
  }

  /** An empty copy behind the only byte of the first window. */
  function CopyAtBorder(): seq<Window> {
    [OneOp(Half(Add, 1, 0), Half(Cpy, 0, 0), 0, [0], [65]), OneOp(Half(Add, 1, 0), Noop, 0, [], [66])]
  }

  /** The second half of the last opcode makes no byte. */
  function EmptyAtEnd(): seq<Window> {
    [OneOp(Half(Add, 1, 0), Half(Add, 0, 0), 0, [], [65])]
  }

  /** The only copy from the source makes no byte. */
  function EmptySource(): seq<Window> {
    [OneOp(Half(Cpy, 0, 0), Half(Add, 1, 0), 1, [0], [65])]
  }

  /** An empty copy of the source, from just behind what the other copy needs. */
  function BehindSource(): seq<Window> {
    [OneOp(Half(Cpy, 0, 0), Half(Cpy, 1, 0), 2, [1, 0], [])]
  }

  /** A last window that holds nothing. */
  function HollowEnd(): seq<Window> {
    [OneOp(Half(Add, 1, 0), Noop, 0, [], [65]), Window(0, 0, 0, 0, [], [], [])]
  }

  /** A window of one opcode, half by half. */
  lemma OneOpReads(w: Window, first: Half, second: Half)
    requires w.ops == [Opcode(first, second)]
    ensures Halves(w.ops) == [first, second]
    ensures SymbolicWindow(w) ==
      var s := Step(first, State(w.addrs, Lits(w.data), []), SymbolicSegment(w), w.cpylen, w.tgtlen);
      if s == None then None
      else
        var t := Step(second, s.value, SymbolicSegment(w), w.cpylen, w.tgtlen);
        if t == None then None else Interpret([], t.value, SymbolicSegment(w), w.cpylen, w.tgtlen)
  {
    hide Step;
    assert w.ops[1..] == [] && Halves([]) == [];
    var s := State(w.addrs, Lits(w.data), []);
    assert [first, second] == [first] + [second] && [second] == [second] + [];
    InterpretCons(first, [second], s, SymbolicSegment(w), w.cpylen, w.tgtlen);
    var t := Step(first, s, SymbolicSegment(w), w.cpylen, w.tgtlen);
    if t.Some? {
      InterpretCons(second, [], t.value, SymbolicSegment(w), w.cpylen, w.tgtlen);
    }
  }

  lemma OneWindow(w: Window)
    ensures FileOrigins([w]) == SymbolicWindow(w)
    ensures FlatFile([w]) == FlatWindow(Whole([], [], [], 0), w, 0)
  {
    hide SymbolicWindow, FlatWindow;
    assert [w][..0] == [];
    assert FileOrigins([]) == Some([]);
    assert SymbolicWindow(w).Some? ==> [] + SymbolicWindow(w).value == SymbolicWindow(w).value;
  }

  lemma TwoWindows(v: Window, w: Window)
    ensures FileOrigins([v, w]).Some? <==> FileOrigins([v]).Some? && SymbolicWindow(w).Some?
    ensures FlatFile([v, w]) == FlatWindow(FlatFile([v]), w, v.tgtlen)
  {
    hide SymbolicWindow, FlatWindow;
    assert [v, w][..1] == [v] && [v][..0] == [];
    assert TargetLength([v]) == v.tgtlen;
  }

  /** What flattening makes of one half: nothing, or one instruction. */
  function Flat(whole: Whole, p: Half, data: seq<byte>, w: Window, winstart: nat): Whole
    requires Enough(p, data)
  {
    if p.Noop? then whole else FlatOne(whole, p, data, w, winstart)
  }

  /** Flattening a window of one opcode whose halves become `p` and `q` when parsed. */
  lemma OneOpFlat(whole: Whole, w: Window, winstart: nat, h: Opcode, p: Half, q: Half)
    requires w.ops == [h] && SameShape(h.first, p) && SameShape(h.second, q) && w.addrs == Taken(p) + Taken(q)
    requires Enough(p, w.data) && Enough(q, if p.Noop? then w.data else w.data[|Owned(p, w.data)|..])
    ensures FlatWindow(whole, w, winstart) ==
      var start := whole.(wininfo := whole.wininfo + [WinInfo(winstart, w.tgtlen, w.adler32)]);
      var data := if p.Noop? then w.data else w.data[|Owned(p, w.data)|..];
      Flat(Flat(start, p, w.data, w, winstart), q, data, w, winstart)
  {
    hide FlatHalves, FlatOne, Taken;
    var start := whole.(wininfo := whole.wininfo + [WinInfo(winstart, w.tgtlen, w.adler32)]);
    var data := if p.Noop? then w.data else w.data[|Owned(p, w.data)|..];
    assert w.ops[1..] == [] && Halves([]) == [];
    assert Halves(w.ops) == [h.first] + [h.second] && [h.second] == [h.second] + [] && Taken(q) == Taken(q) + [];
    FlatNext(start, h.first, p, [h.second], Taken(q), w.data, w, winstart);
    FlatNext(Flat(start, p, w.data, w, winstart), h.second, q, [], [], data, w, winstart);
    FlatNothing(Flat(Flat(start, p, w.data, w, winstart), q, data, w, winstart), [],
        if q.Noop? then data else data[|Owned(q, data)|..], w, winstart);
  }

  /** The assertion about the address of a target copy fails in the second window. */
  lemma CopyAtBorderFails()
    ensures Valid(CopyAtBorder()) && !Written(Program([CopyAtBorder()]))
  {
    hide FileOrigins, FlatFile;
    CopyAtBorderReads();
    var d := CopyAtBorderFlat();
    assert Flats([CopyAtBorder()]) == [d];
    assert WinStart(d.wininfo, 1) == 1;
    assert BelowStart(d.insts[1], 1);
    assert !WrittenAt(d, 1);
  }

  lemma CopyAtBorderReads()
    ensures Valid(CopyAtBorder())
  {
    hide FlatFile;
    var ws := CopyAtBorder();
    OneOpReads(ws[0], Half(Add, 1, 0), Half(Cpy, 0, 0));
    OneOpReads(ws[1], Half(Add, 1, 0), Noop);
    OneWindow(ws[0]);
    TwoWindows(ws[0], ws[1]);
  }

  lemma CopyAtBorderFlat() returns (d: Whole)
    ensures d == FlatFile(CopyAtBorder()) && d.wininfo == [WinInfo(0, 1, 0), WinInfo(1, 1, 0)]
    ensures d.insts == [Inst(Add, Here, 1, 0, 0), Inst(Cpy, Here, 0, 0, 1), Inst(Add, Here, 1, 1, 1)]
  {
    hide FlatHalves, SymbolicWindow, FlatWindow, FlatFile;
    var ws := CopyAtBorder();
    OneWindow(ws[0]);
    TwoWindows(ws[0], ws[1]);
    OneOpFlat(Whole([], [], [], 0), ws[0], 0, ws[0].ops[0], Half(Add, 1, 0), Half(Cpy, 0, 0));
    var first := FlatFile([ws[0]]);
    assert first.insts == [Inst(Add, Here, 1, 0, 0), Inst(Cpy, Here, 0, 0, 1)];
    assert |first.adds| == 1 && first.length == 1;
    OneOpFlat(first, ws[1], 1, ws[1].ops[0], Half(Add, 1, 0), Noop);
    d := FlatFile(ws);
  }

  /** There is no window left for the last instruction. */
  lemma EmptyAtEndFails()
    ensures Valid(EmptyAtEnd()) && !Written(Program([EmptyAtEnd()]))
  {
    hide FlatHalves, FlatWindow;
    var w := EmptyAtEnd()[0];
    OneOpReads(w, Half(Add, 1, 0), Half(Add, 0, 0));
    OneWindow(w);
    OneOpFlat(Whole([], [], [], 0), w, 0, w.ops[0], Half(Add, 1, 0), Half(Add, 0, 0));
    var d := FlatFile([w]);
    assert d.insts == [Inst(Add, Here, 1, 0, 0), Inst(Add, Here, 0, 1, 1)];
    assert Program([EmptyAtEnd()]) == d;
  }

  /** What two instructions need of the source. */
  lemma PairHull(a: Inst, b: Inst, lo: nat, hi: nat)
    ensures Hull([a, b], lo, hi) ==
      var h := if IsSourceCopy(a) && Touches(a, lo, hi) then Some(Clip(a, lo, hi)) else None;
      if IsSourceCopy(b) && Touches(b, lo, hi) then Grow(h, Clip(b, lo, hi)) else h
  {
    hide IsSourceCopy, Touches, Clip;
    assert [a, b][..1] == [a] && [a][..0] == [];
    assert Hull([], lo, hi) == None;
    assert Hull([a], lo, hi) == if IsSourceCopy(a) && Touches(a, lo, hi) then Some(Clip(a, lo, hi)) else None;
  }

  /** The source window is empty. */
  lemma EmptySourceFails()
    ensures Valid(EmptySource()) && !Written(Program([EmptySource()]))
  {
    hide FileOrigins, FlatFile, Hull, Written, Touches, Clip, Grow;
    EmptySourceReads();
    var d := EmptySourceFlat();
    assert Flats([EmptySource()]) == [d];
    var a, b := EmptyCopy(0, 0), Inst(Add, Here, 1, 0, 0);
    assert d.insts == [a, b];
    PairHull(a, b, 0, 1);
    assert Touches(a, 0, 1) && Clip(a, 0, 1) == (0, 0) by { TouchedEmpty(a); }
    OnlyWindow(d);
  }

  lemma TouchedEmpty(a: Inst)
    requires a == EmptyCopy(0, 0)
    ensures Touches(a, 0, 1) && Clip(a, 0, 1) == (0, 0)
  {
  }

  lemma EmptySourceReads()
    ensures Valid(EmptySource())
  {
    hide FlatFile;
    var w := EmptySource()[0];
    OneOpReads(w, Half(Cpy, 0, 0), Half(Add, 1, 0));
    OneWindow(w);
  }

  lemma EmptySourceFlat() returns (d: Whole)
    ensures d == FlatFile(EmptySource()) && d.wininfo == [WinInfo(0, 1, 0)]
    ensures d.insts == [Inst(Cpy, Source, 0, 0, 0), Inst(Add, Here, 1, 0, 0)]
  {
    hide FlatHalves, SymbolicWindow;
    var w := EmptySource()[0];
    OneWindow(w);
    OneOpFlat(Whole([], [], [], 0), w, 0, w.ops[0], Half(Cpy, 0, 0), Half(Add, 1, 0));
    d := FlatFile([w]);
  }

  /** Here the command ends well, and the window it writes is refused. */
  lemma BehindSourceFails()
    ensures Valid(BehindSource()) && Written(Program([BehindSource()])) && !Cuttable(Program([BehindSource()]))
  {
    hide Written, Cuttable, FileOrigins;
    BehindSourceReads();
    var d := BehindSourceFlat();
    assert Flats([BehindSource()]) == [FlatFile(BehindSource())];
    BehindSourceHull(d);
  }

  lemma BehindSourceReads()
    ensures Valid(BehindSource())
  {
    var w := BehindSource()[0];
    OneOpReads(w, Half(Cpy, 0, 0), Half(Cpy, 1, 0));
    OneWindow(w);
  }

  lemma BehindSourceFlat() returns (d: Whole)
    ensures d == FlatFile(BehindSource()) && d.wininfo == [WinInfo(0, 1, 0)]
    ensures d.insts == [Inst(Cpy, Source, 0, 1, 0), Inst(Cpy, Source, 1, 0, 0)]
  {
    hide FlatHalves, SymbolicWindow;
    var w := BehindSource()[0];
    OneWindow(w);
    OneOpFlat(Whole([], [], [], 0), w, 0, w.ops[0], Half(Cpy, 0, 1), Half(Cpy, 1, 0));
    d := FlatFile([w]);
  }

  lemma BehindSourceHull(d: Whole)
    requires d.wininfo == [WinInfo(0, 1, 0)]
    requires d.insts == [Inst(Cpy, Source, 0, 1, 0), Inst(Cpy, Source, 1, 0, 0)]
    ensures Written(d) && !Cuttable(d)
  {
    hide Hull, Written, Cuttable, Touches, Clip, Grow;
    var a, b := EmptyCopy(1, 0), Inst(Cpy, Source, 1, 0, 0);
    assert d.insts == [a, b];
    PairHull(a, b, 0, 1);
    FirstTouched(a);
    SecondTouched(b);
    BothGrown();
    OnlyWindow(d);
  }

  lemma FirstTouched(a: Inst)
    requires a == EmptyCopy(1, 0)
    ensures Touches(a, 0, 1) && Clip(a, 0, 1) == (1, 1)
  {
  }

  lemma SecondTouched(b: Inst)
    requires b == Inst(Cpy, Source, 1, 0, 0)
    ensures Touches(b, 0, 1) && Clip(b, 0, 1) == (0, 1)
  {
  }

  lemma BothGrown()
    ensures Grow(Some((1, 1)), (0, 1)) == Some((0, 1))
  {
  }

  /** A program of one window. */
  lemma OnlyWindow(d: Whole)
    requires d.wininfo == [WinInfo(0, 1, 0)] && d.insts != []
    ensures Written(d) <==> d.insts[|d.insts| - 1].size > 0 && WindowWritten(d.insts, 0, 1)
    ensures Cuttable(d) <==> Written(d) && WindowDecodes(d.insts, 0, 1)
  {
    hide WindowWritten, WindowDecodes;
    assert WinStart(d.wininfo, 0) == 0;
    assert WrittenAt(d, 0) <==> WindowWritten(d.insts, 0, 1);
    assert DecodesAt(d, 0) <==> WindowDecodes(d.insts, 0, 1);
  }

  /** A window that holds nothing is not written at the end. */
  lemma HollowEndIsDropped(ws: seq<Window>)
    requires SameLabels(ws, HollowEnd())
    ensures Valid(HollowEnd()) && |ws| == |HollowEnd()| - 1
  {
    hide FlatFile;
    var v, w := HollowEnd()[0], HollowEnd()[1];
    OneOpReads(v, Half(Add, 1, 0), Noop);
    assert Halves(w.ops) == [];
    OneWindow(v);
    TwoWindows(v, w);
  }
}
