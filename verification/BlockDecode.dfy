/**
  xdelta3-decode.h: xd3_decode_input with xd3_decode_emit in it.  The decoder stops for more
  input and for blocks of the source, in any order, and goes on where it stopped.
 */
module BlockDecode {
  import opened Bytes
  import opened StreamDecode
  import Integers
  import Vcdiff
  import Decoder
  import opened Blocks
  import opened WireFormat

  /** What the instruction and address sections of a window say. */
  datatype Parsed = Parsed(ops: seq<Vcdiff.Opcode>, addrs: seq<nat>)

  /** The source file and its blocks, and how sections are read. */
  datatype Source = Source(file: seq<byte>, blksize: nat, parse: Dec -> Option<Parsed>, adler32: seq<byte> -> nat)

  type Sourced = s: Source | s.blksize > 0 witness Source([], 1, d => None, b => 0)

  function WindowOf(d: Dec, p: Parsed): Vcdiff.Window {
    Vcdiff.Window(d.win.copyOffset, d.win.copyLength, d.win.targetLength, d.win.adler32, p.ops, p.addrs, d.data.bytes)
  }

  function Checksum(d: Dec): Option<nat> {
    if Bit(d.win.indicator, 2) then Some(d.win.adler32) else None
  }

  /** What a window comes to: the bytes of the reference interpreter, if they have the right
      checksum. */
  function Emitted(src: Sourced, d: Dec): Option<seq<byte>> {
    match src.parse(d)
    case None => None
    case Some(p) =>
      var r := Vcdiff.DecodeWindow(WindowOf(d, p), src.file);
      if r.Some? && (Checksum(d).Some? ==> src.adler32(r.value) == Checksum(d).value) then r else None
  }

  /** The source file ends before the copy window of the target window does. */
  predicate Short(src: Sourced, d: Dec) {
    |src.file| < d.win.copyOffset + d.win.copyLength
  }

  datatype Call = MoreInput | Failed | Reports(e: Event) | GetSrcBlk(blkno: nat)

  /** What one call does to the run still to come. */
  ghost predicate Leaves(c: Configuration, src: Sourced, d: Dec, s: seq<byte>, r: Call, d': Dec, s': seq<byte>) {
    match r
    case MoreInput => Run(c, d, s) == Result([], Some(d'))
    case Failed => Run(c, d, s) == Result([], None) || (Short(src, d') && Run(c, d, s) == Run(c, d', s'))
    case Reports(e) => Run(c, d, s) == Prepend(e, Run(c, d', s'))
    case GetSrcBlk(n) => Run(c, d, s) == Run(c, d', s')
  }

  class BlockStream {
    const src: Sourced
    const s: Stream
    var e: Decoder.Stream?

    constructor (c: Configuration, src: Sourced)
      ensures fresh(s) && Valid() && this.src == src && e == null
      ensures s.c == c.(emit := d => Emitted(src, d)) && s.d == Start() && s.nextIn == []
    {
      this.src, e := src, null;
      s := new Stream(c.(emit := d => Emitted(src, d)));
    }

    ghost predicate Valid()
      reads this, s, e
    {
      Emits(s.c, src) && (e != null ==> s.d.state == Emit && src.parse(s.d).Some? && e.Valid() && AtWork(src, s.d, e))
    }

    /** A block of the source is missing. */
    ghost predicate Waits(n: nat)
      reads this, e
    {
      e != null && e.blksize > 0 && e.NextBlock() == Some(n)
    }

    /** The block that was missing has come. */
    ghost predicate Served()
      reads this, e
    {
      e != null && e.blksize > 0 && e.Served()
    }

    ghost function Left(): nat
      reads this, e
    {
      if e == null then 0 else e.AllWork()
    }

    /** A window decoder for the window whose sections have come, unless there is one. */
    method OpenWindow() returns (ok: bool)
      requires Valid() && s.d.state == Emit
      modifies this`e
      ensures Valid() && (e == null || e == old(e) || fresh(e))
      ensures ok <==> src.parse(s.d).Some?
      ensures ok ==> e != null && (old(e) != null ==> e == old(e))
    {
      hide AtWork, Emits;
      var p := src.parse(s.d);
      ok := p.Some?;
      if ok && e == null {
        var w, k := WindowOf(s.d, p.value), Checksum(s.d);
        e := new Decoder.Stream(w, src.blksize, false, k, src.adler32, src.file);
        assert AtWork(src, s.d, e) by { IsAtWork(src, s.d, e); }
      }
    }

    /** The window decoder goes on. */
    method EmitOpen() returns (code: Decoder.Code)
      requires Valid() && e != null
      modifies e
      ensures code == Decoder.Output ==> Emitted(src, s.d) == Some(e.out)
      ensures code == Decoder.BadInput ==> Emitted(src, s.d) == None || Short(src, s.d)
      ensures code == Decoder.GetSrcBlk ==> Valid() && Waits(e.getblkno)
      ensures code == Decoder.GetSrcBlk && old(Served()) ==> Left() < old(Left())
      ensures code in {Decoder.Output, Decoder.BadInput, Decoder.GetSrcBlk}
    {
      hide Emits, Decoder.Stream.AllWork, Decoder.Stream.NextBlock, Decoder.Stream.Meaning, Vcdiff.DecodeWindow;
      code := e.Emit();
    }

    /** The state Emit, up to the end of the window or a block that is missing. */
    method EmitWindow() returns (r: Call)
      requires Valid() && s.d.state == Emit
      modifies this`e, s`d, e
      ensures Valid() && (e == null || e == old(e) || fresh(e)) && r != MoreInput
      ensures r.Reports? ==> e == null && Step(s.c, old(s.d), s.nextIn) == Stop(r.e, s.d, s.nextIn)
      ensures r.Failed? ==> s.d == old(s.d) && (Step(s.c, s.d, s.nextIn) == Fail || Short(src, s.d))
      ensures r.GetSrcBlk? ==> s.d == old(s.d) && Waits(r.blkno)
      ensures r.GetSrcBlk? && old(Served()) ==> e == old(e) && Left() < old(Left())
    {
      hide FinishWindow, Step, Emits, AtWork, Emitted, Waits, Decoder.Stream.Valid, Decoder.Stream.Served,
        Decoder.Stream.AllWork;
      EmitStep(s.c, src, s.d, s.nextIn);
      var ok := OpenWindow();
      if !ok {
        NothingParsed(src, s.d);
        return Failed;
      }
      var code := EmitOpen();
      if code == Decoder.GetSrcBlk {
        return GetSrcBlk(e.getblkno);
      }
      r := Failed;
      if code == Decoder.Output {
        var n := FinishWindow(s.d, e.out);
        FinishTells(s.d, e.out);
        r := Reports(n.e);
        s.d := n.d;
      }
      e := null;
    }

    /** xd3_decode_input: until there is something to tell, or a block or more input is
        needed. */
    method DecodeInput() returns (r: Call)
      requires Valid()
      modifies this`e, s, e
      ensures Valid() && (e == null || e == old(e) || fresh(e))
      ensures Leaves(s.c, src, old(s.d), old(s.nextIn), r, s.d, s.nextIn)
      ensures r.MoreInput? ==> s.nextIn == [] && e == null
      ensures r.Reports? ==> Closer(s.nextIn, s.d, old(s.nextIn), old(s.d))
      ensures r.GetSrcBlk? ==> Waits(r.blkno)
      ensures r.GetSrcBlk? ==>
        Closer(s.nextIn, s.d, old(s.nextIn), old(s.d)) || (s.nextIn == old(s.nextIn) && s.d == old(s.d))
      ensures r.GetSrcBlk? && old(Served()) ==>
        Closer(s.nextIn, s.d, old(s.nextIn), old(s.d))
        || (s.nextIn == old(s.nextIn) && s.d == old(s.d) && e == old(e) && Left() < old(Left()))
    {
      hide Step, Emits, AtWork, Run, Waits, Served, Left, Decoder.Stream.Valid;
      var more := true;
      r := Failed;
      while more
        invariant Valid() && (e == null || e == old(e) || fresh(e))
        invariant more ==> Run(s.c, s.d, s.nextIn) == Run(s.c, old(s.d), old(s.nextIn))
        invariant more ==>
          Closer(s.nextIn, s.d, old(s.nextIn), old(s.d))
          || (s.nextIn == old(s.nextIn) && s.d == old(s.d) && e == old(e) && Served() == old(Served())
              && Left() == old(Left()))
        invariant !more ==> Leaves(s.c, src, old(s.d), old(s.nextIn), r, s.d, s.nextIn)
        invariant !more && r.MoreInput? ==> s.nextIn == [] && e == null
        invariant !more && r.Reports? ==> Closer(s.nextIn, s.d, old(s.nextIn), old(s.d))
        invariant !more && r.GetSrcBlk? ==> Waits(r.blkno)
        invariant !more && r.GetSrcBlk? ==>
          Closer(s.nextIn, s.d, old(s.nextIn), old(s.d)) || (s.nextIn == old(s.nextIn) && s.d == old(s.d))
        invariant !more && r.GetSrcBlk? && old(Served()) ==>
          Closer(s.nextIn, s.d, old(s.nextIn), old(s.d))
          || (s.nextIn == old(s.nextIn) && s.d == old(s.d) && e == old(e) && Left() < old(Left()))
        decreases more, |s.nextIn|, Rank(s.d.state)
      {
        StepRank(s.c, s.d, s.nextIn);
        RunStep(s.c, s.d, s.nextIn);
        if s.d.state == Emit {
          r := EmitWindow();
          more := false;
        } else {
          var back;
          more, back := s.OneState();
          r := match back case Input => MoreInput case Error => Failed case Told(told) => Reports(told);
        }
      }
    }

    /** The application answers a request with the block asked for. */
    method Supply(n: nat)
      requires Valid() && Waits(n)
      modifies e
      ensures Valid() && Served() && Left() == old(Left())
    {
      hide Emits;
      e.Supply(n, Block(src.file, src.blksize, n));
    }

    /** Calling again and again, every request for a block answered, until more input is asked
        for. */
    method DecodePiece(piece: seq<byte>) returns (events: seq<Event>, failed: bool)
      requires Valid()
      modifies this`e, s, e
      ensures Valid() && (e == null || e == old(e) || fresh(e))
      ensures Tells(src, Run(s.c, old(s.d), piece), events, failed, s.d)
    {
      hide Run, Emits, AtWork, Leaves, Tells, Waits, Served, Left, Decoder.Stream.Valid;
      s.nextIn := piece;
      events, failed := [], false;
      var more := true;
      ghost var whole := Run(s.c, s.d, s.nextIn);
      assert [] + whole.events == whole.events;
      while more
        invariant Valid() && (e == null || e == old(e) || fresh(e))
        invariant more ==> !failed
        invariant more ==> whole == Result(events + Run(s.c, s.d, s.nextIn).events, Run(s.c, s.d, s.nextIn).end)
        invariant !more ==> Tells(src, whole, events, failed, s.d)
        decreases more, |s.nextIn|, Rank(s.d.state), !Served(), Left()
      {
        ghost var d, input := s.d, s.nextIn;
        var r := DecodeInput();
        TellsLeaves(s.c, src, whole, events, d, input, r, s.d, s.nextIn);
        match r
        case MoreInput => more := false;
        case Failed => more, failed := false, true;
        case Reports(told) => events := events + [told];
        case GetSrcBlk(n) => Supply(n);
      }
    }

    /** An input that arrives in pieces, with every request for a block answered: the decoder
        tells what it tells of the input in one piece, until it comes to a window that takes
        more from the source than there is. */
    method DecodePieces(pieces: seq<seq<byte>>) returns (events: seq<Event>, failed: bool)
      requires Valid() && s.d == Start()
      modifies this`e, s, e
      ensures Tells(src, Run(s.c, Start(), Integers.Joined(pieces)), events, failed, s.d)
    {
      hide Run, Tells, Valid, Integers.Joined, AndThen;
      events, failed := [], false;
      RunNothing(s.c);
      assert pieces[..0] == [];
      assert Tells(src, Run(s.c, Start(), []), events, failed, s.d) by { NothingTold(src, s.d); }
      for k := 0 to |pieces|
        invariant Valid() && (e == null || e == old(e) || fresh(e))
        invariant Tells(src, Run(s.c, Start(), Integers.Joined(pieces[..k])), events, failed, s.d)
      {
        ghost var front := pieces[..k];
        ghost var whole := Run(s.c, Start(), Integers.Joined(front));
        assert pieces[..k + 1] == front + [pieces[k]];
        JoinedNext(front, pieces[k]);
        RunSplit(s.c, Start(), Integers.Joined(front), pieces[k]);
        if failed {
          TellsOn(s.c, src, whole, events, s.d, pieces[k]);
        } else {
          ghost var d := s.d;
          var told;
          told, failed := DecodePiece(pieces[k]);
          TellsMore(s.c, src, whole, events, d, pieces[k], told, failed, s.d);
          events := events + told;
        }
      }
      assert pieces[..|pieces|] == pieces;
    }
  }

  /** What has been told of a run that is still going on, or has come to an end. */
  ghost predicate Tells(src: Sourced, whole: Result, events: seq<Event>, failed: bool, d: Dec) {
    if !failed then whole == Result(events, Some(d))
    else whole == Result(events, None) || (Short(src, d) && events <= whole.events)
  }

  lemma TellsLeaves(c: Configuration, src: Sourced, whole: Result, events: seq<Event>, d: Dec, s: seq<byte>, r: Call,
      d': Dec, s': seq<byte>)
    requires whole == Result(events + Run(c, d, s).events, Run(c, d, s).end) && Leaves(c, src, d, s, r, d', s')
    ensures r.MoreInput? || r.Failed? ==> Tells(src, whole, events, r.Failed?, d')
    ensures r.GetSrcBlk? ==> whole == Result(events + Run(c, d', s').events, Run(c, d', s').end)
    ensures r.Reports? ==> whole == Result(events + [r.e] + Run(c, d', s').events, Run(c, d', s').end)
  {
    hide Run;
    if r.Reports? {
      assert events + ([r.e] + Run(c, d', s').events) == events + [r.e] + Run(c, d', s').events;
    }
  }

  lemma NothingTold(src: Sourced, d: Dec)
    ensures Tells(src, Result([], Some(d)), [], false, d)
  {
  }

  lemma TellsMore(c: Configuration, src: Sourced, whole: Result, events: seq<Event>, d: Dec, b: seq<byte>,
      told: seq<Event>, failed: bool, d': Dec)
    requires Tells(src, whole, events, false, d) && Tells(src, Run(c, d, b), told, failed, d')
    ensures Tells(src, AndThen(c, whole, b), events + told, failed, d')
  {
    hide Run;
  }

  lemma TellsOn(c: Configuration, src: Sourced, whole: Result, events: seq<Event>, d: Dec, b: seq<byte>)
    requires Tells(src, whole, events, true, d)
    ensures Tells(src, AndThen(c, whole, b), events, true, d)
  {
    hide Run;
  }

  /** Less input, or a later state. */
  predicate Closer(s: seq<byte>, d: Dec, s0: seq<byte>, d0: Dec) {
    |s| < |s0| || (|s| == |s0| && Rank(d.state) < Rank(d0.state))
  }

  lemma NothingParsed(src: Sourced, d: Dec)
    requires src.parse(d) == None
    ensures Emitted(src, d) == None
  {
  }

  /** Windows are emitted as the source says. */
  ghost predicate Emits(c: Configuration, src: Sourced) {
    forall d :: c.emit(d) == Emitted(src, d)
  }

  lemma FinishTells(d: Dec, b: seq<byte>)
    ensures var n := FinishWindow(d, b);
      n.Tell? && n.e == Output(b) && n.d.state == Finish
  {
  }

  lemma EmitStep(c: Configuration, src: Sourced, d: Dec, s: seq<byte>)
    requires Emits(c, src) && d.state == Emit
    ensures Step(c, d, s) == match Emitted(src, d)
      case None => Fail
      case Some(b) => Settle(FinishWindow(d, b), s)
  {
    hide FinishWindow;
    assert Before(c, d).None? && Wanted(c, d) == Nothing;
    assert c.emit(d) == Emitted(src, d);
  }

  /** The window decoder `e` is in the middle of the window. */
  ghost predicate AtWork(src: Sourced, d: Dec, e: Decoder.Stream)
    requires src.parse(d).Some?
    reads e
  {
    var w := WindowOf(d, src.parse(d).value);
    && e.Meaning() == Vcdiff.DecodeWindow(w, src.file)
    && e.file == src.file && e.adler32 == src.adler32 && e.blksize == src.blksize && !e.hasGetblk
    && e.SameWindow(w.cpyoff, w.cpylen, w.tgtlen, Checksum(d))
  }

  lemma IsAtWork(src: Sourced, d: Dec, e: Decoder.Stream)
    requires src.parse(d).Some?
    requires var w := WindowOf(d, src.parse(d).value);
      && e.Meaning() == Vcdiff.DecodeWindow(w, src.file)
      && e.file == src.file && e.adler32 == src.adler32 && e.blksize == src.blksize && !e.hasGetblk
      && e.SameWindow(w.cpyoff, w.cpylen, w.tgtlen, Checksum(d))
    ensures AtWork(src, d, e)
  {
  }

  /** A window that arrived is executed with the sizes it was sent with: the copy window, the
      length of the target, the checksum, and the literal data. */
  lemma WindowExecutes(c: Configuration, src: Sourced, d: Dec, w: WindowFields, p: Parsed)
    requires WindowFormed(w) && w.indicator < 8 && UnpacksSections(c) && c.unpack(Held(d, w)).Some?
    requires src.parse(c.unpack(Held(d, w)).value) == Some(p)
    ensures var u := c.unpack(Held(d, w)).value;
      var sent := Vcdiff.Window(if w.copy.Some? then w.copy.value.offset else 0,
                                if w.copy.Some? then w.copy.value.length else 0, w.targetLength,
                                if w.checksum.Some? then w.checksum.value else d.win.adler32,
                                p.ops, p.addrs, u.data.bytes);
      var r := Vcdiff.DecodeWindow(sent, src.file);
      Emitted(src, u) ==
        if r.Some? && (w.checksum.Some? ==> src.adler32(r.value) == w.checksum.value) then r else None
  {
    hide Bit, Vcdiff.DecodeWindow;
    IndicatorBits(w.indicator);
    var u := c.unpack(Held(d, w)).value;
    assert u.win == Held(d, w).win;
  }
}
