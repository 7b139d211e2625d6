/**
  xdelta3-decode.h: parsing half-instructions, and producing the bytes of a target
  window from source blocks that arrive on demand (`Emit`).
 */
module Decoder {
  import opened Bytes
  import opened Blocks
  import opened Delta
  import opened Vcdiff
  import Arith

  /** `ReadsOn` is no code of the program: it reads literal data behind its section. */
  datatype Code = Success | Output | GetSrcBlk | BadInput | InternalError | AppError | ReadsOn

  function Size(h: Half): nat {
    if h.Noop? then 0 else h.size
  }

  /** The address a parsed half-instruction has taken out of the address section. */
  function Taken(h: Half): seq<nat> {
    if h.Half? && h.kind == Cpy then [h.addr] else []
  }

  /** Same operation, the address apart. */
  predicate SameShape(h: Half, h': Half) {
    (h.Noop? && h'.Noop?) || (h.Half? && h'.Half? && h.kind == h'.kind && h.size == h'.size)
  }

  /** The meaning of a decoder state: two parsed half-instructions still to be
      written, then the rest of the sections. */
  function Pending<T>(h1: Half, h2: Half, rest: seq<Half>, addrs: seq<nat>, data: seq<T>, out: seq<T>,
                      seg: seq<T>, segLen: nat, tgtLen: nat): Option<seq<T>>
    requires |seg| <= segLen
  {
    Interpret([h1, h2] + rest, State(Taken(h1) + Taken(h2) + addrs, data, out), seg, segLen, tgtLen)
  }

  /** A parsed half-instruction has passed the checks of the parser. */
  predicate Checked(h: Half, segLen: nat, outLen: nat) {
    h.Half? && h.kind == Cpy ==> CopyOk(h.addr, h.size, segLen, outLen)
  }

  /** The source block a half-instruction takes bytes from first. */
  ghost function Wanted(h: Half, cpyoff: nat, cpylen: nat, blksize: nat): Option<nat>
    requires blksize > 0
  {
    if h.Half? && h.kind == Cpy && h.addr < cpylen then Some((cpyoff + h.addr) / blksize) else None
  }

  /** How much is left to do: a step for every half-instruction and every byte it makes. */
  ghost function Work(h: Half): nat {
    if h.Noop? then 0 else h.size + 1
  }

  ghost function OpsWork(ops: seq<Opcode>): nat {
    if ops == [] then 0 else 1 + Work(ops[0].first) + Work(ops[0].second) + OpsWork(ops[1..])
  }

  lemma StepShape<T>(h: Half, h': Half, s: State<T>, seg: seq<T>, segLen: nat, tgtLen: nat)
    requires |seg| <= segLen && SameShape(h, h')
    ensures Step(h, s, seg, segLen, tgtLen) == Step(h', s, seg, segLen, tgtLen)
  {
  }

  /** Parsing moves addresses from the section into the instructions. */
  lemma ParseKeepsMeaning<T>(h1: Half, h2: Half, p1: Half, p2: Half, rest: seq<Half>, addrs: seq<nat>, data: seq<T>,
                             out: seq<T>, seg: seq<T>, segLen: nat, tgtLen: nat)
    requires |seg| <= segLen && SameShape(h1, p1) && SameShape(h2, p2)
    ensures Pending(p1, p2, rest, addrs, data, out, seg, segLen, tgtLen)
         == Pending(Noop, Noop, [h1, h2] + rest, Taken(p1) + Taken(p2) + addrs, data, out, seg, segLen, tgtLen)
  {
    hide Interpret, Step, SameShape, Taken;
    var s := State(Taken(p1) + Taken(p2) + addrs, data, out);
    PendingNoop([h1, h2] + rest, Taken(p1) + Taken(p2) + addrs, data, out, seg, segLen, tgtLen);
    StepShape(h1, p1, s, seg, segLen, tgtLen);
    PairFirst(h1, h2, rest, s, seg, segLen, tgtLen);
    PairFirst(p1, p2, rest, s, seg, segLen, tgtLen);
    match Step(p1, s, seg, segLen, tgtLen)
    case None =>
    case Some(s') => StepShape(h2, p2, s', seg, segLen, tgtLen);
  }

  lemma PairFirst<T>(h1: Half, h2: Half, rest: seq<Half>, s: State<T>, seg: seq<T>, segLen: nat, tgtLen: nat)
    requires |seg| <= segLen
    ensures Interpret([h1, h2] + rest, s, seg, segLen, tgtLen)
         == match Step(h1, s, seg, segLen, tgtLen)
            case None => None
            case Some(s') =>
              match Step(h2, s', seg, segLen, tgtLen)
              case None => None
              case Some(s'') => Interpret(rest, s'', seg, segLen, tgtLen)
  {
    hide Interpret, Step;
    assert [h1, h2] + rest == [h1] + ([h2] + rest);
    InterpretCons(h1, [h2] + rest, s, seg, segLen, tgtLen);
    match Step(h1, s, seg, segLen, tgtLen)
    case None =>
    case Some(s') => InterpretCons(h2, rest, s', seg, segLen, tgtLen);
  }

  lemma PendingNoop<T>(rest: seq<Half>, addrs: seq<nat>, data: seq<T>, out: seq<T>, seg: seq<T>, segLen: nat,
      tgtLen: nat)
    requires |seg| <= segLen
    ensures Pending(Noop, Noop, rest, addrs, data, out, seg, segLen, tgtLen)
         == Interpret(rest, State(addrs, data, out), seg, segLen, tgtLen)
  {
    hide Interpret;
    assert [] + [] + addrs == addrs;
    PairFirst(Noop, Noop, rest, State(addrs, data, out), seg, segLen, tgtLen);
  }

  /** What the parser refuses, the reference interpreter refuses too. */
  predicate Rejected(h: Half, addrs: seq<nat>, segLen: nat, outLen: nat, tgtLen: nat) {
    h.Half? && (outLen + h.size > tgtLen ||
                (h.kind == Cpy && (addrs == [] || !CopyOk(addrs[0], h.size, segLen, outLen))))
  }

  lemma RejectedFirst<T>(h1: Half, h2: Half, rest: seq<Half>, addrs: seq<nat>, data: seq<T>,
                         out: seq<T>, seg: seq<T>, segLen: nat, tgtLen: nat)
    requires |seg| <= segLen && Rejected(h1, addrs, segLen, |out|, tgtLen)
    ensures Pending(Noop, Noop, [h1, h2] + rest, addrs, data, out, seg, segLen, tgtLen) == None
  {
    PendingNoop([h1, h2] + rest, addrs, data, out, seg, segLen, tgtLen);
    assert [h1, h2] + rest == [h1] + ([h2] + rest);
    InterpretCons(h1, [h2] + rest, State(addrs, data, out), seg, segLen, tgtLen);
  }

  lemma RejectedSecond<T>(h1: Half, p1: Half, h2: Half, rest: seq<Half>, addrs: seq<nat>, data: seq<T>,
                          out: seq<T>, seg: seq<T>, segLen: nat, tgtLen: nat)
    requires |seg| <= segLen && SameShape(h1, p1)
    requires Rejected(h2, addrs, segLen, |out| + Size(h1), tgtLen)
    ensures Pending(Noop, Noop, [h1, h2] + rest, Taken(p1) + addrs, data, out, seg, segLen, tgtLen) == None
  {
    var s := State(Taken(p1) + addrs, data, out);
    PendingNoop([h1, h2] + rest, Taken(p1) + addrs, data, out, seg, segLen, tgtLen);
    assert [h1, h2] + rest == [h1] + ([h2] + rest);
    InterpretCons(h1, [h2] + rest, s, seg, segLen, tgtLen);
    match Step(h1, s, seg, segLen, tgtLen)
    case None =>
    case Some(s') =>
      assert s'.addrs == addrs;
      InterpretCons(h2, rest, s', seg, segLen, tgtLen);
  }

  /** The second half of an opcode is refused after the first, parsed as `p1`, has
      left the addresses `left`. */
  predicate SecondRejected(inst: Opcode, p1: Half, left: seq<nat>, addrs: seq<nat>, segLen: nat, outLen: nat,
      tgtLen: nat) {
    && SameShape(inst.first, p1) && Taken(p1) + left == addrs
    && Rejected(inst.second, left, segLen, outLen + Size(p1), tgtLen)
  }

  ghost predicate RejectedPair(inst: Opcode, addrs: seq<nat>, segLen: nat, outLen: nat, tgtLen: nat) {
    || Rejected(inst.first, addrs, segLen, outLen, tgtLen)
    || exists p1: Half, left: seq<nat> :: SecondRejected(inst, p1, left, addrs, segLen, outLen, tgtLen)
  }

  lemma RejectedMeansNone<T>(inst: Opcode, rest: seq<Half>, addrs: seq<nat>, data: seq<T>,
                             out: seq<T>, seg: seq<T>, segLen: nat, tgtLen: nat)
    requires |seg| <= segLen && RejectedPair(inst, addrs, segLen, |out|, tgtLen)
    ensures Pending(Noop, Noop, [inst.first, inst.second] + rest, addrs, data, out, seg, segLen, tgtLen) == None
  {
    if Rejected(inst.first, addrs, segLen, |out|, tgtLen) {
      RejectedFirst(inst.first, inst.second, rest, addrs, data, out, seg, segLen, tgtLen);
    } else {
      var p1: Half, left: seq<nat> :| SecondRejected(inst, p1, left, addrs, segLen, |out|, tgtLen);
      RejectedSecond(inst.first, p1, inst.second, rest, left, data, out, seg, segLen, tgtLen);
    }
  }

  /** The first `take` bytes of a source copy may be written ahead of the rest. */
  lemma CopyPart<T>(h: Half, take: nat, addrs: seq<nat>, data: seq<T>, out: seq<T>, seg: seq<T>, segLen: nat,
      tgtLen: nat)
    requires |seg| <= segLen && h.Half? && h.kind == Cpy
    requires h.addr < segLen && h.addr + h.size <= segLen
    requires take < h.size && h.addr + take <= |seg|
    ensures Step(h, State([h.addr] + addrs, data, out), seg, segLen, tgtLen)
         == Step(h.(addr := h.addr + take, size := h.size - take),
                 State([h.addr + take] + addrs, data, out + seg[h.addr..h.addr + take]), seg, segLen, tgtLen)
  {
    if h.addr + h.size <= |seg| {
      assert seg[h.addr..h.addr + take] + seg[h.addr + take..h.addr + h.size] == seg[h.addr..h.addr + h.size];
      assert out + seg[h.addr..h.addr + take] + seg[h.addr + take..h.addr + h.size]
          == out + seg[h.addr..h.addr + h.size];
    }
  }

  /** A decoder in the middle of one window, with the block cache of its source. */
  class Stream {
    // the window header
    var decCpyoff: nat
    var decCpylen: nat
    var decTgtlen: nat
    var decMaxpos: nat
    var decAdler32: Option<nat>
    // what is left of the sections, and the two current half-instructions
    var instSect: seq<Opcode>
    var addrSect: seq<nat>
    var dataSect: seq<byte>
    var current1: Half
    var current2: Half
    var decPosition: nat
    // the target window: next_out[..avail_out]
    var out: seq<byte>
    var spaceOut: nat
    // the source, known block by block
    const file: seq<byte>  // held by the application
    const blksize: nat
    const hasGetblk: bool
    const adler32: seq<byte> -> nat
    var curblkno: Option<nat>
    var getblkno: nat
    var curblk: seq<byte>

    ghost predicate BlockOk()
      reads this
    {
      blksize > 0 && (curblkno.Some? ==> curblk == Block(file, blksize, curblkno.value))
    }

    ghost predicate Valid()
      reads this
    {
      && BlockOk()
      && decMaxpos == decCpylen + decTgtlen && decTgtlen <= spaceOut
      && decPosition == decCpylen + |out| + Size(current1) + Size(current2)
      && decPosition <= decMaxpos
      && Checked(current1, decCpylen, |out|)
      && Checked(current2, decCpylen, |out| + Size(current1))
    }

    ghost function Seg(): (seg: seq<byte>)
      reads this
      ensures |seg| <= decCpylen
    {
      Segment(decCpyoff, decCpylen, file)
    }

    /** What the reference interpreter makes of the window from here on. */
    ghost function Meaning(): Option<seq<byte>>
      reads this
    {
      Pending(current1, current2, Halves(instSect), addrSect, dataSect, out, Seg(), decCpylen, decTgtlen)
    }

    /** The source file ends before the copy window does. */
    ghost predicate ShortSource()
      reads this
    {
      |file| < decCpyoff + decCpylen
    }

    /** Only an application with a block reader of its own lets it fail. */
    predicate Possible(code: Code)
      reads this
    {
      code in {Success, GetSrcBlk, BadInput} || (hasGetblk && code in {InternalError, AppError})
    }

    /** The block of `h` has been asked for, and is not there. */
    ghost predicate Awaits(h: Half)
      reads this
    {
      blksize > 0 && Wanted(h, decCpyoff, decCpylen, blksize) == Some(getblkno) != curblkno
    }

    ghost function NextBlock(): Option<nat>
      requires blksize > 0
      reads this
    {
      Wanted(if current1.Half? then current1 else current2, decCpyoff, decCpylen, blksize)
    }

    ghost function AllWork(): nat
      reads this
    {
      OpsWork(instSect) + Work(current1) + Work(current2)
    }

    ghost predicate SameWindow(off: nat, len: nat, tgt: nat, adler: Option<nat>)
      reads this
    {
      decCpyoff == off && decCpylen == len && decTgtlen == tgt && decAdler32 == adler
    }

    /** The state in which the header of `w` leaves the decoder. */
    constructor (w: Window, blksize: nat, hasGetblk: bool, checksum: Option<nat>, adler32: seq<byte> -> nat,
                 file: seq<byte>)
      requires blksize > 0
      ensures Valid() && SameWindow(w.cpyoff, w.cpylen, w.tgtlen, checksum)
      ensures this.file == file && this.adler32 == adler32 && this.blksize == blksize && this.hasGetblk == hasGetblk
      ensures instSect == w.ops && addrSect == w.addrs && dataSect == w.data && decPosition == w.cpylen
      ensures Meaning() == DecodeWindow(w, file)
    {
      this.file, this.blksize, this.hasGetblk, this.adler32 := file, blksize, hasGetblk, adler32;
      decCpyoff, decCpylen, decTgtlen, decAdler32 := w.cpyoff, w.cpylen, w.tgtlen, checksum;
      decMaxpos, decPosition := w.cpylen + w.tgtlen, w.cpylen;
      instSect, addrSect, dataSect := w.ops, w.addrs, w.data;
      current1, current2 := Noop, Noop;
      out, spaceOut := [], w.tgtlen;
      curblkno, getblkno, curblk := None, 0, [];
      new;
      PendingNoop(Halves(instSect), addrSect, dataSect, out, Seg(), decCpylen, decTgtlen);
    }

    /** xd3_decode_parse_halfinst */
    method ParseHalfinst(inst: Half) returns (code: Code, parsed: Half)
      requires inst.Half? && decCpylen <= decPosition <= decMaxpos && decMaxpos == decCpylen + decTgtlen
      modifies this`decPosition, this`addrSect
      ensures var at := old(decPosition) - decCpylen;
        && (code == Success || code == BadInput)
        && (code == BadInput <==> Rejected(inst, old(addrSect), decCpylen, at, decTgtlen))
        && (code == Success ==> Checked(parsed, decCpylen, at))
      ensures code == Success ==>
        && SameShape(inst, parsed) && Taken(parsed) + addrSect == old(addrSect)
        && decPosition == old(decPosition) + inst.size <= decMaxpos
    {
      parsed := inst;
      if inst.kind == Cpy {
        if addrSect == [] {
          return BadInput, parsed;
        }
        parsed := inst.(addr := addrSect[0]);
        addrSect := addrSect[1..];
        if parsed.addr >= decPosition {
          return BadInput, parsed;
        }
        if parsed.addr < decCpylen && parsed.addr + inst.size > decCpylen {
          return BadInput, parsed;
        }
      }
      if decPosition + inst.size > decMaxpos {
        return BadInput, parsed;
      }
      decPosition := decPosition + inst.size;
      code := Success;
    }

    /** One side of an opcode; the code table may have XD3_NOOP on either. */
    method ParseSide(inst: Half) returns (code: Code, parsed: Half)
      requires decCpylen <= decPosition <= decMaxpos && decMaxpos == decCpylen + decTgtlen
      modifies this`decPosition, this`addrSect
      ensures var at := old(decPosition) - decCpylen;
        && (code == Success || code == BadInput)
        && (code == BadInput <==> Rejected(inst, old(addrSect), decCpylen, at, decTgtlen))
        && (code == Success ==> Checked(parsed, decCpylen, at))
      ensures code == Success ==>
        && SameShape(inst, parsed) && Taken(parsed) + addrSect == old(addrSect)
        && Size(inst) == Size(parsed) && decPosition == old(decPosition) + Size(parsed) <= decMaxpos
    {
      code, parsed := Success, Noop;
      if inst != Noop {
        code, parsed := ParseHalfinst(inst);
      }
    }

    /** xd3_decode_instruction */
    method DecodeInstruction() returns (code: Code)
      requires Valid() && current1.Noop? && current2.Noop?
      modifies this`decPosition, this`addrSect, this`instSect, this`current1, this`current2
      ensures code == Success || code == BadInput
      ensures code == Success ==> Valid() && Meaning() == old(Meaning())
      ensures code == Success ==> |instSect| < |old(instSect)| && AllWork() < old(AllWork())
      ensures code == BadInput ==> old(instSect) == [] || old(Meaning()) == None
    {
      if instSect == [] {
        return BadInput;
      }
      code := DecodePair();
    }

    /** xd3_decode_instruction past its underflow check, with both halves of the next
        opcode parsed in order. */
    method ParsePair() returns (code: Code)
      requires decCpylen <= decPosition <= decMaxpos && decMaxpos == decCpylen + decTgtlen && instSect != []
      modifies this`decPosition, this`addrSect, this`instSect, this`current1, this`current2
      ensures instSect == old(instSect)[1..]
      ensures var inst, at := old(instSect)[0], old(decPosition) - decCpylen;
        && (code == Success || code == BadInput)
        && (code == Success ==>
              && SameShape(inst.first, current1) && SameShape(inst.second, current2)
              && Taken(current1) + (Taken(current2) + addrSect) == old(addrSect)
              && decPosition == old(decPosition) + Size(current1) + Size(current2) <= decMaxpos
              && Checked(current1, decCpylen, at) && Checked(current2, decCpylen, at + Size(current1)))
        && (code == BadInput ==> RejectedPair(inst, old(addrSect), decCpylen, at, decTgtlen))
    {
      var inst := instSect[0];
      instSect := instSect[1..];
      code, current1 := ParseSide(inst.first);
      if code == Success {
        ghost var left := addrSect;
        code, current2 := ParseSide(inst.second);
        if code != Success {
          assert SecondRejected(inst, current1, left, old(addrSect), decCpylen, old(decPosition) - decCpylen,
              decTgtlen);
        }
      }
    }

    /** The effect of parsing on the meaning of the decoder state. */
    method DecodePair() returns (code: Code)
      requires Valid() && current1.Noop? && current2.Noop? && instSect != []
      modifies this`decPosition, this`addrSect, this`instSect, this`current1, this`current2
      ensures code == Success || code == BadInput
      ensures code == Success ==> Valid() && Meaning() == old(Meaning())
      ensures code == Success ==> instSect == old(instSect)[1..] && AllWork() < old(AllWork())
      ensures code == BadInput ==> old(Meaning()) == None
    {
      hide Block, Pending, RejectedPair, CopyOk;
      ghost var addrs, rest := addrSect, Halves(instSect[1..]);
      var inst := instSect[0];
      assert Halves(instSect) == [inst.first, inst.second] + rest;
      assert Taken(current1) == [] && Taken(current2) == [] && [] + [] + addrs == addrs;
      hide Halves, Taken, SameShape, Checked, Segment;
      code := ParsePair();
      if code == Success {
        Associative(Taken(current1), Taken(current2), addrSect);
        ParseKeepsMeaning(inst.first, inst.second, current1, current2, rest, addrSect, dataSect, out, Seg(),
                          decCpylen, decTgtlen);
      } else {
        RejectedMeansNone(inst, rest, addrs, dataSect, out, Seg(), decCpylen, decTgtlen);
      }
    }

    /** xd3_getblk: either the block is the current one, or it is asked of the
        application, by callback or by returning to the caller. */
    method GetBlk(blkno: nat) returns (code: Code)
      requires BlockOk()
      modifies this`curblkno, this`curblk, this`getblkno
      ensures BlockOk()
      ensures code == Success ==> curblkno == Some(blkno)
      ensures code == GetSrcBlk ==> curblkno == old(curblkno) != Some(blkno) && getblkno == blkno
      ensures Possible(code) && code != BadInput
    {
      code := Success;
      if curblkno != Some(blkno) {
        getblkno := blkno;
        if !hasGetblk {
          code := GetSrcBlk;
        } else {
          code := Callback(blkno);
        }
      }
    }

    /** The application's block reader: it delivers the block or fails. */
    method Callback(blkno: nat) returns (code: Code)
      requires BlockOk()
      modifies this`curblkno, this`curblk
      ensures BlockOk()
      ensures code == Success ==> curblkno == Some(blkno)
      ensures code in {Success, InternalError, AppError}
    {
      if * {
        code := InternalError;  // XD3_TOOFARBACK: a source that cannot seek
      } else if * {
        code := AppError;
      } else {
        curblkno, curblk := Some(blkno), Block(file, blksize, blkno);
        code := Success;
      }
    }

    /** The application answers XD3_GETSRCBLK with the block asked for. */
    method Supply(blkno: nat, bytes: seq<byte>)
      requires Valid() && bytes == Block(file, blksize, blkno)
      modifies this`curblkno, this`curblk
      ensures Valid() && curblkno == Some(blkno) && Meaning() == old(Meaning())
      ensures old(NextBlock()) == Some(blkno) ==> Served() && AllWork() == old(AllWork())
    {
      curblkno, curblk := Some(blkno), bytes;
    }

    /** The meaning of a state whose next half-instruction is `h`. */
    ghost function MeaningOf(h: Half, rest: seq<Half>, addrs: seq<nat>): Option<seq<byte>>
      reads this
    {
      Interpret([h] + rest, State(Taken(h) + addrs, dataSect, out), Seg(), decCpylen, decTgtlen)
    }

    /** The branch of xd3_decode_output_halfinst for RUN and ADD. */
    method OutputData(inst: Half, ghost rest: seq<Half>, ghost addrs: seq<nat>) returns (code: Code)
      requires inst.Half? && inst.kind != Cpy && |out| + inst.size <= decTgtlen
      modifies this`out, this`dataSect
      ensures code == Success || code == BadInput
      ensures code == Success ==> |out| == |old(out)| + inst.size
      ensures code == Success ==> MeaningOf(Noop, rest, addrs) == old(MeaningOf(inst, rest, addrs))
      ensures code == BadInput ==> old(MeaningOf(inst, rest, addrs)) == None
    {
      InterpretCons(inst, rest, State([] + addrs, dataSect, out), Seg(), decCpylen, decTgtlen);
      code := Success;
      if inst.kind == Run {
        if dataSect == [] {
          code := BadInput;
        } else {
          out := out + Repeat(dataSect[0], inst.size);
          dataSect := dataSect[1..];
        }
      } else if inst.size > 0 {
        if dataSect == [] || inst.size > |dataSect| {
          code := BadInput;
        } else {
          out := out + dataSect[..inst.size];
          dataSect := dataSect[inst.size..];
        }
      } else {
        assert dataSect[0..] == dataSect && out + dataSect[..0] == out;
      }
      InterpretCons(Noop, rest, State([] + addrs, dataSect, out), Seg(), decCpylen, decTgtlen);
    }

    /** The branch for a copy within the target window: byte by byte, because the
        ranges may overlap. */
    method OutputTargetCopy(inst: Half, ghost rest: seq<Half>, ghost addrs: seq<nat>)
      requires inst.Half? && inst.kind == Cpy && |out| + inst.size <= decTgtlen
      requires decCpylen <= inst.addr && CopyOk(inst.addr, inst.size, decCpylen, |out|)
      modifies this`out
      ensures |out| == |old(out)| + inst.size
      ensures MeaningOf(Noop, rest, addrs) == old(MeaningOf(inst, rest, addrs))
    {
      hide Interpret, CopyForward;
      ghost var was := State([inst.addr] + addrs, dataSect, out);
      InterpretCons(inst, rest, was, Seg(), decCpylen, decTgtlen);
      assert was.addrs[1..] == addrs && [] + addrs == addrs;
      CopyBytes(inst.addr - decCpylen, inst.size);
      InterpretCons(Noop, rest, State(addrs, dataSect, out), Seg(), decCpylen, decTgtlen);
    }

    method CopyBytes(addr: nat, take: nat)
      requires addr < |out|
      modifies this`out
      ensures out == CopyForward(old(out), addr, take)
    {
      var src: nat, i: nat := addr, take;
      while i != 0
        invariant i <= take && src == addr + (take - i)
        invariant src < |out|
        invariant CopyForward(out, src, i) == CopyForward(old(out), addr, take)
      {
        out := out + [out[src]];
        src := src + 1;
        i := i - 1;
      }
    }

    /** The branch for a copy from the source: as much as one block supplies. */
    method OutputSourceCopy(inst: Half, ghost rest: seq<Half>, ghost addrs: seq<nat>) returns (code: Code, left: Half)
      requires BlockOk() && inst.Half? && inst.kind == Cpy && |out| + inst.size <= decTgtlen
      requires inst.addr < decCpylen && inst.addr + inst.size <= decCpylen
      modifies this`out, this`curblkno, this`curblk, this`getblkno
      ensures BlockOk()
      ensures Possible(code)
      ensures code == GetSrcBlk ==> Awaits(inst) && curblkno == old(curblkno)
      ensures code == Success ==> |out| + Size(left) == |old(out)| + inst.size
      ensures code == Success ==> Checked(left, decCpylen, |out|) && (left.Noop? || Size(left) < inst.size)
      ensures code == Success ==> MeaningOf(left, rest, addrs) == old(MeaningOf(inst, rest, addrs))
      ensures code == BadInput ==> old(MeaningOf(inst, rest, addrs)) == None || ShortSource()
      ensures code in {GetSrcBlk, InternalError, AppError} ==> left == inst && out == old(out)
    {
      hide Step, Interpret, Segment, Block;
      left := inst;
      var block, blkoff := decCpyoff / blksize, decCpyoff % blksize;
      block, blkoff := block + (blkoff + inst.addr) / blksize, (blkoff + inst.addr) % blksize;
      Arith.SplitSum(decCpyoff, inst.addr, blksize);
      code := GetBlk(block);
      if code == Success {
        BlockSlice(file, blksize, decCpyoff + inst.addr, inst.size);
        if |curblk| != blksize && blkoff + inst.size > |curblk| {
          code := BadInput;
          ShortCopy(inst, rest, addrs);
        } else if blkoff + inst.size <= blksize {
          WholeCopy(inst, rest, addrs, curblk[blkoff..blkoff + inst.size]);
          left := Noop;
          out := out + curblk[blkoff..blkoff + inst.size];
        } else {
          var take := blksize - blkoff;
          BlockSlice(file, blksize, decCpyoff + inst.addr, take);
          PartCopy(inst, rest, addrs, take, curblk[blkoff..blkoff + take]);
          left := inst.(size := inst.size - take, addr := inst.addr + take);
          out := out + curblk[blkoff..blkoff + take];
        }
      }
    }

    lemma ShortCopy(inst: Half, rest: seq<Half>, addrs: seq<nat>)
      requires inst.Half? && inst.kind == Cpy && inst.addr < decCpylen
      requires inst.addr + inst.size <= decCpylen && decCpyoff + inst.addr + inst.size > |file|
      ensures MeaningOf(inst, rest, addrs) == None || ShortSource()
    {
    }

    lemma WholeCopy(inst: Half, rest: seq<Half>, addrs: seq<nat>, bytes: seq<byte>)
      requires inst.Half? && inst.kind == Cpy && |out| + inst.size <= decTgtlen
      requires inst.addr < decCpylen && inst.addr + inst.size <= decCpylen
      requires |bytes| == inst.size
      requires inst.size > 0 ==> decCpyoff + inst.addr + inst.size <= |file|
      requires inst.size > 0 ==> bytes == file[decCpyoff + inst.addr..decCpyoff + inst.addr + inst.size]
      ensures MeaningOf(inst, rest, addrs)
           == Interpret([Noop] + rest, State([] + addrs, dataSect, out + bytes), Seg(), decCpylen, decTgtlen)
    {
      hide Interpret, CopyForward, Segment;
      var s := State([inst.addr] + addrs, dataSect, out);
      assert s.addrs[1..] == addrs && [] + addrs == addrs;
      if inst.size > 0 {
        SegmentSlice(decCpyoff, decCpylen, file, inst.addr, inst.size);
      } else {
        assert out + bytes == out;
      }
      InterpretCons(inst, rest, s, Seg(), decCpylen, decTgtlen);
      InterpretCons(Noop, rest, State(addrs, dataSect, out + bytes), Seg(), decCpylen, decTgtlen);
    }

    lemma PartCopy(inst: Half, rest: seq<Half>, addrs: seq<nat>, take: nat, bytes: seq<byte>)
      requires inst.Half? && inst.kind == Cpy && |out| + inst.size <= decTgtlen
      requires inst.addr < decCpylen && inst.addr + inst.size <= decCpylen && 0 < take < inst.size
      requires decCpyoff + inst.addr + take <= |file|
      requires bytes == file[decCpyoff + inst.addr..decCpyoff + inst.addr + take]
      ensures var left := inst.(size := inst.size - take, addr := inst.addr + take);
        MeaningOf(inst, rest, addrs)
        == Interpret([left] + rest, State([left.addr] + addrs, dataSect, out + bytes), Seg(), decCpylen, decTgtlen)
    {
      hide Interpret, Step, Segment;
      var left := inst.(size := inst.size - take, addr := inst.addr + take);
      SegmentSlice(decCpyoff, decCpylen, file, inst.addr, take);
      CopyPart(inst, take, addrs, dataSect, out, Seg(), decCpylen, decTgtlen);
      InterpretCons(inst, rest, State([inst.addr] + addrs, dataSect, out), Seg(), decCpylen, decTgtlen);
      InterpretCons(left, rest, State([left.addr] + addrs, dataSect, out + bytes), Seg(), decCpylen, decTgtlen);
    }

    /** xd3_decode_output_halfinst: one round, at most one source block. */
    method OutputHalfinst(inst: Half, ghost rest: seq<Half>, ghost addrs: seq<nat>) returns (code: Code, left: Half)
      requires BlockOk() && inst.Half? && Checked(inst, decCpylen, |out|)
      requires |out| + inst.size <= decTgtlen <= spaceOut
      modifies this`out, this`dataSect, this`curblkno, this`curblk, this`getblkno
      ensures BlockOk()
      ensures Possible(code)
      ensures code == GetSrcBlk ==> Awaits(inst) && curblkno == old(curblkno)
      ensures code == Success ==> |out| + Size(left) == |old(out)| + inst.size
      ensures code == Success ==> Checked(left, decCpylen, |out|) && (left.Noop? || Size(left) < inst.size)
      ensures code == Success ==> MeaningOf(left, rest, addrs) == old(MeaningOf(inst, rest, addrs))
      ensures code == BadInput ==> old(MeaningOf(inst, rest, addrs)) == None || ShortSource()
      ensures code in {GetSrcBlk, InternalError, AppError} ==>
        left == inst && out == old(out) && dataSect == old(dataSect)
    {
      hide Interpret, Step, Block, Segment;
      assert |out| + inst.size <= spaceOut;  // the overflow check of the C code never fires
      if inst.kind != Cpy {
        left := Noop;
        code := OutputData(inst, rest, addrs);
      } else if inst.addr < decCpylen {
        code, left := OutputSourceCopy(inst, rest, addrs);
      } else {
        OutputTargetCopy(inst, rest, addrs);
        code, left := Success, Noop;
      }
    }

    /** One turn of the loop that writes dec_current1. */
    method FirstRound() returns (code: Code)
      requires Valid() && current1.Half?
      modifies this`out, this`dataSect, this`curblkno, this`curblk, this`getblkno, this`current1
      ensures Possible(code)
      ensures code == GetSrcBlk ==> current1 == old(current1) && curblkno == old(curblkno) && Awaits(current1)
      ensures code == Success ==> Work(current1) < old(Work(current1))
      ensures code != BadInput ==> Valid() && Meaning() == old(Meaning())
      ensures code == BadInput ==> old(Meaning()) == None || ShortSource()
    {
      hide Interpret, Step, Block, Segment, CopyOk, Wanted, Halves;
      ghost var rest, addrs := [current2] + Halves(instSect), Taken(current2) + addrSect;
      FirstMeaning();
      code, current1 := OutputHalfinst(current1, rest, addrs);
      FirstMeaning();
    }

    /** The loop of xd3_decode_emit that writes dec_current1. */
    method OutputFirst() returns (code: Code)
      requires Valid()
      modifies this`out, this`dataSect, this`curblkno, this`curblk, this`getblkno, this`current1
      ensures Possible(code)
      ensures code == GetSrcBlk ==> Awaits(current1)
      ensures code in {Success, GetSrcBlk} ==>
        Work(current1) < old(Work(current1)) || (current1 == old(current1) && curblkno == old(curblkno))
      ensures code != BadInput ==> Valid() && Meaning() == old(Meaning())
      ensures code == Success ==> current1.Noop?
      ensures code == BadInput ==> old(Meaning()) == None || ShortSource()
    {
      hide Meaning, Valid, Wanted, Work;
      code := Success;
      while !current1.Noop? && code == Success
        invariant Possible(code)
        invariant code == GetSrcBlk ==> Awaits(current1)
        invariant code in {Success, GetSrcBlk} ==>
          Work(current1) < old(Work(current1)) || (current1 == old(current1) && curblkno == old(curblkno))
        invariant code != BadInput ==> Valid() && Meaning() == old(Meaning())
        invariant code == BadInput ==> old(Meaning()) == None || ShortSource()
        decreases code == Success, Work(current1)
      {
        code := FirstRound();
      }
    }

    /** One turn of the loop that writes dec_current2. */
    method SecondRound() returns (code: Code)
      requires Valid() && current2.Half? && current1.Noop?
      modifies this`out, this`dataSect, this`curblkno, this`curblk, this`getblkno, this`current2
      ensures Possible(code)
      ensures code == GetSrcBlk ==> current2 == old(current2) && curblkno == old(curblkno) && Awaits(current2)
      ensures code == Success ==> Work(current2) < old(Work(current2))
      ensures code != BadInput ==> Valid() && Meaning() == old(Meaning())
      ensures code == BadInput ==> old(Meaning()) == None || ShortSource()
    {
      hide Interpret, Step, Block, Segment, CopyOk, Wanted, Halves;
      SecondMeaning();
      code, current2 := OutputHalfinst(current2, Halves(instSect), addrSect);
      SecondMeaning();
    }

    /** The loop of xd3_decode_emit that writes dec_current2. */
    method OutputSecond() returns (code: Code)
      requires Valid() && current1.Noop?
      modifies this`out, this`dataSect, this`curblkno, this`curblk, this`getblkno, this`current2
      ensures Possible(code)
      ensures code == GetSrcBlk ==> Awaits(current2)
      ensures code in {Success, GetSrcBlk} ==>
        Work(current2) < old(Work(current2)) || (current2 == old(current2) && curblkno == old(curblkno))
      ensures code != BadInput ==> Valid() && Meaning() == old(Meaning())
      ensures code == Success ==> current2.Noop?
      ensures code == BadInput ==> old(Meaning()) == None || ShortSource()
    {
      hide Meaning, Valid, Wanted, Work;
      code := Success;
      while !current2.Noop? && code == Success
        invariant Possible(code)
        invariant code == GetSrcBlk ==> Awaits(current2)
        invariant code in {Success, GetSrcBlk} ==>
          Work(current2) < old(Work(current2)) || (current2 == old(current2) && curblkno == old(curblkno))
        invariant code != BadInput ==> Valid() && Meaning() == old(Meaning())
        invariant code == BadInput ==> old(Meaning()) == None || ShortSource()
        decreases code == Success, Work(current2)
      {
        code := SecondRound();
      }
    }

    lemma FirstMeaning()
      ensures Meaning() == MeaningOf(current1, [current2] + Halves(instSect), Taken(current2) + addrSect)
    {
      assert [current1, current2] + Halves(instSect) == [current1] + ([current2] + Halves(instSect));
      Associative(Taken(current1), Taken(current2), addrSect);
    }

    lemma SecondMeaning()
      requires current1.Noop?
      ensures Meaning() == MeaningOf(current2, Halves(instSect), addrSect)
    {
      hide Step, Interpret;
      FirstMeaning();
      var s := State(Taken(current1) + (Taken(current2) + addrSect), dataSect, out);
      assert s.addrs == Taken(current2) + addrSect;
      InterpretCons(Noop, [current2] + Halves(instSect), s, Seg(), decCpylen, decTgtlen);
      NoopStep(s, Seg(), decCpylen, decTgtlen);
    }

    /** The body of the main loop of xd3_decode_emit. */
    method EmitPair() returns (code: Code)
      requires Valid() && !(instSect == [] && current1.Noop? && current2.Noop?)
      modifies this`decPosition, this`addrSect, this`instSect, this`current1, this`current2,
               this`out, this`dataSect, this`curblkno, this`curblk, this`getblkno
      ensures Possible(code)
      ensures code == GetSrcBlk ==> NextBlock() == Some(getblkno) != curblkno
      ensures code == GetSrcBlk ==>
        AllWork() < old(AllWork()) || (NextBlock() == old(NextBlock()) && curblkno == old(curblkno))
      ensures code == GetSrcBlk ==> AllWork() <= old(AllWork())
      ensures code == Success ==> AllWork() < old(AllWork())
      ensures code != BadInput ==> Valid() && Meaning() == old(Meaning())
      ensures code == Success ==> current1.Noop? && current2.Noop?
      ensures code == Success ==>
        |instSect| < |old(instSect)| || (instSect == old(instSect) && old(current1.Half? || current2.Half?))
      ensures code == BadInput ==> old(Meaning()) == None || ShortSource()
    {
      hide Pending, Block, Segment, Checked, Halves;
      code := Success;
      if current1.Noop? && current2.Noop? {
        code := DecodeInstruction();
      }
      if code == Success {
        code := OutputFirst();
      }
      if code == Success {
        code := OutputSecond();
      }
    }

    /**
      xd3_decode_emit: produces the target window, or stops for a source block with
      everything in place to be called again.  Wherever it stops and whatever the
      block size, a window that is reported as decoded holds exactly the bytes of
      the reference interpreter, and a window is refused only when that interpreter
      refuses it, its checksum differs, or the source is shorter than its copy
      window.
     */
    method Emit() returns (code: Code)
      requires Valid()
      modifies this`decPosition, this`addrSect, this`instSect, this`current1, this`current2,
               this`out, this`dataSect, this`curblkno, this`curblk, this`getblkno
      ensures code != Success && (code == Output || Possible(code))
      ensures code in {GetSrcBlk, InternalError, AppError} ==> Valid() && Meaning() == old(Meaning())
      ensures code == GetSrcBlk ==> NextBlock() == Some(getblkno) != curblkno
      ensures code == GetSrcBlk && old(Served()) ==> AllWork() < old(AllWork())
      ensures code == Output ==> old(Meaning()) == Some(out) && ChecksumOk(out)
      ensures code == BadInput && old(Meaning()).Some? ==> ShortSource() || !ChecksumOk(old(Meaning()).value)
    {
      hide Meaning, AllWork, NextBlock, Block, Segment, Checked, Halves;
      code := Success;
      while code == Success && !(instSect == [] && current1.Noop? && current2.Noop?)
        invariant Possible(code)
        invariant code == GetSrcBlk ==> NextBlock() == Some(getblkno) != curblkno
        invariant code in {Success, GetSrcBlk} ==> AllWork() <= old(AllWork())
        invariant code in {Success, GetSrcBlk} ==>
          AllWork() < old(AllWork()) || (NextBlock() == old(NextBlock()) && curblkno == old(curblkno))
        invariant code != BadInput ==> Valid() && Meaning() == old(Meaning())
        invariant code == BadInput ==> old(Meaning()) == None || ShortSource()
        decreases code == Success, |instSect|, current1.Half? || current2.Half?
      {
        code := EmitPair();
      }
      if code == Success {
        Finished();
        if |out| != decTgtlen || dataSect != [] || addrSect != [] || !ChecksumOk(out) {
          code := BadInput;
        } else {
          code := Output;
        }
      }
    }

    /** The block the decoder waits for is there. */
    ghost predicate Served()
      requires blksize > 0
      reads this
    {
      curblkno.Some? && NextBlock() == curblkno
    }

    predicate ChecksumOk(bytes: seq<byte>)
      reads this
    {
      decAdler32.Some? ==> adler32(bytes) == decAdler32.value
    }

    lemma Finished()
      requires instSect == [] && current1.Noop? && current2.Noop?
      ensures Meaning() == if |out| == decTgtlen && dataSect == [] && addrSect == [] then Some(out) else None
    {
      PendingNoop(Halves(instSect), addrSect, dataSect, out, Seg(), decCpylen, decTgtlen);
    }
  }

  /** A whole window, with the application answering every block request.  Every answer
      takes the decoder further, so that the requests come to an end; without a block reader
      that fails, the window is then decoded or refused. */
  method DecodeInterrupted(w: Window, blksize: nat, hasGetblk: bool, checksum: Option<nat>, adler32: seq<byte> -> nat,
                           file: seq<byte>) returns (code: Code, bytes: seq<byte>)
    requires blksize > 0
    ensures code in {Output, BadInput} || (hasGetblk && code in {InternalError, AppError})
    ensures code == Output ==> DecodeWindow(w, file) == Some(bytes)
    ensures code == Output && checksum.Some? ==> adler32(bytes) == checksum.value
    ensures code == BadInput && w.cpyoff + w.cpylen <= |file| && DecodeWindow(w, file).Some? ==>
      checksum.Some? && adler32(DecodeWindow(w, file).value) != checksum.value
  {
    hide Pending, Halves, Interpret, Segment, OpsWork, Work;
    var stream := new Stream(w, blksize, hasGetblk, checksum, adler32, file);
    code := stream.Emit();
    while code == GetSrcBlk
      invariant fresh(stream) && stream.file == file && stream.adler32 == adler32 && stream.blksize == blksize
      invariant stream.SameWindow(w.cpyoff, w.cpylen, w.tgtlen, checksum) && stream.hasGetblk == hasGetblk
      invariant code != Success && (code == Output || stream.Possible(code))
      invariant code == GetSrcBlk ==> stream.Valid() && stream.Meaning() == DecodeWindow(w, file)
      invariant code == GetSrcBlk ==> stream.NextBlock() == Some(stream.getblkno)
      invariant code == Output ==> DecodeWindow(w, file) == Some(stream.out) && stream.ChecksumOk(stream.out)
      invariant code == BadInput && DecodeWindow(w, file).Some? ==>
        stream.ShortSource() || !stream.ChecksumOk(DecodeWindow(w, file).value)
      decreases code == GetSrcBlk, stream.AllWork()
    {
      stream.Supply(stream.getblkno, Block(file, blksize, stream.getblkno));
      code := stream.Emit();
    }
    bytes := stream.out;
  }

  lemma NoopStep<T>(s: State<T>, seg: seq<T>, segLen: nat, tgtLen: nat)
    requires |seg| <= segLen
    ensures Step(Noop, s, seg, segLen, tgtLen) == Some(s)
  {
  }
}