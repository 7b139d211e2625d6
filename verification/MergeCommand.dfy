/**
  xdelta3-main.h: the merge command as a whole.  Every `-m` argument and the last delta are
  read and flattened, merged from left to right and written out as windows again.
 */
module MergeCommand {
  import opened Bytes
  import opened Delta
  import opened Vcdiff
  import Decoder
  import opened Merge
  import opened Flatten
  import opened Recode

  /** A delta the reference interpreter accepts. */
  predicate Valid(delta: seq<Window>) {
    FileOrigins(delta).Some?
  }

  predicate Solid(delta: seq<Window>) {
    AllSolidWindows(delta)
  }

  /** Where the bytes of the target come from. */
  function Made(delta: seq<Window>): seq<Origin> {
    if FileOrigins(delta).Some? then FileOrigins(delta).value else []
  }

  /** Even a copy of no bytes has its address checked. */
  predicate EmptiesInside(insts: seq<Inst>, n: nat) {
    forall i | i in insts && IsSourceCopy(i) && i.size == 0 :: i.addr < n
  }

  ghost predicate Continues(next: seq<Window>, first: seq<Window>) {
    Below(Made(next), |Made(first)|) && EmptiesInside(FlatFile(next).insts, |Made(first)|)
  }

  /** Every delta takes only bytes that the one before it has written. */
  ghost predicate Chain(deltas: seq<seq<Window>>) {
    forall i | 1 <= i < |deltas| :: Continues(deltas[i], deltas[i - 1])
  }

  /** Applying one delta after the other. */
  function InTurn(deltas: seq<seq<Window>>, src: seq<byte>): Option<seq<byte>>
    decreases |deltas|
  {
    if deltas == [] then Some(src)
    else
      var n := |deltas| - 1;
      match InTurn(deltas[..n], src)
      case None => None
      case Some(mid) => FileBytes(deltas[n], mid)
  }

  /** One delta does what all of them do, on every source the first of them applies to. */
  ghost predicate DoesAll(ws: seq<Window>, deltas: seq<seq<Window>>)
    requires deltas != []
  {
    forall src: seq<byte> | FileBytes(deltas[0], src).Some? ::
      InTurn(deltas, src).Some? && FileBytes(ws, src) == InTurn(deltas, src)
  }

  // ------------------------------------------------------- window by window

  /** The windows of one delta have the lengths and the checksums of those of another, and
      only windows at its end that hold nothing are missing. */
  predicate SameLabels(ws: seq<Window>, last: seq<Window>) {
    && 0 < |ws| <= |last|
    && (forall n | 0 <= n < |ws| :: ws[n].tgtlen == last[n].tgtlen && ws[n].adler32 == last[n].adler32)
    && (|ws| > 1 ==> last[|ws| - 1].tgtlen > 0)
    && forall n | |ws| <= n < |last| :: last[n].tgtlen == 0
  }

  /** All windows are there unless the last one holds nothing. */
  lemma AllThere(ws: seq<Window>, last: seq<Window>)
    requires SameLabels(ws, last)
    ensures |ws| == |last| <==> |last| == 1 || last[|last| - 1].tgtlen > 0
  {
  }

  lemma {:induction false} FlatHalvesInfo(whole: Whole, halves: seq<Half>, addrs: seq<nat>, data: seq<byte>, w: Window,
      winstart: nat)
    ensures FlatHalves(whole, halves, addrs, data, w, winstart).wininfo == whole.wininfo
    decreases |halves|
  {
    hide Owned, Absolute;
    if halves != [] {
      var h := halves[0];
      if h.Noop? {
        FlatHalvesInfo(whole, halves[1..], addrs, data, w, winstart);
      } else if !(h.kind == Cpy && addrs == []) && Enough(h, data) {
        var p, rest := if h.kind == Cpy then h.(addr := addrs[0]) else h, if h.kind == Cpy then addrs[1..] else addrs;
        OwnedLength(p, data);
        FlatHalvesInfo(FlatOne(whole, p, data, w, winstart), halves[1..], rest, data[|Owned(p, data)|..], w, winstart);
      }
    }
  }

  /** What is recorded of every window: where it starts, its length and its checksum. */
  lemma {:induction false} FlatInfo(ws: seq<Window>, n: nat)
    requires n < |ws|
    ensures |FlatFile(ws).wininfo| == |ws|
    ensures FlatFile(ws).wininfo[n] == WinInfo(TargetLength(ws[..n]), ws[n].tgtlen, ws[n].adler32)
    decreases |ws|
  {
    hide FlatHalves;
    var m := |ws| - 1;
    var was, w, at := FlatFile(ws[..m]), ws[m], TargetLength(ws[..m]);
    FlatHalvesInfo(was.(wininfo := was.wininfo + [WinInfo(at, w.tgtlen, w.adler32)]), Halves(w.ops), w.addrs, w.data, w,
                   at);
    if m > 0 {
      FlatInfo(ws[..m], if n < m then n else 0);
    } else {
      assert ws[..m] == [];
    }
    assert |was.wininfo| == m && FlatFile(ws).wininfo == was.wininfo + [WinInfo(at, w.tgtlen, w.adler32)];
    if n < m {
      assert ws[..m][..n] == ws[..n];
    }
  }

  lemma LabelledSame(ws: seq<Window>, d: Whole, last: seq<Window>)
    requires Labelled(ws, d) && d.wininfo == FlatFile(last).wininfo && |d.wininfo| == |last|
    ensures SameLabels(ws, last)
  {
    hide FlatFile, Hull, WinStart;
    forall n | 0 <= n < |last|
      ensures d.wininfo[n].length == last[n].tgtlen && d.wininfo[n].adler32 == last[n].adler32
    {
      FlatInfo(last, n);
    }
    forall n | 0 <= n < |ws| ensures ws[n].tgtlen == last[n].tgtlen && ws[n].adler32 == last[n].adler32 {
      assert Labels(ws[n], d, n);
    }
  }

  /** Where the bytes of one window lie in the file. */
  lemma {:induction false} WindowBytes(ws: seq<Window>, src: seq<byte>, n: nat)
    requires FileBytes(ws, src).Some? && n < |ws|
    ensures |FileBytes(ws, src).value| == TargetLength(ws)
    ensures var at := TargetLength(ws[..n]);
      && at + ws[n].tgtlen <= TargetLength(ws)
      && DecodeWindow(ws[n], src) == Some(FileBytes(ws, src).value[at..at + ws[n].tgtlen])
    decreases |ws|
  {
    hide DecodeWindow;
    var m := |ws| - 1;
    var init, last, at := FileBytes(ws[..m], src).value, DecodeWindow(ws[m], src).value, TargetLength(ws[..n]);
    WindowLength(ws[m], src);
    if m > 0 {
      WindowBytes(ws[..m], src, if n < m then n else 0);
    } else {
      assert ws[..m] == [];
    }
    if n < m {
      assert ws[..m][..n] == ws[..n];
      assert (init + last)[at..at + ws[n].tgtlen] == init[at..at + ws[n].tgtlen];
    } else {
      assert (init + last)[at..at + ws[n].tgtlen] == last;
    }
  }

  lemma WindowLength(w: Window, src: seq<byte>)
    ensures DecodeWindow(w, src).Some? ==> |DecodeWindow(w, src).value| == w.tgtlen
  {
  }

  lemma {:induction false} SameStart(a: seq<Window>, b: seq<Window>, n: nat)
    requires n <= |a| && n <= |b| && forall k | 0 <= k < n :: a[k].tgtlen == b[k].tgtlen
    ensures TargetLength(a[..n]) == TargetLength(b[..n])
    decreases n
  {
    if n > 0 {
      SameStart(a, b, n - 1);
      assert a[..n][..n - 1] == a[..n - 1] && b[..n][..n - 1] == b[..n - 1];
    }
  }

  /** Deltas that make the same file in windows of the same lengths make the same windows. */
  lemma EachWindow(a: seq<Window>, b: seq<Window>, s: seq<byte>, t: seq<byte>, n: nat)
    requires SameLabels(a, b) && n < |a|
    requires FileBytes(a, s).Some? && FileBytes(a, s) == FileBytes(b, t)
    ensures DecodeWindow(a[n], s) == DecodeWindow(b[n], t) != None
  {
    hide DecodeWindow, FileBytes, TargetLength;
    SameStart(a, b, n);
    WindowBytes(a, s, n);
    WindowBytes(b, t, n);
  }

  /** The checksums recorded are those of the windows. */
  ghost predicate ChecksumsRight(ws: seq<Window>, src: seq<byte>, adler32: seq<byte> -> nat) {
    forall n | 0 <= n < |ws| && DecodeWindow(ws[n], src).Some? ::
      adler32(DecodeWindow(ws[n], src).value) == ws[n].adler32
  }

  /** Where the checksums of the last delta are right, so are those of the one written. */
  lemma ChecksumsCarry(ws: seq<Window>, deltas: seq<seq<Window>>, src: seq<byte>, adler32: seq<byte> -> nat)
    requires deltas != [] && DoesAll(ws, deltas) && SameLabels(ws, deltas[|deltas| - 1])
    requires FileBytes(deltas[0], src).Some?
    ensures var n := |deltas| - 1;
      && InTurn(deltas[..n], src).Some?
      && (ChecksumsRight(deltas[n], InTurn(deltas[..n], src).value, adler32) ==> ChecksumsRight(ws, src, adler32))
  {
    hide DecodeWindow, FileBytes;
    var n := |deltas| - 1;
    var mid := InTurn(deltas[..n], src).value;
    assert FileBytes(ws, src) == InTurn(deltas, src) == FileBytes(deltas[n], mid);
    forall k | 0 <= k < |ws|
      ensures DecodeWindow(ws[k], src) == DecodeWindow(deltas[n][k], mid) && ws[k].adler32 == deltas[n][k].adler32
    {
      EachWindow(ws, deltas[n], src, mid, k);
    }
  }

  // --------------------------------------------------------- flattened deltas

  function Flats(deltas: seq<seq<Window>>): seq<Whole> {
    seq(|deltas|, i requires 0 <= i < |deltas| => FlatFile(deltas[i]))
  }

  /** The program the command has to write. */
  function Program(deltas: seq<seq<Window>>): Whole
    requires deltas != []
  {
    ChainMerged(Flats(deltas))
  }

  /** `d` is the delta `ws` in one piece. */
  ghost predicate IsFlat(d: Whole, ws: seq<Window>) {
    WellFormed(d) && FileOrigins(ws) == Some(Symbolic(d.insts, d.adds)) && d == FlatFile(ws)
  }

  ghost predicate AllFlat(files: seq<Whole>, deltas: seq<seq<Window>>) {
    |files| == |deltas| && forall i | 0 <= i < |files| :: IsFlat(files[i], deltas[i])
  }

  /** What the merge accepts, said of the windows. */
  lemma FollowsIff(next: Whole, first: Whole, a: seq<Window>, b: seq<Window>)
    requires IsFlat(next, b) && IsFlat(first, a)
    ensures Follows(next, first) <==> Continues(b, a)
  {
    hide Symbolic, InstsOk, FileOrigins, FlatFile;
    var n := first.length;
    WellFormedIsInput(next.insts, |next.adds|);
    if Follows(next, first) {
      AcceptedIsWellFormed(next.insts, next.adds, n);
    }
    if Continues(b, a) {
      BelowFits(next.insts, next.adds, n);
      forall i | 0 <= i < |next.insts|
        ensures Accepts(next.insts[i], n) && InRange(next.insts[i], n)
      {
        InstAt(next.insts, |next.adds|, i);
      }
    }
  }

  lemma InstAt(insts: seq<Inst>, addsLen: nat, i: nat)
    requires InstsOk(insts, addsLen) && i < |insts|
    ensures InstOk(insts[i], addsLen, insts[i].position)
  {
    PrefixOk(insts, addsLen, i + 1);
    assert insts[..i + 1][i] == insts[i];
  }

  lemma ChainIff(files: seq<Whole>, deltas: seq<seq<Window>>)
    requires AllFlat(files, deltas)
    ensures ChainAccepted(files) <==> Chain(deltas)
  {
    hide IsFlat, Follows, Continues;
    forall i | 1 <= i < |files|
      ensures Follows(files[i], files[i - 1]) <==> Continues(deltas[i], deltas[i - 1])
    {
      FollowsIff(files[i], files[i - 1], deltas[i - 1], deltas[i]);
    }
  }

  lemma {:induction false} FlatChain(files: seq<Whole>, deltas: seq<seq<Window>>)
    requires AllFlat(files, deltas) && files != []
    ensures ChainOk(files)
    decreases |files|
  {
    hide Symbolic, InstsOk, FileOrigins;
    var n := |files| - 1;
    assert IsFlat(files[n], deltas[n]);
    if n > 0 {
      FlatFront(files, deltas);
      FlatChain(files[..n], deltas[..n]);
      WellFormedIsInput(files[n].insts, |files[n].adds|);
    }
  }

  lemma FlatFront(files: seq<Whole>, deltas: seq<seq<Window>>)
    requires AllFlat(files, deltas) && files != []
    ensures AllFlat(files[..|files| - 1], deltas[..|files| - 1])
  {
  }

  /** Applying flattened deltas in turn is applying the deltas in turn. */
  lemma {:induction false} InTurnFlat(files: seq<Whole>, deltas: seq<seq<Window>>, src: seq<byte>)
    requires AllFlat(files, deltas) && files != [] && ChainOk(files) && ChainAccepted(files)
    requires Fits(files[0].insts, |src|)
    ensures InTurn(deltas, src) == Some(ApplyInTurn(files, src))
    decreases |files|
  {
    hide FileBytes, FileOrigins, Symbolic, InstsOk, Decode;
    var n := |files| - 1;
    assert IsFlat(files[n], deltas[n]);
    if n == 0 {
      assert deltas[..0] == [];
      FlattenedDecodes(files[0], deltas[0], src);
    } else {
      FlatFront(files, deltas);
      ChainLast(files);
      assert files[..n][0] == files[0];
      InTurnFlat(files[..n], deltas[..n], src);
      AcceptedIsWellFormed(files[n].insts, files[n].adds, files[n - 1].length);
      FlattenedDecodes(files[n], deltas[n], ApplyInTurn(files[..n], src));
    }
  }

  /** The windows written last do what the whole chain does. */
  lemma WholeChain(ws: seq<Window>, input: Whole, merged: Whole, files: seq<Whole>, deltas: seq<seq<Window>>,
      last: seq<Window>)
    requires AllFlat(files, deltas) && files != [] && IsFlat(input, last) && ChainOk(files) && ChainAccepted(files)
    requires MergesChain(merged, files) && Follows(input, merged)
    requires Fits(input.insts, merged.length) && RecodesComposition(ws, input, merged)
    ensures DoesAll(ws, deltas + [last])
  {
    hide FileBytes, FileOrigins, Symbolic, InstsOk, Decode, InTurn, ApplyInTurn;
    var all := deltas + [last];
    assert all[..|deltas|] == deltas && all[0] == deltas[0];
    assert IsFlat(files[0], deltas[0]);
    forall src: seq<byte> | FileBytes(all[0], src).Some?
      ensures InTurn(all, src).Some? && FileBytes(ws, src) == InTurn(all, src)
    {
      FlattenedDecodes(files[0], deltas[0], src);
      InTurnFlat(files, deltas, src);
      InTurnLast(deltas, last, src);
      FlattenedDecodes(input, last, ApplyInTurn(files, src));
    }
  }

  lemma InTurnLast(deltas: seq<seq<Window>>, last: seq<Window>, src: seq<byte>)
    ensures InTurn(deltas + [last], src)
         == match InTurn(deltas, src)
            case None => None
            case Some(mid) => FileBytes(last, mid)
  {
    assert (deltas + [last])[..|deltas|] == deltas;
  }

  // -------------------------------------------------------------- the command

  /** What the command comes to.  It succeeds just when every delta takes only bytes the one
      before it has written and the merged program can be written.  What it writes has the
      windows of the last delta, with their lengths and checksums; it is a valid delta just
      when the program can be cut, and then it does to every source what the deltas do one
      after the other. */
  ghost predicate Comes(r: Status, ws: seq<Window>, deltas: seq<seq<Window>>)
    requires deltas != []
  {
    if !Chain(deltas) then r == ChainOutcome(Flats(deltas)) != Ok
    else
      var d := Program(deltas);
      && r in {Ok, Overrun, Asserts} && (r == Ok <==> Written(d))
      && (r == Ok ==> (Valid(ws) <==> Cuttable(d)))
      && (r == Ok ==> SameLabels(ws, deltas[|deltas| - 1]))
      && (Cuttable(d) ==> DoesAll(ws, deltas))
  }

  /** main_input on one delta. */
  method FlattenOne(delta: seq<Window>) returns (whole: WholeState)
    requires Valid(delta)
    ensures fresh(whole) && IsFlat(whole.Value(), delta) && |whole.wininfo| == |delta|
    ensures Windowed(whole.Value()) && OffsetsMatch(whole.wininfo)
    ensures Solid(delta) ==> NoneEmpty(whole.inst)
  {
    hide FileOrigins, Symbolic, InstsOk, Windowed, OffsetsMatch, NoneEmpty, NoEmptyHalf, Trusted, FlatFile;
    forall i | 0 <= i < |delta| ensures Trusted(delta[i]) {
      WindowValid(delta, i);
      ValidIsTrusted(delta[i]);
    }
    var code;
    code, whole := FlattenFile(delta);
  }

  lemma {:induction false} WindowValid(ws: seq<Window>, i: nat)
    requires FileOrigins(ws).Some? && i < |ws|
    ensures SymbolicWindow(ws[i]).Some?
    decreases |ws|
  {
    if i < |ws| - 1 {
      WindowValid(ws[..|ws| - 1], i);
    }
  }

  /** The arguments, one after the other. */
  method FlattenAll(deltas: seq<seq<Window>>) returns (files: seq<Whole>)
    requires forall i | 0 <= i < |deltas| :: Valid(deltas[i])
    ensures AllFlat(files, deltas)
    ensures (forall i | 0 <= i < |deltas| :: Solid(deltas[i])) ==> AllSolid(files)
  {
    hide IsFlat, Valid, Solid, NoneEmpty;
    files := [];
    for k := 0 to |deltas|
      invariant AllFlat(files, deltas[..k])
      invariant (forall i | 0 <= i < |deltas| :: Solid(deltas[i])) ==> AllSolid(files)
    {
      var whole := FlattenOne(deltas[k]);
      files := files + [whole.Value()];
    }
    assert deltas[..|deltas|] == deltas;
  }

  lemma FlatsAre(files: seq<Whole>, deltas: seq<seq<Window>>)
    requires AllFlat(files, deltas)
    ensures files == Flats(deltas)
  {
    hide FlatFile, Symbolic, InstsOk, FileOrigins;
    forall i | 0 <= i < |files| ensures files[i] == Flats(deltas)[i] {
      assert IsFlat(files[i], deltas[i]);
    }
  }

  /** The merge command on valid deltas. */
  method MergeDeltas(args: seq<seq<Window>>, last: seq<Window>) returns (r: Status, ws: seq<Window>)
    requires (forall i | 0 <= i < |args| :: Valid(args[i])) && Valid(last)
    ensures Comes(r, ws, args + [last])
    ensures Chain(args + [last]) && (forall d | d in args :: Solid(d)) && Solid(last) && last != [] ==>
      r == Ok && Valid(ws)
  {
    hide Valid, IsFlat, Chain, ChainOk, ChainAccepted, MergesChain, Windowed, OffsetsMatch, AllSolid, Solid, Comes,
      Flats, NoneEmpty;
    var files := FlattenAll(args);
    ws := [];
    if files != [] {
      FlatChain(files, args);
    }
    var mergeStream;
    r, mergeStream := MergeArguments(files);
    var stream := FlattenOne(last);
    ghost var all := files + [stream.Value()];
    FlatsAre(all, args + [last]);
    ChainIff(all, args + [last]);
    ChainOutcomeOk(all);
    if files == [] {
      r, ws := MergeAlone(stream, last);
      assert args + [last] == [last];
    } else {
      assert all[..|files|] == files;
      ChainLast(all);
      if r == Ok {
        r, ws := MergeLast(stream, mergeStream, files, args, last);
      } else {
        Refused(r, ws, files, stream.Value(), args + [last]);
      }
    }
  }

  /** An argument that cannot be merged decides. */
  lemma Refused(r: Status, ws: seq<Window>, files: seq<Whole>, input: Whole, deltas: seq<seq<Window>>)
    requires files != [] && Flats(deltas) == files + [input] && deltas != []
    requires ChainOutcome(files) == r != Ok && !Chain(deltas)
    ensures Comes(r, ws, deltas)
  {
    assert (files + [input])[..|files|] == files;
  }

  /** Without arguments the delta is only cut into windows anew. */
  method MergeAlone(stream: WholeState, ghost last: seq<Window>) returns (r: Status, ws: seq<Window>)
    requires IsFlat(stream.Value(), last) && Windowed(stream.Value()) && OffsetsMatch(stream.wininfo)
    requires |stream.wininfo| == |last|
    modifies stream
    ensures Comes(r, ws, [last])
    ensures old(NoneEmpty(stream.inst) && stream.wininfo != []) ==> r == Ok && Valid(ws)
  {
    hide FileOrigins, FileBytes, Symbolic, InstsOk, Windowed, OffsetsMatch, NoneEmpty, Written, AllDecode, FlatFile,
      Labelled;
    ghost var d := stream.Value();
    assert Flats([last]) == [d];
    r, ws := MergeOutput(stream);
    if r == Ok {
      LabelledSame(ws, d, last);
    }
    if d.wininfo != [] && NoneEmpty(d.insts) {
      SolidCuttable(d);
    }
    if Cuttable(d) {
      forall src: seq<byte> | FileBytes(last, src).Some?
        ensures InTurn([last], src).Some? && FileBytes(ws, src) == InTurn([last], src)
      {
        InTurnLast([], last, src);
        assert [] + [last] == [last];
        FileEval(last, src);
        FileEval(ws, src);
      }
    }
  }

  /** The last delta, merged with all before it. */
  method MergeLast(stream: WholeState, mergeStream: WholeState, ghost files: seq<Whole>, ghost deltas: seq<seq<Window>>,
                   ghost last: seq<Window>)
    returns (r: Status, ws: seq<Window>)
    requires stream != mergeStream && files != [] && AllFlat(files, deltas) && ChainOk(files) && ChainAccepted(files)
    requires MergesChain(mergeStream.Value(), files) && mergeStream.Value() == ChainMerged(files)
    requires IsFlat(stream.Value(), last) && Windowed(stream.Value()) && OffsetsMatch(stream.wininfo)
    requires |stream.wininfo| == |last|
    requires Chain(deltas + [last]) <==> Follows(stream.Value(), files[|files| - 1])
    requires Flats(deltas + [last]) == files + [stream.Value()]
    modifies stream
    ensures Comes(r, ws, deltas + [last])
    ensures Chain(deltas + [last]) && NoneEmpty(mergeStream.inst) && old(NoneEmpty(stream.inst) && stream.wininfo != [])
      ==> r == Ok && Valid(ws)
  {
    hide FileOrigins, FileBytes, Symbolic, InstsOk, Windowed, OffsetsMatch, NoneEmpty, ChainOk, ChainAccepted, AllFlat,
      RecodesComposition, DoesAll, Written, AllDecode, FlatFile, Chain, Flats, ChainMerged, ChainOutcome, Merged,
      Labelled, SameLabels;
    ghost var input, merged := stream.Value(), mergeStream.Value();
    OutcomeOk(input.insts, merged.length);
    LastLink(files, input);
    WellFormedIsInput(input.insts, |input.adds|);
    r, ws := MergeFinal(stream, mergeStream);
    if Follows(input, merged) {
      ghost var d := Merged(input, merged);
      if r == Ok {
        LabelledSame(ws, d, last);
      }
      if d.wininfo != [] && NoneEmpty(d.insts) {
        SolidCuttable(d);
      }
      if Cuttable(d) {
        WholeChain(ws, input, merged, files, deltas, last);
      }
    }
  }

  lemma LastLink(files: seq<Whole>, input: Whole)
    requires files != [] && ChainAccepted(files)
    ensures ChainMerged(files + [input]) ==
      if Mergeable(input, ChainMerged(files)) then Merged(input, ChainMerged(files)) else ChainMerged(files)
    ensures ChainOutcome(files + [input]) == Outcome(input.insts, files[|files| - 1].length)
  {
    hide ChainMerged, Merged, Mergeable, ChainAccepted;
    ChainOutcomeOk(files);
    var all, n := files + [input], |files|;
    assert all[..n] == files;
    OneMore(all);
  }

  lemma OneMore(all: seq<Whole>)
    requires |all| > 1
    ensures var n := |all| - 1;
      var source := ChainMerged(all[..n]);
      ChainMerged(all) == if Mergeable(all[n], source) then Merged(all[n], source) else source
  {
  }
}
