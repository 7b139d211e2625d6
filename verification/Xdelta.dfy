/** xdelta1 from end to end: a delta is made, written, read and applied. */
module Xdelta {
  import opened Bytes
  import opened Pages
  import opened Control
  import opened Rolling
  import opened Pack
  import opened Apply
  import Generate

  /** What the control says of the sources while they are still numbered as given. */
  function InfosOf(tracks: seq<Track>, lens: seq<nat>): (infos: seq<Info>)
    requires |lens| == |tracks|
    ensures |infos| == |tracks|
  {
    seq(|tracks|, i requires 0 <= i < |tracks| => Info(tracks[i].sequential, i == 0, lens[i]))
  }

  lemma MadeAllUsed(m: Made, files: seq<seq<byte>>, target: seq<byte>)
    requires MadeOk(m, files, target)
    ensures AllUsed(m.insts, m.tracks)
  {
    forall j | 0 <= j < |m.insts|
      ensures m.insts[j].index < |m.tracks| && m.tracks[m.insts[j].index].used
    {
      assert InRange(m.insts[j], files[0 := m.dataOut]);
      assert TrackOk(m.insts, m.tracks[m.insts[j].index], m.insts[j].index);
    }
  }

  /** The flags written are true at the end of any run. */
  lemma MadeTruthful(m: Made, files: seq<seq<byte>>, target: seq<byte>, lens: seq<nat>)
    requires MadeOk(m, files, target) && |lens| == |m.tracks| && AllUsed(m.insts, m.tracks)
    ensures var r, infos := Renumbered(m.insts, m.tracks), Chosen(m.tracks, InfosOf(m.tracks, lens));
      Indexed(r, infos) && Truthful(r, infos)
  {
    hide InOrder, Taken, Rank, Chosen;
    var r, infos := Renumbered(m.insts, m.tracks), Chosen(m.tracks, InfosOf(m.tracks, lens));
    forall j | 0 <= j < |r| ensures r[j].index < |infos| {
      ChosenAt(m.tracks, InfosOf(m.tracks, lens), m.insts[j].index);
    }
    forall k: nat | k < |infos| && infos[k].sequential
      ensures InOrder(r, k)
    {
      var o := RankOnto(m.tracks, |m.tracks|, k);
      ChosenAt(m.tracks, InfosOf(m.tracks, lens), o);
      assert TrackOk(m.insts, m.tracks[o], o);
      RenumberedOrder(m.insts, m.tracks, o);
    }
  }

  /** The patch data as a stream, and the files. */
  function InputsOf(data: Reader, files: seq<Paged>): (inputs: seq<Input>)
    requires |files| > 0
    ensures |inputs| == |files|
  {
    seq(|files|, i requires 0 <= i < |files| => if i == 0 then Stream(data) else Input.File(files[i]))
  }

  lemma {:induction false} ChosenContents(tracks: seq<Track>, inputs: seq<Input>)
    requires |tracks| == |inputs|
    ensures Contents(Chosen(tracks, inputs)) == Chosen(tracks, Contents(inputs))
    decreases |tracks|
  {
    if tracks != [] {
      var n := |tracks| - 1;
      RankPrefix(tracks, n, n);
      ChosenContents(tracks[..n], inputs[..n]);
      assert Contents(inputs)[..n] == Contents(inputs[..n]);
      var c := Chosen(tracks[..n], inputs[..n]);
      assert Contents(c + [inputs[n]]) == Contents(c) + [Content(inputs[n])];
      assert c + [] == c && Contents(c) + [] == Contents(c);
    }
  }

  /** The renumbered instructions can be applied to the used sources. */
  lemma MadeReadable(m: Made, files: seq<Paged>, datas: seq<seq<byte>>, target: seq<byte>, data: Reader)
    requires |datas| == |files| > 0 && (forall k | 0 <= k < |files| :: datas[k] == files[k].data)
    requires MadeOk(m, datas, target) && AllUsed(m.insts, m.tracks) && data.data == m.dataOut
    ensures var r, inputs := Renumbered(m.insts, m.tracks), Chosen(m.tracks, InputsOf(data, files));
      && Readable(r, inputs, Some(data))
      && AllInRange(r, Contents(inputs)) && Output(r, Contents(inputs)) == target[..m.outPos]
  {
    hide InOrder, Taken, Rank, Chosen, Output;
    var r, all := Renumbered(m.insts, m.tracks), InputsOf(data, files);
    var inputs := Chosen(m.tracks, all);
    ChosenContents(m.tracks, all);
    assert Contents(all) == datas[0 := m.dataOut];
    RenumberedOutput(m.insts, m.tracks, Contents(all));
    forall k: nat | k < |inputs| && inputs[k].Stream?
      ensures inputs[k].r == data && k == Rank(m.tracks, 0) && InOrder(r, k)
    {
      var o := RankOnto(m.tracks, |m.tracks|, k);
      ChosenAt(m.tracks, all, o);
      RenumberedOrder(m.insts, m.tracks, o);
    }
  }

  /** The control written and read again, and the delta applied. */
  method WriteReadApply(insts: seq<Inst>, tracks: seq<Track>, infos: seq<Info>, inputs: seq<Input>, data: Reader)
    returns (ok: bool, output: seq<byte>)
    requires |infos| == |tracks| == |inputs| && AllUsed(insts, tracks) && data.at == 0
    requires Indexed(Renumbered(insts, tracks), Chosen(tracks, infos))
        && Truthful(Renumbered(insts, tracks), Chosen(tracks, infos))
    requires Readable(Renumbered(insts, tracks), Chosen(tracks, inputs), Some(data))
    requires AllInRange(Renumbered(insts, tracks), Contents(Chosen(tracks, inputs)))
    modifies data
    ensures var c := Contents(Chosen(tracks, inputs));
      ok && output == Output(Renumbered(insts, tracks), c)
  {
    hide AllUsed, Indexed, Truthful, Readable, Renumbered, Chosen, Output, AllInRange, Packed, Unpacked;
    var a := new Inst[|insts|](i requires 0 <= i < |insts| => insts[i]);
    assert a[..] == insts;
    var kept := AddInfos(a, tracks, infos);
    ghost var r := a[..];
    ok := PackInstructions(a, kept);
    UnpackPacked(r, kept);
    var starts;
    ok, starts := UnpackInstructions(a, kept);
    assert a[..] == r;
    RunIsOutput(r, Chosen(tracks, inputs));
    var fate;
    fate, output := CopyDeltaRegion(a[..], Chosen(tracks, inputs), Some(data));
    ok := fate == Done;
  }

  /** Making a delta, writing and reading its control, and applying it gives the target back,
      whatever the sources, page sizes, checksums and hash function are. */
  method RoundTrip(target: Paged, files: seq<Paged>, cksums: seq<seq<Checksum>>, hash: Checksum -> nat, prime: nat,
      chew: Chew)
    returns (ok: bool, output: seq<byte>)
    requires |files| == |cksums| > 0 && prime > 0 && cksums[0] == []
    requires forall k | 0 <= k < |files| :: |cksums[k]| * QUERY_SIZE_POW <= |files[k].data|
    ensures ok <==> |files| <= QUERY_SIZE_POW - 2
    ensures ok ==> output == target.data
  {
    hide MadeOk;
    output := [];
    var sources := MakeSources(files, cksums);
    var gen := new Generate.Generator(sources, target.data);
    ghost var table;
    ok, table := gen.GenerateDelta(target, hash, prime, chew);
    if ok {
      ok, output := ApplyMade(gen, files, target);
    }
  }

  /** A finished delta, written, read and applied. */
  method ApplyMade(gen: Generate.Generator, files: seq<Paged>, ghost target: Paged)
    returns (ok: bool, output: seq<byte>)
    requires gen.Valid(target.data) && gen.toOutputPos == |target.data| && |files| == |gen.sources| > 0
    requires forall k | 0 <= k < |files| :: gen.sources[k].file == files[k]
    ensures ok && output == target.data
  {
    hide MadeOk, AllUsed, Indexed, Truthful, Readable, Renumbered, Chosen, Output, AllInRange, InputsOf,
        Contents, InfosOf;
    ghost var m := gen.Made();
    var tracks, lens := TracksOf(gen, files);
    var data := new Reader(gen.dataOut);
    MadeAllUsed(m, gen.Files(), target.data);
    MadeTruthful(m, gen.Files(), target.data, lens);
    MadeReadable(m, files, gen.Files(), target.data, data);
    ok, output := WriteReadApply(gen.inst, tracks, InfosOf(tracks, lens), InputsOf(data, files), data);
    assert target.data[..|target.data|] == target.data;
  }

  /** The new sources, one after the other. */
  method MakeSources(files: seq<Paged>, cksums: seq<seq<Checksum>>) returns (sources: seq<Generate.Source>)
    requires |files| == |cksums|
    ensures |sources| == |files| && forall i | 0 <= i < |files| :: fresh(sources[i])
    ensures forall i, j | 0 <= i < j < |sources| :: sources[i] != sources[j]
    ensures forall i | 0 <= i < |files| ::
      sources[i].file == files[i] && sources[i].cksums == cksums[i] && Mapped(files[i], sources[i].pos)
    ensures forall i | 0 <= i < |files| :: !sources[i].used && sources[i].sequential && sources[i].position == 0
  {
    sources := [];
    for k := 0 to |files|
      invariant |sources| == k && forall i | 0 <= i < k :: fresh(sources[i])
      invariant forall i, j | 0 <= i < j < k :: sources[i] != sources[j]
      invariant forall i | 0 <= i < k ::
        sources[i].file == files[i] && sources[i].cksums == cksums[i] && Mapped(files[i], sources[i].pos)
      invariant forall i | 0 <= i < k :: !sources[i].used && sources[i].sequential && sources[i].position == 0
    {
      var s := new Generate.Source(files[k], cksums[k]);
      sources := sources + [s];
    }
  }

  method TracksOf(gen: Generate.Generator, files: seq<Paged>) returns (tracks: seq<Track>, lens: seq<nat>)
    requires |files| == |gen.sources|
    ensures tracks == gen.Tracks() && |lens| == |tracks|
  {
    tracks, lens := [], [];
    for k := 0 to |gen.sources|
      invariant |tracks| == |lens| == k && forall i | 0 <= i < k :: tracks[i] == gen.sources[i].State()
    {
      tracks := tracks + [gen.sources[k].State()];
      lens := lens + [if k == 0 then |gen.dataOut| else |files[k].data|];
    }
  }
}
