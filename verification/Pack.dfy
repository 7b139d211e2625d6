/**
  xdelta.c: the control on its way to a file and back.  Sources that were not used are
  left out, so the others get new numbers; offsets of a source read in order are left out.
 */
module Pack {
  import opened Bytes
  import opened Control

  /** What the control says of a source. */
  datatype Info = Info(sequential: bool, isData: bool, len: nat)

  // ------------------------------------------------------------- renumbering

  /** How many of the first `k` sources are used: the new number of source `k`. */
  function Rank(tracks: seq<Track>, k: nat): (r: nat)
    requires k <= |tracks|
    ensures r <= k
  {
    if k == 0 then 0 else Rank(tracks, k - 1) + if tracks[k - 1].used then 1 else 0
  }

  /** The items of the used sources. */
  function Chosen<T>(tracks: seq<Track>, all: seq<T>): (r: seq<T>)
    requires |tracks| == |all|
    ensures |r| == Rank(tracks, |tracks|)
    decreases |tracks|
  {
    var n := |tracks| - 1;
    if tracks == [] then [] else
      RankPrefix(tracks, n, n);
      Chosen(tracks[..n], all[..n]) + if tracks[n].used then [all[n]] else []
  }

  lemma {:induction false} RankPrefix(tracks: seq<Track>, n: nat, k: nat)
    requires k <= n <= |tracks|
    ensures Rank(tracks[..n], k) == Rank(tracks, k)
    decreases k
  {
    if k > 0 {
      RankPrefix(tracks, n, k - 1);
    }
  }

  lemma {:induction false} RankMonotone(tracks: seq<Track>, a: nat, b: nat)
    requires a <= b <= |tracks|
    ensures Rank(tracks, a) <= Rank(tracks, b)
    ensures a < b && tracks[a].used ==> Rank(tracks, a) < Rank(tracks, b)
    decreases b
  {
    if a < b {
      RankMonotone(tracks, a, b - 1);
    }
  }

  lemma {:induction false} ChosenAt<T>(tracks: seq<Track>, all: seq<T>, k: nat)
    requires |tracks| == |all| && k < |tracks| && tracks[k].used
    ensures Rank(tracks, k) < |Chosen(tracks, all)| && Chosen(tracks, all)[Rank(tracks, k)] == all[k]
    decreases |tracks|
  {
    var n := |tracks| - 1;
    RankPrefix(tracks, n, n);
    if k < n {
      ChosenAt(tracks[..n], all[..n], k);
      RankPrefix(tracks, n, k);
    }
  }

  /** Every new number is some source's. */
  lemma {:induction false} RankOnto(tracks: seq<Track>, n: nat, r: nat) returns (k: nat)
    requires n <= |tracks| && r < Rank(tracks, n)
    ensures k < n && tracks[k].used && Rank(tracks, k) == r
    decreases n
  {
    if r < Rank(tracks, n - 1) {
      k := RankOnto(tracks, n - 1, r);
    } else {
      k := n - 1;
    }
  }

  predicate AllUsed(insts: seq<Inst>, tracks: seq<Track>) {
    forall j | 0 <= j < |insts| :: insts[j].index < |tracks| && tracks[insts[j].index].used
  }

  function Renumbered(insts: seq<Inst>, tracks: seq<Track>): (r: seq<Inst>)
    requires AllUsed(insts, tracks)
    ensures |r| == |insts|
  {
    seq(|insts|, j requires 0 <= j < |insts| => insts[j].(index := Rank(tracks, insts[j].index)))
  }

  /** The instructions when the first `n` sources have been added. */
  predicate PartlyRenumbered(now: seq<Inst>, insts: seq<Inst>, tracks: seq<Track>, n: nat)
    requires AllUsed(insts, tracks) && n <= |tracks|
  {
    && |now| == |insts|
    && forall j | 0 <= j < |insts| ::
         now[j] == if insts[j].index < n then insts[j].(index := Rank(tracks, insts[j].index)) else insts[j]
  }

  /** control_reindex */
  method Reindex(inst: array<Inst>, sourceIndex: nat, newIndex: nat)
    modifies inst
    ensures forall j | 0 <= j < inst.Length ::
      inst[j] == if old(inst[j]).index == sourceIndex then old(inst[j]).(index := newIndex) else old(inst[j])
  {
    for i := 0 to inst.Length
      invariant forall j | 0 <= j < i ::
        inst[j] == if old(inst[j]).index == sourceIndex then old(inst[j]).(index := newIndex) else old(inst[j])
      invariant forall j | i <= j < inst.Length :: inst[j] == old(inst[j])
    {
      if inst[i].index == sourceIndex {
        inst[i] := inst[i].(index := newIndex);
      }
    }
  }

  /** control_add_info for every source in turn.  A new number never is that of a source
      still to come, so no instruction is renumbered twice. */
  method AddInfos(inst: array<Inst>, tracks: seq<Track>, infos: seq<Info>) returns (kept: seq<Info>)
    requires |infos| == |tracks| && AllUsed(inst[..], tracks)
    modifies inst
    ensures inst[..] == Renumbered(old(inst[..]), tracks)
    ensures kept == Chosen(tracks, infos)
  {
    kept := [];
    ghost var insts := inst[..];
    for i := 0 to |tracks|
      invariant PartlyRenumbered(inst[..], insts, tracks, i)
      invariant kept == Chosen(tracks[..i], infos[..i]) && |kept| == Rank(tracks, i)
    {
      RankPrefix(tracks, i, i);
      RankPrefix(tracks, i + 1, i + 1);
      assert tracks[..i + 1][..i] == tracks[..i] && infos[..i + 1][..i] == infos[..i];
      if tracks[i].used {
        ghost var now := inst[..];
        Reindex(inst, i, |kept|);
        RenumberOne(now, inst[..], insts, tracks, i);
        kept := kept + [infos[i]];
      } else {
        RenumberNone(inst[..], insts, tracks, i);
      }
    }
    assert tracks[..|tracks|] == tracks && infos[..|infos|] == infos;
    assert inst[..] == Renumbered(insts, tracks);
  }

  lemma RenumberOne(now: seq<Inst>, then': seq<Inst>, insts: seq<Inst>, tracks: seq<Track>, i: nat)
    requires AllUsed(insts, tracks) && i < |tracks| && PartlyRenumbered(now, insts, tracks, i) && |then'| == |now|
    requires forall j | 0 <= j < |now| ::
      then'[j] == if now[j].index == i then now[j].(index := Rank(tracks, i)) else now[j]
    ensures PartlyRenumbered(then', insts, tracks, i + 1)
  {
    forall j | 0 <= j < |insts|
      ensures then'[j] == if insts[j].index < i + 1 then insts[j].(index := Rank(tracks, insts[j].index)) else insts[j]
    {
      assert insts[j].index < i ==> now[j].index <= insts[j].index;
    }
  }

  lemma RenumberNone(now: seq<Inst>, insts: seq<Inst>, tracks: seq<Track>, i: nat)
    requires AllUsed(insts, tracks) && i < |tracks| && !tracks[i].used && PartlyRenumbered(now, insts, tracks, i)
    ensures PartlyRenumbered(now, insts, tracks, i + 1)
  {
    forall j | 0 <= j < |insts| ensures insts[j].index != i {
      assert tracks[insts[j].index].used;
    }
  }

  /** Every instruction still reads what it read before. */
  lemma {:induction false} RenumberedOutput(insts: seq<Inst>, tracks: seq<Track>, contents: seq<seq<byte>>)
    requires AllUsed(insts, tracks) && |contents| == |tracks| && AllInRange(insts, contents)
    ensures AllInRange(Renumbered(insts, tracks), Chosen(tracks, contents))
    ensures Output(Renumbered(insts, tracks), Chosen(tracks, contents)) == Output(insts, contents)
  {
    hide Chosen, Rank;
    var r, c := Renumbered(insts, tracks), Chosen(tracks, contents);
    forall j | 0 <= j < |r|
      ensures InRange(r[j], c)
    {
      RenumberedStretch(insts[j], tracks, contents);
    }
    if insts != [] {
      var n := |insts| - 1;
      RenumberedOutput(insts[..n], tracks, contents);
      assert Renumbered(insts[..n], tracks) == r[..n];
      RenumberedStretch(insts[n], tracks, contents);
    }
  }

  lemma RenumberedStretch(i: Inst, tracks: seq<Track>, contents: seq<seq<byte>>)
    requires |contents| == |tracks| && InRange(i, contents) && tracks[i.index].used
    ensures var r := i.(index := Rank(tracks, i.index));
      InRange(r, Chosen(tracks, contents)) && Stretch(r, Chosen(tracks, contents)) == Stretch(i, contents)
  {
    ChosenAt(tracks, contents, i.index);
  }

  /** And every source is read in order if it was. */
  lemma {:induction false} RenumberedOrder(insts: seq<Inst>, tracks: seq<Track>, k: nat)
    requires AllUsed(insts, tracks) && k < |tracks| && tracks[k].used
    ensures Taken(Renumbered(insts, tracks), Rank(tracks, k)) == Taken(insts, k)
    ensures InOrder(Renumbered(insts, tracks), Rank(tracks, k)) <==> InOrder(insts, k)
  {
    if insts != [] {
      var n := |insts| - 1;
      var r := Renumbered(insts, tracks);
      RenumberedOrder(insts[..n], tracks, k);
      assert Renumbered(insts[..n], tracks) == r[..n];
      var i := insts[n].index;
      assert i < |tracks| && tracks[i].used;
      RankMonotone(tracks, if i < k then i else k, if i < k then k else i);
    }
  }

  // ----------------------------------------------------------------- packing

  predicate Indexed(insts: seq<Inst>, infos: seq<Info>) {
    forall j | 0 <= j < |insts| :: insts[j].index < |infos|
  }

  /** The sequential flags are true of the instructions. */
  predicate Truthful(insts: seq<Inst>, infos: seq<Info>) {
    forall k: nat | k < |infos| && infos[k].sequential :: InOrder(insts, k)
  }

  function Packed(insts: seq<Inst>, infos: seq<Info>): (r: seq<Inst>)
    requires Indexed(insts, infos)
    ensures |r| == |insts| && Indexed(r, infos)
  {
    seq(|insts|, j requires 0 <= j < |insts| =>
      if infos[insts[j].index].sequential then insts[j].(offset := 0) else insts[j])
  }

  /** The offsets a reader fills in. */
  function Unpacked(insts: seq<Inst>, infos: seq<Info>): (r: seq<Inst>)
    requires Indexed(insts, infos)
    ensures |r| == |insts|
  {
    if insts == [] then [] else
      var n := |insts| - 1;
      var i := insts[n];
      Unpacked(insts[..n], infos) + [if infos[i.index].sequential then i.(offset := Taken(insts[..n], i.index)) else i]
  }

  lemma {:induction false} PackedTaken(insts: seq<Inst>, infos: seq<Info>, k: nat)
    requires Indexed(insts, infos)
    ensures Taken(Packed(insts, infos), k) == Taken(insts, k)
  {
    if insts != [] {
      var n := |insts| - 1;
      PackedTaken(insts[..n], infos, k);
      assert Packed(insts, infos)[..n] == Packed(insts[..n], infos);
    }
  }

  lemma {:induction false} TruthfulPrefix(insts: seq<Inst>, infos: seq<Info>)
    requires insts != [] && Indexed(insts, infos)
    ensures var n := |insts| - 1;
      var i := insts[n];
      Truthful(insts, infos) <==>
        Truthful(insts[..n], infos) && (infos[i.index].sequential ==> i.offset == Taken(insts[..n], i.index))
  {
    var n := |insts| - 1;
    var i := insts[n];
    if Truthful(insts[..n], infos) && (infos[i.index].sequential ==> i.offset == Taken(insts[..n], i.index)) {
      forall k: nat | k < |infos| && infos[k].sequential ensures InOrder(insts, k) {
        assert InOrder(insts[..n], k);
      }
    }
    if Truthful(insts, infos) {
      forall k: nat | k < |infos| && infos[k].sequential ensures InOrder(insts[..n], k) {
        assert InOrder(insts, k);
      }
      assert infos[i.index].sequential ==> InOrder(insts, i.index);
    }
  }

  /** Reading undoes writing exactly where the flags are true. */
  lemma {:induction false} UnpackPacked(insts: seq<Inst>, infos: seq<Info>)
    requires Indexed(insts, infos)
    ensures Unpacked(Packed(insts, infos), infos) == insts <==> Truthful(insts, infos)
  {
    if insts == [] {
      assert Packed(insts, infos) == [];
    } else {
      var n := |insts| - 1;
      var i, p := insts[n], Packed(insts, infos);
      UnpackPacked(insts[..n], infos);
      TruthfulPrefix(insts, infos);
      PackedTaken(insts[..n], infos, i.index);
      assert p[..n] == Packed(insts[..n], infos);
      var u := Unpacked(p, infos);
      assert u == Unpacked(p[..n], infos) + [u[n]] && insts == insts[..n] + [i];
      assert u == insts <==> u[..n] == insts[..n] && u[n] == i;
    }
  }

  /** The running positions of the sources. */
  predicate PositionsAt(position: seq<nat>, insts: seq<Inst>) {
    forall k: nat | k < |position| :: position[k] == Taken(insts, k)
  }

  lemma PositionsStep(position: seq<nat>, insts: seq<Inst>, i: nat)
    requires i < |insts| && insts[i].index < |position| && PositionsAt(position, insts[..i])
    ensures var k := insts[i].index; PositionsAt(position[k := position[k] + insts[i].length], insts[..i + 1])
  {
    assert insts[..i + 1] == insts[..i] + [insts[i]];
    forall k: nat | k < |position| {
      TakenAppend(insts[..i], insts[i], k);
    }
  }

  /** pack_instructions.  The assertion in the loop is the program's own. */
  method PackInstructions(inst: array<Inst>, infos: seq<Info>) returns (ok: bool)
    requires Truthful(inst[..], infos)
    modifies inst
    ensures ok <==> old(Indexed(inst[..], infos))
    ensures ok ==> inst[..] == Packed(old(inst[..]), infos)
    ensures ok ==> forall j: nat | j < inst.Length ::
      inst[j] == if infos[old(inst[j]).index].sequential then old(inst[j]).(offset := 0) else old(inst[j])
  {
    hide Taken, InOrder;
    ghost var insts := inst[..];
    var position := new nat[|infos|](_ => 0);
    NoPositions(position[..], insts[..0]);
    ok := true;
    var i := 0;
    while ok && i < inst.Length
      invariant i <= inst.Length && fresh(position) && position.Length == |infos|
      invariant ok ==>
        Indexed(insts[..i], infos) && inst[..i] == Packed(insts[..i], infos) && PositionsAt(position[..], insts[..i])
      invariant !ok ==> i < inst.Length && insts[i].index >= |infos|
      invariant forall j | i <= j < inst.Length :: inst[j] == insts[j]
      decreases ok, inst.Length - i
    {
      var k := inst[i].index;
      if k >= |infos| {
        ok := false;
      } else {
        PositionsStep(position[..], insts, i);
        if infos[k].sequential {
          TruthfulAt(insts, infos, i);
          assert position[k] == inst[i].offset;
          position[k] := position[k] + inst[i].length;
          inst[i] := inst[i].(offset := 0);
        } else {
          position[k] := position[k] + inst[i].length;
        }
        i := i + 1;
      }
    }
    assert inst[..inst.Length] == inst[..] && insts[..inst.Length] == insts;
  }

  lemma NoPositions(position: seq<nat>, insts: seq<Inst>)
    requires insts == [] && forall k | 0 <= k < |position| :: position[k] == 0
    ensures PositionsAt(position, insts)
  {
  }

  lemma {:induction false} TruthfulAt(insts: seq<Inst>, infos: seq<Info>, i: nat)
    requires Truthful(insts, infos) && i < |insts| && insts[i].index < |infos| && infos[insts[i].index].sequential
    ensures insts[i].offset == Taken(insts[..i], insts[i].index)
  {
    OrderAt(insts, insts[i].index, i);
  }

  lemma {:induction false} OrderAt(insts: seq<Inst>, k: nat, i: nat)
    requires InOrder(insts, k) && i < |insts| && insts[i].index == k
    ensures insts[i].offset == Taken(insts[..i], k)
    decreases |insts|
  {
    var n := |insts| - 1;
    if i < n {
      OrderAt(insts[..n], k, i);
      assert insts[..n][..i] == insts[..i];
    }
  }

  /** unpack_instructions, with the place of each instruction's output. */
  method UnpackInstructions(inst: array<Inst>, infos: seq<Info>) returns (ok: bool, outputStart: array<nat>)
    modifies inst
    ensures ok <==> old(Indexed(inst[..], infos))
    ensures ok ==> inst[..] == Unpacked(old(inst[..]), infos)
    ensures fresh(outputStart) && outputStart.Length == inst.Length
    ensures ok ==> forall j: nat | j < inst.Length :: outputStart[j] == LengthOf(old(inst[..j]))
  {
    hide Taken, LengthOf, PositionsAt, Unpacked;
    NothingUnpacked(inst[..0], infos);
    ghost var insts := inst[..];
    outputStart := new nat[inst.Length];
    var position := new nat[|infos|](_ => 0);
    NoPositions(position[..], insts[..0]);
    NoLength(insts[..0]);
    ok := true;
    var i, outputPos: nat := 0, 0;
    while ok && i < inst.Length
      invariant i <= inst.Length && fresh(position) && position.Length == |infos|
      invariant ok ==>
        Indexed(insts[..i], infos) && inst[..i] == Unpacked(insts[..i], infos) && PositionsAt(position[..], insts[..i])
      invariant ok ==>
        outputPos == LengthOf(insts[..i]) && forall j: nat | j < i :: outputStart[j] == LengthOf(insts[..j])
      invariant !ok ==> i < inst.Length && insts[i].index >= |infos|
      invariant forall j | i <= j < inst.Length :: inst[j] == insts[j]
      decreases ok, inst.Length - i
    {
      var k := inst[i].index;
      if k >= |infos| {
        ok := false;
      } else {
        PositionsStep(position[..], insts, i);
        LengthStep(insts, i);
        UnpackStep(insts, infos, i);
        ghost var before := inst[..i];
        PositionIs(position[..], insts[..i], k);
        if infos[k].sequential {
          inst[i] := inst[i].(offset := position[k]);
        }
        assert inst[..i + 1] == before + [inst[i]];
        position[k] := position[k] + inst[i].length;
        outputStart[i] := outputPos;
        outputPos := outputPos + inst[i].length;
        i := i + 1;
      }
    }
    assert inst[..inst.Length] == inst[..] && insts[..inst.Length] == insts;
  }

  lemma NothingUnpacked(insts: seq<Inst>, infos: seq<Info>)
    requires insts == []
    ensures Indexed(insts, infos) && Unpacked(insts, infos) == []
  {
  }

  function LengthOf(insts: seq<Inst>): nat {
    if insts == [] then 0 else LengthOf(insts[..|insts| - 1]) + insts[|insts| - 1].length
  }

  lemma PositionIs(position: seq<nat>, insts: seq<Inst>, k: nat)
    requires PositionsAt(position, insts) && k < |position|
    ensures position[k] == Taken(insts, k)
  {
  }

  lemma NoLength(insts: seq<Inst>)
    requires insts == []
    ensures LengthOf(insts) == 0
  {
  }

  lemma LengthStep(insts: seq<Inst>, i: nat)
    requires i < |insts|
    ensures LengthOf(insts[..i + 1]) == LengthOf(insts[..i]) + insts[i].length
  {
    assert insts[..i + 1][..i] == insts[..i];
  }

  lemma UnpackStep(insts: seq<Inst>, infos: seq<Info>, i: nat)
    requires i < |insts| && Indexed(insts[..i], infos) && insts[i].index < |infos|
    ensures Indexed(insts[..i + 1], infos)
    ensures Unpacked(insts[..i + 1], infos) == Unpacked(insts[..i], infos)
      + [if infos[insts[i].index].sequential then insts[i].(offset := Taken(insts[..i], insts[i].index)) else insts[i]]
  {
    assert insts[..i + 1] == insts[..i] + [insts[i]];
    UnpackAppend(insts[..i], insts[i], infos);
  }

  lemma UnpackAppend(front: seq<Inst>, i: Inst, infos: seq<Info>)
    requires Indexed(front, infos) && i.index < |infos|
    ensures Indexed(front + [i], infos)
    ensures Unpacked(front + [i], infos)
         == Unpacked(front, infos) + [if infos[i.index].sequential then i.(offset := Taken(front, i.index)) else i]
  {
    hide Taken;
    assert (front + [i])[..|front|] == front;
  }

}
