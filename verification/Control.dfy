/**
  xdelta.c: the control of a delta.  An instruction copies a stretch of one source; source
  0 is the patch data, which holds what no other source does.
 */
module Control {
  import opened Bytes

  datatype Inst = Inst(index: nat, offset: nat, length: nat)

  /** The bytes an instruction stands for. */
  predicate InRange(i: Inst, contents: seq<seq<byte>>) {
    i.index < |contents| && i.offset + i.length <= |contents[i.index]|
  }

  predicate AllInRange(insts: seq<Inst>, contents: seq<seq<byte>>) {
    forall j | 0 <= j < |insts| :: InRange(insts[j], contents)
  }

  function Stretch(i: Inst, contents: seq<seq<byte>>): (s: seq<byte>)
    requires InRange(i, contents)
    ensures |s| == i.length
  {
    contents[i.index][i.offset..i.offset + i.length]
  }

  /** What a list of instructions produces. */
  function Output(insts: seq<Inst>, contents: seq<seq<byte>>): seq<byte>
    requires AllInRange(insts, contents)
  {
    if insts == [] then [] else
      var n := |insts| - 1;
      Output(insts[..n], contents) + Stretch(insts[n], contents)
  }

  /** The bytes taken from source `k`. */
  function Taken(insts: seq<Inst>, k: nat): nat {
    if insts == [] then 0 else
      var n := |insts| - 1;
      Taken(insts[..n], k) + if insts[n].index == k then insts[n].length else 0
  }

  /** Source `k` is read from its beginning without a gap. */
  predicate InOrder(insts: seq<Inst>, k: nat) {
    if insts == [] then true else
      var n := |insts| - 1;
      InOrder(insts[..n], k) && (insts[n].index == k ==> insts[n].offset == Taken(insts[..n], k))
  }

  predicate Uses(insts: seq<Inst>, k: nat) {
    exists j :: 0 <= j < |insts| && insts[j].index == k
  }

  /** control_copy goes on with the last instruction where it can. */
  predicate Continues(insts: seq<Inst>, k: nat, from: nat) {
    insts != [] && var last := insts[|insts| - 1]; last.index == k && last.offset + last.length == from
  }

  function Copied(insts: seq<Inst>, k: nat, from: nat, to: nat): (r: seq<Inst>)
    requires from <= to
  {
    if Continues(insts, k, from) then
      var n := |insts| - 1;
      insts[n := insts[n].(length := insts[n].length + (to - from))]
    else
      insts + [Inst(k, from, to - from)]
  }

  /** What a source keeps of the instructions made from it. */
  datatype Track = Track(used: bool, sequential: bool, position: nat)

  function Tracked(t: Track, from: nat, to: nat): Track {
    Track(true, t.sequential && t.position == from, to)
  }

  // -------------------------------------------------- the delta in the making

  /** What the generator has made so far. */
  datatype Made = Made(insts: seq<Inst>, tracks: seq<Track>, dataOut: seq<byte>, outPos: nat)

  /** The last copy could not have been longer. */
  predicate Stopped(insts: seq<Inst>, files: seq<seq<byte>>, target: seq<byte>, outPos: nat) {
    insts != [] && insts[|insts| - 1].index != 0 ==>
      var last := insts[|insts| - 1];
      var o := last.offset + last.length;
      last.index < |files| && (o >= |files[last.index]| || outPos >= |target| || target[outPos] != files[last.index][o])
  }

  /** The flag of source `k` is true of its instructions, and of a file it is set whenever
      it could be. */
  predicate TrackOk(insts: seq<Inst>, t: Track, k: nat) {
    && (t.sequential ==> InOrder(insts, k))
    && (k > 0 && InOrder(insts, k) ==> t.sequential)
    && (t.sequential && k > 0 ==> t.position == Taken(insts, k))
    && (t.used <==> Uses(insts, k))
  }

  predicate MadeOk(m: Made, files: seq<seq<byte>>, target: seq<byte>) {
    && 0 < |files| == |m.tracks| && m.outPos <= |target|
    && AllInRange(m.insts, files[0 := m.dataOut])
    && Output(m.insts, files[0 := m.dataOut]) == target[..m.outPos]
    && InOrder(m.insts, 0) && Taken(m.insts, 0) == |m.dataOut|
    && (forall k | 0 <= k < |m.tracks| :: TrackOk(m.insts, m.tracks[k], k))
    && Stopped(m.insts, files, target, m.outPos)
  }

  function Make(m: Made, k: nat, from: nat, to: nat): Made
    requires from <= to && k < |m.tracks|
  {
    Made(Copied(m.insts, k, from, to),
         if Continues(m.insts, k, from) then m.tracks else m.tracks[k := Tracked(m.tracks[k], from, to)],
         m.dataOut, m.outPos + (to - from))
  }

  /** region_insert on what has been made. */
  function Inserted(m: Made, bytes: seq<byte>): Made
    requires 0 < |m.tracks|
  {
    if bytes == [] then m
    else Make(m, 0, |m.dataOut|, |m.dataOut| + |bytes|).(dataOut := m.dataOut + bytes)
  }

  // ---------------------------------------------------------------- lemmas

  lemma TakenAppend(insts: seq<Inst>, i: Inst, k: nat)
    ensures Taken(insts + [i], k) == Taken(insts, k) + if i.index == k then i.length else 0
    ensures InOrder(insts + [i], k) <==> InOrder(insts, k) && (i.index == k ==> i.offset == Taken(insts, k))
  {
    assert (insts + [i])[..|insts|] == insts;
  }

  lemma OutputAppend(insts: seq<Inst>, i: Inst, contents: seq<seq<byte>>)
    requires AllInRange(insts, contents) && InRange(i, contents)
    ensures AllInRange(insts + [i], contents)
    ensures Output(insts + [i], contents) == Output(insts, contents) + Stretch(i, contents)
  {
    assert (insts + [i])[..|insts|] == insts;
  }

  /** A longer source changes nothing. */
  lemma {:induction false} OutputGrows(insts: seq<Inst>, files: seq<seq<byte>>, a: seq<byte>, b: seq<byte>)
    requires 0 < |files| && AllInRange(insts, files[0 := a])
    ensures AllInRange(insts, files[0 := a + b])
    ensures Output(insts, files[0 := a + b]) == Output(insts, files[0 := a])
  {
    if insts != [] {
      var n := |insts| - 1;
      OutputGrows(insts[..n], files, a, b);
      assert InRange(insts[n], files[0 := a]);
      assert Stretch(insts[n], files[0 := a + b]) == Stretch(insts[n], files[0 := a]);
    }
  }

  lemma UsesAppend(insts: seq<Inst>, i: Inst, k: nat)
    ensures Uses(insts + [i], k) <==> Uses(insts, k) || i.index == k
  {
    assert (insts + [i])[|insts|] == i;
    if Uses(insts, k) {
      var j :| 0 <= j < |insts| && insts[j].index == k;
      assert (insts + [i])[j].index == k;
    }
  }

  /** The last instruction made longer, in terms of the list before it. */
  lemma Longer(insts: seq<Inst>, k: nat, from: nat, to: nat) returns (front: seq<Inst>, last: Inst)
    requires from <= to && Continues(insts, k, from)
    ensures insts == front + [last] && last.index == k && last.offset + last.length == from
    ensures Copied(insts, k, from, to) == front + [last.(length := last.length + (to - from))]
  {
    var n := |insts| - 1;
    front, last := insts[..n], insts[n];
  }

  lemma InsertTracks(m: Made, files: seq<seq<byte>>, target: seq<byte>, from: nat, to: nat)
    requires MadeOk(m, files, target) && from == |m.dataOut| < to
    ensures var r := Make(m, 0, from, to);
      && InOrder(r.insts, 0) && Taken(r.insts, 0) == to
      && forall k | 0 <= k < |r.tracks| :: TrackOk(r.insts, r.tracks[k], k)
  {
    hide Taken, InOrder, Uses;
    var r := Make(m, 0, from, to);
    if Continues(m.insts, 0, from) {
      var front, last := Longer(m.insts, 0, from, to);
      var last' := last.(length := last.length + (to - from));
      forall k: nat | k < |r.tracks|
        ensures TrackOk(r.insts, r.tracks[k], k)
      {
        assert TrackOk(m.insts, m.tracks[k], k);
        TakenAppend(front, last, k);
        TakenAppend(front, last', k);
        UsesAppend(front, last, k);
        UsesAppend(front, last', k);
      }
      TakenAppend(front, last, 0);
      TakenAppend(front, last', 0);
    } else {
      var i := Inst(0, from, to - from);
      forall k: nat | k < |r.tracks|
        ensures TrackOk(r.insts, r.tracks[k], k)
      {
        assert TrackOk(m.insts, m.tracks[k], k);
        TakenAppend(m.insts, i, k);
        UsesAppend(m.insts, i, k);
      }
      TakenAppend(m.insts, i, 0);
    }
  }

  lemma InsertOutput(m: Made, files: seq<seq<byte>>, target: seq<byte>, bytes: seq<byte>)
    requires MadeOk(m, files, target) && bytes != []
    ensures var r, c := Make(m, 0, |m.dataOut|, |m.dataOut| + |bytes|), files[0 := m.dataOut + bytes];
      AllInRange(r.insts, c) && Output(r.insts, c) == target[..m.outPos] + bytes
  {
    hide Taken, InOrder, Uses, Output, AllInRange, TrackOk, Stopped;
    var c := files[0 := m.dataOut + bytes];
    var from, to := |m.dataOut|, |m.dataOut| + |bytes|;
    OutputGrows(m.insts, files, m.dataOut, bytes);
    if Continues(m.insts, 0, from) {
      var front, last := Longer(m.insts, 0, from, to);
      LongerOutput(front, last, c, bytes);
    } else {
      var i := Inst(0, from, |bytes|);
      assert Stretch(i, c) == bytes;
      OutputAppend(m.insts, i, c);
    }
  }

  lemma LongerOutput(front: seq<Inst>, last: Inst, c: seq<seq<byte>>, bytes: seq<byte>)
    requires AllInRange(front + [last], c) && last.index < |c|
    requires last.offset + last.length + |bytes| == |c[last.index]|
    requires c[last.index][last.offset + last.length..] == bytes
    ensures var r := front + [last.(length := last.length + |bytes|)];
      AllInRange(r, c) && Output(r, c) == Output(front + [last], c) + bytes
  {
    hide Output, AllInRange;
    var last' := last.(length := last.length + |bytes|);
    FrontInRange(front, last, c);
    OutputAppend(front, last, c);
    OutputAppend(front, last', c);
    assert Stretch(last', c) == Stretch(last, c) + bytes;
    assert Output(front, c) + (Stretch(last, c) + bytes) == Output(front, c) + Stretch(last, c) + bytes;
  }

  lemma FrontInRange(front: seq<Inst>, last: Inst, c: seq<seq<byte>>)
    requires AllInRange(front + [last], c)
    ensures AllInRange(front, c) && InRange(last, c)
  {
    assert (front + [last])[|front|] == last;
    forall j | 0 <= j < |front| ensures InRange(front[j], c) {
      assert (front + [last])[j] == front[j];
    }
  }

  /** Inserting the next bytes of the target. */
  lemma InsertKeeps(m: Made, files: seq<seq<byte>>, target: seq<byte>, len: nat)
    requires MadeOk(m, files, target) && m.outPos + len <= |target|
    ensures var r := Inserted(m, target[m.outPos..m.outPos + len]);
      MadeOk(r, files, target) && r.outPos == m.outPos + len
  {
    hide Taken, InOrder, Uses, Output, AllInRange, TrackOk;
    var bytes := target[m.outPos..m.outPos + len];
    if len > 0 {
      InsertTracks(m, files, target, |m.dataOut|, |m.dataOut| + len);
      InsertOutput(m, files, target, bytes);
      assert target[..m.outPos] + bytes == target[..m.outPos + len];
    }
  }

  /** Copying the next bytes of the target from a source, as far as it goes.  It never
      continues the instruction before: that one would have gone on. */
  lemma CopyKeeps(m: Made, files: seq<seq<byte>>, target: seq<byte>, k: nat, from: nat, to: nat)
    requires MadeOk(m, files, target) && 0 < k < |files| && from < to <= |files[k]|
    requires m.outPos + (to - from) <= |target|
    requires target[m.outPos..m.outPos + (to - from)] == files[k][from..to]
    requires var p := m.outPos + (to - from); to == |files[k]| || p == |target| || target[p] != files[k][to]
    ensures !Continues(m.insts, k, from)
    ensures MadeOk(Make(m, k, from, to), files, target)
  {
    hide Taken, InOrder, Uses, Output;
    assert target[m.outPos..m.outPos + (to - from)][0] == files[k][from..to][0];
    assert !Continues(m.insts, k, from);
    var c := files[0 := m.dataOut];
    var i, r := Inst(k, from, to - from), Make(m, k, from, to);
    OutputAppend(m.insts, i, c);
    assert target[..m.outPos] + files[k][from..to] == target[..r.outPos];
    forall j: nat | j < |r.tracks|
      ensures TrackOk(r.insts, r.tracks[j], j)
    {
      assert TrackOk(m.insts, m.tracks[j], j);
      TakenAppend(m.insts, i, j);
      UsesAppend(m.insts, i, j);
    }
    TakenAppend(m.insts, i, 0);
  }

  lemma NothingMade(tracks: seq<Track>, files: seq<seq<byte>>, target: seq<byte>)
    requires 0 < |files| == |tracks| && forall k | 0 <= k < |tracks| :: tracks[k] == Track(false, true, 0)
    ensures MadeOk(Made([], tracks, [], 0), files, target)
  {
  }
}
