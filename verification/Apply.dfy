/**
  xdapply.c and xd_handle_copy of xdmain.c: running a delta.  The patch data is read as a
  stream, all other sources are files read by pages.
 */
module Apply {
  import opened Bytes
  import opened Pages
  import opened Control
  import opened Pack
  import Arith

  /** Input that can only be read on. */
  class Reader {
    const data: seq<byte>
    var at: nat

    constructor (data: seq<byte>)
      ensures this.data == data && at == 0
    {
      this.data, at := data, 0;
    }

    method Read(n: nat) returns (bytes: seq<byte>)
      requires at <= |data|
      modifies this
      ensures at == old(at) + |bytes| <= |data| && bytes == data[old(at)..at]
      ensures |bytes| == Min(n, |data| - old(at))
    {
      var m: nat := Min(n, |data| - at);
      bytes := data[at..at + m];
      at := at + m;
    }
  }

  /** xd_handle_copy from a stream: the offset is not looked at. */
  method CopyStream(from: Reader, len: nat) returns (ok: bool, out: seq<byte>)
    requires from.at <= |from.data|
    modifies from
    ensures ok <==> old(from.at) + len <= |from.data|
    ensures ok ==> from.at == old(from.at) + len && out == from.data[old(from.at)..from.at]
    ensures from.at <= |from.data|
  {
    out, ok := [], true;
    var left: nat := len;
    while left > 0 && ok
      invariant old(from.at) <= from.at <= |from.data| && left <= len
      invariant ok ==> from.at == old(from.at) + (len - left) && out == from.data[old(from.at)..from.at]
      invariant !ok ==> old(from.at) + len > |from.data|
      decreases left, ok
    {
      var r: nat := Min(1024, left);
      var bytes := from.Read(r);
      if |bytes| != r {
        ok := false;
      } else {
        out := out + bytes;
        left := left - r;
      }
    }
  }

  /** How a copy ends: the program is done, reports an error, goes round without getting on,
      or reads behind what the page holds. */
  datatype Fate = Done | Fails | Hangs | Outside

  /** A range that ends inside the file is copied.  Where the file ends with a full page, or the
      range starts on a page behind the last, its end is noticed; otherwise it is not. */
  function PagedFate(f: Paged, off: nat, len: nat): Fate {
    if len == 0 || off + len <= |f.data| then Done
    else if |f.data| % f.pageSize == 0 || off / f.pageSize > PageCount(f) then Fails
    else if off <= |f.data| then Hangs
    else Outside
  }

  /** xd_handle_copy from a file. */
  method CopyPaged(from: Paged, off0: nat, len: nat) returns (fate: Fate, out: seq<byte>)
    ensures fate == PagedFate(from, off0, len)
    ensures fate == Done && len > 0 ==> out == from.data[off0..off0 + len]
    ensures len == 0 ==> out == []
  {
    hide PagedFate;
    var off: nat, left: nat := off0, len;
    fate, out := Done, [];
    FateFrom(from, off0, 0, len);
    while left > 0 && fate == Done
      invariant off + left == off0 + len && off0 <= off && fate in {Done, PagedFate(from, off0, len)}
      invariant if off == off0 then out == [] else off <= |from.data| && out == from.data[off0..off]
      decreases left, fate == Done
    {
      var bytes;
      fate, bytes := FromPage(from, off, left);
      if fate == Done {
        SlicesJoin(from.data, off0, off, off + |bytes|);
        out := out + bytes;
        left := left - |bytes|;
        off := off + |bytes|;
      } else {
        FateFrom(from, off0, off - off0, left);
      }
    }
    FateFrom(from, off0, off - off0, left);
  }

  /** Part of a range can be copied just when the file has it, and then the rest decides. */
  lemma FateFrom(f: Paged, off: nat, done: nat, left: nat)
    requires done > 0 ==> off + done <= |f.data|
    ensures left > 0 ==> PagedFate(f, off, done + left) == PagedFate(f, off + done, left)
    ensures PagedFate(f, off, done) == Done
  {
    if done > 0 && off + done + left > |f.data| {
      Arith.QuotientMonotone(off, off + done, f.pageSize);
      Arith.QuotientMonotone(off + done, |f.data|, f.pageSize);
    }
  }

  /** What one page has of the bytes wanted. */
  method FromPage(from: Paged, off: nat, left: nat) returns (fate: Fate, bytes: seq<byte>)
    requires left > 0
    ensures fate == Done ==>
      0 < |bytes| <= left && off + |bytes| <= |from.data| && bytes == from.data[off..off + |bytes|]
    ensures fate != Done ==> fate == PagedFate(from, off, left)
  {
    hide Start, OnPage, PageCount, PageBytes, PagedFate;
    PlaceSplit(from, off);
    var page: nat, at: nat := off / from.pageSize, off % from.pageSize;
    bytes := [];
    var on := OnPage(from, page);
    PageEnds(from, off, left);
    if on <= 0 {
      fate := Fails;
    } else if on == at {
      fate := Hangs;
    } else if on < at {
      fate := Outside;
    } else {
      fate := Done;
      var copy: nat := Min(left, on - at);
      var mem := PageBytes(from, page);
      PageStretch(from, page, at, at + copy);
      bytes := mem[at..at + copy];
    }
  }

  /** What the number of bytes on the page says of the range. */
  lemma PageEnds(f: Paged, off: nat, left: nat)
    requires left > 0
    ensures var on, at := OnPage(f, off / f.pageSize), off % f.pageSize;
      && (on <= 0 ==> PagedFate(f, off, left) == Fails)
      && (on > 0 && on == at ==> PagedFate(f, off, left) == Hangs)
      && (on > 0 && on < at ==> PagedFate(f, off, left) == Outside)
      && (on > at ==> off / f.pageSize <= PageCount(f))
  {
    hide Start;
    PlaceSplit(f, off);
    PlaceSplit(f, |f.data|);
    var page := off / f.pageSize;
    if page < PageCount(f) {
      StartMonotone(f, page, PageCount(f));
    } else if page > PageCount(f) {
      StartMonotone(f, PageCount(f), page);
    }
  }

  lemma SlicesJoin<T>(s: seq<T>, a: nat, b: nat, c: nat)
    requires a <= b <= c <= |s|
    ensures s[a..b] + s[b..c] == s[a..c]
  {
  }

  /** The files to apply a delta to: one of the sources may be a stream. */
  datatype Input = Stream(r: Reader) | File(f: Paged)

  function Content(i: Input): seq<byte> {
    match i
    case Stream(r) => r.data
    case File(f) => f.data
  }

  function Contents(inputs: seq<Input>): (c: seq<seq<byte>>)
    ensures |c| == |inputs|
  {
    seq(|inputs|, i requires 0 <= i < |inputs| => Content(inputs[i]))
  }

  /** Only the source given as stream, if any, is one, and it is read in order. */
  predicate Readable(insts: seq<Inst>, inputs: seq<Input>, stream: Option<Reader>) {
    && (stream.Some? ==> forall k: nat | k < |inputs| && inputs[k].Stream? ::
          inputs[k].r == stream.value && InOrder(insts, k)
          && forall j: nat | j < |inputs| && inputs[j].Stream? :: j == k)
    && (stream.None? ==> forall k: nat | k < |inputs| :: inputs[k].File?)
  }

  /** How one instruction ends. */
  function FateOf(i: Inst, inputs: seq<Input>): Fate {
    if i.index >= |inputs| then Fails
    else match inputs[i.index]
      case Stream(r) => if i.length == 0 || i.offset + i.length <= |r.data| then Done else Fails
      case File(f) => PagedFate(f, i.offset, i.length)
  }

  function BytesOf(i: Inst, inputs: seq<Input>): seq<byte>
    requires FateOf(i, inputs) == Done
  {
    if i.length == 0 then [] else Content(inputs[i.index])[i.offset..i.offset + i.length]
  }

  /** How a delta ends: the first instruction that cannot be carried out decides. */
  function RunFate(insts: seq<Inst>, inputs: seq<Input>): Fate {
    if insts == [] then Done
    else
      var n := |insts| - 1;
      var front := RunFate(insts[..n], inputs);
      if front != Done then front else FateOf(insts[n], inputs)
  }

  function Produced(insts: seq<Inst>, inputs: seq<Input>): seq<byte>
    requires RunFate(insts, inputs) == Done
  {
    if insts == [] then [] else
      var n := |insts| - 1;
      Produced(insts[..n], inputs) + BytesOf(insts[n], inputs)
  }

  lemma RunAppend(insts: seq<Inst>, i: Inst, inputs: seq<Input>)
    requires RunFate(insts, inputs) == Done
    ensures RunFate(insts + [i], inputs) == FateOf(i, inputs)
    ensures FateOf(i, inputs) == Done ==>
      Produced(insts + [i], inputs) == Produced(insts, inputs) + BytesOf(i, inputs)
  {
    assert (insts + [i])[..|insts|] == insts;
  }

  lemma {:induction false} RunStops(insts: seq<Inst>, inputs: seq<Input>, n: nat)
    requires n <= |insts| && (RunFate(insts[..n], inputs) != Done || n == |insts|)
    ensures RunFate(insts, inputs) == RunFate(insts[..n], inputs)
    decreases |insts|
  {
    if n < |insts| {
      var m := |insts| - 1;
      assert insts[..m][..n] == insts[..n];
      RunStops(insts[..m], inputs, n);
    } else {
      assert insts[..n] == insts;
    }
  }

  /** Whether an instruction asks for nothing, or for a range inside its source. */
  predicate Harmless(i: Inst, inputs: seq<Input>) {
    i.index < |inputs| && (i.length == 0 || InRange(i, Contents(inputs)))
  }

  /** A delta is carried out just when every instruction has a source and stays inside it,
      and then its output is the concatenation of the ranges. */
  lemma {:induction false} RunIsOutput(insts: seq<Inst>, inputs: seq<Input>)
    ensures RunFate(insts, inputs) == Done <==> forall j | 0 <= j < |insts| :: Harmless(insts[j], inputs)
    ensures AllInRange(insts, Contents(inputs)) ==>
      RunFate(insts, inputs) == Done && Produced(insts, inputs) == Output(insts, Contents(inputs))
    decreases |insts|
  {
    if insts != [] {
      var n := |insts| - 1;
      RunIsOutput(insts[..n], inputs);
      FateDone(insts[n], inputs);
      assert insts == insts[..n] + [insts[n]];
    }
  }

  lemma FateDone(i: Inst, inputs: seq<Input>)
    ensures FateOf(i, inputs) == Done <==> Harmless(i, inputs)
    ensures InRange(i, Contents(inputs)) ==>
      FateOf(i, inputs) == Done && BytesOf(i, inputs) == Stretch(i, Contents(inputs))
  {
  }

  lemma StreamPlace(insts: seq<Inst>, inputs: seq<Input>, stream: Option<Reader>, i: nat)
    requires Readable(insts, inputs, stream) && i < |insts| && insts[i].index < |inputs|
        && inputs[insts[i].index].Stream?
    ensures stream.Some? && inputs[insts[i].index].r == stream.value
    ensures insts[i].offset == Taken(insts[..i], insts[i].index)
  {
    OrderAt(insts, insts[i].index, i);
  }

  /** How far the stream has been read. */
  predicate StreamAt(at: nat, insts: seq<Inst>, inputs: seq<Input>) {
    forall k: nat | k < |inputs| && inputs[k].Stream? :: at == Taken(insts, k)
  }

  lemma StreamStep(at: nat, insts: seq<Inst>, inputs: seq<Input>, stream: Option<Reader>, i: nat)
    requires Readable(insts, inputs, stream) && i < |insts| && StreamAt(at, insts[..i], inputs)
        && insts[i].index < |inputs|
    ensures insts[..i + 1] == insts[..i] + [insts[i]]
    ensures StreamAt(if inputs[insts[i].index].Stream? then at + insts[i].length else at, insts[..i + 1], inputs)
  {
    assert insts[..i + 1] == insts[..i] + [insts[i]];
    forall k: nat | k < |inputs| && inputs[k].Stream?
      ensures Taken(insts[..i + 1], k) == Taken(insts[..i], k) + if insts[i].index == k then insts[i].length else 0
    {
      TakenAppend(insts[..i], insts[i], k);
    }
  }

  /** xdp_copy_delta_region */
  method CopyDeltaRegion(insts: seq<Inst>, inputs: seq<Input>, stream: Option<Reader>)
    returns (fate: Fate, out: seq<byte>)
    requires Readable(insts, inputs, stream) && (stream.Some? ==> stream.value.at == 0)
    modifies if stream.Some? then {stream.value} else {}
    ensures fate == RunFate(insts, inputs)
    ensures fate == Done ==> out == Produced(insts, inputs)
  {
    hide Readable, RunFate, Produced, Taken, StreamAt, InOrder, PagedFate;
    fate, out := Done, [];
    NothingRead(insts[..0], inputs);
    var i: nat := 0;
    while fate == Done && i < |insts|
      invariant i <= |insts| && fate == RunFate(insts[..i], inputs)
      invariant fate == Done ==> out == Produced(insts[..i], inputs)
      invariant fate == Done && stream.Some? ==>
        stream.value.at <= |stream.value.data| && StreamAt(stream.value.at, insts[..i], inputs)
      decreases |insts| - i
    {
      var inst := insts[i];
      RunAppend(insts[..i], inst, inputs);
      assert insts[..i + 1] == insts[..i] + [inst];
      if inst.index >= |inputs| {
        fate := Fails;
      } else {
        var bytes;
        if inputs[inst.index].Stream? {
          StreamPlace(insts, inputs, stream, i);
          StreamIs(stream.value.at, insts[..i], inputs, inst.index);
          StreamStep(stream.value.at, insts, inputs, stream, i);
          var ok;
          ok, bytes := CopyStream(inputs[inst.index].r, inst.length);
          fate := if ok then Done else Fails;
        } else {
          fate, bytes := CopyPaged(inputs[inst.index].f, inst.offset, inst.length);
          if stream.Some? {
            StreamStep(stream.value.at, insts, inputs, stream, i);
          }
        }
        out := out + bytes;
      }
      i := i + 1;
    }
    RunStops(insts, inputs, i);
    assert insts[..|insts|] == insts;
  }

  lemma StreamIs(at: nat, insts: seq<Inst>, inputs: seq<Input>, k: nat)
    requires StreamAt(at, insts, inputs) && k < |inputs| && inputs[k].Stream?
    ensures at == Taken(insts, k)
  {
  }

  lemma NothingRead(insts: seq<Inst>, inputs: seq<Input>)
    requires insts == []
    ensures RunFate(insts, inputs) == Done && Produced(insts, inputs) == [] && StreamAt(0, insts, inputs)
  {
  }
}
