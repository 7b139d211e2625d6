/**
  xdelta3-merge.h: composing two deltas without looking at any file, and the
  chain of `-m` arguments of xdelta3-main.h.
 */
module Merge {
  import opened Bytes
  import opened Delta

  /** The last two are no errors of the program.  `Overrun`: it looks for an instruction or a
      window behind the last one.  `Asserts`: another assertion fails.  With assertions
      compiled in it stops in both cases. */
  datatype Status = Ok | InvalidInput | Internal | Overrun | Asserts

  /** Whether the merge accepts an instruction of its input: the only errors are a
      VCD_TARGET copy and a source copy that starts beyond the first output. */
  predicate Accepts(i: Inst, sourceLength: nat) {
    i.kind == Cpy ==> i.mode == Here || (i.mode == Source && i.addr < sourceLength)
  }

  /** What becomes of one instruction. */
  function Verdict(i: Inst, sourceLength: nat): Status {
    if !Accepts(i, sourceLength) then InvalidInput
    else if !InRange(i, sourceLength) then Overrun
    else Ok
  }

  /** What becomes of all of them: the first that is not merged decides. */
  function Outcome(insts: seq<Inst>, sourceLength: nat): Status
    decreases |insts|
  {
    if insts == [] then Ok
    else
      var s := Outcome(insts[..|insts| - 1], sourceLength);
      if s != Ok then s else Verdict(insts[|insts| - 1], sourceLength)
  }

  /** A merge goes through just when every instruction is accepted and in range. */
  lemma {:induction false} OutcomeOk(insts: seq<Inst>, n: nat)
    ensures Outcome(insts, n) == Ok <==> AllAccepted(insts, n) && AllInRange(insts, n)
    decreases |insts|
  {
    if insts != [] {
      OutcomeOk(insts[..|insts| - 1], n);
    }
  }

  /** Once decided, it stays. */
  lemma {:induction false} OutcomeStays(insts: seq<Inst>, k: nat, n: nat)
    requires k <= |insts|
    ensures insts[..|insts|] == insts
    ensures Outcome(insts[..k], n) != Ok || k == |insts| ==> Outcome(insts, n) == Outcome(insts[..k], n)
    decreases |insts|
  {
    var m := |insts| - 1;
    if k <= m {
      assert insts[..m][..k] == insts[..k];
      OutcomeStays(insts[..m], k, n);
    } else {
      assert insts[..k] == insts;
    }
  }

  /** Otherwise the first instruction that is refused or runs over says how it ends. */
  lemma OutcomeFirst(insts: seq<Inst>, k: nat, n: nat)
    requires k < |insts| && Outcome(insts[..k], n) == Ok && Verdict(insts[k], n) != Ok
    ensures Outcome(insts, n) == Verdict(insts[k], n)
  {
    assert insts[..k + 1][..k] == insts[..k];
    OutcomeStays(insts, k + 1, n);
  }

  /** A source copy that starts inside the first output also ends there. */
  predicate InRange(i: Inst, sourceLength: nat) {
    i.kind == Cpy && i.mode == Source && i.addr < sourceLength ==> i.addr + i.size <= sourceLength
  }

  /** `InstsOk`, except that VCD_TARGET copies may occur: the merge rejects them. */
  predicate InputOk(insts: seq<Inst>, addsLen: nat)
    decreases |insts|
  {
    insts == [] ||
    var n := |insts| - 1;
    && InputOk(insts[..n], addsLen)
    && (InstOk(insts[n], addsLen, End(insts[..n])) ||
        (insts[n].kind == Cpy && insts[n].mode == Target && insts[n].position == End(insts[..n])))
  }

  predicate AllAccepted(insts: seq<Inst>, sourceLength: nat) {
    forall i | 0 <= i < |insts| :: Accepts(insts[i], sourceLength)
  }

  predicate AllInRange(insts: seq<Inst>, sourceLength: nat) {
    forall i | 0 <= i < |insts| :: InRange(insts[i], sourceLength)
  }

  lemma {:induction false} AcceptedIsWellFormed(insts: seq<Inst>, adds: seq<byte>, n: nat)
    requires InputOk(insts, |adds|) && AllAccepted(insts, n) && AllInRange(insts, n)
    ensures InstsOk(insts, |adds|) && Fits(insts, n)
    ensures Below(Symbolic(insts, adds), n)
    decreases |insts|
  {
    if insts != [] {
      AcceptedIsWellFormed(insts[..|insts| - 1], adds, n);
    }
    SymbolicBelow(insts, adds, n);
  }

  lemma {:induction false} SymbolicBelow(insts: seq<Inst>, adds: seq<byte>, n: nat)
    requires InstsOk(insts, |adds|) && Fits(insts, n)
    ensures Below(Symbolic(insts, adds), n)
    decreases |insts|
  {
    if insts != [] {
      var m := |insts| - 1;
      PrefixOk(insts, |adds|, m);
      SymbolicBelow(insts[..m], adds, n);
      var i, o := insts[m], Symbolic(insts[..m], adds);
      if i.kind == Cpy && i.mode == Here {
        CopyForwardBelow(o, i.addr, i.size, n);
      }
    }
  }

  lemma {:induction false} CopyForwardBelow(o: seq<Origin>, addr: nat, size: nat, n: nat)
    requires addr < |o| && Below(o, n)
    ensures Below(CopyForward(o, addr, size), n)
    decreases size
  {
    if size > 0 {
      CopyForwardBelow(o + [o[addr]], addr + 1, size - 1, n);
    }
  }

  predicate IsTargetCopy(i: Inst) {
    i.kind == Cpy && i.mode == Here
  }

  /** Every target copy of `now` is one of `was`. */
  predicate NoNewTargetCopy(was: seq<Inst>, now: seq<Inst>) {
    forall i | i in now && IsTargetCopy(i) :: i in was
  }

  predicate NoneEmpty(insts: seq<Inst>) {
    forall i | i in insts :: i.size > 0
  }

  /** Every empty instruction of `now` is one of `was`. */
  predicate NoNewEmpty(was: seq<Inst>, now: seq<Inst>) {
    forall i | i in now && i.size == 0 :: i in was
  }

  /** `now` is `was` with instructions appended that produce `piece`; none of them
      reads the target. */
  ghost predicate Appended(was: Whole, now: Whole, piece: seq<Origin>) {
    && NoNewTargetCopy(was.insts, now.insts)
    && InstsOk(was.insts, |was.adds|)
    && InstsOk(now.insts, |now.adds|)
    && was.wininfo == now.wininfo
    && Symbolic(now.insts, now.adds) == Symbolic(was.insts, was.adds) + piece
  }

  lemma AppendedTwice(a: Whole, b: Whole, c: Whole, o: seq<Origin>, lo: nat, mid: nat, hi: nat)
    requires lo <= mid <= hi <= |o|
    requires Appended(a, b, o[lo..mid]) && Appended(b, c, o[mid..hi])
    ensures Appended(a, c, o[lo..hi])
  {
    SlicesJoin(Symbolic(a.insts, a.adds), o, lo, mid, hi);
  }

  lemma PieceDone(was: Whole, before: Whole, now: Whole, o: seq<Origin>, lo: nat, mid: nat, hi: nat)
    requires lo <= mid <= hi <= |o|
    requires Appended(was, before, o[lo..mid]) && Appended(before, now, o[mid..hi])
    ensures InstsOk(now.insts, |now.adds|) && End(now.insts) == End(before.insts) + (hi - mid)
    ensures Appended(was, now, o[lo..hi])
  {
    hide Symbolic, InstsOk, Appended;
    AppendedEnd(before, now, o[mid..hi]);
    AppendedTwice(was, before, now, o, lo, mid, hi);
  }

  lemma NothingNew(insts: seq<Inst>)
    ensures NoNewEmpty(insts, insts)
  {
  }

  lemma NewTwice(a: seq<Inst>, b: seq<Inst>, c: seq<Inst>)
    requires NoNewEmpty(a, b) && NoNewEmpty(b, c)
    ensures NoNewEmpty(a, c)
  {
  }

  lemma SomeLeft(insts: seq<Inst>, num: nat)
    requires NoneEmpty(insts) && num < |insts|
    ensures insts[num].size > 0
  {
  }

  lemma AppendedNothing(d: Whole, piece: seq<Origin>)
    requires InstsOk(d.insts, |d.adds|) && piece == []
    ensures Appended(d, d, piece)
  {
  }

  lemma AppendedEnd(was: Whole, now: Whole, piece: seq<Origin>)
    requires Appended(was, now, piece)
    ensures InstsOk(now.insts, |now.adds|) && End(now.insts) == End(was.insts) + |piece|
  {
  }

  lemma SlicesJoin<T>(x: seq<T>, o: seq<T>, lo: nat, mid: nat, hi: nat)
    requires lo <= mid <= hi <= |o|
    ensures (x + o[lo..mid]) + o[mid..hi] == x + o[lo..hi]
  {
  }

  /** `merged` has the symbolic file of `input` applied to `source`, and its target
      copies are the input's own, unmoved. */
  ghost predicate IsComposition(merged: Whole, input: Whole, source: Whole) {
    && WellFormed(merged) && WellFormed(input) && WellFormed(source)
    && NoNewTargetCopy(input.insts, merged.insts)
    && Fits(input.insts, source.length)
    && Below(Symbolic(input.insts, input.adds), source.length)
    && Symbolic(merged.insts, merged.adds)
       == Compose(Symbolic(input.insts, input.adds), Symbolic(source.insts, source.adds))
  }

  /** The state of the merge after the instructions `done` of the input. */
  ghost predicate Composed(now: Whole, done: seq<Inst>, adds: seq<byte>, source: Whole)
    requires WellFormed(source)
  {
    && InstsOk(done, |adds|) && Fits(done, source.length)
    && Below(Symbolic(done, adds), source.length)
    && WellFormed(now) && NoNewTargetCopy(done, now.insts)
    && Symbolic(now.insts, now.adds) == Compose(Symbolic(done, adds), Symbolic(source.insts, source.adds))
  }

  /** What one accepted instruction of the input adds to the merged file. */
  function StepOrigins(i: Inst, adds: seq<byte>, o: seq<Origin>, first: seq<Origin>): seq<Origin>
    requires InstOk(i, |adds|, |o|) && Accepts(i, |first|) && InRange(i, |first|)
  {
    if i.kind != Cpy then o + Direct(i, adds, 0, i.size)
    else if i.mode == Here then CopyForward(o, i.addr, i.size)
    else o + first[i.addr..i.addr + i.size]
  }

  lemma ComposeExec(i: Inst, adds: seq<byte>, o: seq<Origin>, first: seq<Origin>)
    requires Below(o, |first|)
    requires InstOk(i, |adds|, |o|) && Accepts(i, |first|) && InRange(i, |first|)
    ensures Below(ExecSymbolic(i, adds, o), |first|)
    ensures Compose(ExecSymbolic(i, adds, o), first) == StepOrigins(i, adds, Compose(o, first), first)
  {
    if i.kind == Cpy && i.mode == Here {
      CopyForwardCompose(o, first, i.addr, i.size);
    }
  }

  /** One accepted instruction of the input, seen through the composition. */
  lemma ComposeStep(now: Whole, done: seq<Inst>, i: Inst, adds: seq<byte>, source: Whole, next: Whole)
    requires WellFormed(source) && Composed(now, done, adds, source)
    requires InstOk(i, |adds|, End(done)) && Accepts(i, source.length) && InRange(i, source.length)
    requires WellFormed(next) && NoNewTargetCopy(now.insts + [i], next.insts)
    requires Symbolic(next.insts, next.adds)
          == StepOrigins(i, adds, Symbolic(now.insts, now.adds), Symbolic(source.insts, source.adds))
    ensures Composed(next, done + [i], adds, source)
  {
    SymbolicAppend(done, i, adds);
    ComposeExec(i, adds, Symbolic(done, adds), Symbolic(source.insts, source.adds));
  }

  lemma ComposedNothing(now: Whole, adds: seq<byte>, source: Whole)
    requires WellFormed(source) && now.insts == [] && now.length == 0
    ensures Composed(now, [], adds, source)
  {
  }

  lemma MergesNothing(now: Whole, adds: seq<byte>, source: Whole)
    requires WellFormed(source) && now.insts == [] && now.length == 0
    ensures Composed(now, [], adds, source) && NoneEmpty(now.insts)
    ensures InputOk([], |adds|) && Outcome([], source.length) == Ok && MergedAll(now, [], adds, source) == now
  {
    ComposedNothing(now, adds, source);
  }

  lemma ComposedAll(now: Whole, input: Whole, source: Whole)
    requires WellFormed(source) && input.length == End(input.insts)
    requires Composed(now, input.insts, input.adds, source)
    ensures IsComposition(now, input, source)
  {
  }

  lemma {:induction false} InputPrefix(insts: seq<Inst>, addsLen: nat, n: nat)
    requires InputOk(insts, addsLen) && n < |insts|
    ensures InputOk(insts[..n + 1], addsLen)
    decreases |insts|
  {
    if n + 1 < |insts| {
      InputPrefix(insts[..|insts| - 1], addsLen, n);
      assert insts[..|insts| - 1][..n + 1] == insts[..n + 1];
    } else {
      assert insts[..n + 1] == insts;
    }
  }

  lemma OwnData(adds: seq<byte>, data: seq<byte>)
    ensures (adds + data)[|adds|..|adds| + |data|] == data && (data != [] ==> (adds + data)[|adds|] == data[0])
  {
  }

  /** Two instructions that name the same bytes, possibly in different buffers. */
  lemma Relocated(i: Inst, adds: seq<byte>, offset: nat, j: Inst, adds': seq<byte>)
    requires InstOk(i, |adds|, i.position) && InstOk(j, |adds'|, j.position)
    requires i.kind == j.kind && i.mode == j.mode && !(i.kind == Cpy && i.mode == Here)
    requires offset + j.size <= i.size
    requires i.kind == Run ==> adds[i.addr] == adds'[j.addr]
    requires i.kind == Add ==> adds[i.addr + offset..i.addr + offset + j.size] == adds'[j.addr..j.addr + j.size]
    requires i.kind == Cpy ==> j.addr == i.addr + offset
    ensures Direct(i, adds, offset, j.size) == Direct(j, adds', 0, j.size)
  {
    forall k | 0 <= k < j.size
      ensures DirectAt(i, adds, offset + k) == DirectAt(j, adds', k)
    {
      if i.kind == Add {
        assert adds[i.addr + offset..i.addr + offset + j.size][k] == adds'[j.addr..j.addr + j.size][k];
      }
    }
  }

  // --------------------------------------- what the merge makes, one by one

  /** The instruction that wrote a byte. */
  function Holder(insts: seq<Inst>, addr: nat): nat
    decreases |insts|
  {
    if insts == [] then 0
    else
      var n, i := |insts| - 1, insts[|insts| - 1];
      if i.position <= addr < i.position + i.size then n else Holder(insts[..n], addr)
  }

  lemma {:induction false} HolderIs(insts: seq<Inst>, addsLen: nat, addr: nat, num: nat)
    requires InstsOk(insts, addsLen) && num < |insts|
    requires insts[num].position <= addr < insts[num].position + insts[num].size
    ensures Holder(insts, addr) == num
    decreases |insts|
  {
    var n := |insts| - 1;
    if num < n {
      PrefixOk(insts, addsLen, num + 1);
      PrefixOk(insts, addsLen, n);
      Positions(insts, addsLen, num + 1, n);
      assert End(insts[..num + 1]) == insts[num].position + insts[num].size;
      HolderIs(insts[..n], addsLen, addr, num);
    }
  }

  /** `take` bytes of an instruction that does not read the target, as an instruction of
      its own. */
  function Part(i: Inst, addsLen: nat, offset: nat, take: nat, position: nat): Inst {
    if i.kind == Cpy then Inst(Cpy, i.mode, take, i.addr + offset, position)
    else Inst(i.kind, Here, take, addsLen, position)
  }

  /** The data it owns. */
  function PartData(i: Inst, adds: seq<byte>, offset: nat, take: nat): seq<byte>
    requires InstOk(i, |adds|, i.position) && offset + take <= i.size
  {
    match i.kind
    case Run => [adds[i.addr]]
    case Add => adds[i.addr + offset..i.addr + offset + take]
    case Cpy => []
  }

  function Moved(now: Whole, i: Inst, adds: seq<byte>, offset: nat, take: nat, position: nat): Whole
    requires InstOk(i, |adds|, i.position) && offset + take <= i.size
  {
    now.(insts := now.insts + [Part(i, |now.adds|, offset, take, position)],
         adds := now.adds + PartData(i, adds, offset, take))
  }

  /** A part names the same bytes. */
  lemma PartSame(i: Inst, adds: seq<byte>, offset: nat, take: nat, now: seq<byte>, position: nat)
    requires InstOk(i, |adds|, i.position) && !IsTargetCopy(i) && offset + take <= i.size
    ensures var j, data := Part(i, |now|, offset, take, position), PartData(i, adds, offset, take);
      InstOk(j, |now| + |data|, position) && Direct(i, adds, offset, take) == Direct(j, now + data, 0, take)
  {
    hide Direct;
    var j, data := Part(i, |now|, offset, take, position), PartData(i, adds, offset, take);
    OwnData(now, data);
    Relocated(i, adds, offset, j, now + data);
  }

  lemma PieceFits(source: Whole, num: nat)
    requires WellFormed(source) && num < |source.insts|
    ensures var i := source.insts[num];
      InstOk(i, |source.adds|, i.position) && i.position + i.size <= source.length
  {
    hide InstsOk;
    PrefixOk(source.insts, |source.adds|, num);
    Positions(source.insts, |source.adds|, num + 1, |source.insts|);
    assert source.insts[..|source.insts|] == source.insts;
    assert End(source.insts[..num + 1]) == source.insts[num].position + source.insts[num].size;
  }

  /** A range of the first output, as instructions on the original source. */
  function Copied(now: Whole, source: Whole, addr: nat, size: nat, position: nat): Whole
    requires WellFormed(source) && addr + size <= source.length
    decreases addr + size, 2, 0
  {
    if size == 0 then now else CopiedFrom(now, source, Holder(source.insts, addr), addr, size, position)
  }

  /** The same, when it starts in instruction `num`. */
  function CopiedFrom(now: Whole, source: Whole, num: nat, addr: nat, size: nat, position: nat): Whole
    requires WellFormed(source) && addr + size <= source.length
    decreases addr + size, 1, |source.insts| - num
  {
    if size == 0 || num >= |source.insts| || !AtInst(source.insts, num, addr) then now
    else
      var i := source.insts[num];
      var offset := addr - i.position;
      var take := Min(size, i.size - offset);
      CopiedFrom(CopiedPiece(now, source, num, offset, take, position),
                 source, num + 1, addr + take, size - take, position + take)
  }

  function CopiedPiece(now: Whole, source: Whole, num: nat, offset: nat, take: nat, position: nat): Whole
    requires WellFormed(source) && num < |source.insts| && offset + take <= source.insts[num].size
    decreases source.insts[num].position + offset + take, 0, 0
  {
    PieceFits(source, num);
    var i := source.insts[num];
    if i.kind == Cpy && i.mode == Here then Copied(now, source, i.addr + offset, take, position)
    else Moved(now, i, source.adds, offset, take, position)
  }

  /** One instruction of the input. */
  function MergedOne(now: Whole, i: Inst, adds: seq<byte>, source: Whole): Whole
    requires WellFormed(source) && InstOk(i, |adds|, i.position) && Verdict(i, source.length) == Ok
  {
    var next :=
      if i.kind != Cpy then Moved(now, i, adds, 0, i.size, now.length)
      else if i.mode == Here then now.(insts := now.insts + [i])
      else Copied(now, source, i.addr, i.size, i.position);
    next.(length := now.length + i.size)
  }

  function MergedAll(now: Whole, insts: seq<Inst>, adds: seq<byte>, source: Whole): Whole
    requires WellFormed(source) && InputOk(insts, |adds|) && Outcome(insts, source.length) == Ok
    decreases |insts|
  {
    if insts == [] then now
    else
      var n := |insts| - 1;
      MergedOne(MergedAll(now, insts[..n], adds, source), insts[n], adds, source)
  }

  /** The next instruction of the input. */
  lemma InputNext(insts: seq<Inst>, addsLen: nat, n: nat, len: nat)
    requires InputOk(insts, addsLen) && n < |insts|
    ensures InputOk(insts[..n], addsLen) && InputOk(insts[..n + 1], addsLen)
    ensures insts[..n + 1] == insts[..n] + [insts[n]]
    ensures (insts[n].kind == Cpy && insts[n].mode == Target) || InstOk(insts[n], addsLen, End(insts[..n]))
    ensures Outcome(insts[..n + 1], len) ==
      if Outcome(insts[..n], len) != Ok then Outcome(insts[..n], len) else Verdict(insts[n], len)
  {
    InputPrefix(insts, addsLen, n);
    assert insts[..n + 1][..n] == insts[..n];
  }

  lemma MergedNext(now: Whole, insts: seq<Inst>, adds: seq<byte>, source: Whole, n: nat)
    requires WellFormed(source) && n < |insts| && InputOk(insts[..n], |adds|) && InputOk(insts[..n + 1], |adds|)
    requires Outcome(insts[..n], source.length) == Ok == Outcome(insts[..n + 1], source.length)
    requires InstOk(insts[n], |adds|, insts[n].position) && Verdict(insts[n], source.length) == Ok
    ensures MergedAll(now, insts[..n + 1], adds, source)
         == MergedOne(MergedAll(now, insts[..n], adds, source), insts[n], adds, source)
  {
    hide MergedOne, InputOk, Outcome;
    assert insts[..n + 1][..n] == insts[..n];
  }

  /** The program that merging makes of two deltas. */
  function Merged(input: Whole, source: Whole): Whole
    requires WellFormed(source) && InputOk(input.insts, |input.adds|) && Outcome(input.insts, source.length) == Ok
  {
    MergedAll(Whole([], [], input.wininfo, 0), input.insts, input.adds, source)
  }

  /** The flattened state of a stream (`xd3_whole_state`). */
  class WholeState {
    var adds: seq<byte>
    var inst: seq<Inst>
    var wininfo: seq<WinInfo>
    var length: nat

    /** xd3_whole_state_init */
    constructor ()
      ensures adds == [] && inst == [] && wininfo == [] && length == 0
    {
      adds, inst, wininfo, length := [], [], [], 0;
    }

    function Value(): Whole reads this {
      Whole(inst, adds, wininfo, length)
    }

    ghost function Origins(): seq<Origin>
      requires InstsOk(inst, |adds|)
      reads this
    {
      Symbolic(inst, adds)
    }

    /** xd3_swap_whole_state */
    method Swap(that: WholeState)
      modifies this, that
      ensures Value() == old(that.Value()) && that.Value() == old(Value())
    {
      adds, that.adds := that.adds, adds;
      inst, that.inst := that.inst, inst;
      wininfo, that.wininfo := that.wininfo, wininfo;
      length, that.length := that.length, length;
    }

    /** xd3_merge_run */
    method MergeRun(target: WholeState, iinst: Inst)
      requires target != this
      requires InstsOk(inst, |adds|) && End(inst) == length == iinst.position
      requires iinst.kind == Run && InstOk(iinst, |target.adds|, iinst.position)
      modifies this
      ensures length == old(length) + iinst.size
      ensures iinst.size > 0 ==> NoNewEmpty(old(inst), inst)
      ensures Value() == Moved(old(Value()), iinst, target.adds, 0, iinst.size, old(length)).(length := length)
      ensures Appended(old(Value()), Value(), Direct(iinst, target.adds, 0, iinst.size))
    {
      hide Direct;
      PartSame(iinst, target.adds, 0, iinst.size, adds, length);
      var oinst := Inst(iinst.kind, iinst.mode, iinst.size, |adds|, length);
      length := length + iinst.size;
      Emit(oinst, [target.adds[iinst.addr]]);
    }

    /** xd3_merge_add */
    method MergeAdd(target: WholeState, iinst: Inst)
      requires target != this
      requires InstsOk(inst, |adds|) && End(inst) == length == iinst.position
      requires iinst.kind == Add && InstOk(iinst, |target.adds|, iinst.position)
      modifies this
      ensures length == old(length) + iinst.size
      ensures iinst.size > 0 ==> NoNewEmpty(old(inst), inst)
      ensures Value() == Moved(old(Value()), iinst, target.adds, 0, iinst.size, old(length)).(length := length)
      ensures Appended(old(Value()), Value(), Direct(iinst, target.adds, 0, iinst.size))
    {
      hide Direct;
      PartSame(iinst, target.adds, 0, iinst.size, adds, length);
      var oinst := Inst(iinst.kind, iinst.mode, iinst.size, |adds|, length);
      length := length + iinst.size;
      Emit(oinst, target.adds[iinst.addr..iinst.addr + iinst.size]);
    }

    /** xd3_merge_target_copy; the caller moves `length`. */
    method MergeTargetCopy(iinst: Inst)
      requires InstsOk(inst, |adds|) && End(inst) == length == iinst.position
      requires iinst.kind == Cpy && iinst.mode == Here && iinst.addr < length
      modifies this`inst
      ensures InstsOk(inst, |adds|) && inst == old(inst) + [iinst]
      ensures Origins() == CopyForward(old(Origins()), iinst.addr, iinst.size)
    {
      SymbolicAppend(inst, iinst, adds);
      inst := inst + [iinst];
    }

    /** xd3_merge_find_position: binary search for the instruction that wrote a
        byte.  Empty instructions never match. */
    method FindPosition(address: nat) returns (r: Status, instNum: nat)
      requires InstsOk(inst, |adds|) && length == End(inst)
      ensures r == if address < length then Ok else InvalidInput
      ensures r == Ok ==> instNum < |inst|
      ensures r == Ok ==> inst[instNum].position <= address < inst[instNum].position + inst[instNum].size
    {
      if address >= length {
        return InvalidInput, 0;
      }
      assert inst[..|inst|] == inst;
      r, instNum := Internal, 0;
      var low, high := 0, |inst|;
      while low != high
        invariant low <= high <= |inst|
        invariant End(inst[..low]) <= address < End(inst[..high])
        decreases high - low
      {
        var mid := low + (high - low) / 2;
        var midLpos := inst[mid].position;
        PrefixOk(inst, |adds|, mid);
        if address < midLpos {
          high := mid;
          continue;
        }
        var midHpos := midLpos + inst[mid].size;
        assert End(inst[..mid + 1]) == midHpos;
        if address >= midHpos {
          low := mid + 1;
          continue;
        }
        return Ok, mid;
      }
      assert false;
    }

    /** xd3_merge_source_copy: rewrites one copy from the first output into
        instructions on the original source.  Target copies of the first delta are
        chased recursively; each chase ends strictly lower in the first output,
        which is why it stops. */
    method MergeSourceCopy(source: WholeState, iinstOrig: Inst) returns (r: Status)
      requires source != this && WellFormed(source.Value())
      requires InstsOk(inst, |adds|) && End(inst) == iinstOrig.position
      requires iinstOrig.kind == Cpy && iinstOrig.mode == Source
      modifies this`inst, this`adds
      ensures r == Verdict(iinstOrig, source.length)
      ensures r == Ok ==> Appended(old(Value()), Value(),
          source.Origins()[iinstOrig.addr..iinstOrig.addr + iinstOrig.size])
      ensures r == Ok ==>
        Value() == Copied(old(Value()), source.Value(), iinstOrig.addr, iinstOrig.size, iinstOrig.position)
      ensures NoneEmpty(source.inst) ==> NoNewEmpty(old(inst), inst)
      decreases iinstOrig.addr + iinstOrig.size
    {
      hide Symbolic, InstsOk, Appended, Holder, CopiedPiece, NoNewEmpty, NoneEmpty;
      ghost var whole, fits := source.Value(), iinstOrig.addr + iinstOrig.size <= source.length;
      NothingNew(inst);
      var iinst := iinstOrig;
      var sinstNum: nat;
      r, sinstNum := source.FindPosition(iinst.addr);
      if r != Ok {
        return;
      }
      ghost var was := Value();
      ghost var from := source.Origins();
      AppendedNothing(was, from[iinstOrig.addr..iinst.addr]);
      assert Appended(was, Value(), from[iinstOrig.addr..iinst.addr]);
      HolderIs(source.inst, |source.adds|, iinst.addr, sinstNum);
      while iinst.size > 0 && r == Ok
        invariant r == Ok || (r == Overrun && iinst.size > 0 && iinst.addr == source.length)
        invariant iinst.kind == Cpy && iinst.mode == Source
        invariant iinst.addr + iinst.size == iinstOrig.addr + iinstOrig.size
            && iinstOrig.addr <= iinst.addr <= source.length
        invariant InstsOk(inst, |adds|) && iinst.position == End(inst)
        invariant iinst.size > 0 ==> Reached(source.inst, sinstNum, iinst.addr)
        invariant NoneEmpty(source.inst) ==> NoNewEmpty(old(inst), inst)
        invariant Appended(was, Value(), from[iinstOrig.addr..iinst.addr])
        invariant fits && r == Ok ==>
          CopiedFrom(Value(), whole, sinstNum, iinst.addr, iinst.size, iinst.position)
          == Copied(was, whole, iinstOrig.addr, iinstOrig.size, iinstOrig.position)
        invariant length == old(length)
        decreases r == Ok, |source.inst| - sinstNum
      {
        if sinstNum >= |source.inst| {
          r := Overrun;
          break;
        }
        var sinst := source.inst[sinstNum];
        var sinstOffset := iinst.addr - sinst.position;
        var sinstLeft := sinst.size - sinstOffset;
        var thisTake := Min(iinst.size, sinstLeft);
        NextInst(source.inst, |source.adds|, sinstNum, iinst.addr, iinst.size);
        ghost var had := inst;
        r := MergePiece(source, iinst, sinstNum, sinstOffset, thisTake, was, iinstOrig.addr);
        if NoneEmpty(source.inst) {
          SomeLeft(source.inst, sinstNum);
          NewTwice(old(inst), had, inst);
        }
        iinst := iinst.(position := iinst.position + thisTake,
                        addr := iinst.addr + thisTake,
                        size := iinst.size - thisTake);
        sinstNum := sinstNum + 1;
      }
    }

    /** One round of the loop of xd3_merge_source_copy. */
    method MergePiece(source: WholeState, iinst: Inst, sinstNum: nat, sinstOffset: nat, thisTake: nat,
                      ghost was: Whole, ghost start: nat)
      returns (r: Status)
      requires source != this && WellFormed(source.Value())
      requires InstsOk(inst, |adds|) && End(inst) == iinst.position
      requires iinst.kind == Cpy && iinst.mode == Source
      requires sinstNum < |source.inst|
      requires var s := source.inst[sinstNum];
        iinst.addr == s.position + sinstOffset && sinstOffset + thisTake <= s.size && thisTake <= iinst.size
      requires start <= iinst.addr <= source.length && Appended(was, Value(), source.Origins()[start..iinst.addr])
      modifies this`inst, this`adds
      ensures r == Ok
      ensures iinst.addr + thisTake <= source.length
      ensures InstsOk(inst, |adds|) && End(inst) == iinst.position + thisTake
      ensures Appended(was, Value(), source.Origins()[start..iinst.addr + thisTake])
      ensures Value() == CopiedPiece(old(Value()), source.Value(), sinstNum, sinstOffset, thisTake, iinst.position)
      ensures NoneEmpty(source.inst) && thisTake > 0 ==> NoNewEmpty(old(inst), inst)
      decreases iinst.addr + thisTake, 0
    {
      hide Symbolic, InstsOk, Appended, Copied, CopiedFrom, Moved, NoNewEmpty, NoneEmpty;
      NothingNew(inst);
      var sinst := source.inst[sinstNum];
      SourcePiece(source.Value(), sinstNum, sinstOffset, thisTake);
      ghost var before, o := Value(), source.Origins();
      if sinst.kind == Cpy && sinst.mode == Here {
        var tinst := Inst(Cpy, iinst.mode, thisTake, sinst.addr + sinstOffset, iinst.position);
        r := MergeSourceCopy(source, tinst);
      } else {
        MergeDirect(source, sinst, sinstOffset, thisTake, iinst.position);
        r := Ok;
      }
      PieceDone(was, before, Value(), o, start, iinst.addr, iinst.addr + thisTake);
    }

    /** The cases of xd3_merge_source_copy that end the chase: literal bytes are
        copied over, a copy from the original source is shortened. */
    method MergeDirect(source: WholeState, sinst: Inst, sinstOffset: nat, thisTake: nat, position: nat)
      requires source != this && InstOk(sinst, |source.adds|, sinst.position)
      requires InstsOk(inst, |adds|) && End(inst) == position
      requires !(sinst.kind == Cpy && sinst.mode == Here) && sinstOffset + thisTake <= sinst.size
      modifies this`inst, this`adds
      ensures Appended(old(Value()), Value(), Direct(sinst, source.adds, sinstOffset, thisTake))
      ensures Value() == Moved(old(Value()), sinst, source.adds, sinstOffset, thisTake, position)
      ensures thisTake > 0 ==> NoNewEmpty(old(inst), inst)
    {
      hide Direct, InstsOk, Symbolic;
      PartSame(sinst, source.adds, sinstOffset, thisTake, adds, position);
      var minst := Inst(sinst.kind, Here, thisTake, |adds|, position);
      var data := [];
      match sinst.kind {
        case Run => data := [source.adds[sinst.addr]];
        case Add => data := source.adds[sinst.addr + sinstOffset..sinst.addr + sinstOffset + thisTake];
        case Cpy => minst := minst.(mode := sinst.mode, addr := sinst.addr + sinstOffset);
      }
      Emit(minst, data);
    }

    /** Allocates an instruction and the literal bytes it owns. */
    method Emit(minst: Inst, data: seq<byte>)
      requires InstsOk(inst, |adds|) && InstOk(minst, |adds| + |data|, End(inst))
      requires minst.kind == Cpy ==> minst.mode == Source
      modifies this`inst, this`adds
      ensures Appended(old(Value()), Value(), Direct(minst, old(adds) + data, 0, minst.size))
      ensures inst == old(inst) + [minst] && adds == old(adds) + data
      ensures minst.size > 0 ==> NoNewEmpty(old(inst), inst)
    {
      AddsExtend(inst, adds, data);
      SymbolicAppend(inst, minst, adds + data);
      inst := inst + [minst];
      adds := adds + data;
    }

    /** The body of the instruction loop of xd3_merge_inputs. */
    method MergeOne(source: WholeState, input: WholeState, iinst: Inst, ghost done: seq<Inst>) returns (r: Status)
      requires this != source && this != input
      requires WellFormed(source.Value()) && Composed(Value(), done, input.adds, source.Value())
      requires (iinst.kind == Cpy && iinst.mode == Target) || InstOk(iinst, |input.adds|, End(done))
      modifies this
      ensures r == Verdict(iinst, source.length)
      ensures r == Ok ==> Composed(Value(), done + [iinst], input.adds, source.Value())
      ensures r == Ok ==> InstOk(iinst, |input.adds|, iinst.position)
      ensures r == Ok ==> Value() == MergedOne(old(Value()), iinst, input.adds, source.Value())
      ensures NoneEmpty(source.inst) && NoneEmpty(old(inst)) && iinst.size > 0 ==> NoneEmpty(inst)
      ensures wininfo == old(wininfo)
    {
      hide InstsOk, Symbolic, CopyForward, Copied, Moved;
      ghost var was := Value();
      r := Ok;
      match iinst.kind {
        case Run => MergeRun(input, iinst);
        case Add => MergeAdd(input, iinst);
        case Cpy =>
          if iinst.mode == Here {
            MergeTargetCopy(iinst);
          } else if iinst.mode == Target {
            r := InvalidInput;
          } else {
            r := MergeSourceCopy(source, iinst);
          }
          length := length + iinst.size;
      }
      if r == Ok {
        ComposeStep(was, done, iinst, input.adds, source.Value(), Value());
      }
    }

    /** xd3_merge_inputs: this empty state becomes `input` applied to `source`.
        It fails at the first instruction that cannot be merged. */
    method MergeInputs(source: WholeState, input: WholeState) returns (r: Status)
      requires this != source && this != input
      requires inst == [] && adds == [] && length == 0
      requires WellFormed(source.Value())
      requires InputOk(input.inst, |input.adds|) && input.length == End(input.inst)
      modifies this
      ensures r == Outcome(input.inst, source.length)
      ensures r == Ok ==> IsComposition(Value(), input.Value(), source.Value())
      ensures r == Ok ==> wininfo == old(wininfo) + input.wininfo
      ensures r == Ok ==>
        Value() == MergedAll(Whole([], [], old(wininfo) + input.wininfo, 0), input.inst, input.adds, source.Value())
      ensures NoneEmpty(source.inst) && NoneEmpty(input.inst) ==> NoneEmpty(inst)
    {
      hide Composed, IsComposition, WellFormed, Symbolic, MergedOne, MergedAll, InputOk, Outcome, Verdict, NoneEmpty;
      assert source.Value() == old(source.Value()) && WellFormed(source.Value());
      var i := 0;
      while i < |input.wininfo|
        invariant i <= |input.wininfo|
        invariant wininfo == old(wininfo) + input.wininfo[..i]
        invariant inst == [] && adds == [] && length == 0
      {
        wininfo := wininfo + [input.wininfo[i]];
        i := i + 1;
      }
      r := Ok;
      MergesNothing(Value(), input.adds, source.Value());
      ghost var start, whole := Value(), source.Value();
      assert input.inst[..0] == [];
      var inputI := 0;
      while r == Ok && inputI < |input.inst|
        invariant inputI <= |input.inst|
        invariant wininfo == old(wininfo) + input.wininfo
        invariant r == Outcome(input.inst[..inputI], source.length)
        invariant NoneEmpty(source.inst) && NoneEmpty(input.inst) ==> NoneEmpty(inst)
        invariant r == Ok ==> Composed(Value(), input.inst[..inputI], input.adds, source.Value())
        invariant InputOk(input.inst[..inputI], |input.adds|)
        invariant r == Ok ==> Value() == MergedAll(start, input.inst[..inputI], input.adds, whole)
        decreases |input.inst| - inputI
      {
        var iinst := input.inst[inputI];
        InputNext(input.inst, |input.adds|, inputI, source.length);
        if NoneEmpty(input.inst) {
          SomeLeft(input.inst, inputI);
        }
        r := MergeOne(source, input, iinst, input.inst[..inputI]);
        if r == Ok {
          MergedNext(start, input.inst, input.adds, whole, inputI);
        }
        inputI := inputI + 1;
      }
      OutcomeStays(input.inst, inputI, source.length);
      assert input.inst[..|input.inst|] == input.inst;
      if r == Ok {
        ComposedAll(Value(), input.Value(), source.Value());
      }
    }

    /** xd3_merge_input_output: applies this delta to `source` and keeps the result
        here; on an error nothing changes. */
    method MergeInputOutput(source: WholeState) returns (r: Status)
      requires this != source
      requires WellFormed(source.Value())
      requires InputOk(inst, |adds|) && length == End(inst)
      modifies this
      ensures r == Outcome(old(inst), source.length)
      ensures r == Ok ==> IsComposition(Value(), old(Value()), source.Value()) && wininfo == old(wininfo)
      ensures r == Ok ==> Value() == Merged(old(Value()), source.Value())
      ensures NoneEmpty(source.inst) && NoneEmpty(old(inst)) ==> NoneEmpty(inst)
      ensures r != Ok ==> Value() == old(Value())
    {
      hide MergedAll, InstsOk, Symbolic;
      var tmp := new WholeState();
      assert [] + wininfo == wininfo;
      r := tmp.MergeInputs(source, this);
      if r == Ok {
        Swap(tmp);
      }
    }
  }

  /** Part of one instruction of the first delta: where its bytes lie in the first
      output, and, for a target copy, that it reads strictly below itself. */
  lemma SourcePiece(d: Whole, num: nat, offset: nat, take: nat)
    requires WellFormed(d) && num < |d.insts| && offset + take <= d.insts[num].size
    ensures var i, o := d.insts[num], Symbolic(d.insts, d.adds);
      && InstOk(i, |d.adds|, i.position)
      && i.position + i.size <= |o| == d.length
      && o[i.position + offset..i.position + offset + take]
         == if i.kind == Cpy && i.mode == Here then o[i.addr + offset..i.addr + offset + take]
            else Direct(i, d.adds, offset, take)
  {
    hide InstsOk, Symbolic;
    var i, o := d.insts[num], Symbolic(d.insts, d.adds);
    PrefixOk(d.insts, |d.adds|, num);
    Positions(d.insts, |d.adds|, num + 1, |d.insts|);
    assert d.insts[..|d.insts|] == d.insts;
    assert End(d.insts[..num + 1]) == i.position + i.size;
    forall k | offset <= k < offset + take
      ensures o[i.position + k] == OriginAt(i, d.adds, o, k)
    {
      SymbolicAt(d.insts, d.adds, num, k);
    }
    SameSlice(i, d.adds, o, offset, take);
  }

  lemma SameSlice(i: Inst, adds: seq<byte>, o: seq<Origin>, offset: nat, take: nat)
    requires InstOk(i, |adds|, i.position) && i.position + i.size <= |o| && offset + take <= i.size
    requires forall k {:trigger OriginAt(i, adds, o, k)} | offset <= k < offset + take ::
        o[i.position + k] == OriginAt(i, adds, o, k)
    ensures o[i.position + offset..i.position + offset + take]
         == if i.kind == Cpy && i.mode == Here then o[i.addr + offset..i.addr + offset + take]
            else Direct(i, adds, offset, take)
  {
    var piece := o[i.position + offset..i.position + offset + take];
    forall j | 0 <= j < take
      ensures piece[j] == OriginAt(i, adds, o, offset + j)
    {
      assert piece[j] == o[i.position + (offset + j)];
    }
  }

  /** `num` is the instruction whose bytes start at or contain `addr`. */
  predicate AtInst(insts: seq<Inst>, num: nat, addr: nat) {
    && num < |insts| && insts[num].position <= addr <= insts[num].position + insts[num].size
    && (insts[num].size > 0 ==> addr < insts[num].position + insts[num].size)
  }

  /** Or there is none left. */
  predicate Reached(insts: seq<Inst>, num: nat, addr: nat) {
    AtInst(insts, num, addr) || (num == |insts| && addr == End(insts))
  }

  lemma NextInst(insts: seq<Inst>, addsLen: nat, num: nat, addr: nat, size: nat)
    requires InstsOk(insts, addsLen) && AtInst(insts, num, addr)
    ensures var take := Min(size, insts[num].position + insts[num].size - addr);
      size > take ==> Reached(insts, num + 1, addr + take)
  {
    Positions(insts, addsLen, num + 1, |insts|);
    assert insts[..|insts|] == insts;
    PrefixOk(insts, addsLen, num);
    PrefixOk(insts, addsLen, num + 1);
    assert End(insts[..num + 1]) == insts[num].position + insts[num].size;
  }

  // ------------------------------------------------------ the -m chain

  /** Each delta of the chain is parsed input. */
  ghost predicate ChainOk(files: seq<Whole>)
    decreases |files|
  {
    |files| > 0 &&
    if |files| == 1 then WellFormed(files[0])
    else
      var n := |files| - 1;
      && ChainOk(files[..n])
      && InputOk(files[n].insts, |files[n].adds|) && files[n].length == End(files[n].insts)
  }

  /** Every delta reads only what the one before it writes. */
  ghost predicate ChainAccepted(files: seq<Whole>) {
    forall i | 1 <= i < |files| :: Follows(files[i], files[i - 1])
  }

  predicate Follows(next: Whole, first: Whole) {
    AllAccepted(next.insts, first.length) && AllInRange(next.insts, first.length)
  }

  /** What becomes of a chain: the first delta that cannot be merged decides. */
  function ChainOutcome(files: seq<Whole>): Status
    decreases |files|
  {
    if |files| <= 1 then Ok
    else
      var n := |files| - 1;
      var s := ChainOutcome(files[..n]);
      if s != Ok then s else Outcome(files[n].insts, files[n - 1].length)
  }

  lemma {:induction false} ChainOutcomeOk(files: seq<Whole>)
    ensures ChainOutcome(files) == Ok <==> ChainAccepted(files)
    decreases |files|
  {
    if |files| > 1 {
      var n := |files| - 1;
      ChainOutcomeOk(files[..n]);
      OutcomeOk(files[n].insts, files[n - 1].length);
      ChainLast(files);
    }
  }

  lemma ChainLast(files: seq<Whole>)
    requires |files| > 1
    ensures var n := |files| - 1;
      ChainAccepted(files) <==>
        ChainAccepted(files[..n]) && Follows(files[n], files[n - 1])
  {
    var n := |files| - 1;
    var front := files[..n];
    forall i | 0 <= i < n ensures front[i] == files[i] {
    }
  }

  lemma {:induction false} ChainStays(files: seq<Whole>, k: nat)
    requires k <= |files|
    ensures files[..|files|] == files
    ensures ChainOutcome(files[..k]) != Ok || k == |files| ==> ChainOutcome(files) == ChainOutcome(files[..k])
    decreases |files|
  {
    var m := |files| - 1;
    if k <= m {
      assert files[..m][..k] == files[..k];
      ChainStays(files[..m], k);
    } else {
      assert files[..k] == files;
    }
  }

  /** Applying the deltas one after the other to the bytes of a source file. */
  ghost function ApplyInTurn(files: seq<Whole>, src: seq<byte>): (out: seq<byte>)
    requires ChainOk(files) && ChainAccepted(files) && Fits(files[0].insts, |src|)
    ensures |out| == files[|files| - 1].length
    decreases |files|
  {
    if |files| == 1 then Decode(files[0].insts, files[0].adds, src)
    else
      var n := |files| - 1;
      AcceptedIsWellFormed(files[n].insts, files[n].adds, files[n - 1].length);
      Decode(files[n].insts, files[n].adds, ApplyInTurn(files[..n], src))
  }

  /** `merged` does to every source what the chain `files` does to it. */
  ghost predicate MergesChain(merged: Whole, files: seq<Whole>)
    requires ChainOk(files) && ChainAccepted(files)
  {
    && WellFormed(merged) && merged.length == files[|files| - 1].length
    && forall src: seq<byte> | Fits(files[0].insts, |src|) ::
         Fits(merged.insts, |src|) && Decode(merged.insts, merged.adds, src) == ApplyInTurn(files, src)
  }

  predicate Mergeable(input: Whole, source: Whole) {
    WellFormed(source) && InputOk(input.insts, |input.adds|) && Outcome(input.insts, source.length) == Ok
  }

  /** The program the fold makes of a chain that can be merged. */
  function ChainMerged(files: seq<Whole>): Whole
    requires files != []
    decreases |files|
  {
    var n := |files| - 1;
    if n == 0 then files[0]
    else
      var source := ChainMerged(files[..n]);
      if Mergeable(files[n], source) then Merged(files[n], source) else source
  }

  /** Merging one more delta into a merged chain. */
  lemma ChainStep(next: Whole, merged: Whole, files: seq<Whole>)
    requires ChainOk(files) && ChainAccepted(files) && |files| > 1
    requires ChainAccepted(files[..|files| - 1])
    requires MergesChain(merged, files[..|files| - 1])
    requires IsComposition(next, files[|files| - 1], merged)
    ensures MergesChain(next, files)
  {
    var n := |files| - 1;
    forall src: seq<byte> | Fits(files[0].insts, |src|)
      ensures Fits(next.insts, |src|) && Decode(next.insts, next.adds, src) == ApplyInTurn(files, src)
    {
      CompositionDecodes(next, files[n], merged, src);
    }
  }

  lemma {:induction false} ChainPrefix(files: seq<Whole>, n: nat)
    requires ChainOk(files) && 1 <= n <= |files|
    ensures ChainOk(files[..n])
    decreases |files|
  {
    if n < |files| {
      ChainPrefix(files[..|files| - 1], n);
      assert files[..|files| - 1][..n] == files[..n];
    } else {
      assert files[..n] == files;
    }
  }

  predicate AllSolid(files: seq<Whole>) {
    forall i | 0 <= i < |files| :: NoneEmpty(files[i].insts)
  }

  /** main_merge_arguments, for deltas already flattened: the first one becomes the
      merge source, and every later one is merged with all before it. */
  method MergeArguments(files: seq<Whole>) returns (r: Status, mergeStream: WholeState?)
    requires files == [] || ChainOk(files)
    ensures mergeStream != null ==> fresh(mergeStream)
    ensures files == [] ==> r == Ok && mergeStream == null
    ensures r == ChainOutcome(files)
    ensures r == Ok <==> ChainAccepted(files)
    ensures files != [] && r == Ok ==> mergeStream != null && MergesChain(mergeStream.Value(), files)
    ensures files != [] && r == Ok ==> mergeStream.Value() == ChainMerged(files)
    ensures files != [] && r == Ok && AllSolid(files) ==> NoneEmpty(mergeStream.inst)
  {
    hide MergesChain, ChainOk, ChainMerged;
    r, mergeStream := Ok, null;
    if files == [] {
      return;
    }
    var mergeInput := new WholeState();
    var count := 0;
    while r == Ok && count < |files|
      invariant count <= |files| && (count == 0 ==> r == Ok)
      invariant r == ChainOutcome(files[..count])
      invariant r == Ok && count > 0 ==>
        ChainOk(files[..count]) && ChainAccepted(files[..count]) && MergesChain(mergeInput.Value(), files[..count])
      invariant r == Ok && count > 0 ==> mergeInput.Value() == ChainMerged(files[..count])
      invariant count > 0 && AllSolid(files) ==> NoneEmpty(mergeInput.inst)
      decreases |files| - count
    {
      var recode := new WholeState();
      recode.inst, recode.adds := files[count].insts, files[count].adds;
      recode.wininfo, recode.length := files[count].wininfo, files[count].length;
      ChainPrefix(files, count + 1);
      assert files[..count + 1][..count] == files[..count];
      if count == 0 {
        recode.Swap(mergeInput);
        FirstOfChain(files[0]);
        assert files[..1] == [files[0]];
      } else {
        r := MergeNext(recode, mergeInput, files[..count + 1]);
      }
      count := count + 1;
    }
    ChainStays(files, count);
    ChainOutcomeOk(files);
    mergeStream := mergeInput;
  }

  /** One later round of the loop of main_merge_arguments: the delta just read into
      `recode` is merged and handed over to `mergeInput`. */
  method MergeNext(recode: WholeState, mergeInput: WholeState, ghost files: seq<Whole>) returns (r: Status)
    requires recode != mergeInput
    requires |files| > 1 && ChainOk(files) && recode.Value() == files[|files| - 1]
    requires ChainAccepted(files[..|files| - 1])
    requires ChainOk(files[..|files| - 1]) && MergesChain(mergeInput.Value(), files[..|files| - 1])
    requires mergeInput.Value() == ChainMerged(files[..|files| - 1])
    modifies recode, mergeInput
    ensures r == ChainOutcome(files)
    ensures r == Ok ==> mergeInput.Value() == ChainMerged(files)
    ensures r == Ok ==> ChainAccepted(files) && MergesChain(mergeInput.Value(), files)
    ensures NoneEmpty(old(mergeInput.inst)) && NoneEmpty(old(recode.inst)) ==> NoneEmpty(mergeInput.inst)
  {
    hide InstsOk, Symbolic, Decode, Merged, InputOk, Outcome;
    ghost var merged, n := mergeInput.Value(), |files| - 1;
    r := recode.MergeInputOutput(mergeInput);
    ChainOutcomeOk(files);
    ChainOutcomeOk(files[..n]);
    if r == Ok {
      ChainStep(recode.Value(), merged, files);
    }
    recode.Swap(mergeInput);
  }

  lemma FirstOfChain(d: Whole)
    requires WellFormed(d)
    ensures MergesChain(d, [d]) && ChainMerged([d]) == d
  {
  }
}
