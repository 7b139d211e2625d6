/**
  The meaning of a whole-file delta (section 3 of RFC 3284 with addresses made
  absolute): a program of RUN, ADD and COPY instructions whose target copies may
  overlap the bytes they produce (section 6 of RFC 3284).

  Two semantics are given.  `Decode` runs a delta on the bytes of a source file.
  `Symbolic` runs it without any source and records, for every output byte, where
  that byte comes from.  The second one is what merging works on.
 */
module Delta {
  import opened Bytes

  datatype Kind = Run | Add | Cpy

  /** The copy mode: within the target produced so far (0 in the C code), from
      the source file, or from an earlier target window (never produced by
      xdelta3 itself, and rejected by the merge). */
  datatype Mode = Here | Source | Target

  datatype Inst = Inst(kind: Kind, mode: Mode, size: nat, addr: nat, position: nat)

  datatype WinInfo = WinInfo(offset: nat, length: nat, adler32: nat)

  /** The abstract value of an `xd3_whole_state`. */
  datatype Whole = Whole(insts: seq<Inst>, adds: seq<byte>, wininfo: seq<WinInfo>, length: nat)

  /** Where an output byte comes from: a literal, or an offset of the source. */
  datatype Origin = Lit(b: byte) | Src(at: nat)

  // ---------------------------------------------------------------- validity

  function End(insts: seq<Inst>): nat {
    if insts == [] then 0 else insts[|insts| - 1].position + insts[|insts| - 1].size
  }

  /** What the parser guarantees of an instruction that starts at `pos`.  A size of
      zero is legal; a target copy must start below its own position even then. */
  predicate InstOk(i: Inst, addsLen: nat, pos: nat) {
    && i.position == pos
    && match i.kind
       case Run => i.mode == Here && i.addr < addsLen
       case Add => i.mode == Here && i.addr + i.size <= addsLen
       case Cpy => i.mode == Source || (i.mode == Here && i.addr < pos)
  }

  predicate InstsOk(insts: seq<Inst>, addsLen: nat)
    decreases |insts|
  {
    insts == [] ||
    var n := |insts| - 1;
    InstsOk(insts[..n], addsLen) && InstOk(insts[n], addsLen, End(insts[..n]))
  }

  predicate WellFormed(d: Whole) {
    InstsOk(d.insts, |d.adds|) && d.length == End(d.insts)
  }

  /** Every non-empty source copy stays inside a source of `n` bytes. */
  predicate Fits(insts: seq<Inst>, n: nat) {
    forall i | 0 <= i < |insts| ::
      insts[i].kind == Cpy && insts[i].mode == Source && insts[i].size > 0 ==>
        insts[i].addr + insts[i].size <= n
  }

  // --------------------------------------------------------------- semantics

  /** The byte-by-byte copy of the decoder: a copy longer than its distance
      repeats what it has just written. */
  function CopyForward<T>(out: seq<T>, addr: nat, n: nat): (r: seq<T>)
    requires addr < |out|
    ensures |r| == |out| + n && out <= r
    ensures forall j | |out| <= j < |r| :: r[j] == r[j - |out| + addr]
    decreases n
  {
    if n == 0 then out else CopyForward(out + [out[addr]], addr + 1, n - 1)
  }

  function Exec(i: Inst, adds: seq<byte>, src: seq<byte>, out: seq<byte>): (r: seq<byte>)
    requires InstOk(i, |adds|, |out|)
    requires i.kind == Cpy && i.mode == Source && i.size > 0 ==> i.addr + i.size <= |src|
    ensures |r| == |out| + i.size
  {
    match i.kind
    case Run => out + seq(i.size, _ => adds[i.addr])
    case Add => out + adds[i.addr..i.addr + i.size]
    case Cpy =>
      if i.mode == Here then CopyForward(out, i.addr, i.size)
      else if i.size == 0 then out
      else out + src[i.addr..i.addr + i.size]
  }

  /** The target file: the program `insts` run from left to right on `src`. */
  function Decode(insts: seq<Inst>, adds: seq<byte>, src: seq<byte>): (out: seq<byte>)
    requires InstsOk(insts, |adds|) && Fits(insts, |src|)
    ensures |out| == End(insts)
    decreases |insts|
  {
    if insts == [] then []
    else
      var n := |insts| - 1;
      Exec(insts[n], adds, src, Decode(insts[..n], adds, src))
  }

  /** The origin of byte `k` of an instruction that does not read the target. */
  function DirectAt(i: Inst, adds: seq<byte>, k: nat): Origin
    requires k < i.size && InstOk(i, |adds|, i.position) && !(i.kind == Cpy && i.mode == Here)
  {
    match i.kind
    case Run => Lit(adds[i.addr])
    case Add => Lit(adds[i.addr + k])
    case Cpy => Src(i.addr + k)
  }

  /** `take` bytes of an instruction that does not read the target. */
  function Direct(i: Inst, adds: seq<byte>, offset: nat, take: nat): (o: seq<Origin>)
    requires InstOk(i, |adds|, i.position) && !(i.kind == Cpy && i.mode == Here)
    requires offset + take <= i.size
    ensures |o| == take
  {
    seq(take, k requires 0 <= k < take => DirectAt(i, adds, offset + k))
  }

  function ExecSymbolic(i: Inst, adds: seq<byte>, out: seq<Origin>): (r: seq<Origin>)
    requires InstOk(i, |adds|, |out|)
    ensures |r| == |out| + i.size && out <= r
  {
    if i.kind == Cpy && i.mode == Here then CopyForward(out, i.addr, i.size)
    else out + Direct(i, adds, 0, i.size)
  }

  /** The origin of every byte of the target file. */
  function Symbolic(insts: seq<Inst>, adds: seq<byte>): (out: seq<Origin>)
    requires InstsOk(insts, |adds|)
    ensures |out| == End(insts)
    decreases |insts|
  {
    if insts == [] then []
    else
      var n := |insts| - 1;
      ExecSymbolic(insts[n], adds, Symbolic(insts[..n], adds))
  }

  /** All source offsets named by `o` are below `n`. */
  predicate Below(o: seq<Origin>, n: nat) {
    forall i | 0 <= i < |o| && o[i].Src? :: o[i].at < n
  }

  function Eval(o: seq<Origin>, src: seq<byte>): (out: seq<byte>)
    requires Below(o, |src|)
    ensures |out| == |o|
  {
    seq(|o|, i requires 0 <= i < |o| => if o[i].Lit? then o[i].b else src[o[i].at])
  }

  /** Substitute the origins of the intermediate file into those of the target. */
  function Compose(second: seq<Origin>, first: seq<Origin>): (o: seq<Origin>)
    requires Below(second, |first|)
    ensures |o| == |second|
  {
    seq(|second|, i requires 0 <= i < |second| => if second[i].Lit? then second[i] else first[second[i].at])
  }

  // ------------------------------------------------- facts about programs

  lemma {:induction false} PrefixOk(insts: seq<Inst>, addsLen: nat, n: nat)
    requires InstsOk(insts, addsLen) && n <= |insts|
    ensures InstsOk(insts[..n], addsLen)
    ensures n < |insts| ==> InstOk(insts[n], addsLen, End(insts[..n]))
    decreases |insts|
  {
    if n < |insts| {
      var m := |insts| - 1;
      PrefixOk(insts[..m], addsLen, n);
      assert insts[..m][..n] == insts[..n];
    } else {
      assert insts[..n] == insts;
    }
  }

  lemma AppendOk(insts: seq<Inst>, i: Inst, addsLen: nat)
    requires InstsOk(insts, addsLen) && InstOk(i, addsLen, End(insts))
    ensures InstsOk(insts + [i], addsLen)
    ensures End(insts + [i]) == End(insts) + i.size
  {
    assert (insts + [i])[..|insts|] == insts;
  }

  /** Positions are contiguous and never decrease. */
  lemma {:induction false} Positions(insts: seq<Inst>, addsLen: nat, i: nat, j: nat)
    requires InstsOk(insts, addsLen) && i <= j <= |insts|
    ensures End(insts[..i]) <= End(insts[..j])
    decreases j
  {
    if i < j {
      PrefixOk(insts, addsLen, j - 1);
      assert End(insts[..j]) == insts[j - 1].position + insts[j - 1].size;
      Positions(insts, addsLen, i, j - 1);
    }
  }

  lemma SymbolicAppend(insts: seq<Inst>, i: Inst, adds: seq<byte>)
    requires InstsOk(insts, |adds|) && InstOk(i, |adds|, End(insts))
    ensures InstsOk(insts + [i], |adds|)
    ensures Symbolic(insts + [i], adds) == ExecSymbolic(i, adds, Symbolic(insts, adds))
  {
    AppendOk(insts, i, |adds|);
    assert (insts + [i])[..|insts|] == insts;
  }

  /** Literal data added at the end does not change a program that never uses it. */
  lemma {:induction false} AddsExtend(insts: seq<Inst>, adds: seq<byte>, more: seq<byte>)
    requires InstsOk(insts, |adds|)
    ensures InstsOk(insts, |adds + more|)
    ensures Symbolic(insts, adds + more) == Symbolic(insts, adds)
    decreases |insts|
  {
    hide InstOk, ExecSymbolic;
    if insts != [] {
      var n := |insts| - 1;
      AddsExtend(insts[..n], adds, more);
      ExecExtend(insts[n], adds, more, Symbolic(insts[..n], adds));
    }
  }

  lemma ExecExtend(i: Inst, adds: seq<byte>, more: seq<byte>, out: seq<Origin>)
    requires InstOk(i, |adds|, |out|)
    ensures InstOk(i, |adds + more|, |out|) && ExecSymbolic(i, adds + more, out) == ExecSymbolic(i, adds, out)
  {
    hide CopyForward;
  }

  /** The prefix of a program produces a prefix of the file. */
  lemma {:induction false} SymbolicPrefix(insts: seq<Inst>, adds: seq<byte>, n: nat)
    requires InstsOk(insts, |adds|) && n <= |insts|
    ensures InstsOk(insts[..n], |adds|)
    ensures Symbolic(insts[..n], adds) <= Symbolic(insts, adds)
    decreases |insts|
  {
    hide InstOk, CopyForward, Direct;
    PrefixOk(insts, |adds|, n);
    if n < |insts| {
      var m := |insts| - 1;
      SymbolicPrefix(insts[..m], adds, n);
      assert insts[..m][..n] == insts[..n];
    } else {
      assert insts[..n] == insts;
    }
  }

  /** What instruction `i` says about its `k`-th byte, for any file `o`. */
  function OriginAt(i: Inst, adds: seq<byte>, o: seq<Origin>, k: nat): Origin
    requires k < i.size && InstOk(i, |adds|, i.position) && i.position + i.size <= |o|
  {
    if i.kind == Cpy && i.mode == Here then o[i.addr + k] else DirectAt(i, adds, k)
  }

  lemma ExecSymbolicAt(i: Inst, adds: seq<byte>, out: seq<Origin>, k: nat)
    requires InstOk(i, |adds|, |out|) && k < i.size
    ensures var r := ExecSymbolic(i, adds, out); r[i.position + k] == OriginAt(i, adds, r, k)
  {
  }

  /** Random access into the symbolic file: the equations every instruction
      imposes on the finished file, target copies reading the file itself. */
  lemma SymbolicAt(insts: seq<Inst>, adds: seq<byte>, i: nat, k: nat)
    requires InstsOk(insts, |adds|) && i < |insts| && k < insts[i].size
    ensures InstOk(insts[i], |adds|, insts[i].position)
    ensures insts[i].position + insts[i].size <= |Symbolic(insts, adds)|
    ensures Symbolic(insts, adds)[insts[i].position + k] == OriginAt(insts[i], adds, Symbolic(insts, adds), k)
  {
    hide CopyForward, Direct, ExecSymbolic;
    SymbolicPrefix(insts, adds, i + 1);
    PrefixOk(insts, |adds|, i);
    assert insts[..i + 1][..i] == insts[..i];
    ExecSymbolicAt(insts[i], adds, Symbolic(insts[..i], adds), k);
  }

  // ----------------------------------------- the two semantics agree

  lemma EvalConcat(a: seq<Origin>, b: seq<Origin>, src: seq<byte>)
    requires Below(a, |src|) && Below(b, |src|)
    ensures Below(a + b, |src|) && Eval(a + b, src) == Eval(a, src) + Eval(b, src)
  {
  }

  lemma EvalSlice(o: seq<Origin>, lo: nat, hi: nat, src: seq<byte>)
    requires Below(o, |src|) && lo <= hi <= |o|
    ensures Below(o[lo..hi], |src|) && Eval(o[lo..hi], src) == Eval(o, src)[lo..hi]
  {
  }

  lemma {:induction false} CopyForwardEval(o: seq<Origin>, src: seq<byte>, addr: nat, n: nat)
    requires addr < |o| && Below(o, |src|)
    ensures Below(CopyForward(o, addr, n), |src|)
    ensures Eval(CopyForward(o, addr, n), src) == CopyForward(Eval(o, src), addr, n)
    decreases n
  {
    if n > 0 {
      var o' := o + [o[addr]];
      CopyForwardEval(o', src, addr + 1, n - 1);
      assert Eval(o', src) == Eval(o, src) + [Eval(o, src)[addr]];
    }
  }

  /** Running a delta on bytes is evaluating its symbolic file on those bytes. */
  lemma {:induction false} DecodeIsEval(insts: seq<Inst>, adds: seq<byte>, src: seq<byte>)
    requires InstsOk(insts, |adds|) && Fits(insts, |src|)
    ensures Below(Symbolic(insts, adds), |src|)
    ensures Decode(insts, adds, src) == Eval(Symbolic(insts, adds), src)
    decreases |insts|
  {
    if insts != [] {
      var n := |insts| - 1;
      PrefixOk(insts, |adds|, n);
      DecodeIsEval(insts[..n], adds, src);
      ExecIsEval(insts[n], adds, src, Symbolic(insts[..n], adds));
    }
  }

  lemma ExecIsEval(i: Inst, adds: seq<byte>, src: seq<byte>, o: seq<Origin>)
    requires InstOk(i, |adds|, |o|) && Below(o, |src|)
    requires i.kind == Cpy && i.mode == Source && i.size > 0 ==> i.addr + i.size <= |src|
    ensures Below(ExecSymbolic(i, adds, o), |src|)
    ensures Exec(i, adds, src, Eval(o, src)) == Eval(ExecSymbolic(i, adds, o), src)
  {
    if i.kind == Cpy && i.mode == Here {
      CopyForwardEval(o, src, i.addr, i.size);
    }
  }

  /** Conversely, when the symbolic file only names offsets inside the source, no
      source copy of the program leaves the source. */
  lemma BelowFits(insts: seq<Inst>, adds: seq<byte>, n: nat)
    requires InstsOk(insts, |adds|) && Below(Symbolic(insts, adds), n)
    ensures Fits(insts, n)
  {
    forall i | 0 <= i < |insts| && insts[i].kind == Cpy && insts[i].mode == Source && insts[i].size > 0
      ensures insts[i].addr + insts[i].size <= n
    {
      SymbolicAt(insts, adds, i, insts[i].size - 1);
    }
  }

  lemma ComposeEval(second: seq<Origin>, first: seq<Origin>, src: seq<byte>)
    requires Below(second, |first|) && Below(first, |src|)
    ensures Below(Compose(second, first), |src|)
    ensures Eval(Compose(second, first), src) == Eval(second, Eval(first, src))
  {
  }

  lemma {:induction false} CopyForwardCompose(o: seq<Origin>, first: seq<Origin>, addr: nat, n: nat)
    requires addr < |o| && Below(o, |first|)
    ensures Below(CopyForward(o, addr, n), |first|)
    ensures Compose(CopyForward(o, addr, n), first) == CopyForward(Compose(o, first), addr, n)
    decreases n
  {
    if n > 0 {
      var o' := o + [o[addr]];
      CopyForwardCompose(o', first, addr + 1, n - 1);
      assert Compose(o', first) == Compose(o, first) + [Compose(o, first)[addr]];
    }
  }

  /** The headline: a delta whose symbolic file is the composition of two others
      turns any source of the first into what the second makes of the result. */
  lemma CompositionDecodes(merged: Whole, second: Whole, first: Whole, src: seq<byte>)
    requires WellFormed(merged) && WellFormed(second) && WellFormed(first)
    requires Fits(first.insts, |src|) && Fits(second.insts, first.length)
    requires Below(Symbolic(second.insts, second.adds), first.length)
    requires Symbolic(merged.insts, merged.adds)
          == Compose(Symbolic(second.insts, second.adds), Symbolic(first.insts, first.adds))
    ensures merged.length == second.length && Fits(merged.insts, |src|)
    ensures Decode(merged.insts, merged.adds, src)
         == Decode(second.insts, second.adds, Decode(first.insts, first.adds, src))
  {
    var mid := Decode(first.insts, first.adds, src);
    DecodeIsEval(first.insts, first.adds, src);
    DecodeIsEval(second.insts, second.adds, mid);
    ComposeEval(Symbolic(second.insts, second.adds), Symbolic(first.insts, first.adds), src);
    BelowFits(merged.insts, merged.adds, |src|);
    DecodeIsEval(merged.insts, merged.adds, src);
  }
}
