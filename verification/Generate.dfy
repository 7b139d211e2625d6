/**
  xdelta.c: making a delta.  Hits of the hash table are tried (try_match), what they cover
  is copied, and what lies between them is inserted, page by page (compute_copies).
 */
module Generate {
  import opened Bytes
  import opened Pages
  import opened Control
  import opened Matching
  import opened Rolling
  import opened Search
  import Arith

  /** A file the target may be copied from.  The first one stands for the patch data. */
  class Source {
    const file: Paged
    const cksums: seq<Checksum>
    var pos: Pos
    var used: bool
    var sequential: bool
    var position: nat

    constructor (file: Paged, cksums: seq<Checksum>)
      ensures this.file == file && this.cksums == cksums && Mapped(file, pos) && !used && sequential && position == 0
    {
      this.file, this.cksums := file, cksums;
      pos, used, sequential, position := Pos(0, 0, [], 0), false, true, 0;
    }

    function State(): Track
      reads this
    {
      Track(used, sequential, position)
    }
  }

  class Generator {
    const sources: seq<Source>
    var toOutputPos: nat
    var dataOutputPos: nat
    var dataOut: seq<byte>
    var inst: seq<Inst>

    ghost predicate Distinct() {
      forall i, j | 0 <= i < j < |sources| :: sources[i] != sources[j]
    }

    ghost function Tracks(): (t: seq<Track>)
      reads sources
      ensures |t| == |sources|
    {
      seq(|sources|, i requires 0 <= i < |sources| reads sources => sources[i].State())
    }

    ghost function Files(): (f: seq<seq<byte>>)
      ensures |f| == |sources|
    {
      seq(|sources|, i requires 0 <= i < |sources| => sources[i].file.data)
    }

    ghost function Sums(): (c: seq<seq<Checksum>>)
      ensures |c| == |sources|
    {
      seq(|sources|, i requires 0 <= i < |sources| => sources[i].cksums)
    }

    /** What a delta of a target is made from. */
    ghost function Given(input: Paged, hash: Checksum -> nat, prime: nat, chew: Chew): Setting {
      Setting(input, Files(), Sums(), hash, prime, chew)
    }

    ghost function Made(): Control.Made
      reads this, sources
    {
      Control.Made(inst, Tracks(), dataOut, toOutputPos)
    }

    ghost predicate Positions()
      reads sources
    {
      forall i | 0 <= i < |sources| :: Mapped(sources[i].file, sources[i].pos)
    }

    /** What has been made so far is a delta for the beginning of the target. */
    ghost predicate Valid(target: seq<byte>)
      reads this, sources
    {
      Distinct() && |sources| > 0 && dataOutputPos == |dataOut| && Positions() && MadeOk(Made(), Files(), target)
    }

    constructor (sources: seq<Source>, ghost target: seq<byte>)
      requires |sources| > 0 && forall i, j | 0 <= i < j < |sources| :: sources[i] != sources[j]
      requires forall i | 0 <= i < |sources| :: Mapped(sources[i].file, sources[i].pos)
      requires forall i | 0 <= i < |sources| :: !sources[i].used && sources[i].sequential && sources[i].position == 0
      ensures Valid(target) && this.sources == sources && toOutputPos == 0 && inst == [] && dataOut == []
    {
      this.sources := sources;
      toOutputPos, dataOutputPos, dataOut, inst := 0, 0, [], [];
      new;
      assert forall k | 0 <= k < |Tracks()| :: Tracks()[k] == sources[k].State();
      NothingMade(Tracks(), Files(), target);
    }

    /** control_copy */
    method ControlCopy(k: nat, from: nat, to: nat)
      requires k < |sources| && Distinct() && from <= to
      modifies this`inst, sources[k]
      ensures sources[k].pos == old(sources[k].pos)
      ensures inst == Copied(old(inst), k, from, to)
      ensures old(Positions()) ==> Positions()
      ensures Tracks() == if Continues(old(inst), k, from) then old(Tracks())
                          else old(Tracks())[k := Tracked(old(Tracks())[k], from, to)]
    {
      var n := |inst|;
      if n > 0 && inst[n - 1].index == k && inst[n - 1].offset + inst[n - 1].length == from {
        inst := inst[n - 1 := inst[n - 1].(length := inst[n - 1].length + (to - from))];
      } else {
        sources[k].used := true;
        if sources[k].position != from {
          sources[k].sequential := false;
        }
        sources[k].position := to;
        inst := inst + [Inst(k, from, to - from)];
        assert forall i | 0 <= i < |sources| && i != k :: Tracks()[i] == old(Tracks())[i];
      }
    }

    /** region_insert: the bytes of the target still to come are on the mapped page. */
    method RegionInsert(input: Paged, x: Pos, len: nat)
      requires Valid(input.data) && Mapped(input, x) && Pending(input, x, toOutputPos, len)
      modifies this, sources[0]
      ensures sources[0].pos == old(sources[0].pos)
      ensures Valid(input.data) && toOutputPos == old(toOutputPos) + len <= |input.data|
      ensures Made() == Inserted(old(Made()), input.data[old(toOutputPos)..toOutputPos])
    {
      hide MadeOk, Mapped, Inserted, Start;
      if len > 0 {
        PendingBytes(input, x, toOutputPos, len);
        var at := toOutputPos % input.pageSize;
        InsertBytes(x.mem[at..at + len], input.data);
      } else {
        InsertNothing(Made(), Files(), input.data);
      }
    }

    /** The part of region_insert that writes: to the patch data and to the control. */
    method InsertBytes(bytes: seq<byte>, ghost target: seq<byte>)
      requires Valid(target) && bytes != [] && toOutputPos + |bytes| <= |target|
      requires bytes == target[toOutputPos..toOutputPos + |bytes|]
      modifies this, sources[0]
      ensures sources[0].pos == old(sources[0].pos)
      ensures Valid(target) && toOutputPos == old(toOutputPos) + |bytes|
      ensures Made() == Inserted(old(Made()), bytes)
    {
      hide MadeOk, Copied, Continues, Tracked, Mapped, Inserted, Positions, Distinct, Files;
      InsertKeeps(Made(), Files(), target, |bytes|);
      dataOut := dataOut + bytes;
      ControlCopy(0, dataOutputPos, dataOutputPos + |bytes|);
      toOutputPos := toOutputPos + |bytes|;
      dataOutputPos := dataOutputPos + |bytes|;
      MadeInserted(old(Made()), Made(), bytes);
    }

    /** region_copy */
    method RegionCopy(k: nat, from: nat, to: nat, ghost target: seq<byte>)
      requires Valid(target) && 0 < k < |sources| && Furthest(sources[k].file.data, from, to, target, toOutputPos)
      modifies this, sources[k]
      ensures sources[k].pos == old(sources[k].pos)
      ensures Valid(target) && toOutputPos == old(toOutputPos) + (to - from) <= |target|
      ensures Made() == Make(old(Made()), k, from, to)
    {
      hide MadeOk, Copied, Continues, Tracked, Positions, Distinct;
      CopyKeeps(Made(), Files(), target, k, from, to);
      ControlCopy(k, from, to);
      toOutputPos := toOutputPos + (to - from);
      MadeCopied(old(Made()), Made(), k, from, to);
    }

    /** The loop of try_match that goes forward.  Before another page of the target is mapped,
        the insert that lies on the one in memory is written. */
    method MatchForward(input: Paged, x0: Pos, k: nat, y0: Pos, to: nat, from: nat, back: nat, max: nat)
      returns (forward: nat, x: Pos, y: Pos, oneInsert: bool)
      requires Valid(input.data) && 0 < k < |sources| && Hit(input, x0, toOutputPos, to, back)
      requires Mapped(sources[k].file, y0) && At(sources[k].file, y0) == from && y0.off < sources[k].file.pageSize
      requires to + max <= |input.data| && from + max <= |sources[k].file.data|
      modifies this, sources[0]
      ensures sources[0].pos == old(sources[0].pos) && Valid(input.data)
      ensures Mapped(sources[k].file, y) && Mapped(input, x) && x.off < input.pageSize && At(input, x) == to + forward
      ensures Matched(input.data, to, sources[k].file.data, from, forward, max)
      ensures oneInsert ==> toOutputPos == to - back && forward >= QUERY_SIZE_POW && old(toOutputPos) + back <= to
      ensures oneInsert ==> Made() == Inserted(old(Made()), input.data[old(toOutputPos)..to - back])
      ensures !oneInsert ==> Made() == old(Made()) && x.mem == x0.mem && x.memPage == x0.memPage
    {
      hide MadeOk, Mapped, Inserted, Start, Hit, AgreeAfter;
      var src := sources[k].file;
      forward, x, y, oneInsert := 0, x0, y0, false;
      var differ := false;
      NoneAfter(input.data, to, src.data, from);
      HitPlace(input, x0, toOutputPos, to, back);
      while forward < max && !differ
        invariant forward <= max && AgreeAfter(input.data, to, src.data, from, forward)
        invariant differ ==> forward < max && input.data[to + forward] != src.data[from + forward]
        invariant Mapped(input, x) && At(input, x) == to + forward && x.off < input.pageSize
        invariant Mapped(src, y) && At(src, y) == from + forward && y.off < src.pageSize
        invariant Valid(input.data) && sources[0].pos == old(sources[0].pos)
        invariant old(toOutputPos) + back <= to
        invariant oneInsert ==> toOutputPos == to - back && forward >= QUERY_SIZE_POW
        invariant oneInsert ==> Made() == Inserted(old(Made()), input.data[old(toOutputPos)..to - back])
        invariant !oneInsert ==> Made() == old(Made()) && x.mem == x0.mem && x.memPage == x0.memPage
        decreases max - forward, !differ
      {
        if !oneInsert && x.page != x.memPage {
          oneInsert := true;
          Crossed(input, x0, toOutputPos, to, back, x, forward);
          RegionInsert(input, x, to - back - toOutputPos);
        }
        x, y, forward, differ := ForwardStep(input, x, src, y, to, from, forward, max);
      }
    }

    /** try_match: whether a source holds what a window of the target holds, with as much
        before and after it as agrees.  What lies before the match is inserted first. */
    method TryMatch(input: Paged, x0: Pos, k: nat, from: nat) returns (found: bool, x: Pos)
      requires Valid(input.data) && 0 < k < |sources| && Hit(input, x0, toOutputPos, At(input, x0), 0)
      requires from <= |sources[k].file.data|
      modifies this, sources[0], sources[k]
      ensures Valid(input.data) && Mapped(input, x) && x.off < input.pageSize
      ensures old(toOutputPos) <= At(input, x0) <= |input.data|
      ensures var t := Meet(input, sources[k].file.data, old(toOutputPos), At(input, x0), k, from);
        && found == Long(t) && (found ==> Made() == Took(input, old(Made()), At(input, x0), t))
      ensures found ==> At(input, x) == toOutputPos <= |input.data|
      ensures !found ==> Made() == old(Made()) && x.mem == x0.mem && x.memPage == x0.memPage
    {
      hide MadeOk, Mapped, Inserted, Start, Hit, AgreeAfter, AgreeBefore, DifferBefore, Matched, PageCount, Furthest,
          Took, Meet, Make;
      var to := At(input, x0);
      var src := sources[k].file;
      HitPlace(input, x0, toOutputPos, to, 0);
      HitMapped(input, x0, toOutputPos, to);
      var y := PlaceOf(src, from, sources[k].pos);
      var max := Min(|input.data| - to, |src.data| - from);
      HitOffset(input, x0, toOutputPos, to);
      ghost var m := Made();
      var maxBack: nat := Min(Min(from, to - toOutputPos), x0.off);
      var back;
      back, y := MatchBackward(input, x0, src, y, to, from, maxBack);
      y := PlaceOf(src, from, y);
      HitBack(input, x0, toOutputPos, to, back);
      var forward, oneInsert;
      forward, x, y, oneInsert := MatchForward(input, x0, k, y, to, from, back, max);
      MeetIs(input, src.data, m.outPos, to, k, from, back, forward);
      found := forward + back >= QUERY_SIZE_POW;
      if found {
        if !oneInsert {
          HitPending(input, x0, x, toOutputPos, to, back);
        }
        MatchFurthest(input.data, to, src.data, from, back, forward, max);
        TakeMatch(input, x, to, Match(k, from, back, forward), !oneInsert, m);
      }
      SetPosition(k, y, input.data);
    }

    /** A match is written, after the insert that comes before it. */
    method TakeMatch(input: Paged, x: Pos, to: nat, t: Match, insertFirst: bool, ghost m: Control.Made)
      requires Valid(input.data) && Mapped(input, x) && 0 < t.index < |sources| && t.back <= t.offset
      requires m.outPos + t.back <= to && |m.tracks| == |sources|
      requires Furthest(sources[t.index].file.data, t.offset - t.back, t.offset + t.forward, input.data, to - t.back)
      requires if insertFirst then Made() == m && Pending(input, x, toOutputPos, to - t.back - toOutputPos)
               else toOutputPos == to - t.back && Made() == Inserted(m, input.data[m.outPos..to - t.back])
      modifies this, sources[0], sources[t.index]
      ensures sources[0].pos == old(sources[0].pos) && sources[t.index].pos == old(sources[t.index].pos)
      ensures Valid(input.data) && to + t.forward == toOutputPos <= |input.data|
      ensures Made() == Took(input, m, to, t)
    {
      hide MadeOk, Mapped, Inserted, Make, Start, Furthest, Pending;
      FurthestEnds(sources[t.index].file.data, t.offset - t.back, t.offset + t.forward, input.data, to - t.back);
      if insertFirst {
        RegionInsert(input, x, to - t.back - toOutputPos);
      }
      RegionCopy(t.index, t.offset - t.back, t.offset + t.forward, input.data);
    }

    method SetPosition(k: nat, y: Pos, ghost target: seq<byte>)
      requires Valid(target) && k < |sources| && Mapped(sources[k].file, y)
      modifies sources[k]
      ensures Valid(target) && Made() == old(Made())
    {
      hide MadeOk, Mapped;
      sources[k].pos := y;
      assert Tracks() == old(Tracks());
    }

    /** The inner loop of compute_copies: the windows of one page, until one is found. */
    method ScanPage(input: Paged, x0: Pos, table: seq<nat>, hash: Checksum -> nat, chew: Chew)
      returns (found: bool, x: Pos)
      requires Valid(input.data) && Usable(Given(input, hash, |table|, chew), table)
      requires Hit(input, x0, toOutputPos, At(input, x0), 0)
      modifies this, sources
      ensures Valid(input.data) && Mapped(input, x) && At(input, x0) <= At(input, x)
      ensures found ==> x.off < input.pageSize && At(input, x) == toOutputPos <= |input.data|
      ensures found ==> old(toOutputPos) < toOutputPos
      ensures !found ==> Made() == old(Made()) && x.mem == x0.mem && x.memPage == x0.memPage && x.page == x0.page
      ensures !found ==> x0.off <= x.off && x.off + QUERY_SIZE_POW == |x.mem|
      ensures Leads(Given(input, hash, |table|, chew), table, old(Made()), At(input, x0),
                    Made(), if found then At(input, x) else At(input, x) + 1)
    {
      hide MadeOk, Mapped, Start, Hit, EntryOk, Rolling.Of, Rolled, Positions, Distinct, Leads, Usable, Took, Meet;
      ghost var s, m := Given(input, hash, |table|, chew), Made();
      found, x := false, x0;
      HitMapped(input, x, toOutputPos, At(input, x));
      HitMore(input, x, toOutputPos);
      var segment: nat := |x.mem| - x.off - QUERY_SIZE_POW;
      var cksum := InitChecksum(x.mem[x.off..x.off + QUERY_SIZE_POW], chew);
      HitPlace(input, x, toOutputPos, At(input, x), 0);
      LeadsSame(s, table, m, At(input, x));
      while true
        invariant Valid(input.data) && Made() == m && !found
        invariant x.mem == x0.mem && x.memPage == x0.memPage && x.page == x0.page && x0.off <= x.off
        invariant x.off + QUERY_SIZE_POW + segment == |x.mem| && Hit(input, x, toOutputPos, At(input, x), 0)
        invariant cksum == Rolling.Of(x.mem[x.off..x.off + QUERY_SIZE_POW], chew)
        invariant Leads(s, table, m, At(input, x0), m, At(input, x))
        decreases segment
      {
        HitMapped(input, x, toOutputPos, At(input, x));
        HitWindow(input, x, toOutputPos);
        var r;
        found, r := TryWindow(input, x, table, hash, chew, cksum);
        if found {
          LeadsOn(s, table, m, At(input, x0), m, At(input, x), Made(), At(input, r));
          x := r;
          break;
        }
        LeadsOn(s, table, m, At(input, x0), m, At(input, x), m, At(input, x) + 1);
        if segment == 0 {
          break;
        }
        segment := segment - 1;
        RollStep(x.mem, x.off, chew);
        HitNext(input, x, toOutputPos);
        cksum := Rolled(cksum, x.mem[x.off], x.mem[x.off + QUERY_SIZE_POW], chew);
        x := x.(off := x.off + 1);
      }
    }

    /** One window: the entry its checksum leads to, if there is one, is tried. */
    method TryWindow(input: Paged, x: Pos, table: seq<nat>, hash: Checksum -> nat, chew: Chew, cksum: Checksum)
      returns (found: bool, r: Pos)
      requires Valid(input.data) && Usable(Given(input, hash, |table|, chew), table)
      requires Hit(input, x, toOutputPos, At(input, x), 0) && OnOnePage(Given(input, hash, |table|, chew), At(input, x))
      requires cksum == Sum(Given(input, hash, |table|, chew), At(input, x))
      modifies this, sources
      ensures Valid(input.data)
      ensures found ==> Mapped(input, r) && r.off < input.pageSize && At(input, r) == toOutputPos <= |input.data|
      ensures found ==> At(input, x) <= At(input, r) && old(toOutputPos) < toOutputPos
      ensures !found ==> Made() == old(Made())
      ensures var s := Given(input, hash, |table|, chew);
        Leads(s, table, old(Made()), At(input, x), Made(), if found then At(input, r) else At(input, x) + 1)
    {
      hide MadeOk, Mapped, Start, Hit, Positions, Distinct, Rolling.Of, Leads, Sum, Took, Meet, TryBlock;
      ghost var s, m := Given(input, hash, |table|, chew), Made();
      found, r := false, x;
      HitBegins(input, x, toOutputPos);
      var entry := table[hash(cksum) % |table|];
      if entry != 0 {
        found, r := TryEntry(input, x, entry, cksum, s);
      }
      StepSearch(s, table, m, At(input, x));
    }

    /** A hit is tried if its checksum is the window's. */
    method TryEntry(input: Paged, x: Pos, entry: nat, cksum: Checksum, ghost s: Setting) returns (found: bool, r: Pos)
      requires Valid(input.data) && Hit(input, x, toOutputPos, At(input, x), 0)
      requires s.input == input && s.files == Files() && s.sums == Sums() && EntryOk(s, entry)
      requires At(input, x) + QUERY_SIZE_POW <= |input.data| && cksum == Sum(s, At(input, x))
      modifies this, sources
      ensures Valid(input.data) && old(toOutputPos) <= At(input, x)
      ensures var t := TryBlock(s, old(toOutputPos), At(input, x), EntrySource(entry), EntryBlock(entry));
        && found == t.Some? && (found ==> Made() == Took(input, old(Made()), At(input, x), t.value))
      ensures found ==> Mapped(input, r) && r.off < input.pageSize && At(input, r) == toOutputPos <= |input.data|
      ensures !found ==> Made() == old(Made())
    {
      hide MadeOk, Mapped, Start, Hit, Positions, Distinct, Sum, Took, Meet;
      found, r := false, x;
      HitPlace(input, x, toOutputPos, At(input, x), 0);
      var k: nat, j: nat := entry % QUERY_SIZE_POW - 1, entry / QUERY_SIZE_POW;
      if sources[k].cksums[j] == cksum {
        found, r := TryMatch(input, x, k, j * QUERY_SIZE_POW);
      }
    }

    /** One turn of the outer loop: a match, or on to the next page. */
    method Advance(input: Paged, x0: Pos, table: seq<nat>, hash: Checksum -> nat, chew: Chew)
      returns (x: Pos, more: bool)
      requires Valid(input.data) && Usable(Given(input, hash, |table|, chew), table)
      requires Standing(input, x0, toOutputPos) && At(input, x0) + QUERY_SIZE_POW <= |input.data|
      modifies this, sources
      ensures Valid(input.data) && Standing(input, x, toOutputPos) && At(input, x0) <= At(input, x)
      ensures old(toOutputPos) <= toOutputPos
      ensures more && At(input, x) == At(input, x0) ==> old(toOutputPos) < toOutputPos
      ensures var s := Given(input, hash, |table|, chew);
        if more then Leads(s, table, old(Made()), At(input, x0), Made(), At(input, x))
        else Ends(s, table, old(Made()), At(input, x0), Made())
    {
      hide MadeOk, Mapped, Start, Hit, Positions, Distinct, Usable, Standing, Leads, Ends;
      ghost var s, m := Given(input, hash, |table|, chew), Made();
      StandingPlace(input, x0, toOutputPos);
      PlaceMapped(input, x0);
      var ok;
      ok, x := MapPage(input, x0);
      more := true;
      var found := false;
      LeadsSame(s, table, m, At(input, x0));
      ghost var at := At(input, x);
      if |x.mem| - x.off >= QUERY_SIZE_POW {
        StandingHit(input, x0, x, toOutputPos);
        found, x := ScanPage(input, x, table, hash, chew);
        at := if found then At(input, x) else At(input, x) + 1;
      }
      if found {
        StandingFound(input, x, toOutputPos);
      } else {
        StandingLater(input, x0, x, toOutputPos);
        LeadsPlace(s, table, m, At(input, x0), m, at);
        PageSkips(s, table, m, x, at);
        if |x.mem| < input.pageSize {
          more := false;
          EndsAfter(s, table, m, At(input, x0), m, at, m);
        } else {
          PageDone(input, x, toOutputPos);
          x := Pos(x.page + 1, 0, x.mem, x.memPage);
          if x.page != x.memPage {
            RegionInsert(input, x, At(input, x) - toOutputPos);
          }
          StandingFound(input, x, toOutputPos);
          LeadsOn(s, table, m, At(input, x0), m, at, Made(), At(input, x));
        }
      }
    }

    /** The pages left, one insert each. */
    method InsertRest(input: Paged, x0: Pos)
      requires Valid(input.data) && Mapped(input, x0) && x0.off < input.pageSize
      requires toOutputPos < |input.data| ==> At(input, x0) == toOutputPos
      modifies this, sources[0]
      ensures Valid(input.data) && toOutputPos == |input.data|
      ensures old(toOutputPos) <= |input.data| && Made() == Rest(input, old(Made()))
    {
      hide MadeOk, Mapped, Start, Distinct, OnPage, PageCount, PageBytes, Rest, Inserted;
      var x := x0;
      OutPosInside(Made(), Files(), input.data);
      while toOutputPos < |input.data|
        invariant Valid(input.data) && Mapped(input, x) && x.off < input.pageSize && toOutputPos <= |input.data|
        invariant toOutputPos < |input.data| ==> At(input, x) == toOutputPos
        invariant old(toOutputPos) <= |input.data| && Rest(input, Made()) == Rest(input, old(Made()))
        decreases |input.data| - toOutputPos
      {
        PlaceMapped(input, x);
        var ok;
        ok, x := MapPage(input, x);
        RestPending(input, x, toOutputPos);
        RestNext(input, Made());
        RegionInsert(input, x, |x.mem| - x.off);
        x := Pos(x.page + 1, 0, x.mem, x.memPage);
      }
      RestDone(input, Made());
    }

    /** just_output: nothing to copy from. */
    method JustOutput(input: Paged)
      requires Valid(input.data) && toOutputPos == 0
      modifies this, sources[0]
      ensures Valid(input.data) && toOutputPos == |input.data| && Made() == Rest(input, old(Made()))
    {
      hide MadeOk, Start, Distinct, Rest;
      AtBeginning(input, Pos(0, 0, [], 0));
      InsertRest(input, Pos(0, 0, [], 0));
    }

    /** compute_copies */
    method ComputeCopies(input: Paged, table: seq<nat>, hash: Checksum -> nat, chew: Chew)
      requires Valid(input.data) && Usable(Given(input, hash, |table|, chew), table) && toOutputPos == 0
      modifies this, sources
      ensures Valid(input.data)
      ensures |input.data| < QUERY_SIZE_POW ==> Made() == old(Made())
      ensures |input.data| >= QUERY_SIZE_POW ==> toOutputPos == |input.data|
      ensures |input.data| >= QUERY_SIZE_POW ==>
        Made() == Searched(Given(input, hash, |table|, chew), table, old(Made()), 0)
    {
      hide MadeOk, Mapped, Start, Hit, Positions, Distinct, Usable, Standing, Leads, Ends, Searched, Rest;
      if |input.data| >= QUERY_SIZE_POW {
        ghost var s, m := Given(input, hash, |table|, chew), Made();
        var x := Pos(0, 0, [], 0);
        AtBeginning(input, x);
        LeadsSame(s, table, m, 0);
        var more := true;
        while more && At(input, x) <= |input.data| - QUERY_SIZE_POW
          invariant Valid(input.data) && Standing(input, x, toOutputPos)
          invariant if more then Leads(s, table, m, 0, Made(), At(input, x)) else Ends(s, table, m, 0, Made())
          decreases |input.data| - At(input, x), At(input, x) - toOutputPos, more
        {
          StandingPlace(input, x, toOutputPos);
          ghost var m0, at0 := Made(), At(input, x);
          x, more := Advance(input, x, table, hash, chew);
          StandingPlace(input, x, toOutputPos);
          if more {
            LeadsOn(s, table, m, 0, m0, at0, Made(), At(input, x));
          } else {
            EndsAfter(s, table, m, 0, m0, at0, Made());
          }
        }
        if more {
          EndsShort(s, table, m, 0, Made(), At(input, x));
        }
        StandingSplit(input, x, toOutputPos);
        EndsThere(s, table, m, 0, Made());
        x := x.(off := toOutputPos % input.pageSize);
        InsertRest(input, x);
      }
    }

    /** The sources have no more checksums than whole windows, and the patch data has none. */
    ghost predicate Checksums() {
      && |sources| > 0 && sources[0].cksums == []
      && forall k | 0 <= k < |sources| :: |sources[k].cksums| * QUERY_SIZE_POW <= |sources[k].file.data|
    }

    /** The hash table of xdp_generate_delta_int; later entries replace earlier ones. */
    method BuildTable(hash: Checksum -> nat, prime: nat, ghost s: Setting) returns (table: seq<nat>)
      requires prime > 0 && |sources| <= QUERY_SIZE_POW - 2 && Checksums()
      requires s.hash == hash && s.prime == prime && s.files == Files() && s.sums == Sums()
      ensures Filled(s, table)
    {
      hide FilledTo, Filled;
      var t := new nat[prime](_ => 0);
      NothingFilled(s, t[..]);
      for i := 0 to |sources|
        invariant FilledTo(s, t[..], i - 1, 0)
      {
        NextSource(s, t[..], i);
        for j := |sources[i].cksums| downto 0
          invariant FilledTo(s, t[..], i, j)
        {
          EntersNext(s, t[..], i, j);
          t[hash(sources[i].cksums[j]) % prime] := j * QUERY_SIZE_POW + 1 + i;
        }
      }
      AllFilled(s, t[..]);
      table := t[..];
    }

    /** The bytes there are to copy from, and what is made of a target. */
    ghost predicate TooLittle(input: Paged) {
      |input.data| < QUERY_SIZE_POW || Lengths(Files(), |sources|) < QUERY_SIZE_POW
    }

    /** xdp_generate_delta_int: with too little to go by, all of the target is inserted.  A
        window that equals the block its slot names is copied, and a target that is its only
        source is one copy. */
    method GenerateDelta(input: Paged, hash: Checksum -> nat, prime: nat, chew: Chew)
      returns (ok: bool, ghost table: seq<nat>)
      requires Valid(input.data) && toOutputPos == 0 && prime > 0 && Checksums()
      modifies this, sources
      ensures Valid(input.data)
      ensures ok <==> |sources| <= QUERY_SIZE_POW - 2
      ensures !ok ==> Made() == old(Made())
      ensures ok ==> toOutputPos == |input.data|
      ensures ok && TooLittle(input) ==> Made() == Rest(input, old(Made()))
      ensures ok && !TooLittle(input) ==>
        && var s := Given(input, hash, prime, chew);
        && Filled(s, table) && Usable(s, table) && Made() == Searched(s, table, old(Made()), 0)
      ensures ok ==> forall w: nat, k: nat, j: nat | Repeats(Given(input, hash, prime, chew), w, k, j) ::
        w < |TakenFrom(inst)| && TakenFrom(inst)[w] != 0
      ensures ok && old(inst) == [] && SameFile(Given(input, hash, prime, chew)) ==>
        inst == [Inst(1, 0, |input.data|)] && dataOut == []
    {
      hide MadeOk, Positions, Distinct, Usable, Filled, Repeats, SameFile, Searched, Rest, TakenFrom, Counted;
      ghost var s, m := Given(input, hash, prime, chew), Made();
      table := [];
      ok := |sources| <= QUERY_SIZE_POW - 2;
      if ok {
        var total: nat := 0;
        for i := 1 to |sources|
          invariant total == Lengths(Files(), i)
        {
          total := total + |sources[i].file.data|;
        }
        assert Fits(s);
        if |input.data| < QUERY_SIZE_POW || total < QUERY_SIZE_POW {
          NoRepeats(s);
          NotSame(s);
          JustOutput(input);
        } else {
          var slots := BuildTable(hash, prime, s);
          FilledIsUsable(s, slots);
          ComputeCopies(input, slots, hash, chew);
          table := slots;
          MadeCounted(m, Files(), input.data);
          AllRepeats(s, slots, m);
          if m.insts == [] && SameFile(s) {
            SameIsOneCopy(s, slots, m);
          }
        }
      }
    }
  }

  /** The place compute_copies stands at: the insert still to be written starts on its page. */
  predicate Standing(f: Paged, x: Pos, outPos: nat) {
    && Mapped(f, x) && x.off < f.pageSize && Start(f, x.page) <= outPos <= At(f, x) <= |f.data|
  }

  lemma AtBeginning(f: Paged, x: Pos)
    requires x == Pos(0, 0, [], 0)
    ensures Standing(f, x, 0) && At(f, x) == 0 && Mapped(f, x)
  {
    StartNext(f, 0);
  }

  lemma StandingPlace(f: Paged, x: Pos, outPos: nat)
    requires Standing(f, x, outPos)
    ensures Mapped(f, x) && x.off < f.pageSize && outPos <= At(f, x) <= |f.data|
  {
  }

  lemma StandingHit(f: Paged, x0: Pos, x: Pos, outPos: nat)
    requires Standing(f, x0, outPos) && x.page == x0.page && x.off == x0.off && Mapped(f, x) && x.memPage == x.page
    requires x.off + QUERY_SIZE_POW <= |x.mem|
    ensures Hit(f, x, outPos, At(f, x), 0)
  {
  }

  lemma StandingFound(f: Paged, x: Pos, outPos: nat)
    requires Mapped(f, x) && x.off < f.pageSize && At(f, x) == outPos <= |f.data|
    ensures Standing(f, x, outPos)
  {
  }

  lemma StandingLater(f: Paged, x0: Pos, x: Pos, outPos: nat)
    requires Standing(f, x0, outPos) && x.page == x0.page && x0.off <= x.off < |x.mem| && Mapped(f, x)
        && x.memPage == x.page
    ensures Standing(f, x, outPos) && At(f, x0) <= At(f, x)
  {
    PageFits(f, x.page);
  }

  lemma PageDone(f: Paged, x: Pos, outPos: nat)
    requires Standing(f, x, outPos) && x.memPage == x.page && |x.mem| >= f.pageSize
    ensures At(f, Pos(x.page + 1, 0, x.mem, x.memPage)) > At(f, x)
    ensures var r := Pos(x.page + 1, 0, x.mem, x.memPage);
      Mapped(f, r) && outPos <= At(f, r) <= |f.data| && Pending(f, r, outPos, At(f, r) - outPos)
  {
    PageFits(f, x.page);
    StartNext(f, x.page);
  }

  lemma StandingSplit(f: Paged, x: Pos, outPos: nat)
    requires Standing(f, x, outPos)
    ensures outPos % f.pageSize >= 0
    ensures var r := x.(off := outPos % f.pageSize); Mapped(f, r) && r.off < f.pageSize && At(f, r) == outPos
  {
    PlaceUnique(f, x.page, outPos - Start(f, x.page));
  }

  lemma OutPosInside(m: Control.Made, files: seq<seq<byte>>, target: seq<byte>)
    requires MadeOk(m, files, target)
    ensures m.outPos <= |target|
  {
  }

  lemma RestPending(f: Paged, x: Pos, outPos: nat)
    requires x.page <= PageCount(f) && x.mem == PageBytes(f, x.page) && x.memPage == x.page
    requires x.off < |x.mem| && At(f, x) == outPos < |f.data|
    ensures Mapped(f, Pos(x.page + 1, 0, x.mem, x.memPage))
    ensures Pending(f, x, outPos, |x.mem| - x.off)
    ensures var next := outPos + (|x.mem| - x.off);
      next == PageEndOf(f, outPos) && (next == |f.data| || next == At(f, Pos(x.page + 1, 0, x.mem, x.memPage)))
  {
    PageFits(f, x.page);
    StartNext(f, x.page);
    PlaceUnique(f, x.page, x.off);
  }

  /** The bytes of a window, and where the search stands before it. */
  lemma HitWindow(f: Paged, x: Pos, outPos: nat)
    requires Hit(f, x, outPos, At(f, x), 0)
    ensures var at := At(f, x);
      && at + QUERY_SIZE_POW <= |f.data| && at % f.pageSize + QUERY_SIZE_POW <= f.pageSize
      && f.data[at..at + QUERY_SIZE_POW] == x.mem[x.off..x.off + QUERY_SIZE_POW]
  {
    hide Start, OnPage, PageCount, PageBytes;
    PageFits(f, x.page);
    PlaceUnique(f, x.page, x.off);
    PageStretch(f, x.page, x.off, x.off + QUERY_SIZE_POW);
  }

  lemma HitBegins(f: Paged, x: Pos, outPos: nat)
    requires Hit(f, x, outPos, At(f, x), 0)
    ensures outPos <= At(f, x) && (At(f, x) % f.pageSize == 0 ==> outPos == At(f, x))
  {
    hide Start;
    PageFits(f, x.page);
    PlaceUnique(f, x.page, x.off);
  }

  /** Where no window fits any more on a page, the search goes on with the next one. */
  lemma PageSkips(s: Setting, table: seq<nat>, m: Control.Made, x: Pos, at: nat)
    requires Ready(s, table, m, at) && Standing(s.input, x, m.outPos) && x.memPage == x.page && x.off < |x.mem|
    requires At(s.input, x) <= at <= At(s.input, x) + |x.mem| - x.off < at + QUERY_SIZE_POW
    ensures |x.mem| < s.input.pageSize ==> Ends(s, table, m, at, m)
    ensures var next := At(s.input, Pos(x.page + 1, 0, x.mem, x.memPage));
      |x.mem| >= s.input.pageSize ==>
        && m.outPos <= next <= |s.input.data|
        && Leads(s, table, m, at, Inserted(m, s.input.data[m.outPos..next]), next)
  {
    hide Start, OnPage, PageCount, PageBytes, Ready, Leads, Ends, Inserted;
    PageFits(s.input, x.page);
    StartNext(s.input, x.page);
    if |x.mem| < s.input.pageSize {
      LeadsSame(s, table, m, at);
      EndsShort(s, table, m, at, m, at);
    } else {
      SkipToPage(s, table, m, x.page, at);
    }
  }

  lemma HitMore(f: Paged, x: Pos, outPos: nat)
    requires Hit(f, x, outPos, At(f, x), 0)
    ensures x.off + QUERY_SIZE_POW <= |x.mem|
  {
  }

  lemma HitNext(f: Paged, x: Pos, outPos: nat)
    requires Hit(f, x, outPos, At(f, x), 0) && x.off + QUERY_SIZE_POW < |x.mem|
    ensures var r := x.(off := x.off + 1); Hit(f, r, outPos, At(f, r), 0)
  {
  }

  lemma RollStep(mem: seq<byte>, off: nat, chew: Chew)
    requires off + QUERY_SIZE_POW < |mem|
    ensures Rolled(Rolling.Of(mem[off..off + QUERY_SIZE_POW], chew), mem[off], mem[off + QUERY_SIZE_POW], chew)
         == Rolling.Of(mem[off + 1..off + 1 + QUERY_SIZE_POW], chew)
  {
    hide Rolled, Rolling.Of;
    var w, b := mem[off..off + QUERY_SIZE_POW], mem[off + QUERY_SIZE_POW];
    RolledIsFresh(w, b, chew);
    assert mem[off + 1..off + 1 + QUERY_SIZE_POW] == w[1..] + [b];
  }

  /** The page and offset of a place in a file. */
  function PlaceOf(f: Paged, n: nat, p: Pos): (r: Pos)
    requires Mapped(f, p)
    ensures Mapped(f, r) && At(f, r) == n && r.off < f.pageSize
  {
    PlaceSplit(f, n);
    Pos(n / f.pageSize, n % f.pageSize, p.mem, p.memPage)
  }

  lemma HitOffset(f: Paged, x: Pos, outPos: nat, to: nat)
    requires Hit(f, x, outPos, to, 0)
    ensures to % f.pageSize == x.off
  {
    PageFits(f, x.page);
    PlaceUnique(f, x.page, x.off);
  }

  /** The lengths try_match finds are those of the longest match. */
  lemma MeetIs(f: Paged, file: seq<byte>, outPos: nat, to: nat, k: nat, from: nat, back: nat, forward: nat)
    requires outPos <= to <= |f.data| && from <= |file| && back <= Limit(f, outPos, to, from)
    requires AgreeBefore(f.data, to, file, from, back)
    requires back < Limit(f, outPos, to, from) ==> DifferBefore(f.data, to, file, from, back)
    requires Matched(f.data, to, file, from, forward, Min(|f.data| - to, |file| - from))
    ensures Meet(f, file, outPos, to, k, from) == Match(k, from, back, forward)
  {
    hide AgreeBefore, AgreeAfter, DifferBefore;
    BehindIs(f.data, to, file, from, Limit(f, outPos, to, from), back);
    AheadIs(f.data, to, file, from, forward);
  }

  lemma HitMapped(f: Paged, x: Pos, outPos: nat, to: nat)
    requires Hit(f, x, outPos, to, 0)
    ensures x.off < |x.mem| && Mapped(f, x)
  {
  }

  lemma HitBack(f: Paged, x: Pos, outPos: nat, to: nat, back: nat)
    requires Hit(f, x, outPos, to, 0) && back <= to - outPos
    ensures Hit(f, x, outPos, to, back)
  {
  }

  lemma HitPending(f: Paged, x0: Pos, x: Pos, outPos: nat, to: nat, back: nat)
    requires Hit(f, x0, outPos, to, back) && x.mem == x0.mem && x.memPage == x0.memPage
    ensures Pending(f, x, outPos, to - back - outPos)
  {
  }

  lemma MatchFurthest(target: seq<byte>, to: nat, data: seq<byte>, from: nat, back: nat, forward: nat, max: nat)
    requires AgreeBefore(target, to, data, from, back) && Matched(target, to, data, from, forward, max)
    requires max == Min(|target| - to, |data| - from) && 0 < back + forward
    ensures Furthest(data, from - back, from + forward, target, to - back)
  {
    assert target[to - back..to + forward] == target[to - back..to] + target[to..to + forward];
    assert data[from - back..from + forward] == data[from - back..from] + data[from..from + forward];
  }

  /** One page of each file. */
  method ForwardStep(input: Paged, x0: Pos, src: Paged, y0: Pos, to: nat, from: nat, forward0: nat, max: nat)
    returns (x: Pos, y: Pos, forward: nat, differ: bool)
    requires Mapped(input, x0) && At(input, x0) == to + forward0 && x0.off < input.pageSize
    requires Mapped(src, y0) && At(src, y0) == from + forward0 && y0.off < src.pageSize
    requires forward0 < max && to + max <= |input.data| && from + max <= |src.data|
    requires AgreeAfter(input.data, to, src.data, from, forward0)
    ensures Mapped(input, x) && At(input, x) == to + forward && x.off < input.pageSize
    ensures Mapped(src, y) && At(src, y) == from + forward && y.off < src.pageSize
    ensures forward0 <= forward <= max && (differ || forward0 < forward)
    ensures AgreeAfter(input.data, to, src.data, from, forward)
    ensures differ ==> forward < max && input.data[to + forward] != src.data[from + forward]
    ensures x0.mem != [] && x0.memPage == x0.page ==> x.mem == x0.mem && x.memPage == x0.memPage
  {
    hide Start, OnPage, PageCount, PageBytes, AgreeAfter;
    PlaceMapped(input, x0);
    PlaceMapped(src, y0);
    var ok;
    ok, y := MapPage(src, y0);
    ok, x := MapPage(input, x0);
    var rem: nat := Min(max - forward0, Min(|x.mem| - x.off, |y.mem| - y.off));
    var n := CompareChunk(x.mem, x.off, y.mem, y.off, rem);
    differ := n < rem;
    ForwardBytes(input, x, src, y, to, from, forward0, n);
    if differ {
      ByteOnPage(input, x.page, x.off + n);
      ByteOnPage(src, y.page, y.off + n);
    }
    forward := forward0 + n;
    x, y := x.(off := x.off + n), y.(off := y.off + n);
    if !differ {
      x, y := Flip(input, x), Flip(src, y);
    }
  }

  lemma PlaceMapped(f: Paged, p: Pos)
    requires At(f, p) < |f.data| && p.off < f.pageSize
    ensures p.page <= PageCount(f) && p.off < OnPage(f, p.page) <= f.pageSize
  {
    ByteOnPage(f, p.page, p.off);
    PageFits(f, p.page);
  }

  lemma ForwardBytes(input: Paged, x: Pos, src: Paged, y: Pos, to: nat, from: nat, forward: nat, n: nat)
    requires x.page <= PageCount(input) && x.mem == PageBytes(input, x.page) && At(input, x) == to + forward
    requires y.page <= PageCount(src) && y.mem == PageBytes(src, y.page) && At(src, y) == from + forward
    requires AgreeAfter(input.data, to, src.data, from, forward) && AgreeAfter(x.mem, x.off, y.mem, y.off, n)
    ensures AgreeAfter(input.data, to, src.data, from, forward + n)
  {
    hide Start, OnPage, PageCount, PageBytes;
    PageStretch(input, x.page, x.off, x.off + n);
    PageStretch(src, y.page, y.off, y.off + n);
    MoreAfter(input.data, to, src.data, from, forward, n);
  }

  lemma NoneAfter(x: seq<byte>, i: nat, y: seq<byte>, j: nat)
    requires i <= |x| && j <= |y|
    ensures AgreeAfter(x, i, y, j, 0)
  {
  }

  /** Two files agree for `n` bytes, and not for one more unless `max` is reached. */
  predicate Matched(x: seq<byte>, i: nat, y: seq<byte>, j: nat, n: nat, max: nat) {
    && n <= max && i + max <= |x| && j + max <= |y| && AgreeAfter(x, i, y, j, n)
    && (n < max ==> x[i + n] != y[j + n])
  }

  /** A window on the mapped page, after the insert still to be written, which starts on
      this page too.  `back` bytes of it are matched. */
  predicate Hit(f: Paged, x: Pos, outPos: nat, to: nat, back: nat) {
    && x.mem != [] && Mapped(f, x) && x.memPage == x.page && At(f, x) == to
    && x.off + QUERY_SIZE_POW <= |x.mem|
    && Start(f, x.page) <= outPos && outPos + back <= to
  }

  lemma HitPlace(f: Paged, x: Pos, outPos: nat, to: nat, back: nat)
    requires Hit(f, x, outPos, to, back)
    ensures Mapped(f, x) && At(f, x) == to <= |f.data| && x.off < f.pageSize && x.memPage == x.page && x.mem != []
    ensures outPos + back <= to
  {
    PageFits(f, x.page);
  }

  /** A match that reaches another page is long enough. */
  lemma Crossed(f: Paged, x0: Pos, outPos: nat, to: nat, back: nat, x: Pos, forward: nat)
    requires Hit(f, x0, outPos, to, back) && At(f, x) == to + forward && x.off < f.pageSize
    requires x.page != x.memPage && x.mem == x0.mem && x.memPage == x0.memPage
    ensures forward >= QUERY_SIZE_POW && outPos + back <= to
    ensures Pending(f, x, outPos, to - back - outPos)
  {
    hide Start;
    PageFits(f, x0.page);
    if x.page < x0.page {
      StartMonotone(f, x.page, x0.page);
    } else {
      StartMonotone(f, x0.page, x.page);
    }
  }

  /** The next `len` bytes of the target are on the page in memory. */
  predicate Pending(f: Paged, x: Pos, pos: nat, len: nat) {
    len > 0 ==> x.mem != [] && Start(f, x.memPage) <= pos && pos + len <= Start(f, x.memPage) + |x.mem|
  }

  lemma PendingBytes(f: Paged, x: Pos, pos: nat, len: nat)
    requires Mapped(f, x) && Pending(f, x, pos, len) && len > 0
    ensures var at: nat := pos % f.pageSize;
      at + len <= |x.mem| && pos + len <= |f.data| && x.mem[at..at + len] == f.data[pos..pos + len]
  {
    hide Start, OnPage, PageCount, PageBytes;
    var off: nat := pos - Start(f, x.memPage);
    PageFits(f, x.memPage);
    PlaceUnique(f, x.memPage, off);
    PageStretch(f, x.memPage, off, off + len);
  }

  lemma InsertNothing(m: Control.Made, files: seq<seq<byte>>, target: seq<byte>)
    requires MadeOk(m, files, target)
    ensures m.outPos <= |target| && Inserted(m, target[m.outPos..m.outPos]) == m
  {
  }

  /** A stretch of a source that is next in the target and cannot be made longer. */
  predicate Furthest(data: seq<byte>, from: nat, to: nat, target: seq<byte>, pos: nat) {
    && from < to <= |data| && pos + (to - from) <= |target|
    && target[pos..pos + (to - from)] == data[from..to]
    && (to == |data| || pos + (to - from) == |target| || target[pos + (to - from)] != data[to])
  }

  lemma FurthestEnds(data: seq<byte>, from: nat, to: nat, target: seq<byte>, pos: nat)
    requires Furthest(data, from, to, target, pos)
    ensures from < to <= |data| && pos + (to - from) <= |target|
  {
  }

  lemma MadeInserted(m: Control.Made, r: Control.Made, bytes: seq<byte>)
    requires 0 < |m.tracks| && bytes != [] && r.dataOut == m.dataOut + bytes && r.outPos == m.outPos + |bytes|
    requires r.insts == Copied(m.insts, 0, |m.dataOut|, |m.dataOut| + |bytes|)
    requires r.tracks == if Continues(m.insts, 0, |m.dataOut|) then m.tracks
                         else m.tracks[0 := Tracked(m.tracks[0], |m.dataOut|, |m.dataOut| + |bytes|)]
    ensures r == Inserted(m, bytes)
  {
  }

  lemma MadeCopied(m: Control.Made, r: Control.Made, k: nat, from: nat, to: nat)
    requires k < |m.tracks| && from <= to && r.dataOut == m.dataOut && r.outPos == m.outPos + (to - from)
    requires r.insts == Copied(m.insts, k, from, to)
    requires r.tracks == if Continues(m.insts, k, from) then m.tracks else m.tracks[k := Tracked(m.tracks[k], from, to)]
    ensures r == Make(m, k, from, to)
  {
  }
}
