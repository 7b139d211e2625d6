/**
  xdelta3-blkcache.h: blocks of the source in a fixed number of buffers, replaced in the
  order of last use or, for a source of unknown size, in turn.
 */
module BlkCache {
  import opened Bytes
  import opened LinkedList
  import opened Blocks
  import opened Recency
  import Arith

  const MAX_LRU_SIZE: nat := 32

  /** Where block `b` begins, if the file goes that far. */
  function Begin(data: seq<byte>, blksize: nat, b: nat): (p: nat)
    ensures p <= |data|
  {
    Arith.Product(b, blksize);
    Min(b * blksize, |data|)
  }

  lemma BeginNext(data: seq<byte>, blksize: nat, b: nat)
    ensures Begin(data, blksize, b + 1) == Begin(data, blksize, b) + |Block(data, blksize, b)|
    ensures Begin(data, blksize, 0) == 0
    ensures Block(data, blksize, b) == data[Begin(data, blksize, b)..Begin(data, blksize, b + 1)]
    ensures |Block(data, blksize, b)| == Min(blksize, |data| - Begin(data, blksize, b))
  {
    assert (b + 1) * blksize == b * blksize + blksize;
  }

  lemma BeginMonotone(data: seq<byte>, blksize: nat, a: nat, b: nat)
    requires a < b
    ensures Begin(data, blksize, a) <= Begin(data, blksize, b)
    ensures Begin(data, blksize, b) < |data| || (blksize > 0 && b * blksize == |data|) ==>
      Begin(data, blksize, a) + blksize <= Begin(data, blksize, b)
  {
    Arith.Multiples(a, b, blksize);
  }

  // ----------------------------------------------------------- last use

  /** When `e` was used last, counting from 1; 0 if never. */
  function LastUse(log: seq<nat>, e: nat): nat {
    if log == [] then 0
    else if log[|log| - 1] == e then |log|
    else LastUse(log[..|log| - 1], e)
  }

  /** The list is a permutation of all slots, the one used longest ago in front. */
  predicate ByLastUse(order: seq<nat>, log: seq<nat>, n: nat) {
    && (forall i: nat | i < n :: i in order)
    && forall a, b | 0 <= a < b < |order| :: LastUse(log, order[a]) < LastUse(log, order[b])
  }

  lemma LastUseStep(log: seq<nat>, e: nat, x: nat)
    ensures LastUse(log + [e], x) == if x == e then |log| + 1 else LastUse(log, x)
    ensures LastUse(log, x) <= |log|
    decreases |log|
  {
    assert (log + [e])[..|log|] == log;
    if log != [] {
      LastUseStep(log[..|log| - 1], e, x);
    }
  }

  /** Using a slot takes it to the end of the list. */
  lemma Used(order: seq<nat>, log: seq<nat>, n: nat, k: nat)
    requires ByLastUse(order, log, n) && k < |order|
    ensures ByLastUse(Without(order, k) + [order[k]], log + [order[k]], n)
  {
    var e := order[k];
    var r := Without(order, k) + [e];
    forall i: nat | i < n ensures i in r {
      var j := PlaceOf(order, log, n, i);
      assert j < k ==> r[j] == i;
      assert j > k ==> r[j - 1] == i;
      assert r[|order| - 1] == e;
    }
    forall a, b | 0 <= a < b < |r|
      ensures LastUse(log + [e], r[a]) < LastUse(log + [e], r[b])
    {
      var a': nat := if a < k then a else a + 1;
      assert r[a] == order[a'];
      LastUseStep(log, e, r[a]);
      LastUseStep(log, e, r[b]);
      if b < |r| - 1 {
        var b': nat := if b < k then b else b + 1;
        assert r[b] == order[b'];
        assert LastUse(log, order[a']) < LastUse(log, order[b']);
        if a' < k { assert LastUse(log, order[a']) < LastUse(log, order[k]); }
        if k < a' { assert LastUse(log, order[k]) < LastUse(log, order[a']); }
        if b' < k { assert LastUse(log, order[b']) < LastUse(log, order[k]); }
        if k < b' { assert LastUse(log, order[k]) < LastUse(log, order[b']); }
      } else {
        if a' < k { assert LastUse(log, order[a']) < LastUse(log, order[k]); }
        if k < a' { assert LastUse(log, order[k]) < LastUse(log, order[a']); }
      }
    }
  }

  /** The numbers of the blocks in the slots, in the order of the list. */
  function InOrder(slots: seq<Slot>, order: seq<nat>): (r: seq<Option<nat>>)
    ensures |r| == |order|
  {
    seq(|order|, k requires 0 <= k < |order| => if order[k] < |slots| then slots[order[k]].blkno else None)
  }

  lemma InOrderJoin(slots: seq<Slot>, a: seq<nat>, b: seq<nat>)
    ensures InOrder(slots, a + b) == InOrder(slots, a) + InOrder(slots, b)
  {
  }

  /** A block that is there goes to the end. */
  lemma HitOrder(slots: seq<Slot>, data: seq<byte>, blksize: nat, order: seq<nat>, k: nat, b: nat)
    requires Slots(slots, data, blksize) && Distinct(order) && k < |order| && order[k] < |slots|
    requires slots[order[k]].blkno == Some(b)
    ensures InOrder(slots, Moved(order, order[k])) == Next(InOrder(slots, order), Some(b))
  {
    hide Removed, InOrder, Next;
    var x, y := order[..k], order[k + 1..];
    RemovedAt(order, k);
    assert order == x + ([order[k]] + y);
    InOrderJoin(slots, x + y, [order[k]]);
    InOrderJoin(slots, x, y);
    InOrderJoin(slots, x, [order[k]] + y);
    InOrderJoin(slots, [order[k]], y);
    NotElsewhere(slots, data, blksize, order, k, b);
    OneInOrder(slots, order[k]);
    HitJoin(InOrder(slots, x), InOrder(slots, y), Some(b));
  }

  lemma OneInOrder(slots: seq<Slot>, i: nat)
    requires i < |slots|
    ensures InOrder(slots, [i]) == [slots[i].blkno]
  {
  }

  lemma HitJoin<T>(x: seq<T>, y: seq<T>, e: T)
    requires e !in x && e !in y
    ensures Next(x + ([e] + y), e) == x + y + [e]
  {
    hide Removed;
    RemovedJoin(x, [e] + y, e);
    RemovedJoin([e], y, e);
    RemovedAbsent(x, e);
    RemovedAbsent(y, e);
    OnlyRemoved(e);
    assert x + ([] + y) == x + y;
  }

  lemma NotElsewhere(slots: seq<Slot>, data: seq<byte>, blksize: nat, order: seq<nat>, k: nat, b: nat)
    requires Slots(slots, data, blksize) && Distinct(order) && k < |order| && order[k] < |slots|
    requires slots[order[k]].blkno == Some(b)
    ensures Some(b) !in InOrder(slots, order[..k]) && Some(b) !in InOrder(slots, order[k + 1..])
  {
    var x, y := order[..k], order[k + 1..];
    forall i: nat | i < |x| ensures InOrder(slots, x)[i] != Some(b) {
      assert x[i] == order[i] != order[k];
    }
    forall i: nat | i < |y| ensures InOrder(slots, y)[i] != Some(b) {
      assert y[i] == order[k + 1 + i] != order[k];
    }
  }

  /** A block that is not takes the place of the first. */
  lemma MissOrder(slots: seq<Slot>, slots': seq<Slot>, order: seq<nat>, b: nat)
    requires Distinct(order) && order != [] && order[0] < |slots| == |slots'| && slots'[order[0]].blkno == Some(b)
    requires forall j: nat | j < |slots| && j != order[0] :: slots'[j] == slots[j]
    requires forall j | 0 <= j < |slots| :: slots[j].blkno != Some(b)
    ensures InOrder(slots', Moved(order, order[0])) == Next(InOrder(slots, order), Some(b))
  {
    hide Removed;
    RemovedAt(order, 0);
    assert Moved(order, order[0]) == order[1..] + [order[0]];
    var r := InOrder(slots, order);
    forall k: nat | k < |r| ensures r[k] != Some(b) {
    }
    InOrderJoin(slots', order[1..], [order[0]]);
    forall k: nat | k < |order| - 1 ensures InOrder(slots', order[1..])[k] == r[k + 1] {
      assert order[1..][k] == order[k + 1] != order[0];
    }
    assert InOrder(slots', order[1..]) == r[1..];
  }

  // -------------------------------------------------------- the source file

  class SourceFile {
    const data: seq<byte>
    const seekable: bool
    var at: nat
    var sourcePosition: nat
    var seekFailed: bool

    constructor (data: seq<byte>, seekable: bool)
      ensures this.data == data && this.seekable == seekable && at == sourcePosition == 0 && !seekFailed
    {
      this.data, this.seekable := data, seekable;
      at, sourcePosition, seekFailed := 0, 0, false;
    }

    /** main_file_seek */
    method Seek(pos: nat) returns (ok: bool)
      requires pos <= |data|
      modifies this`at
      ensures ok == seekable && at == if ok then pos else old(at)
    {
      ok := seekable;
      if ok {
        at := pos;
      }
    }

    /** main_read_primary_input */
    method Read(n: nat) returns (bytes: seq<byte>)
      requires at <= |data|
      modifies this`at
      ensures at == old(at) + |bytes| <= |data| && bytes == data[old(at)..at] && |bytes| == Min(n, |data| - old(at))
    {
      var m: nat := Min(n, |data| - at);
      bytes := data[at..at + m];
      at := at + m;
    }
  }

  // -------------------------------------------------------------- the cache

  /** A buffer; without a number it holds nothing of use. */
  datatype Slot = Slot(blkno: Option<nat>, blk: seq<byte>)

  datatype Status = Fine | TooFarBack | InvalidInput

  /** No slot holds anything but its block, and no two hold the same. */
  predicate Slots(slots: seq<Slot>, data: seq<byte>, blksize: nat) {
    && (forall i | 0 <= i < |slots| && slots[i].blkno.Some? ::
        slots[i].blk == Block(data, blksize, slots[i].blkno.value))
    && forall i, j | 0 <= i < j < |slots| && slots[i].blkno.Some? :: slots[i].blkno != slots[j].blkno
  }

  /** Blocks that came in turn: each in its own place, and none not read yet. */
  predicate InTurn(slots: seq<Slot>, fifo: bool, seekable: bool, read: nat) {
    && (fifo ==> forall i: nat | i < |slots| && slots[i].blkno.Some? :: slots[i].blkno.value % |slots| == i)
    && (!seekable ==> forall i: nat | i < |slots| && slots[i].blkno.Some? :: slots[i].blkno.value < read)
  }

  /** All blocks read so far are there, but for those `hi` will drive out. */
  predicate Window(slots: seq<Slot>, read: nat, hi: nat) {
    |slots| > 0 && forall b: nat | b < read && hi <= b + |slots| :: slots[b % |slots|].blkno == Some(b)
  }

  lemma SlotFilled(slots: seq<Slot>, data: seq<byte>, blksize: nat, i: nat, b: nat)
    requires Slots(slots, data, blksize) && i < |slots|
    requires forall j | 0 <= j < |slots| && j != i :: slots[j].blkno != Some(b)
    ensures Slots(slots[i := Slot(Some(b), Block(data, blksize, b))], data, blksize)
  {
  }

  lemma SlotEmptied(slots: seq<Slot>, data: seq<byte>, blksize: nat, i: nat)
    requires Slots(slots, data, blksize) && i < |slots|
    ensures Slots(slots[i := slots[i].(blkno := None)], data, blksize)
  {
  }

  /** The first window of the source, cut into blocks. */
  method FirstSlots(first: seq<byte>, n: nat, size: nat) returns (s: array<Slot>)
    ensures fresh(s) && s.Length == n && forall i: nat | i < n :: s[i] == Slot(Some(i), Block(first, size, i))
  {
    s := new Slot[n](_ => Slot(None, []));
    for i := 0 to n
      invariant forall j: nat | j < i :: s[j] == Slot(Some(j), Block(first, size, j))
    {
      s[i] := Slot(Some(i), Block(first, size, i));
    }
  }

  /** All slots in the list, in the order of their numbers. */
  method FullList(n: nat) returns (l: Links)
    ensures fresh(l) && fresh(l.next) && fresh(l.prev) && l.Valid() && l.n == n && l.order == Up(n)
    ensures ByLastUse(l.order, Up(n), n)
  {
    hide Linked, ByLastUse;
    l := new Links(n);
    NothingUsed();
    for i := 0 to n
      invariant l.Valid() && l.n == n && fresh(l) && fresh(l.next) && fresh(l.prev)
      invariant l.order == Up(i) && ByLastUse(l.order, Up(i), i)
    {
      UsedNext(i);
      l.PushBack(i);
    }
  }

  lemma SplitWindow(window: nat)
    requires window % MAX_LRU_SIZE == 0
    ensures MAX_LRU_SIZE * (window / MAX_LRU_SIZE) == window
  {
  }

  class Cache {
    const blksize: nat
    const slots: array<Slot>
    const list: Links
    const fifo: bool
    const file: SourceFile
    var curblkno: nat
    var curblk: seq<byte>
    ghost var log: seq<nat>
    ghost var read: nat

    /** The part of main_set_source that sets up the blocks.  A source that fits into the
        window is one block; any other gets all the buffers, filled with its beginning.  A
        source whose size is not known is read in turn. */
    constructor (file: SourceFile, window: nat, sizeKnown: bool)
      requires window > 0 && window % MAX_LRU_SIZE == 0 && file.at == file.sourcePosition == 0 && !file.seekFailed
      modifies file
      ensures Valid() && this.file == file && read * blksize >= Min(window, |file.data|)
      ensures fifo <==> !sizeKnown && |file.data| >= window
      ensures fifo ==> Window(slots[..], read, read)
      ensures slots.Length == (if fifo || |file.data| > window then MAX_LRU_SIZE else 1)
      ensures blksize * slots.Length == window && read == slots.Length
      ensures list.order == Up(slots.Length) && forall i: nat | i < slots.Length :: slots[i].blkno == Some(i)
    {
      var first := file.Read(window);
      file.sourcePosition := |first|;
      var known := sizeKnown || |first| < window;
      var split := !known || |file.data| > window;
      var n := if split then MAX_LRU_SIZE else 1;
      var size := if split then window / MAX_LRU_SIZE else window;
      var s := FirstSlots(first, n, size);
      var l := FullList(n);
      SplitWindow(window);
      FirstBlocks(s[..], first, file.data, size, n, !known, file.seekable, window);
      this.file, blksize, fifo := file, size, !known;
      slots, list, log, read := s, l, Up(n), n;
      curblkno, curblk := 0, first;
    }

    /** All but the place in the file. */
    ghost predicate Kept()
      reads this, slots, list, list.next, list.prev
    {
      && blksize > 0 && slots.Length > 0 && list.n == slots.Length && list.Valid()
      && ByLastUse(list.order, log, slots.Length)
      && Slots(slots[..], file.data, blksize) && InTurn(slots[..], fifo, file.seekable, read)
    }

    ghost predicate Valid()
      reads this, slots, list, list.next, list.prev, file
    {
      Kept() && file.at == file.sourcePosition == Begin(file.data, blksize, read)
          && (file.seekFailed ==> !file.seekable)
    }

    ghost predicate InFile(blkno: nat) {
      blkno * blksize <= |file.data|
    }

    /** The search of main_getblk_lru. */
    method Find(blkno: nat) returns (found: bool, i: nat)
      ensures found ==> i < slots.Length && slots[i].blkno == Some(blkno)
      ensures !found ==> forall j | 0 <= j < slots.Length :: slots[j].blkno != Some(blkno)
    {
      i := 0;
      while i < slots.Length && slots[i].blkno != Some(blkno)
        invariant i <= slots.Length && forall j | 0 <= j < i :: slots[j].blkno != Some(blkno)
      {
        i := i + 1;
      }
      found := i < slots.Length;
    }

    /** A slot moves to the end of the list. */
    method Touch(i: nat)
      requires Kept() && i < slots.Length
      modifies this`log, list`order, list.next, list.prev
      ensures Kept() && log == old(log) + [i] && list.order == Moved(old(list.order), i)
      ensures exists k: nat :: k < |old(list.order)| && old(list.order)[k] == i
    {
      hide Linked, Slots, InTurn, ByLastUse, Without, Moved;
      ghost var k := PlaceOf(list.order, log, slots.Length, i);
      Used(list.order, log, slots.Length, k);
      WithoutGone(list.order, k) by { OrderDistinct(list); }
      WithoutMoves(list.order, k) by { OrderDistinct(list); }
      list.Remove(i, k);
      list.PushBack(i);
      log := log + [i];
    }

    /** The slot used longest ago moves to the end of the list. */
    method Evict() returns (i: nat)
      requires Kept()
      modifies this`log, list`order, list.next, list.prev
      ensures Kept() && i < slots.Length && log == old(log) + [i] && old(list.order) != [] && i == old(list.order)[0]
      ensures forall j: nat | j < slots.Length && j != i :: LastUse(old(log), i) < LastUse(old(log), j)
      ensures list.order == Moved(old(list.order), i)
    {
      hide Linked, Slots, InTurn, ByLastUse, Without, Moved;
      FrontIsOldest(list.order, log, slots.Length);
      Used(list.order, log, slots.Length, 0);
      WithoutGone(list.order, 0) by { OrderDistinct(list); }
      WithoutMoves(list.order, 0) by { OrderDistinct(list); }
      assert Without(list.order, 0) == list.order[1..] by { WithoutFirst(list.order); }
      FrontInside(list);
      i := list.PopFront();
      list.PushBack(i);
      log := log + [i];
    }

    /** main_getblk_lru: the slot that holds a block, or one that is free to. */
    method GetLru(blkno: nat) returns (status: Status, i: nat, isNew: bool)
      requires Kept()
      modifies this`log, slots, list`order, list.next, list.prev
      ensures Kept() && status != InvalidInput && i < slots.Length
      ensures status == TooFarBack <==> fifo && TooLate(old(slots[..]), blkno)
      ensures status == TooFarBack ==> slots[..] == old(slots[..])
      ensures status == Fine && !isNew ==> slots[..] == old(slots[..]) && slots[i].blkno == Some(blkno)
      ensures status == Fine && isNew ==>
        slots[..] == old(slots[..])[i := old(slots[i]).(blkno := None)] && (fifo ==> i == blkno % slots.Length)
      ensures status == Fine && isNew ==>
        forall j | 0 <= j < slots.Length :: slots[j].blkno != Some(blkno) && old(slots[j]).blkno != Some(blkno)
      ensures status == Fine && !fifo ==> log == old(log) + [i] && list.order == Moved(old(list.order), i)
      ensures status == Fine && !fifo && !isNew ==>
        exists k: nat :: k < |old(list.order)| && old(list.order)[k] == i
      ensures status == Fine && !fifo && isNew ==> old(list.order) != [] && i == old(list.order)[0]
      ensures fifo ==> list.order == old(list.order)
      ensures status == Fine && !fifo && isNew ==>
        forall j: nat | j < slots.Length && j != i :: LastUse(old(log), i) < LastUse(old(log), j)
    {
      hide Linked, ByLastUse, Slots, LastUse;
      status, i, isNew := Fine, 0, false;
      if fifo {
        i := blkno % slots.Length;
        if slots[i].blkno != Some(blkno) {
          if slots[i].blkno.Some? && slots[i].blkno.value > blkno {
            status := TooFarBack;
          } else {
            isNew := true;
          }
        }
      } else {
        var found;
        found, i := Find(blkno);
        if found {
          Touch(i);
        } else {
          isNew := true;
          i := Evict();
        }
      }
      if isNew {
        SlotEmptied(slots[..], file.data, blksize, i);
        slots[i] := slots[i].(blkno := None);
      }
    }

    /** A block is read into a slot, from where the file stands. */
    method ReadBlock(blkno: nat, i: nat)
      requires Valid() && InFile(blkno) && file.sourcePosition == blkno * blksize && i < slots.Length
      requires forall j | 0 <= j < slots.Length :: slots[j].blkno != Some(blkno)
      requires fifo ==> i == blkno % slots.Length
      modifies slots, this`read, file`at, file`sourcePosition
      ensures Valid() && slots[..] == old(slots[..])[i := Slot(Some(blkno), Block(file.data, blksize, blkno))]
      ensures read == if file.seekable then blkno + 1 else Max(old(read), blkno + 1)
    {
      hide Linked, ByLastUse, Slots, Begin, Block;
      Standing(file.data, blksize, blkno, read);
      BeginNext(file.data, blksize, blkno);
      SlotFilled(slots[..], file.data, blksize, i, blkno);
      TurnFilled(slots[..], fifo, file.seekable, read, i, blkno, Block(file.data, blksize, blkno));
      var bytes := file.Read(blksize);
      file.sourcePosition := file.sourcePosition + |bytes|;
      slots[i] := Slot(Some(blkno), bytes);
      read := if file.seekable then blkno + 1 else Max(read, blkno + 1);
    }

    /** main_read_seek_source: to the beginning of a block, by seeking or by reading all
        blocks before it, each into the slot the cache gives it. */
    method SeekSource(blkno: nat) returns (status: Status)
      requires Valid() && InFile(blkno) && blkno * blksize != file.sourcePosition
      requires forall j | 0 <= j < slots.Length :: slots[j].blkno != Some(blkno)
      modifies this`log, this`read, slots, list`order, list.next, list.prev, file
      ensures Valid() && status != InvalidInput && (status == Fine <==> file.seekable || blkno > old(read))
      ensures status == Fine ==> file.sourcePosition == blkno * blksize
      ensures status != Fine ==> Unmoved(slots[..], read, file.sourcePosition, old(slots[..]), old(read),
                                         old(file.sourcePosition))
      ensures file.seekable ==> slots[..] == old(slots[..]) && log == old(log) && list.order == old(list.order)
      ensures forall j | 0 <= j < slots.Length :: slots[j].blkno != Some(blkno)
      ensures !file.seekable ==> old(read) <= read <= Max(old(read), blkno)
      ensures !file.seekable && fifo && old(Window(slots[..], read, blkno + 1)) ==> Window(slots[..], read, blkno + 1)
    {
      hide Linked, ByLastUse, Slots, InTurn, Begin, Block, Window;
      status := Fine;
      var pos := blkno * blksize;
      BeginInFile(file.data, blksize, blkno, read);
      var sought := false;
      if !file.seekFailed {
        sought := file.Seek(pos);
        if sought {
          file.sourcePosition := pos;
          read := blkno;
          SeekTurn(slots[..], fifo, old(read), read);
        }
      }
      if !sought {
        if file.sourcePosition > pos {
          file.seekFailed := true;
          status := TooFarBack;
        } else {
          file.seekFailed := true;
          SkipTo(blkno);
        }
      }
    }

    /** The blocks before a block are read and kept. */
    method SkipTo(blkno: nat)
      requires Valid() && InFile(blkno) && read <= blkno && !file.seekable
      requires forall j | 0 <= j < slots.Length :: slots[j].blkno != Some(blkno)
      modifies this`log, this`read, slots, list`order, list.next, list.prev, file`at, file`sourcePosition
      ensures Valid() && read == blkno && file.sourcePosition == blkno * blksize
      ensures forall j | 0 <= j < slots.Length :: slots[j].blkno != Some(blkno)
      ensures fifo && old(Window(slots[..], read, blkno + 1)) ==> Window(slots[..], read, blkno + 1)
    {
      hide Linked, ByLastUse, Slots, Begin, Block, Window, InTurn;
      BeginInFile(file.data, blksize, blkno, read);
      while file.sourcePosition < blkno * blksize
        invariant Valid() && read <= blkno
        invariant forall j | 0 <= j < slots.Length :: slots[j].blkno != Some(blkno)
        invariant fifo && old(Window(slots[..], read, blkno + 1)) ==> Window(slots[..], read, blkno + 1)
        decreases blkno - read
      {
        BeginInFile(file.data, blksize, blkno, read);
        SkipOne(blkno);
      }
      BeginInFile(file.data, blksize, blkno, read);
    }

    method SkipOne(blkno: nat)
      requires Valid() && InFile(blkno) && read < blkno && !file.seekable
      requires forall j | 0 <= j < slots.Length :: slots[j].blkno != Some(blkno)
      modifies this`log, this`read, slots, list`order, list.next, list.prev, file`at, file`sourcePosition
      ensures Valid() && read == old(read) + 1
      ensures forall j | 0 <= j < slots.Length :: slots[j].blkno != Some(blkno)
      ensures fifo && old(Window(slots[..], read, blkno + 1)) ==> Window(slots[..], read, blkno + 1)
    {
      hide Linked, ByLastUse, Slots, Begin, Block, Window;
      SkipPlace(file.data, blksize, read, blkno);
      var skip := file.sourcePosition / blksize;
      assert skip == read;
      ghost var before := slots[..];
      var status, i, isNew := GetLru(skip);
      assert status == Fine && isNew;
      ReadBlock(skip, i);
      if fifo && Window(before, skip, blkno + 1) {
        WindowStep(before, slots[..], skip, blkno + 1, Block(file.data, blksize, skip));
      }
    }

    /** A block is in the cache. */
    ghost predicate Cached(blkno: nat)
      reads slots
    {
      exists j :: 0 <= j < slots.Length && slots[j].blkno == Some(blkno)
    }

    /** Whether a block can still be had. */
    ghost predicate Reachable(blkno: nat)
      reads this, slots, file
    {
      && !(fifo && TooLate(slots[..], blkno))
      && (Cached(blkno) || file.seekable || file.sourcePosition <= blkno * blksize)
    }

    /** main_getblk_func: the bytes of a block.  It fails exactly for blocks that cannot be had
        any more, and can be called again after that.  A source that cannot seek and is read
        in turn keeps its last blocks, whether requests fail or not. */
    method GetBlk(blkno: nat) returns (status: Status)
      requires Valid() && InFile(blkno)
      modifies this, slots, list, list.next, list.prev, file
      ensures Valid() && status in {Fine, TooFarBack} && (status == Fine <==> old(Reachable(blkno)))
      ensures status == Fine ==> curblkno == blkno && curblk == Block(file.data, blksize, blkno)
      ensures status != Fine ==>
        read == old(read) && file.sourcePosition == old(file.sourcePosition) && curblk == old(curblk)
        && (fifo && old(TooLate(slots[..], blkno)) ==> slots[..] == old(slots[..]))
      ensures status != Fine && !(fifo && old(TooLate(slots[..], blkno))) ==>
        && (!fifo ==> old(list.order) != [])
        && var i := if fifo then blkno % slots.Length else old(list.order)[0];
        && i < slots.Length && slots[..] == old(slots[..])[i := old(slots[..])[i].(blkno := None)]
      ensures !fifo && old(Cached(blkno)) ==> slots[..] == old(slots[..])
      ensures file.seekable && !fifo && !old(Cached(blkno)) ==>
        old(list.order) != [] && var i := old(list.order)[0];
        && i < slots.Length
        && slots[..] == old(slots[..])[i := Slot(Some(blkno), Block(file.data, blksize, blkno))]
      ensures file.seekable && !fifo ==> status == Fine
      ensures !file.seekable && fifo && old(Window(slots[..], read, read)) ==>
        (status == Fine <==> blkno + slots.Length >= old(read)) && Window(slots[..], read, read)
      ensures file.seekable && !fifo ==>
        InOrder(slots[..], list.order) == Next(old(InOrder(slots[..], list.order)), Some(blkno))
    {
      hide Linked, ByLastUse, Slots, LastUse, InTurn, Window, TooLate, Begin, Block, Moved, Next, InOrder;
      var i: nat, isNew;
      ghost var before, order := slots[..], list.order;
      OrderDistinct(list);
      if fifo && Window(before, read, read) {
        WindowLookup(before, read, blkno);
        NotLate(before, fifo, file.seekable, read, blkno);
      }
      status, i, isNew := GetLru(blkno);
      if status == Fine && isNew {
        status := Fetch(blkno, i, before);
        if file.seekable && !fifo {
          MissOrder(before, slots[..], order, blkno);
        }
      } else if status == Fine && !fifo {
        ghost var k: nat :| k < |order| && order[k] == i;
        HitOrder(before, file.data, blksize, order, k, blkno);
      }
      if status == Fine {
        SlotHolds(slots[..], file.data, blksize, i);
        curblkno := blkno;
        curblk := slots[i].blk;
      }
    }

    /** The part of main_getblk_func for a block that is not in the cache. */
    method Fetch(blkno: nat, i: nat, ghost before: seq<Slot>) returns (status: Status)
      requires Valid() && InFile(blkno) && i < slots.Length && (fifo ==> i == blkno % slots.Length)
      requires |before| == slots.Length && slots[..] == before[i := before[i].(blkno := None)]
      requires forall j | 0 <= j < slots.Length :: slots[j].blkno != Some(blkno)
      modifies this`log, this`read, slots, list`order, list.next, list.prev, file
      ensures Valid() && status != InvalidInput && (status == Fine ==> slots[i].blkno == Some(blkno))
      ensures status == Fine <==> file.seekable || old(file.sourcePosition) <= blkno * blksize
      ensures status != Fine ==> Unmoved(slots[..], read, file.sourcePosition, old(slots[..]), old(read),
                                         old(file.sourcePosition))
      ensures file.seekable ==>
        list.order == old(list.order) && log == old(log)
        && slots[..] == before[i := Slot(Some(blkno), Block(file.data, blksize, blkno))]
      ensures !file.seekable && fifo && Window(before, old(read), old(read)) && blkno >= old(read) ==>
        status == Fine && Window(slots[..], read, read)
    {
      hide Linked, ByLastUse, Slots, LastUse, InTurn, Window, Begin, Block;
      status := Fine;
      ghost var start := read;
      ghost var window := !file.seekable && fifo && Window(before, read, read) && blkno >= read;
      BeginInFile(file.data, blksize, blkno, read);
      if window {
        WindowEmptied(before, slots[..], read, blkno);
      }
      if blkno * blksize != file.sourcePosition {
        status := SeekSource(blkno);
      }
      if status == Fine {
        ghost var now := slots[..];
        BeginInFile(file.data, blksize, blkno, read);
        ReadBlock(blkno, i);
        if window {
          WindowStep(now, slots[..], blkno, blkno + 1, Block(file.data, blksize, blkno));
        }
      }
    }
  }

  /** Nothing has been read. */
  predicate Unmoved(slots: seq<Slot>, read: nat, at: nat, slots': seq<Slot>, read': nat, at': nat) {
    slots == slots' && read == read' && at == at'
  }

  /** The place of a block holds a later one. */
  predicate TooLate(slots: seq<Slot>, blkno: nat) {
    |slots| > 0 && slots[blkno % |slots|].blkno.Some? && slots[blkno % |slots|].blkno.value > blkno
  }

  lemma PlaceOf(order: seq<nat>, log: seq<nat>, n: nat, i: nat) returns (k: nat)
    requires ByLastUse(order, log, n) && i < n
    ensures k < |order| && order[k] == i
  {
    assert i in order;
    k :| 0 <= k < |order| && order[k] == i;
  }

  lemma WithoutGone(order: seq<nat>, k: nat)
    requires k < |order| && Distinct(order)
    ensures order[k] !in Without(order, k)
  {
  }

  lemma WithoutMoves(order: seq<nat>, k: nat)
    requires k < |order| && Distinct(order)
    ensures Without(order, k) + [order[k]] == Moved(order, order[k])
  {
    RemovedAt(order, k);
  }

  lemma WithoutFirst(order: seq<nat>)
    requires order != []
    ensures Without(order, 0) == order[1..]
  {
  }

  lemma OrderDistinct(list: Links)
    requires list.Valid()
    ensures Distinct(list.order)
  {
  }

  lemma FrontInside(list: Links)
    requires list.Valid() && list.order != []
    ensures list.order[0] < list.n
  {
  }

  lemma FrontIsOldest(order: seq<nat>, log: seq<nat>, n: nat)
    requires ByLastUse(order, log, n) && n > 0
    ensures order != []
    ensures forall j: nat | j < n && j != order[0] :: LastUse(log, order[0]) < LastUse(log, j)
  {
    var z := PlaceOf(order, log, n, 0);
    forall j: nat | j < n && j != order[0]
      ensures LastUse(log, order[0]) < LastUse(log, j)
    {
      var k := PlaceOf(order, log, n, j);
    }
  }

  lemma SlotHolds(slots: seq<Slot>, data: seq<byte>, blksize: nat, i: nat)
    requires Slots(slots, data, blksize) && i < |slots| && slots[i].blkno.Some?
    ensures slots[i].blk == Block(data, blksize, slots[i].blkno.value)
  {
  }

  lemma TurnFilled(slots: seq<Slot>, fifo: bool, seekable: bool, read: nat, i: nat, b: nat, blk: seq<byte>)
    requires InTurn(slots, fifo, seekable, read) && i < |slots| && (fifo ==> i == b % |slots|)
    ensures InTurn(slots[i := Slot(Some(b), blk)], fifo, seekable, if seekable then b + 1 else Max(read, b + 1))
  {
  }

  lemma SeekTurn(slots: seq<Slot>, fifo: bool, a: nat, b: nat)
    requires InTurn(slots, fifo, true, a)
    ensures InTurn(slots, fifo, true, b)
  {
  }

  /** A file stands at the beginning of a block in it. */
  lemma Standing(data: seq<byte>, blksize: nat, b: nat, read: nat)
    requires b * blksize <= |data| && Begin(data, blksize, read) == b * blksize
    ensures Begin(data, blksize, b) == b * blksize
    ensures Begin(data, blksize, Max(read, b + 1)) == Begin(data, blksize, b + 1)
  {
    if read > b + 1 {
      BeginMonotone(data, blksize, b, b + 1);
      BeginMonotone(data, blksize, b + 1, read);
    }
  }

  lemma BeginInFile(data: seq<byte>, blksize: nat, b: nat, read: nat)
    requires blksize > 0 && b * blksize <= |data|
    ensures Begin(data, blksize, b) == b * blksize
    ensures read < b <==> Begin(data, blksize, read) < b * blksize
  {
    if read < b {
      BeginMonotone(data, blksize, read, b);
    } else if read > b {
      BeginMonotone(data, blksize, b, read);
    }
  }

  lemma SkipPlace(data: seq<byte>, blksize: nat, read: nat, b: nat)
    requires blksize > 0 && read < b && b * blksize <= |data|
    ensures Begin(data, blksize, read) == read * blksize <= |data| && Begin(data, blksize, read) / blksize == read
  {
    Arith.Multiples(read, b, blksize);
    Arith.DivisionUnique(read * blksize, blksize, read, 0);
  }

  /** The next block in turn takes the place of one that is no longer in the window. */
  lemma WindowStep(slots: seq<Slot>, slots': seq<Slot>, read: nat, hi: nat, blk: seq<byte>)
    requires Window(slots, read, hi) && read < hi && |slots'| == |slots|
    requires slots'[read % |slots|] == Slot(Some(read), blk)
    requires forall j: nat | j < |slots| && j != read % |slots| :: slots'[j] == slots[j]
    ensures Window(slots', read + 1, hi)
  {
    var n := |slots|;
    forall b: nat | b < read + 1 && hi <= b + n
      ensures slots'[b % n].blkno == Some(b)
    {
      if b < read {
        DifferentPlace(b, read, n);
      }
    }
  }

  lemma DifferentPlace(a: nat, b: nat, n: nat)
    requires a < b < a + n
    ensures a % n != b % n
  {
    if a % n == b % n {
      var q, p := a / n, b / n;
      assert a == q * n + a % n && b == p * n + b % n;
      if p > q { Arith.Multiples(q, p, n); }
      if q > p { Arith.Multiples(p, q, n); }
    }
  }

  lemma WindowEmptied(slots: seq<Slot>, slots': seq<Slot>, read: nat, b: nat)
    requires Window(slots, read, read) && read <= b && |slots'| == |slots|
    requires forall j: nat | j < |slots| && j != b % |slots| :: slots'[j] == slots[j]
    ensures Window(slots', read, b + 1)
  {
    var n := |slots|;
    forall c: nat | c < read && b + 1 <= c + n
      ensures slots'[c % n].blkno == Some(c)
    {
      DifferentPlace(c, b, n);
    }
  }

  /** What a block's place holds: the block itself, or a later one. */
  lemma WindowLookup(slots: seq<Slot>, read: nat, b: nat)
    requires Window(slots, read, read) && |slots| > 0
    ensures b < read <= b + |slots| ==> slots[b % |slots|].blkno == Some(b)
    ensures b + |slots| < read ==> TooLate(slots, b)
    ensures b < read <= b + |slots| ==> !TooLate(slots, b)
  {
    var n := |slots|;
    if b + n < read {
      var q: nat, r: nat := (read - 1 - b) / n, (read - 1 - b) % n;
      var c: nat := read - 1 - r;
      assert read - 1 - b == q * n + r;
      assert c == b + q * n;
      SamePlace(b, q, n);
      assert slots[c % n].blkno == Some(c);
    }
  }

  lemma NotLate(slots: seq<Slot>, fifo: bool, seekable: bool, read: nat, b: nat)
    requires InTurn(slots, fifo, seekable, read)
    ensures !seekable && read <= b ==> !TooLate(slots, b)
  {
  }

  lemma SamePlace(b: nat, q: nat, n: nat)
    requires n > 0
    ensures (b + q * n) % n == b % n
  {
    var k, r := b / n, b % n;
    assert b + q * n == (k + q) * n + r;
    Arith.DivisionUnique(b + q * n, n, k + q, r);
  }

  /** The numbers from 0 on. */
  function Up(n: nat): (s: seq<nat>)
    ensures |s| == n && forall i | 0 <= i < n :: s[i] == i
  {
    seq(n, i => i)
  }

  lemma NothingUsed()
    ensures Up(0) == [] && ByLastUse([], [], 0)
  {
  }

  lemma UsedNext(i: nat)
    requires ByLastUse(Up(i), Up(i), i)
    ensures i !in Up(i) && Up(i + 1) == Up(i) + [i] && ByLastUse(Up(i + 1), Up(i + 1), i + 1)
  {
    var r := Up(i) + [i];
    assert r == Up(i + 1);
    forall j: nat | j < i + 1 ensures j in r {
      assert r[j] == j;
    }
    forall a, b | 0 <= a < b < |r|
      ensures LastUse(r, r[a]) < LastUse(r, r[b])
    {
      LastUseStep(Up(i), i, r[a]);
      LastUseStep(Up(i), i, r[b]);
      if b < i {
        assert LastUse(Up(i), Up(i)[a]) < LastUse(Up(i), Up(i)[b]);
      }
    }
  }

  /** The slots filled from the first window hold the source's blocks. */
  lemma FirstBlocks(slots: seq<Slot>, first: seq<byte>, data: seq<byte>, blksize: nat, n: nat, fifo: bool,
      seekable: bool, window: nat)
    requires |slots| == n > 0 && blksize > 0 && n * blksize == window && first == data[..Min(window, |data|)]
    requires forall i: nat | i < n :: slots[i] == Slot(Some(i), Block(first, blksize, i))
    ensures Slots(slots, data, blksize) && InTurn(slots, fifo, seekable, n) && Window(slots, n, n)
    ensures Begin(data, blksize, n) == Min(window, |data|)
  {
    hide Block;
    forall b: nat | b < n ensures b % n == b && Block(first, blksize, b) == Block(data, blksize, b) {
      Arith.DivisionUnique(b, n, 0, b);
      FirstBlock(first, data, blksize, n, b, window);
    }
  }

  lemma FirstBlock(first: seq<byte>, data: seq<byte>, blksize: nat, n: nat, b: nat, window: nat)
    requires b < n && n * blksize == window && first == data[..Min(window, |data|)]
    ensures Block(first, blksize, b) == Block(data, blksize, b)
  {
    Arith.Multiples(b, n, blksize);
    Arith.Product(b, blksize);
    var p := b * blksize;
    assert Min(p, |first|) == Min(p, |data|) && Min(p + blksize, |first|) == Min(p + blksize, |data|);
  }
}
