/**
  xdelta3-decode.h: xd3_decode_input.  The decoder takes its input in pieces; when one is
  used up in the middle of anything it remembers how far it got and asks for more.
 */
module StreamDecode {
  import opened Bytes
  import opened Binary
  import Integers

  datatype State =
    | VcHead | HdrInd | SecondId | TabLen | Near | Same | TabDat | AppLen | AppDat
    | WinInd | CpyLen | CpyOff | EncLen | TgtLen | DelInd | DataLen | InstLen | AddrLen | Cksum
    | Data | Inst | Addr | Emit | Finish

  const HARDMAXWINSIZE: nat := 0x400_0000
  const DJW_ID: nat := 1
  const LZMA_ID: nat := 2
  const FGK_ID: nat := 16

  /** A section of the window: its length, and what has come of it. */
  datatype Section = Section(size: nat, bytes: seq<byte>)

  datatype Header = Header(magic: seq<byte>, indicator: nat, secondId: nat, secondary: bool,
                           codeTableSize: nat, appSize: nat, app: seq<byte>)

  datatype Window = Window(indicator: nat, start: nat, count: nat, current: nat, copyLength: nat, copyOffset: nat,
                           position: nat, maxPosition: nat, encodedLength: nat, targetLength: nat,
                           deltaIndicator: nat, cksum: seq<byte>, adler32: nat)

  /** Everything the decoder remembers between two pieces of input. */
  datatype Dec = Dec(state: State, part: nat, hdr: Header, win: Window,
                     data: Section, inst: Section, addr: Section, winBytes: nat)

  /** What the decoder tells the application. */
  datatype Event = GotHeader | WinStart | Output(bytes: seq<byte>) | WinFinish

  /** The width of sizes, what the application wants, which secondary compressors there are,
      and what becomes of the sections of a window. */
  datatype Config = Config(width: nat, justHeader: bool, skipWindow: bool, skipEmit: bool, compressors: set<nat>,
                           unpack: Dec -> Option<Dec>, emit: Dec -> Option<seq<byte>>)

  type Configuration = c: Config | c.width > 7 witness Config(32, false, false, false, {}, d => None, d => None)

  const OFFSET_WIDTH: nat := 64

  predicate Bit(x: nat, k: nat) {
    x / Pow2(k) % 2 == 1
  }

  /** SRCORTGT: one of the two copy windows, but not both. */
  predicate HasCopyWindow(indicator: nat) {
    indicator % 4 == 1 || indicator % 4 == 2
  }

  predicate Overflows(a: nat, b: nat, width: nat) {
    a + b >= Pow2(width)
  }

  // ------------------------------------------------------ what a state reads

  datatype Item = Nothing | OneByte | Size(width: nat) | Several(n: nat) | Skip(n: nat)

  /** What is read in a state. */
  function Wanted(c: Configuration, d: Dec): Item {
    match d.state
    case VcHead => Several(4)
    case HdrInd => OneByte
    case SecondId => if Bit(d.hdr.indicator, 0) then OneByte else Nothing
    case TabLen => if Bit(d.hdr.indicator, 1) then Size(c.width) else Nothing
    case Near => if Bit(d.hdr.indicator, 1) then OneByte else Nothing
    case Same => if Bit(d.hdr.indicator, 1) then OneByte else Nothing
    case AppLen => if Bit(d.hdr.indicator, 2) then Size(c.width) else Nothing
    case AppDat => if Bit(d.hdr.indicator, 2) then Several(d.hdr.appSize) else Nothing
    case WinInd => OneByte
    case CpyLen => if HasCopyWindow(d.win.indicator) then Size(c.width) else Nothing
    case CpyOff =>
      if HasCopyWindow(d.win.indicator) then Size(if c.width > OFFSET_WIDTH then c.width else OFFSET_WIDTH)
      else Nothing
    case EncLen => Size(c.width)
    case TgtLen => Size(c.width)
    case DelInd => OneByte
    case DataLen => Size(c.width)
    case InstLen => Size(c.width)
    case AddrLen => Size(c.width)
    case Cksum => if Bit(d.win.indicator, 2) then Several(4) else Nothing
    case Data => if c.skipWindow then Skip(Needed(d)) else Several(d.data.size)
    case Inst => Several(d.inst.size)
    case Addr => Several(d.addr.size)
    case _ => Nothing
  }

  function Needed(d: Dec): nat {
    d.data.size + d.inst.size + d.addr.size
  }

  /** A number read, in the field it belongs to. */
  function Stored(d: Dec, v: nat): Dec {
    match d.state
    case HdrInd => d.(hdr := d.hdr.(indicator := v))
    case SecondId => d.(hdr := d.hdr.(secondId := v))
    case TabLen => d.(hdr := d.hdr.(codeTableSize := v))
    case AppLen => d.(hdr := d.hdr.(appSize := v))
    case WinInd => d.(win := d.win.(indicator := v))
    case CpyLen => d.(win := d.win.(copyLength := v))
    case CpyOff => d.(win := d.win.(copyOffset := v))
    case EncLen => d.(win := d.win.(encodedLength := v))
    case TgtLen => d.(win := d.win.(targetLength := v))
    case DelInd => d.(win := d.win.(deltaIndicator := v))
    case DataLen => d.(data := Section(v, []))
    case InstLen => d.(inst := Section(v, []))
    case AddrLen => d.(addr := Section(v, []))
    case _ => d
  }

  /** The bytes of a field that have come so far. */
  function Buffer(d: Dec): seq<byte> {
    match d.state
    case VcHead => d.hdr.magic
    case AppDat => d.hdr.app
    case Cksum => d.win.cksum
    case Data => d.data.bytes
    case Inst => d.inst.bytes
    case Addr => d.addr.bytes
    case _ => []
  }

  function Filled(d: Dec, b: seq<byte>): (r: Dec)
    ensures r.state == d.state && r.part == d.part
  {
    match d.state
    case VcHead => d.(hdr := d.hdr.(magic := b))
    case AppDat => d.(hdr := d.hdr.(app := b))
    case Cksum => d.(win := d.win.(cksum := b))
    case Data => d.(data := d.data.(bytes := b))
    case Inst => d.(inst := d.inst.(bytes := b))
    case Addr => d.(addr := d.addr.(bytes := b))
    case _ => d
  }

  // ----------------------------------------------- what happens after reading

  datatype Next = Refused | On(d: Dec) | Tell(e: Event, d: Dec)

  /** The length of an encoded window, as the sizes in it say. */
  function EncodedLength(c: Configuration, d: Dec): nat {
    (1 + |Integers.Encoded(d.win.targetLength)| + |Integers.Encoded(d.data.size)|
     + |Integers.Encoded(d.inst.size)| + |Integers.Encoded(d.addr.size)|
     + Needed(d) + if Bit(d.win.indicator, 2) then 4 else 0) % Pow2(c.width)
  }

  /** The checksum in the order its bytes are sent. */
  function Word(bytes: seq<byte>, before: nat): nat {
    if bytes == [] then before else (Word(bytes[..|bytes| - 1], before) * 256 + bytes[|bytes| - 1]) % 0x1_0000_0000
  }

  function FinishWindow(d: Dec, bytes: seq<byte>): Next {
    Tell(Output(bytes), d.(state := Finish, winBytes := 0, data := d.data.(bytes := []),
        inst := d.inst.(bytes := []), addr := d.addr.(bytes := [])))
  }

  /** The checks that follow what a state reads, and the next state. */
  function After(c: Configuration, d: Dec): Next {
    match d.state
    case VcHead =>
      if d.hdr.magic == [0xd6, 0xc3, 0xc4, 0] then On(d.(state := HdrInd)) else Refused
    case HdrInd =>
      if d.hdr.indicator < 8 then On(d.(state := SecondId)) else Refused
    case SecondId =>
      if Bit(d.hdr.indicator, 0) then
        if d.hdr.secondId in c.compressors && d.hdr.secondId in {DJW_ID, LZMA_ID, FGK_ID} then
          On(d.(state := TabLen, hdr := d.hdr.(secondary := true)))
        else Refused
      else On(d.(state := TabLen))
    case TabLen =>
      if Bit(d.hdr.indicator, 1) then
        if d.hdr.codeTableSize <= 2 then Refused
        else On(d.(state := Near, hdr := d.hdr.(codeTableSize := d.hdr.codeTableSize - 2)))
      else On(d.(state := Near))
    case Near => On(d.(state := Same))
    case Same => On(d.(state := TabDat))
    case TabDat => if Bit(d.hdr.indicator, 1) then Refused else On(d.(state := AppLen))
    case AppLen =>
      // the size is checked where the data is about to be read
      if Bit(d.hdr.indicator, 2) && Overflows(d.hdr.appSize, 1, c.width) then Refused else On(d.(state := AppDat))
    case AppDat => On(d.(state := WinInd))
    case WinInd =>
      if Overflows(d.win.start, d.win.targetLength, OFFSET_WIDTH) || d.win.indicator >= 8 then Refused
      else On(d.(state := CpyLen, win := d.win.(start := d.win.start + d.win.targetLength, current := d.win.count,
                                                copyLength := 0, copyOffset := 0, cksum := [])))
    case CpyLen => On(d.(state := CpyOff, win := d.win.(position := d.win.copyLength)))
    case CpyOff =>
      if Overflows(d.win.copyOffset, d.win.copyLength, OFFSET_WIDTH)
         || (Bit(d.win.indicator, 1) && d.win.copyOffset + d.win.copyLength > d.win.start) then Refused
      else On(d.(state := EncLen))
    case EncLen => On(d.(state := TgtLen))
    case TgtLen =>
      if Overflows(d.win.copyLength, d.win.targetLength, c.width) || d.win.targetLength > HARDMAXWINSIZE then Refused
      else On(d.(state := DelInd, win := d.win.(maxPosition := d.win.copyLength + d.win.targetLength)))
    case DelInd =>
      if d.win.deltaIndicator >= 8 || (d.win.deltaIndicator != 0 && !d.hdr.secondary) then Refused
      else On(d.(state := DataLen))
    case DataLen => On(d.(state := InstLen))
    case InstLen => On(d.(state := AddrLen))
    case AddrLen => On(d.(state := Cksum))
    case Cksum =>
      var w := if Bit(d.win.indicator, 2) then d.win.(adler32 := Word(d.win.cksum, d.win.adler32)) else d.win;
      if d.win.encodedLength != EncodedLength(c, d) then Refused
      else Tell(if d.win.current == 0 then GotHeader else WinStart, d.(state := Data, win := w))
    case Data =>
      if c.skipWindow then FinishWindow(d, []) else On(d.(state := Inst))
    case Inst => On(d.(state := Addr))
    case Addr =>
      var u := c.unpack(d.(state := Emit));
      if u.None? then Refused
      else if c.skipEmit then FinishWindow(u.value, [])
      else if Bit(d.win.indicator, 1) then Refused
      else On(u.value.(state := Emit))
    case Emit =>
      var out := c.emit(d);
      if out.None? then Refused else FinishWindow(d, out.value)
    case Finish => Tell(WinFinish, d.(state := WinInd, win := d.win.(count := d.win.count + 1)))
  }

  /** What xd3_decode_sections does before it reads. */
  function Before(c: Configuration, d: Dec): Option<Next> {
    if d.state == Data && c.justHeader then Some(FinishWindow(d, []))
    else if d.state == Data && (Overflows(d.inst.size, d.addr.size, c.width)
        || Overflows(d.inst.size + d.addr.size, d.data.size, c.width))
    then Some(Refused)
    else None
  }

  // --------------------------------------------------------- step and run

  datatype Out = Wait(d: Dec) | Fail | Go(d: Dec, rest: seq<byte>) | Stop(e: Event, d: Dec, rest: seq<byte>)

  function Settle(n: Next, rest: seq<byte>): Out {
    match n
    case Refused => Fail
    case On(d) => Go(d, rest)
    case Tell(e, d) => Stop(e, d, rest)
  }

  /** One state of the decoder on the input there is. */
  function Step(c: Configuration, d: Dec, s: seq<byte>): Out {
    var b := Before(c, d);
    if b.Some? then Settle(b.value, s) else
    match Wanted(c, d)
    case Nothing => Settle(After(c, d), s)
    case OneByte => if s == [] then Wait(d) else Settle(After(c, Stored(d, s[0])), s[1..])
    case Size(width) => (
      assert width > 7;
      match Integers.ReadFrom(s, d.part, width)
      case NeedInput(p) => Wait(d.(part := p))
      case Overflow => Fail
      case Done(v, rest) => Settle(After(c, Stored(d.(part := 0), v)), rest))
    case Several(n) =>
      var have := |Buffer(d)|;
      if have < n && n - have > |s| then Wait(Filled(d, Buffer(d) + s))
      else
        var take: nat := if have < n then n - have else 0;
        Settle(After(c, Filled(d, Buffer(d) + s[..take])), s[take..])
    case Skip(n) =>
      if d.winBytes < n && n - d.winBytes > |s| then Wait(d.(winBytes := d.winBytes + |s|))
      else
        var take: nat := if d.winBytes < n then n - d.winBytes else 0;
        Settle(After(c, d), s[take..])
  }

  // ------------------------------------------------------------ whole inputs

  /** States in the order they come within a window; only a byte of input starts another. */
  function Rank(s: State): nat {
    match s
    case VcHead => 23 case HdrInd => 22 case SecondId => 21 case TabLen => 20 case Near => 19 case Same => 18
    case TabDat => 17 case AppLen => 16 case AppDat => 15 case CpyLen => 14 case CpyOff => 13 case EncLen => 12
    case TgtLen => 11 case DelInd => 10 case DataLen => 9 case InstLen => 8 case AddrLen => 7 case Cksum => 6
    case Data => 5 case Inst => 4 case Addr => 3 case Emit => 2 case Finish => 1 case WinInd => 0
  }

  lemma AfterRank(c: Configuration, d: Dec)
    ensures var n := After(c, d);
      d.state != WinInd ==> (n.On? || n.Tell?) ==> Rank(n.d.state) < Rank(d.state)
  {
    hide EncodedLength, Word, Overflows, Bit;
  }

  lemma BeforeRank(c: Configuration, d: Dec)
    requires Before(c, d).Some?
    ensures var n := Before(c, d).value; n.On? || n.Tell? ==> Rank(n.d.state) < Rank(d.state)
  {
    hide Overflows;
  }

  lemma StartsWithByte(c: Configuration, d: Dec)
    ensures d.state == WinInd ==> Wanted(c, d).OneByte?
  {
  }

  lemma StepRank(c: Configuration, d: Dec, s: seq<byte>)
    ensures var o := Step(c, d, s);
      o.Go? || o.Stop? ==> |o.rest| < |s| || (|o.rest| == |s| && Rank(o.d.state) < Rank(d.state))
  {
    hide After, Wanted, Before, Stored, Filled, Buffer, Rank;
    StartsWithByte(c, d);
    if Before(c, d).Some? {
      BeforeRank(c, d);
    } else {
      match Wanted(c, d)
      case OneByte =>
        if s != [] {
          StoredState(d, s[0]);
          AfterRank(c, Stored(d, s[0]));
        }
      case Size(width) =>
        SizeWidth(c, d);
        Integers.ReadShorter(s, d.part, width);
      case Several(n) =>
        var have := |Buffer(d)|;
        if have >= n || n - have <= |s| {
          var take: nat := if have < n then n - have else 0;
          AfterRank(c, Filled(d, Buffer(d) + s[..take]));
        }
      case _ => AfterRank(c, d);
    }
  }

  lemma StoredState(d: Dec, v: nat)
    ensures Stored(d, v).state == d.state
  {
  }

  /** What is told about an input, and where the decoder is when it is used up. */
  datatype Result = Result(events: seq<Event>, end: Option<Dec>)

  function Run(c: Configuration, d: Dec, s: seq<byte>): Result
    decreases |s|, Rank(d.state)
  {
    StepRank(c, d, s);
    match Step(c, d, s)
    case Wait(d') => Result([], Some(d'))
    case Fail => Result([], None)
    case Go(d', rest) => Run(c, d', rest)
    case Stop(e, d', rest) => Prepend(e, Run(c, d', rest))
  }

  function Prepend(e: Event, r: Result): Result {
    Result([e] + r.events, r.end)
  }

  /** Going on with more input. */
  function AndThen(c: Configuration, r: Result, s: seq<byte>): Result {
    match r.end
    case None => r
    case Some(d) => var q := Run(c, d, s); Result(r.events + q.events, q.end)
  }

  // ------------------------------------------------------ stopping and going on

  lemma SettleMore(n: Next, rest: seq<byte>, more: seq<byte>)
    ensures Settle(n, rest + more) == Extended(Settle(n, rest), more)
  {
  }

  function Extended(o: Out, more: seq<byte>): Out {
    match o
    case Go(d, rest) => Go(d, rest + more)
    case Stop(e, d, rest) => Stop(e, d, rest + more)
    case _ => o
  }

  /** What a state reads does not depend on what has come of it. */
  lemma FilledKeeps(c: Configuration, d: Dec, b: seq<byte>, e: seq<byte>)
    requires Wanted(c, d).Several?
    ensures Buffer(Filled(d, b)) == b && Filled(Filled(d, b), e) == Filled(d, e)
    ensures Wanted(c, Filled(d, b)) == Wanted(c, d) && Before(c, d).None? ==> Before(c, Filled(d, b)).None?
  {
  }

  lemma WantedFilled(c: Configuration, d: Dec, b: seq<byte>)
    requires Wanted(c, d).Several?
    ensures Wanted(c, Filled(d, b)) == Wanted(c, d)
    ensures Before(c, d).None? ==> Before(c, Filled(d, b)).None?
  {
  }

  lemma PartKeeps(c: Configuration, d: Dec, p: nat)
    ensures Wanted(c, d.(part := p)) == Wanted(c, d) && (Before(c, d).None? ==> Before(c, d.(part := p)).None?)
    ensures Wanted(c, d.(winBytes := p)) == Wanted(c, d) && (Before(c, d).None? ==> Before(c, d.(winBytes := p)).None?)
    ensures forall v: nat :: Stored(d.(part := p).(part := 0), v) == Stored(d.(part := 0), v)
  {
  }

  /** A step with more input: the same, or, where it waited, what the input after it gives. */
  lemma StepSplit(c: Configuration, d: Dec, a: seq<byte>, b: seq<byte>)
    ensures var o := Step(c, d, a);
      Step(c, d, a + b) == if o.Wait? then Step(c, o.d, b) else Extended(o, b)
  {
    hide After, Wanted, Before, Stored, Filled, Buffer;
    var before := Before(c, d);
    if before.Some? {
      SettleMore(before.value, a, b);
    } else {
      var w := Wanted(c, d);
      match w
      case Nothing => SettleMore(After(c, d), a, b);
      case OneByte => OneByteSplit(c, d, a, b);
      case Size(width) => SizeSplit(c, d, a, b);
      case Several(n) => SeveralSplit(c, d, a, b);
      case Skip(n) => SkipSplit(c, d, a, b);
    }
  }

  lemma OneByteSplit(c: Configuration, d: Dec, a: seq<byte>, b: seq<byte>)
    requires Before(c, d).None? && Wanted(c, d).OneByte?
    ensures var o := Step(c, d, a);
      Step(c, d, a + b) == if o.Wait? then Step(c, o.d, b) else Extended(o, b)
  {
    hide After, Wanted, Before, Stored;
    if a == [] {
      assert a + b == b;
    } else {
      assert (a + b)[1..] == a[1..] + b;
      SettleMore(After(c, Stored(d, a[0])), a[1..], b);
    }
  }

  lemma SizeSplit(c: Configuration, d: Dec, a: seq<byte>, b: seq<byte>)
    requires Before(c, d).None? && Wanted(c, d).Size?
    ensures var o := Step(c, d, a);
      Step(c, d, a + b) == if o.Wait? then Step(c, o.d, b) else Extended(o, b)
  {
    hide After, Wanted, Before, Stored;
    var width := Wanted(c, d).width;
    SizeWidth(c, d);
    Integers.ReadOn(a, b, d.part, width);
    match Integers.ReadFrom(a, d.part, width)
    case NeedInput(p) => PartKeeps(c, d, p);
    case Overflow =>
    case Done(v, rest) => SettleMore(After(c, Stored(d.(part := 0), v)), rest, b);
  }

  lemma SizeWidth(c: Configuration, d: Dec)
    requires Wanted(c, d).Size?
    ensures Wanted(c, d).width > 7
  {
  }

  lemma SeveralSplit(c: Configuration, d: Dec, a: seq<byte>, b: seq<byte>)
    requires Before(c, d).None? && Wanted(c, d).Several?
    ensures var o := Step(c, d, a);
      Step(c, d, a + b) == if o.Wait? then Step(c, o.d, b) else Extended(o, b)
  {
    hide After, Wanted, Before, Filled, Buffer;
    var n, have := Wanted(c, d).n, |Buffer(d)|;
    var first := Buffer(d) + a;
    if have < n && n - have > |a| {
      WantedFilled(c, d, first);
      FilledKeeps(c, d, first, first + b);
      assert Buffer(d) + (a + b) == first + b;
      if n - have <= |a + b| {
        var take: nat := n - have;
        var take': nat := take - |a|;
        assert Buffer(d) + (a + b)[..take] == first + b[..take'] && (a + b)[take..] == b[take'..];
        FilledKeeps(c, d, first, first + b[..take']);
      }
    } else {
      var take: nat := if have < n then n - have else 0;
      assert (a + b)[..take] == a[..take] && (a + b)[take..] == a[take..] + b;
      SettleMore(After(c, Filled(d, Buffer(d) + a[..take])), a[take..], b);
    }
  }

  lemma SkipSplit(c: Configuration, d: Dec, a: seq<byte>, b: seq<byte>)
    requires Before(c, d).None? && Wanted(c, d).Skip?
    ensures var o := Step(c, d, a);
      Step(c, d, a + b) == if o.Wait? then Step(c, o.d, b) else Extended(o, b)
  {
    hide After, Wanted, Before;
    var n := Wanted(c, d).n;
    if d.winBytes < n && n - d.winBytes > |a| {
      SkippedAfter(c, d, d.winBytes + |a|);
      if n - d.winBytes <= |a + b| {
        var take: nat := n - d.winBytes;
        assert (a + b)[take..] == b[take - |a|..];
      }
    } else {
      var take: nat := if d.winBytes < n then n - d.winBytes else 0;
      assert (a + b)[take..] == a[take..] + b;
      SettleMore(After(c, d), a[take..], b);
    }
  }

  lemma SkippedAfter(c: Configuration, d: Dec, k: nat)
    requires Before(c, d).None? && Wanted(c, d).Skip?
    ensures var d' := d.(winBytes := k);
      Before(c, d').None? && Wanted(c, d') == Wanted(c, d) && After(c, d') == After(c, d)
  {
  }

  /** An input in two pieces is decoded as it is in one. */
  lemma {:induction false} RunSplit(c: Configuration, d: Dec, a: seq<byte>, b: seq<byte>)
    ensures Run(c, d, a + b) == AndThen(c, Run(c, d, a), b)
    decreases |a|, Rank(d.state)
  {
    hide Step;
    StepSplit(c, d, a, b);
    StepRank(c, d, a);
    var o := Step(c, d, a);
    match o
    case Wait(d') => RunWait(c, d, a + b, d', b);
    case Fail =>
    case Go(d', rest) => RunSplit(c, d', rest, b);
    case Stop(e, d', rest) =>
      RunSplit(c, d', rest, b);
      PrependThen(c, e, Run(c, d', rest), b);
  }

  lemma RunWait(c: Configuration, d: Dec, s: seq<byte>, d': Dec, b: seq<byte>)
    requires Step(c, d, s) == Step(c, d', b)
    ensures Run(c, d, s) == Run(c, d', b)
    ensures Result([], Some(d')).events + Run(c, d', b).events == Run(c, d', b).events
  {
    hide Step;
  }

  lemma PrependThen(c: Configuration, e: Event, r: Result, b: seq<byte>)
    ensures AndThen(c, Prepend(e, r), b) == Prepend(e, AndThen(c, r, b))
  {
    hide Run;
    if r.end.Some? {
      var q := Run(c, r.end.value, b);
      assert [e] + r.events + q.events == [e] + (r.events + q.events);
    }
  }

  // ------------------------------------------------------------ the program

  /** What one call returns: a request for input, an error, or something to tell. */
  datatype Return = Input | Error | Told(e: Event)

  /** A fresh decoder. */
  function Start(): Dec {
    Dec(VcHead, 0, Header([], 0, 0, false, 0, 0, []), Window(0, 0, 0, 0, 0, 0, 0, 0, 0, 0, 0, [], 0),
        Section(0, []), Section(0, []), Section(0, []), 0)
  }

  class Stream {
    const c: Configuration
    var d: Dec
    var nextIn: seq<byte>

    constructor (c: Configuration)
      ensures this.c == c && d == Start() && nextIn == []
    {
      this.c, d, nextIn := c, Start(), [];
    }

    /** xd3_decode_bytes: as many bytes of a field as there are. */
    method DecodeBytes(n: nat) returns (all: bool)
      requires Wanted(c, d).Several?
      modifies this
      ensures all <==> n <= |old(Buffer(d))| + |old(nextIn)|
      ensures var have, take := |old(Buffer(d))|, if all then Max(n - |old(Buffer(d))|, 0) else |old(nextIn)|;
        d == Filled(old(d), old(Buffer(d)) + old(nextIn)[..take]) && nextIn == old(nextIn)[take..]
    {
      hide Wanted, Buffer, Filled;
      all := true;
      ghost var d0, s0 := d, nextIn;
      SameBuffer(c, d0);
      ghost var used: nat := 0;
      var pos := |Buffer(d)|;
      while pos < n && all
        invariant used <= |s0| && nextIn == s0[used..] && d == Filled(d0, Buffer(d0) + s0[..used])
        invariant pos == |Buffer(d0)| + used && Wanted(c, d0).Several?
        invariant used == 0 || pos <= n
        invariant !all ==> nextIn == [] && pos < n
        decreases n - pos, all
      {
        if nextIn == [] {
          all := false;
        } else {
          var take: nat := Min(n - pos, |nextIn|);
          FilledAgain(c, d0, Buffer(d0) + s0[..used], nextIn[..take]);
          assert Buffer(d0) + s0[..used] + nextIn[..take] == Buffer(d0) + s0[..used + take];
          d := Filled(d, Buffer(d) + nextIn[..take]);
          nextIn := nextIn[take..];
          pos := pos + take;
          used := used + take;
        }
      }
    }

    /** One state: what it reads, and the checks after it. */
    method OneState() returns (more: bool, r: Return)
      modifies this
      ensures match Step(c, old(d), old(nextIn))
        case Wait(d') => !more && r == Input && d == d' && nextIn == []
        case Fail => !more && r == Error
        case Go(d', rest) => more && d == d' && nextIn == rest
        case Stop(e, d', rest) => !more && r == Told(e) && d == d' && nextIn == rest
    {
      hide After, Wanted, Before, Stored, Filled, Buffer;
      var n := Before(c, d);
      more, r := false, Input;
      if n.Some? {
        more, r := Enter(n.value);
      } else {
        match Wanted(c, d)
        case Nothing =>
          more, r := Enter(After(c, d));
        case OneByte =>
          if nextIn != [] {
            var b := nextIn[0];
            nextIn := nextIn[1..];
            more, r := Enter(After(c, Stored(d, b)));
          }
        case Size(width) =>
          SizeWidth(c, d);
          var v := Integers.DecodeInteger(nextIn, d.part, width);
          match v {
            case NeedInput(p) => d, nextIn := d.(part := p), [];
            case Overflow => r := Error;
            case Done(x, rest) =>
              nextIn := rest;
              more, r := Enter(After(c, Stored(d.(part := 0), x)));
          }
        case Several(k) =>
          var all := DecodeBytes(k);
          if all {
            more, r := Enter(After(c, d));
          } else {
            assert old(nextIn)[..|old(nextIn)|] == old(nextIn);
          }
        case Skip(k) =>
          more, r := SkipBytes(k);
      }
    }

    /** A window that is not wanted. */
    method SkipBytes(n: nat) returns (more: bool, r: Return)
      requires Before(c, d).None? && Wanted(c, d) == Skip(n)
      modifies this
      ensures match Step(c, old(d), old(nextIn))
        case Wait(d') => !more && r == Input && d == d' && nextIn == []
        case Fail => !more && r == Error
        case Go(d', rest) => more && d == d' && nextIn == rest
        case Stop(e, d', rest) => !more && r == Told(e) && d == d' && nextIn == rest
    {
      hide After, Wanted, Before;
      var need: nat := Max(n - d.winBytes, 0);
      var take: nat := Min(need, |nextIn|);
      more, r := false, Input;
      if take != need {
        d := d.(winBytes := d.winBytes + take);
        nextIn := [];
      } else {
        nextIn := nextIn[take..];
        more, r := Enter(After(c, d));
      }
    }

    /** The next state, or what is told first. */
    method Enter(n: Next) returns (more: bool, r: Return)
      modifies this`d
      ensures match n
        case Refused => !more && r == Error && d == old(d)
        case On(d') => more && d == d'
        case Tell(e, d') => !more && r == Told(e) && d == d'
    {
      more, r := false, Error;
      match n
      case Refused =>
      case On(d') =>
        d := d';
        more := true;
      case Tell(e, d') =>
        d := d';
        r := Told(e);
    }

    /** xd3_decode_input: until there is something to tell, or no more input. */
    method DecodeInput() returns (r: Return)
      modifies this
      ensures Kept(c, old(d), old(nextIn), r, d, nextIn)
      ensures r.Told? ==> |nextIn| < |old(nextIn)| || (|nextIn| == |old(nextIn)| && Rank(d.state) < Rank(old(d).state))
      ensures r.Input? ==> nextIn == []
    {
      hide Step;
      var more := true;
      r := Error;
      while more
        invariant more ==> Run(c, d, nextIn) == Run(c, old(d), old(nextIn))
        invariant more ==>
          |nextIn| < |old(nextIn)| || (|nextIn| == |old(nextIn)| && Rank(d.state) <= Rank(old(d).state))
        invariant !more ==> Kept(c, old(d), old(nextIn), r, d, nextIn)
        invariant !more && r.Told? ==>
          |nextIn| < |old(nextIn)| || (|nextIn| == |old(nextIn)| && Rank(d.state) < Rank(old(d).state))
        invariant !more && r.Input? ==> nextIn == []
        decreases more, |nextIn|, Rank(d.state)
      {
        StepRank(c, d, nextIn);
        RunStep(c, d, nextIn);
        more, r := OneState();
      }
    }

    /** An input that arrives in pieces, and everything told about it. */
    method DecodePieces(pieces: seq<seq<byte>>) returns (events: seq<Event>, failed: bool)
      requires d == Start()
      modifies this
      ensures var whole := Run(c, Start(), Integers.Joined(pieces));
        events == whole.events && (failed <==> whole.end.None?)
    {
      events, failed := [], false;
      ghost var from := Start();
      RunNothing(c);
      assert pieces[..0] == [];
      for k := 0 to |pieces|
        invariant Run(c, Start(), Integers.Joined(pieces[..k])) == Result(events, if failed then None else Some(d))
      {
        ghost var front := pieces[..k];
        assert pieces[..k + 1] == front + [pieces[k]];
        JoinedNext(front, pieces[k]);
        RunSplit(c, Start(), Integers.Joined(front), pieces[k]);
        if !failed {
          nextIn := pieces[k];
          var told;
          told, failed := DecodePiece();
          events := events + told;
        }
      }
      assert pieces[..|pieces|] == pieces;
    }

    /** Calling again and again until more input is asked for. */
    method DecodePiece() returns (events: seq<Event>, failed: bool)
      modifies this
      ensures Run(c, old(d), old(nextIn)) == Result(events, if failed then None else Some(d))
    {
      hide Run, Step;
      events, failed := [], false;
      var more := true;
      ghost var whole := Run(c, d, nextIn);
      while more
        invariant more ==> !failed && whole == Result(events + Run(c, d, nextIn).events, Run(c, d, nextIn).end)
        invariant !more ==> whole == Result(events, if failed then None else Some(d))
        decreases more, |nextIn|, Rank(d.state)
      {
        var r := DecodeInput();
        match r
        case Input => more := false;
        case Error =>
          more := false;
          failed := true;
        case Told(e) =>
          assert events + ([e] + Run(c, d, nextIn).events) == (events + [e]) + Run(c, d, nextIn).events;
          events := events + [e];
      }
    }
  }

  /** What one call does to the run still to come. */
  ghost predicate Kept(c: Configuration, d: Dec, s: seq<byte>, r: Return, d': Dec, s': seq<byte>) {
    match r
    case Input => Run(c, d, s) == Result([], Some(d'))
    case Error => Run(c, d, s) == Result([], None)
    case Told(e) => Run(c, d, s) == Prepend(e, Run(c, d', s'))
  }

  lemma RunStep(c: Configuration, d: Dec, s: seq<byte>)
    ensures match Step(c, d, s)
      case Wait(d') => Run(c, d, s) == Result([], Some(d'))
      case Fail => Run(c, d, s) == Result([], None)
      case Go(d', rest) => Run(c, d, s) == Run(c, d', rest)
      case Stop(e, d', rest) => Run(c, d, s) == Prepend(e, Run(c, d', rest))
  {
    hide Step;
  }

  lemma RunNothing(c: Configuration)
    ensures Run(c, Start(), []) == Result([], Some(Start())) && Integers.Joined([]) == []
  {
    SameBuffer(c, Start());
    assert Step(c, Start(), []) == Wait(Start());
  }

  lemma JoinedNext(front: seq<seq<byte>>, piece: seq<byte>)
    ensures Integers.Joined(front + [piece]) == Integers.Joined(front) + piece
  {
    assert (front + [piece])[..|front|] == front;
  }

  lemma SameBuffer(c: Configuration, d: Dec)
    requires Wanted(c, d).Several?
    ensures Filled(d, Buffer(d) + []) == d && Buffer(d) + [] == Buffer(d)
  {
  }

  lemma FilledAgain(c: Configuration, d: Dec, b: seq<byte>, e: seq<byte>)
    requires Wanted(c, d).Several?
    ensures Buffer(Filled(d, b)) == b && Filled(Filled(d, b), b + e) == Filled(d, b + e)
  {
  }
}
