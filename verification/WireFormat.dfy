/**
  The bytes of a delta file, field by field, as section 4 of RFC 3284 orders them, and what
  the decoder of xdelta3-decode.h makes of them: which are refused, and what the sections
  and sizes of each window are when its instructions are executed.
 */
module WireFormat {
  import opened Bytes
  import opened Binary
  import opened StreamDecode
  import Integers
  import Arith

  // ------------------------------------------------------------- the format

  datatype CodeTable = CodeTable(length: nat, near: byte, same: byte)

  /** The header.  Fields that the indicator does not announce are left out. */
  datatype HeaderFields = HeaderFields(magic: seq<byte>, indicator: byte, secondId: Option<byte>,
                                       table: Option<CodeTable>, app: Option<seq<byte>>)

  datatype CopyWindow = CopyWindow(length: nat, offset: nat)

  datatype WindowFields = WindowFields(indicator: byte, copy: Option<CopyWindow>, encodedLength: nat,
                                       targetLength: nat, deltaIndicator: byte, checksum: Option<nat>,
                                       data: seq<byte>, inst: seq<byte>, addr: seq<byte>)

  /** VCD_SECONDARY is 1, VCD_CODETABLE 2 and VCD_APPHEADER 4. */
  predicate HeaderFormed(h: HeaderFields) {
    && |h.magic| == 4
    && (h.indicator < 8 ==>
          && (h.secondId.Some? <==> h.indicator in {1, 3, 5, 7})
          && (h.table.Some? <==> h.indicator in {2, 3, 6, 7})
          && (h.app.Some? <==> h.indicator in {4, 5, 6, 7}))
  }

  /** VCD_SOURCE is 1, VCD_TARGET 2 and VCD_ADLER32 4. */
  predicate WindowFormed(w: WindowFields) {
    && (w.indicator < 8 ==>
          && (w.copy.Some? <==> w.indicator in {1, 2, 5, 6})
          && (w.checksum.Some? <==> w.indicator in {4, 5, 6, 7}))
    && (w.checksum.Some? ==> w.checksum.value < 0x1_0000_0000)
  }

  /** The most significant byte first. */
  function FourBytes(v: nat): (s: seq<byte>)
    requires v < 0x1_0000_0000
    ensures |s| == 4
  {
    [v / 0x100_0000, v / 0x1_0000 % 256, v / 256 % 256, v % 256]
  }

  function SecondIdBytes(h: HeaderFields): seq<byte> {
    if h.secondId.Some? then [h.secondId.value] else []
  }

  function TableBytes(h: HeaderFields): seq<byte> {
    if h.table.Some? then Integers.Encoded(h.table.value.length) + ([h.table.value.near] + [h.table.value.same])
    else []
  }

  function AppBytes(h: HeaderFields): seq<byte> {
    if h.app.Some? then Integers.Encoded(|h.app.value|) + h.app.value else []
  }

  function HeaderBytes(h: HeaderFields): seq<byte> {
    h.magic + ([h.indicator] + (SecondIdBytes(h) + (TableBytes(h) + AppBytes(h))))
  }

  function CopyBytes(w: WindowFields): seq<byte> {
    if w.copy.Some? then Integers.Encoded(w.copy.value.length) + Integers.Encoded(w.copy.value.offset) else []
  }

  function ChecksumBytes(w: WindowFields): seq<byte>
    requires WindowFormed(w)
  {
    if w.checksum.Some? then FourBytes(w.checksum.value) else []
  }

  /** What the length of the delta encoding counts, up to the sections. */
  function LengthBytes(w: WindowFields): seq<byte>
    requires WindowFormed(w)
  {
    Integers.Encoded(w.targetLength) + ([w.deltaIndicator] + (Integers.Encoded(|w.data|)
    + (Integers.Encoded(|w.inst|) + (Integers.Encoded(|w.addr|) + ChecksumBytes(w)))))
  }

  function SectionBytes(w: WindowFields): seq<byte> {
    w.data + (w.inst + w.addr)
  }

  /** A window up to its sections. */
  function HeadBytes(w: WindowFields): seq<byte>
    requires WindowFormed(w)
  {
    [w.indicator] + (CopyBytes(w) + (Integers.Encoded(w.encodedLength) + LengthBytes(w)))
  }

  function WindowBytes(w: WindowFields): seq<byte>
    requires WindowFormed(w)
  {
    HeadBytes(w) + SectionBytes(w)
  }

  predicate AllFormed(ws: seq<WindowFields>) {
    forall i | 0 <= i < |ws| :: WindowFormed(ws[i])
  }

  function WindowsBytes(ws: seq<WindowFields>): seq<byte>
    requires AllFormed(ws)
  {
    if ws == [] then [] else WindowBytes(ws[0]) + WindowsBytes(ws[1..])
  }

  function DeltaBytes(h: HeaderFields, ws: seq<WindowFields>): seq<byte>
    requires AllFormed(ws)
  {
    HeaderBytes(h) + WindowsBytes(ws)
  }

  // ---------------------------------------------------------- what is accepted

  predicate HeaderOk(c: Configuration, h: HeaderFields) {
    && h.magic == [0xd6, 0xc3, 0xc4, 0] && h.indicator < 8 && h.table.None?
    && (h.secondId.Some? ==> h.secondId.value in c.compressors && h.secondId.value in {1, 2, 16})
    && (h.app.Some? ==> |h.app.value| + 1 < Pow2(c.width))
  }

  /** The decoder before the first window. */
  function First(h: HeaderFields): Dec {
    var app := if h.app.Some? then h.app.value else [];
    var hdr := Header(h.magic, h.indicator, if h.secondId.Some? then h.secondId.value else 0, h.secondId.Some?,
                      0, |app|, app);
    Start().(state := WinInd, hdr := hdr)
  }

  /** The decoder between two windows, of which the last one started and ended somewhere. */
  predicate BetweenWindows(d: Dec) {
    d.state == WinInd && d.part == 0 && d.winBytes == 0
  }

  function CopyLength(w: WindowFields): nat { if w.copy.Some? then w.copy.value.length else 0 }

  function CopyOffset(w: WindowFields): nat { if w.copy.Some? then w.copy.value.offset else 0 }

  function StartOf(d: Dec): nat { d.win.start + d.win.targetLength }

  predicate CopyOk(c: Configuration, w: WindowFields, start: nat) {
    && (w.copy.Some? ==> CopyLength(w) < Pow2(c.width) && CopyOffset(w) < Pow2(Max(c.width, 64)))
    && CopyOffset(w) + CopyLength(w) < Pow2(64)
    && (w.indicator in {2, 3, 6, 7} ==> CopyOffset(w) + CopyLength(w) <= start)
  }

  predicate LengthsOk(c: Configuration, w: WindowFields, secondary: bool) {
    && w.encodedLength < Pow2(c.width) && w.targetLength < Pow2(c.width)
    && CopyLength(w) + w.targetLength < Pow2(c.width) && w.targetLength <= 0x400_0000
    && w.deltaIndicator < 8 && (w.deltaIndicator == 0 || secondary)
  }

  predicate SectionsOk(c: Configuration, w: WindowFields) {
    |w.data| < Pow2(c.width) && |w.inst| < Pow2(c.width) && |w.addr| < Pow2(c.width)
  }

  /** The redundant length is that of what follows it. */
  predicate EncodedLengthOk(c: Configuration, w: WindowFields)
    requires WindowFormed(w)
  {
    w.encodedLength == (|LengthBytes(w)| + |SectionBytes(w)|) % Pow2(c.width)
  }

  predicate HeadOk(c: Configuration, d: Dec, w: WindowFields)
    requires WindowFormed(w)
  {
    && w.indicator < 8 && StartOf(d) < Pow2(64) && CopyOk(c, w, StartOf(d)) && LengthsOk(c, w, d.hdr.secondary)
    && SectionsOk(c, w) && EncodedLengthOk(c, w)
  }

  /** A window whose fields up to the sections have been read. */
  function Announced(d: Dec, w: WindowFields): Dec
    requires WindowFormed(w)
  {
    Dec(Data, 0, d.hdr,
        StreamDecode.Window(w.indicator, StartOf(d), d.win.count, d.win.count, CopyLength(w), CopyOffset(w),
                            CopyLength(w), CopyLength(w) + w.targetLength, w.encodedLength, w.targetLength,
                            w.deltaIndicator, ChecksumBytes(w),
                            if w.checksum.Some? then w.checksum.value else d.win.adler32),
        Section(|w.data|, []), Section(|w.inst|, []), Section(|w.addr|, []), 0)
  }

  /** A window as its instructions are about to be executed. */
  function Held(d: Dec, w: WindowFields): Dec
    requires WindowFormed(w)
  {
    Announced(d, w).(state := Emit, data := Section(|w.data|, w.data), inst := Section(|w.inst|, w.inst),
                     addr := Section(|w.addr|, w.addr))
  }

  function Started(d: Dec): Event { if d.win.count == 0 then GotHeader else WinStart }

  /** The decoder after a window. */
  function Finished(d: Dec): Dec {
    d.(state := WinInd, winBytes := 0, data := d.data.(bytes := []), inst := d.inst.(bytes := []),
       addr := d.addr.(bytes := []), win := d.win.(count := d.win.count + 1))
  }

  /** What is told of a window once its sizes are known, and the decoder after it. */
  function SectionsTell(c: Configuration, d: Dec, w: WindowFields): Result
    requires WindowFormed(w)
  {
    if |w.data| + |w.inst| + |w.addr| >= Pow2(c.width) then Result([], None)
    else if c.skipWindow then Result([Output([]), WinFinish], Some(Finished(Announced(d, w))))
    else
      var u := c.unpack(Held(d, w));
      if u.None? then Result([], None)
      else if c.skipEmit then Result([Output([]), WinFinish], Some(Finished(u.value)))
      else if w.indicator in {2, 3, 6, 7} then Result([], None)
      else
        var out := c.emit(u.value);
        if out.None? then Result([], None)
        else Result([Output(out.value), WinFinish], Some(Finished(u.value)))
  }

  /** What is told of a window, and the decoder after it. */
  function WindowTells(c: Configuration, d: Dec, w: WindowFields): Result
    requires WindowFormed(w)
  {
    if HeadOk(c, d, w) then Prepend(Started(d), SectionsTell(c, d, w)) else Result([], None)
  }

  /** What is told of one window after the other. */
  function WindowsTell(c: Configuration, d: Dec, ws: seq<WindowFields>): Result
    requires AllFormed(ws)
    decreases |ws|
  {
    if ws == [] then Result([], Some(d)) else
      var r := WindowTells(c, d, ws[0]);
      if r.end.None? then r else
        var q := WindowsTell(c, r.end.value, ws[1..]);
        Result(r.events + q.events, q.end)
  }

  /** Decompressing changes the sections of a window and nothing else. */
  ghost predicate UnpacksSections(c: Configuration) {
    forall d: Dec | c.unpack(d).Some? ::
      c.unpack(d).value == d.(data := c.unpack(d).value.data, inst := c.unpack(d).value.inst,
                              addr := c.unpack(d).value.addr)
  }

  // ------------------------------------------------------------- single fields

  /** Going on with what comes of a state. */
  function Follow(c: Configuration, n: Next, s: seq<byte>): Result {
    match n
    case Refused => Result([], None)
    case On(d) => Run(c, d, s)
    case Tell(e, d) => Prepend(e, Run(c, d, s))
  }

  lemma ByteRead(c: Configuration, d: Dec, b: byte, more: seq<byte>)
    requires Before(c, d).None? && Wanted(c, d) == OneByte
    ensures Run(c, d, [b] + more) == Follow(c, After(c, Stored(d, b)), more)
  {
    hide After, Stored, Run, Before, Wanted;
    assert ([b] + more)[1..] == more;
    RunStep(c, d, [b] + more);
  }

  lemma SizeRead(c: Configuration, d: Dec, width: nat, n: nat, more: seq<byte>)
    requires Before(c, d).None? && Wanted(c, d) == Size(width) && d.part == 0
    ensures Run(c, d, Integers.Encoded(n) + more)
         == if n < Pow2(width) then Follow(c, After(c, Stored(d, n)), more) else Result([], None)
  {
    hide After, Stored, Run, Before, Wanted, Pow2;
    SizeWidth(c, d);
    Integers.ReadWritten(n, more, width);
    assert d.(part := 0) == d;
    RunStep(c, d, Integers.Encoded(n) + more);
  }

  lemma NothingRead(c: Configuration, d: Dec, s: seq<byte>)
    requires Before(c, d).None? && Wanted(c, d) == Item.Nothing
    ensures Run(c, d, s) == Follow(c, After(c, d), s)
  {
    hide After, Run, Before, Wanted;
    RunStep(c, d, s);
  }

  lemma SeveralRead(c: Configuration, d: Dec, b: seq<byte>, more: seq<byte>)
    requires Before(c, d).None? && Wanted(c, d) == Several(|b|) && Buffer(d) == []
    ensures Run(c, d, b + more) == Follow(c, After(c, Filled(d, b)), more)
  {
    hide After, Run, Before, Wanted, Filled, Buffer;
    assert (b + more)[..|b|] == b && (b + more)[|b|..] == more && [] + b == b;
    RunStep(c, d, b + more);
  }

  lemma SkipRead(c: Configuration, d: Dec, b: seq<byte>, more: seq<byte>)
    requires Before(c, d).None? && Wanted(c, d) == Skip(|b|) && d.winBytes == 0
    ensures Run(c, d, b + more) == Follow(c, After(c, d), more)
  {
    hide After, Run, Before, Wanted;
    assert (b + more)[|b|..] == more;
    RunStep(c, d, b + more);
  }

  lemma IndicatorBits(x: nat)
    requires x < 8
    ensures Bit(x, 0) <==> x in {1, 3, 5, 7}
    ensures Bit(x, 1) <==> x in {2, 3, 6, 7}
    ensures Bit(x, 2) <==> x in {4, 5, 6, 7}
    ensures HasCopyWindow(x) <==> x in {1, 2, 5, 6}
  {
    assert Pow2(0) == 1 && Pow2(1) == 2 && Pow2(2) == 4;
  }

  /** The run goes on from a state, or the input is refused. */
  function GoesOn(c: Configuration, ok: bool, d: Dec, s: seq<byte>): Result {
    if ok then Run(c, d, s) else Result([], None)
  }

  // ------------------------------------------------------- up to the sections

  function Indicated(d: Dec, w: WindowFields): Dec {
    d.(state := CpyLen, win := d.win.(indicator := w.indicator, start := StartOf(d), current := d.win.count,
                                      copyLength := 0, copyOffset := 0, cksum := []))
  }

  function Copied(d: Dec, w: WindowFields): Dec {
    Indicated(d, w).(state := EncLen,
      win := Indicated(d, w).win.(copyLength := CopyLength(w), copyOffset := CopyOffset(w), position := CopyLength(w)))
  }

  function Sized(d: Dec, w: WindowFields): Dec {
    d.(state := DataLen,
       win := d.win.(encodedLength := w.encodedLength, targetLength := w.targetLength,
                     maxPosition := CopyLength(w) + w.targetLength, deltaIndicator := w.deltaIndicator))
  }

  function Sectioned(d: Dec, w: WindowFields): Dec {
    d.(state := Cksum, data := Section(|w.data|, []), inst := Section(|w.inst|, []), addr := Section(|w.addr|, []))
  }

  lemma ReadIndicator(c: Configuration, d: Dec, w: WindowFields, more: seq<byte>)
    requires BetweenWindows(d)
    ensures Run(c, d, [w.indicator] + more)
         == GoesOn(c, StartOf(d) < Pow2(64) && w.indicator < 8, Indicated(d, w), more)
  {
    hide Run, Pow2;
    ByteRead(c, d, w.indicator, more);
  }

  lemma ReadCopy(c: Configuration, d: Dec, w: WindowFields, more: seq<byte>)
    requires BetweenWindows(d) && WindowFormed(w) && w.indicator < 8
    ensures Run(c, Indicated(d, w), CopyBytes(w) + more) == GoesOn(c, CopyOk(c, w, StartOf(d)), Copied(d, w), more)
  {
    hide Run, Pow2, Integers.Encoded, Bit, HasCopyWindow;
    IndicatorBits(w.indicator);
    var d1 := Indicated(d, w);
    if w.copy.None? {
      assert CopyBytes(w) + more == more;
      NothingRead(c, d1, more);
      NothingRead(c, d1.(state := CpyOff, win := d1.win.(position := 0)), more);
      Pow2Monotone(0, 64);
    } else {
      var v := w.copy.value;
      var rest := Integers.Encoded(v.offset) + more;
      assert CopyBytes(w) + more == Integers.Encoded(v.length) + rest;
      SizeRead(c, d1, c.width, v.length, rest);
      var d2 := d1.(state := CpyOff, win := d1.win.(copyLength := v.length, position := v.length));
      SizeRead(c, d2, Max(c.width, 64), v.offset, more);
    }
  }

  lemma ReadDeltaIndicator(c: Configuration, d: Dec, b: byte, more: seq<byte>)
    requires d.state == DelInd
    ensures Run(c, d, [b] + more)
         == GoesOn(c, b < 8 && (b == 0 || d.hdr.secondary), d.(state := DataLen, win := d.win.(deltaIndicator := b)),
                   more)
  {
    hide Run;
    ByteRead(c, d, b, more);
  }

  lemma ReadTarget(c: Configuration, d: Dec, w: WindowFields, more: seq<byte>)
    requires d.state == TgtLen && d.part == 0 && d.win.copyLength == CopyLength(w)
    requires d.win.encodedLength == w.encodedLength < Pow2(c.width)
    ensures Run(c, d, Integers.Encoded(w.targetLength) + ([w.deltaIndicator] + more))
         == GoesOn(c, LengthsOk(c, w, d.hdr.secondary), Sized(d, w), more)
  {
    hide Run, Pow2, Integers.Encoded, Bit, HasCopyWindow, CopyLength;
    SizeRead(c, d, c.width, w.targetLength, [w.deltaIndicator] + more);
    ReadDeltaIndicator(c, d.(state := DelInd, win := d.win.(targetLength := w.targetLength,
                                                            maxPosition := CopyLength(w) + w.targetLength)),
                       w.deltaIndicator, more);
  }

  lemma ReadLengths(c: Configuration, d: Dec, w: WindowFields, more: seq<byte>)
    requires d.state == EncLen && d.part == 0 && d.win.copyLength == CopyLength(w)
    ensures Run(c, d, Integers.Encoded(w.encodedLength) + (Integers.Encoded(w.targetLength)
                      + ([w.deltaIndicator] + more)))
         == GoesOn(c, LengthsOk(c, w, d.hdr.secondary), Sized(d, w), more)
  {
    hide Run, Pow2, Integers.Encoded, Bit, HasCopyWindow;
    SizeRead(c, d, c.width, w.encodedLength, Integers.Encoded(w.targetLength) + ([w.deltaIndicator] + more));
    if w.encodedLength < Pow2(c.width) {
      ReadTarget(c, d.(state := TgtLen, win := d.win.(encodedLength := w.encodedLength)), w, more);
    }
  }

  lemma ReadSectionLengths(c: Configuration, d: Dec, w: WindowFields, more: seq<byte>)
    requires d.state == DataLen && d.part == 0
    ensures Run(c, d, Integers.Encoded(|w.data|) + (Integers.Encoded(|w.inst|) + (Integers.Encoded(|w.addr|) + more)))
         == GoesOn(c, SectionsOk(c, w), Sectioned(d, w), more)
  {
    hide Run, Pow2, Integers.Encoded, Bit, HasCopyWindow;
    SizeRead(c, d, c.width, |w.data|, Integers.Encoded(|w.inst|) + (Integers.Encoded(|w.addr|) + more));
    var d2 := d.(state := InstLen, data := Section(|w.data|, []));
    SizeRead(c, d2, c.width, |w.inst|, Integers.Encoded(|w.addr|) + more);
    var d3 := d2.(state := AddrLen, inst := Section(|w.inst|, []));
    SizeRead(c, d3, c.width, |w.addr|, more);
  }

  /** Four bytes in, whatever there was before. */
  lemma WordOfFour(v: nat, before: nat)
    requires v < 0x1_0000_0000
    ensures Word(FourBytes(v), before) == v
  {
    hide Word;
    FourDigits(v);
    WordBytes(v / 0x100_0000, v / 0x1_0000 % 256, v / 256 % 256, v % 256, before);
  }

  lemma FourDigits(v: nat)
    requires v < 0x1_0000_0000
    ensures v / 0x100_0000 < 256
    ensures v == v / 0x100_0000 * 0x100_0000 + v / 0x1_0000 % 256 * 0x1_0000 + v / 256 % 256 * 256 + v % 256
  {
    Arith.DivideTwice(v, 256, 256);
    Arith.DivideTwice(v, 0x1_0000, 256);
    var p, q, k := v / 256, v / 0x1_0000, v / 0x100_0000;
    assert v == p * 256 + v % 256 && p == q * 256 + p % 256 && q == k * 256 + q % 256;
  }

  /** What four bytes hold. */
  function Wrapped(n: nat): nat { n % 0x1_0000_0000 }

  lemma WordBytes(a: byte, b: byte, x: byte, y: byte, before: nat)
    ensures Word([a, b, x, y], before) == a * 0x100_0000 + b * 0x1_0000 + x * 256 + y
  {
    hide Word, Wrapped;
    assert [a, b] == [a] + [b] && [a, b, x] == [a, b] + [x] && [a, b, x, y] == [a, b, x] + [y] && [a] == [] + [a];
    WordNext([a, b, x], y, before);
    WordNext([a, b], x, before);
    WordNext([a], b, before);
    WordNext([], a, before);
    NoWord(before);
    WrapsEarly(before * 256 + a, b);
    WrapsEarly((before * 256 + a) * 256 + b, x);
    WrapsEarly(((before * 256 + a) * 256 + b) * 256 + x, y);
    WrapsAway(before, a * 0x100_0000 + b * 0x1_0000 + x * 256 + y);
  }

  lemma NoWord(before: nat)
    ensures Word([], before) == before
  {
  }

  lemma WordNext(s: seq<byte>, b: byte, before: nat)
    ensures Word(s + [b], before) == Wrapped(Word(s, before) * 256 + b)
  {
    assert (s + [b])[..|s|] == s;
  }

  lemma WrapsEarly(p: nat, b: nat)
    ensures Wrapped(Wrapped(p) * 256 + b) == Wrapped(p * 256 + b)
  {
    var m := 0x1_0000_0000;
    var k := p % m * 256 + b;
    Arith.DivisionUnique(p * 256 + b, m, p / m * 256 + k / m, k % m);
  }

  lemma WrapsAway(n: nat, v: nat)
    requires v < 0x1_0000_0000
    ensures Wrapped(n * 0x1_0000_0000 + v) == v
  {
    Arith.DivisionUnique(n * 0x1_0000_0000 + v, 0x1_0000_0000, n, v);
  }

  /** The checksum read, and the decoder after it. */
  function Checked(d: Dec, w: WindowFields): Dec
    requires WindowFormed(w)
  {
    d.(state := Data, win := d.win.(cksum := ChecksumBytes(w),
                                    adler32 := if w.checksum.Some? then w.checksum.value else d.win.adler32))
  }

  predicate HoldsLengths(d: Dec, w: WindowFields) {
    && d.win.indicator == w.indicator && d.win.encodedLength == w.encodedLength
    && d.win.targetLength == w.targetLength && d.data == Section(|w.data|, [])
    && d.inst == Section(|w.inst|, []) && d.addr == Section(|w.addr|, [])
  }

  lemma LengthRight(c: Configuration, d: Dec, w: WindowFields)
    requires HoldsLengths(d, w) && WindowFormed(w) && w.indicator < 8
    ensures EncodedLength(c, d) == (|LengthBytes(w)| + |SectionBytes(w)|) % Pow2(c.width)
  {
    hide Pow2, Integers.Encoded, Bit;
    IndicatorBits(w.indicator);
  }

  lemma ReadChecksum(c: Configuration, d: Dec, w: WindowFields, more: seq<byte>)
    requires d.state == Cksum && d.win.cksum == [] && HoldsLengths(d, w) && WindowFormed(w) && w.indicator < 8
    ensures Run(c, d, ChecksumBytes(w) + more)
         == if EncodedLengthOk(c, w)
            then Prepend(if d.win.current == 0 then GotHeader else WinStart, Run(c, Checked(d, w), more))
            else Result([], None)
  {
    hide Run, Pow2, Integers.Encoded, Bit, Word, FourBytes, EncodedLength, LengthBytes, SectionBytes;
    IndicatorBits(w.indicator);
    LengthRight(c, d, w);
    if w.checksum.None? {
      assert ChecksumBytes(w) + more == more;
      assert d.(state := Data) == Checked(d, w);
      NothingRead(c, d, more);
    } else {
      SeveralRead(c, d, ChecksumBytes(w), more);
      WordOfFour(w.checksum.value, d.win.adler32);
      LengthRight(c, Filled(d, ChecksumBytes(w)), w);
    }
  }

  lemma HeadShape(w: WindowFields, more: seq<byte>)
    requires WindowFormed(w)
    ensures HeadBytes(w) + more
         == [w.indicator] + (CopyBytes(w) + (Integers.Encoded(w.encodedLength) + (Integers.Encoded(w.targetLength)
            + ([w.deltaIndicator] + (Integers.Encoded(|w.data|) + (Integers.Encoded(|w.inst|)
            + (Integers.Encoded(|w.addr|) + (ChecksumBytes(w) + more))))))))
  {
    hide CopyBytes, Integers.Encoded, ChecksumBytes;
    var a, y, k := CopyBytes(w), [w.deltaIndicator], ChecksumBytes(w);
    var b, x := Integers.Encoded(w.encodedLength), Integers.Encoded(w.targetLength);
    var e, f, g := Integers.Encoded(|w.data|), Integers.Encoded(|w.inst|), Integers.Encoded(|w.addr|);
    Associative(g, k, more);
    Associative(f, g + k, more);
    Associative(e, f + (g + k), more);
    Associative(y, e + (f + (g + k)), more);
    Associative(x, y + (e + (f + (g + k))), more);
    Associative(b, LengthBytes(w), more);
    Associative(a, b + LengthBytes(w), more);
    Associative([w.indicator], a + (b + LengthBytes(w)), more);
  }

  lemma AllRead(d: Dec, w: WindowFields)
    requires BetweenWindows(d) && WindowFormed(w)
    ensures var r := Sectioned(Sized(Copied(d, w), w), w);
      && HoldsLengths(r, w) && r.win.cksum == [] && Checked(r, w) == Announced(d, w) && r.win.current == d.win.count
      && Copied(d, w).hdr == d.hdr && Copied(d, w).state == EncLen && Copied(d, w).part == 0
      && Copied(d, w).win.copyLength == CopyLength(w)
  {
  }

  /** A window up to its sections: it is announced, or refused. */
  lemma HeadRead(c: Configuration, d: Dec, w: WindowFields, more: seq<byte>)
    requires BetweenWindows(d) && WindowFormed(w)
    ensures Run(c, d, HeadBytes(w) + more)
         == if HeadOk(c, d, w) then Prepend(Started(d), Run(c, Announced(d, w), more)) else Result([], None)
  {
    hide Run, Pow2, Integers.Encoded, CopyBytes, ChecksumBytes, HeadBytes, CopyOk, LengthsOk, SectionsOk,
      EncodedLengthOk, Announced, Copied, Checked, HoldsLengths, WindowFormed;
    var m4 := ChecksumBytes(w) + more;
    var m3 := Integers.Encoded(|w.data|) + (Integers.Encoded(|w.inst|) + (Integers.Encoded(|w.addr|) + m4));
    var m2 := Integers.Encoded(w.encodedLength) + (Integers.Encoded(w.targetLength) + ([w.deltaIndicator] + m3));
    HeadShape(w, more);
    AllRead(d, w);
    ReadIndicator(c, d, w, CopyBytes(w) + m2);
    if w.indicator < 8 {
      ReadCopy(c, d, w, m2);
      ReadLengths(c, Copied(d, w), w, m3);
      ReadSectionLengths(c, Sized(Copied(d, w), w), w, m4);
      ReadChecksum(c, Sectioned(Sized(Copied(d, w), w), w), w, more);
    }
  }

  // ------------------------------------------------------------ the sections

  lemma FinishRead(c: Configuration, d: Dec, out: seq<byte>, more: seq<byte>)
    ensures Follow(c, FinishWindow(d, out), more)
         == Prepend(Output(out), Prepend(WinFinish, Run(c, Finished(d), more)))
  {
    hide Run;
    NothingRead(c, FinishWindow(d, out).d, more);
  }

  /** An application that wants the header only is told of an empty window. */
  lemma HeaderOnlyRead(c: Configuration, d: Dec, w: WindowFields, more: seq<byte>)
    requires WindowFormed(w) && c.justHeader
    ensures Run(c, Announced(d, w), more)
         == Prepend(Output([]), Prepend(WinFinish, Run(c, Finished(Announced(d, w)), more)))
  {
    hide Run;
    RunStep(c, Announced(d, w), more);
    FinishRead(c, Announced(d, w), [], more);
  }

  lemma SectionsFit(c: Configuration, d: Dec, w: WindowFields)
    requires WindowFormed(w) && !c.justHeader
    ensures |w.data| + |w.inst| + |w.addr| < Pow2(c.width) <==> Before(c, Announced(d, w)).None?
    ensures Before(c, Announced(d, w)).Some? ==> Before(c, Announced(d, w)).value == Refused
  {
    hide Pow2;
  }

  function WithSections(d: Dec, st: State, data: seq<byte>, inst: seq<byte>, addr: seq<byte>): Dec {
    d.(state := st, data := d.data.(bytes := data), inst := d.inst.(bytes := inst), addr := d.addr.(bytes := addr))
  }

  lemma ReadSections(c: Configuration, d: Dec, w: WindowFields, more: seq<byte>)
    requires WindowFormed(w) && !c.justHeader && !c.skipWindow && |w.data| + |w.inst| + |w.addr| < Pow2(c.width)
    ensures Run(c, Announced(d, w), SectionBytes(w) + more)
         == Follow(c, After(c, Held(d, w).(state := Addr)), more)
  {
    hide Run, Pow2, Held, Announced, ChecksumBytes;
    var x := Announced(d, w);
    SectionsFit(c, d, w);
    AnnouncedSections(d, w);
    assert SectionBytes(w) + more == w.data + (w.inst + (w.addr + more));
    SeveralRead(c, x, w.data, w.inst + (w.addr + more));
    var x1 := WithSections(x, Inst, w.data, [], []);
    SeveralRead(c, x1, w.inst, w.addr + more);
    var x2 := WithSections(x, Addr, w.data, w.inst, []);
    SeveralRead(c, x2, w.addr, more);
  }

  lemma AnnouncedSections(d: Dec, w: WindowFields)
    requires WindowFormed(w)
    ensures var x := Announced(d, w);
      && x.state == Data && x.winBytes == 0 && x.data == Section(|w.data|, []) && x.inst == Section(|w.inst|, [])
      && x.addr == Section(|w.addr|, []) && WithSections(x, Emit, w.data, w.inst, w.addr) == Held(d, w)
  {
  }

  lemma FinishedTells(c: Configuration, d: Dec, out: seq<byte>, more: seq<byte>)
    ensures Follow(c, FinishWindow(d, out), more)
         == AndThen(c, Result([Output(out), WinFinish], Some(Finished(d))), more)
  {
    hide Run, FinishWindow, Follow, Finished;
    FinishRead(c, d, out, more);
    var q := Run(c, Finished(d), more);
    assert [Output(out)] + ([WinFinish] + q.events) == [Output(out), WinFinish] + q.events;
  }

  /** The sections of a window have been decompressed. */
  lemma UnpackedRead(c: Configuration, u: Dec, more: seq<byte>)
    requires u.state == Emit
    ensures Run(c, u, more) == match c.emit(u)
      case None => Result([], None)
      case Some(out) => AndThen(c, Result([Output(out), WinFinish], Some(Finished(u))), more)
  {
    hide Run, FinishWindow, Finished, AndThen;
    NothingRead(c, u, more);
    if c.emit(u).Some? {
      FinishedTells(c, u, c.emit(u).value, more);
    }
  }

  /** A window that is executed. */
  lemma ExecuteRead(c: Configuration, d: Dec, w: WindowFields, more: seq<byte>)
    requires WindowFormed(w) && w.indicator < 8 && UnpacksSections(c)
    requires |w.data| + |w.inst| + |w.addr| < Pow2(c.width) && !c.skipWindow
    ensures Follow(c, After(c, Held(d, w).(state := Addr)), more) == AndThen(c, SectionsTell(c, d, w), more)
  {
    hide Run, Pow2, FinishWindow, Finished, AndThen, Bit, Announced, ChecksumBytes;
    IndicatorBits(w.indicator);
    FailedThen(c, more);
    HeldWindow(d, w);
    var x := Held(d, w);
    var u := c.unpack(x);
    if u.Some? {
      if c.skipEmit {
        FinishedTells(c, u.value, [], more);
      } else {
        assert u.value.(state := Emit) == u.value;
        UnpackedRead(c, u.value, more);
      }
    }
  }

  lemma HeldWindow(d: Dec, w: WindowFields)
    requires WindowFormed(w)
    ensures var x := Held(d, w);
      x.win.indicator == w.indicator && x.state == Emit && x.(state := Addr).(state := Emit) == x
  {
  }

  lemma FailedThen(c: Configuration, more: seq<byte>)
    ensures AndThen(c, Result([], None), more) == Result([], None)
  {
  }

  lemma SkippedRead(c: Configuration, d: Dec, w: WindowFields, more: seq<byte>)
    requires WindowFormed(w) && !c.justHeader && c.skipWindow && |w.data| + |w.inst| + |w.addr| < Pow2(c.width)
    ensures Run(c, Announced(d, w), SectionBytes(w) + more) == AndThen(c, SectionsTell(c, d, w), more)
  {
    hide Run, Pow2, FinishWindow, Finished, AndThen, ChecksumBytes;
    SectionsFit(c, d, w);
    SkipRead(c, Announced(d, w), SectionBytes(w), more);
    FinishedTells(c, Announced(d, w), [], more);
  }

  lemma SectionsRead(c: Configuration, d: Dec, w: WindowFields, more: seq<byte>)
    requires WindowFormed(w) && w.indicator < 8 && UnpacksSections(c) && !c.justHeader
    ensures Run(c, Announced(d, w), SectionBytes(w) + more) == AndThen(c, SectionsTell(c, d, w), more)
  {
    hide Run, Pow2, AndThen, Before, Announced, Held, UnpacksSections;
    if |w.data| + |w.inst| + |w.addr| >= Pow2(c.width) {
      SectionsFit(c, d, w);
      FailedThen(c, more);
      RunStep(c, Announced(d, w), SectionBytes(w) + more);
    } else if c.skipWindow {
      SkippedRead(c, d, w, more);
    } else {
      ReadSections(c, d, w, more);
      ExecuteRead(c, d, w, more);
    }
  }

  /** One window, from its first byte to its last. */
  lemma WindowRead(c: Configuration, d: Dec, w: WindowFields, more: seq<byte>)
    requires BetweenWindows(d) && WindowFormed(w) && UnpacksSections(c) && !c.justHeader
    ensures Run(c, d, WindowBytes(w) + more) == AndThen(c, WindowTells(c, d, w), more)
    ensures WindowTells(c, d, w).end.Some? ==> BetweenWindows(WindowTells(c, d, w).end.value)
  {
    hide Run, Pow2, AndThen, HeadBytes, SectionBytes, SectionsTell, Announced, CopyOk, LengthsOk, SectionsOk,
      EncodedLengthOk, Started;
    Associative(HeadBytes(w), SectionBytes(w), more);
    HeadRead(c, d, w, SectionBytes(w) + more);
    FailedThen(c, more);
    StaysBetween(c, d, w);
    if HeadOk(c, d, w) {
      SectionsRead(c, d, w, more);
      PrependThen(c, Started(d), SectionsTell(c, d, w), more);
    }
  }

  lemma StaysBetween(c: Configuration, d: Dec, w: WindowFields)
    requires WindowFormed(w) && UnpacksSections(c)
    ensures SectionsTell(c, d, w).end.Some? ==> BetweenWindows(SectionsTell(c, d, w).end.value)
  {
    hide Pow2, ChecksumBytes;
    if c.unpack(Held(d, w)).Some? {
      var u := c.unpack(Held(d, w)).value;
      assert u.part == 0;
    }
  }

  lemma {:induction false} WindowsRead(c: Configuration, d: Dec, ws: seq<WindowFields>)
    requires BetweenWindows(d) && AllFormed(ws) && UnpacksSections(c) && !c.justHeader
    ensures Run(c, d, WindowsBytes(ws)) == WindowsTell(c, d, ws)
    decreases |ws|
  {
    hide Run, WindowBytes, WindowTells, UnpacksSections;
    if ws == [] {
      StopsBetween(c, d);
    } else {
      WindowRead(c, d, ws[0], WindowsBytes(ws[1..]));
      var r := WindowTells(c, d, ws[0]);
      if r.end.Some? {
        WindowsRead(c, r.end.value, ws[1..]);
      }
    }
  }

  lemma StopsBetween(c: Configuration, d: Dec)
    requires d.state == WinInd
    ensures Run(c, d, []) == Result([], Some(d))
  {
    hide Run;
    RunStep(c, d, []);
  }

  // -------------------------------------------------------------- the header

  function Magic(h: HeaderFields): Dec {
    Start().(state := HdrInd, hdr := Start().hdr.(magic := h.magic))
  }

  function HeaderIndicated(h: HeaderFields): Dec {
    Magic(h).(state := SecondId, hdr := Magic(h).hdr.(indicator := h.indicator))
  }

  function SecondIdRead(h: HeaderFields): Dec {
    HeaderIndicated(h).(state := TabLen,
      hdr := HeaderIndicated(h).hdr.(secondId := if h.secondId.Some? then h.secondId.value else 0,
                                     secondary := h.secondId.Some?))
  }

  lemma ReadMagic(c: Configuration, h: HeaderFields, more: seq<byte>)
    requires |h.magic| == 4
    ensures Run(c, Start(), h.magic + ([h.indicator] + more))
         == GoesOn(c, h.magic == [0xd6, 0xc3, 0xc4, 0] && h.indicator < 8, HeaderIndicated(h), more)
  {
    hide Run, Pow2;
    SeveralRead(c, Start(), h.magic, [h.indicator] + more);
    if h.magic == [0xd6, 0xc3, 0xc4, 0] {
      ByteRead(c, Magic(h), h.indicator, more);
    }
  }

  predicate SecondIdOk(c: Configuration, h: HeaderFields) {
    h.secondId.Some? ==> h.secondId.value in c.compressors && h.secondId.value in {1, 2, 16}
  }

  lemma ReadSecondId(c: Configuration, h: HeaderFields, more: seq<byte>)
    requires HeaderFormed(h) && h.indicator < 8
    ensures Run(c, HeaderIndicated(h), SecondIdBytes(h) + more) == GoesOn(c, SecondIdOk(c, h), SecondIdRead(h), more)
  {
    hide Run, Pow2, Bit;
    IndicatorBits(h.indicator);
    if h.secondId.None? {
      assert SecondIdBytes(h) + more == more;
      NothingRead(c, HeaderIndicated(h), more);
    } else {
      ByteRead(c, HeaderIndicated(h), h.secondId.value, more);
    }
  }

  /** A code table of its own is refused. */
  lemma ReadTable(c: Configuration, h: HeaderFields, more: seq<byte>)
    requires HeaderFormed(h) && h.indicator < 8
    ensures Run(c, SecondIdRead(h), TableBytes(h) + more)
         == GoesOn(c, h.table.None?, SecondIdRead(h).(state := AppLen), more)
  {
    hide Run, Pow2, Bit, Integers.Encoded;
    IndicatorBits(h.indicator);
    var d := SecondIdRead(h);
    if h.table.None? {
      assert TableBytes(h) + more == more;
      NothingRead(c, d, more);
      NothingRead(c, d.(state := Near), more);
      NothingRead(c, d.(state := Same), more);
      NothingRead(c, d.(state := TabDat), more);
    } else {
      ReadCodeTable(c, d, h.table.value, more);
    }
  }

  lemma ReadCodeTable(c: Configuration, d: Dec, t: CodeTable, more: seq<byte>)
    requires d.state == TabLen && d.part == 0 && Bit(d.hdr.indicator, 1)
    ensures Run(c, d, Integers.Encoded(t.length) + ([t.near] + [t.same]) + more) == Result([], None)
  {
    hide Run, Pow2, Bit, Integers.Encoded;
    assert Integers.Encoded(t.length) + ([t.near] + [t.same]) + more
        == Integers.Encoded(t.length) + ([t.near] + ([t.same] + more));
    SizeRead(c, d, c.width, t.length, [t.near] + ([t.same] + more));
    if 2 < t.length < Pow2(c.width) {
      ReadModes(c, d.(state := Near, hdr := d.hdr.(codeTableSize := t.length - 2)), t.near, t.same, more);
    }
  }

  lemma ReadModes(c: Configuration, d: Dec, near: byte, same: byte, more: seq<byte>)
    requires d.state == Near && Bit(d.hdr.indicator, 1)
    ensures Run(c, d, [near] + ([same] + more)) == Result([], None)
  {
    hide Run, Bit;
    ByteRead(c, d, near, [same] + more);
    ByteRead(c, d.(state := Same), same, more);
    NothingRead(c, d.(state := TabDat), more);
  }

  predicate AppOk(c: Configuration, h: HeaderFields) {
    h.app.Some? ==> |h.app.value| + 1 < Pow2(c.width)
  }

  lemma ReadApp(c: Configuration, h: HeaderFields, more: seq<byte>)
    requires HeaderFormed(h) && h.indicator < 8
    ensures Run(c, SecondIdRead(h).(state := AppLen), AppBytes(h) + more) == GoesOn(c, AppOk(c, h), First(h), more)
  {
    hide Run, Pow2, Bit, Integers.Encoded;
    IndicatorBits(h.indicator);
    var d := SecondIdRead(h).(state := AppLen);
    if h.app.None? {
      assert AppBytes(h) + more == more;
      NothingRead(c, d, more);
      NothingRead(c, d.(state := AppDat), more);
    } else {
      var app := h.app.value;
      assert AppBytes(h) + more == Integers.Encoded(|app|) + (app + more);
      SizeRead(c, d, c.width, |app|, app + more);
      if |app| + 1 < Pow2(c.width) {
        SeveralRead(c, d.(state := AppDat, hdr := d.hdr.(appSize := |app|)), app, more);
      }
    }
  }

  /** The header: it is accepted, or refused. */
  lemma HeaderRead(c: Configuration, h: HeaderFields, more: seq<byte>)
    requires HeaderFormed(h)
    ensures Run(c, Start(), HeaderBytes(h) + more) == GoesOn(c, HeaderOk(c, h), First(h), more)
  {
    hide Run, Pow2, SecondIdBytes, TableBytes, AppBytes, SecondIdRead, HeaderIndicated, First;
    var a, b, t := SecondIdBytes(h), TableBytes(h), AppBytes(h);
    Associative(b, t, more);
    Associative(a, b + t, more);
    Associative([h.indicator], a + (b + t), more);
    Associative(h.magic, [h.indicator] + (a + (b + t)), more);
    ReadMagic(c, h, a + (b + (t + more)));
    if h.indicator < 8 {
      ReadSecondId(c, h, b + (t + more));
      ReadTable(c, h, t + more);
      ReadApp(c, h, more);
    }
  }

  /** Every delta, field by field: the decoder refuses the header, or tells of each window what
      its fields say. */
  lemma DeltaRead(c: Configuration, h: HeaderFields, ws: seq<WindowFields>)
    requires HeaderFormed(h) && AllFormed(ws) && UnpacksSections(c) && !c.justHeader
    ensures Run(c, Start(), DeltaBytes(h, ws))
         == if HeaderOk(c, h) then WindowsTell(c, First(h), ws) else Result([], None)
  {
    hide Run, HeaderBytes, WindowsBytes, HeaderOk, UnpacksSections, WindowsTell;
    HeaderRead(c, h, WindowsBytes(ws));
    if HeaderOk(c, h) {
      WindowsRead(c, First(h), ws);
    }
  }
}
