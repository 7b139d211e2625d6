/**
  xdelta3-internal.h: variable-length integers.  Seven bits to a byte, most significant
  first; all bytes but the last have their top bit set.
 */
module Integers {
  import opened Bytes
  import opened Binary
  import Arith

  /** All bytes of a number but the last, and all of them. */
  function Leading(n: nat): (s: seq<byte>) {
    if n == 0 then [] else Leading(n / 128) + [n % 128 + 128]
  }

  function Encoded(n: nat): (s: seq<byte>)
    ensures |s| > 0
  {
    Leading(n / 128) + [n % 128]
  }

  /** Numbers of `width` bits; adding seven more to one that has any of its top seven bits
      set would lose them. */
  function Limit(width: nat): (m: nat)
    requires width > 7
    ensures m * 128 == Pow2(width)
  {
    Pow2Sum(width - 7, 7);
    SevenBits();
    Pow2(width - 7)
  }

  lemma SevenBits()
    ensures Pow2(7) == 128
  {
    assert Pow2(3) == 8 && Pow2(5) == 32;
  }

  // ---------------------------------------------------------------- writing

  lemma {:induction false} LeadingLength(n: nat, k: nat)
    requires n < Pow2(7 * k)
    ensures |Leading(n)| <= k
    decreases k
  {
    if n > 0 {
      if k == 0 {
        assert false;
      }
      SevenLess(k);
      LeadingLength(n / 128, k - 1);
    }
  }

  lemma SevenLess(k: nat)
    requires k > 0
    ensures Pow2(7 * k) == 128 * Pow2(7 * (k - 1))
  {
    Pow2Sum(7 * (k - 1), 7);
    SevenBits();
    assert 7 * k == 7 * (k - 1) + 7;
  }

  lemma {:induction false} LeadingLong(n: nat, k: nat)
    requires n >= Pow2(7 * k)
    ensures |Leading(n)| > k
    decreases k
  {
    if k > 0 {
      SevenLess(k);
      LeadingLong(n / 128, k - 1);
    } else {
      assert Pow2(0) == 1;
    }
  }

  /** Bytes below a power of 128. */
  lemma EncodedLength(n: nat, k: nat)
    requires k > 0
    ensures n < Pow2(7 * k) <==> |Encoded(n)| <= k
  {
    SevenLess(k);
    if n < Pow2(7 * k) {
      LeadingLength(n / 128, k - 1);
    } else {
      LeadingLong(n / 128, k - 1);
    }
  }

  /** EMIT_INTEGER_TYPE: the bytes are filled in from the end of a buffer of ten. */
  method EmitInteger(num: nat) returns (out: seq<byte>)
    requires num < Pow2(64)
    ensures out == Encoded(num)
  {
    hide Leading, Pow2;
    TenBytes(num);
    EncodedLength(num, 10);
    var buf := new byte[10];
    var at: nat := 9;
    var n: nat := num / 128;
    buf[9] := num % 128 + 128;
    while n != 0
      invariant at <= 9 && |Leading(n)| <= at
      invariant Leading(n) + buf[at..9] == Leading(num / 128)
      invariant buf[9] == num % 128 + 128
      decreases n
    {
      LeadingStep(n);
      ghost var before := buf[at..9];
      at := at - 1;
      buf[at] := n % 128 + 128;
      assert buf[at..9] == [(n % 128 + 128) as byte] + before;
      assert Leading(n) + before == Leading(n / 128) + buf[at..9];
      n := n / 128;
    }
    NoLeading();
    buf[9] := buf[9] - 128;
    out := buf[at..];
    assert out == buf[at..9] + [buf[9]];
  }

  lemma TenBytes(num: nat)
    requires num < Pow2(64)
    ensures num < Pow2(7 * 10)
  {
    Pow2Monotone(64, 70);
  }

  lemma LeadingStep(n: nat)
    requires n > 0
    ensures Leading(n) == Leading(n / 128) + [n % 128 + 128]
    ensures |Leading(n)| == |Leading(n / 128)| + 1
  {
  }

  lemma NoLeading()
    ensures Leading(0) == []
  {
  }

  /** xd3_sizeof_uint32_t and xd3_sizeof_uint64_t */
  method SizeOf(num: nat, width: nat) returns (size: nat)
    requires (width == 32 || width == 64) && num < Pow2(width)
    ensures size == |Encoded(num)|
  {
    hide Pow2, Encoded;
    size := 1;
    var most := if width == 32 then 5 else 10;
    EncodedLength(num, 1);
    while size < most && num >= Pow2(7 * size)
      invariant 1 <= size <= most && (size == 1 || |Encoded(num)| >= size)
    {
      EncodedLength(num, size);
      size := size + 1;
      EncodedLength(num, size);
    }
    EncodedLength(num, size);
    EncodedLength(num, most);
    Pow2Monotone(width, 7 * most);
  }

  // ---------------------------------------------------------------- reading

  datatype Read = Done(value: nat, rest: seq<byte>) | NeedInput(part: nat) | Overflow

  /** Reading on after bytes worth `part`. */
  function ReadFrom(s: seq<byte>, part: nat, width: nat): Read
    requires width > 7
    decreases |s|
  {
    if s == [] then NeedInput(part)
    else if part >= Limit(width) then Overflow
    else
      var v := part * 128 + s[0] % 128;
      if s[0] < 128 then Done(v, s[1..]) else ReadFrom(s[1..], v, width)
  }

  /** READ_INTEGER_TYPE: all in one piece. */
  method ReadInteger(input: seq<byte>, width: nat) returns (r: Read)
    requires width > 7
    ensures r == ReadFrom(input, 0, width)
  {
    hide Limit;
    var val: nat, at: nat := 0, 0;
    assert input[0..] == input;
    while true
      invariant at <= |input| && ReadFrom(input[at..], val, width) == ReadFrom(input, 0, width)
      decreases |input| - at
    {
      ghost var s := input[at..];
      if at == |input| {
        r := NeedInput(val);
        break;
      }
      assert s[1..] == input[at + 1..];
      if val >= Limit(width) {
        r := Overflow;
        break;
      }
      var next := input[at];
      at := at + 1;
      val := val * 128 + next % 128;
      if next < 128 {
        r := Done(val, input[at..]);
        break;
      }
    }
  }

  /** DECODE_INTEGER_TYPE: what has come so far, and what comes of it with more input. */
  method DecodeInteger(input: seq<byte>, part0: nat, width: nat) returns (r: Read)
    requires width > 7
    ensures r == ReadFrom(input, part0, width)
  {
    hide Limit;
    var at: nat, part: nat := 0, part0;
    assert input[0..] == input;
    r := NeedInput(part);
    while at < |input|
      invariant at <= |input| && ReadFrom(input[at..], part, width) == ReadFrom(input, part0, width)
      invariant r.NeedInput?
      decreases |input| - at
    {
      ghost var s := input[at..];
      assert s[1..] == input[at + 1..];
      var next := input[at];
      at := at + 1;
      if part >= Limit(width) {
        r := Overflow;
        break;
      }
      part := part * 128 + next % 128;
      if next < 128 {
        r := Done(part, input[at..]);
        break;
      }
    }
    if r.NeedInput? {
      r := NeedInput(part);
    }
  }

  /** The decoder keeps the bytes so far when it runs out of input. */
  class Decoder {
    const width: nat
    var part: nat

    constructor (width: nat)
      ensures this.width == width && part == 0
    {
      this.width, part := width, 0;
    }

    /** xd3_decode_uint32_t and xd3_decode_uint64_t */
    method Decode(input: seq<byte>) returns (r: Read)
      requires width > 7
      modifies this
      ensures r == ReadFrom(input, old(part), width)
      ensures r.NeedInput? ==> part == r.part
      ensures r.Done? ==> part == 0
    {
      r := DecodeInteger(input, part, width);
      match r
      case Done(_, _) => part := 0;
      case NeedInput(p) => part := p;
      case Overflow =>
    }

    /** An integer that arrives in pieces. */
    method DecodePieces(pieces: seq<seq<byte>>) returns (r: Read, used: nat)
      requires width > 7 && part == 0
      modifies this
      ensures used <= |pieces| && r == ReadFrom(Joined(pieces[..used]), 0, width)
      ensures r.NeedInput? ==> used == |pieces|
    {
      used := 0;
      r := NeedInput(0);
      assert pieces[..0] == [];
      while used < |pieces| && r.NeedInput?
        invariant used <= |pieces| && r == ReadFrom(Joined(pieces[..used]), 0, width)
        invariant r.NeedInput? ==> part == r.part
        decreases |pieces| - used
      {
        ghost var before := pieces[..used];
        assert pieces[..used + 1] == before + [pieces[used]];
        assert (before + [pieces[used]])[..used] == before;
        ReadOn(Joined(before), pieces[used], 0, width);
        r := Decode(pieces[used]);
        used := used + 1;
      }
    }
  }

  function Joined(pieces: seq<seq<byte>>): seq<byte> {
    if pieces == [] then [] else Joined(pieces[..|pieces| - 1]) + pieces[|pieces| - 1]
  }

  /** More input, and the result of it all. */
  function Continued(r: Read, more: seq<byte>, width: nat): Read
    requires width > 7
  {
    match r
    case Done(v, rest) => Done(v, rest + more)
    case NeedInput(part) => ReadFrom(more, part, width)
    case Overflow => Overflow
  }

  lemma {:induction false} ReadShorter(s: seq<byte>, part: nat, width: nat)
    requires width > 7
    ensures var r := ReadFrom(s, part, width); r.Done? ==> |r.rest| < |s|
    decreases |s|
  {
    if s != [] && part < Limit(width) && s[0] >= 128 {
      ReadShorter(s[1..], part * 128 + s[0] % 128, width);
    }
  }

  /** Stopping and going on makes no difference. */
  lemma {:induction false} ReadOn(a: seq<byte>, b: seq<byte>, part: nat, width: nat)
    requires width > 7
    ensures ReadFrom(a + b, part, width) == Continued(ReadFrom(a, part, width), b, width)
    decreases |a|
  {
    if a == [] {
      assert a + b == b;
    } else {
      assert (a + b)[1..] == a[1..] + b;
      if part < Limit(width) && a[0] >= 128 {
        ReadOn(a[1..], b, part * 128 + a[0] % 128, width);
      }
    }
  }

  // ------------------------------------------------------------- round trip

  lemma {:induction false} ReadLeading(n: nat, rest: seq<byte>, width: nat)
    requires width > 7 && (n == 0 || n < Limit(width))
    ensures ReadFrom(Leading(n) + rest, 0, width) == ReadFrom(rest, n, width)
    decreases n
  {
    if n == 0 {
      assert Leading(0) + rest == rest;
    } else {
      var last: byte := n % 128 + 128;
      assert Leading(n) + rest == Leading(n / 128) + ([last] + rest);
      ReadLeading(n / 128, [last] + rest, width);
      assert ([last] + rest)[1..] == rest;
    }
  }

  /** Reading undoes writing, for every number that fits. */
  lemma RoundTrip(n: nat, rest: seq<byte>, width: nat)
    requires width > 7 && n < Pow2(width)
    ensures ReadFrom(Encoded(n) + rest, 0, width) == Done(n, rest)
  {
    assert Encoded(n) + rest == Leading(n / 128) + ([n % 128] + rest);
    assert n / 128 < Limit(width);
    ReadLeading(n / 128, [n % 128] + rest, width);
    assert ([n % 128] + rest)[1..] == rest;
  }

  /** The number a byte string stands for, however large. */
  function Number(s: seq<byte>, part: nat): nat {
    if s == [] then part else Number(s[1..], part * 128 + s[0] % 128)
  }

  /** Bytes that go on, and one that ends them. */
  predicate WholeNumber(s: seq<byte>) {
    s != [] && s[|s| - 1] < 128 && forall i | 0 <= i < |s| - 1 :: s[i] >= 128
  }

  lemma {:induction false} NumberGrows(s: seq<byte>, part: nat)
    ensures Number(s, part) >= part
    decreases |s|
  {
    if s != [] {
      NumberGrows(s[1..], part * 128 + s[0] % 128);
    }
  }

  /** Overflow is reported exactly when the number does not fit. */
  lemma {:induction false} OverflowExactly(s: seq<byte>, rest: seq<byte>, part: nat, width: nat)
    requires width > 7 && WholeNumber(s)
    ensures ReadFrom(s + rest, part, width)
         == if Number(s, part) < Pow2(width) then Done(Number(s, part), rest) else Overflow
    decreases |s|
  {
    hide Pow2;
    var v := part * 128 + s[0] % 128;
    assert (s + rest)[1..] == s[1..] + rest;
    NumberGrows(s[1..], v);
    if part < Limit(width) {
      if |s| == 1 {
        assert s[1..] == [] && [] + rest == rest;
      } else {
        OverflowExactly(s[1..], rest, v, width);
      }
    }
  }

  /** A number as it is written is a whole number of that value. */
  lemma {:induction false} LeadingNumber(n: nat, rest: seq<byte>)
    ensures Number(Leading(n) + rest, 0) == Number(rest, n)
    ensures forall i | 0 <= i < |Leading(n)| :: Leading(n)[i] >= 128
    decreases n
  {
    if n == 0 {
      assert Leading(0) + rest == rest;
    } else {
      var last: byte := n % 128 + 128;
      assert Leading(n) + rest == Leading(n / 128) + ([last] + rest);
      LeadingNumber(n / 128, [last] + rest);
      assert ([last] + rest)[1..] == rest;
    }
  }

  /** Every number, written and read again: it comes back, or it does not fit. */
  lemma ReadWritten(n: nat, rest: seq<byte>, width: nat)
    requires width > 7
    ensures ReadFrom(Encoded(n) + rest, 0, width) == if n < Pow2(width) then Done(n, rest) else Overflow
  {
    hide Pow2, Encoded, ReadFrom, WholeNumber;
    EncodedNumber(n);
    OverflowExactly(Encoded(n), rest, 0, width);
  }

  lemma EncodedNumber(n: nat)
    ensures WholeNumber(Encoded(n)) && Number(Encoded(n), 0) == n
  {
    var last: byte := n % 128;
    LeadingNumber(n / 128, [last]);
    assert Number([last], n / 128) == Number([], n / 128 * 128 + last % 128);
  }

  /** The digits of a number in base 128, the first one first, and which byte is the last. */
  lemma {:induction false} EncodedDigits(n: nat, k: nat)
    requires k < |Encoded(n)|
    ensures var left := |Encoded(n)| - 1 - k;
      Encoded(n)[k] == n / Pow2(7 * left) % 128 + if left > 0 then 128 else 0
  {
    hide Pow2;
    NoShift(n);
    if k < |Encoded(n)| - 1 {
      LeadingDigits(n / 128, k);
      var left := |Leading(n / 128)| - 1 - k;
      ShiftMore(n, left);
    }
  }

  lemma {:induction false} LeadingDigits(n: nat, k: nat)
    requires k < |Leading(n)|
    ensures Leading(n)[k] == n / Pow2(7 * (|Leading(n)| - 1 - k)) % 128 + 128
    decreases n
  {
    hide Pow2;
    NoShift(n);
    if k < |Leading(n)| - 1 {
      LeadingDigits(n / 128, k);
      ShiftMore(n, |Leading(n)| - 2 - k);
    }
  }

  lemma NoShift(n: nat)
    ensures Pow2(7 * 0) == 1 && n / Pow2(7 * 0) == n
  {
    assert 7 * 0 == 0;
  }

  lemma ShiftMore(n: nat, left: nat)
    ensures n / 128 / Pow2(7 * left) == n / Pow2(7 * (left + 1))
  {
    hide Pow2;
    SevenBits();
    assert 7 * (left + 1) == 7 + 7 * left;
    Pow2Sum(7, 7 * left);
    Arith.DivideTwice(n, 128, Pow2(7 * left));
  }
}
