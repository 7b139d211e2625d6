/**
  xdelta3-second.h: the bit packer under both secondary compressors.  Bits fill a
  byte from its least significant end; numbers are sent most significant bit first.
 */
module BitIO {
  import opened Bytes
  import opened Binary
  import Arith

  function BitsOf(bytes: seq<byte>): (bits: seq<bool>)
    ensures |bits| == 8 * |bytes|
  {
    if bytes == [] then [] else LowBits(bytes[0], 8) + BitsOf(bytes[1..])
  }

  lemma {:induction false} BitsOfJoin(a: seq<byte>, b: seq<byte>)
    ensures BitsOf(a + b) == BitsOf(a) + BitsOf(b)
    decreases |a|
  {
    hide BitsOf, LowBits;
    if a == [] {
      assert a + b == b;
      BitsOfFirst(0, []);
    } else {
      assert a == [a[0]] + a[1..] && a + b == [a[0]] + (a[1..] + b);
      BitsOfFirst(a[0], a[1..]);
      BitsOfFirst(a[0], a[1..] + b);
      BitsOfJoin(a[1..], b);
      Associative(LowBits(a[0], 8), BitsOf(a[1..]), BitsOf(b));
    }
  }

  lemma BitsOfAppend(a: seq<byte>, b: byte)
    ensures BitsOf(a + [b]) == BitsOf(a) + LowBits(b, 8)
  {
    hide LowBits;
    BitsOfJoin(a, [b]);
    BitsOfFirst(b, []);
    assert [b] + [] == [b];
  }

  lemma BitsOfFirst(b: byte, rest: seq<byte>)
    ensures BitsOf([b] + rest) == LowBits(b, 8) + BitsOf(rest) && BitsOf([]) == []
  {
    hide LowBits;
    assert ([b] + rest)[1..] == rest;
  }

  /** Bit `k` of byte `i` is the bit of weight 2^k. */
  lemma {:induction false} BitOrder(bytes: seq<byte>, i: nat, k: nat)
    requires i < |bytes| && k < 8
    ensures BitsOf(bytes)[8 * i + k] == (bytes[i] / Pow2(k) % 2 == 1)
    decreases i
  {
    hide LowBits;
    if i == 0 {
      LowBitAt(bytes[0], 8, k);
    } else {
      BitOrder(bytes[1..], i - 1, k);
      assert 8 * i + k == 8 + (8 * (i - 1) + k);
    }
  }

  /** `value & mask` for a mask of one bit. */
  predicate Test(value: nat, mask: nat)
    requires mask > 0
  {
    value / mask % 2 == 1
  }

  /** `value | mask` for a mask of one bit. */
  function Set(value: nat, mask: nat): nat
    requires mask > 0
  {
    if Test(value, mask) then value else value + mask
  }

  /** xd3_encode_bit on the current byte. */
  lemma BitAdded(value: nat, k: nat, bit: bool)
    requires k < 8 && value < Pow2(k)
    ensures var v := if bit then Set(value, Pow2(k)) else value;
      v < Pow2(k + 1) <= 256 && LowBits(v, k + 1) == LowBits(value, k) + [bit]
    ensures Pow2(k) == 0x80 <==> k == 7
  {
    Arith.DivisionUnique(value, Pow2(k), 0, value);
    LowBitsSet(value, k, bit);
    MaskOfByte(k);
    Pow2Monotone(k + 1, 8);
  }

  lemma MaskOfByte(k: nat)
    requires k <= 8
    ensures Pow2(0) == 1 && Pow2(8) == 256
    ensures Pow2(k) == 0x80 <==> k == 7
    ensures Pow2(k) == 0x100 <==> k == 8
    ensures Pow2(k) == 1 <==> k == 0
  {
    assert Pow2(1) == 2 && Pow2(2) == 4 && Pow2(3) == 8 && Pow2(4) == 16;
    assert Pow2(5) == 32 && Pow2(6) == 64 && Pow2(7) == 128 && Pow2(8) == 256;
  }

  /** The bytes on the page being filled, after `n` more bytes than `first`. */
  function PageNext(first: nat, avail: nat, n: nat): nat {
    if n == 0 then first
    else
      var before := PageNext(first, avail, n - 1);
      (if before == avail then 0 else before) + 1
  }

  /** Bits waiting in the current byte, after the pages of output written so far.
      `pageNext` counts the bytes on the page being filled. */
  class BitWriter {
    var out: seq<byte>
    const pageAvail: nat
    var pageNext: nat
    var curByte: byte
    var curMask: nat
    ghost const first: nat
    ghost var k: nat

    ghost predicate Valid()
      reads this
    {
      k < 8 && curMask == Pow2(k) && curByte < Pow2(k) && pageNext == PageNext(first, pageAvail, |out|)
    }

    /** Whole bytes are handed on at once. */
    lemma WholeBytes()
      requires Valid()
      ensures |out| == |Bits()| / 8 && pageNext == PageNext(first, pageAvail, |Bits()| / 8)
    {
      hide PageNext, Pow2;
      Arith.DivisionUnique(|Bits()|, 8, |out|, k);
    }

    /** All bits written so far. */
    ghost function Bits(): seq<bool>
      reads this
    {
      BitsOf(out) + LowBits(curByte, k)
    }

    /** BIT_STATE_ENCODE_INIT on an output list whose last page holds `next` bytes. */
    constructor (pageAvail: nat, next: nat)
      ensures Valid() && out == [] && Bits() == [] && pageNext == next == first && this.pageAvail == pageAvail
    {
      this.pageAvail, pageNext, first := pageAvail, next, next;
      out, curByte, curMask, k := [], 0, 1, 0;
    }

    /** xd3_emit_byte: a full page is followed by a new one. */
    method EmitByte(b: byte)
      modifies this`out, this`pageNext
      ensures out == old(out) + [b] && pageNext == (if old(pageNext) == pageAvail then 0 else old(pageNext)) + 1
    {
      if pageNext == pageAvail {
        pageNext := 0;
      }
      out := out + [b];
      pageNext := pageNext + 1;
    }

    /** xd3_encode_bit */
    method EncodeBit(bit: bool)
      requires Valid()
      modifies this
      ensures Valid() && Bits() == old(Bits()) + [bit]
    {
      hide LowBits, Set, BitsOf, Pow2;
      BitAdded(curByte, k, bit);
      MaskOfByte(k);
      PowerNext(k);
      if bit {
        curByte := Set(curByte, curMask);
      }
      if curMask == 0x80 {
        EmitByte(curByte);
        BitsOfAppend(old(out), curByte);
        NoLowBits(0);
        assert BitsOf(old(out)) + (LowBits(old(curByte), old(k)) + [bit]) == old(Bits()) + [bit];
        curMask, curByte := 1, 0;
        k := 0;
      } else {
        assert BitsOf(out) + (LowBits(old(curByte), k) + [bit]) == old(Bits()) + [bit];
        curMask := curMask * 2;
        k := k + 1;
      }
    }

    /** xd3_encode_bits: the `nbits` bits of a value, most significant first. */
    method EncodeBits(nbits: nat, value: nat)
      requires Valid() && 0 < nbits && value < Pow2(nbits)
      modifies this
      ensures Valid() && Bits() == old(Bits()) + ToBits(value, nbits)
    {
      hide LowBits, BitsOf, ToBits, Pow2;
      var mask := Pow2(nbits);
      ghost var left := nbits;
      Arith.DivisionUnique(value, mask, 0, value);
      while true
        invariant 0 < left && mask == Pow2(left)
        invariant Valid() && Bits() + ToBits(value % mask, left) == old(Bits()) + ToBits(value, nbits)
        decreases left
      {
        NextBit(value, left);
        mask := mask / 2;
        ghost var before := Bits();
        EncodeBit(Test(value, mask));
        left := left - 1;
        assert before + ([Test(value, mask)] + ToBits(value % mask, left)) == Bits() + ToBits(value % mask, left);
        PowerIsOne(left);
        if mask == 1 {
          break;
        }
      }
      NoDigits(value % mask);
    }

    /** xd3_flush_bits: the last byte is padded with zero bits. */
    method FlushBits() returns (ghost padding: nat)
      requires Valid()
      modifies this`out, this`pageNext
      ensures padding < 8 && BitsOf(out) == old(Bits()) + Repeat(false, padding)
    {
      hide LowBits, BitsOf, Pow2;
      padding := 0;
      MaskOfByte(k);
      NoLowBits(curByte);
      if curMask != 1 {
        EmitByte(curByte);
        padding := 8 - k;
        BitsOfAppend(old(out), curByte);
        LowBitsPad(curByte, k, 8);
        assert BitsOf(old(out)) + (LowBits(curByte, k) + Repeat(false, padding))
            == old(Bits()) + Repeat(false, padding);
      }
    }
  }

  lemma PowerNext(k: nat)
    ensures Pow2(k + 1) == 2 * Pow2(k) && Pow2(0) == 1
  {
  }

  lemma NoLowBits(value: nat)
    ensures LowBits(value, 0) == []
  {
  }

  lemma NextBit(value: nat, n: nat)
    requires n > 0
    ensures Pow2(n) / 2 == Pow2(n - 1)
    ensures ToBits(value % Pow2(n), n) == [value / Pow2(n - 1) % 2 == 1] + ToBits(value % Pow2(n - 1), n - 1)
  {
    Arith.HalfModulus(value, Pow2(n - 1));
  }

  lemma NoDigits(value: nat)
    ensures ToBits(value, 0) == []
  {
  }

  lemma PowerIsOne(n: nat)
    ensures Pow2(n) == 1 <==> n == 0
  {
  }

  /** The other end: the bits left in the current byte, then the unread input. */
  class BitReader {
    const input: seq<byte>
    var pos: nat
    var curByte: byte
    var curMask: nat
    ghost var k: nat

    ghost predicate Valid()
      reads this
    {
      1 <= k <= 8 && curMask == Pow2(k) && pos <= |input|
    }

    /** The bits not read yet. */
    ghost function Rest(): seq<bool>
      requires Valid()
      reads this
    {
      LowBits(curByte, 8)[k..] + BitsOf(input[pos..])
    }

    /** BIT_STATE_DECODE_INIT */
    constructor (input: seq<byte>)
      ensures Valid() && Rest() == BitsOf(input) && this.input == input
    {
      this.input, pos, curByte, curMask, k := input, 0, 0, 0x100, 8;
      new;
      MaskOfByte(8);
    }

    /** The part the decoding loops share: the next bit, from a new byte if need be. */
    method ReadBit() returns (ok: bool, bit: bool)
      requires Valid()
      modifies this
      ensures Valid()
      ensures ok <==> old(Rest()) != []
      ensures ok ==> old(Rest()) == [bit] + Rest()
      ensures !ok ==> Rest() == []
    {
      hide LowBits, BitsOf, Pow2;
      bit := false;
      ok := true;
      MaskOfByte(k);
      RestEmpty(curByte, k, input, pos);
      if curMask == 0x100 {
        if pos == |input| {
          ok := false;
        } else {
          curByte := input[pos];
          pos := pos + 1;
          curMask := 1;
          k := 0;
        }
      }
      if ok {
        RestStep(curByte, k, input, pos);
        bit := Test(curByte, curMask);
        curMask := curMask * 2;
        k := k + 1;
      }
    }

    /** xd3_decode_bits */
    method DecodeBits(nbits: nat) returns (ok: bool, value: nat)
      requires Valid() && nbits > 0
      modifies this
      ensures Valid()
      ensures ok <==> nbits <= |old(Rest())|
      ensures ok ==> value == ToNat(old(Rest())[..nbits]) && Rest() == old(Rest())[nbits..]
    {
      hide LowBits, BitsOf, ToNat, Pow2;
      value := 0;
      ok := true;
      var vmask := Pow2(nbits);
      ghost var n: nat, was := 0, Rest();
      NoValue(was[..0]);
      while true
        invariant ok && Valid() && n < nbits && n <= |was| && was[n..] == Rest()
        invariant vmask == Pow2(nbits - n) && value == ToNat(was[..n]) * vmask
        decreases nbits - n
      {
        var bit;
        ok, bit := ReadBit();
        if !ok {
          break;
        }
        PowerNext(nbits - n - 1);
        vmask := vmask / 2;
        ValueOn(was, n, vmask, bit, Rest());
        if bit {
          value := value + vmask;
        }
        n := n + 1;
        PowerIsOne(nbits - n);
        if vmask == 1 {
          break;
        }
      }
    }
  }

  /** One bit more: its weight is the mask. */
  lemma ValueOn(was: seq<bool>, n: nat, vmask: nat, bit: bool, rest: seq<bool>)
    requires n < |was| && was[n..] == [bit] + rest
    ensures was[n + 1..] == rest
    ensures ToNat(was[..n]) * (2 * vmask) + (if bit then vmask else 0) == ToNat(was[..n + 1]) * vmask
  {
    hide ToNat;
    assert was[n..][0] == bit && was[n..][1..] == rest;
    assert was[..n + 1] == was[..n] + [bit];
    NatOfAppend(was[..n], bit);
    ScaledValue(ToNat(was[..n]), vmask, bit);
  }

  lemma RestEmpty(b: byte, k: nat, input: seq<byte>, pos: nat)
    requires k <= 8 && pos <= |input|
    ensures k == 8 && pos == |input| ==> LowBits(b, 8)[k..] + BitsOf(input[pos..]) == []
    ensures k < 8 ==> LowBits(b, 8)[k..] + BitsOf(input[pos..]) != []
    ensures k == 8 && pos < |input| ==>
      LowBits(b, 8)[k..] + BitsOf(input[pos..]) == LowBits(input[pos], 8)[0..] + BitsOf(input[pos + 1..])
  {
    hide LowBits;
    if pos < |input| {
      assert input[pos..][1..] == input[pos + 1..];
    }
  }

  lemma RestStep(b: byte, k: nat, input: seq<byte>, pos: nat)
    requires k < 8 && pos <= |input|
    ensures LowBits(b, 8)[k..] + BitsOf(input[pos..])
         == [Test(b, Pow2(k))] + (LowBits(b, 8)[k + 1..] + BitsOf(input[pos..]))
    ensures Pow2(k + 1) == 2 * Pow2(k)
  {
    hide LowBits, BitsOf;
    LowBitAt(b, 8, k);
    var bits := LowBits(b, 8);
    assert bits[k..] == [bits[k]] + bits[k + 1..];
  }

  lemma NoValue(bits: seq<bool>)
    requires bits == []
    ensures ToNat(bits) == 0
  {
  }

  lemma ScaledValue(v: nat, m: nat, bit: bool)
    ensures v * (2 * m) + (if bit then m else 0) == (2 * v + if bit then 1 else 0) * m
  {
  }

  lemma Consumed(r: BitReader, n: nat, padding: nat, following: seq<byte>)
    requires r.Valid() && |r.input| == n + |following| && padding < 8
    requires |r.Rest()| == padding + 8 * |following|
    ensures r.pos == n
  {
    hide LowBits, BitsOf;
    assert |r.Rest()| == (8 - r.k) + 8 * (|r.input| - r.pos);
  }
}
