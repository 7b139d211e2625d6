/**
  xdelta3-hash.h: the checksum of the large matcher, a polynomial in the word size, and the
  size of its hash table.
 */
module Hash {
  import opened Bytes
  import opened Binary
  import Arith

  /** Numbers of the machine word, of either width. */
  type Word = m: nat | m > 0 witness 1

  function Power(mult: nat, n: nat): nat {
    if n == 0 then 1 else Power(mult, n - 1) * mult
  }

  /** The checksum before it wraps around: Horner's rule. */
  function Polynomial(s: seq<byte>, mult: nat): nat {
    if s == [] then 0 else Polynomial(s[..|s| - 1], mult) * mult + s[|s| - 1]
  }

  function Checksum(s: seq<byte>, mult: nat, m: Word): nat {
    Polynomial(s, mult) % m
  }

  // ------------------------------------------------------- wrapping around

  lemma Absorb(a: int, b: int, m: Word)
    ensures (a % m + b) % m == (a + b) % m
  {
    var q, r := a / m, a % m;
    var q', r' := (r + b) / m, (r + b) % m;
    assert a + b == (q + q') * m + r' by {
      assert a == q * m + r && r + b == q' * m + r';
    }
    Unique(a + b, m, q + q', r');
  }

  lemma Unique(n: int, m: Word, q: int, r: int)
    requires n == q * m + r && 0 <= r < m
    ensures n % m == r
  {
    var d := n / m - q;
    assert n == (n / m) * m + n % m;
    assert d * m == r - n % m by {
      assert (n / m) * m - q * m == (n / m - q) * m;
    }
    assert (-d) * m == -(d * m);
    if d > 0 {
      Arith.Multiples(0, d, m);
    } else if d < 0 {
      Arith.Multiples(0, -d, m);
    }
  }

  lemma AbsorbProduct(a: int, b: int, m: Word)
    ensures (a % m * b) % m == (a * b) % m
  {
    var q, r := a / m, a % m;
    assert a * b == q * b * m + r * b by {
      assert a == q * m + r;
      assert (q * m + r) * b == q * b * m + r * b;
    }
    Shift(r * b, q * b, m);
  }

  lemma Shift(a: int, k: int, m: Word)
    ensures (k * m + a) % m == a % m
  {
    var q, r := a / m, a % m;
    assert k * m + a == (k + q) * m + r by {
      assert a == q * m + r;
    }
    Unique(k * m + a, m, k + q, r);
  }

  // ----------------------------------------------------------- the checksum

  lemma {:induction false} PolynomialCons(b: byte, s: seq<byte>, mult: nat)
    ensures Polynomial([b] + s, mult) == b * Power(mult, |s|) + Polynomial(s, mult)
    decreases |s|
  {
    if s == [] {
      assert ([b] + s)[..0] == [];
      assert Polynomial([], mult) * mult == 0;
    } else {
      var t := s[..|s| - 1];
      PolynomialCons(b, t, mult);
      assert ([b] + s)[..|s|] == [b] + t;
      Spread(b, Power(mult, |t|), Polynomial(t, mult), mult);
    }
  }

  lemma Spread(b: nat, p: nat, q: nat, m: nat)
    ensures (b * p + q) * m == b * (p * m) + q * m
  {
  }

  /** xd3_hash_cfg: the powers of the multiplier, and what a byte that leaves the window
      has been multiplied by. */
  class Config {
    const m: Word
    const mult: nat
    const look: nat
    const powers: array<nat>
    var multiplier: nat
    var size: nat
    var mask: nat
    var shift: nat

    ghost predicate Valid()
      reads this, powers
    {
      && look > 0 && powers.Length == look
      && (forall i: nat | i < look :: powers[i] == Power(mult, look - 1 - i) % m)
      && multiplier == Power(mult, look) % m
    }

    /** xd3_size_hashtable */
    constructor (slots: nat, look: nat, width: nat, mult: nat)
      requires look > 0 && width > 3 && slots < Pow2(width)
      ensures Valid() && m == Pow2(width) && this.mult == mult && this.look == look
      ensures shift <= width && size == Pow2(width - shift) && mask == size - 1
      ensures TableSize(width - shift, slots) && shift > 0
    {
      hide Power;
      var word: Word := Pow2(width);
      PowerStart(mult, word);
      var bits := SizeBits(slots, width);
      m, this.mult, this.look := word, mult, look;
      size, mask, shift := Pow2(bits), Pow2(bits) - 1, width - bits;
      var p := new nat[look];
      assert word > 1;
      p[look - 1] := 1;
      var i := look - 1;
      while i > 0
        invariant i < look && forall j: nat | i <= j < look :: p[j] == Power(mult, look - 1 - j) % word
      {
        PowerStep(mult, look - 1 - i, word);
        p[i - 1] := (p[i] * mult) % word;
        i := i - 1;
      }
      PowerStep(mult, look - 1, word);
      powers, multiplier := p, (p[0] * mult) % word;
    }

    /** xd3_large32_cksum and xd3_large64_cksum */
    method LargeChecksum(base: seq<byte>) returns (h: nat)
      requires Valid() && |base| == look
      ensures h == Checksum(base, mult, m)
    {
      hide Power, Polynomial;
      h := 0;
      NoBytes(mult, m);
      assert base[..0] == [];
      for i := 0 to look
        invariant h == (Polynomial(base[..i], mult) * Power(mult, look - i)) % m
      {
        ghost var p, q := Polynomial(base[..i], mult), Power(mult, look - 1 - i);
        assert base[..i + 1][..i] == base[..i];
        Horner(base[..i + 1], mult, look - i);
        WeighedSum(p * Power(mult, look - i), base[i], q, m);
        h := (h + base[i] * powers[i]) % m;
      }
      assert base[..look] == base;
    }

    /** xd3_large32_cksum_update and xd3_large64_cksum_update: from one window to the next. */
    method LargeChecksumUpdate(cksum: nat, base: seq<byte>) returns (h: nat)
      requires Valid() && |base| == look + 1 && cksum == Checksum(base[..look], mult, m)
      ensures h == Checksum(base[1..], mult, m)
    {
      hide Power, Polynomial, Checksum;
      UpdatedIsFresh(base, look, mult, m);
      h := Updated(cksum, multiplier, base, look, mult, m);
    }
  }

  /** The update, with the power of the multiplier it is given. */
  function Updated(cksum: nat, multiplier: nat, base: seq<byte>, look: nat, mult: nat, m: Word): nat
    requires |base| == look + 1
  {
    (mult * cksum - multiplier * base[0] + base[look]) % m
  }

  /** Rolling gives what computing afresh would. */
  lemma UpdatedIsFresh(base: seq<byte>, look: nat, mult: nat, m: Word)
    requires |base| == look + 1 && look > 0
    ensures Updated(Checksum(base[..look], mult, m), Power(mult, look) % m, base, look, mult, m)
         == Checksum(base[1..], mult, m)
  {
    hide Power, Polynomial;
    var middle := base[1..look];
    assert base[..look] == [base[0]] + middle && base[1..] == middle + [base[look]];
    PolynomialCons(base[0], middle, mult);
    PolynomialNext(middle, base[look], mult);
    PowerNext(mult, look);
    Rolled(Polynomial(middle, mult), base[0], Power(mult, look - 1), base[look], mult, m);
  }

  lemma PowerStart(mult: nat, m: Word)
    ensures Power(mult, 0) == 1 && (m > 1 ==> Power(mult, 0) % m == 1)
  {
  }

  lemma PowerStep(mult: nat, n: nat, m: Word)
    ensures Power(mult, n + 1) % m == (Power(mult, n) % m * mult) % m
  {
    AbsorbProduct(Power(mult, n), mult, m);
  }

  lemma PowerNext(mult: nat, n: nat)
    requires n > 0
    ensures Power(mult, n) == Power(mult, n - 1) * mult
  {
  }

  lemma PolynomialNext(s: seq<byte>, b: byte, mult: nat)
    ensures Polynomial(s + [b], mult) == Polynomial(s, mult) * mult + b
  {
    assert (s + [b])[..|s|] == s;
  }

  lemma NoBytes(mult: nat, m: Word)
    ensures Polynomial([], mult) == 0 && Power(mult, 0) == 1 && 0 % m == 0
  {
  }

  /** The sum so far, with one byte more. */
  lemma Horner(s: seq<byte>, mult: nat, left: nat)
    requires s != [] && left > 0
    ensures Polynomial(s, mult) * Power(mult, left - 1)
         == Polynomial(s[..|s| - 1], mult) * Power(mult, left) + s[|s| - 1] * Power(mult, left - 1)
  {
    var p, q := Polynomial(s[..|s| - 1], mult), Power(mult, left - 1);
    assert (p * mult + s[|s| - 1]) * q == p * (q * mult) + s[|s| - 1] * q;
  }

  lemma WeighedSum(a: nat, b: nat, q: nat, m: Word)
    ensures (a % m + b * (q % m)) % m == (a + b * q) % m
  {
    AbsorbProduct(q, b, m);
    Absorb(a, b * (q % m), m);
    assert b * (q % m) == q % m * b && b * q == q * b;
    Absorb(b * (q % m), a, m);
    Absorb(b * q, a, m);
  }

  /** The multiplier takes the oldest byte out again. */
  lemma Rolled(t: nat, first: nat, p: nat, last: nat, mult: nat, m: Word)
    ensures (mult * ((first * p + t) % m) - (p * mult) % m * first + last) % m == (t * mult + last) % m
  {
    var c, k := first * p + t, p * mult;
    Commuted(mult, c % m, c);
    AbsorbProduct(c, mult, m);
    AbsorbProduct(k, first, m);
    Combined(mult * (c % m), mult * c, k % m * first, k * first, last, m);
    Cancelled(t, first, p, mult);
  }

  lemma Commuted(a: int, b: int, c: int)
    ensures a * b == b * a && a * c == c * a
  {
  }

  lemma Cancelled(t: int, first: int, p: int, mult: int)
    ensures mult * (first * p + t) - p * mult * first == t * mult
  {
    assert mult * (first * p + t) == mult * (first * p) + mult * t;
    assert mult * (first * p) == p * mult * first;
  }

  /** Equal remainders, equal sums. */
  lemma Combined(x: int, x': int, y: int, y': int, z: int, m: Word)
    requires x % m == x' % m && y % m == y' % m
    ensures (x - y + z) % m == (x' - y' + z) % m
  {
    Absorb(x, z - y, m);
    Absorb(x', z - y, m);
    Minus(x' + z, y, y', m);
    assert x - y + z == x + (z - y) && x' - y + z == x' + (z - y) && x' + z - y == x' + (z - y);
    assert x' + z - y' == x' - y' + z;
  }

  lemma Minus(z: int, y: int, y': int, m: Word)
    requires y % m == y' % m
    ensures (z - y) % m == (z - y') % m
  {
    var k := y / m - y' / m;
    assert y - y' == k * m by {
      assert y == y / m * m + y % m && y' == y' / m * m + y' % m;
      assert (y / m - y' / m) * m == y / m * m - y' / m * m;
    }
    assert z - y' == k * m + (z - y);
    Shift(z - y, k, m);
  }

  // -------------------------------------------------------------- the table

  /** The largest power of two the slots fill, but never below four. */
  predicate TableSize(bits: nat, slots: nat) {
    bits >= 2 && slots < Pow2(bits + 1) && (bits > 2 ==> Pow2(bits) <= slots)
  }

  /** xd3_size_hashtable_bits */
  method SizeBits(slots: nat, width: nat) returns (bits: nat)
    requires width > 3 && slots < Pow2(width)
    ensures TableSize(bits, slots) && bits < width
  {
    hide Pow2;
    bits := width - 1;
    var i: nat := 3;
    while i <= width - 1
      invariant 3 <= i <= width && bits == width - 1
      invariant i > 3 ==> Pow2(i - 1) <= slots
      decreases width - i
    {
      if slots < Pow2(i) {
        bits := i - 1;
        break;
      }
      i := i + 1;
    }
  }
}
