/** Powers of two and the binary notation of numbers, most significant bit first. */
module Binary {
  import opened Bytes
  import Arith

  function Pow2(n: nat): (p: nat)
    ensures p > 0
  {
    if n == 0 then 1 else 2 * Pow2(n - 1)
  }

  lemma {:induction false} Pow2Monotone(a: nat, b: nat)
    requires a <= b
    ensures Pow2(a) <= Pow2(b)
    decreases b
  {
    if a < b {
      Pow2Monotone(a, b - 1);
    }
  }

  lemma {:induction false} Pow2Sum(a: nat, b: nat)
    ensures Pow2(a + b) == Pow2(a) * Pow2(b)
    decreases b
  {
    if b > 0 {
      Pow2Sum(a, b - 1);
      assert Pow2(a) * Pow2(b) == 2 * (Pow2(a) * Pow2(b - 1));
    }
  }

  /** A number without, and of, its last `n` binary digits. */
  function High(value: nat, n: nat): nat {
    Arith.QuotientAtLeast(value, 0, Pow2(n));
    value / Pow2(n)
  }

  function Low(value: nat, n: nat): nat { value % Pow2(n) }

  lemma HighNext(value: nat, n: nat)
    requires n > 0
    ensures High(value, n - 1) == 2 * High(value, n) + High(value, n - 1) % 2
  {
    Arith.DivideTwice(value, Pow2(n - 1), 2);
    assert Pow2(n - 1) * 2 == Pow2(n);
  }

  lemma AllLow(value: nat, n: nat)
    requires value < Pow2(n)
    ensures High(value, n) == 0 && Low(value, n) == value
    ensures High(value, 0) == value
  {
    Arith.DivisionUnique(value, Pow2(n), 0, value);
  }

  function ToBits(value: nat, n: nat): (bits: seq<bool>)
    ensures |bits| == n
  {
    if n == 0 then [] else [value / Pow2(n - 1) % 2 == 1] + ToBits(value % Pow2(n - 1), n - 1)
  }

  function ToNat(bits: seq<bool>): (value: nat)
    ensures value < Pow2(|bits|)
  {
    if bits == [] then 0
    else (if bits[0] then Pow2(|bits| - 1) else 0) + ToNat(bits[1..])
  }

  lemma {:induction false} NatOfBits(value: nat, n: nat)
    requires value < Pow2(n)
    ensures ToNat(ToBits(value, n)) == value
    decreases n
  {
    if n > 0 {
      var p := Pow2(n - 1);
      NatOfBits(value % p, n - 1);
      assert ToBits(value, n)[1..] == ToBits(value % p, n - 1);
      if value >= p {
        Arith.DivisionUnique(value, p, 1, value - p);
      } else {
        Arith.DivisionUnique(value, p, 0, value);
      }
    }
  }

  /** One more bit at the end. */
  lemma {:induction false} NatOfAppend(bits: seq<bool>, b: bool)
    ensures ToNat(bits + [b]) == 2 * ToNat(bits) + if b then 1 else 0
    decreases |bits|
  {
    if bits == [] {
      assert ([] + [b])[1..] == [];
    } else {
      assert (bits + [b])[1..] == bits[1..] + [b];
      NatOfAppend(bits[1..], b);
    }
  }

  /** The lowest `n` bits of a number, least significant first. */
  function LowBits(value: nat, n: nat): (bits: seq<bool>)
    ensures |bits| == n
  {
    if n == 0 then [] else [value % 2 == 1] + LowBits(value / 2, n - 1)
  }

  /** The test of one bit against a mask. */
  lemma {:induction false} LowBitAt(value: nat, n: nat, k: nat)
    requires k < n
    ensures LowBits(value, n)[k] == (value / Pow2(k) % 2 == 1)
    decreases k
  {
    if k > 0 {
      LowBitAt(value / 2, n - 1, k - 1);
      Arith.DivideTwice(value, 2, Pow2(k - 1));
    }
  }

  /** Setting bit `k` of a number that has no bits from `k` on. */
  lemma {:induction false} LowBitsSet(value: nat, k: nat, bit: bool)
    requires value < Pow2(k)
    ensures var v := value + if bit then Pow2(k) else 0;
      v < Pow2(k + 1) && LowBits(v, k + 1) == LowBits(value, k) + [bit]
    decreases k
  {
    var v := value + if bit then Pow2(k) else 0;
    if k == 0 {
      assert LowBits(v / 2, 0) == [];
    } else {
      LowBitsSet(value / 2, k - 1, bit);
      assert v % 2 == value % 2 && v / 2 == value / 2 + if bit then Pow2(k - 1) else 0;
    }
  }

  lemma {:induction false} LowBitsPad(value: nat, k: nat, n: nat)
    requires value < Pow2(k) && k <= n
    ensures LowBits(value, n) == LowBits(value, k) + Repeat(false, n - k)
    decreases n
  {
    if k > 0 {
      LowBitsPad(value / 2, k - 1, n - 1);
    } else if n > 0 {
      LowBitsPad(0, 0, n - 1);
      assert Repeat(false, n) == [false] + Repeat(false, n - 1);
    }
  }

  lemma SmallPowers()
    ensures Pow2(3) == 8 && Pow2(4) == 16 && Pow2(5) == 32
  {
    assert Pow2(1) == 2 && Pow2(2) == 4;
  }
}
