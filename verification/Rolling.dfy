/** xdelta.c: the rolling checksum of a window of bytes, two sums modulo 2^16. */
module Rolling {
  import opened Bytes

  const WORD: nat := 0x1_0000
  const QUERY_SIZE: nat := 4
  const QUERY_SIZE_POW: nat := 16

  datatype Checksum = Checksum(low: nat, high: nat)

  /** The table of random numbers bytes are looked up in. */
  type Chew = s: seq<nat> | |s| == 256 witness seq(256, _ => 0)

  /** The sums before they wrap around. */
  function LowSum(s: seq<byte>, chew: Chew): nat {
    if s == [] then 0 else LowSum(s[..|s| - 1], chew) + chew[s[|s| - 1]]
  }

  function HighSum(s: seq<byte>, chew: Chew): nat {
    if s == [] then 0 else HighSum(s[..|s| - 1], chew) + LowSum(s, chew)
  }

  function Of(s: seq<byte>, chew: Chew): Checksum {
    Checksum(LowSum(s, chew) % WORD, HighSum(s, chew) % WORD)
  }

  lemma SumsAppend(s: seq<byte>, b: byte, chew: Chew)
    ensures LowSum(s + [b], chew) == LowSum(s, chew) + chew[b]
    ensures HighSum(s + [b], chew) == HighSum(s, chew) + LowSum(s + [b], chew)
  {
    assert (s + [b])[..|s|] == s;
  }

  lemma {:induction false} SumsCons(b: byte, s: seq<byte>, chew: Chew)
    ensures LowSum([b] + s, chew) == chew[b] + LowSum(s, chew)
    ensures HighSum([b] + s, chew) == (|s| + 1) * chew[b] + HighSum(s, chew)
    decreases |s|
  {
    hide LowSum, HighSum;
    NoSums(chew);
    if s == [] {
      assert [b] + s == [] + [b];
      SumsAppend([], b, chew);
    } else {
      var t, c := s[..|s| - 1], s[|s| - 1];
      SumsCons(b, t, chew);
      assert [b] + s == ([b] + t) + [c] && s == t + [c];
      SumsAppend([b] + t, c, chew);
      SumsAppend(t, c, chew);
      OneMore(|s|, chew[b]);
    }
  }

  lemma OneMore(n: nat, x: nat)
    ensures (n + 1) * x == n * x + x
  {
  }

  /** init_query_checksum */
  method InitChecksum(s: seq<byte>, chew: Chew) returns (c: Checksum)
    ensures c == Of(s, chew)
  {
    hide LowSum, HighSum;
    var low, high: nat := 0, 0;
    NoSums(chew);
    assert s[..0] == [];
    for i := 0 to |s|
      invariant low == LowSum(s[..i], chew) % WORD && high == HighSum(s[..i], chew) % WORD
    {
      SumsAppend(s[..i], s[i], chew);
      assert s[..i + 1] == s[..i] + [s[i]];
      low := (low + chew[s[i]]) % WORD;
      high := (high + low) % WORD;
    }
    assert s[..|s|] == s;
    c := Checksum(low, high);
  }

  lemma NoSums(chew: Chew)
    ensures LowSum([], chew) == 0 && HighSum([], chew) == 0
  {
  }

  /** The step of compute_copies from one window to the next. */
  function Rolled(c: Checksum, oldByte: byte, newByte: byte, chew: Chew): Checksum {
    var low := (c.low - chew[oldByte] + chew[newByte]) % WORD;
    Checksum(low, (c.high - chew[oldByte] * QUERY_SIZE_POW + low) % WORD)
  }

  /** Rolling gives what computing afresh would. */
  lemma RolledIsFresh(window: seq<byte>, newByte: byte, chew: Chew)
    requires |window| == QUERY_SIZE_POW
    ensures Rolled(Of(window, chew), window[0], newByte, chew) == Of(window[1..] + [newByte], chew)
  {
    hide LowSum, HighSum;
    var t := window[1..];
    assert window == [window[0]] + t;
    SumsCons(window[0], t, chew);
    SumsAppend(t, newByte, chew);
    RolledSums(LowSum(window, chew), HighSum(window, chew), chew[window[0]], chew[window[0]] * QUERY_SIZE_POW,
               chew[newByte], LowSum(t + [newByte], chew), HighSum(t + [newByte], chew));
  }

  /** The two sums move on by one byte: `a` goes, having counted `all` in the high sum, and `b` comes. */
  lemma RolledSums(low: nat, high: nat, a: nat, all: nat, b: nat, low': nat, high': nat)
    requires low' == low - a + b && high' == high - all + low'
    ensures (low % WORD - a + b) % WORD == low' % WORD
    ensures (high % WORD - all + low' % WORD) % WORD == high' % WORD
  {
    Wraps(low, b - a);
    Wraps(high, low' % WORD - all);
    Wraps(low', high - all);
  }

  /** Wrapping around early or late. */
  lemma Wraps(x: nat, y: int)
    ensures (x % WORD + y) % WORD == (x + y) % WORD
  {
  }
}
