/**
  The rule of a cache of fixed size that gives up what was used longest ago: it holds what
  fewer others have been used since.
 */
module Recency {
  import opened Bytes

  function Removed<T(==)>(s: seq<T>, e: T): (r: seq<T>) {
    if s == [] then [] else if s[0] == e then Removed(s[1..], e) else [s[0]] + Removed(s[1..], e)
  }

  /** An element goes to the end. */
  function Moved<T(==)>(s: seq<T>, e: T): seq<T> { Removed(s, e) + [e] }

  /** What the cache holds, the block used longest ago first, after a request: that block is
      given up for one that is not there. */
  function Next<T(==)>(held: seq<T>, b: T): seq<T> {
    if b in held then Moved(held, b) else if held == [] then [] else held[1..] + [b]
  }

  function After<T(==)>(held: seq<T>, requests: seq<T>): seq<T> {
    if requests == [] then held else
      var n := |requests| - 1;
      Next(After(held, requests[..n]), requests[n])
  }

  /** What was asked for after the last request for `b`. */
  function Since<T(==)>(requests: seq<T>, b: T): set<T> {
    if requests == [] then {} else
      var n := |requests| - 1;
      if requests[n] == b then {} else Since(requests[..n], b) + {requests[n]}
  }

  // ---------------------------------------------------------------- removing

  lemma {:induction false} RemovedAbsent<T>(s: seq<T>, e: T)
    requires e !in s
    ensures Removed(s, e) == s
  {
    if s != [] {
      RemovedAbsent(s[1..], e);
    }
  }

  lemma {:induction false} RemovedJoin<T>(a: seq<T>, b: seq<T>, e: T)
    ensures Removed(a + b, e) == Removed(a, e) + Removed(b, e)
  {
    if a == [] {
      assert a + b == b;
    } else {
      assert (a + b)[1..] == a[1..] + b;
      RemovedJoin(a[1..], b, e);
    }
  }

  /** One place of a list without repetitions. */
  lemma RemovedAt<T>(s: seq<T>, k: nat)
    requires Distinct(s) && k < |s|
    ensures Removed(s, s[k]) == s[..k] + s[k + 1..]
  {
    hide Removed, Distinct;
    OnlyHere(s, k);
    RemovedMiddle(s[..k], s[k], s[k + 1..]);
    Split(s, k);
  }

  lemma Split<T>(s: seq<T>, k: nat)
    requires k < |s|
    ensures s == s[..k] + ([s[k]] + s[k + 1..])
  {
  }

  lemma RemovedMiddle<T>(a: seq<T>, e: T, b: seq<T>)
    requires e !in a && e !in b
    ensures Removed(a + ([e] + b), e) == a + b
  {
    hide Removed;
    RemovedJoin(a, [e] + b, e);
    RemovedJoin([e], b, e);
    RemovedAbsent(a, e);
    RemovedAbsent(b, e);
    OnlyRemoved(e);
    assert [] + b == b;
  }

  lemma OnlyRemoved<T>(e: T)
    ensures Removed([e], e) == []
  {
  }

  lemma OnlyHere<T>(s: seq<T>, k: nat)
    requires Distinct(s) && k < |s|
    ensures s[k] !in s[..k] && s[k] !in s[k + 1..]
  {
  }

  /** The set of the elements from a place on. */
  function From<T(==)>(s: seq<T>, k: nat): set<T>
    requires k <= |s|
  {
    set x | x in s[k..]
  }

  /** Since the last request for a block of the cache, those behind it were asked for. */
  predicate InPlace<T(==)>(held: seq<T>, requests: seq<T>, k: nat)
    requires k < |held|
  {
    held[k] in requests && Since(requests, held[k]) == From(held, k + 1)
  }

  /** Since the last request for another block, all of those were. */
  predicate Outlived<T(==)>(held: seq<T>, requests: seq<T>, b: T) {
    From(held, 0) <= Since(requests, b)
  }

  /** The blocks of the cache are those asked for last, in the order of the last request. */
  ghost predicate Follows<T>(held: seq<T>, requests: seq<T>) {
    && Distinct(held)
    && (forall k: nat | k < |held| :: InPlace(held, requests, k))
    && (forall b | b in requests && b !in held :: Outlived(held, requests, b))
  }

  lemma SinceNext<T>(requests: seq<T>, e: T, b: T)
    ensures Since(requests + [e], b) == if b == e then {} else Since(requests, b) + {e}
    ensures b in requests + [e] <==> b in requests || b == e
  {
    assert (requests + [e])[..|requests|] == requests;
  }

  lemma FromAll<T>(s: seq<T>, k: nat)
    requires k <= |s|
    ensures forall x :: x in From(s, k) <==> x in s[k..]
    ensures Distinct(s) ==> |From(s, k)| == |s| - k
    decreases |s| - k
  {
    if k < |s| {
      FromAll(s, k + 1);
      FromNext(s, k);
      if Distinct(s) {
        OnlyHere(s, k);
        assert s[k] !in From(s, k + 1);
      }
    } else {
      FromEnd(s, k);
    }
  }

  lemma FromNext<T>(s: seq<T>, k: nat)
    requires k < |s|
    ensures From(s, k) == From(s, k + 1) + {s[k]}
  {
    assert s[k..] == [s[k]] + s[k + 1..];
  }

  /** A request for a block that is there. */
  lemma FollowsHit<T>(held: seq<T>, requests: seq<T>, e: T, j: nat)
    requires Follows(held, requests) && j < |held| && held[j] == e
    ensures Follows(Next(held, e), requests + [e])
  {
    hide InPlace, Outlived, Since, From, Removed;
    RemovedAt(held, j);
    var r := held[..j] + held[j + 1..] + [e];
    assert Next(held, e) == r;
    forall k: nat | k < |r|
      ensures InPlace(r, requests + [e], k)
    {
      HitInPlace(held, requests, r, j, k, e);
    }
    HitSame(held, r, j);
    forall b | b in requests + [e] && b !in r
      ensures Outlived(r, requests + [e], b)
    {
      assert b in requests;
      StillOutlived(held, r, requests, e, b);
    }
  }

  lemma HitInPlace<T>(held: seq<T>, requests: seq<T>, r: seq<T>, j: nat, k: nat, e: T)
    requires Distinct(held) && j < |held| && held[j] == e && r == held[..j] + held[j + 1..] + [e] && k < |r|
    requires forall i: nat | i < |held| :: InPlace(held, requests, i)
    ensures InPlace(r, requests + [e], k)
  {
    hide Since, From;
    SinceNext(requests, e, r[k]);
    if k < |r| - 1 {
      var k': nat := if k < j then k else k + 1;
      assert r[k] == held[k'] && InPlace(held, requests, k');
      HitFrom(held, r, j, k, k', e);
    } else {
      FromEnd(r, k + 1);
    }
  }

  lemma FromEnd<T>(s: seq<T>, k: nat)
    requires k == |s|
    ensures From(s, k) == {}
  {
  }

  lemma StillOutlived<T>(held: seq<T>, r: seq<T>, requests: seq<T>, e: T, b: T)
    requires Outlived(held, requests, b) && b != e && forall x | x in r :: x in held || x == e
    ensures Outlived(r, requests + [e], b)
  {
    hide Since;
    SinceNext(requests, e, b);
    FromAll(held, 0);
    FromAll(r, 0);
    assert held[0..] == held && r[0..] == r;
    forall x | x in From(r, 0) ensures x in Since(requests + [e], b) {
      assert x in r;
      if x != e { assert x in From(held, 0); }
    }
  }

  lemma HitSame<T>(held: seq<T>, r: seq<T>, j: nat)
    requires j < |held| && r == held[..j] + held[j + 1..] + [held[j]]
    ensures forall x :: x in r <==> x in held
    ensures Distinct(held) ==> Distinct(r)
  {
    assert held == held[..j] + [held[j]] + held[j + 1..];
  }

  lemma HitFrom<T>(held: seq<T>, r: seq<T>, j: nat, k: nat, k': nat, e: T)
    requires j < |held| && held[j] == e && r == held[..j] + held[j + 1..] + [e]
    requires k < |held| - 1 && k' == if k < j then k else k + 1
    ensures From(r, k + 1) == From(held, k' + 1) + {e}
  {
    if k < j {
      assert r[k + 1..] == held[k + 1..j] + held[j + 1..] + [e];
      assert held[k + 1..] == held[k + 1..j] + [e] + held[j + 1..];
    } else {
      assert r[k + 1..] == held[k' + 1..] + [e];
    }
  }

  /** A request for a block that is not: the one used longest ago is given up. */
  lemma FollowsMiss<T>(held: seq<T>, requests: seq<T>, e: T)
    requires Follows(held, requests) && held != [] && e !in held
    ensures Follows(Next(held, e), requests + [e])
  {
    hide InPlace, Outlived, Since, From, Removed;
    var r := held[1..] + [e];
    assert Next(held, e) == r && held == [held[0]] + held[1..];
    forall k: nat | k < |r|
      ensures InPlace(r, requests + [e], k)
    {
      MissInPlace(held, requests, r, k, e);
    }
    forall b | b in requests + [e] && b !in r
      ensures Outlived(r, requests + [e], b)
    {
      assert b in requests;
      if b == held[0] {
        FirstOutlived(held, requests, e);
      } else {
        StillOutlived(held, r, requests, e, b);
      }
    }
  }

  lemma MissInPlace<T>(held: seq<T>, requests: seq<T>, r: seq<T>, k: nat, e: T)
    requires held != [] && e !in held && r == held[1..] + [e] && k < |r|
    requires forall i: nat | i < |held| :: InPlace(held, requests, i)
    ensures InPlace(r, requests + [e], k)
  {
    hide Since;
    SinceNext(requests, e, r[k]);
    if k < |r| - 1 {
      assert r[k] == held[k + 1] && InPlace(held, requests, k + 1);
      assert r[k + 1..] == held[k + 2..] + [e];
    } else {
      FromEnd(r, k + 1);
    }
  }

  lemma FirstOutlived<T>(held: seq<T>, requests: seq<T>, e: T)
    requires held != [] && InPlace(held, requests, 0) && e !in held
    ensures Outlived(held[1..] + [e], requests + [e], held[0])
  {
    hide Since;
    SinceNext(requests, e, held[0]);
    var r := held[1..] + [e];
    assert r[0..] == r;
  }

  /** A cache that starts with the blocks of its first requests. */
  lemma {:induction false} AfterFollows<T>(held: seq<T>, first: seq<T>, requests: seq<T>)
    requires Follows(held, first) && held != []
    ensures Follows(After(held, requests), first + requests) && |After(held, requests)| == |held|
    decreases |requests|
  {
    if requests == [] {
      assert first + requests == first;
    } else {
      var n := |requests| - 1;
      var e, h := requests[n], After(held, requests[..n]);
      AfterFollows(held, first, requests[..n]);
      assert first + requests == first + requests[..n] + [e];
      if e in h {
        var j :| 0 <= j < |h| && h[j] == e;
        RemovedAt(h, j);
        FollowsHit(h, first + requests[..n], e, j);
      } else {
        FollowsMiss(h, first + requests[..n], e);
      }
    }
  }

  lemma FirstFollows<T>(held: seq<T>)
    requires Distinct(held)
    ensures Follows(held, held)
  {
    hide Since;
    forall k: nat | k < |held|
      ensures InPlace(held, held, k)
    {
      FirstSince(held, k, |held|);
      assert held[..|held|] == held && held[k + 1..|held|] == held[k + 1..];
    }
  }

  lemma {:induction false} FirstSince<T>(held: seq<T>, k: nat, n: nat)
    requires Distinct(held) && k < n <= |held|
    ensures Since(held[..n], held[k]) == From(held[..n], k + 1)
    decreases n
  {
    assert held[..n][..n - 1] == held[..n - 1];
    if k < n - 1 {
      FirstSince(held, k, n - 1);
      assert held[..n][k + 1..] == held[..n - 1][k + 1..] + [held[n - 1]];
    } else {
      FromEnd(held[..n], k + 1);
    }
  }

  /** After any requests, a block is in the cache exactly when it has been there or asked for,
      and fewer others than the cache has places were asked for since. */
  lemma HeldExactly<T>(first: seq<T>, requests: seq<T>, b: T)
    requires Distinct(first) && first != []
    ensures b in After(first, requests) <==> b in first + requests && |Since(first + requests, b)| < |first|
  {
    hide Since, After, From;
    FirstFollows(first);
    AfterFollows(first, first, requests);
    var held, all := After(first, requests), first + requests;
    if b in held {
      var k :| 0 <= k < |held| && held[k] == b;
      assert InPlace(held, all, k);
      FromAll(held, k + 1);
    } else if b in all {
      assert Outlived(held, all, b);
      FromAll(held, 0);
      assert held[0..] == held;
      Subset(From(held, 0), Since(all, b));
    }
  }

  lemma Subset<T>(a: set<T>, b: set<T>)
    requires a <= b
    ensures |a| <= |b|
  {
    assert b == a + (b - a);
  }
}
