/** xdelta.c: comparing the bytes before and after a hit, page by page (try_match). */
module Matching {
  import opened Bytes
  import opened Pages
  import Arith

  const INT_SIZE: nat := 4

  /** The last `n` bytes before two places agree. */
  predicate AgreeBefore(x: seq<byte>, i: nat, y: seq<byte>, j: nat, n: nat) {
    n <= i <= |x| && n <= j <= |y| && x[i - n..i] == y[j - n..j]
  }

  /** The bytes before those do not. */
  predicate DifferBefore(x: seq<byte>, i: nat, y: seq<byte>, j: nat, n: nat) {
    n < i <= |x| && n < j <= |y| && x[i - n - 1] != y[j - n - 1]
  }

  /** The first `n` bytes after two places agree. */
  predicate AgreeAfter(x: seq<byte>, i: nat, y: seq<byte>, j: nat, n: nat) {
    i + n <= |x| && j + n <= |y| && x[i..i + n] == y[j..j + n]
  }

  lemma OneMoreBefore(x: seq<byte>, i: nat, y: seq<byte>, j: nat, n: nat)
    requires AgreeBefore(x, i, y, j, n) && n < i && n < j && x[i - n - 1] == y[j - n - 1]
    ensures AgreeBefore(x, i, y, j, n + 1)
  {
    assert x[i - n - 1..i - n] == y[j - n - 1..j - n];
    MoreBefore(x, i, y, j, n, 1);
  }

  lemma MoreAfter(x: seq<byte>, i: nat, y: seq<byte>, j: nat, n: nat, m: nat)
    requires AgreeAfter(x, i, y, j, n) && AgreeAfter(x, i + n, y, j + n, m)
    ensures AgreeAfter(x, i, y, j, n + m)
  {
    assert x[i..i + n + m] == x[i..i + n] + x[i + n..i + n + m];
    assert y[j..j + n + m] == y[j..j + n] + y[j + n..j + n + m];
  }

  /** Two stretches of mapped pages, up to the first byte where they differ.  Where both are
      aligned alike, whole words are compared first. */
  method CompareChunk(x: seq<byte>, i: nat, y: seq<byte>, j: nat, rem0: nat) returns (n: nat)
    requires i + rem0 <= |x| && j + rem0 <= |y|
    ensures n <= rem0 && AgreeAfter(x, i, y, j, n)
    ensures n < rem0 ==> x[i + n] != y[j + n]
  {
    n := 0;
    var end: nat, differ := rem0, false;
    if rem0 > 4 * INT_SIZE && i % INT_SIZE == j % INT_SIZE {
      n, differ := CompareBytes(x, i, y, j, 0, (INT_SIZE - i % INT_SIZE) % INT_SIZE);
      if !differ {
        n := CompareWords(x, i, y, j, n, rem0 - n);
      }
    }
    if !differ {
      n, differ := CompareBytes(x, i, y, j, n, rem0);
    }
  }

  /** Byte for byte, up to place `end`. */
  method CompareBytes(x: seq<byte>, i: nat, y: seq<byte>, j: nat, n0: nat, end: nat) returns (n: nat, differ: bool)
    requires n0 <= end && i + end <= |x| && j + end <= |y| && AgreeAfter(x, i, y, j, n0)
    ensures n0 <= n <= end && AgreeAfter(x, i, y, j, n)
    ensures differ <==> n < end
    ensures differ ==> x[i + n] != y[j + n]
  {
    hide AgreeAfter;
    n := n0;
    while n < end && x[i + n] == y[j + n]
      invariant n0 <= n <= end && AgreeAfter(x, i, y, j, n)
    {
      Extend(x, i, y, j, n);
      n := n + 1;
    }
    differ := n < end;
  }

  lemma Extend(x: seq<byte>, i: nat, y: seq<byte>, j: nat, n: nat)
    requires AgreeAfter(x, i, y, j, n) && i + n < |x| && j + n < |y| && x[i + n] == y[j + n]
    ensures AgreeAfter(x, i, y, j, n + 1)
  {
    MoreAfter(x, i, y, j, n, 1);
  }

  /** Words as long as they agree; the rest of a word that differs is left to be compared. */
  method CompareWords(x: seq<byte>, i: nat, y: seq<byte>, j: nat, n0: nat, rem: nat) returns (n: nat)
    requires i + n0 + rem <= |x| && j + n0 + rem <= |y| && AgreeAfter(x, i, y, j, n0)
    ensures n0 <= n <= n0 + rem && AgreeAfter(x, i, y, j, n)
  {
    n := n0;
    var words: nat := rem / INT_SIZE;
    while words > 0 && x[i + n..i + n + INT_SIZE] == y[j + n..j + n + INT_SIZE]
      invariant n0 <= n && n + words * INT_SIZE <= n0 + rem && AgreeAfter(x, i, y, j, n)
      decreases words
    {
      MoreAfter(x, i, y, j, n, INT_SIZE);
      words := words - 1;
      n := n + INT_SIZE;
    }
  }

  // ------------------------------------------------------------- backward

  /** The page and offset of a place, where the end of a page will do. */
  function PageEnd(f: Paged, p: Pos): (r: Pos)
    requires p.off > 0 || p.page > 0
    ensures At(f, r) == At(f, p) && r.off > 0 && r.mem == p.mem && r.memPage == p.memPage
    ensures p.off <= f.pageSize ==> r.off <= f.pageSize
  {
    if p.off == 0 then
      StartNext(f, p.page - 1);
      Pos(p.page - 1, f.pageSize, p.mem, p.memPage)
    else p
  }

  lemma BeforeOnPage(f: Paged, p: Pos)
    requires 0 < p.off <= f.pageSize && At(f, p) <= |f.data|
    ensures p.page <= PageCount(f) && p.off <= OnPage(f, p.page)
  {
    ByteOnPage(f, p.page, p.off - 1);
  }

  /** The loop of try_match that goes backward, on the mapped page of the input only. */
  method MatchBackward(input: Paged, x: Pos, src: Paged, y0: Pos, to: nat, from: nat, max: nat)
    returns (back: nat, y: Pos)
    requires Mapped(input, x) && x.mem != [] && x.memPage == x.page && x.off < |x.mem| && At(input, x) == to
    requires Mapped(src, y0) && At(src, y0) == from <= |src.data| && y0.off < src.pageSize
    requires max <= x.off && max <= from
    ensures back <= max && AgreeBefore(input.data, to, src.data, from, back)
    ensures back < max ==> DifferBefore(input.data, to, src.data, from, back)
    ensures Mapped(src, y)
  {
    hide Start, OnPage, PageCount, AgreeBefore, DifferBefore;
    back := 0;
    y := y0;
    var differ := false;
    PageFits(input, x.page);
    NoneBefore(input.data, to, src.data, from);
    while back < max && !differ
      invariant back <= max && AgreeBefore(input.data, to, src.data, from, back)
      invariant Mapped(src, y) && At(src, y) + back == from && y.off <= src.pageSize
      invariant differ ==> DifferBefore(input.data, to, src.data, from, back)
      decreases max - back, !differ
    {
      StartNext(src, y.page);
      y := PageEnd(src, y);
      BeforeOnPage(src, y);
      var ok;
      ok, y := MapPage(src, y);
      var rem: nat := Min(max - back, Min(x.off - back, y.off));
      var n := ChunkBackward(x.mem, x.off - back, y.mem, y.off, rem);
      BackwardBytes(input, x, src, y, to, from, back, n);
      if n < rem {
        BackwardStops(input, x, src, y, to, from, back, n);
      }
      y := y.(off := y.off - n);
      back := back + n;
      differ := n < rem;
    }
  }

  /** Where the bytes of two pages differ, so do those of the files. */
  lemma BackwardStops(input: Paged, x: Pos, src: Paged, y: Pos, to: nat, from: nat, back: nat, n: nat)
    requires x.page <= PageCount(input) && x.mem == PageBytes(input, x.page) && back <= x.off <= |x.mem|
        && At(input, x) == to
    requires y.page <= PageCount(src) && y.mem == PageBytes(src, y.page) && y.off <= |y.mem|
        && At(src, y) + back == from
    requires AgreeBefore(input.data, to, src.data, from, back) && DifferBefore(x.mem, x.off - back, y.mem, y.off, n)
    ensures DifferBefore(input.data, to, src.data, from, back + n)
  {
    hide OnPage, PageCount, PageBytes;
    var i, j := x.off - back - n - 1, y.off - n - 1;
    PageStretch(input, x.page, i, i + 1);
    PageStretch(src, y.page, j, j + 1);
    assert x.mem[i..i + 1][0] != y.mem[j..j + 1][0];
    var a, b := Start(input, x.page) + i, Start(src, y.page) + j;
    assert input.data[a..a + 1][0] == input.data[a] && src.data[b..b + 1][0] == src.data[b];
  }

  lemma NoneBefore(x: seq<byte>, i: nat, y: seq<byte>, j: nat)
    requires i <= |x| && j <= |y|
    ensures AgreeBefore(x, i, y, j, 0)
  {
  }

  /** The bytes of one page, going backward. */
  method ChunkBackward(x: seq<byte>, i: nat, y: seq<byte>, j: nat, rem: nat) returns (n: nat)
    requires rem <= i <= |x| && rem <= j <= |y|
    ensures n <= rem && AgreeBefore(x, i, y, j, n) && (n < rem ==> DifferBefore(x, i, y, j, n))
  {
    n := 0;
    while n < rem && x[i - n - 1] == y[j - n - 1]
      invariant n <= rem && AgreeBefore(x, i, y, j, n)
    {
      OneMoreBefore(x, i, y, j, n);
      n := n + 1;
    }
  }

  lemma BackwardBytes(input: Paged, x: Pos, src: Paged, y: Pos, to: nat, from: nat, back: nat, n: nat)
    requires x.page <= PageCount(input) && x.mem == PageBytes(input, x.page) && back <= x.off <= |x.mem|
        && At(input, x) == to
    requires y.page <= PageCount(src) && y.mem == PageBytes(src, y.page) && y.off <= |y.mem|
        && At(src, y) + back == from
    requires AgreeBefore(input.data, to, src.data, from, back) && AgreeBefore(x.mem, x.off - back, y.mem, y.off, n)
    ensures AgreeBefore(input.data, to, src.data, from, back + n)
  {
    hide Start, OnPage, PageCount, AgreeBefore, PageBytes;
    OnePageBefore(input, x, x.off - back, src, y, y.off, n);
    MoreBefore(input.data, to, src.data, from, back, n);
  }

  lemma OnePageBefore(input: Paged, x: Pos, i: nat, src: Paged, y: Pos, j: nat, n: nat)
    requires x.page <= PageCount(input) && x.mem == PageBytes(input, x.page)
    requires y.page <= PageCount(src) && y.mem == PageBytes(src, y.page) && AgreeBefore(x.mem, i, y.mem, j, n)
    ensures AgreeBefore(input.data, Start(input, x.page) + i, src.data, Start(src, y.page) + j, n)
  {
    hide Start, OnPage, PageCount, PageBytes;
    PageStretch(input, x.page, i - n, i);
    PageStretch(src, y.page, j - n, j);
  }

  lemma MoreBefore(x: seq<byte>, i: nat, y: seq<byte>, j: nat, n: nat, m: nat)
    requires n <= i && n <= j && AgreeBefore(x, i, y, j, n) && AgreeBefore(x, i - n, y, j - n, m)
    ensures AgreeBefore(x, i, y, j, n + m)
  {
    assert x[i - n - m..i] == x[i - n - m..i - n] + x[i - n..i];
    assert y[j - n - m..j] == y[j - n - m..j - n] + y[j - n..j];
  }
}
