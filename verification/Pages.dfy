/** xdelta1: a file read through pages.  xdmain.c maps them; xdelta.c keeps at most one page
    of each file in a position (map_page, on_page). */
module Pages {
  import opened Bytes
  import Arith

  datatype File = File(data: seq<byte>, pageSize: nat)

  type Paged = f: File | f.pageSize > 0 witness File([], 1)

  function PageCount(f: Paged): (n: nat)
  {
    Arith.QuotientAtLeast(|f.data|, 0, f.pageSize);
    |f.data| / f.pageSize
  }

  /** on_page: the bytes of a page, or -1 beyond the last one. */
  function OnPage(f: Paged, pg: nat): int {
    if pg > PageCount(f) then -1
    else if pg == PageCount(f) then |f.data| % f.pageSize
    else f.pageSize
  }

  /** Where a page begins. */
  function Start(f: Paged, pg: nat): nat { pg * f.pageSize }

  lemma StartNext(f: Paged, pg: nat)
    ensures Start(f, 0) == 0 && Start(f, pg + 1) == Start(f, pg) + f.pageSize
  {
  }

  lemma StartMonotone(f: Paged, a: nat, b: nat)
    requires a < b
    ensures Start(f, a) + f.pageSize <= Start(f, b)
  {
    Arith.Multiples(a, b, f.pageSize);
  }

  /** The page of a place in the file. */
  lemma PlaceSplit(f: Paged, n: nat)
    ensures n / f.pageSize >= 0 && n == Start(f, n / f.pageSize) + n % f.pageSize
  {
    Arith.QuotientAtLeast(n, 0, f.pageSize);
  }

  lemma PlaceUnique(f: Paged, pg: nat, off: nat)
    requires off < f.pageSize
    ensures (Start(f, pg) + off) / f.pageSize == pg && (Start(f, pg) + off) % f.pageSize == off
  {
    Arith.DivisionUnique(Start(f, pg) + off, f.pageSize, pg, off);
  }

  lemma PageFits(f: Paged, pg: nat)
    requires pg <= PageCount(f)
    ensures 0 <= OnPage(f, pg) <= f.pageSize && Start(f, pg) + OnPage(f, pg) <= |f.data|
    ensures OnPage(f, pg) < f.pageSize ==> Start(f, pg) + OnPage(f, pg) == |f.data|
  {
    var q, r := PageCount(f), |f.data| % f.pageSize;
    assert |f.data| == q * f.pageSize + r;
    if pg < q {
      Arith.Multiples(pg, q, f.pageSize);
    }
  }

  function PageBytes(f: Paged, pg: nat): (s: seq<byte>)
    requires pg <= PageCount(f)
    ensures |s| == OnPage(f, pg)
  {
    PageFits(f, pg);
    f.data[Start(f, pg)..Start(f, pg) + OnPage(f, pg)]
  }

  /** A stretch of a page is a stretch of the file. */
  lemma PageStretch(f: Paged, pg: nat, i: nat, j: nat)
    requires pg <= PageCount(f) && i <= j <= OnPage(f, pg)
    ensures Start(f, pg) + j <= |f.data| && PageBytes(f, pg)[i..j] == f.data[Start(f, pg) + i..Start(f, pg) + j]
  {
    hide Start, OnPage;
    PageFits(f, pg);
  }

  /** A byte of the file is on the page its position says. */
  lemma ByteOnPage(f: Paged, pg: nat, off: nat)
    requires Start(f, pg) + off < |f.data| && off < f.pageSize
    ensures pg <= PageCount(f) && off < OnPage(f, pg)
    ensures PageBytes(f, pg)[off] == f.data[Start(f, pg) + off]
  {
    Arith.QuotientAtLeast(|f.data|, pg, f.pageSize);
    PageFits(f, pg);
  }

  /** XdeltaPos: a place in a file, and the page last mapped. */
  datatype Pos = Pos(page: nat, off: nat, mem: seq<byte>, memPage: nat)

  /** The page in memory is the file's; none at all is as good as an empty one. */
  predicate Mapped(f: Paged, p: Pos) {
    p.mem != [] ==> p.memPage <= PageCount(f) && p.mem == PageBytes(f, p.memPage)
  }

  function At(f: Paged, p: Pos): nat { Start(f, p.page) + p.off }

  /** map_page */
  method MapPage(f: Paged, p: Pos) returns (ok: bool, r: Pos)
    requires Mapped(f, p)
    ensures ok <==> p.page <= PageCount(f)
    ensures Mapped(f, r) && r.page == p.page && r.off == p.off
    ensures ok ==> r.memPage == r.page && r.mem == PageBytes(f, r.page)
    ensures p.mem != [] && p.memPage == p.page ==> r == p
  {
    r := p;
    ok := true;
    if p.mem == [] || p.memPage != p.page {
      var on := OnPage(f, p.page);
      ok := on >= 0;
      r := Pos(p.page, p.off, if ok then PageBytes(f, p.page) else [], p.page);
    }
  }

  /** FLIP_FORWARD */
  function Flip(f: Paged, p: Pos): (r: Pos)
    requires p.off <= f.pageSize
    ensures At(f, r) == At(f, p) && r.off < f.pageSize
    ensures r.mem == p.mem && r.memPage == p.memPage
  {
    StartNext(f, p.page);
    if p.off == f.pageSize then Pos(p.page + 1, 0, p.mem, p.memPage) else p
  }
}
