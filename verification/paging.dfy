/** Page arithmetic: how the filtered rows are cut into pages of `itemsPerPage` rows. */
module Paging {

  /** Rows shown per page. */
  const PageSize: nat := 3

  /** Page numbers are 1-based: the buttons are numbered from 1, and the only
      decrement applies to pages other than 1. */
  type Page = p: int | 1 <= p witness 1

  function Min(a: int, b: int): int {
    if a <= b then a else b
  }

  function Max(a: int, b: int): int {
    if a <= b then b else a
  }

  /** The number of page buttons for `n` rows: the least page count that holds them all. */
  function PageCount(n: nat): (r: nat)
    ensures r * PageSize >= n
    ensures r > 0 ==> (r - 1) * PageSize < n
    ensures r == 0 <==> n == 0
  {
    (n + PageSize - 1) / PageSize
  }

  /** The rows of page `p`: `slice((p - 1) * PageSize, p * PageSize)`, which JavaScript
      clips to the length of the sequence. */
  function PageView<T>(f: seq<T>, p: Page): (r: seq<T>)
    ensures |r| <= PageSize
    ensures r == [] <==> p > PageCount(|f|)
    ensures p <= PageCount(|f|) ==> (p - 1) * PageSize + |r| == Min(p * PageSize, |f|)
    ensures forall k :: 0 <= k < |r| ==> (p - 1) * PageSize + k < |f| && r[k] == f[(p - 1) * PageSize + k]
  {
    var first := (p - 1) * PageSize;
    var last := p * PageSize;
    if first >= |f| then [] else f[first..Min(last, |f|)]
  }

  /** Row `i` of the filtered rows is shown at position `i % PageSize` of page
      `i / PageSize + 1`, and that page has a button. */
  lemma PageOf<T>(f: seq<T>, i: nat)
    requires i < |f|
    ensures 1 <= i / PageSize + 1 <= PageCount(|f|)
    ensures PageView(f, i / PageSize + 1)[i % PageSize] == f[i]
  {
    var p := i / PageSize + 1;
    assert (p - 1) * PageSize + i % PageSize == i;
  }

  /** The rows of pages `p`, `p + 1`, ... up to the last page, in page order. */
  function PagesFrom<T>(f: seq<T>, p: Page): seq<T>
    decreases PageCount(|f|) + 1 - p
  {
    if p > PageCount(|f|) then [] else PageView(f, p) + PagesFrom(f, p + 1)
  }

  /** Pages `p` onwards show exactly the rows from `(p - 1) * PageSize` onwards. */
  lemma {:induction false} PagesFromSuffix<T>(f: seq<T>, p: Page)
    ensures PagesFrom(f, p) == f[Min((p - 1) * PageSize, |f|)..]
    decreases PageCount(|f|) + 1 - p
  {
    if p <= PageCount(|f|) {
      PagesFromSuffix(f, p + 1);
      var a, b := (p - 1) * PageSize, Min(p * PageSize, |f|);
      assert Min(p * PageSize, |f|) == b;
      assert PageView(f, p) == f[a..b];
      assert f[a..] == f[a..b] + f[b..];
    }
  }

  /** Reading every page in order gives back the whole filtered sequence: no row is
      lost, repeated or reordered by pagination. */
  lemma PagesCover<T>(f: seq<T>)
    ensures PagesFrom(f, 1) == f
  {
    PagesFromSuffix(f, 1);
  }
}
