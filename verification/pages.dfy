/** Paging of the search results on the search tab: ten results per page,
    page numbers from 1 to the page count. */
module Pages {
  import opened Seqs

  /** Results per page. */
  const PageSize: nat := 10

  function Min(a: nat, b: nat): nat {
    if a <= b then a else b
  }

  /** `(len(matches) + page_size - 1) // page_size`: the least page count
      whose pages hold every result. */
  function TotalPages(n: nat): (t: nat)
    ensures n <= t * PageSize
    ensures t > 0 ==> (t - 1) * PageSize < n
    ensures t == 0 <==> n == 0
  {
    (n + PageSize - 1) / PageSize
  }

  /** `matches[start:end]` for page `page`, with Python's clamping of slice
      bounds past the end. A page is non-empty exactly when its number is at
      most the page count, holds at most ten results, and lists the results
      from position `(page - 1) * 10` on. */
  function PageOf<T>(matches: seq<T>, page: nat): (r: seq<T>)
    requires page >= 1
    ensures |r| <= PageSize
    ensures |r| > 0 <==> page <= TotalPages(|matches|)
    ensures forall k :: 0 <= k < |r| ==>
              (page - 1) * PageSize + k < |matches| && r[k] == matches[(page - 1) * PageSize + k]
  {
    var start := (page - 1) * PageSize;
    var end := start + PageSize;
    matches[Min(start, |matches|)..Min(end, |matches|)]
  }

  /** Every page the page selector can reach, in order. */
  function Pages<T>(matches: seq<T>): seq<seq<T>> {
    seq(TotalPages(|matches|), p requires 0 <= p => PageOf(matches, p + 1))
  }

  /** Past the first page, the pages of a list are the pages of its tail. */
  lemma PageShift<T>(matches: seq<T>, page: nat)
    requires page >= 1 && |matches| > PageSize
    ensures PageOf(matches, page + 1) == PageOf(matches[PageSize..], page)
  {
    var a := PageOf(matches, page + 1);
    var b := PageOf(matches[PageSize..], page);
    assert |a| == |b|;
  }

  /** Read in order, the pages give back exactly the result list. */
  lemma {:induction false} PagesCover<T>(matches: seq<T>)
    ensures Flatten(Pages(matches)) == matches
    decreases |matches|
  {
    var ps := Pages(matches);
    if |matches| == 0 {
      assert ps == [];
    } else if |matches| <= PageSize {
      assert |ps| == 1 && ps[0] == matches;
      assert ps[1..] == [];
    } else {
      var rest := matches[PageSize..];
      PagesCover(rest);
      PagesUnfold(matches);
      assert matches == matches[..PageSize] + rest;
    }
  }

  /** A list longer than a page is its first page followed by the pages of
      the remainder. */
  lemma PagesUnfold<T>(matches: seq<T>)
    requires |matches| > PageSize
    ensures Flatten(Pages(matches)) == matches[..PageSize] + Flatten(Pages(matches[PageSize..]))
  {
    var ps := Pages(matches);
    var tail := Pages(matches[PageSize..]);
    assert |ps| == 1 + |tail|;
    forall p | 0 <= p < |tail| ensures ps[p + 1] == tail[p] {
      PageShift(matches, p + 1);
    }
    assert ps[1..] == tail;
    assert ps[0] == matches[..PageSize];
  }

  /** Different pages of a duplicate-free result list share no result. */
  lemma PagesDisjoint<T>(matches: seq<T>, p: nat, q: nat)
    requires NoDuplicates(matches)
    requires 1 <= p < q
    ensures Elements(PageOf(matches, p)) !! Elements(PageOf(matches, q))
  {
    var a := PageOf(matches, p);
    var b := PageOf(matches, q);
    forall i, j | 0 <= i < |a| && 0 <= j < |b| ensures a[i] != b[j] {
      assert (p - 1) * PageSize + i < (q - 1) * PageSize + j;
    }
  }
}
