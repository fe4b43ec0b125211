/**
 * The query shapes the controllers use on a table: OrderByDescending on a
 * timestamp key, PagedList's ToPagedList(pageNumber, pageSize) (skip
 * (pageNumber - 1) * pageSize rows, take pageSize) and Take(n).
 */
module Listing {
  import opened Wrappers

  const PageSize: nat := 10

  function Min(a: int, b: int): int { if a <= b then a else b }

  /** Non-increasing by key: what OrderByDescending promises. */
  predicate SortedDesc<T>(s: seq<T>, key: T -> int)
  {
    forall i, j :: 0 <= i < j < |s| ==> key(s[i]) >= key(s[j])
  }

  /** Inserts x into a non-increasing sequence ahead of the elements whose key it equals. */
  function Insert<T>(x: T, s: seq<T>, key: T -> int): (r: seq<T>)
    requires SortedDesc(s, key)
    ensures SortedDesc(r, key)
    ensures multiset(r) == multiset(s) + multiset{x}
  {
    if s == [] then [x]
    else if key(x) >= key(s[0]) then [x] + s
    else
      var rest := Insert(x, s[1..], key);
      HeadBoundsRest(s, x, rest, key);
      assert s == [s[0]] + s[1..];
      [s[0]] + rest
  }

  /** When x sorts after the head of s, the head bounds every row of s[1..] with x added. */
  lemma HeadBoundsRest<T>(s: seq<T>, x: T, rest: seq<T>, key: T -> int)
    requires SortedDesc(s, key) && |s| > 0 && key(x) < key(s[0])
    requires multiset(rest) == multiset(s[1..]) + multiset{x}
    ensures forall k :: 0 <= k < |rest| ==> key(rest[k]) <= key(s[0])
  {
    forall k | 0 <= k < |rest| ensures key(rest[k]) <= key(s[0]) {
      var y := rest[k];
      assert y in multiset(rest);
      if y != x {
        assert y in multiset(s[1..]);
        var j :| 0 <= j < |s[1..]| && s[1..][j] == y;
        assert s[j + 1] == y;
      }
    }
  }

  /** The rows of a table in OrderByDescending(key) order: a non-increasing
      permutation of the table. Rows with equal keys keep their table order. */
  function SortDesc<T>(s: seq<T>, key: T -> int): (r: seq<T>)
    ensures SortedDesc(r, key)
    ensures multiset(r) == multiset(s)
    ensures |r| == |s|
  {
    if s == [] then []
    else
      assert s == [s[0]] + s[1..];
      Insert(s[0], SortDesc(s[1..], key), key)
  }

  /** The page number an action uses: `page ?? 1`. */
  function PageNumber(page: Option<int>): (n: int)
    ensures page.None? ==> n == 1
    ensures page.Some? ==> n == page.value
  {
    match page
    case None => 1
    case Some(p) => p
  }

  /** The position of the first row of page `pageNumber` in the whole listing. */
  function FirstRow(pageNumber: int): int { (pageNumber - 1) * PageSize }

  /** The rows of page `pageNumber` (1-based) of a listing of PageSize rows per page. */
  function Page<T>(s: seq<T>, pageNumber: int): (r: seq<T>)
    requires pageNumber >= 1
    ensures |r| == if FirstRow(pageNumber) >= |s| then 0 else Min(PageSize, |s| - FirstRow(pageNumber))
    ensures forall i :: 0 <= i < |r| ==> r[i] == s[FirstRow(pageNumber) + i]
  {
    var skip := FirstRow(pageNumber);
    if skip >= |s| then [] else s[skip..Min(|s|, skip + PageSize)]
  }

  /** The first n rows of a listing (LINQ Take). */
  function Take<T>(s: seq<T>, n: nat): (r: seq<T>)
    ensures |r| == Min(n, |s|)
    ensures forall i :: 0 <= i < |r| ==> r[i] == s[i]
  {
    if n >= |s| then s else s[..n]
  }

  /** A contiguous run of a sorted sequence is sorted, and holds only rows of that sequence. */
  lemma SliceOfSorted<T>(s: seq<T>, key: T -> int, start: nat, r: seq<T>)
    requires SortedDesc(s, key)
    requires |r| == 0 || start + |r| <= |s|
    requires forall i :: 0 <= i < |r| ==> r[i] == s[start + i]
    ensures SortedDesc(r, key)
    ensures multiset(r) <= multiset(s)
  {
    if |r| > 0 {
      assert r == s[start..start + |r|];
      assert s == s[..start] + r + s[start + |r|..];
      assert multiset(s) == multiset(s[..start]) + multiset(r) + multiset(s[start + |r|..]);
    }
  }

  /** Every row of a listing appears on exactly the page its position selects. */
  lemma RowOnItsPage<T>(s: seq<T>, i: nat)
    requires i < |s|
    ensures i % PageSize < |Page(s, i / PageSize + 1)|
    ensures Page(s, i / PageSize + 1)[i % PageSize] == s[i]
  {
    var p := i / PageSize + 1;
    assert FirstRow(p) + i % PageSize == i;
  }

  /** A page past the last one is empty rather than an error. */
  lemma PagePastEndEmpty<T>(s: seq<T>, pageNumber: int)
    requires pageNumber >= 1
    requires FirstRow(pageNumber) >= |s|
    ensures Page(s, pageNumber) == []
  {
  }

  /** Taking the first n rows of a sorted listing omits no row whose key is
      strictly greater than that of the last row taken. */
  lemma TakeOfSortedKeepsLater<T>(s: seq<T>, key: T -> int, n: nat)
    requires SortedDesc(s, key)
    ensures SortedDesc(Take(s, n), key)
    ensures multiset(Take(s, n)) <= multiset(s)
    ensures var r := Take(s, n);
            forall x :: x in s && |r| > 0 && key(x) > key(r[|r| - 1]) ==> x in r
  {
    var r := Take(s, n);
    SliceOfSorted(s, key, 0, r);
    forall x | x in s && |r| > 0 && key(x) > key(r[|r| - 1]) ensures x in r {
      var j :| 0 <= j < |s| && s[j] == x;
      assert forall k :: |r| <= k < |s| ==> key(s[k]) <= key(s[|r| - 1]);
      assert r[j] == x;
    }
  }

  /** Page `pageNumber` of the listing sorted by key: at most PageSize rows,
      sorted, drawn from the listing, at the page's positions of the sorted order. */
  lemma SortedPage<T>(s: seq<T>, key: T -> int, pageNumber: int)
    requires pageNumber >= 1
    ensures var r := Page(SortDesc(s, key), pageNumber);
            && |r| <= PageSize
            && SortedDesc(r, key)
            && multiset(r) <= multiset(s)
            && forall i :: 0 <= i < |r| ==>
                 && FirstRow(pageNumber) + i < |s|
                 && r[i] == SortDesc(s, key)[FirstRow(pageNumber) + i]
  {
    var all := SortDesc(s, key);
    SliceOfSorted(all, key, FirstRow(pageNumber), Page(all, pageNumber));
  }
}
