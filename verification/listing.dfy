/**
 * Ordering and paging shared by every list route: `ORDER BY id` as a scan
 * over the id range, `parseInt(req.query.page) || 1`, and
 * `LIMIT 10 OFFSET (page - 1) * 10`.
 */
module Listing {
  import opened Schema

  /** The fixed page size, `const limit = 10` in every paged route. */
  const PageSize: int := 10

  function Min(a: int, b: int): int { if a <= b then a else b }

  /**
   * `parseInt(raw) || fallback`.  The model takes parseInt's outcome:
   * `None` is NaN (a missing or non-numeric parameter).  NaN and 0 are falsy.
   */
  function ParsedOr(raw: Option<int>, fallback: int): (n: int)
    ensures raw.Some? && raw.value != 0 ==> n == raw.value
    ensures raw.None? || raw.value == 0 ==> n == fallback
  {
    if raw.Some? && raw.value != 0 then raw.value else fallback
  }

  /** The page number a paged route works with: never 0, and below 1 only when the client sent it. */
  function PageNumber(raw: Option<int>): (page: int)
    ensures page != 0
    ensures page < 1 ==> raw == Some(page)
    ensures raw.None? || raw == Some(0) ==> page == 1
  {
    ParsedOr(raw, 1)
  }

  function Offset(page: int): int {
    (page - 1) * PageSize
  }

  /**
   * `LIMIT 10 OFFSET (page - 1) * 10` over rows already in order.  A page
   * below 1 gives a negative OFFSET, which PostgreSQL rejects.
   */
  function Page<T>(rows: seq<T>, page: int): (r: Response<seq<T>>)
    ensures r.Ok? <==> page >= 1
    ensures !r.Ok? ==> r == ServerError("OFFSET must not be negative")
    ensures r.Ok? ==> |r.body| <= PageSize
    ensures r.Ok? ==> forall i :: 0 <= i < |r.body| ==>
      Offset(page) + i < |rows| && r.body[i] == rows[Offset(page) + i]
    ensures r.Ok? && |r.body| < PageSize ==> Offset(page) + |r.body| >= |rows|
  {
    if page < 1 then ServerError("OFFSET must not be negative")
    else
      var lo := Offset(page);
      if lo >= |rows| then Ok([]) else Ok(rows[lo .. Min(lo + PageSize, |rows|)])
  }

  /** `LIMIT n` without an offset; PostgreSQL rejects a negative limit. */
  function Limit<T>(rows: seq<T>, n: int): (r: Response<seq<T>>)
    ensures r.Ok? <==> n >= 0
    ensures r.Ok? ==> |r.body| == Min(n, |rows|) && r.body == rows[..|r.body|]
  {
    if n < 0 then ServerError("LIMIT must not be negative")
    else if n >= |rows| then Ok(rows) else Ok(rows[..n])
  }

  /** `ORDER BY id DESC` over the ids in `keys` below the counter `n`. */
  function Desc(keys: set<int>, n: int): (ids: seq<int>)
    decreases n
    ensures forall i :: 0 <= i < |ids| ==> ids[i] in keys && 0 <= ids[i] < n
    ensures forall k :: k in keys && 0 <= k < n ==> k in ids
    ensures forall i, j :: 0 <= i < j < |ids| ==> ids[i] > ids[j]
  {
    if n <= 0 then []
    else (if n - 1 in keys then [n - 1] else []) + Desc(keys, n - 1)
  }

  /** `ORDER BY id ASC` over the ids in `keys` below the counter `n`. */
  function Asc(keys: set<int>, n: int): (ids: seq<int>)
    decreases n
    ensures forall i :: 0 <= i < |ids| ==> ids[i] in keys && 0 <= ids[i] < n
    ensures forall k :: k in keys && 0 <= k < n ==> k in ids
    ensures forall i, j :: 0 <= i < j < |ids| ==> ids[i] < ids[j]
  {
    if n <= 0 then []
    else Asc(keys, n - 1) + (if n - 1 in keys then [n - 1] else [])
  }

  /**
   * A page shorter than PageSize ends the listing: every later page is
   * empty.  This is the signal the client uses to stop fetching.
   */
  lemma ShortPageIsLast<T>(rows: seq<T>, page: int, later: int)
    requires Page(rows, page).Ok? && |Page(rows, page).body| < PageSize
    requires later > page
    ensures Page(rows, later) == Ok([])
  {
    var n := |Page(rows, page).body|;
    assert Offset(page) + n >= |rows|;
    assert Offset(later) >= Offset(page) + PageSize;
  }

  /** Every row lies on page `i / 10 + 1`, at position `i % 10`. */
  lemma RowOnPage<T>(rows: seq<T>, i: int)
    requires 0 <= i < |rows|
    ensures var p := i / PageSize + 1;
      Page(rows, p).Ok? && i % PageSize < |Page(rows, p).body| &&
      Page(rows, p).body[i % PageSize] == rows[i]
  {
    var p := i / PageSize + 1;
    assert Offset(p) + i % PageSize == i;
    assert Offset(p) <= i < Offset(p) + PageSize;
  }

  /** The first `k` pages, one after another, as the client's infinite scroll appends them. */
  ghost function FirstPages<T>(rows: seq<T>, k: nat): seq<T> {
    if k == 0 then [] else FirstPages(rows, k - 1) + Page(rows, k).body
  }

  /** Pages 1..k tile the ordered rows: no row is skipped and none repeats. */
  lemma {:induction false} PagesTile<T>(rows: seq<T>, k: nat)
    ensures FirstPages(rows, k) == rows[..Min(k * PageSize, |rows|)]
  {
    if k > 0 {
      PagesTile(rows, k - 1);
      var lo := Min((k - 1) * PageSize, |rows|);
      var hi := Min(k * PageSize, |rows|);
      var body := Page(rows, k).body;
      assert |body| == hi - lo;
      assert body == rows[lo..hi];
      assert rows[..lo] + rows[lo..hi] == rows[..hi];
    }
  }

  /** Two different pages of a duplicate-free listing share no row. */
  lemma PagesDisjoint<T>(rows: seq<T>, p: int, q: int, x: T)
    requires Distinct(rows)
    requires p != q && Page(rows, p).Ok? && Page(rows, q).Ok?
    ensures !(x in Page(rows, p).body && x in Page(rows, q).body)
  {
    var pb, qb := Page(rows, p).body, Page(rows, q).body;
    forall a, b | 0 <= a < |pb| && 0 <= b < |qb|
      ensures pb[a] != qb[b]
    {
      var i, j := Offset(p) + a, Offset(q) + b;
      assert i != j;
      if i < j { assert rows[i] != rows[j]; } else { assert rows[j] != rows[i]; }
    }
  }

  /** No element occurs twice. */
  predicate Distinct<T(==)>(s: seq<T>) {
    forall i, j :: 0 <= i < j < |s| ==> s[i] != s[j]
  }

  /** A duplicate-free sequence has as many elements as the set of its elements. */
  lemma {:induction false} DistinctSize<T>(s: seq<T>)
    requires Distinct(s)
    ensures |set x | x in s| == |s|
  {
    if s != [] {
      DistinctSize(s[1..]);
      assert (set x | x in s) == (set x | x in s[1..]) + {s[0]};
      assert s[0] !in s[1..];
    }
  }

  /** In a duplicate-free sequence every value occurs at most once. */
  lemma {:induction false} DistinctCount<T>(s: seq<T>, x: T)
    requires Distinct(s)
    ensures multiset(s)[x] <= 1
  {
    if s != [] {
      assert s == [s[0]] + s[1..];
      DistinctCount(s[1..], x);
      if s[0] == x {
        assert x !in s[1..];
      }
    }
  }

  /** A subset is never larger. */
  lemma {:induction false} SubsetSize<T>(a: set<T>, b: set<T>)
    requires a <= b
    ensures |a| <= |b|
  {
    if a != {} {
      var x :| x in a;
      SubsetSize(a - {x}, b - {x});
    }
  }

  /** Reordering a duplicate-free sequence keeps it duplicate-free. */
  lemma PermutationKeepsDistinct<T>(a: seq<T>, b: seq<T>)
    requires multiset(a) == multiset(b) && Distinct(b)
    ensures Distinct(a)
  {
    forall i, j | 0 <= i < j < |a|
      ensures a[i] != a[j]
    {
      if a[i] == a[j] {
        var x := a[i];
        assert a == a[..j] + [a[j]] + a[j + 1..];
        assert x in a[..j];
        assert multiset(a[..j])[x] >= 1;
        assert multiset(a)[x] >= 2;
        DistinctCount(b, x);
        assert false;
      }
    }
  }
}
