/** Splitting a feed into consecutive fixed-size pages addressed by a
    1-based page number, and the framework's choice of the page to serve
    for a requested number. */
module Paging {

  /** Where page `k` starts: `(k - 1) * size`, written without a product. */
  function Offset(k: nat, size: nat): nat
    requires k >= 1
  {
    if k == 1 then 0 else Offset(k - 1, size) + size
  }

  /** `Offset` is the framework's `(number - 1) * per_page`. */
  lemma {:induction false} OffsetIsProduct(k: nat, size: nat)
    requires k >= 1
    ensures Offset(k, size) == (k - 1) * size
  {
    if k > 1 {
      OffsetIsProduct(k - 1, size);
      assert (k - 1) * size == (k - 2) * size + size;
    }
  }

  /** How many pages `n` items fill at `size` per page. An empty feed still
      has one, empty, page; otherwise the last page starts before the end
      and ends at or past it. */
  function NumPages(n: nat, size: nat): (r: nat)
    requires size > 0
    ensures r >= 1
    ensures n == 0 ==> r == 1
    ensures n > 0 ==> Offset(r, size) < n <= Offset(r + 1, size)
    decreases n
  {
    if n <= size then 1 else 1 + NumPages(n - size, size)
  }

  /** Page `k`: the `k`-th run of `size` consecutive items; every page but
      the last is full, and a non-empty feed has no empty page. */
  function Page<T>(items: seq<T>, size: nat, k: nat): (r: seq<T>)
    requires size > 0 && 1 <= k <= NumPages(|items|, size)
    ensures k < NumPages(|items|, size) ==> |r| == size
    ensures |r| <= size && (|items| > 0 ==> |r| > 0)
    ensures forall x :: x in r ==> x in items
    decreases k
  {
    if k == 1 then items[..if |items| < size then |items| else size]
    else Page(items[size..], size, k - 1)
  }

  /** Where page `k` ends in a feed of `n` items: the next page's offset,
      cut off at the end of the feed. */
  function PageEnd(n: nat, size: nat, k: nat): nat
    requires k >= 1
  {
    if Offset(k + 1, size) < n then Offset(k + 1, size) else n
  }

  /** Page `k` is the slice from `Offset(k)` up to `PageEnd(k)`. */
  lemma {:induction false} PageIsSlice<T>(items: seq<T>, size: nat, k: nat)
    requires size > 0 && 1 <= k <= NumPages(|items|, size)
    ensures Offset(k, size) <= |items|
    ensures Page(items, size, k) == items[Offset(k, size) .. PageEnd(|items|, size, k)]
    decreases k, 1
  {
    if k == 1 {
      FirstPageIsSlice(items, size);
    } else {
      LaterPageIsSlice(items, size, k);
    }
  }

  lemma FirstPageIsSlice<T>(items: seq<T>, size: nat)
    requires size > 0
    ensures Page(items, size, 1) == items[0 .. PageEnd(|items|, size, 1)]
  {
    assert Offset(2, size) == size;
  }

  lemma {:induction false} LaterPageIsSlice<T>(items: seq<T>, size: nat, k: nat)
    requires size > 0 && 2 <= k <= NumPages(|items|, size)
    ensures Offset(k, size) <= |items|
    ensures Page(items, size, k) == items[Offset(k, size) .. PageEnd(|items|, size, k)]
    decreases k, 0
  {
    var rest := items[size..];
    assert NumPages(|items|, size) == 1 + NumPages(|rest|, size);
    PageIsSlice(rest, size, k - 1);
    OffsetShift(k, size);
    OffsetShift(k + 1, size);
    var lo, hi := Offset(k - 1, size), PageEnd(|rest|, size, k - 1);
    DropSlice(items, size, lo, hi, Offset(k, size), PageEnd(|items|, size, k));
    assert Page(items, size, k) == Page(rest, size, k - 1);
  }

  lemma DropSlice<T>(s: seq<T>, d: nat, lo: nat, hi: nat, lo': nat, hi': nat)
    requires d <= |s| && lo <= hi <= |s| - d && lo' == lo + d && hi' == hi + d
    ensures s[d..][lo .. hi] == s[lo' .. hi']
  {
  }

  /** The last page holds the remainder: the items past its offset. */
  lemma LastPageIsRemainder<T>(items: seq<T>, size: nat)
    requires size > 0
    ensures var k := NumPages(|items|, size);
      Offset(k, size) <= |items| && Page(items, size, k) == items[Offset(k, size)..]
  {
    PageIsSlice(items, size, NumPages(|items|, size));
  }

  lemma OffsetShift(k: nat, size: nat)
    requires k >= 2
    ensures Offset(k, size) == Offset(k - 1, size) + size
  {
  }

  /** All pages of `items`, first to last. */
  function Pages<T>(items: seq<T>, size: nat): seq<seq<T>>
    requires size > 0
    decreases |items|
  {
    if |items| <= size then [items] else [items[..size]] + Pages(items[size..], size)
  }

  function Flatten<T>(pages: seq<seq<T>>): seq<T> {
    if pages == [] then [] else pages[0] + Flatten(pages[1..])
  }

  /** The pages, read one after another, are exactly the feed: every item
      appears once, on one page, in feed order. */
  lemma {:induction false} PagesCover<T>(items: seq<T>, size: nat)
    requires size > 0
    ensures Flatten(Pages(items, size)) == items
    decreases |items|
  {
    if |items| > size {
      PagesCover(items[size..], size);
      var ps := Pages(items, size);
      assert ps[0] == items[..size] && ps[1..] == Pages(items[size..], size);
      assert items == items[..size] + items[size..];
    } else {
      assert Flatten([items]) == items + Flatten([]);
    }
  }

  /** There are `NumPages` pages, and the `k`-th of them is page `k`. */
  lemma {:induction false} PagesArePages<T>(items: seq<T>, size: nat, k: nat)
    requires size > 0 && 1 <= k <= NumPages(|items|, size)
    ensures |Pages(items, size)| == NumPages(|items|, size)
    ensures Pages(items, size)[k - 1] == Page(items, size, k)
    decreases |items|
  {
    if |items| > size {
      PagesArePages(items[size..], size, if k == 1 then 1 else k - 1);
    }
  }

  /** The paginator's fixed test: 13 items at 10 per page give two pages,
      of 10 and of 3 items. */
  lemma ThirteenItemsAtTen<T>(items: seq<T>)
    requires |items| == 13
    ensures NumPages(|items|, 10) == 2
    ensures |Page(items, 10, 1)| == 10 && |Page(items, 10, 2)| == 3
  {
    assert NumPages(3, 10) == 1;
  }

  /** The `page` parameter of a request. */
  datatype PageNumber = Missing | NotAnInteger | Number(n: int)

  /** The page number the framework serves for a request: 1 when the
      parameter is missing or not an integer, the requested page when it
      exists, and the last page for any other integer (below 1 as well as
      past the end). */
  function ServedPage(n: nat, size: nat, req: PageNumber): (k: nat)
    requires size > 0
    ensures 1 <= k <= NumPages(n, size)
    ensures req.Number? && 1 <= req.n <= NumPages(n, size) ==> k == req.n
    ensures !req.Number? ==> k == 1
    ensures req.Number? && !(1 <= req.n <= NumPages(n, size)) ==> k == NumPages(n, size)
  {
    match req
    case Missing => 1
    case NotAnInteger => 1
    case Number(m) => if 1 <= m <= NumPages(n, size) then m else NumPages(n, size)
  }

  /** `get_page`: the items of the served page. */
  function GetPage<T>(items: seq<T>, size: nat, req: PageNumber): (r: seq<T>)
    requires size > 0
    ensures |r| <= size
    ensures forall x :: x in r ==> x in items
    ensures !req.Number? ==> r == Page(items, size, 1)
    ensures req.Number? && 1 <= req.n <= NumPages(|items|, size) ==> r == Page(items, size, req.n)
    ensures req.Number? && !(1 <= req.n <= NumPages(|items|, size)) ==>
              r == Page(items, size, NumPages(|items|, size))
  {
    Page(items, size, ServedPage(|items|, size, req))
  }
}
