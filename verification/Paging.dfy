/**
 Pages of a search result (search.util.ts): the database skips and limits, the rest is arithmetic.
 */
module Paging {
  import opened Prelude

  /** RawSearchResult. */
  datatype SearchResult<T> = SearchResult(
    content: seq<T>,
    page: int,
    size: int,
    maxItemLength: int,
    maxPagesIndex: int,
    lastPage: bool,
    firstPage: bool
  )

  /** `parseInt(size) || 10`, for sizes the database accepts. */
  function SizeOf(size: nat): (s: nat)
    ensures s >= 1
  {
    if size == 0 then 10 else size
  }

  /** `$skip` and `$limit` on the sorted matches. */
  function SkipLimit<T>(all: seq<T>, skip: nat, limit: nat): seq<T> {
    if skip >= |all| then [] else all[skip..Min(skip + limit, |all|)]
  }

  function CeilDiv(a: nat, b: nat): nat
    requires b > 0
  {
    if a % b == 0 then a / b else a / b + 1
  }

  /** `modelSearch` over the sorted matches of a query. */
  function ModelSearch<T>(all: seq<T>, requestedSize: nat, page: nat): SearchResult<T> {
    var size := SizeOf(requestedSize);
    var maxPagesIndex := CeilDiv(|all|, size) - 1;
    SearchResult(SkipLimit(all, size * page, size), page, size, |all|, maxPagesIndex, maxPagesIndex == page, page == 0)
  }

  /** The contents of pages 0 to n-1, one after the other. */
  function FirstPages<T>(all: seq<T>, size: nat, n: nat): seq<T> {
    if n == 0 then [] else FirstPages(all, size, n - 1) + ModelSearch(all, size, n - 1).content
  }

  lemma {:induction false} FirstPagesArePrefix<T>(all: seq<T>, size: nat, n: nat)
    ensures FirstPages(all, size, n) == all[..Min(SizeOf(size) * n, |all|)]
  {
    if n > 0 {
      FirstPagesArePrefix(all, size, n - 1);
      var s := SizeOf(size);
      var skip := s * (n - 1);
      SkipLimitExtends(all, skip, s);
      Distribute(s, n);
      assert ModelSearch(all, size, n - 1).content == SkipLimit(all, skip, s);
    }
  }

  lemma Distribute(s: nat, n: nat)
    requires n > 0
    ensures s * (n - 1) + s == s * n
  {
  }

  lemma SkipLimitExtends<T>(all: seq<T>, skip: nat, limit: nat)
    ensures all[..Min(skip, |all|)] + SkipLimit(all, skip, limit) == all[..Min(skip + limit, |all|)]
    ensures limit > 0 ==> (SkipLimit(all, skip, limit) == [] <==> skip >= |all|)
  {
  }

  lemma CeilDivBounds(a: nat, b: nat)
    requires b > 0
    ensures b * CeilDiv(a, b) >= a
    ensures CeilDiv(a, b) > 0 ==> b * (CeilDiv(a, b) - 1) < a
    ensures CeilDiv(a, b) == 0 <==> a == 0
  {
    assert a == b * (a / b) + a % b;
    assert b * (a / b + 1) == b * (a / b) + b;
    if a % b == 0 && a / b > 0 {
      assert b * (a / b - 1) == b * (a / b) - b;
    }
    if a > 0 && a / b == 0 {
      assert b * (a / b) == 0;
      assert a % b == a;
    }
  }

  lemma MulMonotone(b: nat, x: nat, y: nat)
    requires x <= y
    ensures b * x <= b * y
  {
  }

  /** Pages 0 to maxPagesIndex put together are the whole result, without gap or overlap, and later pages are empty. */
  lemma PagesPartition<T>(all: seq<T>, size: nat, page: nat)
    ensures var last := ModelSearch(all, size, page).maxPagesIndex;
            && -1 <= last
            && FirstPages(all, size, last + 1) == all
            && (page > last <==> ModelSearch(all, size, page).content == [])
  {
    var s := SizeOf(size);
    var n := CeilDiv(|all|, s);
    CeilDivBounds(|all|, s);
    FirstPagesArePrefix(all, size, n);
    SkipLimitExtends(all, s * page, s);
    StartsInside(|all|, s, page);
  }

  /** A page begins before the end of the list exactly when it is one of the counted pages. */
  lemma StartsInside(length: nat, s: nat, page: nat)
    requires s > 0
    ensures s * page < length <==> page < CeilDiv(length, s)
  {
    var n := CeilDiv(length, s);
    CeilDivBounds(length, s);
    if page >= n {
      MulMonotone(s, n, page);
    } else {
      MulMonotone(s, page, n - 1);
    }
  }

  /** `lastPage` is set on the page that holds the last element and on no other; on an empty result it is never set. */
  lemma LastPageHoldsTheLastElement<T>(all: seq<T>, size: nat, page: nat)
    ensures var s := SizeOf(size);
            ModelSearch(all, size, page).lastPage <==> all != [] && s * page <= |all| - 1 < s * (page + 1)
  {
    var s := SizeOf(size);
    StartsInside(|all|, s, page);
    StartsInside(|all|, s, page + 1);
  }

  /** `firstPage` is set on the page at the start of the list, and `maxItemLength` counts the elements of all pages. */
  lemma CountsAndFirstPage<T>(all: seq<T>, size: nat, page: nat)
    ensures var r := ModelSearch(all, size, page);
            && (r.firstPage <==> SizeOf(size) * page == 0)
            && r.maxItemLength == |FirstPages(all, size, r.maxPagesIndex + 1)|
            && r.page == page && r.size == (if size == 0 then 10 else size) && |r.content| <= r.size
  {
    PagesPartition(all, size, page);
    if page > 0 {
      MulMonotone(SizeOf(size), 1, page);
    }
  }

  /** The callback applied to the elements in order, until it rejects. */
  function MapSeq<T, U, E>(f: (T, nat) -> Result<U, E>, items: seq<T>): Result<seq<U>, E> {
    if items == [] then Ok([]) else
      match MapSeq(f, items[..|items| - 1])
      case Err(e) => Err(e)
      case Ok(mapped) =>
        match f(items[|items| - 1], |items| - 1)
        case Err(e) => Err(e)
        case Ok(u) => Ok(mapped + [u])
  }

  /** `mapAsync`: the callback gets the element and its index in the page, and what it rejects with is passed on. */
  method MapAsync<T, U, E>(r: SearchResult<T>, f: (T, nat) -> Result<U, E>) returns (mapped: Result<SearchResult<U>, E>)
    ensures mapped == match MapSeq(f, r.content)
                      case Err(e) => Err(e)
                      case Ok(content) =>
                        Ok(SearchResult(content, r.page, r.size, r.maxItemLength, r.maxPagesIndex,
                                        r.lastPage, r.firstPage))
  {
    var newContent: seq<U> := [];
    for index := 0 to |r.content|
      invariant MapSeq(f, r.content[..index]) == Ok(newContent)
    {
      assert r.content[..index + 1][..index] == r.content[..index];
      var element := f(r.content[index], index);
      if element.Err? {
        FailsFromHere(f, r.content, index + 1, element.error);
        return Err(element.error);
      }
      newContent := newContent + [element.value];
    }
    assert r.content[..|r.content|] == r.content;
    mapped := Ok(SearchResult(newContent, r.page, r.size, r.maxItemLength, r.maxPagesIndex, r.lastPage, r.firstPage));
  }

  lemma {:induction false} FailsFromHere<T, U, E>(f: (T, nat) -> Result<U, E>, items: seq<T>, n: nat, e: E)
    requires n <= |items| && MapSeq(f, items[..n]) == Err(e)
    ensures MapSeq(f, items) == Err(e)
    decreases |items| - n
  {
    if n < |items| {
      assert items[..n + 1][..n] == items[..n];
      FailsFromHere(f, items, n + 1, e);
    } else {
      assert items[..n] == items;
    }
  }

  /** All elements are mapped, each with its own index; or the first rejection decides. */
  lemma {:induction false} MapsElementwise<T, U, E>(f: (T, nat) -> Result<U, E>, items: seq<T>)
    ensures match MapSeq(f, items)
            case Ok(mapped) => |mapped| == |items| && forall i | 0 <= i < |items| :: f(items[i], i) == Ok(mapped[i])
            case Err(e) =>
              exists i :: 0 <= i < |items| && f(items[i], i) == Err(e) && forall j | 0 <= j < i :: f(items[j], j).Ok?
  {
    if items != [] {
      var init, last := items[..|items| - 1], |items| - 1;
      MapsElementwise(f, init);
      match MapSeq(f, init)
      case Err(e) =>
        var i :| 0 <= i < |init| && f(init[i], i) == Err(e) && forall j | 0 <= j < i :: f(init[j], j).Ok?;
        assert items[i] == init[i];
        assert forall j | 0 <= j < i :: items[j] == init[j];
      case Ok(mapped) =>
        assert forall j | 0 <= j < last :: items[j] == init[j] && f(items[j], j) == Ok(mapped[j]);
        if f(items[last], last).Err? {
          assert forall j | 0 <= j < last :: f(items[j], j).Ok?;
        }
    }
  }

  lemma {:induction false} AllMapped<T, U, E>(f: (T, nat) -> Result<U, E>, items: seq<T>, mapped: seq<U>)
    requires |mapped| == |items| && forall i | 0 <= i < |items| :: f(items[i], i) == Ok(mapped[i])
    ensures MapSeq(f, items) == Ok(mapped)
  {
    if items != [] {
      AllMapped(f, items[..|items| - 1], mapped[..|items| - 1]);
      assert mapped == mapped[..|items| - 1] + [mapped[|items| - 1]];
    } else {
      assert mapped == [];
    }
  }

  /** For a callback that ignores the index and rejects nothing, mapping page by page is mapping the whole result. */
  lemma MappingCommutesWithPaging<T, U, E>(all: seq<T>, size: nat, page: nat, f: (T, nat) -> Result<U, E>,
                                           mapped: seq<U>)
    requires forall x, i, j :: f(x, i) == f(x, j)
    requires MapSeq(f, all) == Ok(mapped)
    ensures MapSeq(f, ModelSearch(all, size, page).content) == Ok(ModelSearch(mapped, size, page).content)
    ensures ModelSearch(mapped, size, page).maxPagesIndex == ModelSearch(all, size, page).maxPagesIndex
  {
    MapsElementwise(f, all);
    var content, expected := ModelSearch(all, size, page).content, ModelSearch(mapped, size, page).content;
    var skip := SizeOf(size) * page;
    forall i | 0 <= i < |content| ensures f(content[i], i) == Ok(expected[i]) {
      assert content[i] == all[skip + i] && expected[i] == mapped[skip + i];
      assert f(all[skip + i], skip + i) == f(all[skip + i], i);
    }
    AllMapped(f, content, expected);
  }
}
