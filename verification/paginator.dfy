/**
 Splitting a range into pages.

 Iterators are positions into a sequence `xs`; a page is an
 `IteratorRange` of positions [begin, end) that also records its size.
 The paginator walks the range from its beginning, cutting pages of
 `pageSize` items until fewer remain, which form the last page.
 */
module Paginators {

  datatype IteratorRange = IteratorRange(begin: nat, end: nat, size: nat)

  /** The items a range spans. */
  function Items<T>(xs: seq<T>, r: IteratorRange): seq<T>
    requires r.begin <= r.end <= |xs|
  {
    xs[r.begin..r.end]
  }

  /** Every page lies inside `xs`. */
  predicate InBounds<T>(xs: seq<T>, pages: seq<IteratorRange>) {
    forall i :: 0 <= i < |pages| ==> pages[i].begin <= pages[i].end <= |xs|
  }

  /** The items of all pages, page after page. */
  function Flatten<T>(xs: seq<T>, pages: seq<IteratorRange>): seq<T>
    requires InBounds(xs, pages)
    decreases |pages|
  {
    if pages == [] then []
    else Flatten(xs, pages[..|pages| - 1]) + Items(xs, pages[|pages| - 1])
  }

  /** The number of pages of `n` items at `k` per page, counted the way
      the paginator cuts them. */
  function PageCount(n: nat, k: nat): nat
    requires k > 0 || n == 0
  {
    if n == 0 then 0 else if n <= k then 1 else 1 + PageCount(n - k, k)
  }

  /** The page count is n / k rounded up: `PageCount(n, k)` pages of `k`
      items hold all `n` items, one page fewer do not. */
  lemma {:induction false} PageCountIsCeiling(n: nat, k: nat)
    requires k > 0
    ensures PageCount(n, k) * k >= n
    ensures n > 0 ==> (PageCount(n, k) - 1) * k < n
    decreases n
  {
    if n > k {
      PageCountIsCeiling(n - k, k);
      var c := PageCount(n - k, k);
      MulSucc(c, k);
      MulSucc(c - 1, k);
    }
  }

  lemma MulSucc(c: int, k: int)
    ensures (c + 1) * k == c * k + k
  {
  }

  /** The pages tile [rangeBegin, rangeEnd): they are contiguous and
      non-empty, hold at most `pageSize` items each and record their own
      size. */
  predicate Tiles(pages: seq<IteratorRange>, rangeBegin: nat, rangeEnd: nat, pageSize: nat) {
    && (pages == [] ==> rangeBegin == rangeEnd)
    && (pages != [] ==> pages[0].begin == rangeBegin && pages[|pages| - 1].end == rangeEnd)
    && (forall i :: 0 <= i < |pages| - 1 ==> pages[i].end == pages[i + 1].begin)
    && (forall i :: 0 <= i < |pages| ==>
          && pages[i].begin < pages[i].end
          && pages[i].size == pages[i].end - pages[i].begin
          && pages[i].size <= pageSize)
  }

  /** Only a page reaching `rangeEnd` may hold fewer than `pageSize` items. */
  predicate ShortOnlyAtEnd(pages: seq<IteratorRange>, rangeEnd: nat, pageSize: nat) {
    forall i :: 0 <= i < |pages| ==> pages[i].size == pageSize || pages[i].end == rangeEnd
  }

  /** One iteration of the constructor's loop, for any page size: the
      page from `start` holding `pageSize` items, or all that remain when
      fewer do. The next page starts at its end. */
  function NextPage(start: nat, rangeEnd: nat, pageSize: nat): (page: IteratorRange)
    requires start <= rangeEnd
    ensures page.begin == start && page.end <= rangeEnd
    ensures page.size == page.end - page.begin <= pageSize
    ensures page.size == pageSize || page.end == rangeEnd
  {
    var step := if rangeEnd - start < pageSize then rangeEnd - start else pageSize;
    IteratorRange(start, start + step, step)
  }

  /** The constructor's loop as written, run for at most `k` iterations
      from `start`: the pages pushed and where the loop stands. */
  function LoopIterations(start: nat, rangeEnd: nat, pageSize: nat, k: nat): (r: (seq<IteratorRange>, nat))
    requires start <= rangeEnd
    ensures start <= r.1 <= rangeEnd
    decreases k
  {
    if k == 0 || start == rangeEnd then ([], start)
    else
      var page := NextPage(start, rangeEnd, pageSize);
      var rest := LoopIterations(page.end, rangeEnd, pageSize, k - 1);
      ([page] + rest.0, rest.1)
  }

  /** With a page size of 0 on a non-empty range the loop never ends:
      after any number `k` of iterations it still stands at the start,
      the loop condition still holds, and it has pushed `k` empty pages. */
  lemma {:induction false} ZeroPageSizeNeverEnds(start: nat, rangeEnd: nat, k: nat)
    requires start < rangeEnd
    ensures LoopIterations(start, rangeEnd, 0, k).1 == start
    ensures |LoopIterations(start, rangeEnd, 0, k).0| == k
    ensures forall i :: 0 <= i < k ==> LoopIterations(start, rangeEnd, 0, k).0[i] == IteratorRange(start, start, 0)
    decreases k
  {
    if k > 0 {
      ZeroPageSizeNeverEnds(start, rangeEnd, k - 1);
      var rest := LoopIterations(start, rangeEnd, 0, k - 1).0;
      assert LoopIterations(start, rangeEnd, 0, k).0 == [IteratorRange(start, start, 0)] + rest;
    }
  }

  /** With a positive page size the loop ends: after `PageCount` iterations
      it stands at the end of the range. */
  lemma {:induction false} PositivePageSizeEnds(start: nat, rangeEnd: nat, pageSize: nat)
    requires start <= rangeEnd && pageSize > 0
    ensures LoopIterations(start, rangeEnd, pageSize, PageCount(rangeEnd - start, pageSize)).1 == rangeEnd
    decreases rangeEnd - start
  {
    if start < rangeEnd {
      var page := NextPage(start, rangeEnd, pageSize);
      PositivePageSizeEnds(page.end, rangeEnd, pageSize);
    }
  }

  /** The source's constructor: cuts the range [rangeBegin, rangeEnd) of
      `xs` into pages. A page size of 0 on a non-empty range makes the
      source loop forever, so it is excluded. */
  method Paginator<T>(xs: seq<T>, rangeBegin: nat, rangeEnd: nat, pageSize: nat)
    returns (pages: seq<IteratorRange>)
    requires rangeBegin <= rangeEnd <= |xs|
    requires pageSize > 0 || rangeBegin == rangeEnd
    ensures Tiles(pages, rangeBegin, rangeEnd, pageSize)
    ensures ShortOnlyAtEnd(pages, rangeEnd, pageSize)
    ensures InBounds(xs, pages)
    ensures Flatten(xs, pages) == xs[rangeBegin..rangeEnd]
    ensures |pages| == PageCount(rangeEnd - rangeBegin, pageSize)
    ensures forall i :: 0 <= i < |pages| - 1 ==> pages[i].size == pageSize
    ensures rangeBegin == rangeEnd <==> pages == []
  {
    pages := [];
    var start := rangeBegin;
    while start != rangeEnd
      invariant rangeBegin <= start <= rangeEnd
      invariant Tiles(pages, rangeBegin, start, pageSize)
      invariant ShortOnlyAtEnd(pages, rangeEnd, pageSize)
      invariant InBounds(xs, pages)
      invariant Flatten(xs, pages) == xs[rangeBegin..start]
      invariant |pages| + PageCount(rangeEnd - start, pageSize) == PageCount(rangeEnd - rangeBegin, pageSize)
      decreases rangeEnd - start
    {
      var page := NextPage(start, rangeEnd, pageSize);
      AppendPageTiles(pages, page, rangeBegin, start, rangeEnd, pageSize);
      AppendPageItems(xs, pages, page, rangeBegin, start);
      pages := pages + [page];
      start := page.end;
    }
    AllButLastFull(pages, rangeBegin, rangeEnd, pageSize);
  }

  /** One iteration of the constructor's loop keeps the pages tiling the
      part of the range walked so far. */
  lemma AppendPageTiles(pages: seq<IteratorRange>, page: IteratorRange,
                        rangeBegin: nat, start: nat, rangeEnd: nat, pageSize: nat)
    requires rangeBegin <= start < rangeEnd && pageSize > 0
    requires Tiles(pages, rangeBegin, start, pageSize)
    requires ShortOnlyAtEnd(pages, rangeEnd, pageSize)
    requires page == NextPage(start, rangeEnd, pageSize)
    ensures Tiles(pages + [page], rangeBegin, page.end, pageSize)
    ensures ShortOnlyAtEnd(pages + [page], rangeEnd, pageSize)
    ensures PageCount(rangeEnd - start, pageSize) == 1 + PageCount(rangeEnd - page.end, pageSize)
  {
  }

  /** ... and keeps their items the walked part of the range. */
  lemma AppendPageItems<T>(xs: seq<T>, pages: seq<IteratorRange>, page: IteratorRange,
                           rangeBegin: nat, start: nat)
    requires rangeBegin <= start == page.begin <= page.end <= |xs|
    requires InBounds(xs, pages)
    requires Flatten(xs, pages) == xs[rangeBegin..start]
    ensures InBounds(xs, pages + [page])
    ensures Flatten(xs, pages + [page]) == xs[rangeBegin..page.end]
  {
    var pages' := pages + [page];
    assert pages'[..|pages|] == pages;
    assert xs[rangeBegin..page.end] == xs[rangeBegin..start] + xs[start..page.end];
  }

  /** Pages of at most `pageSize` items over a whole container. */
  method Paginate<T>(c: seq<T>, pageSize: nat) returns (pages: seq<IteratorRange>)
    requires pageSize > 0 || c == []
    ensures Tiles(pages, 0, |c|, pageSize)
    ensures ShortOnlyAtEnd(pages, |c|, pageSize)
    ensures InBounds(c, pages)
    ensures Flatten(c, pages) == c
    ensures |pages| == PageCount(|c|, pageSize)
    ensures forall i :: 0 <= i < |pages| - 1 ==> pages[i].size == pageSize
    ensures c == [] <==> pages == []
  {
    pages := Paginator(c, 0, |c|, pageSize);
    assert c[0..|c|] == c;
  }

  /** Every page but the last is full. */
  lemma AllButLastFull(pages: seq<IteratorRange>, rangeBegin: nat, rangeEnd: nat, pageSize: nat)
    requires Tiles(pages, rangeBegin, rangeEnd, pageSize)
    requires ShortOnlyAtEnd(pages, rangeEnd, pageSize)
    ensures forall i :: 0 <= i < |pages| - 1 ==> pages[i].size == pageSize
  {
    forall i | 0 <= i < |pages| - 1 ensures pages[i].size == pageSize {
      assert pages[i].end == pages[i + 1].begin < pages[i + 1].end;
      ContiguousEnds(pages, rangeBegin, rangeEnd, pageSize, i + 1);
    }
  }

  /** Pages end no later than the range. */
  lemma {:induction false} ContiguousEnds(pages: seq<IteratorRange>, rangeBegin: nat, rangeEnd: nat,
                                          pageSize: nat, i: nat)
    requires Tiles(pages, rangeBegin, rangeEnd, pageSize)
    requires i < |pages|
    ensures pages[i].end <= rangeEnd
    decreases |pages| - i
  {
    if i < |pages| - 1 {
      ContiguousEnds(pages, rangeBegin, rangeEnd, pageSize, i + 1);
    }
  }
}
