/**
 * `getMemes(page, limit)` and `searchMemes(...)`: the list page over the id index and the
 * filtered search page, with Kotlin's 32-bit `Int` arithmetic for the page window.
 */
module MemeSearch {
  import opened Wrappers
  import opened Int32Arith
  import opened Sequences
  import opened Entity
  import opened MemeIndex
  import opened MemeLoader

  /** `FuzzySearch.ratio(query, title)`: a similarity score from the fuzzy-matching library. */
  type Ratio = (string, string) -> int

  /** `(page - 1) * limit` evaluated on `Int`. */
  function PageStart(page: Int32, limit: Int32): (r: Int32)
    ensures r == Wrap((page - 1) * limit)
  {
    StartProduct(page, limit);
    Mul(Sub(page, 1), limit)
  }

  /** For the lowest page `page - 1` wraps to `Int.MAX_VALUE`, and the product is still congruent. */
  lemma StartProduct(page: Int32, limit: Int32)
    ensures Mul(Sub(page, 1), limit) == Wrap((page - 1) * limit)
  {
    if page == MIN {
      assert Sub(page, 1) == MAX;
      assert MAX * limit - (page - 1) * limit == MODULUS * limit;
      WrapUnique(MAX * limit, (page - 1) * limit);
    }
  }

  /** `(page - 1) * limit + limit` evaluated on `Int`. */
  function PageEnd(page: Int32, limit: Int32): (r: Int32)
    ensures r == Wrap(PageStart(page, limit) + limit)
    ensures MIN <= PageStart(page, limit) + limit <= MAX ==> r == PageStart(page, limit) + limit
  {
    Add(Mul(Sub(page, 1), limit), limit)
  }

  /**
   * `k * limit`, built up one page at a time (`OffsetIsProduct`); the page lemmas below are
   * stated with it so that their arithmetic stays linear.
   */
  function Offset(k: nat, limit: int): (r: int)
    ensures 0 <= limit ==> 0 <= r
    ensures 1 <= limit ==> k <= r
  {
    if k == 0 then 0 else Offset(k - 1, limit) + limit
  }

  lemma {:induction false} OffsetIsProduct(k: nat, limit: int)
    ensures Offset(k, limit) == k * limit
  {
    if k > 0 {
      OffsetIsProduct(k - 1, limit);
      assert k * limit == (k - 1) * limit + limit;
    }
  }

  /** Without overflow the window bounds are the mathematical ones: `(page - 1) * limit` and `page * limit`. */
  lemma PageBoundsExact(page: Int32, limit: Int32)
    requires 1 <= page && 0 <= limit && Offset(page, limit) <= MAX
    ensures 0 <= PageStart(page, limit) == Offset(page - 1, limit)
    ensures PageEnd(page, limit) == Offset(page, limit)
  {
    OffsetIsProduct(page - 1, limit);
    assert 0 <= (page - 1) * limit;
  }

  /** A page far past the end wraps around: page 65537 of size 65536 starts at position 0. */
  lemma PageStartWraps()
    ensures PageStart(65537, 65536) == 0 && PageEnd(65537, 65536) == 65536
  {
    assert 65536 * 65536 == MODULUS;
  }

  /** With valid arguments the start can also wrap to a negative `Int`. */
  lemma PageStartNegative()
    ensures PageStart(3, 0x4000_0000) == MIN
  {
    assert 2 * 0x4000_0000 == MAX + 1;
  }

  /** The exception `drop` and `take` throw for a negative count (`IllegalArgumentException`). */
  datatype Fault = NegativeCount

  /**
   * The body of `getMemes(page, limit)` once the index `ids` is listed: the records of the ids
   * at index positions `[(page - 1) * limit, (page - 1) * limit + limit)`, loaded best-effort;
   * `total` counts the whole index, records that fail to load included. A start that wraps
   * negative makes `drop` throw, a negative limit makes `take` throw.
   */
  function IndexPage(ids: seq<int>, load: Loader, page: Int32, limit: Int32): (r: Result<MemeResponse, Fault>)
    ensures r.Failure? <==> PageStart(page, limit) < 0 || limit < 0
    ensures r.Success? ==>
      && r.value.data == LoadedMemes(load, Take(Drop(ids, PageStart(page, limit)), limit))
      && r.value.total == |ids|
      && r.value.page == page && r.value.limit == limit
      && r.value.hasMore == (PageEnd(page, limit) < |ids|)
    ensures r.Success? ==> |r.value.data| <= limit
  {
    var start := PageStart(page, limit);
    var end := PageEnd(page, limit);
    if start < 0 then Failure(NegativeCount)
    else if limit < 0 then Failure(NegativeCount)
    else
      var data := LoadedMemes(load, Take(Drop(ids, start), limit));
      Success(MemeResponse(data, |ids|, page, limit, end < |ids|))
  }

  /** `getMemes(page, limit)`: lists the index, then pages through it. */
  function ListPage(names: seq<string>, read: Reader, page: Int32, limit: Int32): (r: Result<MemeResponse, Fault>)
    ensures r.Failure? <==> PageStart(page, limit) < 0 || limit < 0
    ensures r.Success? ==>
      var ids := MemeIndices(names);
      && r.value.data == LoadedMemes(Load(read), Take(Drop(ids, PageStart(page, limit)), limit))
      && r.value.total == |ids|
      && r.value.page == page && r.value.limit == limit
      && r.value.hasMore == (PageEnd(page, limit) < |ids|)
    ensures r.Success? ==> |r.value.data| <= limit
  {
    IndexPage(MemeIndices(names), Load(read), page, limit)
  }

  /** A page loads exactly the index positions from the start up to `limit` further, cut off at the end. */
  lemma IndexPageWindow(ids: seq<int>, load: Loader, page: Int32, limit: Int32)
    requires 1 <= page && 1 <= limit && PageStart(page, limit) >= 0
    ensures var start := PageStart(page, limit);
      IndexPage(ids, load, page, limit).value.data
        == LoadedMemes(load, ids[Clamp(start, 0, |ids|)..Clamp(start + limit, 0, |ids|)])
  {
    DropTake(ids, PageStart(page, limit), limit);
  }

  /** While `page * limit` fits in an `Int`, a page past the end of the index is empty, with no more to come, and still reports the index size. */
  lemma ListPageBeyondEnd(names: seq<string>, read: Reader, page: Int32, limit: Int32)
    requires 1 <= page && 1 <= limit && Offset(page, limit) <= MAX
    requires Offset(page - 1, limit) >= |MemeIndices(names)|
    ensures ListPage(names, read, page, limit)
         == Success(MemeResponse([], |MemeIndices(names)|, page, limit, false))
  {
    PageBoundsExact(page, limit);
  }

  /** Over the index `[1, 2, 3, 5]` pages of two give ids 1 and 2, with more to come, then 3 and 5, the last. */
  lemma ListPageTwoByTwo(names: seq<string>, read: Reader)
    requires MemeIndices(names) == [1, 2, 3, 5]
    ensures ListPage(names, read, 1, 2) == Success(MemeResponse(LoadedMemes(Load(read), [1, 2]), 4, 1, 2, true))
    ensures ListPage(names, read, 2, 2) == Success(MemeResponse(LoadedMemes(Load(read), [3, 5]), 4, 2, 2, false))
  {
    FirstPageOfTwo(Load(read));
    SecondPageOfTwo(Load(read));
  }

  /** For `ListPageTwoByTwo`: page 1 of the index `[1, 2, 3, 5]`. */
  lemma FirstPageOfTwo(load: Loader)
    ensures IndexPage([1, 2, 3, 5], load, 1, 2) == Success(MemeResponse(LoadedMemes(load, [1, 2]), 4, 1, 2, true))
  {
    PageBoundsExact(1, 2);
    assert Take(Drop([1, 2, 3, 5], 0), 2) == [1, 2];
  }

  /** For `ListPageTwoByTwo`: page 2 of the index `[1, 2, 3, 5]`. */
  lemma SecondPageOfTwo(load: Loader)
    ensures IndexPage([1, 2, 3, 5], load, 2, 2) == Success(MemeResponse(LoadedMemes(load, [3, 5]), 4, 2, 2, false))
  {
    PageBoundsExact(2, 2);
    assert Take(Drop([1, 2, 3, 5], 2), 2) == [3, 5];
  }

  /** Because the window wraps, page 65537 of size 65536 repeats page 1. */
  lemma ListPageHugePageRepeatsFirst(names: seq<string>, read: Reader)
    ensures ListPage(names, read, 65537, 65536).Success?
    ensures ListPage(names, read, 65537, 65536).value.data == ListPage(names, read, 1, 65536).value.data
    ensures ListPage(names, read, 65537, 65536).value.hasMore == ListPage(names, read, 1, 65536).value.hasMore
  {
    PageStartWraps();
    PageBoundsExact(1, 65536);
  }

  /** A negative page can wrap back to the start: page -65535 of size 65536 returns page 1. */
  lemma IndexPageNegativeWraps(ids: seq<int>, load: Loader)
    ensures IndexPage(ids, load, -65535, 65536).Success?
    ensures IndexPage(ids, load, -65535, 65536).value.data == IndexPage(ids, load, 1, 65536).value.data
  {
    assert -65536 * 65536 == -MODULUS;
    PageBoundsExact(1, 65536);
  }

  /** Past the end `hasMore` can be false even after overflow: an empty index, page 65537 of size 65536. */
  lemma IndexPageEmptyIndexWrapped(load: Loader)
    ensures IndexPage([], load, 65537, 65536) == Success(MemeResponse([], 0, 65537, 65536, false))
  {
    PageStartWraps();
  }

  /** Valid arguments can still make `drop` throw, once the start wraps negative. */
  lemma ListPageThrows(names: seq<string>, read: Reader)
    ensures ListPage(names, read, 3, 0x4000_0000) == Failure(NegativeCount)
  {
    PageStartNegative();
  }

  /**
   * When `page * limit` overflows, a page past the end can be empty yet claim more: on page 2
   * of size 2^30 the start is 2^30 but the end wraps to `Int.MIN_VALUE`, below the index size.
   */
  lemma IndexPageEmptyClaimsMore(load: Loader)
    ensures IndexPage([1, 2, 3], load, 2, 0x4000_0000) == Success(MemeResponse([], 3, 2, 0x4000_0000, true))
  {
    assert PageStart(2, 0x4000_0000) == 0x4000_0000;
    assert PageEnd(2, 0x4000_0000) == MIN;
    assert Take(Drop([1, 2, 3], 0x4000_0000), 0x4000_0000) == [];
  }

  /** `getMemes(page, limit)` over a three-record index: page 2 of size 2^30 is empty with `hasMore` true. */
  lemma ListPageEmptyClaimsMore(names: seq<string>, read: Reader)
    requires MemeIndices(names) == [1, 2, 3]
    ensures ListPage(names, read, 2, 0x4000_0000) == Success(MemeResponse([], 3, 2, 0x4000_0000, true))
  {
    IndexPageEmptyClaimsMore(Load(read));
  }

  /** Without the route's guards `page >= 1` and `limit >= 1` the call throws: page 0 starts before the index, and `take` refuses a negative limit. */
  lemma ListPageOutsideGuards(names: seq<string>, read: Reader, limit: Int32)
    requires 1 <= limit
    ensures ListPage(names, read, 0, limit) == Failure(NegativeCount)
    ensures ListPage(names, read, 1, -1) == Failure(NegativeCount)
  {
    assert PageStart(0, limit) == -limit;
    assert PageStart(1, -1) == 0;
  }

  /** The data of pages 1 to `k` of the index `ids`, one after the other. */
  ghost function PagesData(ids: seq<int>, load: Loader, limit: Int32, k: nat): seq<Meme>
    requires 1 <= limit && Offset(k, limit) <= MAX
  {
    if k == 0 then []
    else
      PageBoundsExact(k, limit);
      PagesData(ids, load, limit, k - 1) + IndexPage(ids, load, k, limit).value.data
  }

  /** Page `k` adds the records of index positions `(k - 1) * limit` to `k * limit`, cut off at the end. */
  lemma PagesDataStep(ids: seq<int>, load: Loader, limit: Int32, k: nat)
    requires 1 <= limit && 1 <= k && Offset(k, limit) <= MAX
    ensures PagesData(ids, load, limit, k)
        == PagesData(ids, load, limit, k - 1) + LoadedMemes(load, ids[Clamp(Offset(k - 1, limit), 0, |ids|)..Clamp(Offset(k, limit), 0, |ids|)])
  {
    PageBoundsExact(k, limit);
    IndexPageWindow(ids, load, k, limit);
    assert PageStart(k, limit) + limit == Offset(k, limit);
  }

  /**
   * Reading pages 1 to `k` in turn yields every record of the first `k * limit` index
   * positions exactly once, in index order.
   */
  lemma {:induction false} ListPagesCover(ids: seq<int>, load: Loader, limit: Int32, k: nat)
    requires 1 <= limit && Offset(k, limit) <= MAX
    ensures PagesData(ids, load, limit, k) == LoadedMemes(load, ids[..Clamp(Offset(k, limit), 0, |ids|)])
  {
    if k > 0 {
      var a, b := Clamp(Offset(k - 1, limit), 0, |ids|), Clamp(Offset(k, limit), 0, |ids|);
      ListPagesCover(ids, load, limit, k - 1);
      PagesDataStep(ids, load, limit, k);
      LoadedMemesSplit(load, ids, a, b);
    } else {
      assert ids[..Clamp(Offset(k, limit), 0, |ids|)] == [];
    }
  }

  /**
   * Once the pages reach the end of the index, together they hold every loadable record once,
   * in index order; for `getMemes(page, limit)` the index is `MemeIndices(names)`.
   */
  lemma ListPagesCoverAll(ids: seq<int>, load: Loader, limit: Int32, k: nat)
    requires 1 <= limit && Offset(k, limit) <= MAX && Offset(k, limit) >= |ids|
    ensures PagesData(ids, load, limit, k) == LoadedMemes(load, ids)
  {
    ListPagesCover(ids, load, limit, k);
    assert ids[..|ids|] == ids;
  }

  /** The tag criteria: the optional single `tag`, and every entry of `tags`. */
  predicate TagFilter(m: Meme, tag: Option<string>, tags: seq<string>): (b: bool)
    ensures b <==> (set t | t in tags) + (if tag.Some? then {tag.value} else {}) <= m.tags
  {
    && (tag.None? || tag.value in m.tags)
    && forall t :: t in tags ==> t in m.tags
  }

  /**
   * The text criterion: no query, or `FuzzySearch.ratio(query, title) > 0.95`. The ratio is an
   * `Int`, so it exceeds 0.95 exactly when it is at least 1 (`ThresholdOnIntegers`).
   */
  predicate TextFilter(m: Meme, query: Option<string>, ratio: Ratio): (b: bool)
    ensures b <==> query.None? || ratio(query.value, m.title) as real > 0.95
  {
    query.None? || ratio(query.value, m.title) >= 1
  }

  /** An `Int` score compared with the `Double` 0.95 exceeds it exactly when it is at least 1. */
  lemma ThresholdOnIntegers(score: int)
    ensures score as real > 0.95 <==> score >= 1
  {
  }

  /** The first `filter` of `searchMemes`: the memes meeting the tag criteria, in order. */
  function FilterByTags(ms: seq<Meme>, tag: Option<string>, tags: seq<string>): (r: seq<Meme>)
    ensures |r| <= |ms|
  {
    if |ms| == 0 then []
    else
      var rest := FilterByTags(ms[1..], tag, tags);
      if TagFilter(ms[0], tag, tags) then [ms[0]] + rest else rest
  }

  /** `FilterByTags` keeps exactly the memes meeting the tag criteria. */
  lemma {:induction false} FilterByTagsMembers(ms: seq<Meme>, tag: Option<string>, tags: seq<string>)
    ensures forall m :: m in FilterByTags(ms, tag, tags) <==> m in ms && TagFilter(m, tag, tags)
  {
    if |ms| > 0 {
      FilterByTagsMembers(ms[1..], tag, tags);
      assert forall m :: m in ms <==> m == ms[0] || m in ms[1..];
    }
  }

  /** The second `filter` of `searchMemes`: the memes meeting the text criterion, in order. */
  function FilterByText(ms: seq<Meme>, query: Option<string>, ratio: Ratio): (r: seq<Meme>)
    ensures |r| <= |ms|
  {
    if |ms| == 0 then []
    else
      var rest := FilterByText(ms[1..], query, ratio);
      if TextFilter(ms[0], query, ratio) then [ms[0]] + rest else rest
  }

  /** `FilterByText` keeps exactly the memes meeting the text criterion. */
  lemma {:induction false} FilterByTextMembers(ms: seq<Meme>, query: Option<string>, ratio: Ratio)
    ensures forall m :: m in FilterByText(ms, query, ratio) <==> m in ms && TextFilter(m, query, ratio)
  {
    if |ms| > 0 {
      FilterByTextMembers(ms[1..], query, ratio);
      assert forall m :: m in ms <==> m == ms[0] || m in ms[1..];
    }
  }

  /** Filtering keeps order: what passes from an earlier part comes before what passes from a later one. */
  lemma {:induction false} FilterByTagsAppend(a: seq<Meme>, b: seq<Meme>, tag: Option<string>, tags: seq<string>)
    ensures FilterByTags(a + b, tag, tags) == FilterByTags(a, tag, tags) + FilterByTags(b, tag, tags)
  {
    if |a| == 0 {
      assert a + b == b;
    } else {
      assert (a + b)[0] == a[0] && (a + b)[1..] == a[1..] + b;
      FilterByTagsAppend(a[1..], b, tag, tags);
    }
  }

  /** The text filter keeps order in the same way. */
  lemma {:induction false} FilterByTextAppend(a: seq<Meme>, b: seq<Meme>, query: Option<string>, ratio: Ratio)
    ensures FilterByText(a + b, query, ratio) == FilterByText(a, query, ratio) + FilterByText(b, query, ratio)
  {
    if |a| == 0 {
      assert a + b == b;
    } else {
      assert (a + b)[0] == a[0] && (a + b)[1..] == a[1..] + b;
      FilterByTextAppend(a[1..], b, query, ratio);
    }
  }

  /** Without a query the text filter keeps every meme. */
  lemma {:induction false} FilterByTextWithoutQuery(ms: seq<Meme>, ratio: Ratio)
    ensures FilterByText(ms, None, ratio) == ms
  {
    if |ms| > 0 {
      FilterByTextWithoutQuery(ms[1..], ratio);
    }
  }

  /** Without a tag and with no required tags the tag filter keeps every meme. */
  lemma {:induction false} FilterByTagsWithoutCriteria(ms: seq<Meme>)
    ensures FilterByTags(ms, None, []) == ms
  {
    if |ms| > 0 {
      FilterByTagsWithoutCriteria(ms[1..]);
    }
  }

  /** The population `searchMemes` pages through: every loadable record, filtered, in index order. */
  function SearchPopulation(names: seq<string>, read: Reader, ratio: Ratio,
                            query: Option<string>, tag: Option<string>, tags: seq<string>): (r: seq<Meme>)
    ensures |r| <= |MemeIndices(names)|
    ensures forall m :: m in r <==>
      m in LoadedMemes(Load(read), MemeIndices(names)) && TagFilter(m, tag, tags) && TextFilter(m, query, ratio)
  {
    var loaded := LoadedMemes(Load(read), MemeIndices(names));
    FilterByTagsMembers(loaded, tag, tags);
    FilterByTextMembers(FilterByTags(loaded, tag, tags), query, ratio);
    FilterByText(FilterByTags(loaded, tag, tags), query, ratio)
  }

  /**
   * `searchMemes(page, limit, query, tag, tags)`: counts the filtered population and keeps the
   * records whose position lies in the closed range `start..end`, so a page can hold `limit + 1`.
   */
  method SearchMemes(names: seq<string>, read: Reader, ratio: Ratio, page: Int32, limit: Int32,
                     query: Option<string>, tag: Option<string>, tags: seq<string>) returns (r: MemeResponse)
    ensures var found := SearchPopulation(names, read, ratio, query, tag, tags);
      && r.data == ClosedWindow(found, PageStart(page, limit), PageEnd(page, limit))
      && r.total == |found|
      && r.page == page && r.limit == limit
      && r.hasMore == (PageEnd(page, limit) < |found|)
    ensures forall m :: m in r.data ==> TagFilter(m, tag, tags) && TextFilter(m, query, ratio)
    ensures 0 <= limit ==> |r.data| <= limit + 1
  {
    var indices := MemeIndices(names);
    var loaded := GetMemes(read, indices);
    var indexed := FilterByText(FilterByTags(loaded, tag, tags), query, ratio);
    var start := PageStart(page, limit);
    var end := PageEnd(page, limit);
    var result, size := CollectWindow(indexed, start, end);
    r := MemeResponse(result, size, page, limit, end < size);
    if 0 <= limit {
      SearchPageBound(indexed, page, limit);
    }
  }

  /**
   * The counting loop of `searchMemes`: walks the indexed population, counting every record
   * and keeping those whose index lies in `start..end`.
   */
  method CollectWindow(indexed: seq<Meme>, start: int, end: int) returns (result: seq<Meme>, size: nat)
    ensures result == ClosedWindow(indexed, start, end)
    ensures size == |indexed|
  {
    result := [];
    size := 0;
    for index := 0 to |indexed|
      invariant size == index
      invariant result == ClosedWindow(indexed[..index], start, end)
    {
      ClosedWindowStep(indexed, index, start, end);
      size := size + 1;
      if start <= index <= end {
        result := result + [indexed[index]];
      }
    }
    assert indexed[..|indexed|] == indexed;
  }

  /** A search page never holds more than `limit + 1` records. */
  lemma SearchPageBound(found: seq<Meme>, page: Int32, limit: Int32)
    requires 0 <= limit
    ensures |ClosedWindow(found, PageStart(page, limit), PageEnd(page, limit))| <= limit + 1
  {
    var start, end := PageStart(page, limit), PageEnd(page, limit);
    if start + limit <= MAX {
      assert end == start + limit;
    } else {
      assert end < 0;
    }
  }

  /**
   * Deep enough in the population, a search page holds `limit + 1` records, one more than asked
   * for: those at positions `(page - 1) * limit` to `page * limit`.
   */
  lemma SearchPageHoldsLimitPlusOne(found: seq<Meme>, page: Int32, limit: Int32)
    requires 1 <= page && 0 <= limit && Offset(page, limit) <= MAX
    requires Offset(page, limit) < |found|
    ensures var w := ClosedWindow(found, PageStart(page, limit), PageEnd(page, limit));
      && |w| == limit + 1
      && w == found[Offset(page - 1, limit)..Offset(page, limit) + 1]
  {
    PageBoundsExact(page, limit);
  }

  /** Consecutive search pages overlap: the last record of page `p` is the first of page `p + 1`. */
  lemma SearchPagesOverlap(found: seq<Meme>, page: Int32, limit: Int32)
    requires 1 <= page && 1 <= limit && Offset(page + 1, limit) <= MAX
    requires Offset(page, limit) < |found|
    ensures page + 1 <= MAX
    ensures var w1 := ClosedWindow(found, PageStart(page, limit), PageEnd(page, limit));
      var w2 := ClosedWindow(found, PageStart(page + 1, limit), PageEnd(page + 1, limit));
      |w1| == limit + 1 && |w2| >= 1 && w1[limit] == w2[0] == found[Offset(page, limit)]
  {
    SearchPageHoldsLimitPlusOne(found, page, limit);
    SearchPageStartsAt(found, page + 1, limit);
  }

  /** A search page that starts inside the population begins with the record at its start position. */
  lemma SearchPageStartsAt(found: seq<Meme>, page: Int32, limit: Int32)
    requires 1 <= page && 0 <= limit && Offset(page, limit) <= MAX
    requires Offset(page - 1, limit) < |found|
    ensures var w := ClosedWindow(found, PageStart(page, limit), PageEnd(page, limit));
      |w| >= 1 && w[0] == found[Offset(page - 1, limit)]
  {
    PageBoundsExact(page, limit);
  }

  /** A search page that starts past the filtered population is empty and reports no more. */
  lemma SearchBeyondEnd(found: seq<Meme>, page: Int32, limit: Int32)
    requires 1 <= page && 1 <= limit && Offset(page, limit) <= MAX
    requires Offset(page - 1, limit) >= |found|
    ensures ClosedWindow(found, PageStart(page, limit), PageEnd(page, limit)) == []
    ensures !(PageEnd(page, limit) < |found|)
  {
    PageBoundsExact(page, limit);
  }

  /** The search window overflows the same way: page 2 of size 2^30 over three records is empty with `hasMore` true. */
  lemma SearchEmptyPageClaimsMore(found: seq<Meme>)
    requires |found| == 3
    ensures ClosedWindow(found, PageStart(2, 0x4000_0000), PageEnd(2, 0x4000_0000)) == []
    ensures PageEnd(2, 0x4000_0000) < |found|
  {
    assert PageStart(2, 0x4000_0000) == 0x4000_0000;
    assert PageEnd(2, 0x4000_0000) == MIN;
  }
}
