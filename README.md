# meme-browser: the meme index and search engine in Dafny

This project models `MemeService`, the part of the meme-browser server that has real semantics. It covers:

- how the record directory becomes an ascending index of integer ids (`getMemeIndices`);
- how one record is loaded and given its synthetic `"$" + id` tag (`getMeme`, with `Meme.tags(...)`);
- how a list of ids is loaded best-effort (`getMemes(range)`);
- the list page over the id index (`getMemes(page, limit)`);
- the filtered search page with its counting loop (`searchMemes`).

Modules, leaves first:

- `Wrappers`: `Option` and `Result`.
- `Int32Arith`: Kotlin `Int` arithmetic, wrapping modulo 2^32.
- `IntText`: the decimal text of an `Int` (`"$id"`) and `String.toIntOrNull()`.
- `Sequences`: `sorted()`, `drop`, `take` and the closed range `start..end`.
- `Entity`: `Meme`, `Meme.tags(...)` and `MemeResponse`.
- `MemeIndex`: `getMemeIndices`.
- `MemeLoader`: `getMeme` and `getMemes(range)`.
- `MemeSearch`: `getMemes(page, limit)` and `searchMemes`.

Inputs with no code behind them are parameters:

- The record directory listing is a `seq<string>` of file names, in whatever order the file system gives.
- Opening and decoding a record file is a `Reader`, a function from a file name to `Option<Meme>`. `None` stands for any exception that `getMeme` throws.
- `FuzzySearch.ratio` is a `Ratio`, a function from query and title to `int`.

Points where the code does something other than what a reader might expect. The model follows the code in each case:

- **The `id` field is not changed.** `getMeme(id)` adds the tag `"$" + id`, and every field, `id` included, stays as decoded (`GetMeme`).
- **A record is looked up under the canonical text of its id.** `01.json` is listed as id 1, but loading id 1 opens `1.json` (`ListedNameNotReadBack`). The reader is therefore keyed by file name, not by id.
- **The search window is closed.** `searchMemes` keeps positions `start..end`, both ends included. Deep enough in the population a page holds `limit + 1` records (`SearchPageHoldsLimitPlusOne`). The last record of page `p` is also the first of page `p + 1` (`SearchPagesOverlap`). A half-open window `[start, start + limit)` would not behave this way.
- **The text threshold is on an integer ratio.** `FuzzySearch.ratio` returns an `Int` from 0 to 100, and the code keeps a record when it is `> 0.95`. That holds exactly when the ratio is at least 1 (`ThresholdOnIntegers`), so almost any similarity passes. The model keeps this `>= 1` test rather than a 95% threshold.
- **The list total includes records that fail to load.** `total` of `getMemes(page, limit)` is the size of the id index. Records that fail to load are missing from `data` but still counted.
- **Ids may be negative or signed.** `toIntOrNull` accepts a leading `+` or `-`, so `-3.json` and `+1.json` are indexed too (`ParseIntExamples`, `MemeIndicesFilterAndSort`).
- **Page arithmetic is 32-bit.** `(page - 1) * limit` wraps around:
  - page 65537 with limit 65536 starts at position 0 and repeats page 1 (`ListPageHugePageRepeatsFirst`);
  - page 3 with limit 2^30 starts at `Int.MIN_VALUE`, so `drop` throws (`ListPageThrows`). The model returns this as `Failure(NegativeCount)`;
  - page 2 with limit 2^30 passes the `/memes` guards, but `end` wraps to `Int.MIN_VALUE`. Over a three-record index the page is empty and still reports `hasMore` true (`IndexPageEmptyClaimsMore`, `ListPageEmptyClaimsMore`). The search page behaves the same way (`SearchEmptyPageClaimsMore`). So past the end, `hasMore` is guaranteed false only while `page * limit` fits in an `Int` (`ListPageBeyondEnd`, `SearchBeyondEnd`); after overflow it may still be false, as for an empty index (`IndexPageEmptyIndexWrapped`).

## Model

| member | source | states |
|---|---|---|
| Entity.WithTags | src/main/kotlin/starry/memebrowser/entity/Meme.kt:6-16 | the copy's tag set is exactly the old tags together with the new ones, so it is a superset of the old set; `id`, `title`, `imageUrl`, `originalText`, `recognizedText`, `content` and `createdAt` are unchanged |
| Entity.WithTagsIdempotent | src/main/kotlin/starry/memebrowser/entity/Meme.kt:16 | adding the same tags twice gives the same meme as adding them once |
| Entity.WithTagsPresent | src/main/kotlin/starry/memebrowser/entity/Meme.kt:13-16 | adding a tag the meme already has returns an equal meme, because the tags form a set |
| Entity.WithTagsTwice | src/main/kotlin/starry/memebrowser/entity/Meme.kt:16 | two `tags(...)` calls in a row equal one call with both argument lists |
| Int32Arith.Wrap | src/main/kotlin/starry/memebrowser/service/MemeService.kt:42-43 | the `Int` kept of a result is congruent to it modulo 2^32, and equals it when it is in range |
| Int32Arith.WrapUnique | src/main/kotlin/starry/memebrowser/service/MemeService.kt:42-43 | values congruent modulo 2^32 wrap to the same `Int` |
| Int32Arith.Add | src/main/kotlin/starry/memebrowser/service/MemeService.kt:43 | Kotlin `a + b` on `Int` is congruent to the sum modulo 2^32, and is the sum when that fits |
| Int32Arith.Sub | src/main/kotlin/starry/memebrowser/service/MemeService.kt:42 | Kotlin `a - b` on `Int` is congruent to the difference modulo 2^32, and is the difference when that fits |
| Int32Arith.Mul | src/main/kotlin/starry/memebrowser/service/MemeService.kt:42 | Kotlin `a * b` on `Int` is congruent to the product modulo 2^32, and is the product when that fits |
| IntText.IntToString | src/main/kotlin/starry/memebrowser/service/MemeService.kt:27 | the text of `"$id"` starts with `-` exactly for negative ids; the remaining characters are decimal digits that denote the absolute value, with no leading zero; 0 prints as `0` |
| IntText.IntToStringInjective | src/main/kotlin/starry/memebrowser/service/MemeService.kt:27 | distinct ids have distinct texts |
| IntText.ParseInt | src/main/kotlin/starry/memebrowser/service/MemeService.kt:23 | `toIntOrNull` gives a value exactly when the text is an optional `-` or `+` followed by one or more decimal digits whose signed value fits in an `Int`; the value is that signed value, leading zeros allowed |
| IntText.ParseIntToString | src/main/kotlin/starry/memebrowser/service/MemeService.kt:23-27 | `toIntOrNull` of the text of any `Int` gives that `Int` back |
| IntText.ParseIntExamples | src/main/kotlin/starry/memebrowser/service/MemeService.kt:23 | `"1"`, `"01"` and `"+1"` parse to 1, `"-3"` to -3 and `"-0"` to 0 |
| IntText.ParseIntRejects | src/main/kotlin/starry/memebrowser/service/MemeService.kt:23 | the empty text, a lone sign, trailing or leading junk and `"1.json"` give null |
| IntText.ParseIntOutOfRange | src/main/kotlin/starry/memebrowser/service/MemeService.kt:23 | the text of a number outside the `Int` range gives null |
| Sequences.Insert | src/main/kotlin/starry/memebrowser/service/MemeService.kt:24 | inserting into a sorted list keeps it sorted and adds exactly that one element |
| Sequences.SortAscending | src/main/kotlin/starry/memebrowser/service/MemeService.kt:24 | `sorted()` returns an ascending permutation of its input |
| Sequences.SortedUnique | src/main/kotlin/starry/memebrowser/service/MemeService.kt:24 | two ascending lists with the same elements are equal, so `sorted()` has only one possible result |
| Sequences.Drop | src/main/kotlin/starry/memebrowser/service/MemeService.kt:45 | `drop(n)` for `n >= 0` is the suffix from position `n`, or empty past the end |
| Sequences.Take | src/main/kotlin/starry/memebrowser/service/MemeService.kt:45 | `take(n)` for `n >= 0` is the prefix of length `n`, or the whole list |
| Sequences.DropTake | src/main/kotlin/starry/memebrowser/service/MemeService.kt:45 | `drop(n).take(k)` is the slice from `n` to `n + k`, cut off at the end |
| Sequences.ClosedWindow | src/main/kotlin/starry/memebrowser/service/MemeService.kt:74 | the elements at positions in `lo..hi`, both ends included, form one contiguous slice; it starts at `max(lo, 0)` (cut off at the end of the list) and runs to `hi` or to the end of the list |
| Sequences.ClosedWindowStep | src/main/kotlin/starry/memebrowser/service/MemeService.kt:72-76 | one more element grows the window by that element exactly when its position is in `lo..hi` |
| MemeIndex.LastDot | src/main/kotlin/starry/memebrowser/service/MemeService.kt:23 | finds the last `.` of a name, or reports that there is none |
| MemeIndex.NameWithoutExtension | src/main/kotlin/starry/memebrowser/service/MemeService.kt:23 | `nameWithoutExtension` is the prefix of the name before its last dot, or the whole name when it has no dot |
| MemeIndex.RecordNameStem | src/main/kotlin/starry/memebrowser/service/MemeService.kt:22-23 | for a name ending in `.json`, the name without extension is the name with `.json` removed |
| MemeIndex.EntryId | src/main/kotlin/starry/memebrowser/service/MemeService.kt:22-23 | an entry yields an id only if it ends in `.json`, and the id is `toIntOrNull` of its stem |
| MemeIndex.EntryIdOfRecordName | src/main/kotlin/starry/memebrowser/service/MemeService.kt:22-23 | a stem followed by `.json` yields exactly what `toIntOrNull` makes of the stem |
| MemeIndex.ListedIds | src/main/kotlin/starry/memebrowser/service/MemeService.kt:21-23 | `filter` then `mapNotNull` yields at most one id per entry |
| MemeIndex.ListedIdsMembers | src/main/kotlin/starry/memebrowser/service/MemeService.kt:21-23 | an id is listed if and only if some entry yields it |
| MemeIndex.ListedIdsAppend | src/main/kotlin/starry/memebrowser/service/MemeService.kt:21-23 | the ids of two listings put together are the ids of each, in order |
| MemeIndex.ListedIdsPermutation | src/main/kotlin/starry/memebrowser/service/MemeService.kt:21-23 | reordering the directory listing only reorders the listed ids |
| MemeIndex.MemeIndices | src/main/kotlin/starry/memebrowser/service/MemeService.kt:21-24 | the index is ascending and holds the listed ids with their multiplicities |
| MemeIndex.MemeIndicesMembers | src/main/kotlin/starry/memebrowser/service/MemeService.kt:21-24 | an id is in the index if and only if some `.json` entry's stem parses to it; every id is an `Int` |
| MemeIndex.MemeIndicesIgnoreListingOrder | src/main/kotlin/starry/memebrowser/service/MemeService.kt:21-24 | the index does not depend on the order in which `listFiles` returns the entries |
| MemeIndex.MemeIndicesOfListed | src/main/kotlin/starry/memebrowser/service/MemeService.kt:21-24 | any ascending arrangement of the listed ids is the index |
| MemeIndex.MemeIndicesKeepDuplicates | src/main/kotlin/starry/memebrowser/service/MemeService.kt:21-24 | `01.json` and `1.json` give the index `[1, 1]` |
| MemeIndex.MemeIndicesFilterAndSort | src/main/kotlin/starry/memebrowser/service/MemeService.kt:21-24 | `5.json`, `notes.txt`, `-3.json` and `1.2.json` give the index `[-3, 5]` |
| MemeLoader.RecordFileName | src/main/kotlin/starry/memebrowser/service/MemeService.kt:27 | the file opened for `id` ends in `.json`, and its stem is the text of `id` |
| MemeLoader.RecordFileNameIndexed | src/main/kotlin/starry/memebrowser/service/MemeService.kt:21-27 | the file `getMeme(id)` opens is listed in the index under that same id |
| MemeLoader.ListedNameNotReadBack | src/main/kotlin/starry/memebrowser/service/MemeService.kt:21-27 | `01.json` is listed as id 1, but loading id 1 opens `1.json` |
| MemeLoader.SyntheticTag | src/main/kotlin/starry/memebrowser/service/MemeService.kt:29 | `"$$id"` is a dollar sign followed by the text of the id |
| MemeLoader.SyntheticTagInjective | src/main/kotlin/starry/memebrowser/service/MemeService.kt:29 | distinct ids get distinct synthetic tags |
| MemeLoader.GetMeme | src/main/kotlin/starry/memebrowser/service/MemeService.kt:27-29 | succeeds exactly when the record file reads and decodes; then the tags are the decoded tags plus `"$" + id`, and every other field, `id` included, is the decoded value |
| MemeLoader.LoadedMemes | src/main/kotlin/starry/memebrowser/service/MemeService.kt:32-39 | the best-effort load of a list of ids has at most one meme per id |
| MemeLoader.LoadedMemesMembers | src/main/kotlin/starry/memebrowser/service/MemeService.kt:32-39 | a meme is loaded if and only if loading some id of the list yields it |
| MemeLoader.LoadedMemesAppend | src/main/kotlin/starry/memebrowser/service/MemeService.kt:32-39 | loading two id lists one after the other gives the two results in that order |
| MemeLoader.LoadedMemesSplit | src/main/kotlin/starry/memebrowser/service/MemeService.kt:32-39 | loading a prefix split in two gives the loads of the two parts in order |
| MemeLoader.LoadedMemesAllSucceed | src/main/kotlin/starry/memebrowser/service/MemeService.kt:32-39 | when no load fails, nothing is skipped: the i-th result is the load of the i-th id |
| MemeLoader.LoadedMemesTagged | src/main/kotlin/starry/memebrowser/service/MemeService.kt:29-39 | every loaded meme carries the synthetic tag of an id it was asked for |
| MemeLoader.GetMemes | src/main/kotlin/starry/memebrowser/service/MemeService.kt:32-39 | the loop yields exactly the best-effort load of the ids, in order, skipping each id whose load throws |
| MemeSearch.PageStart | src/main/kotlin/starry/memebrowser/service/MemeService.kt:42 | for every page, `start` is `(page - 1) * limit` wrapped to an `Int` |
| MemeSearch.StartProduct | src/main/kotlin/starry/memebrowser/service/MemeService.kt:42 | `(page - 1) * limit` computed on `Int` is the wrapped mathematical product, also when `page - 1` itself wraps at `Int.MIN_VALUE` |
| MemeSearch.PageEnd | src/main/kotlin/starry/memebrowser/service/MemeService.kt:43 | `end` is `start + limit` wrapped to an `Int`, and exactly `start + limit` when that fits |
| MemeSearch.PageBoundsExact | src/main/kotlin/starry/memebrowser/service/MemeService.kt:42-43 | when `page * limit` fits in an `Int`, `start = (page - 1) * limit >= 0` and `end = page * limit` |
| MemeSearch.PageStartWraps | src/main/kotlin/starry/memebrowser/service/MemeService.kt:42-43 | page 65537 with limit 65536 wraps to start 0 and end 65536 |
| MemeSearch.PageStartNegative | src/main/kotlin/starry/memebrowser/service/MemeService.kt:42 | page 3 with limit 2^30 wraps to the start `Int.MIN_VALUE` |
| MemeSearch.IndexPage | src/main/kotlin/starry/memebrowser/service/MemeService.kt:41-53 | over a given index: throws exactly when the start is negative (for example page 0 with a positive limit, or a product that wraps below zero; page -65535 with limit 65536 wraps to start 0 and returns page 1) or the limit is negative; otherwise `data` is the best-effort load of `drop(start).take(limit)`, `total` is the index size, `page` and `limit` are echoed, `hasMore` is `end < total`, and `data` has at most `limit` records |
| MemeSearch.ListPage | src/main/kotlin/starry/memebrowser/service/MemeService.kt:41-53 | the same facts as `IndexPage`, over the index of the directory listing |
| MemeSearch.IndexPageWindow | src/main/kotlin/starry/memebrowser/service/MemeService.kt:45 | a page loads exactly the index positions from `start` to `start + limit`, cut off at the end |
| MemeSearch.ListPageBeyondEnd | src/main/kotlin/starry/memebrowser/service/MemeService.kt:41-53 | when `page * limit` fits in an `Int`, a page starting at or past the end of the index has empty `data`, `hasMore` false and `total` the index size |
| MemeSearch.ListPageTwoByTwo | src/main/kotlin/starry/memebrowser/service/MemeService.kt:41-53 | over the index `[1, 2, 3, 5]` with limit 2, page 1 loads ids 1 and 2 with more to come, and page 2 loads ids 3 and 5 with none; both report total 4 |
| MemeSearch.ListPageHugePageRepeatsFirst | src/main/kotlin/starry/memebrowser/service/MemeService.kt:42-51 | page 65537 with limit 65536 returns the data and `hasMore` of page 1 |
| MemeSearch.IndexPageEmptyClaimsMore | src/main/kotlin/starry/memebrowser/service/MemeService.kt:42-51 | over a three-record index, page 2 of size 2^30 has empty `data` yet `hasMore` true, because `end` wraps to `Int.MIN_VALUE` |
| MemeSearch.ListPageEmptyClaimsMore | src/main/kotlin/starry/memebrowser/service/MemeService.kt:41-53 | the same empty page with `hasMore` true for a directory whose index is `[1, 2, 3]` |
| MemeSearch.IndexPageNegativeWraps | src/main/kotlin/starry/memebrowser/service/MemeService.kt:42-45 | page -65535 with limit 65536 wraps to start 0, succeeds and returns the data of page 1 |
| MemeSearch.IndexPageEmptyIndexWrapped | src/main/kotlin/starry/memebrowser/service/MemeService.kt:42-51 | over an empty index, page 65537 with limit 65536 overflows yet reports empty data, total 0 and `hasMore` false |
| MemeSearch.ListPageThrows | src/main/kotlin/starry/memebrowser/service/MemeService.kt:42-45 | page 3 with limit 2^30 throws in `drop` |
| MemeSearch.ListPageOutsideGuards | src/main/kotlin/starry/memebrowser/service/MemeService.kt:42-45 | page 0 with a positive limit, or limit -1, throws; the `/memes` route rejects both beforehand |
| MemeSearch.PagesDataStep | src/main/kotlin/starry/memebrowser/service/MemeService.kt:41-45 | page `k` adds the loads of index positions `(k - 1) * limit` to `k * limit`, cut off at the end |
| MemeSearch.ListPagesCover | src/main/kotlin/starry/memebrowser/service/MemeService.kt:41-45 | pages 1 to `k` together yield the loads of the first `k * limit` index positions, each once, in index order |
| MemeSearch.ListPagesCoverAll | src/main/kotlin/starry/memebrowser/service/MemeService.kt:41-45 | once `k * limit` reaches the index size, pages 1 to `k` together yield every loadable record once, in ascending id order |
| MemeSearch.TagFilter | src/main/kotlin/starry/memebrowser/service/MemeService.kt:64 | a meme passes the tag criteria exactly when its tags include `tag`, if given, and every element of `tags` |
| MemeSearch.TextFilter | src/main/kotlin/starry/memebrowser/service/MemeService.kt:66 | a meme passes the text criterion exactly when there is no query or `FuzzySearch.ratio(query, title) > 0.95` on the `Double` scale |
| MemeSearch.ThresholdOnIntegers | src/main/kotlin/starry/memebrowser/service/MemeService.kt:66 | an `Int` ratio exceeds 0.95 if and only if it is at least 1 |
| MemeSearch.FilterByTags | src/main/kotlin/starry/memebrowser/service/MemeService.kt:63-64 | the tag filter never yields more memes than it is given |
| MemeSearch.FilterByTagsMembers | src/main/kotlin/starry/memebrowser/service/MemeService.kt:63-64 | keeps exactly the memes that have `tag` when `tag` is given and have every element of `tags` |
| MemeSearch.FilterByText | src/main/kotlin/starry/memebrowser/service/MemeService.kt:65-66 | the text filter never yields more memes than it is given |
| MemeSearch.FilterByTextMembers | src/main/kotlin/starry/memebrowser/service/MemeService.kt:65-66 | keeps exactly the memes that pass the text criterion |
| MemeSearch.FilterByTagsAppend | src/main/kotlin/starry/memebrowser/service/MemeService.kt:63-64 | the tag filter keeps the order of the records |
| MemeSearch.FilterByTextAppend | src/main/kotlin/starry/memebrowser/service/MemeService.kt:65-66 | the text filter keeps the order of the records |
| MemeSearch.FilterByTagsWithoutCriteria | src/main/kotlin/starry/memebrowser/service/MemeService.kt:64 | with no `tag` and an empty `tags` list every record passes |
| MemeSearch.FilterByTextWithoutQuery | src/main/kotlin/starry/memebrowser/service/MemeService.kt:66 | with no `query` every record passes |
| MemeSearch.SearchPopulation | src/main/kotlin/starry/memebrowser/service/MemeService.kt:62-67 | the filtered population holds exactly the loaded records that pass both filters, and is no longer than the index |
| MemeSearch.SearchMemes | src/main/kotlin/starry/memebrowser/service/MemeService.kt:55-85 | `data` is the closed window `start..end` of the filtered population and every record in it passes both filters; `total` is the filtered count; `page` and `limit` are echoed; `hasMore` is `end < total`; for `limit >= 0`, at most `limit + 1` records |
| MemeSearch.CollectWindow | src/main/kotlin/starry/memebrowser/service/MemeService.kt:70-77 | the counting loop ends with `size` equal to the population size and `result` equal to the records at positions `start..end` |
| MemeSearch.SearchPageBound | src/main/kotlin/starry/memebrowser/service/MemeService.kt:68-77 | for `limit >= 0` a search page never holds more than `limit + 1` records, overflow included |
| MemeSearch.SearchPageHoldsLimitPlusOne | src/main/kotlin/starry/memebrowser/service/MemeService.kt:68-77 | when the population extends past `page * limit`, the page holds `limit + 1` records: positions `(page - 1) * limit` to `page * limit` |
| MemeSearch.SearchPageStartsAt | src/main/kotlin/starry/memebrowser/service/MemeService.kt:68-77 | a page that starts inside the population begins with the record at position `(page - 1) * limit` |
| MemeSearch.SearchPagesOverlap | src/main/kotlin/starry/memebrowser/service/MemeService.kt:68-77 | when page `p` is full, that is `p * limit` is a position inside the population (and `(p + 1) * limit` fits in an `Int`), the last record of page `p` is the first record of page `p + 1` |
| MemeSearch.SearchBeyondEnd | src/main/kotlin/starry/memebrowser/service/MemeService.kt:68-84 | when `page * limit` fits in an `Int`, a page starting at or past the end of the filtered population is empty, and `hasMore` is false |
| MemeSearch.SearchEmptyPageClaimsMore | src/main/kotlin/starry/memebrowser/service/MemeService.kt:68-83 | over three records, search page 2 of size 2^30 is empty yet `hasMore` is true, because `end` wraps to `Int.MIN_VALUE` |

## Left out

- Filesystem I/O is not modelled: the directories created with `mkdirs`, `listFiles`, and `inputStream`. The listing is an input sequence of names, and a `null` from `listFiles` is not modelled. The image directory and image serving are also left out.
- JSON decoding (`Json.decodeFromStream`) is a foreign library. It is folded into the `Reader` parameter. Any exception in opening or decoding is `None`, which is what the `catch (_: Throwable)` of `getMemes(range)` sees.
- `FuzzySearch.ratio` is a foreign library. It is the `Ratio` parameter, and its similarity algorithm is not modelled.
- The lazy `sequence { yield }` of `getMemes(range)` is modelled as an eager loop. Its only observable effect is the list it produces.
- The HTTP controller is not part of the model. Its `page >= 1` and `limit >= 1` guards for `/memes` only appear in `ListPageOutsideGuards` and in the requirements of the paging lemmas. Neither modelled operation requires them.
- IntText.ParseInt: accepts ASCII digits only. Kotlin's `toIntOrNull` also accepts other Unicode decimal digits, and no Unicode character tables are modelled.
- SearchMemes: the `size` counter is an unbounded `nat`, so a population of 2^31 or more records, where the `Int` would wrap, is not modelled.
- MemeSearch.PageBoundsExact, ListPageBeyondEnd, PagesDataStep, ListPagesCover, ListPagesCoverAll, SearchPageHoldsLimitPlusOne, SearchPageStartsAt, SearchPagesOverlap and SearchBeyondEnd assume the page arithmetic does not overflow. Overflow is covered only by the concrete lemmas `PageStartWraps`, `PageStartNegative`, `ListPageHugePageRepeatsFirst`, `ListPageThrows`, `IndexPageEmptyClaimsMore`, `ListPageEmptyClaimsMore` and `SearchEmptyPageClaimsMore`, and by `SearchPageBound`, which allows overflow.
- Store-level failures, such as an unreadable directory, are not modelled. They propagate as exceptions out of both operations.
