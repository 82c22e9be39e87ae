# brickbr price matching, in Dafny

`brickbr.py` compares LEGO set prices in two places:

- **LEGO Brasil listings (BRL).** `update_prices` walks the store's product sitemap. For every listing that yields a `SetPrice`, it stores the record in `brl_map` under its set number.
- **Brickset (USD).** For each such set it builds that set's Brickset page URL. It scrapes the US RRP from the page, picking the dollar alternative among the `' / '`-separated prices, and stores it in `usd_map`.

`generate_output` then inner-joins the two maps on the set number. For every set in both maps it computes the price ratio BRL / USD, quantized to 0.01 with `decimal`'s default half-even rounding. It builds a CSV row and a template item, and sorts both lists by ratio with Python's stable sort.

This project models that in-memory pipeline and proves what it promises.

- **`Dicts`**: a Python `dict` with string keys. It is a map plus the insertion order that `items()` follows. Re-assigning a key replaces the value but keeps the key's place; a new key goes last.
- **`Decimals`**: exact fixed-point arithmetic. Prices are whole cents (`nat`), and a ratio is a whole number of hundredths. `RoundHalfEven` is ROUND_HALF_EVEN on the exact quotient.
- **`Strings`**: `str.split` with a non-empty separator. It is specified by the join-back property.
- **`Brickset`**: three pieces:
  - the `SetPrice(set, price, name, date, url)` record (the field `set` is called `setNumber`, since `set` is a Dafny keyword);
  - the Brickset URL `https://brickset.com/sets/{set}-1/`;
  - the choice of the USD alternative, and the record a scraped Brickset page yields.
- **`Collector`**: the loop of `update_prices`.
  - Each sitemap entry is a `Visit`. A visit holds what the listing scrape ended with and what the Brickset scrape ended with: a value, a caught exception, or a keyboard interrupt.
  - `Collect` is the functional specification. `UpdatePrices` is the loop itself, proved equal to it.
  - The maps are `Dict<SetPrice>` values that the loop reassigns.
- **`Sorting`**: the stable sort.
  - `SortBy` is a functional insertion sort that inserts after equal keys. It is proved sorted, a permutation and stable, and to be the *only* sorted list that keeps each key's elements in input order.
  - `SortInPlace` is an in-place insertion sort on an `array`, proved to leave `SortBy` of its input in the array.
- **`Reporter`**: the join, ratio, row construction and sorting of `generate_output`.
  - `Join` and `Report` are the functional specification.
  - `JoinLists`, `SortLists` and `GenerateOutput` are the loops and in-place sorts, proved equal to it.

A USD price of zero makes `decimal` raise in the source, which aborts the report. The model does not require it away. The report is a `Result`, and that case is `Failure(ZeroUsdPrice(set))`.

Three behaviours of the code are easy to miss:

- **Item name.** The template item's `name` is the USD record's name alone (`brickbr.py:96`).
- **Brickset failures keep the BRL record.** `brl_map[...] = ...` runs before the Brickset request. So when the Brickset side raises, the BRL record is already stored, and the set's URL was requested (`brickbr.py:63-65`).
- **Ties in ratio.** Rows with equal ratios keep the order the stable sort leaves them in, which is `brl_map` iteration order (`brickbr.py:89`, `99-100`).

## Model

| member | source | states |
|---|---|---|
| Dicts.Empty | brickbr.py:53-54 | `{}` holds no key and has an empty iteration order |
| Dicts.Get | brickbr.py:91 | `d.get(k, None)`; no contract; the lemmas about the maps are stated through it |
| Dicts.Insert | brickbr.py:63 | after `d[k] = v`, `k` maps to `v` and every other key keeps its value; an existing key keeps its place in iteration order and a new key is appended |
| Decimals.RoundHalfEven | brickbr.py:94 | the result `q` makes `q * d` a multiple of `d` nearest to `n` (within `d / 2`), and `q` is even when `n` lies exactly half-way |
| Decimals.RoundHalfEvenUnique | brickbr.py:94 | any `k` that is nearest and even on a tie equals `RoundHalfEven(n, d)`, so the contract above determines the rounding completely |
| Decimals.Ratio | brickbr.py:94 | the ratio in hundredths is the nearest whole number of hundredths to BRL / USD, with ties going to the even one |
| Decimals.RatioExamples | brickbr.py:94 | 799.99 / 169.99 quantizes to 4.71, and 55.00 / 10.00 to 5.50 |
| Strings.FindFrom | brickbr.py:28 | finds the leftmost occurrence of the separator at or after a position, or reports that there is none |
| Strings.Split | brickbr.py:28 | the pieces of `s.split(sep)` joined back with `sep` give `s`; there is at least one piece; no piece contains `sep`; every cut is at the leftmost occurrence after the previous cut |
| Strings.SplitUnique | brickbr.py:28 | any pieces that join back to `s` with every cut at the leftmost occurrence after the previous one are `Split(s, sep)`, so the contract above determines the split |
| Brickset.SetPrice | brickbr.py:17 | the record type `SetPrice(set, price, name, date, url)`, with the price in whole cents; no contract |
| Brickset.SetUrl | brickbr.py:64 | the Brickset URL is `https://brickset.com/sets/`, then the set number, then `-1/` |
| Brickset.SetUrlRoundTrip | brickbr.py:64 | the set number can be read back from the URL, and only URLs built this way yield one |
| Brickset.SetUrlInjective | brickbr.py:64 | distinct set numbers are looked up at distinct URLs |
| Brickset.DollarParts | brickbr.py:28 | the comprehension keeps only pieces of the RRP text that contain `'$'` |
| Brickset.DollarPartsFirst | brickbr.py:28-29 | the comprehension is empty exactly when no piece contains `'$'`; otherwise its first element is the first piece that does |
| Brickset.SelectUsdIsFirstDollarPiece | brickbr.py:28-31 | the chosen alternative is the first `' / '`-separated piece that contains `'$'`, and it contains no `' / '`; there is no choice exactly when no piece contains `'$'` |
| Brickset.SelectUsd | brickbr.py:28-31 | no contract; specified by `Brickset.SelectUsdIsFirstDollarPiece` |
| Brickset.PageRecord | brickbr.py:27-32 | a Brickset page yields a record exactly when it has an RRP tag with a dollar alternative; the record carries the set number asked for, the URL requested, the page's name and observation time, and the parsed dollar amount |
| Collector.Start | brickbr.py:53-54 | the loop starts with both maps empty and nothing requested |
| Collector.Step | brickbr.py:57-72 | one pass of the loop body; no contract; specified by `Collector.StepEffect`, `Collector.StepInterrupt` and `Collector.StepConsistent` |
| Collector.Collect | brickbr.py:56-72 | the loop over all entries, stopping at the first interrupt; no contract; specified by `Collector.CollectIsLastWrite`, `Collector.CollectConsistent` and `Collector.InterruptedStays` |
| Collector.StepEffect | brickbr.py:57-72 | one pass sets the BRL entry of the listed set, and that set's USD entry when the Brickset page yields a record; it appends that set's Brickset URL to the request log; every other entry is left alone |
| Collector.ListingKeepsConsistent | brickbr.py:62-65 | storing a BRL record under its set and requesting that set's Brickset page keeps the collector's invariant |
| Collector.ReferenceKeepsConsistent | brickbr.py:66-67 | storing the USD record of a set already listed keeps the invariant |
| Collector.StepConsistent | brickbr.py:57-72 | every pass keeps the invariant |
| Collector.CollectConsistent | brickbr.py:56-72 | after any run, every record is stored under its own set number; a USD record exists only for a set with a BRL record and carries that set's Brickset URL; the Brickset URLs requested are exactly those of the sets in the BRL map |
| Collector.CollectIsLastWrite | brickbr.py:56-67 | in a run that was not interrupted, each set's BRL and USD entries are those of the last visit that produced one (last write wins), and a Brickset page is requested once per BRL record found, in order, and never otherwise |
| Collector.FailedListingChangesNothing | brickbr.py:60-72 | a listing that raises or yields no record leaves both maps and the request log as they were, and the loop goes on |
| Collector.ReferenceFailureKeepsListing | brickbr.py:62-72 | when the Brickset side raises or yields no record, the BRL record just stored stays, every other BRL entry and the whole USD map are unchanged, and the loop goes on |
| Collector.StepInterrupt | brickbr.py:57-70 | only a keyboard interrupt breaks the loop off; it keeps what was gathered, including a BRL record stored just before an interrupted Brickset request |
| Collector.InterruptedStays | brickbr.py:69-70 | after the first interrupt, later entries change nothing |
| Collector.CollectNext | brickbr.py:56-72 | from a state that was not interrupted, the next entry is one more pass of the loop body |
| Collector.UpdatePrices | brickbr.py:53-72 | the loop, with its early `break`, ends with exactly the maps and request log that `Collect` describes |
| Sorting.InsertByPermutes | brickbr.py:99-100 | inserting an element adds exactly that element |
| Sorting.InsertBySorted | brickbr.py:99-100 | inserting into a sorted list keeps it sorted |
| Sorting.SortBy | brickbr.py:99-100 | the sorted list is a permutation of the input and non-decreasing in the key |
| Sorting.SortByStable | brickbr.py:99-100 | for every key value, the elements carrying it appear in the same order as in the input (stability) |
| Sorting.StableSortUnique | brickbr.py:99-100 | two lists sorted by key that list each key's elements in the same order are equal, so a stable sort has exactly one possible result |
| Sorting.SortByMap | brickbr.py:95-100 | sorting the mapped list by the mapped key gives the mapped sorted list, so two parallel lists sorted by the same ratio stay parallel |
| Sorting.InsertInPlace | brickbr.py:99-100 | shifting the larger elements of the sorted prefix right and dropping the new element in leaves the prefix equal to `InsertBy`, and the rest of the array unchanged |
| Sorting.SortInPlace | brickbr.py:99-100 | `lst.sort(key=...)` in place leaves `SortBy` of the original contents in the array |
| Reporter.ToItem | brickbr.py:96-97 | the template item built from a CSV row: the same name, prices, ratio and BRL URL; no contract |
| Reporter.MakeRow | brickbr.py:94-95 | the CSV row of one set; no contract; specified by `Reporter.ReportRowsFromRecords` |
| Reporter.JoinKeys | brickbr.py:89-97 | the join loop over the first keys of the BRL map; no contract; specified by `Reporter.JoinKeysRows` and `Reporter.JoinKeysFailure` |
| Reporter.Join | brickbr.py:89-97 | the join over the whole BRL map; no contract; specified by `Reporter.JoinIsInnerJoin` and `Reporter.JoinFollowsBrlOrder` |
| Reporter.Report | brickbr.py:87-100 | the join followed by the two sorts; no contract; specified by `Reporter.ReportSortedPermutation`, `Reporter.ReportIsStableSort`, `Reporter.ReportRowsFromRecords` and `Reporter.ReportTiesInBrlOrder` |
| Reporter.JoinKeysRows | brickbr.py:89-97 | each joined row belongs to a set with both records and a positive USD price, and is built from exactly those records; the rows' sets are the BRL keys, in order, that have a USD record |
| Reporter.JoinKeysFailure | brickbr.py:91-94 | the join fails exactly when a visited set has a USD price of zero, and the error names such a set |
| Reporter.JoinIsInnerJoin | brickbr.py:89-95 | a row is emitted for a set exactly when the set is a key of both maps, at most one row per set; sets only in the USD map are never visited; the report fails exactly when a set in both maps has a USD price of zero |
| Reporter.JoinFollowsBrlOrder | brickbr.py:89-95 | the joined rows come in BRL iteration order |
| Reporter.ReportSortedPermutation | brickbr.py:95-100 | both outputs are sorted by ratio and are permutations of the joined rows and items; they have the same length, and the item at each position carries the CSV row at that position; rows sharing a ratio keep their join order |
| Reporter.ReportIsStableSort | brickbr.py:99 | the CSV output is the only list sorted by ratio that keeps each ratio's rows in join order |
| Reporter.ReportRowsFromRecords | brickbr.py:94-97 | every reported row has the set's name and USD price from the USD record, and the BRL price and URL from the BRL record; its ratio is BRL / USD rounded half-even to 0.01 |
| Reporter.ReportTiesInBrlOrder | brickbr.py:89-100 | two reported rows with the same ratio appear in the order their sets have in the BRL map |
| Reporter.ReportOneRow | brickbr.py:99-100 | a single joined row is reported unchanged in both outputs |
| Reporter.JoinExample | brickbr.py:89-97 | BRL map {75192, 10497} with USD map {75192} joins to the single row for 75192 with ratio 4.71 |
| Reporter.ReportExample | brickbr.py:87-100 | 75192 at R$ 799.99 and US$ 169.99 plus a BRL-only 10497 report exactly one row and one item, for 75192, with ratio 4.71 |
| Reporter.JoinLists | brickbr.py:87-97 | the join loop, with its exit on a zero USD price, builds exactly the joined rows and the matching items, or fails with the join's error |
| Reporter.SortLists | brickbr.py:99-100 | the two in-place sorts leave the stable sorts by ratio of both lists |
| Reporter.GenerateOutput | brickbr.py:87-100 | the join loop followed by the two sorts produces exactly `Report`, the sorted CSV rows and template items |

## Left out

- HTTP requests and the global `requests_cache` are not modelled (`brickbr.py:15`, 21, 36, 49). They are network I/O.
- The HTML scraping with BeautifulSoup is not modelled (`brickbr.py:22-26`, 37-45, 50-51, 58).
  - What a listing scrape ends with becomes the `listing` part of a `Visit`: a record, none, an exception, or an interrupt.
  - What a Brickset scrape ends with becomes its `reference` part: the RRP tag's text if the tag exists, the page title, and the observation time. It may also be an exception or an interrupt.
  - A missing `RRP` `dt` tag, or a `dd` tag without a single string, raises in the source. Both are `Raised` in the model.
- `price_parser.Price.fromstring` is a foreign library. It becomes the `amount` parameter, a function from the chosen text to whole cents. It may also return `None` or a negative amount; the model does not represent either.
- JSON persistence is file I/O and is not modelled (`brickbr.py:73-76`, 82-85). The report works directly on the maps the collector built.
- Decimals.Ratio: rounds the exact quotient of the cent amounts once. In the source, `simplejson` reads prices back as binary floats before `decimal.Decimal` sees them, and the division first rounds to the 28 significant digits of the default context. These can differ from the exact result on inputs whose quotient falls within that error of a half-hundredth.
- CSV writing and Jinja rendering are not modelled (`brickbr.py:102-109`). The model stops at the two sorted lists handed to them.
- Timestamps from `datetime.utcnow()` become the `observedAt` / `date` fields given as input. `print` and `traceback` output is not modelled.
- Collector.UpdatePrices: a keyboard interrupt is modelled only where the source spends its time, during the listing scrape or the Brickset scrape of an entry. An interrupt anywhere else in the loop body is not distinguished.
- Sorting.SortInPlace: sorts with insertion sort, not CPython's Timsort. Both are stable sorts, and `StableSortUnique` shows that the result of any stable sort by ratio is the same list.
