# tonnon-kahvi price ledger in Dafny

tonnon-kahvi scrapes filter-coffee prices from two Finnish grocery chains and
keeps every price a product has had in one PostgreSQL table,
`products_and_prices`. The table is a slowly changing dimension:

- each row is one version of a product from one data source;
- `tonno_load_ts` is when the version became current;
- `tonno_end_ts` is when it stopped being current, and is NULL while it still is.

This project models the three parts of the system that read or write that
ledger:

- **K-ruoka fetcher** (`kruoka.dfy`, with `canonical.dfy` for the row hash).
  - It extracts products from the product-search answer and does the initial
    bulk insert.
  - Its hash-based update runs three steps: close the changed rows, close the
    disappeared rows, insert new and changed rows. The update is an imperative
    method over a `Table` object and is proved equal to a specification
    function `Update`.
- **S-Ryhma fetcher** (`sryhma.dfy`).
  - Extraction, including the `int(price) / int(comparisonPrice)` net weight
    and its two failure modes.
  - The initial insert.
  - The hashless update: it closes every current row and re-inserts everything.
- **Price history API** (`history.dfy`).
  - `get_price_history`, the gaps-and-islands query: LAG, a running SUM into
    `price_group`, then GROUP BY with ARRAY_AGG, MIN and MAX. It is modelled
    as maximal runs of rows with an equal `(normal_price, batch_price)` pair.
    A proof shows that grouping by `price_group` yields exactly those runs.
  - `list_products`, the dropdown filter.

The shared modules:

- `ledger.dfy`: the row type and the table; UPDATE … WHERE with its rowcount; and INSERT … ON CONFLICT DO NOTHING on the unique index `(id, tonno_load_ts)`.
- `sorting.dfy`: ORDER BY as a stable insertion sort.
- `wrappers.dfy`: `Option` and `Result`.

Outside inputs become parameters:

- the HTTP answer: `None` stands for a non-200 status;
- the clock: `update_ts`, and `now(i)` for the i-th record of the initial insert;
- SHA-256 and Python's `str()` of a float: the function values in `Canonical.Env`.

Every property is therefore proved for any hash function and any clock.

Behaviours of the code worth knowing:

- History intervals are grouped on the raw `(normal_price, batch_price)` pair, not on the effective price.
- An empty or missing snapshot leaves the table alone. It does not mark every product as disappeared.
- The K-ruoka `inserted` count includes changed ids as well as new ones.
- `valid_to` is MAX of the group's end times, not the end time of the last row.
- The hash separator `||` is not escaped, so a field value containing `||` can make two different products share a hash input.
- The S-Ryhma update filters on no data source, so it closes the current rows of every source.
- The S-Ryhma initial insert tags its rows `S-ryhma`. The existence check looks for `S-Ryhma`.

## Model

| member | source | states |
|---|---|---|
| Ledger.CloseWhere | fetcher/fetchers/kesko_fetcher.py:273-296 | UPDATE … SET tonno_end_ts: the table keeps its length; a row is closed at the timestamp exactly when the WHERE clause selects it, and every other row is unchanged |
| Ledger.CountWhere | fetcher/fetchers/kesko_fetcher.py:283-284 | the rowcount is at most the table size |
| Ledger.CountWhereExtremes | fetcher/fetchers/kesko_fetcher.py:283-284 | the rowcount is 0 iff no row matches and equals the table size iff every row matches |
| Ledger.CloseRows | fetcher/fetchers/kesko_fetcher.py:283-296 | the UPDATE run row by row leaves the table CloseWhere gives and returns its rowcount |
| Ledger.InsertOnConflictDoNothing | fetcher/fetchers/kesko_fetcher.py:135-145 | the bulk insert keeps every existing row in place and adds at most one row per record |
| Ledger.InsertOnConflictFacts | fetcher/fetchers/kesko_fetcher.py:144 | after ON CONFLICT DO NOTHING every record's key is present, every added row is a record, and the unique index still holds |
| Ledger.InsertKeepsKeys | fetcher/fetchers/kesko_fetcher.py:144 | after ON CONFLICT DO NOTHING every record's (id, tonno_load_ts) is in the table |
| Ledger.InsertAddsRecords | fetcher/fetchers/kesko_fetcher.py:144 | every row the insert adds is one of the records |
| Ledger.InsertKeepsUnique | fetcher/fetchers/kesko_fetcher.py:144 | the insert keeps (id, tonno_load_ts) unique |
| Ledger.InsertWithoutConflicts | fetcher/fetchers/kesko_fetcher.py:144 | records whose keys clash with nothing are all appended, in order |
| Ledger.HasRowsOf | fetcher/fetchers/kesko_fetcher.py:33-43 | COUNT(*) > 0 holds iff some row carries the data source |
| Canonical.Digits | fetcher/fetchers/kesko_fetcher.py:165 | str() of a non-negative int: decimal digits that spell the number back, with no leading zero |
| Canonical.HashFields | fetcher/fetchers/kesko_fetcher.py:150-166 | there are fifteen fields in the fixed order; every key is in the extracted dict, so no `.get` default applies; the first field is the id |
| KRuoka.ExtractItem | fetcher/fetchers/kesko_fetcher.py:48-97 | the loop body gives the id; prices stay None without mobilescan pricing; a `batch` block's four fields win over a `discount` block's; with neither block the batch fields are None |
| KRuoka.ApplyPricing | fetcher/fetchers/kesko_fetcher.py:72-95 | the id is kept; a `normal` block sets the two normal columns, else they are kept; a `batch` block's four fields win over a `discount` block's; with neither the batch columns are kept |
| KRuoka.ExtractProductData | fetcher/fetchers/kesko_fetcher.py:45-99 | there is one product per result entry, in order |
| KRuoka.TargetTblHasExistingData | fetcher/fetchers/kesko_fetcher.py:25-43 | true iff some row, current or closed, has source K-ruoka |
| KRuoka.BuildInitRecords | fetcher/fetchers/kesko_fetcher.py:147-182 | each record is its item as a current K-ruoka row, loaded at the clock's time, with the item's row hash |
| KRuoka.InsertInitPrices | fetcher/fetchers/kesko_fetcher.py:130-188 | no product data leaves the table alone with "No products to insert."; otherwise the records are inserted with ON CONFLICT DO NOTHING and the record count is reported |
| KRuoka.InitFetchAndInsert | fetcher/fetchers/kesko_fetcher.py:330-333 | the fetch result goes into the initial insert; a failed fetch writes nothing |
| KRuoka.Stage | fetcher/fetchers/kesko_fetcher.py:204-222 | every incoming item is paired with its row hash, in order |
| KRuoka.HashItems | fetcher/fetchers/kesko_fetcher.py:204-222 | the hashing loop yields exactly the staged items |
| KRuoka.UpdatePrices | fetcher/fetchers/kesko_fetcher.py:190-327 | the table and report are Update's: the three steps with their rowcounts, rolled back on a unique-index violation; no product data writes nothing |
| KRuoka.RunUpdate | fetcher/fetchers/kesko_fetcher.py:335-338 | fetch then update; a non-200 answer reaches the update as None and writes nothing |
| KRuoka.InsertSelectWhenSettled | fetcher/fetchers/kesko_fetcher.py:313-318 | after step 2 the LEFT JOIN insert yields exactly one new row per incoming item without a current K-ruoka row |
| KRuoka.StepsFacts | fetcher/fetchers/kesko_fetcher.py:273-296 | steps 1 and 2 only close current K-ruoka rows; a row still current afterwards is untouched and neither changed nor gone; no gone row stays current |
| KRuoka.AddedRows | fetcher/fetchers/kesko_fetcher.py:299-321 | step 3 inserts a row exactly for the incoming items without a current row after steps 1 and 2 |
| KRuoka.UpdateOnlyClosesCurrentRows | fetcher/fetchers/kesko_fetcher.py:272-321 | no row is deleted; a prior row either stays or is a current K-ruoka row closed at update_ts; every appended row is an incoming item, current, of source K-ruoka, loaded at update_ts, with its hash |
| KRuoka.UpdateKeepsUniqueKeys | fetcher/fetchers/kesko_fetcher.py:299-321 | the unique index on (id, tonno_load_ts) is preserved |
| KRuoka.UpdateKeepsUniqueCurrent | fetcher/fetchers/kesko_fetcher.py:190-321 | at most one current row per (source, id) is preserved |
| KRuoka.DisappearedCountsGoneRows | fetcher/fetchers/kesko_fetcher.py:287-296 | disappeared_count equals the number of current K-ruoka rows whose id is not incoming |
| KRuoka.InSyncIsNoop | fetcher/fetchers/kesko_fetcher.py:273-321 | on a table already in sync with the items the update changes nothing and reports 0, 0, 0 |
| KRuoka.ApplyLeavesInSync | fetcher/fetchers/kesko_fetcher.py:273-321 | with distinct incoming ids a successful update leaves the table in sync with the items |
| KRuoka.UpdateIsIdempotent | fetcher/fetchers/kesko_fetcher.py:190-327 | re-running a successful update with the same items at any later time changes nothing and reports 0, 0, 0 |
| KRuoka.InsertsExactlyNewAndChanged | fetcher/fetchers/kesko_fetcher.py:299-321 | an item's new row is inserted iff the item was new or its hash changed; unchanged items get no row |
| KRuoka.InitLeavesInSync | fetcher/fetchers/kesko_fetcher.py:147-185 | the initial insert into a table without K-ruoka rows leaves it in sync with the items: both paths hash alike |
| KRuoka.InitThenUpdateIsNoop | fetcher/fetchers/kesko_fetcher.py:130-327 | an update with the items just initially inserted changes nothing and reports 0, 0, 0 |
| SRyhma.Trunc | fetcher/fetchers/s_ryhma_fetcher.py:48 | Python's int() rounds toward zero |
| SRyhma.NetWeight | fetcher/fetchers/s_ryhma_fetcher.py:48 | a missing operand raises the conversion error; a divisor truncating to 0 raises ZeroDivisionError; otherwise the result times the truncated divisor is the truncated price |
| SRyhma.ExtractAllSpec | fetcher/fetchers/s_ryhma_fetcher.py:35-62 | extraction succeeds iff every item does, and then gives one product per item, in order; otherwise it raises the first failing item's error |
| SRyhma.ExtractedProducts | fetcher/fetchers/s_ryhma_fetcher.py:41-58 | each product keeps the id; both names are the item's name; the image URL is the fixed text; available_web is NULL; the net weight is the quotient; discount fields are NULL |
| SRyhma.ExtractProductData | fetcher/fetchers/s_ryhma_fetcher.py:35-62 | the loop, with its early exit on an exception, computes ExtractAll |
| SRyhma.FetchPrices | fetcher/fetchers/s_ryhma_fetcher.py:84-91 | a non-200 answer raises; otherwise the extraction's result is returned |
| SRyhma.TargetTblHasExistingData | fetcher/fetchers/s_ryhma_fetcher.py:15-33 | true iff some row has source S-Ryhma |
| SRyhma.InitRecords | fetcher/fetchers/s_ryhma_fetcher.py:109-122 | each record is its item as a current row tagged S-ryhma, without hash, loaded at the clock's time |
| SRyhma.InsertInitPrices | fetcher/fetchers/s_ryhma_fetcher.py:93-128 | the table and report are Init's: no-op message on empty data, else ON CONFLICT DO NOTHING insert |
| SRyhma.InitFetchAndInsert | fetcher/fetchers/s_ryhma_fetcher.py:202-205 | a raising fetch writes nothing; otherwise the fetched products go into the initial insert |
| SRyhma.InitRowsInvisibleToExistenceCheck | fetcher/fetchers/s_ryhma_fetcher.py:117 | rows the initial insert adds (tag S-ryhma) never make the S-Ryhma existence check true |
| SRyhma.NewRows | fetcher/fetchers/s_ryhma_fetcher.py:178-191 | each record is its item as a current S-Ryhma row without hash, loaded at update_ts |
| SRyhma.UpdatePrices | fetcher/fetchers/s_ryhma_fetcher.py:130-200 | the table and report are Update's: no product data writes nothing; otherwise the two UPDATEs and the plain INSERT, rolled back on a unique-index violation |
| SRyhma.RunUpdate | fetcher/fetchers/s_ryhma_fetcher.py:207-210 | a raising fetch writes nothing; otherwise the fetched products go into the update |
| SRyhma.StepsCloseEveryCurrentRow | fetcher/fetchers/s_ryhma_fetcher.py:147-163 | the two UPDATEs together close every current row of every source and leave closed rows alone |
| SRyhma.OnlyNewRowsAreCurrent | fetcher/fetchers/s_ryhma_fetcher.py:143-194 | after a successful update the prior rows are closed or unchanged and the only current rows are the |items| rows just inserted |
| SRyhma.CountsAddUpToCurrentRows | fetcher/fetchers/s_ryhma_fetcher.py:147-194 | inserted is the number of items, and updated + disappeared is the number of current rows before the call |
| SRyhma.UpdateSucceedsWhenFresh | fetcher/fetchers/s_ryhma_fetcher.py:168-193 | with distinct ids and an update_ts later than every load time the insert never violates the unique index |
| SRyhma.DuplicateIdsRaise | fetcher/fetchers/s_ryhma_fetcher.py:168-193 | a repeated incoming id always violates the unique index and the table is left as it was |
| SRyhma.UpdateLeavesUniqueCurrent | fetcher/fetchers/s_ryhma_fetcher.py:143-194 | a successful update leaves at most one current row per (source, id), whatever the table held before |
| SRyhma.RerunReinsertsEverything | fetcher/fetchers/s_ryhma_fetcher.py:130-200 | the update is not idempotent: re-running it with the same items later closes and re-inserts every item, reporting |items|, |items|, 0 |
| Sorting.SortBy | backend/routers/get_price_history.py:38 | ORDER BY returns a permutation of its input |
| Sorting.SortBySorted | backend/routers/get_price_history.py:125 | under a total preorder the result is ordered |
| Sorting.SortByKeepsSorted | backend/routers/get_price_history.py:38 | input that is already in order comes back unchanged |
| PriceHistory.RowsFor | backend/routers/get_price_history.py:59 | WHERE id = product_id keeps exactly the rows with that id, of any source |
| PriceHistory.RowsForCounts | backend/routers/get_price_history.py:59 | WHERE id = product_id keeps every row with the id exactly as often as the table holds it, and no other row |
| PriceHistory.RowsForSize | backend/routers/get_price_history.py:59 | the product has as many rows as the table has rows with its id |
| PriceHistory.OrderedOneProduct | backend/routers/get_price_history.py:51-59 | the rows of one product that are already in load order come back as they are |
| PriceHistory.OrderedRows | backend/routers/get_price_history.py:51-59 | the product's rows come back ascending in tonno_load_ts, each as often as the table holds it, and there are no others |
| PriceHistory.SameGroupIffNoChange | backend/routers/get_price_history.py:36-57 | two rows share a price_group iff no row between them changes the pair, and rows of one group share the pair |
| PriceHistory.Runs | backend/routers/get_price_history.py:85 | the runs are non-empty, no more numerous than the rows, and concatenate back to the rows |
| PriceHistory.RunsAreMaximal | backend/routers/get_price_history.py:51-57 | each run holds one pair, and neighbouring runs hold different pairs |
| PriceHistory.LabelsOfRuns | backend/routers/get_price_history.py:51-57 | the run index starts at 0 and grows by one exactly where the pair differs from the previous row's |
| PriceHistory.GroupIsRunIndex | backend/routers/get_price_history.py:36-57 | price_group is the run index, plus one when the first row has a price, because LAG is NULL there |
| PriceHistory.GroupByIsRuns | backend/routers/get_price_history.py:85 | GROUP BY price_group, normal_price, batch_price puts two rows together iff they lie in the same run |
| PriceHistory.RunsOrdered | backend/routers/get_price_history.py:86 | on ordered rows each run is ordered, and runs start in load-time order |
| PriceHistory.MinLoad | backend/routers/get_price_history.py:82 | MIN(tonno_load_ts) is a load time of the group and no larger than any |
| PriceHistory.MaxEnd | backend/routers/get_price_history.py:83 | MAX(tonno_end_ts) skips NULLs: it is NULL iff every row is open, else an end time of the group and no smaller than any |
| PriceHistory.EffectivePrice | backend/routers/get_price_history.py:74-78 | the CASE/COALESCE is NULL iff normal_price is; otherwise it is one of the two prices and at most both |
| PriceHistory.PricePerWeight | backend/routers/get_price_history.py:71-80 | present iff the weight is present and positive and the effective price is present; then price_per_weight times weight is the effective price |
| PriceHistory.SummarizeOrderedRun | backend/routers/get_price_history.py:64-70 | on an ordered run valid_from is the first row's load time, no row loads earlier, and the ARRAY_AGG(...)[1] columns and the source are the first row's |
| PriceHistory.NotFoundIffNoRows | backend/routers/get_price_history.py:93-94 | the endpoint answers 404 iff no row of any source has the id |
| PriceHistory.IntervalsAreRuns | backend/routers/get_price_history.py:33-90 | the runs partition the product's rows; there is one interval per run, no more than the table's rows with the id; each carries its run's pair; neighbouring intervals differ in the pair |
| PriceHistory.IntervalsStartAtFirstRow | backend/routers/get_price_history.py:64-86 | each interval starts at its run's earliest row and takes that row's descriptive columns and source; intervals come in order of valid_from |
| PriceHistory.IntervalEnds | backend/routers/get_price_history.py:82-83 | valid_to is NULL iff all the run's rows are open, else the end time of one of its rows that no row of the run ends after |
| PriceHistory.PricePerWeightRule | backend/routers/get_price_history.py:71-80 | every interval's price_per_weight is present iff its first net_weight is positive and it has a normal price; then it is the effective price per weight |
| PriceHistory.SixVersionsGiveThreeIntervals | backend/routers/get_price_history.py:33-86 | six consecutive versions priced A, A, B, B, B, A give three intervals: A from t1 to t3, B from t3 to t6, A from t6 on |
| PriceHistory.Lower | backend/routers/get_price_history.py:123-124 | LOWER on ASCII only: capitals A-Z become small letters, and every other character is kept as it is |
| PriceHistory.ContainsAt | backend/routers/get_price_history.py:123-124 | LIKE '%sub%' is true when sub occurs at any position |
| PriceHistory.ContainsWitness | backend/routers/get_price_history.py:123-124 | a true LIKE '%sub%' has an occurrence of sub |
| PriceHistory.Selected | backend/routers/get_price_history.py:120-124 | the projection holds exactly the (id, name, source) of current rows with a name that mentions neither filter word |
| PriceHistory.Dedup | backend/routers/get_price_history.py:120 | DISTINCT keeps every triple once and adds none |
| PriceHistory.ByNameIsTotalPreorder | backend/routers/get_price_history.py:125 | ordering by name compares every two summaries and is transitive |
| PriceHistory.ListProductsSpec | backend/routers/get_price_history.py:114-133 | list_products returns each triple of a listed row exactly once, nothing else, in code-point order of name |

## Left out

- HTTP fetching: curl_cffi, cloudscraper, headers, URLs and logging. The fetch result is an input, and `None` stands for a non-200 answer.
- psycopg2 plumbing: cursors, `execute_values` paging, the temporary table's DDL, commit and the connection. Each fetcher operation is one atomic change of the `Table` object.
- The step-3 INSERT can violate the unique index on (id, tonno_load_ts) (kesko_fetcher.py line 320, s_ryhma_fetcher.py line 193). The code then raises without commit or rollback, leaving the connection in an aborted transaction. The model returns Err with the table as it was before the call.
- SHA-256 and Python's `str()` of a float are function parameters. Their output formats are not modelled.
- The clock is not modelled: `update_ts` is a parameter, and `now(i)` gives the time of the i-th record of the initial insert.
- Floating point: prices, weights and the S-Ryhma division are exact reals, and rounding is not modelled.
- The CAST of `valid_from` and `valid_to` to varchar is not modelled; the intervals carry the timestamps themselves.
- Pydantic validation is not modelled. A NULL `name_finnish` in a history interval would fail `PriceHistoryRow` validation.
- JSON keys that are present with a null object value (for example `"localizedName": null`) are modelled as absent. The code would raise on them.
- An item without an `id` is not modelled, for K-ruoka or S-Ryhma: the id is always a string. In the S-Ryhma code `item.get('id')` (s_ryhma_fetcher.py line 42) gives None for such an item. Then `incoming_ids` holds a NULL, step 2's `id NOT IN (…)` is never true so no row is marked disappeared, and step 3 inserts a row with a NULL id. The model captures none of this.
- A K-ruoka entry without a `product` key raises KeyError in the code (kesko_fetcher.py line 49). An S-Ryhma answer without `data.store.products.items` raises KeyError too (s_ryhma_fetcher.py line 38). Neither is modelled: the model's answer types always hold these keys.
- Canonical.HashFields: does not tell a JSON integer from a JSON float in the numeric columns (prices, net weight, discount percentage). They are `real`s rendered by `floatStr`. In the code, `str(5)` is "5" and `str(5.0)` is "5.0". So a source that sends 5 one day and 5.0 the next changes the K-ruoka hash and writes a new version; the model hashes both alike.
- PriceHistory.Lower: models LOWER on ASCII letters only. PostgreSQL also lowercases letters such as Ä; Unicode case mapping is not modelled.
- PriceHistory.ListProductsSpec: orders names by code point. The database orders them by its collation, which is not modelled.
- Rows of one product with equal `tonno_load_ts` are ordered by the stable sort in table order. In SQL that order is not defined, and a running SUM over such peers counts them together; this case is not modelled.
- The frontend, `backend/main.py`, `get_coffee_prices`, the fetcher entry scripts and the unit-test scripts are not part of this model.
- Injectivity of the `||`-joined hash input is not modelled, and it does not hold: a field containing `||` can make two different products collide.
