/**
 * The S-Ryhma fetcher: extraction of the product-search answer, the initial
 * bulk insert, and the hashless slowly changing dimension update, which
 * closes every current row it can reach and re-inserts every incoming product.
 */
module SRyhma {
  import opened Wrappers
  import opened Ledger

  /** _data_source: what the existence check and the update use. */
  const DataSource: string := "S-Ryhma"

  /** The tag the initial insert writes instead (lower-case r). */
  const InitSource: string := "S-ryhma"

  /** image_url of every S-Ryhma product. */
  const ImageUrl: string := "not available in S-Ryhma"

  // ---------------------------------------------------------------------------
  // The product-search answer (json_data['data']['store']['products']['items'])

  datatype ItemPricing = ItemPricing(comparisonUnit: Option<string>, regularPrice: Option<real>,
                                     currentPrice: Option<real>)

  /** One answer item; a key the answer leaves out is None, as item.get gives. */
  datatype Item = Item(
    id: string,
    name: Option<string>,
    storeId: Option<string>,
    price: Option<real>,
    comparisonPrice: Option<real>,
    comparisonUnit: Option<string>,
    brandName: Option<string>,
    pricing: Option<ItemPricing>)

  // ---------------------------------------------------------------------------
  // Extraction

  /** Python's int() of a number: truncation toward zero. */
  function Trunc(x: real): (n: int)
    ensures 0.0 <= x ==> n as real <= x < n as real + 1.0
    ensures x < 0.0 ==> n as real - 1.0 < x <= n as real
  {
    if x >= 0.0 then x.Floor else -((-x).Floor)
  }

  /**
   * net_weight = int(price) / int(comparisonPrice): int(None) raises a
   * TypeError, a zero divisor a ZeroDivisionError.
   */
  function NetWeight(price: Option<real>, comparisonPrice: Option<real>): (r: Result<real, Error>)
    ensures r == Err(ConversionError) <==> price.None? || comparisonPrice.None?
    ensures r == Err(ZeroDivision) <==> price.Some? && comparisonPrice.Some? && Trunc(comparisonPrice.value) == 0
    ensures r.Ok? ==> r.value * (Trunc(comparisonPrice.value) as real) == Trunc(price.value) as real
  {
    if price.None? || comparisonPrice.None? then Err(ConversionError)
    else if Trunc(comparisonPrice.value) == 0 then Err(ZeroDivision)
    else Ok((Trunc(price.value) as real) / (Trunc(comparisonPrice.value) as real))
  }

  function StoreColumn(storeId: Option<string>): Scalar
  {
    if storeId.Some? then Text(storeId.value) else Null
  }

  /** The dict one item yields, or the exception building it raises. */
  function Extract(it: Item): Result<Product, Error>
  {
    var pricing := it.pricing;
    match NetWeight(it.price, it.comparisonPrice)
    case Err(e) => Err(e)
    case Ok(w) =>
      Ok(Product(
        it.id,
        it.name,
        it.name,
        StoreColumn(it.storeId),
        Null,
        Some(w),
        it.comparisonUnit,
        Some(ImageUrl),
        it.brandName,
        if pricing.Some? then pricing.value.comparisonUnit else None,
        if pricing.Some? then pricing.value.regularPrice else None,
        if pricing.Some? then pricing.value.currentPrice else None,
        None,
        None,
        None))
  }

  /** The loop over all items: the first item that raises ends it with that exception. */
  function ExtractAll(items: seq<Item>): Result<seq<Product>, Error>
    decreases |items|
  {
    if items == [] then Ok([])
    else
      match ExtractAll(items[..|items| - 1])
      case Err(e) => Err(e)
      case Ok(done) =>
        match Extract(items[|items| - 1])
        case Err(e) => Err(e)
        case Ok(p) => Ok(done + [p])
  }

  /**
   * Extraction succeeds iff every item does, and then yields one product per
   * item, in order; otherwise it raises the exception of the first item that fails.
   */
  lemma {:induction false} ExtractAllSpec(items: seq<Item>)
    ensures ExtractAll(items).Ok? <==> forall i :: 0 <= i < |items| ==> Extract(items[i]).Ok?
    ensures ExtractAll(items).Ok? ==>
              |ExtractAll(items).value| == |items| &&
              forall i :: 0 <= i < |items| ==> ExtractAll(items).value[i] == Extract(items[i]).value
    ensures ExtractAll(items).Err? ==>
              exists j :: 0 <= j < |items| && Extract(items[j]) == Err(ExtractAll(items).error) &&
                forall i :: 0 <= i < j ==> Extract(items[i]).Ok?
    decreases |items|
  {
    if items != [] {
      var n := |items| - 1;
      var front := items[..n];
      ExtractAllSpec(front);
      assert forall i :: 0 <= i < n ==> front[i] == items[i];
    }
  }

  /** Every extracted product copies the name into both name columns and has the fixed image and no web flag. */
  lemma ExtractedProducts(items: seq<Item>)
    requires ExtractAll(items).Ok?
    ensures |ExtractAll(items).value| == |items|
    ensures forall i :: 0 <= i < |items| ==>
      var p := ExtractAll(items).value[i];
      && p.id == items[i].id
      && p.nameFinnish == p.nameEnglish == items[i].name
      && p.imageUrl == Some(ImageUrl)
      && p.availableWeb == Null
      && NetWeight(items[i].price, items[i].comparisonPrice).Ok?
      && p.netWeight == Some(NetWeight(items[i].price, items[i].comparisonPrice).value)
      && p.batchDiscountPct.None? && p.batchDiscountType.None? && p.batchDaysLeft.None?
  {
    ExtractAllSpec(items);
  }

  /** Once a prefix raises, the whole loop raises the same exception. */
  lemma {:induction false} ExtractAllErrPrefix(items: seq<Item>, n: nat)
    requires n <= |items| && ExtractAll(items[..n]).Err?
    ensures ExtractAll(items) == ExtractAll(items[..n])
    decreases |items| - n
  {
    if n < |items| {
      assert items[..n + 1][..n] == items[..n];
      ExtractAllErrPrefix(items, n + 1);
    } else {
      assert items[..n] == items;
    }
  }

  /** _extract_product_data: one dict per item, appended in order. */
  method ExtractProductData(items: seq<Item>) returns (res: Result<seq<Product>, Error>)
    ensures res == ExtractAll(items)
  {
    var extracted: seq<Product> := [];
    for i := 0 to |items|
      invariant ExtractAll(items[..i]) == Ok(extracted)
    {
      assert items[..i + 1][..i] == items[..i];
      var extractedItem := Extract(items[i]);
      if extractedItem.Err? {
        ExtractAllErrPrefix(items, i + 1);
        return Err(extractedItem.error);
      }
      extracted := extracted + [extractedItem.value];
    }
    assert items[..|items|] == items;
    return Ok(extracted);
  }

  /** _fetch_prices: a non-200 answer raises before anything is extracted. */
  function Fetched(answer: Option<seq<Item>>): Result<seq<Product>, Error>
  {
    if answer.None? then Err(FetchFailed) else ExtractAll(answer.value)
  }

  method FetchPrices(answer: Option<seq<Item>>) returns (res: Result<seq<Product>, Error>)
    ensures res == Fetched(answer)
    ensures answer.None? ==> res == Err(FetchFailed)
  {
    if answer.None? {
      return Err(FetchFailed);
    }
    res := ExtractProductData(answer.value);
  }

  // ---------------------------------------------------------------------------
  // Existence check and initial insert

  /** target_tbl_has_existing_data: some row, current or not, carries the 'S-Ryhma' tag. */
  function TargetTblHasExistingData(t: Table): (b: bool)
    reads t
    ensures b <==> exists i :: 0 <= i < |t.rows| && t.rows[i].source == DataSource
  {
    HasRowsOf(t.rows, DataSource)
  }

  /** The records of the initial insert: tagged "S-ryhma", no hash; now(i) is the clock for record i. */
  function InitRecords(items: seq<Product>, now: nat -> int): (records: seq<Row>)
    ensures |records| == |items|
    ensures forall i :: 0 <= i < |items| ==>
              records[i].item == items[i] && records[i].source == InitSource && records[i].hash.None? &&
              records[i].IsCurrent() && records[i].loadTs == now(i)
  {
    seq(|items|, i requires 0 <= i < |items| => Row(items[i], InitSource, now(i), None, None))
  }

  /** The effect of _insert_init_prices. */
  function Init(rows: seq<Row>, data: seq<Product>, now: nat -> int): Txn
  {
    if data == [] then Txn(rows, Ok(NoProductsToInsert))
    else Txn(InsertOnConflictDoNothing(rows, InitRecords(data, now)), Ok(AttemptedInsert(|data|)))
  }

  /** _insert_init_prices */
  method InsertInitPrices(t: Table, data: seq<Product>, now: nat -> int) returns (res: Result<Report, Error>)
    modifies t
    ensures Txn(t.rows, res) == Init(old(t.rows), data, now)
  {
    if data == [] {
      return Ok(NoProductsToInsert);
    }
    var records := InitRecords(data, now);
    t.rows := InsertOnConflictDoNothing(t.rows, records);
    res := Ok(AttemptedInsert(|records|));
  }

  /** init_fetch_and_insert: a failed fetch or extraction raises before the insert. */
  method InitFetchAndInsert(t: Table, answer: Option<seq<Item>>, now: nat -> int) returns (res: Result<Report, Error>)
    modifies t
    ensures Fetched(answer).Err? ==> t.rows == old(t.rows) && res == Err(Fetched(answer).error)
    ensures Fetched(answer).Ok? ==> Txn(t.rows, res) == Init(old(t.rows), Fetched(answer).value, now)
  {
    var fetched := FetchPrices(answer);
    if fetched.Err? {
      return Err(fetched.error);
    }
    res := InsertInitPrices(t, fetched.value, now);
  }

  /**
   * The tags disagree: into a table without 'S-Ryhma' rows, the initial
   * insert adds only "S-ryhma" rows, so the existence check still finds none.
   */
  lemma InitRowsInvisibleToExistenceCheck(rows: seq<Row>, data: seq<Product>, now: nat -> int)
    requires !HasRowsOf(rows, DataSource)
    ensures !HasRowsOf(Init(rows, data, now).after, DataSource)
  {
    if data != [] {
      var records := InitRecords(data, now);
      var out := InsertOnConflictDoNothing(rows, records);
      InsertOnConflictFacts(rows, records);
      forall i | 0 <= i < |out| ensures out[i].source != DataSource {
        if i < |rows| {
          assert out[i] == out[..|rows|][i] == rows[i];
        } else {
          assert out[i] in records;
        }
      }
    }
  }

  // ---------------------------------------------------------------------------
  // The update

  /** Step 1's WHERE clause: id = ANY(incoming_ids) AND tonno_end_ts IS NULL, of any source. */
  predicate Incoming(r: Row, ids: seq<string>)
  {
    r.IsCurrent() && r.item.id in ids
  }

  function IncomingClause(ids: seq<string>): Row -> bool
  {
    (r: Row) => Incoming(r, ids)
  }

  /** Step 2's WHERE clause: id NOT IN incoming_ids AND tonno_end_ts IS NULL, of any source. */
  predicate Absent(r: Row, ids: seq<string>)
  {
    r.IsCurrent() && r.item.id !in ids
  }

  function AbsentClause(ids: seq<string>): Row -> bool
  {
    (r: Row) => Absent(r, ids)
  }

  function CurrentClause(): Row -> bool
  {
    (r: Row) => r.IsCurrent()
  }

  /** records_to_insert: every incoming product, current, loaded at update_ts, tagged 'S-Ryhma', no hash. */
  function NewRows(items: seq<Product>, ts: int): (records: seq<Row>)
    ensures |records| == |items|
    ensures forall i :: 0 <= i < |items| ==>
              records[i].item == items[i] && records[i].source == DataSource && records[i].hash.None? &&
              records[i].IsCurrent() && records[i].loadTs == ts
  {
    seq(|items|, i requires 0 <= i < |items| => Row(items[i], DataSource, ts, None, None))
  }

  /** The table after steps 1 and 2. */
  function AfterSteps(rows: seq<Row>, items: seq<Product>, ts: int): seq<Row>
  {
    CloseWhere(CloseWhere(rows, IncomingClause(Ids(items)), ts), AbsentClause(Ids(items)), ts)
  }

  /**
   * The three steps in one transaction. The insert has no ON CONFLICT
   * clause, so a row that breaks the unique index raises and nothing commits.
   */
  function Apply(rows: seq<Row>, items: seq<Product>, ts: int): Txn
  {
    var ids := Ids(items);
    var rows2 := AfterSteps(rows, items, ts);
    var added := NewRows(items, ts);
    if KeysFree(rows2, added) then
      Txn(rows2 + added, Ok(UpdateComplete(|added|, CountWhere(rows, IncomingClause(ids)),
                                           CountWhere(CloseWhere(rows, IncomingClause(ids), ts), AbsentClause(ids)))))
    else Txn(rows, Err(UniqueViolation))
  }

  /** The effect of _update_prices: nothing happens without product data. */
  function Update(rows: seq<Row>, data: seq<Product>, ts: int): Txn
  {
    if data == [] then Txn(rows, Ok(NoUpdatesPerformed)) else Apply(rows, data, ts)
  }

  /** _update_prices, with update_ts given. */
  method UpdatePrices(t: Table, data: seq<Product>, updateTs: int) returns (res: Result<Report, Error>)
    modifies t
    ensures Txn(t.rows, res) == Update(old(t.rows), data, updateTs)
    ensures data == [] ==> t.rows == old(t.rows)
  {
    if data == [] {
      return Ok(NoUpdatesPerformed);
    }
    var before := t.rows;
    var incomingIds := Ids(data);
    var updatedCount := CloseRows(t, IncomingClause(incomingIds), updateTs);
    var disappearedCount := CloseRows(t, AbsentClause(incomingIds), updateTs);
    var recordsToInsert := NewRows(data, updateTs);
    if !KeysFree(t.rows, recordsToInsert) {
      t.rows := before;
      return Err(UniqueViolation);
    }
    t.rows := t.rows + recordsToInsert;
    res := Ok(UpdateComplete(|recordsToInsert|, updatedCount, disappearedCount));
  }

  /** run_update: a failed fetch or extraction raises before any write. */
  method RunUpdate(t: Table, answer: Option<seq<Item>>, updateTs: int) returns (res: Result<Report, Error>)
    modifies t
    ensures Fetched(answer).Err? ==> t.rows == old(t.rows) && res == Err(Fetched(answer).error)
    ensures Fetched(answer).Ok? ==> Txn(t.rows, res) == Update(old(t.rows), Fetched(answer).value, updateTs)
  {
    var fetched := FetchPrices(answer);
    if fetched.Err? {
      return Err(fetched.error);
    }
    res := UpdatePrices(t, fetched.value, updateTs);
  }

  // ---------------------------------------------------------------------------
  // Properties of the update

  /** Every current row, of any source, is closed by step 1 or step 2; no other row changes. */
  lemma StepsCloseEveryCurrentRow(rows: seq<Row>, items: seq<Product>, ts: int)
    ensures |AfterSteps(rows, items, ts)| == |rows|
    ensures forall i :: 0 <= i < |rows| ==>
              AfterSteps(rows, items, ts)[i] == if rows[i].IsCurrent() then Close(rows[i], ts) else rows[i]
  {
  }

  /** The shape of a successful update: the closed table followed by the new rows, keys free. */
  lemma ApplyOk(rows: seq<Row>, items: seq<Product>, ts: int)
    requires Apply(rows, items, ts).result.Ok?
    ensures Apply(rows, items, ts).after == AfterSteps(rows, items, ts) + NewRows(items, ts)
    ensures KeysFree(AfterSteps(rows, items, ts), NewRows(items, ts))
  {
  }

  /**
   * After a successful update the old rows are all closed (whatever their
   * source) or untouched if already closed, every incoming product follows
   * as a new current row, and those are the only current rows.
   */
  lemma OnlyNewRowsAreCurrent(rows: seq<Row>, items: seq<Product>, ts: int)
    requires Apply(rows, items, ts).result.Ok?
    ensures var out := Apply(rows, items, ts).after;
      && |out| == |rows| + |items|
      && (forall i :: 0 <= i < |rows| ==> out[i] == if rows[i].IsCurrent() then Close(rows[i], ts) else rows[i])
      && out[|rows|..] == NewRows(items, ts)
      && (forall i :: 0 <= i < |out| ==> (out[i].IsCurrent() <==> |rows| <= i))
  {
    StepsCloseEveryCurrentRow(rows, items, ts);
    ApplyOk(rows, items, ts);
    var rows2 := AfterSteps(rows, items, ts);
    var added := NewRows(items, ts);
    var out := rows2 + added;
    assert out[|rows|..] == added;
    forall i | 0 <= i < |out| ensures out[i].IsCurrent() <==> |rows| <= i {
      if i < |rows| {
        assert out[i] == rows2[i];
      } else {
        assert out[i] == added[i - |rows|];
      }
    }
  }

  /** updated_count + disappeared_count is the number of rows current before the update. */
  lemma CountsAddUpToCurrentRows(rows: seq<Row>, items: seq<Product>, ts: int)
    requires Apply(rows, items, ts).result.Ok?
    ensures var report := Apply(rows, items, ts).result.value;
      report.inserted == |items| &&
      report.updated + report.disappeared == CountWhere(rows, CurrentClause())
  {
    var ids := Ids(items);
    CountAfterClose(rows, IncomingClause(ids), AbsentClause(ids), AbsentClause(ids), ts);
    CountPartition(rows, CurrentClause(), IncomingClause(ids), AbsentClause(ids));
  }

  /** Incoming rows never clash with one another: distinct ids and a fresh update_ts make the insert succeed. */
  lemma UpdateSucceedsWhenFresh(rows: seq<Row>, items: seq<Product>, ts: int)
    requires DistinctIds(items)
    requires forall i :: 0 <= i < |rows| ==> rows[i].loadTs < ts
    ensures Apply(rows, items, ts).result.Ok?
  {
    StepsCloseEveryCurrentRow(rows, items, ts);
  }

  /** Two incoming products with one id clash on (id, update_ts): the update raises and the table is as it was. */
  lemma DuplicateIdsRaise(rows: seq<Row>, items: seq<Product>, ts: int)
    requires !DistinctIds(items)
    ensures Apply(rows, items, ts) == Txn(rows, Err(UniqueViolation))
  {
    var j, k :| 0 <= j < k < |items| && items[j].id == items[k].id;
    var added := NewRows(items, ts);
    assert added[j].item.id == added[k].item.id && added[j].loadTs == added[k].loadTs;
  }

  /** Rows that share one load time and keep their keys unique have distinct ids. */
  lemma {:induction false} OnlyAddedCurrent(rows2: seq<Row>, added: seq<Row>, ts: int)
    requires forall i :: 0 <= i < |rows2| ==> !rows2[i].IsCurrent()
    requires forall j :: 0 <= j < |added| ==> added[j].loadTs == ts
    requires UniqueKeys(added)
    ensures UniqueCurrent(rows2 + added)
  {
    var out := rows2 + added;
    forall i, j | 0 <= i < j < |out| && out[i].IsCurrent() && out[j].IsCurrent() && out[i].source == out[j].source
      ensures out[i].item.id != out[j].item.id
    {
      if i >= |rows2| {
        assert out[i] == added[i - |rows2|] && out[j] == added[j - |rows2|];
      }
    }
  }

  /** After a successful update each (source, id) has at most one current row, whatever the table held before. */
  lemma UpdateLeavesUniqueCurrent(rows: seq<Row>, items: seq<Product>, ts: int)
    requires Apply(rows, items, ts).result.Ok?
    ensures UniqueCurrent(Apply(rows, items, ts).after)
  {
    StepsCloseEveryCurrentRow(rows, items, ts);
    ApplyOk(rows, items, ts);
    OnlyAddedCurrent(AfterSteps(rows, items, ts), NewRows(items, ts), ts);
  }

  /** Row by row, the table after a successful update: old rows keep their keys, new rows follow the items. */
  lemma RowsAfterUpdate(rows: seq<Row>, items: seq<Product>, ts: int)
    requires Apply(rows, items, ts).result.Ok?
    ensures var out := Apply(rows, items, ts).after;
      && |out| == |rows| + |items|
      && (forall i :: 0 <= i < |out| ==> (out[i].IsCurrent() <==> |rows| <= i))
      && (forall i :: 0 <= i < |rows| ==> out[i].loadTs == rows[i].loadTs)
      && (forall i :: |rows| <= i < |out| ==> out[i].item.id == items[i - |rows|].id && out[i].loadTs == ts)
  {
    StepsCloseEveryCurrentRow(rows, items, ts);
    ApplyOk(rows, items, ts);
    var rows2 := AfterSteps(rows, items, ts);
    var added := NewRows(items, ts);
    var out := rows2 + added;
    forall i | 0 <= i < |out|
      ensures out[i].IsCurrent() <==> |rows| <= i
      ensures i < |rows| ==> out[i].loadTs == rows[i].loadTs
      ensures |rows| <= i ==> out[i].item.id == items[i - |rows|].id && out[i].loadTs == ts
    {
      if i < |rows| {
        assert out[i] == rows2[i];
      } else {
        assert out[i] == added[i - |rows|];
      }
    }
  }

  /** The table a second update at ts2 meets: the last |items| rows are current and carry the incoming ids. */
  predicate RerunReady(out: seq<Row>, m: nat, items: seq<Product>, ts2: int)
  {
    && m <= |out| && |out| - m == |items|
    && (forall i :: 0 <= i < |out| ==> (out[i].IsCurrent() <==> m <= i))
    && (forall i :: m <= i < |out| ==> out[i].item.id == items[i - m].id)
    && DistinctIds(items) && (forall i :: 0 <= i < |out| ==> out[i].loadTs < ts2)
  }

  /** A first successful update leaves the table a second one, later, meets. */
  lemma FirstRunReady(rows: seq<Row>, items: seq<Product>, ts: int, ts2: int)
    requires DistinctIds(items)
    requires forall i :: 0 <= i < |rows| ==> rows[i].loadTs < ts
    requires ts < ts2
    ensures Apply(rows, items, ts).result.Ok?
    ensures RerunReady(Apply(rows, items, ts).after, |rows|, items, ts2)
  {
    UpdateSucceedsWhenFresh(rows, items, ts);
    RowsAfterUpdate(rows, items, ts);
  }

  lemma {:induction false} RerunCounts(out: seq<Row>, m: nat, items: seq<Product>, ts2: int)
    requires RerunReady(out, m, items, ts2)
    ensures Apply(out, items, ts2).result == Ok(UpdateComplete(|items|, |items|, 0))
    ensures |Apply(out, items, ts2).after| == |out| + |items|
  {
    var ids := Ids(items);
    UpdateSucceedsWhenFresh(out, items, ts2);
    assert CountWhere(out, IncomingClause(ids)) == |items| by {
      forall i | 0 <= i < |out| ensures IncomingClause(ids)(out[i]) <==> m <= i {
        if m <= i {
          assert ids[i - m] == out[i].item.id;
        }
      }
      CountSuffix(out, m, IncomingClause(ids));
    }
    assert CountWhere(out, CurrentClause()) == |items| by {
      CountSuffix(out, m, CurrentClause());
    }
    CountsAddUpToCurrentRows(out, items, ts2);
    assert |Apply(out, items, ts2).after| == |out| + |items| by {
      ApplyOk(out, items, ts2);
    }
  }

  /**
   * The update is not idempotent: running it again with the same products
   * closes every row the first run inserted and inserts them all once more.
   */
  lemma RerunReinsertsEverything(rows: seq<Row>, items: seq<Product>, ts: int, ts2: int)
    requires items != [] && DistinctIds(items)
    requires forall i :: 0 <= i < |rows| ==> rows[i].loadTs < ts
    requires ts < ts2
    ensures Apply(rows, items, ts).result.Ok?
    ensures var out := Apply(rows, items, ts).after;
      var again := Apply(out, items, ts2);
      && again.result == Ok(UpdateComplete(|items|, |items|, 0))
      && |again.after| == |out| + |items|
  {
    FirstRunReady(rows, items, ts, ts2);
    RerunCounts(Apply(rows, items, ts).after, |rows|, items, ts2);
  }
}
