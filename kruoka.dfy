/**
 * The K-ruoka fetcher: extraction of the product-search answer, the initial
 * bulk insert, and the hash-based slowly changing dimension update.
 */
module KRuoka {
  import opened Wrappers
  import opened Ledger
  import opened Canonical

  /** tonno_data_source of every row this fetcher writes. */
  const DataSource: string := "K-ruoka"

  // ---------------------------------------------------------------------------
  // The product-search answer (json_data['result']); an absent object is None.

  datatype LocalizedName = LocalizedName(finnish: Option<string>, english: Option<string>)
  datatype Availability = Availability(store: Option<bool>, web: Option<bool>)
  datatype Measurements = Measurements(netWeight: Option<real>, contentUnit: Option<string>)
  datatype Image = Image(url: Option<string>)
  datatype Attributes = Attributes(measurements: Option<Measurements>, image: Option<Image>)
  datatype Brand = Brand(name: Option<string>)
  datatype NormalPrice = NormalPrice(unit: Option<string>, price: Option<real>)
  datatype Deal = Deal(price: Option<real>, discountPercentage: Option<real>,
                       discountType: Option<string>, validNumberOfDaysLeft: Option<int>)
  datatype Pricing = Pricing(normal: Option<NormalPrice>, discount: Option<Deal>, batch: Option<Deal>)
  datatype Mobilescan = Mobilescan(pricing: Option<Pricing>)
  datatype ProductJson = ProductJson(
    localizedName: Option<LocalizedName>,
    availability: Option<Availability>,
    productAttributes: Option<Attributes>,
    brand: Option<Brand>,
    mobilescan: Option<Mobilescan>)
  datatype Entry = Entry(id: string, product: ProductJson)

  // ---------------------------------------------------------------------------
  // Extraction

  function Flag(o: Option<bool>): Scalar
  {
    if o.Some? then Bool(o.value) else Null
  }

  /** product['mobilescan']['pricing'] when both are present. */
  function PricingOf(p: ProductJson): Option<Pricing>
  {
    if p.mobilescan.Some? then p.mobilescan.value.pricing else None
  }

  /** The four batch columns of a product. */
  function BatchColumns(p: Product): (Option<real>, Option<real>, Option<string>, Option<int>)
  {
    (p.batchPrice, p.batchDiscountPct, p.batchDiscountType, p.batchDaysLeft)
  }

  /** The four batch columns a deal block supplies. */
  function DealColumns(d: Deal): (Option<real>, Option<real>, Option<string>, Option<int>)
  {
    (d.price, d.discountPercentage, d.discountType, d.validNumberOfDaysLeft)
  }

  /** The deal whose fields end in the batch columns: a 'batch' block wins over a 'discount' block. */
  function WinningDeal(pr: Pricing): Option<Deal>
  {
    if pr.batch.Some? then pr.batch else pr.discount
  }

  /** The product one result entry yields. */
  function Extract(e: Entry): Product
  {
    var pricing := PricingOf(e.product);
    if pricing.Some? then Priced(Unpriced(e), pricing.value) else Unpriced(e)
  }

  /** A product with the columns of a mobilescan pricing block filled in. */
  function Priced(item: Product, pr: Pricing): Product
  {
    var base := if pr.normal.Some? then WithNormal(item, pr.normal.value) else item;
    var deal := WinningDeal(pr);
    if deal.Some? then WithDeal(base, deal.value) else base
  }

  /** The two columns a 'normal' block writes. */
  function WithNormal(item: Product, n: NormalPrice): (r: Product)
    ensures (r.normalPriceUnit, r.normalPrice) == (n.unit, n.price)
    ensures BatchColumns(r) == BatchColumns(item)
  {
    item.(normalPriceUnit := n.unit, normalPrice := n.price)
  }

  /** The four batch columns a 'discount' or 'batch' block writes. */
  function WithDeal(item: Product, d: Deal): (r: Product)
    ensures BatchColumns(r) == DealColumns(d)
    ensures (r.id, r.normalPriceUnit, r.normalPrice) == (item.id, item.normalPriceUnit, item.normalPrice)
  {
    item.(batchPrice := d.price, batchDiscountPct := d.discountPercentage,
          batchDiscountType := d.discountType, batchDaysLeft := d.validNumberOfDaysLeft)
  }

  /** The dict literal of the loop body: the columns read outside the pricing block, every price column None. */
  function Unpriced(e: Entry): Product
  {
    var p := e.product;
    var names := p.localizedName;
    var avail := p.availability;
    var attrs := p.productAttributes;
    var meas := if attrs.Some? then attrs.value.measurements else None;
    var image := if attrs.Some? then attrs.value.image else None;
    Product(
      e.id,
      if names.Some? then names.value.finnish else None,
      if names.Some? then names.value.english else None,
      if avail.Some? then Flag(avail.value.store) else Null,
      if avail.Some? then Flag(avail.value.web) else Null,
      if meas.Some? then meas.value.netWeight else None,
      if meas.Some? then meas.value.contentUnit else None,
      if image.Some? then image.value.url else None,
      if p.brand.Some? then p.brand.value.name else None,
      None, None, None, None, None, None)
  }

  /**
   * One entry, as the loop body builds it: the dict literal, whose price
   * columns are None, then the 'normal', 'discount' and 'batch' blocks of
   * mobilescan pricing update it in that order.
   */
  method ExtractItem(e: Entry) returns (item: Product)
    ensures item == Extract(e)
    ensures PriceRules(e, item)
  {
    item := Unpriced(e);
    var p := e.product;
    if p.mobilescan.Some? {
      var mobilescan := p.mobilescan.value;
      if mobilescan.pricing.Some? {
        item := ApplyPricing(item, mobilescan.pricing.value);
      }
    }
    ExtractPriceRules(e);
  }

  /** The pricing block of the loop body: 'normal', then 'discount', then 'batch'. */
  method ApplyPricing(item0: Product, pricing: Pricing) returns (item: Product)
    ensures item == Priced(item0, pricing)
    ensures item.id == item0.id
    ensures pricing.normal.Some? ==> (item.normalPriceUnit, item.normalPrice) == (pricing.normal.value.unit, pricing.normal.value.price)
    ensures pricing.normal.None? ==> (item.normalPriceUnit, item.normalPrice) == (item0.normalPriceUnit, item0.normalPrice)
    ensures pricing.batch.Some? ==> BatchColumns(item) == DealColumns(pricing.batch.value)
    ensures pricing.batch.None? && pricing.discount.Some? ==> BatchColumns(item) == DealColumns(pricing.discount.value)
    ensures pricing.batch.None? && pricing.discount.None? ==> BatchColumns(item) == BatchColumns(item0)
  {
    item := item0;
    if pricing.normal.Some? {
      item := WithNormal(item, pricing.normal.value);
    }
    ghost var base := item;
    if pricing.discount.Some? {
      item := WithDeal(item, pricing.discount.value);
    }
    if pricing.batch.Some? {
      item := WithDeal(item, pricing.batch.value);
      assert item == WithDeal(base, pricing.batch.value);
    }
  }

  /**
   * The extraction rules: the id is the entry's; without mobilescan pricing
   * every price column is None; a 'batch' block gives the batch columns,
   * else a 'discount' block does, else they are None.
   */
  predicate PriceRules(e: Entry, item: Product)
  {
    var pricing := PricingOf(e.product);
    && item.id == e.id
    && (pricing.None? ==>
          item.normalPriceUnit.None? && item.normalPrice.None? && BatchColumns(item) == (None, None, None, None))
    && (pricing.Some? && pricing.value.batch.Some? ==>
          BatchColumns(item) == DealColumns(pricing.value.batch.value))
    && (pricing.Some? && pricing.value.batch.None? && pricing.value.discount.Some? ==>
          BatchColumns(item) == DealColumns(pricing.value.discount.value))
    && (pricing.Some? && pricing.value.batch.None? && pricing.value.discount.None? ==>
          BatchColumns(item) == (None, None, None, None))
  }

  lemma ExtractPriceRules(e: Entry)
    ensures PriceRules(e, Extract(e))
  {
  }

  /** One product per entry of json_data['result'], in order. */
  method ExtractProductData(result: seq<Entry>) returns (extracted: seq<Product>)
    ensures |extracted| == |result|
    ensures forall i :: 0 <= i < |result| ==> extracted[i] == Extract(result[i])
  {
    extracted := [];
    for i := 0 to |result|
      invariant |extracted| == i
      invariant forall k :: 0 <= k < i ==> extracted[k] == Extract(result[k])
    {
      var item := ExtractItem(result[i]);
      extracted := extracted + [item];
    }
  }

  /** What the fetch hands on: None when the answer was not 200, else the extracted products. */
  function Fetched(answer: Option<seq<Entry>>): Option<seq<Product>>
  {
    if answer.None? then None
    else Some(seq(|answer.value|, i requires 0 <= i < |answer.value| => Extract(answer.value[i])))
  }

  // ---------------------------------------------------------------------------
  // Existence check and initial insert

  /** target_tbl_has_existing_data: some row, current or not, carries the K-ruoka source. */
  function TargetTblHasExistingData(t: Table): (b: bool)
    reads t
    ensures b <==> exists i :: 0 <= i < |t.rows| && t.rows[i].source == DataSource
  {
    HasRowsOf(t.rows, DataSource)
  }

  /** The rows the initial insert proposes; now(i) is the clock when record i is built. */
  function InitRecords(items: seq<Product>, now: nat -> int, env: Env): seq<Row>
  {
    seq(|items|, i requires 0 <= i < |items| =>
      Row(items[i], DataSource, now(i), None, Some(RowHash(items[i], env))))
  }

  /** The effect of _insert_init_prices. */
  function Init(rows: seq<Row>, data: Option<seq<Product>>, now: nat -> int, env: Env): Txn
  {
    if data.None? || data.value == [] then Txn(rows, Ok(NoProductsToInsert))
    else Txn(InsertOnConflictDoNothing(rows, InitRecords(data.value, now, env)),
             Ok(AttemptedInsert(|data.value|)))
  }

  /** The loop that builds the records, hashing each product. */
  method BuildInitRecords(items: seq<Product>, now: nat -> int, env: Env) returns (records: seq<Row>)
    ensures |records| == |items|
    ensures forall i :: 0 <= i < |items| ==>
              records[i].item == items[i] && records[i].source == DataSource && records[i].IsCurrent() &&
              records[i].hash == Some(RowHash(items[i], env)) && records[i].loadTs == now(i)
  {
    records := [];
    for i := 0 to |items|
      invariant |records| == i
      invariant forall k :: 0 <= k < i ==> records[k] == InitRecords(items, now, env)[k]
    {
      var rowHash := RowHash(items[i], env);
      records := records + [Row(items[i], DataSource, now(i), None, Some(rowHash))];
    }
  }

  /** _insert_init_prices */
  method InsertInitPrices(t: Table, data: Option<seq<Product>>, now: nat -> int, env: Env)
    returns (res: Result<Report, Error>)
    modifies t
    ensures Txn(t.rows, res) == Init(old(t.rows), data, now, env)
  {
    if data.None? || data.value == [] {
      return Ok(NoProductsToInsert);
    }
    var records := BuildInitRecords(data.value, now, env);
    assert records == InitRecords(data.value, now, env);
    t.rows := InsertOnConflictDoNothing(t.rows, records);
    res := Ok(AttemptedInsert(|records|));
  }

  /** init_fetch_and_insert: the fetch result goes straight into the initial insert. */
  method InitFetchAndInsert(t: Table, answer: Option<seq<Entry>>, now: nat -> int, env: Env)
    returns (res: Result<Report, Error>)
    modifies t
    ensures Txn(t.rows, res) == Init(old(t.rows), Fetched(answer), now, env)
    ensures answer.None? ==> t.rows == old(t.rows)
  {
    var data: Option<seq<Product>> := None;
    if answer.Some? {
      var extracted := ExtractProductData(answer.value);
      assert extracted == Fetched(answer).value;
      data := Some(extracted);
    }
    assert data == Fetched(answer);
    res := InsertInitPrices(t, data, now, env);
  }

  // ---------------------------------------------------------------------------
  // The update

  /** A row of the temporary table incoming_products: a product with its hash. */
  datatype Staged = Staged(item: Product, hash: string)

  function Stage(items: seq<Product>, env: Env): (st: seq<Staged>)
    ensures |st| == |items|
    ensures forall k :: 0 <= k < |items| ==> st[k].item == items[k] && st[k].hash == RowHash(items[k], env)
  {
    seq(|items|, k requires 0 <= k < |items| => Staged(items[k], RowHash(items[k], env)))
  }

  /** A current K-ruoka row of this id. */
  predicate CurrentOf(r: Row, id: string)
  {
    r.IsCurrent() && r.source == DataSource && r.item.id == id
  }

  predicate HasCurrent(rows: seq<Row>, id: string)
  {
    exists i :: 0 <= i < |rows| && CurrentOf(rows[i], id)
  }

  /** Step 1's WHERE clause, joined with incoming_products: the stored hash IS DISTINCT FROM an incoming one. */
  predicate HashDiffers(r: Row, st: seq<Staged>)
  {
    r.IsCurrent() && r.source == DataSource &&
    exists k :: 0 <= k < |st| && st[k].item.id == r.item.id && r.hash != Some(st[k].hash)
  }

  function ChangedClause(st: seq<Staged>): Row -> bool
  {
    (r: Row) => HashDiffers(r, st)
  }

  /** Step 2's WHERE clause: a current K-ruoka row whose id is not incoming. */
  predicate Gone(r: Row, ids: seq<string>)
  {
    r.IsCurrent() && r.source == DataSource && r.item.id !in ids
  }

  function GoneClause(ids: seq<string>): Row -> bool
  {
    (r: Row) => Gone(r, ids)
  }

  /** The row step 3 inserts for an incoming product. */
  function NewRow(s: Staged, ts: int): Row
  {
    Row(s.item, DataSource, ts, None, Some(s.hash))
  }

  function JoinedClause(s: Staged): Row -> bool
  {
    (r: Row) => CurrentOf(r, s.item.id)
  }

  function DistinctClause(s: Staged): Row -> bool
  {
    (r: Row) => CurrentOf(r, s.item.id) && r.hash != Some(s.hash)
  }

  /**
   * How many rows the LEFT JOIN of step 3 yields for one incoming row after
   * its WHERE filter: one when nothing joins (p.id IS NULL), else one per
   * joined row whose hash is distinct.
   */
  function JoinCount(rows: seq<Row>, s: Staged): nat
  {
    if CountWhere(rows, JoinedClause(s)) == 0 then 1 else CountWhere(rows, DistinctClause(s))
  }

  /** Step 3: the rows INSERT ... SELECT ... LEFT JOIN adds, evaluated against `rows`. */
  function InsertSelect(rows: seq<Row>, st: seq<Staged>, ts: int): seq<Row>
    decreases |st|
  {
    if st == [] then []
    else seq(JoinCount(rows, st[0]), _ => NewRow(st[0], ts)) + InsertSelect(rows, st[1..], ts)
  }

  /** The table after step 1 (changed rows closed) and step 2 (gone rows closed). */
  function AfterSteps(rows: seq<Row>, items: seq<Product>, ts: int, env: Env): seq<Row>
  {
    CloseWhere(CloseWhere(rows, ChangedClause(Stage(items, env)), ts), GoneClause(Ids(items)), ts)
  }

  /** The rows step 3 adds to the table steps 1 and 2 left. */
  function Added(rows: seq<Row>, items: seq<Product>, ts: int, env: Env): seq<Row>
  {
    InsertSelect(AfterSteps(rows, items, ts, env), Stage(items, env), ts)
  }

  /** The three steps in one transaction; an insert that breaks the unique index rolls all back. */
  function Apply(rows: seq<Row>, items: seq<Product>, ts: int, env: Env): Txn
  {
    var st := Stage(items, env);
    var rows2 := AfterSteps(rows, items, ts, env);
    var added := Added(rows, items, ts, env);
    if KeysFree(rows2, added) then
      Txn(rows2 + added, Ok(UpdateComplete(|added|, CountWhere(rows, ChangedClause(st)),
                                           CountWhere(CloseWhere(rows, ChangedClause(st), ts), GoneClause(Ids(items))))))
    else Txn(rows, Err(UniqueViolation))
  }

  /** The effect of _update_prices: nothing happens without product data. */
  function Update(rows: seq<Row>, data: Option<seq<Product>>, ts: int, env: Env): Txn
  {
    if data.None? || data.value == [] then Txn(rows, Ok(NoUpdatesPerformed))
    else Apply(rows, data.value, ts, env)
  }

  /** The loop that stores each product's tonno_row_hash. */
  method HashItems(items: seq<Product>, env: Env) returns (st: seq<Staged>)
    ensures st == Stage(items, env)
  {
    st := [];
    for k := 0 to |items|
      invariant |st| == k
      invariant forall j :: 0 <= j < k ==> st[j] == Staged(items[j], RowHash(items[j], env))
    {
      st := st + [Staged(items[k], RowHash(items[k], env))];
    }
  }

  /** _update_prices, with update_ts given. */
  method UpdatePrices(t: Table, data: Option<seq<Product>>, updateTs: int, env: Env)
    returns (res: Result<Report, Error>)
    modifies t
    ensures Txn(t.rows, res) == Update(old(t.rows), data, updateTs, env)
    ensures data.None? || data == Some([]) ==> t.rows == old(t.rows)
  {
    if data.None? || data.value == [] {
      return Ok(NoUpdatesPerformed);
    }
    var items := data.value;
    var before := t.rows;
    var st := HashItems(items, env);
    var incomingIds := Ids(items);
    var updatedCount := CloseRows(t, ChangedClause(st), updateTs);
    var disappearedCount := CloseRows(t, GoneClause(incomingIds), updateTs);
    var added := InsertSelect(t.rows, st, updateTs);
    if !KeysFree(t.rows, added) {
      t.rows := before;
      return Err(UniqueViolation);
    }
    t.rows := t.rows + added;
    res := Ok(UpdateComplete(|added|, updatedCount, disappearedCount));
  }

  /** run_update: fetch, then update; a failed fetch writes nothing. */
  method RunUpdate(t: Table, answer: Option<seq<Entry>>, updateTs: int, env: Env)
    returns (res: Result<Report, Error>)
    modifies t
    ensures Txn(t.rows, res) == Update(old(t.rows), Fetched(answer), updateTs, env)
    ensures answer.None? ==> t.rows == old(t.rows) && res == Ok(NoUpdatesPerformed)
  {
    var data: Option<seq<Product>> := None;
    if answer.Some? {
      var extracted := ExtractProductData(answer.value);
      assert extracted == Fetched(answer).value;
      data := Some(extracted);
    }
    assert data == Fetched(answer);
    res := UpdatePrices(t, data, updateTs, env);
  }

  // ---------------------------------------------------------------------------
  // Properties of the update

  /** How an incoming product relates to the current rows: the classification the update realises. */
  datatype Change = New | Changed | Unchanged

  function Classify(rows: seq<Row>, s: Staged): Change
  {
    if !HasCurrent(rows, s.item.id) then New
    else if exists i :: 0 <= i < |rows| && CurrentOf(rows[i], s.item.id) && rows[i].hash != Some(s.hash) then Changed
    else Unchanged
  }

  /** Every current K-ruoka row of an incoming id holds that product's hash. */
  predicate Settled(rows: seq<Row>, st: seq<Staged>)
  {
    forall i, k :: 0 <= i < |rows| && 0 <= k < |st| && CurrentOf(rows[i], st[k].item.id) ==>
      rows[i].hash == Some(st[k].hash)
  }

  /** The reference for step 3: one new row for each incoming product that has no current row. */
  function Missing(rows: seq<Row>, st: seq<Staged>, ts: int): seq<Row>
    decreases |st|
  {
    if st == [] then []
    else (if HasCurrent(rows, st[0].item.id) then [] else [NewRow(st[0], ts)]) + Missing(rows, st[1..], ts)
  }

  lemma {:induction false} MissingMembers(rows: seq<Row>, st: seq<Staged>, ts: int)
    ensures forall r :: r in Missing(rows, st, ts) <==>
              exists k :: 0 <= k < |st| && !HasCurrent(rows, st[k].item.id) && r == NewRow(st[k], ts)
    decreases |st|
  {
    if st != [] {
      MissingMembers(rows, st[1..], ts);
      forall r | r in Missing(rows, st[1..], ts)
        ensures exists k :: 0 <= k < |st| && !HasCurrent(rows, st[k].item.id) && r == NewRow(st[k], ts)
      {
        var k :| 0 <= k < |st[1..]| && !HasCurrent(rows, st[1..][k].item.id) && r == NewRow(st[1..][k], ts);
        assert st[1..][k] == st[k + 1];
      }
      forall k | 0 <= k < |st| && !HasCurrent(rows, st[k].item.id)
        ensures NewRow(st[k], ts) in Missing(rows, st, ts)
      {
        if k > 0 {
          assert st[k] == st[1..][k - 1];
        }
      }
    }
  }

  /** When every incoming product has a current row, nothing is missing. */
  lemma {:induction false} NothingMissing(rows: seq<Row>, st: seq<Staged>, ts: int)
    requires forall k :: 0 <= k < |st| ==> HasCurrent(rows, st[k].item.id)
    ensures Missing(rows, st, ts) == []
    decreases |st|
  {
    if st != [] {
      assert HasCurrent(rows, st[0].item.id);
      assert forall k :: 0 <= k < |st[1..]| ==> st[1..][k] == st[k + 1];
      NothingMissing(rows, st[1..], ts);
    }
  }

  /** Once settled, the first product joins one row when it has no current row and none otherwise. */
  lemma JoinCountWhenSettled(rows: seq<Row>, st: seq<Staged>)
    requires st != [] && Settled(rows, st)
    ensures JoinCount(rows, st[0]) == if HasCurrent(rows, st[0].item.id) then 0 else 1
  {
    var s := st[0];
    CountWhereExtremes(rows, DistinctClause(s));
    CountWhereExtremes(rows, JoinedClause(s));
    assert CountWhere(rows, DistinctClause(s)) == 0 by {
      forall i | 0 <= i < |rows| ensures !DistinctClause(s)(rows[i]) {
        if CurrentOf(rows[i], s.item.id) {
          assert rows[i].hash == Some(st[0].hash);
        }
      }
    }
    assert CountWhere(rows, JoinedClause(s)) == 0 <==> !HasCurrent(rows, s.item.id) by {
      if HasCurrent(rows, s.item.id) {
        var i :| 0 <= i < |rows| && CurrentOf(rows[i], s.item.id);
        assert JoinedClause(s)(rows[i]);
      }
    }
  }

  lemma SettledTail(rows: seq<Row>, st: seq<Staged>)
    requires st != [] && Settled(rows, st)
    ensures Settled(rows, st[1..])
  {
    forall i, k | 0 <= i < |rows| && 0 <= k < |st[1..]| && CurrentOf(rows[i], st[1..][k].item.id)
      ensures rows[i].hash == Some(st[1..][k].hash)
    {
      assert st[1..][k] == st[k + 1];
    }
  }

  /** After step 1, the LEFT JOIN of step 3 inserts exactly the products without a current row. */
  lemma {:induction false} InsertSelectWhenSettled(rows: seq<Row>, st: seq<Staged>, ts: int)
    requires Settled(rows, st)
    ensures InsertSelect(rows, st, ts) == Missing(rows, st, ts)
    decreases |st|
  {
    if st != [] {
      JoinCountWhenSettled(rows, st);
      SettledTail(rows, st);
      InsertSelectWhenSettled(rows, st[1..], ts);
    }
  }

  /** The incoming ids line up with the staged products. */
  predicate IdsOf(ids: seq<string>, st: seq<Staged>)
  {
    |ids| == |st| && forall k :: 0 <= k < |st| ==> ids[k] == st[k].item.id
  }

  predicate DistinctStaged(st: seq<Staged>)
  {
    forall j, k :: 0 <= j < k < |st| ==> st[j].item.id != st[k].item.id
  }

  /** A table obtained from `rows` by closing some current K-ruoka rows. */
  predicate ClosesOnly(rows: seq<Row>, rows2: seq<Row>, ts: int)
  {
    |rows2| == |rows| &&
    forall i :: 0 <= i < |rows| ==>
      rows2[i] == rows[i] ||
      (rows[i].IsCurrent() && rows[i].source == DataSource && rows2[i] == Close(rows[i], ts))
  }

  /**
   * What steps 1 and 2 leave: a row changes only by closing a current K-ruoka
   * row, a row still current was neither changed nor gone, a current row that
   * was neither is still current, and every current K-ruoka row of an incoming
   * id holds the incoming hash.
   */
  lemma StepsFacts(rows: seq<Row>, items: seq<Product>, ts: int, env: Env)
    ensures var st := Stage(items, env);
      var rows2 := AfterSteps(rows, items, ts, env);
      && ClosesOnly(rows, rows2, ts)
      && (forall i :: 0 <= i < |rows| && rows2[i].IsCurrent() ==>
            rows2[i] == rows[i] && !HashDiffers(rows[i], st) && !Gone(rows[i], Ids(items)))
      && (forall i :: (0 <= i < |rows| && rows[i].IsCurrent() && !HashDiffers(rows[i], st) &&
            !Gone(rows[i], Ids(items))) ==> rows2[i] == rows[i])
      && (forall i :: 0 <= i < |rows2| ==> !Gone(rows2[i], Ids(items)))
      && Settled(rows2, st)
      && IdsOf(Ids(items), st)
  {
    var st := Stage(items, env);
    var rows1 := CloseWhere(rows, ChangedClause(st), ts);
    var rows2 := CloseWhere(rows1, GoneClause(Ids(items)), ts);
    forall i, k | 0 <= i < |rows2| && 0 <= k < |st| && CurrentOf(rows2[i], st[k].item.id)
      ensures rows2[i].hash == Some(st[k].hash)
    {
      assert rows2[i] == rows1[i] == rows[i];
      assert !HashDiffers(rows[i], st);
    }
  }

  /** Step 3 adds the new row of exactly those incoming products that steps 1 and 2 left without a current row. */
  lemma AddedRows(rows: seq<Row>, items: seq<Product>, ts: int, env: Env)
    ensures var st := Stage(items, env);
      var rows2 := AfterSteps(rows, items, ts, env);
      forall r :: r in Added(rows, items, ts, env) <==>
        exists k :: 0 <= k < |st| && !HasCurrent(rows2, st[k].item.id) && r == NewRow(st[k], ts)
  {
    StepsFacts(rows, items, ts, env);
    InsertSelectWhenSettled(AfterSteps(rows, items, ts, env), Stage(items, env), ts);
    MissingMembers(AfterSteps(rows, items, ts, env), Stage(items, env), ts);
  }

  /** The shape of a successful update: the closed table followed by the added rows, keys free. */
  lemma ApplyOk(rows: seq<Row>, items: seq<Product>, ts: int, env: Env)
    requires Apply(rows, items, ts, env).result.Ok?
    ensures Apply(rows, items, ts, env).after == AfterSteps(rows, items, ts, env) + Added(rows, items, ts, env)
    ensures KeysFree(AfterSteps(rows, items, ts, env), Added(rows, items, ts, env))
  {
  }

  /** Closing rows keeps every (id, tonno_load_ts), so appending free keys keeps them unique. */
  lemma {:induction false} UniqueKeysAfterInsert(rows: seq<Row>, rows2: seq<Row>, added: seq<Row>, ts: int)
    requires ClosesOnly(rows, rows2, ts) && UniqueKeys(rows) && KeysFree(rows2, added)
    ensures UniqueKeys(rows2 + added)
  {
    var out := rows2 + added;
    forall i, j | 0 <= i < j < |out|
      ensures out[i].item.id != out[j].item.id || out[i].loadTs != out[j].loadTs
    {
      if j < |rows| {
        assert out[i].item == rows[i].item && out[i].loadTs == rows[i].loadTs;
        assert out[j].item == rows[j].item && out[j].loadTs == rows[j].loadTs;
      } else if i < |rows| {
        assert out[i] == rows2[i] && out[j] == added[j - |rows|];
      } else {
        assert out[i] == added[i - |rows|] && out[j] == added[j - |rows|];
      }
    }
  }

  /** New rows go only to ids without a current row, so one current row per id survives the insert. */
  lemma {:induction false} UniqueCurrentAfterInsert(rows: seq<Row>, rows2: seq<Row>, added: seq<Row>, st: seq<Staged>, ts: int)
    requires ClosesOnly(rows, rows2, ts) && UniqueCurrent(rows) && KeysFree(rows2, added)
    requires forall r :: r in added ==> exists k :: 0 <= k < |st| && !HasCurrent(rows2, st[k].item.id) && r == NewRow(st[k], ts)
    ensures UniqueCurrent(rows2 + added)
  {
    var out := rows2 + added;
    forall i, j | 0 <= i < j < |out| && out[i].IsCurrent() && out[j].IsCurrent() && out[i].source == out[j].source
      ensures out[i].item.id != out[j].item.id
    {
      if j < |rows| {
        assert out[i] == rows2[i] == rows[i] && out[j] == rows2[j] == rows[j];
      } else if i < |rows| {
        assert out[j] in added;
        var k :| 0 <= k < |st| && !HasCurrent(rows2, st[k].item.id) && out[j] == NewRow(st[k], ts);
        assert out[i] == rows2[i];
      } else {
        assert out[i] == added[i - |rows|] && out[j] == added[j - |rows|];
        assert out[i] in added && out[j] in added;
      }
    }
  }

  /**
   * Nothing else changes: a row either stays as it was or is a current
   * K-ruoka row closed at update_ts; closed rows and rows of other sources are
   * untouched, no row is removed, and every added row is a current K-ruoka row
   * loaded at update_ts carrying the hash of an incoming product.
   */
  lemma UpdateOnlyClosesCurrentRows(rows: seq<Row>, data: Option<seq<Product>>, ts: int, env: Env)
    ensures var out := Update(rows, data, ts, env).after;
      && |out| >= |rows|
      && (forall i :: 0 <= i < |rows| ==>
            out[i] == rows[i] ||
            (rows[i].IsCurrent() && rows[i].source == DataSource && out[i] == Close(rows[i], ts)))
      && (forall j :: |rows| <= j < |out| ==>
            data.Some? && out[j].item in data.value && out[j].source == DataSource &&
            out[j].loadTs == ts && out[j].IsCurrent() && out[j].hash == Some(RowHash(out[j].item, env)))
  {
    if data.Some? && data.value != [] && Apply(rows, data.value, ts, env).result.Ok? {
      var items := data.value;
      var rows2 := AfterSteps(rows, items, ts, env);
      var added := Added(rows, items, ts, env);
      StepsFacts(rows, items, ts, env);
      AddedShape(rows, items, ts, env);
      ApplyOk(rows, items, ts, env);
      var out := rows2 + added;
      forall j | |rows| <= j < |out|
        ensures out[j].item in items && out[j].source == DataSource && out[j].loadTs == ts &&
                out[j].IsCurrent() && out[j].hash == Some(RowHash(out[j].item, env))
      {
        assert out[j] == added[j - |rows|];
      }
    }
  }

  /** Every row step 3 adds is a current K-ruoka row of an incoming product, loaded at ts, holding its hash. */
  lemma AddedShape(rows: seq<Row>, items: seq<Product>, ts: int, env: Env)
    ensures var added := Added(rows, items, ts, env);
      forall j :: 0 <= j < |added| ==>
        added[j].item in items && added[j].source == DataSource && added[j].loadTs == ts &&
        added[j].IsCurrent() && added[j].hash == Some(RowHash(added[j].item, env))
  {
    var st := Stage(items, env);
    var rows2 := AfterSteps(rows, items, ts, env);
    var added := Added(rows, items, ts, env);
    AddedRows(rows, items, ts, env);
    forall j | 0 <= j < |added|
      ensures added[j].item in items && added[j].source == DataSource && added[j].loadTs == ts &&
              added[j].IsCurrent() && added[j].hash == Some(RowHash(added[j].item, env))
    {
      assert added[j] in added;
      var k :| 0 <= k < |st| && !HasCurrent(rows2, st[k].item.id) && added[j] == NewRow(st[k], ts);
      assert st[k].item == items[k];
    }
  }

  /** The update keeps (id, tonno_load_ts) unique. */
  lemma UpdateKeepsUniqueKeys(rows: seq<Row>, data: Option<seq<Product>>, ts: int, env: Env)
    requires UniqueKeys(rows)
    ensures UniqueKeys(Update(rows, data, ts, env).after)
  {
    if data.Some? && data.value != [] && Apply(rows, data.value, ts, env).result.Ok? {
      StepsFacts(rows, data.value, ts, env);
      ApplyOk(rows, data.value, ts, env);
      UniqueKeysAfterInsert(rows, AfterSteps(rows, data.value, ts, env), Added(rows, data.value, ts, env), ts);
    }
  }

  /**
   * At most one current row per (source, id) before the update means at most
   * one after it: a product gets a new row only when steps 1 and 2 left it
   * none, and two new rows of one id would break the unique index.
   */
  lemma UpdateKeepsUniqueCurrent(rows: seq<Row>, data: Option<seq<Product>>, ts: int, env: Env)
    requires UniqueCurrent(rows)
    ensures UniqueCurrent(Update(rows, data, ts, env).after)
  {
    if data.Some? && data.value != [] && Apply(rows, data.value, ts, env).result.Ok? {
      StepsFacts(rows, data.value, ts, env);
      AddedRows(rows, data.value, ts, env);
      ApplyOk(rows, data.value, ts, env);
      UniqueCurrentAfterInsert(rows, AfterSteps(rows, data.value, ts, env), Added(rows, data.value, ts, env),
                               Stage(data.value, env), ts);
    }
  }

  /** A current row that step 1 would close has an incoming id, so step 2 never counts it again. */
  lemma GoneRowsUnchanged(rows: seq<Row>, items: seq<Product>, env: Env)
    ensures forall i :: 0 <= i < |rows| ==>
      (GoneClause(Ids(items))(rows[i]) <==> !ChangedClause(Stage(items, env))(rows[i]) && GoneClause(Ids(items))(rows[i]))
  {
    var st := Stage(items, env);
    var ids := Ids(items);
    forall i | 0 <= i < |rows| && HashDiffers(rows[i], st) ensures !Gone(rows[i], ids) {
      var k :| 0 <= k < |st| && st[k].item.id == rows[i].item.id && rows[i].hash != Some(st[k].hash);
      assert ids[k] == rows[i].item.id;
    }
  }

  /** disappeared_count is the number of current K-ruoka rows, before the update, whose id is not incoming. */
  lemma DisappearedCountsGoneRows(rows: seq<Row>, items: seq<Product>, ts: int, env: Env)
    requires Apply(rows, items, ts, env).result.Ok?
    ensures Apply(rows, items, ts, env).result.value.disappeared == CountWhere(rows, GoneClause(Ids(items)))
  {
    GoneRowsUnchanged(rows, items, env);
    CountAfterClose(rows, ChangedClause(Stage(items, env)), GoneClause(Ids(items)), GoneClause(Ids(items)), ts);
  }

  /** A table in which every incoming product has its current row with its hash, and nothing is gone. */
  predicate InSync(rows: seq<Row>, st: seq<Staged>, ids: seq<string>)
  {
    && Settled(rows, st)
    && (forall k :: 0 <= k < |st| ==> HasCurrent(rows, st[k].item.id))
    && (forall i :: 0 <= i < |rows| ==> !Gone(rows[i], ids))
  }

  /** In sync, steps 1 and 2 close nothing. */
  lemma InSyncClosesNothing(rows: seq<Row>, items: seq<Product>, ts: int, env: Env)
    requires InSync(rows, Stage(items, env), Ids(items))
    ensures CountWhere(rows, ChangedClause(Stage(items, env))) == 0
    ensures CloseWhere(rows, ChangedClause(Stage(items, env)), ts) == rows
    ensures CountWhere(rows, GoneClause(Ids(items))) == 0
    ensures AfterSteps(rows, items, ts, env) == rows
  {
    var st := Stage(items, env);
    assert forall i :: 0 <= i < |rows| ==> !ChangedClause(st)(rows[i]);
    assert forall i :: 0 <= i < |rows| ==> !GoneClause(Ids(items))(rows[i]);
    CountWhereExtremes(rows, ChangedClause(st));
    CountWhereExtremes(rows, GoneClause(Ids(items)));
  }

  /** In sync, step 3 adds nothing. */
  lemma InSyncAddsNothing(rows: seq<Row>, items: seq<Product>, ts: int, env: Env)
    requires InSync(rows, Stage(items, env), Ids(items))
    ensures Added(rows, items, ts, env) == []
  {
    InSyncClosesNothing(rows, items, ts, env);
    InsertSelectWhenSettled(rows, Stage(items, env), ts);
    NothingMissing(rows, Stage(items, env), ts);
  }

  /** Against a table in sync with the incoming products, the update writes nothing and reports 0, 0, 0. */
  lemma InSyncIsNoop(rows: seq<Row>, items: seq<Product>, ts: int, env: Env)
    requires InSync(rows, Stage(items, env), Ids(items))
    ensures Apply(rows, items, ts, env) == Txn(rows, Ok(UpdateComplete(0, 0, 0)))
  {
    InSyncClosesNothing(rows, items, ts, env);
    InSyncAddsNothing(rows, items, ts, env);
    assert rows + [] == rows;
  }

  /** Appending the missing rows for distinct incoming ids to a settled table with nothing gone puts it in sync. */
  lemma {:induction false} InSyncAfterInsert(rows2: seq<Row>, added: seq<Row>, st: seq<Staged>, ids: seq<string>, ts: int)
    requires IdsOf(ids, st) && DistinctStaged(st) && Settled(rows2, st)
    requires forall i :: 0 <= i < |rows2| ==> !Gone(rows2[i], ids)
    requires forall r :: r in added <==> exists k :: 0 <= k < |st| && !HasCurrent(rows2, st[k].item.id) && r == NewRow(st[k], ts)
    ensures InSync(rows2 + added, st, ids)
  {
    var out := rows2 + added;
    forall i, k | 0 <= i < |out| && 0 <= k < |st| && CurrentOf(out[i], st[k].item.id)
      ensures out[i].hash == Some(st[k].hash)
    {
      if i >= |rows2| {
        assert out[i] in added;
        var k' :| 0 <= k' < |st| && !HasCurrent(rows2, st[k'].item.id) && out[i] == NewRow(st[k'], ts);
        assert k' == k;
      } else {
        assert out[i] == rows2[i];
      }
    }
    forall k | 0 <= k < |st| ensures HasCurrent(out, st[k].item.id) {
      if HasCurrent(rows2, st[k].item.id) {
        var i :| 0 <= i < |rows2| && CurrentOf(rows2[i], st[k].item.id);
        assert out[i] == rows2[i];
      } else {
        assert NewRow(st[k], ts) in added;
        var j :| 0 <= j < |added| && added[j] == NewRow(st[k], ts);
        assert out[|rows2| + j] == NewRow(st[k], ts);
      }
    }
    forall i | 0 <= i < |out| ensures !Gone(out[i], ids) {
      if i >= |rows2| {
        assert out[i] in added;
        var k :| 0 <= k < |st| && !HasCurrent(rows2, st[k].item.id) && out[i] == NewRow(st[k], ts);
        assert ids[k] == out[i].item.id;
      } else {
        assert out[i] == rows2[i];
      }
    }
  }

  lemma StagedDistinct(items: seq<Product>, env: Env)
    requires DistinctIds(items)
    ensures DistinctStaged(Stage(items, env))
  {
  }

  /** After a successful update with distinct ids the table is in sync with the products it was given. */
  lemma ApplyLeavesInSync(rows: seq<Row>, items: seq<Product>, ts: int, env: Env)
    requires DistinctIds(items)
    requires Apply(rows, items, ts, env).result.Ok?
    ensures InSync(Apply(rows, items, ts, env).after, Stage(items, env), Ids(items))
  {
    StepsFacts(rows, items, ts, env);
    AddedRows(rows, items, ts, env);
    ApplyOk(rows, items, ts, env);
    StagedDistinct(items, env);
    InSyncAfterInsert(AfterSteps(rows, items, ts, env), Added(rows, items, ts, env), Stage(items, env), Ids(items), ts);
  }

  /**
   * Re-running the update with the same products, at any later update_ts,
   * changes nothing and reports inserted = updated = disappeared = 0.
   */
  lemma UpdateIsIdempotent(rows: seq<Row>, items: seq<Product>, ts: int, ts2: int, env: Env)
    requires items != [] && DistinctIds(items)
    requires Update(rows, Some(items), ts, env).result.Ok?
    ensures var out := Update(rows, Some(items), ts, env).after;
      Update(out, Some(items), ts2, env) == Txn(out, Ok(UpdateComplete(0, 0, 0)))
  {
    ApplyLeavesInSync(rows, items, ts, env);
    InSyncIsNoop(Update(rows, Some(items), ts, env).after, items, ts2, env);
  }

  /** After steps 1 and 2, an incoming product has no current row exactly when it was new or changed. */
  lemma {:induction false} ClassifyAfterSteps(rows: seq<Row>, rows2: seq<Row>, st: seq<Staged>, ids: seq<string>, ts: int, k: nat)
    requires UniqueCurrent(rows) && IdsOf(ids, st) && DistinctStaged(st) && k < |st|
    requires ClosesOnly(rows, rows2, ts)
    requires forall i :: 0 <= i < |rows| && rows2[i].IsCurrent() ==> rows2[i] == rows[i] && !HashDiffers(rows[i], st)
    requires forall i :: (0 <= i < |rows| && rows[i].IsCurrent() && !HashDiffers(rows[i], st) &&
               !Gone(rows[i], ids)) ==> rows2[i] == rows[i]
    ensures !HasCurrent(rows2, st[k].item.id) <==> Classify(rows, st[k]) != Unchanged
  {
    var id := st[k].item.id;
    match Classify(rows, st[k])
    case New =>
    case Changed =>
      var i :| 0 <= i < |rows| && CurrentOf(rows[i], id) && rows[i].hash != Some(st[k].hash);
      assert HashDiffers(rows[i], st);
    case Unchanged =>
      var i :| 0 <= i < |rows| && CurrentOf(rows[i], id);
      assert !HashDiffers(rows[i], st) by {
        forall k' | 0 <= k' < |st| && st[k'].item.id == rows[i].item.id
          ensures rows[i].hash == Some(st[k'].hash)
        {
          assert k' == k;
        }
      }
      assert ids[k] == id;
      assert CurrentOf(rows2[i], id);
  }

  /** With distinct ids, a product's new row is among the missing rows exactly when its id has no current row. */
  lemma NewRowAdded(rows2: seq<Row>, added: seq<Row>, st: seq<Staged>, ts: int, k: nat)
    requires DistinctStaged(st) && k < |st|
    requires forall r :: r in added <==> exists k :: 0 <= k < |st| && !HasCurrent(rows2, st[k].item.id) && r == NewRow(st[k], ts)
    ensures NewRow(st[k], ts) in added <==> !HasCurrent(rows2, st[k].item.id)
  {
    if NewRow(st[k], ts) in added {
      var k' :| 0 <= k' < |st| && !HasCurrent(rows2, st[k'].item.id) && NewRow(st[k], ts) == NewRow(st[k'], ts);
      assert st[k'].item.id == st[k].item.id;
    }
  }

  /**
   * Step 3 inserts a row for exactly the incoming products that are new (no
   * current row) or changed (their current row's hash differs); unchanged
   * products get no new row.
   */
  lemma InsertsExactlyNewAndChanged(rows: seq<Row>, items: seq<Product>, ts: int, env: Env, k: nat)
    requires UniqueCurrent(rows) && DistinctIds(items)
    requires Apply(rows, items, ts, env).result.Ok?
    requires k < |items|
    ensures var st := Stage(items, env);
      NewRow(st[k], ts) in Apply(rows, items, ts, env).after[|rows|..] <==> Classify(rows, st[k]) != Unchanged
  {
    var st := Stage(items, env);
    var rows2 := AfterSteps(rows, items, ts, env);
    var added := Added(rows, items, ts, env);
    StepsFacts(rows, items, ts, env);
    AddedRows(rows, items, ts, env);
    ApplyOk(rows, items, ts, env);
    StagedDistinct(items, env);
    assert Apply(rows, items, ts, env).after[|rows|..] == added;
    NewRowAdded(rows2, added, st, ts, k);
    ClassifyAfterSteps(rows, rows2, st, Ids(items), ts, k);
  }

  /** Right after the initial insert into a table with no K-ruoka rows, the table is in sync with those products. */
  lemma InitLeavesInSync(rows: seq<Row>, items: seq<Product>, now: nat -> int, env: Env)
    requires DistinctIds(items)
    requires !HasRowsOf(rows, DataSource)
    ensures InSync(rows + InitRecords(items, now, env), Stage(items, env), Ids(items))
  {
    InitSettled(rows, items, now, env);
    InitCoversIncoming(rows, items, now, env);
  }

  /** The initial rows hold the hashes the update computes, and no other K-ruoka row is current. */
  lemma InitSettled(rows: seq<Row>, items: seq<Product>, now: nat -> int, env: Env)
    requires DistinctIds(items)
    requires !HasRowsOf(rows, DataSource)
    ensures Settled(rows + InitRecords(items, now, env), Stage(items, env))
  {
    var records := InitRecords(items, now, env);
    var out := rows + records;
    var st := Stage(items, env);
    forall i | 0 <= i < |rows| ensures out[i].source != DataSource {
      assert out[i] == rows[i];
    }
    forall i, k | |rows| <= i < |out| && 0 <= k < |st| && CurrentOf(out[i], st[k].item.id)
      ensures out[i].hash == Some(st[k].hash)
    {
      assert out[i] == records[i - |rows|];
      assert items[i - |rows|].id == items[k].id;
    }
  }

  /** After the initial insert every incoming product has a current row and no current K-ruoka row is gone. */
  lemma InitCoversIncoming(rows: seq<Row>, items: seq<Product>, now: nat -> int, env: Env)
    requires !HasRowsOf(rows, DataSource)
    ensures var out := rows + InitRecords(items, now, env);
      && (forall k :: 0 <= k < |items| ==> HasCurrent(out, Stage(items, env)[k].item.id))
      && (forall i :: 0 <= i < |out| ==> !Gone(out[i], Ids(items)))
  {
    var records := InitRecords(items, now, env);
    var out := rows + records;
    var st := Stage(items, env);
    var ids := Ids(items);
    forall k | 0 <= k < |st| ensures HasCurrent(out, st[k].item.id) {
      assert CurrentOf(out[|rows| + k], st[k].item.id);
    }
    forall i | 0 <= i < |out| ensures !Gone(out[i], ids) {
      if i < |rows| {
        assert out[i] == rows[i];
      } else {
        assert ids[i - |rows|] == out[i].item.id;
      }
    }
  }

  /**
   * The two hash paths agree: right after an initial insert into a table with
   * no K-ruoka rows, an update with the same products writes nothing.
   */
  lemma InitThenUpdateIsNoop(rows: seq<Row>, items: seq<Product>, now: nat -> int, ts: int, env: Env)
    requires items != [] && DistinctIds(items)
    requires !HasRowsOf(rows, DataSource)
    requires KeysFree(rows, InitRecords(items, now, env))
    ensures var out := Init(rows, Some(items), now, env).after;
      Update(out, Some(items), ts, env) == Txn(out, Ok(UpdateComplete(0, 0, 0)))
  {
    InsertWithoutConflicts(rows, InitRecords(items, now, env));
    InitLeavesInSync(rows, items, now, env);
    InSyncIsNoop(rows + InitRecords(items, now, env), items, ts, env);
  }
}
