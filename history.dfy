/**
 * The read side of the ledger: the price-history query, which compacts one
 * product's rows into intervals of unchanged (normal_price, batch_price), and
 * the product list for the selection dropdown.
 */
module PriceHistory {
  import opened Wrappers
  import opened Ledger
  import opened Sorting

  /** One PriceHistoryRow of the answer. */
  datatype Interval = Interval(
    nameFinnish: Option<string>,
    normalPrice: Option<real>,
    batchPrice: Option<real>,
    batchDiscountPct: Option<real>,
    batchDiscountType: Option<string>,
    netWeight: Option<real>,
    contentUnit: Option<string>,
    pricePerWeight: Option<real>,
    dataSource: string,
    validFrom: int,
    validTo: Option<int>)

  /** The HTTP error the endpoint raises: 404 "Product not found". */
  datatype HttpError = NotFound

  // ---------------------------------------------------------------------------
  // The rows of one product, ordered by tonno_load_ts

  /** WHERE id = product_id: the product's rows of every source, in table order. */
  function RowsFor(rows: seq<Row>, id: string): (s: seq<Row>)
    ensures forall r :: r in s <==> r in rows && r.item.id == id
  {
    if rows == [] then []
    else
      var last := rows[|rows| - 1];
      RowsFor(rows[..|rows| - 1], id) + (if last.item.id == id then [last] else [])
  }

  /** The WHERE clause keeps every row with the id exactly as often as the table holds it, and no other row. */
  lemma {:induction false} RowsForCounts(rows: seq<Row>, id: string)
    ensures forall r :: multiset(RowsFor(rows, id))[r] == if r.item.id == id then multiset(rows)[r] else 0
  {
    if rows != [] {
      var init, last := rows[..|rows| - 1], rows[|rows| - 1];
      RowsForCounts(init, id);
      DropLastAppend(rows);
      assert multiset(rows) == multiset(init) + multiset{last};
    }
  }

  /** The product has as many rows as the table has rows with its id. */
  lemma {:induction false} RowsForSize(rows: seq<Row>, id: string)
    ensures |RowsFor(rows, id)| == CountWhere(rows, HasId(id))
  {
    if rows != [] {
      RowsForSize(rows[..|rows| - 1], id);
    }
  }

  /** The WHERE clause id = product_id. */
  function HasId(id: string): Row -> bool
  {
    (r: Row) => r.item.id == id
  }

  lemma DropLastAppend<T>(s: seq<T>)
    requires s != []
    ensures s[..|s| - 1] + [s[|s| - 1]] == s
  {
  }

  /** When every row has the id, the WHERE clause keeps them all, in order. */
  lemma {:induction false} RowsForOneProduct(rows: seq<Row>, id: string)
    requires forall i :: 0 <= i < |rows| ==> rows[i].item.id == id
    ensures RowsFor(rows, id) == rows
  {
    if rows != [] {
      RowsForOneProduct(rows[..|rows| - 1], id);
      DropLastAppend(rows);
    }
  }

  /** The rows of one product, already in load order, come back as they are. */
  lemma OrderedOneProduct(rows: seq<Row>, id: string)
    requires forall i :: 0 <= i < |rows| ==> rows[i].item.id == id
    requires forall i, j :: 0 <= i < j < |rows| ==> rows[i].loadTs <= rows[j].loadTs
    ensures Ordered(rows, id) == rows
  {
    RowsForOneProduct(rows, id);
    SortByKeepsSorted(rows, ByLoad());
  }

  function ByLoad(): (Row, Row) -> bool
  {
    (a: Row, b: Row) => a.loadTs <= b.loadTs
  }

  /** The product's rows, ordered by tonno_load_ts. */
  function Ordered(rows: seq<Row>, id: string): seq<Row>
  {
    SortBy(RowsFor(rows, id), ByLoad())
  }

  /**
   * The ordered rows are exactly the product's rows, each as often as the
   * table holds it, ascending in tonno_load_ts.
   */
  lemma OrderedRows(rows: seq<Row>, id: string)
    ensures SortedBy(Ordered(rows, id), ByLoad())
    ensures forall r :: r in Ordered(rows, id) <==> r in rows && r.item.id == id
    ensures forall r :: multiset(Ordered(rows, id))[r] == if r.item.id == id then multiset(rows)[r] else 0
    ensures |Ordered(rows, id)| == CountWhere(rows, HasId(id))
  {
    RowsForSize(rows, id);
    RowsForCounts(rows, id);
    SortBySorted(RowsFor(rows, id), ByLoad());
    var s := Ordered(rows, id);
    forall r ensures r in s <==> r in RowsFor(rows, id) {
      assert r in s <==> r in multiset(s);
    }
  }

  // ---------------------------------------------------------------------------
  // price_changed and price_group

  /** The pair the query compares and groups on. */
  function PriceKey(r: Row): (Option<real>, Option<real>)
  {
    (r.item.normalPrice, r.item.batchPrice)
  }

  /**
   * price_changed of row i: its normal_price or batch_price IS DISTINCT FROM
   * the previous row's; before the first row LAG yields NULL for both.
   */
  function PriceChanged(s: seq<Row>, i: nat): bool
    requires i < |s|
  {
    if i == 0 then PriceKey(s[0]) != (None, None) else PriceKey(s[i]) != PriceKey(s[i - 1])
  }

  /** price_group of row i: the running SUM of price_changed up to row i. */
  function PriceGroup(s: seq<Row>, i: nat): nat
    requires i < |s|
  {
    (if i == 0 then 0 else PriceGroup(s, i - 1)) + (if PriceChanged(s, i) then 1 else 0)
  }

  lemma {:induction false} PriceGroupMonotone(s: seq<Row>, i: nat, j: nat)
    requires i <= j < |s|
    ensures PriceGroup(s, i) <= PriceGroup(s, j)
    decreases j - i
  {
    if i < j {
      PriceGroupMonotone(s, i, j - 1);
    }
  }

  /**
   * Two rows share a price_group iff no row from the later back to just after
   * the earlier changes the pair; rows of one group then share the pair, so
   * adding the pair to GROUP BY never splits a group.
   */
  lemma {:induction false} SameGroupIffNoChange(s: seq<Row>, i: nat, j: nat)
    requires i <= j < |s|
    ensures PriceGroup(s, i) == PriceGroup(s, j) <==>
              forall k :: i < k <= j ==> PriceKey(s[k]) == PriceKey(s[k - 1])
    ensures PriceGroup(s, i) == PriceGroup(s, j) ==> PriceKey(s[i]) == PriceKey(s[j])
    decreases j - i
  {
    if i < j {
      SameGroupIffNoChange(s, i, j - 1);
      PriceGroupMonotone(s, i, j - 1);
    }
  }

  // ---------------------------------------------------------------------------
  // Runs: the groups, in order

  /** The length of the leading run of rows that share the first row's pair. */
  function RunLength(s: seq<Row>): (n: nat)
    requires s != []
    ensures 1 <= n <= |s|
    ensures forall k :: 0 <= k < n ==> PriceKey(s[k]) == PriceKey(s[0])
    ensures n < |s| ==> PriceKey(s[n]) != PriceKey(s[0])
    decreases |s|
  {
    if |s| == 1 || PriceKey(s[1]) != PriceKey(s[0]) then 1
    else 1 + RunLength(s[1..])
  }

  function Flatten(runs: seq<seq<Row>>): seq<Row>
  {
    if runs == [] then [] else runs[0] + Flatten(runs[1..])
  }

  /** The maximal runs of consecutive rows with an unchanged pair: every row in exactly one, in order. */
  function Runs(s: seq<Row>): (runs: seq<seq<Row>>)
    ensures |runs| <= |s|
    ensures forall k :: 0 <= k < |runs| ==> runs[k] != []
    ensures Flatten(runs) == s
    decreases |s|
  {
    if s == [] then []
    else
      var n := RunLength(s);
      var rest := Runs(s[n..]);
      var runs := [s[..n]] + rest;
      assert runs[1..] == rest;
      assert s[..n] + s[n..] == s;
      runs
  }

  /** Runs of a non-empty sequence: the leading run, then the runs of the rest. */
  lemma RunsCons(s: seq<Row>)
    requires s != []
    ensures var n := RunLength(s);
      && Runs(s) == [s[..n]] + Runs(s[n..])
      && (forall k :: 1 <= k < |Runs(s)| ==> Runs(s)[k] == Runs(s[n..])[k - 1])
      && (Runs(s[n..]) != [] ==> Runs(s[n..])[0][0] == s[n])
  {
    var n := RunLength(s);
    var rest := Runs(s[n..]);
    if rest != [] {
      assert Flatten(rest) == rest[0] + Flatten(rest[1..]);
    }
  }

  /** Each run holds one pair, and neighbouring runs hold different pairs. */
  lemma {:induction false} RunsAreMaximal(s: seq<Row>)
    ensures forall k, i :: 0 <= k < |Runs(s)| && 0 <= i < |Runs(s)[k]| ==>
              PriceKey(Runs(s)[k][i]) == PriceKey(Runs(s)[k][0])
    ensures forall k :: 0 <= k < |Runs(s)| - 1 ==> PriceKey(Runs(s)[k + 1][0]) != PriceKey(Runs(s)[k][0])
    decreases |s|
  {
    if s != [] {
      var n := RunLength(s);
      RunsAreMaximal(s[n..]);
      RunsCons(s);
    }
  }

  /** Tags each position of Flatten(runs) with the index of the run it lies in. */
  function Labels(runs: seq<seq<Row>>): (ls: seq<nat>)
    ensures |ls| == |Flatten(runs)|
  {
    if runs == [] then []
    else
      var rest := Labels(runs[1..]);
      seq(|runs[0]|, i => 0) + seq(|rest|, i requires 0 <= i < |rest| => rest[i] + 1)
  }

  lemma LabelsSplit(ls: seq<nat>, n: nat, rest: seq<nat>)
    requires ls == seq(n, i => 0) + seq(|rest|, i requires 0 <= i < |rest| => rest[i] + 1)
    ensures |ls| == n + |rest|
    ensures forall p :: 0 <= p < n ==> ls[p] == 0
    ensures forall p :: n <= p < |ls| ==> ls[p] == rest[p - n] + 1
  {
  }

  /** The run index starts at 0 and grows by one exactly where the pair changes. */
  lemma {:induction false} LabelsOfRuns(s: seq<Row>)
    ensures |Labels(Runs(s))| == |s|
    ensures s != [] ==> Labels(Runs(s))[0] == 0
    ensures forall p :: 0 < p < |s| ==>
              Labels(Runs(s))[p] == Labels(Runs(s))[p - 1] + (if PriceKey(s[p]) != PriceKey(s[p - 1]) then 1 else 0)
    decreases |s|
  {
    if s != [] {
      var n := RunLength(s);
      var tail := s[n..];
      LabelsOfRuns(tail);
      var runs := Runs(s);
      assert runs[1..] == Runs(tail);
      var rest := Labels(Runs(tail));
      var ls := Labels(runs);
      assert |runs[0]| == n;
      assert |ls| == |s| by {
        assert |Flatten(runs)| == n + |Flatten(Runs(tail))|;
      }
      LabelsSplit(ls, n, rest);
      forall p | 0 < p < |s|
        ensures ls[p] == ls[p - 1] + (if PriceKey(s[p]) != PriceKey(s[p - 1]) then 1 else 0)
      {
        if p > n {
          assert tail[p - n] == s[p] && tail[p - n - 1] == s[p - 1];
        } else if p == n {
          assert rest[0] == 0;
        }
      }
    }
  }

  /**
   * price_group is the run index, offset by one when the first row has a
   * price (LAG is NULL before it): rows share a price_group exactly when
   * they lie in the same run.
   */
  lemma {:induction false} GroupIsRunIndex(s: seq<Row>, p: nat)
    requires p < |s|
    ensures |Labels(Runs(s))| == |s|
    ensures PriceGroup(s, p) == Labels(Runs(s))[p] + (if PriceChanged(s, 0) then 1 else 0)
  {
    LabelsOfRuns(s);
    if p > 0 {
      GroupIsRunIndex(s, p - 1);
    }
  }

  /**
   * GROUP BY price_group, normal_price, batch_price puts two rows of the
   * ordered sequence together exactly when they lie in the same run.
   */
  lemma GroupByIsRuns(s: seq<Row>, p: nat, q: nat)
    requires p <= q < |s|
    ensures |Labels(Runs(s))| == |s|
    ensures (PriceGroup(s, p), PriceKey(s[p])) == (PriceGroup(s, q), PriceKey(s[q])) <==>
              Labels(Runs(s))[p] == Labels(Runs(s))[q]
  {
    GroupIsRunIndex(s, p);
    GroupIsRunIndex(s, q);
    SameGroupIffNoChange(s, p, q);
  }

  /** Every row of a run is a row of the input. */
  lemma {:induction false} RunsWithin(s: seq<Row>)
    ensures forall k, i :: 0 <= k < |Runs(s)| && 0 <= i < |Runs(s)[k]| ==> Runs(s)[k][i] in s
    decreases |s|
  {
    if s != [] {
      var n := RunLength(s);
      RunsWithin(s[n..]);
      var runs := Runs(s);
      assert forall k :: 1 <= k < |runs| ==> runs[k] == Runs(s[n..])[k - 1];
      forall k, i | 0 <= k < |runs| && 0 <= i < |runs[k]| ensures runs[k][i] in s {
        if k == 0 {
          assert runs[0][i] == s[i];
        } else {
          assert runs[k][i] in s[n..];
        }
      }
    }
  }

  /** A slice of an ordered sequence is ordered. */
  lemma SliceSorted(s: seq<Row>, a: nat, b: nat)
    requires a <= b <= |s| && SortedBy(s, ByLoad())
    ensures SortedBy(s[a..b], ByLoad())
  {
    forall i, j | 0 <= i < j < b - a ensures s[a..b][i].loadTs <= s[a..b][j].loadTs {
      assert s[a..b][i] == s[a + i] && s[a..b][j] == s[a + j];
    }
  }

  /** On rows ordered by load time, each run is ordered and runs start in load-time order. */
  lemma {:induction false} RunsOrdered(s: seq<Row>)
    requires SortedBy(s, ByLoad())
    ensures forall k :: 0 <= k < |Runs(s)| ==> SortedBy(Runs(s)[k], ByLoad())
    ensures forall k, l :: 0 <= k < l < |Runs(s)| ==> Runs(s)[k][0].loadTs <= Runs(s)[l][0].loadTs
    decreases |s|
  {
    if s != [] {
      var n := RunLength(s);
      var tail := s[n..];
      SliceSorted(s, 0, n);
      SliceSorted(s, n, |s|);
      RunsOrdered(tail);
      RunsCons(s);
      RestStartsLater(s);
      ConsOrdered(Runs(s), s[..n], Runs(tail));
    }
  }

  /** On ordered rows, every run after the leading one starts no earlier than the first row. */
  lemma RestStartsLater(s: seq<Row>)
    requires s != [] && SortedBy(s, ByLoad())
    ensures var tail := s[RunLength(s)..];
      forall l :: 0 <= l < |Runs(tail)| ==> s[0].loadTs <= Runs(tail)[l][0].loadTs
  {
    var n := RunLength(s);
    var tail := s[n..];
    var rest: seq<seq<Row>> := Runs(tail);
    RunsWithin(tail);
    forall l | 0 <= l < |rest| ensures s[0].loadTs <= rest[l][0].loadTs {
      assert rest[l][0] in tail;
      var j :| 0 <= j < |tail| && tail[j] == rest[l][0];
      assert tail[j] == s[n + j];
      assert ByLoad()(s[0], s[n + j]);
    }
  }

  /** Putting an ordered run that starts first in front of ordered runs keeps them ordered. */
  lemma ConsOrdered(runs: seq<seq<Row>>, first: seq<Row>, rest: seq<seq<Row>>)
    requires runs == [first] + rest && first != [] && SortedBy(first, ByLoad())
    requires forall l :: 0 <= l < |rest| ==> rest[l] != [] && SortedBy(rest[l], ByLoad())
    requires forall l :: 0 <= l < |rest| ==> first[0].loadTs <= rest[l][0].loadTs
    requires forall k, l :: 0 <= k < l < |rest| ==> rest[k][0].loadTs <= rest[l][0].loadTs
    ensures forall k :: 0 <= k < |runs| ==> SortedBy(runs[k], ByLoad())
    ensures forall k, l :: 0 <= k < l < |runs| ==> runs[k][0].loadTs <= runs[l][0].loadTs
  {
    forall k, l | 0 <= k < l < |runs| ensures runs[k][0].loadTs <= runs[l][0].loadTs {
      assert runs[l] == rest[l - 1];
      if k > 0 {
        assert runs[k] == rest[k - 1];
      }
    }
    forall k | 0 <= k < |runs| ensures SortedBy(runs[k], ByLoad()) {
      if k > 0 {
        assert runs[k] == rest[k - 1];
      }
    }
  }

  // ---------------------------------------------------------------------------
  // The aggregates of one group

  /** MIN(tonno_load_ts) */
  function MinLoad(run: seq<Row>): (m: int)
    requires run != []
    ensures exists i :: 0 <= i < |run| && run[i].loadTs == m
    ensures forall i :: 0 <= i < |run| ==> m <= run[i].loadTs
  {
    if |run| == 1 then run[0].loadTs
    else
      var m := MinLoad(run[..|run| - 1]);
      assert forall i :: 0 <= i < |run| - 1 ==> run[..|run| - 1][i] == run[i];
      if run[|run| - 1].loadTs < m then run[|run| - 1].loadTs else m
  }

  /** MAX(tonno_end_ts): NULLs are skipped, and the result is NULL only when every row is open. */
  function MaxEnd(run: seq<Row>): (m: Option<int>)
    ensures m.None? <==> forall i :: 0 <= i < |run| ==> run[i].endTs.None?
    ensures m.Some? ==> exists i :: 0 <= i < |run| && run[i].endTs == m
    ensures m.Some? ==> forall i :: 0 <= i < |run| && run[i].endTs.Some? ==> run[i].endTs.value <= m.value
  {
    if run == [] then None
    else
      var front := run[..|run| - 1];
      var m := MaxEnd(front);
      var e := run[|run| - 1].endTs;
      assert forall i :: 0 <= i < |run| - 1 ==> front[i] == run[i];
      if e.None? then m
      else if m.None? || m.value < e.value then e
      else m
  }

  /** CASE WHEN batch_price IS NOT NULL AND batch_price < normal_price THEN batch_price ELSE normal_price END */
  function BatchIfLower(normal: Option<real>, batch: Option<real>): Option<real>
  {
    if batch.Some? && normal.Some? && batch.value < normal.value then batch else normal
  }

  function Coalesce(a: Option<real>, b: Option<real>): Option<real>
  {
    if a.Some? then a else b
  }

  /**
   * The effective price: the lesser of the two prices when both are present,
   * the normal price when there is no batch price, and NULL without a normal price.
   */
  function EffectivePrice(normal: Option<real>, batch: Option<real>): (e: Option<real>)
    ensures e.Some? <==> normal.Some?
    ensures e.Some? ==> e.value <= normal.value && (batch.Some? ==> e.value <= batch.value)
    ensures e.Some? ==> e == normal || e == batch
  {
    Coalesce(BatchIfLower(normal, batch), normal)
  }

  /** price_per_weight: the effective price per unit of the first net_weight, when that weight is positive. */
  function PricePerWeight(effective: Option<real>, netWeight: Option<real>): (r: Option<real>)
    ensures r.Some? <==> netWeight.Some? && netWeight.value > 0.0 && effective.Some?
    ensures r.Some? ==> r.value * netWeight.value == effective.value
  {
    if netWeight.Some? && netWeight.value > 0.0 then
      (if effective.Some? then Some(effective.value / netWeight.value) else None)
    else None
  }

  /** One output row: the group's pair, the earliest row's other columns, MIN of loads and MAX of ends. */
  function Summarize(run: seq<Row>): Interval
    requires run != []
  {
    var first := run[0].item;
    Interval(
      first.nameFinnish,
      first.normalPrice,
      first.batchPrice,
      first.batchDiscountPct,
      first.batchDiscountType,
      first.netWeight,
      first.contentUnit,
      PricePerWeight(EffectivePrice(first.normalPrice, first.batchPrice), first.netWeight),
      run[0].source,
      MinLoad(run),
      MaxEnd(run))
  }

  /**
   * An interval starts at the first row of its run: valid_from is that row's
   * load time, no row of the run loads earlier, and the descriptive columns
   * and the source are that row's.
   */
  predicate StartsAtFirst(iv: Interval, run: seq<Row>)
  {
    && run != []
    && iv.validFrom == run[0].loadTs
    && (forall i :: 0 <= i < |run| ==> run[0].loadTs <= run[i].loadTs)
    && iv.nameFinnish == run[0].item.nameFinnish
    && iv.batchDiscountPct == run[0].item.batchDiscountPct
    && iv.batchDiscountType == run[0].item.batchDiscountType
    && iv.netWeight == run[0].item.netWeight
    && iv.contentUnit == run[0].item.contentUnit
    && iv.dataSource == run[0].source
  }

  lemma SummarizeOrderedRun(run: seq<Row>)
    requires run != [] && SortedBy(run, ByLoad())
    ensures StartsAtFirst(Summarize(run), run)
  {
    forall i | 0 < i < |run| ensures run[0].loadTs <= run[i].loadTs {
      assert ByLoad()(run[0], run[i]);
    }
  }

  /**
   * The price-per-weight rule of an interval: price_per_weight is present
   * exactly when net_weight is positive and there is a normal price, and it
   * is then the effective price per unit of net_weight.
   */
  predicate PerWeightRule(iv: Interval)
  {
    && (iv.pricePerWeight.Some? <==> iv.netWeight.Some? && iv.netWeight.value > 0.0 && iv.normalPrice.Some?)
    && (iv.pricePerWeight.Some? ==>
          iv.pricePerWeight.value * iv.netWeight.value == EffectivePrice(iv.normalPrice, iv.batchPrice).value)
  }

  /** The price-per-weight rule for one interval. */
  lemma SummarizePricePerWeight(run: seq<Row>)
    requires run != []
    ensures PerWeightRule(Summarize(run))
  {
  }

  function SummarizeAll(runs: seq<seq<Row>>): (ivs: seq<Interval>)
    requires forall k :: 0 <= k < |runs| ==> runs[k] != []
    ensures |ivs| == |runs|
  {
    seq(|runs|, k requires 0 <= k < |runs| => Summarize(runs[k]))
  }

  /** get_price_history */
  function GetPriceHistory(rows: seq<Row>, productId: string): Result<seq<Interval>, HttpError>
  {
    var s := Ordered(rows, productId);
    if s == [] then Err(NotFound) else Ok(SummarizeAll(Runs(s)))
  }

  // ---------------------------------------------------------------------------
  // Properties of the price history

  /** 404 exactly when no row, of any source, has the id. */
  lemma NotFoundIffNoRows(rows: seq<Row>, productId: string)
    ensures GetPriceHistory(rows, productId) == Err(NotFound) <==>
              forall i :: 0 <= i < |rows| ==> rows[i].item.id != productId
  {
    OrderedRows(rows, productId);
    var s := Ordered(rows, productId);
    if s != [] {
      assert s[0] in s;
    }
    if exists i :: 0 <= i < |rows| && rows[i].item.id == productId {
      var i :| 0 <= i < |rows| && rows[i].item.id == productId;
      assert rows[i] in s;
    }
  }

  /**
   * The intervals are the maximal runs of the product's rows ordered by load
   * time: every row in exactly one, no more intervals than rows, each
   * carrying its run's pair, neighbours with different pairs.
   */
  lemma IntervalsAreRuns(rows: seq<Row>, productId: string)
    requires GetPriceHistory(rows, productId).Ok?
    ensures var s := Ordered(rows, productId);
      var ivs := GetPriceHistory(rows, productId).value;
      && Flatten(Runs(s)) == s
      && |ivs| == |Runs(s)| <= |s| == CountWhere(rows, HasId(productId))
      && (forall k, i :: 0 <= k < |ivs| && 0 <= i < |Runs(s)[k]| ==>
            (ivs[k].normalPrice, ivs[k].batchPrice) == PriceKey(Runs(s)[k][i]))
      && (forall k :: 0 <= k < |ivs| - 1 ==>
            (ivs[k].normalPrice, ivs[k].batchPrice) != (ivs[k + 1].normalPrice, ivs[k + 1].batchPrice))
  {
    var s := Ordered(rows, productId);
    var runs := Runs(s);
    var ivs := GetPriceHistory(rows, productId).value;
    RowsForSize(rows, productId);
    RunsAreMaximal(s);
    forall k | 0 <= k < |ivs| ensures (ivs[k].normalPrice, ivs[k].batchPrice) == PriceKey(runs[k][0]) {
      assert ivs[k] == Summarize(runs[k]);
    }
  }

  /**
   * Each interval starts at its earliest row: valid_from is that row's load
   * time, the descriptive columns and the source are that row's; the
   * intervals come in order of valid_from.
   */
  lemma IntervalsStartAtFirstRow(rows: seq<Row>, productId: string)
    requires GetPriceHistory(rows, productId).Ok?
    ensures var s := Ordered(rows, productId);
      var ivs := GetPriceHistory(rows, productId).value;
      && |ivs| == |Runs(s)|
      && (forall k :: 0 <= k < |ivs| ==> StartsAtFirst(ivs[k], Runs(s)[k]))
      && (forall k, l :: 0 <= k < l < |ivs| ==> ivs[k].validFrom <= ivs[l].validFrom)
  {
    var s := Ordered(rows, productId);
    assert SortedBy(s, ByLoad()) by {
      OrderedRows(rows, productId);
    }
    RunsOrdered(s);
    var runs := Runs(s);
    var ivs := GetPriceHistory(rows, productId).value;
    forall k | 0 <= k < |runs| ensures StartsAtFirst(ivs[k], runs[k]) {
      assert ivs[k] == Summarize(runs[k]);
      SummarizeOrderedRun(runs[k]);
    }
  }

  /**
   * The valid_to rule of an interval over its rows: NULL exactly when every
   * row is open, and otherwise the end time of one of them that no closed row
   * ends after.
   */
  predicate EndsRule(iv: Interval, run: seq<Row>)
  {
    && (iv.validTo.None? <==> forall i :: 0 <= i < |run| ==> run[i].endTs.None?)
    && (iv.validTo.Some? ==> exists i :: 0 <= i < |run| && run[i].endTs == iv.validTo)
    && (iv.validTo.Some? ==>
          forall i :: 0 <= i < |run| && run[i].endTs.Some? ==> run[i].endTs.value <= iv.validTo.value)
  }

  lemma SummarizeEnds(run: seq<Row>)
    requires run != []
    ensures EndsRule(Summarize(run), run)
  {
  }

  /** valid_to is the latest end time of the interval's rows, NULL only when all of them are open. */
  lemma IntervalEnds(rows: seq<Row>, productId: string)
    requires GetPriceHistory(rows, productId).Ok?
    ensures var s := Ordered(rows, productId);
      var ivs := GetPriceHistory(rows, productId).value;
      forall k :: 0 <= k < |ivs| ==> EndsRule(ivs[k], Runs(s)[k])
  {
    var runs := Runs(Ordered(rows, productId));
    var ivs := GetPriceHistory(rows, productId).value;
    forall k | 0 <= k < |ivs| ensures EndsRule(ivs[k], runs[k]) {
      assert ivs[k] == Summarize(runs[k]);
      SummarizeEnds(runs[k]);
    }
  }

  /**
   * price_per_weight is present exactly when the first net_weight is positive
   * and the interval has a normal price, and then it is the effective price per weight.
   */
  lemma PricePerWeightRule(rows: seq<Row>, productId: string)
    requires GetPriceHistory(rows, productId).Ok?
    ensures var ivs := GetPriceHistory(rows, productId).value;
      forall k :: 0 <= k < |ivs| ==> PerWeightRule(ivs[k])
  {
    var runs := Runs(Ordered(rows, productId));
    var ivs := GetPriceHistory(rows, productId).value;
    forall k | 0 <= k < |ivs| ensures PerWeightRule(ivs[k]) {
      assert ivs[k] == Summarize(runs[k]);
      SummarizePricePerWeight(runs[k]);
    }
  }

  // ---------------------------------------------------------------------------
  // list_products: the current products for the selection dropdown

  /** One ProductSummary of the answer. */
  datatype Summary = Summary(id: string, name: string, source: string)

  /** LOWER on a character: the ASCII capitals become small letters. */
  function Lower(c: char): (d: char)
    ensures 'A' <= c <= 'Z' ==> 'a' <= d <= 'z' && d as int - c as int == 32
    ensures !('A' <= c <= 'Z') ==> d == c
  {
    if 'A' <= c <= 'Z' then (c as int + 32) as char else c
  }

  function LowerStr(s: string): (t: string)
    ensures |t| == |s| && forall i :: 0 <= i < |s| ==> t[i] == Lower(s[i])
  {
    seq(|s|, i requires 0 <= i < |s| => Lower(s[i]))
  }

  /** s LIKE '%sub%': sub occurs somewhere in s. */
  predicate Contains(s: string, sub: string)
  {
    sub <= s || (s != [] && Contains(s[1..], sub))
  }

  /** An occurrence of sub at any position makes the LIKE test true. */
  lemma {:induction false} ContainsAt(s: string, sub: string, i: nat)
    requires i + |sub| <= |s| && s[i..i + |sub|] == sub
    ensures Contains(s, sub)
  {
    if i > 0 {
      assert s[1..][i - 1..i - 1 + |sub|] == s[i..i + |sub|];
      ContainsAt(s[1..], sub, i - 1);
    }
  }

  /** A true LIKE test has an occurrence of sub. */
  lemma {:induction false} ContainsWitness(s: string, sub: string) returns (i: nat)
    requires Contains(s, sub)
    ensures i + |sub| <= |s| && s[i..i + |sub|] == sub
  {
    if sub <= s {
      i := 0;
    } else {
      var j := ContainsWitness(s[1..], sub);
      assert s[1..][j..j + |sub|] == s[j + 1..j + 1 + |sub|];
      i := j + 1;
    }
  }

  /**
   * The WHERE clause: a current row whose lower-cased name mentions neither
   * filter bags nor coffee filters. A NULL name makes the LIKE tests NULL,
   * which WHERE treats as false.
   */
  predicate Listed(r: Row)
  {
    && r.IsCurrent()
    && r.item.nameFinnish.Some?
    && !Contains(LowerStr(r.item.nameFinnish.value), "suodatinpussi")
    && !Contains(LowerStr(r.item.nameFinnish.value), "kahvinsuodatin")
  }

  function SummaryOf(r: Row): Summary
    requires r.item.nameFinnish.Some?
  {
    Summary(r.item.id, r.item.nameFinnish.value, r.source)
  }

  /** The projection of the listed rows, in table order. */
  function Selected(rows: seq<Row>): (out: seq<Summary>)
    ensures forall x :: x in out <==> exists r :: r in rows && Listed(r) && SummaryOf(r) == x
  {
    if rows == [] then []
    else
      var last := rows[|rows| - 1];
      assert forall r :: r in rows <==> r in rows[..|rows| - 1] || r == last;
      Selected(rows[..|rows| - 1]) + (if Listed(last) then [SummaryOf(last)] else [])
  }

  predicate Distinct<T(==)>(s: seq<T>)
  {
    forall i, j :: 0 <= i < j < |s| ==> s[i] != s[j]
  }

  /** SELECT DISTINCT: the first occurrence of each summary, in order. */
  function Dedup(s: seq<Summary>): (out: seq<Summary>)
    ensures forall x :: x in out <==> x in s
    ensures Distinct(out)
  {
    if s == [] then []
    else
      var last := s[|s| - 1];
      var d := Dedup(s[..|s| - 1]);
      assert forall x :: x in s <==> x in s[..|s| - 1] || x == last;
      if last in d then d else d + [last]
  }

  /** Lexicographic order of code points; a prefix comes first. */
  predicate LexLe(a: string, b: string)
  {
    a == [] || (b != [] && (a[0] < b[0] || (a[0] == b[0] && LexLe(a[1..], b[1..]))))
  }

  function ByName(): (Summary, Summary) -> bool
  {
    (a: Summary, b: Summary) => LexLe(a.name, b.name)
  }

  /** The list_products endpoint: DISTINCT (id, name, source) of the listed rows, ORDER BY name. */
  function ListProducts(rows: seq<Row>): seq<Summary>
  {
    SortBy(Dedup(Selected(rows)), ByName())
  }

  lemma {:induction false} LexLeTotal(a: string, b: string)
    ensures LexLe(a, b) || LexLe(b, a)
  {
    if a != [] && b != [] && a[0] == b[0] {
      LexLeTotal(a[1..], b[1..]);
    }
  }

  lemma {:induction false} LexLeTransitive(a: string, b: string, c: string)
    requires LexLe(a, b) && LexLe(b, c)
    ensures LexLe(a, c)
  {
    if a != [] && b != [] && c != [] && a[0] == b[0] && b[0] == c[0] {
      LexLeTransitive(a[1..], b[1..], c[1..]);
    }
  }

  /** Ordering by name compares every two summaries and chains. */
  lemma ByNameIsTotalPreorder()
    ensures TotalPreorder(ByName())
  {
    forall a: Summary, b: Summary ensures ByName()(a, b) || ByName()(b, a) {
      LexLeTotal(a.name, b.name);
    }
    forall a: Summary, b: Summary, c: Summary | ByName()(a, b) && ByName()(b, c)
      ensures ByName()(a, c)
    {
      LexLeTransitive(a.name, b.name, c.name);
    }
  }

  lemma {:induction false} DistinctCount<T>(s: seq<T>)
    requires Distinct(s)
    ensures forall x :: multiset(s)[x] <= 1
  {
    if s != [] {
      var init := s[..|s| - 1];
      assert s == init + [s[|s| - 1]];
      DistinctCount(init);
      assert s[|s| - 1] !in init;
    }
  }

  /** A value at two positions occurs at least twice. */
  lemma TwoPositions<T>(s: seq<T>, i: nat, j: nat)
    requires i < j < |s| && s[i] == s[j]
    ensures multiset(s)[s[i]] >= 2
  {
    assert s == s[..j] + s[j..];
    assert s[i] in s[..j] && s[j] in s[j..];
  }

  lemma CountDistinct<T>(s: seq<T>)
    requires forall x :: multiset(s)[x] <= 1
    ensures Distinct(s)
  {
    forall i, j | 0 <= i < j < |s| && s[i] == s[j] ensures false {
      TwoPositions(s, i, j);
    }
  }

  /**
   * list_products answers each (id, name, source) of a current, non-filter
   * product exactly once, and nothing else, in order of name.
   */
  lemma ListProductsSpec(rows: seq<Row>)
    ensures var out := ListProducts(rows);
      && (forall x :: x in out <==> exists r :: r in rows && Listed(r) && SummaryOf(r) == x)
      && Distinct(out)
      && SortedBy(out, ByName())
  {
    var d := Dedup(Selected(rows));
    var out := ListProducts(rows);
    ByNameIsTotalPreorder();
    SortBySorted(d, ByName());
    forall x ensures x in out <==> x in d {
      assert x in out <==> x in multiset(out);
    }
    DistinctCount(d);
    CountDistinct(out);
  }

  // ---------------------------------------------------------------------------
  // A worked history

  /**
   * Six consecutive versions of one product, loaded at t1..t6, each closed
   * when the next was loaded, whose prices go A, A, B, B, B, A, collapse into
   * three intervals: A from t1 to t3, B from t3 to t6, A from t6 on.
   */
  lemma SixVersionsGiveThreeIntervals(rows: seq<Row>, id: string)
    requires |rows| == 6
    requires forall i :: 0 <= i < 6 ==> rows[i].item.id == id && rows[i].loadTs == i + 1
    requires forall i :: 0 <= i < 5 ==> rows[i].endTs == Some(i + 2)
    requires rows[5].endTs == None
    requires PriceKey(rows[0]) == PriceKey(rows[1]) == PriceKey(rows[5])
    requires PriceKey(rows[2]) == PriceKey(rows[3]) == PriceKey(rows[4])
    requires PriceKey(rows[0]) != PriceKey(rows[2])
    ensures var h := GetPriceHistory(rows, id);
      && h.Ok?
      && |h.value| == 3
      && (h.value[0].normalPrice, h.value[0].batchPrice) == PriceKey(rows[0])
      && h.value[0].validFrom == 1 && h.value[0].validTo == Some(3)
      && (h.value[1].normalPrice, h.value[1].batchPrice) == PriceKey(rows[2])
      && h.value[1].validFrom == 3 && h.value[1].validTo == Some(6)
      && (h.value[2].normalPrice, h.value[2].batchPrice) == PriceKey(rows[5])
      && h.value[2].validFrom == 6 && h.value[2].validTo == None
  {
    OrderedOneProduct(rows, id);
    ThreeRuns(rows);
    var ivs := SummarizeAll([rows[..2], rows[2..5], rows[5..]]);
    assert GetPriceHistory(rows, id) == Ok(ivs);
    ThreeSummaries(rows, ivs);
  }

  lemma ThreeSummaries(rows: seq<Row>, ivs: seq<Interval>)
    requires |rows| == 6
    requires forall i :: 0 <= i < 6 ==> rows[i].loadTs == i + 1
    requires forall i :: 0 <= i < 5 ==> rows[i].endTs == Some(i + 2)
    requires rows[5].endTs == None
    requires ivs == SummarizeAll([rows[..2], rows[2..5], rows[5..]])
    ensures |ivs| == 3
    ensures (ivs[0].normalPrice, ivs[0].batchPrice) == PriceKey(rows[0])
    ensures ivs[0].validFrom == 1 && ivs[0].validTo == Some(3)
    ensures (ivs[1].normalPrice, ivs[1].batchPrice) == PriceKey(rows[2])
    ensures ivs[1].validFrom == 3 && ivs[1].validTo == Some(6)
    ensures (ivs[2].normalPrice, ivs[2].batchPrice) == PriceKey(rows[5])
    ensures ivs[2].validFrom == 6 && ivs[2].validTo == None
  {
    var a, b, c := rows[..2], rows[2..5], rows[5..];
    assert ivs == [Summarize(a), Summarize(b), Summarize(c)];
    assert Summarize(a).validFrom == 1 && Summarize(a).validTo == Some(3) by {
      assert a[0] == rows[0] && a[1] == rows[1];
    }
    assert Summarize(b).validFrom == 3 && Summarize(b).validTo == Some(6) by {
      assert b[0] == rows[2] && b[1] == rows[3] && b[2] == rows[4];
    }
    assert Summarize(c).validFrom == 6 && Summarize(c).validTo == None by {
      assert c == [rows[5]];
    }
  }

  lemma ThreeRuns(rows: seq<Row>)
    requires |rows| == 6
    requires PriceKey(rows[0]) == PriceKey(rows[1]) != PriceKey(rows[2])
    requires PriceKey(rows[2]) == PriceKey(rows[3]) == PriceKey(rows[4]) != PriceKey(rows[5])
    ensures Runs(rows) == [rows[..2], rows[2..5], rows[5..]]
  {
    var a, b, c := rows[..2], rows[2..5], rows[5..];
    assert rows == a + b + c;
    assert Runs(c) == [c] by {
      assert RunLength(c) == 1 && c[..1] == c && c[1..] == [];
    }
    assert Runs(b + c) == [b, c] by {
      assert RunLength(b + c) == 3 by {
        assert (b + c)[1..][1..] == [b[2], c[0]];
        assert RunLength([b[2], c[0]]) == 1;
      }
      assert (b + c)[..3] == b && (b + c)[3..] == c;
    }
    assert RunLength(rows) == 2 by {
      assert rows[1..][0] == a[1] && rows[1..][1] == b[0];
    }
    assert rows[..2] == a && rows[2..] == b + c;
  }
}
