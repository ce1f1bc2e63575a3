/**
 * The products_and_prices table: a slowly changing dimension in which every
 * row is one state of one product from one data source, valid from its load
 * time until its end time (null while the row is current).
 *
 * The SQL statements the fetchers run against it are modelled here in their
 * generic form: an UPDATE that closes the current rows a WHERE clause selects,
 * a COUNT(*), and a bulk INSERT ... ON CONFLICT (id, tonno_load_ts) DO NOTHING.
 */
module Ledger {
  import opened Wrappers

  /** An availability column: a flag, or text when a source stores text there. */
  datatype Scalar = Null | Bool(b: bool) | Text(s: string)

  /** The fifteen product columns a fetcher extracts for one product. */
  datatype Product = Product(
    id: string,
    nameFinnish: Option<string>,
    nameEnglish: Option<string>,
    availableStore: Scalar,
    availableWeb: Scalar,
    netWeight: Option<real>,
    contentUnit: Option<string>,
    imageUrl: Option<string>,
    brandName: Option<string>,
    normalPriceUnit: Option<string>,
    normalPrice: Option<real>,
    batchPrice: Option<real>,
    batchDiscountPct: Option<real>,
    batchDiscountType: Option<string>,
    batchDaysLeft: Option<int>)

  /** The ids of the incoming products, in order (incoming_ids). */
  function Ids(items: seq<Product>): (ids: seq<string>)
    ensures |ids| == |items|
    ensures forall k :: 0 <= k < |items| ==> ids[k] == items[k].id
  {
    seq(|items|, k requires 0 <= k < |items| => items[k].id)
  }

  predicate DistinctIds(items: seq<Product>)
  {
    forall j, k :: 0 <= j < k < |items| ==> items[j].id != items[k].id
  }

  /** One ledger row: a product state plus tonno_data_source, tonno_load_ts, tonno_end_ts and tonno_row_hash. */
  datatype Row = Row(item: Product, source: string, loadTs: int, endTs: Option<int>, hash: Option<string>)
  {
    /** A current row has a null tonno_end_ts. */
    predicate IsCurrent() { endTs.None? }
  }

  /** What a fetcher operation reports back (the messages it returns). */
  datatype Report =
    | NoProductsToInsert                                      // "No products to insert."
    | AttemptedInsert(records: nat)                           // "Attempted to insert N products (duplicates skipped)."
    | NoUpdatesPerformed                                      // "No product data from source, no updates performed."
    | UpdateComplete(inserted: nat, updated: nat, disappeared: nat)

  /** The exceptions an operation can raise before it commits. */
  datatype Error =
    | UniqueViolation   // an INSERT would duplicate (id, tonno_load_ts)
    | FetchFailed       // the source answered with a status other than 200
    | ConversionError   // int() of a missing value
    | ZeroDivision      // int(price) / 0

  /** A transaction's effect: the table it leaves and what it returns or raises. */
  datatype Txn = Txn(after: seq<Row>, result: Result<Report, Error>)

  /** The database table; the fetchers change it in place. */
  class Table {
    var rows: seq<Row>

    constructor (initial: seq<Row>)
      ensures rows == initial
    {
      rows := initial;
    }
  }

  /** The row with tonno_end_ts set to ts. */
  function Close(r: Row, ts: int): Row
  {
    r.(endTs := Some(ts))
  }

  /** UPDATE products_and_prices SET tonno_end_ts = ts WHERE sel: the table afterwards. */
  function CloseWhere(rows: seq<Row>, sel: Row -> bool, ts: int): (out: seq<Row>)
    ensures |out| == |rows|
    ensures forall i :: 0 <= i < |rows| ==>
              out[i] == (if sel(rows[i]) then Close(rows[i], ts) else rows[i])
  {
    if rows == [] then []
    else
      var last := rows[|rows| - 1];
      CloseWhere(rows[..|rows| - 1], sel, ts) + [if sel(last) then Close(last, ts) else last]
  }

  /** The number of rows a WHERE clause selects (an UPDATE's rowcount, or a COUNT(*)). */
  function CountWhere(rows: seq<Row>, sel: Row -> bool): (n: nat)
    ensures n <= |rows|
  {
    if rows == [] then 0
    else CountWhere(rows[..|rows| - 1], sel) + (if sel(rows[|rows| - 1]) then 1 else 0)
  }

  /** The count is 0 exactly when no row matches, and the table size exactly when every row does. */
  lemma {:induction false} CountWhereExtremes(rows: seq<Row>, sel: Row -> bool)
    ensures CountWhere(rows, sel) == 0 <==> forall i :: 0 <= i < |rows| ==> !sel(rows[i])
    ensures CountWhere(rows, sel) == |rows| <==> forall i :: 0 <= i < |rows| ==> sel(rows[i])
  {
    if rows != [] {
      var init := rows[..|rows| - 1];
      CountWhereExtremes(init, sel);
      assert forall i :: 0 <= i < |init| ==> init[i] == rows[i];
    }
  }

  /** The UPDATE statement run row by row: closes the selected rows and returns its rowcount. */
  method CloseRows(t: Table, sel: Row -> bool, ts: int) returns (rowcount: nat)
    modifies t
    ensures t.rows == CloseWhere(old(t.rows), sel, ts)
    ensures rowcount == CountWhere(old(t.rows), sel)
  {
    ghost var before := t.rows;
    var i := 0;
    rowcount := 0;
    while i < |t.rows|
      invariant |t.rows| == |before|
      invariant 0 <= i <= |before|
      invariant forall k :: 0 <= k < i ==>
                  t.rows[k] == (if sel(before[k]) then Close(before[k], ts) else before[k])
      invariant forall k :: i <= k < |before| ==> t.rows[k] == before[k]
      invariant rowcount == CountWhere(before[..i], sel)
    {
      CountWhereStep(before, i, sel);
      if sel(t.rows[i]) {
        t.rows := t.rows[i := Close(t.rows[i], ts)];
        rowcount := rowcount + 1;
      }
      i := i + 1;
    }
    CountWhereAll(before, sel);
    SameElements(t.rows, CloseWhere(before, sel, ts));
  }

  lemma CountWhereAll(rows: seq<Row>, sel: Row -> bool)
    ensures CountWhere(rows[..|rows|], sel) == CountWhere(rows, sel)
  {
    assert rows[..|rows|] == rows;
  }

  /** Sequences that agree at every index are equal. */
  lemma SameElements<T>(a: seq<T>, b: seq<T>)
    requires |a| == |b| && forall i :: 0 <= i < |a| ==> a[i] == b[i]
    ensures a == b
  {
  }

  /** Counting one row further adds that row's selection. */
  lemma CountWhereStep(rows: seq<Row>, i: nat, sel: Row -> bool)
    requires i < |rows|
    ensures CountWhere(rows[..i + 1], sel) == CountWhere(rows[..i], sel) + (if sel(rows[i]) then 1 else 0)
  {
    assert rows[..i + 1][..i] == rows[..i];
  }

  /** Two extensionally equal WHERE clauses count the same rows. */
  lemma {:induction false} CountWhereExt(rows: seq<Row>, a: Row -> bool, b: Row -> bool)
    requires forall i :: 0 <= i < |rows| ==> a(rows[i]) == b(rows[i])
    ensures CountWhere(rows, a) == CountWhere(rows, b)
  {
    if rows != [] {
      CountWhereExt(rows[..|rows| - 1], a, b);
    }
  }

  /** A clause that selects exactly the rows from index m on counts |rows| - m. */
  lemma {:induction false} CountSuffix(rows: seq<Row>, m: nat, sel: Row -> bool)
    requires m <= |rows|
    requires forall i :: 0 <= i < |rows| ==> (sel(rows[i]) <==> m <= i)
    ensures CountWhere(rows, sel) == |rows| - m
  {
    if m < |rows| {
      var n := |rows| - 1;
      assert forall i :: 0 <= i < n ==> rows[..n][i] == rows[i];
      CountSuffix(rows[..n], m, sel);
    } else {
      CountWhereExtremes(rows, sel);
    }
  }

  /** A clause that is the disjoint union of two others counts their sum. */
  lemma {:induction false} CountPartition(rows: seq<Row>, c: Row -> bool, a: Row -> bool, b: Row -> bool)
    requires forall i :: 0 <= i < |rows| ==> (c(rows[i]) <==> a(rows[i]) || b(rows[i]))
    requires forall i :: 0 <= i < |rows| ==> !(a(rows[i]) && b(rows[i]))
    ensures CountWhere(rows, c) == CountWhere(rows, a) + CountWhere(rows, b)
  {
    if rows != [] {
      CountPartition(rows[..|rows| - 1], c, a, b);
    }
  }

  /**
   * Counting with clause b after an UPDATE that closed the rows selected by a:
   * when a closed row never satisfies b, the rows counted are those b selected
   * and a did not.
   */
  lemma {:induction false} CountAfterClose(rows: seq<Row>, a: Row -> bool, b: Row -> bool, d: Row -> bool, ts: int)
    requires forall i :: 0 <= i < |rows| ==> (a(rows[i]) ==> !b(Close(rows[i], ts)))
    requires forall i :: 0 <= i < |rows| ==> (d(rows[i]) <==> !a(rows[i]) && b(rows[i]))
    ensures CountWhere(CloseWhere(rows, a, ts), b) == CountWhere(rows, d)
  {
    if rows != [] {
      var init := rows[..|rows| - 1];
      CountAfterClose(init, a, b, d, ts);
      assert CloseWhere(rows, a, ts)[..|rows| - 1] == CloseWhere(init, a, ts);
    }
  }

  /** Every row's (id, tonno_load_ts) is distinct: the unique index the ON CONFLICT clause names. */
  predicate UniqueKeys(rows: seq<Row>)
  {
    forall i, j :: 0 <= i < j < |rows| ==>
      rows[i].item.id != rows[j].item.id || rows[i].loadTs != rows[j].loadTs
  }

  /** Appending `added` to `rows` keeps (id, tonno_load_ts) unique. */
  predicate KeysFree(rows: seq<Row>, added: seq<Row>)
  {
    && (forall i, j :: 0 <= i < |rows| && 0 <= j < |added| ==>
          rows[i].item.id != added[j].item.id || rows[i].loadTs != added[j].loadTs)
    && UniqueKeys(added)
  }

  /** A row in `rows` already holds r's (id, tonno_load_ts). */
  predicate HasKey(rows: seq<Row>, r: Row)
  {
    exists i :: 0 <= i < |rows| && rows[i].item.id == r.item.id && rows[i].loadTs == r.loadTs
  }

  /** INSERT ... VALUES records ON CONFLICT (id, tonno_load_ts) DO NOTHING. */
  function InsertOnConflictDoNothing(rows: seq<Row>, records: seq<Row>): (out: seq<Row>)
    ensures |rows| <= |out| <= |rows| + |records|
    ensures out[..|rows|] == rows
    decreases |records|
  {
    if records == [] then rows
    else
      var next := if HasKey(rows, records[0]) then rows else rows + [records[0]];
      var out := InsertOnConflictDoNothing(next, records[1..]);
      assert out[..|rows|] == out[..|next|][..|rows|];
      out
  }

  /** A key present before the insert is present after it. */
  lemma HasKeyPrefix(rows: seq<Row>, out: seq<Row>, r: Row)
    requires |rows| <= |out| && out[..|rows|] == rows && HasKey(rows, r)
    ensures HasKey(out, r)
  {
    var i :| 0 <= i < |rows| && rows[i].item.id == r.item.id && rows[i].loadTs == r.loadTs;
    assert out[i] == rows[i];
  }

  /** After INSERT ... ON CONFLICT DO NOTHING every record's key is present. */
  lemma {:induction false} InsertKeepsKeys(rows: seq<Row>, records: seq<Row>)
    ensures var out := InsertOnConflictDoNothing(rows, records);
      forall j :: 0 <= j < |records| ==> HasKey(out, records[j])
    decreases |records|
  {
    if records != [] {
      var r, tail := records[0], records[1..];
      var next := if HasKey(rows, r) then rows else rows + [r];
      var out := InsertOnConflictDoNothing(next, tail);
      assert out == InsertOnConflictDoNothing(rows, records);
      InsertKeepsKeys(next, tail);
      assert HasKey(next, r) by {
        if !HasKey(rows, r) { assert next[|rows|] == r; }
      }
      HasKeyPrefix(next, out, r);
      forall j | 0 <= j < |records| ensures HasKey(out, records[j]) {
        if j > 0 { assert records[j] == tail[j - 1]; }
      }
    }
  }

  /** Every row the insert adds is one of the records. */
  lemma {:induction false} InsertAddsRecords(rows: seq<Row>, records: seq<Row>)
    ensures var out := InsertOnConflictDoNothing(rows, records);
      forall k :: |rows| <= k < |out| ==> out[k] in records
    decreases |records|
  {
    if records != [] {
      var r, tail := records[0], records[1..];
      var next := if HasKey(rows, r) then rows else rows + [r];
      InsertAddsRecords(next, tail);
      assert forall k :: |next| <= k < |InsertOnConflictDoNothing(next, tail)| ==>
        InsertOnConflictDoNothing(next, tail)[k] in tail;
      var out := InsertOnConflictDoNothing(next, tail);
      assert out == InsertOnConflictDoNothing(rows, records);
      forall k | |rows| <= k < |out| ensures out[k] in records {
        if k < |next| {
          assert out[..|next|] == next;
          assert out[k] == next[k] == r;
        } else {
          assert out[k] in tail;
          var m :| 0 <= m < |tail| && tail[m] == out[k];
          assert records[m + 1] == tail[m];
        }
      }
    }
  }

  /** The insert keeps the unique index on (id, tonno_load_ts). */
  lemma {:induction false} InsertKeepsUnique(rows: seq<Row>, records: seq<Row>)
    requires UniqueKeys(rows)
    ensures UniqueKeys(InsertOnConflictDoNothing(rows, records))
    decreases |records|
  {
    if records != [] {
      var r, tail := records[0], records[1..];
      var next := if HasKey(rows, r) then rows else rows + [r];
      assert InsertOnConflictDoNothing(next, tail) == InsertOnConflictDoNothing(rows, records);
      assert UniqueKeys(next);
      InsertKeepsUnique(next, tail);
    }
  }

  /**
   * After INSERT ... ON CONFLICT DO NOTHING every record's key is present,
   * every added row is one of the records, and the unique index still holds.
   */
  lemma InsertOnConflictFacts(rows: seq<Row>, records: seq<Row>)
    ensures var out := InsertOnConflictDoNothing(rows, records);
      && (forall j :: 0 <= j < |records| ==> HasKey(out, records[j]))
      && (forall k :: |rows| <= k < |out| ==> out[k] in records)
      && (UniqueKeys(rows) ==> UniqueKeys(out))
  {
    InsertKeepsKeys(rows, records);
    InsertAddsRecords(rows, records);
    if UniqueKeys(rows) {
      InsertKeepsUnique(rows, records);
    }
  }

  /** The first conflict-free record finds no row with its key. */
  lemma KeysFreeHead(rows: seq<Row>, records: seq<Row>)
    requires records != [] && KeysFree(rows, records)
    ensures !HasKey(rows, records[0])
  {
    var r := records[0];
    forall i | 0 <= i < |rows| ensures rows[i].item.id != r.item.id || rows[i].loadTs != r.loadTs {
      assert r == records[0];
    }
  }

  lemma AppendHead<T>(a: seq<T>, b: seq<T>)
    requires b != []
    ensures a + [b[0]] + b[1..] == a + b
  {
    assert b == [b[0]] + b[1..];
  }

  /** A conflict-free first record is inserted, and the rest stay conflict-free. */
  lemma InsertFreshStep(rows: seq<Row>, records: seq<Row>)
    requires records != [] && KeysFree(rows, records)
    ensures InsertOnConflictDoNothing(rows, records) ==
              InsertOnConflictDoNothing(rows + [records[0]], records[1..])
    ensures KeysFree(rows + [records[0]], records[1..])
  {
    KeysFreeHead(rows, records);
    KeysFreeShift(rows, records);
  }

  /** Inserting the first conflict-free record leaves the rest conflict-free. */
  lemma KeysFreeShift(rows: seq<Row>, records: seq<Row>)
    requires records != [] && KeysFree(rows, records)
    ensures KeysFree(rows + [records[0]], records[1..])
  {
    var next, tail := rows + [records[0]], records[1..];
    forall i, j | 0 <= i < |next| && 0 <= j < |tail|
      ensures next[i].item.id != tail[j].item.id || next[i].loadTs != tail[j].loadTs
    {
      assert tail[j] == records[j + 1];
      if i == |rows| {
        assert next[i] == records[0];
      } else {
        assert next[i] == rows[i];
      }
    }
    forall i, j | 0 <= i < j < |tail|
      ensures tail[i].item.id != tail[j].item.id || tail[i].loadTs != tail[j].loadTs
    {
      assert tail[i] == records[i + 1] && tail[j] == records[j + 1];
    }
  }

  /** Conflict-free records are all inserted, in order. */
  lemma {:induction false} InsertWithoutConflicts(rows: seq<Row>, records: seq<Row>)
    requires KeysFree(rows, records)
    ensures InsertOnConflictDoNothing(rows, records) == rows + records
    decreases |records|
  {
    if records != [] {
      InsertFreshStep(rows, records);
      InsertWithoutConflicts(rows + [records[0]], records[1..]);
      AppendHead(rows, records);
    }
  }


  /** At most one current row per (tonno_data_source, id). */
  predicate UniqueCurrent(rows: seq<Row>)
  {
    forall i, j ::
      (0 <= i < j < |rows| && rows[i].IsCurrent() && rows[j].IsCurrent() && rows[i].source == rows[j].source)
      ==> rows[i].item.id != rows[j].item.id
  }

  /** SELECT COUNT(*) ... WHERE tonno_data_source = source, compared with 0. */
  function HasRowsOf(rows: seq<Row>, source: string): (b: bool)
    ensures b <==> exists i :: 0 <= i < |rows| && rows[i].source == source
  {
    CountWhereExtremes(rows, (r: Row) => r.source == source);
    CountWhere(rows, (r: Row) => r.source == source) > 0
  }
}
