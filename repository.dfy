/**
 * The price store (internal/repository/price_repository.go) as an in-memory table.
 *
 * The table is the sequence of its rows in insertion order. The primary key on id becomes
 * the invariant that no two rows share an id, and the column declarations of the prices table
 * (INTEGER id, VARCHAR(255) texts, NUMERIC(10, 2) price with CHECK (price >= 0)) and the
 * server's refusal of U+0000 in text decide which single-row INSERT statements fail. A
 * failing database round trip is an input flag.
 */
module Repository {
  import opened Results
  import opened Models

  /** A failed query: lost connection, scan or iteration error. */
  datatype DbError = QueryFailed

  const MinInt32: int := -0x8000_0000
  const MaxInt32: int := 0x7FFF_FFFF
  /** The length limit of the VARCHAR(255) columns. */
  const MaxText: nat := 255
  /** NUMERIC(10, 2) keeps at most eight integer digits once rounded to cents. */
  const PriceLimit: real := 99999999.995

  /** An id the INTEGER column can hold. */
  predicate IsInt32(id: int) {
    MinInt32 <= id <= MaxInt32
  }

  /** Every id of the list converts to INTEGER. */
  predicate AllInt32(ids: seq<int>) {
    forall i :: 0 <= i < |ids| ==> IsInt32(ids[i])
  }

  /**
   * The column constraints of the prices table, and the server's refusal of text holding the
   * character U+0000, which a UTF8 database cannot store.
   */
  predicate FitsColumns(p: Price) {
    && IsInt32(p.id)
    && |p.name| <= MaxText && |p.category| <= MaxText
    && '\0' !in p.name && '\0' !in p.category
    && 0.0 <= p.price < PriceLimit
  }

  /** The primary key: no two rows share an id. */
  predicate KeyedById(rows: seq<Price>) {
    forall i, j :: 0 <= i < j < |rows| ==> rows[i].id != rows[j].id
  }

  /** Every state of the table: keyed by id, and every row within its column constraints. */
  predicate ValidTable(rows: seq<Price>) {
    KeyedById(rows) && forall p :: p in rows ==> FitsColumns(p)
  }

  function IdsOf(rows: seq<Price>): set<int> {
    set p | p in rows :: p.id
  }

  /** The first row with the given id. */
  function Lookup(rows: seq<Price>, id: int): (r: Option<Price>)
    ensures r.Some? ==> r.value in rows && r.value.id == id
    ensures r.None? <==> id !in IdsOf(rows)
  {
    if rows == [] then None
    else if rows[0].id == id then Some(rows[0])
    else
      assert IdsOf(rows) == {rows[0].id} + IdsOf(rows[1..]) by {
        assert forall p :: p in rows <==> p == rows[0] || p in rows[1..];
      }
      Lookup(rows[1..], id)
  }

  /** A lookup in a concatenation finds the first part's row, if any. */
  lemma {:induction false} LookupAppend(a: seq<Price>, b: seq<Price>, id: int)
    ensures Lookup(a + b, id) == if Lookup(a, id).Some? then Lookup(a, id) else Lookup(b, id)
  {
    if a != [] {
      assert (a + b)[1..] == a[1..] + b;
      LookupAppend(a[1..], b, id);
    } else {
      assert a + b == b;
    }
  }

  // ---------------------------------------------------------------------------
  // CheckExistingIDs
  // ---------------------------------------------------------------------------

  /**
   * What CheckExistingIDs answers: nothing to look up needs no round trip and gives the empty
   * set; a failed query gives an error, and so does an id outside the range of INTEGER, since
   * the parameter of id = ANY($1) takes the column's type and the server refuses to convert
   * such an id; otherwise the answer is the ids of the input present in the table.
   */
  function ExistingIds(rows: seq<Price>, ids: seq<int>, fails: bool): Result<set<int>, DbError> {
    if |ids| == 0 then Ok({})
    else if fails || !AllInt32(ids) then Err(QueryFailed)
    else Ok(set p | p in rows && p.id in ids :: p.id)
  }

  /**
   * The answer of CheckExistingIDs: the empty set when there is nothing to look up, an error
   * exactly when a lookup was needed and either failed or carried an id INTEGER cannot hold,
   * and otherwise exactly the ids of the input that the table holds.
   */
  lemma ExistingIdsAnswer(rows: seq<Price>, ids: seq<int>, fails: bool)
    ensures var r := ExistingIds(rows, ids, fails);
            && (|ids| == 0 ==> r == Ok({}))
            && (r.Err? <==> |ids| > 0 && (fails || exists i :: 0 <= i < |ids| && !IsInt32(ids[i])))
            && (r.Ok? ==> forall id :: id in r.value <==> id in ids && id in IdsOf(rows))
  {
  }

  // ---------------------------------------------------------------------------
  // BulkInsert
  // ---------------------------------------------------------------------------

  /** The single-row INSERT of p fails: its id is taken, or a column constraint rejects it. */
  predicate InsertFails(rows: seq<Price>, p: Price) {
    p.id in IdsOf(rows) || !FitsColumns(p)
  }

  /**
   * The table after inserting the prices one by one, each failing insert skipped: at most one
   * row is added per price.
   */
  function InsertAll(rows: seq<Price>, prices: seq<Price>): (r: seq<Price>)
    ensures |rows| <= |r| <= |rows| + |prices|
  {
    if prices == [] then rows
    else
      var before, p := InsertAll(rows, prices[..|prices| - 1]), prices[|prices| - 1];
      if InsertFails(before, p) then before else before + [p]
  }

  /** The prices that satisfy the column constraints, in order. */
  function Admissible(prices: seq<Price>): (r: seq<Price>)
    ensures forall p :: p in r ==> p in prices && FitsColumns(p)
  {
    if prices == [] then []
    else if FitsColumns(prices[|prices| - 1]) then Admissible(prices[..|prices| - 1]) + [prices[|prices| - 1]]
    else Admissible(prices[..|prices| - 1])
  }

  /** Inserting keeps the table keyed by id and within its column constraints. */
  lemma {:induction false} InsertAllValid(rows: seq<Price>, prices: seq<Price>)
    requires ValidTable(rows)
    ensures ValidTable(InsertAll(rows, prices))
  {
    if prices != [] {
      InsertAllValid(rows, prices[..|prices| - 1]);
      var before, p := InsertAll(rows, prices[..|prices| - 1]), prices[|prices| - 1];
      if !InsertFails(before, p) {
        forall i, j | 0 <= i < j < |before| + 1 ensures (before + [p])[i].id != (before + [p])[j].id {
          if j == |before| {
            assert before[i] in before;
          }
        }
      }
    }
  }

  /** Rows are only ever appended: the old table is a prefix of the new one. */
  lemma {:induction false} InsertAllAppends(rows: seq<Price>, prices: seq<Price>)
    ensures InsertAll(rows, prices)[..|rows|] == rows
    ensures forall p :: p in InsertAll(rows, prices)[|rows|..] ==> p in prices
  {
    if prices != [] {
      var init := prices[..|prices| - 1];
      InsertAllAppends(rows, init);
      var before := InsertAll(rows, init);
      assert forall p :: p in init ==> p in prices;
      var after := InsertAll(rows, prices);
      if after != before {
        assert after[|rows|..] == before[|rows|..] + [prices[|prices| - 1]];
      }
    }
  }

  /**
   * No row the batch adds holds U+0000 in its name or category: the server refuses every
   * such INSERT, so a price carrying one is skipped.
   */
  lemma {:induction false} InsertAllSkipsNul(rows: seq<Price>, prices: seq<Price>)
    ensures forall p :: p in InsertAll(rows, prices)[|rows|..] ==> '\0' !in p.name && '\0' !in p.category
  {
    if prices != [] {
      var init, p := prices[..|prices| - 1], prices[|prices| - 1];
      InsertAllSkipsNul(rows, init);
      InsertAllAppends(rows, init);
      var before := InsertAll(rows, init);
      if !InsertFails(before, p) {
        assert (before + [p])[|rows|..] == before[|rows|..] + [p];
      }
    }
  }

  /**
   * The row an id ends up with: a row already in the table is never overwritten, and an id
   * new to the table gets the first price of the batch carrying it that fits the columns;
   * an id neither in the table nor in an admissible price stays absent.
   */
  lemma {:induction false} InsertAllLookup(rows: seq<Price>, prices: seq<Price>, id: int)
    ensures Lookup(InsertAll(rows, prices), id) ==
              if Lookup(rows, id).Some? then Lookup(rows, id) else Lookup(Admissible(prices), id)
  {
    if prices != [] {
      var init, p := prices[..|prices| - 1], prices[|prices| - 1];
      InsertAllLookup(rows, init, id);
      var before := InsertAll(rows, init);
      if FitsColumns(p) {
        assert [p][1..] == [];
        LookupAppend(Admissible(init), [p], id);
      }
      if !InsertFails(before, p) {
        LookupAppend(before, [p], id);
      } else if FitsColumns(p) && p.id == id {
        assert Lookup(before, id).Some?;
      }
    }
  }

  /**
   * A batch with distinct ids, none in the table, all within the column constraints, is
   * appended whole, in order.
   */
  lemma {:induction false} InsertAllNew(rows: seq<Price>, prices: seq<Price>)
    requires KeyedById(prices) && forall p :: p in prices ==> FitsColumns(p) && p.id !in IdsOf(rows)
    ensures InsertAll(rows, prices) == rows + prices
  {
    if prices != [] {
      var init, p := prices[..|prices| - 1], prices[|prices| - 1];
      forall q | q in init ensures FitsColumns(q) && q.id !in IdsOf(rows) {
        var i :| 0 <= i < |init| && init[i] == q;
        assert prices[i] == q;
      }
      assert KeyedById(init);
      InsertAllNew(rows, init);
      assert p in prices;
      assert p.id !in IdsOf(rows + init) by {
        forall q | q in rows + init ensures q.id != p.id {
          if q in init {
            var i :| 0 <= i < |init| && init[i] == q;
            assert prices[i] == q;
          }
        }
      }
      assert prices == init + [p];
    }
  }

  // ---------------------------------------------------------------------------
  // GetStatistics
  // ---------------------------------------------------------------------------

  /** The distinct categories of the rows. */
  function Categories(rows: seq<Price>): set<string> {
    set p | p in rows :: p.category
  }

  /** The sum of the prices of the rows (COALESCE(SUM(price), 0)). */
  function SumPrices(rows: seq<Price>): real {
    if rows == [] then 0.0 else SumPrices(rows[..|rows| - 1]) + rows[|rows| - 1].price
  }

  lemma {:induction false} SumPricesAppend(a: seq<Price>, b: seq<Price>)
    ensures SumPrices(a + b) == SumPrices(a) + SumPrices(b)
  {
    if b != [] {
      assert (a + b)[..|a + b| - 1] == a + b[..|b| - 1];
      SumPricesAppend(a, b[..|b| - 1]);
    } else {
      assert a + b == a;
    }
  }

  lemma {:induction false} SumPricesNonNegative(rows: seq<Price>)
    ensures (forall p :: p in rows ==> p.price >= 0.0) ==> SumPrices(rows) >= 0.0
  {
    if rows != [] && forall p :: p in rows ==> p.price >= 0.0 {
      assert forall p :: p in rows[..|rows| - 1] ==> p in rows;
      SumPricesNonNegative(rows[..|rows| - 1]);
      assert rows[|rows| - 1] in rows;
    }
  }

  /** There are never more distinct categories than rows. */
  lemma {:induction false} CategoriesAtMostRows(rows: seq<Price>)
    ensures |Categories(rows)| <= |rows|
  {
    if rows != [] {
      var init := rows[..|rows| - 1];
      CategoriesAtMostRows(init);
      assert Categories(rows) == Categories(init) + {rows[|rows| - 1].category} by {
        assert forall p :: p in rows <==> p in init || p == rows[|rows| - 1];
      }
    }
  }

  /**
   * The snapshot GetStatistics reads: the row count, the number of distinct categories and
   * the sum of the prices, all zero for an empty table.
   */
  function StatisticsOf(rows: seq<Price>): (s: Statistics)
    ensures s.totalItems == |rows|
    ensures 0 <= s.totalCategories <= s.totalItems
    ensures rows == [] ==> s == Statistics(0, 0, 0.0)
    ensures rows != [] ==> s.totalCategories >= 1
    ensures (forall p :: p in rows ==> p.price >= 0.0) ==> s.totalPrice >= 0.0
  {
    CategoriesAtMostRows(rows);
    SumPricesNonNegative(rows);
    assert rows != [] ==> rows[0].category in Categories(rows);
    Statistics(|rows|, |Categories(rows)|, SumPrices(rows))
  }

  /**
   * After a bulk insert the statistics cover the old rows plus exactly the rows added: the
   * counts and the price sum grow by those of the added rows.
   */
  lemma StatisticsAfterInsert(rows: seq<Price>, prices: seq<Price>)
    ensures |rows| <= |InsertAll(rows, prices)|
    ensures var after := InsertAll(rows, prices);
            var added := after[|rows|..];
            && StatisticsOf(after).totalItems == |rows| + |added|
            && StatisticsOf(after).totalPrice == SumPrices(rows) + SumPrices(added)
            && StatisticsOf(after).totalCategories == |Categories(rows) + Categories(added)|
  {
    var after := InsertAll(rows, prices);
    InsertAllAppends(rows, prices);
    var added := after[|rows|..];
    assert after == rows + added;
    SumPricesAppend(rows, added);
    assert Categories(after) == Categories(rows) + Categories(added) by {
      assert forall p :: p in after <==> p in rows || p in added;
    }
  }

  // ---------------------------------------------------------------------------
  // The repository
  // ---------------------------------------------------------------------------

  /** PriceRepository over an in-memory prices table. */
  class PriceRepository {
    var rows: seq<Price>

    ghost predicate Valid()
      reads this
    {
      ValidTable(rows)
    }

    /** A repository over an empty table. */
    constructor ()
      ensures Valid() && rows == []
    {
      rows := [];
    }

    /**
     * CheckExistingIDs: with no ids, the empty set and no query; otherwise SELECT id FROM
     * prices WHERE id = ANY(ids), collecting each returned id. The server rejects the query
     * when an id does not convert to INTEGER. The table is not changed.
     */
    method CheckExistingIDs(ids: seq<int>, fails: bool) returns (r: Result<set<int>, DbError>)
      ensures r == ExistingIds(rows, ids, fails)
    {
      if |ids| == 0 {
        return Ok({});
      }
      if fails || !AllInt32(ids) {
        return Err(QueryFailed);
      }
      var existing: set<int> := {};
      for k := 0 to |rows|
        invariant existing == set p | p in rows[..k] && p.id in ids :: p.id
      {
        assert rows[..k + 1] == rows[..k] + [rows[k]];
        if rows[k].id in ids {
          existing := existing + {rows[k].id};
        }
      }
      assert rows[..|rows|] == rows;
      return Ok(existing);
    }

    /**
     * BulkInsert: one INSERT per price, in order, without a transaction; an INSERT that fails
     * is skipped and the loop goes on. It always reports success.
     */
    method BulkInsert(prices: seq<Price>) returns (err: Option<DbError>)
      requires Valid()
      modifies this
      ensures Valid()
      ensures rows == InsertAll(old(rows), prices)
      ensures err == None
    {
      if |prices| == 0 {
        return None;
      }
      for k := 0 to |prices|
        invariant rows == InsertAll(old(rows), prices[..k])
      {
        assert prices[..k + 1][..k] == prices[..k];
        var p := prices[k];
        if InsertFails(rows, p) {
          continue;
        }
        rows := rows + [p];
      }
      assert prices[..|prices|] == prices;
      InsertAllValid(old(rows), prices);
      return None;
    }

    /** GetStatistics: the snapshot of the whole table, or an error when the query fails. */
    function GetStatistics(fails: bool): (r: Result<Statistics, DbError>)
      reads this
      ensures r.Err? <==> fails
      ensures r.Ok? ==> r.value == StatisticsOf(rows)
    {
      if fails then Err(QueryFailed) else Ok(StatisticsOf(rows))
    }
  }
}
