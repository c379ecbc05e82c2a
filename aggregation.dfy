/** The rows read from the selected files, their concatenation, and the
    `year_month` value the handler derives for each row. */
module Aggregation {
  import opened Text
  import opened Outcomes

  /** The `date` column of a row, as pandas exposes it (`.year`, `.month`, `.day`). */
  datatype Date = Date(year: int, month: int, day: int)

  /** One observation: its date and the other columns, carried along unread. */
  datatype Row = Row(date: Date, measurements: seq<int>)

  /** A DataFrame read from one file, as its rows in order. */
  type Table = seq<Row>

  function TotalRows(tables: seq<Table>): nat {
    if tables == [] then 0 else |tables[0]| + TotalRows(tables[1..])
  }

  /** The rows of all tables, table after table. */
  function Flatten(tables: seq<Table>): (rows: Table)
    ensures |rows| == TotalRows(tables)
  {
    if tables == [] then [] else tables[0] + Flatten(tables[1..])
  }

  /** Concatenating two lists of tables concatenates their rows. */
  lemma {:induction false} FlattenAppend(a: seq<Table>, b: seq<Table>)
    ensures Flatten(a + b) == Flatten(a) + Flatten(b)
    ensures TotalRows(a + b) == TotalRows(a) + TotalRows(b)
  {
    if a == [] {
      assert a + b == b;
    } else {
      assert (a + b)[1..] == a[1..] + b;
      FlattenAppend(a[1..], b);
    }
  }

  /** Row j of table i sits in the concatenation right after the rows of
      the tables before it. */
  lemma {:induction false} FlattenPosition(tables: seq<Table>, i: nat, j: nat)
    requires i < |tables| && j < |tables[i]|
    ensures TotalRows(tables[..i]) + j < |Flatten(tables)|
    ensures Flatten(tables)[TotalRows(tables[..i]) + j] == tables[i][j]
  {
    if i > 0 {
      assert tables[..i][1..] == tables[1..][..i - 1];
      FlattenPosition(tables[1..], i - 1, j);
    }
  }

  /** pd.concat(dataframes): the rows of the tables in list order, or the
      exception pandas raises for an empty list. */
  function Concatenate(tables: seq<Table>): (r: Result<Table>)
    ensures r.Failure? <==> tables == []
    ensures r.Failure? ==> r.error == NoObjectsToConcatenate
    ensures r.Success? ==> |r.value| == TotalRows(tables)
  {
    if tables == [] then Failure(NoObjectsToConcatenate) else Success(Flatten(tables))
  }

  /** The `year_month` value of a row: `str(year) + '_' + str(month)`, the
      month not padded. It holds exactly one '_', with the year before it
      and the month after it, and no '=', so it can stand after
      `year_month=` in a partition directory's name. */
  function YearMonth(d: Date): (ym: string)
    ensures Split(ym, '_') == [IntToString(d.year), IntToString(d.month)]
    ensures '=' !in ym
  {
    var parts := [IntToString(d.year), IntToString(d.month)];
    SplitJoin(parts, '_');
    IntToString(d.year) + "_" + IntToString(d.month)
  }

  /** Two rows get the same `year_month` iff they share year and month. */
  lemma YearMonthInjective(d1: Date, d2: Date)
    ensures YearMonth(d1) == YearMonth(d2) <==> d1.year == d2.year && d1.month == d2.month
  {
    if YearMonth(d1) == YearMonth(d2) {
      IntToStringInjective(d1.year, d2.year);
      IntToStringInjective(d1.month, d2.month);
    }
  }
}
