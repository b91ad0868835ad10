// The table that load_data.py hands to `csv.DictWriter`: the header row
// `goal, X, Y` and then one row per accumulated record, fields in that
// order. Rows are kept as cells; rendering them as text is not modelled.

module Writer {
  import opened Records

  /** One field of a row: a column name, the goal flag, or a coordinate. */
  datatype Cell<C> = Name(text: string) | Flag(bit: int) | Value(coord: C)

  type Row<C> = seq<Cell<C>>

  function Header<C>(): Row<C> {
    [Name("goal"), Name("X"), Name("Y")]
  }

  function RowOf<C>(s: Shot<C>): Row<C> {
    [Flag(s.goal), Value(s.x), Value(s.y)]
  }

  /** The whole table as written: header first, then the records in order. */
  function Table<C>(shots: seq<Shot<C>>): seq<Row<C>> {
    [Header()] + seq(|shots|, k requires 0 <= k < |shots| => RowOf(shots[k]))
  }

  /** Reads a record back from a data row. */
  ghost function ParseRow<C>(row: Row<C>): Option<Shot<C>> {
    if |row| == 3 && row[0].Flag? && row[1].Value? && row[2].Value?
    then Some(Shot(row[0].bit, row[1].coord, row[2].coord))
    else None
  }

  ghost function ParseRows<C>(rows: seq<Row<C>>): Option<seq<Shot<C>>> {
    if |rows| == 0 then Some([])
    else
      match (ParseRow(rows[0]), ParseRows(rows[1..]))
      case (Some(s), Some(rest)) => Some([s] + rest)
      case _ => None
  }

  /** Reads the records back from a table that starts with the header. */
  ghost function ParseTable<C>(table: seq<Row<C>>): Option<seq<Shot<C>>> {
    if |table| == 0 || table[0] != Header() then None else ParseRows(table[1..])
  }

  lemma {:induction false} ParseRowsInverse<C>(rows: seq<Row<C>>, shots: seq<Shot<C>>)
    requires |rows| == |shots|
    requires forall k :: 0 <= k < |rows| ==> rows[k] == RowOf(shots[k])
    ensures ParseRows(rows) == Some(shots)
  {
    if |rows| > 0 {
      ParseRowsInverse(rows[1..], shots[1..]);
      assert [shots[0]] + shots[1..] == shots;
    }
  }

  /** The table has the header and exactly one row per record, and reading
      it back gives the records unchanged and in the same order. */
  lemma TableRoundTrip<C>(shots: seq<Shot<C>>)
    ensures |Table(shots)| == |shots| + 1 && Table(shots)[0] == Header()
    ensures ParseTable(Table(shots)) == Some(shots)
  {
    ParseRowsInverse(Table(shots)[1..], shots);
  }

  /** `writeheader()` and then `writerow` for each record in turn. */
  method WriteTable<C>(shots: seq<Shot<C>>) returns (table: seq<Row<C>>)
    ensures table == Table(shots)
  {
    table := [Header()];
    for k := 0 to |shots|
      invariant |table| == k + 1 && table[0] == Header()
      invariant forall m :: 0 <= m < k ==> table[m + 1] == RowOf(shots[m])
    {
      table := table + [RowOf(shots[k])];
    }
  }
}
