/** The `fix_values` script: every row whose `total` is a number strictly between
    0 and 500 gets its total multiplied by 1000; the count of such rows is
    reported and the table is always written back. */
module FixValues {
  import opened Values
  import opened Amounts

  /** The script's own threshold and factor. */
  const LowThreshold: real := 500.0
  const Factor: real := 1000.0

  /** The row's total is a number in the suspicious range. */
  predicate LowTotalRow(row: Record) {
    Get(row, "total").Num? && 0.0 < Get(row, "total").x < LowThreshold
  }

  /** One row: a missing or non-numeric total is skipped. */
  function FixRow(row: Record): (r: Record)
    ensures r.Keys == row.Keys
    ensures forall k :: k in row && k != "total" ==> r[k] == row[k]
    ensures Get(r, "total") == CorrectLowTotal(Get(row, "total"))
  {
    if LowTotalRow(row) then row["total" := Num(row["total"].x * Factor)] else row
  }

  /** A row changes exactly when its total is in the suspicious range. */
  lemma FixRowChanges(row: Record)
    ensures FixRow(row) != row <==> LowTotalRow(row)
  {
    if LowTotalRow(row) {
      assert FixRow(row)["total"] != row["total"];
    }
  }

  /** The rows among `rows` with a suspicious total. */
  function CountLow(rows: seq<Record>): (n: nat)
    ensures n <= |rows|
  {
    CountWhere(rows, LowTotalRow)
  }

  /** The rows that differ between `before` and `after`. */
  function CountChanged(before: seq<Record>, after: seq<Record>): (n: nat)
    requires |before| == |after|
  {
    if |before| == 0 then 0
    else
      var last := if before[|before| - 1] != after[|after| - 1] then 1 else 0;
      CountChanged(before[..|before| - 1], after[..|after| - 1]) + last
  }

  /** `fix_values`: the corrected rows and the count it reports. */
  method FixValues(rows: seq<Record>) returns (fixed: seq<Record>, countLow: nat)
    ensures |fixed| == |rows|
    ensures forall j :: 0 <= j < |rows| ==> fixed[j] == FixRow(rows[j])
    ensures countLow == CountLow(rows)
    ensures countLow == CountChanged(rows, fixed)
  {
    fixed := [];
    countLow := 0;
    for i := 0 to |rows|
      invariant |fixed| == i
      invariant forall j :: 0 <= j < i ==> fixed[j] == FixRow(rows[j])
      invariant countLow == CountLow(rows[..i])
    {
      CountWhereSnoc(rows, LowTotalRow, i);
      if LowTotalRow(rows[i]) {
        countLow := countLow + 1;
      }
      fixed := fixed + [FixRow(rows[i])];
    }
    assert rows[..|rows|] == rows;
    assert fixed == FixAll(rows);
    CountLowIsChanged(rows);
  }

  /** The count the script reports is the number of rows whose total changed. */
  lemma {:induction false} CountLowIsChanged(rows: seq<Record>)
    ensures CountLow(rows) == CountChanged(rows, FixAll(rows))
  {
    if |rows| > 0 {
      var init := rows[..|rows| - 1];
      CountLowIsChanged(init);
      assert FixAll(rows)[..|rows| - 1] == FixAll(init);
      FixRowChanges(rows[|rows| - 1]);
    }
  }

  function FixAll(rows: seq<Record>): (fixed: seq<Record>)
    ensures |fixed| == |rows|
    ensures forall j :: 0 <= j < |rows| ==> fixed[j] == FixRow(rows[j])
  {
    if |rows| == 0 then [] else FixAll(rows[..|rows| - 1]) + [FixRow(rows[|rows| - 1])]
  }

  /** After one run no total is left in (0.5, 500): a second run changes only
      totals that the first run brought from (0, 0.5) into (0, 500). */
  lemma SecondRunOnlyTiny(row: Record)
    ensures LowTotalRow(FixRow(row)) ==>
      LowTotalRow(row) && 0.0 < Get(row, "total").x < LowThreshold / Factor
  {
  }
}
