/** The `clean_duplicates` script: rank every row by its non-empty cells, keep
    the most complete row of every file name, drop the ranking column, and write
    the cleaned table out only when some row was removed. */
module CleanDuplicates {
  import opened Wrappers
  import opened Values
  import opened Dedup

  /** The column naming the source file, and the script's ranking column. */
  const KeyColumn: string := "archivo"
  const HelperColumn: string := "completeness"

  /** What the script reports and writes: the row counts before and after, the
      number removed, and the cleaned table when it is written. */
  datatype Report = Report(initial: nat, final: nat, removed: nat, saved: Option<Frame>)

  /** `clean_duplicates`: a table without the file-name column fails when the
      column is selected. Otherwise the cleaned table is written exactly when a
      file name occurred twice. */
  function Clean(f: Frame): (r: Result<Report>)
    ensures KeyColumn !in f.columns ==> r == Err("KeyError")
    ensures KeyColumn in f.columns <==> r.Ok?
    ensures r.Ok? ==> r.value.initial == |f.rows| && r.value.final <= r.value.initial
    ensures r.Ok? ==> r.value.removed == r.value.initial - r.value.final
    ensures r.Ok? ==> (r.value.saved.Some? <==> DuplicateBefore(KeysOf(f.rows, KeyColumn), |f.rows|))
    ensures r.Ok? && r.value.saved.Some? ==>
      r.value.saved.value.columns == Without(f.columns, HelperColumn)
      && |r.value.saved.value.rows| == r.value.final
  {
    if KeyColumn !in f.columns then Err("KeyError")
    else
      var clean := DropDuplicatesWith(f, KeyColumn, HelperColumn);
      var removed := |f.rows| - |clean.rows|;
      Ok(Report(|f.rows|, |clean.rows|, removed, if removed > 0 then Some(clean) else None))
  }

  /** The written table is clean: running the script on it removes nothing and
      writes nothing. */
  lemma CleanSettles(f: Frame)
    requires Clean(f).Ok? && Clean(f).value.saved.Some?
    ensures var g := Clean(f).value.saved.value;
      Clean(g).Ok? && Clean(g).value.removed == 0 && Clean(g).value.saved.None?
  {
    assert KeyColumn != HelperColumn;
    var g := DropDuplicatesWith(f, KeyColumn, HelperColumn);
    assert Clean(f).value.saved.value == g;
    DropDuplicatesWithSettles(f, KeyColumn, HelperColumn);
    assert KeyColumn in g.columns;
    var h := DropDuplicatesWith(g, KeyColumn, HelperColumn);
    assert |h.rows| == |g.rows|;
    assert Clean(g) == Ok(Report(|g.rows|, |g.rows|, 0, None));
  }
}
