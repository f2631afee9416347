/** One run of the program (`main`): resolve the API key, list the input
    documents, skip the ones an earlier run already saved successfully, process
    the rest, and save the records in batches of five as they complete, plus a
    final partial batch. The file system, the prompt, the concurrency and the
    pauses are not modelled: the listing, the existing spreadsheet and the
    order in which the documents complete are parameters. */
module Run {
  import opened Wrappers
  import opened Values
  import opened Text
  import opened Paths
  import opened Store
  import Dedup
  import Processor
  import Xml

  // ---------------------------------------------------------------------------
  // Order-keeping filter

  /** The elements of `s` that satisfy `p`, in their order in `s`. */
  function Filter<T(!new)>(s: seq<T>, p: T -> bool): (r: seq<T>)
    ensures |r| <= |s|
  {
    if |s| == 0 then []
    else Filter(s[..|s| - 1], p) + (if p(s[|s| - 1]) then [s[|s| - 1]] else [])
  }

  /** What the filter keeps: exactly the elements that satisfy `p`. */
  lemma {:induction false} FilterMembers<T(!new)>(s: seq<T>, p: T -> bool)
    ensures forall x :: x in Filter(s, p) <==> x in s && p(x)
  {
    if |s| > 0 {
      var init := s[..|s| - 1];
      FilterMembers(init, p);
      assert s == init + [s[|s| - 1]];
    }
  }

  /** Filtering a concatenation filters each part, so the order is kept. */
  lemma {:induction false} FilterAppend<T(!new)>(a: seq<T>, b: seq<T>, p: T -> bool)
    ensures Filter(a + b, p) == Filter(a, p) + Filter(b, p)
    decreases |b|
  {
    if |b| == 0 {
      assert a + b == a;
    } else {
      var init := b[..|b| - 1];
      assert (a + b)[..|a + b| - 1] == a + init;
      FilterAppend(a, init, p);
    }
  }

  /** Nothing is dropped when every element satisfies `p`. */
  lemma {:induction false} FilterAll<T(!new)>(s: seq<T>, p: T -> bool)
    requires forall j :: 0 <= j < |s| ==> p(s[j])
    ensures Filter(s, p) == s
  {
    if |s| > 0 {
      FilterAll(s[..|s| - 1], p);
      assert s[..|s| - 1] + [s[|s| - 1]] == s;
    }
  }

  /** Extending the input by one element extends the result by it exactly when
      it satisfies `p`. */
  lemma FilterSnoc<T(!new)>(s: seq<T>, p: T -> bool, i: nat)
    requires i < |s|
    ensures Filter(s[..i + 1], p) == Filter(s[..i], p) + (if p(s[i]) then [s[i]] else [])
  {
    assert s[..i + 1][..i] == s[..i];
  }

  // ---------------------------------------------------------------------------
  // The API key and the input documents

  /** The key from the environment when it is set and not empty, otherwise the
      one typed at the prompt, stripped. */
  function ResolveKey(env: Option<string>, typed: string): (r: string)
    ensures env.Some? && env.value != "" ==> r == env.value
    ensures !(env.Some? && env.value != "") ==> r == Strip(typed)
  {
    if env.Some? && env.value != "" then env.value else Strip(typed)
  }

  /** A document is read when its name, lower-cased, ends with one of the four
      extensions. */
  predicate IsInput(name: string) {
    var l := Lower(name);
    EndsWith(l, ".pdf") || EndsWith(l, ".png") || EndsWith(l, ".jpg") || EndsWith(l, ".jpeg")
  }

  lemma LowerCharTwice(c: char)
    ensures LowerChar(LowerChar(c)) == LowerChar(c)
  {
  }

  /** Lower-casing twice is lower-casing once. */
  lemma LowerTwice(s: string)
    ensures Lower(Lower(s)) == Lower(s)
  {
    var l := Lower(s);
    forall i | 0 <= i < |s| ensures Lower(l)[i] == l[i] {
      LowerCharTwice(s[i]);
    }
  }

  /** The filter ignores case: a name is an input exactly when its lower-cased
      form is. */
  lemma InputIgnoresCase(name: string)
    ensures IsInput(name) <==> IsInput(Lower(name))
  {
    LowerTwice(name);
  }

  /** The walked paths whose file name is an input, in walking order. */
  function Inputs(listing: seq<string>): (r: seq<string>)
    ensures forall p :: p in r <==> p in listing && IsInput(Basename(p))
  {
    FilterMembers(listing, p => IsInput(Basename(p)));
    Filter(listing, p => IsInput(Basename(p)))
  }

  // ---------------------------------------------------------------------------
  // The skip set

  /** pandas' `astype(str)` of a cell: an empty cell is `nan`. How a number is
      printed is supplied as `show`. */
  function CellText(v: Value, show: real -> string): (r: string)
    ensures v.Str? ==> r == v.s
    ensures v.Null? ==> r == "nan"
  {
    match v
    case Null => "nan"
    case Str(s) => s
    case Num(x) => show(x)
  }

  /** A row saved by a successful vision extraction. */
  predicate Succeeded(row: Record) {
    Get(row, "estado") == Str(Processor.Success)
  }

  /** Row `j` of table `f` names the file `x` as handled: the row's state is
      exactly `EXITOSO` when the table has a state column. */
  predicate Listed(f: Dedup.Frame, j: int, x: string, show: real -> string) {
    && 0 <= j < |f.rows|
    && ("estado" in f.columns ==> Succeeded(f.rows[j]))
    && CellText(Get(f.rows[j], "archivo"), show) == x
  }

  /** The file names already handled. `existing` is `None` when there is no
      output file yet and `Some(Err(_))` when it cannot be read. A table with
      both a file-name and a state column gives the names of the rows whose
      state is exactly `EXITOSO`; a table with only the file-name column (the
      older layout) gives every name; any other table gives none. */
  function SkipSet(existing: Option<Result<Dedup.Frame>>, show: real -> string): (r: set<string>)
    ensures existing.None? || existing.value.Err? ==> r == {}
    ensures existing.Some? && existing.value.Ok? && "archivo" !in existing.value.value.columns ==> r == {}
    ensures existing.Some? && existing.value.Ok? && "archivo" in existing.value.value.columns ==>
      forall x :: x in r <==> exists j :: Listed(existing.value.value, j, x, show)
  {
    match existing
    case None => {}
    case Some(Err(_)) => {}
    case Some(Ok(f)) =>
      if "archivo" !in f.columns then {}
      else
        set j, x | 0 <= j < |f.rows| && x == CellText(Get(f.rows[j], "archivo"), show) &&
          Listed(f, j, x, show) :: x
  }

  /** The documents not already handled, in walking order. */
  function ToProcess(files: seq<string>, skip: set<string>): (r: seq<string>)
    ensures forall p :: p in r <==> p in files && Basename(p) !in skip
  {
    FilterMembers(files, Unskipped(skip));
    Filter(files, Unskipped(skip))
  }

  /** The test a document passes to be processed. */
  function Unskipped(skip: set<string>): string -> bool {
    p => Basename(p) !in skip
  }

  // ---------------------------------------------------------------------------
  // Starting a run

  /** How a run starts: it stops without a key, without documents, or with
      every document already handled; otherwise it goes on with the documents
      found, those to process and the number skipped. */
  datatype Start =
    | NoKey
    | NoFiles
    | AllDone(found: nat)
    | Go(files: seq<string>, toProcess: seq<string>, skipped: nat)

  /** The spreadsheet as the run sees it: `--reset` deletes it first. */
  function Existing(reset: bool, file: Option<Result<Dedup.Frame>>): (r: Option<Result<Dedup.Frame>>)
    ensures reset ==> r.None?
    ensures !reset ==> r == file
  {
    if reset then None else file
  }

  /** The start of `main` up to the processing loop. */
  function Begin(key: string, reset: bool, listing: seq<string>, file: Option<Result<Dedup.Frame>>,
                 show: real -> string): (r: Start)
    ensures key == "" <==> r.NoKey?
    ensures key != "" ==> (r.NoFiles? <==> forall p :: p in listing ==> !IsInput(Basename(p)))
    ensures r.AllDone? ==> r.found == |Inputs(listing)| > 0
    ensures r.Go? ==> r.files == Inputs(listing) && r.toProcess != []
    ensures r.Go? ==> r.skipped == |r.files| - |r.toProcess|
    ensures r.Go? ==> forall p :: p in r.toProcess <==>
      (p in r.files && Basename(p) !in SkipSet(Existing(reset, file), show))
  {
    if key == "" then NoKey
    else
      var files := Inputs(listing);
      if files == [] then
        assert forall p :: p in listing ==> !IsInput(Basename(p));
        NoFiles
      else
        assert files[0] in listing;
        var todo := ToProcess(files, SkipSet(Existing(reset, file), show));
        if todo == [] then AllDone(|files|) else Go(files, todo, |files| - |todo|)
  }

  /** With `--reset` nothing is skipped: every document found is processed. */
  lemma ResetProcessesAll(key: string, listing: seq<string>, file: Option<Result<Dedup.Frame>>,
                          show: real -> string)
    requires key != "" && Inputs(listing) != []
    ensures var r := Begin(key, true, listing, file, show);
      r.Go? && r.toProcess == r.files && r.skipped == 0
  {
    assert SkipSet(Existing(true, file), show) == {};
    NothingSkipped(Inputs(listing));
  }

  /** With an empty skip set every document is to be processed. */
  lemma NothingSkipped(files: seq<string>)
    ensures ToProcess(files, {}) == files
  {
    FilterAll(files, Unskipped({}));
  }

  // ---------------------------------------------------------------------------
  // Resuming from the spreadsheet the program writes

  /** Every saved row has a cell per output column. */
  predicate Shaped(rows: seq<Row>) {
    forall j :: 0 <= j < |rows| ==> |rows[j]| == |Columns|
  }

  /** Saving keeps the sheet's shape. */
  lemma SaveShaped(sheet: Option<seq<Row>>, data: seq<Record>)
    requires sheet.Some? ==> Shaped(sheet.value)
    requires |data| > 0
    ensures Shaped(SaveToExcel(sheet, data).value)
  {
    var saved := SaveToExcel(sheet, data).value;
    var n := |sheet.GetOr([])|;
    forall j | 0 <= j < |saved| ensures |saved[j]| == |Columns| {
      if j < n {
        assert saved[j] == saved[..n][j];
      } else {
        assert saved[j] == Project(data[j - n]);
      }
    }
  }

  /** The saved rows read back as a table of the output columns. */
  function SheetFrame(rows: seq<Row>): (f: Dedup.Frame)
    requires Shaped(rows)
    ensures f.columns == Columns && |f.rows| == |rows|
    ensures forall j :: 0 <= j < |rows| ==> f.rows[j] == Unproject(rows[j])
  {
    Dedup.Frame(Columns, seq(|rows|, j requires 0 <= j < |rows| && |rows[j]| == |Columns| => Unproject(rows[j])))
  }

  lemma IdentityColumns()
    ensures "archivo" in Columns && "estado" in Columns
  {
    assert Columns[0] == "archivo" && Columns[1] == "estado";
  }

  /** A row of a readable table with a file-name column that names `x` puts
      `x` in the skip set. */
  lemma ListedSkipped(f: Dedup.Frame, j: int, x: string, show: real -> string)
    requires "archivo" in f.columns && Listed(f, j, x, show)
    ensures x in SkipSet(Some(Ok(f)), show)
  {
  }

  /** The file name and the state survive saving a record and reading it
      back. */
  lemma IdentityRoundTrip(rec: Record)
    ensures Get(Unproject(Project(rec)), "archivo") == Get(rec, "archivo")
    ensures Get(Unproject(Project(rec)), "estado") == Get(rec, "estado")
  {
    IdentityColumns();
    UnprojectProject(rec, "archivo");
    UnprojectProject(rec, "estado");
  }

  /** Record `j` of a saved batch is read back from the row after the rows
      already there. */
  lemma SavedRow(sheet: Option<seq<Row>>, data: seq<Record>, j: nat)
    requires sheet.Some? ==> Shaped(sheet.value)
    requires j < |data|
    ensures Shaped(SaveToExcel(sheet, data).value)
    ensures SheetFrame(SaveToExcel(sheet, data).value).rows[|sheet.GetOr([])| + j]
      == Unproject(Project(data[j]))
  {
    SaveShaped(sheet, data);
  }

  /** A saved row whose state is `EXITOSO` puts its file name in the skip
      set. */
  lemma SuccessRowSkipped(rows: seq<Row>, k: nat, rec: Record, show: real -> string)
    requires Shaped(rows) && k < |rows| && SheetFrame(rows).rows[k] == Unproject(Project(rec))
    requires Succeeded(rec) && Get(rec, "archivo").Str?
    ensures Get(rec, "archivo").s in SkipSet(Some(Ok(SheetFrame(rows))), show)
  {
    var f := SheetFrame(rows);
    IdentityRoundTrip(rec);
    IdentityColumns();
    assert Listed(f, k, Get(rec, "archivo").s, show);
    ListedSkipped(f, k, Get(rec, "archivo").s, show);
  }

  /** A record saved with state `EXITOSO` is skipped on the next run. */
  lemma SavedSuccessSkipped(sheet: Option<seq<Row>>, data: seq<Record>, j: nat, show: real -> string)
    requires sheet.Some? ==> Shaped(sheet.value)
    requires j < |data| && Succeeded(data[j]) && Get(data[j], "archivo").Str?
    ensures Shaped(SaveToExcel(sheet, data).value)
    ensures Get(data[j], "archivo").s in SkipSet(Some(Ok(SheetFrame(SaveToExcel(sheet, data).value))), show)
  {
    SavedRow(sheet, data, j);
    SuccessRowSkipped(SaveToExcel(sheet, data).value, |sheet.GetOr([])| + j, data[j], show);
  }

  lemma StatesApart()
    ensures Xml.Estado != Processor.Success
  {
    assert Xml.Estado[7] != Processor.Success[6];
  }

  /** A document whose saved rows all come from its companion XML file is
      processed again on every run: its state `EXITOSO (XML)` is not exactly
      `EXITOSO`. */
  lemma XmlRowsRedone(rows: seq<Row>, name: string, show: real -> string)
    requires Shaped(rows)
    requires forall j :: 0 <= j < |rows| && CellText(Get(Unproject(rows[j]), "archivo"), show) == name ==>
      Get(Unproject(rows[j]), "estado") == Str(Xml.Estado)
    ensures name !in SkipSet(Some(Ok(SheetFrame(rows))), show)
  {
    IdentityColumns();
    StatesApart();
    var f := SheetFrame(rows);
    forall j | 0 <= j < |f.rows| ensures !Listed(f, j, name, show) {
      assert f.rows[j] == Unproject(rows[j]);
    }
  }

  // ---------------------------------------------------------------------------
  // The processing loop

  /** `if res:` on a record: a record is kept when it is not empty. */
  predicate Kept(rec: Record) {
    rec != map[]
  }

  const BatchSize: nat := 5

  /** The batches flattened back into one sequence. */
  function Concat(batches: seq<seq<Record>>): seq<Record> {
    if |batches| == 0 then [] else Concat(batches[..|batches| - 1]) + batches[|batches| - 1]
  }

  lemma ConcatSnoc(batches: seq<seq<Record>>, b: seq<Record>)
    ensures Concat(batches + [b]) == Concat(batches) + b
  {
    assert (batches + [b])[..|batches|] == batches;
  }

  /** Saving batch after batch, in order. */
  function SaveAll(sheet: Option<seq<Row>>, batches: seq<seq<Record>>): Option<seq<Row>> {
    if |batches| == 0 then sheet
    else SaveToExcel(SaveAll(sheet, batches[..|batches| - 1]), batches[|batches| - 1])
  }

  /** Saving batch after batch leaves the sheet that saving all the records at
      once would. */
  lemma {:induction false} SaveAllConcat(sheet: Option<seq<Row>>, batches: seq<seq<Record>>)
    ensures SaveAll(sheet, batches) == SaveToExcel(sheet, Concat(batches))
  {
    if |batches| > 0 {
      var init := batches[..|batches| - 1];
      SaveAllConcat(sheet, init);
      SaveTwice(sheet, Concat(init), batches[|batches| - 1]);
    }
  }

  lemma SaveAllSnoc(sheet: Option<seq<Row>>, batches: seq<seq<Record>>, b: seq<Record>)
    ensures SaveAll(sheet, batches + [b]) == SaveToExcel(SaveAll(sheet, batches), b)
  {
    assert (batches + [b])[..|batches|] == batches;
  }

  /** The loop's variables but the sheet: the batches saved so far, the
      records not yet saved, the positions after which a batch was saved, and
      the progress counter's readings. */
  datatype Loop = Loop(batches: seq<seq<Record>>, pending: seq<Record>, flushes: seq<nat>, progress: seq<nat>)

  /** One pass of the loop on the `j`-th result to complete. */
  function Step(s: Loop, j: nat, res: Record): Loop {
    var counted := s.(progress := s.progress + [j + 1]);
    if !Kept(res) then counted
    else
      var pending := s.pending + [res];
      if |pending| >= BatchSize then
        counted.(batches := s.batches + [pending], pending := [], flushes := s.flushes + [j])
      else counted.(pending := pending)
  }

  /** The loop's variables after the first `n` results. */
  function Prefix(done: seq<Record>, n: nat): Loop
    requires n <= |done|
  {
    if n == 0 then Loop([], [], [], [])
    else Step(Prefix(done, n - 1), n - 1, done[n - 1])
  }

  /** The number of non-empty results among the first `n`. */
  function KeptCount(done: seq<Record>, n: nat): (c: nat)
    requires n <= |done|
    ensures c <= n
  {
    if n == 0 then 0 else KeptCount(done, n - 1) + (if Kept(done[n - 1]) then 1 else 0)
  }

  /** The count is the length of the filtered prefix. */
  lemma {:induction false} KeptCountFilter(done: seq<Record>, n: nat)
    requires n <= |done|
    ensures KeptCount(done, n) == |Filter(done[..n], Kept)|
  {
    if n > 0 {
      KeptCountFilter(done, n - 1);
      FilterSnoc(done, Kept, n - 1);
    }
  }

  /** The batches saved and the pending records are the non-empty results, in
      completion order. */
  ghost predicate Ordered(done: seq<Record>, n: nat, s: Loop)
    requires n <= |done|
  {
    Concat(s.batches) + s.pending == Filter(done[..n], Kept)
  }

  /** Every batch holds five records and fewer than five are pending. */
  ghost predicate Sized(done: seq<Record>, n: nat, s: Loop)
    requires n <= |done|
  {
    && KeptCount(done, n) == BatchSize * |s.batches| + |s.pending|
    && |s.pending| < BatchSize
    && forall b :: 0 <= b < |s.batches| ==> |s.batches[b]| == BatchSize
  }

  /** A batch was saved right after each result that completed a multiple of
      five non-empty results. */
  ghost predicate Flushed(done: seq<Record>, n: nat, flushes: seq<nat>)
    requires n <= |done|
  {
    forall j :: j in flushes <==>
      (0 <= j < n && Kept(done[j]) && KeptCount(done, j + 1) % BatchSize == 0)
  }

  /** The counter read 1, 2, ..., `n`. */
  predicate Counted(n: nat, progress: seq<nat>) {
    |progress| == n && forall j :: 0 <= j < n ==> progress[j] == j + 1
  }

  lemma StepOrdered(done: seq<Record>, n: nat, s: Loop)
    requires n < |done| && Ordered(done, n, s)
    ensures Ordered(done, n + 1, Step(s, n, done[n]))
  {
    FilterSnoc(done, Kept, n);
    if Kept(done[n]) {
      var pending := s.pending + [done[n]];
      ConcatSnoc(s.batches, pending);
      assert Concat(s.batches) + pending == Concat(s.batches) + s.pending + [done[n]];
    }
  }

  lemma StepSized(done: seq<Record>, n: nat, s: Loop)
    requires n < |done| && Sized(done, n, s)
    ensures Sized(done, n + 1, Step(s, n, done[n]))
  {
  }

  /** `BatchSize * q + r` leaves `r` over. */
  lemma Remainder(q: nat, r: nat)
    requires r < BatchSize
    ensures (BatchSize * q + r) % BatchSize == r
  {
  }

  lemma StepFlushed(done: seq<Record>, n: nat, s: Loop)
    requires n < |done| && Sized(done, n, s) && Flushed(done, n, s.flushes)
    ensures Flushed(done, n + 1, Step(s, n, done[n]).flushes)
  {
    if Kept(done[n]) {
      if |s.pending| + 1 < BatchSize {
        Remainder(|s.batches|, |s.pending| + 1);
      } else {
        Remainder(|s.batches| + 1, 0);
      }
    }
  }

  lemma StepCounted(done: seq<Record>, n: nat, s: Loop)
    requires n < |done| && Counted(n, s.progress)
    ensures Counted(n + 1, Step(s, n, done[n]).progress)
  {
  }

  /** The invariant holds after every prefix of the results, part by part. */
  lemma {:induction false} PrefixOrdered(done: seq<Record>, n: nat)
    requires n <= |done|
    ensures Ordered(done, n, Prefix(done, n))
  {
    if n > 0 {
      PrefixOrdered(done, n - 1);
      StepOrdered(done, n - 1, Prefix(done, n - 1));
    }
  }

  lemma {:induction false} PrefixSized(done: seq<Record>, n: nat)
    requires n <= |done|
    ensures Sized(done, n, Prefix(done, n))
  {
    if n > 0 {
      PrefixSized(done, n - 1);
      StepSized(done, n - 1, Prefix(done, n - 1));
    }
  }

  lemma {:induction false} PrefixFlushed(done: seq<Record>, n: nat)
    requires n <= |done|
    ensures Flushed(done, n, Prefix(done, n).flushes)
  {
    if n > 0 {
      PrefixSized(done, n - 1);
      PrefixFlushed(done, n - 1);
      StepFlushed(done, n - 1, Prefix(done, n - 1));
    }
  }

  lemma {:induction false} PrefixCounted(done: seq<Record>, n: nat)
    requires n <= |done|
    ensures Counted(n, Prefix(done, n).progress)
  {
    if n > 0 {
      PrefixCounted(done, n - 1);
      StepCounted(done, n - 1, Prefix(done, n - 1));
    }
  }

  /** Rounding `BatchSize * q + r` up to whole batches. */
  lemma Batches(q: nat, r: nat)
    requires r < BatchSize
    ensures (BatchSize * q + r + BatchSize - 1) / BatchSize == q + (if r > 0 then 1 else 0)
  {
  }

  /** Every batch but the last has five records, the last between one and
      five. */
  predicate Batched(batches: seq<seq<Record>>) {
    && (forall b :: 0 <= b < |batches| - 1 ==> |batches[b]| == BatchSize)
    && (|batches| > 0 ==> 0 < |batches[|batches| - 1]| <= BatchSize)
  }

  /** The batches once the last, partial one is added. */
  function Last(s: Loop): seq<seq<Record>> {
    if s.pending != [] then s.batches + [s.pending] else s.batches
  }

  /** After the final save every non-empty record is in a batch, in
      completion order. */
  lemma FinishedOrder(done: seq<Record>, s: Loop)
    requires Ordered(done, |done|, s)
    ensures Concat(Last(s)) == Filter(done, Kept)
  {
    assert done[..|done|] == done;
    if s.pending != [] {
      ConcatSnoc(s.batches, s.pending);
    }
  }

  /** Every batch but the last has five records, the last between one and
      five, and there are as many batches as five-record portions, rounded
      up. */
  lemma FinishedBatches(done: seq<Record>, s: Loop)
    requires Sized(done, |done|, s)
    ensures Batched(Last(s))
    ensures |Last(s)| == (|Filter(done, Kept)| + BatchSize - 1) / BatchSize
  {
    assert done[..|done|] == done;
    KeptCountFilter(done, |done|);
    Batches(|s.batches|, |s.pending|);
  }

  /** What the loop leaves once every result has completed and the last,
      partial batch is added. */
  lemma Drained(done: seq<Record>)
    ensures var s := Prefix(done, |done|);
      && Concat(Last(s)) == Filter(done, Kept)
      && Batched(Last(s))
      && |Last(s)| == (|Filter(done, Kept)| + BatchSize - 1) / BatchSize
      && Flushed(done, |done|, s.flushes) && Counted(|done|, s.progress)
  {
    var s := Prefix(done, |done|);
    PrefixOrdered(done, |done|);
    PrefixSized(done, |done|);
    PrefixFlushed(done, |done|);
    PrefixCounted(done, |done|);
    FinishedOrder(done, s);
    FinishedBatches(done, s);
  }

  /** The loop over the results in completion order: `done` holds the results
      in the order they completed. Each batch is saved when it is made (the
      sheet then is `SaveAll` of the batches, see `SaveAllConcat`): batches of
      exactly five, made right after the record that completes a multiple of
      five, and one last smaller batch when records are left over. Together
      they hold every non-empty record in completion order, and the progress
      counter counts every result. */
  method Drain(done: seq<Record>)
    returns (batches: seq<seq<Record>>, flushes: seq<nat>, progress: seq<nat>)
    ensures Concat(batches) == Filter(done, Kept)
    ensures Batched(batches)
    ensures |batches| == (|Filter(done, Kept)| + BatchSize - 1) / BatchSize
    ensures Flushed(done, |done|, flushes)
    ensures Counted(|done|, progress)
  {
    var pending: seq<Record> := [];
    batches, flushes, progress := [], [], [];
    var completed: nat := 0;
    while completed < |done|
      invariant completed <= |done|
      invariant Loop(batches, pending, flushes, progress) == Prefix(done, completed)
    {
      var res := done[completed];
      progress := progress + [completed + 1];
      if Kept(res) {
        pending := pending + [res];
        if |pending| >= BatchSize {
          batches := batches + [pending];
          pending := [];
          flushes := flushes + [completed];
        }
      }
      completed := completed + 1;
    }
    Drained(done);
    if pending != [] {
      batches := batches + [pending];
    }
  }

  /** The resolver never yields an empty record, so every document processed
      is saved: the sheet grows by one row per document. */
  lemma EveryDocumentSaved(sheet: Option<seq<Row>>, done: seq<Record>)
    requires |done| > 0
    requires forall j :: 0 <= j < |done| ==> Kept(done[j])
    ensures Filter(done, Kept) == done
    ensures SaveToExcel(sheet, Filter(done, Kept)).Some?
    ensures |SaveToExcel(sheet, Filter(done, Kept)).value| == |sheet.GetOr([])| + |done|
  {
    FilterAll(done, Kept);
  }

  /** The documents to process in the order they complete: `order[i]` is the
      position in `toProcess` of the `i`-th document to complete, and each
      document's record is what the resolver made of it. */
  function Completed(toProcess: seq<string>, order: seq<nat>, resolve: string -> Record): (r: seq<Record>)
    requires forall i :: 0 <= i < |order| ==> order[i] < |toProcess|
    ensures |r| == |order|
    ensures forall i :: 0 <= i < |order| ==> r[i] == resolve(toProcess[order[i]])
  {
    seq(|order|, i requires 0 <= i < |order| => resolve(toProcess[order[i]]))
  }

  /** With the resolver, every completed document adds exactly one row. */
  lemma ResolvedAllSaved(sheet: Option<seq<Row>>, toProcess: seq<string>, order: seq<nat>,
                         hasCompanion: string -> bool, xml: string -> Outcome, vision: string -> Outcome,
                         show: real -> string)
    requires |order| > 0 && forall i :: 0 <= i < |order| ==> order[i] < |toProcess|
    ensures var done := Completed(toProcess, order,
      p => Processor.ProcessFile(p, hasCompanion(p), xml(p), vision(p), show));
      |SaveToExcel(sheet, Filter(done, Kept)).value| == |sheet.GetOr([])| + |order|
  {
    var done := Completed(toProcess, order,
      p => Processor.ProcessFile(p, hasCompanion(p), xml(p), vision(p), show));
    EveryDocumentSaved(sheet, done);
  }
}
