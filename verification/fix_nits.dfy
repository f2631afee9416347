/** The `fix_nits` script. A first pass rewrites every row whose NIT text holds a
    hyphen or a dot: the NIT keeps only its number, an extracted verification
    digit fills an empty `nit_dv_extraido`, and the computed digit is stored. A
    second pass recomputes the digit of every row that has a NIT. The table is
    written back when any row was touched. */
module FixNits {
  import opened Wrappers
  import opened Text
  import opened Values
  import opened Dates
  import opened Nit
  import opened Normalize

  /** `str(nit).strip()` of the row. */
  function NitText(row: Record, show: real -> string): string {
    Strip(ValueText(Get(row, "nit"), show))
  }

  /** The number of the cleaned NIT text (`clean_nit`, then the part before the
      first hyphen). */
  function NitNumber(row: Record, show: real -> string): (n: string)
    ensures '-' !in n && '.' !in n && ' ' !in n
  {
    var clean := CleanNit(Str(NitText(row, show)), show);
    SplitNumberWithin(clean, '.');
    SplitNumberWithin(clean, ' ');
    SplitNit(clean).number
  }

  /** Pass 1 picks the rows with a truthy NIT whose text holds `-` or `.`. */
  predicate Selected(row: Record, show: real -> string) {
    Truthy(Get(row, "nit")) && ('-' in NitText(row, show) || '.' in NitText(row, show))
  }

  /** An empty extracted digit: missing, `None`/NaN or the empty string. */
  predicate DigitMissing(v: Value) {
    v == Null || v == Str("")
  }

  /** The digit after the last hyphen of the cleaned NIT text, if any. */
  function NitDigit(row: Record, show: real -> string): Option<string> {
    SplitNit(CleanNit(Str(NitText(row, show)), show)).digit
  }

  /** The extracted digit pass 1 leaves: the split-off digit when the field was
      empty and the digit is not, the old value otherwise. */
  function ExtractedAfter(current: Value, digit: Option<string>): (v: Value)
    ensures v != current ==> DigitMissing(current) && digit.Some? && v == Str(digit.value)
  {
    if DigitMissing(current) && digit.Some? && digit.value != "" then Str(digit.value) else current
  }

  /** The NIT and extracted digit written by pass 1. */
  function Rewrite(row: Record, number: string, digit: Option<string>): (r: Record)
    ensures Get(r, "nit") == Str(number)
    ensures Get(r, "nit_dv_extraido") == ExtractedAfter(Get(row, "nit_dv_extraido"), digit)
  {
    var withNumber := row["nit" := Str(number)];
    var extracted := ExtractedAfter(Get(row, "nit_dv_extraido"), digit);
    if extracted != Get(row, "nit_dv_extraido") then withNumber["nit_dv_extraido" := extracted]
    else withNumber
  }

  /** The rewrite adds at most the NIT fields and changes no other field. */
  lemma RewriteFrame(row: Record, number: string, digit: Option<string>)
    ensures var r := Rewrite(row, number, digit);
      && row.Keys <= r.Keys <= row.Keys + NitFields
      && forall k :: k in row && k !in NitFields ==> r[k] == row[k]
  {
  }

  /** Pass 1 on one row. */
  function FirstPass(row: Record, show: real -> string): Record {
    if !Selected(row, show) then row
    else
      var n := NitNumber(row, show);
      var updated := if n != ValueText(Get(row, "nit"), show) then Rewrite(row, n, NitDigit(row, show)) else row;
      updated["nit_dv_calculado" := Str(CheckDigit(n))]
  }

  /** A selected row always has its NIT rewritten (and is counted): the number
      holds neither `-` nor `.`, while the text it came from holds one of them. */
  lemma SelectedIsRewritten(row: Record, show: real -> string)
    requires Selected(row, show)
    ensures NitNumber(row, show) != ValueText(Get(row, "nit"), show)
  {
    var t := NitText(row, show);
    var n := NitNumber(row, show);
    if '-' in t {
      StripWithin(ValueText(Get(row, "nit"), show), '-');
    } else {
      StripWithin(ValueText(Get(row, "nit"), show), '.');
    }
  }

  /** Pass 1 on a selected row: the rewrite, then the computed digit. */
  lemma FirstPassSelected(row: Record, show: real -> string)
    requires Selected(row, show)
    ensures var n := NitNumber(row, show);
      FirstPass(row, show) == Rewrite(row, n, NitDigit(row, show))["nit_dv_calculado" := Str(CheckDigit(n))]
  {
    SelectedIsRewritten(row, show);
  }

  /** A selected row gets the cleaned number as its NIT, and an empty extracted
      digit is filled with the digit after the last hyphen. */
  lemma FirstPassWrites(row: Record, show: real -> string)
    requires Selected(row, show)
    ensures Get(FirstPass(row, show), "nit") == Str(NitNumber(row, show))
    ensures Get(FirstPass(row, show), "nit_dv_extraido") ==
      ExtractedAfter(Get(row, "nit_dv_extraido"), NitDigit(row, show))
    ensures Get(FirstPass(row, show), "nit_dv_calculado") == Str(CheckDigit(NitNumber(row, show)))
  {
    var n := NitNumber(row, show);
    var w := Rewrite(row, n, NitDigit(row, show));
    assert FirstPass(row, show) == w["nit_dv_calculado" := Str(CheckDigit(n))] by {
      FirstPassSelected(row, show);
    }
    UpdateGet(w, "nit_dv_calculado", Str(CheckDigit(n)), "nit");
    UpdateGet(w, "nit_dv_calculado", Str(CheckDigit(n)), "nit_dv_extraido");
    UpdateGet(w, "nit_dv_calculado", Str(CheckDigit(n)), "nit_dv_calculado");
  }

  /** Pass 1 writes only the NIT fields and removes none. */
  lemma FirstPassFrame(row: Record, show: real -> string)
    ensures var r := FirstPass(row, show);
      && row.Keys <= r.Keys <= row.Keys + NitFields
      && forall k :: k in row && k !in NitFields ==> r[k] == row[k]
  {
    if Selected(row, show) {
      FirstPassSelected(row, show);
      RewriteFrame(row, NitNumber(row, show), NitDigit(row, show));
    }
  }

  /** Pass 2 skips rows whose NIT is missing or blank. */
  predicate HasNitText(row: Record, show: real -> string) {
    Get(row, "nit") != Null && NitText(row, show) != ""
  }

  /** Pass 2 on one row: only the computed digit is written. */
  function SecondPass(row: Record, show: real -> string): Record {
    if !HasNitText(row, show) then row
    else row["nit_dv_calculado" := Str(CheckDigit(NitNumber(row, show)))]
  }

  /** Both passes on one row. */
  function FixRow(row: Record, show: real -> string): Record {
    SecondPass(FirstPass(row, show), show)
  }

  /** Only the three NIT fields change; no row loses a field. */
  lemma FixRowOnlyNitFields(row: Record, show: real -> string)
    ensures var r := FixRow(row, show);
      && row.Keys <= r.Keys <= row.Keys + NitFields
      && forall k :: k in row && k !in NitFields ==> r[k] == row[k]
  {
    FirstPassFrame(row, show);
  }

  /** Rows with the same NIT value look alike to both passes. */
  lemma SameNit(a: Record, b: Record, show: real -> string)
    requires Get(a, "nit") == Get(b, "nit")
    ensures Selected(a, show) == Selected(b, show)
    ensures HasNitText(a, show) == HasNitText(b, show)
    ensures NitNumber(a, show) == NitNumber(b, show)
  {
  }

  /** Pass 2 on a row, by cases. */
  lemma SecondPassShape(row: Record, show: real -> string)
    ensures HasNitText(row, show) ==>
      SecondPass(row, show) == row["nit_dv_calculado" := Str(CheckDigit(NitNumber(row, show)))]
    ensures !HasNitText(row, show) ==> SecondPass(row, show) == row
  {
  }

  /** Pass 2 writes only the computed digit, and a second pass 2 changes nothing. */
  lemma SecondPassSettles(row: Record, show: real -> string)
    ensures Get(SecondPass(row, show), "nit") == Get(row, "nit")
    ensures SecondPass(SecondPass(row, show), show) == SecondPass(row, show)
  {
    var r := SecondPass(row, show);
    var digit := Str(CheckDigit(NitNumber(row, show)));
    assert Get(r, "nit") == Get(row, "nit") by {
      SecondPassShape(row, show);
      UpdateGet(row, "nit_dv_calculado", digit, "nit");
    }
    assert HasNitText(r, show) == HasNitText(row, show) && NitNumber(r, show) == NitNumber(row, show) by {
      SameNit(row, r, show);
    }
    assert SecondPass(r, show) == r by {
      SecondPassShape(row, show);
      SecondPassShape(r, show);
      if HasNitText(row, show) {
        UpdateSame(r, "nit_dv_calculado", digit);
      }
    }
  }

  /** After pass 1 no row is selected any more: its NIT holds neither `-` nor `.`. */
  lemma FirstPassSettles(row: Record, show: real -> string)
    ensures !Selected(FirstPass(row, show), show)
  {
    var p1 := FirstPass(row, show);
    if Selected(row, show) {
      var n := NitNumber(row, show);
      FirstPassWrites(row, show);
      assert NitText(p1, show) == Strip(n);
      if '-' in Strip(n) {
        StripWithin(n, '-');
      }
      if '.' in Strip(n) {
        StripWithin(n, '.');
      }
    }
  }

  /** Running the script twice gives the same row as running it once. */
  lemma FixRowIdempotent(row: Record, show: real -> string)
    ensures FixRow(FixRow(row, show), show) == FixRow(row, show)
  {
    var p1 := FirstPass(row, show);
    var r := SecondPass(p1, show);
    FirstPassSettles(row, show);
    SecondPassSettles(p1, show);
    SameNit(p1, r, show);
    assert FirstPass(r, show) == r;
  }

  /** Pass 2 writes the check digit of the row's number when the row has a NIT,
      and changes nothing else. */
  lemma SecondPassWrites(row: Record, show: real -> string)
    ensures HasNitText(row, show) ==>
      Get(SecondPass(row, show), "nit_dv_calculado") == Str(CheckDigit(NitNumber(row, show)))
    ensures !HasNitText(row, show) ==> SecondPass(row, show) == row
    ensures forall k :: k != "nit_dv_calculado" ==> Get(SecondPass(row, show), k) == Get(row, k)
  {
    var digit := Str(CheckDigit(NitNumber(row, show)));
    forall k ensures Get(row["nit_dv_calculado" := digit], k) == if k == "nit_dv_calculado" then digit else Get(row, k) {
      UpdateGet(row, "nit_dv_calculado", digit, k);
    }
    SecondPassShape(row, show);
  }

  /** A number with no whitespace at its ends is read back unchanged by pass 2. */
  lemma NumberSettles(row: Record, show: real -> string)
    requires Selected(row, show)
    requires var n := NitNumber(row, show); n != "" && !IsSpace(n[0]) && !IsSpace(n[|n| - 1])
    ensures HasNitText(FirstPass(row, show), show)
    ensures NitNumber(FirstPass(row, show), show) == NitNumber(row, show)
  {
    var n := NitNumber(row, show);
    var p1 := FirstPass(row, show);
    FirstPassWrites(row, show);
    StripPlain(n);
    assert NitText(p1, show) == n;
    CleanNitFixed(n, show);
    SplitUnhyphenated(n);
  }

  /** Both passes on a selected row whose number has no whitespace at its ends:
      the number, the extracted digit and its check digit. */
  lemma FixRowSelected(row: Record, show: real -> string)
    requires Selected(row, show)
    requires var n := NitNumber(row, show); n != "" && !IsSpace(n[0]) && !IsSpace(n[|n| - 1])
    ensures Get(FixRow(row, show), "nit") == Str(NitNumber(row, show))
    ensures Get(FixRow(row, show), "nit_dv_extraido") ==
      ExtractedAfter(Get(row, "nit_dv_extraido"), NitDigit(row, show))
    ensures Get(FixRow(row, show), "nit_dv_calculado") == Str(CheckDigit(NitNumber(row, show)))
  {
    var p1 := FirstPass(row, show);
    FirstPassWrites(row, show);
    assert HasNitText(p1, show) && NitNumber(p1, show) == NitNumber(row, show) by {
      NumberSettles(row, show);
    }
    SecondPassWrites(p1, show);
  }

  /** Both passes on any selected row: the number and the extracted digit as
      above, and the check digit of the number as pass 2 reads it back, that is
      with whitespace at its ends stripped (`12\t-3` ends with the digit of `12`). */
  lemma FixRowSelectedStripped(row: Record, show: real -> string)
    requires Selected(row, show)
    ensures Get(FixRow(row, show), "nit") == Str(NitNumber(row, show))
    ensures Get(FixRow(row, show), "nit_dv_extraido") ==
      ExtractedAfter(Get(row, "nit_dv_extraido"), NitDigit(row, show))
    ensures Get(FixRow(row, show), "nit_dv_calculado") == Str(CheckDigit(Strip(NitNumber(row, show))))
  {
    var n := NitNumber(row, show);
    var p1 := FirstPass(row, show);
    FirstPassWrites(row, show);
    SecondPassWrites(p1, show);
    var t := Strip(n);
    assert NitText(p1, show) == t;
    if t == "" {
      assert !HasNitText(p1, show);
      if n != "" {
        StripEmptyStartsSpace(n);
        assert !IsDigit(n[0]) by {
          if IsDigit(n[0]) {
            DigitNotSpace(n[0]);
          }
        }
      }
    } else {
      if '.' in t {
        StripWithin(n, '.');
      }
      if ' ' in t {
        StripWithin(n, ' ');
      }
      if '-' in t {
        StripWithin(n, '-');
      }
      CleanNitFixed(t, show);
      SplitUnhyphenated(t);
      assert NitNumber(p1, show) == t;
    }
  }

  /** A tab before the hyphen survives cleaning: pass 1 writes `12\t`, and pass 2
      strips it again, so the computed digit is that of `12`. */
  lemma FixRowTabBeforeHyphen(row: Record, show: real -> string)
    requires Get(row, "nit") == Str("12\t-3")
    ensures Get(FixRow(row, show), "nit") == Str("12\t")
    ensures Get(FixRow(row, show), "nit_dv_calculado") == Str(CheckDigit("12"))
    ensures CheckDigit("12\t") == ""
  {
    CleanNitVectorTab("12\t-3", show);
    TabSplit();
    TabStrip("12\t-3");
    TabDigit();
    RowNit(row, "12\t-3", show);
    FixRowSelectedStripped(row, show);
  }

  /** A `nit` cell whose text has no whitespace at its ends is read as it is. */
  lemma RowNit(row: Record, raw: string, show: real -> string)
    requires Get(row, "nit") == Str(raw) && raw != "" && Strip(raw) == raw
    ensures NitText(row, show) == raw
    ensures NitNumber(row, show) == SplitNit(CleanNit(Str(raw), show)).number
    ensures Selected(row, show) <==> '-' in raw || '.' in raw
  {
  }

  lemma TabSplit()
    ensures SplitNit("12\t-3") == NitParts("12\t", Some("3"))
  {
    assert '-' !in "12\t" && '-' !in "3";
    SplitJoined("12\t", "3");
  }

  lemma TabStrip(raw: string)
    requires raw == "12\t-3"
    ensures raw != "" && Strip(raw) == raw && '-' in raw
  {
    assert raw[3] == '-';
    assert !IsSpace(raw[0]) && !IsSpace(raw[|raw| - 1]);
    StripPlain(raw);
  }

  lemma TabDigit()
    ensures Strip("12\t") == "12"
    ensures CheckDigit("12\t") == ""
  {
    assert TrimStart("12\t") == "12\t";
    assert TrimEnd("12\t") == "12";
    assert !IsDigit("12\t"[2]);
  }

  /** Two digit strings joined by a hyphen: no dot, no blank, no whitespace at
      the ends, and the hyphen only between them. */
  lemma DigitsJoined(n: string, d: string)
    requires IsDigits(n) && IsDigits(d)
    ensures var raw := n + "-" + d;
      && '.' !in raw && ' ' !in raw && '-' in raw && '-' !in n && '-' !in d
      && !IsSpace(raw[0]) && !IsSpace(raw[|raw| - 1])
  {
    var raw := n + "-" + d;
    assert raw[0] == n[0] && raw[|raw| - 1] == d[|d| - 1];
    DigitNotSpace(raw[0]);
    DigitNotSpace(raw[|raw| - 1]);
    assert raw[|n|] == '-';
    forall k | 0 <= k < |raw| ensures raw[k] != '.' && raw[k] != ' ' {
      if k < |n| {
        assert IsDigit(n[k]);
      } else if k > |n| {
        assert raw[k] == d[k - |n| - 1];
        assert IsDigit(d[k - |n| - 1]);
      }
    }
    forall k | 0 <= k < |n| ensures n[k] != '-' {
      assert IsDigit(n[k]);
    }
    forall k | 0 <= k < |d| ensures d[k] != '-' {
      assert IsDigit(d[k]);
    }
  }

  /** A NIT written `n-d` with both parts digits is selected, with number `n` and
      digit `d`. */
  lemma JoinedParts(row: Record, show: real -> string, n: string, d: string)
    requires Get(row, "nit") == Str(n + "-" + d)
    requires IsDigits(n) && IsDigits(d)
    ensures Selected(row, show)
    ensures NitNumber(row, show) == n && NitDigit(row, show) == Some(d)
  {
    var raw := n + "-" + d;
    DigitsJoined(n, d);
    StripPlain(raw);
    assert NitText(row, show) == raw;
    CleanNitFixed(raw, show);
    SplitJoined(n, d);
  }

  /** A NIT written `n-d` is split: `nit` becomes `n`, an empty extracted digit
      becomes `d`, and the computed digit is the check digit of `n`. */
  lemma FixRowJoined(row: Record, show: real -> string, n: string, d: string)
    requires Get(row, "nit") == Str(n + "-" + d)
    requires IsDigits(n) && IsDigits(d)
    ensures var r := FixRow(row, show);
      && Get(r, "nit") == Str(n)
      && Get(r, "nit_dv_calculado") == Str(CheckDigit(n))
      && (DigitMissing(Get(row, "nit_dv_extraido")) ==> Get(r, "nit_dv_extraido") == Str(d))
      && (!DigitMissing(Get(row, "nit_dv_extraido")) ==> Get(r, "nit_dv_extraido") == Get(row, "nit_dv_extraido"))
  {
    JoinedParts(row, show, n, d);
    DigitNotSpace(n[0]);
    DigitNotSpace(n[|n| - 1]);
    FixRowSelected(row, show);
  }

  /** Cleaning the stripped text of a selected NIT is cleaning the NIT. */
  lemma CleanSelected(row: Record, show: real -> string)
    requires Selected(row, show)
    ensures CleanNit(Str(NitText(row, show)), show) == CleanNit(Get(row, "nit"), show)
  {
    var t := ValueText(Get(row, "nit"), show);
    StripIdempotent(t);
    assert NitText(row, show) != "";
  }

  /** For a selected row whose number is all digits, the script stores the same
      NIT number and computed digit as `normalize_data` does for that row. */
  lemma AgreesWithNormalize(row: Record, show: real -> string)
    requires Selected(row, show) && IsDigits(NitNumber(row, show))
    ensures var r := FixRow(row, show); var d := NormalizeData(row, show);
      && Get(r, "nit") == Get(d, "nit")
      && Get(r, "nit_dv_calculado") == Get(d, "nit_dv_calculado")
  {
    var n := NitNumber(row, show);
    FixRowDigits(row, show, n);
    CleanSelected(row, show);
    NormalizeDigits(row, show, n);
  }

  lemma FixRowDigits(row: Record, show: real -> string, n: string)
    requires Selected(row, show) && NitNumber(row, show) == n && IsDigits(n)
    ensures Get(FixRow(row, show), "nit") == Str(n)
    ensures Get(FixRow(row, show), "nit_dv_calculado") == Str(CheckDigit(n))
  {
    DigitNotSpace(n[0]);
    DigitNotSpace(n[|n| - 1]);
    FixRowSelected(row, show);
  }

  lemma NormalizeDigits(row: Record, show: real -> string, n: string)
    requires Truthy(Get(row, "nit")) && SplitNit(CleanNit(Get(row, "nit"), show)).number == n && IsDigits(n)
    ensures Get(NormalizeData(row, show), "nit") == Str(n)
    ensures Get(NormalizeData(row, show), "nit_dv_calculado") == Str(CheckDigit(n))
  {
    assert "nit" in row;
    NormalizeNit(row, show);
  }

  /** A row one of the two passes counts. */
  predicate RowTouched(row: Record, show: real -> string) {
    Selected(row, show) || HasNitText(FirstPass(row, show), show)
  }

  /** The passes and the rows they count, as functions of a row. */
  function FirstPassOf(show: real -> string): Record -> Record {
    row => FirstPass(row, show)
  }

  function SecondPassOf(show: real -> string): Record -> Record {
    row => SecondPass(row, show)
  }

  function SelectedOf(show: real -> string): Record -> bool {
    row => Selected(row, show)
  }

  function HasNitTextOf(show: real -> string): Record -> bool {
    row => HasNitText(row, show)
  }

  /** Pass 1 over the table: the rewritten rows and how many were rewritten. */
  method FirstPassTable(rows: seq<Record>, show: real -> string) returns (first: seq<Record>, count: nat)
    ensures first == MapRows(rows, FirstPassOf(show))
    ensures count == CountWhere(rows, SelectedOf(show))
  {
    count := 0;
    first := [];
    for i := 0 to |rows|
      invariant first == MapRows(rows[..i], FirstPassOf(show))
      invariant count == CountWhere(rows[..i], SelectedOf(show))
    {
      MapRowsSnoc(rows, FirstPassOf(show), i);
      CountWhereSnoc(rows, SelectedOf(show), i);
      if Selected(rows[i], show) {
        SelectedIsRewritten(rows[i], show);
        if NitNumber(rows[i], show) != ValueText(Get(rows[i], "nit"), show) {
          count := count + 1;
        }
      }
      first := first + [FirstPass(rows[i], show)];
    }
    assert rows[..|rows|] == rows;
  }

  /** Pass 2 over the table: the rows with their computed digit, and how many
      rows had a NIT. */
  method SecondPassTable(rows: seq<Record>, show: real -> string) returns (second: seq<Record>, count: nat)
    ensures second == MapRows(rows, SecondPassOf(show))
    ensures count == CountWhere(rows, HasNitTextOf(show))
  {
    count := 0;
    second := [];
    for i := 0 to |rows|
      invariant second == MapRows(rows[..i], SecondPassOf(show))
      invariant count == CountWhere(rows[..i], HasNitTextOf(show))
    {
      MapRowsSnoc(rows, SecondPassOf(show), i);
      CountWhereSnoc(rows, HasNitTextOf(show), i);
      if HasNitText(rows[i], show) {
        count := count + 1;
      }
      second := second + [SecondPass(rows[i], show)];
    }
    assert rows[..|rows|] == rows;
  }

  /** The two counts are positive together exactly when some row is touched. */
  lemma CountsPositive(rows: seq<Record>, show: real -> string)
    ensures CountWhere(rows, SelectedOf(show)) + CountWhere(MapRows(rows, FirstPassOf(show)), HasNitTextOf(show)) > 0
      <==> exists j :: 0 <= j < |rows| && RowTouched(rows[j], show)
  {
    var p, f, q := SelectedOf(show), FirstPassOf(show), HasNitTextOf(show);
    CountPairPositive(rows, p, f, q);
    forall j | 0 <= j < |rows| ensures (p(rows[j]) || q(f(rows[j]))) == RowTouched(rows[j], show) {
    }
  }

  /** `fix_nits`: both passes over the table, and whether it is written back. */
  method FixNitsTable(rows: seq<Record>, show: real -> string) returns (fixed: seq<Record>, saved: bool)
    ensures |fixed| == |rows|
    ensures forall j :: 0 <= j < |rows| ==> fixed[j] == FixRow(rows[j], show)
    ensures saved <==> exists j :: 0 <= j < |rows| && RowTouched(rows[j], show)
  {
    var first, firstCount := FirstPassTable(rows, show);
    var secondCount;
    fixed, secondCount := SecondPassTable(first, show);
    saved := firstCount + secondCount > 0;
    MapRowsAt(rows, FirstPassOf(show));
    MapRowsAt(first, SecondPassOf(show));
    CountsPositive(rows, show);
  }
}
