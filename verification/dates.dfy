/** Date normalization to the Colombian DD/MM/YYYY form (`format_date_colombian`).
    Only the start of the stripped text is inspected: an ISO-like date
    `YYYY-MM-DD` (either separator `-` or `/`) is reordered, a day-first date
    `DD-MM-YYYY` is re-separated with `/`, and anything else is returned as it is. */
module Dates {
  import opened Text
  import opened Values

  predicate IsDateSep(c: char) {
    c == '-' || c == '/'
  }

  /** The pattern `(\d{4})[-/](\d{2})[-/](\d{2})` matches at the start of `t`. */
  predicate IsoPrefix(t: string) {
    |t| >= 10 && AllDigits(t[..4]) && IsDateSep(t[4]) && AllDigits(t[5..7])
    && IsDateSep(t[7]) && AllDigits(t[8..10])
  }

  /** The pattern `(\d{2})[-/](\d{2})[-/](\d{4})` matches at the start of `t`. */
  predicate DmyPrefix(t: string) {
    |t| >= 10 && AllDigits(t[..2]) && IsDateSep(t[2]) && AllDigits(t[3..5])
    && IsDateSep(t[5]) && AllDigits(t[6..10])
  }

  /** The output form: two digits, `/`, two digits, `/`, four digits. */
  predicate IsCanonical(r: string) {
    |r| == 10 && AllDigits(r[..2]) && r[2] == '/' && AllDigits(r[3..5])
    && r[5] == '/' && AllDigits(r[6..])
  }

  /** Day, month and year joined in the output order. */
  function Dmy(d: string, m: string, y: string): string {
    d + "/" + m + "/" + y
  }

  /** The formatting step on text that is already stripped. */
  function FormatText(t: string): (r: string)
    ensures IsoPrefix(t) || DmyPrefix(t) ==> IsCanonical(r)
    ensures IsoPrefix(t) ==> r[..2] == t[8..10] && r[3..5] == t[5..7] && r[6..] == t[..4]
    ensures !IsoPrefix(t) && DmyPrefix(t) ==>
      r[..2] == t[..2] && r[3..5] == t[3..5] && r[6..] == t[6..10]
    ensures !IsoPrefix(t) && !DmyPrefix(t) ==> r == t
  {
    if IsoPrefix(t) then Dmy(t[8..10], t[5..7], t[..4])
    else if DmyPrefix(t) then Dmy(t[..2], t[3..5], t[6..10])
    else t
  }

  /** `format_date_colombian`: a falsy value gives the empty string; otherwise the
      value's text, stripped, is formatted. `show` is how Python prints a number. */
  function FormatDate(v: Value, show: real -> string): (r: string)
    ensures !Truthy(v) ==> r == ""
    ensures |r| <= |ValueText(v, show)| || IsCanonical(r)
  {
    if !Truthy(v) then "" else FormatText(Strip(ValueText(v, show)))
  }

  lemma {:induction false} StripIdempotent(s: string)
    ensures Strip(Strip(s)) == Strip(s)
  {
    var r := Strip(s);
    if |r| > 0 {
      StripPlain(r);
    }
  }

  lemma CanonicalNoSpaceEnds(r: string)
    requires IsCanonical(r)
    ensures Strip(r) == r
  {
    assert IsDigit(r[..2][0]);
    assert IsDigit(r[6..][3]);
    DigitNotSpace(r[0]);
    DigitNotSpace(r[9]);
    StripPlain(r);
  }

  /** A canonical date is a fixed point of the formatting step. */
  lemma CanonicalFixed(r: string)
    requires IsCanonical(r)
    ensures FormatText(r) == r
  {
    assert r[4] == r[3..5][1];
    assert !IsoPrefix(r);
    assert DmyPrefix(r);
    assert Dmy(r[..2], r[3..5], r[6..10]) == r;
  }

  /** Formatting twice gives the same text as formatting once, for every value. */
  lemma FormatDateIdempotent(v: Value, show: real -> string)
    ensures FormatDate(Str(FormatDate(v, show)), show) == FormatDate(v, show)
  {
    var r := FormatDate(v, show);
    if r != "" {
      var t := Strip(ValueText(v, show));
      if IsoPrefix(t) || DmyPrefix(t) {
        CanonicalNoSpaceEnds(r);
        CanonicalFixed(r);
      } else {
        StripIdempotent(ValueText(v, show));
      }
    }
  }

  /** Trailing blanks are removed only after the last non-blank character. */
  lemma {:induction false} TrimEndKeeps(s: string, k: nat)
    requires k < |s| && !IsSpace(s[k])
    ensures |TrimEnd(s)| > k
    decreases |s|
  {
    if IsSpace(s[|s| - 1]) {
      TrimEndKeeps(s[..|s| - 1], k);
    }
  }

  /** Stripping text that starts with a date leaves the first ten characters. */
  lemma StripKeepsDate(t: string)
    requires |t| >= 10 && IsDigit(t[0]) && IsDigit(t[9])
    ensures |Strip(t)| >= 10 && Strip(t)[..10] == t[..10]
  {
    DigitNotSpace(t[0]);
    DigitNotSpace(t[9]);
    assert TrimStart(t) == t;
    TrimEndKeeps(t, 9);
    var r := Strip(t);
    assert r == t[..|r|];
  }

  /** Both patterns only look at the first ten characters. */
  lemma SameDatePrefix(t: string, r: string)
    requires |t| >= 10 && |r| >= 10 && r[..10] == t[..10]
    ensures IsoPrefix(r) == IsoPrefix(t) && DmyPrefix(r) == DmyPrefix(t)
    ensures r[..2] == t[..2] && r[3..5] == t[3..5] && r[5..7] == t[5..7]
    ensures r[..4] == t[..4] && r[6..10] == t[6..10] && r[8..10] == t[8..10]
  {
    var p := r[..10];
    SliceOfPrefix(r, 0, 2);
    SliceOfPrefix(t, 0, 2);
    SliceOfPrefix(r, 3, 5);
    SliceOfPrefix(t, 3, 5);
    SliceOfPrefix(r, 5, 7);
    SliceOfPrefix(t, 5, 7);
    SliceOfPrefix(r, 0, 4);
    SliceOfPrefix(t, 0, 4);
    SliceOfPrefix(r, 6, 10);
    SliceOfPrefix(t, 6, 10);
    SliceOfPrefix(r, 8, 10);
    SliceOfPrefix(t, 8, 10);
    assert r[2] == p[2] == t[2] && r[4] == p[4] == t[4];
    assert r[5] == p[5] == t[5] && r[7] == p[7] == t[7];
  }

  lemma SliceOfPrefix(s: string, a: nat, b: nat)
    requires a <= b <= 10 <= |s|
    ensures s[a..b] == s[..10][a..b]
  {
  }

  /** A day-first date is never read as an ISO date: its fifth character is a
      digit, not a separator. */
  lemma DmyNotIso(t: string)
    requires DmyPrefix(t)
    ensures !IsoPrefix(t)
  {
    assert t[4] == t[3..5][1];
  }

  /** The value's text, stripped, when it starts with a date. */
  lemma StrippedDate(t: string, show: real -> string)
    requires |t| >= 10 && IsDigit(t[0]) && IsDigit(t[9])
    ensures Truthy(Str(t))
    ensures FormatDate(Str(t), show) == FormatText(Strip(t))
    ensures |Strip(t)| >= 10 && Strip(t)[..10] == t[..10]
  {
    StripKeepsDate(t);
  }

  /** A text that starts with an ISO date, whatever follows it (a time, an
      offset, blanks), is rendered day first from the date's own components. */
  lemma IsoRendered(t: string, show: real -> string)
    requires IsoPrefix(t)
    ensures FormatDate(Str(t), show) == Dmy(t[8..10], t[5..7], t[..4])
  {
    assert IsDigit(t[..4][0]) && IsDigit(t[8..10][1]);
    StrippedDate(t, show);
    SameDatePrefix(t, Strip(t));
  }

  /** A text that starts with a day-first date keeps the date's components and
      gets `/` separators, whatever follows. */
  lemma DmyRendered(t: string, show: real -> string)
    requires DmyPrefix(t)
    ensures FormatDate(Str(t), show) == Dmy(t[..2], t[3..5], t[6..10])
  {
    assert IsDigit(t[..2][0]) && IsDigit(t[6..10][3]);
    StrippedDate(t, show);
    DmyNotIso(t);
    SameDatePrefix(t, Strip(t));
  }

  /** The examples the repository's format tests check. */
  lemma DateVectorIso(show: real -> string)
    ensures FormatDate(Str("2026-02-08"), show) == "08/02/2026"
    ensures FormatDate(Str("2026/02/08"), show) == "08/02/2026"
  {
    var a, b := "2026-02-08", "2026/02/08";
    assert a[..4] == b[..4] == "2026";
    assert a[5..7] == b[5..7] == "02";
    assert a[8..10] == b[8..10] == "08";
    assert Dmy("08", "02", "2026") == "08/02/2026";
    IsoRendered(a, show);
    IsoRendered(b, show);
  }

  lemma DateVectorDayFirst(show: real -> string)
    ensures FormatDate(Str("08/02/2026"), show) == "08/02/2026"
  {
    var t := "08/02/2026";
    assert t[..2] == "08";
    assert t[3..5] == "02";
    assert t[6..10] == "2026";
    assert Dmy("08", "02", "2026") == t;
    DmyRendered(t, show);
  }

  lemma DateVectorTimestamp(show: real -> string)
    ensures FormatDate(Str("2026-02-11T00:00:00-05:00"), show) == "11/02/2026"
  {
    var t := "2026-02-11T00:00:00-05:00";
    assert t[..4] == "2026";
    assert t[5..7] == "02";
    assert t[8..10] == "11";
    assert Dmy("11", "02", "2026") == "11/02/2026";
    IsoRendered(t, show);
  }

  lemma DateVectorEmpty(show: real -> string)
    ensures FormatDate(Null, show) == "" && FormatDate(Str(""), show) == ""
  {
  }
}
