/** `normalize_data`: the Colombian formatting rules applied to one extracted
    record. Each step rewrites only the fields it names, and only when they are
    present; the steps run in the order backfill, amounts, low-total correction,
    dates, NIT. */
module Normalize {
  import opened Wrappers
  import opened Text
  import opened Values
  import opened Amounts
  import opened Dates
  import opened Nit

  /** The fields each step may rewrite. */
  const AmountFields: set<string> := {"base", "impuestos", "total"}
  const DateFields: set<string> := {"fecha", "fecha_vencimiento", "fecha_emision"}
  const NitFields: set<string> := {"nit", "nit_dv_extraido", "nit_dv_calculado"}

  /** The three groups of fields share no name. */
  lemma AmountFieldsApart(f: string)
    requires f in AmountFields
    ensures f !in DateFields && f !in NitFields
  {
  }

  lemma DateFieldsApart(f: string)
    requires f in DateFields
    ensures f !in AmountFields && f !in NitFields && f != "nit"
  {
  }

  lemma NitFieldsApart(f: string)
    requires f in NitFields
    ensures f !in AmountFields && f !in DateFields
  {
  }

  /** Rewrites field `f` with `g` when it is present. */
  function MapField(d: Record, f: string, g: Value -> Value): (r: Record)
    ensures r.Keys == d.Keys
  {
    if f in d then d[f := g(d[f])] else d
  }

  /** Only field `f` changes, and only when it is present. */
  lemma MapFieldGet(d: Record, f: string, g: Value -> Value, k: string)
    ensures Get(MapField(d, f, g), k) == if k == f && k in d then g(d[k]) else Get(d, k)
  {
  }

  /** The issue date falls back to `fecha_emision` when `fecha` is missing or falsy. */
  predicate NeedsBackfill(d: Record) {
    !Truthy(Get(d, "fecha")) && Truthy(Get(d, "fecha_emision"))
  }

  function Backfill(d: Record): (r: Record)
    ensures r.Keys == d.Keys + (if NeedsBackfill(d) then {"fecha"} else {})
  {
    if NeedsBackfill(d) then d["fecha" := d["fecha_emision"]] else d
  }

  lemma BackfillGet(d: Record, k: string)
    ensures Get(Backfill(d), k) ==
      if k == "fecha" && NeedsBackfill(d) then Get(d, "fecha_emision") else Get(d, k)
  {
  }

  function AmountValue(v: Value): Value {
    Num(ParseAmount(v))
  }

  /** Every present amount field is parsed as a number. */
  function CleanAmounts(d: Record): (r: Record)
    ensures r.Keys == d.Keys
  {
    MapField(MapField(MapField(d, "base", AmountValue), "impuestos", AmountValue), "total", AmountValue)
  }

  lemma CleanAmountsGet(d: Record, k: string)
    ensures Get(CleanAmounts(d), k) ==
      if k in d && k in AmountFields then AmountValue(d[k]) else Get(d, k)
  {
    var d1 := MapField(d, "base", AmountValue);
    var d2 := MapField(d1, "impuestos", AmountValue);
    MapFieldGet(d, "base", AmountValue, k);
    MapFieldGet(d1, "impuestos", AmountValue, k);
    MapFieldGet(d2, "total", AmountValue, k);
  }

  /** The low-total correction, applied when `total` is present and not `None`. */
  function CorrectTotal(d: Record): (r: Record)
    ensures r.Keys == d.Keys
  {
    if "total" in d && d["total"] != Null then d["total" := CorrectLowTotal(d["total"])] else d
  }

  lemma CorrectTotalGet(d: Record, k: string)
    ensures Get(CorrectTotal(d), k) ==
      if k == "total" && Get(d, k) != Null then CorrectLowTotal(Get(d, k)) else Get(d, k)
  {
  }

  /** Every present date field is formatted. */
  function FormatDates(d: Record, show: real -> string): (r: Record)
    ensures r.Keys == d.Keys
  {
    var g := DateValueOf(show);
    MapField(MapField(MapField(d, "fecha", g), "fecha_vencimiento", g), "fecha_emision", g)
  }

  function DateValueOf(show: real -> string): Value -> Value {
    v => Str(FormatDate(v, show))
  }

  lemma FormatDatesGet(d: Record, show: real -> string, k: string)
    ensures Get(FormatDates(d, show), k) ==
      if k in d && k in DateFields then Str(FormatDate(d[k], show)) else Get(d, k)
  {
    var g := DateValueOf(show);
    var d1 := MapField(d, "fecha", g);
    var d2 := MapField(d1, "fecha_vencimiento", g);
    MapFieldGet(d, "fecha", g, k);
    MapFieldGet(d1, "fecha_vencimiento", g, k);
    MapFieldGet(d2, "fecha_emision", g, k);
  }

  /** The computed verification digit: the check digit of an all-digit number,
      otherwise `?`. */
  function ComputedDigit(number: string): (r: string)
    ensures r != ""
    ensures !IsDigits(number) || |number| > MaxNitDigits ==> r == "?"
  {
    if IsDigits(number) then CheckDigit(number) else "?"
  }

  /** The extracted digit as a field value: `None` when there was no hyphen. */
  function DigitValueOf(p: NitParts): Value {
    if p.digit.Some? then Str(p.digit.value) else Null
  }

  /** The value the NIT step writes into NIT field `k`. */
  function NitFieldValue(p: NitParts, k: string): Value {
    if k == "nit" then Str(p.number)
    else if k == "nit_dv_extraido" then DigitValueOf(p)
    else Str(ComputedDigit(p.number))
  }

  predicate HasNit(d: Record) {
    "nit" in d && Truthy(d["nit"])
  }

  /** When `nit` is present and truthy it is cleaned and split: `nit` keeps the
      number, `nit_dv_extraido` the digit after the last hyphen (or `None`), and
      `nit_dv_calculado` the computed digit. */
  function SplitNitFields(d: Record, show: real -> string): (r: Record)
    ensures r.Keys == if HasNit(d) then d.Keys + NitFields else d.Keys
  {
    if HasNit(d) then
      var p := SplitNit(CleanNit(d["nit"], show));
      d["nit" := NitFieldValue(p, "nit")]
       ["nit_dv_extraido" := NitFieldValue(p, "nit_dv_extraido")]
       ["nit_dv_calculado" := NitFieldValue(p, "nit_dv_calculado")]
    else d
  }

  lemma SplitNitFieldsGet(d: Record, show: real -> string, k: string)
    ensures Get(SplitNitFields(d, show), k) ==
      if HasNit(d) && k in NitFields then NitFieldValue(SplitNit(CleanNit(d["nit"], show)), k)
      else Get(d, k)
  {
    if HasNit(d) {
      var p := SplitNit(CleanNit(d["nit"], show));
      var a := d["nit" := NitFieldValue(p, "nit")];
      var b := a["nit_dv_extraido" := NitFieldValue(p, "nit_dv_extraido")];
      UpdateGet(d, "nit", NitFieldValue(p, "nit"), k);
      UpdateGet(a, "nit_dv_extraido", NitFieldValue(p, "nit_dv_extraido"), k);
      UpdateGet(b, "nit_dv_calculado", NitFieldValue(p, "nit_dv_calculado"), k);
    }
  }

  /** The fields `normalize_data` may write. */
  const Touched: set<string> := AmountFields + DateFields + NitFields

  /** `normalize_data`: an empty record gives an empty record; otherwise the
      steps run in order. */
  function NormalizeData(data: Record, show: real -> string): (r: Record)
    ensures data == map[] <==> r == map[]
  {
    if data == map[] then map[]
    else
      var d := SplitNitFields(Prepared(data, show), show);
      assert data.Keys <= d.Keys;
      d
  }

  /** The record after every step but the NIT one. */
  function Prepared(data: Record, show: real -> string): (r: Record)
    ensures r.Keys == data.Keys + (if NeedsBackfill(data) then {"fecha"} else {})
  {
    FormatDates(CorrectTotal(CleanAmounts(Backfill(data))), show)
  }

  /** The record gains `fecha` exactly when it is backfilled, and the two NIT
      digit fields exactly when it has a truthy NIT; it loses no field. */
  lemma NormalizeKeys(data: Record, show: real -> string)
    requires data != map[]
    ensures NormalizeData(data, show).Keys ==
      data.Keys + (if NeedsBackfill(data) then {"fecha"} else {})
        + (if HasNit(data) then NitFields else {})
  {
    assert HasNit(Prepared(data, show)) == HasNit(data) by {
      NitFieldsApart("nit");
      PreparedKeeps(data, show, "nit");
    }
  }

  /** The steps before the NIT one leave a field outside the amount and date
      fields as it was. */
  lemma PreparedKeeps(data: Record, show: real -> string, k: string)
    requires k !in AmountFields && k !in DateFields
    ensures Get(Prepared(data, show), k) == Get(data, k)
  {
    var d1 := Backfill(data);
    var d2 := CleanAmounts(d1);
    var d3 := CorrectTotal(d2);
    assert k != "fecha" && k != "total" by {
      DateFieldsApart("fecha");
      AmountFieldsApart("total");
    }
    BackfillGet(data, k);
    CleanAmountsGet(d1, k);
    CorrectTotalGet(d2, k);
    FormatDatesGet(d3, show, k);
  }

  /** Every field outside the ones the steps name keeps its value (and a
      missing one stays missing). */
  lemma NormalizeFrame(data: Record, show: real -> string, k: string)
    requires k !in Touched
    ensures Get(NormalizeData(data, show), k) == Get(data, k)
  {
    if data != map[] {
      PreparedKeeps(data, show, k);
      SplitNitFieldsGet(Prepared(data, show), show, k);
    }
  }

  /** Every present amount field becomes a number; a present total is also
      corrected when it is suspiciously low. */
  lemma NormalizeAmount(data: Record, show: real -> string, f: string)
    requires f in AmountFields && f in data
    ensures Get(NormalizeData(data, show), f) ==
      if f == "total" then CorrectLowTotal(Num(ParseAmount(data[f])))
      else Num(ParseAmount(data[f]))
  {
    var d1 := Backfill(data);
    var d2 := CleanAmounts(d1);
    var d3 := CorrectTotal(d2);
    AmountFieldsApart(f);
    BackfillGet(data, f);
    CleanAmountsGet(d1, f);
    CorrectTotalGet(d2, f);
    FormatDatesGet(d3, show, f);
    SplitNitFieldsGet(Prepared(data, show), show, f);
  }

  /** The issue date is formatted after the backfill: with no truthy `fecha` and a
      truthy `fecha_emision`, both come out as the formatted emission date. */
  lemma NormalizeBackfilledDate(data: Record, show: real -> string)
    requires NeedsBackfill(data)
    ensures var r := NormalizeData(data, show);
      && Get(r, "fecha") == Str(FormatDate(data["fecha_emision"], show))
      && Get(r, "fecha_emision") == Get(r, "fecha")
  {
    var d1 := Backfill(data);
    var d2 := CleanAmounts(d1);
    var d3 := CorrectTotal(d2);
    DatePrepared(data, show, "fecha", data["fecha_emision"]);
    DatePrepared(data, show, "fecha_emision", data["fecha_emision"]);
  }

  /** A date field present after the backfill with value `v` is formatted from
      `v` and is not touched by the NIT step. */
  lemma DatePrepared(data: Record, show: real -> string, f: string, v: Value)
    requires f in DateFields && data != map[]
    requires var d1 := Backfill(data); f in d1 && d1[f] == v
    ensures Get(NormalizeData(data, show), f) == Str(FormatDate(v, show))
  {
    var d1 := Backfill(data);
    var d2 := CleanAmounts(d1);
    var d3 := CorrectTotal(d2);
    DateFieldsApart(f);
    CleanAmountsGet(d1, f);
    CorrectTotalGet(d2, f);
    FormatDatesGet(d3, show, f);
    SplitNitFieldsGet(Prepared(data, show), show, f);
  }

  /** Without a backfill every present date field is formatted from its own value. */
  lemma NormalizeDate(data: Record, show: real -> string, f: string)
    requires !NeedsBackfill(data) && f in DateFields && f in data
    ensures Get(NormalizeData(data, show), f) == Str(FormatDate(data[f], show))
  {
    DatePrepared(data, show, f, data[f]);
  }

  /** A present, truthy NIT is cleaned and split into the three NIT fields. */
  lemma NormalizeNit(data: Record, show: real -> string)
    requires HasNit(data)
    ensures var p := SplitNit(CleanNit(data["nit"], show)); var r := NormalizeData(data, show);
      && Get(r, "nit") == Str(p.number)
      && Get(r, "nit_dv_extraido") == DigitValueOf(p)
      && Get(r, "nit_dv_calculado") == Str(ComputedDigit(p.number))
  {
    var d4 := Prepared(data, show);
    assert HasNit(d4) && d4["nit"] == data["nit"] by {
      NitFieldsApart("nit");
      PreparedKeeps(data, show, "nit");
    }
    SplitNitFieldsGet(d4, show, "nit");
    SplitNitFieldsGet(d4, show, "nit_dv_extraido");
    SplitNitFieldsGet(d4, show, "nit_dv_calculado");
  }

  /** A written NIT `n-d` with no other hyphen: `nit` becomes `n`, the extracted
      digit `d`, and the computed digit the check digit of `n`. */
  lemma NormalizeNitJoined(data: Record, show: real -> string, n: string, dv: string)
    requires "nit" in data && data["nit"] == Str(n + "-" + dv)
    requires '-' !in n && '-' !in dv && '.' !in n + dv && ' ' !in n + dv
    requires n != "" && !IsSpace(n[0]) && (dv == "" || !IsSpace(dv[|dv| - 1]))
    ensures var r := NormalizeData(data, show);
      && Get(r, "nit") == Str(n)
      && Get(r, "nit_dv_extraido") == Str(dv)
      && Get(r, "nit_dv_calculado") == Str(ComputedDigit(n))
  {
    var raw := n + "-" + dv;
    assert raw[|raw| - 1] == (if dv == "" then '-' else dv[|dv| - 1]);
    DigitNotSpace('-');
    assert raw[0] == n[0];
    assert '.' !in raw && ' ' !in raw by {
      assert forall c :: c in raw ==> c in n + dv || c == '-';
    }
    CleanNitFixed(raw, show);
    SplitJoined(n, dv);
    NormalizeNit(data, show);
  }

  /** A NIT without a hyphen is kept whole (cleaned) and no digit is extracted. */
  lemma NormalizeNitUnhyphenated(data: Record, show: real -> string)
    requires HasNit(data)
    requires '-' !in CleanNit(data["nit"], show)
    ensures var r := NormalizeData(data, show);
      && Get(r, "nit") == Str(CleanNit(data["nit"], show))
      && Get(r, "nit_dv_extraido") == Null
  {
    NormalizeNit(data, show);
  }
}
