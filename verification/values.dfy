/** Loosely typed field values and the dictionaries that carry them. A Python
    `None` (and a pandas NaN cell) is `Null`; an `int` or `float` is `Num` with its
    exact value; a `str` is `Str`. */
module Values {

  datatype Value = Null | Str(s: string) | Num(x: real)

  /** A raw extraction, a normalized invoice record, or one spreadsheet row:
      field name to value. Absence of a key is distinct from a `Null` value. */
  type Record = map<string, Value>

  /** A call into code outside the model that returns a record or raises an
      exception (with the exception's text). */
  datatype Outcome = Returned(data: Record) | Raised(message: string)

  /** Python truthiness of a field value (`if value:`). */
  predicate Truthy(v: Value) {
    match v
    case Null => false
    case Str(s) => s != ""
    case Num(x) => x != 0.0
  }

  /** Python's `dict.get(key)`: the value, or `None` when the key is absent. */
  function Get(r: Record, key: string): Value {
    if key in r then r[key] else Null
  }

  /** Reading a field after writing one. */
  lemma UpdateGet(r: Record, k: string, v: Value, k2: string)
    ensures Get(r[k := v], k2) == if k2 == k then v else Get(r, k2)
  {
  }

  /** Writing a field the value it already has changes nothing. */
  lemma UpdateSame(r: Record, k: string, v: Value)
    requires k in r && r[k] == v
    ensures r[k := v] == r
  {
  }

  /** Python's `str(value)`. How Python prints a number is not modelled: it is
      supplied by the caller as `show`. */
  function ValueText(v: Value, show: real -> string): string {
    match v
    case Null => "None"
    case Str(s) => s
    case Num(x) => show(x)
  }

  /** The number of rows that satisfy `p`. */
  function CountWhere(rows: seq<Record>, p: Record -> bool): (n: nat)
    ensures n <= |rows|
  {
    if |rows| == 0 then 0
    else CountWhere(rows[..|rows| - 1], p) + (if p(rows[|rows| - 1]) then 1 else 0)
  }

  /** The count is positive exactly when some row satisfies `p`. */
  lemma {:induction false} CountWherePositive(rows: seq<Record>, p: Record -> bool)
    ensures CountWhere(rows, p) > 0 <==> exists j :: 0 <= j < |rows| && p(rows[j])
  {
    if |rows| > 0 {
      var init := rows[..|rows| - 1];
      CountWherePositive(init, p);
      if exists j :: 0 <= j < |rows| && p(rows[j]) {
        var j :| 0 <= j < |rows| && p(rows[j]);
        if j < |init| {
          assert init[j] == rows[j];
        }
      }
      if exists j :: 0 <= j < |init| && p(init[j]) {
        var j :| 0 <= j < |init| && p(init[j]);
        assert init[j] == rows[j];
      }
    }
  }

  /** Extending the rows by one adds one exactly when the new row satisfies `p`. */
  lemma CountWhereSnoc(rows: seq<Record>, p: Record -> bool, i: nat)
    requires i < |rows|
    ensures CountWhere(rows[..i + 1], p) == CountWhere(rows[..i], p) + (if p(rows[i]) then 1 else 0)
  {
    assert rows[..i + 1][..i] == rows[..i];
  }

  /** `f` applied to every row, in order. */
  function MapRows(rows: seq<Record>, f: Record -> Record): (r: seq<Record>)
    ensures |r| == |rows|
  {
    if |rows| == 0 then [] else MapRows(rows[..|rows| - 1], f) + [f(rows[|rows| - 1])]
  }

  /** Row `j` of the result is `f` of row `j`. */
  lemma {:induction false} MapRowsAt(rows: seq<Record>, f: Record -> Record)
    ensures forall j :: 0 <= j < |rows| ==> MapRows(rows, f)[j] == f(rows[j])
  {
    if |rows| > 0 {
      var init := rows[..|rows| - 1];
      MapRowsAt(init, f);
      forall j | 0 <= j < |init| ensures MapRows(rows, f)[j] == f(rows[j]) {
        assert init[j] == rows[j];
      }
    }
  }

  /** Extending the rows by one appends `f` of the new row. */
  lemma MapRowsSnoc(rows: seq<Record>, f: Record -> Record, i: nat)
    requires i < |rows|
    ensures MapRows(rows[..i + 1], f) == MapRows(rows[..i], f) + [f(rows[i])]
  {
    assert rows[..i + 1][..i] == rows[..i];
  }

  /** Two counts, the second over the rows after `f`, are positive together
      exactly when some row satisfies `p` or satisfies `q` after `f`. */
  lemma CountPairPositive(rows: seq<Record>, p: Record -> bool, f: Record -> Record, q: Record -> bool)
    ensures CountWhere(rows, p) + CountWhere(MapRows(rows, f), q) > 0
      <==> exists j :: 0 <= j < |rows| && (p(rows[j]) || q(f(rows[j])))
  {
    var mapped := MapRows(rows, f);
    MapRowsAt(rows, f);
    CountWherePositive(rows, p);
    CountWherePositive(mapped, q);
    if exists j :: 0 <= j < |mapped| && q(mapped[j]) {
      var j :| 0 <= j < |mapped| && q(mapped[j]);
      assert q(f(rows[j]));
    }
  }
}
