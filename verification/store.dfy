/** The spreadsheet the records are saved to (`save_to_excel`): every record
    becomes one row of the nineteen output columns, in a fixed order, and a batch
    of records is appended after the rows already saved. */
module Store {
  import opened Wrappers
  import opened Values

  /** The output columns, in sheet order. */
  const Columns: seq<string> := [
    "archivo", "estado", "proveedor", "nit", "factura_numero",
    "fecha", "fecha_vencimiento", "descripcion",
    "moneda", "base", "impuestos", "total",
    "direccion", "telefono", "ciudad", "cufe",
    "nit_dv_calculado", "nit_dv_extraido", "nota"]

  /** One saved row: a cell per output column. */
  type Row = seq<Value>

  /** No column name occurs twice, so a row cell names one field. */
  lemma ColumnsDistinct()
    ensures |Columns| == 19
    ensures forall a, b :: 0 <= a < b < |Columns| ==> Columns[a] != Columns[b]
  {
  }

  /** The record as a row: a missing field becomes an empty cell and fields that
      are not output columns are dropped. */
  function Project(rec: Record): (row: Row)
    ensures |row| == |Columns|
  {
    seq(|Columns|, k requires 0 <= k < |Columns| => Get(rec, Columns[k]))
  }

  /** A row read back as a record: every output column is a key. */
  function Unproject(row: Row): (rec: Record)
    requires |row| == |Columns|
    ensures rec.Keys == set k | 0 <= k < |Columns| :: Columns[k]
  {
    ColumnsDistinct();
    map k | 0 <= k < |Columns| :: Columns[k] := row[k]
  }

  /** Reading a saved row back and saving it again gives the same row. */
  lemma ProjectUnproject(row: Row)
    requires |row| == |Columns|
    ensures Project(Unproject(row)) == row
  {
    ColumnsDistinct();
    var rec := Unproject(row);
    forall k | 0 <= k < |Columns| ensures Project(rec)[k] == row[k] {
      assert Columns[k] in rec;
    }
  }

  /** A record keeps every output field through a save and a read; every other
      field is lost. */
  lemma UnprojectProject(rec: Record, c: string)
    ensures c in Columns ==> Get(Unproject(Project(rec)), c) == Get(rec, c)
    ensures c !in Columns ==> Get(Unproject(Project(rec)), c) == Null
  {
    ColumnsDistinct();
    if c in Columns {
      var k :| 0 <= k < |Columns| && Columns[k] == c;
      assert Unproject(Project(rec))[c] == Project(rec)[k];
    }
  }

  function ProjectAll(data: seq<Record>): (rows: seq<Row>)
    ensures |rows| == |data|
    ensures forall j :: 0 <= j < |data| ==> rows[j] == Project(data[j])
  {
    if |data| == 0 then [] else [Project(data[0])] + ProjectAll(data[1..])
  }

  /** `save_to_excel`: `sheet` is the saved rows below the header, `None` when
      the file does not exist yet. An empty batch leaves everything as it was;
      otherwise the file is created with the batch, or the batch is appended. */
  function SaveToExcel(sheet: Option<seq<Row>>, data: seq<Record>): (r: Option<seq<Row>>)
    ensures |data| == 0 ==> r == sheet
    ensures |data| > 0 ==> r.Some?
    ensures |data| > 0 ==> |r.value| == |sheet.GetOr([])| + |data|
    ensures |data| > 0 ==> r.value[..|sheet.GetOr([])|] == sheet.GetOr([])
    ensures |data| > 0 ==> forall j :: 0 <= j < |data| ==>
      r.value[|sheet.GetOr([])| + j] == Project(data[j])
  {
    if |data| == 0 then sheet
    else
      match sheet
      case None => Some(ProjectAll(data))
      case Some(saved) => Some(saved + ProjectAll(data))
  }

  lemma {:induction false} ProjectAllAppend(a: seq<Record>, b: seq<Record>)
    ensures ProjectAll(a + b) == ProjectAll(a) + ProjectAll(b)
  {
    var l, r := ProjectAll(a + b), ProjectAll(a) + ProjectAll(b);
    assert |l| == |r|;
    forall j | 0 <= j < |l| ensures l[j] == r[j] {
      if j < |a| {
        assert (a + b)[j] == a[j];
      } else {
        assert (a + b)[j] == b[j - |a|];
      }
    }
  }

  /** Saving two batches one after the other leaves the same sheet as saving
      them together. */
  lemma SaveTwice(sheet: Option<seq<Row>>, a: seq<Record>, b: seq<Record>)
    ensures SaveToExcel(SaveToExcel(sheet, a), b) == SaveToExcel(sheet, a + b)
  {
    ProjectAllAppend(a, b);
    if |a| == 0 {
      assert a + b == b;
    } else if |b| == 0 {
      assert a + b == a;
    } else if sheet.Some? {
      assert sheet.value + ProjectAll(a) + ProjectAll(b) == sheet.value + (ProjectAll(a) + ProjectAll(b));
    }
  }
}
