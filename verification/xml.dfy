/** The structured extractor (`XmlSkill`): reads a UBL 2.1 invoice, either
    directly or wrapped in a DIAN AttachedDocument, from an element tree and
    fills the invoice fields. Parsing XML text into a tree and Python's `float()`
    on element text are not modelled: they are supplied by the caller. */
module Xml {
  import opened Wrappers
  import opened Values
  import opened Text

  /** An element: its tag, its text (an element with no text has `""`; Python's
      `None` and `""` are both falsy and are treated alike), its children in
      document order. */
  datatype Element = Element(tag: string, text: string, children: seq<Element>)

  // ---------------------------------------------------------------------------
  // Namespace stripping

  /** A tag in Clark notation, `{uri}local`, loses everything up to the first
      `}`; any other tag is kept. A tag that opens `{` but never closes it makes
      the split fail (`None`). */
  function StripTag(tag: string): (r: Option<string>)
    ensures r.None? <==> StartsWith(tag, "{") && '}' !in tag
    ensures r.Some? ==> |r.value| <= |tag|
    ensures !StartsWith(tag, "{") ==> r == Some(tag)
  {
    if StartsWith(tag, "{") then
      if '}' in tag then Some(tag[IndexOf(tag, '}') + 1..]) else None
    else Some(tag)
  }

  /** A namespace-qualified tag gives its local name. */
  lemma StripClark(ns: string, local: string)
    requires '}' !in ns
    ensures StripTag("{" + ns + "}" + local) == Some(local)
  {
    var tag := "{" + ns + "}" + local;
    assert tag[..1] == "{";
    assert tag[1..|ns| + 1] == ns;
    IndexOfClark(tag, ns);
    assert tag[|ns| + 2..] == local;
  }

  lemma IndexOfClark(tag: string, ns: string)
    requires |tag| > |ns| + 1 && tag[0] == '{' && tag[1..|ns| + 1] == ns && tag[|ns| + 1] == '}'
    requires '}' !in ns
    ensures IndexOf(tag, '}') == |ns| + 1
  {
    assert '}' !in tag[..|ns| + 1] by {
      assert tag[..|ns| + 1] == "{" + ns;
    }
  }

  /** `_strip_namespaces`: every tag of the tree stripped, texts and child order
      kept; `None` when some tag cannot be split. */
  function StripNamespaces(e: Element): (r: Option<Element>)
    ensures r.Some? ==> Some(r.value.tag) == StripTag(e.tag)
    ensures r.Some? ==> r.value.text == e.text && |r.value.children| == |e.children|
    ensures r.Some? ==> forall i :: 0 <= i < |e.children| ==>
      StripNamespaces(e.children[i]) == Some(r.value.children[i])
    ensures r.None? <==> (StripTag(e.tag).None? ||
      exists i :: 0 <= i < |e.children| && StripNamespaces(e.children[i]).None?)
  {
    var kids := seq(|e.children|, i requires 0 <= i < |e.children| => StripNamespaces(e.children[i]));
    if StripTag(e.tag).None? || exists i :: 0 <= i < |kids| && kids[i].None? then None
    else Some(Element(StripTag(e.tag).value, e.text,
      seq(|kids|, i requires 0 <= i < |kids| => kids[i].value)))
  }

  /** No tag of the tree is namespace-qualified. */
  predicate Plain(e: Element) {
    !StartsWith(e.tag, "{") && forall i :: 0 <= i < |e.children| ==> Plain(e.children[i])
  }

  /** Stripping changes a tree exactly when some tag in it is qualified: a plain
      tree comes back as it was, any other comes back different or not at all. */
  lemma {:induction false} StripFixed(e: Element)
    ensures StripNamespaces(e) == Some(e) <==> Plain(e)
  {
    forall i | 0 <= i < |e.children|
      ensures StripNamespaces(e.children[i]) == Some(e.children[i]) <==> Plain(e.children[i])
    {
      StripFixed(e.children[i]);
    }
    if Plain(e) {
      var r := StripNamespaces(e);
      assert r.Some?;
      assert r.value.children == e.children;
    }
  }

  // ---------------------------------------------------------------------------
  // Finding elements

  /** An ElementPath expression of the forms used here: `./A/B` (child steps
      from the root) or `.//A/B` (the first step at any depth below the root,
      the rest child steps). */
  datatype Path = Path(anywhere: bool, steps: seq<string>)

  /** The trees of `forest` in document order: each element followed by its
      descendants. */
  function Preorder(forest: seq<Element>): (r: seq<Element>)
    ensures |forest| <= |r|
    decreases forest
  {
    if |forest| == 0 then []
    else [forest[0]] + Preorder(forest[0].children) + Preorder(forest[1..])
  }

  /** Every element of the forest and every child of a listed element is listed. */
  lemma {:induction false} PreorderCloses(forest: seq<Element>, x: Element)
    requires x in Preorder(forest)
    ensures forall i :: 0 <= i < |x.children| ==> x.children[i] in Preorder(forest)
    decreases forest
  {
    var head := [forest[0]] + Preorder(forest[0].children);
    if x == forest[0] {
      PreorderHas(x.children);
    } else if x in Preorder(forest[0].children) {
      PreorderCloses(forest[0].children, x);
    } else {
      PreorderCloses(forest[1..], x);
    }
  }

  /** The roots of the forest are listed. */
  lemma {:induction false} PreorderHas(forest: seq<Element>)
    ensures forall i :: 0 <= i < |forest| ==> forest[i] in Preorder(forest)
    decreases forest
  {
    if |forest| > 0 {
      PreorderHas(forest[1..]);
      forall i | 1 <= i < |forest| ensures forest[i] in Preorder(forest) {
        assert forest[1..][i - 1] == forest[i];
      }
    }
  }

  /** The elements of `xs` tagged `t`, in order. */
  function Tagged(xs: seq<Element>, t: string): (r: seq<Element>)
    ensures forall i :: 0 <= i < |r| ==> r[i].tag == t
  {
    if |xs| == 0 then [] else (if xs[0].tag == t then [xs[0]] else []) + Tagged(xs[1..], t)
  }

  /** The first element tagged `t` heads the selection, and the selection is
      empty exactly when no element has that tag. */
  lemma {:induction false} TaggedFirst(xs: seq<Element>, t: string)
    ensures |Tagged(xs, t)| > 0 <==> exists i :: 0 <= i < |xs| && xs[i].tag == t
    ensures forall k :: 0 <= k < |xs| && xs[k].tag == t && (forall j :: 0 <= j < k ==> xs[j].tag != t) ==>
      Tagged(xs, t)[0] == xs[k]
  {
    if |xs| > 0 {
      TaggedFirst(xs[1..], t);
      if xs[0].tag != t {
        forall k | 1 <= k < |xs| && xs[k].tag == t && (forall j :: 0 <= j < k ==> xs[j].tag != t)
          ensures Tagged(xs, t)[0] == xs[k]
        {
          assert xs[1..][k - 1] == xs[k];
          assert forall j :: 0 <= j < k - 1 ==> xs[1..][j].tag != t by {
            forall j | 0 <= j < k - 1 ensures xs[1..][j].tag != t {
              assert xs[1..][j] == xs[j + 1];
            }
          }
        }
        if exists i :: 0 <= i < |xs| && xs[i].tag == t {
          var i :| 0 <= i < |xs| && xs[i].tag == t;
          assert xs[1..][i - 1] == xs[i];
        }
      }
    }
  }

  /** The children tagged `t` of every element of `xs`, in order. */
  function ChildrenTagged(xs: seq<Element>, t: string): (r: seq<Element>)
    ensures forall i :: 0 <= i < |r| ==> r[i].tag == t
  {
    if |xs| == 0 then [] else Tagged(xs[0].children, t) + ChildrenTagged(xs[1..], t)
  }

  function Walk(xs: seq<Element>, steps: seq<string>): (r: seq<Element>)
    ensures |steps| > 0 ==> forall i :: 0 <= i < |r| ==> r[i].tag == steps[|steps| - 1]
    decreases |steps|
  {
    if |steps| == 0 then xs
    else
      var r := Walk(ChildrenTagged(xs, steps[0]), steps[1..]);
      assert |steps| > 1 ==> steps[1..][|steps| - 2] == steps[|steps| - 1];
      r
  }

  /** Every element the path selects, in ElementPath's step order. */
  function Select(root: Element, p: Path): (r: seq<Element>)
    ensures |p.steps| > 0 ==> forall i :: 0 <= i < |r| ==> r[i].tag == p.steps[|p.steps| - 1]
  {
    if |p.steps| == 0 then [root]
    else
      var first := if p.anywhere then Tagged(Preorder(root.children), p.steps[0])
                   else Tagged(root.children, p.steps[0]);
      var r := Walk(first, p.steps[1..]);
      assert |p.steps| > 1 ==> p.steps[1..][|p.steps| - 2] == p.steps[|p.steps| - 1];
      r
  }

  /** `Element.find`: the first selected element, if any. */
  function Find(root: Element, p: Path): (r: Option<Element>)
    ensures |p.steps| > 0 && r.Some? ==> r.value.tag == p.steps[|p.steps| - 1]
  {
    var s := Select(root, p);
    if |s| == 0 then None else Some(s[0])
  }

  /** `./T` finds the first child tagged `T`, and nothing when no child is. */
  lemma FindChild(root: Element, t: string)
    ensures Find(root, Path(false, [t])).None? <==>
      forall i :: 0 <= i < |root.children| ==> root.children[i].tag != t
    ensures forall k :: (0 <= k < |root.children| && root.children[k].tag == t &&
      (forall j :: 0 <= j < k ==> root.children[j].tag != t)) ==>
      Find(root, Path(false, [t])) == Some(root.children[k])
  {
    TaggedFirst(root.children, t);
    assert Path(false, [t]).steps[1..] == [];
  }

  /** `.//T` finds the first element tagged `T` in document order at any depth
      below the root, and nothing when there is none. */
  lemma FindAnywhere(root: Element, t: string)
    ensures var below := Preorder(root.children);
      && (Find(root, Path(true, [t])).None? <==> forall i :: 0 <= i < |below| ==> below[i].tag != t)
      && (forall k :: (0 <= k < |below| && below[k].tag == t &&
           (forall j :: 0 <= j < k ==> below[j].tag != t)) ==>
           Find(root, Path(true, [t])) == Some(below[k]))
  {
    TaggedFirst(Preorder(root.children), t);
    assert Path(true, [t]).steps[1..] == [];
    assert Select(root, Path(true, [t])) == Tagged(Preorder(root.children), t);
  }

  // ---------------------------------------------------------------------------
  // Field readers

  /** `_get_text`: the stripped text of the element the path finds; `None` when
      it finds nothing or the element has no text. */
  function GetText(root: Element, p: Path): (r: Value)
    ensures r.Null? || r.Str?
    ensures r.Null? <==> Find(root, p).None? || Find(root, p).value.text == ""
    ensures r.Str? ==> |r.s| <= |Find(root, p).value.text|
    ensures r.Str? && |r.s| > 0 ==> !IsSpace(r.s[0]) && !IsSpace(r.s[|r.s| - 1])
  {
    match Find(root, p)
    case None => Null
    case Some(el) => if el.text == "" then Null else Str(Strip(el.text))
  }

  /** `_get_float`: the number in the element's text, or 0 when the element is
      missing, its text is empty or blank, or the text is not a number.
      `toFloat` is Python's `float()` on text, `None` where it raises. */
  function GetFloat(root: Element, p: Path, toFloat: string -> Option<real>): (r: Value)
    ensures r.Num?
    ensures !Truthy(GetText(root, p)) ==> r == Num(0.0)
    ensures Truthy(GetText(root, p)) ==> r == Num(toFloat(GetText(root, p).s).GetOr(0.0))
  {
    var t := GetText(root, p);
    if Truthy(t) then Num(toFloat(t.s).GetOr(0.0)) else Num(0.0)
  }

  // ---------------------------------------------------------------------------
  // The invoice fields

  datatype Kind = TextField | AmountField

  /** One invoice field: its name, how it is read, and where. */
  datatype Field = Field(name: string, kind: Kind, path: Path)

  function Below(steps: seq<string>): Path { Path(true, steps) }
  function Child(tag: string): Path { Path(false, [tag]) }

  const DescriptionPath: Path := Below(["InvoiceLine", "Item", "Description"])

  /** The fields read from an invoice, with their locations. */
  const Schema: seq<Field> := [
    Field("proveedor", TextField,
      Below(["AccountingSupplierParty", "Party", "PartyTaxScheme", "RegistrationName"])),
    Field("nit", TextField,
      Below(["AccountingSupplierParty", "Party", "PartyTaxScheme", "CompanyID"])),
    Field("direccion", TextField,
      Below(["AccountingSupplierParty", "Party", "PhysicalLocation", "Address", "AddressLine", "Line"])),
    Field("telefono", TextField,
      Below(["AccountingSupplierParty", "Party", "Contact", "Telephone"])),
    Field("ciudad", TextField,
      Below(["AccountingSupplierParty", "Party", "PhysicalLocation", "Address", "CityName"])),
    Field("factura_numero", TextField, Child("ID")),
    Field("fecha_emision", TextField, Below(["IssueDate"])),
    Field("fecha_vencimiento", TextField, Below(["DueDate"])),
    Field("descripcion", TextField, DescriptionPath),
    Field("moneda", TextField, Child("DocumentCurrencyCode")),
    Field("base", AmountField, Below(["LegalMonetaryTotal", "TaxExclusiveAmount"])),
    Field("impuestos", AmountField, Below(["TaxTotal", "TaxAmount"])),
    Field("total", AmountField, Below(["LegalMonetaryTotal", "PayableAmount"])),
    Field("cufe", TextField, Child("UUID"))]

  const Description: int := 8

  predicate DistinctNames(fields: seq<Field>) {
    forall i, j :: 0 <= i < j < |fields| ==> fields[i].name != fields[j].name
  }

  function Names(fields: seq<Field>): set<string> {
    set i | 0 <= i < |fields| :: fields[i].name
  }

  /** The schema names fourteen different fields. */
  lemma SchemaDistinct()
    ensures |Schema| == 14 && DistinctNames(Schema)
  {
  }

  /** No schema field is one of the two identity fields. */
  lemma SchemaIdentity(i: nat)
    requires i < |Schema|
    ensures Schema[i].name != "archivo" && Schema[i].name != "estado"
  {
  }

  /** The description is the schema's ninth field and only that one. */
  lemma SchemaDescription(i: nat)
    requires i < |Schema|
    ensures Schema[i].name == "descripcion" <==> i == Description
    ensures i == Description ==> Schema[i].kind == TextField && Schema[i].path == DescriptionPath
  {
  }

  /** One field's value as the extractor reads it. */
  function Cell(root: Element, fd: Field, toFloat: string -> Option<real>): Value {
    match fd.kind
    case TextField => GetText(root, fd.path)
    case AmountField => GetFloat(root, fd.path, toFloat)
  }

  /** The record of the fields' values. */
  function Cells(root: Element, fields: seq<Field>, toFloat: string -> Option<real>): (r: Record)
    requires DistinctNames(fields)
    ensures r.Keys == Names(fields)
    ensures forall i :: 0 <= i < |fields| ==> r[fields[i].name] == Cell(root, fields[i], toFloat)
  {
    if |fields| == 0 then map[]
    else
      var init := fields[..|fields| - 1];
      var last := fields[|fields| - 1];
      var c := Cells(root, init, toFloat);
      CellsStep(fields, init, c, Cell(root, last, toFloat), (f: Field) => Cell(root, f, toFloat));
      c[last.name := Cell(root, last, toFloat)]
  }

  lemma CellsStep(fields: seq<Field>, init: seq<Field>, c: Record, v: Value, cell: Field -> Value)
    requires |fields| > 0 && init == fields[..|fields| - 1] && DistinctNames(fields)
    requires v == cell(fields[|fields| - 1])
    requires c.Keys == Names(init)
    requires forall i :: 0 <= i < |init| ==> c[init[i].name] == cell(init[i])
    ensures c[fields[|fields| - 1].name := v].Keys == Names(fields)
    ensures forall i :: 0 <= i < |fields| ==> c[fields[|fields| - 1].name := v][fields[i].name] == cell(fields[i])
  {
    var last := fields[|fields| - 1];
    assert Names(fields) == Names(init) + {last.name} by {
      assert forall i :: 0 <= i < |init| ==> init[i] == fields[i];
    }
    forall i | 0 <= i < |fields| ensures c[last.name := v][fields[i].name] == cell(fields[i]) {
      if i < |init| {
        assert init[i] == fields[i];
        assert fields[i].name != last.name;
      }
    }
  }

  const Estado: string := "EXITOSO (XML)"
  const DefaultDescription: string := "Factura de Venta"

  /** The description, or the default when it is missing or empty. */
  function WithDefault(v: Value): (r: Value)
    ensures Truthy(r)
    ensures Truthy(v) ==> r == v
  {
    if Truthy(v) then v else Str(DefaultDescription)
  }

  /** `_parse_invoice`: the schema's fields, the file name, the XML success
      state, and a default description when the invoice line has none. */
  function ParseInvoice(root: Element, filename: string, toFloat: string -> Option<real>): (r: Record)
    ensures r.Keys == Names(Schema) + {"archivo", "estado"}
    ensures Get(r, "archivo") == Str(filename) && Get(r, "estado") == Str(Estado)
    ensures Truthy(Get(r, "descripcion"))
  {
    SchemaDistinct();
    SchemaDescription(Description);
    var c := Cells(root, Schema, toFloat);
    IdentityApart();
    Assemble(c, "descripcion", "archivo", "estado", Str(filename), Str(Estado));
    c["descripcion" := WithDefault(c["descripcion"])]["archivo" := Str(filename)]["estado" := Str(Estado)]
  }

  lemma IdentityApart()
    ensures "descripcion" != "archivo" && "descripcion" != "estado" && "archivo" != "estado"
  {
  }

  /** Defaulting field `d` and then setting fields `a` and `e`. */
  lemma Assemble(c: Record, d: string, a: string, e: string, va: Value, ve: Value)
    requires d in c && d != a && d != e && a != e
    ensures var r := c[d := WithDefault(c[d])][a := va][e := ve];
      && r.Keys == c.Keys + {a, e}
      && Get(r, a) == va && Get(r, e) == ve && Truthy(Get(r, d))
  {
  }

  /** Every field but the description is read from its location; the
      description is the first invoice line's, or the default when that is
      missing or empty. */
  lemma ParseInvoiceFields(root: Element, filename: string, toFloat: string -> Option<real>, i: nat)
    requires i < |Schema|
    ensures Get(ParseInvoice(root, filename, toFloat), Schema[i].name) ==
      if i == Description then WithDefault(GetText(root, DescriptionPath))
      else Cell(root, Schema[i], toFloat)
  {
    SchemaDistinct();
    SchemaIdentity(i);
    SchemaDescription(i);
    SchemaDescription(Description);
    var c := Cells(root, Schema, toFloat);
    var d := c["descripcion" := WithDefault(c["descripcion"])];
    UpdateGet(d["archivo" := Str(filename)], "estado", Str(Estado), Schema[i].name);
    UpdateGet(d, "archivo", Str(filename), Schema[i].name);
    UpdateGet(c, "descripcion", WithDefault(c["descripcion"]), Schema[i].name);
  }

  /** The three amounts are always numbers, and 0 when the element is missing
      or its text is empty. */
  lemma ParseInvoiceAmounts(root: Element, filename: string, toFloat: string -> Option<real>, i: nat)
    requires i < |Schema| && Schema[i].kind == AmountField
    ensures var v := Get(ParseInvoice(root, filename, toFloat), Schema[i].name);
      && v.Num?
      && (!Truthy(GetText(root, Schema[i].path)) ==> v == Num(0.0))
  {
    ParseInvoiceFields(root, filename, toFloat, i);
    SchemaDescription(i);
  }

  // ---------------------------------------------------------------------------
  // The extractor

  const AttachmentPath: Path := Below(["Attachment", "ExternalReference", "Description"])

  /** The wrapped invoice's text, when the wrapper carries one. */
  function Payload(root: Element): (r: Option<string>)
    ensures r.Some? ==> Find(root, AttachmentPath).Some? && r.value == Strip(Find(root, AttachmentPath).value.text)
    ensures r.None? <==> Find(root, AttachmentPath).None? || Find(root, AttachmentPath).value.text == ""
  {
    match Find(root, AttachmentPath)
    case None => None
    case Some(d) => if d.text == "" then None else Some(Strip(d.text))
  }

  /** What a root tag announces. */
  datatype RootKind = Wrapper | Direct | Other

  /** The root-tag test: a tag ending `AttachedDocument` is a wrapper, else one
      ending `Invoice` is an invoice. */
  function KindOf(tag: string): (k: RootKind)
    ensures k == Wrapper <==> EndsWith(tag, "AttachedDocument")
    ensures k == Direct <==> !EndsWith(tag, "AttachedDocument") && EndsWith(tag, "Invoice")
  {
    if EndsWith(tag, "AttachedDocument") then Wrapper
    else if EndsWith(tag, "Invoice") then Direct
    else Other
  }

  /** The wrapped invoice, stripped, when the payload is there and parses. */
  function Inner(root: Element, parse: string -> Option<Element>): Option<Element> {
    match Payload(root)
    case None => None
    case Some(text) =>
      match parse(text)
      case None => None
      case Some(inner) => StripNamespaces(inner)
  }

  /** `extract_data`: `doc` is the parsed file (`None` when it cannot be read
      or parsed) and `parse` parses the wrapped invoice's text (`None` on a
      parse error). Every failure gives the empty record; nothing raises. */
  function ExtractData(doc: Option<Element>, filename: string,
                       parse: string -> Option<Element>, toFloat: string -> Option<real>): (r: Record)
    ensures r == map[] || (Get(r, "archivo") == Str(filename) && Get(r, "estado") == Str(Estado))
    ensures doc.None? ==> r == map[]
  {
    if doc.None? then map[]
    else match StripNamespaces(doc.value)
    case None => map[]
    case Some(root) =>
      match KindOf(root.tag)
      case Wrapper =>
        (match Inner(root, parse)
         case None => map[]
         case Some(invoice) => ParseInvoice(invoice, filename, toFloat))
      case Direct => ParseInvoice(root, filename, toFloat)
      case Other => map[]
  }

  /** A wrapper yields the invoice its payload holds, or nothing when it has no
      payload or the payload does not parse. */
  lemma ExtractWrapper(doc: Element, filename: string,
                       parse: string -> Option<Element>, toFloat: string -> Option<real>)
    requires StripNamespaces(doc).Some? && EndsWith(StripNamespaces(doc).value.tag, "AttachedDocument")
    ensures var inner := Inner(StripNamespaces(doc).value, parse);
      ExtractData(Some(doc), filename, parse, toFloat)
        == if inner.Some? then ParseInvoice(inner.value, filename, toFloat) else map[]
  {
    var root := StripNamespaces(doc).value;
    assert KindOf(root.tag) == Wrapper;
  }

  /** The wrapped invoice is there exactly when the wrapper's description has
      text and that text parses into a tree whose tags can be stripped. */
  lemma InnerFound(root: Element, parse: string -> Option<Element>)
    ensures Inner(root, parse).Some? <==>
      && Find(root, AttachmentPath).Some? && Find(root, AttachmentPath).value.text != ""
      && parse(Strip(Find(root, AttachmentPath).value.text)).Some?
      && StripNamespaces(parse(Strip(Find(root, AttachmentPath).value.text)).value).Some?
  {
  }

  /** An invoice root is read directly. */
  lemma ExtractInvoice(doc: Element, filename: string,
                       parse: string -> Option<Element>, toFloat: string -> Option<real>)
    requires StripNamespaces(doc).Some?
    requires var tag := StripNamespaces(doc).value.tag;
      !EndsWith(tag, "AttachedDocument") && EndsWith(tag, "Invoice")
    ensures ExtractData(Some(doc), filename, parse, toFloat)
      == ParseInvoice(StripNamespaces(doc).value, filename, toFloat)
  {
    assert KindOf(StripNamespaces(doc).value.tag) == Direct;
  }

  /** Any other root, and a tree whose tags cannot be stripped, yields nothing. */
  lemma ExtractOther(doc: Element, filename: string,
                     parse: string -> Option<Element>, toFloat: string -> Option<real>)
    requires StripNamespaces(doc).Some? ==>
      var tag := StripNamespaces(doc).value.tag;
      !EndsWith(tag, "AttachedDocument") && !EndsWith(tag, "Invoice")
    ensures ExtractData(Some(doc), filename, parse, toFloat) == map[]
  {
  }

  /** Whatever the tree, the result is empty or a filled-in invoice: the
      extractor never fails in any other way. */
  lemma ExtractNonEmpty(doc: Option<Element>, filename: string,
                        parse: string -> Option<Element>, toFloat: string -> Option<real>)
    requires ExtractData(doc, filename, parse, toFloat) != map[]
    ensures exists invoice: Element ::
      ExtractData(doc, filename, parse, toFloat) == ParseInvoice(invoice, filename, toFloat)
  {
    var root := StripNamespaces(doc.value).value;
    if KindOf(root.tag) == Wrapper {
      var invoice := Inner(root, parse).value;
      assert ExtractData(doc, filename, parse, toFloat) == ParseInvoice(invoice, filename, toFloat);
    } else {
      assert ExtractData(doc, filename, parse, toFloat) == ParseInvoice(root, filename, toFloat);
    }
  }
}
