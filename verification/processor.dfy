/** The per-document resolver (`InvoiceProcessor.process_file`): the companion
    XML file is tried first; when it is missing, yields nothing or raises, the
    vision extractor is used, and its vocabulary is mapped onto the record's.
    Both extractors are outside this module: their outcomes are parameters. */
module Processor {
  import opened Wrappers
  import opened Values
  import opened Text
  import opened Paths
  import opened Normalize
  import Xml

  /** The companion file: the document's path with its extension replaced by
      `.xml`. */
  function Companion(path: string): (r: string)
    ensures EndsWith(r, ".xml")
    ensures Basename(r) == Basename(SplitExt(path).0) + ".xml"
  {
    BasenameAppend(SplitExt(path).0, ".xml");
    SplitExt(path).0 + ".xml"
  }

  /** A document with an extension has its companion beside it, under the same
      name. */
  lemma CompanionOf(stem: string, e: string)
    requires '.' !in e && '/' !in e && HasNonDot(stem, AfterLast(stem, '/'), |stem|)
    ensures Companion(stem + "." + e) == stem + ".xml"
  {
    SplitExtOf(stem, e);
  }

  const Success: string := "EXITOSO"
  const Failure: string := "FALLIDO"
  const NoJson: string := "No se pudo extraer JSON valido"

  /** The vision vocabulary: each record field and the extraction key it is
      read from. */
  const Mapping: seq<(string, string)> := [
    ("proveedor", "proveedor_nombre"),
    ("nit", "proveedor_nit"),
    ("direccion", "proveedor_direccion"),
    ("telefono", "proveedor_telefono"),
    ("ciudad", "proveedor_ciudad"),
    ("factura_numero", "factura_numero"),
    ("fecha", "fecha_emision"),
    ("fecha_vencimiento", "fecha_vencimiento"),
    ("descripcion", "descripcion_general"),
    ("moneda", "moneda"),
    ("base", "base_imponible"),
    ("impuestos", "impuestos"),
    ("total", "total"),
    ("cufe", "cufe")]

  predicate DistinctTargets(m: seq<(string, string)>) {
    forall i, j :: 0 <= i < j < |m| ==> m[i].0 != m[j].0
  }

  function Targets(m: seq<(string, string)>): set<string> {
    set i | 0 <= i < |m| :: m[i].0
  }

  /** The mapping writes fourteen different fields, none of the identity fields. */
  lemma MappingDistinct()
    ensures |Mapping| == 14 && DistinctTargets(Mapping)
  {
  }

  lemma MappingIdentity(i: nat)
    requires i < |Mapping|
    ensures Mapping[i].0 != "archivo" && Mapping[i].0 != "estado"
  {
  }

  /** Each target field holds `data.get(source)`. */
  function Renamed(data: Record, m: seq<(string, string)>): (r: Record)
    requires DistinctTargets(m)
    ensures r.Keys == Targets(m)
    ensures forall i :: 0 <= i < |m| ==> r[m[i].0] == Get(data, m[i].1)
  {
    if |m| == 0 then map[]
    else
      var init := m[..|m| - 1];
      var c := Renamed(data, init);
      RenamedStep(data, m, init, c);
      c[m[|m| - 1].0 := Get(data, m[|m| - 1].1)]
  }

  lemma RenamedStep(data: Record, m: seq<(string, string)>, init: seq<(string, string)>, c: Record)
    requires |m| > 0 && init == m[..|m| - 1] && DistinctTargets(m)
    requires c.Keys == Targets(init)
    requires forall i :: 0 <= i < |init| ==> c[init[i].0] == Get(data, init[i].1)
    ensures c[m[|m| - 1].0 := Get(data, m[|m| - 1].1)].Keys == Targets(m)
    ensures forall i :: 0 <= i < |m| ==>
      c[m[|m| - 1].0 := Get(data, m[|m| - 1].1)][m[i].0] == Get(data, m[i].1)
  {
    var last := m[|m| - 1];
    assert Targets(m) == Targets(init) + {last.0} by {
      assert forall i :: 0 <= i < |init| ==> init[i] == m[i];
    }
    forall i | 0 <= i < |m| ensures c[last.0 := Get(data, last.1)][m[i].0] == Get(data, m[i].1) {
      if i < |init| {
        assert init[i] == m[i];
        assert m[i].0 != last.0;
      }
    }
  }

  /** The vision result mapped onto the record's fields, before normalization. */
  function MapVision(basename: string, data: Record): (r: Record)
    ensures r.Keys == Targets(Mapping) + {"archivo", "estado"}
    ensures Get(r, "archivo") == Str(basename) && Get(r, "estado") == Str(Success)
  {
    MappingDistinct();
    Renamed(data, Mapping)["archivo" := Str(basename)]["estado" := Str(Success)]
  }

  /** Every mapped field holds the vision result's value under its own name. */
  lemma MapVisionField(basename: string, data: Record, i: nat)
    requires i < |Mapping|
    ensures Get(MapVision(basename, data), Mapping[i].0) == Get(data, Mapping[i].1)
  {
    MappingDistinct();
    MappingIdentity(i);
    var c := Renamed(data, Mapping);
    UpdateGet(c["archivo" := Str(basename)], "estado", Str(Success), Mapping[i].0);
    UpdateGet(c, "archivo", Str(basename), Mapping[i].0);
  }

  /** The record for a document nothing could be read from. */
  function Failed(basename: string, note: string): (r: Record)
    ensures r.Keys == {"archivo", "estado", "nota"}
    ensures Get(r, "estado") == Str(Failure)
  {
    map["archivo" := Str(basename), "estado" := Str(Failure), "nota" := Str(note)]
  }

  /** The vision strategy: an exception or an empty result fails; anything
      else is mapped and normalized. */
  function ViaVision(basename: string, vision: Outcome, show: real -> string): (r: Record)
    ensures r != map[]
    ensures vision.Raised? ==> r == Failed(basename, vision.message)
    ensures vision == Returned(map[]) ==> r == Failed(basename, NoJson)
    ensures vision.Returned? && vision.data != map[] ==>
      r == NormalizeData(MapVision(basename, vision.data), show)
  {
    match vision
    case Raised(m) => Failed(basename, m)
    case Returned(d) =>
      if d == map[] then Failed(basename, NoJson)
      else
        assert "archivo" in MapVision(basename, d);
        NormalizeData(MapVision(basename, d), show)
  }

  /** `process_file`: `hasCompanion` tells whether the companion file exists,
      `xml` is what the structured extractor did with it and `vision` what the
      vision extractor does with the document. */
  function ProcessFile(path: string, hasCompanion: bool, xml: Outcome, vision: Outcome,
                       show: real -> string): (r: Record)
    ensures r != map[]
    ensures hasCompanion && xml.Returned? && xml.data != map[] ==> r == NormalizeData(xml.data, show)
    ensures !(hasCompanion && xml.Returned? && xml.data != map[]) ==>
      r == ViaVision(Basename(path), vision, show)
  {
    if hasCompanion && xml.Returned? && xml.data != map[] then NormalizeData(xml.data, show)
    else ViaVision(Basename(path), vision, show)
  }

  /** When the companion yields data, the vision extractor is never consulted:
      its outcome cannot change the record. */
  lemma XmlFirst(path: string, xml: Outcome, v1: Outcome, v2: Outcome, show: real -> string)
    requires xml.Returned? && xml.data != map[]
    ensures ProcessFile(path, true, xml, v1, show) == ProcessFile(path, true, xml, v2, show)
  {
  }

  /** A missing companion, an empty structured result and a structured
      exception all lead to the vision strategy. */
  lemma Fallback(path: string, hasCompanion: bool, xml: Outcome, vision: Outcome, show: real -> string)
    requires !hasCompanion || xml.Raised? || xml == Returned(map[])
    ensures ProcessFile(path, hasCompanion, xml, vision, show) == ViaVision(Basename(path), vision, show)
  {
  }

  lemma IdentityUntouched()
    ensures "archivo" !in Touched && "estado" !in Touched
  {
  }

  /** On a vision result the record is named after the document, marked a
      success, and every field outside the normalized ones is the vision
      result's value under its own name. */
  lemma VisionRecord(basename: string, data: Record, show: real -> string, i: nat)
    requires data != map[] && i < |Mapping| && Mapping[i].0 !in Touched
    ensures var r := ViaVision(basename, Returned(data), show);
      && Get(r, "archivo") == Str(basename) && Get(r, "estado") == Str(Success)
      && Get(r, Mapping[i].0) == Get(data, Mapping[i].1)
  {
    var m := MapVision(basename, data);
    IdentityUntouched();
    NormalizeFrame(m, show, "archivo");
    NormalizeFrame(m, show, "estado");
    NormalizeFrame(m, show, Mapping[i].0);
    MapVisionField(basename, data, i);
  }

  /** With the structured extractor's own results (empty, or a record marked
      as read from XML), the record's state is one of the three. */
  lemma ThreeStates(path: string, hasCompanion: bool, xml: Outcome, vision: Outcome, show: real -> string)
    requires xml.Returned? ==> xml.data == map[] || Get(xml.data, "estado") == Str(Xml.Estado)
    ensures Get(ProcessFile(path, hasCompanion, xml, vision, show), "estado")
      in {Str(Success), Str(Failure), Str(Xml.Estado)}
  {
    IdentityUntouched();
    if hasCompanion && xml.Returned? && xml.data != map[] {
      NormalizeFrame(xml.data, show, "estado");
    } else if vision.Returned? && vision.data != map[] {
      NormalizeFrame(MapVision(Basename(path), vision.data), show, "estado");
    }
  }

  /** On the XML path the record is named after the companion file, not the
      document: the structured extractor is given the companion's path. */
  lemma XmlNamesCompanion(path: string, doc: Option<Xml.Element>, parse: string -> Option<Xml.Element>,
                          toFloat: string -> Option<real>, vision: Outcome, show: real -> string)
    requires Xml.ExtractData(doc, Basename(Companion(path)), parse, toFloat) != map[]
    ensures var xml := Returned(Xml.ExtractData(doc, Basename(Companion(path)), parse, toFloat));
      var r := ProcessFile(path, true, xml, vision, show);
      && Get(r, "archivo") == Str(Basename(SplitExt(path).0) + ".xml")
      && Get(r, "estado") == Str(Xml.Estado)
  {
    var data := Xml.ExtractData(doc, Basename(Companion(path)), parse, toFloat);
    IdentityUntouched();
    NormalizeFrame(data, show, "archivo");
    NormalizeFrame(data, show, "estado");
  }
}
