/**
 * The server-side views: which serializer each action uses, the filter of
 * the form list by the patient's identification, and the patient preview and
 * PDF, which group a form's parametros under their items and print each
 * field's value with a chain guarded differently from the PDF export's.
 */
module Views {
  import opened Wrappers
  import opened Text
  import opened Json
  import opened Models
  import opened Seqs
  import Pdf

  // ---- serializer choice -------------------------------------------------------

  /** The three viewsets whose serializer depends on the action. */
  datatype Resource = Pacientes | Formularios | Mediciones

  datatype SerializerClass =
    | PacienteListSerializer | PacienteSerializer
    | FormularioCreateSerializer | FormularioSerializer
    | MedicionCreateSerializer | MedicionSerializer

  /** The actions that write through the serializer. */
  predicate IsWriteAction(action: string) {
    action == "create" || action == "update" || action == "partial_update"
  }

  /**
   * `get_serializer_class`: patients list with the list serializer and use
   * the full one otherwise; forms and measurements use their create
   * serializer for the three writing actions and the read one otherwise.
   */
  function SerializerFor(res: Resource, action: string): (r: SerializerClass)
    ensures res == Pacientes ==> (r == PacienteListSerializer <==> action == "list")
    ensures res == Formularios ==> (r == FormularioCreateSerializer <==> IsWriteAction(action))
    ensures res == Mediciones ==> (r == MedicionCreateSerializer <==> IsWriteAction(action))
  {
    match res
    case Pacientes => if action == "list" then PacienteListSerializer else PacienteSerializer
    case Formularios => if IsWriteAction(action) then FormularioCreateSerializer else FormularioSerializer
    case Mediciones => if IsWriteAction(action) then MedicionCreateSerializer else MedicionSerializer
  }

  /** The resource a serializer class belongs to. */
  function ResourceOf(s: SerializerClass): Resource {
    match s
    case PacienteListSerializer => Pacientes
    case PacienteSerializer => Pacientes
    case FormularioCreateSerializer => Formularios
    case FormularioSerializer => Formularios
    case MedicionCreateSerializer => Mediciones
    case MedicionSerializer => Mediciones
  }

  /** Every action gets a serializer of its own viewset; a patient is never written with the list serializer. */
  lemma SerializerOfOwnResource(res: Resource, action: string)
    ensures ResourceOf(SerializerFor(res, action)) == res
    ensures IsWriteAction(action) ==> SerializerFor(res, action) != PacienteListSerializer
  {
  }

  // ---- filtering the form list -------------------------------------------------

  /** A form in the list, with its patient's identification number. */
  datatype FormRow = FormRow(formulario: nat, numIdentificacion: string)

  /** The rows whose patient has identification `id`, in their order. */
  function WithIdentification(rows: seq<FormRow>, id: string): (r: seq<FormRow>)
    ensures |r| <= |rows|
    ensures forall x :: x in r <==> x in rows && x.numIdentificacion == id
  {
    if rows == [] then []
    else (if rows[0].numIdentificacion == id then [rows[0]] else []) + WithIdentification(rows[1..], id)
  }

  /**
   * `FormularioViewSet.get_queryset`: a present, non-empty
   * `paciente__num_identificacion` parameter is stripped of blanks and kept
   * as an exact filter; an absent or empty one leaves every form.
   */
  function FilterForms(rows: seq<FormRow>, param: Option<string>): (r: seq<FormRow>)
    ensures param.None? || param == Some("") ==> r == rows
    ensures param.Some? && param.value != "" ==>
      forall x :: x in r <==> x in rows && x.numIdentificacion == Trim(param.value)
  {
    if param.Some? && param.value != "" then WithIdentification(rows, Trim(param.value)) else rows
  }

  /**
   * The filter keeps the list's order: filtering a list made of two parts
   * gives the filtered first part, then the filtered second part.
   */
  lemma {:induction false} WithIdentificationAppend(a: seq<FormRow>, b: seq<FormRow>, id: string)
    ensures WithIdentification(a + b, id) == WithIdentification(a, id) + WithIdentification(b, id)
    decreases |a|
  {
    if a != [] {
      assert (a + b)[1..] == a[1..] + b;
      WithIdentificationAppend(a[1..], b, id);
    } else {
      assert a + b == b;
    }
  }

  /** Blanks around the number do not change the result. */
  lemma FilterIgnoresBlanks(rows: seq<FormRow>, param: string)
    requires Trim(param) != ""
    ensures FilterForms(rows, Some(param)) == FilterForms(rows, Some(Trim(param)))
  {
    TrimIdempotent(param);
  }

  // ---- grouping parametros under items ------------------------------------------

  /** A `FormularioItemParametro` row: the item it belongs to and its parametro, by id. */
  datatype FipRef = FipRef(item: nat, parametro: nat)

  /** The item ids of the rows, in order. */
  function Items(fips: seq<FipRef>): (r: seq<nat>)
    ensures |r| == |fips| && forall i :: 0 <= i < |fips| ==> r[i] == fips[i].item
  {
    seq(|fips|, i requires 0 <= i < |fips| => fips[i].item)
  }

  /** The parametros of item `id`, in row order. */
  function ParamsOf(fips: seq<FipRef>, id: nat): (r: seq<nat>)
    ensures |r| <= |fips|
  {
    if fips == [] then []
    else ParamsOf(fips[..|fips| - 1], id) + (if fips[|fips| - 1].item == id then [fips[|fips| - 1].parametro] else [])
  }

  /** An item without rows has no parametros. */
  lemma {:induction false} ParamsOfAbsent(fips: seq<FipRef>, id: nat)
    requires id !in Items(fips)
    ensures ParamsOf(fips, id) == []
    decreases |fips|
  {
    if fips != [] {
      var p := fips[..|fips| - 1];
      assert Items(p) == Items(fips)[..|fips| - 1];
      ParamsOfAbsent(p, id);
    }
  }

  /** The item ids of the groups, in order. */
  function Keys(groups: seq<(nat, seq<nat>)>): (r: seq<nat>)
    ensures |r| == |groups| && forall k :: 0 <= k < |groups| ==> r[k] == groups[k].0
  {
    seq(|groups|, k requires 0 <= k < |groups| => groups[k].0)
  }

  /** The position of the group of item `id`. */
  function FindGroup(groups: seq<(nat, seq<nat>)>, id: nat): (r: Option<nat>)
    ensures r.Some? ==> r.value < |groups| && groups[r.value].0 == id
    ensures r.None? ==> id !in Keys(groups)
  {
    if groups == [] then None
    else if groups[|groups| - 1].0 == id then Some(|groups| - 1)
    else
      var r := FindGroup(groups[..|groups| - 1], id);
      assert Keys(groups) == Keys(groups[..|groups| - 1]) + [groups[|groups| - 1].0];
      r
  }

  /**
   * The grouping loop of the patient preview and PDF: each row's parametro
   * is appended to its item's list, and a new item opens a group after the
   * existing ones. The groups come in the order in which their items first
   * appear, and each holds its item's parametros in row order.
   */
  method GroupByItem(fips: seq<FipRef>) returns (groups: seq<(nat, seq<nat>)>)
    ensures Keys(groups) == Dedup(Items(fips))
    ensures forall k :: 0 <= k < |groups| ==> groups[k].1 == ParamsOf(fips, groups[k].0)
  {
    groups := [];
    for i := 0 to |fips|
      invariant Keys(groups) == Dedup(Items(fips[..i]))
      invariant forall k :: 0 <= k < |groups| ==> groups[k].1 == ParamsOf(fips[..i], groups[k].0)
    {
      var f := fips[i];
      var prefix := fips[..i + 1];
      assert prefix[..i] == fips[..i];
      assert Items(prefix) == Items(fips[..i]) + [f.item];
      var before := groups;
      match FindGroup(groups, f.item)
      case None =>
        ParamsOfAbsent(fips[..i], f.item);
        groups := groups + [(f.item, [f.parametro])];
        assert Keys(groups) == Keys(before) + [f.item];
        forall k | 0 <= k < |groups| ensures groups[k].1 == ParamsOf(prefix, groups[k].0) {
          ParamsOfSnoc(fips, i, groups[k].0);
          if k < |before| {
            assert Keys(before)[k] == groups[k].0;
          }
        }
      case Some(j) =>
        groups := groups[j := (f.item, groups[j].1 + [f.parametro])];
        assert Keys(groups) == Keys(before);
        forall k | 0 <= k < |groups| ensures groups[k].1 == ParamsOf(prefix, groups[k].0) {
          ParamsOfSnoc(fips, i, groups[k].0);
          if k != j {
            assert Keys(before)[k] != Keys(before)[j];
          }
        }
    }
    assert fips[..|fips|] == fips;
  }

  /** One more row adds its parametro to its own item's list and to no other. */
  lemma ParamsOfSnoc(fips: seq<FipRef>, i: nat, id: nat)
    requires i < |fips|
    ensures ParamsOf(fips[..i + 1], id) == ParamsOf(fips[..i], id) + (if fips[i].item == id then [fips[i].parametro] else [])
  {
    assert fips[..i + 1][..i] == fips[..i];
  }

  /** Every parametro row lands in exactly the group of its item. */
  lemma ParamsOfCount(fips: seq<FipRef>, id: nat)
    ensures |ParamsOf(fips, id)| == 0 <==> id !in Items(fips)
  {
    if id in Items(fips) {
      var i :| 0 <= i < |fips| && Items(fips)[i] == id;
      ParamsOfNonEmpty(fips, id, i);
    } else {
      ParamsOfAbsent(fips, id);
    }
  }

  lemma {:induction false} ParamsOfNonEmpty(fips: seq<FipRef>, id: nat, i: nat)
    requires i < |fips| && fips[i].item == id
    ensures ParamsOf(fips, id) != []
    decreases |fips|
  {
    if i < |fips| - 1 {
      ParamsOfNonEmpty(fips[..|fips| - 1], id, i);
    }
  }

  // ---- the value chain -------------------------------------------------------

  const Dash: string := "\U{2014}"

  /**
   * The value text of the preview and the patient PDF: the number when
   * not null, else a non-empty text, else "Sí"/"No" for a non-null
   * boolean, else a truthy json, else "—"; a field with no stored value
   * also shows "—".
   */
  function ValueText(valor: Option<ValorRow>): (r: string)
    ensures r != ""
    ensures valor.None? ==> r == Dash
    ensures valor.Some? && valor.value.number.Some? ==> r == DecimalPyStr(valor.value.number.value)
  {
    match valor
    case None => Dash
    case Some(v) =>
      if v.number.Some? then
        assert DecimalPyStr(v.number.value) != "";
        DecimalPyStr(v.number.value)
      else if v.text.Some? && v.text.value != "" then v.text.value
      else if v.boolean.Some? then (if v.boolean.value then "S\U{ED}" else "No")
      else if v.json.Some? && PyTruthy(v.json.value) then
        assert PyStr(v.json.value) != "" by {
          if v.json.value.JString? {
          } else {
            assert PyStr(v.json.value) == PyRepr(v.json.value);
          }
        }
        PyStr(v.json.value)
      else Dash
  }

  /** The text of a falsy json value is never the dash. */
  lemma FalsyJsonText(j: Json)
    requires !PyTruthy(j)
    ensures PyStr(j) != Dash
  {
    match j
    case JNull =>
    case JBool(b) =>
    case JNum(n) => assert IntToString(0) == "0";
    case JString(s) =>
    case JArray(items) => assert PyRepr(j)[0] == '[';
    case JObject(members) => assert PyRepr(j)[0] == '{';
  }

  /**
   * For a row that meets the check constraint, the preview agrees with the
   * PDF export's `obtener_valor` except on an empty text and a falsy json,
   * where the preview shows "—" and the export the value itself.
   */
  lemma ValueTextAgreesWithPdf(v: ValorRow)
    requires ValorUnicoTipo(v)
    ensures ValueText(Some(v)) == Pdf.ObtenerValor(v) <==>
      !(v.text == Some("") || (v.json.Some? && !PyTruthy(v.json.value)))
  {
    if v.json.Some? && !PyTruthy(v.json.value) {
      FalsyJsonText(v.json.value);
    }
  }

  /** A row with all four columns null shows "—" here and "" in the export. */
  lemma EmptyRowShownDifferently()
    ensures ValueText(Some(ValorRow(None, None, None, None))) == Dash
    ensures Pdf.ObtenerValor(ValorRow(None, None, None, None)) == ""
  {
  }

  /** The line of one field: `nombre: valor`, then the unit after a space when there is one. */
  function CampoLine(nombre: string, texto: string, unidad: string): (r: string)
    ensures StartsWith(r, nombre + ": " + texto)
    ensures |r| == |nombre| + 2 + |texto| + (if unidad == "" then 0 else 1 + |unidad|)
    ensures unidad != "" ==> r[|r| - |unidad|..] == unidad && r[|r| - |unidad| - 1] == ' '
  {
    var head := nombre + ": " + texto;
    var r := if unidad != "" then head + " " + unidad else head;
    assert r[..|head|] == head;
    r
  }
}
