/**
 * The REST serializers' write rules: the one-payload validation of a
 * measurement value, the required fields of patient and form writes, and the
 * nested measurement create, an upsert of a `Medicion` with an upsert of
 * each of its values, over a store of rows kept in maps.
 */
module Serializers {
  import opened Wrappers
  import opened Text
  import opened Json
  import opened Models

  /** A key of validated request data: left out of the request, or given (possibly as `null`). */
  datatype Field<+T> = Absent | Given(value: T)

  /** `data.get(key) is not None`. */
  predicate Present<T>(f: Field<Option<T>>) {
    f.Given? && f.value.Some?
  }

  /** The validated data of one nested value; `campo` is `None` when left out or null. */
  datatype ValorData = ValorData(
    campo: Option<nat>,
    number: Field<Option<Decimal>>,
    text: Field<Option<string>>,
    boolean: Field<Option<bool>>,
    json: Field<Option<Json>>)

  function PresentCount(d: ValorData): (n: nat)
    ensures n <= 4
  {
    (if Present(d.number) then 1 else 0) + (if Present(d.text) then 1 else 0)
    + (if Present(d.boolean) then 1 else 0) + (if Present(d.json) then 1 else 0)
  }

  const ExactlyOneMessage := "Debe proporcionarse exactamente un tipo de valor (number, text, boolean o json)."

  /** `MedicionValorSerializer.validate`: exactly one payload must be non-null; the data pass through unchanged. */
  function Validate(d: ValorData): (r: Result<ValorData, string>)
    ensures r.Ok? ==> r.value == d
    ensures r.Err? ==> r.error == ExactlyOneMessage
  {
    if PresentCount(d) != 1 then Err(ExactlyOneMessage) else Ok(d)
  }

  /** The column value a request field sets: what was given, or the current value for a field left out. */
  function Column<T>(f: Field<Option<T>>, current: Option<T>): Option<T> {
    match f
    case Absent => current
    case Given(v) => v
  }

  /**
   * `update_or_create(..., defaults=data)` on one row: the given fields are
   * written over the existing row (a new row starts with every column null).
   */
  function Merge(existing: Option<ValorRow>, d: ValorData): (r: ValorRow)
    ensures d.number.Given? ==> r.number == d.number.value
    ensures d.text.Given? ==> r.text == d.text.value
    ensures d.boolean.Given? ==> r.boolean == d.boolean.value
    ensures d.json.Given? ==> r.json == d.json.value
    ensures d.number.Absent? ==> r.number == (if existing.Some? then existing.value.number else None)
    ensures d.text.Absent? ==> r.text == (if existing.Some? then existing.value.text else None)
    ensures d.boolean.Absent? ==> r.boolean == (if existing.Some? then existing.value.boolean else None)
    ensures d.json.Absent? ==> r.json == (if existing.Some? then existing.value.json else None)
  {
    var base := existing.GetOr(ValorRow(None, None, None, None));
    ValorRow(Column(d.number, base.number), Column(d.text, base.text),
             Column(d.boolean, base.boolean), Column(d.json, base.json))
  }

  /** A value accepted by `validate` makes a fresh row that satisfies the table's check constraint, and only such values do. */
  lemma ValidateMatchesConstraint(d: ValorData)
    ensures Validate(d).Ok? <==> ValorUnicoTipo(Merge(None, d))
  {
    ValorUnicoTipoIff(Merge(None, d));
  }

  /**
   * Writing a value of another kind over an existing row keeps the old
   * payload, so the row ends with two payloads and the constraint rejects it.
   */
  lemma KindChangeViolates(stored: ValorRow, d: ValorData)
    requires stored.number.Some? && stored.text.None? && stored.boolean.None? && stored.json.None?
    requires d.number.Absent? && Present(d.text)
    ensures !ValorUnicoTipo(Merge(Some(stored), d))
  {
  }

  // ---- required fields -------------------------------------------------------

  /** Fields `PacienteSerializer` requires. */
  const PacienteRequired: seq<string> := ["num_historia_clinica", "num_identificacion", "nombres"]

  /** Fields `FormularioCreateSerializer` requires. */
  const FormularioRequired: seq<string> :=
    ["codigo", "version", "fecha_elabora", "num_hoja", "paciente", "estado", "responsable"]

  /**
   * A required field is rejected when it is left out or `null`, and a text
   * field also when it is blank: the framework's text fields trim surrounding
   * whitespace before they refuse an empty value.
   */
  predicate Missing(data: map<string, Json>, key: string) {
    key !in data || data[key] == JNull || (data[key].JString? && Trim(data[key].s) == "")
  }

  /** The required fields the data lack, in declaration order. */
  function MissingRequired(data: map<string, Json>, required: seq<string>): (r: seq<string>)
    ensures forall k :: k in r <==> k in required && Missing(data, k)
    ensures |r| <= |required|
  {
    if required == [] then []
    else (if Missing(data, required[0]) then [required[0]] else []) + MissingRequired(data, required[1..])
  }

  // ---- the measurement store -----------------------------------------------

  /** A stored `Medicion`: its id and its observation. */
  datatype MedicionRecord = MedicionRecord(id: nat, observacion: Option<string>)

  /** Validated data of a `MedicionCreateSerializer` request. */
  datatype CreateRequest = CreateRequest(
    key: MedicionKey,
    observacion: Field<Option<string>>,
    valores: seq<ValorData>)

  /** The database refused a value row: its payload columns broke `valor_unico_tipo`. */
  datatype CreateError = IntegrityError(campo: nat)

  /** The tables the create touches: measurements by their unique key, value rows by theirs. */
  datatype Tables = Tables(
    mediciones: map<MedicionKey, MedicionRecord>,
    valores: map<ValorKey, ValorRow>,
    nextId: nat)

  /** Ids are below the counter and distinct, values belong to stored measurements and satisfy the check constraint. */
  predicate TablesValid(t: Tables) {
    && (forall k :: k in t.mediciones ==> t.mediciones[k].id < t.nextId)
    && (forall k, k' :: k in t.mediciones && k' in t.mediciones && k != k' ==> t.mediciones[k].id != t.mediciones[k'].id)
    && (forall v :: v in t.valores ==> ValorUnicoTipo(t.valores[v]))
    && (forall v :: v in t.valores ==> exists k :: k in t.mediciones && t.mediciones[k].id == v.medicion)
  }

  /** `get_or_create` on the measurement, then the observation update of an existing one. */
  function GetOrCreate(t: Tables, req: CreateRequest): (r: (Tables, nat))
  {
    if req.key in t.mediciones then
      var rec := t.mediciones[req.key];
      var rec' := if req.observacion.Given? then rec.(observacion := req.observacion.value) else rec;
      (t.(mediciones := t.mediciones[req.key := rec']), rec.id)
    else
      var rec := MedicionRecord(t.nextId, if req.observacion.Given? then req.observacion.value else None);
      (t.(mediciones := t.mediciones[req.key := rec], nextId := t.nextId + 1), t.nextId)
  }

  /** `update_or_create` of one value of measurement `id`; values without a campo are skipped. */
  function UpsertValor(valores: map<ValorKey, ValorRow>, id: nat, d: ValorData): (r: Result<map<ValorKey, ValorRow>, CreateError>)
    ensures d.campo.None? ==> r == Ok(valores)
    ensures d.campo.Some? ==>
      var k := ValorKey(id, d.campo.value);
      var row := Merge(if k in valores then Some(valores[k]) else None, d);
      if ValorUnicoTipo(row) then r == Ok(valores[k := row]) else r == Err(IntegrityError(d.campo.value))
  {
    match d.campo
    case None => Ok(valores)
    case Some(c) =>
      var k := ValorKey(id, c);
      var row := Merge(if k in valores then Some(valores[k]) else None, d);
      if ValorUnicoTipo(row) then Ok(valores[k := row]) else Err(IntegrityError(c))
  }

  /** The value loop: each value written in turn; a refused row stops the loop, earlier writes stay. */
  function ApplyValores(valores: map<ValorKey, ValorRow>, id: nat, ds: seq<ValorData>): (r: (map<ValorKey, ValorRow>, Option<CreateError>))
    decreases |ds|
  {
    if ds == [] then (valores, None)
    else
      match UpsertValor(valores, id, ds[0])
      case Err(e) => (valores, Some(e))
      case Ok(v') => ApplyValores(v', id, ds[1..])
  }

  /** The whole `create`: the tables after it, and the measurement id or the error it raised. */
  function CreateSpec(t: Tables, req: CreateRequest): (r: (Tables, Result<nat, CreateError>))
  {
    var (t1, id) := GetOrCreate(t, req);
    var (vs, err) := ApplyValores(t1.valores, id, req.valores);
    (t1.(valores := vs), if err.Some? then Err(err.value) else Ok(id))
  }

  class MedicionStore {
    var mediciones: map<MedicionKey, MedicionRecord>
    var valores: map<ValorKey, ValorRow>
    var nextId: nat

    function Snapshot(): Tables
      reads this
    {
      Tables(mediciones, valores, nextId)
    }

    ghost predicate Valid()
      reads this
    {
      TablesValid(Snapshot())
    }

    constructor ()
      ensures Valid() && mediciones == map[] && valores == map[]
    {
      mediciones := map[];
      valores := map[];
      nextId := 1;
    }

    /** `MedicionCreateSerializer.create` on data its nested serializers accepted. */
    method Create(req: CreateRequest) returns (r: Result<nat, CreateError>)
      requires Valid()
      requires forall i :: 0 <= i < |req.valores| ==> Validate(req.valores[i]).Ok?
      modifies this
      ensures Valid()
      ensures (Snapshot(), r) == CreateSpec(old(Snapshot()), req)
    {
      var id := GetOrCreateMedicion(req);
      var err := WriteValores(id, req.key, req.valores);
      r := if err.Some? then Err(err.value) else Ok(id);
    }

    /** `Medicion.objects.get_or_create(...)` and, for an existing row, the observation update. */
    method GetOrCreateMedicion(req: CreateRequest) returns (id: nat)
      requires Valid()
      modifies this
      ensures Valid() && req.key in mediciones && mediciones[req.key].id == id
      ensures (Snapshot(), id) == GetOrCreate(old(Snapshot()), req)
    {
      GetOrCreateValid(Snapshot(), req);
      ghost var expected := GetOrCreate(Snapshot(), req);
      if req.key in mediciones {
        var rec := mediciones[req.key];
        id := rec.id;
        if req.observacion.Given? {
          mediciones := mediciones[req.key := rec.(observacion := req.observacion.value)];
        }
      } else {
        id := nextId;
        mediciones := mediciones[req.key := MedicionRecord(id, if req.observacion.Given? then req.observacion.value else None)];
        nextId := nextId + 1;
      }
      assert Snapshot() == expected.0;
    }

    /** The loop of `update_or_create` calls over the nested values of measurement `id`. */
    method WriteValores(id: nat, ghost key: MedicionKey, ds: seq<ValorData>) returns (err: Option<CreateError>)
      requires Valid() && key in mediciones && mediciones[key].id == id
      modifies this
      ensures Valid() && mediciones == old(mediciones) && nextId == old(nextId)
      ensures (valores, err) == ApplyValores(old(valores), id, ds)
    {
      var i := 0;
      while i < |ds|
        invariant 0 <= i <= |ds|
        invariant Valid() && mediciones == old(mediciones) && nextId == old(nextId)
        invariant ApplyValores(valores, id, ds[i..]) == ApplyValores(old(valores), id, ds)
        decreases |ds| - i
      {
        ApplyValoresStep(valores, id, ds, i);
        var d := ds[i];
        if d.campo.Some? {
          var k := ValorKey(id, d.campo.value);
          var row := Merge(if k in valores then Some(valores[k]) else None, d);
          if !ValorUnicoTipo(row) {
            return Some(IntegrityError(d.campo.value));
          }
          ghost var t := Snapshot();
          RowKeepsValid(t, key, k, row);
          valores := valores[k := row];
          assert Snapshot() == t.(valores := t.valores[k := row]);
        }
        i := i + 1;
      }
      return None;
    }
  }

  /**
   * One value write touches only its own row: it is refused exactly when the
   * merged row breaks the check constraint, and otherwise adds or replaces
   * that row and keeps every other row.
   */
  lemma UpsertValorFrame(valores: map<ValorKey, ValorRow>, id: nat, d: ValorData, c: nat)
    requires d.campo == Some(c)
    ensures var k := ValorKey(id, c);
      var r := UpsertValor(valores, id, d);
      (r.Err? <==> !ValorUnicoTipo(Merge(if k in valores then Some(valores[k]) else None, d))) &&
      (r.Ok? ==> r.value.Keys == valores.Keys + {k} && ValorUnicoTipo(r.value[k]) &&
                 forall k' :: k' in valores && k' != k ==> r.value[k'] == valores[k'])
  {
  }

  /** Adding or replacing one row that meets the check constraint, under an existing measurement, keeps the tables valid. */
  lemma RowKeepsValid(t: Tables, key: MedicionKey, k: ValorKey, row: ValorRow)
    requires TablesValid(t) && key in t.mediciones && k.medicion == t.mediciones[key].id
    requires ValorUnicoTipo(row)
    ensures TablesValid(t.(valores := t.valores[k := row]))
  {
  }

  /** Unfolds one step of the value loop at position `i`. */
  lemma ApplyValoresStep(valores: map<ValorKey, ValorRow>, id: nat, ds: seq<ValorData>, i: nat)
    requires i < |ds|
    ensures ApplyValores(valores, id, ds[i..]) ==
      match UpsertValor(valores, id, ds[i])
      case Err(e) => (valores, Some(e))
      case Ok(v') => ApplyValores(v', id, ds[i + 1..])
  {
    assert ds[i..][1..] == ds[i + 1..];
  }

  /** One accepted value write keeps the tables valid. */
  lemma UpsertKeepsValid(t: Tables, key: MedicionKey, d: ValorData)
    requires TablesValid(t) && key in t.mediciones
    requires UpsertValor(t.valores, t.mediciones[key].id, d).Ok?
    ensures TablesValid(t.(valores := UpsertValor(t.valores, t.mediciones[key].id, d).value))
  {
  }

  // ---- properties of the create --------------------------------------------

  /** The create keeps the tables valid: in particular at most one measurement per (formulario, parametro, tomada_en). */
  lemma CreateKeepsValid(t: Tables, req: CreateRequest)
    requires TablesValid(t)
    ensures TablesValid(CreateSpec(t, req).0)
  {
    var (t1, id) := GetOrCreate(t, req);
    GetOrCreateValid(t, req);
    ApplyValoresValid(t1, id, req.key, req.valores);
  }

  lemma GetOrCreateValid(t: Tables, req: CreateRequest)
    requires TablesValid(t)
    ensures var (t1, id) := GetOrCreate(t, req);
      TablesValid(t1) && req.key in t1.mediciones && t1.mediciones[req.key].id == id
  {
    if req.key in t.mediciones {
      var rec := t.mediciones[req.key];
      var rec' := if req.observacion.Given? then rec.(observacion := req.observacion.value) else rec;
      RecordKeepsValid(t, req.key, rec', t.nextId);
    } else {
      RecordKeepsValid(t, req.key, MedicionRecord(t.nextId, if req.observacion.Given? then req.observacion.value else None), t.nextId + 1);
    }
  }

  /** Storing `rec` under `key` keeps the tables valid when it reuses that key's id or takes the next fresh one. */
  lemma RecordKeepsValid(t: Tables, key: MedicionKey, rec: MedicionRecord, next: nat)
    requires TablesValid(t)
    requires (key in t.mediciones && rec.id == t.mediciones[key].id && next == t.nextId) ||
             (key !in t.mediciones && rec.id == t.nextId && next == t.nextId + 1)
    ensures TablesValid(Tables(t.mediciones[key := rec], t.valores, next))
  {
    var t1 := Tables(t.mediciones[key := rec], t.valores, next);
    forall v | v in t1.valores ensures exists k :: k in t1.mediciones && t1.mediciones[k].id == v.medicion {
      var k :| k in t.mediciones && t.mediciones[k].id == v.medicion;
      assert k in t1.mediciones && t1.mediciones[k].id == v.medicion;
    }
  }

  lemma {:induction false} ApplyValoresValid(t: Tables, id: nat, key: MedicionKey, ds: seq<ValorData>)
    requires TablesValid(t) && key in t.mediciones && t.mediciones[key].id == id
    ensures TablesValid(t.(valores := ApplyValores(t.valores, id, ds).0))
    decreases |ds|
  {
    if ds != [] {
      match UpsertValor(t.valores, id, ds[0])
      case Err(_) =>
      case Ok(v') =>
        UpsertKeepsValid(t, key, ds[0]);
        ApplyValoresValid(t.(valores := v'), id, key, ds[1..]);
    }
  }

  /** An existing measurement is reused: no new row, and the id returned is the stored one. */
  lemma CreateReusesExisting(t: Tables, req: CreateRequest)
    requires req.key in t.mediciones
    ensures CreateSpec(t, req).0.nextId == t.nextId
    ensures CreateSpec(t, req).0.mediciones.Keys == t.mediciones.Keys
    ensures CreateSpec(t, req).1.Ok? ==> CreateSpec(t, req).1.value == t.mediciones[req.key].id
  {
  }

  /** On an existing measurement only the observation may change, and only when the request gives one. */
  lemma CreateTouchesOnlyObservation(t: Tables, req: CreateRequest)
    requires req.key in t.mediciones
    ensures var m := CreateSpec(t, req).0.mediciones;
      && (forall k :: k in t.mediciones && k != req.key ==> m[k] == t.mediciones[k])
      && m[req.key].id == t.mediciones[req.key].id
      && m[req.key].observacion == (if req.observacion.Given? then req.observacion.value else t.mediciones[req.key].observacion)
  {
  }

  /** A new measurement takes the next id and the given observation (null when left out). */
  lemma CreateInsertsNew(t: Tables, req: CreateRequest)
    requires req.key !in t.mediciones
    ensures var t' := CreateSpec(t, req).0;
      && t'.mediciones == t.mediciones[req.key := MedicionRecord(t.nextId, if req.observacion.Given? then req.observacion.value else None)]
      && t'.nextId == t.nextId + 1
  {
  }

  /** Values without a campo are skipped: dropping them changes nothing. */
  lemma {:induction false} SkipWithoutCampo(valores: map<ValorKey, ValorRow>, id: nat, d: ValorData, ds: seq<ValorData>)
    requires d.campo.None?
    ensures ApplyValores(valores, id, [d] + ds) == ApplyValores(valores, id, ds)
  {
    assert ([d] + ds)[1..] == ds;
  }

  /** The given fields of a value: those `update_or_create` writes. */
  predicate GivenWithin(a: ValorData, b: ValorData) {
    && (a.number.Given? ==> b.number.Given?)
    && (a.text.Given? ==> b.text.Given?)
    && (a.boolean.Given? ==> b.boolean.Given?)
    && (a.json.Given? ==> b.json.Given?)
  }

  /**
   * A later value for the same campo overwrites an earlier one of the same
   * kind: the earlier one leaves no trace in the row.
   */
  lemma LaterValueOverwrites(valores: map<ValorKey, ValorRow>, id: nat, d1: ValorData, d2: ValorData)
    requires d1.campo.Some? && d2.campo == d1.campo && GivenWithin(d1, d2)
    requires UpsertValor(valores, id, d1).Ok?
    ensures var k := ValorKey(id, d1.campo.value);
      UpsertValor(UpsertValor(valores, id, d1).value, id, d2) == UpsertValor(valores, id, d2)
  {
    var k := ValorKey(id, d1.campo.value);
    var v1 := UpsertValor(valores, id, d1).value;
    assert Merge(Some(v1[k]), d2) == Merge(if k in valores then Some(valores[k]) else None, d2);
    assert v1[k := Merge(Some(v1[k]), d2)] == valores[k := Merge(Some(v1[k]), d2)];
  }

  predicate DistinctCampos(ds: seq<ValorData>) {
    forall i, j :: 0 <= i < j < |ds| && ds[i].campo.Some? ==> ds[i].campo != ds[j].campo
  }

  /** Writing a value twice is writing it once. */
  lemma MergeIdempotent(row: Option<ValorRow>, d: ValorData)
    ensures Merge(Some(Merge(row, d)), d) == Merge(row, d)
  {
  }

  /** Re-applying values whose campos are distinct to the state they produced changes nothing. */
  lemma {:induction false} ApplyValoresIdempotent(valores: map<ValorKey, ValorRow>, id: nat, ds: seq<ValorData>)
    requires DistinctCampos(ds)
    ensures var (v1, e1) := ApplyValores(valores, id, ds);
      ApplyValores(v1, id, ds) == (v1, e1)
    decreases |ds|
  {
    if ds != [] {
      var d := ds[0];
      var rest := ds[1..];
      assert DistinctCampos(rest) by {
        forall i, j | 0 <= i < j < |rest| && rest[i].campo.Some? ensures rest[i].campo != rest[j].campo {
          assert rest[i] == ds[i + 1] && rest[j] == ds[j + 1];
        }
      }
      match UpsertValor(valores, id, d)
      case Err(e) =>
        // the state is unchanged, so the same value fails again
      case Ok(v') =>
        var (v1, e1) := ApplyValores(v', id, rest);
        ApplyValoresIdempotent(v', id, rest);
        if d.campo.Some? {
          var k := ValorKey(id, d.campo.value);
          UntouchedKey(v', id, rest, k);
          assert v1[k] == v'[k];
          MergeIdempotent(if k in valores then Some(valores[k]) else None, d);
          assert k in v1 && v1[k := v1[k]] == v1;
          assert UpsertValor(v1, id, d) == Ok(v1);
        }
    }
  }

  /** A campo that none of the values names keeps its row. */
  lemma {:induction false} UntouchedKey(valores: map<ValorKey, ValorRow>, id: nat, ds: seq<ValorData>, k: ValorKey)
    requires k.medicion == id && forall i :: 0 <= i < |ds| ==> ds[i].campo != Some(k.campo)
    ensures k in valores ==> k in ApplyValores(valores, id, ds).0 && ApplyValores(valores, id, ds).0[k] == valores[k]
    ensures k !in valores ==> k !in ApplyValores(valores, id, ds).0
    decreases |ds|
  {
    if ds != [] {
      match UpsertValor(valores, id, ds[0])
      case Err(_) =>
      case Ok(v') =>
        UntouchedKey(v', id, ds[1..], k);
    }
  }

  /** Replaying the same create request, with distinct campos, leaves the tables as the first one left them. */
  lemma CreateIdempotent(t: Tables, req: CreateRequest)
    requires DistinctCampos(req.valores)
    ensures CreateSpec(CreateSpec(t, req).0, req) == CreateSpec(t, req)
  {
    var (t1, id) := GetOrCreate(t, req);
    var (vs, err) := ApplyValores(t1.valores, id, req.valores);
    var t2 := t1.(valores := vs);
    var (t3, id') := GetOrCreate(t2, req);
    assert id' == id && t3 == t2;
    ApplyValoresIdempotent(t1.valores, id, req.valores);
  }

  /**
   * Without distinct campos a replay is not idempotent. On empty tables, text
   * "x" and then number 1 with text null, both for campo 3, succeed and leave
   * a number row. On the replay the text lands on that number row, and the
   * row breaks `valor_unico_tipo`.
   */
  lemma RepeatedCampoNotIdempotent(key: MedicionKey)
    ensures var d1 := ValorData(Some(3), Absent, Given(Some("x")), Absent, Absent);
      var d2 := ValorData(Some(3), Given(Some(Decimal(1_000_000))), Given(None), Absent, Absent);
      var req := CreateRequest(key, Absent, [d1, d2]);
      var first := CreateSpec(Tables(map[], map[], 0), req);
      && Validate(d1).Ok? && Validate(d2).Ok? && !DistinctCampos(req.valores)
      && first.1 == Ok(0)
      && CreateSpec(first.0, req).1 == Err(IntegrityError(3))
  {
    var d1 := ValorData(Some(3), Absent, Given(Some("x")), Absent, Absent);
    var d2 := ValorData(Some(3), Given(Some(Decimal(1_000_000))), Given(None), Absent, Absent);
    var k := ValorKey(0, 3);
    var textRow := Merge(None, d1);
    var numberRow := Merge(Some(textRow), d2);
    assert ValorUnicoTipo(textRow) && ValorUnicoTipo(numberRow);
    assert [d1, d2][1..] == [d2] && [d2][1..] == [];
    var v0: map<ValorKey, ValorRow> := map[k := textRow];
    var v1 := map[k := numberRow];
    assert UpsertValor(map[], 0, d1) == Ok(v0);
    assert v0[k := numberRow] == v1;
    assert UpsertValor(v0, 0, d2) == Ok(v1);
    assert ApplyValores(v1, 0, []) == (v1, None);
    assert ApplyValores(v0, 0, [d2]) == (v1, None);
    assert ApplyValores(map[], 0, [d1, d2]) == (v1, None);
    var clash := Merge(Some(numberRow), d1);
    assert clash.number.Some? && clash.text.Some?;
    assert !ValorUnicoTipo(clash);
    assert ApplyValores(v1, 0, [d1, d2]) == (v1, Some(IntegrityError(3)));
  }
}
