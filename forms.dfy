/**
 * The form helpers of the browser script: the age shown for a birth date,
 * today's date as `YYYY-MM-DD`, the required-field checks and JSON bodies of
 * the patient and form saves, and the notice a failed form save shows.
 * Input fields are given as their text values; a field missing from the
 * page reads as the empty text, which every check treats the same way.
 */
module Forms {
  import opened Wrappers
  import opened Text
  import opened Json
  import opened Models
  import opened Serializers

  // ---- age ----------------------------------------------------------------------

  /** `a` falls on or before `b` in calendar order. */
  predicate OnOrBefore(a: Date, b: Date) {
    a.year < b.year || (a.year == b.year && (a.month < b.month || (a.month == b.month && a.day <= b.day)))
  }

  /** The `n`-th birthday has come by `today`. */
  predicate BirthdayReached(today: Date, birth: Date, n: int) {
    OnOrBefore(Date(birth.year + n, birth.month, birth.day), today)
  }

  /**
   * `calcularEdad`: the year difference, one less when today's (month, day)
   * comes before the birth's. That is the number of birthdays reached.
   */
  function Age(today: Date, birth: Date): (r: int)
    ensures BirthdayReached(today, birth, r) && !BirthdayReached(today, birth, r + 1)
  {
    var edad := today.year - birth.year;
    var mes := today.month - birth.month;
    if mes < 0 || (mes == 0 && today.day < birth.day) then edad - 1 else edad
  }

  /** Born 2000-06-15: 23 on 2024-06-14, 24 on 2024-06-15. */
  lemma AgeExamples()
    ensures Age(Date(2024, 6, 14), Date(2000, 6, 15)) == 23
    ensures Age(Date(2024, 6, 15), Date(2000, 6, 15)) == 24
  {
  }

  /** The age does not go down as days go by. */
  lemma AgeMonotone(d1: Date, d2: Date, birth: Date)
    requires OnOrBefore(d1, d2)
    ensures Age(d1, birth) <= Age(d2, birth)
  {
  }

  // ---- today's date -------------------------------------------------------------

  /**
   * `obtenerFechaLocalColombia`: the year, then month and day padded to two
   * digits (`TwoDigitsIsPadded`), joined by `-`.
   */
  function FormatLocalDate(d: Date): (r: string)
    requires 1 <= d.month <= 12 && 1 <= d.day <= 31
    ensures |r| == |IntToString(d.year)| + 6
  {
    IntToString(d.year) + "-" + TwoDigits(d.month) + "-" + TwoDigits(d.day)
  }

  /** A non-empty run of decimal digits. */
  predicate IsNumeral(s: string) {
    s != "" && AllDigits(s)
  }

  /** Reading a `Y-MM-DD` text back as a date. */
  function ParseDate(s: string): (r: Option<Date>)
    ensures r.Some? ==> r.value.year >= 0 && r.value.month >= 0 && r.value.day >= 0
  {
    var parts := SplitOn(s, "-");
    if |parts| == 3 && IsNumeral(parts[0]) && IsNumeral(parts[1]) && IsNumeral(parts[2]) then
      Some(Date(DigitsValue(parts[0]), DigitsValue(parts[1]), DigitsValue(parts[2])))
    else None
  }

  lemma DateTextIsJoin(d: Date)
    requires d.year >= 0 && 1 <= d.month <= 12 && 1 <= d.day <= 31
    ensures FormatLocalDate(d) == Join([NatToString(d.year), TwoDigits(d.month), TwoDigits(d.day)], "-")
  {
    var parts := [NatToString(d.year), TwoDigits(d.month), TwoDigits(d.day)];
    assert parts[1..][1..] == [parts[2]];
    assert Join(parts[1..], "-") == parts[1] + "-" + parts[2];
  }

  /** A date of a non-negative year reads back from its text. */
  lemma FormatLocalDateRoundTrip(d: Date)
    requires d.year >= 0 && 1 <= d.month <= 12 && 1 <= d.day <= 31
    ensures ParseDate(FormatLocalDate(d)) == Some(d)
  {
    var parts := [NatToString(d.year), TwoDigits(d.month), TwoDigits(d.day)];
    DateTextIsJoin(d);
    assert IsNumeral(parts[0]) && IsNumeral(parts[1]) && IsNumeral(parts[2]);
    forall i | 0 <= i < 3 ensures '-' !in parts[i] {
      assert AllDigits(parts[i]);
    }
    SplitOnJoin(parts, "-");
    DigitsValueOfNatToString(d.year);
    TwoDigitsValue(d.month);
    TwoDigitsValue(d.day);
  }

  // ---- the patient save -----------------------------------------------------------

  /** The patient inputs: clinical-history number, identification, names, blood type, birth date. */
  datatype PatientInputs = PatientInputs(
    numHistoriaClinica: string,
    numIdentificacion: string,
    nombres: string,
    tipoSangre: string,
    fechaNacimiento: string)

  /** `value || null`. */
  function TextOrNull(s: string): (r: Json)
    ensures r == JNull <==> s == ""
  {
    if s == "" then JNull else JString(s)
  }

  /** The labels of the empty fields among `(text, label)` pairs, in order. */
  function EmptyLabels(fields: seq<(string, string)>): (r: seq<string>)
    ensures r == [] <==> forall i :: 0 <= i < |fields| ==> fields[i].0 != ""
    ensures forall j :: 0 <= j < |r| ==> exists i :: 0 <= i < |fields| && fields[i].0 == "" && r[j] == fields[i].1
  {
    if fields == [] then []
    else
      var rest := EmptyLabels(fields[1..]);
      assert forall j :: 0 <= j < |rest| ==> exists i :: 0 <= i < |fields| && fields[i].0 == "" && rest[j] == fields[i].1 by {
        forall j | 0 <= j < |rest| ensures exists i :: 0 <= i < |fields| && fields[i].0 == "" && rest[j] == fields[i].1 {
          var i :| 0 <= i < |fields[1..]| && fields[1..][i].0 == "" && rest[j] == fields[1..][i].1;
          assert fields[i + 1] == fields[1..][i];
        }
      }
      (if fields[0].0 == "" then [fields[0].1] else []) + rest
  }

  const HistoriaLabel: string := "N\U{B0} Historia Cl\U{ED}nica"
  const IdentificacionLabel: string := "Identificaci\U{F3}n"
  const NombreLabel: string := "Nombre"

  function PatientChecks(p: PatientInputs): seq<(string, string)> {
    [(p.numHistoriaClinica, HistoriaLabel), (p.numIdentificacion, IdentificacionLabel), (p.nombres, NombreLabel)]
  }

  /** The body `guardarPaciente` sends. */
  function PatientBody(p: PatientInputs): map<string, Json> {
    map[
      "num_historia_clinica" := JString(p.numHistoriaClinica),
      "num_identificacion" := JString(p.numIdentificacion),
      "nombres" := JString(p.nombres),
      "tipo_sangre" := TextOrNull(p.tipoSangre),
      "fecha_nacimiento" := TextOrNull(p.fechaNacimiento)]
  }

  const PatientMissingPrefix: string := "Campos de paciente requeridos faltantes: "

  /**
   * The check and body of `guardarPaciente`: an error naming the empty
   * required fields, or the body to send.
   */
  function PatientPayload(p: PatientInputs): (r: Result<map<string, Json>, string>)
    ensures r.Ok? ==> r.value == PatientBody(p)
    ensures r.Err? ==> r.error == PatientMissingPrefix + Join(EmptyLabels(PatientChecks(p)), ", ")
  {
    var missing := EmptyLabels(PatientChecks(p));
    if missing != [] then Err(PatientMissingPrefix + Join(missing, ", "))
    else Ok(PatientBody(p))
  }

  /** The browser refuses a patient exactly when a required field is empty. */
  lemma PatientRefusedIff(p: PatientInputs)
    ensures PatientPayload(p).Err? <==>
      (p.numHistoriaClinica == "" || p.numIdentificacion == "" || p.nombres == "")
  {
    var fields := PatientChecks(p);
    assert fields[0].0 == p.numHistoriaClinica && fields[1].0 == p.numIdentificacion && fields[2].0 == p.nombres;
  }

  /** The backend finds a required field of the body missing exactly when its text is blank. */
  lemma PatientBodyMissing(p: PatientInputs)
    ensures Missing(PatientBody(p), "num_historia_clinica") <==> Trim(p.numHistoriaClinica) == ""
    ensures Missing(PatientBody(p), "num_identificacion") <==> Trim(p.numIdentificacion) == ""
    ensures Missing(PatientBody(p), "nombres") <==> Trim(p.nombres) == ""
  {
    var body := PatientBody(p);
    assert body["num_historia_clinica"] == JString(p.numHistoriaClinica);
    assert body["num_identificacion"] == JString(p.numIdentificacion);
    assert body["nombres"] == JString(p.nombres);
  }

  /**
   * Everything the browser refuses the backend refuses too; a body it lets
   * through is refused by the backend only for a required text made of
   * blanks alone.
   */
  lemma PatientCheckAgreesWithBackend(p: PatientInputs)
    ensures PatientPayload(p).Err? ==> MissingRequired(PatientBody(p), PacienteRequired) != []
    ensures PatientPayload(p).Ok? ==>
      (MissingRequired(PatientBody(p), PacienteRequired) == [] <==>
        (Trim(p.numHistoriaClinica) != "" && Trim(p.numIdentificacion) != "" && Trim(p.nombres) != ""))
  {
    PatientRefusedIff(p);
    PatientBodyMissing(p);
    assert Trim("") == "";
    var missing := MissingRequired(PatientBody(p), PacienteRequired);
    assert "num_historia_clinica" in PacienteRequired && "num_identificacion" in PacienteRequired && "nombres" in PacienteRequired;
    if missing != [] {
      assert missing[0] in missing;
    }
  }

  /** A name made of blanks alone passes the browser's check and is the one field the backend refuses. */
  lemma BlankNameSlipsPastBrowser(p: PatientInputs)
    requires Trim(p.numHistoriaClinica) != "" && Trim(p.numIdentificacion) != ""
    requires p.nombres != "" && Trim(p.nombres) == ""
    ensures PatientPayload(p).Ok?
    ensures MissingRequired(PatientBody(p), PacienteRequired) == ["nombres"]
  {
    assert Trim("") == "";
    PatientRefusedIff(p);
    PatientBodyMissing(p);
    OnlyLastMissing(PatientBody(p), "num_historia_clinica", "num_identificacion", "nombres");
  }

  lemma OnlyLastMissing(data: map<string, Json>, a: string, b: string, c: string)
    requires !Missing(data, a) && !Missing(data, b) && Missing(data, c)
    ensures MissingRequired(data, [a, b, c]) == [c]
  {
    var req := [a, b, c];
    assert req[1..] == [b, c] && req[1..][1..] == [c] && req[1..][1..][1..] == [];
  }

  /** One blank is such a name. */
  lemma SingleBlankIsBlank()
    ensures Trim(" ") == ""
  {
    assert TrimStart(" ") == "";
  }

  /** The character `c` appears in no part and not in the separator, so not in the joined text. */
  lemma {:induction false} JoinAvoids(parts: seq<string>, sep: string, c: char)
    requires c !in sep && forall i :: 0 <= i < |parts| ==> c !in parts[i]
    ensures c !in Join(parts, sep)
    decreases |parts|
  {
    if |parts| > 1 {
      JoinAvoids(parts[1..], sep, c);
    }
  }

  /** In the prefix of the patient error, the only `q` is the one of "requeridos". */
  lemma PrefixHasOneQ()
    ensures forall k :: 0 <= k < |PatientMissingPrefix| && PatientMissingPrefix[k] == 'q' ==> k == 21
    ensures PatientMissingPrefix[12] == 'c'
  {
  }

  /** No label of a patient field contains a `q`. */
  lemma PatientLabelsHaveNoQ(p: PatientInputs)
    ensures forall j :: 0 <= j < |EmptyLabels(PatientChecks(p))| ==> 'q' !in EmptyLabels(PatientChecks(p))[j]
  {
    var fields := PatientChecks(p);
    forall i | 0 <= i < 3 ensures 'q' !in fields[i].1 {
    }
  }

  /**
   * The patient check's error reads "Campos de paciente requeridos ...",
   * which never contains "Campos requeridos": whichever patient field is
   * missing, the form save shows the generic notice, not the request to
   * complete the required fields.
   */
  lemma PatientMissingShowsGeneric(p: PatientInputs)
    requires PatientPayload(p).Err?
    ensures FormErrorNotice(PatientPayload(p).error) == "Error al guardar formulario"
  {
    var labels := EmptyLabels(PatientChecks(p));
    PatientLabelsHaveNoQ(p);
    JoinAvoids(labels, ", ", 'q');
    PrefixThenNoQ(Join(labels, ", "));
  }

  /** After the patient prefix, a text without `q` cannot complete "Campos requeridos". */
  lemma PrefixThenNoQ(tail: string)
    requires 'q' !in tail
    ensures !Contains(PatientMissingPrefix + tail, "Campos requeridos")
  {
    var m := PatientMissingPrefix + tail;
    forall i ensures !OccursAt(m, "Campos requeridos", i) {
      NotRequestAt(tail, i);
    }
    ContainsIff(m, "Campos requeridos");
  }

  lemma NotRequestAt(tail: string, i: int)
    requires 'q' !in tail
    ensures !OccursAt(PatientMissingPrefix + tail, "Campos requeridos", i)
  {
    var pre := PatientMissingPrefix;
    var m := pre + tail;
    var sub := "Campos requeridos";
    if 0 <= i && i + |sub| <= |m| {
      PrefixHasOneQ();
      assert m[i..i + |sub|][9] == m[i + 9] && m[i..i + |sub|][0] == m[i];
      if i + 9 < |pre| {
        assert m[i + 9] == pre[i + 9];
        assert m[i + 9] != 'q' || (i == 12 && m[i] == 'c');
      } else {
        assert m[i + 9] == tail[i + 9 - |pre|];
      }
    }
  }

  // ---- the form save --------------------------------------------------------------

  /** The text inputs of the form header. */
  datatype FormInputs = FormInputs(
    codigo: string,
    version: string,
    fechaElabora: string,
    numHoja: string,
    estado: string,
    diagnostico: string,
    edadSnapshot: string,
    edadGestion: string,
    nControles: string,
    responsable: string,
    aseguradora: string)

  const DefaultCodigo: string := "FRSPA-022"

  /** `parseInt(text)` as `JSON.stringify` sends it: `NaN` goes out as `null`. */
  function IntOrNull(s: string): (r: Json)
    ensures r.JNull? <==> ParseInt(s).None?
  {
    match ParseInt(s)
    case None => JNull
    case Some(n) => JNum(n)
  }

  /** `value ? parseInt(value) : null`. */
  function OptionalInt(s: string): (r: Json)
    ensures s == "" ==> r == JNull
  {
    if s == "" then JNull else IntOrNull(s)
  }

  function FormChecks(f: FormInputs): seq<(string, string)> {
    [(f.version, "Versi\U{F3}n"), (f.estado, "Estado"), (f.responsable, "Responsable")]
  }

  /** The body `guardarFormulario` sends, with `today` standing for the browser's clock. */
  function FormBody(f: FormInputs, pacienteId: string, today: Date): map<string, Json>
    requires 1 <= today.month <= 12 && 1 <= today.day <= 31
  {
    OptionalFields(f) + RequiredFields(
      if f.codigo != "" then f.codigo else DefaultCodigo,
      f.version,
      if f.fechaElabora != "" then f.fechaElabora else FormatLocalDate(today),
      IntOrNull(if f.numHoja != "" then f.numHoja else "1"),
      pacienteId, f.estado, f.responsable)
  }

  /** The body's nullable fields. */
  function OptionalFields(f: FormInputs): map<string, Json> {
    map[
      "aseguradora" := TextOrNull(f.aseguradora),
      "diagnostico" := TextOrNull(f.diagnostico),
      "edad_snapshot" := OptionalInt(f.edadSnapshot),
      "edad_gestion" := OptionalInt(f.edadGestion),
      "n_controles_prenatales" := OptionalInt(f.nControles)]
  }

  /** The body's fields that the form serializer requires. */
  function RequiredFields(codigo: string, version: string, fecha: string, numHoja: Json,
                          paciente: string, estado: string, responsable: string): map<string, Json>
  {
    map[
      "codigo" := JString(codigo),
      "version" := JString(version),
      "fecha_elabora" := JString(fecha),
      "num_hoja" := numHoja,
      "paciente" := JString(paciente),
      "estado" := JString(estado),
      "responsable" := JString(responsable)]
  }

  /**
   * The part of `guardarFormulario` after the patient save: no patient id
   * stops with a notice; an empty version, state or responsible throws an
   * error naming them; otherwise the body to send.
   */
  datatype FormStep = Send(body: map<string, Json>) | Notice(text: string) | Thrown(message: string)

  function FormPayload(f: FormInputs, pacienteId: string, today: Date): (r: FormStep)
    requires 1 <= today.month <= 12 && 1 <= today.day <= 31
    ensures r.Send? ==> r.body == FormBody(f, pacienteId, today)
  {
    if pacienteId == "" then Notice("Complete los campos del paciente")
    else
      var missing := EmptyLabels(FormChecks(f));
      if missing != [] then Thrown("Campos requeridos faltantes: " + Join(missing, ", "))
      else Send(FormBody(f, pacienteId, today))
  }

  /**
   * A body the browser sends carries every field the backend requires, each
   * non-null except a `num_hoja` text that does not parse; the code falls
   * back to FRSPA-022, the date to today, the sheet number to 1.
   */
  lemma FormPayloadFillsRequired(f: FormInputs, pacienteId: string, today: Date)
    requires 1 <= today.month <= 12 && 1 <= today.day <= 31
    requires FormPayload(f, pacienteId, today).Send?
    ensures var body := FormPayload(f, pacienteId, today).body;
      && (forall k :: k in FormularioRequired ==> k in body)
      && (forall k :: k in FormularioRequired && k != "num_hoja" ==> body[k].JString? && body[k].s != "")
      && (f.codigo == "" ==> body["codigo"] == JString(DefaultCodigo))
      && (f.fechaElabora == "" ==> body["fecha_elabora"] == JString(FormatLocalDate(today)))
  {
    var codigo := if f.codigo != "" then f.codigo else DefaultCodigo;
    var fecha := if f.fechaElabora != "" then f.fechaElabora else FormatLocalDate(today);
    var numHoja := IntOrNull(if f.numHoja != "" then f.numHoja else "1");
    var r := RequiredFields(codigo, f.version, fecha, numHoja, pacienteId, f.estado, f.responsable);
    FormPayloadSent(f, pacienteId, today);
    RequiredFieldsFilled(codigo, f.version, fecha, numHoja, pacienteId, f.estado, f.responsable);
    RequiredLookups(codigo, f.version, fecha, numHoja, pacienteId, f.estado, f.responsable);
    assert FormPayload(f, pacienteId, today).body == OptionalFields(f) + r;
  }

  /** With every text non-empty, each field the backend requires is present and, except the sheet number, a non-empty text. */
  lemma RequiredFieldsFilled(codigo: string, version: string, fecha: string, numHoja: Json,
                             paciente: string, estado: string, responsable: string)
    requires codigo != "" && version != "" && fecha != "" && paciente != "" && estado != "" && responsable != ""
    ensures var body := RequiredFields(codigo, version, fecha, numHoja, paciente, estado, responsable);
      && (forall k :: k in FormularioRequired ==> k in body)
      && (forall k :: k in FormularioRequired && k != "num_hoja" ==> body[k].JString? && body[k].s != "")
  {
    forall k | k in FormularioRequired
      ensures k == "codigo" || k == "version" || k == "fecha_elabora" || k == "num_hoja"
        || k == "paciente" || k == "estado" || k == "responsable"
    {
    }
  }

  /** A body is sent only with a patient id and a version, state and responsible. */
  lemma FormPayloadSent(f: FormInputs, pacienteId: string, today: Date)
    requires 1 <= today.month <= 12 && 1 <= today.day <= 31
    ensures FormPayload(f, pacienteId, today).Send? <==>
      pacienteId != "" && f.version != "" && f.estado != "" && f.responsable != ""
  {
    var checks := FormChecks(f);
    assert checks[0].0 == f.version && checks[1].0 == f.estado && checks[2].0 == f.responsable;
    assert EmptyLabels(checks) == [] <==> forall i :: 0 <= i < 3 ==> checks[i].0 != "";
  }

  /** The sheet number: 1 when left empty, `null` when the text does not parse. */
  lemma FormPayloadSheetNumber(f: FormInputs, pacienteId: string, today: Date)
    requires 1 <= today.month <= 12 && 1 <= today.day <= 31
    requires FormPayload(f, pacienteId, today).Send?
    ensures var body := FormPayload(f, pacienteId, today).body;
      && (f.numHoja == "" ==> body["num_hoja"] == JNum(1))
      && (body["num_hoja"] == JNull <==> f.numHoja != "" && ParseInt(f.numHoja).None?)
  {
    FormBodyLookups(f, pacienteId, today);
    assert IntToString(1) == "1";
    ParseIntOfIntToString(1);
  }

  /** The values the form body holds under the fields the backend requires. */
  lemma FormBodyLookups(f: FormInputs, pacienteId: string, today: Date)
    requires 1 <= today.month <= 12 && 1 <= today.day <= 31
    requires FormPayload(f, pacienteId, today).Send?
    ensures var body := FormPayload(f, pacienteId, today).body;
      && pacienteId != ""
      && body.Keys >= {"codigo", "version", "fecha_elabora", "num_hoja", "paciente", "estado", "responsable"}
      && body["codigo"] == JString(if f.codigo != "" then f.codigo else DefaultCodigo)
      && body["version"] == JString(f.version)
      && body["fecha_elabora"] == JString(if f.fechaElabora != "" then f.fechaElabora else FormatLocalDate(today))
      && body["num_hoja"] == IntOrNull(if f.numHoja != "" then f.numHoja else "1")
      && body["paciente"] == JString(pacienteId)
      && body["estado"] == JString(f.estado)
      && body["responsable"] == JString(f.responsable)
  {
    var codigo := if f.codigo != "" then f.codigo else DefaultCodigo;
    var fecha := if f.fechaElabora != "" then f.fechaElabora else FormatLocalDate(today);
    var numHoja := IntOrNull(if f.numHoja != "" then f.numHoja else "1");
    RequiredLookups(codigo, f.version, fecha, numHoja, pacienteId, f.estado, f.responsable);
    var r := RequiredFields(codigo, f.version, fecha, numHoja, pacienteId, f.estado, f.responsable);
    assert FormBody(f, pacienteId, today) == OptionalFields(f) + r;
  }

  /** Each required field sits under its own key. */
  lemma RequiredLookups(codigo: string, version: string, fecha: string, numHoja: Json,
                        paciente: string, estado: string, responsable: string)
    ensures var body := RequiredFields(codigo, version, fecha, numHoja, paciente, estado, responsable);
      && "codigo" in body && body["codigo"] == JString(codigo)
      && "version" in body && body["version"] == JString(version)
      && "fecha_elabora" in body && body["fecha_elabora"] == JString(fecha)
      && "num_hoja" in body && body["num_hoja"] == numHoja
      && "paciente" in body && body["paciente"] == JString(paciente)
      && "estado" in body && body["estado"] == JString(estado)
      && "responsable" in body && body["responsable"] == JString(responsable)
  {
  }

  /** `guardarFormulario`'s catch: an error about required fields asks to complete them; any other error gets the generic notice. */
  function FormErrorNotice(message: string): (r: string)
    ensures r == "Complete los campos requeridos" || r == "Error al guardar formulario"
    ensures r == "Complete los campos requeridos" <==> Contains(message, "Campos requeridos")
  {
    if Contains(message, "Campos requeridos") then "Complete los campos requeridos" else "Error al guardar formulario"
  }

  /** What the user is shown when the form's own required fields are empty. */
  lemma FormMissingAsksToComplete(f: FormInputs, pacienteId: string, today: Date)
    requires 1 <= today.month <= 12 && 1 <= today.day <= 31
    requires FormPayload(f, pacienteId, today).Thrown?
    ensures FormErrorNotice(FormPayload(f, pacienteId, today).message) == "Complete los campos requeridos"
  {
    var m := FormPayload(f, pacienteId, today).message;
    assert StartsWith(m, "Campos requeridos");
  }
}
