/**
 * The clinical data model: enumerations with their stored codes, the rows of
 * the tables the core touches, their check constraints and uniqueness keys,
 * the item/parametro consistency rule enforced on save, and the `__str__`
 * renderings.
 */
module Models {
  import opened Wrappers
  import opened Text
  import opened Json

  // ---- enumerations --------------------------------------------------------

  /** The lifecycle state of a form, stored as a one-letter code. */
  datatype Estado = G | P | C | A | V | M {
    function Code(): (s: string)
      ensures |s| == 1
    {
      match this
      case G => "g" case P => "p" case C => "c"
      case A => "a" case V => "v" case M => "m"
    }

    /** `get_estado_display()`: each choice's label is its code in upper case. */
    function Label(): (s: string)
      ensures |s| == 1 && 'A' <= s[0] <= 'Z' && s[0] as int == Code()[0] as int - 32
    {
      match this
      case G => "G" case P => "P" case C => "C"
      case A => "A" case V => "V" case M => "M"
    }
  }

  function EstadoFromCode(s: string): (r: Option<Estado>)
    ensures r.Some? ==> r.value.Code() == s
  {
    if s == "g" then Some(G) else if s == "p" then Some(P) else if s == "c" then Some(C)
    else if s == "a" then Some(A) else if s == "v" then Some(V) else if s == "m" then Some(M)
    else None
  }

  /** A stored code names a state exactly when it is one of the six codes. */
  lemma EstadoCodeRoundTrip(e: Estado, s: string)
    ensures EstadoFromCode(e.Code()) == Some(e)
    ensures EstadoFromCode(s).Some? <==> s in {"g", "p", "c", "a", "v", "m"}
  {
  }

  /** The eight ABO/Rh blood groups, stored by their usual notation. */
  datatype TipoSangre = OPos | ONeg | APos | ANeg | BPos | BNeg | ABPos | ABNeg {
    function Code(): (s: string)
      ensures 2 <= |s| <= 3 && (s[|s| - 1] == '+' || s[|s| - 1] == '-')
    {
      match this
      case OPos => "O+" case ONeg => "O-" case APos => "A+" case ANeg => "A-"
      case BPos => "B+" case BNeg => "B-" case ABPos => "AB+" case ABNeg => "AB-"
    }
  }

  function TipoSangreFromCode(s: string): (r: Option<TipoSangre>)
    ensures r.Some? ==> r.value.Code() == s
  {
    if s == "O+" then Some(OPos) else if s == "O-" then Some(ONeg)
    else if s == "A+" then Some(APos) else if s == "A-" then Some(ANeg)
    else if s == "B+" then Some(BPos) else if s == "B-" then Some(BNeg)
    else if s == "AB+" then Some(ABPos) else if s == "AB-" then Some(ABNeg)
    else None
  }

  /** Every blood group survives being stored by its code, and distinct groups have distinct codes. */
  lemma TipoSangreCodeRoundTrip(t: TipoSangre, u: TipoSangre)
    ensures TipoSangreFromCode(t.Code()) == Some(t)
    ensures t.Code() == u.Code() ==> t == u
  {
  }

  /** The payload kind a field of a parametro expects. */
  datatype TipoValor = Number | Text | Boolean | JsonValue {
    function Code(): string {
      match this
      case Number => "number" case Text => "text" case Boolean => "boolean" case JsonValue => "json"
    }
  }

  function TipoValorFromCode(s: string): (r: Option<TipoValor>)
    ensures r.Some? ==> r.value.Code() == s
  {
    if s == "number" then Some(Number) else if s == "text" then Some(Text)
    else if s == "boolean" then Some(Boolean) else if s == "json" then Some(JsonValue)
    else None
  }

  lemma TipoValorCodeRoundTrip(t: TipoValor)
    ensures TipoValorFromCode(t.Code()) == Some(t)
  {
  }

  // ---- decimals ------------------------------------------------------------

  /** Ten to the power `n`. */
  function Pow10(n: nat): (p: nat)
    ensures p >= 1
  {
    if n == 0 then 1 else 10 * Pow10(n - 1)
  }

  /** Decimal places of the `valor_number` column. */
  const Places: nat := 6

  /**
   * A value of the `DecimalField(max_digits=18, decimal_places=6)` column as
   * read back from the database: `unscaled / 10^6`, always carrying six places.
   */
  datatype Decimal = Decimal(unscaled: int) {
    function Magnitude(): nat { if unscaled < 0 then -unscaled else unscaled }
    function IntPart(): nat { Magnitude() / Pow10(Places) }
    function FracPart(): nat { Magnitude() % Pow10(Places) }
    predicate Integral() { FracPart() == 0 }
  }

  /** The six fractional digits, with leading zeros. */
  function FracDigits(d: Decimal): (s: string)
    ensures |s| == Places && AllDigits(s)
  {
    var f := NatToString(d.FracPart());
    assert |f| <= Places by { NatToStringLength(d.FracPart(), Places); }
    PadStart(f, Places, '0')
  }

  lemma {:induction false} NatToStringLength(n: nat, k: nat)
    requires n < Pow10(k)
    ensures |NatToString(n)| <= k || (k == 0 && |NatToString(n)| == 1)
    decreases k
  {
    if k > 0 && n >= 10 {
      NatToStringLength(n / 10, k - 1);
    }
  }

  /** Python `str(Decimal)` for the column's values: plain notation, six places. */
  function DecimalPyStr(d: Decimal): (s: string)
  {
    (if d.unscaled < 0 then "-" else "") + NatToString(d.IntPart()) + "." + FracDigits(d)
  }

  /** `s` without its trailing `'0'` characters. */
  function DropTrailingZeros(s: string): (r: string)
    ensures |r| <= |s| && r == s[..|r|]
    ensures r == [] || r[|r| - 1] != '0'
    ensures forall i :: |r| <= i < |s| ==> s[i] == '0'
  {
    if s != [] && s[|s| - 1] == '0' then DropTrailingZeros(s[..|s| - 1]) else s
  }

  /**
   * The browser's `parseFloat(v).toString()` of the same value (sent as text by
   * the API): trailing fractional zeros dropped, and no point for whole values.
   * This is exact for values of at most 15 significant digits (see
   * `FitsDouble`); longer values are rounded to a double by the browser.
   */
  function DecimalJsText(d: Decimal): (s: string)
  {
    var frac := DropTrailingZeros(FracDigits(d));
    (if d.unscaled < 0 then "-" else "") + NatToString(d.IntPart()) + (if frac == [] then "" else "." + frac)
  }

  /** The fractional digits are all zeros exactly when the value is whole. */
  lemma FracDigitsZero(d: Decimal)
    ensures d.Integral() <==> DropTrailingZeros(FracDigits(d)) == []
  {
    var digits := FracDigits(d);
    var f := NatToString(d.FracPart());
    var r := DropTrailingZeros(digits);
    assert digits[|digits| - |f|..] == f;
    if d.Integral() {
      assert f == "0";
      assert forall i :: 0 <= i < |digits| ==> digits[i] == '0';
    } else {
      assert digits[|digits| - |f|] == f[0] != '0';
    }
  }

  /**
   * At most 15 significant digits: such a decimal survives the trip through
   * an IEEE double, and the shortest text of that double is the decimal's own.
   */
  predicate FitsDouble(d: Decimal) {
    -1_000_000_000_000_000 < d.unscaled < 1_000_000_000_000_000
  }

  /**
   * For a value a double holds exactly,
   * both renderings denote the same value: the browser text is the Python
   * text with trailing zeros (and a bare point) cut off, and it has a point
   * exactly when the value is not whole.
   */
  lemma DecimalTextsAgree(d: Decimal)
    requires FitsDouble(d)
    ensures DecimalPyStr(d)[..|DecimalJsText(d)|] == DecimalJsText(d)
    ensures forall i :: |DecimalJsText(d)| < i < |DecimalPyStr(d)| ==> DecimalPyStr(d)[i] == '0'
    ensures '.' in DecimalJsText(d) <==> !d.Integral()
  {
    var whole := NatToString(d.IntPart());
    var pre := (if d.unscaled < 0 then "-" else "") + whole;
    assert '.' !in pre by {
      assert forall i :: 0 <= i < |whole| ==> IsDigit(whole[i]);
    }
    FracDigitsZero(d);
    PointTextsAgree(pre, FracDigits(d));
  }

  lemma PointTextsAgree(pre: string, digits: string)
    requires '.' !in pre
    ensures var py := pre + "." + digits;
            var frac := DropTrailingZeros(digits);
            var js := pre + (if frac == [] then "" else "." + frac);
            && py[..|js|] == js
            && (forall i :: |js| < i < |py| ==> py[i] == '0')
            && ('.' in js <==> frac != [])
  {
    var py := pre + "." + digits;
    var frac := DropTrailingZeros(digits);
    if frac == [] {
      assert forall i :: |pre| < i < |py| ==> py[i] == digits[i - |pre| - 1];
    } else {
      var js := pre + "." + frac;
      assert py == js + digits[|frac|..];
      assert forall i :: |js| < i < |py| ==> py[i] == digits[i - |pre| - 1];
      assert js[|pre|] == '.';
    }
  }

  // ---- rows ----------------------------------------------------------------

  /** A calendar date as (year, month 1..12, day 1..31). */
  datatype Date = Date(year: int, month: int, day: int)

  datatype Paciente = Paciente(
    id: nat,
    numHistoriaClinica: string,
    numIdentificacion: string,
    nombres: string,
    fechaNacimiento: Option<Date>,
    tipoSangre: Option<TipoSangre>)

  datatype Formulario = Formulario(
    id: nat,
    codigo: string,
    version: string,
    fechaElabora: Date,
    numHoja: int,
    aseguradora: Option<nat>,
    paciente: nat,
    diagnostico: Option<string>,
    edadSnapshot: Option<int>,
    edadGestion: Option<int>,
    estado: Estado,
    nControlesPrenatales: Option<int>,
    responsable: string)

  /** The value of one field of one measurement: the four nullable payload columns. */
  datatype ValorRow = ValorRow(
    number: Option<Decimal>,
    text: Option<string>,
    boolean: Option<bool>,
    json: Option<Json>)

  /** How many of the four payload columns are non-null. */
  function PayloadCount(v: ValorRow): (n: nat)
    ensures n <= 4
    ensures n == 0 <==> v.number.None? && v.text.None? && v.boolean.None? && v.json.None?
  {
    (if v.number.Some? then 1 else 0) + (if v.text.Some? then 1 else 0)
    + (if v.boolean.Some? then 1 else 0) + (if v.json.Some? then 1 else 0)
  }

  /** The `valor_unico_tipo` check constraint, as its four alternatives. */
  predicate ValorUnicoTipo(v: ValorRow) {
    || (v.number.Some? && v.text.None? && v.boolean.None? && v.json.None?)
    || (v.number.None? && v.text.Some? && v.boolean.None? && v.json.None?)
    || (v.number.None? && v.text.None? && v.boolean.Some? && v.json.None?)
    || (v.number.None? && v.text.None? && v.boolean.None? && v.json.Some?)
  }

  /** The constraint holds exactly when one payload column is set. */
  lemma ValorUnicoTipoIff(v: ValorRow)
    ensures ValorUnicoTipo(v) <==> PayloadCount(v) == 1
  {
  }

  /** The four check constraints of the `formulario` table. */
  predicate FormularioChecks(f: Formulario) {
    && f.numHoja > 0
    && (f.edadSnapshot.None? || f.edadSnapshot.value >= 0)
    && (f.edadGestion.None? || f.edadGestion.value >= 0)
    && (f.nControlesPrenatales.None? || f.nControlesPrenatales.value >= 0)
  }

  /** The name of the constraint a row violates, the first in declaration order. */
  function FormularioViolation(f: Formulario): (r: Option<string>)
    ensures r.None? <==> FormularioChecks(f)
  {
    if f.numHoja <= 0 then Some("num_hoja_positivo")
    else if f.edadSnapshot.Some? && f.edadSnapshot.value < 0 then Some("edad_snapshot_no_negativa")
    else if f.edadGestion.Some? && f.edadGestion.value < 0 then Some("edad_gestion_no_negativa")
    else if f.nControlesPrenatales.Some? && f.nControlesPrenatales.value < 0 then Some("n_controles_no_negativo")
    else None
  }

  // ---- uniqueness keys -----------------------------------------------------

  /** No two patients share a clinical-history number, and none share an identification number. */
  predicate PacientesUnique(ps: seq<Paciente>) {
    forall i, j :: 0 <= i < j < |ps| ==>
      ps[i].numHistoriaClinica != ps[j].numHistoriaClinica && ps[i].numIdentificacion != ps[j].numIdentificacion
  }

  /** Inserting a patient keeps both keys unique exactly when neither of its numbers is taken. */
  lemma PacienteInsertUnique(ps: seq<Paciente>, p: Paciente)
    requires PacientesUnique(ps)
    ensures PacientesUnique(ps + [p]) <==>
      forall q :: q in ps ==> q.numHistoriaClinica != p.numHistoriaClinica && q.numIdentificacion != p.numIdentificacion
  {
    var r := ps + [p];
    if forall q :: q in ps ==> q.numHistoriaClinica != p.numHistoriaClinica && q.numIdentificacion != p.numIdentificacion {
      forall i, j | 0 <= i < j < |r|
        ensures r[i].numHistoriaClinica != r[j].numHistoriaClinica && r[i].numIdentificacion != r[j].numIdentificacion
      {
        if j == |ps| { assert r[i] in ps; }
      }
    } else {
      var q :| q in ps && (q.numHistoriaClinica == p.numHistoriaClinica || q.numIdentificacion == p.numIdentificacion);
      var i :| 0 <= i < |ps| && ps[i] == q;
      assert r[i] == q && r[|ps|] == p;
    }
  }

  /** Key of `Medicion`: (formulario, parametro, tomada_en). */
  datatype MedicionKey = MedicionKey(formulario: nat, parametro: nat, tomadaEn: string)

  /** Key of `FormularioItemParametro`: (formulario, parametro). */
  datatype FipKey = FipKey(formulario: nat, parametro: nat)

  /** Key of `MedicionValor`: (medicion, campo). */
  datatype ValorKey = ValorKey(medicion: nat, campo: nat)

  // ---- FormularioItemParametro.clean / save ------------------------------------

  datatype Fip = Fip(formulario: nat, item: nat, parametro: nat, requerido: bool) {
    function Key(): FipKey { FipKey(formulario, parametro) }
  }

  datatype FipError =
    | ParametroDoesNotExist
    | ParametroOutsideItem
    | DuplicateFormularioParametro

  /** `clean()`: the parametro must belong to the given item. */
  function FipClean(f: Fip, parametroItem: map<nat, nat>): (r: Result<(), FipError>)
    requires f.parametro in parametroItem
    ensures r.Err? <==> parametroItem[f.parametro] != f.item
    ensures r.Err? ==> r.error == ParametroOutsideItem
  {
    if parametroItem[f.parametro] != f.item then Err(ParametroOutsideItem) else Ok(())
  }

  /** The stored rows by id: each consistent with its parametro's item, and unique on (formulario, parametro). */
  predicate FipTableValid(rows: map<nat, Fip>, parametroItem: map<nat, nat>) {
    && (forall id :: id in rows ==> rows[id].parametro in parametroItem && parametroItem[rows[id].parametro] == rows[id].item)
    && (forall a, b :: a in rows && b in rows && a != b ==> rows[a].Key() != rows[b].Key())
  }

  /**
   * `save()`, which always runs `full_clean()` first: an unknown parametro
   * raises before validation completes; otherwise the errors of `clean()` and
   * of the unique-together check are collected, and the row is stored only
   * when there are none.
   */
  function FipSave(rows: map<nat, Fip>, id: nat, f: Fip, parametroItem: map<nat, nat>): (r: Result<map<nat, Fip>, set<FipError>>)
    ensures r.Ok? ==> r.value == rows[id := f]
    ensures r.Ok? <==>
      && f.parametro in parametroItem
      && parametroItem[f.parametro] == f.item
      && (forall other :: other in rows && other != id ==> rows[other].Key() != f.Key())
    ensures r.Err? ==> r.error != {}
  {
    if f.parametro !in parametroItem then Err({ParametroDoesNotExist})
    else
      var cleanErrors := if FipClean(f, parametroItem).Err? then {ParametroOutsideItem} else {};
      var uniqueErrors := if exists other :: other in rows && other != id && rows[other].Key() == f.Key()
                          then {DuplicateFormularioParametro} else {};
      var errors := cleanErrors + uniqueErrors;
      if errors == {} then Ok(rows[id := f]) else Err(errors)
  }

  /** Saving through `save()` never breaks the item consistency or the unique key of the table. */
  lemma FipSavePreservesValid(rows: map<nat, Fip>, id: nat, f: Fip, parametroItem: map<nat, nat>)
    requires FipTableValid(rows, parametroItem)
    ensures FipSave(rows, id, f, parametroItem).Ok? ==> FipTableValid(FipSave(rows, id, f, parametroItem).value, parametroItem)
  {
  }

  // ---- __str__ -------------------------------------------------------------

  function PacienteStr(p: Paciente): string {
    p.nombres + " (" + p.numIdentificacion + ")"
  }

  function FormularioStr(f: Formulario): string {
    f.codigo + " v" + f.version + " hoja " + IntToString(f.numHoja)
  }

  function MedicionStr(k: MedicionKey): string {
    NatToString(k.formulario) + "-" + NatToString(k.parametro) + " @ " + k.tomadaEn
  }

  function MedicionValorStr(k: ValorKey): string {
    "Medicion " + NatToString(k.medicion) + " campo " + NatToString(k.campo)
  }

  function FipStr(k: FipKey): string {
    NatToString(k.formulario) + " - " + NatToString(k.parametro)
  }

  function CampoParametroStr(parametro: nat, codigo: string): string {
    NatToString(parametro) + " - " + codigo
  }

  function ParametroStr(itemCodigo: string, codigo: string): string {
    itemCodigo + " - " + codigo
  }

  /**
   * Two digit strings each followed by the same separator that does not start
   * with a digit can be told apart: the text splits back into its pieces.
   */
  lemma {:induction false} DigitsThenSeparator(a: string, a': string, sep: string, b: string, b': string)
    requires AllDigits(a) && AllDigits(a')
    requires sep != [] && !IsDigit(sep[0])
    requires a + sep + b == a' + sep + b'
    ensures a == a' && b == b'
  {
    var s := a + sep + b;
    assert !IsDigit(s[|a|]) && forall i :: 0 <= i < |a| ==> IsDigit(s[i]);
    assert s == a' + sep + b';
    assert !IsDigit(s[|a'|]) && forall i :: 0 <= i < |a'| ==> IsDigit(s[i]);
    assert a == s[..|a|] == a';
    assert b == s[|a| + |sep|..] == b';
  }

  /** The text of a value row names its measurement and field unambiguously. */
  lemma MedicionValorStrInjective(k: ValorKey, k': ValorKey)
    requires MedicionValorStr(k) == MedicionValorStr(k')
    ensures k == k'
  {
    var a, a' := NatToString(k.medicion), NatToString(k'.medicion);
    var b, b' := NatToString(k.campo), NatToString(k'.campo);
    MedicionValorTail(k);
    MedicionValorTail(k');
    DigitsThenSeparator(a, a', " campo ", b, b');
    NatToStringInjective(k.medicion, k'.medicion);
    NatToStringInjective(k.campo, k'.campo);
  }

  /** Past its fixed prefix, a value's text is the two ids around " campo ". */
  lemma MedicionValorTail(k: ValorKey)
    ensures MedicionValorStr(k)[9..] == NatToString(k.medicion) + " campo " + NatToString(k.campo)
  {
    var t := NatToString(k.medicion) + " campo " + NatToString(k.campo);
    assert MedicionValorStr(k) == "Medicion " + t;
  }

  /** The text of a form-parametro link names the pair unambiguously. */
  lemma FipStrInjective(k: FipKey, k': FipKey)
    requires FipStr(k) == FipStr(k')
    ensures k == k'
  {
    DigitsThenSeparator(NatToString(k.formulario), NatToString(k'.formulario), " - ",
                        NatToString(k.parametro), NatToString(k'.parametro));
    NatToStringInjective(k.formulario, k'.formulario);
    NatToStringInjective(k.parametro, k'.parametro);
  }

  /** The measurement text determines its key: ids by the digit runs, the timestamp as the rest. */
  lemma MedicionStrInjective(k: MedicionKey, k': MedicionKey)
    requires MedicionStr(k) == MedicionStr(k')
    ensures k == k'
  {
    var f, f' := NatToString(k.formulario), NatToString(k'.formulario);
    var p, p' := NatToString(k.parametro), NatToString(k'.parametro);
    assert MedicionStr(k) == f + "-" + (p + " @ " + k.tomadaEn);
    assert MedicionStr(k') == f' + "-" + (p' + " @ " + k'.tomadaEn);
    DigitsThenSeparator(f, f', "-", p + " @ " + k.tomadaEn, p' + " @ " + k'.tomadaEn);
    DigitsThenSeparator(p, p', " @ ", k.tomadaEn, k'.tomadaEn);
    NatToStringInjective(k.formulario, k'.formulario);
    NatToStringInjective(k.parametro, k'.parametro);
  }

  /** A form's text ends with its sheet number, so sheets of one code and version render differently. */
  lemma FormularioStrSheet(f: Formulario, g: Formulario)
    requires f.codigo == g.codigo && f.version == g.version
    requires f.numHoja > 0 && g.numHoja > 0
    requires FormularioStr(f) == FormularioStr(g)
    ensures f.numHoja == g.numHoja
  {
    var prefix := f.codigo + " v" + f.version + " hoja ";
    assert FormularioStr(f) == prefix + NatToString(f.numHoja);
    assert FormularioStr(g) == prefix + NatToString(g.numHoja);
    assert NatToString(f.numHoja) == FormularioStr(f)[|prefix|..];
    NatToStringInjective(f.numHoja, g.numHoja);
  }
}
