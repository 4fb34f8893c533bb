/**
 * What the measurement grid shows for a stored value: the display-text
 * precedence, the "SÍ"/"SI" reading of yes/no text, and the cascade that
 * picks the option of a `<select>` cell.
 */
module GridDisplay {
  import opened Wrappers
  import opened Text
  import opened Json
  import opened Models

  /** The lock state of an input: `disabled`, `readOnly`, the grey style, and the `data-bloqueado` mark. */
  datatype Flags = Flags(disabled: bool, readOnly: bool, shaded: bool, marked: bool)

  const Locked := Flags(true, true, true, true)
  const Unlocked := Flags(false, false, false, false)

  /**
   * A `.data-input` cell of the grid: its `data-*` attributes as written in
   * the page (`None` when absent), whether it is a `<select>` and its options,
   * its current value and its lock state.
   */
  datatype Cell = Cell(
    parametroAttr: Option<string>,
    campoAttr: Option<string>,
    horaAttr: Option<string>,
    tipoAttr: Option<string>,
    isSelect: bool,
    options: seq<SelectOption>,
    value: string,
    flags: Flags)

  /** A `.time-input` column header: its `data-hora-index`, its value and its lock state. */
  datatype TimeInput = TimeInput(horaAttr: Option<string>, value: string, flags: Flags)

  /** `data-hora-index="c"`: the attribute names column `c`. */
  predicate InColumn(attr: Option<string>, c: int) {
    attr == Some(IntToString(c))
  }

  /** One `<option>` of a select cell: its value and its visible text. */
  datatype SelectOption = SelectOption(value: string, content: string)

  /** A value as the API returns it inside a measurement; `campo` is the nested field's id, if any. */
  datatype StoredValor = StoredValor(
    campo: Option<int>,
    number: Option<Decimal>,
    text: Option<string>,
    boolean: Option<bool>,
    json: Option<Json>)

  /** A measurement as the API returns it; `parametro` is the nested parametro's id, if any. */
  datatype StoredMedicion = StoredMedicion(tomadaEn: string, parametro: Option<int>, valores: seq<StoredValor>)

  /** `SÍ` (with the accent, as the grid writes it) and `SI`. */
  const Si: string := "S\U{CD}"
  const SiPlain: string := "SI"

  /** Yes/no text reads as yes when, upper-cased and trimmed, it starts with "SÍ" or "SI". */
  predicate ReadsAsYes(text: string) {
    var u := Trim(ToUpper(text));
    StartsWith(u, Si) || StartsWith(u, SiPlain)
  }

  /**
   * The text the grid writes for a stored value: the text payload first, then
   * the number (as the browser prints it), then "SÍ"/"NO", then the JSON text.
   */
  function DisplayText(v: StoredValor): (r: string)
    ensures v.text.Some? ==> r == v.text.value
    ensures v.text.None? && v.number.Some? ==> r == DecimalJsText(v.number.value)
  {
    if v.text.Some? then v.text.value
    else if v.number.Some? then DecimalJsText(v.number.value)
    else if v.boolean.Some? then (if v.boolean.value then Si else "NO")
    else if v.json.Some? then Stringify(v.json.value)
    else ""
  }

  /** A stored value shows as empty exactly when its text payload is empty or it has no payload at all. */
  lemma DisplayTextEmpty(v: StoredValor)
    ensures DisplayText(v) == "" <==>
      v.text == Some("") || (v.text.None? && v.number.None? && v.boolean.None? && v.json.None?)
  {
    if v.text.None? && v.number.Some? {
      var d := v.number.value;
      assert DecimalJsText(d) != "" by {
        assert |NatToString(d.IntPart())| >= 1;
      }
    }
  }

  /** A yes/no value written by the grid reads back as the same answer. */
  lemma BooleanDisplayReadsBack(b: bool)
    ensures ReadsAsYes(DisplayText(StoredValor(None, None, None, Some(b), None))) == b
  {
    if b {
      assert DisplayText(StoredValor(None, None, None, Some(b), None)) == Si;
      YesIsUpperTrimmed();
    } else {
      assert DisplayText(StoredValor(None, None, None, Some(b), None)) == "NO";
      NoIsUpperTrimmed();
    }
  }

  /** "SÍ" is already upper-case and carries no surrounding blanks. */
  lemma YesIsUpperTrimmed()
    ensures Trim(ToUpper(Si)) == Si
  {
    assert Si[0] == 'S' && Si[1] == '\U{CD}';
    ToUpperUnchanged(Si);
    TrimUnchanged(Si);
  }

  /** "NO" is already upper-case, carries no surrounding blanks, and does not read as yes. */
  lemma NoIsUpperTrimmed()
    ensures Trim(ToUpper("NO")) == "NO"
    ensures !StartsWith("NO", Si) && !StartsWith("NO", SiPlain)
  {
    NoUnchanged("NO");
    NoIsNotYes("NO");
  }

  lemma NoUnchanged(no: string)
    requires no == "NO"
    ensures Trim(ToUpper(no)) == no
  {
    assert no[0] == 'N' && no[1] == 'O';
    ToUpperUnchanged(no);
    TrimUnchanged(no);
  }

  lemma NoIsNotYes(no: string)
    requires no == "NO"
    ensures !StartsWith(no, Si) && !StartsWith(no, SiPlain)
  {
    assert no[..2] == no;
    assert no[0] == 'N' && Si[0] == 'S' && SiPlain[0] == 'S';
  }

  /** "Sí, con reservas" reads as yes and "No aplica" as no. */
  lemma ReadsAsYesExamples()
    ensures ReadsAsYes("S\U{ED}, con reservas")
    ensures !ReadsAsYes("No aplica")
  {
    YesExample();
    NoExample();
  }

  lemma YesExample()
    ensures ReadsAsYes("S\U{ED}, con reservas")
  {
    var yes := ToUpper("S\U{ED}, con reservas");
    assert yes[0] == 'S' && yes[1] == '\U{CD}' && yes[|yes| - 1] == 'S';
    TrimUnchanged(yes);
    assert yes[..2] == Si;
  }

  lemma NoExample()
    ensures !ReadsAsYes("No aplica")
  {
    var no := ToUpper("No aplica");
    assert no[0] == 'N' && no[|no| - 1] == 'A';
    TrimUnchanged(no);
    assert no[..2][0] == 'N';
  }

  // ---- option matching -----------------------------------------------------

  /** The option a yes/no value looks for: its upper-cased value starts with SÍ/SI for yes, NO for no. */
  predicate BooleanMatch(o: SelectOption, b: bool) {
    var u := ToUpper(o.value);
    if b then StartsWith(u, Si) || StartsWith(u, SiPlain) else StartsWith(u, "NO")
  }

  predicate PartialMatch(o: SelectOption, valor: string) {
    Contains(o.value, valor) || Contains(valor, o.value)
  }

  /** `options.find(...)` with the yes/no test. */
  function FindBoolean(options: seq<SelectOption>, b: bool): (r: Option<nat>)
    ensures r.Some? ==> r.value < |options| && BooleanMatch(options[r.value], b)
    ensures r.Some? ==> forall j :: 0 <= j < r.value ==> !BooleanMatch(options[j], b)
    ensures r.None? ==> forall j :: 0 <= j < |options| ==> !BooleanMatch(options[j], b)
  {
    if options == [] then None
    else if BooleanMatch(options[0], b) then Some(0)
    else match FindBoolean(options[1..], b)
      case None => None
      case Some(i) => Some(i + 1)
  }

  /** `options.find(opt => opt.value === valor)`. */
  function FindExact(options: seq<SelectOption>, valor: string): (r: Option<nat>)
    ensures r.Some? ==> r.value < |options| && options[r.value].value == valor
    ensures r.Some? ==> forall j :: 0 <= j < r.value ==> options[j].value != valor
    ensures r.None? ==> forall j :: 0 <= j < |options| ==> options[j].value != valor
  {
    if options == [] then None
    else if options[0].value == valor then Some(0)
    else match FindExact(options[1..], valor)
      case None => None
      case Some(i) => Some(i + 1)
  }

  /** `options.find(opt => opt.value.includes(valor) || valor.includes(opt.value))`. */
  function FindPartial(options: seq<SelectOption>, valor: string): (r: Option<nat>)
    ensures r.Some? ==> r.value < |options| && PartialMatch(options[r.value], valor)
    ensures r.Some? ==> forall j :: 0 <= j < r.value ==> !PartialMatch(options[j], valor)
    ensures r.None? ==> forall j :: 0 <= j < |options| ==> !PartialMatch(options[j], valor)
  {
    if options == [] then None
    else if PartialMatch(options[0], valor) then Some(0)
    else match FindPartial(options[1..], valor)
      case None => None
      case Some(i) => Some(i + 1)
  }

  /**
   * The option chosen for a value: for a yes/no value the first option of the
   * right answer; failing that the first exact match; failing that the first
   * option that contains the text or is contained in it.
   */
  function ChooseOption(options: seq<SelectOption>, boolean: Option<bool>, valor: string): (r: Option<nat>)
    ensures r.Some? ==> r.value < |options|
  {
    var byBoolean := if boolean.Some? then FindBoolean(options, boolean.value) else None;
    if byBoolean.Some? then byBoolean
    else
      var exact := FindExact(options, valor);
      if exact.Some? then exact else FindPartial(options, valor)
  }

  /** The cascade never passes over an exact match for a value that is not yes/no. */
  lemma ChooseExactFirst(options: seq<SelectOption>, valor: string, i: nat)
    requires i < |options| && options[i].value == valor
    ensures ChooseOption(options, None, valor).Some?
    ensures options[ChooseOption(options, None, valor).value].value == valor
  {
  }

  /**
   * An option whose value is empty is contained in every text, so with one
   * present the cascade always lands on an option at or before it.
   */
  lemma EmptyOptionCatchesAll(options: seq<SelectOption>, boolean: Option<bool>, valor: string, e: nat)
    requires e < |options| && options[e].value == ""
    ensures ChooseOption(options, boolean, valor).Some?
    ensures boolean.None? && FindExact(options, valor).None? ==> ChooseOption(options, boolean, valor).value <= e
  {
    ContainsEmpty(valor);
    assert PartialMatch(options[e], valor);
  }

  /**
   * The value a select cell takes: the chosen option's value. When no option
   * fits, the text is still assigned, but a select given a value none of its
   * options carries selects nothing and reads "".
   */
  function SelectValue(options: seq<SelectOption>, boolean: Option<bool>, valor: string): (r: string)
    ensures r == "" || exists i :: 0 <= i < |options| && options[i].value == r
  {
    match ChooseOption(options, boolean, valor)
    case Some(i) => options[i].value
    case None => ""
  }

  /**
   * A select none of whose options fits the text (no yes/no option for a
   * yes/no value, and no option containing the text or contained in it)
   * reads "" after the write, although the text itself is not empty.
   */
  lemma UnmatchedSelectEmpty(options: seq<SelectOption>, boolean: Option<bool>, valor: string)
    requires boolean.Some? ==> forall k :: 0 <= k < |options| ==> !BooleanMatch(options[k], boolean.value)
    requires forall k :: 0 <= k < |options| ==> !PartialMatch(options[k], valor)
    ensures SelectValue(options, boolean, valor) == ""
  {
    forall k | 0 <= k < |options| ensures options[k].value != valor {
      ExactIsPartial(options[k], valor);
    }
  }

  lemma ExactIsPartial(o: SelectOption, valor: string)
    ensures o.value == valor ==> PartialMatch(o, valor)
  {
    assert valor[..|valor|] == valor;
  }
}
