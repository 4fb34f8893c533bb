/**
 * The texts the clinical-form PDF draws: a measured value's text, the boxed
 * patient data, the header's fallbacks, the form data with its greedy
 * 50-character word wrap, the measurement tables and the download name.
 * Drawing, fonts and coordinates are not part of this model; each operation
 * yields the strings that would be drawn, in drawing order.
 */
module Pdf {
  import opened Wrappers
  import opened Text
  import opened Json
  import opened Models

  // ---- value texts ----------------------------------------------------------------

  /**
   * `obtener_valor`: the first non-null payload column in the order number,
   * text, boolean, json; "" when all four are null.
   */
  function ObtenerValor(v: ValorRow): (r: string)
    ensures v.number.Some? ==> r == DecimalPyStr(v.number.value)
    ensures v.number.None? && v.text.Some? ==> r == v.text.value
    ensures v.number.None? && v.text.None? && v.boolean.Some? ==> r == (if v.boolean.value then "S\U{ED}" else "No")
    ensures r == "" <==>
      && v.number.None?
      && (v.text == Some("") || (v.text.None? && v.boolean.None? && (v.json.None? || v.json == Some(JString("")))))
  {
    if v.number.Some? then DecimalPyStr(v.number.value)
    else if v.text.Some? then v.text.value
    else if v.boolean.Some? then (if v.boolean.value then "S\U{ED}" else "No")
    else if v.json.Some? then PyStr(v.json.value)
    else ""
  }

  /** The text of the one payload a row that meets `valor_unico_tipo` carries. */
  function PayloadText(v: ValorRow): (r: string)
    requires ValorUnicoTipo(v)
  {
    match v
    case ValorRow(Some(d), _, _, _) => DecimalPyStr(d)
    case ValorRow(_, Some(t), _, _) => t
    case ValorRow(_, _, Some(b), _) => if b then "S\U{ED}" else "No"
    case ValorRow(_, _, _, Some(j)) => PyStr(j)
  }

  /**
   * For a row that meets the check constraint, the order of the cascade does
   * not matter: the text is that of its one payload, and a reversed cascade
   * gives the same text.
   */
  lemma ObtenerValorOfValidRow(v: ValorRow)
    requires ValorUnicoTipo(v)
    ensures ObtenerValor(v) == PayloadText(v)
    ensures ObtenerValor(v) == ReversedCascade(v)
  {
  }

  /** The cascade tried from the last column to the first: json, boolean, text, number. */
  function ReversedCascade(v: ValorRow): (r: string)
    ensures v.json.Some? ==> r == PyStr(v.json.value)
  {
    if v.json.Some? then PyStr(v.json.value)
    else if v.boolean.Some? then (if v.boolean.value then "S\U{ED}" else "No")
    else if v.text.Some? then v.text.value
    else if v.number.Some? then DecimalPyStr(v.number.value)
    else ""
  }

  /** A row holding two payloads shows the number, where the reversed cascade shows the text. */
  lemma CascadeOrderMatters()
    ensures ObtenerValor(ValorRow(Some(Decimal(0)), Some("x"), None, None)) != ReversedCascade(ValorRow(Some(Decimal(0)), Some("x"), None, None))
  {
    var d := Decimal(0);
    assert DecimalPyStr(d)[0] == '0' by {
      assert d.IntPart() == 0;
      assert NatToString(0) == "0";
    }
  }

  /** `casilla`'s value text: "" for `None`, `str(valor)` otherwise. */
  function Casilla(valor: Option<Json>): (r: string)
    ensures valor.None? ==> r == ""
    ensures valor.Some? && valor.value.JString? ==> r == valor.value.s
    ensures r == "" <==> valor.None? || valor == Some(JString(""))
  {
    match valor
    case None => ""
    case Some(j) => PyStr(j)
  }

  /** The age box: the snapshot age when it is not null, even when it is 0. */
  function EdadCasilla(f: Formulario): (r: string)
    ensures f.edadSnapshot.None? <==> r == ""
  {
    Casilla(if f.edadSnapshot.Some? then Some(JNum(f.edadSnapshot.value)) else None)
  }

  /** The age box reads back as the snapshot age. */
  lemma EdadCasillaReadsBack(f: Formulario)
    requires f.edadSnapshot.Some?
    ensures ParseInt(EdadCasilla(f)) == f.edadSnapshot
  {
    ParseIntOfIntToString(f.edadSnapshot.value);
  }

  // ---- header and form data -------------------------------------------------------

  const DefaultCodigo: string := "FRSPA-022"
  const DefaultVersion: string := "01"

  /** The header's code and version: the stored text, or FRSPA-022 and 01 when it is empty. */
  function HeaderCodigoVersion(f: Formulario): (r: (string, string))
    ensures r.0 != "" && r.1 != ""
    ensures f.codigo != "" ==> r.0 == f.codigo
    ensures f.version != "" ==> r.1 == f.version
    ensures f.codigo == "" ==> r.0 == DefaultCodigo
    ensures f.version == "" ==> r.1 == DefaultVersion
  {
    (if f.codigo != "" then f.codigo else DefaultCodigo, if f.version != "" then f.version else DefaultVersion)
  }

  /** `str(n) if n else 'N/A'` for a nullable integer column. */
  function IntOrNA(n: Option<int>, unit: string): (r: string)
    ensures n.None? || n == Some(0) <==> r == "N/A"
    ensures n.Some? && n.value != 0 ==> r == IntToString(n.value) + unit
  {
    if n.Some? && n.value != 0 then
      assert (IntToString(n.value) + unit)[0] == IntToString(n.value)[0];
      assert IntToString(n.value)[0] != 'N' by {
        if n.value >= 0 { assert IsDigit(NatToString(n.value)[0]); }
      }
      IntToString(n.value) + unit
    else "N/A"
  }

  /** `text or 'N/A'`. */
  function TextOrNA(s: string): (r: string)
    ensures r != ""
    ensures s != "" ==> r == s
  {
    if s != "" then s else "N/A"
  }

  /** `strftime('%d/%m/%Y')` of a date, with the year unpadded as glibc prints it. */
  function DateText(d: Date): (r: string)
    requires 1 <= d.month <= 12 && 1 <= d.day <= 31
    ensures |r| == 6 + |IntToString(d.year)| && r[2] == '/' && r[5] == '/'
    ensures r[..2] == TwoDigits(d.day) && r[3..5] == TwoDigits(d.month) && r[6..] == IntToString(d.year)
  {
    var day, month, year := TwoDigits(d.day), TwoDigits(d.month), IntToString(d.year);
    var r := day + "/" + month + "/" + year;
    assert r[..2] == day && r[3..5] == month && r[6..] == year;
    r
  }

  const DatosLabels: seq<string> := [
    "C\U{F3}digo:", "Versi\U{F3}n:", "Hoja:", "Fecha de Elaboraci\U{F3}n:",
    "Fecha de Actualizaci\U{F3}n:", "Aseguradora:", "Diagn\U{F3}stico:", "Edad:",
    "Edad Gestacional:", "Estado (G_P_C_A_V_M):", "N\U{B0} Controles Prenatales:", "Responsable:"]

  /**
   * The twelve (label, value) rows of the form-data section. `actualizada`
   * is the `strftime` text of the update timestamp and `aseguradoras` maps
   * each insurer id to its name. Every column is tested for truthiness, so
   * 0 prints as "N/A"; the date, timestamp and state columns are never null,
   * so their "N/A" branch is unreachable.
   */
  function DatosRows(f: Formulario, actualizada: string, aseguradoras: map<nat, string>): (r: seq<(string, string)>)
    requires 1 <= f.fechaElabora.month <= 12 && 1 <= f.fechaElabora.day <= 31
    requires f.aseguradora.Some? ==> f.aseguradora.value in aseguradoras
    ensures |r| == 12 && forall i :: 0 <= i < 12 ==> r[i].0 == DatosLabels[i]
  {
    var values := [
      TextOrNA(f.codigo),
      TextOrNA(f.version),
      IntOrNA(Some(f.numHoja), ""),
      DateText(f.fechaElabora),
      actualizada,
      if f.aseguradora.Some? then aseguradoras[f.aseguradora.value] else "N/A",
      TextOrNA(f.diagnostico.GetOr("")),
      IntOrNA(f.edadSnapshot, " a\U{F1}os"),
      IntOrNA(f.edadGestion, " semanas"),
      f.estado.Label(),
      IntOrNA(f.nControlesPrenatales, ""),
      TextOrNA(f.responsable)];
    seq(12, i requires 0 <= i < 12 => (DatosLabels[i], values[i]))
  }

  /** The code, version and sheet rows: the stored text or "N/A", and a sheet number of 0 prints "N/A". */
  lemma DatosIdentityRows(f: Formulario, actualizada: string, aseguradoras: map<nat, string>)
    requires 1 <= f.fechaElabora.month <= 12 && 1 <= f.fechaElabora.day <= 31
    requires f.aseguradora.Some? ==> f.aseguradora.value in aseguradoras
    ensures var r := DatosRows(f, actualizada, aseguradoras);
      r[0].1 == TextOrNA(f.codigo) && r[1].1 == TextOrNA(f.version) &&
      (r[2].1 == "N/A" <==> f.numHoja == 0) && (f.numHoja != 0 ==> r[2].1 == IntToString(f.numHoja))
  {
  }

  /** The date, update and insurer rows: the formatted dates, and the insurer's name or "N/A" when there is none. */
  lemma DatosRecordRows(f: Formulario, actualizada: string, aseguradoras: map<nat, string>)
    requires 1 <= f.fechaElabora.month <= 12 && 1 <= f.fechaElabora.day <= 31
    requires f.aseguradora.Some? ==> f.aseguradora.value in aseguradoras
    ensures var r := DatosRows(f, actualizada, aseguradoras);
      r[3].1 == DateText(f.fechaElabora) && r[4].1 == actualizada &&
      r[5].1 == if f.aseguradora.Some? then aseguradoras[f.aseguradora.value] else "N/A"
  {
  }

  /**
   * The clinical rows: the diagnosis and the responsible as text or "N/A",
   * the state's label, and each count "N/A" exactly when it is null or 0.
   */
  lemma DatosClinicalRows(f: Formulario, actualizada: string, aseguradoras: map<nat, string>)
    requires 1 <= f.fechaElabora.month <= 12 && 1 <= f.fechaElabora.day <= 31
    requires f.aseguradora.Some? ==> f.aseguradora.value in aseguradoras
    ensures var r := DatosRows(f, actualizada, aseguradoras);
      r[6].1 == TextOrNA(f.diagnostico.GetOr("")) && r[9].1 == f.estado.Label() && r[11].1 == TextOrNA(f.responsable) &&
      (r[7].1 == "N/A" <==> f.edadSnapshot.None? || f.edadSnapshot == Some(0)) &&
      (r[8].1 == "N/A" <==> f.edadGestion.None? || f.edadGestion == Some(0)) &&
      (r[10].1 == "N/A" <==> f.nControlesPrenatales.None? || f.nControlesPrenatales == Some(0))
  {
  }

  /** An age of 0 shows as "0" in the patient box but as "N/A" in the form data. */
  lemma ZeroAgeShownDifferently(f: Formulario, actualizada: string, aseguradoras: map<nat, string>)
    requires 1 <= f.fechaElabora.month <= 12 && 1 <= f.fechaElabora.day <= 31
    requires f.aseguradora.Some? ==> f.aseguradora.value in aseguradoras
    requires f.edadSnapshot == Some(0)
    ensures EdadCasilla(f) == "0"
    ensures DatosRows(f, actualizada, aseguradoras)[7].1 == "N/A"
  {
    assert IntToString(0) == "0";
  }

  // ---- the word wrap ------------------------------------------------------------

  const WrapWidth: nat := 50

  /**
   * The lines the wrap loop emits for `words`, starting from the current
   * line `line`: a word goes on a fresh line exactly when the current line
   * and the word together exceed 50 characters; the last line is emitted
   * when it is not empty.
   */
  function Fill(words: seq<string>, line: string): (r: seq<string>)
    decreases |words|
  {
    if words == [] then (if line != "" then [line] else [])
    else if |line + words[0]| > WrapWidth then [line] + Fill(words[1..], words[0] + " ")
    else Fill(words[1..], line + words[0] + " ")
  }

  /** The lines drawn for a value: one line when it fits in 50 characters, else the wrap of its words. */
  function DatumLines(valor: string): (r: seq<string>)
    ensures |valor| <= WrapWidth ==> r == [valor]
  {
    if |valor| <= WrapWidth then [valor] else Fill(Words(valor), "")
  }

  /** The wrap loop over the words of a value longer than 50 characters. */
  method WrapDatum(valor: string) returns (lines: seq<string>)
    ensures lines == DatumLines(valor)
  {
    if |valor| <= WrapWidth {
      return [valor];
    }
    var palabras := Words(valor);
    var linea := "";
    lines := [];
    var i := 0;
    while i < |palabras|
      invariant 0 <= i <= |palabras|
      invariant lines + Fill(palabras[i..], linea) == Fill(palabras, "")
    {
      var palabra := palabras[i];
      assert palabras[i..][1..] == palabras[i + 1..];
      if |linea + palabra| > WrapWidth {
        lines := lines + [linea];
        linea := palabra + " ";
      } else {
        linea := linea + palabra + " ";
      }
      i := i + 1;
    }
    if linea != "" {
      lines := lines + [linea];
    }
  }

  /** Each word followed by one space. */
  function Spaced(words: seq<string>): (r: string)
    ensures |words| > 0 ==> |r| > 0
  {
    if words == [] then "" else words[0] + " " + Spaced(words[1..])
  }

  /** All lines put together, in order. */
  function Concat(lines: seq<string>): (r: string)
  {
    if lines == [] then "" else lines[0] + Concat(lines[1..])
  }

  /** The wrap loses no word and reorders none: its lines put together are the current line, then each word and a space. */
  lemma {:induction false} FillKeepsWords(words: seq<string>, line: string)
    ensures Concat(Fill(words, line)) == line + Spaced(words)
    decreases |words|
  {
    if words == [] {
      if line != "" {
        assert Concat([line]) == line + Concat([]);
      }
    } else {
      var w := words[0];
      assert Spaced(words) == w + " " + Spaced(words[1..]);
      if |line + w| > WrapWidth {
        FillKeepsWords(words[1..], w + " ");
        assert Concat([line] + Fill(words[1..], w + " ")) == line + Concat(Fill(words[1..], w + " "));
      } else {
        FillKeepsWords(words[1..], line + w + " ");
      }
    }
  }

  /** For a value longer than 50 characters, the drawn lines put together are its words each followed by one space. */
  lemma DatumKeepsWords(valor: string)
    requires |valor| > WrapWidth
    ensures Concat(DatumLines(valor)) == Spaced(Words(valor))
  {
    FillKeepsWords(Words(valor), "");
  }

  /** Started from a non-empty line, the wrap emits only non-empty lines, and at least one. */
  lemma {:induction false} FillNonEmptyLines(words: seq<string>, line: string)
    requires line != ""
    ensures |Fill(words, line)| >= 1
    ensures forall j :: 0 <= j < |Fill(words, line)| ==> Fill(words, line)[j] != ""
    decreases |words|
  {
    if words != [] {
      var w := words[0];
      if |line + w| > WrapWidth {
        FillNonEmptyLines(words[1..], w + " ");
      } else {
        FillNonEmptyLines(words[1..], line + w + " ");
      }
    }
  }

  /**
   * The first line drawn is empty exactly when the first word alone exceeds
   * 50 characters; every later line is non-empty.
   */
  lemma FirstLineEmptyIff(words: seq<string>)
    requires words != []
    ensures |Fill(words, "")| >= 1
    ensures Fill(words, "")[0] == "" <==> |words[0]| > WrapWidth
    ensures forall j :: 1 <= j < |Fill(words, "")| ==> Fill(words, "")[j] != ""
  {
    var w := words[0];
    assert "" + w == w;
    FillNonEmptyLines(words[1..], w + " ");
  }

  /** No line is longer than a word and its space or 51 characters: the space is all that passes the width of 50. */
  lemma {:induction false} FillLineBound(words: seq<string>, line: string, longest: nat)
    requires |line| <= longest + 1 || |line| <= WrapWidth + 1
    requires forall i :: 0 <= i < |words| ==> |words[i]| <= longest
    ensures forall j :: 0 <= j < |Fill(words, line)| ==>
      |Fill(words, line)[j]| <= longest + 1 || |Fill(words, line)[j]| <= WrapWidth + 1
    decreases |words|
  {
    if words != [] {
      var w := words[0];
      if |line + w| > WrapWidth {
        FillLineBound(words[1..], w + " ", longest);
      } else {
        FillLineBound(words[1..], line + w + " ", longest);
      }
    }
  }

  /** When every word fits in 50 characters, every drawn line fits too, apart from its final space. */
  lemma DatumLinesFit(valor: string)
    requires |valor| > WrapWidth
    requires forall i :: 0 <= i < |Words(valor)| ==> |Words(valor)[i]| <= WrapWidth
    ensures forall j :: 0 <= j < |DatumLines(valor)| ==> |DatumLines(valor)[j]| <= WrapWidth + 1
  {
    FillLineBound(Words(valor), "", WrapWidth);
  }

  // ---- the measurement tables ----------------------------------------------------

  /** One value of a measurement: the field's name, the stored row, the field's unit (`""` for none). */
  datatype ValorPdf = ValorPdf(campo: string, valor: ValorRow, unidad: string)

  /** One measurement: its parametro's name and its values. */
  datatype MedicionPdf = MedicionPdf(parametro: string, valores: seq<ValorPdf>)

  const TableHeader: seq<string> := ["Campo", "Valor", "Unidad"]
  const NoMediciones: string := "No hay mediciones registradas."

  /** The row of one value. */
  function ValueRow(v: ValorPdf): (r: seq<string>)
    ensures |r| == |TableHeader|
  {
    [v.campo, ObtenerValor(v.valor), v.unidad]
  }

  /** The table of one measurement: the header row, then one row per value, in order. */
  method BuildTable(valores: seq<ValorPdf>) returns (data: seq<seq<string>>)
    ensures |data| == 1 + |valores|
    ensures data[0] == TableHeader
    ensures forall i :: 0 <= i < |valores| ==> data[i + 1] == ValueRow(valores[i])
  {
    data := [TableHeader];
    for i := 0 to |valores|
      invariant |data| == 1 + i
      invariant data[0] == TableHeader
      invariant forall k :: 0 <= k < i ==> data[k + 1] == ValueRow(valores[k])
    {
      data := data + [ValueRow(valores[i])];
    }
  }

  /** What the measurement section draws: the notice, or a title and a table per measurement. */
  datatype Section = NoMeasurements(notice: string) | Tables(tables: seq<(string, seq<seq<string>>)>)

  /** The measurement section, over the measurements in query order. */
  method BuildSection(mediciones: seq<MedicionPdf>) returns (s: Section)
    ensures mediciones == [] <==> s == NoMeasurements(NoMediciones)
    ensures s.Tables? ==> |s.tables| == |mediciones|
    ensures s.Tables? ==> forall i :: 0 <= i < |mediciones| ==>
      && s.tables[i].0 == mediciones[i].parametro
      && |s.tables[i].1| == 1 + |mediciones[i].valores|
      && s.tables[i].1[0] == TableHeader
      && forall k :: 0 <= k < |mediciones[i].valores| ==> s.tables[i].1[k + 1] == ValueRow(mediciones[i].valores[k])
  {
    if mediciones == [] {
      return NoMeasurements(NoMediciones);
    }
    var tables: seq<(string, seq<seq<string>>)> := [];
    for i := 0 to |mediciones|
      invariant |tables| == i
      invariant forall j :: 0 <= j < i ==>
        && tables[j].0 == mediciones[j].parametro
        && |tables[j].1| == 1 + |mediciones[j].valores|
        && tables[j].1[0] == TableHeader
        && forall k :: 0 <= k < |mediciones[j].valores| ==> tables[j].1[k + 1] == ValueRow(mediciones[j].valores[k])
    {
      var data := BuildTable(mediciones[i].valores);
      tables := tables + [(mediciones[i].parametro, data)];
    }
    return Tables(tables);
  }

  // ---- the download name ----------------------------------------------------------

  /** `formulario_{codigo}_v{version}_hoja{num_hoja}.pdf`. */
  function PdfFilename(codigo: string, version: string, numHoja: int): (r: string)
    ensures StartsWith(r, "formulario_")
  {
    "formulario_" + codigo + "_v" + version + "_hoja" + IntToString(numHoja) + ".pdf"
  }

  /** Reading code, version and sheet back from a download name. */
  function ParseFilename(name: string): (r: Option<(string, string, int)>)
  {
    var parts := SplitOn(name, "_");
    if |parts| == 4 && parts[0] == "formulario" && StartsWith(parts[2], "v") && StartsWith(parts[3], "hoja")
      && |parts[3]| >= 8 && parts[3][|parts[3]| - 4..] == ".pdf" then
      match ParseInt(parts[3][4..|parts[3]| - 4])
      case Some(n) => Some((parts[1], parts[2][1..], n))
      case None => None
    else None
  }

  /** The sheet number's text carries no underscore. */
  lemma IntTextHasNoUnderscore(n: int)
    ensures '_' !in IntToString(n)
  {
    var s := IntToString(n);
    forall i | 0 <= i < |s| ensures s[i] != '_' {
      if n < 0 {
        assert s == "-" + NatToString(-n);
        if i > 0 { assert s[i] == NatToString(-n)[i - 1]; }
      }
    }
  }

  lemma FilenameIsJoin(codigo: string, version: string, numHoja: int)
    ensures PdfFilename(codigo, version, numHoja) ==
      Join(["formulario", codigo, "v" + version, "hoja" + IntToString(numHoja) + ".pdf"], "_")
  {
    var n := IntToString(numHoja);
    JoinFour("formulario", codigo, "v" + version, "hoja" + n + ".pdf", "_");
    FilenameText(codigo, version, n);
  }

  lemma FilenameText(codigo: string, version: string, n: string)
    ensures "formulario_" + codigo + "_v" + version + "_hoja" + n + ".pdf"
      == "formulario" + "_" + codigo + "_" + ("v" + version) + "_" + ("hoja" + n + ".pdf")
  {
    assert "formulario_" == "formulario" + "_";
    assert "_v" == "_" + "v";
    assert "_hoja" == "_" + "hoja";
  }

  /** Four parts joined by a separator. */
  lemma JoinFour(a: string, b: string, c: string, d: string, sep: string)
    ensures Join([a, b, c, d], sep) == a + sep + b + sep + c + sep + d
  {
    var parts := [a, b, c, d];
    assert parts[1..] == [b, c, d] && parts[1..][1..] == [c, d] && parts[1..][1..][1..] == [d];
    assert Join([c, d], sep) == c + sep + d;
    assert Join([b, c, d], sep) == b + sep + (c + sep + d);
  }

  /** The sheet part of a download name: its sheet number between `hoja` and `.pdf`, and no underscore. */
  lemma SheetPart(numHoja: int)
    ensures var hoja := "hoja" + IntToString(numHoja) + ".pdf";
      && '_' !in hoja && StartsWith(hoja, "hoja") && |hoja| >= 8
      && hoja[|hoja| - 4..] == ".pdf" && hoja[4..|hoja| - 4] == IntToString(numHoja)
  {
    IntTextHasNoUnderscore(numHoja);
  }

  /**
   * When neither the code nor the version holds an underscore, the download
   * name gives back the code, version and sheet it was made from; so two
   * such forms that differ in any of the three download under different names.
   */
  lemma FilenameRoundTrip(codigo: string, version: string, numHoja: int)
    requires '_' !in codigo && '_' !in version
    ensures ParseFilename(PdfFilename(codigo, version, numHoja)) == Some((codigo, version, numHoja))
  {
    var hoja := "hoja" + IntToString(numHoja) + ".pdf";
    var parts := ["formulario", codigo, "v" + version, hoja];
    FilenameIsJoin(codigo, version, numHoja);
    SheetPart(numHoja);
    assert forall i :: 0 <= i < 4 ==> '_' !in parts[i];
    SplitOnJoin(parts, "_");
    assert ("v" + version)[1..] == version;
    ParseIntOfIntToString(numHoja);
  }
}
