/**
 * What the grid's save sends: the cells that carry a value are grouped into
 * one measurement payload per (parametro, column), in the order the keys are
 * first met, each payload listing its cells' values in document order.
 */
module GridCollect {
  import opened Wrappers
  import opened Text
  import opened Seqs
  import opened GridDisplay
  import Serializers

  /** One nested value as the browser sends it; `campoId` is `None` when `parseInt` gave NaN. */
  datatype ValorPayload = ValorPayload(campoId: Option<int>, valorText: Option<string>, valorBoolean: Option<bool>)

  /** One measurement as the browser sends it. */
  datatype MedicionPayload = MedicionPayload(
    formulario: int,
    parametro: Option<int>,
    tomadaEn: string,
    valores: seq<ValorPayload>)

  /** The insertion-ordered `Map` the save builds: key text and payload. */
  type Groups = seq<(string, MedicionPayload)>

  /** `parseInt(el.getAttribute(name))`; an absent attribute reads as `null`, which parses to NaN. */
  function AttrInt(attr: Option<string>): Option<int> {
    if attr.None? then None else ParseInt(attr.value)
  }

  /** The column of a cell when `horas[horaIndex]` is a non-empty time. */
  function TimedColumn(c: Cell, horas: seq<string>): (r: Option<nat>)
    ensures r.Some? ==> r.value < |horas| && horas[r.value] != ""
    ensures r.Some? ==> AttrInt(c.horaAttr) == Some(r.value as int)
  {
    var h := AttrInt(c.horaAttr);
    if h.Some? && 0 <= h.value < |horas| && horas[h.value] != "" then Some(h.value) else None
  }

  /** A cell takes part in the save: its trimmed value, its parametro attribute and its column's time are all non-empty. */
  predicate Qualifies(c: Cell, horas: seq<string>) {
    Trim(c.value) != [] && c.parametroAttr.Some? && c.parametroAttr.value != [] && TimedColumn(c, horas).Some?
  }

  /** The map key `${parametroId}-${horaIndex}`. */
  function KeyText(parametro: string, column: nat): string {
    parametro + "-" + NatToString(column)
  }

  /** The key text names one (parametro, column) pair: a column's digits hold no '-'. */
  lemma KeyTextInjective(p1: string, c1: nat, p2: string, c2: nat)
    requires KeyText(p1, c1) == KeyText(p2, c2)
    ensures p1 == p2 && c1 == c2
  {
    var s := KeyText(p1, c1);
    var n1 := NatToString(c1);
    var n2 := NatToString(c2);
    assert s == p1 + "-" + n1 && s == p2 + "-" + n2;
    assert s[|s| - |n1| - 1] == '-' && s[|s| - |n2| - 1] == '-';
    assert forall i :: |s| - |n1| <= i < |s| ==> s[i] == n1[i - (|s| - |n1|)];
    assert forall i :: |s| - |n2| <= i < |s| ==> s[i] == n2[i - (|s| - |n2|)];
    assert |n1| == |n2|;
    assert n1 == s[|s| - |n1|..] == n2;
    assert p1 == s[..|s| - |n1| - 1] == p2;
    NatToStringInjective(c1, c2);
  }

  /** The value a cell sends: number and text cells their trimmed text, yes/no cells the SÍ/SI reading, other cells only the field id. */
  function ValorOf(c: Cell): (r: ValorPayload)
    ensures r.campoId == AttrInt(c.campoAttr)
    ensures c.tipoAttr in {Some("number"), Some("text")} ==> r.valorText == Some(Trim(c.value)) && r.valorBoolean.None?
    ensures c.tipoAttr == Some("boolean") ==> r.valorText.None? && r.valorBoolean == Some(ReadsAsYes(Trim(c.value)))
    ensures c.tipoAttr !in {Some("number"), Some("text"), Some("boolean")} ==> r.valorText.None? && r.valorBoolean.None?
  {
    var valor := Trim(c.value);
    var campo := AttrInt(c.campoAttr);
    if c.tipoAttr == Some("number") then ValorPayload(campo, Some(valor), None)
    else if c.tipoAttr == Some("text") then ValorPayload(campo, Some(valor), None)
    else if c.tipoAttr == Some("boolean") then ValorPayload(campo, None, Some(ReadsAsYes(valor)))
    else ValorPayload(campo, None, None)
  }

  /** Position of `key` in the map, if present. */
  function FindKey(groups: Groups, key: string): (r: Option<nat>)
    ensures r.Some? ==> r.value < |groups| && groups[r.value].0 == key
    ensures r.None? ==> forall j :: 0 <= j < |groups| ==> groups[j].0 != key
  {
    if groups == [] then None
    else if groups[0].0 == key then Some(0)
    else match FindKey(groups[1..], key)
      case None => None
      case Some(j) => Some(j + 1)
  }

  function Keys(groups: Groups): (r: seq<string>)
    ensures |r| == |groups|
    ensures forall j :: 0 <= j < |groups| ==> r[j] == groups[j].0
  {
    seq(|groups|, j requires 0 <= j < |groups| => groups[j].0)
  }

  /**
   * What one cell contributes: its key when it qualifies, the parametro and
   * time a new payload for that key takes, and the value it pushes.
   */
  datatype Entry = Entry(key: Option<string>, parametro: Option<int>, tomadaEn: string, valor: ValorPayload)

  function EntryOf(c: Cell, horas: seq<string>): (e: Entry)
    ensures e.key.Some? <==> Qualifies(c, horas)
    ensures e.valor == ValorOf(c)
  {
    if Qualifies(c, horas) then
      var col := TimedColumn(c, horas).value;
      Entry(Some(KeyText(c.parametroAttr.value, col)), AttrInt(c.parametroAttr), horas[col], ValorOf(c))
    else Entry(None, None, "", ValorOf(c))
  }

  function Entries(cells: seq<Cell>, horas: seq<string>): (es: seq<Entry>)
    ensures |es| == |cells|
    ensures forall i :: 0 <= i < |cells| ==> es[i] == EntryOf(cells[i], horas)
  {
    seq(|cells|, i requires 0 <= i < |cells| => EntryOf(cells[i], horas))
  }

  /** The save's test on a cell, as written in its loop, decides the cell's entry. */
  lemma EntryOfCases(c: Cell, horas: seq<string>)
    ensures var h := AttrInt(c.horaAttr);
      if Trim(c.value) != [] && c.parametroAttr.Some? && c.parametroAttr.value != []
         && h.Some? && 0 <= h.value < |horas| && horas[h.value] != []
      then EntryOf(c, horas) == Entry(Some(KeyText(c.parametroAttr.value, h.value)), AttrInt(c.parametroAttr), horas[h.value], ValorOf(c))
      else EntryOf(c, horas).key.None?
  {
  }

  /** One cell's step of the save's `forEach`: skip it, or push its value into its key's payload, made on first sight. */
  function AddEntry(groups: Groups, e: Entry, formulario: int): Groups {
    match e.key
    case None => groups
    case Some(key) =>
      match FindKey(groups, key)
      case Some(j) =>
        groups[j := (key, groups[j].1.(valores := groups[j].1.valores + [e.valor]))]
      case None =>
        groups + [(key, MedicionPayload(formulario, e.parametro, e.tomadaEn, [e.valor]))]
  }

  function GroupEntries(es: seq<Entry>, formulario: int): Groups {
    if es == [] then []
    else AddEntry(GroupEntries(es[..|es| - 1], formulario), es[|es| - 1], formulario)
  }

  /** Walking one more cell adds that cell's entry. */
  lemma CollectStep(cells: seq<Cell>, i: nat, horas: seq<string>, formulario: int)
    requires i < |cells|
    ensures GroupEntries(Entries(cells[..i + 1], horas), formulario)
         == AddEntry(GroupEntries(Entries(cells[..i], horas), formulario), EntryOf(cells[i], horas), formulario)
  {
    var es := Entries(cells[..i + 1], horas);
    assert es[..i] == Entries(cells[..i], horas);
  }

  /** The map after the save has walked `cells` in document order. */
  function Collect(cells: seq<Cell>, horas: seq<string>, formulario: int): Groups {
    GroupEntries(Entries(cells, horas), formulario)
  }

  /** `Array.from(map.values())`. */
  function Payloads(groups: Groups): (r: seq<MedicionPayload>)
    ensures |r| == |groups|
    ensures forall j :: 0 <= j < |groups| ==> r[j] == groups[j].1
  {
    seq(|groups|, j requires 0 <= j < |groups| => groups[j].1)
  }

  // ---- reference definitions --------------------------------------------------

  /** The keys of the qualifying cells, in document order, repeats included. */
  function QualifyingKeys(es: seq<Entry>): seq<string> {
    if es == [] then []
    else
      var rest := QualifyingKeys(es[..|es| - 1]);
      match es[|es| - 1].key
      case Some(k) => rest + [k]
      case None => rest
  }

  /** The values of the qualifying cells with key `key`, in document order. */
  function Contributions(es: seq<Entry>, key: string): seq<ValorPayload> {
    if es == [] then []
    else
      var rest := Contributions(es[..|es| - 1], key);
      if es[|es| - 1].key == Some(key) then rest + [es[|es| - 1].valor] else rest
  }

  lemma {:induction false} QualifyingKeysMembers(es: seq<Entry>, key: string)
    ensures key in QualifyingKeys(es) <==> exists i :: 0 <= i < |es| && es[i].key == Some(key)
  {
    if es != [] {
      var p := es[..|es| - 1];
      QualifyingKeysMembers(p, key);
      assert forall i :: 0 <= i < |p| ==> es[i] == p[i];
    }
  }

  lemma {:induction false} ContributionsEmpty(es: seq<Entry>, key: string)
    requires key !in QualifyingKeys(es)
    ensures Contributions(es, key) == []
  {
    if es != [] {
      var p := es[..|es| - 1];
      assert QualifyingKeys(p) <= QualifyingKeys(es);
      ContributionsEmpty(p, key);
    }
  }

  /** Entries with the same key carry the same parametro and time. */
  predicate HeadersConsistent(es: seq<Entry>) {
    forall i, j :: 0 <= i < |es| && 0 <= j < |es| && es[i].key.Some? && es[i].key == es[j].key ==>
      es[i].parametro == es[j].parametro && es[i].tomadaEn == es[j].tomadaEn
  }

  /** Two cells with the same key share their parametro attribute and column, hence their header. */
  lemma EntriesConsistent(cells: seq<Cell>, horas: seq<string>)
    ensures HeadersConsistent(Entries(cells, horas))
  {
    var es := Entries(cells, horas);
    forall i, j | 0 <= i < |es| && 0 <= j < |es| && es[i].key.Some? && es[i].key == es[j].key
      ensures es[i].parametro == es[j].parametro && es[i].tomadaEn == es[j].tomadaEn
    {
      KeyTextInjective(cells[i].parametroAttr.value, TimedColumn(cells[i], horas).value,
                       cells[j].parametroAttr.value, TimedColumn(cells[j], horas).value);
    }
  }

  /** The payload header agrees with every cell that contributes to it. */
  predicate HeaderAgrees(g: (string, MedicionPayload), es: seq<Entry>, formulario: int) {
    g.1.formulario == formulario &&
    forall i :: 0 <= i < |es| && es[i].key == Some(g.0) ==>
      g.1.parametro == es[i].parametro && g.1.tomadaEn == es[i].tomadaEn
  }

  /** Grouping keeps one payload per distinct key, in first-seen order. */
  lemma {:induction false} GroupKeys(es: seq<Entry>, formulario: int)
    ensures Keys(GroupEntries(es, formulario)) == Dedup(QualifyingKeys(es))
  {
    if es != [] {
      var p := es[..|es| - 1];
      var g0 := GroupEntries(p, formulario);
      GroupKeys(p, formulario);
      match es[|es| - 1].key
      case None =>
      case Some(key) =>
        var qk := QualifyingKeys(p);
        assert QualifyingKeys(es) == qk + [key];
        assert (qk + [key])[..|qk|] == qk;
        match FindKey(g0, key)
        case Some(j) =>
          assert key in Keys(g0);
        case None =>
          assert key !in Keys(g0);
          assert Keys(GroupEntries(es, formulario)) == Keys(g0) + [key];
    }
  }

  /** Each payload lists exactly the values under its key, in order. */
  lemma {:induction false} GroupValores(es: seq<Entry>, formulario: int)
    ensures forall j :: 0 <= j < |GroupEntries(es, formulario)| ==>
      GroupEntries(es, formulario)[j].1.valores == Contributions(es, GroupEntries(es, formulario)[j].0)
  {
    if es != [] {
      var p := es[..|es| - 1];
      var e := es[|es| - 1];
      var g0 := GroupEntries(p, formulario);
      var g := GroupEntries(es, formulario);
      GroupValores(p, formulario);
      GroupKeys(p, formulario);
      match e.key
      case None =>
      case Some(key) =>
        match FindKey(g0, key)
        case Some(j) =>
          forall j' | 0 <= j' < |g| ensures g[j'].1.valores == Contributions(es, g[j'].0) {
            if j' != j {
              assert Keys(g0)[j'] != Keys(g0)[j];
            }
          }
        case None =>
          assert key !in Keys(g0);
          assert key !in QualifyingKeys(p);
          ContributionsEmpty(p, key);
          forall j' | 0 <= j' < |g| ensures g[j'].1.valores == Contributions(es, g[j'].0) {
            if j' < |g0| {
              assert g[j'] == g0[j'];
            }
          }
    }
  }

  /** Each payload's header is that of the entries under its key. */
  lemma {:induction false} GroupHeaders(es: seq<Entry>, formulario: int)
    requires HeadersConsistent(es)
    ensures forall j :: 0 <= j < |GroupEntries(es, formulario)| ==>
      HeaderAgrees(GroupEntries(es, formulario)[j], es, formulario)
  {
    if es != [] {
      var p := es[..|es| - 1];
      var e := es[|es| - 1];
      var g0 := GroupEntries(p, formulario);
      var g := GroupEntries(es, formulario);
      assert forall i :: 0 <= i < |p| ==> es[i] == p[i];
      GroupHeaders(p, formulario);
      match e.key
      case None =>
        forall j | 0 <= j < |g| ensures HeaderAgrees(g[j], es, formulario) {
          assert HeaderAgrees(g0[j], p, formulario);
        }
      case Some(key) =>
        match FindKey(g0, key)
        case Some(j) =>
          GroupKeys(p, formulario);
          assert key in QualifyingKeys(p);
          QualifyingKeysMembers(p, key);
          var i0 :| 0 <= i0 < |p| && p[i0].key == Some(key);
          assert es[i0] == p[i0];
          forall j' | 0 <= j' < |g| ensures HeaderAgrees(g[j'], es, formulario) {
            assert HeaderAgrees(g0[j'], p, formulario);
            HeaderSnoc(g0[j'], g[j'], es, formulario);
          }
        case None =>
          forall j' | 0 <= j' < |g| ensures HeaderAgrees(g[j'], es, formulario) {
            if j' < |g0| {
              assert g[j'] == g0[j'] && g0[j'].0 != key;
              assert HeaderAgrees(g0[j'], p, formulario);
              HeaderSnoc(g0[j'], g[j'], es, formulario);
            } else {
              assert g[j'] == (key, MedicionPayload(formulario, e.parametro, e.tomadaEn, [e.valor]));
              assert forall i :: 0 <= i < |es| && es[i].key == Some(key) ==>
                es[i].parametro == e.parametro && es[i].tomadaEn == e.tomadaEn;
            }
          }
    }
  }

  /** A header that agrees with all but the last entry, and whose key the last entry only repeats, agrees with them all. */
  lemma HeaderSnoc(g: (string, MedicionPayload), g': (string, MedicionPayload), es: seq<Entry>, formulario: int)
    requires es != [] && HeadersConsistent(es)
    requires HeaderAgrees(g, es[..|es| - 1], formulario)
    requires g'.0 == g.0 && g'.1.formulario == g.1.formulario
    requires g'.1.parametro == g.1.parametro && g'.1.tomadaEn == g.1.tomadaEn
    requires es[|es| - 1].key == Some(g.0) ==> exists i0 :: 0 <= i0 < |es| - 1 && es[i0].key == Some(g.0)
    ensures HeaderAgrees(g', es, formulario)
  {
    var p := es[..|es| - 1];
    forall i | 0 <= i < |es| && es[i].key == Some(g'.0)
      ensures g'.1.parametro == es[i].parametro && g'.1.tomadaEn == es[i].tomadaEn
    {
      if i < |p| {
        assert es[i] == p[i];
      } else {
        var i0 :| 0 <= i0 < |p| && es[i0].key == Some(g.0);
        assert es[i0] == p[i0];
      }
    }
  }

  /**
   * The save sends one payload per distinct (parametro, column) of a
   * qualifying cell, in first-seen order, listing exactly that key's cell
   * values in document order, under the parametro and time of those cells.
   */
  lemma CollectShape(cells: seq<Cell>, horas: seq<string>, formulario: int)
    ensures Keys(Collect(cells, horas, formulario)) == Dedup(QualifyingKeys(Entries(cells, horas)))
    ensures forall j :: 0 <= j < |Collect(cells, horas, formulario)| ==>
      Collect(cells, horas, formulario)[j].1.valores ==
      Contributions(Entries(cells, horas), Collect(cells, horas, formulario)[j].0)
    ensures forall j :: 0 <= j < |Collect(cells, horas, formulario)| ==>
      HeaderAgrees(Collect(cells, horas, formulario)[j], Entries(cells, horas), formulario)
  {
    EntriesConsistent(cells, horas);
    GroupKeys(Entries(cells, horas), formulario);
    GroupValores(Entries(cells, horas), formulario);
    GroupHeaders(Entries(cells, horas), formulario);
  }

  // ---- what the backend makes of a cell's value ---------------------------------

  /** The request data the serializer receives for a sent value: the keys the browser wrote, nothing else. */
  function AsValorData(v: ValorPayload): (d: Serializers.ValorData)
    ensures d.number.Absent? && d.json.Absent?
  {
    Serializers.ValorData(
      if v.campoId.Some? && v.campoId.value >= 0 then Some(v.campoId.value as nat) else None,
      Serializers.Absent,
      if v.valorText.Some? then Serializers.Given(v.valorText) else Serializers.Absent,
      if v.valorBoolean.Some? then Serializers.Given(v.valorBoolean) else Serializers.Absent,
      Serializers.Absent)
  }

  /**
   * The backend accepts a sent cell value exactly when the cell is of kind
   * number, text or boolean; any other kind sends only the field id, which
   * the one-payload rule rejects.
   */
  lemma BackendAcceptsCell(c: Cell)
    ensures Serializers.Validate(AsValorData(ValorOf(c))).Ok? <==>
      c.tipoAttr in {Some("number"), Some("text"), Some("boolean")}
  {
  }
}
