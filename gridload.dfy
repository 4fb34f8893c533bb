/**
 * What loading a form's stored measurements does to the grid: the distinct
 * timestamps, sorted, are bound to the columns the time inputs offer; every
 * cell is emptied; each stored value is written, as display text, into the
 * first cell with its (parametro, campo, column) attributes; and the columns
 * that received a non-empty text are locked.
 */
module GridLoad {
  import opened Wrappers
  import opened Text
  import opened Seqs
  import opened GridDisplay
  import opened GridLock

  function Tomadas(ms: seq<StoredMedicion>): (r: seq<string>)
    ensures |r| == |ms|
    ensures forall i :: 0 <= i < |ms| ==> r[i] == ms[i].tomadaEn
  {
    seq(|ms|, i requires 0 <= i < |ms| => ms[i].tomadaEn)
  }

  /** `[...new Set(mediciones.map(m => m.tomada_en))].sort()`: the distinct timestamps in increasing order. */
  function HorasUnicas(ms: seq<StoredMedicion>): (r: seq<string>)
    ensures Sorted(r) && Distinct(r)
    ensures forall h :: h in r <==> h in Tomadas(ms)
  {
    SortDistinct(Dedup(Tomadas(ms)));
    Sort(Dedup(Tomadas(ms)))
  }

  /** Any increasing list of the distinct timestamps is the one the load binds. */
  lemma HorasUnicasCanonical(ms: seq<StoredMedicion>, hs: seq<string>)
    requires Sorted(hs) && Distinct(hs)
    requires forall h :: h in hs <==> exists i :: 0 <= i < |ms| && ms[i].tomadaEn == h
    ensures hs == HorasUnicas(ms)
  {
    var r := HorasUnicas(ms);
    forall h ensures h in hs <==> h in r {
      if h in Tomadas(ms) {
        var i :| 0 <= i < |ms| && Tomadas(ms)[i] == h;
      }
    }
    SortedDistinctUnique(hs, r);
  }

  /** `horaToIndexMap[h]`: the column bound to timestamp `h`, if it got one. */
  function ColumnOf(horas: seq<string>, nTimes: nat, h: string): (r: Option<nat>)
    ensures r.Some? ==> r.value < |horas| && r.value < nTimes && horas[r.value] == h
    ensures r.Some? ==> forall k :: 0 <= k < r.value ==> horas[k] != h
    ensures r.None? ==> forall k :: 0 <= k < |horas| && k < nTimes ==> horas[k] != h
  {
    if horas == [] || nTimes == 0 then None
    else if horas[0] == h then Some(0)
    else match ColumnOf(horas[1..], nTimes - 1, h)
      case None => None
      case Some(k) => Some(k + 1)
  }

  /**
   * The i-th smallest distinct timestamp is bound to column i, for i below
   * the number of time inputs; a timestamp beyond them gets no column.
   */
  lemma Binding(ms: seq<StoredMedicion>, nTimes: nat, h: string, col: nat)
    ensures ColumnOf(HorasUnicas(ms), nTimes, h) == Some(col) <==>
      col < nTimes && col < |HorasUnicas(ms)| && HorasUnicas(ms)[col] == h
  {
  }

  /** `document.querySelector` for `[data-parametro-id=p][data-campo-id=c][data-hora-index=col]`. */
  function FindCell(cells: seq<Cell>, p: int, c: int, col: nat): (r: Option<nat>)
    ensures r.Some? ==> r.value < |cells| && Addressed(cells[r.value], p, c, col)
    ensures r.Some? ==> forall i :: 0 <= i < r.value ==> !Addressed(cells[i], p, c, col)
    ensures r.None? ==> forall i :: 0 <= i < |cells| ==> !Addressed(cells[i], p, c, col)
  {
    if cells == [] then None
    else if Addressed(cells[0], p, c, col) then Some(0)
    else match FindCell(cells[1..], p, c, col)
      case None =>
        assert forall i :: 1 <= i < |cells| ==> cells[i] == cells[1..][i - 1];
        None
      case Some(i) =>
        assert forall j :: 1 <= j <= i ==> cells[j] == cells[1..][j - 1];
        Some(i + 1)
  }

  predicate Addressed(cell: Cell, p: int, c: int, col: nat) {
    cell.parametroAttr == Some(IntToString(p)) && cell.campoAttr == Some(IntToString(c)) && InColumn(cell.horaAttr, col)
  }

  /** What the load looks at in a cell: everything except its value and its lock state. */
  function Shape(c: Cell): Cell {
    c.(value := "", flags := Unlocked)
  }

  predicate SameShape(a: seq<Cell>, b: seq<Cell>) {
    |a| == |b| && forall i :: 0 <= i < |a| ==> Shape(a[i]) == Shape(b[i])
  }

  lemma {:induction false} FindCellShape(a: seq<Cell>, b: seq<Cell>, p: int, c: int, col: nat)
    requires SameShape(a, b)
    ensures FindCell(a, p, c, col) == FindCell(b, p, c, col)
  {
    if a != [] {
      assert Shape(a[0]) == Shape(b[0]);
      assert SameShape(a[1..], b[1..]) by {
        forall i | 0 <= i < |a| - 1 ensures Shape(a[1..][i]) == Shape(b[1..][i]) {
          assert a[1..][i] == a[i + 1] && b[1..][i] == b[i + 1];
        }
      }
      FindCellShape(a[1..], b[1..], p, c, col);
    }
  }

  /** One write of the load: the cell, its column, the text it takes, and whether that text is non-empty. */
  datatype Write = Write(cell: nat, col: nat, shown: string, hasData: bool)

  /** The write a stored value makes, if its campo is set and its cell exists. */
  function ValorWrite(cells: seq<Cell>, p: int, col: nat, v: StoredValor): (r: Option<Write>)
    ensures r.Some? ==> r.value.cell < |cells| && r.value.col == col
    ensures r.Some? ==> (r.value.hasData <==> DisplayText(v) != "")
    ensures r.Some? && !cells[r.value.cell].isSelect ==> r.value.shown == DisplayText(v)
    ensures r.Some? && cells[r.value.cell].isSelect ==>
      r.value.shown == "" || exists k :: 0 <= k < |cells[r.value.cell].options| && cells[r.value.cell].options[k].value == r.value.shown
  {
    if v.campo.None? || v.campo.value == 0 then None
    else match FindCell(cells, p, v.campo.value, col)
      case None => None
      case Some(i) =>
        var valor := DisplayText(v);
        var shown := if cells[i].isSelect && valor != "" then SelectValue(cells[i].options, v.boolean, valor) else valor;
        Some(Write(i, col, shown, valor != ""))
  }

  /**
   * A non-empty value written to a select none of whose options fits leaves
   * the select reading "", yet still counts as data and locks its column.
   */
  lemma UnmatchedSelectLocks(cells: seq<Cell>, p: int, col: nat, v: StoredValor, i: nat)
    requires v.campo.Some? && v.campo.value != 0
    requires FindCell(cells, p, v.campo.value, col) == Some(i) && cells[i].isSelect
    requires DisplayText(v) != ""
    requires v.boolean.Some? ==> forall k :: 0 <= k < |cells[i].options| ==> !BooleanMatch(cells[i].options[k], v.boolean.value)
    requires forall k :: 0 <= k < |cells[i].options| ==> !PartialMatch(cells[i].options[k], DisplayText(v))
    ensures ValorWrite(cells, p, col, v) == Some(Write(i, col, "", true))
  {
    UnmatchedSelectEmpty(cells[i].options, v.boolean, DisplayText(v));
  }

  /** The (parametro, column) a stored measurement is written under, if it has both. */
  function Target(horas: seq<string>, nTimes: nat, m: StoredMedicion): (r: Option<(int, nat)>)
    ensures r.Some? ==> r.value.1 < nTimes && r.value.1 < |horas| && horas[r.value.1] == m.tomadaEn
  {
    match ColumnOf(horas, nTimes, m.tomadaEn)
    case None => None
    case Some(col) => if m.parametro.None? || m.parametro.value == 0 then None else Some((m.parametro.value, col))
  }

  /** The cell values and the columns with data (a `Set`, kept in insertion order), as the load goes. */
  type Placement = (seq<string>, seq<int>)

  function Elems(s: seq<int>): (r: set<int>)
    ensures forall c :: c in r <==> c in s
  {
    set c | c in s
  }

  function Apply(st: Placement, w: Write): (r: Placement)
    requires w.cell < |st.0|
    ensures |r.0| == |st.0|
  {
    (st.0[w.cell := w.shown], if w.hasData && (w.col as int) !in st.1 then st.1 + [w.col as int] else st.1)
  }

  function ApplyOpt(st: Placement, w: Option<Write>): (r: Placement)
    requires w.Some? ==> w.value.cell < |st.0|
    ensures |r.0| == |st.0|
  {
    if w.Some? then Apply(st, w.value) else st
  }

  /** The inner `forEach` over a measurement's values. */
  function PlaceValores(cells: seq<Cell>, st: Placement, p: int, col: nat, vs: seq<StoredValor>): (r: Placement)
    requires |st.0| == |cells|
    ensures |r.0| == |cells|
    decreases |vs|
  {
    if vs == [] then st
    else PlaceValores(cells, ApplyOpt(st, ValorWrite(cells, p, col, vs[0])), p, col, vs[1..])
  }

  function PlaceMedicion(cells: seq<Cell>, st: Placement, horas: seq<string>, nTimes: nat, m: StoredMedicion): (r: Placement)
    requires |st.0| == |cells|
    ensures |r.0| == |cells|
  {
    match Target(horas, nTimes, m)
    case None => st
    case Some((p, col)) => PlaceValores(cells, st, p, col, m.valores)
  }

  /** The outer `forEach` over the measurements. */
  function PlaceAll(cells: seq<Cell>, st: Placement, horas: seq<string>, nTimes: nat, ms: seq<StoredMedicion>): (r: Placement)
    requires |st.0| == |cells|
    ensures |r.0| == |cells|
    decreases |ms|
  {
    if ms == [] then st
    else PlaceAll(cells, PlaceMedicion(cells, st, horas, nTimes, ms[0]), horas, nTimes, ms[1..])
  }

  /** Writing one cell's value keeps every cell's shape and changes only that value. */
  lemma WriteValueKeeps(cs: seq<Cell>, shape: seq<Cell>, idx: nat, text: string)
    requires |shape| == |cs| && idx < |cs|
    requires forall k :: 0 <= k < |cs| ==> cs[k] == shape[k].(value := cs[k].value)
    ensures var cs' := cs[idx := cs[idx].(value := text)];
      (forall k :: 0 <= k < |cs'| ==> cs'[k] == shape[k].(value := cs'[k].value)) &&
      Values(cs') == Values(cs)[idx := text]
  {
    var cs' := cs[idx := cs[idx].(value := text)];
    assert Values(cs') == Values(cs)[idx := text];
  }

  function Values(cs: seq<Cell>): (r: seq<string>)
    ensures |r| == |cs|
    ensures forall i :: 0 <= i < |cs| ==> r[i] == cs[i].value
  {
    seq(|cs|, i requires 0 <= i < |cs| => cs[i].value)
  }

  function Blank(n: nat): (r: seq<string>)
    ensures |r| == n && forall i :: 0 <= i < n ==> r[i] == ""
  {
    seq(n, i => "")
  }

  /** The placement a load computes from the grid's cells. */
  function LoadPlacement(cells: seq<Cell>, ms: seq<StoredMedicion>, nTimes: nat): (r: Placement)
    ensures |r.0| == |cells|
  {
    PlaceAll(cells, (Blank(|cells|), []), HorasUnicas(ms), nTimes, ms)
  }

  /** The cells after a load: placed values, data columns locked, other flags as they were. */
  function LoadCells(cells: seq<Cell>, ms: seq<StoredMedicion>, nTimes: nat): (r: seq<Cell>)
    ensures |r| == |cells|
  {
    if ms == [] then cells
    else
      var st := LoadPlacement(cells, ms, nTimes);
      SetCellsFlags(seq(|cells|, i requires 0 <= i < |cells| => cells[i].(value := st.0[i])), Elems(st.1), Locked)
  }

  /** The time inputs after a load: the bound timestamps written, data columns locked; inputs beyond keep their text. */
  function LoadTimes(times: seq<TimeInput>, cells: seq<Cell>, ms: seq<StoredMedicion>): (r: seq<TimeInput>)
    ensures |r| == |times|
  {
    if ms == [] then times
    else
      var horas := HorasUnicas(ms);
      var st := LoadPlacement(cells, ms, |times|);
      SetTimesFlags(BindTimes(times, horas), Elems(st.1), Locked)
  }

  /** Step 2 of the load: the j-th time input takes the j-th timestamp, where there is one. */
  function BindTimes(times: seq<TimeInput>, horas: seq<string>): (r: seq<TimeInput>)
    ensures |r| == |times|
    ensures forall j :: 0 <= j < |times| && j < |horas| ==> r[j] == times[j].(value := horas[j])
    ensures forall j :: |horas| <= j < |times| ==> r[j] == times[j]
  {
    seq(|times|, j requires 0 <= j < |times| => if j < |horas| then times[j].(value := horas[j]) else times[j])
  }

  // ---- the writes, as a flat list -------------------------------------------------

  function OptList(w: Option<Write>): seq<Write> {
    if w.Some? then [w.value] else []
  }

  function ValoresWrites(cells: seq<Cell>, p: int, col: nat, vs: seq<StoredValor>): (r: seq<Write>)
    ensures forall k :: 0 <= k < |r| ==> r[k].cell < |cells| && r[k].col == col
  {
    if vs == [] then [] else OptList(ValorWrite(cells, p, col, vs[0])) + ValoresWrites(cells, p, col, vs[1..])
  }

  /** Every write the load makes, in the order it makes them. */
  function Writes(cells: seq<Cell>, horas: seq<string>, nTimes: nat, ms: seq<StoredMedicion>): (r: seq<Write>)
    ensures forall k :: 0 <= k < |r| ==> r[k].cell < |cells|
  {
    if ms == [] then []
    else
      (match Target(horas, nTimes, ms[0])
       case None => []
       case Some((p, col)) => ValoresWrites(cells, p, col, ms[0].valores))
      + Writes(cells, horas, nTimes, ms[1..])
  }

  function ApplyAll(st: Placement, ws: seq<Write>): (r: Placement)
    requires forall k :: 0 <= k < |ws| ==> ws[k].cell < |st.0|
    ensures |r.0| == |st.0|
    decreases |ws|
  {
    if ws == [] then st else ApplyAll(Apply(st, ws[0]), ws[1..])
  }

  lemma {:induction false} ApplyAllAppend(st: Placement, a: seq<Write>, b: seq<Write>)
    requires forall k :: 0 <= k < |a| ==> a[k].cell < |st.0|
    requires forall k :: 0 <= k < |b| ==> b[k].cell < |st.0|
    ensures ApplyAll(st, a + b) == ApplyAll(ApplyAll(st, a), b)
    decreases |a|
  {
    if a == [] {
      assert a + b == b;
    } else {
      assert (a + b)[0] == a[0] && (a + b)[1..] == a[1..] + b;
      ApplyAllAppend(Apply(st, a[0]), a[1..], b);
    }
  }

  lemma {:induction false} PlaceValoresWrites(cells: seq<Cell>, st: Placement, p: int, col: nat, vs: seq<StoredValor>)
    requires |st.0| == |cells|
    ensures PlaceValores(cells, st, p, col, vs) == ApplyAll(st, ValoresWrites(cells, p, col, vs))
    decreases |vs|
  {
    if vs != [] {
      var w := OptList(ValorWrite(cells, p, col, vs[0]));
      var rest := ValoresWrites(cells, p, col, vs[1..]);
      PlaceValoresWrites(cells, ApplyOpt(st, ValorWrite(cells, p, col, vs[0])), p, col, vs[1..]);
      ApplyAllAppend(st, w, rest);
      if w != [] {
        assert w[1..] == [];
      }
    }
  }

  /** Placing the measurements one after another is applying their writes in order. */
  lemma {:induction false} PlaceAllWrites(cells: seq<Cell>, st: Placement, horas: seq<string>, nTimes: nat, ms: seq<StoredMedicion>)
    requires |st.0| == |cells|
    ensures PlaceAll(cells, st, horas, nTimes, ms) == ApplyAll(st, Writes(cells, horas, nTimes, ms))
    decreases |ms|
  {
    if ms != [] {
      var rest := Writes(cells, horas, nTimes, ms[1..]);
      var st1 := PlaceMedicion(cells, st, horas, nTimes, ms[0]);
      PlaceAllWrites(cells, st1, horas, nTimes, ms[1..]);
      match Target(horas, nTimes, ms[0])
      case None =>
        assert st1 == st;
        assert Writes(cells, horas, nTimes, ms) == rest;
      case Some((p, col)) =>
        var first := ValoresWrites(cells, p, col, ms[0].valores);
        PlaceValoresWrites(cells, st, p, col, ms[0].valores);
        ApplyAllAppend(st, first, rest);
    }
  }

  /** The columns with data are the columns of the writes whose text is non-empty. */
  lemma {:induction false} ApplyAllColumns(st: Placement, ws: seq<Write>, c: int)
    requires forall k :: 0 <= k < |ws| ==> ws[k].cell < |st.0|
    ensures c in ApplyAll(st, ws).1 <==> c in st.1 || exists k :: 0 <= k < |ws| && ws[k].hasData && ws[k].col == c
    decreases |ws|
  {
    if ws != [] {
      ApplyAllColumns(Apply(st, ws[0]), ws[1..], c);
      if exists k :: 0 <= k < |ws| && ws[k].hasData && ws[k].col == c {
        var k :| 0 <= k < |ws| && ws[k].hasData && ws[k].col == c;
        if k > 0 {
          assert ws[1..][k - 1] == ws[k];
        }
      }
      if exists k :: 0 <= k < |ws| - 1 && ws[1..][k].hasData && ws[1..][k].col == c {
        var k :| 0 <= k < |ws| - 1 && ws[1..][k].hasData && ws[1..][k].col == c;
        assert ws[k + 1] == ws[1..][k];
      }
    }
  }

  /** A cell ends with the text of the last write aimed at it. */
  lemma {:induction false} ApplyAllLastWrite(st: Placement, ws: seq<Write>, k: nat)
    requires forall k :: 0 <= k < |ws| ==> ws[k].cell < |st.0|
    requires k < |ws| && forall k' :: k < k' < |ws| ==> ws[k'].cell != ws[k].cell
    ensures ApplyAll(st, ws).0[ws[k].cell] == ws[k].shown
    decreases |ws|
  {
    var st1 := Apply(st, ws[0]);
    if k == 0 {
      ApplyAllUntouched(st1, ws[1..], ws[0].cell);
    } else {
      assert ws[1..][k - 1] == ws[k];
      ApplyAllLastWrite(st1, ws[1..], k - 1);
    }
  }

  /** A cell no write aims at keeps its text. */
  lemma {:induction false} ApplyAllUntouched(st: Placement, ws: seq<Write>, i: nat)
    requires forall k :: 0 <= k < |ws| ==> ws[k].cell < |st.0|
    requires i < |st.0| && forall k :: 0 <= k < |ws| ==> ws[k].cell != i
    ensures ApplyAll(st, ws).0[i] == st.0[i]
    decreases |ws|
  {
    if ws != [] {
      ApplyAllUntouched(Apply(st, ws[0]), ws[1..], i);
    }
  }

  /** Every write lands in a cell of its own column, and that column is bound to a timestamp. */
  lemma {:induction false} WritesInColumn(cells: seq<Cell>, horas: seq<string>, nTimes: nat, ms: seq<StoredMedicion>)
    ensures forall k :: 0 <= k < |Writes(cells, horas, nTimes, ms)| ==>
      var w := Writes(cells, horas, nTimes, ms)[k];
      InColumn(cells[w.cell].horaAttr, w.col) && w.col < nTimes && w.col < |horas|
  {
    if ms != [] {
      WritesInColumn(cells, horas, nTimes, ms[1..]);
      match Target(horas, nTimes, ms[0])
      case None =>
      case Some((p, col)) =>
        ValoresInColumn(cells, p, col, ms[0].valores);
    }
  }

  lemma {:induction false} ValoresInColumn(cells: seq<Cell>, p: int, col: nat, vs: seq<StoredValor>)
    ensures forall k :: 0 <= k < |ValoresWrites(cells, p, col, vs)| ==>
      InColumn(cells[ValoresWrites(cells, p, col, vs)[k].cell].horaAttr, col)
  {
    if vs != [] {
      ValoresInColumn(cells, p, col, vs[1..]);
    }
  }

  /**
   * After a load, a cell holds the text of the last value written to it,
   * or nothing when no value was; a column is locked exactly when some
   * value written into it had non-empty display text.
   */
  lemma LoadCharacterized(cells: seq<Cell>, ms: seq<StoredMedicion>, nTimes: nat, i: nat)
    requires ms != [] && i < |cells|
    ensures var ws := Writes(cells, HorasUnicas(ms), nTimes, ms);
      && (forall k :: 0 <= k < |ws| && ws[k].cell == i && (forall k' :: k < k' < |ws| ==> ws[k'].cell != i) ==>
            LoadCells(cells, ms, nTimes)[i].value == ws[k].shown)
      && ((forall k :: 0 <= k < |ws| ==> ws[k].cell != i) ==> LoadCells(cells, ms, nTimes)[i].value == "")
      && (forall c :: c in LoadPlacement(cells, ms, nTimes).1 <==> exists k :: 0 <= k < |ws| && ws[k].hasData && ws[k].col == c)
  {
    var horas := HorasUnicas(ms);
    var st0: Placement := (Blank(|cells|), []);
    var ws := Writes(cells, horas, nTimes, ms);
    LoadValue(cells, ms, nTimes, i);
    forall k | 0 <= k < |ws| && ws[k].cell == i && (forall k' :: k < k' < |ws| ==> ws[k'].cell != i)
      ensures LoadCells(cells, ms, nTimes)[i].value == ws[k].shown
    {
      ApplyAllLastWrite(st0, ws, k);
    }
    if forall k :: 0 <= k < |ws| ==> ws[k].cell != i {
      ApplyAllUntouched(st0, ws, i);
    }
    forall c ensures c in LoadPlacement(cells, ms, nTimes).1 <==> exists k :: 0 <= k < |ws| && ws[k].hasData && ws[k].col == c
    {
      LoadColumn(cells, ms, nTimes, c);
    }
  }

  lemma LoadValue(cells: seq<Cell>, ms: seq<StoredMedicion>, nTimes: nat, i: nat)
    requires ms != [] && i < |cells|
    ensures LoadCells(cells, ms, nTimes)[i].value == ApplyAll((Blank(|cells|), []), Writes(cells, HorasUnicas(ms), nTimes, ms)).0[i]
  {
    var st := LoadPlacement(cells, ms, nTimes);
    var placed := seq(|cells|, i requires 0 <= i < |cells| => cells[i].(value := st.0[i]));
    assert LoadCells(cells, ms, nTimes) == SetCellsFlags(placed, Elems(st.1), Locked);
    assert SetCellsFlags(placed, Elems(st.1), Locked)[i].value == placed[i].value;
    PlaceAllWrites(cells, (Blank(|cells|), []), HorasUnicas(ms), nTimes, ms);
  }

  lemma LoadColumn(cells: seq<Cell>, ms: seq<StoredMedicion>, nTimes: nat, c: int)
    ensures var ws := Writes(cells, HorasUnicas(ms), nTimes, ms);
      c in LoadPlacement(cells, ms, nTimes).1 <==> exists k :: 0 <= k < |ws| && ws[k].hasData && ws[k].col == c
  {
    var st0: Placement := (Blank(|cells|), []);
    PlaceAllWrites(cells, st0, HorasUnicas(ms), nTimes, ms);
    ApplyAllColumns(st0, Writes(cells, HorasUnicas(ms), nTimes, ms), c);
  }

  // ---- a load depends on the cells' shape only ---------------------------------------

  lemma {:induction false} ValoresWritesShape(a: seq<Cell>, b: seq<Cell>, p: int, col: nat, vs: seq<StoredValor>)
    requires SameShape(a, b)
    ensures ValoresWrites(a, p, col, vs) == ValoresWrites(b, p, col, vs)
  {
    if vs != [] {
      ValoresWritesShape(a, b, p, col, vs[1..]);
      if vs[0].campo.Some? && vs[0].campo.value != 0 {
        FindCellShape(a, b, p, vs[0].campo.value, col);
        match FindCell(a, p, vs[0].campo.value, col)
        case None =>
        case Some(i) =>
          assert Shape(a[i]) == Shape(b[i]);
      }
    }
  }

  lemma {:induction false} WritesShape(a: seq<Cell>, b: seq<Cell>, horas: seq<string>, nTimes: nat, ms: seq<StoredMedicion>)
    requires SameShape(a, b)
    ensures Writes(a, horas, nTimes, ms) == Writes(b, horas, nTimes, ms)
  {
    if ms != [] {
      WritesShape(a, b, horas, nTimes, ms[1..]);
      match Target(horas, nTimes, ms[0])
      case None =>
      case Some((p, col)) =>
        ValoresWritesShape(a, b, p, col, ms[0].valores);
    }
  }

  lemma PlacementShape(a: seq<Cell>, b: seq<Cell>, ms: seq<StoredMedicion>, nTimes: nat)
    requires SameShape(a, b)
    ensures LoadPlacement(a, ms, nTimes) == LoadPlacement(b, ms, nTimes)
  {
    var horas := HorasUnicas(ms);
    PlaceAllWrites(a, (Blank(|a|), []), horas, nTimes, ms);
    PlaceAllWrites(b, (Blank(|b|), []), horas, nTimes, ms);
    WritesShape(a, b, horas, nTimes, ms);
  }

  /**
   * Placing into cells whose values were emptied is placing into the cells
   * themselves: the placement is the load's, and each cell ends with its
   * placed value.
   */
  lemma PlacedAfterClear(cells0: seq<Cell>, cleared: seq<Cell>, placed: seq<Cell>, ms: seq<StoredMedicion>, nTimes: nat)
    requires |cleared| == |cells0| && |placed| == |cells0|
    requires forall i :: 0 <= i < |cells0| ==> cleared[i] == cells0[i].(value := "")
    requires forall i :: 0 <= i < |placed| ==>
      placed[i] == cleared[i].(value := PlaceAll(cleared, (Values(cleared), []), HorasUnicas(ms), nTimes, ms).0[i])
    ensures PlaceAll(cleared, (Values(cleared), []), HorasUnicas(ms), nTimes, ms) == LoadPlacement(cells0, ms, nTimes)
    ensures placed == seq(|cells0|, i requires 0 <= i < |cells0| => cells0[i].(value := LoadPlacement(cells0, ms, nTimes).0[i]))
  {
    assert SameShape(cleared, cells0) by {
      forall i | 0 <= i < |cells0| ensures Shape(cleared[i]) == Shape(cells0[i]) {
      }
    }
    PlacementShape(cleared, cells0, ms, nTimes);
    assert Values(cleared) == Blank(|cleared|);
  }

  /** Loading the same measurements twice leaves the grid as loading them once. */
  lemma LoadIdempotent(cells: seq<Cell>, times: seq<TimeInput>, ms: seq<StoredMedicion>)
    ensures LoadCells(LoadCells(cells, ms, |times|), ms, |times|) == LoadCells(cells, ms, |times|)
    ensures LoadTimes(LoadTimes(times, cells, ms), LoadCells(cells, ms, |times|), ms) == LoadTimes(times, cells, ms)
  {
    LoadCellsIdempotent(cells, ms, |times|);
    LoadTimesIdempotent(cells, times, ms);
  }

  /** A load changes only values and flags: the loaded cells have the shape of the cells. */
  lemma LoadKeepsShape(cells: seq<Cell>, ms: seq<StoredMedicion>, nTimes: nat)
    ensures SameShape(LoadCells(cells, ms, nTimes), cells)
  {
    if ms != [] {
      var once := LoadCells(cells, ms, nTimes);
      forall i | 0 <= i < |cells| ensures Shape(once[i]) == Shape(cells[i]) {
      }
    }
  }

  lemma LoadCellsIdempotent(cells: seq<Cell>, ms: seq<StoredMedicion>, nTimes: nat)
    ensures LoadCells(LoadCells(cells, ms, nTimes), ms, nTimes) == LoadCells(cells, ms, nTimes)
  {
    if ms != [] {
      var once := LoadCells(cells, ms, nTimes);
      LoadKeepsShape(cells, ms, nTimes);
      PlacementShape(once, cells, ms, nTimes);
      var twice := LoadCells(once, ms, nTimes);
      forall i | 0 <= i < |cells| ensures twice[i] == once[i] {
        assert once[i].horaAttr == cells[i].horaAttr;
      }
    }
  }

  lemma LoadTimesIdempotent(cells: seq<Cell>, times: seq<TimeInput>, ms: seq<StoredMedicion>)
    ensures LoadTimes(LoadTimes(times, cells, ms), LoadCells(cells, ms, |times|), ms) == LoadTimes(times, cells, ms)
  {
    if ms != [] {
      var once := LoadCells(cells, ms, |times|);
      LoadKeepsShape(cells, ms, |times|);
      PlacementShape(once, cells, ms, |times|);
      RebindRelock(times, HorasUnicas(ms), Elems(LoadPlacement(cells, ms, |times|).1));
    }
  }

  /** Binding the same timestamps and locking the same columns a second time changes nothing. */
  lemma RebindRelock(times: seq<TimeInput>, horas: seq<string>, cols: set<int>)
    ensures var t1 := SetTimesFlags(BindTimes(times, horas), cols, Locked);
      SetTimesFlags(BindTimes(t1, horas), cols, Locked) == t1
  {
    var bound := BindTimes(times, horas);
    var t1 := SetTimesFlags(bound, cols, Locked);
    var t2 := SetTimesFlags(BindTimes(t1, horas), cols, Locked);
    forall c ensures FirstTime(BindTimes(t1, horas), c) == FirstTime(bound, c) {
      FirstTimeIgnoresFlags(BindTimes(t1, horas), bound, c);
    }
    forall j | 0 <= j < |times| ensures t2[j] == t1[j] {
      if TimeIn(BindTimes(t1, horas), j, cols) {
        var c :| c in cols && FirstTime(BindTimes(t1, horas), c) == Some(j);
        assert TimeIn(bound, j, cols);
      }
    }
  }
}
