/**
 * The measurement grid of the form page: an array of data cells and an
 * array of column time inputs, changed in place by the load of stored
 * measurements, the column lock and unlock, and the reset; read by the save,
 * which builds the measurement payloads.
 */
module Grid {
  import opened Wrappers
  import opened Text
  import opened GridDisplay
  import opened GridCollect
  import opened GridLock
  import opened GridLoad

  class Grid {
    var cells: array<Cell>
    var times: array<TimeInput>

    constructor(cs: seq<Cell>, ts: seq<TimeInput>)
      ensures cells[..] == cs && times[..] == ts
      ensures fresh(cells) && fresh(times)
    {
      cells := new Cell[|cs|](i requires 0 <= i < |cs| => cs[i]);
      times := new TimeInput[|ts|](j requires 0 <= j < |ts| => ts[j]);
    }

    /** The column times as the save reads them: the value of each time input. */
    function Horas(): (r: seq<string>)
      reads this, times
      ensures |r| == times.Length
      ensures forall j :: 0 <= j < times.Length ==> r[j] == times[j].value
    {
      var ts := times[..];
      seq(|ts|, j requires 0 <= j < |ts| => ts[j].value)
    }

    /**
     * The save: walks the cells in document order and builds one payload per
     * (parametro, column) key, in first-seen order.
     */
    method CollectMediciones(formulario: int) returns (payloads: seq<MedicionPayload>)
      ensures payloads == Payloads(Collect(cells[..], Horas(), formulario))
    {
      var horas := Horas();
      var groups: Groups := [];
      var i := 0;
      while i < cells.Length
        invariant 0 <= i <= cells.Length
        invariant groups == GroupEntries(Entries(cells[..i], horas), formulario)
      {
        CollectStep(cells[..], i, horas, formulario);
        groups := AddCell(groups, cells[i], horas, formulario);
        i := i + 1;
      }
      assert cells[..cells.Length] == cells[..];
      payloads := Payloads(groups);
    }

    /** The body of the save's `forEach` for one cell: skip it, or push its value under its key, making the payload on first sight. */
    static method AddCell(groups: Groups, cell: Cell, horas: seq<string>, formulario: int) returns (groups': Groups)
      ensures groups' == AddEntry(groups, EntryOf(cell, horas), formulario)
    {
      EntryOfCases(cell, horas);
      var valor := Trim(cell.value);
      var horaIndex := AttrInt(cell.horaAttr);
      if valor != [] && cell.parametroAttr.Some? && cell.parametroAttr.value != []
        && horaIndex.Some? && 0 <= horaIndex.value < |horas| && horas[horaIndex.value] != []
      {
        var key := KeyText(cell.parametroAttr.value, horaIndex.value);
        groups' := Push(groups, key, AttrInt(cell.parametroAttr), horas[horaIndex.value], ValorOf(cell), formulario);
      } else {
        groups' := groups;
      }
    }

    /** Push a value under `key`, first appending an empty payload for the key when there is none. */
    static method Push(groups: Groups, key: string, parametro: Option<int>, tomadaEn: string, valor: ValorPayload, formulario: int)
      returns (groups': Groups)
      ensures groups' == AddEntry(groups, Entry(Some(key), parametro, tomadaEn, valor), formulario)
    {
      groups' := groups;
      if FindKey(groups', key).None? {
        groups' := groups' + [(key, MedicionPayload(formulario, parametro, tomadaEn, []))];
        assert groups'[|groups|].0 == key;
        assert FindKey(groups', key) == Some(|groups|);
      }
      var k := FindKey(groups', key).value;
      groups' := groups'[k := (key, groups'[k].1.(valores := groups'[k].1.valores + [valor]))];
      assert [] + [valor] == [valor];
    }

    /** `bloquearColumna(c, lock)`: the cells of column `c` and its first time input take the lock state. */
    method LockColumn(c: int, lock: bool)
      modifies cells, times
      ensures cells[..] == SetCellFlags(old(cells[..]), c, LockFlags(lock))
      ensures times[..] == SetTimeFlags(old(times[..]), c, LockFlags(lock))
    {
      var f := LockFlags(lock);
      LockCells(c, f);
      var t := FirstTime(times[..], c);
      if t.Some? {
        times[t.value] := times[t.value].(flags := f);
      }
    }

    /** The cells of column `c` take flags `f`. */
    method LockCells(c: int, f: Flags)
      modifies cells
      ensures cells[..] == SetCellFlags(old(cells[..]), c, f)
    {
      ghost var target := SetCellFlags(cells[..], c, f);
      var k := 0;
      while k < cells.Length
        invariant 0 <= k <= cells.Length
        invariant forall i :: 0 <= i < k ==> cells[i] == target[i]
        invariant forall i :: k <= i < cells.Length ==> cells[i] == old(cells[i])
      {
        if InColumn(cells[k].horaAttr, c) {
          cells[k] := cells[k].(flags := f);
        }
        k := k + 1;
      }
    }

    /** `desbloquearTodasLasColumnas`: unlock columns `0 .. n-1`, one per time input. */
    method UnlockAll()
      modifies cells, times
      ensures cells[..] == SetCellsFlags(old(cells[..]), Range(times.Length), Unlocked)
      ensures times[..] == SetTimesFlags(old(times[..]), Range(times.Length), Unlocked)
    {
      ghost var cells0 := cells[..];
      ghost var times0 := times[..];
      var index := 0;
      assert cells0 == SetCellsFlags(cells0, Range(0), Unlocked);
      assert times0 == SetTimesFlags(times0, Range(0), Unlocked);
      while index < times.Length
        invariant 0 <= index <= times.Length
        invariant cells[..] == SetCellsFlags(cells0, Range(index), Unlocked)
        invariant times[..] == SetTimesFlags(times0, Range(index), Unlocked)
      {
        LockColumn(index, false);
        CellsStep(cells0, Range(index), index, Unlocked);
        TimesStep(times0, Range(index), index, Unlocked);
        index := index + 1;
      }
    }

    /** The grid part of `limpiarFormulario`: unlock every column, then empty and enable every cell and time input. */
    method Clear()
      modifies cells, times
      ensures forall i :: 0 <= i < cells.Length ==>
        cells[i] == ResetCell(SetCellsFlags(old(cells[..]), Range(times.Length), Unlocked)[i])
      ensures forall j :: 0 <= j < times.Length ==>
        times[j] == ResetTime(SetTimesFlags(old(times[..]), Range(times.Length), Unlocked)[j])
    {
      UnlockAll();
      ResetCells();
      ResetTimes();
    }

    /** Every cell is emptied and enabled. */
    method ResetCells()
      modifies cells
      ensures forall i :: 0 <= i < cells.Length ==> cells[i] == ResetCell(old(cells[i]))
    {
      var k := 0;
      while k < cells.Length
        invariant 0 <= k <= cells.Length
        invariant forall i :: 0 <= i < k ==> cells[i] == ResetCell(old(cells[i]))
        invariant forall i :: k <= i < cells.Length ==> cells[i] == old(cells[i])
      {
        cells[k] := ResetCell(cells[k]);
        k := k + 1;
      }
    }

    /** Every time input is emptied and enabled. */
    method ResetTimes()
      modifies times
      ensures forall j :: 0 <= j < times.Length ==> times[j] == ResetTime(old(times[j]))
    {
      var k := 0;
      while k < times.Length
        invariant 0 <= k <= times.Length
        invariant forall j :: 0 <= j < k ==> times[j] == ResetTime(old(times[j]))
        invariant forall j :: k <= j < times.Length ==> times[j] == old(times[j])
      {
        times[k] := ResetTime(times[k]);
        k := k + 1;
      }
    }

    /**
     * `cargarMedicionesEnGrid` on the measurements the API returned: bind the
     * timestamps to columns, empty the cells, write the values, lock the
     * columns that received data. An empty list leaves the grid alone.
     */
    method Load(ms: seq<StoredMedicion>)
      modifies cells, times
      ensures cells[..] == LoadCells(old(cells[..]), ms, times.Length)
      ensures times[..] == LoadTimes(old(times[..]), old(cells[..]), ms)
    {
      if |ms| == 0 {
        return;
      }
      ghost var cells0 := cells[..];
      ghost var times0 := times[..];
      var horas := HorasUnicas(ms);
      FillTimes(horas);
      ClearValues();
      ghost var cleared := cells[..];
      var cols := PlaceValues(ms, horas);
      PlacedAfterClear(cells0, cleared, cells[..], ms, times.Length);
      LockColumns(cols);
    }

    /** Step 2 of the load: the j-th time input shows the j-th timestamp, for j below both counts. */
    method FillTimes(horas: seq<string>)
      modifies times
      ensures times[..] == BindTimes(old(times[..]), horas)
    {
      ghost var times0 := times[..];
      var index := 0;
      while index < |horas|
        invariant 0 <= index <= |horas|
        invariant forall j :: 0 <= j < times.Length && j < index ==> times[j] == times0[j].(value := horas[j])
        invariant forall j :: index <= j < times.Length ==> times[j] == times0[j]
      {
        if index < times.Length {
          times[index] := times[index].(value := horas[index]);
        }
        index := index + 1;
      }
    }

    /** Step 3 of the load: every cell's value is emptied. */
    method ClearValues()
      modifies cells
      ensures forall i :: 0 <= i < cells.Length ==> cells[i] == old(cells[i]).(value := "")
    {
      var k := 0;
      while k < cells.Length
        invariant 0 <= k <= cells.Length
        invariant forall i :: 0 <= i < k ==> cells[i] == old(cells[i]).(value := "")
        invariant forall i :: k <= i < cells.Length ==> cells[i] == old(cells[i])
      {
        cells[k] := cells[k].(value := "");
        k := k + 1;
      }
    }

    /**
     * Step 4 of the load: each value of each measurement with a column and a
     * parametro goes, as display text, into the first cell with its
     * attributes; the columns that get non-empty text are collected.
     */
    method PlaceValues(ms: seq<StoredMedicion>, horas: seq<string>) returns (cols: seq<int>)
      modifies cells
      ensures forall i :: 0 <= i < cells.Length ==>
        cells[i] == old(cells[i]).(value := PlaceAll(old(cells[..]), (Values(old(cells[..])), []), horas, times.Length, ms).0[i])
      ensures cols == PlaceAll(old(cells[..]), (Values(old(cells[..])), []), horas, times.Length, ms).1
    {
      ghost var cells0 := cells[..];
      ghost var final := PlaceAll(cells0, (Values(cells0), []), horas, times.Length, ms);
      cols := [];
      var i := 0;
      while i < |ms|
        invariant 0 <= i <= |ms|
        invariant forall k :: 0 <= k < cells.Length ==> cells[k] == cells0[k].(value := cells[k].value)
        invariant PlaceAll(cells0, (Values(cells[..]), cols), horas, times.Length, ms[i..]) == final
      {
        var m := ms[i];
        assert ms[i..][0] == m && ms[i..][1..] == ms[i + 1..];
        var col := ColumnOf(horas, times.Length, m.tomadaEn);
        if col.Some? && m.parametro.Some? && m.parametro.value != 0 {
          cols := PlaceMedicionValores(cells0, m.parametro.value, col.value, m.valores, cols);
        }
        i := i + 1;
      }
      assert ms[|ms|..] == [];
      assert cells[..] == seq(|cells0|, k requires 0 <= k < |cells0| => cells0[k].(value := final.0[k]));
    }

    /** The inner walk of step 4 over one measurement's values. */
    method PlaceMedicionValores(ghost shape: seq<Cell>, p: int, col: nat, vs: seq<StoredValor>, cols: seq<int>)
      returns (cols': seq<int>)
      requires |shape| == cells.Length
      requires forall k :: 0 <= k < cells.Length ==> cells[k] == shape[k].(value := cells[k].value)
      modifies cells
      ensures forall k :: 0 <= k < cells.Length ==> cells[k] == shape[k].(value := cells[k].value)
      ensures (Values(cells[..]), cols') == PlaceValores(shape, (Values(old(cells[..])), cols), p, col, vs)
    {
      cols' := cols;
      var j := 0;
      while j < |vs|
        invariant 0 <= j <= |vs|
        invariant forall k :: 0 <= k < cells.Length ==> cells[k] == shape[k].(value := cells[k].value)
        invariant PlaceValores(shape, (Values(cells[..]), cols'), p, col, vs[j..])
               == PlaceValores(shape, (Values(old(cells[..])), cols), p, col, vs)
      {
        assert vs[j..][0] == vs[j] && vs[j..][1..] == vs[j + 1..];
        cols' := WriteValor(shape, p, col, vs[j], cols');
        j := j + 1;
      }
      assert vs[|vs|..] == [];
    }

    /** One value of step 4: find its cell, write its display text (through the option cascade for a select). */
    method WriteValor(ghost shape: seq<Cell>, p: int, col: nat, v: StoredValor, cols: seq<int>) returns (cols': seq<int>)
      requires |shape| == cells.Length
      requires forall k :: 0 <= k < cells.Length ==> cells[k] == shape[k].(value := cells[k].value)
      modifies cells
      ensures forall k :: 0 <= k < cells.Length ==> cells[k] == shape[k].(value := cells[k].value)
      ensures (Values(cells[..]), cols') == ApplyOpt((Values(old(cells[..])), cols), ValorWrite(shape, p, col, v))
    {
      cols' := cols;
      if v.campo.Some? && v.campo.value != 0 {
        assert SameShape(cells[..], shape);
        FindCellShape(cells[..], shape, p, v.campo.value, col);
        var target := FindCell(cells[..], p, v.campo.value, col);
        if target.Some? {
          var idx := target.value;
          var valor := DisplayText(v);
          ghost var c0 := cells[..];
          var text := if cells[idx].isSelect && valor != "" then SelectValue(cells[idx].options, v.boolean, valor) else valor;
          cells[idx] := cells[idx].(value := text);
          assert cells[..] == c0[idx := c0[idx].(value := text)];
          WriteValueKeeps(c0, shape, idx, text);
          if valor != "" && col !in cols' {
            cols' := cols' + [col];
          }
        }
      }
    }

    /** Step 5 of the load: lock every column with data, in the order they were found. */
    method LockColumns(cols: seq<int>)
      modifies cells, times
      ensures cells[..] == SetCellsFlags(old(cells[..]), Elems(cols), Locked)
      ensures times[..] == SetTimesFlags(old(times[..]), Elems(cols), Locked)
    {
      ghost var cells0 := cells[..];
      ghost var times0 := times[..];
      assert cells0 == SetCellsFlags(cells0, Elems(cols[..0]), Locked);
      assert times0 == SetTimesFlags(times0, Elems(cols[..0]), Locked);
      var i := 0;
      while i < |cols|
        invariant 0 <= i <= |cols|
        invariant cells[..] == SetCellsFlags(cells0, Elems(cols[..i]), Locked)
        invariant times[..] == SetTimesFlags(times0, Elems(cols[..i]), Locked)
      {
        LockColumn(cols[i], true);
        CellsStep(cells0, Elems(cols[..i]), cols[i], Locked);
        TimesStep(times0, Elems(cols[..i]), cols[i], Locked);
        assert Elems(cols[..i + 1]) == Elems(cols[..i]) + {cols[i]} by {
          assert cols[..i + 1] == cols[..i] + [cols[i]];
        }
        i := i + 1;
      }
      assert cols[..|cols|] == cols;
    }
  }
}
