/**
 * The lock state of the grid's columns: locking or unlocking one column sets
 * the flags of every cell whose `data-hora-index` names it and of the first
 * time input that does; the load locks a set of columns, the reset unlocks
 * the columns the time inputs count.
 */
module GridLock {
  import opened Wrappers
  import opened Text
  import opened GridDisplay

  function LockFlags(lock: bool): Flags {
    if lock then Locked else Unlocked
  }

  /** Every cell of column `c` takes flags `f`; every other cell is left as it is. */
  function SetCellFlags(cs: seq<Cell>, c: int, f: Flags): (r: seq<Cell>)
    ensures |r| == |cs|
    ensures forall i :: 0 <= i < |cs| && InColumn(cs[i].horaAttr, c) ==> r[i] == cs[i].(flags := f)
    ensures forall i :: 0 <= i < |cs| && !InColumn(cs[i].horaAttr, c) ==> r[i] == cs[i]
  {
    seq(|cs|, i requires 0 <= i < |cs| => if InColumn(cs[i].horaAttr, c) then cs[i].(flags := f) else cs[i])
  }

  /** `querySelector('.time-input[data-hora-index="c"]')`: the first time input of column `c`. */
  function FirstTime(ts: seq<TimeInput>, c: int): (r: Option<nat>)
    ensures r.Some? ==> r.value < |ts| && InColumn(ts[r.value].horaAttr, c)
    ensures r.Some? ==> forall j :: 0 <= j < r.value ==> !InColumn(ts[j].horaAttr, c)
    ensures r.None? ==> forall j :: 0 <= j < |ts| ==> !InColumn(ts[j].horaAttr, c)
  {
    FirstWithAttr(ts, IntToString(c))
  }

  /** The first time input whose `data-hora-index` attribute is the text `a`. */
  function FirstWithAttr(ts: seq<TimeInput>, a: string): (r: Option<nat>)
    ensures r.Some? ==> r.value < |ts| && ts[r.value].horaAttr == Some(a)
    ensures r.Some? ==> forall j :: 0 <= j < r.value ==> ts[j].horaAttr != Some(a)
    ensures r.None? ==> forall j :: 0 <= j < |ts| ==> ts[j].horaAttr != Some(a)
  {
    if ts == [] then None
    else if ts[0].horaAttr == Some(a) then Some(0)
    else match FirstWithAttr(ts[1..], a)
      case None => None
      case Some(j) => Some(j + 1)
  }

  /** The first time input of column `c`, if any, takes flags `f`. */
  function SetTimeFlags(ts: seq<TimeInput>, c: int, f: Flags): (r: seq<TimeInput>)
    ensures |r| == |ts|
  {
    match FirstTime(ts, c)
    case None => ts
    case Some(j) => ts[j := ts[j].(flags := f)]
  }

  /** The attribute names one of the columns in `cols`. */
  predicate ColumnIn(attr: Option<string>, cols: set<int>) {
    exists c :: c in cols && InColumn(attr, c)
  }

  /** Every cell of a column in `cols` takes flags `f`. */
  function SetCellsFlags(cs: seq<Cell>, cols: set<int>, f: Flags): (r: seq<Cell>)
    ensures |r| == |cs|
  {
    seq(|cs|, i requires 0 <= i < |cs| => if ColumnIn(cs[i].horaAttr, cols) then cs[i].(flags := f) else cs[i])
  }

  /** The time input is the first of one of the columns in `cols`. */
  predicate TimeIn(ts: seq<TimeInput>, j: nat, cols: set<int>) {
    exists c :: c in cols && FirstTime(ts, c) == Some(j)
  }

  /** The first time input of each column in `cols` takes flags `f`. */
  function SetTimesFlags(ts: seq<TimeInput>, cols: set<int>, f: Flags): (r: seq<TimeInput>)
    ensures |r| == |ts|
  {
    seq(|ts|, j requires 0 <= j < |ts| => if TimeIn(ts, j, cols) then ts[j].(flags := f) else ts[j])
  }

  /** Changing flags leaves every column's first time input where it was. */
  lemma {:induction false} FirstTimeIgnoresFlags(ts: seq<TimeInput>, us: seq<TimeInput>, c: int)
    requires |ts| == |us| && forall j :: 0 <= j < |ts| ==> ts[j].horaAttr == us[j].horaAttr
    ensures FirstTime(ts, c) == FirstTime(us, c)
  {
    if ts != [] {
      FirstTimeIgnoresFlags(ts[1..], us[1..], c);
    }
  }

  /** Locking the columns of `done` and then column `c` locks the columns of `done + {c}`. */
  lemma CellsStep(cs: seq<Cell>, done: set<int>, c: int, f: Flags)
    ensures SetCellFlags(SetCellsFlags(cs, done, f), c, f) == SetCellsFlags(cs, done + {c}, f)
  {
    var a := SetCellFlags(SetCellsFlags(cs, done, f), c, f);
    var b := SetCellsFlags(cs, done + {c}, f);
    forall i | 0 <= i < |cs| ensures a[i] == b[i] {
      if InColumn(cs[i].horaAttr, c) {
        assert ColumnIn(cs[i].horaAttr, done + {c});
      } else if ColumnIn(cs[i].horaAttr, done + {c}) {
        var d :| d in done + {c} && InColumn(cs[i].horaAttr, d);
        assert ColumnIn(cs[i].horaAttr, done);
      }
    }
  }

  lemma TimesStep(ts: seq<TimeInput>, done: set<int>, c: int, f: Flags)
    ensures SetTimeFlags(SetTimesFlags(ts, done, f), c, f) == SetTimesFlags(ts, done + {c}, f)
  {
    var m := SetTimesFlags(ts, done, f);
    FirstTimeIgnoresFlags(m, ts, c);
    var a := SetTimeFlags(m, c, f);
    var b := SetTimesFlags(ts, done + {c}, f);
    forall j | 0 <= j < |ts| ensures a[j] == b[j] {
      if FirstTime(ts, c) == Some(j) {
        assert TimeIn(ts, j, done + {c});
      } else if TimeIn(ts, j, done + {c}) {
        var d :| d in done + {c} && FirstTime(ts, d) == Some(j);
        assert TimeIn(ts, j, done);
      }
    }
  }

  /** Unlocking a column after locking it leaves the column as a plain unlock would. */
  lemma LockThenUnlock(cs: seq<Cell>, ts: seq<TimeInput>, c: int)
    ensures SetCellFlags(SetCellFlags(cs, c, Locked), c, Unlocked) == SetCellFlags(cs, c, Unlocked)
    ensures SetTimeFlags(SetTimeFlags(ts, c, Locked), c, Unlocked) == SetTimeFlags(ts, c, Unlocked)
  {
    var a := SetCellFlags(SetCellFlags(cs, c, Locked), c, Unlocked);
    assert forall i :: 0 <= i < |cs| ==> a[i] == SetCellFlags(cs, c, Unlocked)[i];
    FirstTimeIgnoresFlags(SetTimeFlags(ts, c, Locked), ts, c);
  }

  /** Locking (or unlocking) the same column twice is the same as once. */
  lemma SetFlagsIdempotent(cs: seq<Cell>, ts: seq<TimeInput>, c: int, f: Flags)
    ensures SetCellFlags(SetCellFlags(cs, c, f), c, f) == SetCellFlags(cs, c, f)
    ensures SetTimeFlags(SetTimeFlags(ts, c, f), c, f) == SetTimeFlags(ts, c, f)
  {
    var a := SetCellFlags(SetCellFlags(cs, c, f), c, f);
    assert forall i :: 0 <= i < |cs| ==> a[i] == SetCellFlags(cs, c, f)[i];
    FirstTimeIgnoresFlags(SetTimeFlags(ts, c, f), ts, c);
  }

  /** The columns `0 .. n-1` that the unlock-all walks, one per time input. */
  function Range(n: nat): (r: set<int>)
    ensures forall k :: k in r <==> 0 <= k < n
  {
    if n == 0 then {} else Range(n - 1) + {n - 1}
  }

  /** The flags after the reset: enabled and unstyled, with the `data-bloqueado` mark left as it is. */
  function ResetFlags(f: Flags): (r: Flags)
    ensures !r.disabled && !r.readOnly && !r.shaded && r.marked == f.marked
  {
    f.(disabled := false, readOnly := false, shaded := false)
  }

  /**
   * The grid part of the reset: empty value and reset flags. The reset runs
   * the same statements over the value cells and the time inputs, which are
   * two record types here, hence `ResetCell` and `ResetTime`.
   */
  function ResetCell(c: Cell): (r: Cell)
    ensures r.value == [] && !r.flags.disabled && !r.flags.readOnly && !r.flags.shaded
    ensures r.flags.marked == c.flags.marked
    ensures r.(value := c.value, flags := c.flags) == c
  {
    c.(value := "", flags := ResetFlags(c.flags))
  }

  /** The time-input part of the reset, as `ResetCell`. */
  function ResetTime(t: TimeInput): (r: TimeInput)
    ensures r.value == [] && !r.flags.disabled && !r.flags.readOnly && !r.flags.shaded
    ensures r.flags.marked == t.flags.marked
    ensures r.(value := t.value, flags := t.flags) == t
  {
    t.(value := "", flags := ResetFlags(t.flags))
  }

  /**
   * After the reset a cell keeps its `data-bloqueado` mark exactly when it
   * had one and its column is not among the `n` columns unlocked first.
   */
  lemma ResetKeepsStrayMarks(cs: seq<Cell>, n: nat, i: nat)
    requires i < |cs|
    ensures ResetCell(SetCellsFlags(cs, Range(n), Unlocked)[i]).flags.marked <==>
      cs[i].flags.marked && !ColumnIn(cs[i].horaAttr, Range(n))
  {
  }
}
