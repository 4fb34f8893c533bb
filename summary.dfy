/**
 * The text the read-only summary panel shows for a stored value: the grid's
 * display precedence, with two differences. A `HH:MM` text of the two
 * time-of-day fields is rewritten in 12-hour form, and a value that comes
 * out empty shows as "-". When the matching grid cell is a `<select>`, the
 * panel shows the chosen option's label instead of its value.
 */
module Summary {
  import opened Wrappers
  import opened Text
  import opened Json
  import opened Models
  import opened GridDisplay
  import opened GridLoad

  /** The two (parametro, campo) pairs whose text is a time of day: (17, 19) and (14, 18). */
  predicate IsTimeField(p: int, c: int) {
    (p == 17 && c == 19) || (p == 14 && c == 18)
  }

  /** `/^(\d{1,2}):(\d{2})$/`: one or two digits, a colon, two digits. */
  predicate IsClockText(s: string) {
    (|s| == 4 || |s| == 5) && AllDigits(s[..|s| - 3]) && s[|s| - 3] == ':' && AllDigits(s[|s| - 2..])
  }

  const Am: string := "a. m."
  const Pm: string := "p. m."

  /** The hour on the 12-hour dial: `h % 12`, with 0 shown as 12. */
  function DialHour(h: nat): (r: nat)
    ensures 1 <= r <= 12
    ensures r % 12 == h % 12
  {
    if h % 12 == 0 then 12 else h % 12
  }

  /** The hour and minute digits of a clock text. */
  function ClockHour(s: string): nat
    requires IsClockText(s)
  {
    DigitsValue(s[..|s| - 3])
  }

  function ClockMinutes(s: string): string
    requires IsClockText(s)
  {
    s[|s| - 2..]
  }

  /** `${h.padStart(2, '0')}:${minutos} ${ampm}` for hour `h` of the day. */
  function TwelveHourText(h: nat, minutes: string): (r: string)
    ensures |r| == 9 + |minutes|
  {
    TwoDigits(DialHour(h)) + ":" + minutes + " " + (if h >= 12 then Pm else Am)
  }

  /** The rewrite of a time field's text: a clock text goes to 12-hour form, anything else is kept. */
  function To12Hour(s: string): (r: string)
    ensures !IsClockText(s) ==> r == s
    ensures IsClockText(s) ==> |r| == 11 && r[2] == ':' && r[3..5] == ClockMinutes(s)
    ensures IsClockText(s) ==> (r[6..] == Pm <==> ClockHour(s) >= 12)
  {
    if IsClockText(s) then
      var r := TwelveHourText(ClockHour(s), ClockMinutes(s));
      assert r[6..] == if ClockHour(s) >= 12 then Pm else Am;
      r
    else s
  }

  /** Reading a 12-hour text back as the hour of the day and the minutes, when it is one. */
  function From12Hour(r: string): (t: Option<(nat, string)>)
  {
    if |r| == 11 && AllDigits(r[..2]) && r[2] == ':' && r[5] == ' ' && (r[6..] == Am || r[6..] == Pm) then
      var dial := DigitsValue(r[..2]);
      if dial == 0 || dial > 12 then None
      else Some((dial % 12 + (if r[6..] == Pm then 12 else 0), r[3..5]))
    else None
  }

  /** The 12-hour text of hour `h` reads back as `h` taken round the dial, on the half of the day `h` names. */
  lemma TwelveHourReadsBack(h: nat, minutes: string)
    requires |minutes| == 2
    ensures From12Hour(TwelveHourText(h, minutes)) == Some((h % 12 + (if h >= 12 then 12 else 0), minutes))
  {
    var r := TwelveHourText(h, minutes);
    var d := TwoDigits(DialHour(h));
    TwoDigitsValue(DialHour(h));
    assert r[..2] == d && r[2] == ':' && r[3..5] == minutes && r[5] == ' ';
    assert r[6..] == if h >= 12 then Pm else Am;
    assert Am[0] != Pm[0];
  }

  /** For a time of day (hour below 24) the 12-hour text reads back as the same hour and minutes. */
  lemma To12HourRoundTrip(s: string)
    requires IsClockText(s) && ClockHour(s) < 24
    ensures From12Hour(To12Hour(s)) == Some((ClockHour(s), ClockMinutes(s)))
  {
    assert To12Hour(s) == TwelveHourText(ClockHour(s), ClockMinutes(s));
    TwelveHourReadsBack(ClockHour(s), ClockMinutes(s));
  }

  /** Rewriting twice is rewriting once: the 12-hour text is no longer a clock text. */
  lemma To12HourIdempotent(s: string)
    ensures To12Hour(To12Hour(s)) == To12Hour(s)
  {
  }

  /** Hours past the day wrap round the dial: "25:00" reads back as 13 o'clock. */
  lemma To12HourPastMidnight()
    ensures IsClockText("25:00") && ClockHour("25:00") == 25
    ensures From12Hour(To12Hour("25:00")) == Some((13, "00"))
  {
    var s := "25:00";
    assert |s| == 5 && s[..|s| - 3] == "25" && s[|s| - 2..] == "00";
    assert DigitsValue("25") == 25 by { assert "25"[..1] == "2"; }
    assert IsClockText(s) && ClockHour(s) == 25 && ClockMinutes(s) == "00";
    assert To12Hour(s) == TwelveHourText(25, "00");
    TwelveHourReadsBack(25, "00");
  }

  /** The label a chosen option shows: `textContent || value`. */
  function Label(o: SelectOption): (r: string)
    ensures r == o.content || (o.content == "" && r == o.value)
  {
    if o.content != "" then o.content else o.value
  }

  /** The text before any option is looked up: the grid's precedence, with the time rewrite, "-" when there is no payload. */
  function PanelText(p: int, c: int, v: StoredValor): (r: string)
  {
    if v.text.Some? then (if IsTimeField(p, c) then To12Hour(v.text.value) else v.text.value)
    else if v.number.Some? || v.boolean.Some? || v.json.Some? then DisplayText(v)
    else "-"
  }

  /**
   * The text of the summary span of value `v` of parametro `p` in column `col`:
   * when the grid cell for the same address is a select, the label of the
   * option the grid's cascade picks; "-" for an empty result.
   */
  function SummaryText(cells: seq<Cell>, p: int, col: nat, c: int, v: StoredValor): (r: string)
  {
    var valor := PanelText(p, c, v);
    var chosen :=
      match FindCell(cells, p, c, col)
      case Some(i) =>
        if cells[i].isSelect && valor != "" && valor != "-" then
          match ChooseOption(cells[i].options, v.boolean, valor)
          case Some(k) => Label(cells[i].options[k])
          case None => valor
        else valor
      case None => valor;
    if chosen == "" then "-" else chosen
  }

  /** The panel never shows an empty span, and a value with no payload shows "-". */
  lemma SummaryNeverEmpty(cells: seq<Cell>, p: int, col: nat, c: int, v: StoredValor)
    ensures SummaryText(cells, p, col, c, v) != ""
    ensures v.text.None? && v.number.None? && v.boolean.None? && v.json.None? ==> SummaryText(cells, p, col, c, v) == "-"
  {
  }

  /**
   * Away from a select and from the two time fields, the panel shows what
   * the grid shows, except that an empty text shows as "-".
   */
  lemma SummaryMatchesGrid(cells: seq<Cell>, p: int, col: nat, c: int, v: StoredValor)
    requires !IsTimeField(p, c)
    requires FindCell(cells, p, c, col).None? || !cells[FindCell(cells, p, c, col).value].isSelect
    ensures SummaryText(cells, p, col, c, v) == if DisplayText(v) == "" then "-" else DisplayText(v)
  {
    DisplayTextEmpty(v);
  }

  /** A clock text of a time field shows in 12-hour form, outside a select. */
  lemma SummaryTimeField(cells: seq<Cell>, p: int, col: nat, c: int, s: string, v: StoredValor)
    requires IsTimeField(p, c) && v.text == Some(s) && IsClockText(s)
    requires FindCell(cells, p, c, col).None? || !cells[FindCell(cells, p, c, col).value].isSelect
    ensures SummaryText(cells, p, col, c, v) == To12Hour(s)
  {
  }

  /**
   * For a select away from the time fields, the panel and the grid settle on
   * the same option: the grid takes its value, the panel shows its label.
   */
  lemma SummarySameOptionAsGrid(cells: seq<Cell>, p: int, col: nat, c: int, v: StoredValor, i: nat, k: nat)
    requires !IsTimeField(p, c) && FindCell(cells, p, c, col) == Some(i) && cells[i].isSelect
    requires DisplayText(v) != "" && DisplayText(v) != "-"
    requires ChooseOption(cells[i].options, v.boolean, DisplayText(v)) == Some(k)
    ensures SelectValue(cells[i].options, v.boolean, DisplayText(v)) == cells[i].options[k].value
    ensures SummaryText(cells, p, col, c, v) == if Label(cells[i].options[k]) == "" then "-" else Label(cells[i].options[k])
  {
    DisplayTextEmpty(v);
  }
}
