/** `SheetsScheduleProvider.get_sessions_for_day`: reading one day's booked
    rows out of the week's worksheet. The worksheet is given as the data the
    provider reads from it. */
module SheetsSchedule {
  import opened Schedule

  /** The parts of a worksheet the provider reads.
      `days` is what `worksheet.get("B2:H2")` returns (a list of rows, the
      first of which holds the weekday names); `columns[c - 1]` is what
      `worksheet.col_values(c)` returns for column `c` (1-based);
      `bookingTypes` is what `worksheet.get("I7:I12")` returns. */
  datatype Worksheet = Worksheet(
    days: seq<seq<string>>,
    columns: seq<seq<string>>,
    bookingTypes: seq<seq<string>>)

  /** The header range starts in column B, the second column. */
  const FirstDayColumn: nat := 2

  /** The message of the exception raised when no worksheet is available. */
  const WorksheetMissing := "Worksheet not available"

  /** `worksheet.col_values(col)`: the cells of column `col`, or nothing for a
      column beyond the sheet's data. */
  function ColValues(ws: Worksheet, col: nat): seq<string>
  {
    if 1 <= col <= |ws.columns| then ws.columns[col - 1] else []
  }

  /** The position of the first header cell equal to `day`, if any. */
  function DayPosition(header: seq<string>, day: string): (r: Option<nat>)
    ensures r.Some? ==> r.value < |header| && header[r.value] == day
    ensures r.Some? ==> forall k :: 0 <= k < r.value ==> header[k] != day
    ensures r.None? <==> day !in header
  {
    if header == [] then None
    else if header[0] == day then Some(0)
    else match DayPosition(header[1..], day)
      case None => None
      case Some(k) => Some(k + 1)
  }

  /** The set comprehension `{row[0] for row in booking_types if row}`. */
  function ValidTypes(rows: seq<seq<string>>): set<string>
  {
    set row | row in rows && row != [] :: row[0]
  }

  /** Built row by row: an empty row adds no type, any other row adds exactly
      its first cell. */
  lemma ValidTypesByRow(rows: seq<seq<string>>, row: seq<string>)
    ensures ValidTypes(rows + [row]) == ValidTypes(rows) + (if row == [] then {} else {row[0]})
  {
    var both := rows + [row];
    forall t | t in ValidTypes(both)
      ensures t in ValidTypes(rows) + (if row == [] then {} else {row[0]})
    {
      var r :| r in both && r != [] && r[0] == t;
      if r != row {
        assert r in rows;
      }
    }
    assert forall r :: r in rows ==> r in both;
  }

  /** `time_values[index] if index < len(time_values) else ""`. */
  function TimeAt(times: seq<string>, index: nat): string
  {
    if index < |times| then times[index] else ""
  }

  /** The sessions among the first `n` rows of the booking column: one for
      every row whose label is a valid type, in row order. */
  function ExtractUpTo(booking: seq<string>, times: seq<string>, valid: set<string>, n: nat): seq<Session>
    requires n <= |booking|
  {
    if n == 0 then []
    else
      ExtractUpTo(booking, times, valid, n - 1)
      + (if booking[n - 1] in valid then [Session(TimeAt(times, n - 1), booking[n - 1], n - 1)] else [])
  }

  function Extract(booking: seq<string>, times: seq<string>, valid: set<string>): seq<Session>
  {
    ExtractUpTo(booking, times, valid, |booking|)
  }

  /** Every emitted session is a row of the column whose label is a valid type,
      and carries the time of that row ("" past the end of the time column). */
  lemma {:induction false} ExtractSound(booking: seq<string>, times: seq<string>, valid: set<string>, n: nat)
    requires n <= |booking|
    ensures forall k :: 0 <= k < |ExtractUpTo(booking, times, valid, n)| ==>
      var r := ExtractUpTo(booking, times, valid, n)[k];
      r.index < n && r.bookingType == booking[r.index] && r.bookingType in valid
      && r.time == (if r.index < |times| then times[r.index] else "")
  {
    if n > 0 {
      ExtractSound(booking, times, valid, n - 1);
    }
  }

  /** Emitted row positions strictly increase, so the output follows row order
      and no row is emitted twice; there are at most as many sessions as rows. */
  lemma {:induction false} ExtractOrdered(booking: seq<string>, times: seq<string>, valid: set<string>, n: nat)
    requires n <= |booking|
    ensures |ExtractUpTo(booking, times, valid, n)| <= n
    ensures forall k1, k2 :: 0 <= k1 < k2 < |ExtractUpTo(booking, times, valid, n)| ==>
      ExtractUpTo(booking, times, valid, n)[k1].index < ExtractUpTo(booking, times, valid, n)[k2].index
  {
    if n > 0 {
      ExtractOrdered(booking, times, valid, n - 1);
      ExtractSound(booking, times, valid, n - 1);
    }
  }

  /** Every row whose label is a valid type is emitted. */
  lemma {:induction false} ExtractComplete(booking: seq<string>, times: seq<string>, valid: set<string>, n: nat)
    requires n <= |booking|
    ensures forall i :: 0 <= i < n && booking[i] in valid ==>
      exists k :: 0 <= k < |ExtractUpTo(booking, times, valid, n)| && ExtractUpTo(booking, times, valid, n)[k].index == i
  {
    if n > 0 {
      ExtractComplete(booking, times, valid, n - 1);
      var prev := ExtractUpTo(booking, times, valid, n - 1);
      var out := ExtractUpTo(booking, times, valid, n);
      assert forall k :: 0 <= k < |prev| ==> out[k] == prev[k];
      forall i | 0 <= i < n && booking[i] in valid
        ensures exists k :: 0 <= k < |out| && out[k].index == i
      {
        if i == n - 1 {
          assert out[|prev|].index == i;
        } else {
          assert i < n - 1;
          var k :| 0 <= k < |prev| && prev[k].index == i;
          assert out[k].index == i;
        }
      }
      assert out == ExtractUpTo(booking, times, valid, n);
    }
  }

  /** A day column with two kinds of booked rows among other labels: only the
      booked rows come out, with their row positions and times. */
  lemma ExtractExample()
    ensures Extract(["x", "practice", "practice", "x", "officials"],
                    ["", "09-10", "10-11", "", "14:00-15:30"],
                    {"practice", "officials"})
      == [Session("09-10", "practice", 1), Session("10-11", "practice", 2), Session("14:00-15:30", "officials", 4)]
  {
    var b, t, v := ["x", "practice", "practice", "x", "officials"], ["", "09-10", "10-11", "", "14:00-15:30"], {"practice", "officials"};
    assert "x" !in v;
    assert ExtractUpTo(b, t, v, 1) == [];
    assert ExtractUpTo(b, t, v, 2) == [Session("09-10", "practice", 1)];
    assert ExtractUpTo(b, t, v, 3) == [Session("09-10", "practice", 1), Session("10-11", "practice", 2)];
    assert ExtractUpTo(b, t, v, 4) == ExtractUpTo(b, t, v, 3);
  }

  /** The provider's result for `dayName` on the worksheet `sheet` (`None` when
      `get_sheet()` found no worksheet). */
  function SessionsForDay(sheet: Option<Worksheet>, dayName: string): Fetch
  {
    match sheet
    case None => Raised(WorksheetMissing)
    case Some(ws) =>
      if ws.days == [] || ws.days[0] == [] then Fetched([])
      else match DayPosition(ws.days[0], dayName)
        case None => Fetched([])
        case Some(k) =>
          Fetched(Extract(ColValues(ws, FirstDayColumn + k), ColValues(ws, 1), ValidTypes(ws.bookingTypes)))
  }

  /** `get_sessions_for_day(day_name)`, with the worksheet `get_sheet()` returned
      passed in as `sheet`. */
  method GetSessionsForDay(sheet: Option<Worksheet>, dayName: string) returns (r: Fetch)
    ensures r == SessionsForDay(sheet, dayName)
    ensures r.Raised? <==> sheet.None?
    ensures sheet.Some? && (sheet.value.days == [] || sheet.value.days[0] == []) ==> r == Fetched([])
    ensures sheet.Some? && sheet.value.days != [] && dayName !in sheet.value.days[0] ==> r == Fetched([])
  {
    if sheet.None? {
      return Raised(WorksheetMissing);
    }
    var worksheet := sheet.value;

    var days := worksheet.days;
    if days == [] || days[0] == [] {
      return Fetched([]);
    }

    // The header search; `worksheet.find(day_name)` is taken to return the
    // header cell just matched.
    var cell: Option<nat> := None;
    var k := 0;
    while k < |days[0]|
      invariant 0 <= k <= |days[0]|
      invariant cell.None?
      invariant forall m :: 0 <= m < k ==> days[0][m] != dayName
    {
      if days[0][k] == dayName {
        cell := Some(FirstDayColumn + k);
        break;
      }
      k := k + 1;
    }
    assert cell.Some? ==> DayPosition(days[0], dayName) == Some(k) && cell.value == FirstDayColumn + k;

    if cell.None? {
      return Fetched([]);
    }

    var booking := ColValues(worksheet, cell.value);
    var timeValues := ColValues(worksheet, 1);
    var validTypes := ValidTypes(worksheet.bookingTypes);

    var sessions: seq<Session> := [];
    for index := 0 to |booking|
      invariant sessions == ExtractUpTo(booking, timeValues, validTypes, index)
    {
      var bookingType := booking[index];
      if bookingType in validTypes {
        var timeStr := if index < |timeValues| then timeValues[index] else "";
        sessions := sessions + [Session(timeStr, bookingType, index)];
      }
    }
    return Fetched(sessions);
  }
}
