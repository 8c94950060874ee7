/** The reminder as the bot wires it: a `ReminderService` over the
    Sheets-backed schedule provider and the user repository. The day name
    and the worksheet are inputs here. */
module Pipeline {
  import opened Schedule
  import opened SheetsSchedule
  import opened Services

  /** `send_today_overview` with `get_sessions_for_day` of the Sheets provider
      as its schedule source. A missing worksheet gives the error message; a
      header without the day gives the "no sessions" message; neither asks for
      the users. */
  method SendDailyOverview(sheet: Option<Worksheet>, dayToday: string, users: seq<int>)
    returns (sent: seq<string>, usersRead: bool)
    ensures sheet.None? ==> sent == [ErrorMessage] && !usersRead
    ensures sheet.Some? && (sheet.value.days == [] || sheet.value.days[0] == []
                            || dayToday !in sheet.value.days[0]) ==>
      sent == [NoSessionsMessage] && !usersRead
    ensures sheet.Some? && sheet.value.days != [] && dayToday in sheet.value.days[0] ==>
      var ws := sheet.value;
      var k := DayPosition(ws.days[0], dayToday).value;
      var sessions := Extract(ColValues(ws, FirstDayColumn + k), ColValues(ws, 1), ValidTypes(ws.bookingTypes));
      (sessions == [] ==> sent == [NoSessionsMessage] && !usersRead)
      && (sessions != [] ==> sent == [AgendaMessage(AgendaLines(sessions), users)] && usersRead)
  {
    var fetched := GetSessionsForDay(sheet, dayToday);
    sent, usersRead := SendTodayOverview(fetched, users);
  }
}
