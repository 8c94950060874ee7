/** The values that pass between the schedule provider and the reminder
    service (the `ScheduleProvider` protocol in services.py). */
module Schedule {

  datatype Option<T> = None | Some(value: T)

  /** One booked row of the day's column: the text of the time column in that
      row, the booking label, and the row's position in the column (0-based).
      The source passes this as a dictionary with keys "time", "type" and
      "index". */
  datatype Session = Session(time: string, bookingType: string, index: nat)

  /** What a call of `get_sessions_for_day` produces: the list of sessions, or
      the exception it raised (with its message). */
  datatype Fetch = Fetched(sessions: seq<Session>) | Raised(reason: string)
}
