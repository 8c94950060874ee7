# PraccReminder: the daily agenda pipeline

PraccReminder is a Discord bot that posts the day's practice and officials
bookings. It reads them from the week's Google Sheets worksheet. This project
models the part with logic in it and proves properties about it. That part has
two halves.

- **Session extraction**: `SheetsScheduleProvider.get_sessions_for_day`
  (`sheets_schedule.dfy`, module `SheetsSchedule`). It finds the day's column
  through the header row `B2:H2`. It takes the set of booking types from the
  first cells of the non-empty rows of `I7:I12`. Then it emits one session
  `{time, type, index}` for every row of the day's column whose label is a
  booking type, in row order.
- **Consolidation and message**: `ReminderService.send_today_overview`
  (`services.dfy`, module `Services`). A two-cursor scan merges each run of
  sessions with the same type on consecutive rows into one agenda line
  ("Klokken 09-11 - practice"). The lines go after the title
  "Her er dagens agenda:". Mentions of the subscribed users are appended if
  there are any. A failing provider gives a fixed error message. An empty
  session list gives a fixed "no sessions" message.

In the model the inner `while` loop of the consolidation is its own method
(`ScanRun`), which the outer loop (`ConsolidateSessions`) calls with the run's
first position and the first record's end part.

`pipeline.dfy` (module `Pipeline`) connects the two halves, the way `main.py`
plugs the Sheets provider into the service. `schedule.dfy` holds the shared
record types. `text.dfy` writes out the Python string operations the program uses:
`str.strip()`, `str.split("-", 1)`, `str.join` and `str(int)`. It also defines
`Split`, a model of Python's `str.split(c)`. The program never calls it: it is
used only to state how the composed message reads line by line
(`AgendaMessageLines`). `SplitPiecesAvoid` and `JoinSplit` show that it
behaves as `str.split`.

Inputs that come from I/O in the program are parameters here:
- what `get_sheet()` returned, as `Option<Worksheet>`; `Worksheet` holds the
  header range, the column values and the booking-type range;
- the day name that `datetime.now(tz).strftime("%A")` gives;
- the user ids the repository returns, as `seq<int>`.

`channel.send` is modelled as the list `sent` of messages the call sends.
Whether the user repository is read is reported as `usersRead`.

Three behaviours worth noting:
- the agenda line starts with "Klokken " (services.py:72);
- a time text without '-' is used unstripped as the start time
  (services.py:55-56);
- a day missing from the header gives an empty session list, not an error
  (sheets_schedule.py:29-31), so the user sees the "no sessions" message.

## Model

| member | source | states |
|---|---|---|
| `Text.StripShape` | services.py:54 | `part.strip()` (`Strip`): the result neither begins nor ends with white space (Python's `isspace` set), is no longer than the input, and is empty exactly when the input is all white space |
| `Text.StripExact` | services.py:54 | stripping removes exactly the surrounding white space: white space + an unpadded text + white space strips back to that text |
| `Text.StripIdempotent` | services.py:54 | stripping a stripped time part changes nothing |
| `Text.SplitOnceParts` | services.py:54 | `time_str.split("-", 1)` (`SplitOnce`) on a text containing '-': the text is left part + "-" + right part, and the left part has no '-' |
| `Text.SplitOnceAtFirst` | services.py:54 | the split is at the first '-' and nowhere else: for any '-'-free left part, splitting left + "-" + right gives exactly (left, right), even when right contains '-' |
| `Text.SplitJoin` | services.py:81 | `"\n".join(lines)` loses nothing: splitting the joined text at '\n' gives back the lines, when no line contains '\n' |
| `Text.SplitPiecesAvoid` | services.py:81 | `Split`, the model of `str.split(c)` used to read the message of `"\n".join` line by line: no piece contains the separator |
| `Text.JoinSplit` | services.py:81 | the partner direction for `Split`: joining the pieces of a split text gives the text back |
| `Text.NatToDecimal` | services.py:84 | `str(user_id)` for a non-negative id: a non-empty string of decimal digits with no leading zero |
| `Text.IntToDecimalRoundTrip` | services.py:84 | `str(user_id)` can be read back to the same id, negative ids included |
| `SheetsSchedule.DayPosition` | sheets_schedule.py:23-27 | the header search: `Some(k)` when `header[k]` is the day and no earlier cell is; `None` exactly when the day is not in the header |
| `SheetsSchedule.ValidTypesByRow` | sheets_schedule.py:37 | `valid_types`, row by row: an empty row adds nothing, a non-empty row adds exactly its first cell |
| `SheetsSchedule.ExtractSound` | sheets_schedule.py:39-43 | every emitted session has an index below the column length, a label equal to the column cell there, a label in `valid_types`, and the time `time_values[index]` (or "" when the time column is shorter) |
| `SheetsSchedule.ExtractOrdered` | sheets_schedule.py:40-43 | emitted indices strictly increase (row order, no row twice) and there are at most as many sessions as rows |
| `SheetsSchedule.ExtractComplete` | sheets_schedule.py:39-43 | every row whose label is in `valid_types` is emitted |
| `SheetsSchedule.ExtractExample` | sheets_schedule.py:39-43 | on the column `x, practice, practice, x, officials` exactly rows 1, 2 and 4 come out, with their times |
| `SheetsSchedule.GetSessionsForDay` | sheets_schedule.py:12-45 | the provider method (header loop with `break`, filtering loop) computes `SessionsForDay`; it raises exactly when there is no worksheet; it returns `[]` for a missing or empty header row and for a day that is not in the header |
| `Services.SplitTimeAtFirstDash` | services.py:52-56 | a time `left-right` with '-'-free `left` gives start `strip(left)` and end `strip(right)`, and `right` may itself contain '-' |
| `Services.ExtendRunStops` | services.py:60-69 | the inner loop's stopping point (`ExtendRun`): every record before it continues the run (same type as the run's first record, index one past its predecessor), and the record at it (if any) does not |
| `Services.RunEnd` | services.py:60-76 | a run covers at least one record (`j >= i + 1`) and stays within the sessions, so the outer cursor strictly increases |
| `Services.RunsAreMaximal` | services.py:49-76 | the runs the scan finds follow each other without gap or overlap up to the end; inside a run each record has its predecessor's type and the next index; the record after a run breaks one of the two |
| `Services.MaximalRunsUnique` | services.py:49-76 | any decomposition with those properties is the scan's: the runs are fully determined by the maximality rule |
| `Services.RunSharesType` | services.py:61-65 | comparing with the run's first type (as the loop does) is the same as comparing with the predecessor's type |
| `Services.RunsPartition` | services.py:49-76 | listing the positions run by run gives `0, 1, ..., len(sessions) - 1` exactly once each, in order; there are between 1 and `len(sessions)` runs when there are sessions |
| `Services.LastWithDashIsLast` | services.py:66-68 | `LastWithDash` finds the last run member whose time contains '-': it has a '-', and no later member does; `None` when no member has one |
| `Services.RunEndTimeStep` | services.py:66-68 | the end time of a run grows member by member: a member with '-' overwrites it with its end part, a member without '-' leaves it |
| `Services.AgendaLinesFollowRuns` | services.py:48-76 | there is one agenda line per run, in run order, and line k is the formatted line of run k |
| `Services.ScanRun` | services.py:60-68 | the inner loop: it stops exactly at the end of the run that starts at `i` (`RunEnd`), and returns the run's end time, the end part of the last member whose time contains '-' ("" when none does) |
| `Services.ConsolidateSessions` | services.py:48-76 | the two-cursor loop produces the agenda lines: for each run, `Klokken {start}-{end} - {type}` when the first member's start part and the run's end time are both non-empty, else `{first raw time} - {type}`; end time = end part of the last member with '-' |
| `Services.AgendaLinesSingleLine` | services.py:48-76 | when no session's time or type contains '\n', no agenda line does, so each is one line of the message; there is at least one line and at most one per session |
| `Services.RunLineAvoids` | services.py:52-76 | a run's line contains a character only if the fixed text "Klokken - " or a member's time or type does |
| `Services.ConsolidationExample` | services.py:48-76 | `09-10` and `10-11` practice on rows 1 and 2 merge into "Klokken 09-11 - practice"; `14:00-15:30` officials on row 4 gives "Klokken 14:00-15:30 - officials" |
| `Services.EmptyEndOverwritesExample` | services.py:60-76 | a later member `10-` overwrites the end time with its empty end part, so the run `09-10`, `10-` gives "09-10 - p" |
| `Services.MentionInjective` | services.py:84 | `<@{user_id}>` names its user: different ids give different mentions |
| `Services.MessageShape` | services.py:81-85 | building the message by `+=` gives title + "\n" + lines + block, where the block is "" with no users |
| `Services.MentionBlockLines` | services.py:83-85 | with users, the block adds exactly an empty line and the line of mentions after the agenda lines |
| `Services.AgendaMessageLines` | services.py:81-85 | read line by line (lines without '\n'), the message is the title, the agenda lines in order, then (only if there are users) an empty line and the mentions joined by ", " in repository order |
| `Services.SendTodayOverview` | services.py:31-87 | exactly one message is sent; a provider exception sends the error text, an empty list sends "Der er ikke træning eller officials i dag.", otherwise the agenda message; the users are read only in the last case |
| `Pipeline.SendDailyOverview` | services.py:36-46 | with the Sheets provider: no worksheet sends the error text; a missing header or absent day sends the "no sessions" text; neither reads the users; otherwise the agenda of the day's extracted sessions |

## Left out

- Time zone and clock: `datetime.now(pytz.timezone(...)).strftime("%A")` is I/O; the day name is a parameter.
- Logging calls (`logger.info`, `logger.error`, ...) have no effect on the result and are not modelled.
- `async`/`await`: the model is sequential. The channel is a returned list of messages.
- `get_sheet()` (sheets.py), authentication and the week lookup are network I/O; their outcome is the `Option<Worksheet>` parameter. A missing worksheet, a missing auth file and any other error caught there give `None` (sheets.py:24-39). Inside the `WorksheetNotFound` handler, sheets.py:25 calls `week.get_week()` again outside any `try`. If that call raises, the exception leaves `get_sheet()` and the provider call. `send_today_overview` then sends the error text, a case covered only by `SendTodayOverview`'s `Raised` case.
- The worksheet reads after `get_sheet()` are taken to succeed: `worksheet.get("B2:H2")`, `worksheet.find`, `worksheet.col_values` and `worksheet.get("I7:I12")` (sheets_schedule.py:18, 26, 33-35). In the program, any of them can raise. `send_today_overview` catches that and sends the error text (services.py:36-41). `GetSessionsForDay` never gives `Raised` for a present worksheet, so `SendDailyOverview` promises no error text in that case. A raising read is covered only by `SendTodayOverview`'s `Raised` case.
- `worksheet.find(day_name)` searches the whole sheet. The model assumes it returns the header cell that the loop just matched (column 2 + position). A matching cell earlier in the sheet is not modelled.
- gspread's trimming of trailing empty cells in `col_values` and `get` is the data's concern: the columns and ranges are taken as given.
- The `ScheduleProvider` protocol allows any provider. `SendTodayOverview` takes the provider's outcome (`Fetch`). Only the Sheets provider is modelled. The sessions it yields always have all three keys, so the `.get(key, default)` defaults in services.py are not modelled.
- Exceptions from the user repository or from `channel.send` propagate out of `send_today_overview` in the source. The model gives them no path.
- The user repository (database.py, user_repository.py) is the `users` parameter. The bot commands (reminder.py), the web status page (webapp.py), bot start-up (main.py), week.py and config.py are not part of this model.
