/** `ReminderService.send_today_overview`: turning the day's sessions into one
    channel message. Runs of sessions with the same booking type on
    consecutive rows are merged into one agenda line. */
module Services {
  import opened Text
  import opened Schedule

  const ErrorMessage := "Der opstod en fejl ved hentning af træningsdata."
  const NoSessionsMessage := "Der er ikke træning eller officials i dag."
  const AgendaTitle := "Her er dagens agenda:"

  /** The start and end part of a time text. A text containing '-' is split
      once, at its first '-', and both parts are stripped; a text without '-'
      is the start part as it is (not stripped), with an empty end part. */
  function SplitTime(time: string): (string, string)
  {
    if '-' in time then
      var (before, after) := SplitOnce(time, '-');
      (Strip(before), Strip(after))
    else (time, "")
  }

  /** The split is taken at the first '-' only: the end part keeps any later
      '-'. */
  lemma SplitTimeAtFirstDash(before: string, after: string)
    requires '-' !in before
    ensures SplitTime(before + "-" + after) == (Strip(before), Strip(after))
  {
    SplitOnceAtFirst(before, '-', after);
  }

  // ---------------------------------------------------------------------
  // Runs

  /** The record at `m` carries on from the one before it: same booking type,
      next row. */
  predicate Adjacent(s: seq<Session>, m: nat)
    requires 0 < m < |s|
  {
    s[m].bookingType == s[m - 1].bookingType && s[m].index == s[m - 1].index + 1
  }

  /** The inner loop's condition: the record at `j` continues the run that
      started at `i` (same type as the run's first record, next row after the
      record before it). */
  predicate Continues(s: seq<Session>, i: nat, j: nat)
    requires i < j < |s|
  {
    s[j].bookingType == s[i].bookingType && s[j].index == s[j - 1].index + 1
  }

  /** Where the run that started at `i` ends, given that it reaches `j`: the
      first position from `j` on that does not continue it. */
  function ExtendRun(s: seq<Session>, i: nat, j: nat): (e: nat)
    requires i < j <= |s|
    ensures j <= e <= |s|
    decreases |s| - j
  {
    if j < |s| && Continues(s, i, j) then ExtendRun(s, i, j + 1) else j
  }

  /** The extension stops at the first record that does not continue the run:
      every record before it continues the run, the record at it does not. */
  lemma {:induction false} ExtendRunStops(s: seq<Session>, i: nat, j: nat)
    requires i < j <= |s|
    ensures var e := ExtendRun(s, i, j);
      (forall m :: j <= m < e ==> Continues(s, i, m))
      && (e < |s| ==> !Continues(s, i, e))
    decreases |s| - j
  {
    if j < |s| && Continues(s, i, j) {
      ExtendRunStops(s, i, j + 1);
    }
  }

  /** The end (exclusive) of the run that starts at `i`. */
  function RunEnd(s: seq<Session>, i: nat): (e: nat)
    requires i < |s|
    ensures i < e <= |s|
  {
    ExtendRun(s, i, i + 1)
  }

  /** The runs of `s[i..]` as `(start, end)` position pairs, in order. */
  function RunsFrom(s: seq<Session>, i: nat): seq<(nat, nat)>
    requires i <= |s|
    decreases |s| - i
  {
    if i == |s| then [] else [(i, RunEnd(s, i))] + RunsFrom(s, RunEnd(s, i))
  }

  /** An independent description of a run decomposition of `s[i..]`: the runs
      follow each other without gap or overlap from `i` to the end of `s`,
      inside a run every record is adjacent to its predecessor, and the record
      after a run (if any) is not. */
  predicate MaximalRuns(s: seq<Session>, i: nat, runs: seq<(nat, nat)>)
    requires i <= |s|
    decreases |runs|
  {
    if runs == [] then i == |s|
    else
      runs[0].0 == i && i < runs[0].1 <= |s|
      && (forall m :: i < m < runs[0].1 ==> Adjacent(s, m))
      && (runs[0].1 < |s| ==> !Adjacent(s, runs[0].1))
      && MaximalRuns(s, runs[0].1, runs[1..])
  }

  /** Inside a run, sharing the run's type with the first record is the same as
      sharing it with the predecessor. */
  lemma {:induction false} RunSharesType(s: seq<Session>, i: nat, j: nat)
    requires i < j <= |s|
    requires forall m :: i < m < j ==> Continues(s, i, m)
    ensures forall m :: i <= m < j ==> s[m].bookingType == s[i].bookingType
    ensures forall m :: i < m < j ==> Adjacent(s, m)
  {
    forall m | i < m < j ensures s[m].bookingType == s[i].bookingType {
      assert Continues(s, i, m);
    }
    forall m | i < m < j ensures Adjacent(s, m) {
      assert Continues(s, i, m);
      if m - 1 > i {
        assert Continues(s, i, m - 1);
      }
    }
  }

  lemma {:induction false} AdjacentRunContinues(s: seq<Session>, i: nat, j: nat)
    requires i < j <= |s|
    requires forall m :: i < m < j ==> Adjacent(s, m)
    ensures forall m :: i < m < j ==> Continues(s, i, m)
    decreases j - i
  {
    if j > i + 1 {
      AdjacentRunContinues(s, i, j - 1);
      assert Adjacent(s, j - 1);
      assert j - 2 == i || Continues(s, i, j - 2);
      assert Continues(s, i, j - 1);
    }
  }

  /** The runs the loop finds are a maximal run decomposition. */
  lemma {:induction false} RunsAreMaximal(s: seq<Session>, i: nat)
    requires i <= |s|
    ensures MaximalRuns(s, i, RunsFrom(s, i))
    decreases |s| - i
  {
    if i < |s| {
      var e := RunEnd(s, i);
      ExtendRunStops(s, i, i + 1);
      RunSharesType(s, i, e);
      RunsAreMaximal(s, e);
      var runs := RunsFrom(s, i);
      assert runs[0] == (i, e) && runs[1..] == RunsFrom(s, e);
      if e < |s| {
        assert s[e - 1].bookingType == s[i].bookingType;
      }
    }
  }

  /** ... and the only one: any maximal run decomposition is the loop's. */
  lemma {:induction false} MaximalRunsUnique(s: seq<Session>, i: nat, runs: seq<(nat, nat)>)
    requires i <= |s|
    requires MaximalRuns(s, i, runs)
    ensures runs == RunsFrom(s, i)
    decreases |s| - i
  {
    if i < |s| {
      var e := runs[0].1;
      AdjacentRunContinues(s, i, e);
      if e < |s| {
        assert e - 1 == i || Continues(s, i, e - 1);
        assert !Continues(s, i, e);
      }
      assert ExtendRun(s, i, e) == e;
      ExtendRunFrom(s, i, i + 1, e);
      MaximalRunsUnique(s, e, runs[1..]);
    }
  }

  /** The run end does not depend on the position the extension starts from,
      as long as the run continues up to it. */
  lemma {:induction false} ExtendRunFrom(s: seq<Session>, i: nat, j: nat, k: nat)
    requires i < j <= k <= |s|
    requires forall m :: j <= m < k ==> Continues(s, i, m)
    ensures ExtendRun(s, i, j) == ExtendRun(s, i, k)
    decreases k - j
  {
    if j < k {
      ExtendRunFrom(s, i, j + 1, k);
    }
  }

  /** The positions `a, a + 1, ..., b - 1`. */
  function Range(a: nat, b: nat): seq<nat>
    decreases b - a
  {
    if a >= b then [] else [a] + Range(a + 1, b)
  }

  /** The positions the runs cover, run after run. */
  function Positions(runs: seq<(nat, nat)>): seq<nat>
  {
    if runs == [] then [] else Range(runs[0].0, runs[0].1) + Positions(runs[1..])
  }

  lemma {:induction false} RangeSplit(a: nat, m: nat, b: nat)
    requires a <= m <= b
    ensures Range(a, m) + Range(m, b) == Range(a, b)
    decreases m - a
  {
    if a < m {
      RangeSplit(a + 1, m, b);
    }
  }

  /** The runs partition the records: listing the positions run by run gives
      every position of `s[i..]` once, in order. Between 1 and `|s| - i` runs
      are found when there is anything to consolidate. */
  lemma {:induction false} RunsPartition(s: seq<Session>, i: nat)
    requires i <= |s|
    ensures Positions(RunsFrom(s, i)) == Range(i, |s|)
    ensures i < |s| ==> 1 <= |RunsFrom(s, i)| <= |s| - i
    ensures i == |s| ==> RunsFrom(s, i) == []
    decreases |s| - i
  {
    if i < |s| {
      var e := RunEnd(s, i);
      RunsPartition(s, e);
      var runs := RunsFrom(s, i);
      assert runs[0] == (i, e) && runs[1..] == RunsFrom(s, e);
      RangeSplit(i, e, |s|);
    }
  }

  // ---------------------------------------------------------------------
  // Agenda lines

  /** The last record of `s[a..e]` whose time contains '-', if any. */
  function LastWithDash(s: seq<Session>, a: nat, e: nat): (r: Option<nat>)
    requires a <= e <= |s|
    ensures r.Some? ==> a <= r.value < e
    decreases e - a
  {
    if e == a then None
    else if '-' in s[e - 1].time then Some(e - 1)
    else LastWithDash(s, a, e - 1)
  }

  /** `LastWithDash` finds the last member with '-': it has one and no later
      member does; when it finds none, no member has one. */
  lemma {:induction false} LastWithDashIsLast(s: seq<Session>, a: nat, e: nat)
    requires a <= e <= |s|
    ensures var r := LastWithDash(s, a, e);
      (r.Some? ==> a <= r.value < e && '-' in s[r.value].time
                   && forall m :: r.value < m < e ==> '-' !in s[m].time)
      && (r.None? ==> forall m :: a <= m < e ==> '-' !in s[m].time)
    decreases e - a
  {
    if e > a && '-' !in s[e - 1].time {
      LastWithDashIsLast(s, a, e - 1);
    }
  }

  /** The end time of the run `s[a..e]`: the end part of the last member whose
      time contains '-', or "" when no member's does. */
  function RunEndTime(s: seq<Session>, a: nat, e: nat): string
    requires a <= e <= |s|
  {
    match LastWithDash(s, a, e)
    case None => ""
    case Some(k) => SplitTime(s[k].time).1
  }

  /** One more member: its end part becomes the run's end time if its time
      contains '-'; otherwise the end time stays. */
  lemma RunEndTimeStep(s: seq<Session>, a: nat, e: nat)
    requires a <= e < |s|
    ensures RunEndTime(s, a, e + 1) == if '-' in s[e].time then SplitTime(s[e].time).1 else RunEndTime(s, a, e)
  {
  }

  /** The agenda line of the run `s[a..e]`: "Klokken start-end - type" when the
      first member's start part and the run's end time are both non-empty, and
      otherwise the first member's raw time and the type. */
  function RunLine(s: seq<Session>, a: nat, e: nat): string
    requires a < e <= |s|
  {
    FormatLine(SplitTime(s[a].time).0, RunEndTime(s, a, e), s[a].time, s[a].bookingType)
  }

  /** One agenda line from a run's start part, end time, first raw time and
      type. */
  function FormatLine(start: string, end: string, raw: string, bookingType: string): string
  {
    if start != "" && end != "" then "Klokken " + start + "-" + end + " - " + bookingType
    else raw + " - " + bookingType
  }

  /** The agenda lines of the runs of `s[i..]`. */
  function AgendaLinesFrom(s: seq<Session>, i: nat): seq<string>
    requires i <= |s|
    decreases |s| - i
  {
    if i == |s| then [] else [RunLine(s, i, RunEnd(s, i))] + AgendaLinesFrom(s, RunEnd(s, i))
  }

  function AgendaLines(s: seq<Session>): seq<string>
  {
    AgendaLinesFrom(s, 0)
  }

  /** One agenda line per run, in the order of the runs. */
  lemma {:induction false} AgendaLinesFollowRuns(s: seq<Session>, i: nat)
    requires i <= |s|
    ensures |AgendaLinesFrom(s, i)| == |RunsFrom(s, i)|
    ensures forall k :: 0 <= k < |RunsFrom(s, i)| ==>
      RunsFrom(s, i)[k].0 < RunsFrom(s, i)[k].1 <= |s|
      && AgendaLinesFrom(s, i)[k] == RunLine(s, RunsFrom(s, i)[k].0, RunsFrom(s, i)[k].1)
    decreases |s| - i
  {
    if i < |s| {
      var e := RunEnd(s, i);
      AgendaLinesFollowRuns(s, e);
      var runs := RunsFrom(s, i);
      var lines := AgendaLinesFrom(s, i);
      assert runs[0] == (i, e) && runs[1..] == RunsFrom(s, e);
      assert lines[0] == RunLine(s, i, e) && lines[1..] == AgendaLinesFrom(s, e);
      forall k | 0 <= k < |runs|
        ensures runs[k].0 < runs[k].1 <= |s| && lines[k] == RunLine(s, runs[k].0, runs[k].1)
      {
        if k > 0 {
          assert runs[k] == RunsFrom(s, e)[k - 1];
          assert lines[k] == AgendaLinesFrom(s, e)[k - 1];
        }
      }
    }
  }

  /** The inner loop of the consolidation: starting after the run's first
      record, take every record that continues the run; a taken record whose
      time contains '-' replaces the end time with its end part. `endTime` is
      the first record's end part on entry. */
  method ScanRun(sessions: seq<Session>, i: nat, firstEnd: string) returns (j: nat, endTime: string)
    requires i < |sessions|
    requires firstEnd == SplitTime(sessions[i].time).1
    ensures j == RunEnd(sessions, i)
    ensures endTime == RunEndTime(sessions, i, j)
  {
    endTime := firstEnd;
    RunEndTimeStep(sessions, i, i);
    assert endTime == RunEndTime(sessions, i, i + 1) by {
      assert RunEndTime(sessions, i, i) == "";
    }
    var sessionType := sessions[i].bookingType;
    j := i + 1;
    while j < |sessions| && sessions[j].bookingType == sessionType
          && sessions[j].index == sessions[j - 1].index + 1
      invariant i < j <= |sessions|
      invariant ExtendRun(sessions, i, j) == RunEnd(sessions, i)
      invariant endTime == RunEndTime(sessions, i, j)
      decreases |sessions| - j
    {
      assert Continues(sessions, i, j);
      assert ExtendRun(sessions, i, j) == ExtendRun(sessions, i, j + 1);
      RunEndTimeStep(sessions, i, j);
      var nextTime := sessions[j].time;
      if '-' in nextTime {
        endTime := SplitTime(nextTime).1;
      }
      j := j + 1;
    }
  }

  /** The consolidation loop of `send_today_overview`: one line per maximal run
      of records with the same type on consecutive rows, in session order. */
  method ConsolidateSessions(sessions: seq<Session>) returns (consolidated: seq<string>)
    ensures consolidated == AgendaLines(sessions)
  {
    consolidated := [];
    var i := 0;
    while i < |sessions|
      invariant 0 <= i <= |sessions|
      invariant consolidated + AgendaLinesFrom(sessions, i) == AgendaLines(sessions)
      decreases |sessions| - i
    {
      var current := sessions[i];
      var timeStr := current.time;
      var startTime, endTime := SplitTime(timeStr).0, SplitTime(timeStr).1;
      var sessionType := current.bookingType;

      var j;
      j, endTime := ScanRun(sessions, i, endTime);

      var line;
      if startTime != "" && endTime != "" {
        line := "Klokken " + startTime + "-" + endTime + " - " + sessionType;
      } else {
        line := timeStr + " - " + sessionType;
      }
      assert line == FormatLine(startTime, endTime, timeStr, sessionType);
      AppendAssociative(consolidated, [line], AgendaLinesFrom(sessions, j));
      consolidated := consolidated + [line];
      i := j;
    }
  }

  /** Neither part of a split time holds a character the time lacks. */
  lemma SplitTimeAvoids(time: string, c: char)
    requires c !in time
    ensures c !in SplitTime(time).0 && c !in SplitTime(time).1
  {
    if '-' in time {
      SplitOnceParts(time, '-');
      var (before, after) := SplitOnce(time, '-');
      StripAvoids(before, c);
      StripAvoids(after, c);
    }
  }

  /** The agenda lines of sessions whose times and types have no newline have
      none either, so each is one line of the message; there is at least one
      line and at most one per session. */
  lemma AgendaLinesSingleLine(s: seq<Session>)
    requires forall k :: 0 <= k < |s| ==> '\n' !in s[k].time && '\n' !in s[k].bookingType
    ensures forall k :: 0 <= k < |AgendaLines(s)| ==> '\n' !in AgendaLines(s)[k]
    ensures s != [] ==> 1 <= |AgendaLines(s)| <= |s|
  {
    AgendaLinesFollowRuns(s, 0);
    RunsPartition(s, 0);
    assert '\n' !in "Klokken - ";
    var runs := RunsFrom(s, 0);
    var lines := AgendaLines(s);
    forall k | 0 <= k < |lines|
      ensures '\n' !in lines[k]
    {
      RunLineAvoids(s, runs[k].0, runs[k].1, '\n');
    }
  }

  /** The line of a run holds a character only if a time or the type of the
      run's members does, or the line's fixed text does. */
  lemma RunLineAvoids(s: seq<Session>, a: nat, e: nat, c: char)
    requires a < e <= |s|
    requires c !in "Klokken - "
    requires forall k :: a <= k < e ==> c !in s[k].time && c !in s[k].bookingType
    ensures c !in RunLine(s, a, e)
  {
    SplitTimeAvoids(s[a].time, c);
    LastWithDashIsLast(s, a, e);
    var end := RunEndTime(s, a, e);
    match LastWithDash(s, a, e)
    case None =>
    case Some(m) => SplitTimeAvoids(s[m].time, c);
    assert c !in end;
  }

  /** A time with '-' whose two parts are already unpadded splits into exactly
      those parts. */
  lemma SplitTimeUnpadded(before: string, after: string)
    requires '-' !in before && Unpadded(before) && Unpadded(after)
    ensures SplitTime(before + "-" + after) == (before, after)
  {
    SplitTimeAtFirstDash(before, after);
    StripUnpadded(before);
    StripUnpadded(after);
  }

  /** Three bookings: two practice sessions on consecutive rows merge into one
      line from the first start to the last end; the officials session stands
      alone. */
  lemma ConsolidationExample()
    ensures AgendaLines([Session("09-10", "practice", 1), Session("10-11", "practice", 2),
                         Session("14:00-15:30", "officials", 4)])
      == ["Klokken 09-11 - practice", "Klokken 14:00-15:30 - officials"]
  {
    ConsolidationExampleLines([Session("09-10", "practice", 1), Session("10-11", "practice", 2),
                               Session("14:00-15:30", "officials", 4)]);
  }

  lemma ConsolidationExampleLines(s: seq<Session>)
    requires s == [Session("09-10", "practice", 1), Session("10-11", "practice", 2),
                   Session("14:00-15:30", "officials", 4)]
    ensures AgendaLines(s) == ["Klokken 09-11 - practice", "Klokken 14:00-15:30 - officials"]
  {
    ExamplePracticeRun(s);
    ExampleOfficialsRun(s);
    assert AgendaLinesFrom(s, 3) == [];
    assert AgendaLinesFrom(s, 2) == ["Klokken 14:00-15:30 - officials"];
  }

  /** The line of a run, given the start part of its first member and the end
      part of its last member with '-'. */
  lemma RunLineIs(s: seq<Session>, a: nat, e: nat, k: nat, start: string, end: string)
    requires a < e <= |s| && LastWithDash(s, a, e) == Some(k)
    requires SplitTime(s[a].time).0 == start && SplitTime(s[k].time).1 == end
    ensures RunLine(s, a, e) == FormatLine(start, end, s[a].time, s[a].bookingType)
  {
  }

  lemma ExampleSplits()
    ensures SplitTime("09-10") == ("09", "10")
    ensures SplitTime("10-11") == ("10", "11")
    ensures SplitTime("14:00-15:30") == ("14:00", "15:30")
    ensures SplitTime("10-") == ("10", "")
  {
    PrintableNotSpace('0'); PrintableNotSpace('1'); PrintableNotSpace('3');
    PrintableNotSpace('4'); PrintableNotSpace('5'); PrintableNotSpace('9');
    assert "09-10" == "09" + "-" + "10";
    SplitTimeUnpadded("09", "10");
    assert "10-11" == "10" + "-" + "11";
    SplitTimeUnpadded("10", "11");
    assert "14:00-15:30" == "14:00" + "-" + "15:30";
    SplitTimeUnpadded("14:00", "15:30");
    assert "10-" == "10" + "-" + "";
    SplitTimeUnpadded("10", "");
  }

  lemma ExampleLineTexts()
    ensures FormatLine("09", "11", "09-10", "practice") == "Klokken 09-11 - practice"
    ensures FormatLine("14:00", "15:30", "14:00-15:30", "officials") == "Klokken 14:00-15:30 - officials"
    ensures FormatLine("09", "", "09-10", "p") == "09-10 - p"
  {
  }

  lemma ExamplePracticeRun(s: seq<Session>)
    requires s == [Session("09-10", "practice", 1), Session("10-11", "practice", 2),
                   Session("14:00-15:30", "officials", 4)]
    ensures RunEnd(s, 0) == 2 && RunLine(s, 0, 2) == "Klokken 09-11 - practice"
  {
    assert Continues(s, 0, 1) && !Continues(s, 0, 2);
    assert ExtendRun(s, 0, 2) == 2;
    assert ExtendRun(s, 0, 1) == ExtendRun(s, 0, 2);
    assert LastWithDash(s, 0, 2) == Some(1);
    ExampleSplits();
    RunLineIs(s, 0, 2, 1, "09", "11");
    ExampleLineTexts();
  }

  lemma ExampleOfficialsRun(s: seq<Session>)
    requires s == [Session("09-10", "practice", 1), Session("10-11", "practice", 2),
                   Session("14:00-15:30", "officials", 4)]
    ensures RunEnd(s, 2) == 3 && RunLine(s, 2, 3) == "Klokken 14:00-15:30 - officials"
  {
    assert ExtendRun(s, 2, 3) == 3;
    assert LastWithDash(s, 2, 3) == Some(2);
    ExampleSplits();
    RunLineIs(s, 2, 3, 2, "14:00", "15:30");
    ExampleLineTexts();
  }

  /** A later member whose end part is empty still overwrites the run's end
      time, and the line falls back to the first member's raw time. */
  lemma EmptyEndOverwritesExample()
    ensures AgendaLines([Session("09-10", "p", 0), Session("10-", "p", 1)]) == ["09-10 - p"]
  {
    EmptyEndOverwritesLines([Session("09-10", "p", 0), Session("10-", "p", 1)]);
  }

  lemma EmptyEndOverwritesLines(s: seq<Session>)
    requires s == [Session("09-10", "p", 0), Session("10-", "p", 1)]
    ensures AgendaLines(s) == ["09-10 - p"]
  {
    assert Continues(s, 0, 1);
    assert ExtendRun(s, 0, 2) == 2;
    assert RunEnd(s, 0) == 2;
    assert LastWithDash(s, 0, 2) == Some(1);
    ExampleSplits();
    RunLineIs(s, 0, 2, 1, "09", "");
    ExampleLineTexts();
    assert AgendaLinesFrom(s, 2) == [];
  }

  // ---------------------------------------------------------------------
  // The message

  /** `f"<@{user_id}>"`: a mention of one user. */
  function Mention(user: int): string
  {
    "<@" + IntToDecimal(user) + ">"
  }

  function Mentions(users: seq<int>): seq<string>
  {
    seq(|users|, k requires 0 <= k < |users| => Mention(users[k]))
  }

  /** Different users get different mentions: the mention names its user. */
  lemma MentionInjective(u1: int, u2: int)
    requires Mention(u1) == Mention(u2)
    ensures u1 == u2
  {
    var d1, d2 := IntToDecimal(u1), IntToDecimal(u2);
    assert d1 == Mention(u1)[2..|Mention(u1)| - 1];
    assert d2 == Mention(u2)[2..|Mention(u2)| - 1];
    IntToDecimalRoundTrip(u1);
    IntToDecimalRoundTrip(u2);
  }

  /** The mention block: nothing when there are no users, otherwise a blank
      line and every user's mention, separated by ", ", in the given order. */
  function MentionBlock(users: seq<int>): string
  {
    if users == [] then "" else "\n\n" + Join(", ", Mentions(users))
  }

  /** The agenda message: the title line, the agenda lines, and the mention
      block. */
  function AgendaMessage(lines: seq<string>, users: seq<int>): string
  {
    AgendaTitle + "\n" + (Join("\n", lines) + MentionBlock(users))
  }

  lemma MentionsAvoidNewline(users: seq<int>)
    ensures forall k :: 0 <= k < |Mentions(users)| ==> '\n' !in Mentions(users)[k]
  {
    forall k | 0 <= k < |users| ensures '\n' !in Mention(users[k]) {
      var d := IntToDecimal(users[k]);
      assert '\n' !in d by {
        forall n | 0 <= n < |d| ensures d[n] != '\n' {
          assert IsDigit(d[n]) || d[n] == '-';
        }
      }
      assert Mention(users[k]) == ("<@" + d) + ">";
    }
  }

  /** Appending the mention block after the agenda lines, as the message is
      built step by step. */
  lemma MessageShape(head: string, hours: string, users: seq<int>)
    ensures head + (hours + MentionBlock(users))
      == if users == [] then head + hours else head + hours + "\n\n" + Join(", ", Mentions(users))
  {
    if users == [] {
      assert hours + MentionBlock(users) == hours;
    } else {
      var block := "\n\n";
      var mentions := Join(", ", Mentions(users));
      AppendAssociative(hours, block, mentions);
      AppendAssociative(head, hours, block + mentions);
      AppendAssociative(head + hours, block, mentions);
    }
  }

  /** After the agenda lines, the mention block reads as an empty line and the
      line of mentions. */
  lemma MentionBlockLines(hours: string, users: seq<int>)
    requires users != []
    ensures Split(hours + MentionBlock(users), '\n')
      == Split(hours, '\n') + ["", Join(", ", Mentions(users))]
  {
    var nl := '\n';
    var mentions := Join(", ", Mentions(users));
    MentionsAvoidNewline(users);
    JoinAvoids(", ", Mentions(users), nl);
    assert Split([nl] + mentions, nl) == ["", mentions] by {
      SplitWithoutSeparator(mentions, nl);
      SplitWithoutSeparator("", nl);
      SplitAt([], nl, mentions);
      assert [] + [nl] + mentions == [nl] + mentions;
    }
    assert hours + MentionBlock(users) == hours + [nl] + ([nl] + mentions) by {
      assert MentionBlock(users) == [nl] + [nl] + mentions;
      AppendAssociative([nl], [nl], mentions);
      AppendAssociative(hours, [nl], [nl] + mentions);
    }
    SplitAt(hours, nl, [nl] + mentions);
  }

  /** Read line by line, the agenda message is the title, the agenda lines in
      order and, only when there are users, an empty line and one line with
      every user's mention in the repository's order. */
  lemma AgendaMessageLines(lines: seq<string>, users: seq<int>)
    requires lines != []
    requires forall k :: 0 <= k < |lines| ==> '\n' !in lines[k]
    ensures Split(AgendaMessage(lines, users), '\n')
      == [AgendaTitle] + lines + (if users == [] then [] else ["", Join(", ", Mentions(users))])
  {
    var nl := '\n';
    var hours := Join("\n", lines);
    var rest := hours + MentionBlock(users);
    assert Split(AgendaMessage(lines, users), nl) == [AgendaTitle] + Split(rest, nl) by {
      assert nl !in AgendaTitle;
      SplitWithoutSeparator(AgendaTitle, nl);
      SplitAt(AgendaTitle, nl, rest);
    }
    assert Split(hours, nl) == lines by {
      assert "\n" == [nl];
      SplitJoin(lines, nl);
    }
    if users == [] {
      assert rest == hours;
    } else {
      MentionBlockLines(hours, users);
      AppendAssociative([AgendaTitle], lines, ["", Join(", ", Mentions(users))]);
    }
  }

  /** `send_today_overview` once the day name is known: `fetched` is what the
      schedule provider produced for it and `users` what the user repository
      would return. `sent` are the messages sent on the channel; `usersRead`
      tells whether the user repository was asked. */
  method SendTodayOverview(fetched: Fetch, users: seq<int>) returns (sent: seq<string>, usersRead: bool)
    ensures |sent| == 1
    ensures fetched.Raised? ==> sent == [ErrorMessage]
    ensures fetched == Fetched([]) ==> sent == [NoSessionsMessage]
    ensures fetched.Fetched? && fetched.sessions != [] ==>
      sent == [AgendaMessage(AgendaLines(fetched.sessions), users)]
    ensures usersRead <==> fetched.Fetched? && fetched.sessions != []
  {
    sent, usersRead := [], false;
    if fetched.Raised? {
      sent := sent + [ErrorMessage];
      return;
    }
    var sessions := fetched.sessions;

    if sessions == [] {
      sent := sent + [NoSessionsMessage];
      return;
    }

    var consolidated := ConsolidateSessions(sessions);

    var userIds := users;
    usersRead := true;

    var hours := Join("\n", consolidated);
    var message := AgendaTitle + "\n" + hours;
    if userIds != [] {
      var mentions := Join(", ", Mentions(userIds));
      message := message + "\n\n" + mentions;
    }
    assert message == AgendaMessage(consolidated, userIds) by {
      MessageShape(AgendaTitle + "\n", hours, userIds);
    }

    sent := sent + [message];
  }
}
