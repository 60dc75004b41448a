/** The attendance worksheet and the decision logic of `/in` and `/out`:
    `find_attendance_row`, the check-in rule and the check-out rule. */
module Ledger {
  import opened Wrappers
  import opened Text
  import opened Calendar
  import opened Search
  import opened Roster

  /** One attendance record: the columns ID, Name, Date, Time In, Time Out. */
  datatype Row = Row(id: string, name: string, date: string, timeIn: string, timeOut: string)

  /** The records of the attendance worksheet below its header row, in sheet
      order; record `i` sits on sheet row `i + FirstRecordRow`. */
  type Sheet = seq<Row>

  /** Row 1 of the worksheet holds the column headers. */
  const FirstRecordRow := 2

  predicate IsSessionOf(row: Row, kidId: string, date: string) {
    row.id == kidId && row.date == date
  }

  /** Some record belongs to `kidId` on `date`. */
  predicate HasRow(sheet: Sheet, kidId: string, date: string) {
    exists i :: 0 <= i < |sheet| && IsSessionOf(sheet[i], kidId, date)
  }

  /** Record `k` is the first record of `kidId` on `date`. */
  predicate FirstRowAt(sheet: Sheet, kidId: string, date: string, k: int) {
    && 0 <= k < |sheet|
    && IsSessionOf(sheet[k], kidId, date)
    && forall j :: 0 <= j < k ==> !IsSessionOf(sheet[j], kidId, date)
  }

  /** The ledger invariant: at most one record per (ID, Date). */
  predicate AtMostOnePerDay(sheet: Sheet) {
    forall i, j :: 0 <= i < j < |sheet| && sheet[i].id == sheet[j].id ==> sheet[i].date != sheet[j].date
  }

  /** `find_attendance_row`: the sheet row number of the first record of
      `kidId` on `date`; any row number it gives is at least 2, so truthy. */
  function FindAttendanceRow(sheet: Sheet, kidId: string, date: string): (r: Option<nat>)
    ensures r.None? <==> !HasRow(sheet, kidId, date)
    ensures r.Some? ==> r.value >= FirstRecordRow
    ensures r.Some? ==> FirstRowAt(sheet, kidId, date, r.value - FirstRecordRow)
  {
    match FirstMatch(sheet, (row: Row) => IsSessionOf(row, kidId, date))
    case None => None
    case Some(i) => Some(i + FirstRecordRow)
  }

  /** What a command reports back; the reply text itself is not modelled. */
  datatype Outcome =
    | UnknownId
    | AlreadyIn(name: string)
    | ClockedIn(name: string, time: string)
    | NoInRecord(name: string)
    | AlreadyOut(name: string, time: string)
    | ClockedOut(name: string, time: string)

  /** The worksheet after a command, with what the command reported. */
  datatype Step = Step(sheet: Sheet, outcome: Outcome)

  /** The check-in rule of `in_command`, with the clock read as `today`/`now`. */
  function CheckIn(roster: seq<Kid>, sheet: Sheet, kidId: string, today: CalendarDate, now: TimeOfDay): (r: Step)
    ensures !InRoster(roster, kidId) ==> r == Step(sheet, UnknownId)
    ensures InRoster(roster, kidId) && HasRow(sheet, kidId, FormatIso(today)) ==>
              r == Step(sheet, AlreadyIn(FindKidById(roster, kidId).value.name))
    ensures InRoster(roster, kidId) && !HasRow(sheet, kidId, FormatIso(today)) ==>
              var name := FindKidById(roster, kidId).value.name;
              && r.sheet == sheet + [Row(kidId, name, FormatIso(today), FormatClock(now), "")]
              && r.outcome == ClockedIn(name, FormatClock(now))
  {
    match FindKidById(roster, kidId)
    case None => Step(sheet, UnknownId)
    case Some(kid) =>
      var date := FormatIso(today);
      var time := FormatClock(now);
      if FindAttendanceRow(sheet, kidId, date).Some? then
        Step(sheet, AlreadyIn(kid.name))
      else
        Step(sheet + [Row(kidId, kid.name, date, time, "")], ClockedIn(kid.name, time))
  }

  /** `update_cell(k + FirstRecordRow, 5, time)`: only the Time Out cell of
      record `k` changes. */
  function CloseRow(sheet: Sheet, k: int, time: string): (r: Sheet)
    requires 0 <= k < |sheet|
    ensures |r| == |sheet|
    ensures r[k] == sheet[k].(timeOut := time)
    ensures forall i :: 0 <= i < |sheet| && i != k ==> r[i] == sheet[i]
  {
    sheet[k := sheet[k].(timeOut := time)]
  }

  /** The check-out rule of `out_command`: read the Time Out cell of the row
      `find_attendance_row` found and overwrite it only when it is blank. */
  function CheckOut(roster: seq<Kid>, sheet: Sheet, kidId: string, today: CalendarDate, now: TimeOfDay): (r: Step)
    ensures !InRoster(roster, kidId) ==> r == Step(sheet, UnknownId)
    ensures InRoster(roster, kidId) && !HasRow(sheet, kidId, FormatIso(today)) ==>
              r == Step(sheet, NoInRecord(FindKidById(roster, kidId).value.name))
    ensures forall k :: InRoster(roster, kidId) && FirstRowAt(sheet, kidId, FormatIso(today), k) ==>
              var name := FindKidById(roster, kidId).value.name;
              && (!IsBlank(sheet[k].timeOut) ==> r == Step(sheet, AlreadyOut(name, sheet[k].timeOut)))
              && (IsBlank(sheet[k].timeOut) ==>
                    && |r.sheet| == |sheet|
                    && r.sheet[k] == sheet[k].(timeOut := FormatClock(now))
                    && (forall i :: 0 <= i < |sheet| && i != k ==> r.sheet[i] == sheet[i])
                    && r.outcome == ClockedOut(name, FormatClock(now)))
  {
    match FindKidById(roster, kidId)
    case None => Step(sheet, UnknownId)
    case Some(kid) =>
      match FindAttendanceRow(sheet, kidId, FormatIso(today))
      case None => Step(sheet, NoInRecord(kid.name))
      case Some(rowNum) =>
        var k := rowNum - FirstRecordRow;
        assert forall j :: FirstRowAt(sheet, kidId, FormatIso(today), j) ==> j == k;
        var timeOut := sheet[k].timeOut;
        if !IsBlank(timeOut) then
          Step(sheet, AlreadyOut(kid.name, timeOut))
        else
          var time := FormatClock(now);
          Step(CloseRow(sheet, k, time), ClockedOut(kid.name, time))
  }

  /** Check-in never creates a second record for the same (ID, Date). */
  lemma CheckInPreservesAtMostOnePerDay(roster: seq<Kid>, sheet: Sheet, kidId: string, today: CalendarDate, now: TimeOfDay)
    requires AtMostOnePerDay(sheet)
    ensures AtMostOnePerDay(CheckIn(roster, sheet, kidId, today, now).sheet)
  {
    var r := CheckIn(roster, sheet, kidId, today, now);
    if r.sheet != sheet {
      var n := |sheet|;
      forall i, j | 0 <= i < j < |r.sheet| && r.sheet[i].id == r.sheet[j].id
        ensures r.sheet[i].date != r.sheet[j].date
      {
        if j == n {
          assert r.sheet[i] == sheet[i];
          assert !IsSessionOf(sheet[i], kidId, FormatIso(today));
        } else {
          assert r.sheet[i] == sheet[i] && r.sheet[j] == sheet[j];
        }
      }
    }
  }

  /** A second check-in on the same day is refused and writes nothing. */
  lemma CheckInTwiceSameDay(roster: seq<Kid>, sheet: Sheet, kidId: string, today: CalendarDate, now: TimeOfDay, later: TimeOfDay)
    requires CheckIn(roster, sheet, kidId, today, now).outcome.ClockedIn?
    ensures var first := CheckIn(roster, sheet, kidId, today, now);
            CheckIn(roster, first.sheet, kidId, today, later) == Step(first.sheet, AlreadyIn(first.outcome.name))
  {
    var first := CheckIn(roster, sheet, kidId, today, now);
    assert IsSessionOf(first.sheet[|sheet|], kidId, FormatIso(today));
  }

  /** Check-out keeps the ID and Date columns, so it keeps the invariant. */
  lemma CheckOutPreservesAtMostOnePerDay(roster: seq<Kid>, sheet: Sheet, kidId: string, today: CalendarDate, now: TimeOfDay)
    requires AtMostOnePerDay(sheet)
    ensures AtMostOnePerDay(CheckOut(roster, sheet, kidId, today, now).sheet)
  {
    var r := CheckOut(roster, sheet, kidId, today, now);
    var date := FormatIso(today);
    if InRoster(roster, kidId) && HasRow(sheet, kidId, date) {
      var k := FindAttendanceRow(sheet, kidId, date).value - FirstRecordRow;
      assert FirstRowAt(sheet, kidId, date, k);
      assert forall i :: 0 <= i < |sheet| ==> r.sheet[i].id == sheet[i].id && r.sheet[i].date == sheet[i].date;
    }
  }

  /** Check-out only ever changes a record of the kid being checked out on
      that day: another kid's session is never clobbered. */
  lemma CheckOutTouchesOnlyOwnSession(roster: seq<Kid>, sheet: Sheet, kidId: string, today: CalendarDate, now: TimeOfDay, i: int)
    requires 0 <= i < |sheet|
    requires !IsSessionOf(sheet[i], kidId, FormatIso(today))
    ensures |CheckOut(roster, sheet, kidId, today, now).sheet| == |sheet|
    ensures CheckOut(roster, sheet, kidId, today, now).sheet[i] == sheet[i]
  {
    var date := FormatIso(today);
    if InRoster(roster, kidId) && HasRow(sheet, kidId, date) {
      var k := FindAttendanceRow(sheet, kidId, date).value - FirstRecordRow;
      assert FirstRowAt(sheet, kidId, date, k);
    }
  }

  /** A Time Out that is already set is never overwritten, by either command. */
  lemma SetTimeOutIsFinal(roster: seq<Kid>, sheet: Sheet, kidId: string, today: CalendarDate, now: TimeOfDay, i: int)
    requires 0 <= i < |sheet|
    requires !IsBlank(sheet[i].timeOut)
    ensures CheckOut(roster, sheet, kidId, today, now).sheet[i] == sheet[i]
    ensures CheckIn(roster, sheet, kidId, today, now).sheet[i] == sheet[i]
  {
    var date := FormatIso(today);
    if InRoster(roster, kidId) && HasRow(sheet, kidId, date) {
      var k := FindAttendanceRow(sheet, kidId, date).value - FirstRecordRow;
      assert FirstRowAt(sheet, kidId, date, k);
    }
  }

  /** Closing is idempotent: a second check-out the same day is refused,
      reports the time already recorded and writes nothing. */
  lemma CheckOutTwiceSameDay(roster: seq<Kid>, sheet: Sheet, kidId: string, today: CalendarDate, now: TimeOfDay, later: TimeOfDay)
    requires CheckOut(roster, sheet, kidId, today, now).outcome.ClockedOut?
    ensures var first := CheckOut(roster, sheet, kidId, today, now);
            CheckOut(roster, first.sheet, kidId, today, later)
              == Step(first.sheet, AlreadyOut(first.outcome.name, FormatClock(now)))
  {
    var date := FormatIso(today);
    var first := CheckOut(roster, sheet, kidId, today, now);
    var k := FindAttendanceRow(sheet, kidId, date).value - FirstRecordRow;
    assert FirstRowAt(sheet, kidId, date, k);
    assert IsBlank(sheet[k].timeOut);
    var time := FormatClock(now);
    assert first.sheet[k].timeOut == time;
    forall j | 0 <= j < k ensures first.sheet[j] == sheet[j] {
    }
    assert FirstRowAt(first.sheet, kidId, date, k);
    FormatClockNotBlank(now);
    assert !IsBlank(first.sheet[k].timeOut);
  }

  /** Checking in and then out on the same day fills the Time Out of exactly
      the record the check-in appended. */
  lemma CheckInThenOut(roster: seq<Kid>, sheet: Sheet, kidId: string, today: CalendarDate, now: TimeOfDay, later: TimeOfDay)
    requires CheckIn(roster, sheet, kidId, today, now).outcome.ClockedIn?
    ensures var first := CheckIn(roster, sheet, kidId, today, now);
            var name := first.outcome.name;
            CheckOut(roster, first.sheet, kidId, today, later)
              == Step(sheet + [Row(kidId, name, FormatIso(today), FormatClock(now), FormatClock(later))],
                      ClockedOut(name, FormatClock(later)))
  {
    var date := FormatIso(today);
    var first := CheckIn(roster, sheet, kidId, today, now);
    var n := |sheet|;
    assert FirstRowAt(first.sheet, kidId, date, n);
  }
}
