/** Steps 2 to 4 of `summary_command`: selecting the records of the target
    date and classifying each as complete or still open. */
module Summary {
  import opened Wrappers
  import opened Text
  import opened Calendar
  import opened Roster
  import opened Ledger
  import opened DateInput

  /** One line of the summary: a record with a Time Out, or one without. */
  datatype Entry =
    | Complete(id: string, name: string, timeIn: string, timeOut: string)
    | Open(id: string, name: string, timeIn: string)

  /** A record is complete when its Time Out is not blank after `strip()`. */
  function Classify(row: Row): (e: Entry)
    ensures e.id == row.id && e.name == row.name && e.timeIn == row.timeIn
    ensures e.Complete? <==> !IsBlank(row.timeOut)
    ensures e.Complete? ==> e.timeOut == row.timeOut
  {
    if !IsBlank(row.timeOut) then Complete(row.id, row.name, row.timeIn, row.timeOut)
    else Open(row.id, row.name, row.timeIn)
  }

  /** The records whose Date column equals `date` exactly, in sheet order. */
  function DayRecords(sheet: Sheet, date: string): (sel: Sheet)
    ensures |sel| <= |sheet|
    ensures forall row :: row in sel <==> row in sheet && row.date == date
  {
    if |sheet| == 0 then []
    else (if sheet[0].date == date then [sheet[0]] else []) + DayRecords(sheet[1..], date)
  }

  /** The selection keeps sheet order: selecting from two consecutive parts
      of the sheet is selecting from each in turn. */
  lemma {:induction false} DayRecordsAppend(a: Sheet, b: Sheet, date: string)
    ensures DayRecords(a + b, date) == DayRecords(a, date) + DayRecords(b, date)
  {
    if |a| > 0 {
      assert (a + b)[1..] == a[1..] + b;
      DayRecordsAppend(a[1..], b, date);
    } else {
      assert a + b == b;
    }
  }

  /** The summary lines of the records of `date`, in sheet order. */
  function DayEntries(sheet: Sheet, date: string): (es: seq<Entry>)
    ensures |es| == |DayRecords(sheet, date)|
    ensures forall e :: e in es ==> exists row :: row in sheet && row.date == date && Classify(row) == e
    ensures forall row :: row in sheet && row.date == date ==> Classify(row) in es
  {
    var rows := DayRecords(sheet, date);
    var es := seq(|rows|, k requires 0 <= k < |rows| => Classify(rows[k]));
    assert forall row :: row in rows ==> Classify(row) in es by {
      forall row | row in rows ensures Classify(row) in es {
        var k :| 0 <= k < |rows| && rows[k] == row;
        assert es[k] == Classify(row);
      }
    }
    es
  }

  lemma {:induction false} DayEntriesAppend(a: Sheet, b: Sheet, date: string)
    ensures DayEntries(a + b, date) == DayEntries(a, date) + DayEntries(b, date)
  {
    DayRecordsAppend(a, b, date);
    var ra, rb := DayRecords(a, date), DayRecords(b, date);
    var ea, eb := DayEntries(a, date), DayEntries(b, date);
    var eab := DayEntries(a + b, date);
    assert |eab| == |ea| + |eb|;
    forall k | 0 <= k < |eab| ensures eab[k] == (ea + eb)[k] {
      if k < |ra| {
        assert (ra + rb)[k] == ra[k];
      } else {
        assert (ra + rb)[k] == rb[k - |ra|];
      }
    }
  }

  /** What `summary_command` answers for a date it understood. */
  datatype Report =
    | NoRecords(date: CalendarDate)
    | Summary(date: CalendarDate, entries: seq<Entry>)

  /** Steps 2 to 4 of `summary_command` for the target date. */
  function Summarize(sheet: Sheet, target: CalendarDate): (r: Report)
    ensures r.date == target
    ensures r.NoRecords? <==> forall i :: 0 <= i < |sheet| ==> sheet[i].date != FormatIso(target)
    ensures r.Summary? ==> r.entries != []
    ensures r.Summary? ==> forall e :: e in r.entries ==>
              exists row :: row in sheet && row.date == FormatIso(target) && Classify(row) == e
    ensures r.Summary? ==> r.entries == DayEntries(sheet, FormatIso(target))
  {
    var entries := DayEntries(sheet, FormatIso(target));
    if entries == [] then
      assert forall i :: 0 <= i < |sheet| ==> sheet[i] !in DayRecords(sheet, FormatIso(target));
      NoRecords(target)
    else
      assert DayRecords(sheet, FormatIso(target))[0] in DayRecords(sheet, FormatIso(target));
      Summary(target, entries)
  }

  /** A record is summarised for `target` exactly when its Date column reads
      back as `target`: matching the ISO text is matching the calendar date,
      and a record whose Date is not an ISO date is never summarised. */
  lemma SelectedIffSameCalendarDate(sheet: Sheet, target: CalendarDate, row: Row)
    requires row in sheet
    ensures row in DayRecords(sheet, FormatIso(target)) <==> ParseIso(row.date) == Some(target)
  {
    ParseFormatIso(target);
    if ParseIso(row.date) == Some(target) {
      FormatParseIso(row.date);
    }
  }

  /** The whole of `summary_command` minus messaging. */
  function SummaryCommand(args: seq<string>, today: CalendarDate, fuzzy: string -> Option<CalendarDate>, sheet: Sheet): (r: Result<Report, DateError>)
    ensures r.Err? <==> Interpret(args, today, fuzzy).Err?
    ensures r.Err? ==> r.error == Interpret(args, today, fuzzy).error
    ensures r.Ok? ==> r.value.date == Interpret(args, today, fuzzy).value
    ensures r.Ok? ==> r.value == Summarize(sheet, Interpret(args, today, fuzzy).value)
  {
    match Interpret(args, today, fuzzy)
    case Err(e) => Err(e)
    case Ok(target) => Ok(Summarize(sheet, target))
  }

  /** A single record of `date` yields exactly its own line. */
  lemma DayEntriesSingle(row: Row, date: string)
    requires row.date == date
    ensures DayEntries([row], date) == [Classify(row)]
  {
    assert [row][1..] == [];
  }

  /** After a check-in, today's summary gains one open line for it, after
      the lines it already had. */
  lemma CheckInShowsOpen(roster: seq<Kid>, sheet: Sheet, kidId: string, today: CalendarDate, now: TimeOfDay)
    requires CheckIn(roster, sheet, kidId, today, now).outcome.ClockedIn?
    ensures var after := CheckIn(roster, sheet, kidId, today, now);
            Summarize(after.sheet, today)
              == Summary(today, DayEntries(sheet, FormatIso(today))
                                + [Open(kidId, after.outcome.name, FormatClock(now))])
  {
    var after := CheckIn(roster, sheet, kidId, today, now);
    var row := Row(kidId, after.outcome.name, FormatIso(today), FormatClock(now), "");
    assert after.sheet == sheet + [row];
    DayEntriesAppend(sheet, [row], FormatIso(today));
    DayEntriesSingle(row, FormatIso(today));
  }

  /** After a check-in and a check-out on the same day, today's summary
      gains one complete line for the session. */
  lemma CheckInOutShowsComplete(roster: seq<Kid>, sheet: Sheet, kidId: string, today: CalendarDate, now: TimeOfDay, later: TimeOfDay)
    requires CheckIn(roster, sheet, kidId, today, now).outcome.ClockedIn?
    ensures var after := CheckIn(roster, sheet, kidId, today, now);
            var closed := CheckOut(roster, after.sheet, kidId, today, later);
            Summarize(closed.sheet, today)
              == Summary(today, DayEntries(sheet, FormatIso(today))
                                + [Complete(kidId, after.outcome.name, FormatClock(now), FormatClock(later))])
  {
    var after := CheckIn(roster, sheet, kidId, today, now);
    var closed := CheckOut(roster, after.sheet, kidId, today, later);
    CheckInThenOut(roster, sheet, kidId, today, now, later);
    var row := Row(kidId, after.outcome.name, FormatIso(today), FormatClock(now), FormatClock(later));
    assert closed.sheet == sheet + [row];
    FormatClockNotBlank(later);
    assert Classify(row) == Complete(kidId, after.outcome.name, FormatClock(now), FormatClock(later));
    DayEntriesAppend(sheet, [row], FormatIso(today));
    DayEntriesSingle(row, FormatIso(today));
  }
}
