# Kattendance attendance ledger — a Dafny model

Kattendance is a Telegram bot that keeps a children's attendance ledger in
a Google spreadsheet. `/in <id>` appends a check-in record, `/out <id>` fills
in the Time Out of that record, and `/summary [date]` lists the records of
one day. This project models the ledger logic of `Kattendance.py` with the
messaging, the spreadsheet transport and the clock taken out. It then proves
the ledger's invariants about that model.

- The attendance worksheet is a `seq<Row>`. The five columns are ID, Name,
  Date, Time In and Time Out. Record `i` sits on sheet row `i + 2` because
  row 1 holds the headers. The roster worksheet is a `seq<Kid>`.
- `/in` and `/out` are pure step functions. Each returns the new sheet and an
  `Outcome`, which stands in for the reply the bot sends.
- The clock is passed in as parameters. `today` is a valid `CalendarDate`
  and `now` is a `TimeOfDay`.
- The `dateutil` fuzzy parser is passed in as an uninterpreted parameter
  `fuzzy: string -> Option<CalendarDate>`.

Modules, leaves first:

| file | module | contents |
|---|---|---|
| wrappers.dfy | `Wrappers` | `Option`, `Result` |
| text.dfy | `Text` | Python's whitespace set, `strip()`, ASCII `lower()`, `%02d`/`%04d` rendering and parsing |
| calendar.dfy | `Calendar` | Gregorian dates as `datetime.date` checks them, `toordinal`, the predecessor day, ISO `%Y-%m-%d`, `%H:%M:%S` |
| search.dfy | `Search` | the first-match scan both lookups use |
| roster.dfy | `Roster` | `find_kid_by_id` |
| ledger.dfy | `Ledger` | `find_attendance_row`, the check-in rule, the check-out rule and their invariants |
| dateinput.dfy | `DateInput` | how `/summary` turns its argument into a date |
| summary.dfy | `Summary` | selecting and classifying the records of the target date |

The code compares IDs as exact text and compares the Date column as exact
`%Y-%m-%d` text. It has one attendance worksheet (no monthly partitions) besides the roster worksheet, no ID prefix or
case folding, and never parses stored timestamp text.

## Model

| member | source | states |
|---|---|---|
| Search.FirstMatch | Kattendance.py:30-33 | the scan returns the first index whose element satisfies the test, or `None` exactly when no element does |
| Roster.FindKidById | Kattendance.py:28-33 | returns the first roster record whose ID equals the given id; `None` exactly when no record has that id |
| Ledger.FindAttendanceRow | Kattendance.py:35-40 | returns `None` exactly when no record has the given ID and Date. Otherwise it returns a sheet row number of at least 2, so always truthy, that is 2 past the index of the first such record |
| Ledger.CheckIn | Kattendance.py:48-62 | an unknown id writes nothing. A kid already recorded today writes nothing and gets "already clocked in". Otherwise exactly one record `[id, Name, today, now, ""]` is appended after the untouched old records |
| Ledger.CheckOut | Kattendance.py:74-96 | an unknown id or no record today writes nothing. If the first record of (id, today) has a non-blank Time Out, nothing is written and that time is reported. Otherwise only that record's Time Out changes, to `now`, and every other record is unchanged |
| Ledger.CloseRow | Kattendance.py:96 | `update_cell(row_num, 5, now)`: the sheet keeps its length, only the Time Out of the given record becomes the new value, and every other record is unchanged |
| Ledger.CheckInPreservesAtMostOnePerDay | Kattendance.py:57-62 | if the sheet has at most one record per (ID, Date) before a check-in, it still does afterwards |
| Ledger.CheckInTwiceSameDay | Kattendance.py:57-60 | after a successful check-in, a second check-in by the same id on the same day is refused and writes nothing |
| Ledger.CheckOutPreservesAtMostOnePerDay | Kattendance.py:83-96 | check-out keeps the at-most-one-record-per-(ID, Date) invariant |
| Ledger.CheckOutTouchesOnlyOwnSession | Kattendance.py:83-96 | a record of a different id or day is never changed by a check-out, and the sheet keeps its length |
| Ledger.SetTimeOutIsFinal | Kattendance.py:90-94 | a record whose Time Out is non-blank is left unchanged by both check-out and check-in |
| Ledger.CheckOutTwiceSameDay | Kattendance.py:90-96 | after a successful check-out, a second check-out the same day is refused, reports the first time and writes nothing, so closing is idempotent |
| Ledger.CheckInThenOut | Kattendance.py:48-96 | a check-in followed by a same-day check-out leaves the old records plus one record whose Time In is the check-in time and whose Time Out is the check-out time |
| Text.Strip | Kattendance.py:105 | `strip()` returns a contiguous slice of its input. Only whitespace lies before and after the slice, and a non-empty result neither starts nor ends with whitespace |
| Text.StripEmptyIffBlank | Kattendance.py:92 | `s.strip()` is empty exactly when every character of `s` is whitespace, which is the blankness test the Time Out checks use |
| Calendar.Predecessor | Kattendance.py:111 | "yesterday" has no value exactly on `date.min`, where the subtraction overflows. Otherwise it is a valid date whose ordinal is one less than today's |
| Calendar.PredecessorUnique | Kattendance.py:111 | any valid date whose ordinal is one less than today's is the date `Predecessor` gives |
| Calendar.OrdinalInjective | Kattendance.py:111 | distinct valid dates have distinct ordinals, so the ordinal characterises a day |
| Calendar.ParseFormatIso | Kattendance.py:125 | parsing the `%Y-%m-%d` rendering of a valid date gives that date back |
| Calendar.FormatParseIso | Kattendance.py:125 | every well-formed `YYYY-MM-DD` text naming a valid date is the rendering of the date it names |
| Calendar.FormatIsoInjective | Kattendance.py:129 | two dates have the same ISO text exactly when they are the same date |
| Calendar.FormatIso | Kattendance.py:125 | `strftime("%Y-%m-%d")`, as also used at lines 55 and 81: ten characters, a four-digit year, two-digit month and day, dashes at positions 4 and 7 (its inverse is `ParseIso`, see the round trips) |
| Calendar.FormatClock | Kattendance.py:80 | `strftime("%H:%M:%S")`, as also used at line 54: eight characters with colons at positions 2 and 5, whose three two-digit fields read back as the hour, minute and second of the time |
| Calendar.FormatClockNotBlank | Kattendance.py:80 | a `%H:%M:%S` time is never blank, so once written it counts as a set Time Out |
| DateInput.NormalizeShape | Kattendance.py:105 | the joined, lower-cased and trimmed input holds no ASCII upper-case letter and neither starts nor ends with whitespace |
| DateInput.DayMonthSeparator | Kattendance.py:112-113 | a separator position is found exactly when the normalised input matches `^\d{1,2}[/-]\d{1,2}$`, and it is where the digit groups split |
| DateInput.Interpret | Kattendance.py:105-123 | the input is lowercased and trimmed. `""` and `"today"` give today. `"yesterday"` gives the day whose ordinal is one less, failing only on `date.min`. `D/M` or `D-M` gives (current year, M, D) when that date exists and fails with `NoSuchDate` otherwise. Anything else gives the fuzzy parser's date, or `Unrecognised` |
| DateInput.InterpretDayMonthExample | Kattendance.py:112-115 | `23/4` is 23 April of the current year |
| DateInput.InterpretNoSuchDateExample | Kattendance.py:115 | `30-2` matches the pattern but raises the uncaught date error |
| DateInput.InterpretKeywordExample | Kattendance.py:105-109 | `" Today "` is today, because the input is lowercased and trimmed first |
| Summary.Classify | Kattendance.py:138-149 | a record is complete exactly when its Time Out is non-blank. A complete entry keeps the record's Time Out, and every entry keeps its ID, Name and Time In |
| Summary.DayRecords | Kattendance.py:129 | a record is selected exactly when it is in the sheet and its Date equals the target text |
| Summary.DayRecordsAppend | Kattendance.py:129 | selection keeps sheet order: selecting from `a + b` is selecting from `a`, then from `b` |
| Summary.DayEntries | Kattendance.py:138-149 | one summary line per record of the date; every line classifies some record of that date, and every record of that date has its line |
| Summary.DayEntriesAppend | Kattendance.py:138-149 | the summary lines of `a + b` are the lines of `a` followed by those of `b` |
| Summary.Summarize | Kattendance.py:125-149 | "no records" exactly when no record has the target's ISO Date. Otherwise the lines are non-empty, in sheet order, and each one classifies a record of that date |
| Summary.SelectedIffSameCalendarDate | Kattendance.py:125-129 | a record is summarised for a date exactly when its Date text parses back to that calendar date. A malformed Date is never summarised |
| Summary.SummaryCommand | Kattendance.py:105-149 | `/summary` fails exactly when the date interpretation fails, with the same error. Otherwise its report is the summary of the sheet for the interpreted date, so every guarantee of `Summarize` carries over |
| Summary.CheckInShowsOpen | Kattendance.py:48-149 | after a successful check-in, today's summary is the earlier lines of today plus one open line for the new record |
| Summary.CheckInOutShowsComplete | Kattendance.py:48-149 | after a check-in and a same-day check-out, today's summary is the earlier lines of today plus one complete line carrying both times |

## Left out

- Google Sheets and OAuth setup and the `gspread` transport (Kattendance.py:10-16). These are foreign calls. The worksheets are in-memory sequences instead.
- `gspread`'s conversion of cells to numbers in `get_all_records`. Every cell is modelled as text, so `str(cell)` is the cell itself. An ID such as `0123` that the library might read back as `123` is not modelled.
- Empty cells read back as `None` are modelled as the empty string, which the code treats the same way.
- A worksheet with blank rows between records is not modelled. The model assumes record `i` is sheet row `i + 2`.
- Telegram messaging, reply texts, Markdown formatting, and the "please enter an ID" guards for a missing argument (Kattendance.py:44-46, 70-72). These are UI glue. The commands take the id directly, and `Outcome` and `Report` stand in for the replies.
- `auto_delete` and the `asyncio.create_task` scheduling (Kattendance.py:19-24, 64-65, 98-99, 153-155). This is timing and concurrency, not ledger logic.
- Reading the wall clock (Kattendance.py:54-55, 80-81). The instant read is passed in as the parameters `today` and `now`; their `strftime` renderings are modelled by `Calendar.FormatIso` and `Calendar.FormatClock`. The source reads the clock twice, so near midnight the date and the time could come from different days. The model takes one instant.
- The `dateutil` fuzzy parser (Kattendance.py:116-123). It is an opaque third-party heuristic, passed in as a function returning an optional date. Any exception it raises counts as `None`, as the bare `except` does.
- Bot construction, token and polling loop (Kattendance.py:159-166). This is process startup.
- Races between concurrent check-ins or check-outs. The code has no locking, and the model is sequential.
- Text.Lower: lower-cases ASCII letters only, whereas Python's `lower()` also folds other scripts. Only ASCII letters can change whether the input is a keyword or a day/month pattern. Non-ASCII text reaching the fuzzy parser may differ from Python's.
- DateInput.Interpret: treats `\d` and `int()` as ASCII digits, whereas Python also accepts other Unicode decimal digits there. `$` is modelled as end of text, which is exact here because a trailing newline is stripped first.
- Calendar.FormatIso: pads the year to four digits. For years below 1000, some platforms' `%Y` does not pad. No target date below year 1000 arises from the clock.
