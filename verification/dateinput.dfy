/** Step 1 of `summary_command`: turning the typed arguments into the date
    whose records are summarised. */
module DateInput {
  import opened Wrappers
  import opened Text
  import opened Calendar

  /** Why no target date came out of the input. */
  datatype DateError =
    /** The fuzzy parser gave up; the bot replies that it could not
        understand the date. */
    | Unrecognised
    /** `datetime.date(year, month, day)` raised `ValueError`; the handler
        does not catch it. */
    | NoSuchDate
    /** `now - timedelta(days=1)` raised `OverflowError` on `date.min`. */
    | BeforeMinDate

  /** The arguments joined with single spaces, lower-cased, and trimmed of
      surrounding whitespace. */
  function Normalize(args: seq<string>): string {
    Strip(Lower(JoinWithSpace(args)))
  }

  /** The normalised input holds no ASCII upper-case letter and neither
      starts nor ends with whitespace. */
  lemma NormalizeShape(args: seq<string>)
    ensures var t := Normalize(args);
      && (forall i :: 0 <= i < |t| ==> !('A' <= t[i] <= 'Z'))
      && (t != [] ==> !IsSpace(t[0]) && !IsSpace(t[|t| - 1]))
  {
    StripKeepsNoUpper(Lower(JoinWithSpace(args)));
  }

  /** Trimming keeps characters of its input, so it adds no upper case. */
  lemma StripKeepsNoUpper(s: string)
    requires forall i :: 0 <= i < |s| ==> !('A' <= s[i] <= 'Z')
    ensures forall i :: 0 <= i < |Strip(s)| ==> !('A' <= Strip(s)[i] <= 'Z')
  {
    var r := Strip(s);
    var j :| 0 <= j && j + |r| <= |s| && r == s[j..j + |r|]
             && AllSpace(s[..j]) && AllSpace(s[j + |r|..]);
    forall i | 0 <= i < |r| ensures r[i] == s[j + i] {
    }
  }

  predicate IsSeparator(c: char) {
    c == '/' || c == '-'
  }

  /** `t` matches `^\d{1,2}[/-]\d{1,2}$` with its separator at index `i`. */
  predicate DayMonthAt(t: string, i: int) {
    && 1 <= i <= 2
    && i + 2 <= |t| <= i + 3
    && IsSeparator(t[i])
    && AllDigits(t[..i])
    && AllDigits(t[i + 1..])
  }

  /** `re.match(r"^\d{1,2}[/-]\d{1,2}$", t)` succeeds. */
  predicate MatchesDayMonth(t: string) {
    exists i :: 1 <= i <= 2 && DayMonthAt(t, i)
  }

  /** The position of the separator `re.split(r"[/-]", t)` splits at, when
      `t` matches the day/month pattern. */
  function DayMonthSeparator(t: string): (r: Option<nat>)
    ensures r.Some? <==> MatchesDayMonth(t)
    ensures r.Some? ==> DayMonthAt(t, r.value)
  {
    if |t| >= 2 && IsSeparator(t[1]) && DayMonthAt(t, 1) then Some(1)
    else if |t| >= 3 && IsSeparator(t[2]) && DayMonthAt(t, 2) then Some(2)
    else None
  }

  /** The separator of a day/month input is unique: digits are not separators. */
  lemma DayMonthSeparatorUnique(t: string, i: int, j: int)
    requires DayMonthAt(t, i) && DayMonthAt(t, j)
    ensures i == j
  {
  }

  /** The date `datetime.date(year, int(month), int(day))` is asked for. */
  function DayMonthCandidate(t: string, i: int, year: int): Date
    requires DayMonthAt(t, i)
  {
    Date(year, DecimalValue(t[i + 1..]), DecimalValue(t[..i]))
  }

  /** The target date of `summary_command`, with the clock read as `today`
      and the `dateutil` fuzzy parser passed in as `fuzzy`. */
  function Interpret(args: seq<string>, today: CalendarDate, fuzzy: string -> Option<CalendarDate>): (r: Result<CalendarDate, DateError>)
    ensures var t := Normalize(args);
      && (t == "" || t == "today" ==> r == Ok(today))
      && (t == "yesterday" ==>
            && (r.Ok? <==> today != MinDate)
            && (r.Ok? ==> Ordinal(r.value) == Ordinal(today) - 1)
            && (r.Err? ==> r.error == BeforeMinDate))
      && (forall i :: DayMonthAt(t, i) ==>
            var wanted := DayMonthCandidate(t, i, today.year);
            && (r.Ok? <==> ValidDate(wanted))
            && (r.Ok? ==> r.value == wanted)
            && (r.Err? ==> r.error == NoSuchDate))
      && (t != "" && t != "today" && t != "yesterday" && !MatchesDayMonth(t) ==>
            && (r.Ok? <==> fuzzy(t).Some?)
            && (r.Ok? ==> r.value == fuzzy(t).value)
            && (r.Err? ==> r.error == Unrecognised))
  {
    var t := Normalize(args);
    if t == "" || t == "today" then
      Ok(today)
    else if t == "yesterday" then
      match Predecessor(today)
      case None => Err(BeforeMinDate)
      case Some(d) => Ok(d)
    else
      match DayMonthSeparator(t)
      case Some(i) =>
        assert forall j :: DayMonthAt(t, j) ==> j == i by {
          forall j | DayMonthAt(t, j) ensures j == i {
            DayMonthSeparatorUnique(t, i, j);
          }
        }
        var wanted := DayMonthCandidate(t, i, today.year);
        if ValidDate(wanted) then Ok(wanted) else Err(NoSuchDate)
      case None =>
        match fuzzy(t)
        case None => Err(Unrecognised)
        case Some(d) => Ok(d)
  }

  /** The normalised text of a single argument that needs no lower-casing
      and no trimming is the argument itself. */
  lemma NormalizePlain(s: string)
    requires s != [] && !IsSpace(s[0]) && !IsSpace(s[|s| - 1])
    requires forall i :: 0 <= i < |s| ==> !('A' <= s[i] <= 'Z')
    ensures Normalize([s]) == s
  {
    assert Lower(s) == s;
    assert LeadingSpace(s) == 0;
    assert TrailingSpace(s) == 0;
  }

  /** `/summary 23/4` asks for 23 April of the current year. */
  lemma InterpretDayMonthExample(today: CalendarDate, fuzzy: string -> Option<CalendarDate>)
    ensures Interpret(["23/4"], today, fuzzy) == Ok(Date(today.year, 4, 23))
  {
    var t := "23/4";
    NormalizePlain(t);
    assert DayMonthAt(t, 2);
    assert t[..2] == "23" && t[3..] == "4";
    assert DecimalValue("23") == 23;
    assert DecimalValue("4") == 4;
    assert DayMonthCandidate(t, 2, today.year) == Date(today.year, 4, 23);
  }

  /** `/summary 30-2` names a day that February never has. */
  lemma InterpretNoSuchDateExample(today: CalendarDate, fuzzy: string -> Option<CalendarDate>)
    ensures Interpret(["30-2"], today, fuzzy) == Err(NoSuchDate)
  {
    var t := "30-2";
    NormalizePlain(t);
    assert DayMonthAt(t, 2);
    assert t[..2] == "30" && t[3..] == "2";
    assert DecimalValue("30") == 30;
    assert DecimalValue("2") == 2;
    assert DayMonthCandidate(t, 2, today.year) == Date(today.year, 2, 30);
    assert !ValidDate(Date(today.year, 2, 30));
    var r := Interpret([t], today, fuzzy);
    assert r.Err? && r.error == NoSuchDate;
  }

  /** `/summary  Today ` is matched after lower-casing and trimming. */
  lemma InterpretKeywordExample(today: CalendarDate, fuzzy: string -> Option<CalendarDate>)
    ensures Interpret([" Today "], today, fuzzy) == Ok(today)
  {
    var s := " Today ";
    assert JoinWithSpace([s]) == s;
    var l := Lower(s);
    assert l == " today ";
    assert LeadingSpace(l) == 1;
    assert l[1..] == "today ";
    assert TrailingSpace("today ") == 1;
    assert Normalize([s]) == "today";
  }
}
