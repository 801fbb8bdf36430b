/** The field helpers of app.py: Planisware-number validation, the status
    collapse, `_clean`, `safe_int`, `safe_index`, and ISO dates (`to_iso`,
    `try_date`). */
module Helpers {
  import opened Wrappers
  import opened Text

  const ALL_LABEL := "All"
  const COMPLETED := "Completed"
  const ONGOING := "Ongoing"

  /** A Python value where the source accepts `Any`: `None`, an `int` or a `str`. */
  datatype PyValue = PyNone | PyInt(i: int) | PyStr(s: string)

  /** `str(x)` for `x` that is `None` or a string */
  function Str(x: Option<string>): string {
    match x
    case None => "None"
    case Some(s) => s
  }

  // ---------------------------------------------------------------- _clean

  /** `_clean(s)`, that is `(s or "").strip()` */
  function Clean(s: Option<string>): (r: string)
    ensures TrimOf(r, s.GetOr(""))
    ensures r == [] || (!IsSpace(r[0]) && !IsSpace(r[|r| - 1]))
    ensures r == [] <==> s.None? || AllSpace(s.value)
  {
    Strip(s.GetOr(""))
  }

  /** Cleaning a value that was already cleaned changes nothing. */
  lemma CleanIdempotent(s: Option<string>)
    ensures Clean(Some(Clean(s))) == Clean(s)
  {
    StripIdempotent(s.GetOr(""));
  }

  // -------------------------------------------------------------- safe_int

  /** `safe_int(x, default)`: `int(x)`, or `default` when `int` raises. */
  function SafeInt(x: PyValue, default: int): (r: int)
    ensures x.PyNone? ==> r == default
    ensures x.PyInt? ==> r == x.i
    ensures x.PyStr? ==> r == ParseInt(x.s).GetOr(default)
  {
    match x
    case PyNone => default
    case PyInt(i) => i
    case PyStr(s) => ParseInt(s).GetOr(default)
  }

  /** A priority that was printed with `str` comes back unchanged, whatever the default. */
  lemma SafeIntOfPrinted(i: int, default: int)
    ensures SafeInt(PyStr(IntToString(i)), default) == i
  {
    IntStringRoundTrip(i);
  }

  // ------------------------------------------------------------ safe_index

  /** `options.index(v)`: the first position holding `v` */
  function IndexOf(options: seq<string>, v: string): (k: nat)
    requires v in options
    ensures k < |options| && options[k] == v
    ensures forall j :: 0 <= j < k ==> options[j] != v
  {
    if options[0] == v then 0 else 1 + IndexOf(options[1..], v)
  }

  /** `safe_index(options, val, default)` */
  function SafeIndex(options: seq<string>, val: Option<string>, default: int): (r: int)
    ensures val.Some? && val.value in options ==>
              0 <= r < |options| && options[r] == val.value
              && forall j :: 0 <= j < r ==> options[j] != val.value
    ensures !(val.Some? && val.value in options) ==> r == default
  {
    if val.Some? && val.value in options then IndexOf(options, val.value) else default
  }

  // ------------------------------------------------------- status_to_state

  predicate IsDoneWord(s: string) {
    s == "done" || s == "complete" || s == "completed"
  }

  /** `status_to_state(x)` */
  function StatusToState(x: Option<string>): (r: string)
    ensures r == COMPLETED || r == ONGOING
    ensures r == COMPLETED <==> IsDoneWord(Lower(Strip(Str(x))))
  {
    if IsDoneWord(Lower(Strip(Str(x)))) then COMPLETED else ONGOING
  }

  lemma LowerKeepsSpaces(s: string)
    ensures forall i :: 0 <= i < |s| ==> (IsSpace(Lower(s)[i]) <==> IsSpace(s[i]))
  {
  }

  lemma {:induction false} LeadingSpacesLower(s: string)
    ensures LeadingSpaces(Lower(s)) == LeadingSpaces(s)
    decreases |s|
  {
    if s != [] {
      assert Lower(s)[1..] == Lower(s[1..]);
      LeadingSpacesLower(s[1..]);
    }
  }

  lemma {:induction false} TrailingStartLower(s: string)
    ensures TrailingStart(Lower(s)) == TrailingStart(s)
    decreases |s|
  {
    if s != [] {
      assert Lower(s)[..|s| - 1] == Lower(s[..|s| - 1]);
      TrailingStartLower(s[..|s| - 1]);
    }
  }

  lemma LStripLower(s: string)
    ensures LStrip(Lower(s)) == Lower(LStrip(s))
  {
    LeadingSpacesLower(s);
  }

  lemma RStripLower(s: string)
    ensures RStrip(Lower(s)) == Lower(RStrip(s))
  {
    TrailingStartLower(s);
  }

  /** Stripping commutes with lower-casing. */
  lemma StripLower(s: string)
    ensures Strip(Lower(s)) == Lower(Strip(s))
  {
    LStripLower(s);
    RStripLower(LStrip(s));
  }

  lemma LowerIdempotent(s: string)
    ensures Lower(Lower(s)) == Lower(s)
  {
  }

  /** The state of a status does not change when the status is first trimmed and
      lower-cased, so "Done", " done " and "DONE" are all Completed. */
  lemma StatusStateNormalised(s: string)
    ensures StatusToState(Some(Lower(Strip(s)))) == StatusToState(Some(s))
  {
    var t := Strip(s);
    StripLower(t);
    StripIdempotent(s);
    assert Strip(Lower(t)) == Lower(t);
    LowerIdempotent(t);
    assert Lower(Strip(Lower(t))) == Lower(t);
  }

  // ------------------------------------------------------------ ISO dates

  /** A `datetime.date`: the proleptic Gregorian calendar, years 1 to 9999. */
  datatype Date = Date(year: int, month: int, day: int)

  predicate IsLeap(y: int) {
    y % 4 == 0 && (y % 100 != 0 || y % 400 == 0)
  }

  function DaysInMonth(y: int, m: int): int {
    if m == 2 then (if IsLeap(y) then 29 else 28)
    else if m == 4 || m == 6 || m == 9 || m == 11 then 30
    else 31
  }

  predicate ValidDate(d: Date) {
    1 <= d.year <= 9999 && 1 <= d.month <= 12 && 1 <= d.day <= DaysInMonth(d.year, d.month)
  }

  function Pad2(n: nat): (r: string)
    requires n < 100
  {
    [DigitChar(n / 10), DigitChar(n % 10)]
  }

  function Pad4(n: nat): (r: string)
    requires n < 10000
  {
    Pad2(n / 100) + Pad2(n % 100)
  }

  /** `to_iso(d)`: `d.strftime("%Y-%m-%d")`, or "" when there is no date. */
  function ToIso(d: Option<Date>): (r: string)
    requires d.Some? ==> ValidDate(d.value)
    ensures d.None? <==> r == []
    ensures d.Some? ==> |r| == 10 && r[4] == '-' && r[7] == '-'
  {
    match d
    case None => ""
    case Some(x) => Pad4(x.year) + "-" + Pad2(x.month) + "-" + Pad2(x.day)
  }

  /** The day field of `strptime`'s `%d`: the regex alternatives
      `3[01]`, `[12]\d`, `0[1-9]`, `[1-9]`, ` [1-9]`, tried in that order;
      the result is the value and the number of characters matched. */
  function MatchDay(u: string): Option<(nat, nat)> {
    if |u| >= 2 && u[0] == '3' && (u[1] == '0' || u[1] == '1') then Some((30 + DigitValue(u[1]), 2))
    else if |u| >= 2 && (u[0] == '1' || u[0] == '2') && IsDigit(u[1]) then
      Some((10 * DigitValue(u[0]) + DigitValue(u[1]), 2))
    else if |u| >= 2 && u[0] == '0' && '1' <= u[1] <= '9' then Some((DigitValue(u[1]), 2))
    else if |u| >= 1 && '1' <= u[0] <= '9' then Some((DigitValue(u[0]), 1))
    else if |u| >= 2 && u[0] == ' ' && '1' <= u[1] <= '9' then Some((DigitValue(u[1]), 2))
    else None
  }

  /** `%m-%d`: the month alternatives `1[0-2]`, `0[1-9]`, `[1-9]`, each followed by
      `-` and a day, with the regex engine's backtracking from one alternative to
      the next; the result is month, day and the number of characters matched. */
  function MatchMonthDay(u: string): Option<(nat, nat, nat)> {
    if |u| >= 3 && u[0] == '1' && '0' <= u[1] <= '2' && u[2] == '-' && MatchDay(u[3..]).Some? then
      Some((10 + DigitValue(u[1]), MatchDay(u[3..]).value.0, 3 + MatchDay(u[3..]).value.1))
    else if |u| >= 3 && u[0] == '0' && '1' <= u[1] <= '9' && u[2] == '-' && MatchDay(u[3..]).Some? then
      Some((DigitValue(u[1]), MatchDay(u[3..]).value.0, 3 + MatchDay(u[3..]).value.1))
    else if |u| >= 2 && '1' <= u[0] <= '9' && u[1] == '-' && MatchDay(u[2..]).Some? then
      Some((DigitValue(u[0]), MatchDay(u[2..]).value.0, 2 + MatchDay(u[2..]).value.1))
    else None
  }

  /** `datetime.strptime(t, "%Y-%m-%d").date()`: four digits, `-`, month and day
      as above, nothing left over, and a date that exists; `None` where Python raises. */
  function ParseIsoDate(t: string): (r: Option<Date>)
    ensures r.Some? ==> ValidDate(r.value)
  {
    if |t| < 5 || !AllDigits(t[..4]) || t[4] != '-' then None
    else
      match MatchMonthDay(t[5..])
      case None => None
      case Some((m, d, k)) =>
        var date := Date(DigitsValue(t[..4]), m, d);
        if 5 + k == |t| && ValidDate(date) then Some(date) else None
  }

  /** `try_date(s)` */
  function TryDate(s: Option<string>): (r: Option<Date>)
    ensures r.Some? ==> ValidDate(r.value)
    ensures s.None? || s.value == [] ==> r.None?
  {
    if s.None? || s.value == [] then None else ParseIsoDate(s.value)
  }

  lemma Pad2Value(n: nat)
    requires n < 100
    ensures AllDigits(Pad2(n)) && DigitsValue(Pad2(n)) == n
  {
    var p := Pad2(n);
    assert p[..1] == [DigitChar(n / 10)];
    assert [DigitChar(n / 10)][..0] == [];
    assert DigitsValue(p[..1]) == n / 10;
    assert DigitsValue(p) == (n / 10) * 10 + n % 10;
  }

  lemma Pad4Value(n: nat)
    requires n < 10000
    ensures AllDigits(Pad4(n)) && DigitsValue(Pad4(n)) == n
  {
    var a, b := Pad2(n / 100), Pad2(n % 100);
    Pad2Value(n / 100);
    Pad2Value(n % 100);
    var p := a + b;
    assert p[..3] == a + [b[0]];
    assert p[..2] == a;
    assert (a + [b[0]])[..2] == a;
  }

  /** A two-digit month from 01 to 12, followed by `-`, is matched in full. */
  lemma MonthDayOfPadded(m: nat, d: nat)
    requires 1 <= m <= 12 && 1 <= d <= 31
    ensures MatchMonthDay(Pad2(m) + "-" + Pad2(d)) == Some((m, d, 5))
  {
    var u := Pad2(m) + "-" + Pad2(d);
    Pad2Value(m);
    Pad2Value(d);
    assert u[3..] == Pad2(d);
    assert MatchDay(Pad2(d)) == Some((d, 2));
  }

  /** `try_date(to_iso(d)) == d`: every date the form writes is read back as the same date. */
  lemma IsoRoundTrip(d: Date)
    requires ValidDate(d)
    ensures TryDate(Some(ToIso(Some(d)))) == Some(d)
  {
    var t := ToIso(Some(d));
    Pad4Value(d.year);
    assert t[..4] == Pad4(d.year);
    assert t[5..] == Pad2(d.month) + "-" + Pad2(d.day);
    MonthDayOfPadded(d.month, d.day);
  }

  /** A date picker left empty writes "", which reads back as no date; a date
      reads back as itself. */
  lemma OptionalIsoRoundTrip(d: Option<Date>)
    requires d.Some? ==> ValidDate(d.value)
    ensures TryDate(Some(ToIso(d))) == d
  {
    if d.Some? { IsoRoundTrip(d.value); }
  }

  // --------------------------------------------------- validate_plainsware

  datatype PlainswareError = NumberRequired | NumberFormat

  /** `JJMD_PATTERN.fullmatch(v)`: `^JJMD-\d{7}$`, ignoring case. */
  predicate IsJjmd(v: string) {
    |v| == 12 && Upper(v[..5]) == "JJMD-" && AllDigits(v[5..])
  }

  /** The plainsware project flag counts as "yes" after trimming and lower-casing. */
  predicate SaysYes(plainswareProject: string) {
    Lower(Strip(plainswareProject)) == "yes"
  }

  /** The editor's own "Yes" says yes. */
  lemma YesSaysYes()
    ensures SaysYes("Yes")
  {
    StripTrimmed("Yes");
  }

  /** The checks `validate_plainsware` makes on a number once one is needed: it is
      not blank, and trimmed and upper-cased it matches the pattern. */
  function CheckNumber(n: string): (r: Result<string, PlainswareError>)
    ensures AllSpace(n) ==> r == Failure(NumberRequired)
    ensures !AllSpace(n) ==> (r.Success? <==> IsJjmd(Upper(Strip(n))))
    ensures !AllSpace(n) && r.Failure? ==> r.error == NumberFormat
    ensures r.Success? ==> IsJjmd(r.value) && r.value == Upper(Strip(n))
  {
    if Strip(n) == [] then Failure(NumberRequired)
    else
      var value := Upper(Strip(n));
      if IsJjmd(value) then Success(value) else Failure(NumberFormat)
  }

  /** `validate_plainsware(project, number)`: `Success(None)` when no number is
      needed, `Success(Some(n))` with the normalised number, or the error raised. */
  function ValidatePlainsware(plainswareProject: string, plainswareNumber: Option<string>)
    : (r: Result<Option<string>, PlainswareError>)
    ensures !SaysYes(plainswareProject) ==> r == Success(None)
    ensures SaysYes(plainswareProject) && plainswareNumber.None? ==> r == Failure(NumberRequired)
    ensures SaysYes(plainswareProject) && r.Success? ==> r.value.Some? && IsJjmd(r.value.value)
  {
    if !SaysYes(plainswareProject) then Success(None)
    else
      match plainswareNumber
      case None => Failure(NumberRequired)
      case Some(n) =>
        match CheckNumber(n)
        case Success(v) => Success(Some(v))
        case Failure(e) => Failure(e)
  }

  /** The three outcomes once the flag says "yes" and a number was given: a blank
      number is missing, otherwise the trimmed, upper-cased number is returned
      exactly when it matches the pattern. */
  lemma ValidatePlainswareCases(plainswareProject: string, n: string)
    requires SaysYes(plainswareProject)
    ensures AllSpace(n) ==> ValidatePlainsware(plainswareProject, Some(n)) == Failure(NumberRequired)
    ensures !AllSpace(n) ==>
              ValidatePlainsware(plainswareProject, Some(n))
              == if IsJjmd(Upper(Strip(n))) then Success(Some(Upper(Strip(n)))) else Failure(NumberFormat)
  {
  }

  /** A number that matches the pattern has no surrounding whitespace. */
  lemma {:induction false} JjmdIsTrimmed(v: string)
    requires IsJjmd(v)
    ensures Strip(v) == v
  {
    assert UpperChar(v[0]) == 'J' by {
      assert Upper(v[..5])[0] == UpperChar(v[..5][0]);
    }
    assert IsDigit(v[5..][6]);
    assert v[11] == v[5..][6];
    StripTrimmed(v);
  }

  lemma {:induction false} UpperIdempotent(s: string)
    ensures Upper(Upper(s)) == Upper(s)
  {
  }

  /** A number the check accepted passes it again unchanged. */
  lemma {:induction false} CheckedNumberIsStable(n: string, v: string)
    requires CheckNumber(n) == Success(v)
    ensures CheckNumber(v) == Success(v)
  {
    var w := Strip(n);
    JjmdIsTrimmed(v);
    UpperIdempotent(w);
  }
}
