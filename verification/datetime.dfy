/**
 * The lenient date/time reader and the two renderings of a parsed instant
 * (`duke.util.DateTimeUtil`).
 *
 * An instant is a plain calendar record; `java.time` itself is not modelled.
 * Each accepted input format is a token-level grammar: a list of fields
 * matched left to right, followed by the resolution of the matched numbers
 * into a calendar date.
 */
module DateTimeUtil {
  import opened Text

  // ---------------------------------------------------------------------
  // Calendar values
  // ---------------------------------------------------------------------

  datatype Instant = Instant(year: int, month: int, day: int, hour: int, minute: int)
  datatype Date = Date(year: int, month: int, day: int)

  predicate IsLeapYear(y: int) {
    y % 4 == 0 && (y % 100 != 0 || y % 400 == 0)
  }

  function DaysInMonth(y: int, m: int): int
    requires 1 <= m <= 12
  {
    if m == 2 then (if IsLeapYear(y) then 29 else 28)
    else if m == 4 || m == 6 || m == 9 || m == 11 then 30
    else 31
  }

  /** Calendar validity of a date; only four-digit years are modelled. */
  predicate ValidDate(d: Date) {
    && 1 <= d.year <= 9999
    && 1 <= d.month <= 12
    && 1 <= d.day <= DaysInMonth(d.year, d.month)
  }

  predicate ValidInstant(i: Instant) {
    && ValidDate(Date(i.year, i.month, i.day))
    && 0 <= i.hour < 24
    && 0 <= i.minute < 60
  }

  /** `java.time.LocalDate`: a valid calendar date. */
  type LocalDate = d: Date | ValidDate(d) witness Date(2000, 1, 1)

  /** `java.time.LocalDateTime` at minute precision. */
  type LocalDateTime = i: Instant | ValidInstant(i) witness Instant(2000, 1, 1, 0, 0)

  /** `LocalDateTime.toLocalDate`. */
  function DateOf(i: LocalDateTime): LocalDate {
    Date(i.year, i.month, i.day)
  }

  /** `LocalDate.atStartOfDay`. */
  function AtStartOfDay(d: LocalDate): (r: LocalDateTime)
    ensures DateOf(r) == d && r.hour == 0 && r.minute == 0
  {
    Instant(d.year, d.month, d.day, 0, 0)
  }

  /** `LocalDate.isBefore`: chronological order on dates. */
  predicate IsBefore(a: Date, b: Date) {
    || a.year < b.year
    || (a.year == b.year && a.month < b.month)
    || (a.year == b.year && a.month == b.month && a.day < b.day)
  }

  /** `LocalDate.withYear`: an invalid day of month becomes the last valid one. */
  function WithYear(d: LocalDate, y: int): (r: Option<LocalDate>)
    ensures r.Some? <==> 1 <= y <= 9999
    ensures r.Some? ==> r.value.year == y && r.value.month == d.month
                        && r.value.day == Min(d.day, DaysInMonth(y, d.month))
  {
    if 1 <= y <= 9999 then Some(Date(y, d.month, Min(d.day, DaysInMonth(y, d.month)))) else None
  }

  function Min(a: int, b: int): int {
    if a <= b then a else b
  }

  /**
   * `DateTimeUtil.ParseResult`: a parsed instant together with whether the
   * input carried a time of day.
   */
  datatype Stamp = Stamp(at: LocalDateTime, hasTime: bool)

  /** What the parser can produce: a date-only stamp always sits at midnight. */
  predicate WellFormedStamp(st: Stamp) {
    !st.hasTime ==> st.at.hour == 0 && st.at.minute == 0
  }

  /** The stamp that reading back a stored stamp gives: a date-only stamp loses its time of day. */
  function Normalize(st: Stamp): (r: Stamp)
    ensures WellFormedStamp(r)
    ensures WellFormedStamp(st) ==> r == st
  {
    if st.hasTime then st else Stamp(AtStartOfDay(DateOf(st.at)), false)
  }

  // ---------------------------------------------------------------------
  // Grammars
  // ---------------------------------------------------------------------

  /** One pattern letter group of a `DateTimeFormatter` pattern. */
  datatype Field =
    | DayNum     // `d`: one to nineteen digits
    | MonthNum   // `M`: one to nineteen digits
    | Day2       // `dd`: exactly two digits
    | Month2     // `MM`
    | Hour2      // `HH`
    | Minute2    // `mm`
    | Year4      // `uuuu` / `yyyy`: an unsigned run of exactly four digits
    | MonthName  // `MMM`: an English month abbreviation
    | Lit(c: char)

  /**
   * `ResolverStyle.STRICT` rejects day 31 of a 30-day month; `SMART` moves it
   * to the last day, and reads the hour 24 with minute 0 as midnight of the
   * next day.
   */
  datatype Resolver = Strict | Smart

  datatype Grammar = Grammar(fields: seq<Field>, ignoreCase: bool, resolver: Resolver, defaultsYear: bool)

  /** The numbers a grammar has matched so far. */
  datatype Parsed = Parsed(year: Option<int>, month: Option<int>, day: Option<int>,
                           hour: Option<int>, minute: Option<int>)

  const NothingParsed := Parsed(None, None, None, None, None)

  const MonthAbbrevs: seq<string> :=
    ["Jan", "Feb", "Mar", "Apr", "May", "Jun", "Jul", "Aug", "Sep", "Oct", "Nov", "Dec"]

  function MonthAbbrev(m: int): (r: string)
    requires 1 <= m <= 12
    ensures |r| == 3 && ':' !in r
  {
    MonthAbbrevs[m - 1]
  }

  predicate TextEquals(a: string, b: string, ignoreCase: bool) {
    |a| == |b| && forall k :: 0 <= k < |a| ==>
      (if ignoreCase then CharEqualsIgnoreCase(a[k], b[k]) else a[k] == b[k])
  }

  /** The number (1 to 12) of the first month whose abbreviation is `t`. */
  function MonthNumber(t: string, ignoreCase: bool, m: int): (r: Option<int>)
    requires 1 <= m <= 13
    ensures r.Some? ==> m <= r.value <= 12 && TextEquals(t, MonthAbbrev(r.value), ignoreCase)
    ensures r.None? ==> forall k :: m <= k <= 12 ==> !TextEquals(t, MonthAbbrev(k), ignoreCase)
    decreases 13 - m
  {
    if m == 13 then None
    else if TextEquals(t, MonthAbbrev(m), ignoreCase) then Some(m)
    else MonthNumber(t, ignoreCase, m + 1)
  }

  /** Reads one field at `pos`: the number it stands for and the position after it. */
  function Scan(f: Field, s: string, pos: nat, ignoreCase: bool): (r: Option<(nat, nat)>)
    requires pos <= |s|
    ensures r.Some? ==> pos < r.value.1 <= |s|
  {
    match f
    case DayNum | MonthNum =>
      var run := DigitRun(s, pos);
      var n := Min(run, 19);
      assert s[pos..pos + n] == s[pos..pos + run][..n];
      if n == 0 then None else Some((DigitsValue(s[pos..pos + n]), pos + n))
    case Year4 =>
      if DigitRun(s, pos) != 4 then None else Some((DigitsValue(s[pos..pos + 4]), pos + 4))
    case Day2 | Month2 | Hour2 | Minute2 =>
      if pos + 2 <= |s| && AllDigits(s[pos..pos + 2]) then Some((DigitsValue(s[pos..pos + 2]), pos + 2))
      else None
    case MonthName =>
      if pos + 3 <= |s| then
        match MonthNumber(s[pos..pos + 3], ignoreCase, 1)
        case Some(m) => Some((m, pos + 3))
        case None => None
      else None
    case Lit(c) =>
      if pos < |s| && (if ignoreCase then CharEqualsIgnoreCase(s[pos], c) else s[pos] == c)
      then Some((0, pos + 1))
      else None
  }

  function Record(f: Field, v: nat, p: Parsed): Parsed {
    match f
    case DayNum | Day2 => p.(day := Some(v))
    case MonthNum | Month2 | MonthName => p.(month := Some(v))
    case Year4 => p.(year := Some(v))
    case Hour2 => p.(hour := Some(v))
    case Minute2 => p.(minute := Some(v))
    case Lit(_) => p
  }

  /** Matches the fields against `s[pos..]`; the whole text must be consumed. */
  function MatchFields(fs: seq<Field>, s: string, pos: nat, ignoreCase: bool, acc: Parsed): Option<Parsed>
    requires pos <= |s|
    decreases |fs|
  {
    if fs == [] then (if pos == |s| then Some(acc) else None)
    else
      match Scan(fs[0], s, pos, ignoreCase)
      case None => None
      case Some((v, next)) => MatchFields(fs[1..], s, next, ignoreCase, Record(fs[0], v, acc))
  }

  /** `LocalDate.plusDays(1)`; the day after 31 December 9999 lies outside the modelled years. */
  function NextDay(d: LocalDate): (r: Option<LocalDate>)
    ensures r.None? <==> d == Date(9999, 12, 31)
    ensures r.Some? ==> IsBefore(d, r.value)
  {
    if d.day < DaysInMonth(d.year, d.month) then Some(Date(d.year, d.month, d.day + 1))
    else if d.month < 12 then Some(Date(d.year, d.month + 1, 1))
    else if d.year < 9999 then Some(Date(d.year + 1, 1, 1))
    else None
  }

  /** No date lies strictly between a date and the next one. */
  lemma NextDayIsNext(d: LocalDate, x: LocalDate)
    requires NextDay(d).Some?
    ensures !(IsBefore(d, x) && IsBefore(x, NextDay(d).value))
  {
  }

  /** Turns matched numbers into a calendar value, as the formatter's resolver does. */
  function Resolve(g: Grammar, p: Parsed, currentYear: int): (r: Option<LocalDateTime>)
    ensures r.Some? && p.hour.None? ==> r.value.hour == 0 && r.value.minute == 0
    ensures r.Some? && p.hour == Some(24) ==> g.resolver.Smart? && r.value.hour == 0 && r.value.minute == 0
    ensures r.Some? ==> p.month.Some? && p.day.Some? && (p.year.Some? || g.defaultsYear)
    ensures r.Some? && p.hour != Some(24) ==>
      && r.value.year == (if p.year.Some? then p.year.value else currentYear)
      && r.value.month == p.month.value
      && r.value.day == Min(p.day.value, DaysInMonth(r.value.year, r.value.month))
      && (g.resolver.Strict? ==> r.value.day == p.day.value)
      && r.value.hour == p.hour.GetOr(0)
      && (p.hour.Some? ==> r.value.minute == p.minute.GetOr(0))
  {
    var year := if p.year.Some? then p.year else if g.defaultsYear then Some(currentYear) else None;
    if year.None? || p.month.None? || p.day.None? then None
    else
      var y := year.value;
      var m := p.month.value;
      var d := p.day.value;
      var h := p.hour.GetOr(0);
      var mi := if p.hour.None? then 0 else p.minute.GetOr(0);
      var endOfDay := g.resolver.Smart? && h == 24 && mi == 0;
      if !(1 <= y <= 9999 && 1 <= m <= 12 && (0 <= h < 24 || endOfDay) && 0 <= mi < 60) then None
      else if !(1 <= d <= if g.resolver.Strict? then DaysInMonth(y, m) else 31) then None
      else
        var date := Date(y, m, Min(d, DaysInMonth(y, m)));
        assert ValidDate(date);
        if endOfDay then
          match NextDay(date)
          case None => None
          case Some(next) => Some(AtStartOfDay(next))
        else
          var i := Instant(y, m, date.day, h, mi);
          assert ValidInstant(i);
          Some(i)
  }

  /** Under `SMART`, 24:00 is midnight at the start of the following day. */
  lemma SmartReadsHour24(g: Grammar, y: int, m: int, d: int, currentYear: int)
    requires g.resolver.Smart? && ValidDate(Date(y, m, d)) && Date(y, m, d) != Date(9999, 12, 31)
    ensures Resolve(g, Parsed(Some(y), Some(m), Some(d), Some(24), Some(0)), currentYear)
            == Some(AtStartOfDay(NextDay(Date(y, m, d)).value))
  {
    assert Min(d, DaysInMonth(y, m)) == d;
  }

  /** `LocalDateTime.parse(s, f)` / `LocalDate.parse(s, f)` for one grammar. */
  function MatchGrammar(g: Grammar, s: string, currentYear: int): Option<LocalDateTime> {
    match MatchFields(g.fields, s, 0, g.ignoreCase, NothingParsed)
    case None => None
    case Some(p) => Resolve(g, p, currentYear)
  }

  function DateTimePattern(sep: char): Grammar {
    Grammar([DayNum, Lit(sep), MonthNum, Lit(sep), Year4, Lit(' '), Hour2, Minute2], true, Smart, false)
  }

  function DatePattern(sep: char): Grammar {
    Grammar([DayNum, Lit(sep), MonthNum, Lit(sep), Year4], true, Smart, false)
  }

  /** `yyyy-MM-dd'T'HH:mm`, the storage form of a date with a time. */
  const IsoMinuteFields: seq<Field> :=
    [Year4, Lit('-'), Month2, Lit('-'), Day2, Lit('T'), Hour2, Lit(':'), Minute2]

  /** `yyyy-MM-dd`, the storage form of a date without a time. */
  const IsoDateFields: seq<Field> := [Year4, Lit('-'), Month2, Lit('-'), Day2]

  /** The date-with-time formats, in the order they are tried. */
  const DateTimeGrammars: seq<Grammar> := [
    DateTimePattern('/'),                                                                  // d/M/uuuu HHmm
    DateTimePattern('-'),                                                                  // d-M-uuuu HHmm
    DateTimePattern('.'),                                                                  // d.M.uuuu HHmm
    Grammar([DayNum, Lit(' '), MonthName, Lit(' '), Year4, Lit(' '), Hour2, Minute2], true, Smart, false),  // d MMM uuuu HHmm
    Grammar([Year4, Lit('-'), Month2, Lit('-'), Day2, Lit(' '), Hour2, Minute2], true, Smart, false),      // uuuu-MM-dd HHmm
    Grammar(IsoMinuteFields, true, Smart, false)                                           // yyyy-MM-dd'T'HH:mm
  ]

  /** The date-only formats, in the order they are tried. */
  const DateGrammars: seq<Grammar> := [
    Grammar(IsoDateFields, false, Strict, false),                                          // ISO_LOCAL_DATE
    DatePattern('/'),                                                                      // d/M/uuuu
    DatePattern('-'),                                                                      // d-M-uuuu
    DatePattern('.'),                                                                      // d.M.uuuu
    Grammar([DayNum, Lit(' '), MonthName, Lit(' '), Year4], true, Smart, false),           // d MMM uuuu
    Grammar([DayNum, Lit(' '), MonthName], true, Smart, true)                              // d MMM, current year
  ]

  /** No format reads the empty text: every format has at least one field to match. */
  lemma EmptyReadsNothing(currentYear: int)
    ensures FirstMatch(DateTimeGrammars, "", currentYear).None?
    ensures FirstMatch(DateGrammars, "", currentYear).None?
  {
    forall k | 0 <= k < |DateTimeGrammars|
      ensures MatchGrammar(DateTimeGrammars[k], "", currentYear).None?
    {
      assert DateTimeGrammars[k].fields != [];
    }
    forall k | 0 <= k < |DateGrammars|
      ensures MatchGrammar(DateGrammars[k], "", currentYear).None?
    {
      assert DateGrammars[k].fields != [];
    }
  }

  /** The first grammar of `gs` that accepts `s`, with the value it reads. */
  function FirstMatch(gs: seq<Grammar>, s: string, currentYear: int): (r: Option<(nat, LocalDateTime)>)
    ensures r.None? <==> forall k :: 0 <= k < |gs| ==> MatchGrammar(gs[k], s, currentYear).None?
    ensures r.Some? ==> r.value.0 < |gs| && MatchGrammar(gs[r.value.0], s, currentYear) == Some(r.value.1)
    ensures r.Some? ==> forall k :: 0 <= k < r.value.0 ==> MatchGrammar(gs[k], s, currentYear).None?
    decreases |gs|
  {
    if gs == [] then None
    else
      match MatchGrammar(gs[0], s, currentYear)
      case Some(i) => Some((0, i))
      case None =>
        match FirstMatch(gs[1..], s, currentYear)
        case None => None
        case Some((k, i)) => Some((k + 1, i))
  }

  /** The date-only half of `parseLenientResult`: midnight of the date read, in the current year when no year was typed. */
  function ParseDateOnly(s: string, currentYear: int): (r: Option<Stamp>)
    ensures r.Some? ==> !r.value.hasTime && WellFormedStamp(r.value)
    ensures r.Some? ==> FirstMatch(DateGrammars, s, currentYear).Some?
    ensures r.Some? && HasFourDigitRun(s) ==> r.value.at == AtStartOfDay(DateOf(FirstMatch(DateGrammars, s, currentYear).value.1))
    ensures r.Some? && !HasFourDigitRun(s) ==> r.value.at.year == currentYear
    ensures FirstMatch(DateGrammars, s, currentYear).Some? && 1 <= currentYear <= 9999 ==>
      var dt := FirstMatch(DateGrammars, s, currentYear).value.1;
      && r.Some? && !r.value.hasTime && WellFormedStamp(r.value)
      && DateOf(r.value.at) == (if HasFourDigitRun(s) then DateOf(dt) else WithYear(DateOf(dt), currentYear).value)
  {
    match FirstMatch(DateGrammars, s, currentYear)
    case None => None
    case Some((_, dt)) =>
      if HasFourDigitRun(s) then Some(Stamp(AtStartOfDay(DateOf(dt)), false))
      else
        match WithYear(DateOf(dt), currentYear)
        case Some(d) => Some(Stamp(AtStartOfDay(d), false))
        case None => None
  }

  /**
   * `DateTimeUtil.parseLenientResult`: date-with-time formats first, then
   * date-only formats; the first format that reads the trimmed input wins.
   */
  function ParseLenient(raw: string, currentYear: int): (r: Option<Stamp>)
    ensures IsTrimEmpty(raw) ==> r.None?
    ensures r.Some? ==> WellFormedStamp(r.value)
    ensures !IsTrimEmpty(raw) && FirstMatch(DateTimeGrammars, Trim(raw), currentYear).Some? ==>
      r == Some(Stamp(FirstMatch(DateTimeGrammars, Trim(raw), currentYear).value.1, true))
    ensures r.Some? && !r.value.hasTime ==>
      && FirstMatch(DateTimeGrammars, Trim(raw), currentYear).None?
      && FirstMatch(DateGrammars, Trim(raw), currentYear).Some?
    ensures r.Some? && !r.value.hasTime && !HasFourDigitRun(Trim(raw)) ==> r.value.at.year == currentYear
    ensures (FirstMatch(DateTimeGrammars, Trim(raw), currentYear).None?
             && FirstMatch(DateGrammars, Trim(raw), currentYear).None?) ==> r.None?
    ensures FirstMatch(DateTimeGrammars, Trim(raw), currentYear).None?
            && FirstMatch(DateGrammars, Trim(raw), currentYear).Some? && 1 <= currentYear <= 9999 ==>
      var s := Trim(raw);
      var dt := FirstMatch(DateGrammars, s, currentYear).value.1;
      && r.Some? && !r.value.hasTime && WellFormedStamp(r.value)
      && DateOf(r.value.at) == (if HasFourDigitRun(s) then DateOf(dt) else WithYear(DateOf(dt), currentYear).value)
  {
    var s := Trim(raw);
    if s == "" then EmptyReadsNothing(currentYear); None
    else
      match FirstMatch(DateTimeGrammars, s, currentYear)
      case Some((_, dt)) => Some(Stamp(dt, true))
      case None => ParseDateOnly(s, currentYear)
  }

  // ---------------------------------------------------------------------
  // Renderings
  // ---------------------------------------------------------------------

  function IsoDate(d: LocalDate): (r: string)
    ensures |r| == 10 && 'T' !in r
  {
    Pad4(d.year) + "-" + Pad2(d.month) + "-" + Pad2(d.day)
  }

  /** `DateTimeUtil.toStorageString`: `yyyy-MM-dd'T'HH:mm` with a time, `yyyy-MM-dd` without. */
  function StorageString(st: Stamp): (r: string)
    ensures 'T' in r <==> st.hasTime
    ensures r != [] && !IsTrimmable(r[0]) && !IsTrimmable(r[|r| - 1])
  {
    var date := IsoDate(DateOf(st.at));
    if st.hasTime then
      var r := date + "T" + Pad2(st.at.hour) + ":" + Pad2(st.at.minute);
      assert r[10] == 'T';
      r
    else date
  }

  /** `d MMM yyyy` in English. */
  function PrettyDate(d: LocalDate): (r: string)
    ensures ':' !in r
  {
    NatToDigits(d.day) + " " + MonthAbbrev(d.month) + " " + Pad4(d.year)
  }

  /** `h:mm a` in English: a twelve-hour clock with AM/PM. */
  function PrettyClock(hour: int, minute: int): (r: string)
    requires 0 <= hour < 24 && 0 <= minute < 60
    ensures ':' in r
  {
    var h := if hour % 12 == 0 then 12 else hour % 12;
    var r := NatToDigits(h) + ":" + Pad2(minute) + " " + (if hour < 12 then "AM" else "PM");
    assert r[|NatToDigits(h)|] == ':';
    r
  }

  /** `DateTimeUtil.toPrettyString`: the date, followed by the clock time exactly when the stamp has one. */
  function PrettyString(st: Stamp): (r: string)
    ensures ':' in r <==> st.hasTime
    ensures |PrettyDate(DateOf(st.at))| <= |r| && r[..|PrettyDate(DateOf(st.at))|] == PrettyDate(DateOf(st.at))
  {
    var date := PrettyDate(DateOf(st.at));
    if st.hasTime then
      var clock := PrettyClock(st.at.hour, st.at.minute);
      var r := date + ", " + clock;
      assert r[|date| + 2..] == clock;
      r
    else date
  }

  // ---------------------------------------------------------------------
  // Reading back the storage form
  // ---------------------------------------------------------------------

  /** The layout of a storage string: `yyyy-MM-dd`, then `'T'HH:mm` when there is a time. */
  lemma StorageStringLayout(st: Stamp)
    ensures var s := StorageString(st);
      && |s| == (if st.hasTime then 16 else 10)
      && s[0..4] == Pad4(st.at.year) && s[4] == '-'
      && s[5..7] == Pad2(st.at.month) && s[7] == '-'
      && s[8..10] == Pad2(st.at.day)
      && (st.hasTime ==> s[10] == 'T' && s[11..13] == Pad2(st.at.hour) && s[13] == ':' && s[14..16] == Pad2(st.at.minute))
  {
    var date := IsoDate(DateOf(st.at));
    assert date[0..4] == Pad4(st.at.year);
    assert date[5..7] == Pad2(st.at.month);
    assert date[8..10] == Pad2(st.at.day);
    if st.hasTime {
      var s := StorageString(st);
      assert s[..10] == date;
      assert s[0..4] == date[0..4] && s[5..7] == date[5..7] && s[8..10] == date[8..10];
    }
  }

  /** The digit runs the reading formats see in a storage string. */
  lemma StorageStringRuns(st: Stamp)
    ensures var s := StorageString(st);
      && |s| == (if st.hasTime then 16 else 10)
      && s[4] == '-' && s[7] == '-' && (st.hasTime ==> s[10] == 'T' && s[13] == ':')
      && DigitRun(s, 0) == 4 && DigitsValue(s[0..4]) == st.at.year
      && DigitRun(s, 5) == 2 && AllDigits(s[5..7]) && DigitsValue(s[5..7]) == st.at.month
      && DigitRun(s, 8) == 2 && AllDigits(s[8..10]) && DigitsValue(s[8..10]) == st.at.day
      && (st.hasTime ==>
            && AllDigits(s[11..13]) && DigitsValue(s[11..13]) == st.at.hour
            && AllDigits(s[14..16]) && DigitsValue(s[14..16]) == st.at.minute)
  {
    var s := StorageString(st);
    StorageStringLayout(st);
    DigitRunExact(s, 0, 4);
    DigitRunExact(s, 5, 2);
    DigitRunExact(s, 8, 2);
  }

  /** What the reading formats observe in the date part of a storage string. */
  predicate IsoDateLayout(s: string, y: int, m: int, d: int) {
    && |s| >= 10 && s[4] == '-' && s[7] == '-' && (|s| > 10 ==> s[10] == 'T')
    && DigitRun(s, 0) == 4 && DigitsValue(s[0..4]) == y
    && DigitRun(s, 5) == 2 && AllDigits(s[5..7]) && DigitsValue(s[5..7]) == m
    && DigitRun(s, 8) == 2 && AllDigits(s[8..10]) && DigitsValue(s[8..10]) == d
  }

  lemma StorageStringDateLayout(st: Stamp)
    ensures IsoDateLayout(StorageString(st), st.at.year, st.at.month, st.at.day)
  {
    StorageStringRuns(st);
  }

  /** The `d/M/uuuu HHmm`, `d.M.uuuu HHmm` and `d MMM uuuu HHmm` formats stop at the first dash. */
  lemma IsoSkipsDaySeparators(s: string, y: int, m: int, d: int, currentYear: int, k: nat)
    requires IsoDateLayout(s, y, m, d)
    requires k == 0 || k == 2 || k == 3
    ensures MatchGrammar(DateTimeGrammars[k], s, currentYear).None?
  {
    var g := DateTimeGrammars[k];
    assert g.fields[1] == Lit('/') || g.fields[1] == Lit('.') || g.fields[1] == Lit(' ');
    assert Scan(DayNum, s, 0, true) == Some((y, 4)) by {
      assert s[0..0 + Min(4, 19)] == s[0..4];
    }
    assert Scan(g.fields[1], s, 4, true).None?;
    var p1 := Record(DayNum, y, NothingParsed);
    assert MatchFields(g.fields, s, 0, true, NothingParsed) == MatchFields(g.fields[1..], s, 4, true, p1);
  }

  /** `d-M-uuuu HHmm` reads the year digits as a day and then finds only two year digits. */
  lemma IsoSkipsDashDayFirst(s: string, y: int, m: int, d: int, currentYear: int)
    requires IsoDateLayout(s, y, m, d)
    ensures MatchGrammar(DateTimeGrammars[1], s, currentYear).None?
  {
    var fs := DateTimeGrammars[1].fields;
    assert Scan(DayNum, s, 0, true) == Some((y, 4)) by {
      assert s[0..0 + Min(4, 19)] == s[0..4];
    }
    assert Scan(MonthNum, s, 5, true) == Some((m, 7)) by {
      assert s[5..5 + Min(2, 19)] == s[5..7];
    }
    assert Scan(Year4, s, 8, true).None?;
    var p1 := Record(DayNum, y, NothingParsed);
    var p2 := Record(MonthNum, m, p1);
    assert MatchFields(fs[3..], s, 7, true, p2) == MatchFields(fs[4..], s, 8, true, p2);
    assert MatchFields(fs[2..], s, 5, true, p1) == MatchFields(fs[3..], s, 7, true, p2);
    assert MatchFields(fs[1..], s, 4, true, p1) == MatchFields(fs[2..], s, 5, true, p1);
    assert MatchFields(fs, s, 0, true, NothingParsed) == MatchFields(fs[1..], s, 4, true, p1);
  }

  /** Matching `yyyy-MM-dd` at the start: the date's own numbers, ending at position 10. */
  lemma IsoDatePrefix(s: string, y: int, m: int, d: int, fs: seq<Field>, ignoreCase: bool)
    requires IsoDateLayout(s, y, m, d)
    requires |fs| >= 5 && fs[..5] == IsoDateFields
    ensures MatchFields(fs, s, 0, ignoreCase, NothingParsed)
            == MatchFields(fs[5..], s, 10, ignoreCase, Parsed(Some(y), Some(m), Some(d), None, None))
  {
    var p1 := Parsed(Some(y), None, None, None, None);
    var p2 := Parsed(Some(y), Some(m), None, None, None);
    var p3 := Parsed(Some(y), Some(m), Some(d), None, None);
    assert fs[0] == Year4 && fs[1] == Lit('-') && fs[2] == Month2 && fs[3] == Lit('-') && fs[4] == Day2;
    assert Scan(Day2, s, 8, ignoreCase) == Some((d, 10));
    assert MatchFields(fs[4..], s, 8, ignoreCase, p2) == MatchFields(fs[5..], s, 10, ignoreCase, p3);
    assert Scan(Lit('-'), s, 7, ignoreCase) == Some((0, 8));
    assert MatchFields(fs[3..], s, 7, ignoreCase, p2) == MatchFields(fs[4..], s, 8, ignoreCase, p2);
    assert Scan(Month2, s, 5, ignoreCase) == Some((m, 7));
    assert MatchFields(fs[2..], s, 5, ignoreCase, p1) == MatchFields(fs[3..], s, 7, ignoreCase, p2);
    assert Scan(Lit('-'), s, 4, ignoreCase) == Some((0, 5));
    assert MatchFields(fs[1..], s, 4, ignoreCase, p1) == MatchFields(fs[2..], s, 5, ignoreCase, p1);
    assert Scan(Year4, s, 0, ignoreCase) == Some((y, 4));
  }

  /** `uuuu-MM-dd HHmm` reads the date and then wants a space where a storage string has `T` or ends. */
  lemma IsoSkipsSpacedTime(s: string, y: int, m: int, d: int, currentYear: int)
    requires IsoDateLayout(s, y, m, d)
    ensures MatchGrammar(DateTimeGrammars[4], s, currentYear).None?
  {
    var g := DateTimeGrammars[4];
    var fs := g.fields;
    assert g.ignoreCase && fs == IsoDateFields + [Lit(' '), Hour2, Minute2];
    IsoDatePrefix(s, y, m, d, fs, true);
    var p3 := Parsed(Some(y), Some(m), Some(d), None, None);
    assert fs[5] == Lit(' ') && Scan(Lit(' '), s, 10, true).None?;
    assert MatchFields(fs[5..], s, 10, true, p3).None?;
  }

  /** None of the first five date-with-time formats reads a storage string. */
  lemma StorageStringSkipsEarlyDateTimeFormats(st: Stamp, currentYear: int, k: nat)
    requires k < 5
    ensures MatchGrammar(DateTimeGrammars[k], StorageString(st), currentYear).None?
  {
    var s := StorageString(st);
    var y, m, d := st.at.year, st.at.month, st.at.day;
    StorageStringDateLayout(st);
    if k == 1 {
      IsoSkipsDashDayFirst(s, y, m, d, currentYear);
    } else if k == 4 {
      IsoSkipsSpacedTime(s, y, m, d, currentYear);
    } else {
      IsoSkipsDaySeparators(s, y, m, d, currentYear, k);
    }
  }

  /** What `yyyy-MM-dd'T'HH:mm` observes after the date part of a storage string. */
  predicate IsoTimeLayout(s: string, h: int, mi: int) {
    && |s| == 16 && s[10] == 'T' && s[13] == ':'
    && AllDigits(s[11..13]) && DigitsValue(s[11..13]) == h
    && AllDigits(s[14..16]) && DigitsValue(s[14..16]) == mi
  }

  lemma IsoMinuteFieldsRead(s: string, y: int, m: int, d: int, h: int, mi: int, ignoreCase: bool)
    requires IsoDateLayout(s, y, m, d) && IsoTimeLayout(s, h, mi)
    ensures MatchFields(IsoMinuteFields, s, 0, ignoreCase, NothingParsed)
            == Some(Parsed(Some(y), Some(m), Some(d), Some(h), Some(mi)))
  {
    var fs := IsoMinuteFields;
    IsoDatePrefix(s, y, m, d, fs, ignoreCase);
    var p3 := Parsed(Some(y), Some(m), Some(d), None, None);
    var p4 := p3.(hour := Some(h));
    var p5 := p4.(minute := Some(mi));
    assert Scan(Minute2, s, 14, ignoreCase) == Some((mi, 16));
    assert MatchFields(fs[8..], s, 14, ignoreCase, p4) == Some(p5);
    assert Scan(Lit(':'), s, 13, ignoreCase) == Some((0, 14));
    assert MatchFields(fs[7..], s, 13, ignoreCase, p4) == MatchFields(fs[8..], s, 14, ignoreCase, p4);
    assert Scan(Hour2, s, 11, ignoreCase) == Some((h, 13));
    assert MatchFields(fs[6..], s, 11, ignoreCase, p3) == MatchFields(fs[7..], s, 13, ignoreCase, p4);
    assert Scan(Lit('T'), s, 10, ignoreCase) == Some((0, 11));
  }

  /** Any `yyyy-MM-dd'T'HH:mm` formatter reads a laid-out date with a time as exactly that instant. */
  lemma IsoMinuteReads(s: string, i: LocalDateTime, g: Grammar, currentYear: int)
    requires IsoDateLayout(s, i.year, i.month, i.day) && IsoTimeLayout(s, i.hour, i.minute)
    requires g.fields == IsoMinuteFields
    ensures MatchGrammar(g, s, currentYear) == Some(i)
  {
    IsoMinuteFieldsRead(s, i.year, i.month, i.day, i.hour, i.minute, g.ignoreCase);
    assert Min(i.day, DaysInMonth(i.year, i.month)) == i.day;
    assert Resolve(g, Parsed(Some(i.year), Some(i.month), Some(i.day), Some(i.hour), Some(i.minute)), currentYear) == Some(i);
  }

  lemma IsoMinuteNeedsTime(s: string, y: int, m: int, d: int, g: Grammar, currentYear: int)
    requires IsoDateLayout(s, y, m, d) && |s| == 10
    requires g.fields == IsoMinuteFields
    ensures MatchGrammar(g, s, currentYear).None?
  {
    IsoDatePrefix(s, y, m, d, IsoMinuteFields, g.ignoreCase);
    assert Scan(Lit('T'), s, 10, g.ignoreCase).None?;
  }

  /** Any `yyyy-MM-dd` formatter reads a laid-out date as its midnight. */
  lemma IsoDateReads(s: string, dt: LocalDate, g: Grammar, currentYear: int)
    requires IsoDateLayout(s, dt.year, dt.month, dt.day) && |s| == 10
    requires g.fields == IsoDateFields
    ensures MatchGrammar(g, s, currentYear) == Some(AtStartOfDay(dt))
  {
    IsoDatePrefix(s, dt.year, dt.month, dt.day, IsoDateFields, g.ignoreCase);
    assert IsoDateFields[5..] == [];
    assert Min(dt.day, DaysInMonth(dt.year, dt.month)) == dt.day;
  }

  /**
   * The storage formats read a storage string back: `yyyy-MM-dd'T'HH:mm`
   * gives the same instant exactly when the stamp has a time, and
   * `yyyy-MM-dd` gives the midnight of a date-only stamp, whichever
   * resolver and case rule the formatter uses.
   */
  lemma StorageStringReads(st: Stamp, g: Grammar, currentYear: int)
    ensures g.fields == IsoMinuteFields ==>
      MatchGrammar(g, StorageString(st), currentYear) == (if st.hasTime then Some(st.at) else None)
    ensures g.fields == IsoDateFields && !st.hasTime ==>
      MatchGrammar(g, StorageString(st), currentYear) == Some(AtStartOfDay(DateOf(st.at)))
  {
    var s := StorageString(st);
    StorageStringRuns(st);
    StorageStringDateLayout(st);
    if g.fields == IsoMinuteFields {
      if st.hasTime {
        assert IsoTimeLayout(s, st.at.hour, st.at.minute);
        IsoMinuteReads(s, st.at, g, currentYear);
      } else {
        IsoMinuteNeedsTime(s, st.at.year, st.at.month, st.at.day, g, currentYear);
      }
    } else if g.fields == IsoDateFields && !st.hasTime {
      IsoDateReads(s, DateOf(st.at), g, currentYear);
    }
  }

  /**
   * Reading back what `toStorageString` wrote gives the same stamp (a
   * date-only stamp at midnight), whatever the current year: the storage
   * form round-trips through the lenient reader.
   */
  lemma {:induction false} StorageRoundTrip(st: Stamp, currentYear: int)
    ensures ParseLenient(StorageString(st), currentYear) == Some(Normalize(st))
  {
    var s := StorageString(st);
    TrimOfClean(s);
    StorageStringReads(st, DateTimeGrammars[5], currentYear);
    forall k | 0 <= k < 5
      ensures MatchGrammar(DateTimeGrammars[k], s, currentYear).None?
    {
      StorageStringSkipsEarlyDateTimeFormats(st, currentYear, k);
    }
    if st.hasTime {
      var fm := FirstMatch(DateTimeGrammars, s, currentYear);
      assert fm.Some?;
      assert fm.value.0 == 5;
    } else {
      assert FirstMatch(DateTimeGrammars, s, currentYear).None?;
      StorageStringReads(st, DateGrammars[0], currentYear);
      var fm := FirstMatch(DateGrammars, s, currentYear);
      assert fm == Some((0, AtStartOfDay(DateOf(st.at))));
      StorageStringRuns(st);
      assert FourDigitsAt(s, 0);
    }
  }

  // ---------------------------------------------------------------------
  // Reading back the display form of a date
  // ---------------------------------------------------------------------

  /** Each month's abbreviation is read back as that month, whatever the case rule. */
  lemma AbbrevsDiffer(a: int, b: int)
    requires 1 <= a <= 12 && 1 <= b <= 12
    requires TextEquals(MonthAbbrev(a), MonthAbbrev(b), true)
    ensures a == b
  {
    var x := MonthAbbrev(a);
    var y := MonthAbbrev(b);
    assert CharEqualsIgnoreCase(x[0], y[0]) && CharEqualsIgnoreCase(x[1], y[1]) && CharEqualsIgnoreCase(x[2], y[2]);
  }

  lemma MonthNumberOfAbbrev(m: int)
    requires 1 <= m <= 12
    ensures MonthNumber(MonthAbbrev(m), true, 1) == Some(m)
  {
    var t := MonthAbbrev(m);
    assert TextEquals(t, t, true);
    var r := MonthNumber(t, true, 1);
    AbbrevsDiffer(m, r.value);
  }

  /** What the reading formats observe in `d MMM yyyy`: the day takes `a` digits. */
  predicate PrettyDateLayout(s: string, a: nat, dt: LocalDate) {
    && 1 <= a <= 2 && |s| == a + 9
    && DigitRun(s, 0) == a && DigitsValue(s[0..a]) == dt.day
    && s[a] == ' ' && s[a + 1..a + 4] == MonthAbbrev(dt.month) && s[a + 4] == ' '
    && DigitRun(s, a + 5) == 4 && DigitsValue(s[a + 5..a + 9]) == dt.year
  }

  lemma PrettyDateLaidOut(dt: LocalDate)
    ensures PrettyDateLayout(PrettyDate(dt), |NatToDigits(dt.day)|, dt)
  {
    var digits := NatToDigits(dt.day);
    var a := |digits|;
    if dt.day >= 10 {
      assert digits == NatToDigits(dt.day / 10) + [DigitChar(dt.day % 10)];
    }
    var s := PrettyDate(dt);
    var name := MonthAbbrev(dt.month);
    var year := Pad4(dt.year);
    assert s == digits + " " + name + " " + year;
    assert s[0..a] == digits;
    assert s[a + 1..a + 4] == name;
    assert s[a + 5..a + 9] == year;
    DigitsOfNat(dt.day);
    DigitRunExact(s, 0, a);
    DigitRunExact(s, a + 5, 4);
  }

  /** Matching `d MMM uuuu` at the start of a laid-out display date: its own numbers, up to the end. */
  lemma PrettyDatePrefix(s: string, a: nat, dt: LocalDate, fs: seq<Field>)
    requires PrettyDateLayout(s, a, dt)
    requires |fs| >= 5 && fs[..5] == [DayNum, Lit(' '), MonthName, Lit(' '), Year4]
    ensures MatchFields(fs, s, 0, true, NothingParsed)
            == MatchFields(fs[5..], s, a + 9, true, Parsed(Some(dt.year), Some(dt.month), Some(dt.day), None, None))
  {
    var p1 := Parsed(None, None, Some(dt.day), None, None);
    var p2 := p1.(month := Some(dt.month));
    var p3 := p2.(year := Some(dt.year));
    assert fs[0] == DayNum && fs[1] == Lit(' ') && fs[2] == MonthName && fs[3] == Lit(' ') && fs[4] == Year4;
    assert Scan(Year4, s, a + 5, true) == Some((dt.year, a + 9));
    assert MatchFields(fs[4..], s, a + 5, true, p2) == MatchFields(fs[5..], s, a + 9, true, p3);
    assert Scan(Lit(' '), s, a + 4, true) == Some((0, a + 5));
    assert MatchFields(fs[3..], s, a + 4, true, p2) == MatchFields(fs[4..], s, a + 5, true, p2);
    MonthNumberOfAbbrev(dt.month);
    assert Scan(MonthName, s, a + 1, true) == Some((dt.month, a + 4));
    assert MatchFields(fs[2..], s, a + 1, true, p1) == MatchFields(fs[3..], s, a + 4, true, p2);
    assert Scan(Lit(' '), s, a, true) == Some((0, a + 1));
    assert MatchFields(fs[1..], s, a, true, p1) == MatchFields(fs[2..], s, a + 1, true, p1);
    assert Scan(DayNum, s, 0, true) == Some((dt.day, a)) by {
      assert s[0..0 + Min(a, 19)] == s[0..a];
    }
  }

  /** The numeric formats want a `/`, `-` or `.` where a display date has a space. */
  lemma PrettySkipsSeparator(s: string, a: nat, dt: LocalDate, g: Grammar, currentYear: int)
    requires PrettyDateLayout(s, a, dt)
    requires |g.fields| >= 2 && g.fields[0] == DayNum && g.ignoreCase
    requires g.fields[1] == Lit('/') || g.fields[1] == Lit('-') || g.fields[1] == Lit('.')
    ensures MatchGrammar(g, s, currentYear).None?
  {
    assert Scan(DayNum, s, 0, true) == Some((dt.day, a)) by {
      assert s[0..0 + Min(a, 19)] == s[0..a];
    }
    assert Scan(g.fields[1], s, a, true).None?;
    var p1 := Record(DayNum, dt.day, NothingParsed);
    assert MatchFields(g.fields, s, 0, true, NothingParsed) == MatchFields(g.fields[1..], s, a, true, p1);
  }

  /** The year-first formats want four digits where a display date has one or two. */
  lemma PrettySkipsYearFirst(s: string, a: nat, dt: LocalDate, g: Grammar, currentYear: int)
    requires PrettyDateLayout(s, a, dt)
    requires g.fields != [] && g.fields[0] == Year4
    ensures MatchGrammar(g, s, currentYear).None?
  {
    assert Scan(Year4, s, 0, g.ignoreCase).None?;
  }

  /** `d MMM uuuu HHmm` reads the date and then wants a space where a display date ends. */
  lemma PrettySkipsClock(s: string, a: nat, dt: LocalDate, currentYear: int)
    requires PrettyDateLayout(s, a, dt)
    ensures MatchGrammar(DateTimeGrammars[3], s, currentYear).None?
  {
    var fs := DateTimeGrammars[3].fields;
    PrettyDatePrefix(s, a, dt, fs);
    var p3 := Parsed(Some(dt.year), Some(dt.month), Some(dt.day), None, None);
    assert fs[5] == Lit(' ') && Scan(Lit(' '), s, a + 9, true).None?;
    assert MatchFields(fs[5..], s, a + 9, true, p3).None?;
  }

  /** No date-with-time format reads a display date: each wants more text or other separators. */
  lemma PrettyDateSkipsDateTimeFormats(s: string, a: nat, dt: LocalDate, currentYear: int)
    requires PrettyDateLayout(s, a, dt)
    ensures FirstMatch(DateTimeGrammars, s, currentYear).None?
  {
    forall k | 0 <= k < |DateTimeGrammars|
      ensures MatchGrammar(DateTimeGrammars[k], s, currentYear).None?
    {
      PrettySkipsDateTimeFormat(s, a, dt, currentYear, k);
    }
  }

  lemma PrettySkipsDateTimeFormat(s: string, a: nat, dt: LocalDate, currentYear: int, k: nat)
    requires PrettyDateLayout(s, a, dt) && k < 6
    ensures MatchGrammar(DateTimeGrammars[k], s, currentYear).None?
  {
    var g := DateTimeGrammars[k];
    if k < 3 {
      PrettySkipsSeparator(s, a, dt, g, currentYear);
    } else if k == 3 {
      PrettySkipsClock(s, a, dt, currentYear);
    } else {
      PrettySkipsYearFirst(s, a, dt, g, currentYear);
    }
  }

  /** Of the date-only formats, `d MMM uuuu` is the first to read a display date, as its midnight. */
  lemma PrettyDateFirstDateFormat(s: string, a: nat, dt: LocalDate, currentYear: int)
    requires PrettyDateLayout(s, a, dt)
    ensures FirstMatch(DateGrammars, s, currentYear) == Some((4, AtStartOfDay(dt)))
  {
    PrettySkipsYearFirst(s, a, dt, DateGrammars[0], currentYear);
    forall k | 1 <= k < 4
      ensures MatchGrammar(DateGrammars[k], s, currentYear).None?
    {
      PrettySkipsSeparator(s, a, dt, DateGrammars[k], currentYear);
    }
    var g := DateGrammars[4];
    PrettyDatePrefix(s, a, dt, g.fields);
    assert g.fields[5..] == [];
    assert Min(dt.day, DaysInMonth(dt.year, dt.month)) == dt.day;
    assert MatchGrammar(g, s, currentYear) == Some(AtStartOfDay(dt));
  }

  /**
   * `toPrettyString` of a date-only stamp is itself an accepted input
   * (`d MMM uuuu`): reading it back gives the same stamp, whatever the
   * current year.
   */
  lemma {:induction false} PrettyDateRoundTrip(st: Stamp, currentYear: int)
    requires WellFormedStamp(st) && !st.hasTime
    ensures ParseLenient(PrettyString(st), currentYear) == Some(st)
  {
    var dt := DateOf(st.at);
    var s := PrettyString(st);
    var a := |NatToDigits(dt.day)|;
    PrettyDateLaidOut(dt);
    TrimOfClean(s);
    PrettyDateSkipsDateTimeFormats(s, a, dt, currentYear);
    PrettyDateFirstDateFormat(s, a, dt, currentYear);
    assert FourDigitsAt(s, a + 5);
  }
}
