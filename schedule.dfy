/** The weekly timetable (routes/schedule.js): the Saturday-to-Thursday window,
    the occurrences in the student's four scopes, their colours, their
    grouping by weekday, and a semester's absence rate. Dates are day numbers
    counted from 1970-01-01; times are seconds since midnight. */
module Schedule {
  import opened Common
  import opened Tables
  import opened Sorting
  import opened Rollup
  import opened Makeup

  // ---------------------------------------------------------------------------
  // The week offset: parseInt(weekOffset) || 0.

  /** The length of the longest prefix of decimal digits. */
  function DigitPrefix(s: string): (n: nat)
    ensures n <= |s| && IsDigits(s[..n])
    ensures n < |s| ==> !IsDigit(s[n])
  {
    if s == [] || !IsDigit(s[0]) then 0
    else
      var n := 1 + DigitPrefix(s[1..]);
      assert forall i :: 1 <= i < n ==> s[..n][i] == s[1..][..n - 1][i - 1];
      n
  }

  predicate IsHexDigit(c: char)
  {
    IsDigit(c) || 'a' <= c <= 'f' || 'A' <= c <= 'F'
  }

  function HexValue(c: char): (v: nat)
    requires IsHexDigit(c)
    ensures v < 16
  {
    if IsDigit(c) then (c as int - '0' as int)
    else if 'a' <= c <= 'f' then (c as int - 'a' as int) + 10
    else (c as int - 'A' as int) + 10
  }

  /** The length of the longest prefix of hexadecimal digits. */
  function HexPrefix(s: string): (n: nat)
    ensures n <= |s| && forall i :: 0 <= i < n ==> IsHexDigit(s[i])
    ensures n < |s| ==> !IsHexDigit(s[n])
  {
    if s == [] || !IsHexDigit(s[0]) then 0 else 1 + HexPrefix(s[1..])
  }

  function ParseHex(s: string): nat
    requires forall i :: 0 <= i < |s| ==> IsHexDigit(s[i])
  {
    if s == [] then 0 else 16 * ParseHex(s[..|s| - 1]) + HexValue(s[|s| - 1])
  }

  /** `0x` or `0X`: parseInt with no radix then reads hexadecimal. */
  predicate HexMarked(body: string)
  {
    |body| >= 2 && body[0] == '0' && (body[1] == 'x' || body[1] == 'X')
  }

  /** parseInt on a string with no radix: leading whitespace, an optional
      sign, then a `0x`/`0X` prefix and as many hexadecimal digits as there
      are, or as many decimal digits as there are; None (NaN) when there is
      no digit. */
  function ParseInt(s: string): (r: Option<int>)
  {
    var t := TrimStart(s);
    var neg := |t| > 0 && t[0] == '-';
    var body := if |t| > 0 && (t[0] == '-' || t[0] == '+') then t[1..] else t;
    if HexMarked(body) then
      var h := body[2..];
      var n := HexPrefix(h);
      if n == 0 then None
      else
        var v: int := ParseHex(h[..n]);
        Some(if neg then -v else v)
    else
      var n := DigitPrefix(body);
      if n == 0 then None
      else
        var v: int := ParseDecimal(body[..n]);
        Some(if neg then -v else v)
  }

  /** `parseInt(weekOffset) || 0`, with 0 when the query parameter is absent. */
  function WeekOffset(param: Option<string>): (k: int)
    ensures param.None? ==> k == 0
    ensures param.Some? && ParseInt(param.value).None? ==> k == 0
    ensures param.Some? && ParseInt(param.value).Some? ==> k == ParseInt(param.value).value
  {
    if param.None? then 0
    else
      var p := ParseInt(param.value);
      if p.None? then 0 else p.value
  }

  lemma DigitPrefixOfDigits(s: string, rest: string)
    requires IsDigits(s) && (rest == [] || !IsDigit(rest[0]))
    ensures DigitPrefix(s + rest) == |s|
    decreases |s|
  {
    if s != [] {
      assert (s + rest)[1..] == s[1..] + rest;
      DigitPrefixOfDigits(s[1..], rest);
    } else {
      assert s + rest == rest;
    }
  }

  /** The offset written as a decimal number is read back, with its sign. */
  lemma WeekOffsetOfDecimal(n: nat)
    ensures WeekOffset(Some(Decimal(n))) == n
    ensures WeekOffset(Some("-" + Decimal(n))) == -(n as int)
  {
    var d := Decimal(n);
    DigitsReadBack(n);
    var m := "-" + d;
    assert !IsSpace('-');
    assert TrimStart(m) == m && m[1..] == d;
  }

  /** The digits of a number, with nothing before them, read back as the number. */
  lemma DigitsReadBack(n: nat)
    ensures TrimStart(Decimal(n)) == Decimal(n)
    ensures DigitPrefix(Decimal(n)) == |Decimal(n)|
    ensures ParseInt(Decimal(n)) == Some(n)
  {
    var d := Decimal(n);
    assert !IsSpace(d[0]) && !IsDigit('-') && !IsDigit('+');
    assert |d| >= 2 ==> IsDigit(d[1]);
    DigitPrefixOfDigits(d, []);
    assert d + [] == d && d[..|d|] == d;
    ParseDecimalOfDecimal(n);
  }

  /** A `0x` offset is read as hexadecimal; `0x` with no digit after it
      counts as the current week. */
  lemma WeekOffsetOfHex()
    ensures WeekOffset(Some("0x1")) == 1
    ensures WeekOffset(Some("-0X1f")) == -31
    ensures WeekOffset(Some("0x")) == 0
    ensures WeekOffset(Some("0xg")) == 0
  {
    assert !IsSpace('0') && !IsSpace('-');
    assert "-0X1f"[1..] == "0X1f" && "0X1f"[2..] == "1f" && "1f"[..2] == "1f" && "1f"[..1] == "1";
    assert HexPrefix("1f") == 2 by { assert "1f"[1..] == "f"; assert "f"[1..] == []; }
    assert "0x1"[2..] == "1" && "1"[..1] == "1";
    assert HexPrefix("1") == 1 by { assert "1"[1..] == []; }
    assert "0xg"[2..] == "g" && !IsHexDigit('g');
    assert "0x"[2..] == [];
  }

  /** Text with no leading digit counts as the current week. */
  lemma WeekOffsetOfWord()
    ensures WeekOffset(Some("next")) == 0
  {
    assert !IsDigit('n');
  }

  // ---------------------------------------------------------------------------
  // The week window.

  /** getDay(): 0 for Sunday to 6 for Saturday; day 0 (1970-01-01) was a Thursday. */
  function Weekday(day: int): (w: int)
    ensures 0 <= w < 7
  {
    (day + 4) % 7
  }

  const Saturday: int := 6
  const Thursday: int := 4

  /** The reference date moved by whole weeks. */
  function Shifted(today: int, offset: int): int
  {
    today + 7 * offset
  }

  /** The Saturday on or before `day`: `day - (getDay() + 1) % 7`. */
  function WeekStart(day: int): (s: int)
    ensures day - 6 <= s <= day
    ensures Weekday(s) == Saturday
  {
    var back := (Weekday(day) + 1) % 7;
    var s := day - back;
    assert (s + 4) % 7 == ((day + 4) - back) % 7;
    s
  }

  /** Saturday + 5, a Thursday. */
  function WeekEnd(day: int): (e: int)
    ensures e == WeekStart(day) + 5
    ensures Weekday(e) == Thursday
  {
    WeekStart(day) + 5
  }

  /** Every day of the window shares the window. */
  lemma WindowOfItsDays(day: int, d: int)
    requires WeekStart(day) <= d <= WeekEnd(day)
    ensures WeekStart(d) == WeekStart(day)
  {
    var s := WeekStart(day);
    assert (d + 4) % 7 == (s + 4 + (d - s)) % 7;
  }

  /** Moving the offset by one moves the window by a week. */
  lemma NextWeek(today: int, offset: int)
    ensures WeekStart(Shifted(today, offset + 1)) == WeekStart(Shifted(today, offset)) + 7
  {
    var d := Shifted(today, offset);
    assert Shifted(today, offset + 1) == d + 7;
    assert (d + 7 + 4) % 7 == (d + 4) % 7;
  }

  // ---------------------------------------------------------------------------
  // Calendar dates and their text.

  /** The civil (proleptic Gregorian) date of a day number. */
  function CivilFromDays(day: int): (r: (int, int, int))
  {
    var z := day + 719468;
    var era := z / 146097;
    var doe := z - era * 146097;
    var yoe := (doe - doe / 1460 + doe / 36524 - doe / 146096) / 365;
    var y := yoe + era * 400;
    var doy := doe - (365 * yoe + yoe / 4 - yoe / 100);
    var mp := (5 * doy + 2) / 153;
    var d := doy - (153 * mp + 2) / 5 + 1;
    var m := if mp < 10 then mp + 3 else mp - 9;
    (if m <= 2 then y + 1 else y, m, d)
  }

  /** The epoch, and a leap day. */
  lemma CivilEpoch()
    ensures CivilFromDays(0) == (1970, 1, 1)
  {
    assert 719468 / 146097 == 4;
    assert (719468 - 4 * 146097) == 135080;
    assert (135080 - 135080 / 1460 + 135080 / 36524 - 135080 / 146096) / 365 == 369;
    assert 135080 - (365 * 369 + 369 / 4 - 369 / 100) == 306;
    assert (5 * 306 + 2) / 153 == 10;
    assert 306 - (153 * 10 + 2) / 5 + 1 == 1;
  }

  lemma CivilLeapDay()
    ensures CivilFromDays(19782) == (2024, 2, 29)
  {
    assert (19782 + 719468) / 146097 == 5;
    assert (739250 - 5 * 146097) == 8765;
    assert (8765 - 8765 / 1460 + 8765 / 36524 - 8765 / 146096) / 365 == 23;
    assert 8765 - (365 * 23 + 23 / 4 - 23 / 100) == 365;
    assert (5 * 365 + 2) / 153 == 11;
    assert 365 - (153 * 11 + 2) / 5 + 1 == 29;
  }

  /** String(n) for an integer. */
  function JsString(n: int): (s: string)
    ensures n >= 0 ==> s == Decimal(n)
    ensures n < 0 ==> s == "-" + Decimal(-n)
  {
    if n < 0 then "-" + Decimal(-n) else Decimal(n)
  }

  /** String(n).padStart(2, '0'). */
  function PadStart2(n: int): (s: string)
    ensures n >= 0 ==> |s| >= 2 && IsDigits(s) && ParseDecimal(s) == n
    ensures 0 <= n < 100 ==> s == Pad2(n)
  {
    var t := JsString(n);
    if |t| < 2 then
      var s := "0" + t;
      if n >= 0 then
        assert s == ['0', DigitChar(n)];
        assert s[..1] == "0" && s[..1][..0] == [];
        assert ParseDecimal(s[..1]) == 0;
        assert DigitValue(DigitChar(n)) == n;
        s
      else s
    else
      if n >= 0 then
        ParseDecimalOfDecimal(n);
        if n < 100 then Pad2OfTwoDigits(n); t else t
      else t
  }

  /** `${year}-${month}-${day}` with the month and day padded to two digits. */
  function FormatDate(year: int, month: int, day: int): (s: string)
  {
    JsString(year) + "-" + PadStart2(month) + "-" + PadStart2(day)
  }

  /** The text of a day number's civil date. */
  function FormatDay(day: int): string
  {
    var c := CivilFromDays(day);
    FormatDate(c.0, c.1, c.2)
  }

  /** For a four-digit year the text is the full-date form of section 5.6 of
      RFC 3339 (YYYY-MM-DD), and its fields read back as the date. */
  lemma FormatDateFullDate(year: int, month: int, day: int)
    requires 1000 <= year <= 9999 && 1 <= month <= 12 && 1 <= day <= 31
    ensures var s := FormatDate(year, month, day);
      && |s| == 10 && s[4] == '-' && s[7] == '-'
      && IsDigits(s[..4]) && IsDigits(s[5..7]) && IsDigits(s[8..])
      && ParseDecimal(s[..4]) == year && ParseDecimal(s[5..7]) == month && ParseDecimal(s[8..]) == day
  {
    assert Pow10(3) == 1000 && Pow10(4) == 10000;
    DecimalLength(year, 4);
    ParseDecimalOfDecimal(year);
    var y, m, d := Decimal(year), Pad2(month), Pad2(day);
    assert FormatDate(year, month, day) == y + "-" + m + "-" + d;
    DashedParts(y, m, d);
  }

  /** The three parts of a dashed date are where the text puts them. */
  lemma DashedParts(y: string, m: string, d: string)
    requires |y| == 4 && |m| == 2 && |d| == 2
    ensures var s := y + "-" + m + "-" + d;
      && |s| == 10 && s[4] == '-' && s[7] == '-' && s[..4] == y && s[5..7] == m && s[8..] == d
  {
    var s := y + "-" + m + "-" + d;
    assert s[..4] == y;
    assert s[5..7] == m;
    assert s[8..] == d;
  }

  // ---------------------------------------------------------------------------
  // The student's occurrences in the window.

  /** PostgreSQL TRIM: leading and trailing spaces removed. */
  function PgTrim(s: string): (r: string)
    ensures |r| <= |s|
    ensures |r| > 0 ==> r[0] != ' ' && r[|r| - 1] != ' '
  {
    if |s| > 0 && s[0] == ' ' then PgTrim(s[1..])
    else if |s| > 0 && s[|s| - 1] == ' ' then PgTrim(s[..|s| - 1])
    else s
  }

  predicate IsAlnum(c: char)
  {
    IsDigit(c) || 'a' <= c <= 'z' || 'A' <= c <= 'Z'
  }

  /** INITCAP: the first letter of each word in upper case, the others in lower
      case; words are runs of letters and digits. */
  function InitCap(s: string): (r: string)
    ensures |r| == |s|
  {
    seq(|s|, i requires 0 <= i < |s| => if i == 0 || !IsAlnum(s[i - 1]) then UpperChar(s[i]) else LowerChar(s[i]))
  }

  /** INITCAP changes only the case: lower-casing its result gives the lower-cased input. */
  lemma LowerInitCap(s: string)
    ensures Lower(InitCap(s)) == Lower(s)
  {
    var t := InitCap(s);
    forall i | 0 <= i < |s| ensures Lower(t)[i] == Lower(s)[i] {
      assert t[i] == UpperChar(s[i]) || t[i] == LowerChar(s[i]);
      LowerOfCase(s[i]);
    }
  }

  /** Lower-casing forgets an earlier change of case. */
  lemma LowerOfCase(c: char)
    ensures LowerChar(UpperChar(c)) == LowerChar(c)
    ensures LowerChar(LowerChar(c)) == LowerChar(c)
  {
  }

  /** The student row joined with its group and promotion. */
  datatype StudentInfo = StudentInfo(groupId: Id, sectionId: Option<Id>, promotionId: Id)

  /** The student lookup: the student must have a group that exists and a
      promotion that exists. */
  function FindStudentInfo(db: Db, studentId: Id): (r: Option<StudentInfo>)
    ensures r.Some? <==> exists st :: (st in db.students && st.matricule == studentId && FindStudent(db, studentId) == Some(st)
      && st.groupId.Some? && FindGroup(db, st.groupId.value).Some? && st.promotionId in db.promotions)
    ensures r.Some? ==>
              exists st: Student, g: Group ::
                && FindStudent(db, studentId) == Some(st) && st.groupId == Some(g.id) && FindGroup(db, g.id) == Some(g)
                && r.value == StudentInfo(g.id, g.sectionId, st.promotionId)
  {
    var st := FindStudent(db, studentId);
    if st.None? || st.value.groupId.None? then None
    else
      var g := FindGroup(db, st.value.groupId.value);
      if g.None? || st.value.promotionId !in db.promotions then None
      else Some(StudentInfo(g.value.id, g.value.sectionId, st.value.promotionId))
  }

  /** An occurrence in the window with its session, dayTime, module and room;
      its session's professor must exist. */
  datatype WeekOccurrence = WeekOccurrence(o: Occurrence, s: Session, dt: DayTime, m: Module, room: Room)

  function WeekOccurrenceOf(db: Db, start: int, end: int, o: Occurrence): (r: Option<WeekOccurrence>)
    ensures r.Some? ==> (r.value.o == o && start <= o.date <= end && r.value.s.id == o.sessionId
      && r.value.s in db.sessions && r.value.s.profId in db.professors)
  {
    var s := FindSession(db, o.sessionId);
    if s.None? || !(start <= o.date <= end) then None
    else
      var dt := FindDayTime(db, s.value.timeId);
      var m := FindModule(db, s.value.moduleId);
      var room := FindRoom(db, s.value.roomId);
      if dt.None? || m.None? || room.None? || s.value.profId !in db.professors then None
      else Some(WeekOccurrence(o, s.value, dt.value, m.value, room.value))
  }

  datatype Scope = GroupScope | SectionScope | DebtScope | MakeupScope

  /** The number of the student's debt links to the session. */
  function CountDebtLinks(links: seq<DebtSessionLink>, studentId: Id, sessionId: Id): (n: nat)
    ensures n <= |links|
    ensures n > 0 <==> exists l :: l in links && l.studentId == studentId && l.sessionId == sessionId
  {
    if links == [] then 0
    else
      assert forall l :: l in links <==> l == links[0] || l in links[1..];
      (if links[0].studentId == studentId && links[0].sessionId == sessionId then 1 else 0)
        + CountDebtLinks(links[1..], studentId, sessionId)
  }

  /** The number of the student's makeup links to the occurrence. */
  function CountMakeupLinks(links: seq<MakeupLink>, studentId: Id, occurrenceId: Id): (n: nat)
    ensures n <= |links|
    ensures n > 0 <==> exists l :: l in links && l.studentId == studentId && l.occurrenceId == occurrenceId
  {
    if links == [] then 0
    else
      assert forall l :: l in links <==> l == links[0] || l in links[1..];
      (if links[0].studentId == studentId && links[0].occurrenceId == occurrenceId then 1 else 0)
        + CountMakeupLinks(links[1..], studentId, occurrenceId)
  }

  function DebtLinks(db: Db, studentId: Id, sessionId: Id): nat
  {
    CountDebtLinks(db.debtSessions, studentId, sessionId)
  }

  function MakeupLinks(db: Db, studentId: Id, occurrenceId: Id): nat
  {
    CountMakeupLinks(db.makeupLinks, studentId, occurrenceId)
  }

  /** The four scopes of the union. */
  predicate InScope(db: Db, info: StudentInfo, studentId: Id, w: WeekOccurrence, scope: Scope)
  {
    match scope
    case GroupScope => w.s.groupId == Some(info.groupId) && (w.s.kind == Pw || w.s.kind == Dw)
    case SectionScope => info.sectionId.Some? && w.s.sectionId == info.sectionId && w.s.kind != Pw && w.s.kind != Dw
    case DebtScope => DebtLinks(db, studentId, w.s.id) > 0
    case MakeupScope => MakeupLinks(db, studentId, w.o.id) > 0
  }

  /** One row of the schedule query. */
  datatype ScheduleRow = ScheduleRow(
    occurrenceId: Id, date: int, day: string, startTime: seq<Seconds>, endTime: seq<Seconds>,
    sessionId: Id, kind: string, moduleId: Id, moduleName: string, roomId: Id, profId: Id,
    isCompensation: bool, comDayTimeId: Option<Id>, profAbsence: bool,
    isDebt: bool, isMakeup: bool, scope: Scope)

  function RowOf(db: Db, studentId: Id, w: WeekOccurrence, scope: Scope): ScheduleRow
  {
    ScheduleRow(w.o.id, w.o.date, InitCap(PgTrim(w.dt.day)), w.dt.startTime, w.dt.endTime,
                w.s.id, w.s.kind, w.s.moduleId, w.m.name, w.room.id, w.s.profId,
                w.o.isCompensation, w.o.comDayTimeId, w.o.profAbsence,
                DebtLinks(db, studentId, w.s.id) > 0, MakeupLinks(db, studentId, w.o.id) > 0, scope)
  }

  /** max(1, n): a LEFT JOIN keeps a row with no partner once. */
  function AtLeastOne(n: nat): (k: nat)
    ensures k >= 1 && (n > 0 ==> k == n)
  {
    if n == 0 then 1 else n
  }

  /** The rows one occurrence contributes in one scope: the debt and makeup
      scopes give one row per link, and the two LEFT JOINs multiply each row
      by the number of matching links (at least once). */
  function ScopeRows(db: Db, info: StudentInfo, studentId: Id, w: WeekOccurrence, scope: Scope): (r: seq<ScheduleRow>)
    ensures |r| > 0 <==> InScope(db, info, studentId, w, scope)
    ensures forall x :: x in r ==> x == RowOf(db, studentId, w, scope)
  {
    var d, m := DebtLinks(db, studentId, w.s.id), MakeupLinks(db, studentId, w.o.id);
    var copies := match scope
      case GroupScope => if InScope(db, info, studentId, w, scope) then 1 else 0
      case SectionScope => if InScope(db, info, studentId, w, scope) then 1 else 0
      case DebtScope => d
      case MakeupScope => m;
    var k := AtLeastOne(d) * AtLeastOne(m);
    PositiveProduct(AtLeastOne(d), AtLeastOne(m));
    PositiveProduct(copies, k);
    Repeat(RowOf(db, studentId, w, scope), copies * k)
  }

  lemma PositiveProduct(a: nat, b: nat)
    ensures a * b > 0 <==> a > 0 && b > 0
  {
    if a > 0 && b > 0 {
      assert a * b >= b;
    }
  }

  function OccurrenceRows(db: Db, info: StudentInfo, studentId: Id, start: int, end: int, o: Occurrence): seq<ScheduleRow>
  {
    var w := WeekOccurrenceOf(db, start, end, o);
    if w.None? then [] else
    ScopeRows(db, info, studentId, w.value, GroupScope) + ScopeRows(db, info, studentId, w.value, SectionScope)
    + ScopeRows(db, info, studentId, w.value, DebtScope) + ScopeRows(db, info, studentId, w.value, MakeupScope)
  }

  /** ORDER BY date, startTime. */
  predicate ByDateThenStart(x: ScheduleRow, y: ScheduleRow)
  {
    x.date < y.date || (x.date == y.date && ArrayLe(x.startTime, y.startTime))
  }

  lemma ByDateThenStartTotalPreorder()
    ensures TotalPreorder(ByDateThenStart)
  {
    forall a, b ensures ByDateThenStart(a, b) || ByDateThenStart(b, a) {
      ArrayLeTotal(a.startTime, b.startTime);
    }
    forall a, b, c | ByDateThenStart(a, b) && ByDateThenStart(b, c) ensures ByDateThenStart(a, c) {
      if a.date == b.date && b.date == c.date {
        ArrayLeTransitive(a.startTime, b.startTime, c.startTime);
      }
    }
  }

  /** The schedule query for a window [start, end]. */
  function ScheduleRows(db: Db, info: StudentInfo, studentId: Id, start: int, end: int): (rows: seq<ScheduleRow>)
  {
    SortBy(FlatMap(db.occurrences, o => OccurrenceRows(db, info, studentId, start, end, o)), ByDateThenStart)
  }

  /** The rows of one occurrence: one per scope it is in, each with that scope. */
  lemma OccurrenceRowsMember(db: Db, info: StudentInfo, studentId: Id, start: int, end: int, o: Occurrence, r: ScheduleRow)
    ensures r in OccurrenceRows(db, info, studentId, start, end, o) <==>
      WeekOccurrenceOf(db, start, end, o).Some?
        && InScope(db, info, studentId, WeekOccurrenceOf(db, start, end, o).value, r.scope)
        && r == RowOf(db, studentId, WeekOccurrenceOf(db, start, end, o).value, r.scope)
  {
    var w := WeekOccurrenceOf(db, start, end, o);
    if w.Some? {
      var v := w.value;
      var g, c := ScopeRows(db, info, studentId, v, GroupScope), ScopeRows(db, info, studentId, v, SectionScope);
      var d, m := ScopeRows(db, info, studentId, v, DebtScope), ScopeRows(db, info, studentId, v, MakeupScope);
      assert OccurrenceRows(db, info, studentId, start, end, o) == g + c + d + m;
      assert r in g + c + d + m <==> r in g || r in c || r in d || r in m;
      ScopeRowsMember(db, info, studentId, v, GroupScope, r);
      ScopeRowsMember(db, info, studentId, v, SectionScope, r);
      ScopeRowsMember(db, info, studentId, v, DebtScope, r);
      ScopeRowsMember(db, info, studentId, v, MakeupScope, r);
      assert r in g || r in c || r in d || r in m <==> r in ScopeRows(db, info, studentId, v, r.scope);
    }
  }

  /** The rows of one scope: that scope's row, when the occurrence is in it. */
  lemma ScopeRowsMember(db: Db, info: StudentInfo, studentId: Id, w: WeekOccurrence, scope: Scope, r: ScheduleRow)
    ensures r in ScopeRows(db, info, studentId, w, scope) <==>
      InScope(db, info, studentId, w, scope) && r == RowOf(db, studentId, w, scope)
  {
    var rs := ScopeRows(db, info, studentId, w, scope);
    if InScope(db, info, studentId, w, scope) && r == RowOf(db, studentId, w, scope) {
      assert rs[0] == r;
    }
  }

  /** A row is in the schedule exactly when an occurrence in the window is in
      that row's scope and the row describes it. */
  lemma ScheduleRowsMember(db: Db, info: StudentInfo, studentId: Id, start: int, end: int, r: ScheduleRow)
    ensures r in ScheduleRows(db, info, studentId, start, end) <==>
      exists o :: o in db.occurrences && WeekOccurrenceOf(db, start, end, o).Some?
        && InScope(db, info, studentId, WeekOccurrenceOf(db, start, end, o).value, r.scope)
        && r == RowOf(db, studentId, WeekOccurrenceOf(db, start, end, o).value, r.scope)
  {
    var f := o => OccurrenceRows(db, info, studentId, start, end, o);
    var all := FlatMap(db.occurrences, f);
    FlatMapMember(db.occurrences, f, r);
    var rows := ScheduleRows(db, info, studentId, start, end);
    assert r in rows <==> r in multiset(rows);
    assert r in all <==> r in multiset(all);
    forall o ensures r in f(o) <==> (WeekOccurrenceOf(db, start, end, o).Some?
        && InScope(db, info, studentId, WeekOccurrenceOf(db, start, end, o).value, r.scope)
        && r == RowOf(db, studentId, WeekOccurrenceOf(db, start, end, o).value, r.scope))
    {
      OccurrenceRowsMember(db, info, studentId, start, end, o, r);
    }
  }

  /** Every row lies in the window, and its debt and makeup flags say whether
      the student has a link to its session or occurrence. */
  lemma ScheduleRowFlags(db: Db, info: StudentInfo, studentId: Id, start: int, end: int, r: ScheduleRow)
    requires r in ScheduleRows(db, info, studentId, start, end)
    ensures start <= r.date <= end
    ensures r.isDebt <==> exists l :: l in db.debtSessions && l.studentId == studentId && l.sessionId == r.sessionId
    ensures r.isMakeup <==> exists l :: l in db.makeupLinks && l.studentId == studentId && l.occurrenceId == r.occurrenceId
  {
    ScheduleRowsMember(db, info, studentId, start, end, r);
    var o :| o in db.occurrences && WeekOccurrenceOf(db, start, end, o).Some?
        && r == RowOf(db, studentId, WeekOccurrenceOf(db, start, end, o).value, r.scope);
  }

  lemma ScheduleRowsSorted(db: Db, info: StudentInfo, studentId: Id, start: int, end: int)
    ensures SortedBy(ScheduleRows(db, info, studentId, start, end), ByDateThenStart)
  {
    ByDateThenStartTotalPreorder();
    SortBySorted(FlatMap(db.occurrences, o => OccurrenceRows(db, info, studentId, start, end, o)), ByDateThenStart);
  }

  // ---------------------------------------------------------------------------
  // Entries, colours and the grouping by weekday.

  const Cancelled: string := "#fed3bf"
  const CompensationColour: string := "#edd9fc "
  const MakeupColour: string := "#faddae "
  const DebtColour: string := "#def2fa"
  const Plain: string := "#ffffff"

  /** getSessionColor: the first flag set among cancelled, compensation, makeup
      and debt picks the colour, else white. The compensation and makeup
      colours carry a trailing space. */
  function Colour(r: ScheduleRow): (c: string)
    ensures c == Cancelled <==> r.profAbsence
    ensures c == CompensationColour <==> !r.profAbsence && r.isCompensation
    ensures c == MakeupColour <==> !r.profAbsence && !r.isCompensation && r.isMakeup
    ensures c == DebtColour <==> !r.profAbsence && !r.isCompensation && !r.isMakeup && r.isDebt
    ensures c == Plain <==> !r.profAbsence && !r.isCompensation && !r.isMakeup && !r.isDebt
  {
    assert Cancelled[1] != CompensationColour[1] && Cancelled[2] != MakeupColour[2] && Cancelled[1] != DebtColour[1];
    assert Cancelled[2] != Plain[2] && CompensationColour[1] != MakeupColour[1];
    assert CompensationColour[1] != DebtColour[1] && CompensationColour[1] != Plain[1];
    assert MakeupColour[1] != DebtColour[1] && MakeupColour[2] != Plain[2] && DebtColour[1] != Plain[1];
    if r.profAbsence then Cancelled
    else if r.isCompensation then CompensationColour
    else if r.isMakeup then MakeupColour
    else if r.isDebt then DebtColour
    else Plain
  }

  /** One timetable entry as sent to the client. */
  datatype Entry = Entry(
    id: Id, date: string, day: string, startTime: string, endTime: string,
    moduleId: Id, moduleName: string, sessionId: Id, kind: string, roomId: Id, profId: Id,
    isCanceled: bool, isCompensation: bool, isDebt: bool, isMakeup: bool, scope: Scope, colour: string)

  /** The entry of a row; None when formatTime fails on an empty time array. */
  function EntryOf(r: ScheduleRow): (e: Option<Entry>)
    ensures e.None? <==> |r.startTime| == 0 || |r.endTime| == 0
    ensures e.Some? ==> (e.value.id == r.occurrenceId && e.value.day == r.day && e.value.colour == Colour(r)
      && e.value.startTime == TimeText(r.startTime[0])[..5] && e.value.endTime == TimeText(r.endTime[0])[..5]
      && e.value.date == FormatDay(r.date))
  {
    var st, et := FormatPgArrayTime(r.startTime), FormatPgArrayTime(r.endTime);
    if st.None? || et.None? then None
    else Some(Entry(r.occurrenceId, FormatDay(r.date), r.day, st.value, et.value, r.moduleId, r.moduleName,
                    r.sessionId, r.kind, r.roomId, r.profId, r.profAbsence, r.isCompensation, r.isDebt,
                    r.isMakeup, r.scope, Colour(r)))
  }

  /** rows.map(...): every entry, or None when one of them throws. */
  function Entries(rows: seq<ScheduleRow>): (es: Option<seq<Entry>>)
    ensures es.None? <==> exists i :: 0 <= i < |rows| && (|rows[i].startTime| == 0 || |rows[i].endTime| == 0)
    ensures es.Some? ==> |es.value| == |rows| && forall i :: 0 <= i < |rows| ==> EntryOf(rows[i]) == Some(es.value[i])
  {
    MapAll(rows, EntryOf)
  }

  const Days: seq<string> := ["Saturday", "Sunday", "Monday", "Tuesday", "Wednesday", "Thursday"]

  /** The day-name table, keyed by lower-case names. */
  function DayMap(lower: string): (r: Option<string>)
    ensures r.Some? ==> r.value in Days
  {
    if lower == "sat" || lower == "saturday" then Some("Saturday")
    else if lower == "sun" || lower == "sunday" then Some("Sunday")
    else if lower == "mon" || lower == "monday" then Some("Monday")
    else if lower == "tue" || lower == "tuesday" then Some("Tuesday")
    else if lower == "wed" || lower == "wednesday" then Some("Wednesday")
    else if lower == "thu" || lower == "thursday" then Some("Thursday")
    else None
  }

  /** `dayMap[day.toLowerCase()] || day`. */
  function Standardize(day: string): string
  {
    var m := DayMap(Lower(day));
    if m.Some? then m.value else day
  }

  /** A day is kept exactly when the table knows its lower-cased name: the six
      names themselves are in the table. */
  lemma StandardizeKept(day: string)
    ensures Standardize(day) in Days <==> DayMap(Lower(day)).Some?
  {
    if day in Days {
      var i :| 0 <= i < |Days| && Days[i] == day;
      DayNamesAccepted(i);
    }
  }

  lemma SaturdayAccepted()
    ensures DayMap(Lower("Saturday")) == Some("Saturday")
    ensures Standardize("Saturday") == "Saturday" && Standardize("Sat") == "Saturday"
  {
    assert Lower("Saturday") == "saturday";
    assert Lower("Sat") == "sat";
  }

  lemma SundayAccepted()
    ensures DayMap(Lower("Sunday")) == Some("Sunday")
    ensures Standardize("Sunday") == "Sunday" && Standardize("Sun") == "Sunday"
  {
    assert Lower("Sunday") == "sunday";
    assert Lower("Sun") == "sun";
  }

  lemma MondayAccepted()
    ensures DayMap(Lower("Monday")) == Some("Monday")
    ensures Standardize("Monday") == "Monday" && Standardize("Mon") == "Monday"
  {
    assert Lower("Monday") == "monday";
    assert Lower("Mon") == "mon";
  }

  lemma TuesdayAccepted()
    ensures DayMap(Lower("Tuesday")) == Some("Tuesday")
    ensures Standardize("Tuesday") == "Tuesday" && Standardize("Tue") == "Tuesday"
  {
    assert Lower("Tuesday") == "tuesday";
    assert Lower("Tue") == "tue";
  }

  lemma WednesdayAccepted()
    ensures DayMap(Lower("Wednesday")) == Some("Wednesday")
    ensures Standardize("Wednesday") == "Wednesday" && Standardize("Wed") == "Wednesday"
  {
    assert Lower("Wednesday") == "wednesday";
    assert Lower("Wed") == "wed";
  }

  lemma ThursdayAccepted()
    ensures DayMap(Lower("Thursday")) == Some("Thursday")
    ensures Standardize("Thursday") == "Thursday" && Standardize("Thu") == "Thursday"
  {
    assert Lower("Thursday") == "thursday";
    assert Lower("Thu") == "thu";
  }

  /** Each of the six names, and its first three letters, is accepted. */
  lemma DayNamesAccepted(i: nat)
    requires i < |Days|
    ensures DayMap(Lower(Days[i])) == Some(Days[i])
    ensures Standardize(Days[i]) == Days[i] && Standardize(Days[i][..3]) == Days[i]
  {
    if i == 0 {
      assert Days[i][..3] == "Sat";
      SaturdayAccepted();
    } else if i == 1 {
      assert Days[i][..3] == "Sun";
      SundayAccepted();
    } else if i == 2 {
      assert Days[i][..3] == "Mon";
      MondayAccepted();
    } else if i == 3 {
      assert Days[i][..3] == "Tue";
      TuesdayAccepted();
    } else if i == 4 {
      assert Days[i][..3] == "Wed";
      WednesdayAccepted();
    } else {
      assert Days[i][..3] == "Thu";
      ThursdayAccepted();
    }
  }

  /** Any spelling with the same lower-case form goes to the same bucket. */
  lemma CaseInsensitive(a: string, b: string)
    requires Lower(a) == Lower(b)
    ensures Standardize(a) in Days <==> Standardize(b) in Days
    ensures Standardize(a) in Days ==> Standardize(a) == Standardize(b)
  {
    StandardizeKept(a);
    StandardizeKept(b);
  }

  /** Friday has no bucket. */
  lemma FridayDropped(spelled: string)
    requires Lower(spelled) == "friday" || Lower(spelled) == "fri"
    ensures Standardize(spelled) !in Days
  {
  }

  /** The entries of bucket `k`, in input order. */
  function Bucket(es: seq<Entry>, k: string): (b: seq<Entry>)
    ensures |b| <= |es|
    ensures forall e :: e in b <==> e in es && Standardize(e.day) == k
  {
    if es == [] then []
    else
      var last := es[|es| - 1];
      assert es == es[..|es| - 1] + [last];
      Bucket(es[..|es| - 1], k) + (if Standardize(last.day) == k then [last] else [])
  }

  /** The entries no bucket takes. */
  function Dropped(es: seq<Entry>): (d: seq<Entry>)
    ensures forall e :: e in d <==> e in es && Standardize(e.day) !in Days
  {
    if es == [] then []
    else
      var last := es[|es| - 1];
      assert es == es[..|es| - 1] + [last];
      Dropped(es[..|es| - 1]) + (if Standardize(last.day) !in Days then [last] else [])
  }

  /** The six buckets and the dropped entries share out the input: each entry
      lands in exactly one place. */
  lemma {:induction false} BucketsPartition(es: seq<Entry>)
    ensures |Bucket(es, "Saturday")| + |Bucket(es, "Sunday")| + |Bucket(es, "Monday")| + |Bucket(es, "Tuesday")|
      + |Bucket(es, "Wednesday")| + |Bucket(es, "Thursday")| + |Dropped(es)| == |es|
  {
    if es != [] {
      var prefix := es[..|es| - 1];
      BucketsPartition(prefix);
      BucketLast(es, "Saturday");
      BucketLast(es, "Sunday");
      BucketLast(es, "Monday");
      BucketLast(es, "Tuesday");
      BucketLast(es, "Wednesday");
      BucketLast(es, "Thursday");
      OneDayOrDropped(Standardize(es[|es| - 1].day));
    }
  }

  /** A day name is one of the six keys, or none of them. */
  lemma OneDayOrDropped(day: string)
    ensures (if day == "Saturday" then 1 else 0) + (if day == "Sunday" then 1 else 0)
      + (if day == "Monday" then 1 else 0) + (if day == "Tuesday" then 1 else 0)
      + (if day == "Wednesday" then 1 else 0) + (if day == "Thursday" then 1 else 0)
      + (if day !in Days then 1 else 0) == 1
  {
    if day in Days {
      assert day[0] == 'S' || day[0] == 'M' || day[0] == 'T' || day[0] == 'W';
      assert |day| == 6 ==> day[1] != 'a' && day[1] != 'h' && day[1] != 'e';
    }
  }

  /** The last entry adds one to its own bucket, or to the dropped entries. */
  lemma BucketLast(es: seq<Entry>, k: string)
    requires es != []
    ensures var day := Standardize(es[|es| - 1].day);
      && |Bucket(es, k)| == |Bucket(es[..|es| - 1], k)| + (if day == k then 1 else 0)
      && |Dropped(es)| == |Dropped(es[..|es| - 1])| + (if day !in Days then 1 else 0)
  {
  }

  /** groupByDay: the six weekday keys, each holding its entries in input
      order; unknown day names are dropped. */
  method GroupByDay(es: seq<Entry>) returns (grouped: map<string, seq<Entry>>)
    ensures grouped.Keys == set k | k in Days
    ensures forall k :: k in Days ==> grouped[k] == Bucket(es, k)
  {
    grouped := map[];
    var j := 0;
    while j < |Days|
      invariant 0 <= j <= |Days|
      invariant grouped.Keys == set k | k in Days[..j]
      invariant forall k :: k in grouped ==> grouped[k] == []
    {
      grouped := grouped[Days[j] := []];
      j := j + 1;
    }
    assert Days[..j] == Days;
    var i := 0;
    while i < |es|
      invariant 0 <= i <= |es|
      invariant grouped.Keys == set k | k in Days
      invariant forall k :: k in Days ==> grouped[k] == Bucket(es[..i], k)
    {
      var day := Standardize(es[i].day);
      BucketStep(es, i);
      if day in Days {
        grouped := grouped[day := grouped[day] + [es[i]]];
      }
      i := i + 1;
    }
    assert es[..i] == es;
  }

  /** One more entry goes to the end of its own bucket and leaves the others alone. */
  lemma BucketStep(es: seq<Entry>, i: nat)
    requires i < |es|
    ensures forall k ::
              Bucket(es[..i + 1], k) == Bucket(es[..i], k) + (if Standardize(es[i].day) == k then [es[i]] else [])
  {
    assert es[..i + 1][..i] == es[..i];
  }

  // ---------------------------------------------------------------------------
  // The weekly schedule route.

  datatype WeekSchedule =
    | StudentNotFound
    | ServerError
    | Week(schedule: map<string, seq<Entry>>, start: string, end: string, weekOffset: int, sessionsFound: nat)

  /** GET /schedule/:studentId for the day `today`: 404 for a student without
      group or promotion, 500 when a time array is empty, else the window's
      rows as entries grouped by weekday. */
  method WeeklySchedule(db: Db, studentId: Id, today: int, weekOffsetParam: Option<string>) returns (r: WeekSchedule)
    ensures FindStudentInfo(db, studentId).None? <==> r == StudentNotFound
    ensures r.Week? || r.ServerError? ==> FindStudentInfo(db, studentId).Some?
    ensures FindStudentInfo(db, studentId).Some? ==>
      var offset := WeekOffset(weekOffsetParam);
      var day := Shifted(today, offset);
      var rows := ScheduleRows(db, FindStudentInfo(db, studentId).value, studentId, WeekStart(day), WeekEnd(day));
      && (r.ServerError? <==> Entries(rows).None?)
      && (r.Week? ==>
        && r.start == FormatDay(WeekStart(day)) && r.end == FormatDay(WeekEnd(day))
        && r.weekOffset == offset && r.sessionsFound == |rows|
        && r.schedule.Keys == (set k | k in Days)
        && forall k :: k in Days ==> r.schedule[k] == Bucket(Entries(rows).value, k))
  {
    var offset := WeekOffset(weekOffsetParam);
    var day := Shifted(today, offset);
    var start, end := WeekStart(day), WeekEnd(day);
    var info := FindStudentInfo(db, studentId);
    if info.None? {
      return StudentNotFound;
    }
    var rows := ScheduleRows(db, info.value, studentId, start, end);
    var es := Entries(rows);
    if es.None? {
      return WeekSchedule.ServerError;
    }
    var grouped := GroupByDay(es.value);
    r := Week(grouped, FormatDay(start), FormatDay(end), offset, |rows|);
  }

  // ---------------------------------------------------------------------------
  // Absence rate over a semester.

  /** An occurrence of a session whose module belongs to the semester. */
  predicate InSemester(db: Db, semesterId: Id, o: Occurrence)
  {
    var s := FindSession(db, o.sessionId);
    semesterId in db.semesters && s.Some? && FindModule(db, s.value.moduleId).Some?
      && FindModule(db, s.value.moduleId).value.semesterId == semesterId
  }

  /** The student's attendance rows of the semester's occurrences. */
  function SemesterAttendance(db: Db, studentId: Id, semesterId: Id): seq<Attendance>
  {
    FlatMap(db.occurrences, (o: Occurrence) =>
      if InSemester(db, semesterId, o)
      then Filter(db.attendance, (a: Attendance) => a.occurrenceId == o.id && a.studentId == studentId)
      else [])
  }

  datatype SemesterAbsence = SemesterAbsence(total: nat, absent: nat, hundredths: nat)

  /** The semester absence route: COUNT of the rows, COUNT of the absent ones,
      and the rate in hundredths of a percent, 0 when there is no row. The
      query always yields one row, so its 404 branch cannot be taken. */
  function SemesterAbsenceRate(db: Db, studentId: Id, semesterId: Id): (r: SemesterAbsence)
    ensures r.total == |SemesterAttendance(db, studentId, semesterId)|
    ensures r.absent == |Filter(SemesterAttendance(db, studentId, semesterId), IsAbsent)|
    ensures r.absent <= r.total
    ensures r.hundredths <= 10000
    ensures r.total == 0 ==> r.hundredths == 0
    ensures r.total > 0 ==> 2 * r.hundredths * r.total <= 20000 * r.absent + r.total < 2 * r.hundredths * r.total + 2 * r.total
  {
    var rows := SemesterAttendance(db, studentId, semesterId);
    var absent := |Filter(rows, IsAbsent)|;
    AbsenceAtMost100(absent, |rows|);
    SemesterAbsence(|rows|, absent, AbsenceHundredths(absent, |rows|))
  }

  /** Every counted row is the student's, on an occurrence of the semester. */
  lemma SemesterAttendanceMember(db: Db, studentId: Id, semesterId: Id, a: Attendance)
    ensures a in SemesterAttendance(db, studentId, semesterId) <==>
      a in db.attendance && a.studentId == studentId &&
      exists o :: o in db.occurrences && o.id == a.occurrenceId && InSemester(db, semesterId, o)
  {
    var f := (o: Occurrence) =>
      if InSemester(db, semesterId, o)
      then Filter(db.attendance, (a: Attendance) => a.occurrenceId == o.id && a.studentId == studentId)
      else [];
    FlatMapMember(db.occurrences, f, a);
    forall o | o in db.occurrences ensures a in f(o) <==> (InSemester(db, semesterId, o) && a in db.attendance
      && a.occurrenceId == o.id && a.studentId == studentId)
    {
      if InSemester(db, semesterId, o) {
        var b := Filter(db.attendance, (a: Attendance) => a.occurrenceId == o.id && a.studentId == studentId);
        if a in b {
          var i :| 0 <= i < |b| && b[i] == a;
        }
      }
    }
  }
}
