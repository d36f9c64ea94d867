/** The older makeup route (MakeupSession.js). It reads a schema of its own:
    attendance rows point at a session, slots come from a "dateTime" table
    whose times reach JavaScript as raw values, and makeup links name a
    session. Times are turned into Date stamps and compared in JavaScript. */
module MakeupLegacy {
  import opened Common
  import opened Tables
  import opened Sorting

  datatype LegacyAttendance = LegacyAttendance(id: Id, studentId: Id, sessionId: Id, present: bool, isMarkup: bool)
  datatype LegacySession = LegacySession(id: Id, moduleId: Id, kind: string, timeId: Id, roomId: Id, groupId: Option<Id>)
  /** A time column as JavaScript receives it: a string, an array whose element
      0 is a string or missing, or anything else (NULL, a number). */
  datatype TimeValue = Str(s: string) | Arr(first: Option<string>) | Other
  /** A "dateTime" row; `dayDate` is `new Date(day)` as a day number, None when
      JavaScript parses `day` to an Invalid Date. */
  datatype Slot = Slot(id: Id, day: string, dayDate: Option<int>, startTime: TimeValue, endTime: TimeValue)
  datatype LegacyMakeup = LegacyMakeup(studentId: Id, sessionId: Id)

  datatype LegacyDb = LegacyDb(
    attendance: seq<LegacyAttendance>,
    sessions: seq<LegacySession>,
    slots: seq<Slot>,
    rooms: seq<Room>,
    students: seq<Student>,
    groups: seq<Group>,
    makeups: seq<LegacyMakeup>,
    debtSessions: seq<DebtSessionLink>)

  // ---------------------------------------------------------------------------
  // JavaScript numbers and Dates, as far as createDateTime uses them.

  /** A JavaScript number: NaN or a finite integer value. */
  datatype Num = NaN | Fin(v: int)

  /** Number(s) for a string: whitespace-only is 0, a plain decimal integer is
      its value, anything else is NaN. */
  function ToNumber(s: string): (n: Num)
    ensures n.Fin? ==> n.v >= 0
  {
    var t := TrimEnd(TrimStart(s));
    if t == [] then Fin(0)
    else if IsDigits(t) then Fin(ParseDecimal(t))
    else NaN
  }

  lemma ToNumberOfDecimal(n: nat)
    ensures ToNumber(Decimal(n)) == Fin(n)
  {
    ParseDecimalOfDecimal(n);
  }

  /** `x || 0` on a number that may be undefined: NaN, 0 and undefined give 0. */
  function OrZero(n: Option<Num>): int
  {
    if n.Some? && n.value.Fin? then n.value.v else 0
  }

  /** The index of the first `c` in `s`, or |s| when there is none. */
  function IndexOf(s: string, c: char): (i: nat)
    ensures i <= |s|
    ensures forall k :: 0 <= k < i ==> s[k] != c
    ensures i < |s| ==> s[i] == c
  {
    if s == [] then 0 else if s[0] == c then 0 else 1 + IndexOf(s[1..], c)
  }

  /** s.split(c) for a one-character separator. */
  function Split(s: string, c: char): (parts: seq<string>)
    ensures |parts| >= 1
    ensures forall k :: 0 <= k < |parts| ==> c !in parts[k]
    decreases |s|
  {
    var i := IndexOf(s, c);
    if i == |s| then [s] else [s[..i]] + Split(s[i + 1..], c)
  }

  function Join(parts: seq<string>, c: char): string
    requires |parts| >= 1
  {
    if |parts| == 1 then parts[0] else parts[0] + [c] + Join(parts[1..], c)
  }

  /** Splitting and joining back gives the string. */
  lemma {:induction false} JoinSplit(s: string, c: char)
    ensures Join(Split(s, c), c) == s
    decreases |s|
  {
    var i := IndexOf(s, c);
    if i < |s| {
      var rest := Split(s[i + 1..], c);
      assert Split(s, c) == [s[..i]] + rest;
      assert ([s[..i]] + rest)[1..] == rest;
      assert Join(Split(s, c), c) == s[..i] + [c] + Join(rest, c);
      JoinSplit(s[i + 1..], c);
      assert s == s[..i] + [c] + s[i + 1..];
    } else {
      assert Split(s, c) == [s];
    }
  }

  /** The outcome of createDateTime: it throws, or gives a Date whose value is
      NaN (Invalid Date) or a time stamp in seconds. */
  datatype Stamp = Thrown | At(n: Num)

  /** createDateTime(date, time). */
  function CreateDateTime(dayDate: Option<int>, time: TimeValue): (r: Stamp)
    ensures r.Thrown? <==> !(time.Str? || (time.Arr? && time.first.Some?))
  {
    var text := if time.Str? then Some(time.s) else if time.Arr? then time.first else None;
    if text.None? then Thrown
    else ReadClock(dayDate, Split(text.value, ':'))
  }

  /** The Date made from the colon-separated parts of a time text. */
  function ReadClock(dayDate: Option<int>, parts: seq<string>): (r: Stamp)
    requires |parts| >= 1
    ensures r.At?
  {
    var hours := ToNumber(parts[0]);
    var minutes := if |parts| > 1 then Some(ToNumber(parts[1])) else None;
    var seconds := if |parts| > 2 then Some(ToNumber(parts[2])) else None;
    if dayDate.None? || hours.NaN? then At(NaN)
    else At(Fin(dayDate.value * 86400 + hours.v * 3600 + OrZero(minutes) * 60 + OrZero(seconds)))
  }

  /** Two digits contain no colon and no space. */
  lemma TwoDigits(d: string)
    requires |d| == 2 && IsDigits(d)
    ensures ':' !in d
    ensures TrimEnd(TrimStart(d)) == d
  {
    assert !IsSpace(d[0]) && !IsSpace(d[1]);
    assert d[1..] == [d[1]];
  }

  lemma {:induction false} IndexOfFirst(a: string, c: char, b: string)
    requires c !in a
    ensures IndexOf(a + [c] + b, c) == |a|
  {
    if a != [] {
      assert (a + [c] + b)[1..] == a[1..] + [c] + b;
      IndexOfFirst(a[1..], c, b);
    }
  }

  lemma {:induction false} IndexOfNone(a: string, c: char)
    requires c !in a
    ensures IndexOf(a, c) == |a|
  {
    if a != [] {
      IndexOfNone(a[1..], c);
    }
  }

  /** Splitting at the first separator. */
  lemma SplitFirst(a: string, c: char, b: string)
    requires c !in a
    ensures Split(a + [c] + b, c) == [a] + Split(b, c)
  {
    var s := a + [c] + b;
    IndexOfFirst(a, c, b);
    assert s[..|a|] == a;
    assert s[|a| + 1..] == b;
  }

  lemma SplitClock(h: string, m: string, s: string)
    requires |h| == 2 && IsDigits(h) && |m| == 2 && IsDigits(m) && |s| == 2 && IsDigits(s)
    ensures Split(h + ":" + m + ":" + s, ':') == [h, m, s]
  {
    TwoDigits(h);
    TwoDigits(m);
    TwoDigits(s);
    IndexOfNone(s, ':');
    SplitFirst(m, ':', s);
    assert h + ":" + m + ":" + s == h + [':'] + (m + [':'] + s);
    SplitFirst(h, ':', m + [':'] + s);
  }

  lemma ToNumberPad2(n: nat)
    requires n < 100
    ensures ToNumber(Pad2(n)) == Fin(n)
  {
    TwoDigits(Pad2(n));
  }

  /** Three two-digit parts give the instant they name. */
  lemma ClockStamp(day: int, hh: nat, mm: nat, ss: nat)
    requires hh < 100 && mm < 100 && ss < 100
    ensures ReadClock(Some(day), [Pad2(hh), Pad2(mm), Pad2(ss)]) == At(Fin(day * 86400 + hh * 3600 + mm * 60 + ss))
  {
    ToNumberPad2(hh);
    ToNumberPad2(mm);
    ToNumberPad2(ss);
  }

  /** A well-formed "HH:MM:SS" text on a valid date gives that instant. */
  lemma CreateDateTimeOfTimeText(day: int, t: Seconds)
    ensures CreateDateTime(Some(day), Str(TimeText(t))) == At(Fin(day * 86400 + t))
    ensures CreateDateTime(Some(day), Arr(Some(TimeText(t)))) == At(Fin(day * 86400 + t))
  {
    var hh, mm, ss := t / 3600, t % 3600 / 60, t % 60;
    assert TimeText(t) == Pad2(hh) + ":" + Pad2(mm) + ":" + Pad2(ss);
    SplitClock(Pad2(hh), Pad2(mm), Pad2(ss));
    ClockStamp(day, hh, mm, ss);
    ClockParts(t);
  }

  lemma ClockParts(t: nat)
    ensures t / 3600 * 3600 + t % 3600 / 60 * 60 + t % 60 == t
  {
    var q, r := t / 3600, t % 3600;
    var m, sec := r / 60, r % 60;
    assert t == q * 3600 + r;
    assert r == m * 60 + sec;
    ModSixty(q * 60 + m, sec);
    assert t == (q * 60 + m) * 60 + sec;
  }

  lemma ModSixty(k: int, sec: int)
    requires 0 <= sec < 60
    ensures (k * 60 + sec) % 60 == sec
  {
  }

  /** Missing minutes and seconds count as 0. */
  lemma CreateDateTimeHoursOnly(day: int, h: nat)
    ensures CreateDateTime(Some(day), Str(Decimal(h))) == At(Fin(day * 86400 + h * 3600))
  {
    var text := Decimal(h);
    assert ':' !in text by {
      forall k | 0 <= k < |text| ensures text[k] != ':' { assert IsDigit(text[k]); }
    }
    IndexOfNone(text, ':');
    ToNumberOfDecimal(h);
  }

  /** JavaScript `<` on Date values: false whenever either side is NaN. */
  predicate Before(a: Num, b: Num)
  {
    a.Fin? && b.Fin? && a.v < b.v
  }

  // ---------------------------------------------------------------------------
  // The schedule filter.

  /** A slot of the student's own timetable. */
  datatype StudentSlot = StudentSlot(sessionId: Id, day: string, dayDate: Option<int>, startTime: TimeValue, endTime: TimeValue)

  /** A potential makeup session with its slot and room. */
  datatype Potential = Potential(sessionId: Id, kind: string, groupId: Option<Id>, day: string,
                                 dayDate: Option<int>, startTime: TimeValue, endTime: TimeValue, capacity: int)

  /** studentSessions.some(...) for a candidate interval: Threw when a student
      slot's time throws before an overlap is found, else whether one overlaps. */
  datatype SomeResult = Threw | Found(overlap: bool)

  function SomeOverlap(start: Num, end: Num, slots: seq<StudentSlot>): (r: SomeResult)
  {
    if slots == [] then Found(false)
    else
      var ss := CreateDateTime(slots[0].dayDate, slots[0].startTime);
      var se := CreateDateTime(slots[0].dayDate, slots[0].endTime);
      if ss.Thrown? || se.Thrown? then Threw
      else if Before(start, se.n) && Before(ss.n, end) then Found(true)
      else SomeOverlap(start, end, slots[1..])
  }

  /** The filter callback as written: false when anything throws, otherwise
      true unless some student slot overlaps. */
  predicate KeepAsWritten(p: Potential, slots: seq<StudentSlot>)
  {
    var s := CreateDateTime(p.dayDate, p.startTime);
    var e := CreateDateTime(p.dayDate, p.endTime);
    !s.Thrown? && !e.Thrown? && SomeOverlap(s.n, e.n, slots) == Found(false)
  }

  /** The callback as intended: a session whose time cannot be read is dropped,
      whether reading it throws or yields an Invalid Date. */
  predicate Keep(p: Potential, slots: seq<StudentSlot>)
  {
    var s := CreateDateTime(p.dayDate, p.startTime);
    var e := CreateDateTime(p.dayDate, p.endTime);
    !s.Thrown? && !e.Thrown? && s.n.Fin? && e.n.Fin? && SomeOverlap(s.n, e.n, slots) == Found(false)
  }

  function FilterScheduleAsWritten(ps: seq<Potential>, slots: seq<StudentSlot>): (r: seq<Potential>)
    ensures forall i :: 0 <= i < |r| ==> r[i] in ps && KeepAsWritten(r[i], slots)
    ensures forall p :: p in ps && KeepAsWritten(p, slots) ==> p in r
  {
    if ps == [] then []
    else (if KeepAsWritten(ps[0], slots) then [ps[0]] else []) + FilterScheduleAsWritten(ps[1..], slots)
  }

  /** filterStudentSchedule: the potential sessions the callback keeps, in order. */
  function FilterSchedule(ps: seq<Potential>, slots: seq<StudentSlot>): (r: seq<Potential>)
    ensures forall i :: 0 <= i < |r| ==> r[i] in ps && Keep(r[i], slots)
    ensures forall p :: p in ps && Keep(p, slots) ==> p in r
  {
    if ps == [] then []
    else (if Keep(ps[0], slots) then [ps[0]] else []) + FilterSchedule(ps[1..], slots)
  }

  /** The filter keeps a readable session exactly when no readable student slot
      before the first unreadable one overlaps it with the half-open test. */
  lemma {:induction false} SomeOverlapFound(start: int, end: int, slots: seq<StudentSlot>)
    requires forall k :: 0 <= k < |slots| ==>
      CreateDateTime(slots[k].dayDate, slots[k].startTime).At? && CreateDateTime(slots[k].dayDate, slots[k].endTime).At?
    ensures SomeOverlap(Fin(start), Fin(end), slots) == Found(
      exists k :: 0 <= k < |slots| &&
        Before(Fin(start), CreateDateTime(slots[k].dayDate, slots[k].endTime).n) &&
        Before(CreateDateTime(slots[k].dayDate, slots[k].startTime).n, Fin(end)))
  {
    if slots != [] {
      SomeOverlapFound(start, end, slots[1..]);
      forall k | 0 <= k < |slots[1..]| ensures slots[1..][k] == slots[k + 1] { }
      var e := exists k :: (0 <= k < |slots[1..]|
        && Before(Fin(start), CreateDateTime(slots[1..][k].dayDate, slots[1..][k].endTime).n)
        && Before(CreateDateTime(slots[1..][k].dayDate, slots[1..][k].startTime).n, Fin(end)));
      if e {
        var k :| 0 <= k < |slots[1..]| &&
          Before(Fin(start), CreateDateTime(slots[1..][k].dayDate, slots[1..][k].endTime).n) &&
          Before(CreateDateTime(slots[1..][k].dayDate, slots[1..][k].startTime).n, Fin(end));
        assert slots[1..][k] == slots[k + 1];
      }
    }
  }

  /** A potential session whose day is a weekday name, which `new Date`
      cannot read. */
  function Unreadable(): Potential
  {
    Potential(1, Dw, Some(2), "Monday", None, Str("08:00"), Str("10:00"), 30)
  }

  /** A student slot at the same place in the week. */
  function Busy(): StudentSlot
  {
    StudentSlot(3, "2024-01-15", Some(19737), Str("08"), Str("10"))
  }

  /** An hour field that is not a number gives an Invalid Date. */
  lemma UnreadableTimes()
    ensures CreateDateTime(Some(19737), Str("ab:00")) == At(NaN)
    ensures CreateDateTime(Some(19737), Str("ab:30")) == At(NaN)
  {
    assert IndexOf("ab:00", ':') == 2 && "ab:00"[..2] == "ab";
    assert IndexOf("ab:30", ':') == 2 && "ab:30"[..2] == "ab";
    assert !IsDigits("ab");
    assert TrimEnd(TrimStart("ab")) == "ab";
  }

  /** A day text `new Date` cannot read makes every time of that day an
      Invalid Date. */
  lemma UnreadableDay()
    ensures CreateDateTime(None, Str("08:00")) == At(NaN)
    ensures CreateDateTime(None, Str("10:00")) == At(NaN)
  {
  }

  /** The student slot of `Busy()` reads as time stamps, and overlaps
      nothing that starts and ends at NaN. */
  lemma BusyOverlapsNoNaN()
    ensures SomeOverlap(NaN, NaN, [Busy()]) == Found(false)
  {
    assert IndexOf("08", ':') == 2 && IndexOf("10", ':') == 2;
    var b := Busy();
    assert CreateDateTime(b.dayDate, b.startTime).At? && CreateDateTime(b.dayDate, b.endTime).At?;
  }

  /** As written, an unreadable time is kept, even next to a busy slot. */
  lemma AsWrittenKeepsUnreadable()
    ensures FilterScheduleAsWritten([Unreadable()], [Busy()]) == [Unreadable()]
    ensures FilterSchedule([Unreadable()], [Busy()]) == []
  {
    UnreadableDay();
    BusyOverlapsNoNaN();
    assert KeepAsWritten(Unreadable(), [Busy()]) && !Keep(Unreadable(), [Busy()]);
  }

  // ---------------------------------------------------------------------------
  // Room availability, and the queries of the route.

  function CountGroupStudents(students: seq<Student>, groupId: Option<Id>): (n: nat)
    ensures n <= |students|
  {
    if students == [] then 0
    else (if groupId.Some? && students[0].groupId == groupId then 1 else 0) + CountGroupStudents(students[1..], groupId)
  }

  /** checkRoomAvailability: the group's students, the makeup students and the
      debt students of the session together stay strictly below the capacity. */
  predicate RoomAvailable(db: LegacyDb, p: Potential)
  {
    CountGroupStudents(db.students, p.groupId)
      + |Filter(db.makeups, (m: LegacyMakeup) => m.sessionId == p.sessionId)|
      + |Filter(db.debtSessions, (d: DebtSessionLink) => d.sessionId == p.sessionId)| < p.capacity
  }

  predicate KeepForRoom(db: LegacyDb, p: Potential)
  {
    p.kind == Pw || RoomAvailable(db, p)
  }

  function AvailableSpec(db: LegacyDb, ps: seq<Potential>): (r: seq<Potential>)
    ensures forall i :: 0 <= i < |r| ==> r[i] in ps && KeepForRoom(db, r[i])
    ensures forall p :: p in ps && KeepForRoom(db, p) ==> p in r
  {
    if ps == [] then []
    else AvailableSpec(db, ps[..|ps| - 1]) + (if KeepForRoom(db, ps[|ps| - 1]) then [ps[|ps| - 1]] else [])
  }

  /** filterAvailableSessions: every pw session, and any other session whose room
      has a seat, in input order. */
  method FilterAvailableSessions(db: LegacyDb, ps: seq<Potential>) returns (available: seq<Potential>)
    ensures available == AvailableSpec(db, ps)
  {
    available := [];
    var i := 0;
    while i < |ps|
      invariant 0 <= i <= |ps|
      invariant available == AvailableSpec(db, ps[..i])
    {
      assert ps[..i + 1][..i] == ps[..i];
      if ps[i].kind == Pw || RoomAvailable(db, ps[i]) {
        available := available + [ps[i]];
      }
      i := i + 1;
    }
    assert ps[..i] == ps;
  }

  /** A pw session survives the room filter whatever its occupancy; a dw
      session with a full room does not. */
  lemma PwExempt(db: LegacyDb, ps: seq<Potential>, p: Potential)
    requires p in ps
    ensures p.kind == Pw ==> p in AvailableSpec(db, ps)
    ensures p.kind != Pw && !RoomAvailable(db, p) ==> p !in AvailableSpec(db, ps)
  {
  }

  function FindLegacySession(db: LegacyDb, id: Id): (r: Option<LegacySession>)
    ensures r.Some? ==> r.value in db.sessions && r.value.id == id
    ensures r.None? <==> forall s :: s in db.sessions ==> s.id != id
  {
    First(db.sessions, (s: LegacySession) => s.id == id)
  }

  function FindSlot(db: LegacyDb, id: Id): (r: Option<Slot>)
    ensures r.Some? ==> r.value in db.slots && r.value.id == id
    ensures r.None? <==> forall s :: s in db.slots ==> s.id != id
  {
    First(db.slots, (s: Slot) => s.id == id)
  }

  function FindLegacyRoom(db: LegacyDb, id: Id): (r: Option<Room>)
    ensures r.Some? ==> r.value in db.rooms && r.value.id == id
    ensures r.None? <==> forall m :: m in db.rooms ==> m.id != id
  {
    First(db.rooms, (r: Room) => r.id == id)
  }

  /** The student's sessions through their group: student, group, sessions of that group with a slot. */
  function GroupSlots(db: LegacyDb, studentId: Id, sessions: seq<LegacySession>): (r: seq<StudentSlot>)
    ensures |r| <= |sessions|
  {
    if sessions == [] then []
    else
      var st := First(db.students, (s: Student) => s.matricule == studentId);
      var s := sessions[0];
      var slot := FindSlot(db, s.timeId);
      (if st.Some? && st.value.groupId.Some? && s.groupId == st.value.groupId
          && First(db.groups, (g: Group) => g.id == st.value.groupId.value).Some? && slot.Some?
       then [StudentSlot(s.id, slot.value.day, slot.value.dayDate, slot.value.startTime, slot.value.endTime)]
       else [])
      + GroupSlots(db, studentId, sessions[1..])
  }

  /** The student's debt sessions with their slots, in link order. */
  function DebtSlots(db: LegacyDb, studentId: Id, links: seq<DebtSessionLink>): (r: seq<StudentSlot>)
    ensures |r| <= |links|
  {
    if links == [] then []
    else
      var s := FindLegacySession(db, links[0].sessionId);
      var slot := if s.Some? then FindSlot(db, s.value.timeId) else None;
      (if links[0].studentId == studentId && slot.Some?
       then [StudentSlot(s.value.id, slot.value.day, slot.value.dayDate, slot.value.startTime, slot.value.endTime)]
       else [])
      + DebtSlots(db, studentId, links[1..])
  }

  /** getAllStudentSessions: the results of the group query and then of the
      debt query, concatenated in that order. */
  method GetAllStudentSessions(db: LegacyDb, studentId: Id) returns (all: seq<StudentSlot>)
    ensures all == GroupSlots(db, studentId, db.sessions) + DebtSlots(db, studentId, db.debtSessions)
  {
    var results := [GroupSlots(db, studentId, db.sessions), DebtSlots(db, studentId, db.debtSessions)];
    all := [];
    var i := 0;
    while i < |results|
      invariant 0 <= i <= |results|
      invariant all == if i == 0 then [] else if i == 1 then results[0] else results[0] + results[1]
    {
      all := all + results[i];
      i := i + 1;
    }
  }

  /** One row of findPotentialSessions: a session of the module and type other
      than the absent one, joined to its "dateTime" slot and its room. */
  function PotentialOf(db: LegacyDb, moduleId: Id, kind: string, absentSessionId: Id, s: LegacySession): (r: Option<Potential>)
    ensures r.Some? <==>
      && s.moduleId == moduleId && s.kind == kind && s.id != absentSessionId
      && (exists d :: d in db.slots && d.id == s.timeId)
      && (exists m :: m in db.rooms && m.id == s.roomId)
    ensures r.Some? ==>
      && r.value.sessionId == s.id && r.value.kind == s.kind && r.value.groupId == s.groupId
      && (exists d :: d in db.slots && d.id == s.timeId && r.value.day == d.day && r.value.dayDate == d.dayDate
            && r.value.startTime == d.startTime && r.value.endTime == d.endTime)
      && (exists m :: m in db.rooms && m.id == s.roomId && r.value.capacity == m.capacity)
  {
    var slot := FindSlot(db, s.timeId);
    var room := FindLegacyRoom(db, s.roomId);
    if s.moduleId == moduleId && s.kind == kind && s.id != absentSessionId && slot.Some? && room.Some? then
      Some(Potential(s.id, s.kind, s.groupId, slot.value.day, slot.value.dayDate, slot.value.startTime,
                     slot.value.endTime, room.value.capacity))
    else None
  }

  /** findPotentialSessions: one row per session that joins, in table order. */
  function PotentialSessions(db: LegacyDb, moduleId: Id, kind: string, absentSessionId: Id, sessions: seq<LegacySession>): (r: seq<Potential>)
    ensures |r| <= |sessions|
    ensures forall p :: p in r <==> exists s :: s in sessions && PotentialOf(db, moduleId, kind, absentSessionId, s) == Some(p)
  {
    if sessions == [] then []
    else
      var head := PotentialOf(db, moduleId, kind, absentSessionId, sessions[0]);
      var rest := PotentialSessions(db, moduleId, kind, absentSessionId, sessions[1..]);
      assert forall s :: s in sessions <==> s == sessions[0] || s in sessions[1..];
      (if head.Some? then [head.value] else []) + rest
  }

  /** A session of the absence's module and type, other than the absent one,
      with a slot and a room, is offered. */
  lemma SessionOffered(db: LegacyDb, moduleId: Id, kind: string, absentSessionId: Id, s: LegacySession)
    requires s in db.sessions
    requires s.moduleId == moduleId && s.kind == kind && s.id != absentSessionId
    requires exists d :: d in db.slots && d.id == s.timeId
    requires exists m :: m in db.rooms && m.id == s.roomId
    ensures exists p :: p in PotentialSessions(db, moduleId, kind, absentSessionId, db.sessions) && p.sessionId == s.id
  {
    var p := PotentialOf(db, moduleId, kind, absentSessionId, s).value;
    assert p in PotentialSessions(db, moduleId, kind, absentSessionId, db.sessions);
  }

  /** The WHERE clause of getAbsentSessionInfo, with the join to the session. */
  predicate UnmadeAbsence(db: LegacyDb, attendanceId: Id, a: LegacyAttendance)
  {
    a.id == attendanceId && !a.present && !a.isMarkup && exists s :: s in db.sessions && s.id == a.sessionId
  }

  /** getAbsentSessionInfo: an absence not yet made up, with its session; null
      when no row matches. */
  function AbsentSessionInfo(db: LegacyDb, attendanceId: Id): (r: Option<(LegacyAttendance, LegacySession)>)
    ensures r.None? <==> forall a :: a in db.attendance ==> !UnmadeAbsence(db, attendanceId, a)
    ensures r.Some? ==> (r.value.0 in db.attendance && r.value.0.id == attendanceId && !r.value.0.present && !r.value.0.isMarkup
      && r.value.1 in db.sessions && r.value.1.id == r.value.0.sessionId)
  {
    var a := First(db.attendance, (a: LegacyAttendance) => UnmadeAbsence(db, attendanceId, a));
    if a.None? then None
    else Some((a.value, FindLegacySession(db, a.value.sessionId).value))
  }

  datatype LegacyResponse =
    | NotFound
    | Sessions(studentId: Id, moduleId: Id, originalSessionId: Id, available: seq<Potential>)

  /** The makeup-sessions route: 404 for an unknown or made-up absence, else
      the potential sessions passed through the schedule filter and then the
      room filter. */
  method MakeupSessions(db: LegacyDb, attendanceId: Id) returns (r: LegacyResponse)
    ensures AbsentSessionInfo(db, attendanceId).None? ==> r == NotFound
    ensures AbsentSessionInfo(db, attendanceId).Some? ==>
      var (a, s) := AbsentSessionInfo(db, attendanceId).value;
      var slots := GroupSlots(db, a.studentId, db.sessions) + DebtSlots(db, a.studentId, db.debtSessions);
      r == Sessions(a.studentId, s.moduleId, s.id,
        AvailableSpec(db, FilterSchedule(PotentialSessions(db, s.moduleId, s.kind, s.id, db.sessions), slots)))
  {
    var info := AbsentSessionInfo(db, attendanceId);
    if info.None? {
      return NotFound;
    }
    var (a, s) := info.value;
    var potential := PotentialSessions(db, s.moduleId, s.kind, s.id, db.sessions);
    var slots := GetAllStudentSessions(db, a.studentId);
    var filtered := FilterSchedule(potential, slots);
    var available := FilterAvailableSessions(db, filtered);
    r := Sessions(a.studentId, s.moduleId, s.id, available);
  }

  /** Every listed session shares the absence's module and type, is not the
      absent session, has a readable time clear of the student's slots, and is
      pw or has a seat. */
  lemma ListedSessions(db: LegacyDb, attendanceId: Id, p: Potential)
    requires AbsentSessionInfo(db, attendanceId).Some?
    ensures var (a, s) := AbsentSessionInfo(db, attendanceId).value;
      var slots := GroupSlots(db, a.studentId, db.sessions) + DebtSlots(db, a.studentId, db.debtSessions);
      var potential := PotentialSessions(db, s.moduleId, s.kind, s.id, db.sessions);
      p in AvailableSpec(db, FilterSchedule(potential, slots)) <==>
        p in potential && Keep(p, slots) && KeepForRoom(db, p)
  {
  }
}
