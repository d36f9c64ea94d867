/** Debt sessions (routes/debtSessions.js): which sessions of a failed module a
    student may still join, registering for one, and the semester label of a
    debt module. */
module DebtSessions {
  import opened Common
  import opened Tables
  import opened Sorting

  // ---------------------------------------------------------------------------
  // Semester label.

  type Month = m: int | 1 <= m <= 12 witness 1

  /** "Fall <year>" for a semester starting in September to December, otherwise "Spring <year>". */
  function SemesterName(month: Month, year: nat): (r: string)
    ensures 9 <= month ==> r == "Fall " + Decimal(year)
    ensures month < 9 ==> r == "Spring " + Decimal(year)
  {
    (if 9 <= month <= 12 then "Fall " else "Spring ") + Decimal(year)
  }

  /** The label names the year it was built from, after a season word. */
  lemma SemesterNameYear(month: Month, year: nat)
    ensures var r := SemesterName(month, year);
      var k := if 9 <= month then 5 else 7;
      k <= |r| && IsDigits(r[k..]) && ParseDecimal(r[k..]) == year
  {
    var r := SemesterName(month, year);
    var k := if 9 <= month then 5 else 7;
    assert r[k..] == Decimal(year);
    ParseDecimalOfDecimal(year);
  }

  /** Two labels are equal exactly when they share the season and the year. */
  lemma SemesterNameInjective(m1: Month, y1: nat, m2: Month, y2: nat)
    ensures SemesterName(m1, y1) == SemesterName(m2, y2) <==> ((9 <= m1) == (9 <= m2) && y1 == y2)
  {
    var r1, r2 := SemesterName(m1, y1), SemesterName(m2, y2);
    if r1 == r2 {
      assert r1[0] == r2[0];
      SemesterNameYear(m1, y1);
      SemesterNameYear(m2, y2);
    }
  }

  // ---------------------------------------------------------------------------
  // Available debt sessions.

  /** The student already holds a debt session of this module and type. */
  predicate HasExisting(db: Db, studentId: Id, moduleId: Id, kind: string)
  {
    exists l, s :: l in db.debtSessions && s in db.sessions && l.studentId == studentId &&
      l.sessionId == s.id && s.moduleId == moduleId && s.kind == kind
  }

  /** A row of the `student_debt_sessions` common table expression: the
      student's debt link `l`, its session `s` and that session's dayTime `t`. */
  predicate DebtJoin(studentId: Id, l: DebtSessionLink, s: Session, t: DayTime)
  {
    l.studentId == studentId && l.sessionId == s.id && s.timeId == t.id
  }

  /** The first NOT EXISTS: a debt session of the requested module and type. */
  predicate DebtOfKind(db: Db, studentId: Id, moduleId: Id, kind: string)
  {
    exists l, s, t :: l in db.debtSessions && s in db.sessions && t in db.dayTimes
      && DebtJoin(studentId, l, s, t) && s.moduleId == moduleId && s.kind == kind
  }

  /** The second NOT EXISTS: a debt session on exactly the same day, start and end. */
  predicate SameSlot(db: Db, studentId: Id, dt: DayTime)
  {
    exists l, s, t :: l in db.debtSessions && s in db.sessions && t in db.dayTimes
      && DebtJoin(studentId, l, s, t) && t.day == dt.day && t.startTime == dt.startTime && t.endTime == dt.endTime
  }

  /** The third NOT EXISTS: a session of the student's group uses this very dayTime. */
  predicate GroupUsesDayTime(db: Db, studentId: Id, dt: DayTime)
  {
    exists sn, st :: sn in db.sessions && st in db.students && st.matricule == studentId &&
      st.groupId.Some? && sn.groupId == st.groupId && sn.timeId == dt.id
  }

  /** One row of the available-sessions answer; `profId` is None when the
      LEFT JOIN finds no professor. */
  datatype DebtCandidate = DebtCandidate(sessionId: Id, kind: string, day: string, startTime: seq<Seconds>,
                                         endTime: seq<Seconds>, moduleName: string, roomId: Id,
                                         capacity: int, profId: Option<Id>)

  /** A session of the requested module and type that none of the three NOT
      EXISTS clauses removes, with its dayTime, module and room. */
  predicate Offered(db: Db, studentId: Id, moduleId: Id, kind: string, s: Session)
  {
    var dt := FindDayTime(db, s.timeId);
    s.moduleId == moduleId && s.kind == kind &&
    dt.Some? && FindModule(db, s.moduleId).Some? && FindRoom(db, s.roomId).Some? &&
    !DebtOfKind(db, studentId, moduleId, kind) &&
    !SameSlot(db, studentId, dt.value) &&
    !GroupUsesDayTime(db, studentId, dt.value)
  }

  function DebtCandidateOf(db: Db, studentId: Id, moduleId: Id, kind: string, s: Session): (r: Option<DebtCandidate>)
    ensures r.Some? <==> Offered(db, studentId, moduleId, kind, s)
    ensures r.Some? ==> (r.value.sessionId == s.id && r.value.kind == kind
      && r.value.day == FindDayTime(db, s.timeId).value.day
      && r.value.startTime == FindDayTime(db, s.timeId).value.startTime
      && r.value.endTime == FindDayTime(db, s.timeId).value.endTime)
  {
    if !Offered(db, studentId, moduleId, kind, s) then None
    else
      var dt := FindDayTime(db, s.timeId).value;
      var m := FindModule(db, s.moduleId).value;
      var room := FindRoom(db, s.roomId).value;
      var prof := if s.profId in db.professors then Some(s.profId) else None;
      Some(DebtCandidate(s.id, s.kind, dt.day, dt.startTime, dt.endTime, m.name, room.id, room.capacity, prof))
  }

  /** ORDER BY day, startTime: day text first, then the start-time array. */
  predicate DayThenStart(x: DebtCandidate, y: DebtCandidate)
  {
    LexLe(x.day, y.day) && (LexLe(y.day, x.day) ==> ArrayLe(x.startTime, y.startTime))
  }

  lemma DayThenStartTotalPreorder()
    ensures TotalPreorder(DayThenStart)
  {
    forall a, b ensures DayThenStart(a, b) || DayThenStart(b, a) {
      LexLeTotal(a.day, b.day);
      ArrayLeTotal(a.startTime, b.startTime);
    }
    forall a, b, c | DayThenStart(a, b) && DayThenStart(b, c) ensures DayThenStart(a, c) {
      LexLeTransitive(a.day, b.day, c.day);
      if LexLe(c.day, a.day) {
        LexLeTransitive(c.day, a.day, b.day);
        LexLeTransitive(b.day, c.day, a.day);
        ArrayLeTransitive(a.startTime, b.startTime, c.startTime);
      }
    }
  }

  function DebtCandidates(db: Db, studentId: Id, moduleId: Id, kind: string): (rows: seq<DebtCandidate>)
    ensures forall c :: c in rows <==>
      exists s :: s in db.sessions && DebtCandidateOf(db, studentId, moduleId, kind, s) == Some(c)
    ensures SortedBy(rows, DayThenStart)
  {
    var f := (s: Session) => DebtCandidateOf(db, studentId, moduleId, kind, s);
    var all := Collect(db.sessions, f);
    var rows := SortBy(all, DayThenStart);
    forall c ensures c in rows <==> exists s :: s in db.sessions && f(s) == Some(c) {
      CollectMember(db.sessions, f, c);
      assert c in rows <==> c in multiset(rows);
      assert c in all <==> c in multiset(all);
    }
    DayThenStartTotalPreorder();
    SortBySorted(all, DayThenStart);
    rows
  }

  datatype DebtAvailability =
    | HasExistingSession
    | NoSessions
    | Sessions(rows: seq<DebtCandidate>)

  /** The available-sessions route. */
  function AvailableDebtSessions(db: Db, studentId: Id, moduleId: Id, kind: string): (r: DebtAvailability)
    ensures r.HasExistingSession? <==> HasExisting(db, studentId, moduleId, kind)
    ensures r.NoSessions? <==> !HasExisting(db, studentId, moduleId, kind) && DebtCandidates(db, studentId, moduleId, kind) == []
    ensures r.Sessions? ==> |r.rows| > 0 && r.rows == DebtCandidates(db, studentId, moduleId, kind)
  {
    if HasExisting(db, studentId, moduleId, kind) then HasExistingSession
    else
      var rows := DebtCandidates(db, studentId, moduleId, kind);
      if |rows| == 0 then NoSessions else Sessions(rows)
  }

  /** Once the guard has passed, the first NOT EXISTS never removes a row: it
      repeats the guard's test on a narrower join. */
  lemma DuplicateExclusionIdle(db: Db, studentId: Id, moduleId: Id, kind: string)
    requires !HasExisting(db, studentId, moduleId, kind)
    ensures !DebtOfKind(db, studentId, moduleId, kind)
  {
  }

  /** A listed session has the requested module and type, and no debt session of
      the student sits on exactly its slot, and no session of the student's group
      uses its dayTime; a debt session that only partly overlaps it does not
      remove it. */
  lemma ListedSessions(db: Db, studentId: Id, moduleId: Id, kind: string, c: DebtCandidate)
    requires AvailableDebtSessions(db, studentId, moduleId, kind).Sessions?
    ensures c in AvailableDebtSessions(db, studentId, moduleId, kind).rows <==>
      exists s :: s in db.sessions && FindDayTime(db, s.timeId).Some? && s.moduleId == moduleId && s.kind == kind
        && !SameSlot(db, studentId, FindDayTime(db, s.timeId).value)
        && !GroupUsesDayTime(db, studentId, FindDayTime(db, s.timeId).value)
        && FindModule(db, s.moduleId).Some? && FindRoom(db, s.roomId).Some?
        && DebtCandidateOf(db, studentId, moduleId, kind, s) == Some(c)
  {
    DuplicateExclusionIdle(db, studentId, moduleId, kind);
  }

  // ---------------------------------------------------------------------------
  // Registration.

  /** register-session: exactly one new (student, session) row; no capacity,
      overlap or duplicate check. */
  function Register(db: Db, studentId: Id, sessionId: Id): (r: Db)
    ensures r.debtSessions == db.debtSessions + [DebtSessionLink(studentId, sessionId)]
    ensures r.(debtSessions := db.debtSessions) == db
  {
    db.(debtSessions := db.debtSessions + [DebtSessionLink(studentId, sessionId)])
  }

  /** After registering for a session, the same request answers that the
      student already has a session of its module and type. */
  lemma RegisterThenExisting(db: Db, studentId: Id, s: Session)
    requires s in db.sessions
    ensures AvailableDebtSessions(Register(db, studentId, s.id), studentId, s.moduleId, s.kind) == HasExistingSession
  {
    var db2 := Register(db, studentId, s.id);
    var l := DebtSessionLink(studentId, s.id);
    assert l in db2.debtSessions && s in db2.sessions;
  }

  /** Registering twice leaves two rows: nothing deduplicates. */
  lemma RegisterTwice(db: Db, studentId: Id, sessionId: Id)
    ensures var l := DebtSessionLink(studentId, sessionId);
      multiset(Register(Register(db, studentId, sessionId), studentId, sessionId).debtSessions)[l]
        == multiset(db.debtSessions)[l] + 2
  {
  }
}
