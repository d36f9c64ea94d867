/** What a student sees of the syllabus progress of their sessions
    (routes/session_progress.js): the modules they follow, the sessions of a
    module with the share of titles their professors have covered, and the
    sessions of a module owed as debt, with the module's lectures as a
    fallback. Each route is one query; each is a function here. */
module SessionProgress {
  import opened Common
  import opened Tables
  import opened Sorting
  import opened Rollup

  // ---------------------------------------------------------------------
  // GET /:student_id/modules

  datatype ModuleRow = ModuleRow(moduleId: Id, name: string)

  datatype ModulesResponse = StudentNotFound | Modules(normal: seq<ModuleRow>, debt: seq<ModuleRow>)

  /** ORDER BY m.name, names compared by code point. */
  predicate ByName(a: ModuleRow, b: ModuleRow)
  {
    LexLe(a.name, b.name)
  }

  lemma ByNameTotalPreorder()
    ensures TotalPreorder(ByName)
  {
    forall a, b ensures ByName(a, b) || ByName(b, a) {
      LexLeTotal(a.name, b.name);
    }
    forall a, b, c | ByName(a, b) && ByName(b, c) ensures ByName(a, c) {
      LexLeTransitive(a.name, b.name, c.name);
    }
  }

  /** The modules of the student's promotion, by name. */
  function NormalModules(db: Db, promotionId: Id): (rows: seq<ModuleRow>)
    ensures forall r :: r in rows <==>
              exists m :: m in db.modules && m.promotionId == promotionId && r == ModuleRow(m.id, m.name)
    ensures SortedBy(rows, ByName)
  {
    var f := (m: Module) => if m.promotionId == promotionId then Some(ModuleRow(m.id, m.name)) else None;
    var all := Collect(db.modules, f);
    var rows := SortBy(all, ByName);
    forall r ensures r in rows <==> exists m :: m in db.modules && f(m) == Some(r) {
      CollectMember(db.modules, f, r);
      SortByMember(all, ByName, r);
    }
    ByNameTotalPreorder();
    SortBySorted(all, ByName);
    rows
  }

  /** The modules the student owes (Student_DebtModules joined with Module), by name. */
  function DebtModules(db: Db, studentId: Id): (rows: seq<ModuleRow>)
    ensures forall r :: r in rows <==>
              exists l :: l in db.debtModules && l.studentId == studentId && FindModule(db, l.moduleId).Some?
                          && r == ModuleRow(l.moduleId, FindModule(db, l.moduleId).value.name)
    ensures SortedBy(rows, ByName)
  {
    var f := (l: DebtModuleLink) =>
      if l.studentId != studentId then None
      else match FindModule(db, l.moduleId)
        case None => None
        case Some(m) => Some(ModuleRow(m.id, m.name));
    var all := Collect(db.debtModules, f);
    var rows := SortBy(all, ByName);
    forall r ensures r in rows <==> exists l :: l in db.debtModules && f(l) == Some(r) {
      CollectMember(db.debtModules, f, r);
      SortByMember(all, ByName, r);
    }
    ByNameTotalPreorder();
    SortBySorted(all, ByName);
    rows
  }

  /** 404 for an unknown student; else both lists. */
  function StudentModules(db: Db, studentId: Id): (r: ModulesResponse)
    ensures r.StudentNotFound? <==> FindStudent(db, studentId).None?
    ensures r.Modules? ==>
              && r.normal == NormalModules(db, FindStudent(db, studentId).value.promotionId)
              && r.debt == DebtModules(db, studentId)
  {
    match FindStudent(db, studentId)
    case None => StudentNotFound
    case Some(st) => Modules(NormalModules(db, st.promotionId), DebtModules(db, studentId))
  }

  // ---------------------------------------------------------------------
  // GET /:studentId/modules/:moduleId/sessions

  /** A row of the student_sessions union. A group-based row carries the
      group and no section; a section-based row the section and no group. */
  datatype Enrolled = Enrolled(sessionId: Id, moduleId: Id, kind: string, profId: Id,
                               groupId: Option<Id>, sectionId: Option<Id>)

  /** The student's group is the session's group (NULL matches nothing). */
  predicate GroupMatch(db: Db, studentId: Id, s: Session)
  {
    exists st :: st in db.students && st.matricule == studentId && st.groupId.Some? && st.groupId == s.groupId
  }

  /** The promotion of the session's section is the student's promotion. */
  predicate SectionMatch(db: Db, studentId: Id, s: Session)
  {
    && s.sectionId.Some?
    && FindSection(db, s.sectionId.value).Some?
    && exists st :: st in db.students && st.matricule == studentId
                    && st.promotionId == FindSection(db, s.sectionId.value).value.promotionId
  }

  function GroupRow(s: Session): Enrolled
  {
    Enrolled(s.id, s.moduleId, s.kind, s.profId, s.groupId, None)
  }

  function SectionRow(s: Session): Enrolled
  {
    Enrolled(s.id, s.moduleId, s.kind, s.profId, None, s.sectionId)
  }

  /** The UNION of the group-based and the section-based rows: no row twice. */
  function StudentSessionRows(db: Db, studentId: Id, moduleId: Id): (rows: seq<Enrolled>)
    ensures forall e :: e in rows <==>
              exists s :: s in db.sessions && s.moduleId == moduleId
                          && ((GroupMatch(db, studentId, s) && e == GroupRow(s))
                              || (SectionMatch(db, studentId, s) && e == SectionRow(s)))
    ensures forall i, j :: 0 <= i < j < |rows| ==> rows[i] != rows[j]
  {
    var g := (s: Session) => if s.moduleId == moduleId && GroupMatch(db, studentId, s) then Some(GroupRow(s)) else None;
    var c := (s: Session) => if s.moduleId == moduleId && SectionMatch(db, studentId, s) then Some(SectionRow(s)) else None;
    var both := Collect(db.sessions, g) + Collect(db.sessions, c);
    forall e ensures e in both <==>
      exists s :: s in db.sessions && s.moduleId == moduleId
                  && ((GroupMatch(db, studentId, s) && e == GroupRow(s))
                      || (SectionMatch(db, studentId, s) && e == SectionRow(s)))
    {
      CollectMember(db.sessions, g, e);
      CollectMember(db.sessions, c, e);
    }
    Distinct(both)
  }

  /** A session that matches through both its group and its section gives two
      rows of the union: they differ in their group and section columns. */
  lemma BothWaysTwice(db: Db, studentId: Id, s: Session)
    requires s in db.sessions && GroupMatch(db, studentId, s) && SectionMatch(db, studentId, s)
    ensures GroupRow(s) in StudentSessionRows(db, studentId, s.moduleId)
    ensures SectionRow(s) in StudentSessionRows(db, studentId, s.moduleId)
    ensures GroupRow(s) != SectionRow(s)
  {
  }

  /** completed, total and the rounded percentage of one group of the
      title_progress query. */
  datatype Progress = Progress(completed: nat, total: nat, percentage: nat)

  /** The COUNT and SUM of the title_progress rows of one session: every union
      row of that session joined with the titles of its module and type and,
      by LEFT JOIN, with the session's progress rows for them. */
  function SumCounts(db: Db, rows: seq<Enrolled>, sessionId: Id): (c: Counts)
    ensures c.completed <= c.total
    ensures c.total > 0 <==>
              exists e :: e in rows && e.sessionId == sessionId && TitlesOf(db.titles, e.moduleId, e.kind) != []
  {
    if rows == [] then Counts(0, 0)
    else
      assert forall e :: e in rows <==> e == rows[0] || e in rows[1..];
      var rest := SumCounts(db, rows[1..], sessionId);
      if rows[0].sessionId != sessionId then rest
      else
        var c := SessionCounts(db, sessionId, rows[0].moduleId, rows[0].kind);
        Counts(c.total + rest.total, c.completed + rest.completed)
  }

  /** The progress of a session, absent (the LEFT JOIN's NULLs) when no title
      of its module and type exists; the percentage is ROUND(completed *
      100.0 / total). */
  function ProgressOfSession(db: Db, rows: seq<Enrolled>, sessionId: Id): (r: Option<Progress>)
    ensures r.None? <==> forall e :: e in rows && e.sessionId == sessionId ==> TitlesOf(db.titles, e.moduleId, e.kind) == []
    ensures r.Some? ==> 0 < r.value.total && r.value.completed <= r.value.total && r.value.percentage <= 100
    ensures r.Some? ==> r.value.total == SumCounts(db, rows, sessionId).total
                        && r.value.completed == SumCounts(db, rows, sessionId).completed
    ensures r.Some? ==> 2 * r.value.percentage * r.value.total <= 200 * r.value.completed + r.value.total
                                                          < 2 * r.value.percentage * r.value.total + 2 * r.value.total
  {
    var c := SumCounts(db, rows, sessionId);
    if c.total == 0 then None
    else
      PercentAtMost100(c.completed, c.total);
      Some(Progress(c.completed, c.total, Percent(c.completed, c.total)))
  }

  /** One row of the sessions route; the professor stands for the name the
      route concatenates. */
  datatype SessionRow = SessionRow(moduleName: string, kind: string, profId: Id, progress: Option<Progress>, sessionId: Id)

  /** A union row that joins its module and its professor. */
  function SessionRowOf(db: Db, rows: seq<Enrolled>, e: Enrolled): (r: Option<SessionRow>)
    ensures r.Some? <==> FindModule(db, e.moduleId).Some? && e.profId in db.professors
  {
    match FindModule(db, e.moduleId)
    case None => None
    case Some(m) =>
      if e.profId in db.professors then Some(SessionRow(m.name, e.kind, e.profId, ProgressOfSession(db, rows, e.sessionId), e.sessionId))
      else None
  }

  /** ORDER BY type, session_id. */
  predicate KindThenId(a: SessionRow, b: SessionRow)
  {
    LexLe(a.kind, b.kind) && (LexLe(b.kind, a.kind) ==> a.sessionId <= b.sessionId)
  }

  lemma KindThenIdTotalPreorder()
    ensures TotalPreorder(KindThenId)
  {
    forall a, b ensures KindThenId(a, b) || KindThenId(b, a) {
      LexLeTotal(a.kind, b.kind);
    }
    forall a, b, c | KindThenId(a, b) && KindThenId(b, c) ensures KindThenId(a, c) {
      LexLeTransitive(a.kind, b.kind, c.kind);
      if LexLe(c.kind, a.kind) {
        LexLeTransitive(c.kind, a.kind, b.kind);
        LexLeTransitive(b.kind, c.kind, a.kind);
      }
    }
  }

  datatype SessionsResponse = NoSessions | Sessions(rows: seq<SessionRow>)

  /** The sessions route: 404 when no row comes out. */
  function StudentSessions(db: Db, studentId: Id, moduleId: Id): (r: SessionsResponse)
    ensures r.Sessions? ==> |r.rows| > 0 && SortedBy(r.rows, KindThenId)
    ensures r.NoSessions? <==>
              forall e :: e in StudentSessionRows(db, studentId, moduleId) ==> SessionRowOf(db, StudentSessionRows(db, studentId, moduleId), e).None?
    ensures r.Sessions? ==>
              forall x :: x in r.rows <==>
                exists e :: e in StudentSessionRows(db, studentId, moduleId)
                            && SessionRowOf(db, StudentSessionRows(db, studentId, moduleId), e) == Some(x)
  {
    var union := StudentSessionRows(db, studentId, moduleId);
    var f := (e: Enrolled) => SessionRowOf(db, union, e);
    var all := Collect(union, f);
    var rows := SortBy(all, KindThenId);
    forall x ensures x in rows <==> exists e :: e in union && f(e) == Some(x) {
      CollectMember(union, f, x);
      SortByMember(all, KindThenId, x);
    }
    KindThenIdTotalPreorder();
    SortBySorted(all, KindThenId);
    if |rows| == 0 then
      NoSessions
    else
      assert rows[0] in rows;
      Sessions(rows)
  }

  /** A session is listed exactly when it is of the module, reaches the
      student through their group or through their section's promotion, and
      its module and professor exist. */
  lemma ListedSessions(db: Db, studentId: Id, moduleId: Id, sessionId: Id)
    requires StudentSessions(db, studentId, moduleId).Sessions?
    ensures (exists x :: x in StudentSessions(db, studentId, moduleId).rows && x.sessionId == sessionId) <==>
              exists s :: s in db.sessions && s.id == sessionId && s.moduleId == moduleId
                          && (GroupMatch(db, studentId, s) || SectionMatch(db, studentId, s))
                          && FindModule(db, moduleId).Some? && s.profId in db.professors
  {
    var rows := StudentSessions(db, studentId, moduleId).rows;
    if x :| x in rows && x.sessionId == sessionId {
      ListedRowIsReached(db, studentId, moduleId, x);
    }
    if s :| s in db.sessions && s.id == sessionId && s.moduleId == moduleId
            && (GroupMatch(db, studentId, s) || SectionMatch(db, studentId, s))
            && FindModule(db, moduleId).Some? && s.profId in db.professors {
      ReachedSessionIsListed(db, studentId, moduleId, s);
    }
  }

  /** Each listed row comes from a session of the module that reaches the student. */
  lemma ListedRowIsReached(db: Db, studentId: Id, moduleId: Id, x: SessionRow)
    requires StudentSessions(db, studentId, moduleId).Sessions?
    requires x in StudentSessions(db, studentId, moduleId).rows
    ensures exists s :: s in db.sessions && s.id == x.sessionId && s.moduleId == moduleId
                        && (GroupMatch(db, studentId, s) || SectionMatch(db, studentId, s))
                        && FindModule(db, moduleId).Some? && s.profId in db.professors
  {
    var union := StudentSessionRows(db, studentId, moduleId);
    var e :| e in union && SessionRowOf(db, union, e) == Some(x);
    var s :| s in db.sessions && s.moduleId == moduleId
             && ((GroupMatch(db, studentId, s) && e == GroupRow(s))
                 || (SectionMatch(db, studentId, s) && e == SectionRow(s)));
    assert s.id == x.sessionId;
  }

  /** Each session of the module that reaches the student is listed. */
  lemma ReachedSessionIsListed(db: Db, studentId: Id, moduleId: Id, s: Session)
    requires StudentSessions(db, studentId, moduleId).Sessions?
    requires s in db.sessions && s.moduleId == moduleId
    requires GroupMatch(db, studentId, s) || SectionMatch(db, studentId, s)
    requires FindModule(db, moduleId).Some? && s.profId in db.professors
    ensures exists x :: x in StudentSessions(db, studentId, moduleId).rows && x.sessionId == s.id
  {
    var union := StudentSessionRows(db, studentId, moduleId);
    var e := if GroupMatch(db, studentId, s) then GroupRow(s) else SectionRow(s);
    assert e in union;
    var x := SessionRowOf(db, union, e).value;
    assert x in StudentSessions(db, studentId, moduleId).rows && x.sessionId == s.id;
  }

  // ---------------------------------------------------------------------
  // GET /:studentId/modules/:moduleId/debt-sessions

  /** A row of combined_sessions. */
  datatype Combined = Combined(sessionId: Id, moduleId: Id, kind: string, profId: Id, isDebt: bool)

  /** How many Student_DebtModules rows tie the student to the module: the
      join repeats a debt session once per such row. */
  function DebtModuleRows(db: Db, studentId: Id, moduleId: Id): (n: nat)
    ensures n > 0 <==> exists l :: l in db.debtModules && l.studentId == studentId && l.moduleId == moduleId
  {
    var p := (l: DebtModuleLink) => l.studentId == studentId && l.moduleId == moduleId;
    var r := Filter(db.debtModules, p);
    assert forall l :: l in db.debtModules && p(l) ==> l in r by {
      forall l | l in db.debtModules && p(l) ensures l in r {
        FilterMember(db.debtModules, p, l);
      }
    }
    assert |r| > 0 ==> r[0] in r;
    |r|
  }

  function DebtRowsOf(db: Db, studentId: Id, moduleId: Id, l: DebtSessionLink): seq<Combined>
  {
    if l.studentId != studentId then []
    else match FindSession(db, l.sessionId)
      case None => []
      case Some(s) =>
        if s.moduleId != moduleId then []
        else Repeat(Combined(s.id, s.moduleId, s.kind, s.profId, true), DebtModuleRows(db, studentId, s.moduleId))
  }

  /** student_debt_sessions. */
  function DebtPart(db: Db, studentId: Id, moduleId: Id): (rows: seq<Combined>)
    ensures forall c :: c in rows ==>
              c.isDebt && c.moduleId == moduleId
              && (exists l :: l in db.debtSessions && l.studentId == studentId && l.sessionId == c.sessionId)
              && (exists m :: m in db.debtModules && m.studentId == studentId && m.moduleId == moduleId)
              && exists s :: s in db.sessions && s.id == c.sessionId && s.kind == c.kind && s.profId == c.profId
    ensures forall l :: l in db.debtSessions && l.studentId == studentId
                        && FindSession(db, l.sessionId).Some? && FindSession(db, l.sessionId).value.moduleId == moduleId
                        && (exists m :: m in db.debtModules && m.studentId == studentId && m.moduleId == moduleId) ==>
              var s := FindSession(db, l.sessionId).value;
              Combined(s.id, s.moduleId, s.kind, s.profId, true) in rows
  {
    var f := (l: DebtSessionLink) => DebtRowsOf(db, studentId, moduleId, l);
    var rows := FlatMap(db.debtSessions, f);
    forall l | l in db.debtSessions && l.studentId == studentId
               && FindSession(db, l.sessionId).Some? && FindSession(db, l.sessionId).value.moduleId == moduleId
               && (exists m :: m in db.debtModules && m.studentId == studentId && m.moduleId == moduleId)
      ensures var s := FindSession(db, l.sessionId).value; Combined(s.id, s.moduleId, s.kind, s.profId, true) in rows
    {
      var s := FindSession(db, l.sessionId).value;
      assert DebtModuleRows(db, studentId, s.moduleId) > 0;
      assert f(l)[0] == Combined(s.id, s.moduleId, s.kind, s.profId, true);
      FlatMapMember(db.debtSessions, f, f(l)[0]);
    }
    forall c | c in rows
      ensures c.isDebt && c.moduleId == moduleId
              && (exists l :: l in db.debtSessions && l.studentId == studentId && l.sessionId == c.sessionId)
              && (exists m :: m in db.debtModules && m.studentId == studentId && m.moduleId == moduleId)
              && exists s :: s in db.sessions && s.id == c.sessionId && s.kind == c.kind && s.profId == c.profId
    {
      FlatMapMember(db.debtSessions, f, c);
      var l :| l in db.debtSessions && c in f(l);
      var s := FindSession(db, l.sessionId).value;
      assert c == Combined(s.id, s.moduleId, s.kind, s.profId, true);
    }
    rows
  }

  /** With session ids unique, every debt session the student owes in a
      module whose debt row they also have is among the debt rows. */
  lemma DebtSessionListed(db: Db, studentId: Id, moduleId: Id, l: DebtSessionLink, s: Session)
    requires SessionKeys(db)
    requires l in db.debtSessions && l.studentId == studentId
    requires s in db.sessions && s.id == l.sessionId && s.moduleId == moduleId
    requires exists m :: m in db.debtModules && m.studentId == studentId && m.moduleId == moduleId
    ensures Combined(s.id, moduleId, s.kind, s.profId, true) in DebtPart(db, studentId, moduleId)
  {
    SessionIdsUnique(db, FindSession(db, l.sessionId).value, s);
  }

  /** all_course_sessions: every lecture of the module. */
  function CoursPart(db: Db, moduleId: Id): (rows: seq<Combined>)
    ensures forall c :: c in rows <==>
              exists s :: s in db.sessions && s.moduleId == moduleId && s.kind == Cours
                          && c == Combined(s.id, s.moduleId, s.kind, s.profId, false)
  {
    var f := (s: Session) =>
      if s.moduleId == moduleId && s.kind == Cours then Some(Combined(s.id, s.moduleId, s.kind, s.profId, false)) else None;
    forall c ensures c in Collect(db.sessions, f) <==> exists s :: s in db.sessions && f(s) == Some(c) {
      CollectMember(db.sessions, f, c);
    }
    Collect(db.sessions, f)
  }

  /** should_include_courses: no debt session of the student is a lecture. */
  predicate IncludeFallback(db: Db, studentId: Id, moduleId: Id)
  {
    !exists c :: c in DebtPart(db, studentId, moduleId) && c.kind == Cours
  }

  /** combined_sessions: the debt rows, then every lecture of the module
      unless a debt row already is one (UNION ALL keeps repeats). */
  function CombinedSessions(db: Db, studentId: Id, moduleId: Id): (rows: seq<Combined>)
    ensures forall c :: c in rows && !c.isDebt <==>
              IncludeFallback(db, studentId, moduleId) && c in CoursPart(db, moduleId)
    ensures forall c :: c in rows && c.isDebt <==> c in DebtPart(db, studentId, moduleId)
  {
    DebtPart(db, studentId, moduleId) + (if IncludeFallback(db, studentId, moduleId) then CoursPart(db, moduleId) else [])
  }

  /** The COUNT and SUM of the title_progress group (session, debt flag). */
  function GroupCounts(db: Db, rows: seq<Combined>, sessionId: Id, isDebt: bool): (c: Counts)
    ensures c.completed <= c.total
    ensures c.total > 0 <==>
              exists r :: r in rows && r.sessionId == sessionId && r.isDebt == isDebt
                          && TitlesOf(db.titles, r.moduleId, r.kind) != []
  {
    if rows == [] then Counts(0, 0)
    else
      assert forall r :: r in rows <==> r == rows[0] || r in rows[1..];
      var rest := GroupCounts(db, rows[1..], sessionId, isDebt);
      if rows[0].sessionId != sessionId || rows[0].isDebt != isDebt then rest
      else
        var c := SessionCounts(db, sessionId, rows[0].moduleId, rows[0].kind);
        Counts(c.total + rest.total, c.completed + rest.completed)
  }

  function ProgressOfGroup(c: Counts): (p: Progress)
    requires c.completed <= c.total
    ensures p.completed == c.completed && p.total == c.total && p.percentage <= 100
    ensures c.total == 0 ==> p.percentage == 0
    ensures p.percentage == Percent(c.completed, c.total)
    ensures c.total > 0 ==> 2 * p.percentage * c.total <= 200 * c.completed + c.total < 2 * p.percentage * c.total + 2 * c.total
  {
    PercentAtMost100(c.completed, c.total);
    Progress(c.completed, c.total, Percent(c.completed, c.total))
  }

  /** A title_progress group: its is_debt_session key and its progress. */
  datatype ProgressGroup = ProgressGroup(isDebt: bool, progress: Progress)

  /** The title_progress groups a row of combined_sessions joins on its
      session id: the debt group, then the lecture group, each when it has a
      title row. */
  function GroupsOf(db: Db, rows: seq<Combined>, sessionId: Id): (r: seq<ProgressGroup>)
    ensures |r| <= 2
    ensures forall g :: g in r ==> g.progress.percentage <= 100 && g.progress.completed <= g.progress.total && g.progress.total > 0
    ensures forall g :: g in r ==>
              && g.progress.total == GroupCounts(db, rows, sessionId, g.isDebt).total
              && g.progress.completed == GroupCounts(db, rows, sessionId, g.isDebt).completed
    ensures forall g :: g in r ==> g.progress == ProgressOfGroup(GroupCounts(db, rows, sessionId, g.isDebt))
    ensures r == [] <==> GroupCounts(db, rows, sessionId, true).total == 0 && GroupCounts(db, rows, sessionId, false).total == 0
  {
    var d := GroupCounts(db, rows, sessionId, true);
    var n := GroupCounts(db, rows, sessionId, false);
    var dg := if d.total > 0 then [ProgressGroup(true, ProgressOfGroup(d))] else [];
    var ng := if n.total > 0 then [ProgressGroup(false, ProgressOfGroup(n))] else [];
    assert forall g :: g in dg + ng ==> g.progress == ProgressOfGroup(GroupCounts(db, rows, sessionId, g.isDebt)) by {
      forall g | g in dg + ng
        ensures g.progress == ProgressOfGroup(GroupCounts(db, rows, sessionId, g.isDebt))
      {
        if g in dg { assert g == ProgressGroup(true, ProgressOfGroup(d)); }
        else { assert g == ProgressGroup(false, ProgressOfGroup(n)); }
      }
    }
    dg + ng
  }

  /** A session never has both a debt group and a lecture group: a lecture
      owed as debt switches the lecture fallback off. */
  lemma OneGroupPerSession(db: Db, studentId: Id, moduleId: Id, sessionId: Id)
    requires SessionKeys(db)
    ensures |GroupsOf(db, CombinedSessions(db, studentId, moduleId), sessionId)| <= 1
  {
    var rows := CombinedSessions(db, studentId, moduleId);
    var d := GroupCounts(db, rows, sessionId, true);
    var n := GroupCounts(db, rows, sessionId, false);
    if d.total > 0 && n.total > 0 {
      var a :| a in rows && a.sessionId == sessionId && a.isDebt && TitlesOf(db.titles, a.moduleId, a.kind) != [];
      var b :| b in rows && b.sessionId == sessionId && !b.isDebt && TitlesOf(db.titles, b.moduleId, b.kind) != [];
      var s :| s in db.sessions && s.moduleId == moduleId && s.kind == Cours
               && b == Combined(s.id, s.moduleId, s.kind, s.profId, false);
      assert a in DebtPart(db, studentId, moduleId);
      var s2 :| s2 in db.sessions && s2.id == a.sessionId && s2.kind == a.kind && s2.profId == a.profId;
      SessionIdsUnique(db, s, s2);
      assert false;
    }
  }

  /** session_id is the primary key of Session. */
  ghost predicate SessionKeys(db: Db)
  {
    forall i, j :: 0 <= i < |db.sessions| && 0 <= j < |db.sessions| && db.sessions[i].id == db.sessions[j].id ==> i == j
  }

  lemma SessionIdsUnique(db: Db, s: Session, s2: Session)
    requires SessionKeys(db)
    requires s in db.sessions && s2 in db.sessions && s.id == s2.id
    ensures s == s2
  {
    var i :| 0 <= i < |db.sessions| && db.sessions[i] == s;
    var j :| 0 <= j < |db.sessions| && db.sessions[j] == s2;
  }

  /** One row of the debt-sessions route. The is_debt_session it outputs
      comes from the joined title_progress group, so it is absent with the
      progress; `listedDebt` is the combined row's flag, which orders the
      rows. */
  datatype DebtRow = DebtRow(moduleName: string, kind: string, profId: Id, progress: Option<Progress>,
                             sessionId: Id, isDebt: Option<bool>, listedDebt: bool)

  /** A combined row with its module and professor, once per group it joins
      (once with no progress when it joins none). */
  function DebtRowsFor(db: Db, rows: seq<Combined>, c: Combined): (r: seq<DebtRow>)
    ensures |r| > 0 <==> FindModule(db, c.moduleId).Some? && c.profId in db.professors
    ensures forall x :: x in r ==> x.sessionId == c.sessionId && x.listedDebt == c.isDebt && x.kind == c.kind
    ensures forall x :: x in r ==> (x.isDebt.None? <==> x.progress.None?)
    ensures forall x :: x in r ==> (x.isDebt.None? <==> GroupsOf(db, rows, c.sessionId) == [])
    ensures forall x :: x in r && x.isDebt.Some? ==> GroupCounts(db, rows, c.sessionId, x.isDebt.value).total > 0
    ensures forall x :: x in r && x.isDebt.Some? ==>
              x.progress == Some(ProgressOfGroup(GroupCounts(db, rows, c.sessionId, x.isDebt.value)))
    ensures |r| > 0 ==> |r| == (if GroupsOf(db, rows, c.sessionId) == [] then 1 else |GroupsOf(db, rows, c.sessionId)|)
  {
    match FindModule(db, c.moduleId)
    case None => []
    case Some(m) =>
      if c.profId !in db.professors then []
      else
        var gs := GroupsOf(db, rows, c.sessionId);
        if gs == [] then [DebtRow(m.name, c.kind, c.profId, None, c.sessionId, None, c.isDebt)]
        else RowsOfGroups(m.name, c, gs)
  }

  /** The output row of one progress group. */
  function DebtRowOfGroup(moduleName: string, c: Combined, g: ProgressGroup): DebtRow
  {
    DebtRow(moduleName, c.kind, c.profId, Some(g.progress), c.sessionId, Some(g.isDebt), c.isDebt)
  }

  /** One output row per progress group of the session. */
  function RowsOfGroups(moduleName: string, c: Combined, gs: seq<ProgressGroup>): (r: seq<DebtRow>)
    ensures |r| == |gs|
    ensures forall x :: x in r ==> exists g :: g in gs && x == DebtRowOfGroup(moduleName, c, g)
  {
    var r := seq(|gs|, i requires 0 <= i < |gs| => DebtRowOfGroup(moduleName, c, gs[i]));
    assert forall x :: x in r ==> exists g :: g in gs && x == DebtRowOfGroup(moduleName, c, g) by {
      forall x | x in r
        ensures exists g :: g in gs && x == DebtRowOfGroup(moduleName, c, g)
      {
        var i :| 0 <= i < |r| && r[i] == x;
        assert gs[i] in gs;
      }
    }
    r
  }

  /** The is_debt_session a row outputs is null exactly when no combined row
      of its session has a title of its module and type; otherwise it is the
      flag of a combined row of that session that has one. */
  lemma DebtFlagFromGroup(db: Db, rows: seq<Combined>, c: Combined, x: DebtRow)
    requires x in DebtRowsFor(db, rows, c)
    ensures x.isDebt.None? <==>
              forall e :: e in rows && e.sessionId == c.sessionId ==> TitlesOf(db.titles, e.moduleId, e.kind) == []
    ensures x.isDebt.Some? ==>
              exists e :: e in rows && e.sessionId == c.sessionId && e.isDebt == x.isDebt.value
                          && TitlesOf(db.titles, e.moduleId, e.kind) != []
  {
    var d := GroupCounts(db, rows, c.sessionId, true);
    var n := GroupCounts(db, rows, c.sessionId, false);
    if exists e :: e in rows && e.sessionId == c.sessionId && TitlesOf(db.titles, e.moduleId, e.kind) != [] {
      var e :| e in rows && e.sessionId == c.sessionId && TitlesOf(db.titles, e.moduleId, e.kind) != [];
      assert GroupCounts(db, rows, c.sessionId, e.isDebt).total > 0;
    }
  }

  /** ORDER BY is_debt_session DESC, type, session_id. */
  predicate DebtFirst(a: DebtRow, b: DebtRow)
  {
    && (a.listedDebt || !b.listedDebt)
    && (a.listedDebt == b.listedDebt ==> LexLe(a.kind, b.kind) && (LexLe(b.kind, a.kind) ==> a.sessionId <= b.sessionId))
  }

  lemma DebtFirstTotalPreorder()
    ensures TotalPreorder(DebtFirst)
  {
    forall a, b ensures DebtFirst(a, b) || DebtFirst(b, a) {
      LexLeTotal(a.kind, b.kind);
    }
    forall a, b, c | DebtFirst(a, b) && DebtFirst(b, c) ensures DebtFirst(a, c) {
      if a.listedDebt == b.listedDebt && b.listedDebt == c.listedDebt {
        LexLeTransitive(a.kind, b.kind, c.kind);
        if LexLe(c.kind, a.kind) {
          LexLeTransitive(c.kind, a.kind, b.kind);
          LexLeTransitive(b.kind, c.kind, a.kind);
        }
      }
    }
  }

  datatype DebtSessionsResponse = NoDebtSessions | DebtSessions(rows: seq<DebtRow>)

  /** The debt-sessions route: 404 when no row comes out. */
  function StudentDebtSessions(db: Db, studentId: Id, moduleId: Id): (r: DebtSessionsResponse)
    ensures r.DebtSessions? ==> |r.rows| > 0 && SortedBy(r.rows, DebtFirst)
    ensures r.NoDebtSessions? <==>
              forall c :: c in CombinedSessions(db, studentId, moduleId) ==>
                FindModule(db, c.moduleId).None? || c.profId !in db.professors
    ensures r.DebtSessions? ==>
              forall x :: x in r.rows <==>
                exists c :: c in CombinedSessions(db, studentId, moduleId)
                            && x in DebtRowsFor(db, CombinedSessions(db, studentId, moduleId), c)
  {
    var rows := SortedDebtRows(db, CombinedSessions(db, studentId, moduleId));
    if |rows| == 0 then NoDebtSessions else DebtSessions(rows)
  }

  /** The rows of every combined row, ordered debt first. */
  function SortedDebtRows(db: Db, combined: seq<Combined>): (rows: seq<DebtRow>)
    ensures SortedBy(rows, DebtFirst)
    ensures forall x :: x in rows <==> exists c :: c in combined && x in DebtRowsFor(db, combined, c)
    ensures |rows| == 0 <==> forall c :: c in combined ==> FindModule(db, c.moduleId).None? || c.profId !in db.professors
  {
    var f := (c: Combined) => DebtRowsFor(db, combined, c);
    var all := FlatMap(combined, f);
    var rows := SortBy(all, DebtFirst);
    forall x ensures x in rows <==> exists c :: c in combined && x in f(c) {
      FlatMapMember(combined, f, x);
      SortByMember(all, DebtFirst, x);
    }
    DebtFirstTotalPreorder();
    SortBySorted(all, DebtFirst);
    FlatMapEmpty(combined, f);
    rows
  }

  /** A row marked as debt comes from a debt session of the student whose
      module the student also owes. */
  lemma DebtRowsNeedDebtModule(db: Db, studentId: Id, moduleId: Id, x: DebtRow)
    requires StudentDebtSessions(db, studentId, moduleId).DebtSessions?
    requires x in StudentDebtSessions(db, studentId, moduleId).rows && x.listedDebt
    ensures exists l :: l in db.debtSessions && l.studentId == studentId && l.sessionId == x.sessionId
    ensures exists m :: m in db.debtModules && m.studentId == studentId && m.moduleId == moduleId
  {
    var combined := CombinedSessions(db, studentId, moduleId);
    var c :| c in combined && x in DebtRowsFor(db, combined, c);
    assert c in DebtPart(db, studentId, moduleId);
  }

  /** The lectures of the module are listed, as non-debt rows, exactly when
      no debt session of the student is a lecture. */
  lemma FallbackIff(db: Db, studentId: Id, moduleId: Id, s: Session)
    requires s in db.sessions && s.moduleId == moduleId && s.kind == Cours
    requires FindModule(db, moduleId).Some? && s.profId in db.professors
    ensures (exists x: DebtRow :: x in FlatMap(CombinedSessions(db, studentId, moduleId),
                                       (c: Combined) => DebtRowsFor(db, CombinedSessions(db, studentId, moduleId), c))
                         && x.sessionId == s.id && !x.listedDebt)
            <==> IncludeFallback(db, studentId, moduleId)
  {
    var combined := CombinedSessions(db, studentId, moduleId);
    var f := (c: Combined) => DebtRowsFor(db, combined, c);
    var c := Combined(s.id, s.moduleId, s.kind, s.profId, false);
    if IncludeFallback(db, studentId, moduleId) {
      assert c in CoursPart(db, moduleId);
      assert c in combined;
      var x := f(c)[0];
      FlatMapMember(combined, f, x);
    }
    if exists x: DebtRow :: x in FlatMap(combined, f) && x.sessionId == s.id && !x.listedDebt {
      var x: DebtRow :| x in FlatMap(combined, f) && x.sessionId == s.id && !x.listedDebt;
      FlatMapMember(combined, f, x);
      var c' :| c' in combined && x in f(c');
      assert c' in combined && !c'.isDebt;
    }
  }
}
