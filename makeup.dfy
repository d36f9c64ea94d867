/** The makeup routes: a student's absences with their status and progress,
    the makeup sessions offered for one absence, the choice of one of them,
    and the absence percentage. */
module Makeup {
  import opened Common
  import opened Tables
  import opened Sorting
  import opened Rollup

  // ===========================================================================
  // Absences with status and progress, grouped by module.

  const AwaitingResponse: string := "Awaiting response"
  const Compensated: string := "Compensated"
  const Absent: string := "Absent"

  /** One row of the absent-sessions query. `percent`, `counts` are the
      session's title progress, 0 when the session has no titles. */
  datatype AbsentRow = AbsentRow(
    attendanceId: Id, occurrenceId: Id, sessionId: Id, moduleId: Id, moduleName: string,
    kind: string, day: string, startTime: seq<Seconds>, endTime: seq<Seconds>, date: int,
    status: string, counts: Counts, percent: nat)

  /** The CASE of the status column: a compensation request's own status when
      the LEFT JOIN found one, else "Compensated" for a made-up absence, else "Absent". */
  function AbsenceStatus(request: Option<CompensationRequest>, isMakeup: bool): string
  {
    if request.Some? then request.value.status
    else if isMakeup then Compensated
    else Absent
  }

  /** The compensation requests filed for an attendance row, in table order. */
  function RequestsFor(requests: seq<CompensationRequest>, attendanceId: Id): (r: seq<CompensationRequest>)
    ensures forall i :: 0 <= i < |r| ==> r[i] in requests && r[i].attendanceId == attendanceId
    ensures forall c :: c in requests && c.attendanceId == attendanceId ==> c in r
  {
    if requests == [] then []
    else (if requests[0].attendanceId == attendanceId then [requests[0]] else [])
         + RequestsFor(requests[1..], attendanceId)
  }

  /** The rows one attendance row contributes: none when a join fails, one per
      compensation request, or a single row when there is no request. */
  function AbsentRowsOf(db: Db, a: Attendance): (rows: seq<AbsentRow>)
  {
    match FindOccurrence(db, a.occurrenceId)
    case None => []
    case Some(o) =>
      match FindSession(db, o.sessionId)
      case None => []
      case Some(s) =>
        match FindModule(db, s.moduleId)
        case None => []
        case Some(m) =>
          match FindDayTime(db, s.timeId)
          case None => []
          case Some(dt) =>
            var c := SessionCounts(db, s.id, s.moduleId, s.kind);
            var rs := RequestsFor(db.requests, a.id);
            var statuses := if rs == [] then [AbsenceStatus(None, a.isMakeup)]
                            else seq(|rs|, i requires 0 <= i < |rs| => AbsenceStatus(Some(rs[i]), a.isMakeup));
            seq(|statuses|, i requires 0 <= i < |statuses| =>
              AbsentRow(a.id, o.id, s.id, m.id, m.name, s.kind, dt.day, dt.startTime, dt.endTime,
                        o.date, statuses[i], c, Percent(c.completed, c.total)))
  }

  /** Whether every join of an attendance row succeeds. */
  predicate Joins(db: Db, a: Attendance)
  {
    var o := FindOccurrence(db, a.occurrenceId);
    o.Some? && FindSession(db, o.value.sessionId).Some? &&
    FindModule(db, FindSession(db, o.value.sessionId).value.moduleId).Some? &&
    FindDayTime(db, FindSession(db, o.value.sessionId).value.timeId).Some?
  }

  /** An attendance row whose joins fail shows no row. */
  lemma NoJoinNoRows(db: Db, a: Attendance)
    requires !Joins(db, a)
    ensures AbsentRowsOf(db, a) == []
  {
  }

  /** An absence shows once per compensation request filed for it, or once with
      the made-up/absent status when none is; every row carries the attendance's
      own ids and the progress of its session. */
  lemma AbsentRowsOfShape(db: Db, a: Attendance)
    requires Joins(db, a)
    ensures var rs := RequestsFor(db.requests, a.id);
            var rows := AbsentRowsOf(db, a);
            |rows| == (if rs == [] then 1 else |rs|) &&
            (forall i :: 0 <= i < |rows| ==>
              rows[i].attendanceId == a.id && rows[i].occurrenceId == a.occurrenceId &&
              rows[i].status == (if rs == [] then (if a.isMakeup then Compensated else Absent) else rs[i].status) &&
              rows[i].percent == Percent(rows[i].counts.completed, rows[i].counts.total) &&
              rows[i].percent <= 100)
  {
    var rows := AbsentRowsOf(db, a);
    forall i | 0 <= i < |rows|
      ensures rows[i].percent <= 100
    {
      PercentAtMost100(rows[i].counts.completed, rows[i].counts.total);
    }
  }

  /** The absent rows of the student's absences among `rows`, in their order. */
  function AbsentRowsFrom(db: Db, rows: seq<Attendance>, studentId: Id): seq<AbsentRow>
  {
    FlatMap(Filter(rows, (a: Attendance) => a.studentId == studentId && !a.present), (a: Attendance) => AbsentRowsOf(db, a))
  }

  lemma AbsentRowsFromMember(db: Db, rows: seq<Attendance>, studentId: Id, r: AbsentRow)
    ensures r in AbsentRowsFrom(db, rows, studentId) <==>
      exists a :: a in rows && a.studentId == studentId && !a.present && r in AbsentRowsOf(db, a)
  {
    var absent := (a: Attendance) => a.studentId == studentId && !a.present;
    var f := (a: Attendance) => AbsentRowsOf(db, a);
    FlatMapMember(Filter(rows, absent), f, r);
    forall a ensures a in Filter(rows, absent) <==> a in rows && absent(a) {
      FilterMember(rows, absent, a);
    }
  }

  /** ORDER BY session_date DESC, "startTime" DESC. */
  predicate LaterFirst(x: AbsentRow, y: AbsentRow)
  {
    x.date > y.date || (x.date == y.date && ArrayLe(y.startTime, x.startTime))
  }

  lemma LaterFirstTotalPreorder()
    ensures TotalPreorder(LaterFirst)
  {
    forall a, b ensures LaterFirst(a, b) || LaterFirst(b, a) {
      ArrayLeTotal(a.startTime, b.startTime);
    }
    forall a, b, c | LaterFirst(a, b) && LaterFirst(b, c) ensures LaterFirst(a, c) {
      if a.date == b.date && b.date == c.date {
        ArrayLeTransitive(c.startTime, b.startTime, a.startTime);
      }
    }
  }

  /** The absent-sessions query: the student's absences, latest first. */
  function AbsentSessions(db: Db, studentId: Id): (rows: seq<AbsentRow>)
    ensures forall r :: r in rows <==>
      exists a :: a in db.attendance && a.studentId == studentId && !a.present && r in AbsentRowsOf(db, a)
    ensures SortedBy(rows, LaterFirst)
  {
    var rows := SortBy(AbsentRowsFrom(db, db.attendance, studentId), LaterFirst);
    forall r ensures r in rows <==>
      exists a :: a in db.attendance && a.studentId == studentId && !a.present && r in AbsentRowsOf(db, a)
    {
      AbsentRowsFromMember(db, db.attendance, studentId, r);
      assert r in rows <==> r in multiset(rows);
    }
    LaterFirstTotalPreorder();
    SortBySorted(AbsentRowsFrom(db, db.attendance, studentId), LaterFirst);
    rows
  }

  /** "HH:MM" of element 0 of a time array, or null when the array is empty. */
  function FormatPgArrayTime(a: seq<Seconds>): (r: Option<string>)
    ensures r.None? <==> |a| == 0
    ensures r.Some? ==> r.value == TimeText(a[0])[..5]
    ensures r.Some? ==>
      && |r.value| == 5 && r.value[2] == ':'
      && IsDigits(r.value[..2]) && ParseDecimal(r.value[..2]) == a[0] / 3600
      && IsDigits(r.value[3..]) && ParseDecimal(r.value[3..]) == a[0] % 3600 / 60
  {
    if |a| == 0 then None
    else
      var t := a[0];
      var h, m := Pad2(t / 3600), Pad2(t % 3600 / 60);
      assert TimeText(t)[..5] == h + ":" + m;
      assert (h + ":" + m)[..2] == h && (h + ":" + m)[3..] == m;
      Some(TimeText(t)[..5])
  }

  /** The absences of one module, in the order they were listed. */
  datatype ModuleGroup = ModuleGroup(moduleId: Id, moduleName: string, absences: seq<AbsentRow>)

  function RowsOfModule(rows: seq<AbsentRow>, moduleId: Id): (r: seq<AbsentRow>)
    ensures forall i :: 0 <= i < |r| ==> r[i] in rows && r[i].moduleId == moduleId
    ensures forall x :: x in rows && x.moduleId == moduleId ==> x in r
    ensures (forall x :: x in rows ==> x.moduleId != moduleId) ==> r == []
  {
    if rows == [] then []
    else RowsOfModule(rows[..|rows| - 1], moduleId)
         + (if rows[|rows| - 1].moduleId == moduleId then [rows[|rows| - 1]] else [])
  }

  /** `k` placed into an ascending list of distinct keys. */
  function InsertKey(k: Id, keys: seq<Id>): (r: seq<Id>)
    requires forall i, j :: 0 <= i < j < |keys| ==> keys[i] < keys[j]
    requires k !in keys
    ensures forall i, j :: 0 <= i < j < |r| ==> r[i] < r[j]
    ensures forall x :: x in r <==> x in keys || x == k
  {
    if keys == [] || k < keys[0] then [k] + keys
    else
      var rest := InsertKey(k, keys[1..]);
      forall x | x in rest
        ensures keys[0] < x
      {
        if x != k {
          var j :| 0 <= j < |keys[1..]| && keys[1..][j] == x;
          assert keys[j + 1] == x;
        }
      }
      var r := [keys[0]] + rest;
      forall i, j | 0 <= i < j < |r|
        ensures r[i] < r[j]
      {
        assert r[j] == rest[j - 1] && rest[j - 1] in rest;
        if i > 0 {
          assert r[i] == rest[i - 1];
        }
      }
      r
  }

  /** `g` is the group of module `k` after the rows `seen`: their rows of
      that module, in order, under the name on the first of them. */
  ghost predicate IsGroupOf(seen: seq<AbsentRow>, k: Id, g: ModuleGroup)
  {
    g.moduleId == k && g.absences == RowsOfModule(seen, k) &&
    |g.absences| > 0 && g.moduleName == g.absences[0].moduleName
  }

  /** The keys of the groups built from the rows `seen`: every module seen
      has one, and `order` lists them ascending. */
  ghost predicate KeysOf(seen: seq<AbsentRow>, order: seq<Id>, groups: map<Id, ModuleGroup>)
  {
    && (forall j :: 0 <= j < |seen| ==> seen[j].moduleId in groups)
    && (forall k :: k in groups <==> k in order)
    && (forall i, j :: 0 <= i < j < |order| ==> order[i] < order[j])
  }

  /** Each group built from the rows `seen` is right. */
  ghost predicate GroupsOf(seen: seq<AbsentRow>, groups: map<Id, ModuleGroup>)
  {
    forall k :: k in groups ==> IsGroupOf(seen, k, groups[k])
  }

  lemma RowsOfModuleStep(rows: seq<AbsentRow>, i: nat, k: Id)
    requires i < |rows|
    ensures RowsOfModule(rows[..i + 1], k) == RowsOfModule(rows[..i], k) + (if rows[i].moduleId == k then [rows[i]] else [])
  {
    assert rows[..i + 1][..i] == rows[..i];
  }

  /** A group after one more row, of its module or of another one. */
  lemma IsGroupOfStep(rows: seq<AbsentRow>, i: nat, k: Id, g: ModuleGroup)
    requires i < |rows| && IsGroupOf(rows[..i], k, g)
    ensures IsGroupOf(rows[..i + 1], k, if rows[i].moduleId == k then g.(absences := g.absences + [rows[i]]) else g)
  {
    RowsOfModuleStep(rows, i, k);
  }

  /** The group a module's first row creates. */
  lemma IsGroupOfFirst(rows: seq<AbsentRow>, i: nat)
    requires i < |rows|
    requires forall j :: 0 <= j < i ==> rows[j].moduleId != rows[i].moduleId
    ensures IsGroupOf(rows[..i + 1], rows[i].moduleId, ModuleGroup(rows[i].moduleId, rows[i].moduleName, [rows[i]]))
  {
    RowsOfModuleStep(rows, i, rows[i].moduleId);
    forall x | x in rows[..i] ensures x.moduleId != rows[i].moduleId {
      var j :| 0 <= j < i && rows[..i][j] == x;
    }
  }

  /** A row of a module already seen goes to the end of its group. */
  lemma StepAppend(rows: seq<AbsentRow>, i: nat, order: seq<Id>, groups: map<Id, ModuleGroup>)
    requires i < |rows| && rows[i].moduleId in groups
    requires KeysOf(rows[..i], order, groups) && GroupsOf(rows[..i], groups)
    ensures var k := rows[i].moduleId;
            var after := groups[k := groups[k].(absences := groups[k].absences + [rows[i]])];
            KeysOf(rows[..i + 1], order, after) && GroupsOf(rows[..i + 1], after)
  {
    var k := rows[i].moduleId;
    var after := groups[k := groups[k].(absences := groups[k].absences + [rows[i]])];
    KeysStep(rows, i, order, groups, order, after);
    forall k' | k' in after
      ensures IsGroupOf(rows[..i + 1], k', after[k'])
    {
      IsGroupOfStep(rows, i, k', groups[k']);
    }
  }

  /** The keys after one more row: its module's key is there and placed. */
  lemma KeysStep(rows: seq<AbsentRow>, i: nat, order0: seq<Id>, groups0: map<Id, ModuleGroup>,
                 order: seq<Id>, groups: map<Id, ModuleGroup>)
    requires i < |rows| && KeysOf(rows[..i], order0, groups0)
    requires forall k :: k in groups <==> k in groups0 || k == rows[i].moduleId
    requires forall k :: k in order <==> k in order0 || k == rows[i].moduleId
    requires forall a, b :: 0 <= a < b < |order| ==> order[a] < order[b]
    ensures KeysOf(rows[..i + 1], order, groups)
  {
    var seen := rows[..i + 1];
    forall j | 0 <= j < |seen|
      ensures seen[j].moduleId in groups
    {
      if j < i {
        assert seen[j] == rows[..i][j];
      }
    }
  }

  /** The first row of a module creates its group and places its key. */
  lemma StepCreate(rows: seq<AbsentRow>, i: nat, order: seq<Id>, groups: map<Id, ModuleGroup>)
    requires i < |rows| && rows[i].moduleId !in groups
    requires KeysOf(rows[..i], order, groups) && GroupsOf(rows[..i], groups)
    ensures var k := rows[i].moduleId;
            var after := groups[k := ModuleGroup(k, rows[i].moduleName, [rows[i]])];
            KeysOf(rows[..i + 1], InsertKey(k, order), after) && GroupsOf(rows[..i + 1], after)
  {
    var k := rows[i].moduleId;
    var after := groups[k := ModuleGroup(k, rows[i].moduleName, [rows[i]])];
    KeysStep(rows, i, order, groups, InsertKey(k, order), after);
    forall k' | k' in after
      ensures IsGroupOf(rows[..i + 1], k', after[k'])
    {
      if k' == k {
        IsGroupOfFirst(rows, i);
      } else {
        IsGroupOfStep(rows, i, k', groups[k']);
      }
    }
  }

  /** The grouping reduce: one group per module, created at its first absence
      and appended to in order. `order` lists the modules as Object.values
      enumerates integer keys, ascending. */
  method GroupByModule(rows: seq<AbsentRow>) returns (order: seq<Id>, groups: map<Id, ModuleGroup>)
    ensures forall r :: r in rows ==> r.moduleId in groups
    ensures forall k :: k in groups <==> k in order
    ensures forall i, j :: 0 <= i < j < |order| ==> order[i] < order[j]
    ensures forall k :: k in groups ==> IsGroupOf(rows, k, groups[k])
  {
    order, groups := [], map[];
    var i := 0;
    while i < |rows|
      invariant 0 <= i <= |rows|
      invariant KeysOf(rows[..i], order, groups)
      invariant GroupsOf(rows[..i], groups)
    {
      var r := rows[i];
      var k := r.moduleId;
      if k in groups {
        var g := groups[k].(absences := groups[k].absences + [r]);
        StepAppend(rows, i, order, groups);
        groups := groups[k := g];
      } else {
        var g := ModuleGroup(k, r.moduleName, [r]);
        StepCreate(rows, i, order, groups);
        order := InsertKey(k, order);
        groups := groups[k := g];
      }
      i := i + 1;
    }
    assert rows[..i] == rows;
  }

  /** The absent-sessions-with-progress route: the student's absences grouped by
      module, modules in ascending id order, each group's absences latest first. */
  method AbsentSessionsWithProgress(db: Db, studentId: Id) returns (data: seq<ModuleGroup>)
    ensures forall i, j :: 0 <= i < j < |data| ==> data[i].moduleId < data[j].moduleId
    ensures forall i :: 0 <= i < |data| ==>
      data[i].absences == RowsOfModule(AbsentSessions(db, studentId), data[i].moduleId) &&
      |data[i].absences| > 0
    ensures forall r :: r in AbsentSessions(db, studentId) ==>
      exists i :: 0 <= i < |data| && data[i].moduleId == r.moduleId && r in data[i].absences
  {
    var rows := AbsentSessions(db, studentId);
    var order, groups := GroupByModule(rows);
    data := seq(|order|, i requires 0 <= i < |order| => groups[order[i]]);
    GroupsListed(rows, order, groups, data);
  }

  /** Object.values(grouped): the groups in key order, which cover every row. */
  lemma GroupsListed(rows: seq<AbsentRow>, order: seq<Id>, groups: map<Id, ModuleGroup>, data: seq<ModuleGroup>)
    requires forall r :: r in rows ==> r.moduleId in groups
    requires forall k :: k in groups <==> k in order
    requires forall i, j :: 0 <= i < j < |order| ==> order[i] < order[j]
    requires forall k :: k in groups ==> IsGroupOf(rows, k, groups[k])
    requires |data| == |order| && forall i :: 0 <= i < |order| ==> order[i] in groups && data[i] == groups[order[i]]
    ensures forall i, j :: 0 <= i < j < |data| ==> data[i].moduleId < data[j].moduleId
    ensures forall i :: 0 <= i < |data| ==>
      data[i].absences == RowsOfModule(rows, data[i].moduleId) && |data[i].absences| > 0
    ensures forall r :: r in rows ==>
      exists i :: 0 <= i < |data| && data[i].moduleId == r.moduleId && r in data[i].absences
  {
    forall r | r in rows
      ensures exists i :: 0 <= i < |data| && data[i].moduleId == r.moduleId && r in data[i].absences
    {
      var i :| 0 <= i < |order| && order[i] == r.moduleId;
      assert IsGroupOf(rows, order[i], data[i]);
    }
  }

  // ===========================================================================
  // Makeup sessions offered for one absence.

  /** The absence a listing is computed for, with the date of the next
      occurrence of the same module after it, when there is one. */
  datatype AbsentInfo = AbsentInfo(
    attendanceId: Id, absentDate: int, moduleId: Id, kind: string, sessionId: Id,
    promotionId: Id, groupId: Option<Id>, moduleName: string, nextDate: Option<int>)

  /** Whether occurrence `o` joins a session of module `moduleId`. */
  predicate OfModule(db: Db, o: Occurrence, moduleId: Id)
  {
    var s := FindSession(db, o.sessionId);
    s.Some? && s.value.moduleId == moduleId
  }

  /** MIN(date) over the occurrences of module `moduleId` strictly after `after`; NULL when none. */
  function NextDate(db: Db, occs: seq<Occurrence>, moduleId: Id, after: int): (r: Option<int>)
    ensures r.None? <==> forall o :: o in occs && OfModule(db, o, moduleId) ==> o.date <= after
    ensures r.Some? ==>
      && r.value > after
      && (exists o :: o in occs && OfModule(db, o, moduleId) && o.date == r.value)
      && (forall o :: o in occs && OfModule(db, o, moduleId) && o.date > after ==> r.value <= o.date)
  {
    if occs == [] then None
    else
      var o := occs[0];
      var rest := NextDate(db, occs[1..], moduleId, after);
      assert occs == [o] + occs[1..];
      if OfModule(db, o, moduleId) && o.date > after then
        (if rest.Some? && rest.value < o.date then rest else Some(o.date))
      else rest
  }

  /** The attendance row `a`, the student's and marked absent, joined to its
      occurrence `o`, session `s` and module `m`, as the FROM clause joins them. */
  predicate AbsenceJoin(db: Db, attendanceId: Id, studentId: Id, a: Attendance, o: Occurrence, s: Session, m: Module)
  {
    && a in db.attendance && a.id == attendanceId && a.studentId == studentId && !a.present
    && o in db.occurrences && o.id == a.occurrenceId
    && s in db.sessions && s.id == o.sessionId
    && m in db.modules && m.id == s.moduleId
  }

  /** The selected columns of one joined absence. */
  function InfoOf(db: Db, a: Attendance, o: Occurrence, s: Session, m: Module): AbsentInfo
  {
    AbsentInfo(a.id, o.date, s.moduleId, s.kind, s.id, m.promotionId, s.groupId, m.name,
               NextDate(db, db.occurrences, s.moduleId, o.date))
  }

  /** The absence lookup: the student's own attendance row, marked absent, with
      its occurrence, session and module. */
  function FindAbsent(db: Db, attendanceId: Id, studentId: Id): (r: Option<AbsentInfo>)
    ensures r.Some? ==> exists a, o, s, m :: AbsenceJoin(db, attendanceId, studentId, a, o, s, m) && r.value == InfoOf(db, a, o, s, m)
    ensures r.None? <==>
      || FindAttendance(db, attendanceId).None?
      || FindAttendance(db, attendanceId).value.studentId != studentId
      || FindAttendance(db, attendanceId).value.present
      || FindOccurrence(db, FindAttendance(db, attendanceId).value.occurrenceId).None?
      || FindSession(db, FindOccurrence(db, FindAttendance(db, attendanceId).value.occurrenceId).value.sessionId).None?
      || FindModule(db, FindSession(db, FindOccurrence(db, FindAttendance(db, attendanceId).value.occurrenceId).value.sessionId).value.moduleId).None?
  {
    match FindAttendance(db, attendanceId)
    case None => None
    case Some(a) =>
      if a.studentId != studentId || a.present then None
      else
        match FindOccurrence(db, a.occurrenceId)
        case None => None
        case Some(o) =>
          match FindSession(db, o.sessionId)
          case None => None
          case Some(s) =>
            match FindModule(db, s.moduleId)
            case None => None
            case Some(m) =>
              assert AbsenceJoin(db, attendanceId, studentId, a, o, s, m);
              Some(InfoOf(db, a, o, s, m))
  }

  predicate HasMakeup(db: Db, attendanceId: Id)
  {
    exists l :: l in db.makeupLinks && l.attendanceId == attendanceId
  }

  predicate HasRequest(db: Db, attendanceId: Id)
  {
    exists c :: c in db.requests && c.attendanceId == attendanceId
  }

  /** The date range every busy source and every candidate is restricted to. */
  predicate InWindow(info: AbsentInfo, date: int)
  {
    date >= info.absentDate && (info.nextDate.None? || date <= info.nextDate.value)
  }

  /** A time the student is already taken: a date, a day name, and element 0 of
      the start and end arrays (NULL when the array is empty). */
  datatype BusyEntry = BusyEntry(date: int, day: string, start: Option<Seconds>, end: Option<Seconds>)

  function EntryAt(date: int, dt: DayTime): BusyEntry
  {
    BusyEntry(date, dt.day, Head(dt.startTime), Head(dt.endTime))
  }

  /** The student's group, when the student and the group both exist. */
  function GroupOf(db: Db, studentId: Id): (g: Option<Id>)
    ensures g.Some? ==> FindStudent(db, studentId).Some? && FindStudent(db, studentId).value.groupId == g
  {
    var st := FindStudent(db, studentId);
    if st.Some? && st.value.groupId.Some? && FindGroup(db, st.value.groupId.value).Some? then st.value.groupId
    else None
  }

  /** Source 1: an occurrence of the student's group that was not cancelled, at its usual slot. */
  function GroupBusy(db: Db, info: AbsentInfo, studentId: Id, o: Occurrence): Option<BusyEntry>
  {
    var s := FindSession(db, o.sessionId);
    var g := GroupOf(db, studentId);
    if s.Some? && g.Some? && s.value.groupId == g && !o.profAbsence && InWindow(info, o.date) then
      var dt := FindDayTime(db, s.value.timeId);
      if dt.Some? then Some(EntryAt(o.date, dt.value)) else None
    else None
  }

  /** Source 2: a cancelled occurrence of the student's group that was compensated, at the compensation slot. */
  function CompensationBusy(db: Db, info: AbsentInfo, studentId: Id, o: Occurrence): Option<BusyEntry>
  {
    var s := FindSession(db, o.sessionId);
    var g := GroupOf(db, studentId);
    if s.Some? && g.Some? && s.value.groupId == g && o.profAbsence && o.isCompensation
       && o.comDayTimeId.Some? && InWindow(info, o.date) then
      var dt := FindDayTime(db, o.comDayTimeId.value);
      if dt.Some? then Some(EntryAt(o.date, dt.value)) else None
    else None
  }

  /** Source 3: an occurrence the student joined as a makeup. */
  function MakeupBusy(db: Db, info: AbsentInfo, studentId: Id, o: Occurrence): Option<BusyEntry>
  {
    var s := FindSession(db, o.sessionId);
    if s.Some? && (exists l :: l in db.makeupLinks && l.studentId == studentId && l.occurrenceId == o.id)
       && InWindow(info, o.date) then
      var dt := FindDayTime(db, s.value.timeId);
      if dt.Some? then Some(EntryAt(o.date, dt.value)) else None
    else None
  }

  /** Source 4: an occurrence of a session the student holds as a debt session. */
  function DebtBusy(db: Db, info: AbsentInfo, studentId: Id, o: Occurrence): Option<BusyEntry>
  {
    var s := FindSession(db, o.sessionId);
    if s.Some? && (exists d :: d in db.debtSessions && d.studentId == studentId && d.sessionId == s.value.id)
       && InWindow(info, o.date) then
      var dt := FindDayTime(db, s.value.timeId);
      if dt.Some? then Some(EntryAt(o.date, dt.value)) else None
    else None
  }

  /** The busy times: the UNION ALL of the four sources. */
  function Busy(db: Db, info: AbsentInfo, studentId: Id): seq<BusyEntry>
  {
    Collect(db.occurrences, o => GroupBusy(db, info, studentId, o))
    + Collect(db.occurrences, o => CompensationBusy(db, info, studentId, o))
    + Collect(db.occurrences, o => MakeupBusy(db, info, studentId, o))
    + Collect(db.occurrences, o => DebtBusy(db, info, studentId, o))
  }

  /** An entry is busy exactly when one of the four sources yields it for some
      occurrence; every busy entry lies in the window. */
  lemma BusyMember(db: Db, info: AbsentInfo, studentId: Id, e: BusyEntry)
    ensures e in Busy(db, info, studentId) <==>
      exists o :: o in db.occurrences &&
        (GroupBusy(db, info, studentId, o) == Some(e) || CompensationBusy(db, info, studentId, o) == Some(e) ||
         MakeupBusy(db, info, studentId, o) == Some(e) || DebtBusy(db, info, studentId, o) == Some(e))
    ensures e in Busy(db, info, studentId) ==> InWindow(info, e.date)
  {
    CollectMember(db.occurrences, o => GroupBusy(db, info, studentId, o), e);
    CollectMember(db.occurrences, o => CompensationBusy(db, info, studentId, o), e);
    CollectMember(db.occurrences, o => MakeupBusy(db, info, studentId, o), e);
    CollectMember(db.occurrences, o => DebtBusy(db, info, studentId, o), e);
  }

  /** The half-open interval test of the overlap clause. */
  predicate Overlaps(start: int, end: int, busyStart: int, busyEnd: int)
  {
    start < busyEnd && end > busyStart
  }

  /** Instant `t` lies in the half-open interval [start, end). */
  predicate Within(t: int, start: int, end: int)
  {
    start <= t < end
  }

  /** For proper intervals, the test holds exactly when some instant lies in both. */
  lemma OverlapsIffCommonInstant(start: int, end: int, busyStart: int, busyEnd: int)
    requires start < end && busyStart < busyEnd
    ensures Overlaps(start, end, busyStart, busyEnd) <==>
      exists t :: Within(t, start, end) && Within(t, busyStart, busyEnd)
  {
    if Overlaps(start, end, busyStart, busyEnd) {
      var t := if start < busyStart then busyStart else start;
      assert Within(t, start, end) && Within(t, busyStart, busyEnd);
    }
  }

  /** One slot ending when the other starts does not overlap it, either way round. */
  lemma BackToBackNeverOverlap(start: int, end: int, busyStart: int, busyEnd: int)
    requires end == busyStart || busyEnd == start
    ensures !Overlaps(start, end, busyStart, busyEnd)
  {
  }

  /** The NOT EXISTS clause: same date, same day text, and overlapping element-0
      times; a NULL on either side makes the comparison fail. */
  predicate Conflicts(date: int, dt: DayTime, b: BusyEntry)
  {
    date == b.date && dt.day == b.day &&
    |dt.startTime| > 0 && |dt.endTime| > 0 && b.start.Some? && b.end.Some? &&
    Overlaps(dt.startTime[0], dt.endTime[0], b.start.value, b.end.value)
  }

  /** The distinct students counted against a session's room. */
  function GroupStudents(db: Db, groupId: Id): set<Id>
  {
    set st | st in db.students && st.groupId == Some(groupId) :: st.matricule
  }

  function MakeupStudents(db: Db, sessionId: Id): set<Id>
  {
    set l, o | l in db.makeupLinks && o in db.occurrences && o.id == l.occurrenceId && o.sessionId == sessionId :: l.studentId
  }

  function DebtStudents(db: Db, sessionId: Id): set<Id>
  {
    set d | d in db.debtSessions && d.sessionId == sessionId :: d.studentId
  }

  /** The session_capacity row of a session: present only when the room, the
      group and at least one student of the group join; the seats left are the
      capacity less the distinct group, makeup and debt students. */
  function SessionCapacity(db: Db, s: Session): (r: Option<int>)
    ensures r.Some? ==>
      && s.groupId.Some? && FindRoom(db, s.roomId).Some?
      && r.value == FindRoom(db, s.roomId).value.capacity - |GroupStudents(db, s.groupId.value)|
                    - |MakeupStudents(db, s.id)| - |DebtStudents(db, s.id)|
    ensures r.Some? ==> r.value < FindRoom(db, s.roomId).value.capacity
  {
    var room := FindRoom(db, s.roomId);
    if room.Some? && s.groupId.Some? && FindGroup(db, s.groupId.value).Some?
       && |GroupStudents(db, s.groupId.value)| > 0 then
      Some(room.value.capacity - |GroupStudents(db, s.groupId.value)|
           - |MakeupStudents(db, s.id)| - |DebtStudents(db, s.id)|)
    else None
  }

  /** The module_progress row of the student's module exists: the student has an
      attendance row on some occurrence of it. */
  predicate ModuleProgressExists(db: Db, studentId: Id, moduleId: Id)
  {
    (exists m :: m in db.modules && m.id == moduleId) &&
    exists a, o, s :: a in db.attendance && o in db.occurrences && s in db.sessions &&
      a.studentId == studentId && a.occurrenceId == o.id && o.sessionId == s.id && s.moduleId == moduleId
  }

  /** The join with module_progress never removes a candidate: the absence itself
      is an attendance row of the student on the module. */
  lemma ModuleProgressOfAbsence(db: Db, attendanceId: Id, studentId: Id)
    requires FindAbsent(db, attendanceId, studentId).Some?
    ensures ModuleProgressExists(db, studentId, FindAbsent(db, attendanceId, studentId).value.moduleId)
  {
    var a := FindAttendance(db, attendanceId).value;
    var o := FindOccurrence(db, a.occurrenceId).value;
    var s := FindSession(db, o.sessionId).value;
    var m := FindModule(db, s.moduleId).value;
    assert a in db.attendance && o in db.occurrences && s in db.sessions && m in db.modules;
  }

  /** Some occurrence of the session was cancelled and not compensated. */
  predicate HasUncompensatedCancel(db: Db, sessionId: Id)
  {
    exists o :: o in db.occurrences && o.sessionId == sessionId && o.profAbsence && !o.isCompensation
  }

  /** A row of the candidate query. */
  datatype Candidate = Candidate(
    sessionId: Id, occurrenceId: Id, moduleName: string, date: int, day: string,
    startTime: seq<Seconds>, endTime: seq<Seconds>, available: int, kind: string,
    counts: Counts, titlePercent: nat, profId: Id)

  /** The joins and WHERE clauses of the candidate query for one occurrence. */
  predicate Eligible(db: Db, info: AbsentInfo, studentId: Id, busy: seq<BusyEntry>, o: Occurrence)
  {
    var s := FindSession(db, o.sessionId);
    s.Some? &&
    var m := FindModule(db, s.value.moduleId);
    var dt := FindDayTime(db, s.value.timeId);
    var cap := SessionCapacity(db, s.value);
    && m.Some? && dt.Some? && cap.Some?
    && ModuleProgressExists(db, studentId, m.value.id)
    && ProfessorExists(db, s.value.profId)
    && (s.value.kind == Dw || s.value.kind == Pw)
    && s.value.moduleId == info.moduleId
    && m.value.promotionId == info.promotionId
    && s.value.groupId.Some? && info.groupId.Some? && s.value.groupId.value != info.groupId.value
    && InWindow(info, o.date)
    && cap.value > 0
    && !HasUncompensatedCancel(db, s.value.id)
    && (forall b :: b in busy ==> !Conflicts(o.date, dt.value, b))
  }

  /** The candidate row of an eligible occurrence. */
  function CandidateOf(db: Db, info: AbsentInfo, studentId: Id, busy: seq<BusyEntry>, o: Occurrence): (r: Option<Candidate>)
    ensures r.Some? <==> Eligible(db, info, studentId, busy, o)
    ensures r.Some? ==> r.value.occurrenceId == o.id && r.value.sessionId == o.sessionId && r.value.date == o.date
  {
    if Eligible(db, info, studentId, busy, o) then
      var s := FindSession(db, o.sessionId).value;
      var m := FindModule(db, s.moduleId).value;
      var dt := FindDayTime(db, s.timeId).value;
      var c := SessionCounts(db, s.id, s.moduleId, s.kind);
      Some(Candidate(s.id, o.id, m.name, o.date, dt.day, dt.startTime, dt.endTime,
                     SessionCapacity(db, s).value, s.kind, c, Percent(c.completed, c.total), s.profId))
    else None
  }

  /** ORDER BY so."date", dt."startTime". */
  predicate EarlierFirst(x: Candidate, y: Candidate)
  {
    x.date < y.date || (x.date == y.date && ArrayLe(x.startTime, y.startTime))
  }

  lemma EarlierFirstTotalPreorder()
    ensures TotalPreorder(EarlierFirst)
  {
    forall a, b ensures EarlierFirst(a, b) || EarlierFirst(b, a) {
      ArrayLeTotal(a.startTime, b.startTime);
    }
    forall a, b, c | EarlierFirst(a, b) && EarlierFirst(b, c) ensures EarlierFirst(a, c) {
      if a.date == b.date && b.date == c.date {
        ArrayLeTransitive(a.startTime, b.startTime, c.startTime);
      }
    }
  }

  /** The candidate query's rows, ordered. */
  function Candidates(db: Db, info: AbsentInfo, studentId: Id): (rows: seq<Candidate>)
  {
    var busy := Busy(db, info, studentId);
    SortBy(Collect(db.occurrences, o => CandidateOf(db, info, studentId, busy, o)), EarlierFirst)
  }

  /** The absence's own progress: COUNT(*) and SUM over its titles LEFT JOIN its
      progress; the SUM is NULL when the absence's module and type have no titles. */
  function AbsentCompleted(db: Db, info: AbsentInfo): (r: Option<nat>)
    ensures r.None? <==> SessionCounts(db, info.sessionId, info.moduleId, info.kind).total == 0
    ensures r.Some? ==> r.value == SessionCounts(db, info.sessionId, info.moduleId, info.kind).completed
  {
    var c := SessionCounts(db, info.sessionId, info.moduleId, info.kind);
    if c.total == 0 then None else Some(c.completed)
  }

  /** The title-progress rule on numbers: the absence's completed count (NULL read
      as 0) is at least the candidate's. */
  predicate Allowed(absentCompleted: Option<nat>, candidateCompleted: nat)
  {
    (if absentCompleted.Some? then absentCompleted.value else 0) >= candidateCompleted
  }

  /** The same comparison as the route performs it: node-pg returns the bigint
      sums as decimal text, so two present counts are compared as strings, while
      a NULL absence count is read as the number 0. */
  predicate AllowedAsWritten(absentCompleted: Option<nat>, candidateCompleted: nat)
  {
    if absentCompleted.Some? then LexLe(Decimal(candidateCompleted), Decimal(absentCompleted.value))
    else 0 >= candidateCompleted
  }

  /** An absence with 10 completed titles is refused a candidate with 9. */
  lemma AsWrittenRefusesNineAgainstTen()
    ensures !AllowedAsWritten(Some(10), 9) && Allowed(Some(10), 9)
  {
    assert Decimal(10) == "10";
    assert Decimal(9) == "9";
  }

  /** An absence with 3 completed titles is offered a candidate with 12. */
  lemma AsWrittenAdmitsTwelveAgainstThree()
    ensures AllowedAsWritten(Some(3), 12) && !Allowed(Some(3), 12)
  {
    assert Decimal(12) == "12";
    assert Decimal(3) == "3";
  }

  /** Below ten the text and numeric comparisons agree. */
  lemma AsWrittenAgreesOnOneDigit(absentCompleted: Option<nat>, candidateCompleted: nat)
    requires absentCompleted.Some? ==> absentCompleted.value < 10
    requires candidateCompleted < 10
    ensures AllowedAsWritten(absentCompleted, candidateCompleted) == Allowed(absentCompleted, candidateCompleted)
  {
    if absentCompleted.Some? {
      var a, c := absentCompleted.value, candidateCompleted;
      assert Decimal(a) == [DigitChar(a)] && Decimal(c) == [DigitChar(c)];
      assert LexLe([DigitChar(c)], [DigitChar(a)]) <==> DigitChar(c) <= DigitChar(a);
    }
  }

  // The candidate query's positional parameters. The route pushes the next
  // date only when there is one, so the student's position moves, but the
  // module_progress clause names `$6` whatever the position.

  /** A value bound to one `$n` of the candidate query. */
  datatype Param = IdParam(id: Id) | NullParam | DateParam(date: int) | TextParam(text: string) | TimeParam(t: Option<Seconds>)

  /** Four values per busy entry: date, day, start and end. */
  function BusyParams(busy: seq<BusyEntry>): (ps: seq<Param>)
    ensures |ps| == 4 * |busy|
    ensures busy != [] ==> ps[0] == DateParam(busy[0].date)
  {
    if busy == [] then []
    else
      [DateParam(busy[0].date), TextParam(busy[0].day), TimeParam(busy[0].start), TimeParam(busy[0].end)]
      + BusyParams(busy[1..])
  }

  /** The 1-based position the route pushes the student at: studentIdIndex. */
  function StudentIndex(info: AbsentInfo): nat
  {
    if info.nextDate.Some? then 6 else 5
  }

  /** availableParams: module, promotion, group and absent date, the next date
      when there is one, the student, then the busy entries. */
  function CandidateParams(studentId: Id, info: AbsentInfo, busy: seq<BusyEntry>): (ps: seq<Param>)
    ensures |ps| == StudentIndex(info) + 4 * |busy|
    ensures ps[StudentIndex(info) - 1] == IdParam(studentId)
    ensures ps[3] == DateParam(info.absentDate)
    ensures info.nextDate.Some? ==> ps[4] == DateParam(info.nextDate.value)
  {
    [IdParam(info.moduleId), IdParam(info.promotionId),
     if info.groupId.Some? then IdParam(info.groupId.value) else NullParam,
     DateParam(info.absentDate)]
    + (if info.nextDate.Some? then [DateParam(info.nextDate.value)] else [])
    + [IdParam(studentId)]
    + BusyParams(busy)
  }

  /** The value the module_progress clause compares the student with, as
      written: parameter 6, or nothing when fewer than six were bound. */
  function ProgressStudentAsWritten(ps: seq<Param>): Option<Param>
  {
    if |ps| >= 6 then Some(ps[5]) else None
  }

  /** The value it should compare with: the parameter at studentIdIndex. */
  function ProgressStudent(info: AbsentInfo, ps: seq<Param>): Option<Param>
    requires |ps| >= StudentIndex(info)
  {
    Some(ps[StudentIndex(info) - 1])
  }

  /** With a next session date, `$6` is the student. */
  lemma AsWrittenFindsStudentWithNextDate(studentId: Id, info: AbsentInfo, busy: seq<BusyEntry>)
    requires info.nextDate.Some?
    ensures ProgressStudentAsWritten(CandidateParams(studentId, info, busy)) == Some(IdParam(studentId))
  {
  }

  /** Without one, `$6` is the first busy date, or is not bound at all. */
  lemma AsWrittenMissesStudentWithoutNextDate(studentId: Id, info: AbsentInfo, busy: seq<BusyEntry>)
    requires info.nextDate.None?
    ensures ProgressStudentAsWritten(CandidateParams(studentId, info, busy)) ==
      (if busy == [] then None else Some(DateParam(busy[0].date)))
  {
    var ps := CandidateParams(studentId, info, busy);
    if busy != [] {
      assert ps[5] == BusyParams(busy)[0];
    }
  }

  /** The position the route computes always holds the student. */
  lemma ProgressStudentIsStudent(studentId: Id, info: AbsentInfo, busy: seq<BusyEntry>)
    ensures ProgressStudent(info, CandidateParams(studentId, info, busy)) == Some(IdParam(studentId))
  {
  }

  /** What the route returns for one candidate. */
  datatype Offer = Offer(
    sessionId: Id, occurrenceId: Id, moduleName: string, date: int, day: string, time: string,
    availableSlots: int, kind: string, titlePercent: nat, completed: nat, total: nat, isAllowed: bool)

  datatype MakeupListing =
    | AbsentNotFound
    | MakeupExists
    | CompensationExists
      /** A kept candidate with an empty time array makes formatTime throw. */
    | ServerError
    | Listing(offers: seq<Offer>, originalModule: string,
              absentPercent: nat, absentCompleted: Option<nat>, absentTotal: nat)

  /** formatTime: "HH:MM" of element 0; None where JavaScript throws on an empty array. */
  function FormatTime(a: seq<Seconds>): (r: Option<string>)
    ensures r == FormatPgArrayTime(a)
  {
    if |a| == 0 then None else Some(TimeText(a[0])[..5])
  }

  function OfferOf(c: Candidate, absentCompleted: Option<nat>): Offer
    requires |c.startTime| > 0 && |c.endTime| > 0
  {
    Offer(c.sessionId, c.occurrenceId, c.moduleName, c.date, c.day,
          FormatTime(c.startTime).value + " - " + FormatTime(c.endTime).value,
          c.available, c.kind, c.titlePercent, c.counts.completed, c.counts.total,
          Allowed(absentCompleted, c.counts.completed))
  }

  predicate HasTimes(c: Candidate)
  {
    |c.startTime| > 0 && |c.endTime| > 0
  }

  /** The candidates the title-progress rule keeps, in order. */
  function Kept(db: Db, info: AbsentInfo, studentId: Id): (rows: seq<Candidate>)
  {
    var ac := AbsentCompleted(db, info);
    Filter(Candidates(db, info, studentId), (c: Candidate) => Allowed(ac, c.counts.completed))
  }

  /** The available-makeup-sessions route. */
  function AvailableMakeupSessions(db: Db, studentId: Id, attendanceId: Id): (r: MakeupListing)
    ensures r.AbsentNotFound? <==> FindAbsent(db, attendanceId, studentId).None?
    ensures r.MakeupExists? <==> FindAbsent(db, attendanceId, studentId).Some? && HasMakeup(db, attendanceId)
    ensures r.CompensationExists? <==>
      FindAbsent(db, attendanceId, studentId).Some? && !HasMakeup(db, attendanceId) && HasRequest(db, attendanceId)
  {
    match FindAbsent(db, attendanceId, studentId)
    case None => AbsentNotFound
    case Some(info) =>
      if HasMakeup(db, attendanceId) then MakeupExists
      else if HasRequest(db, attendanceId) then CompensationExists
      else
        var kept := Kept(db, info, studentId);
        var ac := AbsentCompleted(db, info);
        var c := SessionCounts(db, info.sessionId, info.moduleId, info.kind);
        if exists i :: 0 <= i < |kept| && !HasTimes(kept[i]) then ServerError
        else Listing(seq(|kept|, i requires 0 <= i < |kept| => OfferOf(kept[i], ac)),
                     info.moduleName, Percent(c.completed, c.total), ac, c.total)
  }

  /** A candidate is kept exactly when some occurrence passes every join and
      filter of the candidate query and the title-progress rule. */
  lemma KeptMember(db: Db, info: AbsentInfo, studentId: Id, c: Candidate)
    ensures c in Kept(db, info, studentId) <==>
      exists o :: o in db.occurrences &&
        CandidateOf(db, info, studentId, Busy(db, info, studentId), o) == Some(c) &&
        Allowed(AbsentCompleted(db, info), c.counts.completed)
  {
    var busy := Busy(db, info, studentId);
    var rows := Collect(db.occurrences, o => CandidateOf(db, info, studentId, busy, o));
    CollectMember(db.occurrences, o => CandidateOf(db, info, studentId, busy, o), c);
    var sorted := SortBy(rows, EarlierFirst);
    assert c in sorted <==> c in multiset(sorted);
    assert c in rows <==> c in multiset(rows);
  }

  /** The kept candidates are in date, start-time order. */
  lemma KeptSorted(db: Db, info: AbsentInfo, studentId: Id)
    ensures SortedBy(Kept(db, info, studentId), EarlierFirst)
  {
    var busy := Busy(db, info, studentId);
    var rows := Collect(db.occurrences, o => CandidateOf(db, info, studentId, busy, o));
    EarlierFirstTotalPreorder();
    SortBySorted(rows, EarlierFirst);
    var ac := AbsentCompleted(db, info);
    FilterSorted(Candidates(db, info, studentId), (c: Candidate) => Allowed(ac, c.counts.completed), EarlierFirst);
  }

  /** What a listing promises: one offer per kept candidate, in their order,
      each offer's occurrence eligible, and `is_allowed` true on every offer. */
  lemma ListingShape(db: Db, studentId: Id, attendanceId: Id)
    requires AvailableMakeupSessions(db, studentId, attendanceId).Listing?
    ensures var info := FindAbsent(db, attendanceId, studentId).value;
      var kept := Kept(db, info, studentId);
      var offers := AvailableMakeupSessions(db, studentId, attendanceId).offers;
      && |offers| == |kept|
      && SortedBy(kept, EarlierFirst)
      && forall i :: 0 <= i < |offers| ==>
        && offers[i].isAllowed
        && offers[i].occurrenceId == kept[i].occurrenceId
        && offers[i].date == kept[i].date
        && offers[i].availableSlots > 0
        && (exists o :: o in db.occurrences && o.id == offers[i].occurrenceId &&
              Eligible(db, info, studentId, Busy(db, info, studentId), o))
  {
    var info := FindAbsent(db, attendanceId, studentId).value;
    var kept := Kept(db, info, studentId);
    var ac := AbsentCompleted(db, info);
    var offers := AvailableMakeupSessions(db, studentId, attendanceId).offers;
    ListingOffers(db, studentId, attendanceId);
    KeptSorted(db, info, studentId);
    forall i | 0 <= i < |offers|
      ensures offers[i].isAllowed && offers[i].availableSlots > 0
      ensures exists o ::
        o in db.occurrences && o.id == offers[i].occurrenceId && Eligible(db, info, studentId, Busy(db, info, studentId), o)
    {
      assert offers[i] == OfferOf(kept[i], ac);
      assert kept[i] in kept;
      KeptEligible(db, info, studentId, kept[i]);
    }
  }

  /** A listing offers each kept candidate, in order. */
  lemma ListingOffers(db: Db, studentId: Id, attendanceId: Id)
    requires AvailableMakeupSessions(db, studentId, attendanceId).Listing?
    ensures FindAbsent(db, attendanceId, studentId).Some?
    ensures var info := FindAbsent(db, attendanceId, studentId).value;
      var kept := Kept(db, info, studentId);
      var offers := AvailableMakeupSessions(db, studentId, attendanceId).offers;
      && |offers| == |kept|
      && forall i :: 0 <= i < |kept| ==>
           |kept[i].startTime| > 0 && |kept[i].endTime| > 0 && offers[i] == OfferOf(kept[i], AbsentCompleted(db, info))
  {
  }

  /** A kept candidate passes the title-progress rule and comes from an
      eligible occurrence with free seats. */
  lemma KeptEligible(db: Db, info: AbsentInfo, studentId: Id, c: Candidate)
    requires c in Kept(db, info, studentId)
    ensures Allowed(AbsentCompleted(db, info), c.counts.completed) && c.available > 0
    ensures exists o :: o in db.occurrences && o.id == c.occurrenceId && Eligible(db, info, studentId, Busy(db, info, studentId), o)
  {
    KeptMember(db, info, studentId, c);
    var o :| o in db.occurrences && CandidateOf(db, info, studentId, Busy(db, info, studentId), o) == Some(c) &&
      Allowed(AbsentCompleted(db, info), c.counts.completed);
  }

  // ===========================================================================
  // Choosing a makeup session.

  datatype SelectOutcome =
    | SessionNotFound
    | AttendanceNotFound
    | NoSlots
    | AlreadyEnrolled
    | Enrolled
    | RequestCreated
    | InvalidType

  /** COUNT(*) of the makeup links of an occurrence. */
  function LinkCount(links: seq<MakeupLink>, occurrenceId: Id): (n: nat)
    ensures n <= |links|
    ensures n == 0 <==> forall l :: l in links ==> l.occurrenceId != occurrenceId
  {
    if links == [] then 0
    else (if links[0].occurrenceId == occurrenceId then 1 else 0) + LinkCount(links[1..], occurrenceId)
  }

  lemma {:induction false} LinkCountAppend(links: seq<MakeupLink>, l: MakeupLink, occurrenceId: Id)
    ensures LinkCount(links + [l], occurrenceId) ==
      LinkCount(links, occurrenceId) + (if l.occurrenceId == occurrenceId then 1 else 0)
  {
    if links == [] {
      assert links + [l] == [l];
    } else {
      assert (links + [l])[1..] == links[1..] + [l];
      LinkCountAppend(links[1..], l, occurrenceId);
    }
  }

  /** The occurrence's session and room, as the first query of select-session joins them. */
  function OccurrenceSlot(db: Db, occurrenceId: Id): Option<(Session, Room)>
  {
    match FindOccurrence(db, occurrenceId)
    case None => None
    case Some(o) =>
      match FindSession(db, o.sessionId)
      case None => None
      case Some(s) =>
        match FindRoom(db, s.roomId)
        case None => None
        case Some(r) => Some((s, r))
  }

  /** The absence is the student's and not marked present. */
  predicate OwnsAbsence(db: Db, studentId: Id, attendanceId: Id)
  {
    exists a :: a in db.attendance && a.id == attendanceId && a.studentId == studentId && !a.present
  }

  predicate Enrolment(db: Db, studentId: Id, occurrenceId: Id)
  {
    exists l :: l in db.makeupLinks && l.studentId == studentId && l.occurrenceId == occurrenceId
  }

  /** The decision of select-session, checked in the handler's order. */
  function SelectDecision(db: Db, studentId: Id, attendanceId: Id, occurrenceId: Id): (r: SelectOutcome)
    ensures r == SessionNotFound <==> OccurrenceSlot(db, occurrenceId).None?
    ensures r == AttendanceNotFound <==>
      OccurrenceSlot(db, occurrenceId).Some? && !OwnsAbsence(db, studentId, attendanceId)
    ensures r == NoSlots <==>
      && OccurrenceSlot(db, occurrenceId).Some? && OwnsAbsence(db, studentId, attendanceId)
      && OccurrenceSlot(db, occurrenceId).value.0.kind == Dw
      && LinkCount(db.makeupLinks, occurrenceId) >= OccurrenceSlot(db, occurrenceId).value.1.capacity
    ensures r == AlreadyEnrolled <==>
      && OccurrenceSlot(db, occurrenceId).Some? && OwnsAbsence(db, studentId, attendanceId)
      && OccurrenceSlot(db, occurrenceId).value.0.kind == Dw
      && LinkCount(db.makeupLinks, occurrenceId) < OccurrenceSlot(db, occurrenceId).value.1.capacity
      && Enrolment(db, studentId, occurrenceId)
    ensures r == Enrolled <==>
      && OccurrenceSlot(db, occurrenceId).Some? && OwnsAbsence(db, studentId, attendanceId)
      && OccurrenceSlot(db, occurrenceId).value.0.kind == Dw
      && LinkCount(db.makeupLinks, occurrenceId) < OccurrenceSlot(db, occurrenceId).value.1.capacity
      && !Enrolment(db, studentId, occurrenceId)
    ensures r == RequestCreated <==>
      && OccurrenceSlot(db, occurrenceId).Some? && OwnsAbsence(db, studentId, attendanceId)
      && OccurrenceSlot(db, occurrenceId).value.0.kind == Pw
    ensures r == InvalidType <==>
      && OccurrenceSlot(db, occurrenceId).Some? && OwnsAbsence(db, studentId, attendanceId)
      && OccurrenceSlot(db, occurrenceId).value.0.kind != Dw && OccurrenceSlot(db, occurrenceId).value.0.kind != Pw
  {
    match OccurrenceSlot(db, occurrenceId)
    case None => SessionNotFound
    case Some((s, room)) =>
      if !OwnsAbsence(db, studentId, attendanceId) then AttendanceNotFound
      else if s.kind == Dw then
        if LinkCount(db.makeupLinks, occurrenceId) >= room.capacity then NoSlots
        else if Enrolment(db, studentId, occurrenceId) then AlreadyEnrolled
        else Enrolled
      else if s.kind == Pw then RequestCreated
      else InvalidType
  }

  /** The tables after select-session: one makeup link for an enrolment, one
      request awaiting response for a pw session, nothing otherwise. */
  function SelectApply(db: Db, studentId: Id, attendanceId: Id, occurrenceId: Id, requestId: Uuid): (d: Db)
    ensures d.(makeupLinks := db.makeupLinks, requests := db.requests) == db
  {
    match SelectDecision(db, studentId, attendanceId, occurrenceId)
    case Enrolled => db.(makeupLinks := db.makeupLinks + [MakeupLink(studentId, occurrenceId, attendanceId)])
    case RequestCreated =>
      db.(requests := db.requests + [CompensationRequest(requestId, occurrenceId, AwaitingResponse, attendanceId)])
    case _ => db
  }

  /** An enrolment adds exactly one link carrying the absence, a pw choice adds
      exactly one request awaiting response, and every error writes nothing. */
  lemma SelectWrites(db: Db, studentId: Id, attendanceId: Id, occurrenceId: Id, requestId: Uuid)
    ensures var r := SelectDecision(db, studentId, attendanceId, occurrenceId);
      var d := SelectApply(db, studentId, attendanceId, occurrenceId, requestId);
      && (r == Enrolled ==>
            d.makeupLinks == db.makeupLinks + [MakeupLink(studentId, occurrenceId, attendanceId)] &&
            d.requests == db.requests)
      && (r == RequestCreated ==>
            d.requests == db.requests + [CompensationRequest(requestId, occurrenceId, AwaitingResponse, attendanceId)] &&
            d.makeupLinks == db.makeupLinks)
      && (r != Enrolled && r != RequestCreated ==> d == db)
  {
  }

  /** A dw occurrence holds no more makeup students than its room seats. */
  predicate WithinCapacity(db: Db, occurrenceId: Id)
  {
    var slot := OccurrenceSlot(db, occurrenceId);
    slot.Some? && slot.value.0.kind == Dw ==> LinkCount(db.makeupLinks, occurrenceId) <= slot.value.1.capacity
  }

  /** select-session keeps every dw occurrence within its room's capacity. */
  lemma {:induction false} SelectKeepsCapacity(db: Db, studentId: Id, attendanceId: Id, occurrenceId: Id,
                                               requestId: Uuid, x: Id)
    requires WithinCapacity(db, x)
    ensures WithinCapacity(SelectApply(db, studentId, attendanceId, occurrenceId, requestId), x)
  {
    var d := SelectApply(db, studentId, attendanceId, occurrenceId, requestId);
    assert OccurrenceSlot(d, x) == OccurrenceSlot(db, x) by {
      assert d.occurrences == db.occurrences && d.sessions == db.sessions && d.rooms == db.rooms;
    }
    if SelectDecision(db, studentId, attendanceId, occurrenceId) == Enrolled {
      LinkCountAppend(db.makeupLinks, MakeupLink(studentId, occurrenceId, attendanceId), x);
    }
  }

  /** No student holds two makeup links to one occurrence. */
  ghost predicate EnrolmentsUnique(db: Db)
  {
    forall i, j :: 0 <= i < j < |db.makeupLinks| ==>
      db.makeupLinks[i].studentId != db.makeupLinks[j].studentId ||
      db.makeupLinks[i].occurrenceId != db.makeupLinks[j].occurrenceId
  }

  lemma SelectKeepsEnrolmentsUnique(db: Db, studentId: Id, attendanceId: Id, occurrenceId: Id, requestId: Uuid)
    requires EnrolmentsUnique(db)
    ensures EnrolmentsUnique(SelectApply(db, studentId, attendanceId, occurrenceId, requestId))
  {
    var d := SelectApply(db, studentId, attendanceId, occurrenceId, requestId);
    if SelectDecision(db, studentId, attendanceId, occurrenceId) == Enrolled {
      var links := d.makeupLinks;
      forall i, j | 0 <= i < j < |links|
        ensures links[i].studentId != links[j].studentId || links[i].occurrenceId != links[j].occurrenceId
      {
        if j == |links| - 1 {
          assert links[i] == db.makeupLinks[i] && links[i] in db.makeupLinks;
        } else {
          assert links[i] == db.makeupLinks[i] && links[j] == db.makeupLinks[j];
        }
      }
    }
  }

  /** With one seat left on a dw occurrence, the first of two students to choose
      it is enrolled and the second finds it full. */
  lemma LastSeatGoesOnce(db: Db, s1: Id, a1: Id, s2: Id, a2: Id, occurrenceId: Id, requestId: Uuid)
    requires OccurrenceSlot(db, occurrenceId).Some?
    requires OccurrenceSlot(db, occurrenceId).value.0.kind == Dw
    requires LinkCount(db.makeupLinks, occurrenceId) + 1 == OccurrenceSlot(db, occurrenceId).value.1.capacity
    requires OwnsAbsence(db, s1, a1) && OwnsAbsence(db, s2, a2)
    requires !Enrolment(db, s1, occurrenceId)
    ensures SelectDecision(db, s1, a1, occurrenceId) == Enrolled
    ensures SelectDecision(SelectApply(db, s1, a1, occurrenceId, requestId), s2, a2, occurrenceId) == NoSlots
  {
    var d := SelectApply(db, s1, a1, occurrenceId, requestId);
    LinkCountAppend(db.makeupLinks, MakeupLink(s1, occurrenceId, a1), occurrenceId);
    assert OccurrenceSlot(d, occurrenceId) == OccurrenceSlot(db, occurrenceId) by {
      assert d.occurrences == db.occurrences && d.sessions == db.sessions && d.rooms == db.rooms;
    }
    assert OwnsAbsence(d, s2, a2) by {
      assert d.attendance == db.attendance;
    }
  }

  /** A pw choice files a request even when the room is full and even twice. */
  lemma PwNeverChecksSeats(db: Db, studentId: Id, attendanceId: Id, occurrenceId: Id, requestId: Uuid)
    requires OccurrenceSlot(db, occurrenceId).Some? && OccurrenceSlot(db, occurrenceId).value.0.kind == Pw
    requires OwnsAbsence(db, studentId, attendanceId)
    ensures var d := SelectApply(db, studentId, attendanceId, occurrenceId, requestId);
      SelectDecision(d, studentId, attendanceId, occurrenceId) == RequestCreated
  {
    var d := SelectApply(db, studentId, attendanceId, occurrenceId, requestId);
    assert OccurrenceSlot(d, occurrenceId) == OccurrenceSlot(db, occurrenceId) by {
      assert d.occurrences == db.occurrences && d.sessions == db.sessions && d.rooms == db.rooms;
    }
    assert OwnsAbsence(d, studentId, attendanceId) by {
      assert d.attendance == db.attendance;
    }
  }

  // ===========================================================================
  // Absence percentage over all of a student's attendance rows.

  function AttendanceOf(rows: seq<Attendance>, studentId: Id): (r: seq<Attendance>)
    ensures forall i :: 0 <= i < |r| ==> r[i] in rows && r[i].studentId == studentId
    ensures forall a :: a in rows && a.studentId == studentId ==> a in r
  {
    if rows == [] then []
    else (if rows[0].studentId == studentId then [rows[0]] else []) + AttendanceOf(rows[1..], studentId)
  }

  predicate IsAbsent(a: Attendance)
  {
    !a.present
  }

  /** SUM(CASE WHEN present = false THEN 1 ELSE 0 END): the absent rows. */
  function AbsentCount(rows: seq<Attendance>): (n: nat)
    ensures n == |Filter(rows, IsAbsent)|
    ensures n <= |rows|
    ensures n == 0 <==> forall i :: 0 <= i < |rows| ==> rows[i].present
  {
    if rows == [] then 0
    else
      assert forall i :: 1 <= i < |rows| ==> rows[i] == rows[1..][i - 1];
      (if rows[0].present then 0 else 1) + AbsentCount(rows[1..])
  }

  /** ROUND(absent * 100.0 / COUNT(*), 2) in hundredths, 0 when the student has
      no attendance row (no group, so no row). */
  function AbsencePercentage(db: Db, studentId: Id): (r: nat)
    ensures var rows := AttendanceOf(db.attendance, studentId); r == AbsenceHundredths(AbsentCount(rows), |rows|)
    ensures r <= 10000
    ensures (forall a :: a in AttendanceOf(db.attendance, studentId) ==> a.present) ==> r == 0
  {
    var rows := AttendanceOf(db.attendance, studentId);
    assert (forall a :: a in rows ==> a.present) ==> AbsentCount(rows) == 0 by {
      if forall a :: a in rows ==> a.present {
        assert forall i :: 0 <= i < |rows| ==> rows[i].present;
      }
    }
    AbsenceAtMost100(AbsentCount(rows), |rows|);
    AbsenceHundredths(AbsentCount(rows), |rows|)
  }

  /** The route's figure is the share of the student's rows that are absent,
      in hundredths of a percent rounded half up; 0 without any row. */
  lemma AbsencePercentageRounds(db: Db, studentId: Id)
    ensures var rows := AttendanceOf(db.attendance, studentId);
      var n := |Filter(rows, IsAbsent)|;
      var r := AbsencePercentage(db, studentId);
      && (|rows| == 0 ==> r == 0)
      && (|rows| > 0 ==> 2 * r * |rows| <= 20000 * n + |rows| < 2 * r * |rows| + 2 * |rows|)
  {
    var rows := AttendanceOf(db.attendance, studentId);
    var n := AbsentCount(rows);
    var h := AbsenceHundredths(n, |rows|);
    assert AbsencePercentage(db, studentId) == h;
  }

  /** A student absent from every recorded occurrence is at exactly 100.00. */
  lemma AbsentFromAll(db: Db, studentId: Id)
    requires |AttendanceOf(db.attendance, studentId)| > 0
    requires forall a :: a in AttendanceOf(db.attendance, studentId) ==> !a.present
    ensures AbsencePercentage(db, studentId) == 10000
  {
    var rows := AttendanceOf(db.attendance, studentId);
    AllAbsentCount(rows);
    var r := AbsencePercentage(db, studentId);
    var t := |rows|;
    assert 20000 * t + t < 2 * r * t + 2 * t;
    LessMul(19999, 2 * r, t);
  }

  lemma {:induction false} AllAbsentCount(rows: seq<Attendance>)
    requires forall i :: 0 <= i < |rows| ==> !rows[i].present
    ensures AbsentCount(rows) == |rows|
  {
    if rows != [] {
      AllAbsentCount(rows[1..]);
    }
  }
}
