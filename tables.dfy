/** The database tables the routes read and write, as in-memory relations.
    Each table is a sequence of rows in storage order; a lookup by primary key
    takes the first matching row. */
module Tables {
  import opened Common

  /** Integer keys: students (matricule), groups, sections, modules, rooms,
      dayTimes, sessions, occurrences, attendance rows, professors. */
  type Id = nat
  /** Text keys generated as UUIDs: titles, title progress rows, requests. */
  type Uuid = string
  /** A time of day in seconds since midnight; PostgreSQL's `time` admits 24:00:00. */
  type Seconds = t: int | 0 <= t <= 86400

  const Cours: string := "cours"
  const Pw: string := "pw"
  const Dw: string := "dw"

  datatype Student = Student(matricule: Id, groupId: Option<Id>, promotionId: Id)
  datatype Group = Group(id: Id, sectionId: Option<Id>)
  datatype Section = Section(id: Id, promotionId: Id)
  datatype Module = Module(id: Id, name: string, promotionId: Id, semesterId: Id)
  datatype Room = Room(id: Id, capacity: int)
  /** A weekly slot; `startTime` and `endTime` are PostgreSQL `time[]` columns. */
  datatype DayTime = DayTime(id: Id, day: string, startTime: seq<Seconds>, endTime: seq<Seconds>)
  datatype Session = Session(id: Id, moduleId: Id, kind: string, groupId: Option<Id>,
                             sectionId: Option<Id>, timeId: Id, roomId: Id, profId: Id)
  /** One dated occurrence of a weekly session; `date` is a day number. */
  datatype Occurrence = Occurrence(id: Id, sessionId: Id, date: int, profAbsence: bool,
                                   isCompensation: bool, comDayTimeId: Option<Id>)
  datatype Attendance = Attendance(id: Id, studentId: Id, occurrenceId: Id, present: bool, isMakeup: bool)
  /** A row of Student_MakeupSession: the student attends that occurrence to make up `attendanceId`. */
  datatype MakeupLink = MakeupLink(studentId: Id, occurrenceId: Id, attendanceId: Id)
  datatype CompensationRequest = CompensationRequest(requestId: Uuid, occurrenceId: Id, status: string, attendanceId: Id)
  /** A row of Student_DebtSessions. */
  datatype DebtSessionLink = DebtSessionLink(studentId: Id, sessionId: Id)
  /** A row of Student_DebtModules. */
  datatype DebtModuleLink = DebtModuleLink(studentId: Id, moduleId: Id)
  /** A syllabus title of a module and session type, in a forest by `parentId`. */
  datatype Title = Title(id: Uuid, moduleId: Id, name: string, kind: string, parentId: Option<Uuid>, order: int)
  /** A row of ProfessorTitleProgress: a title's completion in one session. */
  datatype TitleProgress = TitleProgress(id: Uuid, titleId: Uuid, isCompleted: bool, sessionId: Id)

  datatype Db = Db(
    students: seq<Student>,
    groups: seq<Group>,
    sections: seq<Section>,
    promotions: seq<Id>,
    semesters: seq<Id>,
    modules: seq<Module>,
    rooms: seq<Room>,
    dayTimes: seq<DayTime>,
    sessions: seq<Session>,
    occurrences: seq<Occurrence>,
    attendance: seq<Attendance>,
    makeupLinks: seq<MakeupLink>,
    requests: seq<CompensationRequest>,
    debtSessions: seq<DebtSessionLink>,
    debtModules: seq<DebtModuleLink>,
    titles: seq<Title>,
    progress: seq<TitleProgress>,
    professors: seq<Id>)

  /** The text PostgreSQL gives a `time` value: HH:MM:SS. */
  function TimeText(t: Seconds): (s: string)
    ensures |s| == 8 && s[2] == ':' && s[5] == ':'
  {
    Pad2(t / 3600) + ":" + Pad2(t % 3600 / 60) + ":" + Pad2(t % 60)
  }

  /** Element 1 of a PostgreSQL array (element 0 in JavaScript), NULL when the array is empty. */
  function Head(a: seq<Seconds>): (r: Option<Seconds>)
    ensures r.Some? <==> |a| > 0
    ensures r.Some? ==> r.value == a[0]
  {
    if |a| == 0 then None else Some(a[0])
  }

  function FindStudent(db: Db, id: Id): (r: Option<Student>)
    ensures r.Some? ==> r.value in db.students && r.value.matricule == id
    ensures r.None? <==> forall s :: s in db.students ==> s.matricule != id
  {
    First(db.students, (s: Student) => s.matricule == id)
  }

  function FindGroup(db: Db, id: Id): (r: Option<Group>)
    ensures r.Some? ==> r.value in db.groups && r.value.id == id
    ensures r.None? <==> forall g :: g in db.groups ==> g.id != id
  {
    First(db.groups, (g: Group) => g.id == id)
  }

  function FindSection(db: Db, id: Id): (r: Option<Section>)
    ensures r.Some? ==> r.value in db.sections && r.value.id == id
    ensures r.None? <==> forall s :: s in db.sections ==> s.id != id
  {
    First(db.sections, (s: Section) => s.id == id)
  }

  function FindModule(db: Db, id: Id): (r: Option<Module>)
    ensures r.Some? ==> r.value in db.modules && r.value.id == id
    ensures r.None? <==> forall m :: m in db.modules ==> m.id != id
  {
    First(db.modules, (m: Module) => m.id == id)
  }

  function FindRoom(db: Db, id: Id): (r: Option<Room>)
    ensures r.Some? ==> r.value in db.rooms && r.value.id == id
    ensures r.None? <==> forall m :: m in db.rooms ==> m.id != id
  {
    First(db.rooms, (m: Room) => m.id == id)
  }

  function FindDayTime(db: Db, id: Id): (r: Option<DayTime>)
    ensures r.Some? ==> r.value in db.dayTimes && r.value.id == id
    ensures r.None? <==> forall d :: d in db.dayTimes ==> d.id != id
  {
    First(db.dayTimes, (d: DayTime) => d.id == id)
  }

  function FindSession(db: Db, id: Id): (r: Option<Session>)
    ensures r.Some? ==> r.value in db.sessions && r.value.id == id
    ensures r.None? <==> forall s :: s in db.sessions ==> s.id != id
  {
    First(db.sessions, (s: Session) => s.id == id)
  }

  function FindOccurrence(db: Db, id: Id): (r: Option<Occurrence>)
    ensures r.Some? ==> r.value in db.occurrences && r.value.id == id
    ensures r.None? <==> forall o :: o in db.occurrences ==> o.id != id
  {
    First(db.occurrences, (o: Occurrence) => o.id == id)
  }

  function FindAttendance(db: Db, id: Id): (r: Option<Attendance>)
    ensures r.Some? ==> r.value in db.attendance && r.value.id == id
    ensures r.None? <==> forall a :: a in db.attendance ==> a.id != id
  {
    First(db.attendance, (a: Attendance) => a.id == id)
  }

  function FindTitle(db: Db, id: Uuid): (r: Option<Title>)
    ensures r.Some? ==> r.value in db.titles && r.value.id == id
    ensures r.None? <==> forall t :: t in db.titles ==> t.id != id
  {
    First(db.titles, (t: Title) => t.id == id)
  }

  predicate ProfessorExists(db: Db, id: Id)
  {
    id in db.professors
  }

  /** The key of the n-th row the store inserts where PostgreSQL would call
      gen_random_uuid(): distinct numbers give distinct keys. */
  function MintedId(n: nat): (id: Uuid)
    ensures |id| > 7 && id[..7] == "minted-"
  {
    "minted-" + Decimal(n)
  }

  lemma MintedIdInjective(a: nat, b: nat)
    requires MintedId(a) == MintedId(b)
    ensures a == b
  {
    assert Decimal(a) == MintedId(a)[7..];
    assert Decimal(b) == MintedId(b)[7..];
    ParseDecimalOfDecimal(a);
    ParseDecimalOfDecimal(b);
  }
}
