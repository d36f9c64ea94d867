/** How far a professor has got through the syllabus of each session
    (routes/professorModuleprogress.js): the professor's sessions with their
    progress, the title tree of one session with the completion marks, and
    the single and bulk updates of those marks. The queries are functions;
    the tree assembly is a method over maps, as the route fills a lookup
    object and pushes into arrays; the updates compute the new progress
    table, which the store installs. */
module ProfessorProgress {
  import opened Common
  import opened Tables
  import opened Sorting
  import opened Rollup

  /** completed, total and the rounded percentage shown for a session. */
  datatype Progress = Progress(completed: nat, total: nat, percentage: nat)

  // ---------------------------------------------------------------------
  // GET /:professorId/sessions

  /** The distinct ids of titles of the module and type that have a
      completed progress row in the session. */
  function CompletedTitleIds(db: Db, sessionId: Id, moduleId: Id, kind: string): (ids: seq<Uuid>)
    ensures forall i, j :: 0 <= i < j < |ids| ==> ids[i] != ids[j]
    ensures (set x | x in ids) == CompletedIds(TitlesOf(db.titles, moduleId, kind), db.progress, sessionId)
  {
    var titles := TitlesOf(db.titles, moduleId, kind);
    var f := (p: TitleProgress) =>
      if p.sessionId == sessionId && p.isCompleted && exists t :: t in titles && t.id == p.titleId then Some(p.titleId) else None;
    var all := Collect(db.progress, f);
    var ids := Distinct(all);
    forall x ensures x in ids <==> x in CompletedIds(titles, db.progress, sessionId) {
      CollectMember(db.progress, f, x);
    }
    ids
  }

  /** A title set has no more distinct ids than rows. */
  lemma {:induction false} IdsAtMost(titles: seq<Title>)
    ensures |set t | t in titles :: t.id| <= |titles|
  {
    if titles != [] {
      IdsAtMost(titles[1..]);
      assert (set t | t in titles :: t.id) == (set t | t in titles[1..] :: t.id) + {titles[0].id};
    }
  }

  /** COUNT(DISTINCT title_id) never exceeds the number of titles. */
  lemma CompletedIdsAtMost(titles: seq<Title>, progress: seq<TitleProgress>, sessionId: Id)
    ensures |CompletedIds(titles, progress, sessionId)| <= |titles|
  {
    var ids := set t | t in titles :: t.id;
    assert CompletedIds(titles, progress, sessionId) <= ids;
    IdsAtMost(titles);
    SubsetAtMost(CompletedIds(titles, progress, sessionId), ids);
  }

  lemma {:induction false} SubsetAtMost<T>(a: set<T>, b: set<T>)
    requires a <= b
    ensures |a| <= |b|
    decreases |a|
  {
    if a != {} {
      var x :| x in a;
      SubsetAtMost(a - {x}, b - {x});
    }
  }

  /** The progress of a session of the professor's list: every title of its
      module and type counts once, a title counts as completed once whatever
      the number of its completed rows, and the percentage is
      Math.round(completed / total * 100), 0 for an empty syllabus. */
  function ListedProgress(db: Db, s: Session): (p: Progress)
    ensures p.total == |TitlesOf(db.titles, s.moduleId, s.kind)|
    ensures p.completed == |CompletedIds(TitlesOf(db.titles, s.moduleId, s.kind), db.progress, s.id)|
    ensures p.completed <= p.total && p.percentage <= 100
    ensures p.total == 0 ==> p.percentage == 0
    ensures p.total > 0 ==> 2 * p.percentage * p.total <= 200 * p.completed + p.total < 2 * p.percentage * p.total + 2 * p.total
  {
    var titles := TitlesOf(db.titles, s.moduleId, s.kind);
    var ids := CompletedTitleIds(db, s.id, s.moduleId, s.kind);
    DistinctCard(ids);
    CompletedIdsAtMost(titles, db.progress, s.id);
    PercentAtMost100(|ids|, |titles|);
    Progress(|ids|, |titles|, Percent(|ids|, |titles|))
  }

  /** One session of the professor's list. */
  datatype ProfSession = ProfSession(sessionId: Id, moduleId: Id, kind: string, groupId: Option<Id>,
                                     moduleName: string, day: string, startTime: seq<Seconds>,
                                     endTime: seq<Seconds>, progress: Progress)

  /** A session of the professor that joins its module, its weekly slot and
      its module's promotion (group, section and level are outer joins). */
  function ListedSession(db: Db, profId: Id, s: Session): (r: Option<ProfSession>)
    ensures r.Some? <==>
              && s.profId == profId && FindModule(db, s.moduleId).Some? && FindDayTime(db, s.timeId).Some?
              && FindModule(db, s.moduleId).value.promotionId in db.promotions
    ensures r.Some? ==> r.value.sessionId == s.id && r.value.progress == ListedProgress(db, s)
  {
    if s.profId != profId then None
    else match (FindModule(db, s.moduleId), FindDayTime(db, s.timeId))
      case (Some(m), Some(dt)) =>
        if m.promotionId in db.promotions then
          Some(ProfSession(s.id, s.moduleId, s.kind, s.groupId, m.name, dt.day, dt.startTime, dt.endTime, ListedProgress(db, s)))
        else None
      case _ => None
  }

  /** ORDER BY "startTime" DESC. */
  predicate LaterFirst(a: ProfSession, b: ProfSession)
  {
    ArrayLe(b.startTime, a.startTime)
  }

  lemma LaterFirstTotalPreorder()
    ensures TotalPreorder(LaterFirst)
  {
    forall a, b ensures LaterFirst(a, b) || LaterFirst(b, a) {
      ArrayLeTotal(a.startTime, b.startTime);
    }
    forall a, b, c | LaterFirst(a, b) && LaterFirst(b, c) ensures LaterFirst(a, c) {
      ArrayLeTransitive(c.startTime, b.startTime, a.startTime);
    }
  }

  /** The professor's sessions, latest start first, each with its progress. */
  function ProfessorSessions(db: Db, profId: Id): (rows: seq<ProfSession>)
    ensures forall x :: x in rows <==> exists s :: s in db.sessions && ListedSession(db, profId, s) == Some(x)
    ensures SortedBy(rows, LaterFirst)
  {
    var f := (s: Session) => ListedSession(db, profId, s);
    var all := Collect(db.sessions, f);
    var rows := SortBy(all, LaterFirst);
    forall x ensures x in rows <==> exists s :: s in db.sessions && f(s) == Some(x) {
      CollectMember(db.sessions, f, x);
      SortByMember(all, LaterFirst, x);
    }
    LaterFirstTotalPreorder();
    SortBySorted(all, LaterFirst);
    rows
  }

  /** Under unique title ids and one progress row per (session, title), the
      distinct-count of the list agrees with the joined count of the session
      page: the two routes report the same progress. */
  lemma ListedAgreesWithJoined(db: Db, s: Session)
    requires TitleIdsUnique(TitlesOf(db.titles, s.moduleId, s.kind))
    requires ProgressUnique(db.progress)
    ensures ListedProgress(db, s).total == SessionCounts(db, s.id, s.moduleId, s.kind).total
    ensures ListedProgress(db, s).completed == SessionCounts(db, s.id, s.moduleId, s.kind).completed
  {
    JoinCountsUnique(TitlesOf(db.titles, s.moduleId, s.kind), db.progress, s.id);
  }

  // ---------------------------------------------------------------------
  // GET /sessions/:sessionId/titles

  /** The session the page is about, with its module and professor. */
  datatype SessionHead = SessionHead(id: Id, moduleId: Id, moduleName: string, kind: string, profId: Id)

  predicate Headed(db: Db, sessionId: Id, s: Session)
  {
    s.id == sessionId && FindModule(db, s.moduleId).Some? && s.profId in db.professors
  }

  /** The first session row with that id that joins its module and its
      professor; none means 404. */
  function FindSessionHead(db: Db, sessionId: Id): (r: Option<SessionHead>)
    ensures r.None? <==> forall s :: s in db.sessions ==> !Headed(db, sessionId, s)
    ensures r.Some? ==> exists s :: s in db.sessions && Headed(db, sessionId, s)
                                    && r.value == SessionHead(s.id, s.moduleId, FindModule(db, s.moduleId).value.name, s.kind, s.profId)
  {
    match First(db.sessions, (s: Session) => Headed(db, sessionId, s))
    case None => None
    case Some(s) => Some(SessionHead(s.id, s.moduleId, FindModule(db, s.moduleId).value.name, s.kind, s.profId))
  }

  /** A row of the recursive title_hierarchy query. */
  datatype HierRow = HierRow(title: Title, level: nat)

  function AtLevel(titles: seq<Title>, level: nat): (rows: seq<HierRow>)
    ensures |rows| == |titles|
    ensures forall i :: 0 <= i < |rows| ==> rows[i] == HierRow(titles[i], level)
  {
    seq(|titles|, i requires 0 <= i < |titles| => HierRow(titles[i], level))
  }

  /** The recursive step's join: the title's parent is a row of the level
      just produced (a NULL parent joins nothing). */
  predicate UnderFrontier(frontier: seq<HierRow>, t: Title)
  {
    t.parentId.Some? && exists h :: h in frontier && h.title.id == t.parentId.value
  }

  lemma {:induction false} FilterSplit<T>(s: seq<T>, p: T -> bool, q: T -> bool)
    requires forall x :: q(x) == !p(x)
    ensures |Filter(s, p)| + |Filter(s, q)| == |s|
  {
    if s != [] {
      FilterSplit(s[1..], p, q);
    }
  }

  /** The levels of the recursive query from `frontier` down. A title joins at
      most once: it leaves the pool when it is placed, which is what the query
      does when title ids are unique. */
  function Levels(pool: seq<Title>, frontier: seq<HierRow>, level: nat): (rows: seq<HierRow>)
    decreases |pool|, |frontier|
  {
    if frontier == [] then []
    else
      var p := (t: Title) => UnderFrontier(frontier, t);
      var q := (t: Title) => !UnderFrontier(frontier, t);
      var next := Filter(pool, p);
      FilterSplit(pool, p, q);
      assert next != [] ==> |Filter(pool, q)| < |pool|;
      frontier + Levels(Filter(pool, q), AtLevel(next, level + 1), level + 1)
  }

  ghost predicate AllAt(frontier: seq<HierRow>, level: nat)
  {
    forall h :: h in frontier ==> h.level == level
  }

  /** Every row of the query from `frontier` on is at its level or deeper. */
  lemma {:induction false} LevelsAtLeast(pool: seq<Title>, frontier: seq<HierRow>, level: nat)
    requires AllAt(frontier, level)
    ensures forall r :: r in Levels(pool, frontier, level) ==> r.level >= level
    decreases |pool|, |frontier|
  {
    if frontier != [] {
      var p := (t: Title) => UnderFrontier(frontier, t);
      var q := (t: Title) => !UnderFrontier(frontier, t);
      FilterSplit(pool, p, q);
      LevelsAtLeast(Filter(pool, q), AtLevel(Filter(pool, p), level + 1), level + 1);
    }
  }

  /** A row below the first level has its parent one level up. */
  lemma {:induction false} LevelsParent(pool: seq<Title>, frontier: seq<HierRow>, level: nat, r: HierRow)
    requires AllAt(frontier, level)
    requires r in Levels(pool, frontier, level) && r.level > level
    ensures exists h :: h in Levels(pool, frontier, level) && h.level + 1 == r.level && r.title.parentId == Some(h.title.id)
    decreases |pool|, |frontier|
  {
    var p := (t: Title) => UnderFrontier(frontier, t);
    var q := (t: Title) => !UnderFrontier(frontier, t);
    var next := AtLevel(Filter(pool, p), level + 1);
    FilterSplit(pool, p, q);
    var rows := Levels(pool, frontier, level);
    var tail := Levels(Filter(pool, q), next, level + 1);
    assert rows == frontier + tail;
    assert r in tail;
    if r.level == level + 1 {
      assert next != [];
      var q2 := (t: Title) => !UnderFrontier(next, t);
      var p2 := (t: Title) => UnderFrontier(next, t);
      LevelsAtLeast(Filter(Filter(pool, q), q2), AtLevel(Filter(Filter(pool, q), p2), level + 2), level + 2);
      assert r in next;
      var i :| 0 <= i < |next| && next[i] == r;
      assert UnderFrontier(frontier, r.title);
      var h :| h in frontier && h.title.id == r.title.parentId.value;
      assert h in rows;
    } else {
      LevelsParent(Filter(pool, q), next, level + 1, r);
    }
  }

  /** Every row of the query is a frontier row or a title of the pool placed
      deeper. */
  lemma {:induction false} LevelsFromPool(pool: seq<Title>, frontier: seq<HierRow>, level: nat, r: HierRow)
    requires r in Levels(pool, frontier, level)
    ensures r in frontier || (r.title in pool && r.level > level)
    decreases |pool|, |frontier|
  {
    var p := (t: Title) => UnderFrontier(frontier, t);
    var q := (t: Title) => !UnderFrontier(frontier, t);
    var next := AtLevel(Filter(pool, p), level + 1);
    FilterSplit(pool, p, q);
    if r !in frontier {
      LevelsFromPool(Filter(pool, q), next, level + 1, r);
      if r in next {
        var i :| 0 <= i < |next| && next[i] == r;
      } else {
        FilterMember(pool, q, r.title);
      }
    }
  }

  /** The query is closed under children: a pool title whose parent is a row
      of the query is a row of the query. */
  lemma {:induction false} LevelsClosed(pool: seq<Title>, frontier: seq<HierRow>, level: nat, r: HierRow, t: Title)
    requires t in pool && r in Levels(pool, frontier, level) && t.parentId == Some(r.title.id)
    ensures exists c :: c in Levels(pool, frontier, level) && c.title == t
    decreases |pool|, |frontier|
  {
    var p := (t: Title) => UnderFrontier(frontier, t);
    var q := (t: Title) => !UnderFrontier(frontier, t);
    var kids := Filter(pool, p);
    var next := AtLevel(kids, level + 1);
    FilterSplit(pool, p, q);
    var rows := Levels(pool, frontier, level);
    assert rows == frontier + Levels(Filter(pool, q), next, level + 1);
    FilterMember(pool, p, t);
    FilterMember(pool, q, t);
    if p(t) {
      var i :| 0 <= i < |kids| && kids[i] == t;
      assert next[i] in rows;
    } else {
      assert r !in frontier;
      LevelsClosed(Filter(pool, q), next, level + 1, r, t);
    }
  }

  predicate IsRootOf(t: Title, moduleId: Id, kind: string)
  {
    t.parentId.None? && t.moduleId == moduleId && t.kind == kind
  }

  /** WITH RECURSIVE title_hierarchy: the roots of the module and type at
      level 0, then level by level every title whose parent is a row of the
      level above, of any module or type. */
  function Hierarchy(db: Db, moduleId: Id, kind: string): (rows: seq<HierRow>)
  {
    Levels(Filter(db.titles, (t: Title) => !IsRootOf(t, moduleId, kind)),
           AtLevel(Filter(db.titles, (t: Title) => IsRootOf(t, moduleId, kind)), 0), 0)
  }

  /** Every row of the hierarchy is a title of the table; the level-0 rows
      are exactly the roots of the module and type. */
  lemma HierarchyRoots(db: Db, moduleId: Id, kind: string, r: HierRow)
    ensures r in Hierarchy(db, moduleId, kind) ==> r.title in db.titles
    ensures r.level == 0 ==> (r in Hierarchy(db, moduleId, kind) <==> r.title in db.titles && IsRootOf(r.title, moduleId, kind))
  {
    var isRoot := (t: Title) => IsRootOf(t, moduleId, kind);
    var notRoot := (t: Title) => !IsRootOf(t, moduleId, kind);
    var roots := Filter(db.titles, isRoot);
    var pool := Filter(db.titles, notRoot);
    var frontier := AtLevel(roots, 0);
    var rows := Levels(pool, frontier, 0);
    assert rows == Hierarchy(db, moduleId, kind);
    FilterMember(db.titles, isRoot, r.title);
    if r in rows {
      LevelsFromPool(pool, frontier, 0, r);
      if r in frontier {
        var i :| 0 <= i < |frontier| && frontier[i] == r;
        assert r.title == roots[i];
      } else {
        FilterMember(db.titles, notRoot, r.title);
      }
    }
    if r.level == 0 && r.title in db.titles && IsRootOf(r.title, moduleId, kind) {
      var i :| 0 <= i < |roots| && roots[i] == r.title;
      assert frontier[i] == r;
    }
  }

  /** A row below level 0 has its parent one level up. */
  lemma HierarchyParent(db: Db, moduleId: Id, kind: string, r: HierRow)
    requires r in Hierarchy(db, moduleId, kind) && r.level > 0
    ensures exists h :: h in Hierarchy(db, moduleId, kind) && h.level + 1 == r.level && r.title.parentId == Some(h.title.id)
  {
    var roots := Filter(db.titles, (t: Title) => IsRootOf(t, moduleId, kind));
    LevelsParent(Filter(db.titles, (t: Title) => !IsRootOf(t, moduleId, kind)), AtLevel(roots, 0), 0, r);
  }

  /** A title whose parent is a row of the hierarchy is a row of it. */
  lemma HierarchyClosed(db: Db, moduleId: Id, kind: string, r: HierRow, t: Title)
    requires t in db.titles && r in Hierarchy(db, moduleId, kind) && t.parentId == Some(r.title.id)
    ensures exists c :: c in Hierarchy(db, moduleId, kind) && c.title == t
  {
    var notRoot := (t: Title) => !IsRootOf(t, moduleId, kind);
    var roots := Filter(db.titles, (t: Title) => IsRootOf(t, moduleId, kind));
    FilterMember(db.titles, notRoot, t);
    LevelsClosed(Filter(db.titles, notRoot), AtLevel(roots, 0), 0, r, t);
  }

  /** A hierarchy row LEFT JOINed with the session's progress rows of its title. */
  datatype JoinedRow = JoinedRow(h: HierRow, progress: Option<TitleProgress>)

  function JoinProgress(progress: seq<TitleProgress>, sessionId: Id, h: HierRow): (rows: seq<JoinedRow>)
    ensures |rows| > 0
    ensures forall x :: x in rows ==> x.h == h
    ensures forall x :: x in rows && x.progress.Some? ==>
              x.progress.value in progress && x.progress.value.sessionId == sessionId && x.progress.value.titleId == h.title.id
  {
    var ps := ProgressOf(progress, sessionId, h.title.id);
    if ps == [] then [JoinedRow(h, None)]
    else seq(|ps|, i requires 0 <= i < |ps| => JoinedRow(h, Some(ps[i])))
  }

  /** ORDER BY h.level, h."order". */
  predicate LevelThenOrder(a: JoinedRow, b: JoinedRow)
  {
    a.h.level < b.h.level || (a.h.level == b.h.level && a.h.title.order <= b.h.title.order)
  }

  lemma LevelThenOrderTotalPreorder()
    ensures TotalPreorder(LevelThenOrder)
  {
  }

  /** The rows of the titles query of a session of that module and type. */
  function TitleRows(db: Db, sessionId: Id, moduleId: Id, kind: string): (rows: seq<JoinedRow>)
    ensures SortedBy(rows, LevelThenOrder)
    ensures forall x :: x in rows <==>
              exists h :: h in Hierarchy(db, moduleId, kind) && x in JoinProgress(db.progress, sessionId, h)
  {
    var hs := Hierarchy(db, moduleId, kind);
    var f := (h: HierRow) => JoinProgress(db.progress, sessionId, h);
    var all := FlatMap(hs, f);
    var rows := SortBy(all, LevelThenOrder);
    forall x ensures x in rows <==> exists h :: h in hs && x in f(h) {
      FlatMapMember(hs, f, x);
      SortByMember(all, LevelThenOrder, x);
    }
    LevelThenOrderTotalPreorder();
    SortBySorted(all, LevelThenOrder);
    rows
  }

  /** The page's progress: the LEFT JOIN count of the module's titles of that
      type with the session's progress rows, rounded as Math.round, 0 for no
      title. */
  function PageProgress(db: Db, sessionId: Id, moduleId: Id, kind: string): (p: Progress)
    ensures p.total == SessionCounts(db, sessionId, moduleId, kind).total
    ensures p.completed == SessionCounts(db, sessionId, moduleId, kind).completed
    ensures p.completed <= p.total && p.percentage <= 100
    ensures p.total >= |TitlesOf(db.titles, moduleId, kind)|
    ensures p.total == 0 ==> p.percentage == 0
    ensures p.total > 0 ==> 2 * p.percentage * p.total <= 200 * p.completed + p.total < 2 * p.percentage * p.total + 2 * p.total
  {
    var c := SessionCounts(db, sessionId, moduleId, kind);
    PercentAtMost100(c.completed, c.total);
    Progress(c.completed, c.total, Percent(c.completed, c.total))
  }

  /** Under unique title ids and one progress row per (session, title), the
      page counts each title of the module and type once, and as completed
      exactly the titles with a completed progress row for the session. */
  lemma PageProgressCounts(db: Db, sessionId: Id, moduleId: Id, kind: string)
    requires TitleIdsUnique(TitlesOf(db.titles, moduleId, kind))
    requires ProgressUnique(db.progress)
    ensures PageProgress(db, sessionId, moduleId, kind).total == |TitlesOf(db.titles, moduleId, kind)|
    ensures PageProgress(db, sessionId, moduleId, kind).completed
            == |CompletedIds(TitlesOf(db.titles, moduleId, kind), db.progress, sessionId)|
  {
    JoinCountsUnique(TitlesOf(db.titles, moduleId, kind), db.progress, sessionId);
  }

  // organizeTitlesHierarchically: the lookup object and the arrays the route
  // pushes into are modelled as maps keyed by title id; a node's children
  // and the roots are lists of the ids of the pushed nodes.

  function IdOf(r: JoinedRow): Uuid
  {
    r.h.title.id
  }

  function ParentOf(r: JoinedRow): Option<Uuid>
  {
    r.h.title.parentId
  }

  /** titleMap after the first pass: each id to the last row with that id. */
  function NodeMap(rows: seq<JoinedRow>): map<Uuid, JoinedRow>
  {
    if rows == [] then map[]
    else NodeMap(rows[..|rows| - 1])[IdOf(rows[|rows| - 1]) := rows[|rows| - 1]]
  }

  /** The ids pushed to rootTitles, in row order: rows with a falsy parent. */
  function RootIds(rows: seq<JoinedRow>): seq<Uuid>
  {
    if rows == [] then []
    else
      var last := rows[|rows| - 1];
      RootIds(rows[..|rows| - 1]) + (if Truthy(ParentOf(last)) then [] else [IdOf(last)])
  }

  /** The ids pushed to the children of node `x`, in row order. */
  function ChildrenOf(rows: seq<JoinedRow>, x: Uuid): seq<Uuid>
  {
    if rows == [] then []
    else
      var last := rows[|rows| - 1];
      ChildrenOf(rows[..|rows| - 1], x) + (if Truthy(ParentOf(last)) && ParentOf(last).value == x then [IdOf(last)] else [])
  }

  function ChildMap(rows: seq<JoinedRow>, keys: set<Uuid>): map<Uuid, seq<Uuid>>
  {
    map x | x in keys :: ChildrenOf(rows, x)
  }

  lemma ChildMapEmptyAdd(keys: set<Uuid>, id: Uuid)
    ensures ChildMap([], keys)[id := []] == ChildMap([], keys + {id})
  {
  }

  lemma ChildMapStep(prefix: seq<JoinedRow>, t: JoinedRow, keys: set<Uuid>)
    ensures Truthy(ParentOf(t)) && ParentOf(t).value in keys ==>
              ChildMap(prefix + [t], keys) == ChildMap(prefix, keys)[ParentOf(t).value := ChildMap(prefix, keys)[ParentOf(t).value] + [IdOf(t)]]
    ensures !(Truthy(ParentOf(t)) && ParentOf(t).value in keys) ==> ChildMap(prefix + [t], keys) == ChildMap(prefix, keys)
  {
    var rows := prefix + [t];
    assert rows[..|rows| - 1] == prefix;
    var m0 := ChildMap(prefix, keys);
    var m1 := ChildMap(rows, keys);
    assert m1.Keys == keys == m0.Keys;
    if Truthy(ParentOf(t)) && ParentOf(t).value in keys {
      var p := ParentOf(t).value;
      var m2 := m0[p := m0[p] + [IdOf(t)]];
      assert m2.Keys == keys;
      forall x | x in keys ensures m1[x] == m2[x] {
        assert m1[x] == ChildrenOf(rows, x);
      }
      assert m1 == m2;
    } else {
      forall x | x in keys ensures m1[x] == m0[x] {
        assert m1[x] == ChildrenOf(rows, x);
      }
      assert m1 == m0;
    }
  }

  /** organizeTitlesHierarchically: one pass fills the lookup with an empty
      child list per id, a second pass pushes every row with a truthy parent
      under that parent when the parent is in the lookup, and every other row
      to the roots. */
  method Organize(rows: seq<JoinedRow>) returns (nodes: map<Uuid, JoinedRow>, children: map<Uuid, seq<Uuid>>, roots: seq<Uuid>)
    ensures nodes == NodeMap(rows)
    ensures children == ChildMap(rows, nodes.Keys)
    ensures roots == RootIds(rows)
  {
    nodes := map[];
    children := map[];
    var i := 0;
    while i < |rows|
      invariant 0 <= i <= |rows|
      invariant nodes == NodeMap(rows[..i])
      invariant children == ChildMap([], nodes.Keys)
    {
      NodeMapStep(rows, i);
      ChildMapEmptyAdd(nodes.Keys, IdOf(rows[i]));
      nodes := nodes[IdOf(rows[i]) := rows[i]];
      children := children[IdOf(rows[i]) := []];
      i := i + 1;
    }
    assert rows[..|rows|] == rows;
    roots := [];
    i := 0;
    while i < |rows|
      invariant 0 <= i <= |rows|
      invariant children == ChildMap(rows[..i], nodes.Keys)
      invariant roots == RootIds(rows[..i])
    {
      var t := rows[i];
      OrganizeStep(rows, i, nodes.Keys);
      if Truthy(ParentOf(t)) {
        var p := ParentOf(t).value;
        if p in nodes {
          children := children[p := children[p] + [IdOf(t)]];
        }
      } else {
        roots := roots + [IdOf(t)];
      }
      i := i + 1;
    }
    assert rows[..|rows|] == rows;
  }

  lemma NodeMapStep(rows: seq<JoinedRow>, i: nat)
    requires i < |rows|
    ensures NodeMap(rows[..i + 1]) == NodeMap(rows[..i])[IdOf(rows[i]) := rows[i]]
  {
    assert rows[..i + 1][..i] == rows[..i];
  }

  /** The second pass over row `i`: its id joins its parent's children or the roots. */
  lemma OrganizeStep(rows: seq<JoinedRow>, i: nat, keys: set<Uuid>)
    requires i < |rows|
    ensures Truthy(ParentOf(rows[i])) && ParentOf(rows[i]).value in keys ==>
              ChildMap(rows[..i + 1], keys)
                == ChildMap(rows[..i], keys)[ParentOf(rows[i]).value := ChildMap(rows[..i], keys)[ParentOf(rows[i]).value] + [IdOf(rows[i])]]
    ensures !(Truthy(ParentOf(rows[i])) && ParentOf(rows[i]).value in keys) ==>
              ChildMap(rows[..i + 1], keys) == ChildMap(rows[..i], keys)
    ensures RootIds(rows[..i + 1]) == RootIds(rows[..i]) + (if Truthy(ParentOf(rows[i])) then [] else [IdOf(rows[i])])
  {
    assert rows[..i + 1] == rows[..i] + [rows[i]];
    assert (rows[..i] + [rows[i]])[..i] == rows[..i];
    ChildMapStep(rows[..i], rows[i], keys);
  }

  /** The lookup holds every id of the rows, each to the last row with it. */
  lemma {:induction false} NodeMapLast(rows: seq<JoinedRow>, x: Uuid)
    ensures x in NodeMap(rows) <==> exists r :: r in rows && IdOf(r) == x
    ensures x in NodeMap(rows) ==>
              exists i :: 0 <= i < |rows| && rows[i] == NodeMap(rows)[x] && IdOf(rows[i]) == x
                          && forall j :: i < j < |rows| ==> IdOf(rows[j]) != x
  {
    if rows != [] {
      var prefix := rows[..|rows| - 1];
      NodeMapLast(prefix, x);
      assert rows == prefix + [rows[|rows| - 1]];
      if x in NodeMap(prefix) && IdOf(rows[|rows| - 1]) != x {
        var i :| 0 <= i < |prefix| && prefix[i] == NodeMap(prefix)[x] && IdOf(prefix[i]) == x
                 && forall j :: i < j < |prefix| ==> IdOf(prefix[j]) != x;
        assert rows[i] == prefix[i];
      }
      if exists r :: r in rows && IdOf(r) == x {
        var r :| r in rows && IdOf(r) == x;
        if r != rows[|rows| - 1] {
          assert r in prefix;
        }
      }
    }
  }

  /** The roots are the ids of the rows with a falsy parent. */
  lemma {:induction false} RootIdsMember(rows: seq<JoinedRow>, y: Uuid)
    ensures y in RootIds(rows) <==> exists r :: r in rows && IdOf(r) == y && !Truthy(ParentOf(r))
  {
    if rows != [] {
      var prefix := rows[..|rows| - 1];
      RootIdsMember(prefix, y);
      assert rows == prefix + [rows[|rows| - 1]];
      if exists r :: r in rows && IdOf(r) == y && !Truthy(ParentOf(r)) {
        var r :| r in rows && IdOf(r) == y && !Truthy(ParentOf(r));
        if r != rows[|rows| - 1] {
          assert r in prefix;
        }
      }
    }
  }

  /** The children of `x` are the ids of the rows whose truthy parent is `x`. */
  lemma {:induction false} ChildrenOfMember(rows: seq<JoinedRow>, x: Uuid, y: Uuid)
    ensures y in ChildrenOf(rows, x) <==> exists r :: r in rows && IdOf(r) == y && Truthy(ParentOf(r)) && ParentOf(r).value == x
  {
    if rows != [] {
      var prefix := rows[..|rows| - 1];
      ChildrenOfMember(prefix, x, y);
      assert rows == prefix + [rows[|rows| - 1]];
      if exists r :: r in rows && IdOf(r) == y && Truthy(ParentOf(r)) && ParentOf(r).value == x {
        var r :| r in rows && IdOf(r) == y && Truthy(ParentOf(r)) && ParentOf(r).value == x;
        if r != rows[|rows| - 1] {
          assert r in prefix;
        }
      }
    }
  }

  /** A row whose parent is missing from the rows is dropped: its id is
      neither a root nor anyone's child (when the other rows with its id say
      the same parent). */
  lemma OrphanDropped(rows: seq<JoinedRow>, r: JoinedRow)
    requires r in rows && Truthy(ParentOf(r)) && ParentOf(r).value !in NodeMap(rows)
    requires forall o :: o in rows && IdOf(o) == IdOf(r) ==> ParentOf(o) == ParentOf(r)
    ensures IdOf(r) !in RootIds(rows)
    ensures forall x :: x in NodeMap(rows) ==> IdOf(r) !in ChildMap(rows, NodeMap(rows).Keys)[x]
  {
    RootIdsMember(rows, IdOf(r));
    forall x | x in NodeMap(rows) ensures IdOf(r) !in ChildMap(rows, NodeMap(rows).Keys)[x] {
      ChildrenOfMember(rows, x, IdOf(r));
    }
  }

  /** Nothing the titles query returns is dropped by the assembly: every row
      of a session page is a root or the child of a node of the page. */
  lemma PageRowsPlaced(db: Db, sessionId: Id, moduleId: Id, kind: string, r: JoinedRow)
    requires r in TitleRows(db, sessionId, moduleId, kind)
    ensures var rows := TitleRows(db, sessionId, moduleId, kind);
            IdOf(r) in RootIds(rows)
            || (ParentOf(r).Some? && ParentOf(r).value in NodeMap(rows) && IdOf(r) in ChildMap(rows, NodeMap(rows).Keys)[ParentOf(r).value])
  {
    var rows := TitleRows(db, sessionId, moduleId, kind);
    var h :| h in Hierarchy(db, moduleId, kind) && r in JoinProgress(db.progress, sessionId, h);
    RootIdsMember(rows, IdOf(r));
    if h.level == 0 {
      HierarchyRoots(db, moduleId, kind, h);
    } else if Truthy(ParentOf(r)) {
      HierarchyParent(db, moduleId, kind, h);
      var up :| up in Hierarchy(db, moduleId, kind) && up.level + 1 == h.level && h.title.parentId == Some(up.title.id);
      var o := JoinProgress(db.progress, sessionId, up)[0];
      assert o in rows;
      NodeMapLast(rows, up.title.id);
      ChildrenOfMember(rows, ParentOf(r).value, IdOf(r));
    }
  }

  /** The session titles page: the titles as a forest with their completion
      marks, and the progress. */
  datatype TitlesPage = SessionNotFound
                      | TitlesPage(session: SessionHead, nodes: map<Uuid, JoinedRow>, children: map<Uuid, seq<Uuid>>,
                                   roots: seq<Uuid>, progress: Progress)

  method SessionTitles(db: Db, sessionId: Id) returns (page: TitlesPage)
    ensures page.SessionNotFound? <==> FindSessionHead(db, sessionId).None?
    ensures page.TitlesPage? ==>
              var head := FindSessionHead(db, sessionId).value;
              var rows := TitleRows(db, sessionId, head.moduleId, head.kind);
              && page.session == head
              && page.nodes == NodeMap(rows) && page.children == ChildMap(rows, page.nodes.Keys) && page.roots == RootIds(rows)
              && page.progress == PageProgress(db, sessionId, head.moduleId, head.kind)
  {
    var found := FindSessionHead(db, sessionId);
    if found.None? {
      return SessionNotFound;
    }
    var head := found.value;
    var rows := TitleRows(db, sessionId, head.moduleId, head.kind);
    var nodes, children, roots := Organize(rows);
    page := TitlesPage(head, nodes, children, roots, PageProgress(db, sessionId, head.moduleId, head.kind));
  }

  // ---------------------------------------------------------------------
  // POST /:professorId/title-progress

  /** The professor teaches that session, in the module of that title. */
  predicate TitleAccess(db: Db, profId: Id, titleId: Uuid, sessionId: Id)
  {
    exists t, s :: t in db.titles && s in db.sessions && t.id == titleId && s.id == sessionId
                   && s.profId == profId && t.moduleId == s.moduleId
  }

  /** UPDATE ... SET is_completed WHERE id = key: every row with that key. */
  function SetCompleted(progress: seq<TitleProgress>, key: Uuid, isCompleted: bool): (r: seq<TitleProgress>)
    ensures |r| == |progress|
    ensures forall i :: 0 <= i < |r| ==>
              r[i] == if progress[i].id == key then progress[i].(isCompleted := isCompleted) else progress[i]
  {
    seq(|progress|, i requires 0 <= i < |progress| =>
      if progress[i].id == key then progress[i].(isCompleted := isCompleted) else progress[i])
  }

  datatype Upserted = NoTitleAccess | Upserted(row: TitleProgress, progress: seq<TitleProgress>)

  /** 403 without access; otherwise the first row of the (session, title)
      pair gets the new mark, or a row is inserted under `newKey`. */
  function UpsertProgress(db: Db, profId: Id, titleId: Uuid, isCompleted: bool, sessionId: Id, newKey: Uuid): (r: Upserted)
    ensures r.NoTitleAccess? <==> !TitleAccess(db, profId, titleId, sessionId)
    ensures r.Upserted? ==>
              && r.row.sessionId == sessionId && r.row.titleId == titleId && r.row.isCompleted == isCompleted
              && r.row in r.progress
              && forall p :: p in db.progress && p.id != r.row.id ==> p in r.progress
    ensures r.Upserted? && ProgressOf(db.progress, sessionId, titleId) == [] ==>
              r.progress == db.progress + [TitleProgress(newKey, titleId, isCompleted, sessionId)]
    ensures r.Upserted? && ProgressOf(db.progress, sessionId, titleId) != [] ==>
              r.row.id == ProgressOf(db.progress, sessionId, titleId)[0].id
              && r.progress == SetCompleted(db.progress, r.row.id, isCompleted)
  {
    if !TitleAccess(db, profId, titleId, sessionId) then NoTitleAccess
    else
      var existing := ProgressOf(db.progress, sessionId, titleId);
      if existing == [] then
        var row := TitleProgress(newKey, titleId, isCompleted, sessionId);
        Upserted(row, db.progress + [row])
      else
        var e := existing[0];
        var r := SetCompleted(db.progress, e.id, isCompleted);
        var k :| 0 <= k < |db.progress| && db.progress[k] == e;
        assert r[k] == e.(isCompleted := isCompleted);
        forall p | p in db.progress && p.id != e.id ensures p in r {
          var j :| 0 <= j < |db.progress| && db.progress[j] == p;
          assert r[j] == p;
        }
        Upserted(e.(isCompleted := isCompleted), r)
  }

  /** With one row per (session, title), after the upsert every row of the
      pair carries the new mark, and there is still one row per pair. */
  lemma UpsertMarksPair(db: Db, profId: Id, titleId: Uuid, isCompleted: bool, sessionId: Id, newKey: Uuid)
    requires ProgressUnique(db.progress)
    requires UpsertProgress(db, profId, titleId, isCompleted, sessionId, newKey).Upserted?
    ensures var after := UpsertProgress(db, profId, titleId, isCompleted, sessionId, newKey).progress;
            && ProgressUnique(after)
            && forall p :: p in after && p.sessionId == sessionId && p.titleId == titleId ==> p.isCompleted == isCompleted
  {
    var r := UpsertProgress(db, profId, titleId, isCompleted, sessionId, newKey);
    var existing := ProgressOf(db.progress, sessionId, titleId);
    if existing != [] {
      var e := existing[0];
      var k :| 0 <= k < |db.progress| && db.progress[k] == e;
      forall i | 0 <= i < |r.progress| && r.progress[i].sessionId == sessionId && r.progress[i].titleId == titleId
        ensures r.progress[i].isCompleted == isCompleted
      {
        if i != k {
          assert db.progress[i].sessionId == sessionId && db.progress[i].titleId == titleId;
        }
      }
    }
  }

  // ---------------------------------------------------------------------
  // POST /:professorId/title-progress/bulk

  /** The request body: `titleIds` is None when missing or not an array. */
  datatype BulkRequest = BulkRequest(titleIds: Option<seq<Uuid>>, isCompleted: bool, sessionId: Option<Id>)

  datatype BulkOutcome = BadBulkRequest | NoSessionAccess | BulkUpdated(count: nat, progress: seq<TitleProgress>)

  /** One new completed row per listed id, in list order, keyed from `firstKey` on. */
  function Inserted(titleIds: seq<Uuid>, sessionId: Id, firstKey: nat): (rows: seq<TitleProgress>)
    ensures |rows| == |titleIds|
    ensures forall i :: 0 <= i < |rows| ==> rows[i] == TitleProgress(MintedId(firstKey + i), titleIds[i], true, sessionId)
  {
    if titleIds == [] then []
    else [TitleProgress(MintedId(firstKey), titleIds[0], true, sessionId)] + Inserted(titleIds[1..], sessionId, firstKey + 1)
  }

  predicate Listed(p: TitleProgress, sessionId: Id, titleIds: seq<Uuid>)
  {
    p.sessionId == sessionId && p.titleId in titleIds
  }

  /** 400 for a missing list or a falsy session; 403 unless the professor
      teaches the session; otherwise the session's rows of the listed titles
      are deleted and, when completing, one row per listed id is inserted. */
  function BulkProgress(db: Db, profId: Id, req: BulkRequest, firstKey: nat): (r: BulkOutcome)
    ensures r.BadBulkRequest? <==> req.titleIds.None? || req.sessionId.None? || req.sessionId.value == 0
    ensures r.NoSessionAccess? <==>
              !r.BadBulkRequest? && !exists s :: s in db.sessions && s.id == req.sessionId.value && s.profId == profId
    ensures r.BulkUpdated? ==> r.count == |req.titleIds.value|
  {
    if req.titleIds.None? || req.sessionId.None? || req.sessionId.value == 0 then BadBulkRequest
    else if !exists s :: s in db.sessions && s.id == req.sessionId.value && s.profId == profId then NoSessionAccess
    else
      var ids := req.titleIds.value;
      var sid := req.sessionId.value;
      var kept := Filter(db.progress, (p: TitleProgress) => !Listed(p, sid, ids));
      BulkUpdated(|ids|, kept + (if req.isCompleted then Inserted(ids, sid, firstKey) else []))
  }

  lemma {:induction false} ProgressOfAppend(a: seq<TitleProgress>, b: seq<TitleProgress>, sessionId: Id, titleId: Uuid)
    ensures ProgressOf(a + b, sessionId, titleId) == ProgressOf(a, sessionId, titleId) + ProgressOf(b, sessionId, titleId)
  {
    if a == [] {
      assert a + b == b;
    } else {
      assert (a + b)[1..] == a[1..] + b;
      ProgressOfAppend(a[1..], b, sessionId, titleId);
    }
  }

  lemma {:induction false} InsertedCount(titleIds: seq<Uuid>, sessionId: Id, firstKey: nat, x: Uuid)
    ensures |ProgressOf(Inserted(titleIds, sessionId, firstKey), sessionId, x)| == multiset(titleIds)[x]
    ensures forall p :: p in ProgressOf(Inserted(titleIds, sessionId, firstKey), sessionId, x) ==> p.isCompleted
  {
    if titleIds != [] {
      var rest := Inserted(titleIds[1..], sessionId, firstKey + 1);
      InsertedCount(titleIds[1..], sessionId, firstKey + 1, x);
      assert titleIds == [titleIds[0]] + titleIds[1..];
      assert multiset(titleIds)[x] == (if titleIds[0] == x then 1 else 0) + multiset(titleIds[1..])[x];
      var rows := Inserted(titleIds, sessionId, firstKey);
      assert rows[1..] == rest;
      assert ProgressOf(rows, sessionId, x)
        == (if titleIds[0] == x then [rows[0]] else []) + ProgressOf(rest, sessionId, x);
    }
  }

  /** After a bulk update, a listed title of the session has as many rows as
      it is listed when completing, all completed, and none otherwise: a
      title listed twice gets two rows. */
  lemma BulkListedCount(db: Db, profId: Id, req: BulkRequest, firstKey: nat, x: Uuid)
    requires BulkProgress(db, profId, req, firstKey).BulkUpdated?
    requires x in req.titleIds.value
    ensures var rows := ProgressOf(BulkProgress(db, profId, req, firstKey).progress, req.sessionId.value, x);
            && |rows| == (if req.isCompleted then multiset(req.titleIds.value)[x] else 0)
            && forall p :: p in rows ==> p.isCompleted
  {
    var ids := req.titleIds.value;
    var sid := req.sessionId.value;
    var keep := (p: TitleProgress) => !Listed(p, sid, ids);
    var kept := Filter(db.progress, keep);
    forall p | p in kept ensures p.sessionId != sid || p.titleId != x {
      FilterMember(db.progress, keep, p);
    }
    NoProgressOf(kept, sid, x);
    var added := if req.isCompleted then Inserted(ids, sid, firstKey) else [];
    ProgressOfAppend(kept, added, sid, x);
    if req.isCompleted {
      InsertedCount(ids, sid, firstKey, x);
    } else {
      assert ProgressOf(added, sid, x) == [];
    }
  }

  /** A bulk update keeps every row outside the listed titles of the session,
      and every row it holds is such a kept row or a new completed row of a
      listed title. */
  lemma BulkKeepsOthers(db: Db, profId: Id, req: BulkRequest, firstKey: nat, p: TitleProgress)
    requires BulkProgress(db, profId, req, firstKey).BulkUpdated?
    ensures p in db.progress && !Listed(p, req.sessionId.value, req.titleIds.value) ==>
              p in BulkProgress(db, profId, req, firstKey).progress
    ensures p in BulkProgress(db, profId, req, firstKey).progress ==>
              (p in db.progress && !Listed(p, req.sessionId.value, req.titleIds.value))
              || (req.isCompleted && Listed(p, req.sessionId.value, req.titleIds.value) && p.isCompleted)
  {
    var ids := req.titleIds.value;
    var sid := req.sessionId.value;
    var keep := (p: TitleProgress) => !Listed(p, sid, ids);
    FilterMember(db.progress, keep, p);
  }
}
