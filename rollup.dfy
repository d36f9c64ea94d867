/** Title-progress counts and the integer rounding of percentages, shared by
    every route that reports how far a session has got through its syllabus. */
module Rollup {
  import opened Common
  import opened Tables
  import opened Sorting

  /** `total` joined title rows, `completed` of them marked completed. */
  datatype Counts = Counts(total: nat, completed: nat)

  /** The titles of a module and session type, in table order. */
  function TitlesOf(titles: seq<Title>, moduleId: Id, kind: string): (r: seq<Title>)
    ensures forall i :: 0 <= i < |r| ==> r[i] in titles && r[i].moduleId == moduleId && r[i].kind == kind
    ensures forall t :: t in titles && t.moduleId == moduleId && t.kind == kind ==> t in r
  {
    Filter(titles, (t: Title) => t.moduleId == moduleId && t.kind == kind)
  }

  /** The progress rows of one title in one session. */
  function ProgressOf(progress: seq<TitleProgress>, sessionId: Id, titleId: Uuid): (r: seq<TitleProgress>)
    ensures forall i :: 0 <= i < |r| ==> r[i] in progress && r[i].sessionId == sessionId && r[i].titleId == titleId
    ensures forall p :: p in progress && p.sessionId == sessionId && p.titleId == titleId ==> p in r
  {
    if progress == [] then []
    else
      var p := progress[0];
      (if p.sessionId == sessionId && p.titleId == titleId then [p] else []) + ProgressOf(progress[1..], sessionId, titleId)
  }

  lemma {:induction false} NoProgressOf(progress: seq<TitleProgress>, sessionId: Id, titleId: Uuid)
    requires forall p :: p in progress ==> p.sessionId != sessionId || p.titleId != titleId
    ensures ProgressOf(progress, sessionId, titleId) == []
  {
    if progress != [] {
      NoProgressOf(progress[1..], sessionId, titleId);
    }
  }

  function CountCompleted(ps: seq<TitleProgress>): (n: nat)
    ensures n <= |ps|
  {
    if ps == [] then 0 else (if ps[0].isCompleted then 1 else 0) + CountCompleted(ps[1..])
  }

  /** COUNT and SUM(is_completed) over `titles LEFT JOIN progress ON title and
      session`: a title with no progress row still gives one row, a title with
      several progress rows gives one row per progress row. */
  function JoinCounts(titles: seq<Title>, progress: seq<TitleProgress>, sessionId: Id): (c: Counts)
    ensures c.completed <= c.total
    ensures c.total >= |titles|
  {
    if titles == [] then Counts(0, 0)
    else
      var ps := ProgressOf(progress, sessionId, titles[0].id);
      var rest := JoinCounts(titles[1..], progress, sessionId);
      Counts((if |ps| == 0 then 1 else |ps|) + rest.total, CountCompleted(ps) + rest.completed)
  }

  /** The progress of session `sessionId` through the titles of its module and type. */
  function SessionCounts(db: Db, sessionId: Id, moduleId: Id, kind: string): (c: Counts)
    ensures c.completed <= c.total
    ensures c.total >= |TitlesOf(db.titles, moduleId, kind)|
  {
    JoinCounts(TitlesOf(db.titles, moduleId, kind), db.progress, sessionId)
  }

  /** The title ids that have a completed progress row in the session: what
      COUNT(DISTINCT title_id) counts. */
  ghost function CompletedIds(titles: seq<Title>, progress: seq<TitleProgress>, sessionId: Id): set<Uuid>
  {
    set p, t | p in progress && t in titles && p.sessionId == sessionId && p.isCompleted && p.titleId == t.id :: t.id
  }

  /** At most one progress row per (session, title): what the single upsert keeps. */
  ghost predicate ProgressUnique(progress: seq<TitleProgress>)
  {
    forall i, j :: 0 <= i < j < |progress| ==>
      progress[i].sessionId != progress[j].sessionId || progress[i].titleId != progress[j].titleId
  }

  ghost predicate TitleIdsUnique(titles: seq<Title>)
  {
    forall i, j :: 0 <= i < j < |titles| ==> titles[i].id != titles[j].id
  }

  lemma {:induction false} AtMostOneMatch(progress: seq<TitleProgress>, sessionId: Id, titleId: Uuid)
    requires ProgressUnique(progress)
    ensures |ProgressOf(progress, sessionId, titleId)| <= 1
  {
    if progress != [] {
      var tail := progress[1..];
      assert ProgressUnique(tail) by {
        forall i, j | 0 <= i < j < |tail|
          ensures tail[i].sessionId != tail[j].sessionId || tail[i].titleId != tail[j].titleId
        {
          assert tail[i] == progress[i + 1] && tail[j] == progress[j + 1];
        }
      }
      AtMostOneMatch(tail, sessionId, titleId);
      var p := progress[0];
      if p.sessionId == sessionId && p.titleId == titleId {
        forall q | q in tail
          ensures !(q.sessionId == sessionId && q.titleId == titleId)
        {
          var k :| 0 <= k < |tail| && tail[k] == q;
          assert progress[k + 1] == q;
        }
        NoProgressOf(tail, sessionId, titleId);
      }
    }
  }

  lemma {:induction false} CompletedOfOne(ps: seq<TitleProgress>)
    requires |ps| <= 1
    ensures CountCompleted(ps) == (if exists p :: p in ps && p.isCompleted then 1 else 0)
  {
    if |ps| == 1 {
      assert ps[1..] == [];
    }
  }

  /** With unique title ids and at most one progress row per (session, title),
      the LEFT JOIN totals count each title once and the completed sum is the
      number of distinct completed titles. */
  lemma {:induction false} JoinCountsUnique(titles: seq<Title>, progress: seq<TitleProgress>, sessionId: Id)
    requires TitleIdsUnique(titles)
    requires ProgressUnique(progress)
    ensures JoinCounts(titles, progress, sessionId).total == |titles|
    ensures JoinCounts(titles, progress, sessionId).completed == |CompletedIds(titles, progress, sessionId)|
  {
    if titles != [] {
      var t := titles[0];
      var tail := titles[1..];
      UniqueTail(titles);
      JoinCountsUnique(tail, progress, sessionId);
      var ps := ProgressOf(progress, sessionId, t.id);
      AtMostOneMatch(progress, sessionId, t.id);
      CompletedOfOne(ps);
      CompletedIdsCons(t, tail, progress, sessionId);
      assert titles == [t] + tail;
    }
  }

  /** Unique ids stay unique in the tail, and the head's id is not among them. */
  lemma UniqueTail(titles: seq<Title>)
    requires titles != [] && TitleIdsUnique(titles)
    ensures TitleIdsUnique(titles[1..])
    ensures forall u :: u in titles[1..] ==> u.id != titles[0].id
  {
    var tail := titles[1..];
    forall i, j | 0 <= i < j < |tail|
      ensures tail[i].id != tail[j].id
    {
      assert tail[i] == titles[i + 1] && tail[j] == titles[j + 1];
    }
    forall u | u in tail
      ensures u.id != titles[0].id
    {
      var k :| 0 <= k < |tail| && tail[k] == u;
      assert titles[k + 1] == u;
    }
  }

  lemma CompletedIdsCons(t: Title, tail: seq<Title>, progress: seq<TitleProgress>, sessionId: Id)
    requires forall u :: u in tail ==> u.id != t.id
    ensures var ps := ProgressOf(progress, sessionId, t.id);
      |CompletedIds([t] + tail, progress, sessionId)| ==
      |CompletedIds(tail, progress, sessionId)| + (if exists p :: p in ps && p.isCompleted then 1 else 0)
  {
    var ps := ProgressOf(progress, sessionId, t.id);
    var all := CompletedIds([t] + tail, progress, sessionId);
    var rest := CompletedIds(tail, progress, sessionId);
    assert t.id !in rest;
    var extra: set<Uuid> := if exists p :: p in ps && p.isCompleted then {t.id} else {};
    forall x | x in all
      ensures x in rest + extra
    {
      var p, u :| p in progress && u in [t] + tail && p.sessionId == sessionId && p.isCompleted && p.titleId == u.id && x == u.id;
      if u == t {
        assert p in ps;
      } else {
        assert u in tail;
      }
    }
    forall x | x in rest + extra
      ensures x in all
    {
      if x in rest {
        var p, u :| p in progress && u in tail && p.sessionId == sessionId && p.isCompleted && p.titleId == u.id && x == u.id;
        assert u in [t] + tail;
      } else {
        var p :| p in ps && p.isCompleted;
        assert t in [t] + tail;
      }
    }
    assert all == rest + extra;
  }

  // ---------------------------------------------------------------------------
  // Rounding. ROUND on PostgreSQL numerics and Math.round both send halves up
  // for the non-negative values here. The model rounds exact quotients; a
  // double product passed to Math.round can fall just below a half.

  /** `n / d` rounded to the nearest integer, halves up. */
  function RoundDiv(n: nat, d: nat): (r: nat)
    requires d > 0
    ensures 2 * r * d <= 2 * n + d < 2 * r * d + 2 * d
  {
    var q := (2 * n + d) / (2 * d);
    assert 2 * n + d == (2 * d) * q + (2 * n + d) % (2 * d);
    assert (2 * d) * q == 2 * q * d;
    q
  }

  /** `completed * 100 / total` rounded, and 0 when there is nothing to count. */
  function Percent(completed: nat, total: nat): (r: nat)
    ensures total == 0 ==> r == 0
    ensures total > 0 ==> 2 * r * total <= 200 * completed + total < 2 * r * total + 2 * total
  {
    if total > 0 then RoundDiv(100 * completed, total) else 0
  }

  /** Cancelling a positive factor from a strict inequality. */
  lemma LessMul(a: int, b: int, t: int)
    requires t > 0 && a * t < b * t
    ensures a < b
  {
  }

  /** A share of `total` is at most 100 percent, and all of it is exactly 100. */
  lemma PercentAtMost100(completed: nat, total: nat)
    requires completed <= total
    ensures Percent(completed, total) <= 100
    ensures total > 0 && completed == total ==> Percent(completed, total) == 100
  {
    var r := Percent(completed, total);
    if total > 0 {
      assert 2 * r * total < 202 * total;
      LessMul(2 * r, 202, total);
      if completed == total {
        assert 199 * total < 2 * r * total;
        LessMul(199, 2 * r, total);
      }
    }
  }

  /** More completed titles never lower the percentage. */
  lemma PercentMonotone(c1: nat, c2: nat, total: nat)
    requires c1 <= c2
    ensures Percent(c1, total) <= Percent(c2, total)
  {
    var r1, r2 := Percent(c1, total), Percent(c2, total);
    if total > 0 {
      assert 2 * r1 * total < (2 * r2 + 2) * total;
      LessMul(2 * r1, 2 * r2 + 2, total);
    }
  }

  /** ROUND(absent * 100.0 / total, 2) in hundredths of a percent, 0 when there is no row to count. */
  function AbsenceHundredths(absent: nat, total: nat): (r: nat)
    ensures total == 0 ==> r == 0
    ensures total > 0 ==> 2 * r * total <= 20000 * absent + total < 2 * r * total + 2 * total
  {
    if total > 0 then RoundDiv(10000 * absent, total) else 0
  }

  lemma AbsenceAtMost100(absent: nat, total: nat)
    requires absent <= total
    ensures AbsenceHundredths(absent, total) <= 10000
    ensures absent == 0 ==> AbsenceHundredths(absent, total) == 0
  {
    var r := AbsenceHundredths(absent, total);
    if total > 0 {
      assert 2 * r * total < 20002 * total;
      LessMul(2 * r, 20002, total);
      if absent == 0 {
        assert 2 * r * total < 2 * total;
        LessMul(2 * r, 2, total);
      }
    }
  }
}
