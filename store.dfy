/** The database as one mutable store: every route that writes is a method
    that replaces the tables it changes, in one atomic step. Keys that the
    database would generate with gen_random_uuid() or uuidv4() are handed out
    by a counter. */
module Store {
  import opened Common
  import opened Tables
  import opened Sorting
  import Rollup
  import Makeup
  import DebtSessions
  import Titles
  import ProfessorProgress

  /** An item of the structure saved by saveModuleTitlesStructure. */
  datatype Item = Item(id: Option<string>, name: string, children: seq<Item>)

  /** `item.id && !item.id.startsWith('temp-')`: the item names a stored title. */
  predicate Existing(id: Option<string>)
  {
    Truthy(id) && !("temp-" <= id.value)
  }

  /** How many items of a structure are new, and so get a new row. */
  function NewItems(items: seq<Item>): nat
    decreases items
  {
    if items == [] then 0
    else (if Existing(items[0].id) then 0 else 1) + NewItems(items[0].children) + NewItems(items[1..])
  }

  /** The stored title an item names, if it names one. */
  ghost function OwnId(item: Item): set<string>
  {
    if Existing(item.id) then {item.id.value} else {}
  }

  /** The stored titles a structure names, at any depth. */
  ghost function Named(items: seq<Item>): set<string>
    decreases items
  {
    if items == [] then {} else OwnId(items[0]) + Named(items[0].children) + Named(items[1..])
  }

  lemma {:induction false} NamedAppend(a: seq<Item>, b: seq<Item>)
    ensures Named(a + b) == Named(a) + Named(b)
  {
    if a != [] {
      assert (a + b)[0] == a[0];
      assert (a + b)[1..] == a[1..] + b;
      NamedAppend(a[1..], b);
    } else {
      assert a + b == b;
    }
  }

  lemma NamedStep(items: seq<Item>, index: nat)
    requires index < |items|
    ensures Named(items[..index + 1]) == Named(items[..index]) + OwnId(items[index]) + Named(items[index].children)
  {
    assert items[..index + 1] == items[..index] + [items[index]];
    NamedAppend(items[..index], [items[index]]);
    assert [items[index]][1..] == [];
  }

  /** From `before` to `after` only rows whose id is in `ids` change, and
      rows are only appended. */
  ghost predicate Keeps(before: seq<Title>, after: seq<Title>, ids: set<string>)
  {
    |before| <= |after| && forall i :: 0 <= i < |before| && before[i].id !in ids ==> after[i] == before[i]
  }

  lemma KeepsTransitive(a: seq<Title>, b: seq<Title>, c: seq<Title>, ids1: set<string>, ids2: set<string>)
    requires Keeps(a, b, ids1) && Keeps(b, c, ids2)
    requires forall i :: 0 <= i < |a| ==> b[i].id == a[i].id
    ensures Keeps(a, c, ids1 + ids2)
  {
  }

  /** The structure sent back: the same tree, the same names, stored ids
      kept and every item now carrying an id. */
  predicate WrittenBack(items: seq<Item>, out: seq<Item>)
    decreases items
  {
    && |out| == |items|
    && forall i :: 0 <= i < |items| ==>
         && out[i].name == items[i].name
         && Truthy(out[i].id)
         && (Existing(items[i].id) ==> out[i].id == items[i].id)
         && WrittenBack(items[i].children, out[i].children)
  }

  /** The UPDATE of one structure item: every row with that id in that
      module and type gets the position, the parent and the name. */
  function Relocate(titles: seq<Title>, id: Uuid, moduleId: Id, kind: string, order: int, parent: Option<Uuid>, name: string): (r: seq<Title>)
    ensures |r| == |titles|
    ensures forall i :: 0 <= i < |r| ==>
              r[i] == if titles[i].id == id && titles[i].moduleId == moduleId && titles[i].kind == kind
                      then titles[i].(order := order, parentId := parent, name := name)
                      else titles[i]
  {
    seq(|titles|, i requires 0 <= i < |titles| =>
      if titles[i].id == id && titles[i].moduleId == moduleId && titles[i].kind == kind
      then titles[i].(order := order, parentId := parent, name := name)
      else titles[i])
  }

  /** From `before` to `after` a structure save only renames, moves and
      appends: rows keep their id, module and type, rows of other modules or
      types are untouched, and the appended rows carry consecutive new keys
      from `first` on, in the module and type. */
  ghost predicate Grows(before: seq<Title>, after: seq<Title>, moduleId: Id, kind: string, first: nat)
  {
    && |before| <= |after|
    && (forall i :: 0 <= i < |before| ==>
          && after[i].id == before[i].id && after[i].moduleId == before[i].moduleId && after[i].kind == before[i].kind
          && ((before[i].moduleId != moduleId || before[i].kind != kind) ==> after[i] == before[i]))
    && (forall i :: |before| <= i < |after| ==>
          after[i].id == MintedId(first + i - |before|) && after[i].moduleId == moduleId && after[i].kind == kind)
  }

  lemma GrowsTransitive(a: seq<Title>, b: seq<Title>, c: seq<Title>, moduleId: Id, kind: string, first: nat)
    requires Grows(a, b, moduleId, kind, first)
    requires Grows(b, c, moduleId, kind, first + |b| - |a|)
    ensures Grows(a, c, moduleId, kind, first)
  {
  }

  lemma {:induction false} NewItemsCons(items: seq<Item>)
    requires items != []
    ensures NewItems(items) == (if Existing(items[0].id) then 0 else 1) + NewItems(items[0].children) + NewItems(items[1..])
  {
  }

  lemma {:induction false} NewItemsAppend(a: seq<Item>, b: seq<Item>)
    ensures NewItems(a + b) == NewItems(a) + NewItems(b)
  {
    if a != [] {
      assert (a + b)[0] == a[0];
      assert (a + b)[1..] == a[1..] + b;
      NewItemsAppend(a[1..], b);
    } else {
      assert a + b == b;
    }
  }

  lemma {:induction false} NewItemsStep(items: seq<Item>, index: nat)
    requires index < |items|
    ensures NewItems(items[..index + 1]) ==
              NewItems(items[..index]) + (if Existing(items[index].id) then 0 else 1) + NewItems(items[index].children)
  {
    assert items[..index + 1] == items[..index] + [items[index]];
    NewItemsAppend(items[..index], [items[index]]);
    NewItemsCons([items[index]]);
    assert [items[index]][1..] == [];
  }

  lemma WrittenBackSnoc(items: seq<Item>, index: nat, out: seq<Item>, o: Item)
    requires index < |items|
    requires WrittenBack(items[..index], out)
    requires o.name == items[index].name && Truthy(o.id) && (Existing(items[index].id) ==> o.id == items[index].id)
    requires WrittenBack(items[index].children, o.children)
    ensures WrittenBack(items[..index + 1], out + [o])
  {
    assert items[..index + 1] == items[..index] + [items[index]];
  }

  lemma RelocateGrows(titles: seq<Title>, id: Uuid, moduleId: Id, kind: string, order: int, parent: Option<Uuid>, name: string, first: nat)
    ensures Grows(titles, Relocate(titles, id, moduleId, kind, order, parent, name), moduleId, kind, first)
  {
  }

  lemma AppendGrows(titles: seq<Title>, row: Title, moduleId: Id, kind: string, first: nat)
    requires row.id == MintedId(first) && row.moduleId == moduleId && row.kind == kind
    ensures Grows(titles, titles + [row], moduleId, kind, first)
  {
  }

  /** Every row below `x` in the titles before the delete started, given by
      the first `i` children of `x`. */
  ghost predicate GoneBelow(titles: seq<Title>, rank: Uuid -> nat, children: seq<Uuid>, i: int, d: Uuid)
    requires 0 <= i <= |children|
  {
    exists j :: 0 <= j < i && Titles.Below(titles, rank, children[j], d)
  }

  /** Deleting the subtree of the next child removes, of the rows still
      there, exactly those below that child in the original titles. */
  lemma GoneStep(titles0: seq<Title>, titles1: seq<Title>, rank: Uuid -> nat, children: seq<Uuid>, i: nat, d: Uuid)
    requires i < |children|
    requires forall t :: t in titles1 <==> t in titles0 && !GoneBelow(titles0, rank, children, i, t.id)
    ensures GoneBelow(titles0, rank, children, i + 1, d) <==>
              GoneBelow(titles0, rank, children, i, d) || Titles.Below(titles0, rank, children[i], d)
    ensures !GoneBelow(titles0, rank, children, i, d) ==>
              (Titles.Below(titles1, rank, children[i], d) <==> Titles.Below(titles0, rank, children[i], d))
  {
    if GoneBelow(titles0, rank, children, i + 1, d) {
      var j :| 0 <= j < i + 1 && Titles.Below(titles0, rank, children[j], d);
    }
    if Titles.Below(titles1, rank, children[i], d) {
      Titles.BelowShrinks(titles1, titles0, rank, children[i], d);
    }
    if !GoneBelow(titles0, rank, children, i, d) && Titles.Below(titles0, rank, children[i], d) {
      forall u | u in titles0 && Titles.Below(titles0, rank, u.id, d) ensures u in titles1 {
        if GoneBelow(titles0, rank, children, i, u.id) {
          var j :| 0 <= j < i && Titles.Below(titles0, rank, children[j], u.id);
          Titles.BelowTransitive(titles0, rank, children[j], u.id, d);
        }
      }
      Titles.BelowKept(titles1, titles0, rank, children[i], d);
    }
  }

  /** Below `x` is `x` itself or below one of its children. */
  lemma GoneAll(titles0: seq<Title>, rank: Uuid -> nat, x: Uuid, children: seq<Uuid>, d: Uuid)
    requires Titles.RankedFrom(titles0, rank, x)
    requires children == Titles.ChildIds(titles0, x)
    ensures Titles.Below(titles0, rank, x, d) <==> d == x || GoneBelow(titles0, rank, children, |children|, d)
  {
    if d != x && Titles.Below(titles0, rank, x, d) {
      var c :| c in titles0 && c.parentId == Some(x) && rank(c.id) < rank(x) && Titles.Below(titles0, rank, c.id, d);
      assert c.id in children;
      var j :| 0 <= j < |children| && children[j] == c.id;
    }
    if GoneBelow(titles0, rank, children, |children|, d) {
      var j :| 0 <= j < |children| && Titles.Below(titles0, rank, children[j], d);
      assert children[j] in children;
      var c :| c in titles0 && c.parentId == Some(x) && c.id == children[j];
    }
  }

  class Store {
    var db: Db
    /** How many keys the store has handed out. */
    var minted: nat

    constructor(initial: Db)
      ensures db == initial && minted == 0
    {
      db := initial;
      minted := 0;
    }

    /** A fresh key for an inserted row. */
    method Mint() returns (key: Uuid)
      modifies this
      ensures key == MintedId(old(minted)) && minted == old(minted) + 1 && db == old(db)
    {
      key := MintedId(minted);
      minted := minted + 1;
    }

    /** POST /select-session (routes/makeup.js). */
    method SelectSession(studentId: Id, attendanceId: Id, occurrenceId: Id) returns (r: Makeup.SelectOutcome)
      modifies this
      ensures r == Makeup.SelectDecision(old(db), studentId, attendanceId, occurrenceId)
      ensures db == Makeup.SelectApply(old(db), studentId, attendanceId, occurrenceId, MintedId(old(minted)))
      ensures minted == old(minted) + 1
    {
      var key := Mint();
      r := Makeup.SelectDecision(db, studentId, attendanceId, occurrenceId);
      db := Makeup.SelectApply(db, studentId, attendanceId, occurrenceId, key);
    }

    /** POST /register-session (routes/debtSessions.js). */
    method RegisterDebtSession(studentId: Id, sessionId: Id)
      modifies this
      ensures db == DebtSessions.Register(old(db), studentId, sessionId) && minted == old(minted)
    {
      db := DebtSessions.Register(db, studentId, sessionId);
    }

    /** POST /createModuleTitle: the created title is appended. */
    method CreateTitle(req: Titles.CreateRequest) returns (r: Titles.CreateOutcome)
      modifies this
      ensures r == Titles.CreateTitle(old(db), req, MintedId(old(minted)))
      ensures r.Created? ==> db == old(db).(titles := old(db.titles) + [r.title])
      ensures !r.Created? ==> db == old(db)
      ensures minted == old(minted) + 1
    {
      var key := Mint();
      r := Titles.CreateTitle(db, req, key);
      if r.Created? {
        db := db.(titles := db.titles + [r.title]);
      }
    }

    /** PUT /updateModuleTitle/:id, with a left-out parent keeping the
        title's own. */
    method UpdateTitle(id: Uuid, req: Titles.UpdateRequest) returns (plan: Titles.UpdatePlan)
      modifies this
      ensures plan == Titles.PlanUpdate(old(db), id, req)
      ensures plan.Apply? ==> db == old(db).(titles := Titles.UpdateRows(old(db.titles), id, plan))
      ensures !plan.Apply? ==> db == old(db)
      ensures minted == old(minted)
    {
      plan := Titles.PlanUpdate(db, id, req);
      if plan.Apply? {
        db := db.(titles := Titles.UpdateRows(db.titles, id, plan));
      }
    }

    /** deleteChildren: the children of `x` are read, each subtree is
        deleted, then the progress rows of `x` and the rows of `x` go. Every
        title below `x` goes with its progress rows; nothing else changes.
        `rank` witnesses that the parent links below `x` have no cycle. */
    method DeleteSubtree(x: Uuid, ghost rank: Uuid -> nat)
      requires Titles.RankedFrom(db.titles, rank, x)
      modifies this
      ensures forall t :: t in db.titles <==> t in old(db.titles) && !Titles.Below(old(db.titles), rank, x, t.id)
      ensures forall p :: p in db.progress <==> p in old(db.progress) && !Titles.Below(old(db.titles), rank, x, p.titleId)
      ensures db == old(db).(titles := db.titles, progress := db.progress)
      ensures minted == old(minted)
      decreases rank(x)
    {
      ghost var titles0 := db.titles;
      ghost var progress0 := db.progress;
      var children := Titles.ChildIds(db.titles, x);
      var i := 0;
      while i < |children|
        invariant 0 <= i <= |children|
        invariant forall t :: t in db.titles <==> t in titles0 && !GoneBelow(titles0, rank, children, i, t.id)
        invariant forall p :: p in db.progress <==> p in progress0 && !GoneBelow(titles0, rank, children, i, p.titleId)
        invariant db == old(db).(titles := db.titles, progress := db.progress)
        invariant minted == old(minted)
      {
        assert children[i] in children;
        ghost var c :| c in titles0 && c.parentId == Some(x) && c.id == children[i];
        Titles.RankedFromShrinks(db.titles, titles0, rank, c.id);
        ghost var titles1 := db.titles;
        DeleteSubtree(children[i], rank);
        forall d {
          GoneStep(titles0, titles1, rank, children, i, d);
        }
        i := i + 1;
      }
      forall d {
        GoneAll(titles0, rank, x, children, d);
      }
      var keepProgress := (p: TitleProgress) => p.titleId != x;
      var keepTitle := (t: Title) => t.id != x;
      forall p ensures p in Filter(db.progress, keepProgress) <==> p in db.progress && p.titleId != x {
        FilterMember(db.progress, keepProgress, p);
      }
      forall t ensures t in Filter(db.titles, keepTitle) <==> t in db.titles && t.id != x {
        FilterMember(db.titles, keepTitle, t);
      }
      db := db.(progress := Filter(db.progress, keepProgress), titles := Filter(db.titles, keepTitle));
    }
  
    /** DELETE /deleteModuleTitle/:id: 404 for an unknown title, else the
        title's subtree goes. */
    method DeleteTitle(id: Uuid, ghost rank: Uuid -> nat) returns (found: bool)
      requires Titles.RankedFrom(db.titles, rank, id)
      modifies this
      ensures found <==> FindTitle(old(db), id).Some?
      ensures !found ==> db == old(db)
      ensures found ==>
                && (forall t :: t in db.titles <==> t in old(db.titles) && !Titles.Below(old(db.titles), rank, id, t.id))
                && (forall p :: p in db.progress <==> p in old(db.progress) && !Titles.Below(old(db.titles), rank, id, p.titleId))
                && db == old(db).(titles := db.titles, progress := db.progress)
      ensures minted == old(minted)
    {
      found := FindTitle(db, id).Some?;
      if found {
        DeleteSubtree(id, rank);
      }
    }

    /** processStructure: each item, at its position, is moved and renamed
        when it names a stored title, else inserted under a new key that is
        written back into it; then its children are processed under it. */
    method ProcessStructure(items: seq<Item>, parentId: Option<Uuid>, moduleId: Id, kind: string) returns (out: seq<Item>)
      modifies this
      ensures WrittenBack(items, out)
      ensures Grows(old(db.titles), db.titles, moduleId, kind, old(minted))
      ensures Keeps(old(db.titles), db.titles, Named(items))
      ensures minted == old(minted) + NewItems(items) && |db.titles| == |old(db.titles)| + NewItems(items)
      ensures db == old(db).(titles := db.titles)
      decreases items, 1
    {
      out := [];
      var index := 0;
      while index < |items|
        invariant 0 <= index <= |items|
        invariant WrittenBack(items[..index], out)
        invariant Grows(old(db.titles), db.titles, moduleId, kind, old(minted))
        invariant Keeps(old(db.titles), db.titles, Named(items[..index]))
        invariant minted == old(minted) + NewItems(items[..index])
        invariant |db.titles| == |old(db.titles)| + NewItems(items[..index])
        invariant db == old(db).(titles := db.titles)
      {
        ghost var before := db.titles;
        var item := ProcessItem(items, index, parentId, moduleId, kind);
        GrowsTransitive(old(db.titles), before, db.titles, moduleId, kind, old(minted));
        KeepsTransitive(old(db.titles), before, db.titles, Named(items[..index]), OwnId(items[index]) + Named(items[index].children));
        NamedStep(items, index);
        WrittenBackSnoc(items, index, out, item);
        out := out + [item];
        NewItemsStep(items, index);
        index := index + 1;
      }
      assert items[..index] == items;
    }

    /** One item of processStructure, at position `index` under `parentId`. */
    method ProcessItem(items: seq<Item>, index: nat, parentId: Option<Uuid>, moduleId: Id, kind: string) returns (o: Item)
      requires index < |items|
      modifies this
      ensures o.name == items[index].name && Truthy(o.id) && (Existing(items[index].id) ==> o.id == items[index].id)
      ensures WrittenBack(items[index].children, o.children)
      ensures Grows(old(db.titles), db.titles, moduleId, kind, old(minted))
      ensures Keeps(old(db.titles), db.titles, OwnId(items[index]) + Named(items[index].children))
      ensures minted - old(minted) == |db.titles| - |old(db.titles)| ==
                (if Existing(items[index].id) then 0 else 1) + NewItems(items[index].children)
      ensures db == old(db).(titles := db.titles)
      // The row the item itself writes, unless one of its descendants names it again.
      ensures Existing(items[index].id) && items[index].id.value !in Named(items[index].children) ==>
                forall i :: 0 <= i < |old(db.titles)| && old(db.titles)[i].id == items[index].id.value
                            && old(db.titles)[i].moduleId == moduleId && old(db.titles)[i].kind == kind ==>
                  db.titles[i] == old(db.titles)[i].(order := index, parentId := parentId, name := items[index].name)
      ensures !Existing(items[index].id) && MintedId(old(minted)) !in Named(items[index].children) ==>
                |old(db.titles)| < |db.titles|
                && db.titles[|old(db.titles)|] == Title(MintedId(old(minted)), moduleId, items[index].name, kind, parentId, index)
      decreases items, 0
    {
      var item := items[index];
      ghost var mintedBefore := minted;
      var id: Uuid;
      if Existing(item.id) {
        id := item.id.value;
        RelocateGrows(db.titles, id, moduleId, kind, index, parentId, item.name, mintedBefore);
          db := db.(titles := Relocate(db.titles, id, moduleId, kind, index, parentId, item.name));
      } else {
        id := Mint();
        var row := Title(id, moduleId, item.name, kind, parentId, index);
        AppendGrows(db.titles, row, moduleId, kind, mintedBefore);
          db := db.(titles := db.titles + [row]);
      }
      assert Keeps(old(db.titles), db.titles, OwnId(item));
      var kids := item.children;
      ghost var middle := db.titles;
      if |item.children| > 0 {
        kids := ProcessStructure(item.children, Some(id), moduleId, kind);
        GrowsTransitive(old(db.titles), middle, db.titles, moduleId, kind, old(minted));
      } else {
        assert Named(item.children) == {};
      }
      assert Keeps(middle, db.titles, Named(item.children));
      KeepsTransitive(old(db.titles), middle, db.titles, OwnId(item), Named(item.children));
      o := Item(Some(id), item.name, kids);
    }

    /** POST /saveModuleTitlesStructure/:moduleId/:type. */
    method SaveStructure(moduleId: Id, kind: string, items: seq<Item>) returns (out: seq<Item>)
      modifies this
      ensures WrittenBack(items, out)
      ensures Grows(old(db.titles), db.titles, moduleId, kind, old(minted))
      ensures minted == old(minted) + NewItems(items) && |db.titles| == |old(db.titles)| + NewItems(items)
      ensures db == old(db).(titles := db.titles)
    {
      out := ProcessStructure(items, None, moduleId, kind);
    }

    /** POST /:professorId/title-progress. */
    method UpsertTitleProgress(profId: Id, titleId: Uuid, isCompleted: bool, sessionId: Id) returns (r: ProfessorProgress.Upserted)
      modifies this
      ensures r == ProfessorProgress.UpsertProgress(old(db), profId, titleId, isCompleted, sessionId, MintedId(old(minted)))
      ensures r.Upserted? ==> db == old(db).(progress := r.progress)
      ensures r.NoTitleAccess? ==> db == old(db)
      ensures minted == old(minted) + 1
    {
      var key := Mint();
      r := ProfessorProgress.UpsertProgress(db, profId, titleId, isCompleted, sessionId, key);
      if r.Upserted? {
        db := db.(progress := r.progress);
      }
    }

    /** POST /:professorId/title-progress/bulk. */
    method BulkUpdateProgress(profId: Id, req: ProfessorProgress.BulkRequest) returns (r: ProfessorProgress.BulkOutcome)
      modifies this
      ensures r == ProfessorProgress.BulkProgress(old(db), profId, req, old(minted))
      ensures r.BulkUpdated? ==> db == old(db).(progress := r.progress)
      ensures r.BulkUpdated? && req.isCompleted ==> minted == old(minted) + |req.titleIds.value|
      ensures !(r.BulkUpdated? && req.isCompleted) ==> minted == old(minted)
      ensures !r.BulkUpdated? ==> db == old(db)
    {
      r := ProfessorProgress.BulkProgress(db, profId, req, minted);
      if r.BulkUpdated? {
        db := db.(progress := r.progress);
        if req.isCompleted {
          minted := minted + |req.titleIds.value|;
        }
      }
    }
  }
}
