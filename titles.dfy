/** The syllabus of a module: its titles of one kind (cours, dw, pw) form a
    forest through their parent links; professors list it as a tree, add,
    edit, move and delete titles, and save a whole edited tree back
    (routes/professormodules.js). The state changes themselves are the Store
    methods; this module holds the decisions and the tree. */
module Titles {
  import opened Common
  import opened Tables
  import opened Sorting

  /** The three kinds a title may have. */
  predicate ValidType(kind: string)
  {
    kind == Cours || kind == Pw || kind == Dw
  }

  predicate ByOrder(a: Title, b: Title)
  {
    a.order <= b.order
  }

  lemma ByOrderTotalPreorder()
    ensures TotalPreorder(ByOrder)
  {
  }

  // ---------------------------------------------------------------------
  // getModuleTitles

  /** One title of the tree the route returns. */
  datatype TitleNode = TitleNode(id: Uuid, name: string, kind: string, order: int, children: seq<TitleNode>)

  datatype TitlesResponse = InvalidType | Forest(nodes: seq<TitleNode>)

  /** `pool` less every copy of `k`. */
  function Without(pool: seq<Title>, k: Title): (r: seq<Title>)
    ensures |r| <= |pool|
    ensures k in pool ==> |r| < |pool|
    ensures forall t :: t in r <==> t in pool && t != k
  {
    if pool == [] then []
    else
      assert forall t :: t in pool <==> t == pool[0] || t in pool[1..];
      if pool[0] == k then Without(pool[1..], k)
      else [pool[0]] + Without(pool[1..], k)
  }

  /** Node `n` shows title `t`. */
  predicate Shows(n: TitleNode, t: Title)
  {
    n.id == t.id && n.name == t.name && n.kind == t.kind && n.order == t.order
  }

  /** `r` is one level of the tree: it shows exactly the pool titles whose
      parent is `parent`, by ascending order. */
  ghost predicate Level(pool: seq<Title>, parent: Option<Uuid>, r: seq<TitleNode>)
  {
    && (forall n :: n in r ==> exists t :: t in pool && t.parentId == parent && Shows(n, t))
    && (forall t :: t in pool && t.parentId == parent ==> exists i :: 0 <= i < |r| && Shows(r[i], t))
    && (forall i, j :: 0 <= i < j < |r| ==> r[i].order <= r[j].order)
  }

  /** The titles of `pool` whose parent is `parent`, by ascending order. */
  function Kids(pool: seq<Title>, parent: Option<Uuid>): (kids: seq<Title>)
    ensures forall t :: t in kids <==> t in pool && t.parentId == parent
    ensures forall i, j :: 0 <= i < j < |kids| ==> kids[i].order <= kids[j].order
  {
    var level := Filter(pool, (t: Title) => t.parentId == parent);
    var kids := SortBy(level, ByOrder);
    forall t ensures t in kids <==> t in pool && t.parentId == parent {
      SortByMember(level, ByOrder, t);
      FilterMember(pool, (t: Title) => t.parentId == parent, t);
    }
    ByOrderTotalPreorder();
    SortBySorted(level, ByOrder);
    assert forall i, j :: 0 <= i < j < |kids| ==> ByOrder(kids[i], kids[j]);
    kids
  }

  /** Nodes showing the titles `kids`, one for one, make a level. */
  lemma LevelOfNodes(pool: seq<Title>, parent: Option<Uuid>, kids: seq<Title>, r: seq<TitleNode>)
    requires forall t :: t in kids <==> t in pool && t.parentId == parent
    requires forall i, j :: 0 <= i < j < |kids| ==> kids[i].order <= kids[j].order
    requires |r| == |kids| && forall i :: 0 <= i < |r| ==> Shows(r[i], kids[i])
    ensures Level(pool, parent, r)
  {
    forall n | n in r
      ensures exists t :: t in pool && t.parentId == parent && Shows(n, t)
    {
      var i :| 0 <= i < |r| && r[i] == n;
      assert kids[i] in kids;
    }
    forall t | t in pool && t.parentId == parent
      ensures exists i :: 0 <= i < |r| && Shows(r[i], t)
    {
      var i :| 0 <= i < |kids| && kids[i] == t;
      assert Shows(r[i], t);
    }
  }

  /** The titles of `pool` whose parent is `parent`, ordered by "order",
      each with its own subtree. A title's subtree is built from the pool
      without that title, so a title never reappears below itself. */
  function Build(pool: seq<Title>, parent: Option<Uuid>): (r: seq<TitleNode>)
    ensures Level(pool, parent, r)
    decreases |pool|, 1, 0
  {
    var kids := Kids(pool, parent);
    var r := Nodes(pool, kids);
    LevelOfNodes(pool, parent, kids, r);
    r
  }

  /** The nodes of the titles `kids`, in their order. The children of each
      node are the other pool titles whose parent is that node's id. */
  function Nodes(pool: seq<Title>, kids: seq<Title>): (r: seq<TitleNode>)
    requires forall k :: k in kids ==> k in pool
    ensures |r| == |kids|
    ensures forall i :: 0 <= i < |r| ==> Shows(r[i], kids[i])
    ensures forall i :: 0 <= i < |r| ==> r[i].children == Build(Without(pool, kids[i]), Some(kids[i].id))
    decreases |pool|, 0, |kids|
  {
    if kids == [] then []
    else
      var k := kids[0];
      [TitleNode(k.id, k.name, k.kind, k.order, Build(Without(pool, k), Some(k.id)))] + Nodes(pool, kids[1..])
  }

  /** Each node of a level stands for a title `k` with that parent, and its
      children show exactly the other titles whose parent is `k`. */
  lemma ChildrenAreTheirRows(pool: seq<Title>, parent: Option<Uuid>, i: nat)
    requires i < |Build(pool, parent)|
    ensures var n := Build(pool, parent)[i];
            exists k :: k in pool && k.parentId == parent && Shows(n, k)
              && (forall c :: c in n.children ==> exists t :: t in pool && t.parentId == Some(k.id) && Shows(c, t))
              && (forall t :: t in pool && t != k && t.parentId == Some(k.id)
                    ==> exists j :: 0 <= j < |n.children| && Shows(n.children[j], t))
  {
    var kids := Kids(pool, parent);
    var k := kids[i];
    var n := Build(pool, parent)[i];
    assert n == Nodes(pool, kids)[i];
    assert Level(Without(pool, k), Some(k.id), n.children);
    assert k in kids;
  }

  /** The rows of one module and kind, as the route selects them. */
  function ModuleTitles(db: Db, moduleId: Id, kind: string): (r: seq<Title>)
    ensures forall t :: t in r <==> t in db.titles && t.moduleId == moduleId && t.kind == kind
  {
    Filter(db.titles, (t: Title) => t.moduleId == moduleId && t.kind == kind)
  }

  /** GET /getModuleTitles/:moduleId/:type: 400 for an unknown kind, else the
      roots of the module's titles of that kind with their subtrees. */
  function GetModuleTitles(db: Db, moduleId: Id, kind: string): (r: TitlesResponse)
    ensures r.InvalidType? <==> !ValidType(kind)
    ensures r.Forest? ==>
              && (forall n :: n in r.nodes ==>
                    exists t :: t in db.titles && t.moduleId == moduleId && t.kind == kind
                                && t.parentId.None? && Shows(n, t))
              && (forall t :: t in db.titles && t.moduleId == moduleId && t.kind == kind && t.parentId.None?
                    ==> exists i :: 0 <= i < |r.nodes| && Shows(r.nodes[i], t))
              && (forall i, j :: 0 <= i < j < |r.nodes| ==> r.nodes[i].order <= r.nodes[j].order)
  {
    if !ValidType(kind) then InvalidType
    else Forest(Build(ModuleTitles(db, moduleId, kind), None))
  }

  /** Every node of a forest with the id of the node it hangs under, depth
      first. */
  function Placements(forest: seq<TitleNode>, parent: Option<Uuid>): (r: seq<(Uuid, Option<Uuid>)>)
    ensures forest != [] ==> (forest[0].id, parent) in r
    decreases forest
  {
    if forest == [] then []
    else [(forest[0].id, parent)] + Placements(forest[0].children, Some(forest[0].id))
         + Placements(forest[1..], parent)
  }

  /** Every placement in `ps` is one a row of `pool` asks for: the row's
      parent is the node it hangs under, and that node is `parent` or a
      title of the pool. */
  ghost predicate Anchored(pool: seq<Title>, parent: Option<Uuid>, ps: seq<(Uuid, Option<Uuid>)>)
  {
    forall p :: p in ps ==>
      (exists t :: t in pool && t.id == p.0 && t.parentId == p.1)
      && (p.1 == parent || exists u :: u in pool && p.1 == Some(u.id))
  }

  lemma AnchoredJoin(pool: seq<Title>, parent: Option<Uuid>, a: seq<(Uuid, Option<Uuid>)>, b: seq<(Uuid, Option<Uuid>)>)
    requires Anchored(pool, parent, a) && Anchored(pool, parent, b)
    ensures Anchored(pool, parent, a + b)
  {
    assert forall p :: p in a + b ==> p in a || p in b;
  }

  /** A subtree built from fewer rows, under a title of the pool, is
      anchored in the pool too. */
  lemma AnchoredBelow(pool: seq<Title>, parent: Option<Uuid>, k: Title, ps: seq<(Uuid, Option<Uuid>)>)
    requires k in pool
    requires Anchored(Without(pool, k), Some(k.id), ps)
    ensures Anchored(pool, parent, ps)
  {
  }

  /** Every node of the tree stands where a title of the pool says it stands:
      under the very node its row names as parent, and that parent is the
      forest's own parent or a title of the pool. */
  lemma {:induction false} BuildAnchored(pool: seq<Title>, parent: Option<Uuid>)
    ensures Anchored(pool, parent, Placements(Build(pool, parent), parent))
    decreases |pool|, 1, 0
  {
    var kids := Kids(pool, parent);
    NodesAnchored(pool, kids, parent);
  }

  lemma {:induction false} NodesAnchored(pool: seq<Title>, kids: seq<Title>, parent: Option<Uuid>)
    requires forall k :: k in kids ==> k in pool && k.parentId == parent
    ensures Anchored(pool, parent, Placements(Nodes(pool, kids), parent))
    decreases |pool|, 0, |kids|
  {
    if kids != [] {
      var k := kids[0];
      var rest := Nodes(pool, kids[1..]);
      var sub := Build(Without(pool, k), Some(k.id));
      var r := Nodes(pool, kids);
      assert r == [TitleNode(k.id, k.name, k.kind, k.order, sub)] + rest;
      assert r[1..] == rest;
      assert Placements(r, parent) == [(k.id, parent)] + Placements(sub, Some(k.id)) + Placements(rest, parent);
      assert Anchored(pool, parent, [(k.id, parent)]);
      BuildAnchored(Without(pool, k), Some(k.id));
      AnchoredBelow(pool, parent, k, Placements(sub, Some(k.id)));
      NodesAnchored(pool, kids[1..], parent);
      AnchoredJoin(pool, parent, [(k.id, parent)], Placements(sub, Some(k.id)));
      AnchoredJoin(pool, parent, [(k.id, parent)] + Placements(sub, Some(k.id)), Placements(rest, parent));
    }
  }

  /** A title whose parent id names no title of the list appears nowhere in
      the tree built from it (ids being unique). */
  lemma OrphansDropped(flat: seq<Title>, t: Title)
    requires t in flat && t.parentId.Some?
    requires forall u :: u in flat ==> Some(u.id) != t.parentId
    requires forall u, v :: u in flat && v in flat && u.id == v.id ==> u == v
    ensures forall p :: p in Placements(Build(flat, None), None) ==> p.0 != t.id
  {
    BuildAnchored(flat, None);
    forall p | p in Placements(Build(flat, None), None)
      ensures p.0 != t.id
    {
      var w :| w in flat && w.id == p.0 && w.parentId == p.1;
      assert p.0 == t.id ==> w == t;
    }
  }

  // ---------------------------------------------------------------------
  // createModuleTitle

  /** `t` is on the level a new title of `moduleId` and `kind` under
      `parent` joins: same module and kind, and the same parent, a falsy
      parent meaning the roots. */
  predicate SameLevel(t: Title, moduleId: Id, kind: string, parent: Option<Uuid>)
  {
    t.moduleId == moduleId && t.kind == kind
    && (if Truthy(parent) then t.parentId == parent else t.parentId.None?)
  }

  /** MAX("order") over a level; None for an empty level. */
  function MaxOrder(titles: seq<Title>, moduleId: Id, kind: string, parent: Option<Uuid>): (r: Option<int>)
    ensures r.None? <==> forall t :: t in titles ==> !SameLevel(t, moduleId, kind, parent)
    ensures r.Some? ==> (exists t :: t in titles && SameLevel(t, moduleId, kind, parent) && t.order == r.value)
                        && forall t :: t in titles && SameLevel(t, moduleId, kind, parent) ==> t.order <= r.value
  {
    if titles == [] then None
    else
      assert forall t :: t in titles <==> t == titles[0] || t in titles[1..];
      var rest := MaxOrder(titles[1..], moduleId, kind, parent);
      if !SameLevel(titles[0], moduleId, kind, parent) then rest
      else if rest.Some? && rest.value >= titles[0].order then rest
      else Some(titles[0].order)
  }

  /** COALESCE(MAX("order"), -1) + 1: the order that puts a new title after
      every title of its level, 0 on an empty level. */
  function NextOrder(titles: seq<Title>, moduleId: Id, kind: string, parent: Option<Uuid>): (r: int)
    ensures forall t :: t in titles && SameLevel(t, moduleId, kind, parent) ==> t.order < r
    ensures (forall t :: t in titles ==> !SameLevel(t, moduleId, kind, parent)) ==> r == 0
    ensures (exists t :: t in titles && SameLevel(t, moduleId, kind, parent))
              ==> exists t :: t in titles && SameLevel(t, moduleId, kind, parent) && t.order == r - 1
  {
    match MaxOrder(titles, moduleId, kind, parent)
    case None => 0
    case Some(m) => m + 1
  }

  /** The body of a create request; an absent field is None. */
  datatype CreateRequest = CreateRequest(moduleId: Option<Id>, name: Option<string>, kind: Option<string>, parentId: Option<Uuid>)

  datatype CreateOutcome = MissingFields | BadType | ModuleNotFound | Created(title: Title)

  /** `!module_id || !title_name || !type`: a module id of 0 is falsy too. */
  predicate HasRequiredFields(req: CreateRequest)
  {
    req.moduleId.Some? && req.moduleId.value != 0 && Truthy(req.name) && Truthy(req.kind)
  }

  /** POST /createModuleTitle: 400 for a missing field or an unknown kind,
      404 for an unknown module, else the new title, last of its level.
      `newId` stands for the generated uuid. */
  function CreateTitle(db: Db, req: CreateRequest, newId: Uuid): (r: CreateOutcome)
    ensures r.MissingFields? <==> !HasRequiredFields(req)
    ensures r.BadType? <==> HasRequiredFields(req) && !ValidType(req.kind.value)
    ensures r.ModuleNotFound? <==>
              HasRequiredFields(req) && ValidType(req.kind.value) && FindModule(db, req.moduleId.value).None?
    ensures r.Created? ==>
              && r.title.id == newId
              && Some(r.title.moduleId) == req.moduleId && Some(r.title.name) == req.name
              && Some(r.title.kind) == req.kind && ValidType(r.title.kind)
              && (if Truthy(req.parentId) then r.title.parentId == req.parentId else r.title.parentId.None?)
              && r.title.order == NextOrder(db.titles, r.title.moduleId, r.title.kind, req.parentId)
              && (forall t :: t in db.titles && SameLevel(t, r.title.moduleId, r.title.kind, r.title.parentId)
                    ==> t.order < r.title.order)
              && ((forall t :: t in db.titles ==> !SameLevel(t, r.title.moduleId, r.title.kind, r.title.parentId))
                    ==> r.title.order == 0)
  {
    if !HasRequiredFields(req) then MissingFields
    else if !ValidType(req.kind.value) then CreateOutcome.BadType
    else if FindModule(db, req.moduleId.value).None? then ModuleNotFound
    else
      var parent := if Truthy(req.parentId) then req.parentId else None;
      var m := req.moduleId.value;
      var k := req.kind.value;
      Created(Title(newId, m, req.name.value, k, parent, NextOrder(db.titles, m, k, req.parentId)))
  }

  // ---------------------------------------------------------------------
  // updateModuleTitle

  /** A JSON field that may be left out (undefined) or given. */
  datatype Field<T> = Undefined | Defined(value: T)

  /** The body of an update request. A name or kind given as null is the
      same as leaving it out; a parent given as null means the roots. */
  datatype UpdateRequest = UpdateRequest(name: Option<string>, kind: Option<string>, parentId: Field<Option<Uuid>>, order: Field<int>)

  /** What the route decides: the new name and kind (None keeps the old
      one, as COALESCE does) and, when parent or order was given, the new
      parent and order. */
  datatype UpdatePlan =
    | NoFields
    | NotFound
    | BadType
    | Apply(name: Option<string>, kind: Option<string>, placement: Option<(Option<Uuid>, int)>)

  predicate NoUpdateFields(req: UpdateRequest)
  {
    !Truthy(req.name) && !Truthy(req.kind) && req.parentId.Undefined? && req.order.Undefined?
  }

  /** The row after the UPDATE. */
  function Applied(t: Title, name: Option<string>, kind: Option<string>, placement: Option<(Option<Uuid>, int)>): (r: Title)
    ensures r.id == t.id && r.moduleId == t.moduleId
    ensures r.name == (if name.Some? then name.value else t.name)
    ensures r.kind == (if kind.Some? then kind.value else t.kind)
    ensures placement.None? ==> r.parentId == t.parentId && r.order == t.order
    ensures placement.Some? ==> r.parentId == placement.value.0 && r.order == placement.value.1
  {
    var t1 := t.(name := if name.Some? then name.value else t.name,
                 kind := if kind.Some? then kind.value else t.kind);
    match placement
    case None => t1
    case Some(p) => t1.(parentId := p.0, order := p.1)
  }

  /** The update as written: the current row is read for its module and
      kind only, so when the parent is left out the "current parent" the
      route falls back on is undefined, that is NULL. */
  function PlanUpdateAsWritten(db: Db, id: Uuid, req: UpdateRequest): (r: UpdatePlan)
    ensures r.NoFields? <==> NoUpdateFields(req)
    ensures r.NotFound? <==> !NoUpdateFields(req) && FindTitle(db, id).None?
    ensures r.Apply? && req.parentId.Undefined? && req.order.Defined? ==> r.placement == Some((None, req.order.value))
  {
    if NoUpdateFields(req) then NoFields
    else
      match FindTitle(db, id)
      case None => NotFound
      case Some(cur) =>
        if Truthy(req.kind) && !ValidType(req.kind.value) then UpdatePlan.BadType
        else if req.parentId.Defined? || req.order.Defined? then
          var newParent := if req.parentId.Defined? then req.parentId.value else None;
          var newOrder := if req.order.Defined? then req.order.value
                          else NextOrder(db.titles, cur.moduleId, cur.kind, newParent);
          Apply(req.name, req.kind, Some((newParent, newOrder)))
        else Apply(req.name, req.kind, None)
  }

  /** The update as intended: a left-out parent keeps the title's own. */
  function PlanUpdate(db: Db, id: Uuid, req: UpdateRequest): (r: UpdatePlan)
    ensures r.NoFields? <==> NoUpdateFields(req)
    ensures r.NotFound? <==> !NoUpdateFields(req) && FindTitle(db, id).None?
    ensures r.BadType? <==>
              !NoUpdateFields(req) && FindTitle(db, id).Some? && Truthy(req.kind) && !ValidType(req.kind.value)
    ensures r.Apply? ==> r.name == req.name && r.kind == req.kind
    ensures r.Apply? ==> (r.placement.Some? <==> req.parentId.Defined? || req.order.Defined?)
    ensures r.Apply? && r.placement.Some? ==>
              && var cur := FindTitle(db, id).value;
              && var (p, o) := r.placement.value;
              && p == (if req.parentId.Defined? then req.parentId.value else cur.parentId)
              && (req.order.Defined? ==> o == req.order.value)
              && (req.order.Undefined? ==>
                    forall t :: t in db.titles && SameLevel(t, cur.moduleId, cur.kind, p) ==> t.order < o)
  {
    if NoUpdateFields(req) then NoFields
    else
      match FindTitle(db, id)
      case None => NotFound
      case Some(cur) =>
        if Truthy(req.kind) && !ValidType(req.kind.value) then UpdatePlan.BadType
        else if req.parentId.Defined? || req.order.Defined? then
          var newParent := if req.parentId.Defined? then req.parentId.value else cur.parentId;
          var newOrder := if req.order.Defined? then req.order.value
                          else NextOrder(db.titles, cur.moduleId, cur.kind, newParent);
          Apply(req.name, req.kind, Some((newParent, newOrder)))
        else Apply(req.name, req.kind, None)
  }

  /** Every row with the id, updated; the others untouched. */
  function UpdateRows(titles: seq<Title>, id: Uuid, plan: UpdatePlan): (r: seq<Title>)
    requires plan.Apply?
    ensures |r| == |titles|
    ensures forall i :: 0 <= i < |r| ==>
              r[i] == if titles[i].id == id then Applied(titles[i], plan.name, plan.kind, plan.placement) else titles[i]
  {
    seq(|titles|, i requires 0 <= i < |titles| =>
      if titles[i].id == id then Applied(titles[i], plan.name, plan.kind, plan.placement) else titles[i])
  }

  /** As written, moving a title by its order alone also detaches it from
      its parent; as intended it stays under its parent. */
  lemma OrderOnlyUpdateDetaches(db: Db, id: Uuid, req: UpdateRequest)
    requires FindTitle(db, id).Some? && FindTitle(db, id).value.parentId.Some?
    requires req.parentId.Undefined? && req.order.Defined? && !Truthy(req.kind)
    ensures PlanUpdateAsWritten(db, id, req).Apply?
    ensures var cur := FindTitle(db, id).value;
            var p := PlanUpdateAsWritten(db, id, req).placement.value;
            Applied(cur, req.name, req.kind, Some(p)).parentId.None?
    ensures var cur := FindTitle(db, id).value;
            var p := PlanUpdate(db, id, req).placement.value;
            Applied(cur, req.name, req.kind, Some(p)).parentId == cur.parentId
  {
  }

  /** The intended update never changes where a title hangs unless a
      parent is given. */
  lemma UpdateKeepsParent(db: Db, id: Uuid, req: UpdateRequest)
    requires req.parentId.Undefined?
    requires PlanUpdate(db, id, req).Apply?
    ensures var plan := PlanUpdate(db, id, req);
            forall t :: t in UpdateRows(db.titles, id, plan) ==>
              exists u :: u in db.titles && u.id == t.id && u.parentId == t.parentId
  {
    var plan := PlanUpdate(db, id, req);
    var rows := UpdateRows(db.titles, id, plan);
    var cur := FindTitle(db, id).value;
    forall t | t in rows
      ensures exists u :: u in db.titles && u.id == t.id && u.parentId == t.parentId
    {
      var i :| 0 <= i < |rows| && rows[i] == t;
      var u := db.titles[i];
      if u.id == id && plan.placement.Some? {
        assert t.parentId == cur.parentId;
        assert cur in db.titles && cur.id == t.id;
      } else {
        assert u.id == t.id && u.parentId == t.parentId;
      }
    }
  }

  // ---------------------------------------------------------------------
  // deleteModuleTitle

  /** `rank` drops from `x` to each of its children, and so on all the way
      down: the parent links below `x` have no cycle. Titles elsewhere in
      the table are not constrained. */
  ghost predicate RankedFrom(titles: seq<Title>, rank: Uuid -> nat, x: Uuid)
    decreases rank(x)
  {
    forall c :: c in titles && c.parentId == Some(x) ==> rank(c.id) < rank(x) && RankedFrom(titles, rank, c.id)
  }

  /** `d` is `x` or the id of a title below `x`, following the parent links
      along which `rank` drops (every link below `x` under RankedFrom). */
  ghost predicate Below(titles: seq<Title>, rank: Uuid -> nat, x: Uuid, d: Uuid)
    decreases rank(x)
  {
    d == x
    || exists c :: c in titles && c.parentId == Some(x) && rank(c.id) < rank(x) && Below(titles, rank, c.id, d)
  }

  /** A title with no child can be deleted whatever cycles the parent links
      have elsewhere in the table. */
  lemma LeafRanked(titles: seq<Title>, x: Uuid)
    requires forall t :: t in titles ==> t.parentId != Some(x)
    ensures RankedFrom(titles, (u: Uuid) => 0, x)
  {
  }

  /** Fewer rows keep the subtree acyclic. */
  lemma {:induction false} RankedFromShrinks(small: seq<Title>, big: seq<Title>, rank: Uuid -> nat, x: Uuid)
    requires forall t :: t in small ==> t in big
    requires RankedFrom(big, rank, x)
    ensures RankedFrom(small, rank, x)
    decreases rank(x)
  {
    forall c | c in small && c.parentId == Some(x) ensures rank(c.id) < rank(x) && RankedFrom(small, rank, c.id) {
      RankedFromShrinks(small, big, rank, c.id);
    }
  }

  /** The ids of the children of `x`, as SELECT id WHERE parent_id = x
      returns them. */
  function ChildIds(titles: seq<Title>, x: Uuid): (r: seq<Uuid>)
    ensures forall id :: id in r <==> exists c :: c in titles && c.parentId == Some(x) && c.id == id
  {
    if titles == [] then []
    else
      assert forall t :: t in titles <==> t == titles[0] || t in titles[1..];
      (if titles[0].parentId == Some(x) then [titles[0].id] else []) + ChildIds(titles[1..], x)
  }

  lemma {:induction false} BelowTransitive(titles: seq<Title>, rank: Uuid -> nat, x: Uuid, y: Uuid, z: Uuid)
    requires Below(titles, rank, x, y) && Below(titles, rank, y, z)
    ensures Below(titles, rank, x, z)
    decreases rank(x)
  {
    if y != x {
      var c :| c in titles && c.parentId == Some(x) && rank(c.id) < rank(x) && Below(titles, rank, c.id, y);
      BelowTransitive(titles, rank, c.id, y, z);
    }
  }

  /** Fewer rows, no new descendants. */
  lemma {:induction false} BelowShrinks(small: seq<Title>, big: seq<Title>, rank: Uuid -> nat, x: Uuid, d: Uuid)
    requires forall t :: t in small ==> t in big
    requires Below(small, rank, x, d)
    ensures Below(big, rank, x, d)
    decreases rank(x)
  {
    if d != x {
      var c :| c in small && c.parentId == Some(x) && rank(c.id) < rank(x) && Below(small, rank, c.id, d);
      BelowShrinks(small, big, rank, c.id, d);
    }
  }

  /** Removing rows that lie on no path down to `d` keeps `d` below `x`. */
  lemma {:induction false} BelowKept(small: seq<Title>, big: seq<Title>, rank: Uuid -> nat, x: Uuid, d: Uuid)
    requires forall t :: t in small ==> t in big
    requires forall u :: u in big && Below(big, rank, u.id, d) ==> u in small
    requires Below(big, rank, x, d)
    ensures Below(small, rank, x, d)
    decreases rank(x)
  {
    if d != x {
      var c :| c in big && c.parentId == Some(x) && rank(c.id) < rank(x) && Below(big, rank, c.id, d);
      BelowKept(small, big, rank, c.id, d);
    }
  }
}
