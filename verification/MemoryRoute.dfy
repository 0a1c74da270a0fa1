/** The memory route over the store: the decision as memory makes it, for a reader of any part of the model, over
    the edges memory keeps, against the reader's whole rows in the warehouse. */
module MemoryRoute {
  import opened Options
  import opened Data
  import opened Template
  import opened Context
  import opened Served
  import opened Edges
  import opened Memory
  import opened Remember
  import opened Linked
  import opened Recall
  import opened Provenance
  import opened Answerable
  import opened Owed
  import opened Answered

  // ---- a join as a relationship of memory

  predicate Forward(r: Rel, j: Join, keyOf: map<Label, Prop>) {
    r.start == j.a && r.end == j.t && r.fk == j.ac && j.t in keyOf && keyOf[j.t] == j.tc
  }

  predicate Backward(r: Rel, j: Join, keyOf: map<Label, Prop>) {
    r.start == j.t && r.end == j.a && r.fk == j.tc && j.a in keyOf && keyOf[j.a] == j.ac
  }

  /** Some relationship of the model starts at one side of the join, with its column, and ends at the other's key. */
  ghost predicate IsRelationship(rels: seq<Rel>, keyOf: map<Label, Prop>, j: Join) {
    exists r :: r in rels
                && ((r.start == j.a && r.end == j.t && r.fk == j.ac && j.t in keyOf && keyOf[j.t] == j.tc)
                    || (r.start == j.t && r.end == j.a && r.fk == j.tc && j.a in keyOf && keyOf[j.a] == j.ac))
  }

  ghost predicate LinkedBy(edges: set<Edge>, keyOf: map<Label, Prop>, j: Join, r: Rel, a: NodeId, t: NodeId) {
    || (Forward(r, j, keyOf) && Edge(r.kind, a, t) in edges)
    || (Backward(r, j, keyOf) && Edge(r.kind, t, a) in edges)
  }

  /** The guarded MATCH of a join: both nodes readable, and memory's edge between them. */
  ghost predicate MeetByEdge(view: View, edges: set<Edge>, rels: seq<Rel>, keyOf: map<Label, Prop>, j: Join, x: Option<Value>, y: Value) {
    && x.Some? && NodeId(j.a, x.value) in view && NodeId(j.t, y) in view
    && exists r :: r in rels && LinkedBy(edges, keyOf, j, r, NodeId(j.a, x.value), NodeId(j.t, y))
  }

  /** A row binding of the block over memory, its joins along memory's edges. */
  ghost predicate IsMatchByEdges(view: View, edges: set<Edge>, rels: seq<Rel>, keyOf: map<Label, Prop>, block: Block, b: Binding) {
    && b.Keys == block.Tables()
    && b[block.fact].Some? && NodeId(block.fact, b[block.fact].value) in view
    && (forall j :: j in block.joins ==> j.a in b && BoundByEdge(view, edges, rels, keyOf, j, b))
    && (forall f :: f in block.filters ==> Eval(view, b, f) == True)
  }

  ghost predicate BoundByEdge(view: View, edges: set<Edge>, rels: seq<Rel>, keyOf: map<Label, Prop>, j: Join, b: Binding)
    requires j.a in b && j.t in b
  {
    match b[j.t]
    case Some(y) => MeetByEdge(view, edges, rels, keyOf, j, b[j.a], y)
    case None => j.outer && forall y :: !MeetByEdge(view, edges, rels, keyOf, j, b[j.a], y)
  }

  /** A view's rows are projections of nodes that hold their keys, and its columns hold the keys and the
      relationships' columns. */
  ghost predicate ViewOf(view: View, props: View, cols: map<Label, set<Prop>>, keyOf: map<Label, Prop>, rels: seq<Rel>) {
    && (forall id :: id in view ==> id in props && id.lb in cols && view[id] == Project(props[id], cols[id.lb]))
    && (forall id :: id in props && id.lb in keyOf ==> keyOf[id.lb] in props[id] && props[id][keyOf[id.lb]] == id.key)
    && (forall l :: l in cols && l in keyOf ==> keyOf[l] in cols[l])
    && (forall r :: r in rels && r.start in cols ==> r.fk in cols[r.start])
  }

  lemma EdgeIsColumn(edges: set<Edge>, props: View, rels: seq<Rel>, r: Rel, a: NodeId, t: NodeId)
    requires AllDerived(edges, props, rels) && r in rels && a in props && t in props && a.lb == r.start && t.lb == r.end
    ensures Edge(r.kind, a, t) in edges <==> r.fk in props[a] && props[a][r.fk] == t.key
  {
    assert OfKind(edges, r.kind) == Derived(props, r);
    assert Edge(r.kind, a, t) in edges <==> Edge(r.kind, a, t) in OfKind(edges, r.kind);
    if r.fk in props[a] && props[a][r.fk] == t.key {
      assert t == NodeId(r.end, props[a][r.fk]);
      assert Makes(props, r, a) && EdgeOf(props, r, a) == Edge(r.kind, a, t);
    }
  }

  /** Over memory, an edge joins two nodes exactly when their columns are equal. */
  lemma MeetEitherWay(view: View, props: View, cols: map<Label, set<Prop>>, edges: set<Edge>, rels: seq<Rel>,
                      keyOf: map<Label, Prop>, j: Join, x: Option<Value>, y: Value)
    requires AllDerived(edges, props, rels) && ViewOf(view, props, cols, keyOf, rels)
    requires IsRelationship(rels, keyOf, j)
    ensures MeetByEdge(view, edges, rels, keyOf, j, x, y) <==> Meet(view, j, x, y)
  {
    hide AllDerived;
    if x.Some? && NodeId(j.a, x.value) in view && NodeId(j.t, y) in view {
      var a, t := NodeId(j.a, x.value), NodeId(j.t, y);
      forall r | r in rels && (Forward(r, j, keyOf) || Backward(r, j, keyOf))
        ensures LinkedBy(edges, keyOf, j, r, a, t) <==> Meet(view, j, x, y)
      {
        if Forward(r, j, keyOf) {
          EdgeIsColumn(edges, props, rels, r, a, t);
        }
        if Backward(r, j, keyOf) {
          EdgeIsColumn(edges, props, rels, r, t, a);
        }
      }
    }
  }

  lemma MatchEitherWay(view: View, props: View, cols: map<Label, set<Prop>>, edges: set<Edge>, rels: seq<Rel>,
                       keyOf: map<Label, Prop>, block: Block, b: Binding)
    requires AllDerived(edges, props, rels) && ViewOf(view, props, cols, keyOf, rels)
    requires forall j :: j in block.joins ==> IsRelationship(rels, keyOf, j)
    ensures IsMatchByEdges(view, edges, rels, keyOf, block, b) <==> IsMatch(view, block, b)
  {
    hide AllDerived, ViewOf, IsRelationship, Eval, MeetByEdge, Meet;
    forall j, x, y | j in block.joins
      ensures MeetByEdge(view, edges, rels, keyOf, j, x, y) <==> Meet(view, j, x, y)
    {
      MeetEitherWay(view, props, cols, edges, rels, keyOf, j, x, y);
    }
  }

  // ---- edges under readers of different models

  /** An edge memory follows joins two nodes whose columns are equal, whoever wrote them. */
  lemma EdgeMeets(view: View, props: View, cols: map<Label, set<Prop>>, edges: set<Edge>, all: seq<Rel>, rels: seq<Rel>,
                  keyOf: map<Label, Prop>, j: Join, x: Option<Value>, y: Value)
    requires EdgesTrue(edges, props, all) && KindsApart(all) && forall r :: r in rels ==> r in all
    requires ViewOf(view, props, cols, keyOf, rels)
    requires MeetByEdge(view, edges, rels, keyOf, j, x, y)
    ensures Meet(view, j, x, y)
  {
    var a, t := NodeId(j.a, x.value), NodeId(j.t, y);
    var r :| r in rels && LinkedBy(edges, keyOf, j, r, a, t);
    var e := if Forward(r, j, keyOf) && Edge(r.kind, a, t) in edges then Edge(r.kind, a, t) else Edge(r.kind, t, a);
    var s :| s in all && IsMade(props, s, e);
    assert s == r;
  }

  /** Two nodes of a context that holds, joined by a relationship's columns, have its edge. */
  lemma MeetsByEdge(view: View, context: View, props: View, cols: map<Label, set<Prop>>, edges: set<Edge>, all: seq<Rel>, rels: seq<Rel>,
                    keyOf: map<Label, Prop>, j: Join, x: Option<Value>, y: Value)
    requires HasEdges(edges, context, all) && (forall r :: r in rels ==> r in all)
    requires ViewOf(view, props, cols, keyOf, rels) && IsRelationship(rels, keyOf, j)
    requires Meet(view, j, x, y)
    requires forall id :: id in context && id in view ==> context[id] == view[id]
    requires NodeId(j.a, x.value) in context && NodeId(j.t, y) in context
    ensures MeetByEdge(view, edges, rels, keyOf, j, x, y)
  {
    var a, t := NodeId(j.a, x.value), NodeId(j.t, y);
    var r :| r in rels && (Forward(r, j, keyOf) || Backward(r, j, keyOf));
    assert context[a] == view[a] && context[t] == view[t];
    if Forward(r, j, keyOf) {
      assert view[t][j.tc] == t.key;
      assert IsMade(context, r, Edge(r.kind, a, t));
    } else {
      assert Backward(r, j, keyOf) && view[a] == Project(props[a], cols[j.a]);
      assert view[a][j.ac] == a.key;
      assert IsMade(context, r, Edge(r.kind, t, a));
    }
    assert LinkedBy(edges, keyOf, j, r, a, t);
  }

  // ---- the columns the question reads

  ghost predicate ColumnsRead(f: Filter, cols: map<Label, set<Prop>>) {
    match f
    case Compare(t, c, _, _, _) => t in cols && c in cols[t]
    case OneOf(t, c, _) => t in cols && c in cols[t]
    case IsNull(t, c) => t in cols && c in cols[t]
    case IsBool(t, c, _) => t in cols && c in cols[t]
    case CompareColumns(t, c, _, t', c') => t in cols && c in cols[t] && t' in cols && c' in cols[t']
    case Not(g) => ColumnsRead(g, cols)
    case And(l, r) => ColumnsRead(l, cols) && ColumnsRead(r, cols)
    case Or(l, r) => ColumnsRead(l, cols) && ColumnsRead(r, cols)
  }

  /** Every column the block filters or joins on is one memory keeps (memory.properties). */
  ghost predicate ColumnsKept(block: Block, cols: map<Label, set<Prop>>) {
    && (forall f :: f in block.filters ==> ColumnsRead(f, cols))
    && (forall j :: j in block.joins ==> j.a in cols && j.ac in cols[j.a] && j.t in cols && j.tc in cols[j.t])
  }

  /** `part` is `whole` with the columns of `cols` alone. */
  ghost predicate Narrowed(part: View, whole: View, cols: map<Label, set<Prop>>) {
    && part.Keys == whole.Keys
    && forall id :: id in part ==> id.lb in cols && part[id] == Project(whole[id], cols[id.lb])
  }

  /** The bound rows say the same in every column memory keeps. */
  ghost predicate SameCells(view: View, other: View, cols: map<Label, set<Prop>>, b: Binding) {
    forall l, p :: l in cols && p in cols[l] ==> Cell(view, b, l, p) == Cell(other, b, l, p)
  }

  /** A filter that reads no other columns is then as true of both. */
  lemma {:induction false} SameColumnsSameTruth(view: View, other: View, cols: map<Label, set<Prop>>, b: Binding, f: Filter)
    requires SameCells(view, other, cols, b) && ColumnsRead(f, cols)
    ensures Eval(view, b, f) == Eval(other, b, f)
  {
    match f
    case Not(g) => SameColumnsSameTruth(view, other, cols, b, g);
    case And(l, r) => SameColumnsSameTruth(view, other, cols, b, l); SameColumnsSameTruth(view, other, cols, b, r);
    case Or(l, r) => SameColumnsSameTruth(view, other, cols, b, l); SameColumnsSameTruth(view, other, cols, b, r);
    case _ => LeafSameTruth(view, other, cols, b, f);
  }

  lemma LeafSameTruth(view: View, other: View, cols: map<Label, set<Prop>>, b: Binding, f: Filter)
    requires SameCells(view, other, cols, b) && ColumnsRead(f, cols) && !f.Not? && !f.And? && !f.Or?
    ensures Eval(view, b, f) == Eval(other, b, f)
  {
    hide Cell;
  }

  lemma NarrowedCells(part: View, whole: View, cols: map<Label, set<Prop>>, b: Binding)
    requires Narrowed(part, whole, cols)
    ensures SameCells(part, whole, cols, b)
  {
  }

  lemma MatchNarrowed(part: View, whole: View, cols: map<Label, set<Prop>>, block: Block, b: Binding)
    requires Narrowed(part, whole, cols) && ColumnsKept(block, cols)
    ensures IsMatch(part, block, b) <==> IsMatch(whole, block, b)
  {
    hide Eval, ColumnsRead, SameCells;
    NarrowedCells(part, whole, cols, b);
    forall f | f in block.filters
      ensures Eval(part, b, f) == Eval(whole, b, f)
    {
      SameColumnsSameTruth(part, whole, cols, b, f);
    }
    forall j, x, y | j in block.joins
      ensures Meet(part, j, x, y) <==> Meet(whole, j, x, y)
    {
    }
  }

  // ---- the route

  datatype Verdict = Yes(anchor: NodeId) | NoTable | NoEntity | NoContext(anchor: NodeId) | NotCovered(anchor: NodeId)

  /** The rows of the warehouse the reader may read, every readable column of them. */
  function Readable(c: Config, w: World, owner: nat, t: TemplateId, readable: map<Label, set<Prop>>): View {
    Warehouse(c, w, owner, TemplateId(t.rs, readable))
  }

  /** What the model and the block must be for a yes to be exact. */
  ghost predicate RouteOk(c: Config, rels: seq<Rel>, t: TemplateId, block: Block, readable: map<Label, set<Prop>>) {
    && OneReadPerLabel(t.rs)
    && (forall r, s :: r in rels && s in rels && r.start == s.start && r.fk == s.fk ==> r == s)
    && (forall f :: f in block.filters ==> Plain(f)) && IsTree(block)
    && (forall j :: j in block.joins ==> IsRelationship(rels, c.keyOf, j) && OnKeys(rels, c.keyOf, j))
    && ColumnsKept(block, t.cols)
    && readable.Keys == t.cols.Keys && (forall l :: l in readable ==> t.cols[l] <= readable[l])
  }

  /** A template of a reader whose model has these relationships. */
  ghost predicate Suits(c: Config, rels: seq<Rel>, t: TemplateId, l: Label) {
    && TemplateOk(t, l) && KeysRead(c, t) && KindsApart(rels)
    && (forall q :: q in t.rs && q.rel.Some? ==> q.rel.value in rels)
    && (forall r :: r in rels ==> r in c.rels)
    && (forall r :: r in rels && r.start in t.cols ==> r.fk in t.cols[r.start])
  }

  lemma TemplateSuits(c: Config, reader: Reader, l: Label, t: TemplateId)
    requires reader.schema.Valid() && Restricts(c, reader) && TemplateOf(c, reader, l, t)
    ensures Suits(c, reader.schema.rels, t, l)
  {
    IdIsOk(c, reader.schema, l, if c.hops == 0 then 1 else c.hops, reader, t.rs);
    forall q | q in t.rs && q.rel.Some?
      ensures q.rel.value in reader.schema.rels
    {
      var i :| 0 <= i < |t.rs| && t.rs[i] == q;
    }
  }

  function SettingOf(c: Config, rels: seq<Rel>, w: World, nodes: map<NodeId, MemNode>, recs: set<Recorded>, r: Recorded, now: nat): Setting {
    Setting(Warehouse(c, w, r.owner, r.template), Remembered(c, nodes, recs, r.owner, r.template, now),
            r.template.rs, Limits(c.cap, c.since(r.at)), r.node.key, rels, c.keyOf)
  }

  lemma SettingSound(c: Config, rels: seq<Rel>, w: World, nodes: map<NodeId, MemNode>, recs: set<Recorded>, clock: nat, r: Recorded, now: nat,
                     block: Block, readable: map<Label, set<Prop>>)
    requires c.Valid() && Keyed(c, w) && Truths(c, w, nodes, recs, clock) && ContextsKept(c, w, nodes, recs, now)
    requires r in recs && Fresh(r, r.owner, r.template, r.node, now) && c.Lasts(r)
    requires Suits(c, rels, r.template, r.node.lb) && RouteOk(c, rels, r.template, block, readable)
    ensures SettingOf(c, rels, w, nodes, recs, r, now).Sound() && Fits(SettingOf(c, rels, w, nodes, recs, r, now), block)
    ensures SettingOf(c, rels, w, nodes, recs, r, now).Context() == Brought(c, w, r).nodes
  {
    hide Alone, Remembered, TrueNodes, Provenance.OneReadPerLabel, ColumnsKept, IsRelationship, Config.Lasts;
    ContextHeld(c, w, nodes, recs, clock, r, now);
    assert r.node == NodeId(r.template.rs[0].lb, r.node.key);
  }

  lemma WarehouseNarrowed(c: Config, w: World, owner: nat, t: TemplateId, readable: map<Label, set<Prop>>)
    requires readable.Keys == t.cols.Keys && (forall l :: l in readable ==> t.cols[l] <= readable[l])
    ensures Narrowed(Warehouse(c, w, owner, t), Readable(c, w, owner, t, readable), t.cols)
  {
    var part, whole := Warehouse(c, w, owner, t), Readable(c, w, owner, t, readable);
    assert part.Keys == whole.Keys;
  }

  lemma RememberedViewOf(c: Config, rels: seq<Rel>, w: World, nodes: map<NodeId, MemNode>, recs: set<Recorded>, clock: nat, owner: nat, t: TemplateId, now: nat)
    requires Keyed(c, w) && KeysHeld(c, nodes) && TrueNodes(c, w, nodes, clock) && KeysRead(c, t)
    requires forall r :: r in rels && r.start in t.cols ==> r.fk in t.cols[r.start]
    ensures ViewOf(Remembered(c, nodes, recs, owner, t, now), PropsOf(nodes), t.cols, c.keyOf, rels)
  {
    hide Remembered, TrueNodes, KeysHeld, Keyed;
    var view := Remembered(c, nodes, recs, owner, t, now);
    forall id | id in view
      ensures id in nodes && id.lb in t.cols && view[id] == Project(PropsOf(nodes)[id], t.cols[id.lb])
    {
      RememberedNode(c, nodes, recs, owner, t, now, id);
    }
    forall id | id in nodes && id.lb in c.keyOf
      ensures c.keyOf[id.lb] in nodes[id].props && nodes[id].props[c.keyOf[id.lb]] == id.key
    {
      KeyIsTrue(c, w, nodes, clock, id);
    }
  }

  lemma KeyIsTrue(c: Config, w: World, nodes: map<NodeId, MemNode>, clock: nat, id: NodeId)
    requires Keyed(c, w) && KeysHeld(c, nodes) && TrueNodes(c, w, nodes, clock) && id in nodes && id.lb in c.keyOf
    ensures c.keyOf[id.lb] in nodes[id].props && nodes[id].props[c.keyOf[id.lb]] == id.key
  {
    assert Data.Within(nodes[id].props, w.rows[id]);
  }

  lemma RememberedNode(c: Config, nodes: map<NodeId, MemNode>, recs: set<Recorded>, owner: nat, t: TemplateId, now: nat, id: NodeId)
    requires id in Remembered(c, nodes, recs, owner, t, now)
    ensures id in nodes && id.lb in t.cols && Remembered(c, nodes, recs, owner, t, now)[id] == Project(nodes[id].props, t.cols[id.lb])
  {
  }

  /** Over a covered block, matching along memory's edges is matching on its columns: no edge is wrong, and the
      nodes a match binds are of the context, which has all of its own. */
  lemma MatchByContextEdges(s: Setting, props: View, cols: map<Label, set<Prop>>, edges: set<Edge>, all: seq<Rel>, block: Block,
                            capped: set<Read>, since: int, b: Binding)
    requires s.Sound() && Fits(s, block)
    requires Covers(block, s.keyOf, s.rels, s.rs, capped, since, s.Anchor(), s.key)
    requires s.lim.since <= since && capped == set x | x in Alone(s.w, s.lim, s.rs, s.key).log && x.capped :: x.read
    requires EdgesTrue(edges, props, all) && KindsApart(all) && (forall r :: r in s.rels ==> r in all)
    requires HasEdges(edges, s.Context(), all) && ViewOf(s.m, props, cols, s.keyOf, s.rels)
    requires forall j :: j in block.joins ==> IsRelationship(s.rels, s.keyOf, j)
    ensures IsMatchByEdges(s.m, edges, s.rels, s.keyOf, block, b) <==> IsMatch(s.m, block, b)
  {
    hide Alone, Covers, Eval, Fits, Provenance.OneReadPerLabel, ViewOf, EdgesTrue, HasEdges, IsRelationship, KindsApart, MeetByEdge, Meet, IsPartMatch;
    forall j, x, y | j in block.joins && MeetByEdge(s.m, edges, s.rels, s.keyOf, j, x, y)
      ensures Meet(s.m, j, x, y)
    {
      EdgeMeets(s.m, props, cols, edges, all, s.rels, s.keyOf, j, x, y);
    }
    if IsMatch(s.m, block, b) || IsMatchByEdges(s.m, edges, s.rels, s.keyOf, block, b) {
      PartByEdges(s.m, edges, s.rels, s.keyOf, block, b);
      MatchInContext(s, s.m, block, b, capped, since);
      ContextRows(s);
      forall j, y | j in block.joins && Asked(b, j, y) && Meet(s.m, j, b[j.a], y)
        ensures MeetByEdge(s.m, edges, s.rels, s.keyOf, j, b[j.a], y)
      {
        var i :| 0 <= i < |block.joins| && block.joins[i] == j;
        EndsInContext(s, block, b, capped, since, i, y);
        MeetsByEdge(s.m, s.Context(), props, cols, edges, all, s.rels, s.keyOf, j, b[j.a], y);
      }
      SameMeets(s.m, edges, s.rels, s.keyOf, block, b);
    }
  }

  lemma ContextRows(s: Setting)
    requires s.Sound()
    ensures forall id :: id in s.Context() && id in s.m ==> s.Context()[id] == s.m[id]
  {
    hide Through, LastHop, Provenance.OneReadPerLabel;
    assert FromView(s.Context(), s.w);
  }

  /** A match, on columns or along edges, meets each join it binds. */
  lemma PartByEdges(view: View, edges: set<Edge>, rels: seq<Rel>, keyOf: map<Label, Prop>, block: Block, b: Binding)
    requires forall j, x, y :: j in block.joins && MeetByEdge(view, edges, rels, keyOf, j, x, y) ==> Meet(view, j, x, y)
    requires IsMatch(view, block, b) || IsMatchByEdges(view, edges, rels, keyOf, block, b)
    ensures IsPartMatch(view, block, b)
  {
    hide Eval, Meet, MeetByEdge;
    forall j | j in block.joins
      ensures j.a in b && j.t in b && JoinTaken(view, j, b)
    {
      assert IsMatch(view, block, b) ==> JoinBound(view, j, b);
      assert !IsMatch(view, block, b) ==> BoundByEdge(view, edges, rels, keyOf, j, b);
    }
  }

  /** The nodes a binding asks a join about: the one it binds, or, of a null row, any. */
  predicate Asked(b: Binding, j: Join, y: Value) {
    j.t in b ==> b[j.t].None? || b[j.t].value == y
  }

  lemma SameMeets(view: View, edges: set<Edge>, rels: seq<Rel>, keyOf: map<Label, Prop>, block: Block, b: Binding)
    requires b.Keys == block.Tables() && forall j :: j in block.joins ==> j.a in b
    requires forall j, y :: j in block.joins && Asked(b, j, y) ==> (MeetByEdge(view, edges, rels, keyOf, j, b[j.a], y) <==> Meet(view, j, b[j.a], y))
    ensures IsMatchByEdges(view, edges, rels, keyOf, block, b) <==> IsMatch(view, block, b)
  {
    hide Eval, Meet, MeetByEdge;
    forall j | j in block.joins
      ensures j.t in b && (BoundByEdge(view, edges, rels, keyOf, j, b) <==> JoinBound(view, j, b))
    {
      if b[j.t].Some? {
        assert Asked(b, j, b[j.t].value);
      } else {
        forall y
          ensures MeetByEdge(view, edges, rels, keyOf, j, b[j.a], y) <==> Meet(view, j, b[j.a], y)
        {
          assert Asked(b, j, y);
        }
      }
    }
  }

  /** What a join of a match meets is of the context, whether the match binds it or calls it a null row. */
  lemma EndsInContext(s: Setting, block: Block, b: Binding, capped: set<Read>, since: int, i: nat, y: Value)
    requires s.Sound() && Fits(s, block) && i < |block.joins|
    requires Covers(block, s.keyOf, s.rels, s.rs, capped, since, s.Anchor(), s.key)
    requires s.lim.since <= since && capped == set x | x in Alone(s.w, s.lim, s.rs, s.key).log && x.capped :: x.read
    requires IsPartMatch(s.m, block, b) && Asked(b, block.joins[i], y) && Meet(s.m, block.joins[i], b[block.joins[i].a], y)
    ensures NodeId(block.joins[i].a, b[block.joins[i].a].value) in s.Context() && NodeId(block.joins[i].t, y) in s.Context()
  {
    hide Alone, Eval, Fits, Provenance.OneReadPerLabel, Scan, CoverJoins;
    var j := block.joins[i];
    assert j in block.joins && j.t in block.Tables();
    MatchInContext(s, s.m, block, b, capped, since);
    MeetsInWarehouse(s, s.m, j, b[j.a], y);
    if b[j.t].None? {
      NullRowServed(s, s.m, block, b, StartOf(s, block), i, y);
    }
  }

  lemma CellsNarrowed(m: View, part: View, whole: View, cols: map<Label, set<Prop>>, b: Binding)
    requires Narrowed(part, whole, cols) && forall l :: RowOf(m, b, l) == RowOf(part, b, l)
    ensures SameCells(m, whole, cols, b)
  {
    forall l, p | l in cols && p in cols[l]
      ensures Cell(m, b, l, p) == Cell(whole, b, l, p)
    {
      assert RowOf(m, b, l) == RowOf(part, b, l);
    }
  }

  /** A yes is exact: a binding matches guarded memory, along its edges, exactly when it matches the reader's
      rows in the warehouse. */
  lemma YesIsExact(c: Config, rels: seq<Rel>, w: World, nodes: map<NodeId, MemNode>, edges: set<Edge>, recs: set<Recorded>, clock: nat, r: Recorded,
                   block: Block, readable: map<Label, set<Prop>>, b: Binding)
    requires c.Valid() && Keyed(c, w) && KeysHeld(c, nodes) && AllLinked(c, w, nodes, edges, recs, clock)
    requires Truths(c, w, nodes, recs, clock)
    requires r in recs && Fresh(r, r.owner, r.template, r.node, clock) && c.Lasts(r)
    requires Suits(c, rels, r.template, r.node.lb) && RouteOk(c, rels, r.template, block, readable)
    requires CoversBy(c, rels, block, r, clock)
    ensures MatchesAlike(c, rels, w, nodes, edges, recs, r, clock, block, readable, b)
  {
    hide AllDerived, EdgesTrue, HasEdges, Covers, Remembered, Warehouse, Alone, Provenance.OneReadPerLabel, IsMatch, IsMatchByEdges, Setting.Sound, Fits,
         PropsOf, ViewOf, SameCells, Truths, KindsApart;
    var s := SettingOf(c, rels, w, nodes, recs, r, clock);
    assert ContextsKept(c, w, nodes, recs, clock) && TrueNodes(c, w, nodes, clock) && RecordTrue(c, w, r, clock) by {
      TruthsSay(c, w, nodes, recs, clock, r);
    }
    SettingSound(c, rels, w, nodes, recs, clock, r, clock, block, readable);
    AnswerExact(s, block, r.capped, c.since(clock), b);
    RememberedViewOf(c, rels, w, nodes, recs, clock, r.owner, r.template, clock);
    assert ContextJoined(c, w, edges, r);
    MatchByContextEdges(s, PropsOf(nodes), r.template.cols, edges, c.rels, block, r.capped, c.since(clock), b);
    WarehouseNarrowed(c, w, r.owner, r.template, readable);
    MatchNarrowed(s.w, Readable(c, w, r.owner, r.template, readable), r.template.cols, block, b);
    if IsMatch(s.m, block, b) {
      CellsNarrowed(s.m, s.w, Readable(c, w, r.owner, r.template, readable), r.template.cols, b);
    }
  }

  lemma TruthsSay(c: Config, w: World, nodes: map<NodeId, MemNode>, recs: set<Recorded>, clock: nat, r: Recorded)
    requires Truths(c, w, nodes, recs, clock) && r in recs && r.graph && r.context
    ensures ContextsKept(c, w, nodes, recs, clock) && TrueNodes(c, w, nodes, clock) && RecordTrue(c, w, r, clock)
  {
    hide RecordTrue;
  }

  lemma {:induction false} EntitiesAreLabels(atoms: seq<Atom>, tables: set<Label>, keyOf: map<Label, Prop>, rels: seq<Rel>)
    ensures forall x :: x in Scan(atoms, tables, keyOf, rels).anchors ==> x.0 in tables || exists r :: r in rels && r.end == x.0
    decreases atoms
  {
    if atoms != [] {
      EntitiesAreLabels(atoms[..|atoms| - 1], tables, keyOf, rels);
    }
  }

  method ScanAll(atoms: seq<Atom>, tables: set<Label>, keyOf: map<Label, Prop>, rels: seq<Rel>) returns (n: Named)
    ensures n == Scan(atoms, tables, keyOf, rels)
  {
    n := Named({}, map[]);
    var i := 0;
    while i < |atoms|
      invariant i <= |atoms| && n == Scan(atoms[..i], tables, keyOf, rels)
    {
      var x := atoms[i];
      assert atoms[..i + 1][..i] == atoms[..i];
      if x.op == EqOp && x.table in tables {
        if x.table in keyOf && keyOf[x.table] == x.col {
          n := Named(n.anchors + {(x.table, x.value)}, n.via[x.table := None]);
        } else {
          var r := RelOf(rels, x.table, x.col);
          if r.Some? {
            n := Named(n.anchors + {(r.value.end, x.value)}, n.via[x.table := Some(r.value.kind)]);
          }
        }
      }
      i := i + 1;
    }
    assert atoms[..i] == atoms;
  }

  method CoverAll(joins: seq<Join>, rels: seq<Rel>, rs: seq<Read>, anchor: Label, start: set<Label>) returns (covered: set<Label>)
    ensures covered == CoverJoins(joins, rels, rs, anchor, start)
  {
    hide CoverJoin;
    covered := start;
    var i := 0;
    while i < |joins|
      invariant i <= |joins| && covered == CoverJoins(joins[..i], rels, rs, anchor, start)
    {
      assert joins[..i + 1][..i] == joins[..i];
      covered := CoverJoin(joins[i], rels, rs, anchor, covered);
      i := i + 1;
    }
    assert joins[..i] == joins;
  }

  /** The decision over the store, each refusal exact, and what a yes promises. `held` is the record it rests on, `t` the
      template looked up; the model is the reader's own. */
  method Decide(store: Store, ghost w: World, reader: Reader, block: Block)
      returns (verdict: Verdict, ghost t: TemplateId, ghost held: Option<Recorded>)
    requires store.Valid(w)
    requires reader.schema.Valid()
    ensures verdict.NoTable? <==> !(block.Tables() <= reader.schema.labels)
    ensures verdict.NoEntity? <==>
              block.Tables() <= reader.schema.labels && !exists l, key :: IsAbout(store.c, reader.schema.rels, block, l, key)
    ensures !verdict.NoTable? && !verdict.NoEntity? ==>
              && IsAbout(store.c, reader.schema.rels, block, verdict.anchor.lb, verdict.anchor.key)
              && TemplateOf(store.c, reader, verdict.anchor.lb, t) && ReadsColumns(store.c, reader, t)
              && (verdict.NoContext? <==>
                    !exists r :: r in store.recs && r.owner == reader.owner && r.template == t && r.graph && r.context && r.node == verdict.anchor
                                 && r.at <= store.clock && (r.contextUntil.None? || r.contextUntil.value > store.clock))
    ensures verdict.NotCovered? || verdict.Yes? ==>
              && held.Some? && IsLatest(store.recs, reader.owner, t, verdict.anchor, store.clock, held.value)
              && (verdict.Yes? <==> Owes(block, store.c.keyOf, reader.schema.rels, held.value.template.rs, held.value.capped, store.c.since(store.clock),
                                         verdict.anchor.lb, verdict.anchor.key))
    ensures verdict.Yes? && store.Linked(w) && Restricts(store.c, reader) && store.c.Lasts(held.value) ==>
              forall readable, b :: RouteOk(store.c, reader.schema.rels, t, block, readable) ==>
                MatchesAlike(store.c, reader.schema.rels, w, store.nodes, store.edges, store.recs, held.value, store.clock, block, readable, b)
  {
    hide Truths, AllLinked, Keyed, KeysHeld, RouteOk, Scan, CoverJoins, IsTemplate, MatchesAlike, Restricts, Config.Lasts, TemplateOk, HasFresh, IdOf,
         Owes, AboutOne, InwardOnce, ReadsColumns;
    held, t := None, TemplateId([], map[]);
    var c, rels, tables := store.c, reader.schema.rels, block.Tables();
    if !(tables <= reader.schema.labels) {
      return NoTable, t, None;
    }
    var atoms := CollectedAll(block.filters);
    var n := ScanAll(atoms, tables, c.keyOf, rels);
    EntitiesAreLabels(atoms, tables, c.keyOf, rels);
    AboutIs(c, rels, block, n);
    if |n.anchors| != 1 {
      return NoEntity, t, None;
    }
    var entity :| entity in n.anchors;
    assert |n.anchors - {entity}| == 0;
    assert n.anchors == {entity};
    var (l, key) := entity;
    assert IsAbout(c, rels, block, l, key);
    var reading := BuildTemplate(reader.schema, l, c.hops);
    var rs := reading.value;
    var id := IdOf(c, reader, rs);
    t := id;
    IdIsTemplate(c, reader, l, rs);
    IdReadsColumns(c, reader, rs);
    TemplateInwardOnce(reader.schema, l, if c.hops == 0 then 1 else c.hops, rs);
    var latest := store.LatestFresh(reader.owner, id, NodeId(l, key), store.clock);
    FreshAre(store.recs, reader.owner, t, l, store.clock);
    if latest.None? {
      return NoContext(NodeId(l, key)), t, None;
    }
    held := latest;
    var start := Answerable.Start(n, rs, l);
    var since := c.since(store.clock);
    CoversExactly(block, c.keyOf, rels, rs, latest.value.capped, since, l, key);
    if exists v :: v in start && !WholePeriod(n, rs, atoms, latest.value.capped, since, v) {
      return NotCovered(NodeId(l, key)), t, held;
    }
    var covered := CoverAll(block.joins, rels, rs, l, start);
    if !(tables <= covered) {
      return NotCovered(NodeId(l, key)), t, held;
    }
    verdict := Yes(NodeId(l, key));
    if store.Linked(w) && Restricts(c, reader) && c.Lasts(held.value) {
      TemplateSuits(c, reader, l, t);
      forall readable: map<Label, set<Prop>>, b: Binding | RouteOk(c, rels, t, block, readable)
        ensures MatchesAlike(c, rels, w, store.nodes, store.edges, store.recs, held.value, store.clock, block, readable, b)
      {
        YesIsExact(c, rels, w, store.nodes, store.edges, store.recs, store.clock, held.value, block, readable, b);
      }
    }
  }

  /** The block's filters name the one entity. */
  ghost predicate IsAbout(c: Config, rels: seq<Rel>, block: Block, l: Label, key: Value) {
    AboutOne(Names(block.Tables(), c.keyOf, rels), CollectedAll(block.filters), l, key)
  }

  lemma AboutIs(c: Config, rels: seq<Rel>, block: Block, n: Named)
    requires n == Scan(CollectedAll(block.filters), block.Tables(), c.keyOf, rels)
    ensures |n.anchors| == 1 <==> exists l, key :: IsAbout(c, rels, block, l, key)
    ensures forall l: Label, key: Value :: IsAbout(c, rels, block, l, key) <==> n.anchors == {(l, key)}
  {
    hide Scan, AboutOne;
    forall l: Label, key: Value
      ensures IsAbout(c, rels, block, l, key) <==> n.anchors == {(l, key)}
    {
      AboutOneIs(Names(block.Tables(), c.keyOf, rels), CollectedAll(block.filters), l, key);
    }
    if |n.anchors| == 1 {
      var e :| e in n.anchors;
      assert |n.anchors - {e}| == 0;
      assert n.anchors == {(e.0, e.1)};
      assert IsAbout(c, rels, block, e.0, e.1);
    }
    if l: Label, key: Value :| IsAbout(c, rels, block, l, key) {
      assert n.anchors == {(l, key)};
    }
  }

  lemma TemplateInwardOnce(s: Schema, anchor: Label, hops: nat, rs: seq<Read>)
    requires s.Valid() && IsTemplate(s, anchor, hops, rs)
    ensures InwardOnce(rs)
  {
    hide IsTemplate;
    forall p, q | p in rs && q in rs && p.rel.Some? && q.rel.Some? && p.rel.value.kind == q.rel.value.kind
      ensures p == q
    {
      EachRelationshipOnce(s, anchor, hops, rs, p, q);
    }
  }

  predicate CoversBy(c: Config, rels: seq<Rel>, block: Block, r: Recorded, now: nat) {
    Covers(block, c.keyOf, rels, r.template.rs, r.capped, c.since(now), r.node.lb, r.node.key)
  }

  ghost predicate MatchesAlike(c: Config, rels: seq<Rel>, w: World, nodes: map<NodeId, MemNode>, edges: set<Edge>, recs: set<Recorded>, r: Recorded,
                               now: nat, block: Block, readable: map<Label, set<Prop>>, b: Binding) {
    var memory, warehouse := Remembered(c, nodes, recs, r.owner, r.template, now), Readable(c, w, r.owner, r.template, readable);
    && (IsMatchByEdges(memory, edges, rels, c.keyOf, block, b) <==> IsMatch(warehouse, block, b))
    && (IsMatch(memory, block, b) <==> IsMatch(warehouse, block, b))
    && (IsMatch(warehouse, block, b) ==> SameCells(memory, warehouse, r.template.cols, b))
  }
}
