/** What memory keeps, and when it may be read: nodes with their fetch times, derived edges, and a set of READ
    records. Freshness, row policies and retention are here as state; the class in
    Recall.dfy moves it. */
module Memory {
  import opened Options
  import opened Data
  import opened Template
  import opened Context
  import opened Served
  import opened Edges

  /** A remembered node: its properties, when it was last fetched, and until when it holds (None: for good). */
  datatype MemNode = MemNode(props: Row, at: nat, until: Option<nat>)

  /** What a context was fetched with: the reads, and the columns of each label they read. */
  datatype TemplateId = TemplateId(rs: seq<Read>, cols: map<Label, set<Prop>>)

  /** A recall step's READ of a node. `graph`: the step fetched from the virtual graph; `context`: the node is
      its anchor, and the context holds until `contextUntil`; `seenUntil`: of a policied label's node, the time up to
      which this owner may be served it. */
  datatype Recorded = Recorded(owner: nat, template: TemplateId, graph: bool, at: nat, node: NodeId, context: bool,
                               contextUntil: Option<nat>, seenUntil: Option<nat>, capped: set<Read>)

  /** A principal: the model as they may see it, and the columns of each label they may read. */
  datatype Reader = Reader(owner: nat, schema: Schema, cols: map<Label, set<Prop>>)

  /** The warehouse: every row, whole, and which row-policied nodes each principal may see. */
  datatype World = World(rows: View, visible: set<(nat, NodeId)>)

  datatype Config = Config(
    rels: seq<Rel>,             // the whole model's relationships; a reader's may be fewer
    keyOf: map<Label, Prop>,    // each label's key property
    policied: set<Label>,       // labels some of whose rows only some principals may see
    holds: map<Label, nat>,     // how long a label's facts hold: its write cadence; a frozen label is not in it
    unknownHold: nat,
    cap: nat,
    hops: nat,
    keysPerRead: nat,
    fetchedFor: nat,            // memory.retain.fetched_days
    since: nat -> int           // the window's first day, as of a time
  )
  {
    ghost predicate Valid() {
      && keysPerRead > 0
      && KindsApart(rels)
      && forall t, u :: t <= u ==> since(t) <= since(u)
    }

    function UntilOf(l: Label, at: nat): Option<nat> {
      if l in holds then Some(at + holds[l]) else None
    }

    /** The end of a READ's visibility: after the label's hold, or after the default hold if it has none. */
    function SeenUntil(l: Label, at: nat): nat {
      at + if l in holds then holds[l] else unknownHold
    }

    /** A context that ends before a sweep can take its nodes (time goes in whole steps). */
    predicate EndsInTime(r: Recorded) {
      r.contextUntil.Some? && r.contextUntil.value <= r.at + fetchedFor + 1
    }

    /** What was seen of a row-policied label holds as long as the context: it is not frozen, or the context ends first. */
    predicate SeenInTime(r: Recorded) {
      forall x :: x in r.template.cols && x in policied && x !in holds ==>
        r.contextUntil.Some? && r.contextUntil.value <= r.at + unknownHold
    }

    /** What serving a context from memory needs of its record. */
    predicate Lasts(r: Recorded) {
      EndsInTime(r) && SeenInTime(r)
    }

    /** A label every context of which lasts: its facts stop holding within the retention period, and, when a
        row-policied label of the template is frozen, within an unknown cadence's hold. */
    predicate Recallable(t: TemplateId, l: Label) {
      && l in holds && holds[l] <= fetchedFor + 1
      && forall x :: x in t.cols && x in policied && x !in holds ==> holds[l] <= unknownHold
    }
  }

  /** A row holds its own key. */
  ghost predicate Keyed(c: Config, w: World) {
    forall id :: id in w.rows && id.lb in c.keyOf ==> c.keyOf[id.lb] in w.rows[id] && w.rows[id][c.keyOf[id.lb]] == id.key
  }

  /** Every template reads its labels' keys. */
  predicate KeysRead(c: Config, t: TemplateId) {
    forall l :: l in t.cols && l in c.keyOf ==> c.keyOf[l] in t.cols[l]
  }

  ghost predicate KeysHeld(c: Config, nodes: map<NodeId, MemNode>) {
    forall id :: id in nodes && id.lb in c.keyOf ==> c.keyOf[id.lb] in nodes[id].props
  }

  predicate Holding(until: Option<nat>, now: nat) {
    until.None? || until.value > now
  }

  predicate MayRead(c: Config, w: World, owner: nat, id: NodeId) {
    id.lb in c.policied ==> (owner, id) in w.visible
  }

  /** The warehouse as one reader's template reads it. */
  function Warehouse(c: Config, w: World, owner: nat, t: TemplateId): View {
    map id | id in w.rows && id.lb in t.cols && MayRead(c, w, owner, id) :: Project(w.rows[id], t.cols[id.lb])
  }

  predicate SeenBy(recs: set<Recorded>, owner: nat, id: NodeId, now: nat) {
    exists r :: r in recs && r.owner == owner && r.node == id && r.seenUntil.Some? && r.seenUntil.value > now
  }

  predicate Visible(c: Config, nodes: map<NodeId, MemNode>, recs: set<Recorded>, owner: nat, t: TemplateId, now: nat, id: NodeId) {
    && id in nodes && id.lb in t.cols
    && Holding(nodes[id].until, now)
    && (id.lb in c.policied ==> SeenBy(recs, owner, id, now))
  }

  /** The view a guarded read has of memory: the unexpired nodes, a policied label's only with an unexpired READ by this
      owner, each with the template's columns alone. */
  function Remembered(c: Config, nodes: map<NodeId, MemNode>, recs: set<Recorded>, owner: nat, t: TemplateId, now: nat): View {
    map id | id in nodes && Visible(c, nodes, recs, owner, t, now, id) :: Project(nodes[id].props, t.cols[id.lb])
  }

  predicate Fresh(r: Recorded, owner: nat, t: TemplateId, anchor: NodeId, now: nat) {
    r.owner == owner && r.template == t && r.graph && r.context && r.node == anchor && r.at <= now && Holding(r.contextUntil, now)
  }

  // ---- what memory keeps true

  /** Every remembered property is the warehouse's; a node holds from when it was last fetched. */
  ghost predicate TrueNodes(c: Config, w: World, nodes: map<NodeId, MemNode>, clock: nat) {
    forall id :: id in nodes ==>
      && id in w.rows && Data.Within(nodes[id].props, w.rows[id])
      && nodes[id].at <= clock && nodes[id].until == c.UntilOf(id.lb, nodes[id].at)
  }

  ghost predicate SeenTruly(c: Config, w: World, recs: set<Recorded>) {
    forall r :: r in recs && r.seenUntil.Some? ==> MayRead(c, w, r.owner, r.node)
  }

  ghost predicate TemplateOk(t: TemplateId, l: Label) {
    && WellFormedReads(t.rs) && WellFormed(t.rs, t.rs[0].lb) && t.rs[0].lb == l
    && forall q :: q in t.rs ==> q.lb in t.cols
  }

  /** The context a record's fetch brought. */
  ghost function Brought(c: Config, w: World, r: Recorded): Ctx
    requires TemplateOk(r.template, r.node.lb)
  {
    Alone(Warehouse(c, w, r.owner, r.template), Limits(c.cap, c.since(r.at)), r.template.rs, r.node.key)
  }

  /** A node of a record's context is in memory, whole for its reader, fetched then or later. */
  ghost predicate NodeKept(c: Config, nodes: map<NodeId, MemNode>, recs: set<Recorded>, r: Recorded, id: NodeId, row: Row) {
    && id in nodes && id.lb in r.template.cols && nodes[id].at >= r.at
    && Project(nodes[id].props, r.template.cols[id.lb]) == row
    && (id.lb in c.policied ==>
          exists s :: s in recs && s.owner == r.owner && s.node == id && s.seenUntil == Some(c.SeenUntil(id.lb, r.at)))
  }

  ghost predicate ContextKept(c: Config, w: World, nodes: map<NodeId, MemNode>, recs: set<Recorded>, r: Recorded) {
    && TemplateOk(r.template, r.node.lb)
    && forall id :: id in Brought(c, w, r).nodes ==> NodeKept(c, nodes, recs, r, id, Brought(c, w, r).nodes[id])
  }

  /** What every context record says truly, for as long as it is kept. */
  ghost predicate RecordTrue(c: Config, w: World, r: Recorded, clock: nat) {
    && TemplateOk(r.template, r.node.lb) && r.at <= clock
    && r.node in Warehouse(c, w, r.owner, r.template)
    && (forall id :: id in Brought(c, w, r).nodes && id.lb in c.holds ==>
          r.contextUntil.Some? && r.contextUntil.value <= r.at + c.holds[id.lb])
    && r.capped == (set x | x in Brought(c, w, r).log && x.capped :: x.read)
  }

  ghost predicate RecordsTrue(c: Config, w: World, recs: set<Recorded>, clock: nat) {
    forall r :: r in recs && r.graph && r.context ==> RecordTrue(c, w, r, clock)
  }

  /** While a context holds, memory has all of it. */
  ghost predicate ContextsKept(c: Config, w: World, nodes: map<NodeId, MemNode>, recs: set<Recorded>, clock: nat) {
    forall r :: r in recs && r.graph && r.context && Holding(r.contextUntil, clock) && c.EndsInTime(r)
      ==> ContextKept(c, w, nodes, recs, r)
  }

  // ---- a recall served from memory

  lemma AnchorInContext(c: Config, w: World, r: Recorded)
    requires TemplateOk(r.template, r.node.lb) && r.node in Warehouse(c, w, r.owner, r.template)
    ensures r.node in Brought(c, w, r).nodes
  {
    hide Through, LastHop, Warehouse;
    assert r.node == NodeId(r.template.rs[0].lb, r.node.key);
  }

  lemma RecallableLasts(c: Config, w: World, r: Recorded, clock: nat)
    requires RecordTrue(c, w, r, clock) && c.Recallable(r.template, r.node.lb)
    ensures c.Lasts(r)
  {
    hide Alone, Warehouse, Brought;
    AnchorInContext(c, w, r);
  }

  lemma NodeStillSeen(c: Config, w: World, nodes: map<NodeId, MemNode>, recs: set<Recorded>, r: Recorded, id: NodeId, row: Row, clock: nat, now: nat)
    requires TrueNodes(c, w, nodes, clock)
    requires NodeKept(c, nodes, recs, r, id, row)
    requires id.lb in c.holds ==> r.contextUntil.Some? && r.contextUntil.value <= r.at + c.holds[id.lb]
    requires Holding(r.contextUntil, now)
    requires c.Lasts(r)
    ensures Visible(c, nodes, recs, r.owner, r.template, now, id)
    ensures Remembered(c, nodes, recs, r.owner, r.template, now)[id] == row
  {
    if id.lb in c.policied {
      var s :| s in recs && s.owner == r.owner && s.node == id && s.seenUntil == Some(c.SeenUntil(id.lb, r.at));
      assert s.seenUntil.value > now;
    }
  }

  lemma RememberedIsPart(c: Config, w: World, nodes: map<NodeId, MemNode>, recs: set<Recorded>, owner: nat, t: TemplateId, clock: nat, now: nat)
    requires TrueNodes(c, w, nodes, clock) && SeenTruly(c, w, recs)
    ensures PartOf(Remembered(c, nodes, recs, owner, t, now), Warehouse(c, w, owner, t))
  {
    forall id | id in Remembered(c, nodes, recs, owner, t, now)
      ensures id in Warehouse(c, w, owner, t)
    {
      assert MayRead(c, w, owner, id);
    }
  }

  /** While a context holds, memory, as its reader may read it, holds parts of the warehouse's rows, and all of
      what the context's fetch brought, whole. */
  lemma ContextHeld(c: Config, w: World, nodes: map<NodeId, MemNode>, recs: set<Recorded>, clock: nat, r: Recorded, now: nat)
    requires c.Valid() && TrueNodes(c, w, nodes, clock) && SeenTruly(c, w, recs)
    requires RecordsTrue(c, w, recs, clock) && ContextsKept(c, w, nodes, recs, now)
    requires r in recs && Fresh(r, r.owner, r.template, r.node, now)
    requires TemplateOk(r.template, r.node.lb) && c.Lasts(r)
    ensures PartOf(Remembered(c, nodes, recs, r.owner, r.template, now), Warehouse(c, w, r.owner, r.template))
    ensures Alike(Brought(c, w, r).nodes, Remembered(c, nodes, recs, r.owner, r.template, now), Warehouse(c, w, r.owner, r.template))
    ensures r.node in Warehouse(c, w, r.owner, r.template)
  {
    hide Alone, Remembered, Warehouse, TrueNodes, Visible;
    assert RecordTrue(c, w, r, clock) && ContextKept(c, w, nodes, recs, r);
    RememberedIsPart(c, w, nodes, recs, r.owner, r.template, clock, now);
    var brought := Brought(c, w, r).nodes;
    FromWarehouse(c, w, r);
    AnchorInContext(c, w, r);
    forall id | id in brought
      ensures id in Remembered(c, nodes, recs, r.owner, r.template, now)
      ensures Remembered(c, nodes, recs, r.owner, r.template, now)[id] == brought[id]
    {
      NodeStillSeen(c, w, nodes, recs, r, id, brought[id], clock, now);
      VisibleIsRemembered(c, nodes, recs, r.owner, r.template, now, id);
    }
  }

  /** A recall served from memory returns exactly the nodes and edges a fetch at that moment would. */
  lemma RecallExact(c: Config, w: World, nodes: map<NodeId, MemNode>, recs: set<Recorded>, clock: nat, r: Recorded, now: nat)
    requires c.Valid() && TrueNodes(c, w, nodes, clock) && SeenTruly(c, w, recs)
    requires RecordsTrue(c, w, recs, clock) && ContextsKept(c, w, nodes, recs, now)
    requires r in recs && Fresh(r, r.owner, r.template, r.node, now)
    requires TemplateOk(r.template, r.node.lb) && c.Lasts(r)
    ensures SameContent(
              Alone(Remembered(c, nodes, recs, r.owner, r.template, now), Limits(c.cap, c.since(now)), r.template.rs, r.node.key),
              Alone(Warehouse(c, w, r.owner, r.template), Limits(c.cap, c.since(now)), r.template.rs, r.node.key))
  {
    hide Alone, Remembered, Warehouse, TrueNodes, Visible;
    ContextHeld(c, w, nodes, recs, clock, r, now);
    ServedExactly(Warehouse(c, w, r.owner, r.template), Remembered(c, nodes, recs, r.owner, r.template, now),
                  r.template.rs, c.cap, c.since(r.at), c.since(now), r.node.key);
  }

  lemma VisibleIsRemembered(c: Config, nodes: map<NodeId, MemNode>, recs: set<Recorded>, owner: nat, t: TemplateId, now: nat, id: NodeId)
    requires Visible(c, nodes, recs, owner, t, now, id)
    ensures id in Remembered(c, nodes, recs, owner, t, now)
  {
  }

  lemma FromWarehouse(c: Config, w: World, r: Recorded)
    requires TemplateOk(r.template, r.node.lb)
    ensures FromView(Brought(c, w, r).nodes, Warehouse(c, w, r.owner, r.template))
  {
    hide Through, LastHop, Warehouse;
  }
}
