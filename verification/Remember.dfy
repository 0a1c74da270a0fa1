/** What a write, a sweep, a read of memory and time make of what memory keeps, and what they keep true of it:
    any readers may act, in any order, while the warehouse does not change. */
module Remember {
  import opened Options
  import opened Data
  import opened Template
  import opened Context
  import opened Served
  import opened Edges
  import opened Memory

  // ---- write

  function PropsOf(nodes: map<NodeId, MemNode>): View {
    map id | id in nodes :: nodes[id].props
  }

  /** SET n += props (a null removes the property), n.fetched_at, n.holds_until. */
  function Stamped(c: Config, had: Row, row: Row, cols: set<Prop>, l: Label, at: nat): MemNode {
    MemNode((had - cols) + row, at, c.UntilOf(l, at))
  }

  function OldProps(nodes: map<NodeId, MemNode>, id: NodeId): Row {
    if id in nodes then nodes[id].props else map[]
  }

  function Merge(c: Config, nodes: map<NodeId, MemNode>, got: View, t: TemplateId, at: nat): map<NodeId, MemNode>
    requires forall id :: id in got ==> id.lb in t.cols
  {
    map id | id in nodes.Keys + got.Keys ::
      if id in got then Stamped(c, OldProps(nodes, id), got[id], t.cols[id.lb], id.lb, at) else nodes[id]
  }

  function AnchorRecord(c: Config, owner: nat, t: TemplateId, anchor: NodeId, at: nat, until: Option<nat>, capped: set<Read>): Recorded {
    Recorded(owner, t, true, at, anchor, true, until, Some(c.SeenUntil(anchor.lb, at)), capped)
  }

  /** The records a write adds: one of the anchor, which carries the context, and one of each other policied node. */
  function ReadsOf(c: Config, owner: nat, t: TemplateId, anchor: NodeId, got: View, at: nat, until: Option<nat>, capped: set<Read>): set<Recorded> {
    {AnchorRecord(c, owner, t, anchor, at, until, capped)}
    + set id | id in got && id.lb in c.policied && id != anchor ::
        Recorded(owner, t, true, at, id, false, None, Some(c.SeenUntil(id.lb, at)), capped)
  }

  /** The least of the ends of the labels that have one; none exactly when no label has. */
  ghost predicate IsContextUntil(c: Config, labels: set<Label>, at: nat, until: Option<nat>) {
    && (until.None? <==> forall l :: l in labels ==> l !in c.holds)
    && (until.Some? ==> (forall l :: l in labels && l in c.holds ==> until.value <= at + c.holds[l])
                        && exists l :: l in labels && l in c.holds && until.value == at + c.holds[l])
  }

  method ContextUntil(c: Config, labels: set<Label>, at: nat) returns (until: Option<nat>)
    ensures IsContextUntil(c, labels, at, until)
  {
    until := None;
    var left := labels;
    while left != {}
      invariant left <= labels && IsContextUntil(c, labels - left, at, until)
    {
      var l :| l in left;
      if l in c.holds && (until.None? || at + c.holds[l] < until.value) {
        until := Some(at + c.holds[l]);
        assert l in labels - (left - {l});
      }
      assert labels - (left - {l}) == (labels - left) + {l};
      left := left - {l};
    }
    assert labels - left == labels;
  }

  lemma MergeProject(had: Row, row: Row, written: set<Prop>, cols: set<Prop>, whole: Row)
    requires Data.Within(had, whole) && row == Project(whole, written)
    ensures Data.Within((had - written) + row, whole)
    ensures Project(had, cols) == Project(whole, cols) ==> Project((had - written) + row, cols) == Project(whole, cols)
    ensures Project((had - written) + row, written) == row
  {
    var now := (had - written) + row;
    assert forall p :: p in now <==> (p in had && p !in written) || (p in whole && p in written);
    if Project(had, cols) == Project(whole, cols) {
      forall p | p in cols
        ensures p in now <==> p in whole
      {
        assert p in had <==> p in Project(had, cols);
        assert p in whole <==> p in Project(whole, cols);
      }
    }
  }

  /** The context a writer brings: what the warehouse gave it. */
  ghost predicate FetchedContext(c: Config, w: World, owner: nat, t: TemplateId, anchor: NodeId, at: nat, ctx: Ctx) {
    && TemplateOk(t, anchor.lb)
    && anchor in Warehouse(c, w, owner, t)
    && ctx == Alone(Warehouse(c, w, owner, t), Limits(c.cap, c.since(at)), t.rs, anchor.key)
  }

  lemma FetchedNodes(c: Config, w: World, owner: nat, t: TemplateId, anchor: NodeId, at: nat, ctx: Ctx)
    requires FetchedContext(c, w, owner, t, anchor, at, ctx)
    ensures anchor in ctx.nodes
    ensures forall id :: id in ctx.nodes ==>
              && id in w.rows && id.lb in t.cols && MayRead(c, w, owner, id)
              && ctx.nodes[id] == Project(w.rows[id], t.cols[id.lb])
  {
    hide Through, LastHop;
    assert anchor == NodeId(t.rs[0].lb, anchor.key);
    assert FromView(ctx.nodes, Warehouse(c, w, owner, t));
  }

  lemma WriteKeepsTrue(c: Config, w: World, nodes: map<NodeId, MemNode>, clock: nat, t: TemplateId, got: View, at: nat)
    requires TrueNodes(c, w, nodes, clock) && clock <= at
    requires forall id :: id in got ==> id in w.rows && id.lb in t.cols && got[id] == Project(w.rows[id], t.cols[id.lb])
    ensures TrueNodes(c, w, Merge(c, nodes, got, t, at), at)
  {
    var now := Merge(c, nodes, got, t, at);
    forall id | id in now
      ensures id in w.rows && Data.Within(now[id].props, w.rows[id]) && now[id].at <= at && now[id].until == c.UntilOf(id.lb, now[id].at)
    {
      if id in got {
        MergeProject(OldProps(nodes, id), got[id], t.cols[id.lb], {}, w.rows[id]);
      }
    }
  }

  /** A later write, by any reader with any columns, leaves a kept context kept. */
  lemma WriteKeepsOld(c: Config, w: World, nodes: map<NodeId, MemNode>, recs: set<Recorded>, more: set<Recorded>, clock: nat,
                      t: TemplateId, got: View, at: nat, r: Recorded)
    requires TrueNodes(c, w, nodes, clock) && clock <= at && r.at <= clock
    requires forall id :: id in got ==> id in w.rows && id.lb in t.cols && got[id] == Project(w.rows[id], t.cols[id.lb])
    requires ContextKept(c, w, nodes, recs, r)
    ensures ContextKept(c, w, Merge(c, nodes, got, t, at), recs + more, r)
  {
    hide Alone, Warehouse, Brought, TemplateOk;
    var now := Merge(c, nodes, got, t, at);
    var brought := Brought(c, w, r).nodes;
    FromWarehouse(c, w, r);
    forall id | id in brought
      ensures NodeKept(c, now, recs + more, r, id, brought[id])
    {
      assert NodeKept(c, nodes, recs, r, id, brought[id]);
      NodeOfWarehouse(c, w, r, id);
      if id in got {
        MergeProject(OldProps(nodes, id), got[id], t.cols[id.lb], r.template.cols[id.lb], w.rows[id]);
      }
      if id.lb in c.policied {
        var s :| s in recs && s.owner == r.owner && s.node == id && s.seenUntil == Some(c.SeenUntil(id.lb, r.at));
        assert s in recs + more;
      }
    }
  }

  lemma NodeOfWarehouse(c: Config, w: World, r: Recorded, id: NodeId)
    requires TemplateOk(r.template, r.node.lb) && id in Brought(c, w, r).nodes
    ensures id in w.rows && id.lb in r.template.cols && Brought(c, w, r).nodes[id] == Project(w.rows[id], r.template.cols[id.lb])
  {
    hide Alone, Brought;
    FromWarehouse(c, w, r);
  }

  /** A write leaves its own context kept. */
  lemma WriteKeepsNew(c: Config, w: World, nodes: map<NodeId, MemNode>, recs: set<Recorded>, clock: nat,
                      owner: nat, t: TemplateId, anchor: NodeId, ctx: Ctx, at: nat, until: Option<nat>, capped: set<Read>)
    requires TrueNodes(c, w, nodes, clock) && clock <= at
    requires FetchedContext(c, w, owner, t, anchor, at, ctx)
    requires forall id :: id in ctx.nodes ==> id.lb in t.cols
    ensures ContextKept(c, w, Merge(c, nodes, ctx.nodes, t, at), recs + ReadsOf(c, owner, t, anchor, ctx.nodes, at, until, capped),
                        AnchorRecord(c, owner, t, anchor, at, until, capped))
  {
    hide Alone, Warehouse;
    var r := AnchorRecord(c, owner, t, anchor, at, until, capped);
    var all := recs + ReadsOf(c, owner, t, anchor, ctx.nodes, at, until, capped);
    FetchedNodes(c, w, owner, t, anchor, at, ctx);
    assert Brought(c, w, r) == ctx;
    var now := Merge(c, nodes, ctx.nodes, t, at);
    forall id | id in ctx.nodes
      ensures NodeKept(c, now, all, r, id, ctx.nodes[id])
    {
      if id in nodes {
        assert Data.Within(OldProps(nodes, id), w.rows[id]);
      }
      MergeProject(OldProps(nodes, id), ctx.nodes[id], t.cols[id.lb], {}, w.rows[id]);
      if id.lb in c.policied {
        var s := if id == anchor then r else Recorded(owner, t, true, at, id, false, None, Some(c.SeenUntil(id.lb, at)), capped);
        assert s in all;
      }
    }
  }

  lemma WriteRecordTrue(c: Config, w: World, owner: nat, t: TemplateId, anchor: NodeId, ctx: Ctx, at: nat, until: Option<nat>)
    requires FetchedContext(c, w, owner, t, anchor, at, ctx)
    requires IsContextUntil(c, set id | id in ctx.nodes :: id.lb, at, until)
    ensures RecordTrue(c, w, AnchorRecord(c, owner, t, anchor, at, until, set x | x in ctx.log && x.capped :: x.read), at)
  {
    hide Alone, Warehouse;
    var r := AnchorRecord(c, owner, t, anchor, at, until, set x | x in ctx.log && x.capped :: x.read);
    assert Brought(c, w, r) == ctx;
    var labels := set id | id in ctx.nodes :: id.lb;
    assert forall id :: id in ctx.nodes ==> id.lb in labels;
  }

  // ---- sweep

  /** What a sweep leaves: the nodes fetched at the cutoff or later. */
  function Young(nodes: map<NodeId, MemNode>, cutoff: int): map<NodeId, MemNode> {
    map id | id in nodes && nodes[id].at >= cutoff :: nodes[id]
  }

  function ReadsLeft(nodes: map<NodeId, MemNode>, recs: set<Recorded>, cutoff: int): set<Recorded> {
    set r | r in recs && !(r.node in nodes && nodes[r.node].at < cutoff)
  }

  /** Every record is of a node in memory. */
  ghost predicate RecordsHeld(nodes: map<NodeId, MemNode>, recs: set<Recorded>) {
    forall r :: r in recs ==> r.node in nodes
  }

  /** A write's records are of its own nodes; what was in memory stays. */
  lemma WriteHolds(c: Config, nodes: map<NodeId, MemNode>, recs: set<Recorded>, owner: nat, t: TemplateId, anchor: NodeId, got: View,
                   at: nat, until: Option<nat>, capped: set<Read>)
    requires RecordsHeld(nodes, recs) && anchor in got && forall id :: id in got ==> id.lb in t.cols
    ensures RecordsHeld(Merge(c, nodes, got, t, at), recs + ReadsOf(c, owner, t, anchor, got, at, until, capped))
  {
    hide Stamped;
  }

  /** Of a sweep's nodes and records, without the words that made them: the nodes are the old ones not fetched before the
      cutoff, as they were; and the records are the old ones whose node is still there. */
  lemma SweepLeaves(nodes: map<NodeId, MemNode>, recs: set<Recorded>, cutoff: int)
    requires RecordsHeld(nodes, recs)
    ensures forall id :: id in Young(nodes, cutoff) <==> id in nodes && !(nodes[id].at < cutoff)
    ensures forall id :: id in Young(nodes, cutoff) ==> Young(nodes, cutoff)[id] == nodes[id]
    ensures forall r :: r in ReadsLeft(nodes, recs, cutoff) <==> r in recs && r.node in Young(nodes, cutoff)
  {
  }

  /** A sweep never takes a node of a context that still holds, when contexts end within the retention period. */
  lemma SweepKeepsContext(c: Config, w: World, nodes: map<NodeId, MemNode>, recs: set<Recorded>, r: Recorded, now: nat)
    requires RecordTrue(c, w, r, now) && ContextKept(c, w, nodes, recs, r)
    requires Holding(r.contextUntil, now) && c.EndsInTime(r)
    ensures ContextKept(c, w, Young(nodes, now - c.fetchedFor), ReadsLeft(nodes, recs, now - c.fetchedFor), r)
  {
    hide Alone, Warehouse, Brought, TemplateOk;
    var cutoff := now - c.fetchedFor;
    AnchorInContext(c, w, r);
    assert r.at >= cutoff;
    var brought := Brought(c, w, r).nodes;
    var young, left := Young(nodes, cutoff), ReadsLeft(nodes, recs, cutoff);
    forall id | id in brought
      ensures NodeKept(c, young, left, r, id, brought[id])
    {
      assert NodeKept(c, nodes, recs, r, id, brought[id]);
      if id.lb in c.policied {
        var s :| s in recs && s.owner == r.owner && s.node == id && s.seenUntil == Some(c.SeenUntil(id.lb, r.at));
        assert s in left;
      }
    }
  }

  // ---- what a write and a sweep keep of every record

  ghost predicate Truths(c: Config, w: World, nodes: map<NodeId, MemNode>, recs: set<Recorded>, clock: nat) {
    && TrueNodes(c, w, nodes, clock) && SeenTruly(c, w, recs)
    && RecordsTrue(c, w, recs, clock) && ContextsKept(c, w, nodes, recs, clock)
  }

  lemma TruthsOfNodes(c: Config, w: World, nodes: map<NodeId, MemNode>, recs: set<Recorded>, clock: nat)
    requires Truths(c, w, nodes, recs, clock)
    ensures TrueNodes(c, w, nodes, clock)
  {
  }

  /** Time passing keeps all of it: a context only ever stops holding. */
  lemma TimePasses(c: Config, w: World, nodes: map<NodeId, MemNode>, recs: set<Recorded>, clock: nat, now: nat)
    requires Truths(c, w, nodes, recs, clock) && clock <= now
    ensures Truths(c, w, nodes, recs, now)
  {
    hide ContextKept, Brought, TemplateOk;
  }

  lemma WriteKeepsAll(c: Config, w: World, nodes: map<NodeId, MemNode>, recs: set<Recorded>, owner: nat, t: TemplateId,
                      anchor: NodeId, ctx: Ctx, at: nat, until: Option<nat>)
    requires Truths(c, w, nodes, recs, at)
    requires FetchedContext(c, w, owner, t, anchor, at, ctx)
    requires forall id :: id in ctx.nodes ==> id.lb in t.cols
    requires IsContextUntil(c, set id | id in ctx.nodes :: id.lb, at, until)
    ensures Truths(c, w, Merge(c, nodes, ctx.nodes, t, at),
                   recs + ReadsOf(c, owner, t, anchor, ctx.nodes, at, until, set x | x in ctx.log && x.capped :: x.read), at)
  {
    hide ContextKept, Brought, TemplateOk, FetchedContext, TrueNodes, RecordTrue, Merge;
    var capped := set x | x in ctx.log && x.capped :: x.read;
    var more := ReadsOf(c, owner, t, anchor, ctx.nodes, at, until, capped);
    var r := AnchorRecord(c, owner, t, anchor, at, until, capped);
    FetchedNodes(c, w, owner, t, anchor, at, ctx);
    WriteKeepsTrue(c, w, nodes, at, t, ctx.nodes, at);
    WriteKeepsNew(c, w, nodes, recs, at, owner, t, anchor, ctx, at, until, capped);
    WriteRecordTrue(c, w, owner, t, anchor, ctx, at, until);
    forall s | s in recs && s.graph && s.context && Holding(s.contextUntil, at) && c.EndsInTime(s)
      ensures ContextKept(c, w, Merge(c, nodes, ctx.nodes, t, at), recs + more, s)
    {
      RecordNotLater(c, w, recs, at, s);
      WriteKeepsOld(c, w, nodes, recs, more, at, t, ctx.nodes, at, s);
    }
    assert forall s :: s in more && s.context ==> s == r;
  }

  lemma RecordNotLater(c: Config, w: World, recs: set<Recorded>, clock: nat, r: Recorded)
    requires RecordsTrue(c, w, recs, clock) && r in recs && r.graph && r.context
    ensures r.at <= clock
  {
    hide Brought, TemplateOk;
    assert RecordTrue(c, w, r, clock);
  }

  lemma SweepKeepsAll(c: Config, w: World, nodes: map<NodeId, MemNode>, recs: set<Recorded>, now: nat)
    requires Truths(c, w, nodes, recs, now)
    ensures Truths(c, w, Young(nodes, now - c.fetchedFor), ReadsLeft(nodes, recs, now - c.fetchedFor), now)
  {
    hide ContextKept, RecordTrue;
    var young, left := Young(nodes, now - c.fetchedFor), ReadsLeft(nodes, recs, now - c.fetchedFor);
    forall r | r in left && r.graph && r.context && Holding(r.contextUntil, now) && c.EndsInTime(r)
      ensures ContextKept(c, w, young, left, r)
    {
      SweepKeepsContext(c, w, nodes, recs, r, now);
    }
  }

  /** The columns of a label a reader's recalls read: those they may read that memory keeps, and its key. */
  function ColsOf(c: Config, reader: Reader, l: Label): set<Prop> {
    (if l in reader.cols then reader.cols[l] else {}) + (if l in c.keyOf then {c.keyOf[l]} else {})
  }

  /** The template as one reader's recall identifies it: the reads, and the columns they read. */
  function IdOf(c: Config, reader: Reader, rs: seq<Read>): (t: TemplateId)
    ensures KeysRead(c, t)
  {
    TemplateId(rs, map l | l in Labels(rs) :: ColsOf(c, reader, l))
  }

  /** The template of a reader's recall of a label. */
  ghost predicate TemplateOf(c: Config, reader: Reader, l: Label, t: TemplateId) {
    IsTemplate(reader.schema, l, if c.hops == 0 then 1 else c.hops, t.rs) && t == IdOf(c, reader, t.rs)
  }

  lemma IdIsTemplate(c: Config, reader: Reader, l: Label, rs: seq<Read>)
    requires IsTemplate(reader.schema, l, if c.hops == 0 then 1 else c.hops, rs)
    ensures IdOf(c, reader, rs).rs == rs && TemplateOf(c, reader, l, IdOf(c, reader, rs))
  {
    hide IsTemplate;
  }

  lemma IdIsOk(c: Config, s: Schema, l: Label, hops: nat, reader: Reader, rs: seq<Read>)
    requires IsTemplate(s, l, hops, rs)
    ensures TemplateOk(IdOf(c, reader, rs), l)
  {
    TemplateIsWellFormed(s, l, hops, rs);
    forall q | q in rs && q.rel.Some? && !q.inward
      ensures q.via == q.rel.value.start && q.lb == q.rel.value.end
    {
      var i :| 0 <= i < |rs| && rs[i] == q;
    }
  }

  /** What a recall must return: the nodes and edges a fetch of the context at that moment gives. */
  ghost predicate AsFetched(c: Config, w: World, owner: nat, t: TemplateId, l: Label, key: Value, now: nat, ctx: Ctx)
    requires TemplateOk(t, l)
  {
    SameContent(ctx, Alone(Warehouse(c, w, owner, t), Limits(c.cap, c.since(now)), t.rs, key))
  }

  lemma NonEmptyHasAnchor(c: Config, w: World, owner: nat, t: TemplateId, l: Label, key: Value, at: nat)
    requires TemplateOk(t, l)
    requires Alone(Warehouse(c, w, owner, t), Limits(c.cap, c.since(at)), t.rs, key).nodes != map[]
    ensures NodeId(l, key) in Warehouse(c, w, owner, t)
  {
    hide Through, LastHop, Warehouse;
  }

  /** A context read from memory says of its reads' caps what the fetch that brought it said. */
  function FlaggedAs(log: seq<ReadLog>, capped: set<Read>): (flagged: seq<ReadLog>)
    ensures |flagged| == |log|
    ensures forall x :: x in flagged ==> (x.capped <==> x.read in capped)
  {
    seq(|log|, i requires 0 <= i < |log| => log[i].(capped := log[i].read in capped))
  }

  /** The record of a read from memory is neither a context's nor a right to see a node. */
  lemma RecordOfMemory(c: Config, w: World, nodes: map<NodeId, MemNode>, recs: set<Recorded>, clock: nat, r: Recorded)
    requires Truths(c, w, nodes, recs, clock)
    requires !r.graph && r.seenUntil.None?
    ensures Truths(c, w, nodes, recs + {r}, clock)
  {
    hide TrueNodes, RecordTrue, Brought, TemplateOk;
    forall s | s in recs + {r} && s.graph && s.context && Holding(s.contextUntil, clock) && c.EndsInTime(s)
      ensures ContextKept(c, w, nodes, recs + {r}, s)
    {
      assert ContextKept(c, w, nodes, recs, s);
      MoreRecords(c, w, nodes, recs, {r}, s);
    }
  }

  lemma MoreRecords(c: Config, w: World, nodes: map<NodeId, MemNode>, recs: set<Recorded>, more: set<Recorded>, r: Recorded)
    requires ContextKept(c, w, nodes, recs, r)
    ensures ContextKept(c, w, nodes, recs + more, r)
  {
    hide Brought, TemplateOk;
  }

  lemma MergeWroteOnly(c: Config, nodes: map<NodeId, MemNode>, got: View, t: TemplateId, at: nat)
    requires forall id :: id in got ==> id.lb in t.cols
    ensures WroteOnly(PropsOf(nodes), PropsOf(Merge(c, nodes, got, t, at)), got.Keys)
  {
  }

  lemma MergeKeepsKeys(c: Config, w: World, nodes: map<NodeId, MemNode>, got: View, t: TemplateId, at: nat)
    requires Keyed(c, w) && KeysHeld(c, nodes) && KeysRead(c, t)
    requires forall id :: id in got ==> id in w.rows && id.lb in t.cols && got[id] == Project(w.rows[id], t.cols[id.lb])
    ensures KeysHeld(c, Merge(c, nodes, got, t, at))
  {
  }

  /** What a write leaves of the columns, whenever it is made. */
  function MergedProps(props: View, got: View, cols: map<Label, set<Prop>>): View
    requires forall id :: id in got ==> id.lb in cols
  {
    map id | id in props.Keys + got.Keys ::
      if id in got then ((if id in props then props[id] else map[]) - cols[id.lb]) + got[id] else props[id]
  }

  lemma MergeProps(c: Config, nodes: map<NodeId, MemNode>, got: View, t: TemplateId, at: nat)
    requires forall id :: id in got ==> id.lb in t.cols
    ensures PropsOf(Merge(c, nodes, got, t, at)) == MergedProps(PropsOf(nodes), got, t.cols)
  {
  }

  lemma MergeTwice(props: View, got: View, cols: map<Label, set<Prop>>)
    requires forall id :: id in got ==> id.lb in cols && forall p :: p in got[id] ==> p in cols[id.lb]
    ensures MergedProps(MergedProps(props, got, cols), got, cols) == MergedProps(props, got, cols)
  {
    var once := MergedProps(props, got, cols);
    forall id | id in got
      ensures (once[id] - cols[id.lb]) + got[id] == once[id]
    {
    }
  }

  /** Writing a context twice, at any times, leaves the same columns, so (EdgesFollowNodes) the same relationships. */
  lemma WriteTwice(c: Config, nodes: map<NodeId, MemNode>, got: View, t: TemplateId, at: nat, later: nat)
    requires forall id :: id in got ==> id.lb in t.cols && forall p :: p in got[id] ==> p in t.cols[id.lb]
    ensures PropsOf(Merge(c, Merge(c, nodes, got, t, at), got, t, later)) == PropsOf(Merge(c, nodes, got, t, at))
  {
    hide Merge, PropsOf, MergedProps;
    var once := Merge(c, nodes, got, t, at);
    MergeProps(c, nodes, got, t, at);
    MergeProps(c, once, got, t, later);
    MergeTwice(PropsOf(nodes), got, t.cols);
  }

  lemma YoungProps(nodes: map<NodeId, MemNode>, young: map<NodeId, MemNode>)
    requires forall id :: id in young ==> id in nodes && young[id] == nodes[id]
    ensures forall id :: id in PropsOf(young) ==> id in PropsOf(nodes) && PropsOf(young)[id] == PropsOf(nodes)[id]
  {
  }
}
