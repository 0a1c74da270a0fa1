/** The memory store, moved by its three actions: recall (read from memory, or fetch and write), and sweep.
    Any readers may act, in any order, while time goes on and the warehouse does not change. */
module Recall {
  import opened Options
  import opened Data
  import opened Template
  import opened Context
  import opened Served
  import opened Edges
  import opened Memory
  import opened Batch
  import opened PagedRead
  import opened Remember
  import opened Linked

  /** The reader's own record of a context of the anchor that still holds, if there is one. */
  predicate HasFresh(recs: set<Recorded>, owner: nat, t: TemplateId, anchor: NodeId, now: nat) {
    exists r :: r in recs && Fresh(r, owner, t, anchor, now)
  }

  lemma FreshIs(recs: set<Recorded>, owner: nat, t: TemplateId, anchor: NodeId, now: nat, latest: Option<Recorded>)
    requires latest.Some? ==> latest.value in recs && Fresh(latest.value, owner, t, anchor, now)
    requires forall r :: r in recs && Fresh(r, owner, t, anchor, now) ==> latest.Some?
    ensures latest.Some? <==> HasFresh(recs, owner, t, anchor, now)
  {
  }

  lemma FreshAre(recs: set<Recorded>, owner: nat, t: TemplateId, l: Label, now: nat)
    ensures forall k :: HasFresh(recs, owner, t, NodeId(l, k), now) <==>
              exists r :: r in recs && r.owner == owner && r.template == t && r.graph && r.context && r.node == NodeId(l, k)
                          && r.at <= now && (r.contextUntil.None? || r.contextUntil.value > now)
  {
    assert forall r, k :: Fresh(r, owner, t, NodeId(l, k), now) <==>
             && r.owner == owner && r.template == t && r.graph && r.context && r.node == NodeId(l, k)
             && r.at <= now && (r.contextUntil.None? || r.contextUntil.value > now);
  }

  /** A read from memory leaves no context to read from memory. */
  lemma FreshStays(was: set<Recorded>, now: set<Recorded>, owner: nat, t: TemplateId, l: Label, clock: nat)
    requires was <= now && forall r :: r in now && r !in was ==> !r.graph
    ensures forall k :: HasFresh(now, owner, t, NodeId(l, k), clock) <==> HasFresh(was, owner, t, NodeId(l, k), clock)
  {
    forall k
      ensures HasFresh(now, owner, t, NodeId(l, k), clock) <==> HasFresh(was, owner, t, NodeId(l, k), clock)
    {
      if HasFresh(now, owner, t, NodeId(l, k), clock) {
        var r :| r in now && Fresh(r, owner, t, NodeId(l, k), clock);
        assert r in was;
      }
    }
  }

  /** A fetched context is in memory as of `at`, whole, with its READs; an empty one leaves nothing. */
  ghost predicate Written(c: Config, owner: nat, t: TemplateId, anchor: NodeId, ctx: Ctx, at: nat, nodes: map<NodeId, MemNode>, recs: set<Recorded>) {
    ctx.nodes != map[] ==>
      && (forall id :: id in ctx.nodes ==> WrittenNode(nodes, t, at, id, ctx.nodes[id]))
      && exists until :: WrittenReads(c, owner, t, anchor, ctx, at, until, recs)
  }

  ghost predicate WrittenReads(c: Config, owner: nat, t: TemplateId, anchor: NodeId, ctx: Ctx, at: nat, until: Option<nat>, recs: set<Recorded>) {
    && IsContextUntil(c, set id | id in ctx.nodes :: id.lb, at, until)
    && ReadsOf(c, owner, t, anchor, ctx.nodes, at, until, set x | x in ctx.log && x.capped :: x.read) <= recs
  }

  ghost predicate WrittenNode(nodes: map<NodeId, MemNode>, t: TemplateId, at: nat, id: NodeId, row: Row) {
    id in nodes && nodes[id].at == at && id.lb in t.cols && Project(nodes[id].props, t.cols[id.lb]) == row
  }

  lemma MergeWrites(c: Config, w: World, nodes: map<NodeId, MemNode>, clock: nat, t: TemplateId, got: View, at: nat)
    requires TrueNodes(c, w, nodes, clock)
    requires forall id :: id in got ==> id in w.rows && id.lb in t.cols && got[id] == Project(w.rows[id], t.cols[id.lb])
    ensures forall id :: id in got ==> WrittenNode(Merge(c, nodes, got, t, at), t, at, id, got[id])
  {
    forall id | id in got
      ensures WrittenNode(Merge(c, nodes, got, t, at), t, at, id, got[id])
    {
      MergeProject(OldProps(nodes, id), got[id], t.cols[id.lb], {}, w.rows[id]);
    }
  }

  /** A context written stays as written through the writes that follow it at the same moment. */
  lemma StillWritten(c: Config, w: World, nodes: map<NodeId, MemNode>, recs: set<Recorded>, more: set<Recorded>, clock: nat, owner: nat, t: TemplateId,
                     anchor: NodeId, ctx: Ctx, got: View, at: nat)
    requires Written(c, owner, t, anchor, ctx, at, nodes, recs) && TrueNodes(c, w, nodes, clock)
    requires forall id :: id in got ==> id in w.rows && id.lb in t.cols && got[id] == Project(w.rows[id], t.cols[id.lb])
    requires forall id :: id in ctx.nodes ==> id in w.rows && id.lb in t.cols && ctx.nodes[id] == Project(w.rows[id], t.cols[id.lb])
    ensures Written(c, owner, t, anchor, ctx, at, Merge(c, nodes, got, t, at), recs + more)
  {
    hide TrueNodes, IsContextUntil, ReadsOf;
    MergeWrites(c, w, nodes, clock, t, got, at);
    if ctx.nodes != map[] {
      forall id | id in ctx.nodes
        ensures WrittenNode(Merge(c, nodes, got, t, at), t, at, id, ctx.nodes[id])
      {
        assert WrittenNode(nodes, t, at, id, ctx.nodes[id]);
      }
      var until :| WrittenReads(c, owner, t, anchor, ctx, at, until, recs);
      assert WrittenReads(c, owner, t, anchor, ctx, at, until, recs + more);
    }
  }

  /** A fetch's contexts hold rows of the warehouse, as its template reads them. */
  lemma FetchedRows(c: Config, w: World, owner: nat, t: TemplateId, l: Label, k: Value, at: nat)
    requires TemplateOk(t, l)
    ensures var ctx := Alone(Warehouse(c, w, owner, t), Limits(c.cap, c.since(at)), t.rs, k);
            forall id :: id in ctx.nodes ==> id in w.rows && id.lb in t.cols && ctx.nodes[id] == Project(w.rows[id], t.cols[id.lb])
  {
    hide Through, LastHop;
    var ctx := Alone(Warehouse(c, w, owner, t), Limits(c.cap, c.since(at)), t.rs, k);
    assert FromView(ctx.nodes, Warehouse(c, w, owner, t));
  }

  /** One more context written: it is, and those before it still are. */
  lemma WrittenToo(c: Config, w: World, nodes: map<NodeId, MemNode>, recs: set<Recorded>, owner: nat, t: TemplateId, l: Label,
                   fetched: map<Value, Ctx>, before: seq<Value>, k: Value, at: nat, until: Option<nat>)
    requires TemplateOk(t, l) && TrueNodes(c, w, nodes, at) && k in fetched && forall d :: d in before ==> d in fetched
    requires forall d :: d in fetched ==> fetched[d] == Alone(Warehouse(c, w, owner, t), Limits(c.cap, c.since(at)), t.rs, d)
    requires forall d :: d in before ==> Written(c, owner, t, NodeId(l, d), fetched[d], at, nodes, recs)
    requires IsContextUntil(c, set id | id in fetched[k].nodes :: id.lb, at, until)
    requires forall id :: id in fetched[k].nodes ==> id.lb in t.cols
    ensures var now := Merge(c, nodes, fetched[k].nodes, t, at);
            var all := recs + ReadsOf(c, owner, t, NodeId(l, k), fetched[k].nodes, at, until, set x | x in fetched[k].log && x.capped :: x.read);
            forall d :: d in before + [k] ==> Written(c, owner, t, NodeId(l, d), fetched[d], at, now, all)
  {
    hide Alone, Warehouse, TrueNodes, Written, IsContextUntil, ReadsOf, Merge, TemplateOk;
    var got, more := fetched[k].nodes, ReadsOf(c, owner, t, NodeId(l, k), fetched[k].nodes, at, until, set x | x in fetched[k].log && x.capped :: x.read);
    FetchedRows(c, w, owner, t, l, k, at);
    forall d | d in before
      ensures Written(c, owner, t, NodeId(l, d), fetched[d], at, Merge(c, nodes, got, t, at), recs + more)
    {
      FetchedRows(c, w, owner, t, l, d, at);
      StillWritten(c, w, nodes, recs, more, at, owner, t, NodeId(l, d), fetched[d], got, at);
    }
    MergeWrites(c, w, nodes, at, t, got, at);
    JustWritten(c, owner, t, NodeId(l, k), fetched[k], at, Merge(c, nodes, got, t, at), recs, until);
  }

  lemma NothingToWrite(c: Config, owner: nat, t: TemplateId, anchor: NodeId, ctx: Ctx, at: nat, nodes: map<NodeId, MemNode>, recs: set<Recorded>)
    requires ctx.nodes == map[]
    ensures Written(c, owner, t, anchor, ctx, at, nodes, recs)
  {
  }

  lemma JustWritten(c: Config, owner: nat, t: TemplateId, anchor: NodeId, ctx: Ctx, at: nat, nodes: map<NodeId, MemNode>, recs: set<Recorded>, until: Option<nat>)
    requires forall id :: id in ctx.nodes ==> WrittenNode(nodes, t, at, id, ctx.nodes[id])
    requires IsContextUntil(c, set id | id in ctx.nodes :: id.lb, at, until)
    ensures Written(c, owner, t, anchor, ctx, at, nodes, recs + ReadsOf(c, owner, t, anchor, ctx.nodes, at, until, set x | x in ctx.log && x.capped :: x.read))
  {
    hide IsContextUntil, ReadsOf, WrittenNode;
    var capped := set x | x in ctx.log && x.capped :: x.read;
    assert WrittenReads(c, owner, t, anchor, ctx, at, until, recs + ReadsOf(c, owner, t, anchor, ctx.nodes, at, until, capped));
  }

  /** What was in memory stays, and but for the nodes of the contexts written, as it was. */
  ghost predicate OthersKept(was: map<NodeId, MemNode>, now: map<NodeId, MemNode>, fetched: map<Value, Ctx>) {
    && (forall id :: id in was ==> id in now)
    && forall id :: id in now && (forall k :: k in fetched ==> id !in fetched[k].nodes) ==> id in was && now[id] == was[id]
  }

  lemma AllKept(nodes: map<NodeId, MemNode>, fetched: map<Value, Ctx>)
    ensures OthersKept(nodes, nodes, fetched)
  {
  }

  lemma OthersKeptToo(c: Config, was: map<NodeId, MemNode>, nodes: map<NodeId, MemNode>, fetched: map<Value, Ctx>, k: Value, t: TemplateId, at: nat)
    requires OthersKept(was, nodes, fetched) && k in fetched && forall id :: id in fetched[k].nodes ==> id.lb in t.cols
    ensures OthersKept(was, Merge(c, nodes, fetched[k].nodes, t, at), fetched)
  {
    hide Stamped;
  }

  /** A node as written: read then, holding as long as its label's facts; the columns read are as fetched, the others as they
      were. */
  ghost predicate IsWritten(c: Config, was: map<NodeId, MemNode>, id: NodeId, row: Row, cols: set<Prop>, at: nat, now: MemNode) {
    && now.at == at && now.until == (if id.lb in c.holds then Some(at + c.holds[id.lb]) else None)
    && (forall p :: p in cols ==> (p in now.props <==> p in row) && (p in row ==> now.props[p] == row[p]))
    && (forall p :: p !in cols && p !in row ==>
          (p in now.props <==> id in was && p in was[id].props) && (p in now.props ==> now.props[p] == was[id].props[p]))
  }

  /** A READ: whose, when, of what, and until when it lets them see it. */
  function ReadRecord(c: Config, owner: nat, t: TemplateId, id: NodeId, at: nat, context: bool, until: Option<nat>, capped: set<Read>): Recorded {
    Recorded(owner, t, true, at, id, context, until, Some(if id.lb in c.holds then at + c.holds[id.lb] else at + c.unknownHold), capped)
  }

  lemma MergeIs(c: Config, nodes: map<NodeId, MemNode>, got: View, t: TemplateId, at: nat)
    requires forall id :: id in got ==> id.lb in t.cols
    ensures forall id :: id in Merge(c, nodes, got, t, at) <==> id in nodes || id in got
    ensures forall id :: id in got ==> IsWritten(c, nodes, id, got[id], t.cols[id.lb], at, Merge(c, nodes, got, t, at)[id])
    ensures forall id :: id in nodes && id !in got ==> Merge(c, nodes, got, t, at)[id] == nodes[id]
  {
  }

  lemma ReadsAre(c: Config, owner: nat, t: TemplateId, anchor: NodeId, got: View, at: nat, until: Option<nat>, capped: set<Read>)
    ensures forall r :: r in ReadsOf(c, owner, t, anchor, got, at, until, capped) <==>
              || r == ReadRecord(c, owner, t, anchor, at, true, until, capped)
              || (r.node in got && r.node.lb in c.policied && r.node != anchor && r == ReadRecord(c, owner, t, r.node, at, false, None, capped))
  {
    var all := ReadsOf(c, owner, t, anchor, got, at, until, capped);
    forall id | id in got && id.lb in c.policied && id != anchor
      ensures ReadRecord(c, owner, t, id, at, false, None, capped) in all
    {
      assert ReadRecord(c, owner, t, id, at, false, None, capped) == Recorded(owner, t, true, at, id, false, None, Some(c.SeenUntil(id.lb, at)), capped);
    }
  }

  lemma DetachedHas(edges: set<Edge>, nodes: map<NodeId, MemNode>)
    ensures forall e :: e in Detached(edges, PropsOf(nodes)) <==> e in edges && e.from in nodes && e.to in nodes
  {
  }

  lemma LeftHeld(nodes: map<NodeId, MemNode>, was: set<Recorded>, left: set<Recorded>)
    requires forall r :: r in left <==> r in was && r.node in nodes
    ensures RecordsHeld(nodes, left)
  {
  }

  /** A record that memory still has of a context is of an anchor it still has. */
  lemma FreshHeld(nodes: map<NodeId, MemNode>, recs: set<Recorded>, owner: nat, t: TemplateId, anchor: NodeId, now: nat)
    requires RecordsHeld(nodes, recs) && HasFresh(recs, owner, t, anchor, now)
    ensures anchor in nodes
  {
  }

  lemma FreshAllHeld(nodes: map<NodeId, MemNode>, recs: set<Recorded>, l: Label, now: nat)
    requires RecordsHeld(nodes, recs)
    ensures forall owner, t, k :: HasFresh(recs, owner, t, NodeId(l, k), now) ==> NodeId(l, k) in nodes
  {
    hide RecordsHeld, HasFresh;
    forall owner, t, k | HasFresh(recs, owner, t, NodeId(l, k), now)
      ensures NodeId(l, k) in nodes
    {
      FreshHeld(nodes, recs, owner, t, NodeId(l, k), now);
    }
  }

  /** Every fresh record of the context lasts. */
  ghost predicate AllLast(c: Config, recs: set<Recorded>, owner: nat, t: TemplateId, anchor: NodeId, now: nat) {
    forall r :: r in recs && Fresh(r, owner, t, anchor, now) ==> c.Lasts(r)
  }

  lemma LastsOfAll(c: Config, recs: set<Recorded>, owner: nat, t: TemplateId, anchor: NodeId, now: nat, r: Recorded)
    requires r in recs && Fresh(r, owner, t, anchor, now)
    ensures AllLast(c, recs, owner, t, anchor, now) ==> c.Lasts(r)
  {
    hide Config.Lasts;
  }

  lemma LastStays(c: Config, was: set<Recorded>, now: set<Recorded>, owner: nat, t: TemplateId, l: Label, clock: nat)
    requires was <= now && forall r :: r in now && r !in was ==> !r.graph
    ensures forall k :: AllLast(c, was, owner, t, NodeId(l, k), clock) ==> AllLast(c, now, owner, t, NodeId(l, k), clock)
  {
    hide Config.Lasts;
  }

  /** A context read from memory: what memory's nodes and records give its reader now, flagged as the latest record of it that
      still holds says. */
  ghost predicate ReadBack(c: Config, nodes: map<NodeId, MemNode>, recs: set<Recorded>, owner: nat, t: TemplateId, l: Label, k: Value, now: nat, ctx: Ctx)
    requires TemplateOk(t, l)
  {
    && SameContent(ctx, Alone(Remembered(c, nodes, recs, owner, t, now), Limits(c.cap, c.since(now)), t.rs, k))
    && exists held :: IsLatest(recs, owner, t, NodeId(l, k), now, held) && FlaggedBy(held, ctx)
  }

  ghost predicate FlaggedBy(held: Recorded, ctx: Ctx) {
    forall x :: x in ctx.log ==> (x.capped <==> x.read in held.capped)
  }

  ghost predicate IsLatest(recs: set<Recorded>, owner: nat, t: TemplateId, anchor: NodeId, now: nat, held: Recorded) {
    && held in recs && Fresh(held, owner, t, anchor, now)
    && forall r :: r in recs && Fresh(r, owner, t, anchor, now) ==> r.at <= held.at
  }

  /** What reads from memory record lets nobody see more, and is no context. */
  ghost predicate OnlyReads(was: set<Recorded>, now: set<Recorded>) {
    was <= now && forall r :: r in now && r !in was ==> !r.graph && r.seenUntil.None?
  }

  lemma SameRemembered(c: Config, nodes: map<NodeId, MemNode>, was: set<Recorded>, now: set<Recorded>, owner: nat, t: TemplateId, clock: nat)
    requires OnlyReads(was, now)
    ensures Remembered(c, nodes, now, owner, t, clock) == Remembered(c, nodes, was, owner, t, clock)
  {
    forall id
      ensures SeenBy(now, owner, id, clock) <==> SeenBy(was, owner, id, clock)
    {
      if SeenBy(now, owner, id, clock) {
        var r :| r in now && r.owner == owner && r.node == id && r.seenUntil.Some? && r.seenUntil.value > clock;
        assert r in was;
      }
    }
  }

  /** Of a context read from memory, each node is remembered, still holds, and, if its label is policied, was read by the same
      reader, whose READ of it still holds; so they may read it. */
  ghost predicate Shown(c: Config, w: World, nodes: map<NodeId, MemNode>, recs: set<Recorded>, owner: nat, now: nat, ctx: Ctx) {
    forall id :: id in ctx.nodes ==>
      && id in nodes && (nodes[id].until.Some? ==> nodes[id].until.value > now)
      && (id.lb in c.policied ==> (owner, id) in w.visible && SeenUnexpired(recs, owner, id, now))
  }

  ghost predicate SeenUnexpired(recs: set<Recorded>, owner: nat, id: NodeId, now: nat) {
    exists r :: r in recs && r.owner == owner && r.node == id && r.seenUntil.Some? && r.seenUntil.value > now
  }

  /** No node but the warehouse's that the reader may read, each with the columns their template reads of its label. */
  ghost predicate Entitled(c: Config, w: World, owner: nat, t: TemplateId, ctx: Ctx) {
    forall id :: id in ctx.nodes ==>
      && id in w.rows && id.lb in t.cols && (id.lb in c.policied ==> (owner, id) in w.visible)
      && forall p :: p in ctx.nodes[id] ==> p in t.cols[id.lb] && p in w.rows[id] && ctx.nodes[id][p] == w.rows[id][p]
  }

  lemma ShownFrom(c: Config, w: World, nodes: map<NodeId, MemNode>, recs: set<Recorded>, owner: nat, t: TemplateId, l: Label, k: Value, now: nat, ctx: Ctx)
    requires TemplateOk(t, l) && Truths(c, w, nodes, recs, now) && ReadBack(c, nodes, recs, owner, t, l, k, now, ctx)
    ensures Shown(c, w, nodes, recs, owner, now, ctx) && Entitled(c, w, owner, t, ctx)
  {
    hide Through, LastHop, ContextsKept, RecordsTrue;
    var view := Remembered(c, nodes, recs, owner, t, now);
    assert FromView(ctx.nodes, view);
  }

  lemma EntitledFetch(c: Config, w: World, owner: nat, t: TemplateId, l: Label, k: Value, now: nat, ctx: Ctx)
    requires TemplateOk(t, l) && AsFetched(c, w, owner, t, l, k, now, ctx)
    ensures Entitled(c, w, owner, t, ctx)
  {
    hide Through, LastHop;
    assert FromView(ctx.nodes, Warehouse(c, w, owner, t));
  }

  lemma ShownAll(c: Config, w: World, nodes: map<NodeId, MemNode>, recs: set<Recorded>, owner: nat, t: TemplateId, l: Label, now: nat, got: map<Value, Ctx>)
    requires TemplateOk(t, l) && Truths(c, w, nodes, recs, now)
    requires forall k :: k in got ==> ReadBack(c, nodes, recs, owner, t, l, k, now, got[k])
    ensures forall k :: k in got ==> Shown(c, w, nodes, recs, owner, now, got[k]) && Entitled(c, w, owner, t, got[k])
  {
    hide TemplateOk, Truths, ReadBack, Shown, Entitled;
    forall k | k in got
      ensures Shown(c, w, nodes, recs, owner, now, got[k]) && Entitled(c, w, owner, t, got[k])
    {
      ShownFrom(c, w, nodes, recs, owner, t, l, k, now, got[k]);
    }
  }

  lemma EntitledAll(c: Config, w: World, owner: nat, t: TemplateId, l: Label, now: nat, fetched: map<Value, Ctx>)
    requires TemplateOk(t, l) && forall k :: k in fetched ==> AsFetched(c, w, owner, t, l, k, now, fetched[k])
    ensures forall k :: k in fetched ==> Entitled(c, w, owner, t, fetched[k])
  {
    hide TemplateOk, AsFetched, Entitled;
    forall k | k in fetched
      ensures Entitled(c, w, owner, t, fetched[k])
    {
      EntitledFetch(c, w, owner, t, l, k, now, fetched[k]);
    }
  }

  /** The template looked up is of the columns the reader may read of its labels, and their keys. */
  ghost predicate ReadsColumns(c: Config, reader: Reader, t: TemplateId) {
    && (forall x :: x in t.cols <==> exists q :: q in t.rs && q.lb == x)
    && forall x, p :: x in t.cols ==>
         (p in t.cols[x] <==> (x in reader.cols && p in reader.cols[x]) || (x in c.keyOf && p == c.keyOf[x]))
  }

  lemma IdReadsColumns(c: Config, reader: Reader, rs: seq<Read>)
    ensures ReadsColumns(c, reader, IdOf(c, reader, rs))
  {
    forall x | x in Labels(rs)
      ensures exists q :: q in rs && q.lb == x
    {
    }
  }

  /** Facts that stop holding within the retention period, and frozen row-policied labels only of such as stop sooner than what
      was seen of them. */
  lemma RecallableIs(c: Config, t: TemplateId, l: Label)
    ensures c.Recallable(t, l) <==>
              && l in c.holds && c.holds[l] <= c.fetchedFor + 1
              && forall x :: x in t.cols && x in c.policied && x !in c.holds ==> c.holds[l] <= c.unknownHold
  {
  }

  lemma LatestIs(recs: set<Recorded>, owner: nat, t: TemplateId, anchor: NodeId, now: nat, held: Recorded)
    requires IsLatest(recs, owner, t, anchor, now, held)
    ensures held in recs && Fresh(held, owner, t, anchor, now) && HasFresh(recs, owner, t, anchor, now)
  {
  }

  lemma ReadsBack(c: Config, nodes: map<NodeId, MemNode>, was: set<Recorded>, recs: set<Recorded>, owner: nat, t: TemplateId, l: Label, k: Value, now: nat,
                  held: Recorded, ctx: Ctx)
    requires TemplateOk(t, l) && OnlyReads(was, recs) && IsLatest(recs, owner, t, NodeId(l, k), now, held) && FlaggedBy(held, ctx)
    requires SameContent(ctx, Alone(Remembered(c, nodes, recs, owner, t, now), Limits(c.cap, c.since(now)), t.rs, k))
    ensures ReadBack(c, nodes, was, owner, t, l, k, now, ctx)
  {
    hide TemplateOk, Alone, Remembered, SameContent, FlaggedBy;
    SameRemembered(c, nodes, was, recs, owner, t, now);
    assert IsLatest(was, owner, t, NodeId(l, k), now, held);
  }

  /** A context served of an anchor remembered is the one a fetch now gives, if its records last. */
  ghost predicate ServedRight(c: Config, w: World, nodes: map<NodeId, MemNode>, was: set<Recorded>, owner: nat, t: TemplateId, l: Label, k: Value, now: nat, ctx: Ctx)
    requires TemplateOk(t, l)
  {
    && NodeId(l, k) in nodes && ReadBack(c, nodes, was, owner, t, l, k, now, ctx)
    && (AllLast(c, was, owner, t, NodeId(l, k), now) || c.Recallable(t, l) ==> AsFetched(c, w, owner, t, l, k, now, ctx))
  }

  lemma ServesRight(c: Config, w: World, nodes: map<NodeId, MemNode>, was: set<Recorded>, owner: nat, t: TemplateId, l: Label, k: Value, now: nat, ctx: Ctx)
    requires TemplateOk(t, l) && NodeId(l, k) in nodes && ReadBack(c, nodes, was, owner, t, l, k, now, ctx)
    requires AllLast(c, was, owner, t, NodeId(l, k), now) || c.Recallable(t, l) ==> AsFetched(c, w, owner, t, l, k, now, ctx)
    ensures ServedRight(c, w, nodes, was, owner, t, l, k, now, ctx)
  {
    hide AsFetched, AllLast, Config.Recallable, TemplateOk, ReadBack;
  }

  lemma ServedAll(c: Config, w: World, nodes: map<NodeId, MemNode>, was: set<Recorded>, owner: nat, t: TemplateId, l: Label, now: nat, got: map<Value, Ctx>)
    requires TemplateOk(t, l) && forall k :: k in got ==> ServedRight(c, w, nodes, was, owner, t, l, k, now, got[k])
    ensures forall k :: k in got ==> NodeId(l, k) in nodes && ReadBack(c, nodes, was, owner, t, l, k, now, got[k])
    ensures forall k :: k in got && AllLast(c, was, owner, t, NodeId(l, k), now) ==> AsFetched(c, w, owner, t, l, k, now, got[k])
    ensures c.Recallable(t, l) ==> forall k :: k in got ==> AsFetched(c, w, owner, t, l, k, now, got[k])
  {
    hide AsFetched, AllLast, Config.Recallable, TemplateOk, ReadBack;
  }

  class Store {
    const c: Config
    var nodes: map<NodeId, MemNode>
    var edges: set<Edge>
    var recs: set<Recorded>
    var clock: nat

    /** What every action of any readers keeps: all that is remembered and recorded is true, and every
        record is of a node remembered. */
    ghost predicate Valid(w: World)
      reads this
    {
      && c.Valid()
      && Keyed(c, w) && KeysHeld(c, nodes)
      && Truths(c, w, nodes, recs, clock) && RecordsHeld(nodes, recs)
    }

    /** What every action keeps of the edges, when readers' models are parts of one: none is wrong, and a
        context that holds has all of its own. */
    ghost predicate Linked(w: World)
      reads this
    {
      AllLinked(c, w, nodes, edges, recs, clock)
    }

    /** Of one type, memory's edges are exactly those its nodes' columns make. */
    ghost predicate InStep(r: Rel)
      reads this
    {
      IsDerived(edges, PropsOf(nodes), r)
    }

    constructor (c: Config)
      requires c.Valid()
      ensures this.c == c && nodes == map[] && edges == {} && recs == {}
      ensures forall w: World :: Keyed(c, w) ==> Valid(w) && Linked(w)
      ensures forall r: Rel :: InStep(r)
    {
      this.c, nodes, edges, recs, clock := c, map[], {}, {}, 0;
    }

    /** The clock: time never goes back. */
    method Now(ghost w: World, now: nat)
      requires Valid(w) && clock <= now
      modifies this`clock
      ensures Valid(w) && clock == now
      ensures old(Linked(w)) ==> Linked(w)
    {
      hide Truths, AllLinked;
      TimePasses(c, w, nodes, recs, clock, now);
      if Linked(w) {
        FewerHold(c, w, nodes, edges, recs, clock, {}, now);
        assert recs + {} == recs;
      }
      clock := now;
    }

    /** A context into memory: its nodes, the relationships their columns make, of the types of the writer's
        model, and the recall's READs. */
    method Write(ghost w: World, rels: seq<Rel>, owner: nat, t: TemplateId, anchor: NodeId, ctx: Ctx) returns (until: Option<nat>)
      requires Valid(w) && KindsApart(rels)
      requires FetchedContext(c, w, owner, t, anchor, clock, ctx) && KeysRead(c, t)
      modifies this`nodes, this`edges, this`recs
      ensures Valid(w)
      ensures (forall id :: id in ctx.nodes ==> id.lb in t.cols) && nodes == Merge(c, old(nodes), ctx.nodes, t, clock)
      ensures forall id :: id in nodes <==> id in old(nodes) || id in ctx.nodes
      ensures forall id :: id in ctx.nodes ==> IsWritten(c, old(nodes), id, ctx.nodes[id], t.cols[id.lb], clock, nodes[id])
      ensures forall id :: id in old(nodes) && id !in ctx.nodes ==> nodes[id] == old(nodes)[id]
      ensures edges == RelateAll(old(edges), PropsOf(nodes), rels, ctx.nodes.Keys)
      ensures IsContextUntil(c, set id | id in ctx.nodes :: id.lb, clock, until)
      ensures recs == old(recs) + ReadsOf(c, owner, t, anchor, ctx.nodes, clock, until, set x | x in ctx.log && x.capped :: x.read)
      ensures forall r :: r in recs <==>
                || r in old(recs)
                || r == ReadRecord(c, owner, t, anchor, clock, true, until, set x | x in ctx.log && x.capped :: x.read)
                || (r.node in ctx.nodes && r.node.lb in c.policied && r.node != anchor
                    && r == ReadRecord(c, owner, t, r.node, clock, false, None, set x | x in ctx.log && x.capped :: x.read))
      ensures old(Linked(w)) && ModelOf(c, t, rels) ==> Linked(w)
      ensures forall r :: old(InStep(r)) && Agrees(rels, r) ==>
                (InStep(r) <==> r in rels || Untouched(PropsOf(old(nodes)), PropsOf(nodes), r, ctx.nodes.Keys))
      ensures forall r :: r in rels && old(InStep(r)) ==> InStep(r)
    {
      hide Truths, RecordsHeld, AllLinked, FetchedContext, Merge, ReadsOf, IsWritten, ReadRecord, PropsOf, IsContextUntil, KeysHeld, KeysRead, RelateAll, IsDerived, ModelOf, Untouched,
           KindsApart, Agrees;
      FetchedNodes(c, w, owner, t, anchor, clock, ctx);
      ghost var was, had := PropsOf(nodes), edges;
      until := ContextUntil(c, set id | id in ctx.nodes :: id.lb, clock);
      var capped := set x | x in ctx.log && x.capped :: x.read;
      WriteKeepsAll(c, w, nodes, recs, owner, t, anchor, ctx, clock, until);
      WriteHolds(c, nodes, recs, owner, t, anchor, ctx.nodes, clock, until, capped);
      MergeIs(c, nodes, ctx.nodes, t, clock);
      ReadsAre(c, owner, t, anchor, ctx.nodes, clock, until, capped);
      MergeKeepsKeys(c, w, nodes, ctx.nodes, t, clock);
      MergeWroteOnly(c, nodes, ctx.nodes, t, clock);
      if Linked(w) && ModelOf(c, t, rels) {
        WriteKeepsLinked(c, w, nodes, edges, recs, owner, t, anchor, ctx, clock, until, rels);
      }
      nodes := Merge(c, nodes, ctx.nodes, t, clock);
      edges := Relate(edges, PropsOf(nodes), rels, ctx.nodes.Keys);
      recs := recs + ReadsOf(c, owner, t, anchor, ctx.nodes, clock, until, capped);
      forall r | IsDerived(had, was, r) && Agrees(rels, r)
        ensures IsDerived(edges, PropsOf(nodes), r) <==> r in rels || Untouched(was, PropsOf(nodes), r, ctx.nodes.Keys)
      {
        StaysDerivedExactly(had, was, PropsOf(nodes), rels, ctx.nodes.Keys, r);
      }
      forall r | r in rels
        ensures Agrees(rels, r)
      {
        AgreesWithItself(rels, r);
      }
    }

    /** The nodes fetched before the cutoff go, and with them their edges and READs; nothing else changes. */
    method Sweep(ghost w: World, now: nat)
      requires Valid(w) && clock <= now
      modifies this
      ensures Valid(w) && clock == now
      ensures nodes == Young(old(nodes), now - c.fetchedFor)
      ensures forall id :: id in nodes <==> id in old(nodes) && !(old(nodes)[id].at < now - c.fetchedFor)
      ensures forall id :: id in nodes ==> nodes[id] == old(nodes)[id]
      ensures recs == ReadsLeft(old(nodes), old(recs), now - c.fetchedFor)
      ensures forall r :: r in recs <==> r in old(recs) && r.node in nodes
      ensures edges == Detached(old(edges), PropsOf(nodes))
      ensures forall e :: e in edges <==> e in old(edges) && e.from in nodes && e.to in nodes
      ensures old(Linked(w)) ==> Linked(w)
      ensures forall r :: old(InStep(r)) ==> InStep(r)
    {
      hide Truths, AllLinked, IsDerived, Detached, PropsOf, ReadsLeft, RecordsHeld;
      Now(w, now);
      var cutoff := now - c.fetchedFor;
      SweepKeepsAll(c, w, nodes, recs, now);
      SweepLeaves(nodes, recs, cutoff);
      ghost var had := recs;
      var young := Young(nodes, cutoff);
      if Linked(w) {
        SweepKeepsLinked(c, w, nodes, edges, recs, now);
      }
      forall r | IsDerived(edges, PropsOf(nodes), r)
        ensures IsDerived(Detached(edges, PropsOf(young)), PropsOf(young), r)
      {
        YoungProps(nodes, young);
        SweepKeepsDerived(edges, PropsOf(nodes), PropsOf(young), r);
      }
      recs := ReadsLeft(nodes, recs, cutoff);
      nodes := young;
      DetachedHas(edges, nodes);
      LeftHeld(nodes, had, recs);
      edges := Detached(edges, PropsOf(nodes));
    }

    /** FRESH: the reader's own latest context of this anchor that still holds. */
    method LatestFresh(owner: nat, t: TemplateId, anchor: NodeId, now: nat) returns (latest: Option<Recorded>)
      ensures latest.Some? ==> IsLatest(recs, owner, t, anchor, now, latest.value)
      ensures latest.None? <==> !HasFresh(recs, owner, t, anchor, now)
    {
      var left := set r | r in recs && Fresh(r, owner, t, anchor, now);
      latest := None;
      while left != {}
        invariant forall r :: r in left ==> r in recs && Fresh(r, owner, t, anchor, now)
        invariant latest.Some? ==> latest.value in recs && Fresh(latest.value, owner, t, anchor, now)
        invariant forall r :: r in recs && Fresh(r, owner, t, anchor, now) && r !in left ==> latest.Some? && r.at <= latest.value.at
      {
        var r :| r in left;
        if latest.None? || latest.value.at < r.at {
          latest := Some(r);
        }
        left := left - {r};
      }
      FreshIs(recs, owner, t, anchor, now, latest);
    }

    /** One context read from memory, as a fresh record of it allows; the read leaves its record too. */
    method FromMemory(ghost w: World, owner: nat, t: TemplateId, anchor: NodeId, held: Recorded) returns (ctx: Ctx)
      requires Valid(w) && TemplateOk(t, anchor.lb)
      requires held in recs && Fresh(held, owner, t, anchor, clock)
      modifies this`recs
      ensures Valid(w)
      ensures SameContent(ctx, Alone(Remembered(c, nodes, old(recs), owner, t, clock), Limits(c.cap, c.since(clock)), t.rs, anchor.key))
      ensures c.Lasts(held) ==> AsFetched(c, w, owner, t, anchor.lb, anchor.key, clock, ctx)
      ensures c.Recallable(t, anchor.lb) ==> c.Lasts(held)
      ensures FlaggedBy(held, ctx)
      ensures recs == old(recs) + if ctx.nodes == map[] then {} else
                {Recorded(owner, t, false, clock, anchor, true, None, None, set x | x in ctx.log && x.capped :: x.read)}
      ensures old(Linked(w)) ==> Linked(w)
    {
      hide TrueNodes, ContextsKept, RecordTrue, AllLinked, Alone, Config.Lasts, Config.Recallable;
      var view := Remembered(c, nodes, recs, owner, t, clock);
      var got := RunReads(view, t.rs, Limits(c.cap, c.since(clock)), c.keysPerRead, anchor.key);
      assert RecordTrue(c, w, held, clock);
      if c.Recallable(t, anchor.lb) {
        RecallableLasts(c, w, held, clock);
      }
      if c.Lasts(held) {
        RecallExact(c, w, nodes, recs, clock, held, clock);
      }
      ctx := Ctx(got.nodes, got.edges, FlaggedAs(got.log, held.capped));
      if ctx.nodes != map[] {
        var r := Recorded(owner, t, false, clock, anchor, true, None, None, set x | x in ctx.log && x.capped :: x.read);
        RecordOfMemory(c, w, nodes, recs, clock, r);
        if Linked(w) {
          FewerHold(c, w, nodes, edges, recs, clock, {r}, clock);
        }
        recs := recs + {r};
      }
    }

    /** Recall of a list of keys, from memory where a fresh record allows (never if `force`), else by a fetch that is written.
        Over any history of writes by readers of any part of the model, each context is the one a fetch now gives. */
    method RecallBatch(w: World, reader: Reader, l: Label, keys: seq<Value>, now: nat, force: bool)
        returns (out: Option<map<Value, Ctx>>, ghost t: TemplateId)
      requires Valid(w) && clock <= now
      requires reader.schema.Valid()
      modifies this
      ensures Valid(w) && clock == now
      ensures out.Some? <==> l in reader.schema.labels
      ensures out.Some? ==> TemplateOk(t, l) && TemplateOf(c, reader, l, t) && ReadsColumns(c, reader, t) && out.value.Keys == Elements(keys)
      ensures out.Some? ==> forall k :: k in keys ==> Entitled(c, w, reader.owner, t, out.value[k])
      ensures out.Some? && (force || (l in c.holds && c.holds[l] <= c.fetchedFor + 1
                                      && forall x :: x in t.cols && x in c.policied && x !in c.holds ==> c.holds[l] <= c.unknownHold)) ==>
                forall k :: k in keys ==> AsFetched(c, w, reader.owner, t, l, k, now, out.value[k])
      ensures out.Some? ==> forall k :: k in keys && (force || AllLast(c, old(recs), reader.owner, t, NodeId(l, k), now)) ==>
                AsFetched(c, w, reader.owner, t, l, k, now, out.value[k])
      ensures out.Some? ==> forall k :: k in keys && (force || !HasFresh(old(recs), reader.owner, t, NodeId(l, k), now)) ==>
                AsFetched(c, w, reader.owner, t, l, k, now, out.value[k])
      ensures out.Some? ==> forall k :: HasFresh(old(recs), reader.owner, t, NodeId(l, k), now) ==> NodeId(l, k) in old(nodes)
      ensures out.Some? ==> forall k :: k in keys && !force && HasFresh(old(recs), reader.owner, t, NodeId(l, k), now) ==>
                ReadBack(c, old(nodes), old(recs), reader.owner, t, l, k, now, out.value[k])
      ensures out.Some? ==> forall k :: k in keys && (force || !HasFresh(old(recs), reader.owner, t, NodeId(l, k), now)) ==>
                Written(c, reader.owner, t, NodeId(l, k), out.value[k], now, nodes, recs)
      ensures old(Linked(w)) && Restricts(c, reader) ==> Linked(w)
      ensures forall r :: r in reader.schema.rels && old(InStep(r)) ==> InStep(r)
    {
      hide Truths, AllLinked, Alone, IsTemplate, TemplateOk, AsFetched, IdOf, Restricts, ModelOf, IsDerived, HasFresh, Written, KindsApart, AllLast,
           RecordsHeld, Config.Recallable, ReadBack, Entitled, Shown, ReadsColumns;
      Now(w, now);
      FreshAllHeld(nodes, recs, l, now);
      var reading := BuildTemplate(reader.schema, l, c.hops);
      if reading.None? {
        t := TemplateId([], map[]);
        return None, t;
      }
      var id := IdOf(c, reader, reading.value);
      t := id;
      IdIsTemplate(c, reader, l, reading.value);
      IdReadsColumns(c, reader, reading.value);
      RecallableIs(c, id, l);
      IdIsOk(c, reader.schema, l, if c.hops == 0 then 1 else c.hops, reader, reading.value);
      if Restricts(c, reader) {
        TemplateOfModel(c, reader, l, if c.hops == 0 then 1 else c.hops, reading.value);
      }
      var got, missing := map[], Elements(keys);
      if !force {
        got, missing := ServeFromMemory(w, reader.owner, id, l, missing);
      }
      var fetched := Fetch(w, reader.schema.rels, reader.owner, id, l, missing);
      EntitledAll(c, w, reader.owner, id, l, now, fetched);
      out := Some(got + fetched);
    }

    /** Each context memory still holds, read from it; and the keys left. */
    method ServeFromMemory(ghost w: World, owner: nat, t: TemplateId, l: Label, keys: set<Value>)
        returns (got: map<Value, Ctx>, missing: set<Value>)
      requires Valid(w) && TemplateOk(t, l)
      modifies this`recs
      ensures Valid(w)
      ensures missing <= keys && got.Keys == keys - missing
      ensures forall k :: k in keys ==> (k in got <==> HasFresh(old(recs), owner, t, NodeId(l, k), clock))
      ensures forall k :: k in keys ==>
                (k in got <==> exists r :: r in old(recs) && r.owner == owner && r.template == t && r.graph && r.context && r.node == NodeId(l, k)
                                           && r.at <= clock && (r.contextUntil.None? || r.contextUntil.value > clock))
      ensures forall k :: k in got ==> NodeId(l, k) in nodes && ReadBack(c, nodes, old(recs), owner, t, l, k, clock, got[k])
      ensures forall k :: k in got ==> Shown(c, w, nodes, old(recs), owner, clock, got[k]) && Entitled(c, w, owner, t, got[k])
      ensures forall k :: k in got && AllLast(c, old(recs), owner, t, NodeId(l, k), clock) ==> AsFetched(c, w, owner, t, l, k, clock, got[k])
      ensures c.Recallable(t, l) ==> forall k :: k in got ==> AsFetched(c, w, owner, t, l, k, clock, got[k])
      ensures old(Linked(w)) ==> Linked(w)
    {
      hide Truths, AllLinked, Alone, TemplateOk, AsFetched, HasFresh, AllLast, RecordsHeld, Config.Lasts, Config.Recallable, ServedRight, Fresh, Config.Valid,
           Keyed, KeysHeld, SameContent, Remembered, FlaggedBy, IsLatest, ReadBack, Shown, Entitled;
      got, missing := map[], keys;
      var asked := Listed(missing);
      var i := 0;
      while i < |asked|
        invariant i <= |asked| && Valid(w) && (old(Linked(w)) ==> Linked(w))
        invariant missing <= keys && got.Keys == keys - missing
        invariant OnlyReads(old(recs), recs)
        invariant forall k :: HasFresh(recs, owner, t, NodeId(l, k), clock) <==> HasFresh(old(recs), owner, t, NodeId(l, k), clock)
        invariant forall k :: AllLast(c, old(recs), owner, t, NodeId(l, k), clock) ==> AllLast(c, recs, owner, t, NodeId(l, k), clock)
        invariant forall k :: k in got ==> ServedRight(c, w, nodes, old(recs), owner, t, l, k, clock, got[k])
        invariant forall k :: k in keys && k !in asked[i..] ==> (k in got <==> HasFresh(old(recs), owner, t, NodeId(l, k), clock))
        invariant forall k :: k in asked[i..] ==> k in missing
      {
        var k := asked[i];
        assert k in Elements(asked) && asked[i..] == [k] + asked[i + 1..];
        var held := LatestFresh(owner, t, NodeId(l, k), clock);
        if held.Some? {
          ghost var had := recs;
          LatestIs(recs, owner, t, NodeId(l, k), clock, held.value);
          FreshHeld(nodes, recs, owner, t, NodeId(l, k), clock);
          LastsOfAll(c, recs, owner, t, NodeId(l, k), clock, held.value);
          var ctx := FromMemory(w, owner, t, NodeId(l, k), held.value);
          FreshStays(had, recs, owner, t, l, clock);
          LastStays(c, had, recs, owner, t, l, clock);
          ReadsBack(c, nodes, old(recs), had, owner, t, l, k, clock, held.value, ctx);
          ServesRight(c, w, nodes, old(recs), owner, t, l, k, clock, ctx);
          got := got[k := ctx];
          missing := missing - {k};
        }
        i := i + 1;
      }
      ServedAll(c, w, nodes, old(recs), owner, t, l, clock, got);
      FreshAre(old(recs), owner, t, l, clock);
      ShownAll(c, w, nodes, old(recs), owner, t, l, clock, got);
    }

    /** The contexts memory could not serve: fetched together, each written as its own, in the types of the
        reader's model. Of what was in memory, only their nodes change. */
    method Fetch(w: World, rels: seq<Rel>, owner: nat, t: TemplateId, l: Label, missing: set<Value>) returns (fetched: map<Value, Ctx>)
      requires Valid(w) && TemplateOk(t, l) && KeysRead(c, t) && KindsApart(rels)
      modifies this`nodes, this`edges, this`recs
      ensures Valid(w)
      ensures fetched.Keys == missing
      ensures forall k :: k in missing ==> AsFetched(c, w, owner, t, l, k, clock, fetched[k])
      ensures forall k :: k in missing ==> Written(c, owner, t, NodeId(l, k), fetched[k], clock, nodes, recs)
      ensures OthersKept(old(nodes), nodes, fetched)
      ensures old(Linked(w)) && ModelOf(c, t, rels) ==> Linked(w)
      ensures forall r :: r in rels && old(InStep(r)) ==> InStep(r)
    {
      hide Truths, AllLinked, Alone, ModelOf, IsDerived, Written, Merge, ReadsOf, KindsApart, Untouched, Agrees, OthersKept;
      var order := Listed(missing);
      var view := Warehouse(c, w, owner, t);
      fetched := RunBatch(view, t.rs, Limits(c.cap, c.since(clock)), c.keysPerRead, order, missing);
      AllKept(nodes, fetched);
      var i := 0;
      while i < |order|
        invariant i <= |order| && Valid(w) && (old(Linked(w)) && ModelOf(c, t, rels) ==> Linked(w))
        invariant forall k :: k in order[..i] ==> Written(c, owner, t, NodeId(l, k), fetched[k], clock, nodes, recs)
        invariant OthersKept(old(nodes), nodes, fetched)
        invariant forall r :: r in rels && old(InStep(r)) ==> InStep(r)
      {
        var k := order[i];
        assert k in Elements(order);
        if fetched[k].nodes != map[] {
          NonEmptyHasAnchor(c, w, owner, t, l, k, clock);
          ghost var had, seen := nodes, recs;
          TruthsOfNodes(c, w, nodes, recs, clock);
          var until := Write(w, rels, owner, t, NodeId(l, k), fetched[k]);
          OthersKeptToo(c, old(nodes), had, fetched, k, t, clock);
          WrittenToo(c, w, had, seen, owner, t, l, fetched, order[..i], k, clock, until);
        } else {
          NothingToWrite(c, owner, t, NodeId(l, k), fetched[k], clock, nodes, recs);
        }
        assert order[..i + 1] == order[..i] + [k];
        i := i + 1;
      }
    }
  }
}
