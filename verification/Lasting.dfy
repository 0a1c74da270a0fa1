/** When a context may be served from memory for as long as it holds, exactly: what a recall from memory needs in
    any state, and what becomes of it in runs where another reader fetches the anchor again and memory is swept. */
module Lasting {
  import opened Options
  import opened Data
  import opened Template
  import opened Context
  import opened Served
  import opened Memory
  import opened Remember

  /** The context a fetch at a moment brings. */
  ghost function FetchedNow(c: Config, w: World, owner: nat, t: TemplateId, anchor: NodeId, now: nat): Ctx
    requires TemplateOk(t, anchor.lb)
  {
    Alone(Warehouse(c, w, owner, t), Limits(c.cap, c.since(now)), t.rs, anchor.key)
  }

  /** The recall memory serves. */
  ghost function RecalledNow(c: Config, nodes: map<NodeId, MemNode>, recs: set<Recorded>, owner: nat, t: TemplateId, anchor: NodeId, now: nat): Ctx
    requires TemplateOk(t, anchor.lb)
  {
    Alone(Remembered(c, nodes, recs, owner, t, now), Limits(c.cap, c.since(now)), t.rs, anchor.key)
  }

  ghost predicate Exact(c: Config, w: World, nodes: map<NodeId, MemNode>, recs: set<Recorded>, owner: nat, t: TemplateId, anchor: NodeId, now: nat)
    requires TemplateOk(t, anchor.lb)
  {
    AsFetched(c, w, owner, t, anchor.lb, anchor.key, now, RecalledNow(c, nodes, recs, owner, t, anchor, now))
  }

  /** In any state: a recall is exact exactly when memory holds, whole and visible to its reader, every node a
      fetch now brings. */
  lemma ExactIff(c: Config, w: World, nodes: map<NodeId, MemNode>, recs: set<Recorded>, clock: nat, owner: nat, t: TemplateId, anchor: NodeId, now: nat)
    requires TrueNodes(c, w, nodes, clock) && SeenTruly(c, w, recs) && TemplateOk(t, anchor.lb)
    requires anchor in Warehouse(c, w, owner, t)
    ensures Exact(c, w, nodes, recs, owner, t, anchor, now)
            <==> Alike(FetchedNow(c, w, owner, t, anchor, now).nodes, Remembered(c, nodes, recs, owner, t, now), Warehouse(c, w, owner, t))
  {
    hide Through, LastHop, Remembered, Warehouse, TrueNodes, SeenTruly;
    var m, whole := Remembered(c, nodes, recs, owner, t, now), Warehouse(c, w, owner, t);
    RememberedIsPart(c, w, nodes, recs, owner, t, clock, now);
    assert anchor == NodeId(t.rs[0].lb, anchor.key);
    if Alike(FetchedNow(c, w, owner, t, anchor, now).nodes, m, whole) {
      ServedExactly(whole, m, t.rs, c.cap, c.since(now), c.since(now), anchor.key);
    }
    assert FromView(RecalledNow(c, nodes, recs, owner, t, anchor, now).nodes, m);
    assert FromView(FetchedNow(c, w, owner, t, anchor, now).nodes, whole);
  }

  // ---- a run: a fetch, another reader's fetch of the anchor, a sweep

  /** A reader's fetch of a context. */
  datatype Fetching = Fetching(owner: nat, t: TemplateId, anchor: NodeId, at: nat, ctx: Ctx, until: Option<nat>)
  {
    ghost predicate Valid(c: Config, w: World) {
      && FetchedContext(c, w, owner, t, anchor, at, ctx)
      && Columned()
      && IsContextUntil(c, set id | id in ctx.nodes :: id.lb, at, until)
    }

    predicate Columned() {
      forall id :: id in ctx.nodes ==> id.lb in t.cols
    }

    function Capped(): set<Read> {
      set x | x in ctx.log && x.capped :: x.read
    }

    function Record(c: Config): Recorded {
      AnchorRecord(c, owner, t, anchor, at, until, Capped())
    }

    function Nodes(c: Config, was: map<NodeId, MemNode>): map<NodeId, MemNode>
      requires Columned()
    {
      Merge(c, was, ctx.nodes, t, at)
    }

    function Reads(c: Config): set<Recorded> {
      ReadsOf(c, owner, t, anchor, ctx.nodes, at, until, Capped())
    }
  }

  /** A store that remembers one context. */
  ghost predicate Once(c: Config, w: World, f: Fetching, nodes: map<NodeId, MemNode>, recs: set<Recorded>) {
    f.Valid(c, w) && nodes == f.Nodes(c, map[]) && recs == f.Reads(c)
  }

  /** A store that remembered one context, then another reader's later one, and was then swept. */
  ghost predicate OnceSwept(c: Config, w: World, f: Fetching, other: Fetching, nodes: map<NodeId, MemNode>, recs: set<Recorded>) {
    && f.Valid(c, w) && other.Valid(c, w) && other.owner != f.owner && f.at <= other.at
    && var both, seen := other.Nodes(c, f.Nodes(c, map[])), f.Reads(c) + other.Reads(c);
       nodes == Young(both, other.at - c.fetchedFor) && recs == ReadsLeft(both, seen, other.at - c.fetchedFor)
  }

  lemma OnceTrue(c: Config, w: World, f: Fetching, nodes: map<NodeId, MemNode>, recs: set<Recorded>)
    requires Once(c, w, f, nodes, recs)
    ensures Truths(c, w, nodes, recs, f.at)
    ensures ContextKept(c, w, nodes, recs, f.Record(c)) && RecordTrue(c, w, f.Record(c), f.at)
  {
    hide Merge, ReadsOf, ContextKept, RecordTrue, FetchedContext, IsContextUntil;
    WriteKeepsAll(c, w, map[], {}, f.owner, f.t, f.anchor, f.ctx, f.at, f.until);
    WriteKeepsNew(c, w, map[], {}, f.at, f.owner, f.t, f.anchor, f.ctx, f.at, f.until, f.Capped());
    WriteRecordTrue(c, w, f.owner, f.t, f.anchor, f.ctx, f.at, f.until);
    assert {} + f.Reads(c) == f.Reads(c);
  }

  lemma BothTrue(c: Config, w: World, f: Fetching, other: Fetching, nodes: map<NodeId, MemNode>, recs: set<Recorded>)
    requires f.Valid(c, w) && other.Valid(c, w) && f.at <= other.at
    requires nodes == other.Nodes(c, f.Nodes(c, map[])) && recs == f.Reads(c) + other.Reads(c)
    ensures Truths(c, w, nodes, recs, other.at)
    ensures ContextKept(c, w, nodes, recs, f.Record(c)) && RecordTrue(c, w, f.Record(c), f.at)
  {
    hide Merge, ReadsOf, ContextKept, RecordTrue, FetchedContext, IsContextUntil, TrueNodes;
    var once := f.Nodes(c, map[]);
    OnceTrue(c, w, f, once, f.Reads(c));
    TimePasses(c, w, once, f.Reads(c), f.at, other.at);
    WriteKeepsAll(c, w, once, f.Reads(c), other.owner, other.t, other.anchor, other.ctx, other.at, other.until);
    FetchedNodes(c, w, other.owner, other.t, other.anchor, other.at, other.ctx);
    WriteKeepsOld(c, w, once, f.Reads(c), other.Reads(c), f.at, other.t, other.ctx.nodes, other.at, f.Record(c));
  }

  /** A later fetch brings of a context's nodes no others, each the same. */
  lemma FetchedAgain(c: Config, w: World, f: Fetching, now: nat)
    requires c.Valid() && f.Valid(c, w) && f.at <= now
    ensures TemplateOk(f.t, f.anchor.lb) && f.anchor in Warehouse(c, w, f.owner, f.t)
    ensures var again := FetchedNow(c, w, f.owner, f.t, f.anchor, now).nodes;
            && f.anchor in again && FromView(again, Warehouse(c, w, f.owner, f.t))
            && forall id :: id in again ==> id in f.ctx.nodes && again[id] == f.ctx.nodes[id]
  {
    hide Through, LastHop, Warehouse, IsContextUntil;
    var whole := Warehouse(c, w, f.owner, f.t);
    assert f.anchor == NodeId(f.t.rs[0].lb, f.anchor.key);
    assert FromView(f.ctx.nodes, whole);
    ServedExactly(whole, whole, f.t.rs, c.cap, c.since(f.at), c.since(now), f.anchor.key);
  }

  /** What was seen of a frozen row-policied node is its reader's for a while only. */
  predicate SeenStill(c: Config, at: nat, id: NodeId, now: nat) {
    id.lb in c.policied && id.lb !in c.holds ==> now < at + c.unknownHold
  }

  /** A node of the context is visible exactly when it is still there and still seen. */
  lemma VisibleIff(c: Config, w: World, f: Fetching, nodes: map<NodeId, MemNode>, recs: set<Recorded>, clock: nat, id: NodeId, now: nat)
    requires f.Valid(c, w) && id in f.ctx.nodes && Holding(f.until, now) && f.at <= now
    requires TrueNodes(c, w, nodes, clock)
    requires id in nodes ==> nodes[id].at == f.at || nodes[id].at == now
    requires id in nodes ==> forall r :: r in f.Reads(c) && r.node == id ==> r in recs
    requires forall r :: r in recs && r.owner == f.owner && r.node == id ==> r in f.Reads(c)
    ensures Visible(c, nodes, recs, f.owner, f.t, now, id) <==> id in nodes && SeenStill(c, f.at, id, now)
  {
    hide FetchedContext, TrueNodes;
    var labels := set x | x in f.ctx.nodes :: x.lb;
    assert id.lb in labels;
    assert forall r :: r in f.Reads(c) && r.node == id && id.lb in c.policied ==> r.seenUntil == Some(c.SeenUntil(id.lb, f.at));
    if id in nodes {
      NodeUntil(c, w, nodes, clock, id);
      if id.lb in c.policied {
        var s := if id == f.anchor then f.Record(c) else Recorded(f.owner, f.t, true, f.at, id, false, None, Some(c.SeenUntil(id.lb, f.at)), f.Capped());
        assert s in f.Reads(c) && s in recs;
        assert SeenBy(recs, f.owner, id, now) <==> c.SeenUntil(id.lb, f.at) > now;
      }
    }
  }

  lemma NodeUntil(c: Config, w: World, nodes: map<NodeId, MemNode>, clock: nat, id: NodeId)
    requires TrueNodes(c, w, nodes, clock) && id in nodes
    ensures nodes[id].until == c.UntilOf(id.lb, nodes[id].at)
  {
  }

  /** A recall of the context is exact when, and only when, each node a fetch now brings is there and seen. */
  lemma ExactByNodes(c: Config, w: World, f: Fetching, nodes: map<NodeId, MemNode>, recs: set<Recorded>, clock: nat, now: nat)
    requires c.Valid() && f.Valid(c, w) && Holding(f.until, now) && f.at <= now
    requires TrueNodes(c, w, nodes, clock) && SeenTruly(c, w, recs) && TemplateOk(f.t, f.anchor.lb)
    requires forall id :: id in f.ctx.nodes && id in nodes ==>
               && (nodes[id].at == f.at || nodes[id].at == now) && Project(nodes[id].props, f.t.cols[id.lb]) == f.ctx.nodes[id]
               && forall r :: r in f.Reads(c) && r.node == id ==> r in recs
    requires forall r :: r in recs && r.owner == f.owner ==> r in f.Reads(c)
    ensures Exact(c, w, nodes, recs, f.owner, f.t, f.anchor, now) <==>
              forall id :: id in FetchedNow(c, w, f.owner, f.t, f.anchor, now).nodes ==> id in nodes && SeenStill(c, f.at, id, now)
  {
    hide Fetching.Valid, Alone, Warehouse, TrueNodes, SeenTruly, TemplateOk, AsFetched, Exact, Visible, ReadsOf;
    FetchedAgain(c, w, f, now);
    ExactIff(c, w, nodes, recs, clock, f.owner, f.t, f.anchor, now);
    var again := FetchedNow(c, w, f.owner, f.t, f.anchor, now).nodes;
    var m := Remembered(c, nodes, recs, f.owner, f.t, now);
    forall id | id in again
      ensures (id in m && m[id] == Warehouse(c, w, f.owner, f.t)[id]) <==> id in nodes && SeenStill(c, f.at, id, now)
    {
      assert id in f.ctx.nodes && again[id] == f.ctx.nodes[id] == Warehouse(c, w, f.owner, f.t)[id];
      VisibleIff(c, w, f, nodes, recs, clock, id, now);
      VisibleIsIn(c, nodes, recs, f.owner, f.t, now, id);
    }
  }

  lemma VisibleIsIn(c: Config, nodes: map<NodeId, MemNode>, recs: set<Recorded>, owner: nat, t: TemplateId, now: nat, id: NodeId)
    ensures id in Remembered(c, nodes, recs, owner, t, now) <==> Visible(c, nodes, recs, owner, t, now, id)
    ensures Visible(c, nodes, recs, owner, t, now, id) ==>
              id in nodes && id.lb in t.cols && Remembered(c, nodes, recs, owner, t, now)[id] == Project(nodes[id].props, t.cols[id.lb])
  {
  }

  lemma KeptRow(c: Config, w: World, f: Fetching, nodes: map<NodeId, MemNode>, recs: set<Recorded>, id: NodeId)
    requires f.Valid(c, w) && ContextKept(c, w, nodes, recs, f.Record(c)) && id in f.ctx.nodes
    ensures id in nodes && Project(nodes[id].props, f.t.cols[id.lb]) == f.ctx.nodes[id]
  {
    hide Alone, Warehouse, TemplateOk, IsContextUntil;
    assert Brought(c, w, f.Record(c)) == f.ctx;
    assert NodeKept(c, nodes, recs, f.Record(c), id, f.ctx.nodes[id]);
  }

  /** With nothing but time since its fetch, a context's recall is exact exactly while what was seen of its frozen
      row-policied nodes is still its reader's. */
  lemma OnceExactly(c: Config, w: World, f: Fetching, nodes: map<NodeId, MemNode>, recs: set<Recorded>, now: nat)
    requires c.Valid() && Once(c, w, f, nodes, recs) && f.at <= now && Holding(f.until, now)
    ensures TemplateOk(f.t, f.anchor.lb) && f.Record(c) in recs && Fresh(f.Record(c), f.owner, f.t, f.anchor, now)
    ensures Exact(c, w, nodes, recs, f.owner, f.t, f.anchor, now) <==>
              forall id :: id in FetchedNow(c, w, f.owner, f.t, f.anchor, now).nodes ==> SeenStill(c, f.at, id, now)
  {
    hide Alone, Warehouse, TemplateOk, IsContextUntil, FetchedContext, Exact, ContextKept, FetchedNow;
    OnceTrue(c, w, f, nodes, recs);
    FetchedAgain(c, w, f, now);
    forall id | id in f.ctx.nodes
      ensures id in nodes && nodes[id].at == f.at && Project(nodes[id].props, f.t.cols[id.lb]) == f.ctx.nodes[id]
    {
      KeptRow(c, w, f, nodes, recs, id);
    }
    ExactByNodes(c, w, f, nodes, recs, f.at, now);
  }

  /** What the other fetch and the sweep leave of the first context's nodes and READs. */
  lemma SweptNodes(c: Config, w: World, f: Fetching, other: Fetching, nodes: map<NodeId, MemNode>, recs: set<Recorded>)
    requires OnceSwept(c, w, f, other, nodes, recs)
    ensures Truths(c, w, nodes, recs, other.at)
    ensures forall id :: id in f.ctx.nodes ==>
              && (id in nodes <==> id in other.ctx.nodes || other.at <= f.at + c.fetchedFor)
              && (id in nodes ==> (nodes[id].at == f.at || nodes[id].at == other.at) && Project(nodes[id].props, f.t.cols[id.lb]) == f.ctx.nodes[id])
    ensures forall r :: r in f.Reads(c) && r.node in nodes ==> r in recs
    ensures forall r :: r in recs && r.owner == f.owner ==> r in f.Reads(c)
  {
    hide Alone, Warehouse, TemplateOk, IsContextUntil, FetchedContext, ContextKept, Truths, ReadsOf;
    var both, seen := other.Nodes(c, f.Nodes(c, map[])), f.Reads(c) + other.Reads(c);
    BothTrue(c, w, f, other, both, seen);
    SweepKeepsAll(c, w, both, seen, other.at);
    forall id | id in f.ctx.nodes
      ensures id in both && both[id].at == (if id in other.ctx.nodes then other.at else f.at) && Project(both[id].props, f.t.cols[id.lb]) == f.ctx.nodes[id]
    {
      KeptRow(c, w, f, both, seen, id);
    }
    ReadsAreOwn(c, other);
  }

  lemma ReadsAreOwn(c: Config, f: Fetching)
    ensures forall r :: r in f.Reads(c) ==> r.owner == f.owner
  {
  }

  /** After another reader's fetch and a sweep, a fresh context's recall is exact exactly when the sweep took no
      node a fetch now brings, and what was seen is still seen. */
  lemma SweptExactly(c: Config, w: World, f: Fetching, other: Fetching, nodes: map<NodeId, MemNode>, recs: set<Recorded>)
    requires c.Valid() && OnceSwept(c, w, f, other, nodes, recs) && Holding(f.until, other.at)
    requires f.anchor in other.ctx.nodes || other.at <= f.at + c.fetchedFor
    ensures TemplateOk(f.t, f.anchor.lb) && f.Record(c) in recs && Fresh(f.Record(c), f.owner, f.t, f.anchor, other.at)
    ensures Exact(c, w, nodes, recs, f.owner, f.t, f.anchor, other.at) <==>
              forall id :: id in FetchedNow(c, w, f.owner, f.t, f.anchor, other.at).nodes ==>
                (id in other.ctx.nodes || other.at <= f.at + c.fetchedFor) && SeenStill(c, f.at, id, other.at)
  {
    hide Fetching.Valid, OnceSwept, Alone, Warehouse, TemplateOk, Exact, FetchedNow, RecordsTrue, ContextsKept, TrueNodes, SeenTruly, ReadsOf;
    assert f.Valid(c, w) && f.at <= other.at by {
      SweptValid(c, w, f, other, nodes, recs);
    }
    SweptNodes(c, w, f, other, nodes, recs);
    FetchedAgain(c, w, f, other.at);
    AnchorFetched(c, w, f);
    OwnReadIn(c, f);
    ExactByNodes(c, w, f, nodes, recs, other.at, other.at);
  }

  lemma SweptValid(c: Config, w: World, f: Fetching, other: Fetching, nodes: map<NodeId, MemNode>, recs: set<Recorded>)
    requires OnceSwept(c, w, f, other, nodes, recs)
    ensures f.Valid(c, w) && other.Valid(c, w) && f.at <= other.at
  {
  }

  lemma OwnReadIn(c: Config, f: Fetching)
    ensures f.Record(c) in f.Reads(c)
  {
  }

  lemma AnchorFetched(c: Config, w: World, f: Fetching)
    requires f.Valid(c, w)
    ensures f.anchor in f.ctx.nodes
  {
    hide Alone, Warehouse, TemplateOk, IsContextUntil;
    FetchedNodes(c, w, f.owner, f.t, f.anchor, f.at, f.ctx);
  }

  // ---- what each half of Lasts is for

  /** A context that does not end in time: once another fetch has re-stamped its anchor, a sweep takes another
      node of it and leaves its record, still fresh, and the recall it serves is not the fetch. */
  lemma SweepTakesHeldNode(c: Config, w: World, f: Fetching, other: Fetching, nodes: map<NodeId, MemNode>, recs: set<Recorded>, id: NodeId)
    requires c.Valid() && OnceSwept(c, w, f, other, nodes, recs) && !c.EndsInTime(f.Record(c))
    requires other.at == f.at + c.fetchedFor + 1 && f.anchor in other.ctx.nodes && TemplateOk(f.t, f.anchor.lb)
    requires id in FetchedNow(c, w, f.owner, f.t, f.anchor, other.at).nodes && id !in other.ctx.nodes
    ensures f.Record(c) in recs && Fresh(f.Record(c), f.owner, f.t, f.anchor, other.at)
    ensures !Exact(c, w, nodes, recs, f.owner, f.t, f.anchor, other.at)
  {
    hide Exact, FetchedNow, OnceSwept, TemplateOk;
    SweptExactly(c, w, f, other, nodes, recs);
  }

  /** A frozen row-policied node of a context that holds longer than what was seen of it: the recall misses it. */
  lemma FrozenPoliciedFallsShort(c: Config, w: World, f: Fetching, nodes: map<NodeId, MemNode>, recs: set<Recorded>, id: NodeId)
    requires c.Valid() && Once(c, w, f, nodes, recs) && TemplateOk(f.t, f.anchor.lb)
    requires id.lb in c.policied && id.lb !in c.holds && Holding(f.until, f.at + c.unknownHold)
    requires id in FetchedNow(c, w, f.owner, f.t, f.anchor, f.at + c.unknownHold).nodes
    ensures f.Record(c) in recs && Fresh(f.Record(c), f.owner, f.t, f.anchor, f.at + c.unknownHold)
    ensures !Exact(c, w, nodes, recs, f.owner, f.t, f.anchor, f.at + c.unknownHold)
  {
    hide Exact, FetchedNow, Once, TemplateOk;
    OnceExactly(c, w, f, nodes, recs, f.at + c.unknownHold);
  }

  /** What a reader of the anchor's table alone fetches. */
  function AnchorOnly(c: Config, l: Label): TemplateId {
    TemplateId([AnchorRead(l)], map[l := if l in c.keyOf then {c.keyOf[l]} else {}])
  }

  /** The recall after another fetch and a sweep is exact. */
  ghost predicate ExactAfter(c: Config, w: World, f: Fetching, other: Fetching) {
    && f.Columned() && other.Columned() && TemplateOk(f.t, f.anchor.lb)
    && Exact(c, w, Young(other.Nodes(c, f.Nodes(c, map[])), other.at - c.fetchedFor),
             ReadsLeft(other.Nodes(c, f.Nodes(c, map[])), f.Reads(c) + other.Reads(c), other.at - c.fetchedFor),
             f.owner, f.t, f.anchor, other.at)
  }

  lemma AnchorOnlyContext(c: Config, w: World, other: Fetching)
    requires other.Valid(c, w) && other.t == AnchorOnly(c, other.anchor.lb)
    ensures other.ctx.nodes.Keys == {other.anchor}
  {
    hide Warehouse, IsContextUntil;
    var rs, view := other.t.rs, Warehouse(c, w, other.owner, other.t);
    assert rs == [AnchorRead(other.anchor.lb)];
    assert LastHop(rs) == 0 by {
      assert rs[1..] == [];
    }
    assert Through(view, Limits(c.cap, c.since(other.at)), rs, other.anchor.key, 0) == Start(view, rs, other.anchor.key);
  }

  /** What was seen of every node of the context holds as long as the context does. */
  ghost predicate NodesSeenInTime(c: Config, f: Fetching) {
    forall id :: id in f.ctx.nodes && id.lb in c.policied && id.lb !in c.holds ==> f.until.Some? && f.until.value <= f.at + c.unknownHold
  }

  /** Both halves, exactly: take a context of more than its anchor, all of which a fetch would bring again while
      it holds, and runs in which a reader of the anchor's table alone fetches it once more and memory is swept.
      The recall is exact at every moment the context holds when, and only when, it ends in time and what was
      seen of its nodes is seen in time. */
  lemma LastsExactly(c: Config, w: World, f: Fetching, others: nat -> Fetching)
    requires c.Valid() && f.Valid(c, w) && TemplateOk(f.t, f.anchor.lb)
    requires exists id :: id in f.ctx.nodes && id != f.anchor
    requires forall now :: f.at <= now && Holding(f.until, now) ==> Refetch(c, w, f, others(now), now)
    ensures (forall now :: f.at <= now && Holding(f.until, now) ==> ExactAfter(c, w, f, others(now)))
            <==> c.EndsInTime(f.Record(c)) && NodesSeenInTime(c, f)
  {
    hide Exact, Fetching.Valid, TemplateOk, ExactAfter, FetchedNow, Refetch;
    forall now | f.at <= now && Holding(f.until, now)
      ensures ExactAfter(c, w, f, others(now)) <==> now <= f.at + c.fetchedFor && forall id :: id in f.ctx.nodes ==> SeenStill(c, f.at, id, now)
    {
      RefetchExactly(c, w, f, others(now), now);
    }
    var last := f.at + c.fetchedFor + 1;
    var unseen := f.at + c.unknownHold;
    assert Holding(f.until, last) <==> !c.EndsInTime(f.Record(c));
    if NodesSeenInTime(c, f) {
      forall now, id | f.at <= now && Holding(f.until, now) && id in f.ctx.nodes
        ensures SeenStill(c, f.at, id, now)
      {
      }
    } else {
      assert Holding(f.until, unseen);
    }
  }

  /** A reader of the anchor's table alone fetches the anchor at a moment a fetch would bring the whole context again. */
  ghost predicate Refetch(c: Config, w: World, f: Fetching, other: Fetching, now: nat)
    requires TemplateOk(f.t, f.anchor.lb)
  {
    && other.Valid(c, w) && other.owner != f.owner && other.anchor == f.anchor && other.at == now && other.t == AnchorOnly(c, f.anchor.lb)
    && FetchedNow(c, w, f.owner, f.t, f.anchor, now).nodes == f.ctx.nodes
  }

  lemma RefetchExactly(c: Config, w: World, f: Fetching, other: Fetching, now: nat)
    requires c.Valid() && f.Valid(c, w) && TemplateOk(f.t, f.anchor.lb)
    requires exists id :: id in f.ctx.nodes && id != f.anchor
    requires f.at <= now && Holding(f.until, now) && Refetch(c, w, f, other, now)
    ensures ExactAfter(c, w, f, other) <==> now <= f.at + c.fetchedFor && forall id :: id in f.ctx.nodes ==> SeenStill(c, f.at, id, now)
  {
    hide Exact, TemplateOk, FetchedNow, Young, ReadsLeft, FetchedContext, IsContextUntil;
    var both, seen := other.Nodes(c, f.Nodes(c, map[])), f.Reads(c) + other.Reads(c);
    AnchorOnlyContext(c, w, other);
    SweptExactly(c, w, f, other, Young(both, now - c.fetchedFor), ReadsLeft(both, seen, now - c.fetchedFor));
  }
}
