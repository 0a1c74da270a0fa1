/** Memory's relationships under readers of different models. A reader's write re-derives the types of its own
    model only, so a type may fall behind its nodes' columns; what stays true whoever writes is that no edge is
    wrong, and that a context that holds has all of its own. */
module Linked {
  import opened Options
  import opened Data
  import opened Template
  import opened Context
  import opened Edges
  import opened Memory
  import opened Remember

  /** A principal's model is the whole one as they may see it: the relationships between labels they may read,
      on columns they may. */
  ghost predicate Restricts(c: Config, reader: Reader) {
    forall r :: r in reader.schema.rels <==>
      r in c.rels && r.start in reader.schema.labels && r.end in reader.schema.labels && r.fk in ColsOf(c, reader, r.start)
  }

  /** A template's reader has those of the model's relationships whose ends and column the template has. */
  ghost predicate ModelOf(c: Config, t: TemplateId, rels: seq<Rel>) {
    && (forall r :: r in rels ==> r in c.rels)
    && forall r :: r in c.rels && r.start in t.cols && r.end in t.cols && r.fk in t.cols[r.start] ==> r in rels
  }

  lemma TemplateOfModel(c: Config, reader: Reader, l: Label, hops: nat, rs: seq<Read>)
    requires reader.schema.Valid() && IsTemplate(reader.schema, l, hops, rs) && l in reader.schema.labels
    requires Restricts(c, reader)
    ensures ModelOf(c, IdOf(c, reader, rs), reader.schema.rels)
  {
    TemplateLabels(reader.schema, l, hops, rs);
  }

  lemma TemplateLabels(s: Schema, l: Label, hops: nat, rs: seq<Read>)
    requires s.Valid() && IsTemplate(s, l, hops, rs) && l in s.labels
    ensures Labels(rs) <= s.labels
  {
    forall q | q in rs
      ensures q.lb in s.labels
    {
      var i :| 0 <= i < |rs| && rs[i] == q;
    }
  }

  /** No edge is wrong: its start's column makes it. */
  ghost predicate EdgesTrue(edges: set<Edge>, nodes: View, rels: seq<Rel>) {
    forall e :: e in edges ==> exists r :: r in rels && IsMade(nodes, r, e)
  }

  /** Every edge some nodes' columns make among them is there. */
  ghost predicate HasEdges(edges: set<Edge>, nodes: View, rels: seq<Rel>) {
    forall r, e :: r in rels && IsMade(nodes, r, e) ==> e in edges
  }

  ghost predicate ContextJoined(c: Config, w: World, edges: set<Edge>, r: Recorded) {
    TemplateOk(r.template, r.node.lb) && HasEdges(edges, Brought(c, w, r).nodes, c.rels)
  }

  ghost predicate ContextsJoined(c: Config, w: World, edges: set<Edge>, recs: set<Recorded>, clock: nat) {
    forall r :: r in recs && r.graph && r.context && Holding(r.contextUntil, clock) && c.EndsInTime(r) ==> ContextJoined(c, w, edges, r)
  }

  ghost predicate AllLinked(c: Config, w: World, nodes: map<NodeId, MemNode>, edges: set<Edge>, recs: set<Recorded>, clock: nat) {
    EdgesTrue(edges, PropsOf(nodes), c.rels) && ContextsJoined(c, w, edges, recs, clock)
  }

  // ---- what a write leaves made

  /** The warehouse does not change, so a column that made an edge still does, whatever columns are written. */
  lemma MergeKeepsMade(c: Config, w: World, nodes: map<NodeId, MemNode>, clock: nat, t: TemplateId, got: View, at: nat, r: Rel, e: Edge)
    requires TrueNodes(c, w, nodes, clock)
    requires forall id :: id in got ==> id in w.rows && id.lb in t.cols && got[id] == Project(w.rows[id], t.cols[id.lb])
    requires IsMade(PropsOf(nodes), r, e)
    ensures IsMade(PropsOf(Merge(c, nodes, got, t, at)), r, e)
  {
    var now := Merge(c, nodes, got, t, at);
    assert nodes[e.from].props[r.fk] == w.rows[e.from][r.fk];
    assert e.from in now && r.fk in now[e.from].props && now[e.from].props[r.fk] == nodes[e.from].props[r.fk];
    assert e.to in now;
  }

  /** What a kept context's columns make, memory's make. */
  lemma KeptMade(c: Config, w: World, nodes: map<NodeId, MemNode>, recs: set<Recorded>, rec: Recorded, r: Rel, e: Edge)
    requires ContextKept(c, w, nodes, recs, rec) && IsMade(Brought(c, w, rec).nodes, r, e)
    ensures IsMade(PropsOf(nodes), r, e)
    ensures e.from in nodes && e.to in nodes
  {
    hide Brought, TemplateOk;
    var brought := Brought(c, w, rec).nodes;
    assert NodeKept(c, nodes, recs, rec, e.from, brought[e.from]);
    assert NodeKept(c, nodes, recs, rec, e.to, brought[e.to]);
    assert r.fk in Project(nodes[e.from].props, rec.template.cols[e.from.lb]);
  }

  lemma WriteKeepsEdgesTrue(c: Config, w: World, nodes: map<NodeId, MemNode>, edges: set<Edge>, clock: nat, t: TemplateId, got: View, at: nat, rels: seq<Rel>)
    requires TrueNodes(c, w, nodes, clock) && EdgesTrue(edges, PropsOf(nodes), c.rels)
    requires forall id :: id in got ==> id in w.rows && id.lb in t.cols && got[id] == Project(w.rows[id], t.cols[id.lb])
    requires KindsApart(rels) && forall r :: r in rels ==> r in c.rels
    ensures EdgesTrue(RelateAll(edges, PropsOf(Merge(c, nodes, got, t, at)), rels, got.Keys), PropsOf(Merge(c, nodes, got, t, at)), c.rels)
  {
    hide TrueNodes, Merge, PropsOf, RelateAll, IsMade, KindsApart;
    var now := PropsOf(Merge(c, nodes, got, t, at));
    forall e | e in RelateAll(edges, now, rels, got.Keys)
      ensures exists r :: r in c.rels && IsMade(now, r, e)
    {
      NoneInvented(edges, now, rels, got.Keys, e);
      if e in edges {
        var r :| r in c.rels && IsMade(PropsOf(nodes), r, e);
        MergeKeepsMade(c, w, nodes, clock, t, got, at, r, e);
      }
    }
  }

  /** A context that holds keeps its edges through another's write, by a reader of any part of the model. */
  lemma WriteKeepsJoined(c: Config, w: World, now: map<NodeId, MemNode>, edges: set<Edge>, recs: set<Recorded>, written: set<NodeId>,
                         rels: seq<Rel>, rec: Recorded)
    requires c.Valid() && KindsApart(rels) && forall r :: r in rels ==> r in c.rels
    requires ContextKept(c, w, now, recs, rec) && ContextJoined(c, w, edges, rec)
    ensures ContextJoined(c, w, RelateAll(edges, PropsOf(now), rels, written), rec)
  {
    hide Brought, TemplateOk, PropsOf, RelateAll, IsMade, KindsApart, ContextKept;
    forall r, e | r in c.rels && IsMade(Brought(c, w, rec).nodes, r, e)
      ensures e in RelateAll(edges, PropsOf(now), rels, written)
    {
      KeptMade(c, w, now, recs, rec, r, e);
      AgreesWithItself(c.rels, r);
      MadeStays(edges, PropsOf(now), rels, written, r, e);
    }
  }

  /** A write makes its own context's edges. */
  lemma WriteJoins(c: Config, w: World, now: map<NodeId, MemNode>, edges: set<Edge>, recs: set<Recorded>, rels: seq<Rel>, rec: Recorded)
    requires KindsApart(rels) && ModelOf(c, rec.template, rels)
    requires ContextKept(c, w, now, recs, rec)
    ensures ContextJoined(c, w, RelateAll(edges, PropsOf(now), rels, Brought(c, w, rec).nodes.Keys), rec)
  {
    hide TemplateOk, PropsOf, RelateAll, KindsApart, NodeKept, Brought;
    var brought := Brought(c, w, rec).nodes;
    forall r, e | r in c.rels && IsMade(brought, r, e)
      ensures e in RelateAll(edges, PropsOf(now), rels, brought.Keys)
    {
      KeptMade(c, w, now, recs, rec, r, e);
      BroughtColumns(c, w, rec, e.from);
      BroughtColumns(c, w, rec, e.to);
      WrittenMade(edges, PropsOf(now), rels, brought.Keys, r, e);
    }
  }

  lemma BroughtColumns(c: Config, w: World, rec: Recorded, id: NodeId)
    requires TemplateOk(rec.template, rec.node.lb) && id in Brought(c, w, rec).nodes
    ensures id.lb in rec.template.cols && forall p :: p in Brought(c, w, rec).nodes[id] ==> p in rec.template.cols[id.lb]
  {
    hide Brought, TemplateOk;
    NodeOfWarehouse(c, w, rec, id);
  }

  // ---- what every action keeps

  lemma WriteKeepsLinked(c: Config, w: World, nodes: map<NodeId, MemNode>, edges: set<Edge>, recs: set<Recorded>, owner: nat, t: TemplateId,
                         anchor: NodeId, ctx: Ctx, at: nat, until: Option<nat>, rels: seq<Rel>)
    requires c.Valid() && Truths(c, w, nodes, recs, at) && AllLinked(c, w, nodes, edges, recs, at)
    requires FetchedContext(c, w, owner, t, anchor, at, ctx)
    requires forall id :: id in ctx.nodes ==> id.lb in t.cols
    requires IsContextUntil(c, set id | id in ctx.nodes :: id.lb, at, until)
    requires KindsApart(rels) && ModelOf(c, t, rels)
    ensures AllLinked(c, w, Merge(c, nodes, ctx.nodes, t, at), RelateAll(edges, PropsOf(Merge(c, nodes, ctx.nodes, t, at)), rels, ctx.nodes.Keys),
                      recs + ReadsOf(c, owner, t, anchor, ctx.nodes, at, until, set x | x in ctx.log && x.capped :: x.read), at)
  {
    hide Config.Valid, ContextKept, Brought, TemplateOk, FetchedContext, TrueNodes, RecordTrue, Merge, PropsOf, RelateAll, EdgesTrue, KindsApart,
         ContextJoined, IsContextUntil;
    var capped := set x | x in ctx.log && x.capped :: x.read;
    var more := ReadsOf(c, owner, t, anchor, ctx.nodes, at, until, capped);
    var now := Merge(c, nodes, ctx.nodes, t, at);
    var related := RelateAll(edges, PropsOf(now), rels, ctx.nodes.Keys);
    FetchedNodes(c, w, owner, t, anchor, at, ctx);
    WriteKeepsAll(c, w, nodes, recs, owner, t, anchor, ctx, at, until);
    WriteKeepsEdgesTrue(c, w, nodes, edges, at, t, ctx.nodes, at, rels);
    forall s | s in recs + more && s.graph && s.context && Holding(s.contextUntil, at) && c.EndsInTime(s)
      ensures ContextJoined(c, w, related, s)
    {
      assert ContextKept(c, w, now, recs + more, s);
      if s in recs {
        WriteKeepsJoined(c, w, now, edges, recs + more, ctx.nodes.Keys, rels, s);
      } else {
        OwnRecord(c, w, owner, t, anchor, ctx, at, until, capped, s);
        WriteJoins(c, w, now, edges, recs + more, rels, s);
      }
    }
  }

  /** A write's one context record is of the context it writes. */
  lemma OwnRecord(c: Config, w: World, owner: nat, t: TemplateId, anchor: NodeId, ctx: Ctx, at: nat, until: Option<nat>, capped: set<Read>, s: Recorded)
    requires FetchedContext(c, w, owner, t, anchor, at, ctx)
    requires s in ReadsOf(c, owner, t, anchor, ctx.nodes, at, until, capped) && s.context
    ensures TemplateOk(s.template, s.node.lb) && s.template == t && Brought(c, w, s) == ctx
  {
    hide Alone, Warehouse, TemplateOk;
  }

  lemma SweepKeepsLinked(c: Config, w: World, nodes: map<NodeId, MemNode>, edges: set<Edge>, recs: set<Recorded>, now: nat)
    requires Truths(c, w, nodes, recs, now) && AllLinked(c, w, nodes, edges, recs, now)
    ensures var young := Young(nodes, now - c.fetchedFor);
            AllLinked(c, w, young, Detached(edges, PropsOf(young)), ReadsLeft(nodes, recs, now - c.fetchedFor), now)
  {
    hide ContextKept, Brought, TemplateOk, TrueNodes, RecordTrue, IsMade;
    var young, left := Young(nodes, now - c.fetchedFor), ReadsLeft(nodes, recs, now - c.fetchedFor);
    var kept := Detached(edges, PropsOf(young));
    SweepKeepsAll(c, w, nodes, recs, now);
    forall e | e in kept
      ensures exists r :: r in c.rels && IsMade(PropsOf(young), r, e)
    {
      var r :| r in c.rels && IsMade(PropsOf(nodes), r, e);
      StillMade(nodes, young, r, e);
    }
    forall s | s in left && s.graph && s.context && Holding(s.contextUntil, now) && c.EndsInTime(s)
      ensures ContextJoined(c, w, kept, s)
    {
      assert ContextJoined(c, w, edges, s) && ContextKept(c, w, young, left, s);
      forall r, e | r in c.rels && IsMade(Brought(c, w, s).nodes, r, e)
        ensures e in kept
      {
        KeptMade(c, w, young, left, s, r, e);
      }
    }
  }

  lemma StillMade(nodes: map<NodeId, MemNode>, young: map<NodeId, MemNode>, r: Rel, e: Edge)
    requires IsMade(PropsOf(nodes), r, e) && e.from in young && e.to in young
    requires forall id :: id in young ==> id in nodes && young[id] == nodes[id]
    ensures IsMade(PropsOf(young), r, e)
  {
  }

  /** Time ends contexts, and a read from memory records no fetched one. */
  lemma FewerHold(c: Config, w: World, nodes: map<NodeId, MemNode>, edges: set<Edge>, recs: set<Recorded>, clock: nat, more: set<Recorded>, now: nat)
    requires AllLinked(c, w, nodes, edges, recs, clock) && clock <= now
    requires forall r :: r in more ==> !r.graph
    ensures AllLinked(c, w, nodes, edges, recs + more, now)
  {
    hide ContextJoined, EdgesTrue;
  }
}
