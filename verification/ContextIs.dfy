/** A context outright: its nodes are the ends of chains of reads from the anchor, its edges join what a read brought to what
    it was keyed on, and its record says of each read what it was keyed on, how much it brought, and whether it was cut. */
module ContextIs {
  import opened Options
  import opened Data
  import opened Recency
  import opened Template
  import opened Context

  // ---- the facts a read keeps

  /** A node that points at the anchor, dated within the window. */
  predicate IsFact(view: View, q: Read, since: int, anchor: Value, id: NodeId)
    requires q.rel.Some?
  {
    && id in view && id.lb == q.lb
    && q.rel.value.fk in view[id] && view[id][q.rel.value.fk] == anchor
    && (q.window.Some? ==> q.window.value in view[id] && view[id][q.window.value] >= since)
  }

  /** More recent, or as recent and of a smaller key. */
  predicate Sooner(view: View, q: Read, x: NodeId, y: NodeId)
    requires x in view && y in view
    requires q.window.Some? ==> q.window.value in view[x] && q.window.value in view[y]
  {
    match q.window
    case None => x.key < y.key
    case Some(w) => view[x][w] > view[y][w] || (view[x][w] == view[y][w] && x.key < y.key)
  }

  function Facts(view: View, q: Read, since: int, anchor: Value): set<NodeId>
    requires q.rel.Some?
  {
    set id | id in view && IsFact(view, q, since, anchor, id)
  }

  function SoonerThan(view: View, q: Read, since: int, anchor: Value, id: NodeId): set<NodeId>
    requires q.rel.Some? && IsFact(view, q, since, anchor, id)
  {
    set x | x in Facts(view, q, since, anchor) && Sooner(view, q, x, id)
  }

  /** A fact fewer than the cap come before. */
  predicate IsKept(view: View, q: Read, lim: Limits, anchor: Value, id: NodeId)
    requires q.rel.Some?
  {
    IsFact(view, q, lim.since, anchor, id) && |SoonerThan(view, q, lim.since, anchor, id)| < lim.cap
  }

  function Earlier(s: set<Fact>, f: Fact): set<Fact> {
    set y | y in s && Before(y, f)
  }

  /** The cap keeps a fact exactly when fewer than it come before. */
  lemma {:induction false} TopCapRank(s: set<Fact>, cap: nat, f: Fact)
    ensures f in TopCap(s, cap) <==> f in s && |Earlier(s, f)| < cap
    decreases cap
  {
    if s != {} && cap > 0 {
      var g := First(s);
      assert IsFirst(g, s);
      if f == g {
        assert Earlier(s, f) == {};
      } else if f in s {
        TopCapRank(s - {g}, cap - 1, f);
        assert Earlier(s, f) == Earlier(s - {g}, f) + {g};
      }
    }
  }

  function FactOf(view: View, q: Read, id: NodeId): Fact
    requires id in view
  {
    Fact(DateOf(view[id], q.window), id.key)
  }

  /** Nodes of one label, each its own fact. */
  lemma {:induction false} SameSize(view: View, q: Read, ids: set<NodeId>, facts: set<Fact>)
    requires forall id :: id in ids ==> id in view && id.lb == q.lb
    requires forall id :: id in ids ==> FactOf(view, q, id) in facts
    requires forall f :: f in facts ==> NodeId(q.lb, f.key) in ids && FactOf(view, q, NodeId(q.lb, f.key)) == f
    ensures |ids| == |facts|
    decreases |ids|
  {
    if ids == {} {
      assert facts == {};
    } else {
      var id :| id in ids;
      var f := FactOf(view, q, id);
      assert id == NodeId(q.lb, f.key);
      SameSize(view, q, ids - {id}, facts - {f});
    }
  }

  lemma FactsAre(view: View, q: Read, since: int, anchor: Value)
    requires q.rel.Some?
    ensures forall id :: id in Facts(view, q, since, anchor) ==> FactOf(view, q, id) in InwardFacts(view, q, since, anchor)
    ensures forall f :: f in InwardFacts(view, q, since, anchor) ==>
              NodeId(q.lb, f.key) in Facts(view, q, since, anchor) && FactOf(view, q, NodeId(q.lb, f.key)) == f
    ensures |Facts(view, q, since, anchor)| == |InwardFacts(view, q, since, anchor)|
  {
    var facts := InwardFacts(view, q, since, anchor);
    forall id | id in Facts(view, q, since, anchor)
      ensures FactOf(view, q, id) in facts
    {
      assert Points(view[id], q.rel.value.fk, anchor) && InWindow(view[id], q.window, since);
    }
    SameSize(view, q, Facts(view, q, since, anchor), facts);
  }

  lemma KeptIs(view: View, q: Read, lim: Limits, anchor: Value, k: Value)
    requires q.rel.Some?
    ensures k in KeptKeys(view, lim, anchor, q) <==> IsKept(view, q, lim, anchor, NodeId(q.lb, k))
  {
    hide InwardFacts, TopCap;
    var facts, id := InwardFacts(view, q, lim.since, anchor), NodeId(q.lb, k);
    FactsAre(view, q, lim.since, anchor);
    if IsFact(view, q, lim.since, anchor, id) {
      var f := FactOf(view, q, id);
      SoonerAre(view, q, lim.since, anchor, id);
      TopCapRank(facts, lim.cap, f);
      assert f in facts;
      assert forall g :: g in facts && g.key == k ==> g == f;
    } else {
      forall f | f in TopCap(facts, lim.cap)
        ensures f.key != k
      {
        TopCapRank(facts, lim.cap, f);
      }
    }
  }

  lemma SoonerAre(view: View, q: Read, since: int, anchor: Value, id: NodeId)
    requires q.rel.Some? && IsFact(view, q, since, anchor, id)
    ensures |SoonerThan(view, q, since, anchor, id)| == |Earlier(InwardFacts(view, q, since, anchor), FactOf(view, q, id))|
  {
    hide InwardFacts;
    var f := FactOf(view, q, id);
    FactsAre(view, q, since, anchor);
    forall x | x in Facts(view, q, since, anchor)
      ensures Sooner(view, q, x, id) <==> Before(FactOf(view, q, x), f)
    {
    }
    SameSize(view, q, SoonerThan(view, q, since, anchor, id), Earlier(InwardFacts(view, q, since, anchor), f));
  }

  // ---- chains of reads

  /** A read brings a node from one it is keyed on: the fact that points at the anchor, or the end the node points at. */
  predicate Brings(view: View, lim: Limits, anchor: NodeId, q: Read, from: NodeId, to: NodeId) {
    && q.rel.Some? && from in view && to in view
    && if q.inward then from == anchor && IsKept(view, q, lim, anchor.key, to)
       else from.lb == q.via && q.rel.value.fk in view[from] && to == NodeId(q.lb, view[from][q.rel.value.fk])
  }

  /** Read after read, of later and later hops, from the anchor. */
  ghost predicate Chain(view: View, lim: Limits, rs: seq<Read>, anchor: NodeId, below: nat, ids: seq<NodeId>, qs: seq<Read>) {
    && |ids| == |qs| + 1 && ids[0] == anchor
    && (forall k :: 0 <= k < |qs| ==> qs[k] in rs && 1 <= qs[k].hop < below && Brings(view, lim, anchor, qs[k], ids[k], ids[k + 1]))
    && forall k :: 0 <= k < |qs| - 1 ==> qs[k].hop < qs[k + 1].hop
  }

  /** Fetched by hops before `below`. */
  ghost predicate Reached(view: View, lim: Limits, rs: seq<Read>, anchor: NodeId, below: nat, id: NodeId) {
    exists ids, qs :: Chain(view, lim, rs, anchor, below, ids, qs) && ids[|qs|] == id
  }

  /** Brought by a read from what earlier hops fetched. */
  ghost predicate BroughtBy(view: View, lim: Limits, rs: seq<Read>, anchor: NodeId, q: Read, id: NodeId) {
    exists from :: Reached(view, lim, rs, anchor, q.hop, from) && Brings(view, lim, anchor, q, from, id)
  }

  lemma ReadsBelow(view: View, lim: Limits, rs: seq<Read>, anchor: NodeId, below: nat, ids: seq<NodeId>, qs: seq<Read>)
    requires Chain(view, lim, rs, anchor, below, ids, qs)
    ensures qs != [] ==> below > 1
  {
    if qs != [] {
      assert 1 <= qs[0].hop < below;
    }
  }

  lemma ReachedFirst(view: View, lim: Limits, rs: seq<Read>, anchor: NodeId, id: NodeId)
    ensures Reached(view, lim, rs, anchor, 1, id) <==> id == anchor
  {
    var none: seq<Read> := [];
    assert Chain(view, lim, rs, anchor, 1, [anchor], none) && [anchor][|none|] == anchor;
    if ids: seq<NodeId>, qs: seq<Read> :| Chain(view, lim, rs, anchor, 1, ids, qs) && ids[|qs|] == id {
      ReadsBelow(view, lim, rs, anchor, 1, ids, qs);
    }
  }

  /** A hop more: what it brings from what was there. */
  lemma ReachedMore(view: View, lim: Limits, rs: seq<Read>, anchor: NodeId, hop: nat, id: NodeId)
    requires hop >= 1
    ensures Reached(view, lim, rs, anchor, hop + 1, id) <==>
              Reached(view, lim, rs, anchor, hop, id) || exists q :: q in rs && q.hop == hop && BroughtBy(view, lim, rs, anchor, q, id)
  {
    hide Brings;
    if Reached(view, lim, rs, anchor, hop + 1, id) {
      var ids, qs :| Chain(view, lim, rs, anchor, hop + 1, ids, qs) && ids[|qs|] == id;
      ChainLess(view, lim, rs, anchor, hop, ids, qs);
    }
    if ids: seq<NodeId>, qs: seq<Read> :| Chain(view, lim, rs, anchor, hop, ids, qs) && ids[|qs|] == id {
      assert Chain(view, lim, rs, anchor, hop + 1, ids, qs);
    }
    if q :| q in rs && q.hop == hop && BroughtBy(view, lim, rs, anchor, q, id) {
      ChainMore(view, lim, rs, anchor, hop, q, id);
    }
  }

  lemma ChainMore(view: View, lim: Limits, rs: seq<Read>, anchor: NodeId, hop: nat, q: Read, id: NodeId)
    requires hop >= 1 && q in rs && q.hop == hop && BroughtBy(view, lim, rs, anchor, q, id)
    ensures Reached(view, lim, rs, anchor, hop + 1, id)
  {
    hide Brings;
    var from :| Reached(view, lim, rs, anchor, hop, from) && Brings(view, lim, anchor, q, from, id);
    var ids, qs :| Chain(view, lim, rs, anchor, hop, ids, qs) && ids[|qs|] == from;
    var ids', qs' := ids + [id], qs + [q];
    forall k | 0 <= k < |qs'|
      ensures qs'[k] in rs && 1 <= qs'[k].hop < hop + 1 && Brings(view, lim, anchor, qs'[k], ids'[k], ids'[k + 1])
    {
      assert k < |qs| ==> ids'[k + 1] == ids[k + 1];
    }
    assert Chain(view, lim, rs, anchor, hop + 1, ids', qs') && ids'[|qs'|] == id;
  }

  lemma ChainLess(view: View, lim: Limits, rs: seq<Read>, anchor: NodeId, hop: nat, ids: seq<NodeId>, qs: seq<Read>)
    requires hop >= 1 && Chain(view, lim, rs, anchor, hop + 1, ids, qs)
    ensures Reached(view, lim, rs, anchor, hop, ids[|qs|]) || exists q :: q in rs && q.hop == hop && BroughtBy(view, lim, rs, anchor, q, ids[|qs|])
  {
    hide Brings;
    Ascending(qs);
    if qs != [] && qs[|qs| - 1].hop == hop {
      var m := |qs| - 1;
      assert Chain(view, lim, rs, anchor, hop, ids[..m + 1], qs[..m]) && ids[..m + 1][|qs[..m]|] == ids[m];
      assert Brings(view, lim, anchor, qs[m], ids[m], ids[m + 1]);
      assert BroughtBy(view, lim, rs, anchor, qs[m], ids[|qs|]);
    } else {
      assert Chain(view, lim, rs, anchor, hop, ids, qs);
    }
  }

  lemma {:induction false} Ascending(qs: seq<Read>)
    requires forall k :: 0 <= k < |qs| - 1 ==> qs[k].hop < qs[k + 1].hop
    ensures forall k :: 0 <= k < |qs| - 1 ==> qs[k].hop < qs[|qs| - 1].hop
  {
    if |qs| > 1 {
      var earlier := qs[..|qs| - 1];
      assert forall k :: 0 <= k < |earlier| - 1 ==> earlier[k].hop < earlier[k + 1].hop;
      Ascending(earlier);
      assert qs[|qs| - 2].hop < qs[(|qs| - 2) + 1].hop;
    }
  }

  // ---- a context's nodes

  /** What a read fetches is what it brings from the nodes it is keyed on. */
  lemma FetchedIs(view: View, lim: Limits, anchor: NodeId, q: Read, before: View, id: NodeId)
    requires q.rel.Some? && FromView(before, view) && anchor in before
    ensures id in Fetched(view, lim, anchor.key, q, before) <==> exists from :: from in before && Brings(view, lim, anchor, q, from, id)
  {
    hide KeptKeys, IsKept;
    if q.inward {
      KeptIs(view, q, lim, anchor.key, id.key);
      IsKeptLabel(view, q, lim, anchor.key, id);
      assert Brings(view, lim, anchor, q, anchor, id) <==> id in view && IsKept(view, q, lim, anchor.key, id);
    } else {
      if id in Fetched(view, lim, anchor.key, q, before) {
        var from :| from in before && from.lb == q.via && from.key in KeysOf(before, q.via) && q.rel.value.fk in before[from]
                    && before[from][q.rel.value.fk] == id.key;
        assert Brings(view, lim, anchor, q, from, id);
      }
      if from :| from in before && Brings(view, lim, anchor, q, from, id) {
        assert from.key in KeysOf(before, q.via);
        assert id.key in Named(before, q.via, KeysOf(before, q.via), q.rel.value.fk);
      }
    }
  }

  lemma IsKeptLabel(view: View, q: Read, lim: Limits, anchor: Value, id: NodeId)
    requires q.rel.Some?
    ensures IsKept(view, q, lim, anchor, id) ==> id == NodeId(q.lb, id.key)
  {
  }

  lemma {:induction false} HopHas(view: View, lim: Limits, anchor: Value, hop: seq<Read>, before: View, c: Ctx, id: NodeId)
    requires forall q :: q in hop ==> q.rel.Some?
    ensures id in HopStep(view, lim, anchor, hop, before, c).nodes <==>
              id in c.nodes || exists q :: q in hop && id in Fetched(view, lim, anchor, q, before)
    decreases |hop|
  {
    hide Fetched, Linked, Logged;
    if hop != [] {
      HopHas(view, lim, anchor, hop[..|hop| - 1], before, c, id);
      assert hop == hop[..|hop| - 1] + [hop[|hop| - 1]];
    }
  }

  lemma {:induction false} ThroughHas(view: View, lim: Limits, rs: seq<Read>, key: Value, hop: nat, id: NodeId)
    requires LaterReadsHaveRel(rs) && NodeId(rs[0].lb, key) in view
    ensures id in Through(view, lim, rs, key, hop).nodes <==> Reached(view, lim, rs, NodeId(rs[0].lb, key), hop + 1, id)
  {
    hide Brings, Fetched, HopStep, Reached;
    var anchor := NodeId(rs[0].lb, key);
    if hop == 0 {
      ReachedFirst(view, lim, rs, anchor, id);
    } else {
      var before := Through(view, lim, rs, key, hop - 1);
      forall x
        ensures x in before.nodes <==> Reached(view, lim, rs, anchor, hop, x)
      {
        ThroughHas(view, lim, rs, key, hop - 1, x);
      }
      HopReadsHaveRel(rs, hop);
      HopHas(view, lim, key, HopReads(rs, hop), before.nodes, before, id);
      forall q | q in rs && q.hop == hop
        ensures id in Fetched(view, lim, key, q, before.nodes) <==> BroughtBy(view, lim, rs, anchor, q, id)
      {
        assert q in HopReads(rs, hop);
        FetchedIs(view, lim, anchor, q, before.nodes, id);
      }
      ReachedMore(view, lim, rs, anchor, hop, id);
    }
  }

  /** A node is in a context exactly when some chain of reads ends at it, and it is there as the target holds it. */
  lemma NodesAre(view: View, lim: Limits, rs: seq<Read>, key: Value, id: NodeId)
    requires LaterReadsHaveRel(rs)
    ensures id in Alone(view, lim, rs, key).nodes <==>
              NodeId(rs[0].lb, key) in view && exists below :: Reached(view, lim, rs, NodeId(rs[0].lb, key), below, id)
    ensures id in Alone(view, lim, rs, key).nodes ==> id in view && Alone(view, lim, rs, key).nodes[id] == view[id]
  {
    hide Brings, Through, LastHop;
    var anchor := NodeId(rs[0].lb, key);
    if anchor in view {
      var last := LastHop(rs);
      ThroughHas(view, lim, rs, key, last, id);
      if below :| Reached(view, lim, rs, anchor, below, id) {
        var ids, qs :| Chain(view, lim, rs, anchor, below, ids, qs) && ids[|qs|] == id;
        ChainWithin(view, lim, rs, anchor, below, last + 1, ids, qs);
      }
    }
  }

  lemma ChainWithin(view: View, lim: Limits, rs: seq<Read>, anchor: NodeId, below: nat, end: nat, ids: seq<NodeId>, qs: seq<Read>)
    requires Chain(view, lim, rs, anchor, below, ids, qs) && forall q :: q in rs ==> q.hop < end
    ensures Chain(view, lim, rs, anchor, end, ids, qs)
  {
    hide Brings;
  }

  // ---- a context's edges

  /** An edge of a read: between the node it was keyed on and the one it brought, the way its relationship goes. */
  ghost predicate EdgeOf(view: View, lim: Limits, rs: seq<Read>, anchor: NodeId, q: Read, from: NodeId, to: NodeId, e: Edge) {
    && Reached(view, lim, rs, anchor, q.hop, from) && Brings(view, lim, anchor, q, from, to)
    && e == if q.inward then Edge(q.rel.value.kind, to, from) else Edge(q.rel.value.kind, from, to)
  }

  ghost predicate MakesEdge(view: View, lim: Limits, rs: seq<Read>, anchor: NodeId, q: Read, e: Edge) {
    exists from, to :: EdgeOf(view, lim, rs, anchor, q, from, to, e)
  }

  lemma LinkedIs(view: View, lim: Limits, rs: seq<Read>, anchor: NodeId, q: Read, before: View, e: Edge)
    requires q.rel.Some? && FromView(before, view) && anchor in before
    requires forall id :: id in before <==> Reached(view, lim, rs, anchor, q.hop, id)
    requires q.inward ==> q.rel.value.end == anchor.lb && q.lb == q.rel.value.start
    requires !q.inward ==> q.via == q.rel.value.start && q.lb == q.rel.value.end
    ensures e in Linked(view, lim, anchor.key, q, before) <==> exists from, to :: EdgeOf(view, lim, rs, anchor, q, from, to, e)
  {
    hide KeptKeys, IsKept, Reached;
    if q.inward {
      KeptIs(view, q, lim, anchor.key, e.from.key);
      IsKeptLabel(view, q, lim, anchor.key, e.from);
      if e in Linked(view, lim, anchor.key, q, before) {
        assert e.from == NodeId(q.lb, e.from.key);
        IsKeptHere(view, q, lim, anchor.key, e.from);
        assert EdgeOf(view, lim, rs, anchor, q, anchor, e.from, e);
      }
      if from, to :| EdgeOf(view, lim, rs, anchor, q, from, to, e) {
        IsKeptLabel(view, q, lim, anchor.key, to);
      }
    } else {
      if e in Linked(view, lim, anchor.key, q, before) {
        assert e.from in before;
        assert EdgeOf(view, lim, rs, anchor, q, e.from, e.to, e);
      }
      if from, to :| EdgeOf(view, lim, rs, anchor, q, from, to, e) {
        assert from.key in KeysOf(before, q.via);
      }
    }
  }

  lemma IsKeptHere(view: View, q: Read, lim: Limits, anchor: Value, id: NodeId)
    requires q.rel.Some? && IsKept(view, q, lim, anchor, id)
    ensures id in view
  {
  }

  lemma {:induction false} HopLinks(view: View, lim: Limits, anchor: Value, hop: seq<Read>, before: View, c: Ctx, e: Edge)
    requires forall q :: q in hop ==> q.rel.Some?
    ensures e in HopStep(view, lim, anchor, hop, before, c).edges <==>
              e in c.edges || exists q :: q in hop && e in Linked(view, lim, anchor, q, before)
    decreases |hop|
  {
    hide Fetched, Linked, Logged;
    if hop != [] {
      HopLinks(view, lim, anchor, hop[..|hop| - 1], before, c, e);
      assert hop == hop[..|hop| - 1] + [hop[|hop| - 1]];
    }
  }

  lemma {:induction false} ThroughLinks(view: View, lim: Limits, rs: seq<Read>, key: Value, hop: nat, e: Edge)
    requires LaterReadsHaveRel(rs) && WellFormed(rs, rs[0].lb) && NodeId(rs[0].lb, key) in view
    ensures e in Through(view, lim, rs, key, hop).edges <==>
              exists q :: q in rs && 1 <= q.hop <= hop && MakesEdge(view, lim, rs, NodeId(rs[0].lb, key), q, e)
  {
    hide MakesEdge, Linked, HopStep, Reached, Fetches;
    var anchor := NodeId(rs[0].lb, key);
    if hop > 0 {
      ThroughLinks(view, lim, rs, key, hop - 1, e);
      var before := Through(view, lim, rs, key, hop - 1);
      forall x
        ensures x in before.nodes <==> Reached(view, lim, rs, anchor, hop, x)
      {
        ThroughHas(view, lim, rs, key, hop - 1, x);
      }
      HopReadsHaveRel(rs, hop);
      HopLinks(view, lim, key, HopReads(rs, hop), before.nodes, before, e);
      forall q | q in rs && q.hop == hop
        ensures e in Linked(view, lim, key, q, before.nodes) <==> MakesEdge(view, lim, rs, anchor, q, e)
      {
        LinkedAtHop(view, lim, rs, anchor, q, before.nodes, e);
      }
      assert e in Through(view, lim, rs, key, hop).edges <==>
          e in before.edges || exists q :: q in HopReads(rs, hop) && e in Linked(view, lim, key, q, before.nodes);
    }
  }

  lemma LinkedAtHop(view: View, lim: Limits, rs: seq<Read>, anchor: NodeId, q: Read, before: View, e: Edge)
    requires LaterReadsHaveRel(rs) && WellFormed(rs, anchor.lb) && q in rs && q.hop >= 1 && q.rel.Some?
    requires FromView(before, view) && anchor in before && forall id :: id in before <==> Reached(view, lim, rs, anchor, q.hop, id)
    ensures e in Linked(view, lim, anchor.key, q, before) <==> MakesEdge(view, lim, rs, anchor, q, e)
  {
    hide EdgeOf, Linked, Reached, Fetches;
    var i :| 0 <= i < |rs| && rs[i] == q;
    LinkedIs(view, lim, rs, anchor, q, before, e);
  }

  /** An edge is in a context exactly when some read made it. */
  lemma EdgesAre(view: View, lim: Limits, rs: seq<Read>, key: Value, e: Edge)
    requires LaterReadsHaveRel(rs) && WellFormed(rs, rs[0].lb)
    ensures e in Alone(view, lim, rs, key).edges <==>
              && NodeId(rs[0].lb, key) in view
              && exists q :: q in rs && q.hop >= 1 && MakesEdge(view, lim, rs, NodeId(rs[0].lb, key), q, e)
  {
    hide MakesEdge, Through, Fetches;
    if NodeId(rs[0].lb, key) in view {
      ThroughLinks(view, lim, rs, key, LastHop(rs), e);
    }
  }

  // ---- a context's record

  /** What a context says of one read: the keys of what earlier hops fetched of the label it is keyed on; how many it brought,
      of the facts at most the cap; and that it was cut exactly when there were more. */
  ghost predicate IsLogOf(view: View, lim: Limits, rs: seq<Read>, anchor: NodeId, x: ReadLog)
    requires x.read.rel.Some?
  {
    var q := x.read;
    && (forall k :: k in x.keys <==> Reached(view, lim, rs, anchor, q.hop, NodeId(q.via, k)))
    && if q.inward then
         var facts := |Facts(view, q, lim.since, anchor.key)|;
         x.rows == (if facts > lim.cap then lim.cap else facts) && (x.capped <==> facts > lim.cap)
       else
         !x.capped && IsCount(view, lim, rs, anchor, q, x.rows)
  }

  ghost predicate IsCount(view: View, lim: Limits, rs: seq<Read>, anchor: NodeId, q: Read, rows: nat) {
    exists ids: set<NodeId> :: |ids| == rows && forall id :: id in ids <==> BroughtBy(view, lim, rs, anchor, q, id)
  }

  lemma LoggedIs(view: View, lim: Limits, rs: seq<Read>, anchor: NodeId, q: Read, before: View)
    requires q.rel.Some? && FromView(before, view) && anchor in before
    requires forall id :: id in before <==> Reached(view, lim, rs, anchor, q.hop, id)
    ensures Logged(view, lim, anchor.key, q, before).read == q
    ensures IsLogOf(view, lim, rs, anchor, Logged(view, lim, anchor.key, q, before))
  {
    hide Reached, Fetched, InwardFacts, Facts, Brings;
    var x := Logged(view, lim, anchor.key, q, before);
    forall k
      ensures k in x.keys <==> Reached(view, lim, rs, anchor, q.hop, NodeId(q.via, k))
    {
      assert k in x.keys <==> NodeId(q.via, k) in before;
    }
    if q.inward {
      FactsAre(view, q, lim.since, anchor.key);
    } else {
      var ids := Fetched(view, lim, anchor.key, q, before).Keys;
      forall id
        ensures id in ids <==> BroughtBy(view, lim, rs, anchor, q, id)
      {
        FetchedIs(view, lim, anchor, q, before, id);
      }
      assert |ids| == x.rows;
    }
  }

  /** The reads at their places in the template: hop after hop, and in each in the template's order. */
  ghost predicate InRunOrder(rs: seq<Read>, places: seq<nat>, below: nat) {
    && (forall i :: 0 <= i < |places| ==> places[i] < |rs| && rs[places[i]].hop < below)
    && (forall i, k :: 0 <= i < k < |places| ==> RunsBefore(rs, places[i], places[k]))
    && forall n: nat :: n < |rs| && rs[n].hop < below ==> n in places
  }

  predicate RunsBefore(rs: seq<Read>, m: nat, n: nat) {
    m < |rs| && n < |rs| && (rs[m].hop < rs[n].hop || (rs[m].hop == rs[n].hop && m < n))
  }

  function HopPlaces(rs: seq<Read>, hop: nat): seq<nat> {
    if rs == [] then []
    else HopPlaces(rs[..|rs| - 1], hop) + if rs[|rs| - 1].hop == hop then [|rs| - 1] else []
  }

  /** The places of the reads, ascending. */
  ghost predicate ArePlaces(rs: seq<Read>, hop: nat, places: seq<nat>, qs: seq<Read>) {
    && |places| == |qs|
    && (forall i :: 0 <= i < |places| ==> places[i] < |rs| && rs[places[i]].hop == hop && rs[places[i]] == qs[i])
    && (forall i, k :: 0 <= i < k < |places| ==> places[i] < places[k])
  }

  lemma {:induction false} PlacesOfHop(rs: seq<Read>, hop: nat)
    ensures ArePlaces(rs, hop, HopPlaces(rs, hop), HopReads(rs, hop))
    ensures forall n: nat :: n < |rs| && rs[n].hop == hop ==> n in HopPlaces(rs, hop)
  {
    if rs != [] {
      var earlier, last := rs[..|rs| - 1], rs[|rs| - 1];
      PlacesOfHop(earlier, hop);
      PlacesMore(earlier, last, hop, HopPlaces(earlier, hop), HopReads(earlier, hop));
      assert rs == earlier + [last];
      forall n: nat | n < |rs| && rs[n].hop == hop
        ensures n in HopPlaces(rs, hop)
      {
        assert n == |rs| - 1 || earlier[n] == rs[n];
      }
    }
  }

  lemma PlacesMore(rs: seq<Read>, last: Read, hop: nat, places: seq<nat>, qs: seq<Read>)
    requires ArePlaces(rs, hop, places, qs)
    ensures ArePlaces(rs + [last], hop, places, qs)
    ensures last.hop == hop ==> ArePlaces(rs + [last], hop, places + [|rs|], qs + [last])
  {
  }

  lemma NextPlaces(rs: seq<Read>, places: seq<nat>, hop: nat)
    requires InRunOrder(rs, places, hop)
    ensures InRunOrder(rs, places + HopPlaces(rs, hop), hop + 1)
  {
    PlacesOfHop(rs, hop);
    hide HopPlaces, HopReads;
    var more := HopPlaces(rs, hop);
    var all := places + more;
    forall i, k | 0 <= i < k < |all|
      ensures RunsBefore(rs, all[i], all[k])
    {
      if i < |places| <= k {
        assert rs[places[i]].hop < hop;
      }
    }
    forall n: nat | n < |rs| && rs[n].hop < hop + 1
      ensures n in all
    {
      assert n in places || n in more;
    }
  }

  /** The log's reads are those at the places; the first is the anchor's own, and each other says what it must. */
  ghost predicate LogAt(view: View, lim: Limits, rs: seq<Read>, anchor: NodeId, log: seq<ReadLog>, places: seq<nat>) {
    && |log| == |places| && log != [] && rs != [] && log[0] == ReadLog(rs[0], {anchor.key}, 1, false)
    && (forall i :: 0 <= i < |log| ==> places[i] < |rs| && log[i].read == rs[places[i]])
    && forall i :: 1 <= i < |log| ==> log[i].read.rel.Some? && IsLogOf(view, lim, rs, anchor, log[i])
  }

  lemma {:induction false} HopLog(view: View, lim: Limits, anchor: Value, hop: seq<Read>, before: View, c: Ctx)
    requires forall q :: q in hop ==> q.rel.Some?
    ensures |HopStep(view, lim, anchor, hop, before, c).log| == |c.log| + |hop|
    ensures forall i :: 0 <= i < |c.log| ==> HopStep(view, lim, anchor, hop, before, c).log[i] == c.log[i]
    ensures forall i :: 0 <= i < |hop| ==> HopStep(view, lim, anchor, hop, before, c).log[|c.log| + i] == Logged(view, lim, anchor, hop[i], before)
    decreases |hop|
  {
    hide Fetched, Linked, Logged;
    if hop != [] {
      HopLog(view, lim, anchor, hop[..|hop| - 1], before, c);
    }
  }

  lemma {:induction false} ThroughLog(view: View, lim: Limits, rs: seq<Read>, key: Value, hop: nat) returns (places: seq<nat>)
    requires LaterReadsHaveRel(rs) && NodeId(rs[0].lb, key) in view
    ensures InRunOrder(rs, places, hop + 1) && LogAt(view, lim, rs, NodeId(rs[0].lb, key), Through(view, lim, rs, key, hop).log, places)
  {
    hide HopStep, Reached, InRunOrder, LogAt;
    var anchor := NodeId(rs[0].lb, key);
    if hop == 0 {
      places := [0];
      FirstLog(view, lim, rs, key);
    } else {
      var earlier := ThroughLog(view, lim, rs, key, hop - 1);
      var before := Through(view, lim, rs, key, hop - 1);
      forall x
        ensures x in before.nodes <==> Reached(view, lim, rs, anchor, hop, x)
      {
        ThroughHas(view, lim, rs, key, hop - 1, x);
      }
      places := earlier + HopPlaces(rs, hop);
      NextPlaces(rs, earlier, hop);
      NextLog(view, lim, rs, anchor, hop, before, earlier);
    }
  }

  lemma FirstLog(view: View, lim: Limits, rs: seq<Read>, key: Value)
    requires LaterReadsHaveRel(rs) && NodeId(rs[0].lb, key) in view
    ensures InRunOrder(rs, [0], 1) && LogAt(view, lim, rs, NodeId(rs[0].lb, key), Through(view, lim, rs, key, 0).log, [0])
  {
    var places: seq<nat> := [0];
    forall n: nat | n < |rs| && rs[n].hop < 1
      ensures n in places
    {
      assert n == 0;
    }
  }

  lemma NextLog(view: View, lim: Limits, rs: seq<Read>, anchor: NodeId, hop: nat, before: Ctx, places: seq<nat>)
    requires LaterReadsHaveRel(rs) && hop >= 1 && LogAt(view, lim, rs, anchor, before.log, places)
    requires FromView(before.nodes, view) && anchor in before.nodes
    requires forall id :: id in before.nodes <==> Reached(view, lim, rs, anchor, hop, id)
    ensures forall q :: q in HopReads(rs, hop) ==> q.rel.Some?
    ensures LogAt(view, lim, rs, anchor, HopStep(view, lim, anchor.key, HopReads(rs, hop), before.nodes, before).log, places + HopPlaces(rs, hop))
  {
    hide HopStep, Reached, Logged, IsLogOf, HopPlaces;
    var hopReads := HopReads(rs, hop);
    HopReadsHaveRel(rs, hop);
    HopLog(view, lim, anchor.key, hopReads, before.nodes, before);
    PlacesOfHop(rs, hop);
    var log, all := HopStep(view, lim, anchor.key, hopReads, before.nodes, before).log, places + HopPlaces(rs, hop);
    forall i | 0 <= i < |log|
      ensures all[i] < |rs| && log[i].read == rs[all[i]] && (i >= 1 ==> log[i].read.rel.Some? && IsLogOf(view, lim, rs, anchor, log[i]))
    {
      if i < |before.log| {
        assert log[i] == before.log[i];
      } else {
        var q := hopReads[i - |before.log|];
        assert q in hopReads && log[i] == Logged(view, lim, anchor.key, q, before.nodes);
        LoggedIs(view, lim, rs, anchor, q, before.nodes);
      }
    }
  }

  /** A context's record says of each of the template's reads, once and in the order they run, what it must. */
  lemma LogIs(view: View, lim: Limits, rs: seq<Read>, key: Value) returns (places: seq<nat>)
    requires LaterReadsHaveRel(rs)
    ensures NodeId(rs[0].lb, key) !in view ==> Alone(view, lim, rs, key).log == []
    ensures NodeId(rs[0].lb, key) in view ==>
              && LogAt(view, lim, rs, NodeId(rs[0].lb, key), Alone(view, lim, rs, key).log, places)
              && (forall i, k :: 0 <= i < k < |places| ==> RunsBefore(rs, places[i], places[k]))
              && forall n: nat :: n < |rs| ==> n in places
  {
    hide LogAt, Through;
    places := [];
    if NodeId(rs[0].lb, key) in view {
      places := ThroughLog(view, lim, rs, key, LastHop(rs));
      assert forall n: nat :: n < |rs| ==> rs[n] in rs;
    }
  }

  // ---- a built template's window

  /** No fact of a partitioned label that only its inward reads fetch is dated before the window. */
  lemma NoneBeforeWindow(s: Schema, anchor: Label, hops: nat, rs: seq<Read>, view: View, lim: Limits, key: Value, id: NodeId)
    requires s.Valid() && IsTemplate(s, anchor, hops, rs) && LaterReadsHaveRel(rs)
    requires id in Alone(view, lim, rs, key).nodes && id.lb in s.partition && id.lb != anchor
    requires forall q :: q in rs && q.lb == id.lb ==> q.inward
    ensures s.partition[id.lb] in view[id] && view[id][s.partition[id.lb]] >= lim.since
  {
    hide Alone, IsKept;
    NodesAre(view, lim, rs, key, id);
    var a := NodeId(rs[0].lb, key);
    var below :| Reached(view, lim, rs, a, below, id);
    var ids, qs :| Chain(view, lim, rs, a, below, ids, qs) && ids[|qs|] == id;
    var k := |qs| - 1;
    assert k >= 0 && Brings(view, lim, a, qs[k], ids[k], ids[k + 1]);
    KeptIsFact(view, qs[k], lim, key, id);
    var i :| 0 <= i < |rs| && rs[i] == qs[k];
    assert ReadOf(s, anchor, hops, rs[i]);
  }

  lemma KeptIsFact(view: View, q: Read, lim: Limits, anchor: Value, id: NodeId)
    requires q.rel.Some? && (q.inward ==> IsKept(view, q, lim, anchor, id)) && id in view
    ensures q.inward ==> id.lb == q.lb && (q.window.Some? ==> q.window.value in view[id] && view[id][q.window.value] >= lim.since)
  {
  }
}
