/** Which read brought a node into a context: every node but the anchor came of one of the template's reads,
    and whatever a read fetched is there. */
module Provenance {
  import opened Data
  import opened Recency
  import opened Template
  import opened Context
  import opened Served

  /** The nodes the context held when `q`'s hop began. */
  function Before(view: View, lim: Limits, rs: seq<Read>, anchor: Value, q: Read): View
    requires LaterReadsHaveRel(rs) && NodeId(rs[0].lb, anchor) in view && q.hop >= 1
  {
    Through(view, lim, rs, anchor, q.hop - 1).nodes
  }

  function FetchedBy(view: View, lim: Limits, rs: seq<Read>, anchor: Value, q: Read): View
    requires LaterReadsHaveRel(rs) && NodeId(rs[0].lb, anchor) in view && q.hop >= 1 && q.rel.Some?
  {
    Fetched(view, lim, anchor, q, Before(view, lim, rs, anchor, q))
  }

  lemma {:induction false} HopLogs(view: View, lim: Limits, anchor: Value, hop: seq<Read>, before: View, c: Ctx, i: nat)
    requires WellFormedHop(hop) && i < |hop|
    ensures Logged(view, lim, anchor, hop[i], before) in HopStep(view, lim, anchor, hop, before, c).log
    decreases hop
  {
    hide Fetched, Linked, Logged;
    var n := |hop| - 1;
    var earlier := HopStep(view, lim, anchor, hop[..n], before, c);
    var last := Logged(view, lim, anchor, hop[n], before);
    assert HopStep(view, lim, anchor, hop, before, c).log == earlier.log + [last];
    if i < n {
      HopLogs(view, lim, anchor, hop[..n], before, c, i);
    } else {
      assert (earlier.log + [last])[|earlier.log|] == last;
    }
  }

  lemma {:induction false} LogsGrow(view: View, lim: Limits, anchor: Value, hop: seq<Read>, before: View, c: Ctx, x: ReadLog)
    requires WellFormedHop(hop) && x in c.log
    ensures x in HopStep(view, lim, anchor, hop, before, c).log
    decreases hop
  {
    hide Fetched, Linked, Logged;
    if hop != [] {
      LogsGrow(view, lim, anchor, hop[..|hop| - 1], before, c, x);
    }
  }

  lemma {:induction false} LogStays(view: View, lim: Limits, rs: seq<Read>, anchor: Value, x: ReadLog, i: nat, j: nat)
    requires WellFormedReads(rs) && NodeId(rs[0].lb, anchor) in view && i <= j
    requires x in Through(view, lim, rs, anchor, i).log
    ensures x in Through(view, lim, rs, anchor, j).log
    decreases j
  {
    hide HopStep, HopReads;
    if i < j {
      LogStays(view, lim, rs, anchor, x, i, j - 1);
      HopReadsHaveRel(rs, j);
      var c := Through(view, lim, rs, anchor, j - 1);
      LogsGrow(view, lim, anchor, HopReads(rs, j), c.nodes, c, x);
    }
  }

  /** What a read of the template fetched is in the context, and its log entry too. */
  lemma ReadIsIn(view: View, lim: Limits, rs: seq<Read>, anchor: Value, q: Read)
    requires WellFormedReads(rs) && NodeId(rs[0].lb, anchor) in view
    requires q in rs && q.hop >= 1 && q.rel.Some?
    ensures Grown(FetchedBy(view, lim, rs, anchor, q), Alone(view, lim, rs, anchor).nodes)
    ensures Logged(view, lim, anchor, q, Before(view, lim, rs, anchor, q)) in Alone(view, lim, rs, anchor).log
  {
    hide HopStep, HopReads, LastHop, Fetched, Logged;
    var these, c := HopReads(rs, q.hop), Through(view, lim, rs, anchor, q.hop - 1);
    HopReadsHaveRel(rs, q.hop);
    assert q in these;
    var i :| 0 <= i < |these| && these[i] == q;
    HopHolds(view, lim, anchor, these, c.nodes, c, i);
    HopLogs(view, lim, anchor, these, c.nodes, c, i);
    assert HopStep(view, lim, anchor, these, c.nodes, c) == Through(view, lim, rs, anchor, q.hop);
    assert q.hop <= LastHop(rs);
    ThroughGrows(view, lim, rs, anchor, q.hop, LastHop(rs));
    LogStays(view, lim, rs, anchor, Logged(view, lim, anchor, q, c.nodes), q.hop, LastHop(rs));
  }

  lemma {:induction false} HopNodeFrom(view: View, lim: Limits, anchor: Value, hop: seq<Read>, before: View, c: Ctx, id: NodeId)
    requires WellFormedHop(hop)
    requires id in HopStep(view, lim, anchor, hop, before, c).nodes && id !in c.nodes
    ensures exists q :: q in hop && q.rel.Some? && id in Fetched(view, lim, anchor, q, before)
    decreases hop
  {
    hide Fetched, Linked, Logged;
    var n := |hop| - 1;
    if id !in Fetched(view, lim, anchor, hop[n], before) {
      HopNodeFrom(view, lim, anchor, hop[..n], before, c, id);
    } else {
      assert hop[n] in hop;
    }
  }

  /** Every node of a context is its anchor, or came of a read. */
  lemma {:induction false} NodeFrom(view: View, lim: Limits, rs: seq<Read>, anchor: Value, hop: nat, id: NodeId)
    requires WellFormedReads(rs) && NodeId(rs[0].lb, anchor) in view
    requires id in Through(view, lim, rs, anchor, hop).nodes && id != NodeId(rs[0].lb, anchor)
    ensures exists q :: q in rs && q.rel.Some? && 1 <= q.hop <= hop && id in FetchedBy(view, lim, rs, anchor, q)
    decreases hop
  {
    hide HopStep, HopReads, Fetched;
    if hop > 0 {
      var c := Through(view, lim, rs, anchor, hop - 1);
      if id in c.nodes {
        NodeFrom(view, lim, rs, anchor, hop - 1, id);
      } else {
        HopReadsHaveRel(rs, hop);
        HopNodeFrom(view, lim, anchor, HopReads(rs, hop), c.nodes, c, id);
        var q :| q in HopReads(rs, hop) && q.rel.Some? && id in Fetched(view, lim, anchor, q, c.nodes);
        assert id in FetchedBy(view, lim, rs, anchor, q);
      }
    }
  }

  /** Each label is fetched by one read of the template (the anchor's own among them). */
  ghost predicate OneReadPerLabel(rs: seq<Read>) {
    forall p, q :: p in rs && q in rs && p.lb == q.lb ==> p == q
  }

  /** So a node of a label some later read fetches came of that read, and was there when its hop was over. */
  lemma NodeOfLabel(view: View, lim: Limits, rs: seq<Read>, anchor: Value, q: Read, id: NodeId)
    requires WellFormedReads(rs) && NodeId(rs[0].lb, anchor) in view && OneReadPerLabel(rs)
    requires q in rs && q.hop >= 1 && q.rel.Some? && id.lb == q.lb
    requires id in Alone(view, lim, rs, anchor).nodes
    ensures id in FetchedBy(view, lim, rs, anchor, q)
    ensures id in Through(view, lim, rs, anchor, q.hop).nodes
  {
    hide HopStep, HopReads, LastHop;
    assert rs[0] in rs;
    NodeFrom(view, lim, rs, anchor, LastHop(rs), id);
    var p :| p in rs && p.rel.Some? && 1 <= p.hop <= LastHop(rs) && id in FetchedBy(view, lim, rs, anchor, p);
    assert id.lb == p.lb;
    ReadThrough(view, lim, rs, anchor, q);
  }

  lemma ReadThrough(view: View, lim: Limits, rs: seq<Read>, anchor: Value, q: Read)
    requires WellFormedReads(rs) && NodeId(rs[0].lb, anchor) in view
    requires q in rs && q.hop >= 1 && q.rel.Some?
    ensures Grown(FetchedBy(view, lim, rs, anchor, q), Through(view, lim, rs, anchor, q.hop).nodes)
  {
    hide HopStep, HopReads, Fetched;
    var these, c := HopReads(rs, q.hop), Through(view, lim, rs, anchor, q.hop - 1);
    HopReadsHaveRel(rs, q.hop);
    assert q in these;
    var i :| 0 <= i < |these| && these[i] == q;
    HopHolds(view, lim, anchor, these, c.nodes, c, i);
    assert HopStep(view, lim, anchor, these, c.nodes, c) == Through(view, lim, rs, anchor, q.hop);
  }

  lemma AnchorOfLabel(view: View, lim: Limits, rs: seq<Read>, anchor: Value, id: NodeId)
    requires WellFormedReads(rs) && NodeId(rs[0].lb, anchor) in view
    requires forall q :: q in rs && q.rel.Some? ==> q.lb != rs[0].lb
    requires id.lb == rs[0].lb && id in Alone(view, lim, rs, anchor).nodes
    ensures id == NodeId(rs[0].lb, anchor)
  {
    hide HopStep, HopReads, LastHop;
    if id != NodeId(rs[0].lb, anchor) {
      NodeFrom(view, lim, rs, anchor, LastHop(rs), id);
    }
  }

  // ---- what a context holds of each kind of read

  /** An inward read the cap did not cut brought every fact in its window. */
  lemma InwardComplete(view: View, lim: Limits, rs: seq<Read>, anchor: Value, q: Read, id: NodeId)
    requires WellFormedReads(rs) && NodeId(rs[0].lb, anchor) in view
    requires q in rs && q.hop >= 1 && q.rel.Some? && q.inward
    requires forall x :: x in Alone(view, lim, rs, anchor).log && x.read == q ==> !x.capped
    requires id in view && id.lb == q.lb && Points(view[id], q.rel.value.fk, anchor) && InWindow(view[id], q.window, lim.since)
    ensures id in Alone(view, lim, rs, anchor).nodes
  {
    hide Alone, Through;
    ReadIsIn(view, lim, rs, anchor, q);
    var facts := InwardFacts(view, q, lim.since, anchor);
    assert Logged(view, lim, anchor, q, Before(view, lim, rs, anchor, q)).read == q;
    TopCapAll(facts, lim.cap);
    assert Fact(DateOf(view[id], q.window), id.key) in facts;
    assert id.key in KeptKeys(view, lim, anchor, q);
    assert id in FetchedBy(view, lim, rs, anchor, q);
  }

  /** A fact an inward read brought points at the anchor, and is in the window. */
  lemma InwardPoints(view: View, lim: Limits, rs: seq<Read>, anchor: Value, q: Read, id: NodeId)
    requires WellFormedReads(rs) && NodeId(rs[0].lb, anchor) in view && OneReadPerLabel(rs)
    requires q in rs && q.hop >= 1 && q.rel.Some? && q.inward && id.lb == q.lb
    requires id in Alone(view, lim, rs, anchor).nodes
    ensures id in view && Points(view[id], q.rel.value.fk, anchor) && InWindow(view[id], q.window, lim.since)
  {
    hide Alone, Through;
    NodeOfLabel(view, lim, rs, anchor, q, id);
    assert id.key in KeptKeys(view, lim, anchor, q);
    var f :| f in TopCap(InwardFacts(view, q, lim.since, anchor), lim.cap) && f.key == id.key;
    var x :| x in view && x.lb == q.lb && Points(view[x], q.rel.value.fk, anchor) && InWindow(view[x], q.window, lim.since) && x.key == f.key;
    assert x == id;
  }

  /** A to-one read brought the end every node of its start label points at. */
  lemma ToOneComplete(view: View, lim: Limits, rs: seq<Read>, anchor: Value, q: Read, id: NodeId)
    requires WellFormedReads(rs) && WellFormed(rs, rs[0].lb) && NodeId(rs[0].lb, anchor) in view && OneReadPerLabel(rs)
    requires q in rs && q.hop >= 1 && q.rel.Some? && !q.inward
    requires id in Alone(view, lim, rs, anchor).nodes && id.lb == q.via
    requires id in view && q.rel.value.fk in view[id] && NodeId(q.lb, view[id][q.rel.value.fk]) in view
    ensures NodeId(q.lb, view[id][q.rel.value.fk]) in Alone(view, lim, rs, anchor).nodes
  {
    hide Alone, Through;
    ReadIsIn(view, lim, rs, anchor, q);
    HeldBefore(view, lim, rs, anchor, q, id);
    var before := Before(view, lim, rs, anchor, q);
    assert id.key in KeysOf(before, q.via);
    assert view[id][q.rel.value.fk] in Named(view, q.via, KeysOf(before, q.via), q.rel.value.fk);
    assert NodeId(q.lb, view[id][q.rel.value.fk]) in FetchedBy(view, lim, rs, anchor, q);
  }

  /** A to-one read is keyed on every node of its start label: they were all fetched a hop earlier. */
  lemma HeldBefore(view: View, lim: Limits, rs: seq<Read>, anchor: Value, q: Read, id: NodeId)
    requires WellFormedReads(rs) && WellFormed(rs, rs[0].lb) && NodeId(rs[0].lb, anchor) in view && OneReadPerLabel(rs)
    requires q in rs && q.hop >= 1 && q.rel.Some? && !q.inward
    requires id in Alone(view, lim, rs, anchor).nodes && id.lb == q.via
    ensures id in Before(view, lim, rs, anchor, q)
  {
    hide Alone, OneHop;
    var i :| 0 <= i < |rs| && rs[i] == q;
    assert Fetches(rs, q.hop - 1, q.via);
    var p :| p in rs && p.hop == q.hop - 1 && p.lb == q.via;
    if p.hop == 0 {
      var j :| 0 <= j < |rs| && rs[j] == p;
      AnchorOfLabel(view, lim, rs, anchor, id);
    } else {
      NodeOfLabel(view, lim, rs, anchor, p, id);
    }
  }
}
