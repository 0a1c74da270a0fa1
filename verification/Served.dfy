/** One template over two views: a part of the warehouse's rows that has, whole, all that an earlier run over the warehouse
    brought, gives a later run the same nodes and edges. */
module Served {
  import opened Data
  import opened Recency
  import opened Template
  import opened Context

  /** Memory's nodes, as parts of the warehouse's: another reader may have written a node with fewer columns. */
  ghost predicate PartOf(memory: View, warehouse: View) {
    forall id :: id in memory ==> id in warehouse && Data.Within(memory[id], warehouse[id])
  }

  ghost predicate SameContent(c: Ctx, d: Ctx) {
    c.nodes == d.nodes && c.edges == d.edges
  }

  /** What a later, narrower window fetches of the warehouse is among what the earlier fetch brought. */
  lemma WindowMovesOn(w: View, r: Read, cap: nat, since0: int, since1: int, anchor: Value)
    requires r.rel.Some? && since0 <= since1
    ensures KeptKeys(w, Limits(cap, since1), anchor, r) <= KeptKeys(w, Limits(cap, since0), anchor, r)
  {
    var all := InwardFacts(w, r, since0, anchor);
    var now := InwardFacts(w, r, since1, anchor);
    if r.window.Some? {
      assert now == Since(all, since1) by {
        forall f | f in Since(all, since1)
          ensures f in now
        {
        }
      }
      TopCapOfWindow(all, since1, cap);
    } else {
      assert now == all;
    }
  }

  /** Under the cap, memory's facts are the warehouse's. */
  lemma InwardServed(w: View, m: View, r: Read, lim: Limits, anchor: Value)
    requires r.rel.Some? && PartOf(m, w)
    requires forall k :: k in KeptKeys(w, lim, anchor, r) ==> NodeId(r.lb, k) in m && m[NodeId(r.lb, k)] == w[NodeId(r.lb, k)]
    ensures KeptKeys(m, lim, anchor, r) == KeptKeys(w, lim, anchor, r)
  {
    var part := InwardFacts(m, r, lim.since, anchor);
    var whole := InwardFacts(w, r, lim.since, anchor);
    forall f | f in part
      ensures f in whole
    {
      var id :| id in m && id.lb == r.lb && Points(m[id], r.rel.value.fk, anchor) && InWindow(m[id], r.window, lim.since)
                && f == Fact(DateOf(m[id], r.window), id.key);
      assert Points(w[id], r.rel.value.fk, anchor) && InWindow(w[id], r.window, lim.since);
      assert f == Fact(DateOf(w[id], r.window), id.key);
    }
    forall f | f in TopCap(whole, lim.cap)
      ensures f in part
    {
      assert f.key in KeptKeys(w, lim, anchor, r);
      var id :| id in w && id.lb == r.lb && Points(w[id], r.rel.value.fk, anchor) && InWindow(w[id], r.window, lim.since)
                && f == Fact(DateOf(w[id], r.window), id.key);
      assert id == NodeId(r.lb, f.key);
    }
    TopCapOfPart(part, whole, lim.cap);
  }

  /** A column of nodes both hold alike names the same ends in both. */
  lemma NamedServed(w: View, m: View, before: View, l: Label, fk: Prop)
    requires forall id :: id in before ==> id in m && id in w && m[id] == w[id]
    ensures Named(m, l, KeysOf(before, l), fk) == Named(w, l, KeysOf(before, l), fk)
  {
    var keys := KeysOf(before, l);
    forall id: NodeId | id.lb == l && id.key in keys
      ensures id in m && id in w && m[id] == w[id]
    {
      var b :| b in before && b.lb == l && b.key == id.key;
      assert b == id;
    }
    forall v | v in Named(w, l, keys, fk)
      ensures v in Named(m, l, keys, fk)
    {
      var id :| id in w && id.lb == l && id.key in keys && fk in w[id] && w[id][fk] == v;
      assert id in m;
    }
    forall v | v in Named(m, l, keys, fk)
      ensures v in Named(w, l, keys, fk)
    {
      var id :| id in m && id.lb == l && id.key in keys && fk in m[id] && m[id][fk] == v;
      assert id in w;
    }
  }

  lemma NodesServed(w: View, m: View, l: Label, keys: set<Value>)
    requires PartOf(m, w)
    requires forall id :: id in NodesAt(w, l, keys) ==> id in m && m[id] == w[id]
    ensures NodesAt(m, l, keys) == NodesAt(w, l, keys)
  {
  }

  lemma NamedGrows(w: View, before: View, before0: View, l: Label, fk: Prop)
    requires Grown(before, before0)
    ensures Named(w, l, KeysOf(before, l), fk) <= Named(w, l, KeysOf(before0, l), fk)
  {
    forall k | k in KeysOf(before, l)
      ensures k in KeysOf(before0, l)
    {
      var id :| id in before && id.lb == l && id.key == k;
      assert id in before0;
    }
  }

  lemma NodesGrow(w: View, l: Label, keys: set<Value>, more: set<Value>)
    requires keys <= more
    ensures Grown(NodesAt(w, l, keys), NodesAt(w, l, more))
  {
  }

  ghost predicate Alike(nodes: View, m: View, w: View) {
    forall id :: id in nodes ==> id in m && id in w && m[id] == w[id]
  }

  lemma KeptAreFetched(w: View, lim: Limits, anchor: Value, r: Read, before: View)
    requires r.rel.Some? && r.inward
    ensures forall k :: k in KeptKeys(w, lim, anchor, r) ==> NodeId(r.lb, k) in Fetched(w, lim, anchor, r, before)
  {
    forall k | k in KeptKeys(w, lim, anchor, r)
      ensures NodeId(r.lb, k) in w
    {
      var f :| f in TopCap(InwardFacts(w, r, lim.since, anchor), lim.cap) && f.key == k;
      var id :| id in w && id.lb == r.lb && id.key == f.key;
      assert id == NodeId(r.lb, k);
    }
  }

  /** One read: keyed alike, memory and the warehouse give the same nodes and edges, all among what the
      earlier fetch (from `before0`, under the earlier window) brought. */
  lemma ReadServed(w: View, m: View, r: Read, cap: nat, since0: int, since1: int, anchor: Value, before: View, before0: View)
    requires r.rel.Some? && since0 <= since1 && PartOf(m, w)
    requires !r.inward ==> r.via == r.rel.value.start && r.lb == r.rel.value.end
    requires Grown(before, before0) && Alike(before, m, w)
    requires Alike(Fetched(w, Limits(cap, since0), anchor, r, before0), m, w)
    ensures Fetched(m, Limits(cap, since1), anchor, r, before) == Fetched(w, Limits(cap, since1), anchor, r, before)
    ensures Linked(m, Limits(cap, since1), anchor, r, before) == Linked(w, Limits(cap, since1), anchor, r, before)
    ensures Grown(Fetched(w, Limits(cap, since1), anchor, r, before), Fetched(w, Limits(cap, since0), anchor, r, before0))
  {
    hide KeptKeys, Named, KeysOf, OutEdges, InEdges;
    var lim0, lim1 := Limits(cap, since0), Limits(cap, since1);
    if r.inward {
      WindowMovesOn(w, r, cap, since0, since1, anchor);
      KeptAreFetched(w, lim0, anchor, r, before0);
      InwardServed(w, m, r, lim1, anchor);
      NodesGrow(w, r.lb, KeptKeys(w, lim1, anchor, r), KeptKeys(w, lim0, anchor, r));
      NodesServed(w, m, r.lb, KeptKeys(w, lim1, anchor, r));
    } else {
      var fk := r.rel.value.fk;
      NamedServed(w, m, before, r.via, fk);
      NamedGrows(w, before, before0, r.via, fk);
      var named := Named(w, r.via, KeysOf(before, r.via), fk);
      NodesGrow(w, r.lb, named, Named(w, r.via, KeysOf(before0, r.via), fk));
      NodesServed(w, m, r.lb, named);
      EdgesServed(w, m, r, before);
    }
  }

  lemma EdgesServed(w: View, m: View, r: Read, before: View)
    requires r.rel.Some? && r.via == r.rel.value.start && r.lb == r.rel.value.end
    requires PartOf(m, w) && Alike(before, m, w)
    requires Alike(NodesAt(w, r.lb, Named(w, r.via, KeysOf(before, r.via), r.rel.value.fk)), m, w)
    ensures OutEdges(m, r.rel.value, KeysOf(before, r.via)) == OutEdges(w, r.rel.value, KeysOf(before, r.via))
  {
    var keys, rel := KeysOf(before, r.via), r.rel.value;
    forall id: NodeId | id.lb == r.via && id.key in keys
      ensures id in m && id in w && m[id] == w[id]
    {
      var b :| b in before && b.lb == r.via && b.key == id.key;
      assert b == id;
    }
    forall id | id in w && id.lb == rel.start && id.key in keys && rel.fk in w[id] && NodeId(rel.end, w[id][rel.fk]) in w
      ensures NodeId(rel.end, w[id][rel.fk]) in m
    {
      assert w[id][rel.fk] in Named(w, r.via, keys, rel.fk);
    }
  }

  ghost predicate WellFormedHop(hop: seq<Read>) {
    forall q :: q in hop ==> q.rel.Some? && (!q.inward ==> q.via == q.rel.value.start && q.lb == q.rel.value.end)
  }

  /** What one read fetched stays in the hop's context. */
  lemma {:induction false} HopHolds(view: View, lim: Limits, anchor: Value, hop: seq<Read>, before: View, c: Ctx, i: nat)
    requires WellFormedHop(hop) && i < |hop|
    requires FromView(c.nodes, view)
    ensures Grown(Fetched(view, lim, anchor, hop[i], before), HopStep(view, lim, anchor, hop, before, c).nodes)
    decreases hop
  {
    hide Fetched, Linked, Logged;
    var n := |hop| - 1;
    if i < n {
      HopHolds(view, lim, anchor, hop[..n], before, c, i);
    }
  }

  lemma {:induction false} HopServed(w: View, m: View, hop: seq<Read>, cap: nat, since0: int, since1: int, anchor: Value,
                                    before: View, before0: View, cm: Ctx, cw: Ctx, c0: Ctx)
    requires WellFormedHop(hop) && since0 <= since1 && PartOf(m, w)
    requires Grown(before, before0) && Alike(before, m, w)
    requires SameContent(cm, cw) && Grown(cw.nodes, c0.nodes)
    requires forall i :: 0 <= i < |hop| ==> Alike(Fetched(w, Limits(cap, since0), anchor, hop[i], before0), m, w)
    ensures SameContent(HopStep(m, Limits(cap, since1), anchor, hop, before, cm), HopStep(w, Limits(cap, since1), anchor, hop, before, cw))
    ensures Grown(HopStep(w, Limits(cap, since1), anchor, hop, before, cw).nodes, HopStep(w, Limits(cap, since0), anchor, hop, before0, c0).nodes)
    decreases hop
  {
    hide Fetched, Linked, Logged;
    if hop != [] {
      var n := |hop| - 1;
      assert hop[n] in hop;
      HopServed(w, m, hop[..n], cap, since0, since1, anchor, before, before0, cm, cw, c0);
      ReadServed(w, m, hop[n], cap, since0, since1, anchor, before, before0);
    }
  }

  ghost predicate WellFormedReads(rs: seq<Read>) {
    && LaterReadsHaveRel(rs)
    && forall q :: q in rs && q.rel.Some? && !q.inward ==> q.via == q.rel.value.start && q.lb == q.rel.value.end
  }

  lemma {:induction false} ThroughGrows(view: View, lim: Limits, rs: seq<Read>, anchor: Value, i: nat, j: nat)
    requires LaterReadsHaveRel(rs) && NodeId(rs[0].lb, anchor) in view && i <= j
    ensures Grown(Through(view, lim, rs, anchor, i).nodes, Through(view, lim, rs, anchor, j).nodes)
  {
    hide OneHop;
    if i < j {
      ThroughGrows(view, lim, rs, anchor, i, j - 1);
    }
  }

  /** Memory's reading, through a hop, is the warehouse's, within what the earlier fetch brought by then. */
  ghost predicate ServedThrough(w: View, m: View, rs: seq<Read>, cap: nat, since0: int, since1: int, anchor: Value, hop: nat)
    requires LaterReadsHaveRel(rs) && NodeId(rs[0].lb, anchor) in w && NodeId(rs[0].lb, anchor) in m
  {
    && SameContent(Through(m, Limits(cap, since1), rs, anchor, hop), Through(w, Limits(cap, since1), rs, anchor, hop))
    && Grown(Through(w, Limits(cap, since1), rs, anchor, hop).nodes, Through(w, Limits(cap, since0), rs, anchor, hop).nodes)
  }

  lemma ServedAtStart(w: View, m: View, rs: seq<Read>, cap: nat, since0: int, since1: int, anchor: Value)
    requires LaterReadsHaveRel(rs) && NodeId(rs[0].lb, anchor) in w && NodeId(rs[0].lb, anchor) in m
    requires m[NodeId(rs[0].lb, anchor)] == w[NodeId(rs[0].lb, anchor)]
    ensures ServedThrough(w, m, rs, cap, since0, since1, anchor, 0)
  {
    hide OneHop;
  }

  lemma ServedNext(w: View, m: View, rs: seq<Read>, cap: nat, since0: int, since1: int, anchor: Value, hop: nat)
    requires WellFormedReads(rs) && since0 <= since1 && PartOf(m, w) && hop >= 1
    requires NodeId(rs[0].lb, anchor) in w && NodeId(rs[0].lb, anchor) in m
    requires ServedThrough(w, m, rs, cap, since0, since1, anchor, hop - 1)
    requires Alike(Through(w, Limits(cap, since0), rs, anchor, hop).nodes, m, w)
    ensures ServedThrough(w, m, rs, cap, since0, since1, anchor, hop)
  {
    hide OneHop;
    var lim0, lim1 := Limits(cap, since0), Limits(cap, since1);
    OneHopServed(w, m, rs, cap, since0, since1, anchor, hop, Through(m, lim1, rs, anchor, hop - 1),
                 Through(w, lim1, rs, anchor, hop - 1), Through(w, lim0, rs, anchor, hop - 1));
  }

  /** Hop by hop: memory's reading is the warehouse's, within what the earlier fetch brought. */
  lemma {:induction false} ThroughServed(w: View, m: View, rs: seq<Read>, cap: nat, since0: int, since1: int, anchor: Value, hop: nat, last: nat)
    requires WellFormedReads(rs) && since0 <= since1 && PartOf(m, w) && hop <= last
    requires NodeId(rs[0].lb, anchor) in w && NodeId(rs[0].lb, anchor) in m
    requires Alike(Through(w, Limits(cap, since0), rs, anchor, last).nodes, m, w)
    ensures ServedThrough(w, m, rs, cap, since0, since1, anchor, hop)
    decreases hop
  {
    hide Through, ServedThrough;
    if hop == 0 {
      ServedAtStart(w, m, rs, cap, since0, since1, anchor);
    } else {
      ThroughServed(w, m, rs, cap, since0, since1, anchor, hop - 1, last);
      ThroughGrows(w, Limits(cap, since0), rs, anchor, hop, last);
      ServedNext(w, m, rs, cap, since0, since1, anchor, hop);
    }
  }

  lemma OneHopServed(w: View, m: View, rs: seq<Read>, cap: nat, since0: int, since1: int, anchor: Value, hop: nat, cm: Ctx, cw: Ctx, c0: Ctx)
    requires WellFormedReads(rs) && since0 <= since1 && PartOf(m, w) && hop >= 1
    requires FromView(cm.nodes, m) && FromView(cw.nodes, w) && FromView(c0.nodes, w)
    requires SameContent(cm, cw) && Grown(cw.nodes, c0.nodes)
    requires Alike(OneHop(w, Limits(cap, since0), rs, anchor, hop, c0).nodes, m, w)
    ensures SameContent(OneHop(m, Limits(cap, since1), rs, anchor, hop, cm), OneHop(w, Limits(cap, since1), rs, anchor, hop, cw))
    ensures Grown(OneHop(w, Limits(cap, since1), rs, anchor, hop, cw).nodes, OneHop(w, Limits(cap, since0), rs, anchor, hop, c0).nodes)
  {
    hide HopStep, HopReads, Fetched;
    var lim0 := Limits(cap, since0);
    var these := HopReads(rs, hop);
    HopReadsHaveRel(rs, hop);
    assert WellFormedHop(these);
    forall i | 0 <= i < |these|
      ensures Alike(Fetched(w, lim0, anchor, these[i], c0.nodes), m, w)
    {
      HopHolds(w, lim0, anchor, these, c0.nodes, c0, i);
    }
    HopServed(w, m, these, cap, since0, since1, anchor, cw.nodes, c0.nodes, cm, cw, c0);
  }

  /** If memory holds, whole, every node a fetch of this context brought, then reading memory now gives the
      nodes and edges the warehouse would: capped reads, partial rows of other contexts and a window that has
      moved on since included. */
  lemma ServedExactly(w: View, m: View, rs: seq<Read>, cap: nat, since0: int, since1: int, anchor: Value)
    requires WellFormedReads(rs) && since0 <= since1 && PartOf(m, w)
    requires NodeId(rs[0].lb, anchor) in w
    requires Alike(Alone(w, Limits(cap, since0), rs, anchor).nodes, m, w)
    ensures SameContent(Alone(m, Limits(cap, since1), rs, anchor), Alone(w, Limits(cap, since1), rs, anchor))
    ensures Grown(Alone(w, Limits(cap, since1), rs, anchor).nodes, Alone(w, Limits(cap, since0), rs, anchor).nodes)
  {
    hide Through, LastHop;
    var last := LastHop(rs);
    assert NodeId(rs[0].lb, anchor) in Through(w, Limits(cap, since0), rs, anchor, last).nodes;
    ThroughServed(w, m, rs, cap, since0, since1, anchor, last, last);
  }
}
