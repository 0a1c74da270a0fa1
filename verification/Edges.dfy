/** Relationships in memory. Each is a column of its start node, so memory re-derives them when it writes a
    node (out of a start node; into an end node) and keeps no other state for them. */
module Edges {
  import opened Data

  /** The relationship a node's column makes, when memory holds its end. */
  predicate Makes(nodes: View, r: Rel, a: NodeId) {
    a in nodes && a.lb == r.start && r.fk in nodes[a] && NodeId(r.end, nodes[a][r.fk]) in nodes
  }

  function EdgeOf(nodes: View, r: Rel, a: NodeId): Edge
    requires Makes(nodes, r, a)
  {
    Edge(r.kind, a, NodeId(r.end, nodes[a][r.fk]))
  }

  predicate IsMade(nodes: View, r: Rel, e: Edge) {
    Makes(nodes, r, e.from) && e == EdgeOf(nodes, r, e.from)
  }

  /** Every pair of remembered nodes whose start's column equals the end's key. */
  function Derived(nodes: View, r: Rel): (edges: set<Edge>)
    ensures forall e :: e in edges <==> IsMade(nodes, r, e)
  {
    set a | a in nodes && Makes(nodes, r, a) :: EdgeOf(nodes, r, a)
  }

  function OfKind(edges: set<Edge>, kind: nat): set<Edge> {
    set e | e in edges && e.kind == kind
  }

  /** Memory's edges of a type are exactly the ones its nodes' columns make. */
  ghost predicate IsDerived(edges: set<Edge>, nodes: View, r: Rel) {
    OfKind(edges, r.kind) == Derived(nodes, r)
  }

  /** All of memory's edges are. */
  ghost predicate AllDerived(edges: set<Edge>, nodes: View, rels: seq<Rel>) {
    && (forall r :: r in rels ==> IsDerived(edges, nodes, r))
    && forall e :: e in edges ==> exists r :: r in rels && r.kind == e.kind
  }

  // ---- one type, re-derived

  /** OUT_OF: the written start nodes' relationships of a type, replaced from their column. */
  function OutOf(edges: set<Edge>, nodes: View, r: Rel, keys: set<Value>): set<Edge> {
    (set e | e in edges && !(e.kind == r.kind && e.from.lb == r.start && e.from.key in keys))
    + (set a | a in nodes && a.key in keys && Makes(nodes, r, a) :: EdgeOf(nodes, r, a))
  }

  /** INTO: edges added to written ends, from any node whose column holds the end's key. */
  function Into(edges: set<Edge>, nodes: View, r: Rel, keys: set<Value>): set<Edge> {
    edges + (set a | a in nodes && Makes(nodes, r, a) && nodes[a][r.fk] in keys :: EdgeOf(nodes, r, a))
  }

  function Keys(ids: set<NodeId>, l: Label): set<Value> {
    set id | id in ids && id.lb == l :: id.key
  }

  predicate Holds(ids: set<NodeId>, l: Label) {
    exists id :: id in ids && id.lb == l
  }

  function RelateOne(edges: set<Edge>, nodes: View, r: Rel, written: set<NodeId>): set<Edge> {
    var out := if Holds(written, r.start) then OutOf(edges, nodes, r, Keys(written, r.start)) else edges;
    if Holds(written, r.end) then Into(out, nodes, r, Keys(written, r.end)) else out
  }

  lemma OutOfHas(edges: set<Edge>, nodes: View, r: Rel, keys: set<Value>, e: Edge)
    ensures e in OutOf(edges, nodes, r, keys) <==>
              || (e in edges && !(e.kind == r.kind && e.from.lb == r.start && e.from.key in keys))
              || (IsMade(nodes, r, e) && e.from.key in keys)
  {
  }

  lemma IntoHas(edges: set<Edge>, nodes: View, r: Rel, keys: set<Value>, e: Edge)
    ensures e in Into(edges, nodes, r, keys) <==> e in edges || (IsMade(nodes, r, e) && e.to.key in keys)
  {
  }

  lemma KeyWritten(written: set<NodeId>, id: NodeId)
    ensures id in written ==> Holds(written, id.lb)
    ensures id.key in Keys(written, id.lb) <==> id in written
  {
    if id.key in Keys(written, id.lb) {
      var w :| w in written && w.lb == id.lb && w.key == id.key;
      assert w == id;
    }
  }

  /** What one type's re-derivation leaves: every edge but those out of a written start, and the edges the
      columns make at a written end of either side. */
  lemma RelateOneHas(edges: set<Edge>, nodes: View, r: Rel, written: set<NodeId>, e: Edge)
    ensures e in RelateOne(edges, nodes, r, written) <==>
              || (e in edges && !(e.kind == r.kind && e.from.lb == r.start && e.from in written))
              || (IsMade(nodes, r, e) && (e.from in written || e.to in written))
  {
    hide OutOf, Into, Keys, Holds;
    KeyWritten(written, e.from);
    KeyWritten(written, e.to);
    OutOfHas(edges, nodes, r, Keys(written, r.start), e);
    var out := if Holds(written, r.start) then OutOf(edges, nodes, r, Keys(written, r.start)) else edges;
    IntoHas(out, nodes, r, Keys(written, r.end), e);
  }

  /** What a write leaves of the nodes it did not write. */
  ghost predicate WroteOnly(was: View, now: View, written: set<NodeId>) {
    && now.Keys == was.Keys + written
    && forall id :: id in was && id !in written ==> now[id] == was[id]
  }

  /** An edge of neither end written is made after a write exactly when it was before. */
  lemma UnwrittenMade(was: View, now: View, r: Rel, written: set<NodeId>, e: Edge)
    requires WroteOnly(was, now, written) && e.from !in written && e.to !in written
    ensures IsMade(now, r, e) <==> IsMade(was, r, e)
  {
  }

  /** Re-deriving one type for the written nodes makes it exact, whatever their columns were: a start whose
      column moved or became null loses its old relationship. */
  lemma RelateOneExact(edges: set<Edge>, was: View, now: View, r: Rel, written: set<NodeId>)
    requires WroteOnly(was, now, written)
    requires IsDerived(edges, was, r)
    ensures IsDerived(RelateOne(edges, now, r, written), now, r)
  {
    hide RelateOne, WroteOnly;
    forall e
      ensures e in OfKind(RelateOne(edges, now, r, written), r.kind) <==> e in Derived(now, r)
    {
      RelateOneHas(edges, now, r, written, e);
      assert e in edges && e.kind == r.kind <==> e in OfKind(edges, r.kind);
      if e.from !in written {
        EndWritten(edges, was, now, r, written, e);
      }
    }
  }

  /** An edge whose start was not written: made now exactly when it was made, or its end was written and its
      start's column makes it. */
  lemma EndWritten(edges: set<Edge>, was: View, now: View, r: Rel, written: set<NodeId>, e: Edge)
    requires WroteOnly(was, now, written) && e.from !in written
    ensures IsMade(was, r, e) ==> IsMade(now, r, e)
    ensures IsMade(now, r, e) ==> IsMade(was, r, e) || e.to in written
  {
    if e.to !in written {
      UnwrittenMade(was, now, r, written, e);
    }
  }

  // ---- a writer's types, re-derived

  /** A relationship type of some list is the one of that kind in another. */
  ghost predicate Agrees(rels: seq<Rel>, r: Rel) {
    forall s :: s in rels && s.kind == r.kind ==> s == r
  }

  /** The relationships of a write: every type of the writer's model in turn. */
  function RelateAll(edges: set<Edge>, nodes: View, rels: seq<Rel>, written: set<NodeId>): set<Edge> {
    if rels == [] then edges
    else RelateOne(RelateAll(edges, nodes, rels[..|rels| - 1], written), nodes, rels[|rels| - 1], written)
  }

  method Relate(edges: set<Edge>, nodes: View, rels: seq<Rel>, written: set<NodeId>) returns (related: set<Edge>)
    ensures related == RelateAll(edges, nodes, rels, written)
  {
    hide RelateOne;
    related := edges;
    var i := 0;
    while i < |rels|
      invariant i <= |rels| && related == RelateAll(edges, nodes, rels[..i], written)
    {
      assert rels[..i + 1][..i] == rels[..i];
      related := RelateOne(related, nodes, rels[i], written);
      i := i + 1;
    }
    assert rels[..i] == rels;
  }

  /** What a write leaves of an edge: of a type the writer's model has, what that type's re-derivation leaves;
      of any other, the edge as it was. */
  lemma {:induction false} RelateAllHas(edges: set<Edge>, nodes: View, rels: seq<Rel>, written: set<NodeId>, e: Edge)
    requires KindsApart(rels)
    ensures forall r :: r in rels && r.kind == e.kind ==> (e in RelateAll(edges, nodes, rels, written) <==> e in RelateOne(edges, nodes, r, written))
    ensures (forall r :: r in rels ==> r.kind != e.kind) ==> (e in RelateAll(edges, nodes, rels, written) <==> e in edges)
    decreases |rels|
  {
    hide RelateOne;
    if rels != [] {
      var n := |rels| - 1;
      var last, before := rels[n], RelateAll(edges, nodes, rels[..n], written);
      RelateAllHas(edges, nodes, rels[..n], written, e);
      assert forall r :: r in rels <==> r in rels[..n] || r == last;
      RelateOneHas(before, nodes, last, written, e);
      RelateOneHas(edges, nodes, last, written, e);
      if e.kind == last.kind {
        forall r | r in rels[..n]
          ensures r.kind != e.kind
        {
          var i :| 0 <= i < n && rels[..n][i] == r;
          assert rels[i] == r;
        }
      }
    }
  }

  /** The write leaves the type as it was: every start it wrote, or that points at an end it wrote, had the
      edge its column makes now. */
  ghost predicate Untouched(was: View, now: View, r: Rel, written: set<NodeId>) {
    forall e: Edge :: e.from in written || e.to in written ==> (IsMade(was, r, e) <==> IsMade(now, r, e))
  }

  /** A type stays derived through a write exactly when the writer's model has it, or the write leaves it as it was. */
  lemma StaysDerivedExactly(edges: set<Edge>, was: View, now: View, rels: seq<Rel>, written: set<NodeId>, r: Rel)
    requires KindsApart(rels) && Agrees(rels, r)
    requires WroteOnly(was, now, written) && IsDerived(edges, was, r)
    ensures IsDerived(RelateAll(edges, now, rels, written), now, r) <==> r in rels || Untouched(was, now, r, written)
  {
    hide RelateAll, RelateOne, WroteOnly, KindsApart, IsMade, Derived;
    var related := RelateAll(edges, now, rels, written);
    if r in rels {
      RelateOneExact(edges, was, now, r, written);
      forall e
        ensures e in OfKind(related, r.kind) <==> e in OfKind(RelateOne(edges, now, r, written), r.kind)
      {
        RelateAllHas(edges, now, rels, written, e);
      }
    } else {
      forall e
        ensures e in OfKind(related, r.kind) <==> e in OfKind(edges, r.kind)
      {
        RelateAllHas(edges, now, rels, written, e);
      }
      assert OfKind(related, r.kind) == Derived(was, r);
      UntouchedIs(was, now, r, written);
    }
  }

  lemma UntouchedIs(was: View, now: View, r: Rel, written: set<NodeId>)
    requires WroteOnly(was, now, written)
    ensures Untouched(was, now, r, written) <==> Derived(was, r) == Derived(now, r)
  {
    hide WroteOnly, IsMade;
    forall e: Edge | e.from !in written && e.to !in written
      ensures IsMade(was, r, e) <==> IsMade(now, r, e)
    {
      UnwrittenMade(was, now, r, written, e);
    }
    if Untouched(was, now, r, written) {
      forall e
        ensures e in Derived(was, r) <==> e in Derived(now, r)
      {
      }
    } else {
      var e: Edge :| (e.from in written || e.to in written) && (IsMade(was, r, e) <==> !IsMade(now, r, e));
      assert e in Derived(was, r) <==> e !in Derived(now, r);
    }
  }

  /** When every writer has the same types, all edges stay derived. */
  lemma RelateKeepsAll(edges: set<Edge>, was: View, now: View, rels: seq<Rel>, written: set<NodeId>)
    requires KindsApart(rels) && WroteOnly(was, now, written) && AllDerived(edges, was, rels)
    ensures AllDerived(RelateAll(edges, now, rels, written), now, rels)
  {
    hide RelateAll, RelateOne, WroteOnly, IsDerived;
    var related := RelateAll(edges, now, rels, written);
    forall r | r in rels
      ensures IsDerived(related, now, r)
    {
      AgreesWithItself(rels, r);
      StaysDerivedExactly(edges, was, now, rels, written, r);
    }
    forall e | e in related
      ensures exists r :: r in rels && r.kind == e.kind
    {
      RelateAllHas(edges, now, rels, written, e);
    }
  }

  lemma AgreesWithItself(rels: seq<Rel>, r: Rel)
    requires KindsApart(rels) && r in rels
    ensures Agrees(rels, r)
  {
  }

  /** A writer whose model lacks a relationship writes its end: the edge from a start already remembered is not made. */
  lemma EndWrittenWithout(edges: set<Edge>, was: View, now: View, rels: seq<Rel>, written: set<NodeId>, r: Rel, a: NodeId)
    requires KindsApart(rels) && forall s :: s in rels ==> s.kind != r.kind
    requires WroteOnly(was, now, written) && IsDerived(edges, was, r)
    requires a in was && a !in written && a.lb == r.start && r.fk in was[a]
    requires NodeId(r.end, was[a][r.fk]) in written && NodeId(r.end, was[a][r.fk]) !in was
    ensures Makes(now, r, a) && EdgeOf(now, r, a) !in RelateAll(edges, now, rels, written)
    ensures !IsDerived(RelateAll(edges, now, rels, written), now, r)
  {
    hide RelateAll;
    var e := EdgeOf(now, r, a);
    RelateAllHas(edges, now, rels, written, e);
    assert e !in OfKind(edges, r.kind);
    assert e in Derived(now, r) && e !in OfKind(RelateAll(edges, now, rels, written), r.kind);
  }

  // ---- whoever writes: what an edge needs to stay, and to be made

  /** An edge its columns still make is never lost, whatever types the writer has. */
  lemma MadeStays(edges: set<Edge>, now: View, rels: seq<Rel>, written: set<NodeId>, r: Rel, e: Edge)
    requires KindsApart(rels) && Agrees(rels, r)
    requires e in edges && IsMade(now, r, e)
    ensures e in RelateAll(edges, now, rels, written)
  {
    hide RelateAll, RelateOne, KindsApart;
    RelateAllHas(edges, now, rels, written, e);
    RelateOneHas(edges, now, r, written, e);
  }

  /** Of a type the writer has, the edges made at a node it writes are there. */
  lemma WrittenMade(edges: set<Edge>, now: View, rels: seq<Rel>, written: set<NodeId>, r: Rel, e: Edge)
    requires KindsApart(rels) && r in rels
    requires IsMade(now, r, e) && (e.from in written || e.to in written)
    ensures e in RelateAll(edges, now, rels, written)
  {
    hide RelateAll, RelateOne, KindsApart;
    RelateAllHas(edges, now, rels, written, e);
    RelateOneHas(edges, now, r, written, e);
  }

  /** No edge comes from nowhere: it was there, or its columns make it. */
  lemma NoneInvented(edges: set<Edge>, now: View, rels: seq<Rel>, written: set<NodeId>, e: Edge)
    requires KindsApart(rels) && e in RelateAll(edges, now, rels, written)
    ensures e in edges || exists r :: r in rels && IsMade(now, r, e)
  {
    hide RelateAll, RelateOne, KindsApart;
    RelateAllHas(edges, now, rels, written, e);
    if r :| r in rels && r.kind == e.kind {
      RelateOneHas(edges, now, r, written, e);
    }
  }

  // ---- a sweep

  /** DETACH DELETE: deleted nodes take their relationships with them, and no other. */
  function Detached(edges: set<Edge>, left: View): set<Edge> {
    set e | e in edges && e.from in left && e.to in left
  }

  lemma SweepKeepsDerived(edges: set<Edge>, was: View, left: View, r: Rel)
    requires IsDerived(edges, was, r)
    requires forall id :: id in left ==> id in was && left[id] == was[id]
    ensures IsDerived(Detached(edges, left), left, r)
  {
    forall e
      ensures e in OfKind(Detached(edges, left), r.kind) <==> e in Derived(left, r)
    {
      assert e in OfKind(edges, r.kind) <==> e in edges && e.kind == r.kind;
      assert IsMade(left, r, e) <==> IsMade(was, r, e) && e.from in left && e.to in left;
    }
  }

  /** Relationships have no state of their own: nodes with the same columns have the same relationships, so
      writing a context again changes none. */
  lemma EdgesFollowNodes(edges: set<Edge>, again: set<Edge>, nodes: View, rels: seq<Rel>)
    requires AllDerived(edges, nodes, rels) && AllDerived(again, nodes, rels)
    ensures edges == again
  {
    forall e
      ensures e in edges <==> e in again
    {
      if e in edges || e in again {
        var r :| r in rels && r.kind == e.kind;
        assert IsDerived(edges, nodes, r) && IsDerived(again, nodes, r);
        assert e in OfKind(edges, r.kind) <==> e in edges;
        assert e in OfKind(again, r.kind) <==> e in again;
      }
    }
  }
}
