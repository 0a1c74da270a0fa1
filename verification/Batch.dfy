/** Many anchors' contexts in one run: a read is made once, keyed on the union of what the anchors' own reads would be
    keyed on, and its rows shared out. The result is specified one anchor at a time, by Context.Alone. */
module Batch {
  import opened Data
  import opened Recency
  import opened Template
  import opened Context
  import opened PagedRead

  /** What one read of the target brought: what each anchor's share is keyed on, and the rows. */
  datatype Result = Result(read: Read, keys: map<Value, set<Value>>, ends: seq<NodeId>, facts: seq<InRow>)

  function Facts(rows: seq<InRow>): (r: seq<Fact>)
    ensures |r| == |rows|
  {
    seq(|rows|, i requires 0 <= i < |rows| => rows[i].fact)
  }

  lemma {:induction false} FactsOfOne(rows: seq<InRow>, v: Value)
    ensures Facts(Kept(rows, {v})) == Of(rows, v)
  {
    if rows != [] {
      FactsOfOne(rows[1..], v);
      if rows[0].via == v {
        assert Facts([rows[0]] + Kept(rows[1..], {v})) == [rows[0].fact] + Facts(Kept(rows[1..], {v}));
      }
    }
  }

  function IdsOf(nodes: View): set<NodeId> {
    set id | id in nodes
  }

  function KeysIn(ids: set<NodeId>, l: Label): set<Value> {
    set id | id in ids && id.lb == l :: id.key
  }

  /** A set's members, in some order, once each. */
  method Listed<T(==)>(s: set<T>) returns (r: seq<T>)
    ensures NoDup(r) && Elements(r) == s
  {
    r := [];
    var left := s;
    while left != {}
      invariant NoDup(r) && left <= s
      invariant forall x :: x in r <==> x in s && x !in left
    {
      var x :| x in left;
      r := r + [x];
      left := left - {x};
    }
  }

  ghost predicate RowsAt(rows: seq<NodeId>, view: View, l: Label, keys: set<Value>) {
    forall id :: id in rows <==> id in view && id.lb == l && id.key in keys
  }

  lemma ElementsOfSlices<T>(s: seq<T>, i: nat, j: nat)
    requires i <= j <= |s|
    ensures Elements(s[..j]) == Elements(s[..i]) + Elements(s[i..j])
  {
    assert s[..j] == s[..i] + s[i..j];
  }

  /** The rows of a label with these keys, a row per key at most, `keysPerRead` keys in a query. */
  method ByKey(view: View, l: Label, ask: seq<Value>, keysPerRead: nat) returns (rows: seq<NodeId>)
    requires keysPerRead > 0
    ensures RowsAt(rows, view, l, Elements(ask))
  {
    rows := [];
    var i := 0;
    while i < |ask|
      invariant i <= |ask|
      invariant RowsAt(rows, view, l, Elements(ask[..i]))
    {
      var next := if i + keysPerRead < |ask| then i + keysPerRead else |ask|;
      var page := OneQuery(view, l, Elements(ask[i..next]));
      ElementsOfSlices(ask, i, next);
      rows := rows + page;
      i := next;
    }
    assert ask[..i] == ask;
  }

  method OneQuery(view: View, l: Label, keys: set<Value>) returns (rows: seq<NodeId>)
    ensures RowsAt(rows, view, l, keys)
  {
    rows := Listed(set id | id in view && id.lb == l && id.key in keys);
    assert forall id :: id in rows <==> id in Elements(rows);
  }

  /** What each anchor's share of a read is keyed on. */
  function Shares(before: map<Value, View>, via: Label): map<Value, set<Value>> {
    map a | a in before :: KeysOf(before[a], via)
  }

  function Union(keys: map<Value, set<Value>>): set<Value> {
    set a, k | a in keys && k in keys[a] :: k
  }

  /** A to-one read brought every end its anchors' nodes name that was not fetched yet. */
  ghost predicate BroughtEnds(ends: seq<NodeId>, view: View, r: Read, had: View, ask: set<Value>)
    requires r.rel.Some?
  {
    && (forall id :: id in ends ==> id in view)
    && (forall k :: k in Named(view, r.via, ask, r.rel.value.fk) && NodeId(r.lb, k) in view ==>
          (NodeId(r.lb, k) in had || NodeId(r.lb, k) in ends))
  }

  /** An inward read brought each anchor enough of its own facts. */
  ghost predicate BroughtFacts(rows: seq<InRow>, view: View, lim: Limits, r: Read, ask: set<Value>)
    requires r.rel.Some?
  {
    && (forall a :: a in ask ==> Enough(Of(rows, a), ByRecency(InwardFacts(view, r, lim.since, a)), lim.cap))
    && (forall row :: row in rows ==> row.via in ask)
  }

  method ReadEnds(view: View, store: View, r: Read, ask: set<Value>, keysPerRead: nat) returns (ends: seq<NodeId>)
    requires keysPerRead > 0 && r.rel.Some?
    requires FromView(store, view)
    requires forall k :: k in ask ==> NodeId(r.via, k) in store
    ensures BroughtEnds(ends, view, r, store, ask)
  {
    var named := Named(store, r.via, ask, r.rel.value.fk);
    NamedInStore(view, store, r.via, ask, r.rel.value.fk);
    var listed := Listed(set k | k in named && NodeId(r.lb, k) !in store);
    ends := ByKey(view, r.lb, listed, keysPerRead);
  }

  /** Reading the nodes a context holds from the store reads the target's. */
  lemma NamedInStore(view: View, store: View, l: Label, keys: set<Value>, fk: Prop)
    requires FromView(store, view)
    requires forall k :: k in keys ==> NodeId(l, k) in store
    ensures Named(store, l, keys, fk) == Named(view, l, keys, fk)
  {
    forall v | v in Named(view, l, keys, fk)
      ensures v in Named(store, l, keys, fk)
    {
      var id :| id in view && id.lb == l && id.key in keys && fk in view[id] && view[id][fk] == v;
      assert NodeId(l, id.key) == id;
    }
  }

  method ReadFacts(view: View, lim: Limits, r: Read, order: seq<Value>, ask: set<Value>, keysPerRead: nat) returns (rows: seq<InRow>)
    requires keysPerRead > 0 && r.rel.Some?
    requires NoDup(order) && ask <= Elements(order)
    ensures BroughtFacts(rows, view, lim, r, ask)
  {
    var listed := Listed(ask);
    rows := ReadInward(v => ByRecency(InwardFacts(view, r, lim.since, v)), order, listed, lim.cap, keysPerRead);
  }

  lemma KeysOfIds(nodes: View, l: Label)
    ensures KeysIn(IdsOf(nodes), l) == KeysOf(nodes, l)
  {
    forall k | k in KeysOf(nodes, l)
      ensures k in KeysIn(IdsOf(nodes), l)
    {
      var id :| id in nodes && id.lb == l && id.key == k;
      assert id in IdsOf(nodes);
    }
  }

  // ---- each anchor's share of a read

  /** The facts that came for one anchor, in the read's order, cut at the cap. */
  function AbsorbFacts(store: View, lim: Limits, r: Read, mine: seq<Fact>, keys: set<Value>, anchor: Value, c: Ctx): (d: Ctx)
    requires r.rel.Some?
    ensures FromView(c.nodes, store) ==> FromView(d.nodes, store)
    ensures Grown(c.nodes, d.nodes)
  {
    var capped := |mine| > lim.cap;
    var got := Take(mine, lim.cap);
    var kept := FactKeys(Elements(got));
    Ctx(c.nodes + NodesAt(store, r.lb, kept),
        c.edges + InEdges(r.rel.value, kept, anchor),
        c.log + [ReadLog(r, keys, |got|, capped)])
  }

  /** A context after a to-one read: the rows read whose key is in a column of one of its nodes, and those nodes' edges. */
  function AbsorbEnds(store: View, r: Read, keys: set<Value>, c: Ctx): (d: Ctx)
    requires r.rel.Some?
    ensures FromView(c.nodes, store) ==> FromView(d.nodes, store)
    ensures Grown(c.nodes, d.nodes)
  {
    var rel := r.rel.value;
    var got := NodesAt(store, r.lb, Named(store, r.via, keys, rel.fk));
    var nodes := c.nodes + got;
    Ctx(nodes, c.edges + EdgesInto(store, nodes, r, keys), c.log + [ReadLog(r, keys, |got|, false)])
  }

  function EdgesInto(store: View, nodes: View, r: Read, keys: set<Value>): set<Edge>
    requires r.rel.Some?
  {
    set id | id in store && id.lb == r.via && id.key in keys && r.rel.value.fk in store[id]
             && NodeId(r.lb, store[id][r.rel.value.fk]) in nodes
      :: Edge(r.rel.value.kind, id, NodeId(r.lb, store[id][r.rel.value.fk]))
  }

  lemma NodesInStore(view: View, store: View, l: Label, keys: set<Value>)
    requires FromView(store, view)
    requires forall k :: k in keys && NodeId(l, k) in view ==> NodeId(l, k) in store
    ensures NodesAt(store, l, keys) == NodesAt(view, l, keys)
  {
    forall id | id in NodesAt(view, l, keys)
      ensures id in NodesAt(store, l, keys)
    {
      assert id == NodeId(l, id.key);
    }
  }

  /** Cutting what came for an anchor keeps what the cap keeps of all its facts. */
  lemma MineIsKept(mine: seq<Fact>, facts: set<Fact>, cap: nat)
    requires Enough(mine, ByRecency(facts), cap)
    ensures Elements(Take(mine, cap)) == TopCap(facts, cap)
    ensures |mine| > cap <==> |facts| > cap
    ensures |Take(mine, cap)| == if |facts| > cap then cap else |facts|
  {
    EnoughIsExact(mine, ByRecency(facts), cap);
    TopCapIsPrefix(facts, cap);
  }

  lemma FactsAreStep(view: View, store: View, lim: Limits, r: Read, mine: seq<Fact>, anchor: Value, before: View, c: Ctx)
    requires r.rel.Some? && r.inward && FromView(store, view)
    requires Enough(mine, ByRecency(InwardFacts(view, r, lim.since, anchor)), lim.cap)
    requires forall f :: f in mine ==> NodeId(r.lb, f.key) in store
    ensures AbsorbFacts(store, lim, r, mine, KeysOf(before, r.via), anchor, c) == ReadStep(view, lim, anchor, r, before, c)
  {
    var facts := InwardFacts(view, r, lim.since, anchor);
    MineIsKept(mine, facts, lim.cap);
    var kept := KeptKeys(view, lim, anchor, r);
    forall k | k in kept
      ensures NodeId(r.lb, k) in store
    {
      var f :| f in TopCap(facts, lim.cap) && f.key == k;
      assert f in Elements(Take(mine, lim.cap));
      assert f in mine;
    }
    NodesInStore(view, store, r.lb, kept);
  }

  lemma EndsAreStep(view: View, store: View, lim: Limits, r: Read, anchor: Value, before: View, c: Ctx)
    requires r.rel.Some? && !r.inward && r.via == r.rel.value.start && r.lb == r.rel.value.end
    requires FromView(store, view) && FromView(c.nodes, view)
    requires Grown(before, store)
    requires forall k :: k in Named(view, r.via, KeysOf(before, r.via), r.rel.value.fk) && NodeId(r.lb, k) in view
               ==> NodeId(r.lb, k) in store
    ensures AbsorbEnds(store, r, KeysOf(before, r.via), c) == ReadStep(view, lim, anchor, r, before, c)
  {
    var keys, rel := KeysOf(before, r.via), r.rel.value;
    forall k | k in keys
      ensures NodeId(r.via, k) in store
    {
      var id :| id in before && id.lb == r.via && id.key == k;
      assert id == NodeId(r.via, k);
    }
    NamedInStore(view, store, r.via, keys, rel.fk);
    var named := Named(view, r.via, keys, rel.fk);
    NodesInStore(view, store, r.lb, named);
    var nodes := c.nodes + NodesAt(view, r.lb, named);
    EdgesAgree(view, store, nodes, r, keys);
  }

  lemma EdgesAgree(view: View, store: View, nodes: View, r: Read, keys: set<Value>)
    requires r.rel.Some? && r.via == r.rel.value.start && r.lb == r.rel.value.end
    requires FromView(store, view) && FromView(nodes, view)
    requires forall k :: k in keys ==> NodeId(r.via, k) in store
    requires Grown(NodesAt(view, r.lb, Named(view, r.via, keys, r.rel.value.fk)), nodes)
    ensures EdgesInto(store, nodes, r, keys) == OutEdges(view, r.rel.value, keys)
  {
    var rel := r.rel.value;
    forall e | e in OutEdges(view, rel, keys)
      ensures e in EdgesInto(store, nodes, r, keys)
    {
      var id :| id in view && id.lb == rel.start && id.key in keys && rel.fk in view[id] && NodeId(rel.end, view[id][rel.fk]) in view
                && e == Edge(rel.kind, id, NodeId(rel.end, view[id][rel.fk]));
      assert id == NodeId(r.via, id.key);
      assert view[id][rel.fk] in Named(view, r.via, keys, rel.fk);
      assert NodeId(r.lb, view[id][rel.fk]) in nodes;
    }
  }

  lemma EndsHeld(ends: seq<NodeId>, view: View, r: Read, had: View, store: View, ask: set<Value>, keys: set<Value>)
    requires r.rel.Some? && BroughtEnds(ends, view, r, had, ask)
    requires keys <= ask && Grown(had, store) && forall id :: id in ends ==> id in store
    ensures forall k :: k in Named(view, r.via, keys, r.rel.value.fk) && NodeId(r.lb, k) in view ==> NodeId(r.lb, k) in store
  {
    assert Named(view, r.via, keys, r.rel.value.fk) <= Named(view, r.via, ask, r.rel.value.fk);
  }

  lemma FactsShare(rows: seq<InRow>, view: View, store: View, lim: Limits, r: Read, a: Value, before: View, c: Ctx)
    requires r.rel.Some? && r.inward && FromView(store, view)
    requires KeysOf(before, r.via) == {a}
    requires Enough(Of(rows, a), ByRecency(InwardFacts(view, r, lim.since, a)), lim.cap)
    requires forall row :: row in rows ==> NodeId(r.lb, row.fact.key) in store
    ensures AbsorbFacts(store, lim, r, Facts(Kept(rows, {a})), {a}, a, c) == ReadStep(view, lim, a, r, before, c)
    ensures Grown(c.nodes, AbsorbFacts(store, lim, r, Facts(Kept(rows, {a})), {a}, a, c).nodes)
  {
    FactsOfOne(rows, a);
    forall f | f in Of(rows, a)
      ensures NodeId(r.lb, f.key) in store
    {
      OfIsRow(rows, a, f);
    }
    FactsAreStep(view, store, lim, r, Of(rows, a), a, before, c);
  }

  /** The store with more of the target's rows. */
  function Stored(store: View, more: View): (now: View)
    ensures forall view :: FromView(store, view) && FromView(more, view) ==> FromView(now, view) && Grown(more, now)
    ensures Grown(store, now)
  {
    more + store
  }

  function RowsAsNodes(view: View, ids: set<NodeId>): (nodes: View)
    ensures FromView(nodes, view)
    ensures forall id :: id in ids && id in view ==> id in nodes
  {
    map id | id in ids && id in view :: view[id]
  }

  function StoredFacts(store: View, view: View, l: Label, rows: seq<InRow>): (now: View)
    requires FromView(store, view)
    ensures FromView(now, view) && Grown(store, now)
    ensures forall row :: row in rows && NodeId(l, row.fact.key) in view ==> NodeId(l, row.fact.key) in now
  {
    var ids := set row | row in rows :: NodeId(l, row.fact.key);
    assert forall row :: row in rows ==> NodeId(l, row.fact.key) in ids;
    Stored(store, RowsAsNodes(view, ids))
  }

  lemma StillHeld(nodes: View, store: View, now: View, view: View)
    requires FromView(nodes, store) && FromView(store, view) && FromView(now, view) && Grown(store, now)
    ensures FromView(nodes, now)
  {
  }

  /** Every row an inward read brought is a node of the target. */
  lemma {:induction false} RowIsFact(rows: seq<InRow>, row: InRow)
    requires row in rows
    ensures row.fact in Of(rows, row.via)
  {
    if rows[0] != row {
      assert row in rows[1..];
      RowIsFact(rows[1..], row);
    }
  }

  lemma BroughtAreNodes(rows: seq<InRow>, view: View, lim: Limits, r: Read, ask: set<Value>)
    requires r.rel.Some? && BroughtFacts(rows, view, lim, r, ask)
    ensures forall row :: row in rows ==> NodeId(r.lb, row.fact.key) in view
  {
    forall row | row in rows
      ensures NodeId(r.lb, row.fact.key) in view
    {
      RowIsFact(rows, row);
      var all := ByRecency(InwardFacts(view, r, lim.since, row.via));
      assert row.fact in all;
      assert row.fact in Elements(all);
      FactIsNode(view, r, lim.since, row.via, row.fact);
    }
  }

  lemma FactIsNode(view: View, r: Read, since: int, anchor: Value, f: Fact)
    requires r.rel.Some? && f in InwardFacts(view, r, since, anchor)
    ensures NodeId(r.lb, f.key) in view
  {
    var id :| id in view && id.lb == r.lb && id.key == f.key;
    assert id == NodeId(r.lb, f.key);
  }

  lemma {:induction false} OfIsRow(rows: seq<InRow>, v: Value, f: Fact)
    requires f in Of(rows, v)
    ensures InRow(v, f) in rows
  {
    if rows[0].via == v && rows[0].fact == f {
      assert rows[0] == InRow(v, f);
    } else {
      OfIsRow(rows[1..], v, f);
    }
  }

  lemma StillHeldAll(was: map<Value, Ctx>, store: View, now: View, view: View)
    requires forall a :: a in was ==> FromView(was[a].nodes, store)
    requires FromView(store, view) && FromView(now, view) && Grown(store, now)
    ensures forall a :: a in was ==> FromView(was[a].nodes, now)
  {
    forall a | a in was
      ensures FromView(was[a].nodes, now)
    {
      StillHeld(was[a].nodes, store, now, view);
    }
  }

  /** What a read makes of the live anchors' contexts. */
  ghost predicate Stepped(now: map<Value, Ctx>, view: View, store: View, lim: Limits, r: Read, before: map<Value, View>, was: map<Value, Ctx>)
    requires r.rel.Some? && before.Keys == was.Keys
  {
    && now.Keys == was.Keys
    && forall a :: a in was ==>
         && now[a] == ReadStep(view, lim, a, r, before[a], was[a])
         && FromView(now[a].nodes, store) && Grown(was[a].nodes, now[a].nodes)
  }

  method ShareFacts(rows: seq<InRow>, view: View, store: View, lim: Limits, r: Read, keys: map<Value, set<Value>>,
                    was: map<Value, Ctx>, ghost before: map<Value, View>)
      returns (now: map<Value, Ctx>)
    requires r.rel.Some? && r.inward && FromView(store, view)
    requires before.Keys == was.Keys && keys == Shares(before, r.via)
    requires forall a :: a in keys ==> keys[a] == {a}
    requires BroughtFacts(rows, view, lim, r, Union(keys))
    requires forall row :: row in rows ==> NodeId(r.lb, row.fact.key) in store
    requires forall a :: a in was ==> FromView(was[a].nodes, store)
    ensures Stepped(now, view, store, lim, r, before, was)
  {
    hide ReadStep, AbsorbFacts, KeysOf, Of, Kept, Facts, ByRecency, InwardFacts;
    now := map a | a in was :: AbsorbFacts(store, lim, r, Facts(Kept(rows, keys[a])), keys[a], a, was[a]);
    forall a | a in was
      ensures now[a] == ReadStep(view, lim, a, r, before[a], was[a]) && Grown(was[a].nodes, now[a].nodes)
    {
      assert a in keys[a] && a in Union(keys);
      FactsShare(rows, view, store, lim, r, a, before[a], was[a]);
    }
  }

  method ShareEnds(ends: seq<NodeId>, view: View, store: View, lim: Limits, r: Read, keys: map<Value, set<Value>>,
                   was: map<Value, Ctx>, ghost had: View, ghost before: map<Value, View>)
      returns (now: map<Value, Ctx>)
    requires r.rel.Some? && !r.inward && r.via == r.rel.value.start && r.lb == r.rel.value.end
    requires FromView(store, view)
    requires before.Keys == was.Keys && keys == Shares(before, r.via)
    requires BroughtEnds(ends, view, r, had, Union(keys))
    requires Grown(had, store) && forall id :: id in ends ==> id in store
    requires forall a :: a in was ==> FromView(was[a].nodes, store) && Grown(before[a], store)
    ensures Stepped(now, view, store, lim, r, before, was)
  {
    hide ReadStep, AbsorbEnds;
    now := map a | a in was :: AbsorbEnds(store, r, keys[a], was[a]);
    forall a | a in was
      ensures now[a] == ReadStep(view, lim, a, r, before[a], was[a]) && Grown(was[a].nodes, now[a].nodes)
    {
      UnionHas(keys, a);
      EndsHeld(ends, view, r, had, store, Union(keys), keys[a]);
      EndsAreStep(view, store, lim, r, a, before[a], was[a]);
    }
  }

  lemma UnionHas(keys: map<Value, set<Value>>, a: Value)
    requires a in keys
    ensures keys[a] <= Union(keys)
  {
    forall k | k in keys[a]
      ensures k in Union(keys)
    {
    }
  }

  lemma HopStepSnoc(view: View, lim: Limits, anchor: Value, hop: seq<Read>, i: nat, before: View, c: Ctx)
    requires i < |hop| && forall q :: q in hop ==> q.rel.Some?
    ensures HopStep(view, lim, anchor, hop[..i + 1], before, c)
            == ReadStep(view, lim, anchor, hop[i], before, HopStep(view, lim, anchor, hop[..i], before, c))
  {
    assert hop[..i + 1][..i] == hop[..i];
  }

  /** Every anchor's context after a hop's reads, each keyed on what it had before the hop. */
  ghost predicate Hopped(view: View, lim: Limits, hop: seq<Read>, before: map<Value, View>, was: map<Value, Ctx>, now: map<Value, Ctx>)
    requires forall q :: q in hop ==> q.rel.Some?
  {
    && now.Keys == was.Keys && now.Keys == before.Keys
    && forall a :: a in now ==> now[a] == HopStep(view, lim, a, hop, before[a], was[a])
  }

  lemma NoneHopped(view: View, lim: Limits, hop: seq<Read>, before: map<Value, View>, was: map<Value, Ctx>)
    requires was.Keys == before.Keys && forall q :: q in hop ==> q.rel.Some?
    ensures Hopped(view, lim, hop[..0], before, was, was)
  {
    hide ReadStep;
  }

  lemma HoppedIs(view: View, lim: Limits, hop: seq<Read>, before: map<Value, View>, was: map<Value, Ctx>, now: map<Value, Ctx>)
    requires forall q :: q in hop ==> q.rel.Some?
    requires Hopped(view, lim, hop, before, was, now)
    ensures now.Keys == was.Keys && forall a :: a in now ==> now[a] == HopStep(view, lim, a, hop, before[a], was[a])
  {
    hide HopStep;
  }

  /** One read more, for every anchor. */
  lemma HoppedOnce(view: View, lim: Limits, hop: seq<Read>, i: nat, before: map<Value, View>, was: map<Value, Ctx>, mid: map<Value, Ctx>, now: map<Value, Ctx>)
    requires i < |hop| && forall q :: q in hop ==> q.rel.Some?
    requires Hopped(view, lim, hop[..i], before, was, mid) && now.Keys == mid.Keys
    requires forall a :: a in now ==> now[a] == ReadStep(view, lim, a, hop[i], before[a], mid[a])
    ensures Hopped(view, lim, hop[..i + 1], before, was, now)
  {
    hide ReadStep, HopStep;
    forall a | a in now
      ensures now[a] == HopStep(view, lim, a, hop[..i + 1], before[a], was[a])
    {
      HopStepSnoc(view, lim, a, hop, i, before[a], was[a]);
    }
  }

  lemma IdsGrow(was: View, now: View)
    requires Grown(was, now)
    ensures IdsOf(was) + IdsOf(now) == IdsOf(now)
  {
  }

  function FirstContext(store: View, r: Read, anchor: Value): Ctx
    requires NodeId(r.lb, anchor) in store
  {
    var id := NodeId(r.lb, anchor);
    Ctx(map[id := store[id]], {}, [ReadLog(r, {anchor}, 1, false)])
  }

  /** The anchors' own rows, the anchors found, and each found one's context so far. */
  method Found(view: View, r: Read, keysPerRead: nat, anchors: set<Value>)
      returns (store: View, live: set<Value>, ctxs: map<Value, Ctx>)
    requires keysPerRead > 0
    ensures FromView(store, view)
    ensures live == set a | a in anchors && NodeId(r.lb, a) in view
    ensures ctxs.Keys == anchors
    ensures forall a :: a in anchors ==> ctxs[a] == if a in live then FirstContext(view, r, a) else Empty
    ensures forall a :: a in live ==> FromView(ctxs[a].nodes, store)
  {
    var ask := Listed(anchors);
    var rows := ByKey(view, r.lb, ask, keysPerRead);
    store := RowsAsNodes(view, Elements(rows));
    live := set a | a in anchors && NodeId(r.lb, a) in rows;
    assert forall a :: a in live ==> NodeId(r.lb, a) in store;
    ctxs := map a | a in anchors :: if a in live then FirstContext(store, r, a) else Empty;
  }

  lemma StartKeys(view: View, rs: seq<Read>, anchor: Value)
    requires |rs| > 0 && NodeId(rs[0].lb, anchor) in view
    ensures KeysOf(Start(view, rs, anchor).nodes, rs[0].lb) == {anchor}
  {
    var nodes := Start(view, rs, anchor).nodes;
    assert NodeId(rs[0].lb, anchor) in nodes;
    assert forall id :: id in nodes ==> id == NodeId(rs[0].lb, anchor);
  }

  /** The anchors' batch over one target: the warehouse as the reader may see it, or memory. */
  class Run {
    const view: View
    const rs: seq<Read>
    const lim: Limits
    const keysPerRead: nat
    const order: seq<Value>   // the order in which the target sorts the anchors' keys
    const anchors: set<Value>

    var ctxs: map<Value, Ctx>
    var live: set<Value>                       // the anchors found
    var fetched: map<Value, set<NodeId>>       // anchor -> its context's nodes
    var store: View                            // every row read, whichever anchor's read fetched it

    ghost predicate Fixed() {
      && |rs| > 0
      && WellFormed(rs, rs[0].lb)
      && LaterReadsHaveRel(rs)
      && keysPerRead > 0
      && NoDup(order) && anchors <= Elements(order)
    }

    /** What every read keeps: what is stored is the target's; a live anchor's nodes are in the store, so a
        lookup there never misses; an anchor the target lacks stays empty. */
    ghost predicate Valid()
      reads this
    {
      && Fixed()
      && ctxs.Keys == anchors && fetched.Keys == anchors
      && live == (set a | a in anchors && NodeId(rs[0].lb, a) in view)
      && FromView(store, view)
      && (forall a :: a in anchors && a !in live ==> ctxs[a] == Empty)
      && (forall a :: a in live ==> fetched[a] == IdsOf(ctxs[a].nodes) && FromView(ctxs[a].nodes, store))
    }

    constructor (view: View, rs: seq<Read>, lim: Limits, keysPerRead: nat, order: seq<Value>, anchors: set<Value>)
      requires |rs| > 0 && WellFormed(rs, rs[0].lb) && LaterReadsHaveRel(rs)
      requires keysPerRead > 0 && NoDup(order) && anchors <= Elements(order)
      ensures this.view == view && this.rs == rs && this.lim == lim && this.anchors == anchors
      ensures Fixed()
      ensures ctxs == map a | a in anchors :: Empty
      ensures live == anchors && store == map[] && fetched == map a | a in anchors :: {NodeId(rs[0].lb, a)}
    {
      this.view, this.rs, this.lim, this.keysPerRead, this.order, this.anchors := view, rs, lim, keysPerRead, order, anchors;
      ctxs := map a | a in anchors :: Empty;
      live := anchors;
      fetched := map a | a in anchors :: {NodeId(rs[0].lb, a)};
      store := map[];
    }

    /** Hop 0: the anchors' own read, by their keys; the ones found are live, the rest stay empty. */
    method FindAnchors()
      requires Fixed() && live == anchors && store == map[]
      requires ctxs == map a | a in anchors :: Empty
      requires fetched == map a | a in anchors :: {NodeId(rs[0].lb, a)}
      modifies this
      ensures Valid()
      ensures forall a :: a in live ==> ctxs[a] == Start(view, rs, a)
    {
      store, live, ctxs := Found(view, rs[0], keysPerRead, anchors);
      forall a | a in live
        ensures ctxs[a] == Start(view, rs, a)
      {
      }
    }

    /** One read of the target, for every live anchor: keyed on a copy of what each had fetched. */
    method One(r: Read) returns (res: Result)
      requires Valid()
      requires r in rs && r.hop >= 1 && r.rel.Some?
      requires r.inward ==> forall a :: a in live ==> KeysOf(ctxs[a].nodes, r.via) == {a}
      ensures res.read == r
      ensures res.keys == Shares(LiveNodes(), r.via)
      ensures if r.inward then BroughtFacts(res.facts, view, lim, r, Union(res.keys))
              else BroughtEnds(res.ends, view, r, store, Union(res.keys))
    {
      var keys := map a | a in live :: KeysIn(fetched[a], r.via);
      forall a | a in live
        ensures KeysIn(fetched[a], r.via) == KeysOf(ctxs[a].nodes, r.via)
      {
        KeysOfIds(ctxs[a].nodes, r.via);
      }
      assert keys == Shares(LiveNodes(), r.via);
      var ask := Union(keys);
      if r.inward {
        assert ask <= anchors;
        var rows := ReadFacts(view, lim, r, order, ask, keysPerRead);
        return Result(r, keys, [], rows);
      }
      forall k | k in ask
        ensures NodeId(r.via, k) in store
      {
        var a :| a in live && k in keys[a];
        assert NodeId(r.via, k) in ctxs[a].nodes;
      }
      var ends := ReadEnds(view, store, r, ask, keysPerRead);
      return Result(r, keys, ends, []);
    }

    /** An inward read's rows into the store, and each live anchor's facts into its context. */
    method AbsorbInward(res: Result, ghost before: map<Value, View>)
      requires Valid()
      requires res.read.rel.Some? && res.read.inward
      requires before.Keys == live && res.keys == Shares(before, res.read.via)
      requires forall a :: a in live ==> res.keys[a] == {a}
      requires BroughtFacts(res.facts, view, lim, res.read, Union(res.keys))
      modifies this
      ensures Valid() && live == old(live) && Grown(old(store), store)
      ensures forall a :: a in live ==> ctxs[a] == ReadStep(view, lim, a, res.read, before[a], old(ctxs[a]))
    {
      hide ReadStep, Union, BroughtFacts, StoredFacts;
      var r := res.read;
      ghost var was := store;
      BroughtAreNodes(res.facts, view, lim, r, Union(res.keys));
      store := StoredFacts(store, view, r.lb, res.facts);
      var mine := Mine();
      StillHeldAll(mine, was, store, view);
      var now := ShareFacts(res.facts, view, store, lim, r, res.keys, mine, before);
      Keep(now);
    }

    /** A to-one read's rows into the store, and each live anchor's own ends into its context. */
    method AbsorbToOne(res: Result, ghost had: View, ghost before: map<Value, View>)
      requires Valid()
      requires res.read.rel.Some? && !res.read.inward
      requires res.read.via == res.read.rel.value.start && res.read.lb == res.read.rel.value.end
      requires before.Keys == live && res.keys == Shares(before, res.read.via)
      requires BroughtEnds(res.ends, view, res.read, had, Union(res.keys))
      requires Grown(had, store)
      requires forall a :: a in live ==> Grown(before[a], store)
      modifies this
      ensures Valid() && live == old(live) && Grown(old(store), store)
      ensures forall a :: a in live ==> ctxs[a] == ReadStep(view, lim, a, res.read, before[a], old(ctxs[a]))
    {
      hide ReadStep, Union;
      var r := res.read;
      ghost var was := store;
      store := Stored(store, RowsAsNodes(view, Elements(res.ends)));
      var mine := Mine();
      StillHeldAll(mine, was, store, view);
      var now := ShareEnds(res.ends, view, store, lim, r, res.keys, mine, had, before);
      Keep(now);
    }

    function Mine(): map<Value, Ctx>
      requires live <= ctxs.Keys
      reads this
    {
      map a | a in live :: ctxs[a]
    }

    /** The live anchors' contexts, as a read left them. */
    method Keep(now: map<Value, Ctx>)
      requires Fixed() && ctxs.Keys == anchors && fetched.Keys == anchors
      requires live == (set a | a in anchors && NodeId(rs[0].lb, a) in view)
      requires FromView(store, view)
      requires forall a :: a in anchors && a !in live ==> ctxs[a] == Empty
      requires now.Keys == live
      requires forall a :: a in live ==> FromView(now[a].nodes, store) && Grown(ctxs[a].nodes, now[a].nodes)
      requires forall a :: a in live ==> fetched[a] == IdsOf(ctxs[a].nodes)
      modifies this`ctxs, this`fetched
      ensures Valid()
      ensures forall a :: a in live ==> ctxs[a] == now[a]
    {
      hide IdsOf, FromView, Fixed, Grown;
      forall a | a in live
        ensures fetched[a] + IdsOf(now[a].nodes) == IdsOf(now[a].nodes)
      {
        IdsGrow(ctxs[a].nodes, now[a].nodes);
      }
      ctxs := map a | a in anchors :: if a in live then now[a] else ctxs[a];
      fetched := map a | a in anchors :: if a in live then fetched[a] + IdsOf(now[a].nodes) else fetched[a];
    }

    /** The hop's reads of the target, each keyed on what was fetched before the hop. */
    method ReadHop(these: seq<Read>) returns (results: seq<Result>)
      requires Valid()
      requires forall q :: q in these ==> q in rs && q.hop >= 1 && q.rel.Some?
      requires forall q :: q in these && q.inward ==> forall a :: a in live ==> KeysOf(ctxs[a].nodes, q.via) == {a}
      ensures |results| == |these|
      ensures forall i :: 0 <= i < |these| ==> GoodResult(results[i], these[i], LiveNodes(), store)
    {
      hide Union;
      results := [];
      while |results| < |these|
        invariant |results| <= |these|
        invariant forall i :: 0 <= i < |results| ==> GoodResult(results[i], these[i], LiveNodes(), store)
      {
        var r := these[|results|];
        assert r in these;
        var res := One(r);
        assert GoodResult(res, r, LiveNodes(), store) by {
          var i :| 0 <= i < |rs| && rs[i] == r;
        }
        results := results + [res];
      }
    }

    /** The hop's rows shared out, a read at a time in the template's order. */
    method AbsorbHop(these: seq<Read>, results: seq<Result>)
      requires Valid()
      requires forall q :: q in these ==> q.rel.Some?
      requires |results| == |these|
      requires forall i :: 0 <= i < |these| ==> GoodResult(results[i], these[i], LiveNodes(), store)
      modifies this
      ensures Valid() && live == old(live)
      ensures forall a :: a in live ==> ctxs[a] == HopStep(view, lim, a, these, old(ctxs[a].nodes), old(ctxs[a]))
    {
      hide ReadStep, HopStep, Hopped, GoodResult, Fixed;
      ghost var before, had, was := LiveNodes(), store, Mine();
      NoneHopped(view, lim, these, before, was);
      var i := 0;
      while i < |results|
        invariant i <= |results|
        invariant Valid() && live == before.Keys && Grown(had, store)
        invariant Hopped(view, lim, these[..i], before, was, Mine())
      {
        ghost var mid := Mine();
        AbsorbOne(results[i], these[i], had, before);
        HoppedOnce(view, lim, these, i, before, was, mid, Mine());
        i := i + 1;
      }
      assert these[..i] == these;
      HoppedIs(view, lim, these, before, was, Mine());
    }

    method AbsorbOne(res: Result, ghost r: Read, ghost had: View, ghost before: map<Value, View>)
      requires Valid() && GoodResult(res, r, before, had)
      requires before.Keys == live && Grown(had, store)
      requires forall a :: a in live ==> Grown(before[a], had)
      modifies this
      ensures Valid() && live == old(live) && Grown(old(store), store)
      ensures forall a :: a in live ==> ctxs[a] == ReadStep(view, lim, a, r, before[a], old(ctxs[a]))
    {
      hide ReadStep, Union, BroughtFacts, BroughtEnds;
      if res.read.inward {
        AbsorbInward(res, before);
      } else {
        AbsorbToOne(res, had, before);
      }
    }

    /** One hop: its reads of the target first; then each read's rows shared out. */
    method Hop(hop: nat)
      requires hop >= 1 && At(hop - 1)
      modifies this
      ensures At(hop) && live == old(live)
    {
      hide HopStep, GoodResult;
      var these := HopReads(rs, hop);
      HopReadsHaveRel(rs, hop);
      KeyedOnAnchor(these, hop);
      var results := ReadHop(these);
      AbsorbHop(these, results);
    }

    ghost predicate GoodResult(res: Result, r: Read, before: map<Value, View>, had: View) {
      && res.read == r && r.rel.Some?
      && res.keys == Shares(before, r.via)
      && if r.inward then
           && BroughtFacts(res.facts, view, lim, r, Union(res.keys))
           && forall a :: a in before ==> res.keys[a] == {a}
         else
           && r.via == r.rel.value.start && r.lb == r.rel.value.end
           && BroughtEnds(res.ends, view, r, had, Union(res.keys))
    }

    /** At hop 1 an anchor's context holds the anchor alone, so an inward read is keyed on it. */
    lemma KeyedOnAnchor(these: seq<Read>, hop: nat)
      requires Valid() && hop >= 1 && these == HopReads(rs, hop)
      requires forall a :: a in live ==> ctxs[a] == Through(view, lim, rs, a, hop - 1)
      ensures forall q :: q in these && q.inward ==> forall a :: a in live ==> KeysOf(ctxs[a].nodes, q.via) == {a}
    {
      hide OneHop, KeysOf, HopReads;
      forall q, a | q in these && q.inward && a in live
        ensures KeysOf(ctxs[a].nodes, q.via) == {a}
      {
        assert q in rs && q.hop == hop;
        var i :| 0 <= i < |rs| && rs[i] == q;
        StartKeys(view, rs, a);
      }
    }

    /** Every live anchor's context is the one it gets alone, through a hop. */
    ghost predicate At(hop: nat)
      reads this
    {
      Valid() && forall a :: a in live ==> ctxs[a] == Through(view, lim, rs, a, hop)
    }

    lemma Found0()
      requires Valid() && forall a :: a in live ==> ctxs[a] == Start(view, rs, a)
      ensures At(0)
    {
      hide OneHop, Start;
    }

    lemma Done(hop: nat)
      requires At(hop) && (hop == LastHop(rs) || live == {})
      ensures ctxs == map a | a in anchors :: Alone(view, lim, rs, a)
    {
      hide Through, LastHop;
    }

    /** Every hop in turn, until none is left or no anchor was found; each anchor's context is the one it gets alone. */
    method Execute()
      requires Fixed() && live == anchors && store == map[]
      requires ctxs == map a | a in anchors :: Empty
      requires fetched == map a | a in anchors :: {NodeId(rs[0].lb, a)}
      modifies this
      ensures ctxs == map a | a in anchors :: Alone(view, lim, rs, a)
    {
      hide At, Valid, LastHop;
      FindAnchors();
      Found0();
      var hop := 0;
      while hop < LastHop(rs) && live != {}
        invariant hop <= LastHop(rs) && At(hop)
      {
        hop := hop + 1;
        Hop(hop);
      }
      Done(hop);
    }

    ghost function LiveNodes(): map<Value, View>
      requires live <= ctxs.Keys
      reads this
    {
      map a | a in live :: ctxs[a].nodes
    }
  }

  /** A run from start to end, equal for each anchor to Context.Alone of it. */
  method RunBatch(view: View, rs: seq<Read>, lim: Limits, keysPerRead: nat, order: seq<Value>, anchors: set<Value>)
      returns (ctxs: map<Value, Ctx>)
    requires |rs| > 0 && WellFormed(rs, rs[0].lb) && LaterReadsHaveRel(rs)
    requires keysPerRead > 0 && NoDup(order) && anchors <= Elements(order)
    ensures ctxs == map a | a in anchors :: Alone(view, lim, rs, a)
  {
    var run := new Run(view, rs, lim, keysPerRead, order, anchors);
    run.Execute();
    ctxs := run.ctxs;
  }

  /** The run over a single anchor. */
  method RunReads(view: View, rs: seq<Read>, lim: Limits, keysPerRead: nat, anchor: Value) returns (ctx: Ctx)
    requires |rs| > 0 && WellFormed(rs, rs[0].lb) && LaterReadsHaveRel(rs) && keysPerRead > 0
    ensures ctx == Alone(view, lim, rs, anchor)
  {
    var ctxs := RunBatch(view, rs, lim, keysPerRead, [anchor], {anchor});
    ctx := ctxs[anchor];
  }
}
