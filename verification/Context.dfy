/** One anchor's context, read on its own: what a template's reads give it over a target's nodes. This is the
    plain form a batch must agree with; the target is the warehouse as its reader may see it, or memory. */
module Context {
  import opened Options
  import opened Data
  import opened Recency
  import opened Template

  /** What one read left in a context's record: the keys it was keyed on, the rows kept, and whether the cap cut it. */
  datatype ReadLog = ReadLog(read: Read, keys: set<Value>, rows: nat, capped: bool)

  datatype Ctx = Ctx(nodes: View, edges: set<Edge>, log: seq<ReadLog>)

  const Empty := Ctx(map[], {}, [])

  function KeysOf(nodes: View, l: Label): set<Value> {
    set id | id in nodes && id.lb == l :: id.key
  }

  /** The facts of `r` that point at `anchor`, from the window's start on. */
  function InwardFacts(view: View, r: Read, since: int, anchor: Value): set<Fact>
    requires r.rel.Some?
  {
    set id | id in view && id.lb == r.lb && Points(view[id], r.rel.value.fk, anchor) && InWindow(view[id], r.window, since)
      :: Fact(DateOf(view[id], r.window), id.key)
  }

  predicate Points(row: Row, fk: Prop, key: Value) {
    fk in row && row[fk] == key
  }

  predicate InWindow(row: Row, window: Option<Prop>, since: int) {
    window.Some? ==> window.value in row && row[window.value] >= since
  }

  function DateOf(row: Row, window: Option<Prop>): int {
    if window.Some? && window.value in row then row[window.value] else 0
  }

  function FactKeys(facts: set<Fact>): set<Value> {
    set f | f in facts :: f.key
  }

  /** The nodes of a label with these keys that the target holds. */
  function NodesAt(view: View, l: Label, keys: set<Value>): View {
    map id | id in view && id.lb == l && id.key in keys :: view[id]
  }

  /** The keys that nodes of a label hold in a column. */
  function Named(nodes: View, l: Label, keys: set<Value>, fk: Prop): set<Value> {
    set id | id in nodes && id.lb == l && id.key in keys && fk in nodes[id] :: nodes[id][fk]
  }

  function OutEdges(view: View, r: Rel, keys: set<Value>): set<Edge> {
    set id | id in view && id.lb == r.start && id.key in keys && r.fk in view[id] && NodeId(r.end, view[id][r.fk]) in view
      :: Edge(r.kind, id, NodeId(r.end, view[id][r.fk]))
  }

  function InEdges(r: Rel, keys: set<Value>, anchor: Value): set<Edge> {
    set k | k in keys :: Edge(r.kind, NodeId(r.start, k), NodeId(r.end, anchor))
  }

  datatype Limits = Limits(cap: nat, since: int)

  /** A context's nodes are the target's, as the target holds them. */
  ghost predicate FromView(nodes: View, view: View) {
    forall id :: id in nodes ==> id in view && nodes[id] == view[id]
  }

  /** The facts the cap keeps of an inward read. */
  function KeptKeys(view: View, lim: Limits, anchor: Value, r: Read): set<Value>
    requires r.rel.Some?
  {
    FactKeys(TopCap(InwardFacts(view, r, lim.since, anchor), lim.cap))
  }

  /** The nodes one read fetches, keyed on the nodes the context held at the hop's start (`before`). */
  function Fetched(view: View, lim: Limits, anchor: Value, r: Read, before: View): (nodes: View)
    requires r.rel.Some?
    ensures FromView(nodes, view)
  {
    NodesAt(view, r.lb,
            if r.inward then KeptKeys(view, lim, anchor, r)
            else Named(view, r.via, KeysOf(before, r.via), r.rel.value.fk))
  }

  function Linked(view: View, lim: Limits, anchor: Value, r: Read, before: View): set<Edge>
    requires r.rel.Some?
  {
    if r.inward then InEdges(r.rel.value, KeptKeys(view, lim, anchor, r), anchor)
    else OutEdges(view, r.rel.value, KeysOf(before, r.via))
  }

  function Logged(view: View, lim: Limits, anchor: Value, r: Read, before: View): ReadLog
    requires r.rel.Some?
  {
    var keys := KeysOf(before, r.via);
    if r.inward then
      var facts := |InwardFacts(view, r, lim.since, anchor)|;
      ReadLog(r, keys, if facts > lim.cap then lim.cap else facts, facts > lim.cap)
    else
      ReadLog(r, keys, |Fetched(view, lim, anchor, r, before)|, false)
  }

  /** One read's effect on a context. */
  function ReadStep(view: View, lim: Limits, anchor: Value, r: Read, before: View, c: Ctx): Ctx
    requires r.rel.Some?
  {
    Ctx(c.nodes + Fetched(view, lim, anchor, r, before),
        c.edges + Linked(view, lim, anchor, r, before),
        c.log + [Logged(view, lim, anchor, r, before)])
  }

  /** The reads of one hop. */
  function HopReads(rs: seq<Read>, hop: nat): (r: seq<Read>)
    ensures forall q :: q in r <==> q in rs && q.hop == hop
  {
    if rs == [] then []
    else if rs[|rs| - 1].hop == hop then HopReads(rs[..|rs| - 1], hop) + [rs[|rs| - 1]]
    else HopReads(rs[..|rs| - 1], hop)
  }

  function HopStep(view: View, lim: Limits, anchor: Value, hop: seq<Read>, before: View, c: Ctx): Ctx
    requires forall q :: q in hop ==> q.rel.Some?
  {
    if hop == [] then c
    else
      var r := hop[|hop| - 1];
      ReadStep(view, lim, anchor, r, before, HopStep(view, lim, anchor, hop[..|hop| - 1], before, c))
  }

  function Start(view: View, rs: seq<Read>, anchor: Value): Ctx
    requires |rs| > 0 && NodeId(rs[0].lb, anchor) in view
  {
    var id := NodeId(rs[0].lb, anchor);
    Ctx(map[id := view[id]], {}, [ReadLog(rs[0], {anchor}, 1, false)])
  }

  predicate LaterReadsHaveRel(rs: seq<Read>) {
    |rs| > 0 && rs[0].hop == 0 && rs[0].rel.None? && forall i :: 1 <= i < |rs| ==> rs[i].rel.Some? && rs[i].hop >= 1
  }

  lemma HopReadsHaveRel(rs: seq<Read>, hop: nat)
    requires LaterReadsHaveRel(rs) && hop >= 1
    ensures forall q :: q in HopReads(rs, hop) ==> q.rel.Some?
  {
  }

  function OneHop(view: View, lim: Limits, rs: seq<Read>, anchor: Value, hop: nat, c: Ctx): (d: Ctx)
    requires LaterReadsHaveRel(rs) && hop >= 1 && FromView(c.nodes, view)
    ensures FromView(d.nodes, view) && Grown(c.nodes, d.nodes)
  {
    HopReadsHaveRel(rs, hop);
    HopFromView(view, lim, anchor, HopReads(rs, hop), c.nodes, c);
    HopStep(view, lim, anchor, HopReads(rs, hop), c.nodes, c)
  }

  /** The context through a hop: its nodes are the target's, the anchor among them. */
  function Through(view: View, lim: Limits, rs: seq<Read>, anchor: Value, hop: nat): (c: Ctx)
    requires LaterReadsHaveRel(rs) && NodeId(rs[0].lb, anchor) in view
    ensures FromView(c.nodes, view) && NodeId(rs[0].lb, anchor) in c.nodes
  {
    if hop == 0 then Start(view, rs, anchor)
    else OneHop(view, lim, rs, anchor, hop, Through(view, lim, rs, anchor, hop - 1))
  }

  function LastHop(rs: seq<Read>): (h: nat)
    ensures forall q :: q in rs ==> q.hop <= h
  {
    if rs == [] then 0
    else
      var h := LastHop(rs[1..]);
      assert rs == [rs[0]] + rs[1..];
      if rs[0].hop > h then rs[0].hop else h
  }

  /** The context an anchor gets alone: empty when the target holds no such node the reader may see. */
  function Alone(view: View, lim: Limits, rs: seq<Read>, anchor: Value): Ctx
    requires LaterReadsHaveRel(rs)
  {
    if NodeId(rs[0].lb, anchor) !in view then Empty
    else Through(view, lim, rs, anchor, LastHop(rs))
  }

  // ---- what every context keeps

  ghost predicate Grown(from: View, to: View) {
    forall id :: id in from ==> id in to
  }

  lemma StepFromView(view: View, lim: Limits, anchor: Value, r: Read, before: View, c: Ctx)
    requires r.rel.Some? && FromView(c.nodes, view)
    ensures FromView(ReadStep(view, lim, anchor, r, before, c).nodes, view)
    ensures Grown(c.nodes, ReadStep(view, lim, anchor, r, before, c).nodes)
  {
  }

  lemma {:induction false} HopFromView(view: View, lim: Limits, anchor: Value, hop: seq<Read>, before: View, c: Ctx)
    requires forall q :: q in hop ==> q.rel.Some?
    requires FromView(c.nodes, view)
    ensures FromView(HopStep(view, lim, anchor, hop, before, c).nodes, view)
    ensures Grown(c.nodes, HopStep(view, lim, anchor, hop, before, c).nodes)
  {
    if hop != [] {
      var earlier := hop[..|hop| - 1];
      HopFromView(view, lim, anchor, earlier, before, c);
      StepFromView(view, lim, anchor, hop[|hop| - 1], before, HopStep(view, lim, anchor, earlier, before, c));
    }
  }
}
