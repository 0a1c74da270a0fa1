/** When the memory route says yes, the match over guarded memory binds exactly the rows the same match binds
    over the warehouse. */
module Answered {
  import opened Options
  import opened Data
  import opened Template
  import opened Context
  import opened Served
  import opened Provenance
  import opened Answerable

  /** One question's setting: the warehouse and memory as the reader may read them, and the context held. */
  datatype Setting = Setting(w: View, m: View, rs: seq<Read>, lim: Limits, key: Value, rels: seq<Rel>, keyOf: map<Label, Prop>)
  {
    function Context(): View
      requires LaterReadsHaveRel(rs)
    {
      Alone(w, lim, rs, key).nodes
    }

    function Anchor(): Label
      requires |rs| > 0
    {
      rs[0].lb
    }

    /** Each label is fetched by one read, and the rest is as it must be. */
    ghost predicate Sound() {
      HoldsContext() && OneReadPerLabel(rs)
    }

    /** The reads are a template's, over relationships that are unique by type and by column; the anchor is in
        the warehouse; memory holds parts of the warehouse's rows, and the context's whole; keys are keys. */
    ghost predicate HoldsContext() {
      && WellFormedReads(rs) && WellFormed(rs, rs[0].lb)
      && (forall q :: q in rs && q.rel.Some? ==> q.rel.value in rels)
      && (forall r, s :: r in rels && s in rels && (r.kind == s.kind || (r.start == s.start && r.fk == s.fk)) ==> r == s)
      && NodeId(rs[0].lb, key) in w
      && PartOf(m, w) && Alike(Context(), m, w)
      && (forall id :: id in w && id.lb in keyOf && keyOf[id.lb] in w[id] ==> w[id][keyOf[id.lb]] == id.key)
    }
  }

  // ---- what the block must be

  /** A conjunct that, when true, makes true whatever the decision collects from it: a comparison, but for a bound written
      literal-first (`v >= c`), which is collected as if it were written column-first; anything it collects nothing from
      (IN, IS NULL, NOT IN, IS NOT NULL, ...); and an AND of such. */
  predicate Plain(f: Filter) {
    || Collected(f) == []
    || (f.Compare? && (f.columnFirst || (f.op != GeOp && f.op != GtOp)))
    || (f.And? && Plain(f.l) && Plain(f.r))
  }

  function Joined(block: Block, i: nat): set<Label>
    requires i <= |block.joins|
  {
    {block.fact} + set j | 0 <= j < i :: block.joins[j].t
  }

  /** The joins are a tree from the fact: each from a table already joined, to one not joined yet. */
  ghost predicate IsTree(block: Block) {
    forall i :: 0 <= i < |block.joins| ==>
      block.joins[i].a in Joined(block, i) && block.joins[i].t !in Joined(block, i)
  }

  /** A column that makes a relationship to the table it is joined to is joined to that table's key. */
  predicate OnKeys(rels: seq<Rel>, keyOf: map<Label, Prop>, j: Join) {
    var out, back := RelOf(rels, j.a, j.ac), RelOf(rels, j.t, j.tc);
    && (out.Some? && out.value.end == j.t ==> j.t in keyOf && keyOf[j.t] == j.tc)
    && (back.Some? && back.value.end == j.a ==> j.a in keyOf && keyOf[j.a] == j.ac)
  }

  ghost predicate Fits(s: Setting, block: Block) {
    && (forall f :: f in block.filters ==> Plain(f))
    && IsTree(block)
    && (forall j :: j in block.joins ==> OnKeys(s.rels, s.keyOf, j))
  }

  // ---- what a true filter says of the columns it names

  ghost predicate AtomHolds(view: View, b: Binding, x: Atom) {
    Cell(view, b, x.table, x.col).Some? && Answerable.Holds(x.op, Cell(view, b, x.table, x.col).value, x.value)
  }

  lemma {:induction false} PlainSays(view: View, b: Binding, f: Filter)
    requires Plain(f) && Eval(view, b, f) == True
    ensures forall x :: x in Collected(f) ==> AtomHolds(view, b, x)
  {
    if f.Compare? {
      CollectedOfOne(f);
    } else if f.And? && Collected(f) != [] {
      PlainSays(view, b, f.l);
      PlainSays(view, b, f.r);
      forall x | x in Collected(f)
        ensures AtomHolds(view, b, x)
      {
        CollectedOfTwo(f, x);
      }
    }
  }

  lemma {:induction false} AtomsHold(view: View, b: Binding, fs: seq<Filter>)
    requires forall f :: f in fs ==> Plain(f) && Eval(view, b, f) == True
    ensures forall x :: x in CollectedAll(fs) ==> AtomHolds(view, b, x)
  {
    if fs != [] {
      assert fs[0] in fs;
      PlainSays(view, b, fs[0]);
      AtomsHold(view, b, fs[1..]);
    }
  }

  /** Where a filtered table's entry came from: an equality on it, which named the entity. */
  ghost predicate NamedBy(n: Named, keyOf: map<Label, Prop>, rels: seq<Rel>, v: Label, x: Atom)
    requires v in n.via
  {
    && x.op == EqOp && x.table == v
    && match n.via[v]
       case None => v in keyOf && keyOf[v] == x.col && (v, x.value) in n.anchors
       case Some(kind) =>
         var r := RelOf(rels, v, x.col);
         r.Some? && r.value.kind == kind && (r.value.end, x.value) in n.anchors
  }

  lemma {:induction false} ScanFrom(atoms: seq<Atom>, tables: set<Label>, keyOf: map<Label, Prop>, rels: seq<Rel>, v: Label)
    requires v in Scan(atoms, tables, keyOf, rels).via
    ensures exists x :: x in atoms && NamedBy(Scan(atoms, tables, keyOf, rels), keyOf, rels, v, x)
    decreases atoms
  {
    var n := Scan(atoms, tables, keyOf, rels);
    var earlier := atoms[..|atoms| - 1];
    var was, last := Scan(earlier, tables, keyOf, rels), atoms[|atoms| - 1];
    if v in was.via && n.via[v] == was.via[v] {
      ScanFrom(earlier, tables, keyOf, rels, v);
      var x :| x in earlier && NamedBy(was, keyOf, rels, v, x);
      assert NamedBy(n, keyOf, rels, v, x);
    } else {
      assert NamedBy(n, keyOf, rels, v, last);
    }
  }

  lemma {:induction false} LowerBoundFrom(atoms: seq<Atom>, t: Label, c: Prop)
    requires LowerBound(atoms, t, c).Some?
    ensures exists x :: x in atoms && x.table == t && x.col == c && (x.op == GeOp || x.op == GtOp)
                        && x.value == LowerBound(atoms, t, c).value
  {
    var x := atoms[|atoms| - 1];
    if !((x.op == GeOp || x.op == GtOp) && x.table == t && x.col == c) {
      LowerBoundFrom(atoms[..|atoms| - 1], t, c);
    }
  }

  // ---- a covered table's node is in the context

  /** A binding whose joins meet, an outer join's null row taken at its word. */
  ghost predicate Taken(view: View, block: Block, b: Binding) {
    b.Keys == block.Tables() && forall j :: j in block.joins ==> j.a in b && JoinTaken(view, j, b)
  }

  /** And whose filters hold. */
  ghost predicate IsPartMatch(view: View, block: Block, b: Binding) {
    && Taken(view, block, b)
    && b[block.fact].Some? && NodeId(block.fact, b[block.fact].value) in view
    && (forall f :: f in block.filters ==> Eval(view, b, f) == True)
  }

  ghost predicate JoinTaken(view: View, j: Join, b: Binding)
    requires j.a in b && j.t in b
  {
    match b[j.t]
    case Some(y) => Meet(view, j, b[j.a], y)
    case None => j.outer
  }

  lemma MatchIsPart(view: View, block: Block, b: Binding)
    requires IsMatch(view, block, b)
    ensures IsPartMatch(view, block, b)
  {
    hide Eval, Meet;
    forall j | j in block.joins
      ensures j.a in b && JoinTaken(view, j, b)
    {
      assert JoinBound(view, j, b);
    }
  }

  ghost predicate InContext(s: Setting, b: Binding, v: Label)
    requires LaterReadsHaveRel(s.rs)
  {
    v in b ==> b[v].Some? ==> NodeId(v, b[v].value) in s.Context()
  }

  lemma CellIsWarehouse(s: Setting, view: View, b: Binding, l: Label, p: Prop)
    requires PartOf(view, s.w) && Cell(view, b, l, p).Some?
    ensures l in b && b[l].Some? && NodeId(l, b[l].value) in s.w
    ensures p in s.w[NodeId(l, b[l].value)] && s.w[NodeId(l, b[l].value)][p] == Cell(view, b, l, p).value
  {
  }

  /** The entity itself, and the facts filtered by it, whole in their period, when what the filters name of them holds. */
  lemma StartInContext(s: Setting, view: View, block: Block, b: Binding, capped: set<Read>, since: int, v: Label)
    requires s.Sound() && PartOf(view, s.w)
    requires forall x :: x in CollectedAll(block.filters) && x.table == v ==> AtomHolds(view, b, x)
    requires Covers(block, s.keyOf, s.rels, s.rs, capped, since, s.Anchor(), s.key)
    requires s.lim.since <= since && capped == set x | x in Alone(s.w, s.lim, s.rs, s.key).log && x.capped :: x.read
    requires v in StartOf(s, block)
    ensures v in b && b[v].Some? && NodeId(v, b[v].value) in s.Context()
  {
    hide Alone, Scan, CoverJoins;
    var atoms := CollectedAll(block.filters);
    var n := Scan(atoms, block.Tables(), s.keyOf, s.rels);
    ScanFrom(atoms, block.Tables(), s.keyOf, s.rels, v);
    var x :| x in atoms && NamedBy(n, s.keyOf, s.rels, v, x);
    CellIsWarehouse(s, view, b, v, x.col);
    var id := NodeId(v, b[v].value);
    if n.via[v].None? {
      assert id == NodeId(s.Anchor(), s.key);
      AnchorIsIn(s);
    } else {
      var q := InwardRead(s.rs, n.via[v].value, v).value;
      assert q.rel.value == RelOf(s.rels, v, x.col).value;
      if q.window.Some? {
        LowerBoundFrom(atoms, v, q.window.value);
        CellIsWarehouse(s, view, b, v, q.window.value);
      }
      InwardIsIn(s, q, id, capped);
    }
  }

  function StartOf(s: Setting, block: Block): set<Label>
    requires |s.rs| > 0
  {
    Answerable.Start(Scan(CollectedAll(block.filters), block.Tables(), s.keyOf, s.rels), s.rs, s.Anchor())
  }

  lemma AnchorIsIn(s: Setting)
    requires s.Sound()
    ensures NodeId(s.Anchor(), s.key) in s.Context()
  {
    hide Through, LastHop;
  }

  lemma InwardIsIn(s: Setting, q: Read, id: NodeId, capped: set<Read>)
    requires s.Sound() && q in s.rs && q.inward && q.rel.Some? && q !in capped
    requires capped == set x | x in Alone(s.w, s.lim, s.rs, s.key).log && x.capped :: x.read
    requires id in s.w && id.lb == q.lb && Points(s.w[id], q.rel.value.fk, s.key) && InWindow(s.w[id], q.window, s.lim.since)
    ensures id in s.Context()
  {
    hide Alone;
    HopOfRel(s.rs, q);
    InwardComplete(s.w, s.lim, s.rs, s.key, q, id);
  }

  lemma HopOfRel(rs: seq<Read>, q: Read)
    requires LaterReadsHaveRel(rs) && q in rs && q.rel.Some?
    ensures q.hop >= 1
  {
  }

  /** The join's end, reached from a node of the context: by the template's to-one read of it, or, for the
      entity's own facts, because it is the entity. */
  lemma EndInContext(s: Setting, j: Join, from: NodeId, y: Value)
    requires s.Sound() && OnKeys(s.rels, s.keyOf, j)
    requires from.lb == j.a && from in s.Context() && NodeId(j.t, y) in s.w
    requires from in s.w && j.ac in s.w[from] && j.tc in s.w[NodeId(j.t, y)] && s.w[from][j.ac] == s.w[NodeId(j.t, y)][j.tc]
    requires var out := RelOf(s.rels, j.a, j.ac);
             && out.Some? && out.value.end == j.t
             && (ReadFrom(s.rs, out.value.kind, j.a) || (j.t == s.Anchor() && InwardRead(s.rs, out.value.kind, j.a).Some?))
    ensures NodeId(j.t, y) in s.Context()
  {
    hide Alone;
    var out := RelOf(s.rels, j.a, j.ac).value;
    assert s.w[from][j.ac] == y;
    if ReadFrom(s.rs, out.kind, j.a) {
      var q :| q in s.rs && q.rel.Some? && q.rel.value.kind == out.kind && q.via == j.a;
      HopOfRel(s.rs, q);
      ReadIsToOne(s, q);
      ToOneComplete(s.w, s.lim, s.rs, s.key, q, from);
    } else {
      var q := InwardRead(s.rs, out.kind, j.a).value;
      HopOfRel(s.rs, q);
      InwardPoints(s.w, s.lim, s.rs, s.key, q, from);
      AnchorIsIn(s);
    }
  }

  /** A read out of its relationship's start is to-one. */
  lemma ReadIsToOne(s: Setting, q: Read)
    requires s.Sound() && q in s.rs && q.rel.Some? && q.via == q.rel.value.start
    ensures !q.inward && q.lb == q.rel.value.end
  {
    var i :| 0 <= i < |s.rs| && s.rs[i] == q;
    assert i > 0;
  }

  /** Back along a join: a covered table's node points at the other end. */
  lemma StartPointsAt(s: Setting, j: Join, to: NodeId, x: Value)
    requires s.Sound() && OnKeys(s.rels, s.keyOf, j)
    requires to.lb == j.t && to in s.Context() && NodeId(j.a, x) in s.w
    requires to in s.w && j.tc in s.w[to] && j.ac in s.w[NodeId(j.a, x)] && s.w[to][j.tc] == s.w[NodeId(j.a, x)][j.ac]
    requires var back := RelOf(s.rels, j.t, j.tc); back.Some? && back.value.end == j.a && ReadFrom(s.rs, back.value.kind, j.t)
    ensures NodeId(j.a, x) in s.Context()
  {
    hide Alone;
    var back := RelOf(s.rels, j.t, j.tc).value;
    var q :| q in s.rs && q.rel.Some? && q.rel.value.kind == back.kind && q.via == j.t;
    HopOfRel(s.rs, q);
    ReadIsToOne(s, q);
    ToOneComplete(s.w, s.lim, s.rs, s.key, q, to);
  }

  // ---- all the covered tables

  lemma {:induction false} CoveredShape(s: Setting, block: Block, start: set<Label>, i: nat)
    requires IsTree(block) && i <= |block.joins| && |s.rs| > 0
    ensures CoverJoins(block.joins[..i], s.rels, s.rs, s.Anchor(), start) <= start + Joined(block, i)
  {
    hide RelOf, InwardRead;
    if i > 0 {
      CoveredShape(s, block, start, i - 1);
      assert block.joins[..i][..i - 1] == block.joins[..i - 1];
      assert block.joins[..i][i - 1] == block.joins[i - 1];
    }
  }

  /** The join leads back from its target to what that points at. */
  predicate LeadsBack(s: Setting, j: Join) {
    var back := RelOf(s.rels, j.t, j.tc);
    back.Some? && back.value.end == j.a && ReadFrom(s.rs, back.value.kind, j.t)
  }

  /** What is covered at the start is in the context, as far as it is bound; and of a join back from a null row, what it
      leads back to. */
  ghost predicate StartsIn(s: Setting, block: Block, b: Binding, start: set<Label>)
    requires LaterReadsHaveRel(s.rs)
  {
    && (forall v :: v in start ==> InContext(s, b, v))
    && (forall j :: j in block.joins && j.t in start && j.t in b && b[j.t].None? && LeadsBack(s, j) ==> InContext(s, b, j.a))
  }

  /** The joins met so far put every covered table's node in the context. */
  lemma {:induction false} CoveredInContext(s: Setting, view: View, block: Block, b: Binding, start: set<Label>, i: nat)
    requires s.Sound() && IsTree(block) && (forall j :: j in block.joins ==> OnKeys(s.rels, s.keyOf, j))
    requires PartOf(view, s.w) && i <= |block.joins| && Taken(view, block, b) && StartsIn(s, block, b, start)
    ensures forall v :: v in CoverJoins(block.joins[..i], s.rels, s.rs, s.Anchor(), start) ==> InContext(s, b, v)
  {
    hide Alone, RelOf, InwardRead, Eval, Provenance.OneReadPerLabel, CoverJoin, OnKeys, Taken, IsTree;
    if i > 0 {
      CoveredInContext(s, view, block, b, start, i - 1);
      CoveredShape(s, block, start, i - 1);
      assert block.joins[..i][..i - 1] == block.joins[..i - 1];
      var j := block.joins[i - 1];
      assert block.joins[..i][i - 1] == j && j in block.joins;
      assert j.t !in Joined(block, i - 1) by { TargetIsNew(block, i - 1); }
      var covered := CoverJoins(block.joins[..i - 1], s.rels, s.rs, s.Anchor(), start);
      JoinKeepsContext(s, view, block, b, start, covered, j);
    }
  }

  lemma TargetIsNew(block: Block, i: nat)
    requires IsTree(block) && i < |block.joins|
    ensures block.joins[i].t !in Joined(block, i)
  {
  }

  lemma JoinKeepsContext(s: Setting, view: View, block: Block, b: Binding, start: set<Label>, covered: set<Label>, j: Join)
    requires s.Sound() && OnKeys(s.rels, s.keyOf, j) && PartOf(view, s.w)
    requires Taken(view, block, b) && j in block.joins && StartsIn(s, block, b, start)
    requires forall v :: v in covered ==> InContext(s, b, v)
    requires j.t in covered ==> j.t in start
    ensures forall v :: v in CoverJoin(j, s.rels, s.rs, s.Anchor(), covered) ==> InContext(s, b, v)
  {
    hide Alone, RelOf, InwardRead, Eval, Provenance.OneReadPerLabel, OnKeys;
    assert JoinTaken(view, j, b);
    if b[j.t].Some? {
      assert Meet(view, j, b[j.a], b[j.t].value);
      MeetsInWarehouse(s, view, j, b[j.a], b[j.t].value);
      var x, y := NodeId(j.a, b[j.a].value), NodeId(j.t, b[j.t].value);
      var out, back := RelOf(s.rels, j.a, j.ac), RelOf(s.rels, j.t, j.tc);
      if j.a in covered && out.Some? && out.value.end == j.t && ReadFrom(s.rs, out.value.kind, j.a) {
        EndInContext(s, j, x, y.key);
      } else if j.t in covered && back.Some? && back.value.end == j.a && ReadFrom(s.rs, back.value.kind, j.t) {
        StartPointsAt(s, j, y, x.key);
      } else if j.a in covered && j.t == s.Anchor() && out.Some? && out.value.end == s.Anchor() && InwardRead(s.rs, out.value.kind, j.a).Some? {
        EndInContext(s, j, x, y.key);
      }
    }
  }

  /** A start that is all bound and in the context. */
  lemma BoundStartsIn(s: Setting, block: Block, b: Binding, start: set<Label>)
    requires LaterReadsHaveRel(s.rs) && forall v :: v in start ==> v in b && b[v].Some? && NodeId(v, b[v].value) in s.Context()
    ensures StartsIn(s, block, b, start)
  {
    hide Alone;
  }

  lemma MeetsInWarehouse(s: Setting, view: View, j: Join, x: Option<Value>, y: Value)
    requires PartOf(view, s.w) && Meet(view, j, x, y)
    ensures Meet(s.w, j, x, y)
  {
  }

  /** An outer join's null row over memory is the warehouse's: were there a match, memory would hold it. */
  lemma {:induction false} NullRowCovered(s: Setting, view: View, block: Block, b: Binding, start: set<Label>, i: nat, n: nat)
    requires IsTree(block) && i < n <= |block.joins| && |s.rs| > 0
    requires IsPartMatch(view, block, b) && block.joins[i].t in b && b[block.joins[i].t].None?
    requires forall v :: v in start ==> v in b && b[v].Some?
    requires block.joins[i].t in CoverJoins(block.joins[..n], s.rels, s.rs, s.Anchor(), start)
    ensures block.joins[i].t in CoverJoin(block.joins[i], s.rels, s.rs, s.Anchor(), CoverJoins(block.joins[..i], s.rels, s.rs, s.Anchor(), start))
    decreases n
  {
    hide CoverJoin, IsPartMatch, IsTree;
    var j := block.joins[n - 1];
    assert block.joins[..n][..n - 1] == block.joins[..n - 1];
    assert block.joins[..n][n - 1] == j && j in block.joins;
    if i < n - 1 {
      var t := block.joins[i].t;
      LaterTarget(s, block, start, i, n - 1);
      NullNotAdded(s, view, block, b, CoverJoins(block.joins[..n - 1], s.rels, s.rs, s.Anchor(), start), j, t);
      NullRowCovered(s, view, block, b, start, i, n - 1);
    }
  }

  /** A later join's target is another table, and is covered before its join only if it was at the start. */
  lemma LaterTarget(s: Setting, block: Block, start: set<Label>, i: nat, n: nat)
    requires IsTree(block) && i < n < |block.joins| && |s.rs| > 0
    ensures block.joins[n].t != block.joins[i].t
    ensures block.joins[n].t in CoverJoins(block.joins[..n], s.rels, s.rs, s.Anchor(), start) ==> block.joins[n].t in start
  {
    hide CoverJoins;
    CoveredShape(s, block, start, n);
    assert block.joins[i].t in Joined(block, n);
  }

  /** A later join covers no table bound to a null row. */
  lemma NullNotAdded(s: Setting, view: View, block: Block, b: Binding, covered: set<Label>, j: Join, t: Label)
    requires IsPartMatch(view, block, b) && j in block.joins && |s.rs| > 0
    requires t in b && b[t].None? && t != j.t
    requires j.t in covered ==> b[j.t].Some?
    requires t in CoverJoin(j, s.rels, s.rs, s.Anchor(), covered)
    ensures t in covered
  {
    hide RelOf, InwardRead, Eval, ReadFrom;
    assert JoinTaken(view, j, b);
  }

  /** What covers a join's target: a read of it from a covered table, or that it is the entity of covered facts. */
  lemma AddedByJoin(j: Join, rels: seq<Rel>, rs: seq<Read>, anchor: Label, covered: set<Label>)
    requires j.t in CoverJoin(j, rels, rs, anchor, covered) && j.t !in covered
    ensures j.a in covered
    ensures var out := RelOf(rels, j.a, j.ac);
            out.Some? && out.value.end == j.t && (ReadFrom(rs, out.value.kind, j.a) || (j.t == anchor && InwardRead(rs, out.value.kind, j.a).Some?))
  {
    hide RelOf, InwardRead, ReadFrom;
  }

  /** The condition under which a null row of the join can be trusted: what CoverJoin found at the join. */
  lemma NullRowServed(s: Setting, view: View, block: Block, b: Binding, start: set<Label>, i: nat, y: Value)
    requires s.Sound() && Fits(s, block) && PartOf(view, s.w) && i < |block.joins|
    requires IsPartMatch(view, block, b) && b[block.joins[i].t].None?
    requires forall v :: v in start ==> v in b && b[v].Some? && NodeId(v, b[v].value) in s.Context()
    requires block.Tables() <= CoverJoins(block.joins, s.rels, s.rs, s.Anchor(), start)
    requires Meet(s.w, block.joins[i], b[block.joins[i].a], y)
    ensures NodeId(block.joins[i].t, y) in s.Context()
  {
    hide Alone, RelOf, InwardRead, Eval, Provenance.OneReadPerLabel, OnKeys, CoverJoins, CoverJoin, ReadFrom, Setting.Context;
    var j := block.joins[i];
    assert j in block.joins && j.t in block.Tables();
    assert block.joins[..|block.joins|] == block.joins;
    NullRowCovered(s, view, block, b, start, i, |block.joins|);
    CoveredShape(s, block, start, i);
    BoundStartsIn(s, block, b, start);
    CoveredInContext(s, view, block, b, start, i);
    AddedByJoin(j, s.rels, s.rs, s.Anchor(), CoverJoins(block.joins[..i], s.rels, s.rs, s.Anchor(), start));
    assert InContext(s, b, j.a);
    EndInContext(s, j, NodeId(j.a, b[j.a].value), y);
  }

  // ---- the match over memory is the match over the warehouse

  ghost predicate BoundInContext(s: Setting, b: Binding)
    requires LaterReadsHaveRel(s.rs)
  {
    forall v :: v in b && b[v].Some? ==> NodeId(v, b[v].value) in s.Context()
  }

  /** Every node a match binds, over memory or the warehouse, is in the context. */
  lemma MatchInContext(s: Setting, view: View, block: Block, b: Binding, capped: set<Read>, since: int)
    requires s.Sound() && Fits(s, block) && PartOf(view, s.w)
    requires Covers(block, s.keyOf, s.rels, s.rs, capped, since, s.Anchor(), s.key)
    requires s.lim.since <= since && capped == set x | x in Alone(s.w, s.lim, s.rs, s.key).log && x.capped :: x.read
    requires IsPartMatch(view, block, b)
    ensures BoundInContext(s, b)
    ensures forall v :: v in StartOf(s, block) ==> v in b && b[v].Some? && NodeId(v, b[v].value) in s.Context()
  {
    hide Alone, Scan, RelOf, InwardRead, Eval, OnKeys, IsTree, CoverJoins, Provenance.OneReadPerLabel;
    var start := StartOf(s, block);
    AtomsHold(view, b, block.filters);
    forall v | v in start
      ensures v in b && b[v].Some? && NodeId(v, b[v].value) in s.Context()
    {
      StartInContext(s, view, block, b, capped, since, v);
    }
    assert block.joins[..|block.joins|] == block.joins;
    BoundStartsIn(s, block, b, start);
    CoveredInContext(s, view, block, b, start, |block.joins|);
    forall v | v in b && b[v].Some?
      ensures NodeId(v, b[v].value) in s.Context()
    {
      assert v in CoverJoins(block.joins, s.rels, s.rs, s.Anchor(), start);
      assert InContext(s, b, v);
    }
  }

  lemma {:induction false} SameRowsSameTruth(view: View, other: View, b: Binding, f: Filter)
    requires forall l :: RowOf(view, b, l) == RowOf(other, b, l)
    ensures Eval(view, b, f) == Eval(other, b, f)
  {
    match f
    case Not(g) => SameRowsSameTruth(view, other, b, g);
    case And(l, r) => SameRowsSameTruth(view, other, b, l); SameRowsSameTruth(view, other, b, r);
    case Or(l, r) => SameRowsSameTruth(view, other, b, l); SameRowsSameTruth(view, other, b, r);
    case _ =>
  }

  lemma ContextRowsAlike(s: Setting, b: Binding)
    requires s.Sound() && BoundInContext(s, b)
    ensures forall l :: RowOf(s.m, b, l) == RowOf(s.w, b, l)
  {
    hide Alone, Provenance.OneReadPerLabel;
  }

  /** A join bound in one is bound in the other. */
  lemma JoinBoundAlike(s: Setting, block: Block, b: Binding, capped: set<Read>, since: int, i: nat)
    requires s.Sound() && Fits(s, block)
    requires Covers(block, s.keyOf, s.rels, s.rs, capped, since, s.Anchor(), s.key)
    requires s.lim.since <= since && capped == set x | x in Alone(s.w, s.lim, s.rs, s.key).log && x.capped :: x.read
    requires i < |block.joins|
    requires BoundInContext(s, b)
    ensures IsMatch(s.w, block, b) ==> block.joins[i].a in b && block.joins[i].t in b && JoinBound(s.m, block.joins[i], b)
    ensures IsMatch(s.m, block, b) ==> block.joins[i].a in b && block.joins[i].t in b && JoinBound(s.w, block.joins[i], b)
  {
    hide Alone, Scan, RelOf, InwardRead, Eval, OnKeys, IsTree, CoverJoins, Provenance.OneReadPerLabel;
    var j := block.joins[i];
    assert j in block.joins;
    if IsMatch(s.w, block, b) {
      assert JoinBound(s.w, j, b);
      if b[j.t].Some? {
        assert Meet(s.m, j, b[j.a], b[j.t].value);
      } else {
        forall y
          ensures !Meet(s.m, j, b[j.a], y)
        {
          assert Meet(s.m, j, b[j.a], y) ==> Meet(s.w, j, b[j.a], y);
        }
      }
    }
    if IsMatch(s.m, block, b) {
      MatchIsPart(s.m, block, b);
      MatchInContext(s, s.m, block, b, capped, since);
      assert JoinBound(s.m, j, b);
      if b[j.t].Some? {
        MeetsInWarehouse(s, s.m, j, b[j.a], b[j.t].value);
      } else {
        forall y | Meet(s.w, j, b[j.a], y)
          ensures Meet(s.m, j, b[j.a], y)
        {
          NullRowServed(s, s.m, block, b, StartOf(s, block), i, y);
        }
      }
    }
  }

  /** A match of either is bound in the context. */
  lemma MatchInBoth(s: Setting, block: Block, b: Binding, capped: set<Read>, since: int)
    requires s.Sound() && Fits(s, block)
    requires Covers(block, s.keyOf, s.rels, s.rs, capped, since, s.Anchor(), s.key)
    requires s.lim.since <= since && capped == set x | x in Alone(s.w, s.lim, s.rs, s.key).log && x.capped :: x.read
    requires IsMatch(s.m, block, b) || IsMatch(s.w, block, b)
    ensures BoundInContext(s, b)
  {
    hide Alone, Covers, Eval, Fits, JoinBound, RowOf, Provenance.OneReadPerLabel, BoundInContext;
    if IsMatch(s.m, block, b) {
      MatchIsPart(s.m, block, b);
      MatchInContext(s, s.m, block, b, capped, since);
    } else {
      MatchIsPart(s.w, block, b);
      MatchInContext(s, s.w, block, b, capped, since);
    }
  }

  /** A match of either has its joins bound in both. */
  lemma JoinsBoundAlike(s: Setting, block: Block, b: Binding, capped: set<Read>, since: int)
    requires s.Sound() && Fits(s, block)
    requires Covers(block, s.keyOf, s.rels, s.rs, capped, since, s.Anchor(), s.key)
    requires s.lim.since <= since && capped == set x | x in Alone(s.w, s.lim, s.rs, s.key).log && x.capped :: x.read
    requires IsMatch(s.m, block, b) || IsMatch(s.w, block, b)
    requires BoundInContext(s, b)
    ensures forall j :: j in block.joins ==> j.a in b && j.t in b && JoinBound(s.m, j, b) && JoinBound(s.w, j, b)
  {
    hide Alone, Covers, Eval, Fits, JoinBound, RowOf, Provenance.OneReadPerLabel, BoundInContext;
    forall j | j in block.joins
      ensures j.a in b && j.t in b && JoinBound(s.m, j, b) && JoinBound(s.w, j, b)
    {
      var i :| 0 <= i < |block.joins| && block.joins[i] == j;
      JoinBoundAlike(s, block, b, capped, since, i);
    }
  }

  /** When `Covers` says yes: a binding of the block matches memory exactly when it matches the warehouse, and
      its rows are the same in both. The window, the cap and every join, inner or outer, included. */
  lemma AnswerExact(s: Setting, block: Block, capped: set<Read>, since: int, b: Binding)
    requires s.Sound() && Fits(s, block)
    requires Covers(block, s.keyOf, s.rels, s.rs, capped, since, s.Anchor(), s.key)
    requires s.lim.since <= since && capped == set x | x in Alone(s.w, s.lim, s.rs, s.key).log && x.capped :: x.read
    ensures IsMatch(s.m, block, b) <==> IsMatch(s.w, block, b)
    ensures IsMatch(s.m, block, b) ==> forall l :: RowOf(s.m, b, l) == RowOf(s.w, b, l)
  {
    hide Alone, Covers, Eval, Fits, JoinBound, RowOf, Provenance.OneReadPerLabel, BoundInContext;
    if IsMatch(s.m, block, b) || IsMatch(s.w, block, b) {
      MatchInBoth(s, block, b, capped, since);
      JoinsBoundAlike(s, block, b, capped, since);
      ContextRowsAlike(s, b);
      forall f | f in block.filters
        ensures Eval(s.m, b, f) == Eval(s.w, b, f)
      {
        SameRowsSameTruth(s.m, s.w, b, f);
      }
      FactBound(s, block, b);
    }
  }

  lemma FactBound(s: Setting, block: Block, b: Binding)
    requires s.Sound() && BoundInContext(s, b) && block.fact in b && b[block.fact].Some?
    ensures NodeId(block.fact, b[block.fact].value) in s.m && NodeId(block.fact, b[block.fact].value) in s.w
  {
    hide Alone, Provenance.OneReadPerLabel;
  }
}
