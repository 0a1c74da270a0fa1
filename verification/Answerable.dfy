/** The memory route's decision (`Covers`): from a compiled block's filters and joins, whether every node a match of it
    could bind in the warehouse is in one context; and what such a match is. */
module Answerable {
  import opened Options
  import opened Data
  import opened Template
  import opened Context
  import opened Served
  import opened Provenance
  import opened Edges
  import opened Memory

  datatype Op = EqOp | NeOp | GtOp | GeOp | LtOp | LeOp

  /** A filter of the block. A comparison is of a column with a literal, written column-first or literal-first, or of two
      columns; a boolean column holds 1 for true. */
  datatype Filter =
    | Compare(table: Label, col: Prop, op: Op, value: Value, columnFirst: bool)
    | OneOf(table: Label, col: Prop, values: seq<Value>)
    | IsNull(table: Label, col: Prop)
    | IsBool(table: Label, col: Prop, sought: bool)
    | CompareColumns(table: Label, col: Prop, op: Op, other: Label, otherCol: Prop)
    | Not(f: Filter)
    | And(l: Filter, r: Filter)
    | Or(l: Filter, r: Filter)

  /** Table `a` joined with `t` where column `ac` equals `tc`; if outer, with a null row for want of an equal. */
  datatype Join = Join(a: Label, ac: Prop, t: Label, tc: Prop, outer: bool)

  datatype Block = Block(fact: Label, joins: seq<Join>, filters: seq<Filter>)
  {
    function Tables(): set<Label> {
      {fact} + set j | j in joins :: j.t
    }
  }

  // ---- what a match is

  /** Which node each table is bound to; None is the null row of an outer join with no match. */
  type Binding = map<Label, Option<Value>>

  function RowOf(view: View, b: Binding, l: Label): Row {
    if l in b && b[l].Some? && NodeId(l, b[l].value) in view then view[NodeId(l, b[l].value)] else map[]
  }

  function Cell(view: View, b: Binding, l: Label, p: Prop): Option<Value> {
    if p in RowOf(view, b, l) then Some(RowOf(view, b, l)[p]) else None
  }

  datatype Truth = True | False | Unknown

  function Holds(op: Op, x: Value, y: Value): bool {
    match op
    case EqOp => x == y
    case NeOp => x != y
    case GtOp => x > y
    case GeOp => x >= y
    case LtOp => x < y
    case LeOp => x <= y
  }

  function TruthOf(v: bool): Truth {
    if v then True else False
  }

  function Eval(view: View, b: Binding, f: Filter): Truth {
    match f
    case Compare(t, c, op, v, first) =>
      var x := Cell(view, b, t, c);
      if x.None? then Unknown else TruthOf(if first then Holds(op, x.value, v) else Holds(op, v, x.value))
    case OneOf(t, c, vs) =>
      var x := Cell(view, b, t, c);
      if x.None? then Unknown else TruthOf(x.value in vs)
    case IsNull(t, c) => TruthOf(Cell(view, b, t, c).None?)
    case IsBool(t, c, v) =>
      var x := Cell(view, b, t, c);
      TruthOf(x.Some? && (x.value == 1) == v)
    case CompareColumns(t, c, op, t', c') =>
      var x, y := Cell(view, b, t, c), Cell(view, b, t', c');
      if x.None? || y.None? then Unknown else TruthOf(Holds(op, x.value, y.value))
    case Not(g) =>
      (match Eval(view, b, g) case True => False case False => True case Unknown => Unknown)
    case And(l, r) =>
      var x, y := Eval(view, b, l), Eval(view, b, r);
      if x == False || y == False then False else if x == True && y == True then True else Unknown
    case Or(l, r) =>
      var x, y := Eval(view, b, l), Eval(view, b, r);
      if x == True || y == True then True else if x == False && y == False then False else Unknown
  }

  /** A join's two nodes meet: both there, and their columns equal and not null. */
  predicate Meet(view: View, j: Join, x: Option<Value>, y: Value) {
    && x.Some? && NodeId(j.a, x.value) in view && NodeId(j.t, y) in view
    && j.ac in view[NodeId(j.a, x.value)] && j.tc in view[NodeId(j.t, y)]
    && view[NodeId(j.a, x.value)][j.ac] == view[NodeId(j.t, y)][j.tc]
  }

  /** A row binding of the block over a graph's nodes: each join met, or, for an outer join no node meets, the
      null row; every filter true. */
  ghost predicate IsMatch(view: View, block: Block, b: Binding) {
    && b.Keys == block.Tables()
    && b[block.fact].Some? && NodeId(block.fact, b[block.fact].value) in view
    && (forall j :: j in block.joins ==> j.a in b && JoinBound(view, j, b))
    && (forall f :: f in block.filters ==> Eval(view, b, f) == True)
  }

  ghost predicate JoinBound(view: View, j: Join, b: Binding)
    requires j.a in b && j.t in b
  {
    match b[j.t]
    case Some(y) => Meet(view, j, b[j.a], y)
    case None => j.outer && forall y :: !Meet(view, j, b[j.a], y)
  }

  // ---- the decision

  /** A comparison `answerable` collects, wherever it stands in a filter: its column, operator and literal. */
  datatype Atom = Atom(table: Label, col: Prop, op: Op, value: Value)

  function Depth(f: Filter): nat {
    match f
    case Not(g) => 1 + Depth(g)
    case And(l, r) => 1 + if Depth(l) > Depth(r) then Depth(l) else Depth(r)
    case Or(l, r) => 1 + if Depth(l) > Depth(r) then Depth(l) else Depth(r)
    case _ => 0
  }

  /** Those at one depth of the filter, from left to right. */
  function Level(f: Filter, depth: nat): seq<Atom> {
    match f
    case Compare(t, c, op, v, _) => if depth == 0 && (op == EqOp || op == GeOp || op == GtOp) then [Atom(t, c, op, v)] else []
    case Not(g) => if depth == 0 then [] else Level(g, depth - 1)
    case And(l, r) => if depth == 0 then [] else Level(l, depth - 1) + Level(r, depth - 1)
    case Or(l, r) => if depth == 0 then [] else Level(l, depth - 1) + Level(r, depth - 1)
    case _ => []
  }

  function Levels(f: Filter, depth: nat): seq<Atom>
    decreases Depth(f) + 1 - depth
  {
    if depth > Depth(f) then [] else Level(f, depth) + Levels(f, depth + 1)
  }

  /** The nearest the top first. */
  function Collected(f: Filter): seq<Atom> {
    Levels(f, 0)
  }

  lemma {:induction false} LevelOf(f: Filter, depth: nat, x: Atom) returns (d: nat)
    requires x in Levels(f, depth)
    ensures depth <= d && x in Level(f, d)
    decreases Depth(f) + 1 - depth
  {
    if x in Level(f, depth) {
      d := depth;
    } else {
      d := LevelOf(f, depth + 1, x);
    }
  }

  lemma {:induction false} LevelIsIn(f: Filter, depth: nat, d: nat, x: Atom)
    requires depth <= d && x in Level(f, d)
    ensures x in Levels(f, depth)
    decreases Depth(f) + 1 - depth
  {
    if depth > Depth(f) {
      NoneDeeper(f, d);
    } else if depth < d {
      LevelIsIn(f, depth + 1, d, x);
    }
  }

  lemma {:induction false} NoneDeeper(f: Filter, depth: nat)
    requires depth > Depth(f)
    ensures Level(f, depth) == []
  {
    match f
    case Not(g) => NoneDeeper(g, depth - 1);
    case And(l, r) => NoneDeeper(l, depth - 1); NoneDeeper(r, depth - 1);
    case Or(l, r) => NoneDeeper(l, depth - 1); NoneDeeper(r, depth - 1);
    case _ =>
  }

  lemma CollectedOfOne(f: Filter)
    requires f.Compare?
    ensures Collected(f) == if f.op == EqOp || f.op == GeOp || f.op == GtOp then [Atom(f.table, f.col, f.op, f.value)] else []
  {
    assert Levels(f, 0) == Level(f, 0) + Levels(f, 1);
  }

  /** What an AND or an OR collects is what its two parts do. */
  lemma CollectedOfTwo(f: Filter, x: Atom)
    requires f.And? || f.Or?
    ensures x in Collected(f) <==> x in Collected(f.l) || x in Collected(f.r)
  {
    hide Levels;
    if x in Collected(f) {
      var d := LevelOf(f, 0, x);
      LevelIsIn(if x in Level(f.l, d - 1) then f.l else f.r, 0, d - 1, x);
    }
    if x in Collected(f.l) {
      var d := LevelOf(f.l, 0, x);
      LevelIsIn(f, 0, d + 1, x);
    }
    if x in Collected(f.r) {
      var d := LevelOf(f.r, 0, x);
      LevelIsIn(f, 0, d + 1, x);
    }
  }

  function CollectedAll(fs: seq<Filter>): seq<Atom> {
    if fs == [] then [] else Collected(fs[0]) + CollectedAll(fs[1..])
  }

  /** The relationship a label's column makes; the last of the model's, where it is the column of several. */
  function RelOf(rels: seq<Rel>, start: Label, fk: Prop): (r: Option<Rel>)
    ensures r.Some? ==> r.value in rels && r.value.start == start && r.value.fk == fk
  {
    if rels == [] then None
    else
      var last := rels[|rels| - 1];
      if last.start == start && last.fk == fk then Some(last) else RelOf(rels[..|rels| - 1], start, fk)
  }

  /** The entities the equalities name, and for each filtered table how: by its own key (None) or by its
      relationship to the entity. */
  datatype Named = Named(anchors: set<(Label, Value)>, via: map<Label, Option<nat>>)

  function Scan(atoms: seq<Atom>, tables: set<Label>, keyOf: map<Label, Prop>, rels: seq<Rel>): Named {
    if atoms == [] then Named({}, map[])
    else
      var n := Scan(atoms[..|atoms| - 1], tables, keyOf, rels);
      var x := atoms[|atoms| - 1];
      if x.op != EqOp || x.table !in tables then n
      else if x.table in keyOf && keyOf[x.table] == x.col then
        Named(n.anchors + {(x.table, x.value)}, n.via[x.table := None])
      else
        var r := RelOf(rels, x.table, x.col);
        if r.Some? then Named(n.anchors + {(r.value.end, x.value)}, n.via[x.table := Some(r.value.kind)]) else n
  }

  /** The last lower bound written on a column. */
  function LowerBound(atoms: seq<Atom>, t: Label, c: Prop): Option<Value> {
    if atoms == [] then None
    else
      var x := atoms[|atoms| - 1];
      if (x.op == GeOp || x.op == GtOp) && x.table == t && x.col == c then Some(x.value)
      else LowerBound(atoms[..|atoms| - 1], t, c)
  }

  /** The template's inward read of a relationship. */
  predicate IsInward(q: Read, kind: nat, l: Label) {
    q.inward && q.lb == l && q.rel.Some? && q.rel.value.kind == kind
  }

  function InwardRead(rs: seq<Read>, kind: nat, l: Label): (q: Option<Read>)
    ensures q.Some? ==> q.value in rs && IsInward(q.value, kind, l)
    ensures q.None? ==> forall x :: x in rs ==> !IsInward(x, kind, l)
  {
    if rs == [] then None
    else if IsInward(rs[0], kind, l) then Some(rs[0])
    else InwardRead(rs[1..], kind, l)
  }

  predicate ReadFrom(rs: seq<Read>, kind: nat, via: Label) {
    exists q :: q in rs && q.rel.Some? && q.rel.value.kind == kind && q.via == via
  }

  /** A filtered table is covered at the start: the entity itself, or facts the template reads into it. */
  predicate CoveredAtStart(n: Named, rs: seq<Read>, anchor: Label, v: Label) {
    && v in n.via
    && match n.via[v]
       case None => v == anchor
       case Some(kind) => InwardRead(rs, kind, v).Some?
  }

  /** A covered fact's read was not cut, and its period starts inside the window. */
  predicate WholePeriod(n: Named, rs: seq<Read>, atoms: seq<Atom>, capped: set<Read>, since: int, v: Label) {
    v in n.via && n.via[v].Some? ==>
      var q := InwardRead(rs, n.via[v].value, v);
      q.Some? ==>
        && q.value !in capped
        && (q.value.window.Some? ==>
              var low := LowerBound(atoms, v, q.value.window.value);
              low.Some? && low.value >= since)
  }

  function Start(n: Named, rs: seq<Read>, anchor: Label): set<Label> {
    set v | v in n.via && CoveredAtStart(n, rs, anchor, v)
  }

  /** One join extends what is covered: to the end a covered table points at, when the template reads it from
      there; back from a covered table to the end it points at; or from covered facts to the entity itself. */
  function CoverJoin(j: Join, rels: seq<Rel>, rs: seq<Read>, anchor: Label, covered: set<Label>): set<Label> {
    var out, back := RelOf(rels, j.a, j.ac), RelOf(rels, j.t, j.tc);
    if j.a in covered && out.Some? && out.value.end == j.t && ReadFrom(rs, out.value.kind, j.a) then covered + {j.t}
    else if j.t in covered && back.Some? && back.value.end == j.a && ReadFrom(rs, back.value.kind, j.t) then covered + {j.a}
    else if j.a in covered && j.t == anchor && out.Some? && out.value.end == anchor && InwardRead(rs, out.value.kind, j.a).Some?
    then covered + {j.t}
    else covered
  }

  function CoverJoins(joins: seq<Join>, rels: seq<Rel>, rs: seq<Read>, anchor: Label, covered: set<Label>): set<Label> {
    if joins == [] then covered
    else CoverJoin(joins[|joins| - 1], rels, rs, anchor, CoverJoins(joins[..|joins| - 1], rels, rs, anchor, covered))
  }

  /** Whether the context of (anchor, key), read by `rs` and capped in `capped`, holds the block's whole answer. */
  predicate Covers(block: Block, keyOf: map<Label, Prop>, rels: seq<Rel>, rs: seq<Read>, capped: set<Read>, since: int,
                   anchor: Label, key: Value)
  {
    var atoms := CollectedAll(block.filters);
    var n := Scan(atoms, block.Tables(), keyOf, rels);
    && n.anchors == {(anchor, key)}
    && (forall v :: v in Start(n, rs, anchor) ==> WholePeriod(n, rs, atoms, capped, since, v))
    && block.Tables() <= CoverJoins(block.joins, rels, rs, anchor, Start(n, rs, anchor))
  }
}
