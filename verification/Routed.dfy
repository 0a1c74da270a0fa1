/** The memory route from end to end: when the decision is yes, the guarded Cypher the compiler renders, evaluated as
    Cypher over everything in memory, answers as the question's SQL does over the reader's rows in the warehouse. */
module Routed {
  import opened Options
  import opened Data
  import opened Context
  import opened Served
  import opened Memory
  import opened Remember
  import opened Linked
  import opened Tables
  import opened Walked
  import WalkedContext
  import A = Answerable
  import Answered
  import MemoryRoute
  import S = Sql
  import F = From
  import R = Rendered
  import G = Guarded
  import CE = CypherExpr
  import CM = CypherMeans
  import CypherMatch
  import SameRows
  import MemoryMeans
  import M = Measures

  // ---- rows that say the same of the columns memory keeps

  ghost predicate AgreeOn(cols: Columns, b: S.Binding, c: S.Binding) {
    forall t, p :: t in cols && p in cols[t] ==> S.Cell(b, t, p) == S.Cell(c, t, p)
  }

  ghost predicate AllAgreeOn(cols: Columns, bs: seq<S.Binding>, cs: seq<S.Binding>) {
    |bs| == |cs| && forall i :: 0 <= i < |bs| ==> AgreeOn(cols, bs[i], cs[i])
  }

  /** The expression reads no column but these. */
  ghost predicate Reads(e: S.Expr, cols: Columns)
    decreases e
  {
    match e
    case Col(t, c) => t in cols && c in cols[t]
    case Lit(_) => true
    case Node(_, kids) => forall i :: 0 <= i < |kids| ==> Reads(kids[i], cols)
    case Agg(_, _, arg) => arg.Some? ==> Reads(arg.value, cols)
  }

  lemma {:induction false} SameValue(cal: S.Calendar, e: S.Expr, cols: Columns, b: S.Binding, bs: seq<S.Binding>, c: S.Binding, cs: seq<S.Binding>)
    requires Reads(e, cols) && AgreeOn(cols, b, c) && AllAgreeOn(cols, bs, cs)
    ensures S.Eval(cal, e, b, bs) == S.Eval(cal, e, c, cs)
    decreases e
  {
    match e
    case Col(_, _) =>
    case Lit(_) =>
    case Node(op, kids) =>
      forall i | 0 <= i < |kids|
        ensures S.Eval(cal, kids[i], b, bs) == S.Eval(cal, kids[i], c, cs)
      {
        SameValue(cal, kids[i], cols, b, bs, c, cs);
      }
      assert seq(|kids|, i requires 0 <= i < |kids| => S.Eval(cal, kids[i], b, bs))
          == seq(|kids|, i requires 0 <= i < |kids| => S.Eval(cal, kids[i], c, cs));
    case Agg(fn, distinct, arg) =>
      if arg.Some? {
        forall i | 0 <= i < |bs|
          ensures S.Eval(cal, arg.value, bs[i], []) == S.Eval(cal, arg.value, cs[i], [])
        {
          SameValue(cal, arg.value, cols, bs[i], [], cs[i], []);
        }
        M.AggIsOf(cal, fn, distinct, arg.value, b, bs);
        M.AggIsOf(cal, fn, distinct, arg.value, c, cs);
        assert S.Values(cal, arg.value, bs) == S.Values(cal, arg.value, cs);
      }
  }

  lemma {:induction false} SameGroups(cal: S.Calendar, dims: seq<S.Expr>, g: seq<S.Value>, cols: Columns, bs: seq<S.Binding>, cs: seq<S.Binding>)
    requires AllAgreeOn(cols, bs, cs) && forall x :: x in dims ==> Reads(x, cols)
    ensures AllAgreeOn(cols, M.Group(cal, dims, g, bs), M.Group(cal, dims, g, cs))
  {
    hide AgreeOn, Reads, S.Eval;
    if bs != [] {
      SameGroups(cal, dims, g, cols, bs[1..], cs[1..]);
      assert M.Keys(cal, dims, bs[0]) == M.Keys(cal, dims, cs[0]) by {
        forall i | 0 <= i < |dims|
          ensures S.Eval(cal, dims[i], bs[0], []) == S.Eval(cal, dims[i], cs[0], [])
        {
          assert dims[i] in dims;
          SameValue(cal, dims[i], cols, bs[0], [], cs[0], []);
        }
      }
    }
  }

  // ---- two graphs with the same matches

  ghost predicate SameMatches(v: View, w: View, cols: Columns, block: A.Block) {
    forall b :: (A.IsMatch(v, block, b) <==> A.IsMatch(w, block, b)) && (A.IsMatch(w, block, b) ==> MemoryRoute.SameCells(v, w, cols, b))
  }

  ghost predicate Targets(view: View, block: A.Block) {
    forall j :: j in block.joins ==> UniqueIn(view, j.t, j.tc)
  }

  lemma SameRowsBound(v: View, w: View, cols: Columns, b: A.Binding)
    requires MemoryRoute.SameCells(v, w, cols, b)
    ensures AgreeOn(cols, RowsBound(v, b), RowsBound(w, b))
  {
    hide RowsBound, A.Cell;
    forall t, p | t in cols && p in cols[t]
      ensures S.Cell(RowsBound(v, b), t, p) == S.Cell(RowsBound(w, b), t, p)
    {
      CellIs(v, b, t, p);
      CellIs(w, b, t, p);
    }
  }

  /** A fact matches in one exactly when it does in the other, with the same binding. */
  lemma SameBound(v: View, w: View, order: Order, cols: Columns, block: A.Block, k: Value)
    requires Answered.IsTree(block) && Lists(order, v) && Lists(order, w) && Targets(v, block) && Targets(w, block) && SameMatches(v, w, cols, block)
    ensures var b, c := Bound(v, order, block.fact, block.joins, k), Bound(w, order, block.fact, block.joins, k);
            && (NodeId(block.fact, k) in v && A.IsMatch(v, block, b) <==> NodeId(block.fact, k) in w && A.IsMatch(w, block, c))
            && (A.IsMatch(v, block, b) ==> b == c && AgreeOn(cols, RowsBound(v, b), RowsBound(w, c)))
  {
    hide Answered.IsTree, Lists, UniqueIn, AgreeOn, RowsBound, Bound, MemoryRoute.SameCells, A.IsMatch;
    var b, c := Bound(v, order, block.fact, block.joins, k), Bound(w, order, block.fact, block.joins, k);
    TreeOfBlock(block);
    BoundIs(v, order, block.fact, block.joins, k);
    BoundIs(w, order, block.fact, block.joins, k);
    if A.IsMatch(v, block, b) {
      FactBound(v, block, b);
      FactBound(w, block, b);
      MatchIsBound(w, order, block, b);
      SameRowsBound(v, w, cols, b);
    }
    if A.IsMatch(w, block, c) {
      FactBound(w, block, c);
      FactBound(v, block, c);
      MatchIsBound(v, order, block, c);
    }
  }

  lemma FactBound(view: View, block: A.Block, b: A.Binding)
    requires A.IsMatch(view, block, b)
    ensures block.fact in b && b[block.fact].Some? && NodeId(block.fact, b[block.fact].value) in view
  {
    hide A.Eval;
  }

  lemma {:induction false} SameMatchRows(v: View, w: View, order: Order, cols: Columns, block: A.Block, keys: seq<Value>)
    requires Answered.IsTree(block) && Lists(order, v) && Lists(order, w) && Targets(v, block) && Targets(w, block) && SameMatches(v, w, cols, block)
    ensures AllAgreeOn(cols, MatchRows(v, order, block, keys), MatchRows(w, order, block, keys))
    decreases |keys|
  {
    hide Answered.IsTree, Lists, Targets, SameMatches, AgreeOn, RowsBound, Bound, A.IsMatch;
    if keys != [] {
      SameMatchRows(v, w, order, cols, block, keys[1..]);
      SameBound(v, w, order, cols, block, keys[0]);
    }
  }

  // ---- the rendering fits memory when it fits the warehouse

  /** What the query and the reader's warehouse must be: the rendering fits the query there, each join to a unique column. */
  ghost predicate Renderable(cal: S.Calendar, w: View, order: Order, block: A.Block, q: R.Query) {
    Targets(w, block) && SameRows.Fits(cal, DbOf(w, order), q)
  }

  /** Nodes of another graph, their columns kept those of it, or missing. */
  ghost predicate PartIn(v: View, w: View, cols: Columns) {
    forall id :: id in v ==> id in w && id.lb in cols && KeptWithin(v[id], w[id], cols[id.lb])
  }

  ghost predicate KeptWithin(x: Row, y: Row, ps: set<Prop>) {
    forall p :: p in ps && p in x ==> p in y && x[p] == y[p]
  }

  /** A fact kept over memory, by the match or by the SQL, is a match in both graphs, so its outer joins' columns agree. */
  lemma FactAgrees(cal: S.Calendar, v: View, w: View, order: Order, cols: Columns, block: A.Block, outs: seq<S.Expr>, k: Value)
    requires Answered.IsTree(block) && Lists(order, v) && Lists(order, w) && Targets(v, block) && SameMatches(v, w, cols, block)
    requires PartIn(v, w, cols) && MemoryRoute.ColumnsKept(block, cols) && (forall f :: f in block.filters ==> Listed(f)) && NodeId(block.fact, k) in v
    requires Renderable(cal, w, order, block, QueryOf(block, outs)) && MatchGrows(v, w, WalkedFor(block, QueryOf(block, outs)))
    ensures SameRows.AgreesWhereKept(cal, DbOf(v, order), QueryOf(block, outs), map[block.fact := CellsOf(v[NodeId(block.fact, k)])])
  {
    hide Answered.IsTree, Lists, Targets, SameMatches, SameRows.Fits, DbOf, QueryOf, CellsOf, PartIn, MatchGrows, MemoryRoute.ColumnsKept, Bound, RowsBound,
         SameRows.KeptByNeeded, SameRows.KeptByMatch, CypherMatch.KeysAgree, F.Full, AgreeOn, A.IsMatch, Listed;
    var q, row := QueryOf(block, outs), map[block.fact := CellsOf(v[NodeId(block.fact, k)])];
    if SameRows.KeptByNeeded(cal, DbOf(v, order), q, row) || SameRows.KeptByMatch(cal, DbOf(v, order), q, row) {
      assert NodeId(block.fact, k) in w by { InWhole(v, w, cols, NodeId(block.fact, k)); }
      var whole := map[block.fact := CellsOf(w[NodeId(block.fact, k)])];
      var b, c := Bound(v, order, block.fact, block.joins, k), Bound(w, order, block.fact, block.joins, k);
      SameBound(v, w, order, cols, block, k);
      if SameRows.KeptByNeeded(cal, DbOf(v, order), q, row) {
        KeptIsBoundMatch(cal, v, w, order, block, outs, k);
        KeptIsBoundMatch(cal, w, w, order, block, outs, k);
      } else {
        TargetsAre(w, block);
        KeptGrows(cal, v, w, order, block, q, outs, k);
        KeptByEither(cal, w, order, block, outs, k);
        KeptIsBoundMatch(cal, w, w, order, block, outs, k);
      }
      WholeAgrees(cal, w, order, block, outs, k);
      FullIsBoundRows(v, order, block, k);
      FullIsBoundRows(w, order, block, k);
      KeysAgreeBound(cols, block, RowsBound(v, b), RowsBound(w, c));
      assert q.joins == JoinsOf(block.joins) by { QueryIs(block, outs); }
    }
  }

  lemma InWhole(v: View, w: View, cols: Columns, id: NodeId)
    requires PartIn(v, w, cols) && id in v
    ensures id in w
  {
  }

  lemma TargetsAre(w: View, block: A.Block)
    requires Targets(w, block)
    ensures forall j :: j in block.joins ==> UniqueIn(w, j.t, j.tc)
  {
  }

  /** With every inner join needed, what the SQL keeps is a match. */
  lemma KeptIsBoundMatch(cal: S.Calendar, view: View, w: View, order: Order, block: A.Block, outs: seq<S.Expr>, k: Value)
    requires Answered.IsTree(block) && Lists(order, view) && (forall f :: f in block.filters ==> Listed(f)) && NodeId(block.fact, k) in view
    requires SameRows.Fits(cal, DbOf(w, order), QueryOf(block, outs))
    ensures SameRows.KeptByNeeded(cal, DbOf(view, order), QueryOf(block, outs), map[block.fact := CellsOf(view[NodeId(block.fact, k)])])
            <==> A.IsMatch(view, block, Bound(view, order, block.fact, block.joins, k))
  {
    hide Answered.IsTree, Lists, Listed, SameRows.Renders, R.Needed, DbOf, CellsOf, Bound, RowsBound, F.Full, F.Matched, S.KeepsAll, A.IsMatch, FiltersOf;
    KeptIsMatch(cal, view, order, block, k);
  }

  /** Over the warehouse, what the match keeps the SQL keeps. */
  lemma KeptByEither(cal: S.Calendar, w: View, order: Order, block: A.Block, outs: seq<S.Expr>, k: Value)
    requires Lists(order, w) && NodeId(block.fact, k) in w && SameRows.Fits(cal, DbOf(w, order), QueryOf(block, outs))
    requires SameRows.KeptByMatch(cal, DbOf(w, order), QueryOf(block, outs), map[block.fact := CellsOf(w[NodeId(block.fact, k)])])
    ensures SameRows.KeptByNeeded(cal, DbOf(w, order), QueryOf(block, outs), map[block.fact := CellsOf(w[NodeId(block.fact, k)])])
  {
    hide Lists, SameRows.Shaped, DbOf, CellsOf, SameRows.KeptByNeeded, SameRows.KeptByMatch, CypherMatch.KeysAgree, F.Full, F.TargetsUnique, R.Needed;
    FactRow(w, order, block.fact, k);
    SameRows.KeptAlike(cal, DbOf(w, order), QueryOf(block, outs), map[block.fact := CellsOf(w[NodeId(block.fact, k)])]);
  }

  lemma WholeAgrees(cal: S.Calendar, w: View, order: Order, block: A.Block, outs: seq<S.Expr>, k: Value)
    requires Lists(order, w) && NodeId(block.fact, k) in w && SameRows.Fits(cal, DbOf(w, order), QueryOf(block, outs))
    requires SameRows.KeptByNeeded(cal, DbOf(w, order), QueryOf(block, outs), map[block.fact := CellsOf(w[NodeId(block.fact, k)])])
    ensures CypherMatch.KeysAgree(JoinsOf(block.joins), F.Full(DbOf(w, order), JoinsOf(block.joins), map[block.fact := CellsOf(w[NodeId(block.fact, k)])]))
  {
    hide Lists, SameRows.Shaped, DbOf, CellsOf, SameRows.KeptByNeeded, SameRows.KeptByMatch, CypherMatch.KeysAgree, F.Full, F.TargetsUnique, R.Needed;
    FactRow(w, order, block.fact, k);
  }

  lemma FullIsBoundRows(view: View, order: Order, block: A.Block, k: Value)
    requires Answered.IsTree(block) && NodeId(block.fact, k) in view
    ensures F.Full(DbOf(view, order), JoinsOf(block.joins), map[block.fact := CellsOf(view[NodeId(block.fact, k)])])
         == RowsBound(view, Bound(view, order, block.fact, block.joins, k))
  {
    hide Answered.IsTree, DbOf, CellsOf, F.Full, RowsBound, Bound;
    TreeOfBlock(block);
    FullIsBound(view, order, block.fact, block.joins, k);
  }

  lemma KeysAgreeBound(cols: Columns, block: A.Block, b: S.Binding, c: S.Binding)
    requires MemoryRoute.ColumnsKept(block, cols) && AgreeOn(cols, b, c) && CypherMatch.KeysAgree(JoinsOf(block.joins), c)
    ensures CypherMatch.KeysAgree(JoinsOf(block.joins), b)
  {
    hide S.Cell, MemoryRoute.ColumnsRead;
    var js := JoinsOf(block.joins);
    forall d | d in js && d.outer
      ensures S.Cell(b, d.to, d.toCol) == S.Cell(b, d.from, d.fromCol)
    {
      var i :| 0 <= i < |js| && js[i] == d;
      assert block.joins[i] in block.joins;
    }
  }

  lemma FactRow(w: View, order: Order, fact: Label, k: Value)
    requires Lists(order, w) && NodeId(fact, k) in w
    ensures CellsOf(w[NodeId(fact, k)]) in F.RowsOf(DbOf(w, order), fact)
  {
    hide CellsOf;
    RowsInAre(w, fact, order[fact]);
  }

  /** A column unique in the whole is unique in a part of it. */
  lemma PartTargets(v: View, w: View, cols: Columns, block: A.Block)
    requires PartIn(v, w, cols) && MemoryRoute.ColumnsKept(block, cols) && Targets(w, block)
    ensures Targets(v, block)
  {
    hide MemoryRoute.ColumnsRead;
    forall j, x, y | j in block.joins && Shares(v, j.t, j.tc, x, y)
      ensures x == y
    {
      assert KeptWithin(v[NodeId(j.t, x)], w[NodeId(j.t, x)], cols[j.t]) && KeptWithin(v[NodeId(j.t, y)], w[NodeId(j.t, y)], cols[j.t]);
      assert Shares(w, j.t, j.tc, x, y);
    }
  }

  lemma FitsToo(cal: S.Calendar, v: View, w: View, order: Order, cols: Columns, block: A.Block, outs: seq<S.Expr>)
    requires Answered.IsTree(block) && Lists(order, v) && Lists(order, w) && Targets(v, block) && SameMatches(v, w, cols, block)
    requires PartIn(v, w, cols) && MemoryRoute.ColumnsKept(block, cols) && (forall f :: f in block.filters ==> Listed(f)) && block.fact in order
    requires Renderable(cal, w, order, block, QueryOf(block, outs)) && MatchGrows(v, w, WalkedFor(block, QueryOf(block, outs)))
    ensures SameRows.Fits(cal, DbOf(v, order), QueryOf(block, outs))
  {
    hide Answered.IsTree, Lists, SameMatches, SameRows.Shaped, R.SubstAll, R.Needed, CellsOf, A.IsMatch, F.TargetsUnique, PartIn, MatchGrows,
         MemoryRoute.ColumnsKept, SameRows.AgreesWhereKept, Listed, RowsIn;
    var q := QueryOf(block, outs);
    UniqueTargets(v, order, block);
    RowsInAre(v, block.fact, order[block.fact]);
    forall r | r in F.RowsOf(DbOf(v, order), block.fact)
      ensures SameRows.AgreesWhereKept(cal, DbOf(v, order), q, map[block.fact := r])
    {
      var k :| k in order[block.fact] && NodeId(block.fact, k) in v && r == CellsOf(v[NodeId(block.fact, k)]);
      FactAgrees(cal, v, w, order, cols, block, outs, k);
    }
  }

  /** The SQL's groups and values are the same over both. */
  lemma SameSql(cal: S.Calendar, v: View, w: View, order: Order, cols: Columns, block: A.Block, outs: seq<S.Expr>, dims: seq<S.Expr>, g: seq<S.Value>, e: S.Expr)
    requires Answered.IsTree(block) && Lists(order, v) && Lists(order, w) && Targets(v, block) && Targets(w, block) && SameMatches(v, w, cols, block)
    requires (forall f :: f in block.filters ==> Listed(f)) && block.fact in order
    requires Reads(e, cols) && forall x :: x in dims ==> Reads(x, cols)
    ensures var bs := M.Group(cal, dims, g, R.SqlRows(cal, DbOf(w, order), QueryOf(block, outs)));
            var cs := M.Group(cal, dims, g, R.SqlRows(cal, DbOf(v, order), QueryOf(block, outs)));
            |bs| == |cs| && forall i :: 0 <= i < |bs| ==> S.Eval(cal, e, bs[i], bs) == S.Eval(cal, e, cs[i], cs)
  {
    hide Answered.IsTree, Lists, Targets, SameMatches, R.SqlRows, M.Group, MatchRows, Reads, AgreeOn, S.Eval, Listed;
    TargetRowsAreMatches(cal, v, order, block, outs);
    TargetRowsAreMatches(cal, w, order, block, outs);
    SameMatchRows(v, w, order, cols, block, order[block.fact]);
    SameGroups(cal, dims, g, cols, MatchRows(v, order, block, order[block.fact]), MatchRows(w, order, block, order[block.fact]));
    var bs := M.Group(cal, dims, g, R.SqlRows(cal, DbOf(w, order), QueryOf(block, outs)));
    var cs := M.Group(cal, dims, g, R.SqlRows(cal, DbOf(v, order), QueryOf(block, outs)));
    forall i | 0 <= i < |bs|
      ensures S.Eval(cal, e, bs[i], bs) == S.Eval(cal, e, cs[i], cs)
    {
      SameValue(cal, e, cols, cs[i], cs, bs[i], bs);
    }
  }

  lemma TargetRowsAreMatches(cal: S.Calendar, view: View, order: Order, block: A.Block, outs: seq<S.Expr>)
    requires Answered.IsTree(block) && Lists(order, view) && (forall f :: f in block.filters ==> Listed(f)) && block.fact in order
    requires Targets(view, block)
    ensures R.SqlRows(cal, DbOf(view, order), QueryOf(block, outs)) == MatchRows(view, order, block, order[block.fact])
  {
    hide UniqueIn, MatchRows, Listed;
    SqlRowsAreMatches(cal, view, order, block, outs);
  }

  // ---- what memory holds for the reader, as tables

  /** The nodes a reader may read of memory, with every property remembered. */
  function Held(nodes: map<NodeId, MemNode>, m: View): View {
    map id | id in nodes && id in m :: nodes[id].props
  }

  /** The guard, told by a row's key. */
  ghost function GuardOf(keyOf: map<Label, Prop>, m: View): G.Guard {
    (t, row) => t in keyOf && keyOf[t] in row && exists k :: NodeId(t, k) in m && row[keyOf[t]] == S.Num(k as real)
  }

  /** Every node holds its key, which tells it. */
  ghost predicate KeysTell(keyOf: map<Label, Prop>, props: View) {
    forall id :: id in props ==> id.lb in keyOf && keyOf[id.lb] in props[id] && props[id][keyOf[id.lb]] == id.key
  }

  lemma GuardIs(keyOf: map<Label, Prop>, props: View, m: View, id: NodeId)
    requires KeysTell(keyOf, props) && id in props
    ensures GuardOf(keyOf, m)(id.lb, CellsOf(props[id])) <==> id in m
  {
    assert id == NodeId(id.lb, id.key);
    assert CellsOf(props[id])[keyOf[id.lb]] == S.Num(id.key as real);
  }

  lemma {:induction false} GuardedRows(keyOf: map<Label, Prop>, nodes: map<NodeId, MemNode>, m: View, t: Label, keys: seq<Value>)
    requires KeysTell(keyOf, PropsOf(nodes))
    ensures G.HeldRows(GuardOf(keyOf, m), t, RowsIn(PropsOf(nodes), t, keys)) == RowsIn(Held(nodes, m), t, keys)
  {
    hide CellsOf, KeysTell, GuardOf;
    if keys != [] {
      GuardedRows(keyOf, nodes, m, t, keys[1..]);
      var rest := RowsIn(PropsOf(nodes), t, keys[1..]);
      var id := NodeId(t, keys[0]);
      if id in nodes {
        GuardIs(keyOf, PropsOf(nodes), m, id);
        assert ([CellsOf(nodes[id].props)] + rest)[1..] == rest;
      } else {
        assert [] + rest == rest;
      }
    }
  }

  /** The guard leaves of memory's tables what it holds for the reader. */
  lemma GuardedTables(keyOf: map<Label, Prop>, nodes: map<NodeId, MemNode>, m: View, order: Order)
    requires KeysTell(keyOf, PropsOf(nodes))
    ensures G.Held(GuardOf(keyOf, m), DbOf(PropsOf(nodes), order)) == DbOf(Held(nodes, m), order)
  {
    hide RowsIn, GuardOf, KeysTell, G.HeldRows;
    forall t | t in order
      ensures G.HeldRows(GuardOf(keyOf, m), t, RowsIn(PropsOf(nodes), t, order[t])) == RowsIn(Held(nodes, m), t, order[t])
    {
      GuardedRows(keyOf, nodes, m, t, order[t]);
    }
  }

  // ---- the decision's yes

  /** A filter of the question translates, keeps its truth (its value, with no truth test in it), and raises no error. */
  lemma {:induction false} FilterTranslates(cal: S.Calendar, f: A.Filter, b: S.Binding)
    requires Listed(f) && TruthOnly(f)
    ensures CE.Translate(ExprOf(f)).Some? && CE.TruthExact(ExprOf(f)) && CE.Proper(cal, ExprOf(f), b, [])
    ensures !Tests(f) ==> CE.Exact(ExprOf(f))
    decreases f
  {
    hide CE.Translate, CE.Exact, CE.Proper, CE.TruthExact;
    match f
    case Compare(t, c, op, v, first) => Leaves(cal, S.Comparison(CmpOf(op)), ExprOf(f).kids, b);
    case OneOf(t, c, vs) =>
      var kids := ExprOf(f).kids;
      forall i | 0 <= i < |kids|
        ensures kids[i].Col? || (kids[i].Lit? && kids[i].v.Num?)
      {
      }
      Leaves(cal, S.InOp, kids, b);
    case IsNull(t, c) => Leaves(cal, S.IsNullOp, ExprOf(f).kids, b);
    case IsBool(t, c, v) =>
      Leaves(cal, S.Comparison(S.Eq), [S.Col(t, c), LitOf(1)], b);
      Test(cal, v, S.Node(S.Comparison(S.Eq), [S.Col(t, c), LitOf(1)]), b);
    case CompareColumns(t, c, op, t', c') => Leaves(cal, S.Comparison(CmpOf(op)), ExprOf(f).kids, b);
    case Not(g) =>
      NoTests(g);
      FilterTranslates(cal, g, b);
      Parts(cal, S.NotOp, [ExprOf(g)], b);
    case And(l, r) =>
      FilterTranslates(cal, l, b);
      FilterTranslates(cal, r, b);
      TruthParts(cal, S.AndOp, [ExprOf(l), ExprOf(r)], b);
    case Or(l, r) =>
      FilterTranslates(cal, l, b);
      FilterTranslates(cal, r, b);
      TruthParts(cal, S.OrOp, [ExprOf(l), ExprOf(r)], b);
  }

  lemma {:induction false} NoTests(f: A.Filter)
    requires !Tests(f)
    ensures TruthOnly(f)
  {
    match f
    case And(l, r) => NoTests(l); NoTests(r);
    case Or(l, r) => NoTests(l); NoTests(r);
    case _ =>
  }

  lemma Test(cal: S.Calendar, v: bool, x: S.Expr, b: S.Binding)
    requires CE.Translate(x).Some? && CE.Exact(x) && CE.Proper(cal, x, b, [])
    ensures var e := S.Node(S.IsBoolOp(v), [x]); CE.Translate(e).Some? && CE.TruthExact(e) && CE.Proper(cal, e, b, [])
  {
    assert [x][0] == x;
  }

  lemma TruthParts(cal: S.Calendar, op: S.Op, kids: seq<S.Expr>, b: S.Binding)
    requires (op.AndOp? || op.OrOp?) && |kids| == 2
    requires forall i :: 0 <= i < |kids| ==> CE.Translate(kids[i]).Some? && CE.TruthExact(kids[i]) && CE.Proper(cal, kids[i], b, [])
    ensures CE.Translate(S.Node(op, kids)).Some? && CE.TruthExact(S.Node(op, kids)) && CE.Proper(cal, S.Node(op, kids), b, [])
    ensures (forall i :: 0 <= i < |kids| ==> CE.Exact(kids[i])) ==> CE.Exact(S.Node(op, kids))
  {
  }

  lemma Leaves(cal: S.Calendar, op: S.Op, kids: seq<S.Expr>, b: S.Binding)
    requires (op.Comparison? && |kids| == 2) || (op.InOp? && |kids| >= 2) || (op.IsNullOp? && |kids| == 1)
    requires forall i :: 0 <= i < |kids| ==> kids[i].Col? || (kids[i].Lit? && kids[i].v.Num?)
    ensures CE.Translate(S.Node(op, kids)).Some? && CE.Exact(S.Node(op, kids)) && CE.Proper(cal, S.Node(op, kids), b, [])
    ensures CE.TruthExact(S.Node(op, kids))
  {
    forall i | 0 <= i < |kids|
      ensures CE.Translate(kids[i]).Some? && CE.Exact(kids[i]) && CE.Proper(cal, kids[i], b, [])
    {
    }
    Parts(cal, op, kids, b);
  }

  lemma Parts(cal: S.Calendar, op: S.Op, kids: seq<S.Expr>, b: S.Binding)
    requires (op.Comparison? && |kids| == 2 && !CE.IsDateCall(kids[0])) || (op.InOp? && |kids| >= 2) || (op.IsNullOp? && |kids| == 1)
             || (op.NotOp? && |kids| == 1) || ((op.AndOp? || op.OrOp?) && |kids| == 2)
    requires forall i :: 0 <= i < |kids| ==> CE.Translate(kids[i]).Some? && CE.Exact(kids[i]) && CE.Proper(cal, kids[i], b, [])
    ensures CE.Translate(S.Node(op, kids)).Some? && CE.Exact(S.Node(op, kids)) && CE.Proper(cal, S.Node(op, kids), b, [])
    ensures CE.TruthExact(S.Node(op, kids))
  {
  }

  lemma FiltersFilter(d: CE.Dialect, fs: seq<A.Filter>, rows: seq<S.Binding>)
    requires forall f :: f in fs ==> Listed(f) && TruthOnly(f)
    ensures CM.Filterable(d, FiltersOf(fs), rows)
  {
    hide CE.Translate, CE.Exact, CE.TruthExact, CE.Proper, ExprOf, Listed, TruthOnly;
    var es := FiltersOf(fs);
    forall e | e in es
      ensures CE.Translate(e).Some? && CE.TruthExact(e)
      ensures forall b :: CE.Proper(d.cal, e, b, [])
    {
      var i :| 0 <= i < |es| && es[i] == e;
      assert fs[i] in fs;
      FilterTranslates(d.cal, fs[i], map[]);
      forall b
        ensures CE.Proper(d.cal, e, b, [])
      {
        FilterTranslates(d.cal, fs[i], b);
      }
    }
  }

  /** The filters as the Cypher reads them do too. */
  lemma ReadFiltersFilter(d: CE.Dialect, block: A.Block, outs: seq<S.Expr>, rows: seq<S.Binding>)
    requires forall f :: f in block.filters ==> Listed(f) && TruthOnly(f)
    ensures var q := QueryOf(block, outs); CM.Filterable(d, R.SubstAll(q.joins, q.filters), rows)
  {
    hide ExprOf, Listed, TruthOnly, ReadFilter, CM.Filterable, R.SubstAll;
    var q := QueryOf(block, outs);
    var fs := ReadFilters(q.joins, block.filters);
    forall f | f in fs
      ensures Listed(f) && TruthOnly(f)
    {
      var i :| 0 <= i < |fs| && fs[i] == f;
      assert block.filters[i] in block.filters;
      ReadKeeps(q.joins, block.filters[i]);
    }
    FiltersFilter(d, fs, rows);
    ReadAllMeans(q.joins, block.filters);
  }

  /** The answer's other expressions have a translation, with SQL's value, and raise no error over its rows. */
  ghost predicate Evaluable(d: CE.Dialect, db: F.Db, guard: G.Guard, q: R.Query, dims: seq<S.Expr>, g: seq<S.Value>, e: S.Expr) {
    && e in q.outs && (forall x :: x in dims ==> x in q.outs)
    && CM.AllTranslate(R.SubstAll(q.joins, q.filters))
    && CM.Groupable(d, R.SubstAll(q.joins, dims), R.CypherRows(d.cal, G.Held(guard, db), q.fact, SameRows.Rendering(q)))
    && CE.Translate(CypherMatch.Subst(q.joins, e)).Some? && CE.Exact(CypherMatch.Subst(q.joins, e))
    && (forall b :: b in MemoryMeans.CyMemoryAnswer(d, db, guard, q, dims, g) ==>
         CE.Proper(d.cal, CypherMatch.Subst(q.joins, e), b, MemoryMeans.CyMemoryAnswer(d, db, guard, q, dims, g)))
    && (dims == [] && MemoryMeans.CyMemoryAnswer(d, db, guard, q, dims, g) == [] ==> CE.Proper(d.cal, CypherMatch.Subst(q.joins, e), map[], []))
  }

  /** The groups and the output's values the guarded Cypher gives over memory's tables are those of the SQL over the
      warehouse's; so is the value of a question without dimensions that has no rows. */
  ghost predicate AnswersAsSql(d: CE.Dialect, memory: F.Db, guard: G.Guard, warehouse: F.Db, q: R.Query, dims: seq<S.Expr>, g: seq<S.Value>, e: S.Expr)
    requires Evaluable(d, memory, guard, q, dims, g, e)
  {
    var bs, cs := M.Group(d.cal, dims, g, R.SqlRows(d.cal, warehouse, q)), MemoryMeans.CyMemoryAnswer(d, memory, guard, q, dims, g);
    && |bs| == |cs|
    && (forall i :: 0 <= i < |bs| ==> S.Eval(d.cal, e, bs[i], bs) == CE.CyEval(d, CE.Translate(CypherMatch.Subst(q.joins, e)).value, cs[i], cs))
    && (dims == [] && bs == [] ==> S.Eval(d.cal, e, map[], []) == CE.CyEval(d, CE.Translate(CypherMatch.Subst(q.joins, e)).value, map[], []))
  }

  lemma SameThroughMemory(c: Config, rels: seq<Rel>, w: World, nodes: map<NodeId, MemNode>, edges: set<Edge>, recs: set<Recorded>, clock: nat, r: Recorded,
                          block: A.Block, readable: Columns)
    requires c.Valid() && Keyed(c, w) && KeysHeld(c, nodes) && AllLinked(c, w, nodes, edges, recs, clock)
    requires Truths(c, w, nodes, recs, clock)
    requires r in recs && Fresh(r, r.owner, r.template, r.node, clock) && c.Lasts(r)
    requires MemoryRoute.Suits(c, rels, r.template, r.node.lb) && MemoryRoute.RouteOk(c, rels, r.template, block, readable)
    requires MemoryRoute.CoversBy(c, rels, block, r, clock)
    ensures SameMatches(Held(nodes, Remembered(c, nodes, recs, r.owner, r.template, clock)), MemoryRoute.Readable(c, w, r.owner, r.template, readable),
                        r.template.cols, block)
  {
    hide Truths, Keyed, KeysHeld, AllLinked, Config.Lasts, MemoryRoute.Suits, MemoryRoute.RouteOk, Remembered, A.IsMatch, A.Covers,
         MemoryRoute.IsMatchByEdges, MemoryRoute.ColumnsKept;
    var m, whole := Remembered(c, nodes, recs, r.owner, r.template, clock), MemoryRoute.Readable(c, w, r.owner, r.template, readable);
    HeldNarrowed(c, nodes, recs, r.owner, r.template, clock);
    RouteColumns(c, rels, r.template, block, readable);
    forall b
      ensures A.IsMatch(Held(nodes, m), block, b) <==> A.IsMatch(whole, block, b)
      ensures A.IsMatch(whole, block, b) ==> MemoryRoute.SameCells(Held(nodes, m), whole, r.template.cols, b)
    {
      MemoryRoute.YesIsExact(c, rels, w, nodes, edges, recs, clock, r, block, readable, b);
      MemoryRoute.MatchNarrowed(m, Held(nodes, m), r.template.cols, block, b);
      CellsOfHeld(m, Held(nodes, m), r.template.cols, b);
    }
  }

  lemma RouteColumns(c: Config, rels: seq<Rel>, t: TemplateId, block: A.Block, readable: Columns)
    requires MemoryRoute.RouteOk(c, rels, t, block, readable)
    ensures MemoryRoute.ColumnsKept(block, t.cols) && Answered.IsTree(block)
    ensures readable.Keys == t.cols.Keys && forall l :: l in readable ==> t.cols[l] <= readable[l]
  {
    hide Answered.IsTree, Answered.Plain, MemoryRoute.IsRelationship, MemoryRoute.ColumnsRead;
  }

  lemma HeldNarrowed(c: Config, nodes: map<NodeId, MemNode>, recs: set<Recorded>, owner: nat, t: TemplateId, now: nat)
    ensures MemoryRoute.Narrowed(Remembered(c, nodes, recs, owner, t, now), Held(nodes, Remembered(c, nodes, recs, owner, t, now)), t.cols)
  {
    hide Remembered;
    var m := Remembered(c, nodes, recs, owner, t, now);
    forall id | id in m
      ensures id in nodes && id.lb in t.cols && m[id] == Project(nodes[id].props, t.cols[id.lb])
    {
      MemoryRoute.RememberedNode(c, nodes, recs, owner, t, now, id);
    }
  }

  lemma CellsOfHeld(m: View, v: View, cols: Columns, b: A.Binding)
    requires MemoryRoute.Narrowed(m, v, cols)
    ensures MemoryRoute.SameCells(m, v, cols, b)
  {
  }

  /** What memory holds for the reader is part of the reader's warehouse. */
  lemma HeldIsPart(c: Config, w: World, nodes: map<NodeId, MemNode>, recs: set<Recorded>, clock: nat, owner: nat, t: TemplateId, readable: Columns)
    requires TrueNodes(c, w, nodes, clock) && SeenTruly(c, w, recs)
    requires readable.Keys == t.cols.Keys && forall l :: l in readable ==> t.cols[l] <= readable[l]
    ensures PartIn(Held(nodes, Remembered(c, nodes, recs, owner, t, clock)), MemoryRoute.Readable(c, w, owner, t, readable), t.cols)
  {
    hide Remembered, TrueNodes, SeenTruly, Warehouse;
    var m, whole := Remembered(c, nodes, recs, owner, t, clock), MemoryRoute.Readable(c, w, owner, t, readable);
    RememberedIsPart(c, w, nodes, recs, owner, t, clock, clock);
    MemoryRoute.WarehouseNarrowed(c, w, owner, t, readable);
    HeldNarrowed(c, nodes, recs, owner, t, clock);
    var v, part := Held(nodes, m), Warehouse(c, w, owner, t);
    forall id | id in v
      ensures id in whole && id.lb in t.cols && KeptWithin(v[id], whole[id], t.cols[id.lb])
    {
      assert id in m && m[id] == Project(v[id], t.cols[id.lb]);
      assert id in part && Data.Within(m[id], part[id]) && part[id] == Project(whole[id], t.cols[id.lb]);
      WithinProjected(v[id], whole[id], t.cols[id.lb]);
    }
  }

  lemma WithinProjected(x: Row, y: Row, ps: set<Prop>)
    requires Data.Within(Project(x, ps), Project(y, ps))
    ensures KeptWithin(x, y, ps)
  {
    forall p | p in ps && p in x
      ensures p in y && x[p] == y[p]
    {
      assert p in Project(x, ps) && p in Project(y, ps) && Project(x, ps)[p] == Project(y, ps)[p];
    }
  }

  /** What the rendering's own question matches of memory it matches of the warehouse. */
  lemma WalkGrows(cal: S.Calendar, c: Config, rels: seq<Rel>, w: World, nodes: map<NodeId, MemNode>, recs: set<Recorded>, clock: nat, r: Recorded,
                  block: A.Block, readable: Columns, order: Order, outs: seq<S.Expr>)
    requires c.Valid() && Keyed(c, w) && Truths(c, w, nodes, recs, clock)
    requires r in recs && Fresh(r, r.owner, r.template, r.node, clock) && c.Lasts(r)
    requires MemoryRoute.Suits(c, rels, r.template, r.node.lb) && MemoryRoute.RouteOk(c, rels, r.template, block, readable)
    requires MemoryRoute.CoversBy(c, rels, block, r, clock)
    requires Renderable(cal, MemoryRoute.Readable(c, w, r.owner, r.template, readable), order, block, QueryOf(block, outs))
    ensures MatchGrows(Held(nodes, Remembered(c, nodes, recs, r.owner, r.template, clock)), MemoryRoute.Readable(c, w, r.owner, r.template, readable),
                       WalkedFor(block, QueryOf(block, outs)))
  {
    hide Truths, Keyed, Config.Lasts, MemoryRoute.Suits, MemoryRoute.RouteOk, Remembered, A.IsMatch, A.Covers, MemoryRoute.ColumnsKept, Targets, SameRows.Shaped,
         QueryOf, WalkedFor, R.Needed, SameRows.Renders, Answered.Fits, Answered.Setting.Sound, Answered.IsTree, IsWalk, WalkedContext.HasKeys, Warehouse, DbOf;
    var m, whole := Remembered(c, nodes, recs, r.owner, r.template, clock), MemoryRoute.Readable(c, w, r.owner, r.template, readable);
    var s, cols := MemoryRoute.SettingOf(c, rels, w, nodes, recs, r, clock), r.template.cols;
    var q := QueryOf(block, outs);
    var walked := WalkedFor(block, q);
    MemoryRoute.TruthsSay(c, w, nodes, recs, clock, r);
    MemoryRoute.SettingSound(c, rels, w, nodes, recs, clock, r, clock, block, readable);
    RouteColumns(c, rels, r.template, block, readable);
    FitsShaped(cal, whole, order, block, outs);
    WalkedIsWalk(cal, block, q, outs);
    WalkedKept(block, q, outs, cols);
    KeysInWarehouse(c, rels, w, nodes, recs, clock, r);
    HeldNarrowed(c, nodes, recs, r.owner, r.template, clock);
    MemoryRoute.WarehouseNarrowed(c, w, r.owner, r.template, readable);
    forall b | A.IsMatch(Held(nodes, m), walked, b)
      ensures A.IsMatch(whole, walked, b)
    {
      MemoryRoute.MatchNarrowed(m, Held(nodes, m), cols, walked, b);
      WalkedContext.WalkedInWarehouse(s, block, walked, b, r.capped, c.since(clock));
      MemoryRoute.MatchNarrowed(s.w, whole, cols, walked, b);
    }
  }

  lemma FitsShaped(cal: S.Calendar, w: View, order: Order, block: A.Block, outs: seq<S.Expr>)
    requires Renderable(cal, w, order, block, QueryOf(block, outs))
    ensures var q := QueryOf(block, outs);
            SameRows.Shaped(cal, q) && forall j :: j in q.joins && !j.outer ==> j.to in R.Needed(q)
  {
    hide SameRows.Shaped, R.Needed, F.TargetsUnique, SameRows.AgreesWhereKept;
  }

  lemma KeysInWarehouse(c: Config, rels: seq<Rel>, w: World, nodes: map<NodeId, MemNode>, recs: set<Recorded>, clock: nat, r: Recorded)
    requires Keyed(c, w) && MemoryRoute.Suits(c, rels, r.template, r.node.lb)
    ensures WalkedContext.HasKeys(MemoryRoute.SettingOf(c, rels, w, nodes, recs, r, clock))
  {
    hide Remembered;
  }

  lemma KeysDoTell(c: Config, w: World, nodes: map<NodeId, MemNode>, clock: nat)
    requires Keyed(c, w) && KeysHeld(c, nodes) && TrueNodes(c, w, nodes, clock) && forall id :: id in nodes ==> id.lb in c.keyOf
    ensures KeysTell(c.keyOf, PropsOf(nodes))
  {
    forall id | id in nodes
      ensures c.keyOf[id.lb] in nodes[id].props && nodes[id].props[c.keyOf[id.lb]] == id.key
    {
      MemoryRoute.KeyIsTrue(c, w, nodes, clock, id);
    }
  }

  /** When the decision is yes, for a reader of any part of the model, whoever wrote and swept memory: the guarded
      Cypher rendered for the question, evaluated as Cypher over everything in memory, has the groups, and every
      output's value over each, that the question's SQL has over the reader's rows in the warehouse. */
  lemma RoutedMeansSql(d: CE.Dialect, c: Config, rels: seq<Rel>, w: World, nodes: map<NodeId, MemNode>, edges: set<Edge>, recs: set<Recorded>, clock: nat,
                       r: Recorded, block: A.Block, readable: Columns, order: Order, outs: seq<S.Expr>, dims: seq<S.Expr>, g: seq<S.Value>, e: S.Expr)
    requires c.Valid() && Keyed(c, w) && KeysHeld(c, nodes) && AllLinked(c, w, nodes, edges, recs, clock)
    requires Truths(c, w, nodes, recs, clock)
    requires r in recs && Fresh(r, r.owner, r.template, r.node, clock) && c.Lasts(r)
    requires MemoryRoute.Suits(c, rels, r.template, r.node.lb) && MemoryRoute.RouteOk(c, rels, r.template, block, readable)
    requires MemoryRoute.CoversBy(c, rels, block, r, clock)
    requires (forall id :: id in nodes ==> id.lb in c.keyOf) && (forall f :: f in block.filters ==> Listed(f) && TruthOnly(f)) && block.fact in order
    requires Lists(order, PropsOf(nodes)) && Lists(order, MemoryRoute.Readable(c, w, r.owner, r.template, readable))
    requires Renderable(d.cal, MemoryRoute.Readable(c, w, r.owner, r.template, readable), order, block, QueryOf(block, outs))
    requires Reads(e, r.template.cols) && forall x :: x in dims ==> Reads(x, r.template.cols)
    requires Evaluable(d, DbOf(PropsOf(nodes), order), GuardOf(c.keyOf, Remembered(c, nodes, recs, r.owner, r.template, clock)), QueryOf(block, outs), dims, g, e)
    ensures AnswersAsSql(d, DbOf(PropsOf(nodes), order), GuardOf(c.keyOf, Remembered(c, nodes, recs, r.owner, r.template, clock)),
                         DbOf(MemoryRoute.Readable(c, w, r.owner, r.template, readable), order), QueryOf(block, outs), dims, g, e)
  {
    hide Keyed, KeysHeld, AllLinked, Config.Lasts, MemoryRoute.Suits, MemoryRoute.RouteOk, MemoryRoute.CoversBy, Remembered, DbOf, QueryOf, TrueNodes,
         RecordsTrue, ContextsKept, SeenTruly, Lists, Targets, SameMatches, Listed, Reads, GuardOf, M.Group, R.SqlRows, MemoryMeans.CyMemoryAnswer,
         S.Eval, CE.CyEval, CE.Translate, CE.Exact, CE.Proper, CypherMatch.Subst, G.Held, SameRows.Fits, MemoryRoute.Readable, Answered.IsTree, PartIn,
         MatchGrows, MemoryRoute.ColumnsKept, TruthOnly, WalkedFor,
         SameRows.Rendering, SameRows.InnerJoins, R.CypherRows, R.SubstAll, CM.Filterable, CM.Groupable, KeysTell;
    var m, whole := Remembered(c, nodes, recs, r.owner, r.template, clock), MemoryRoute.Readable(c, w, r.owner, r.template, readable);
    var v, q := Held(nodes, m), QueryOf(block, outs);
    RouteColumns(c, rels, r.template, block, readable);
    SameThroughMemory(c, rels, w, nodes, edges, recs, clock, r, block, readable);
    HeldIsPart(c, w, nodes, recs, clock, r.owner, r.template, readable);
    PartTargets(v, whole, r.template.cols, block);
    WalkGrows(d.cal, c, rels, w, nodes, recs, clock, r, block, readable, order, outs);
    HeldListed(nodes, m, order);
    FitsToo(d.cal, v, whole, order, r.template.cols, block, outs);
    KeysDoTell(c, w, nodes, clock);
    GuardedTables(c.keyOf, nodes, m, order);
    ReadFiltersFilter(d, block, outs, F.Joined(DbOf(v, order), SameRows.InnerJoins(q), F.Facts(DbOf(v, order), q.fact)));
    MemoryMeans.MemoryMeansSql(d, DbOf(PropsOf(nodes), order), GuardOf(c.keyOf, m), q, dims, g, e);
    SameSql(d.cal, v, whole, order, r.template.cols, block, outs, dims, g, e);
  }

  lemma QueryIs(block: A.Block, outs: seq<S.Expr>)
    ensures var q := QueryOf(block, outs); q.fact == block.fact && q.joins == JoinsOf(block.joins) && q.filters == FiltersOf(block.filters) && q.outs == outs
  {
  }

  lemma HeldListed(nodes: map<NodeId, MemNode>, m: View, order: Order)
    requires Lists(order, PropsOf(nodes))
    ensures Lists(order, Held(nodes, m))
  {
  }
}
