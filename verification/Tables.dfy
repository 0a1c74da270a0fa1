/** A graph's nodes as tables: a question of the memory route as the compiler's query, its bindings as a FROM's rows. */
module Tables {
  import opened Options
  import opened Data
  import A = Answerable
  import Answered
  import S = Sql
  import F = From
  import R = Rendered
  import SameRows
  import M = Measures

  // ---- nodes as rows

  function CellsOf(row: Row): S.Row {
    map p | p in row :: S.Num(row[p] as real)
  }

  /** A label's nodes, in the order of their keys given. */
  function RowsIn(view: View, t: Label, keys: seq<Value>): seq<S.Row> {
    if keys == [] then []
    else (if NodeId(t, keys[0]) in view then [CellsOf(view[NodeId(t, keys[0])])] else []) + RowsIn(view, t, keys[1..])
  }

  /** Every label's keys, in the order its table has them. */
  type Order = map<Label, seq<Value>>

  ghost predicate Lists(order: Order, view: View) {
    && (forall id :: id in view ==> id.lb in order && id.key in order[id.lb])
    && forall t :: t in order ==> NoDup(order[t])
  }

  function DbOf(view: View, order: Order): F.Db {
    map t | t in order :: RowsIn(view, t, order[t])
  }

  lemma {:induction false} RowsInAre(view: View, t: Label, keys: seq<Value>)
    ensures forall r :: r in RowsIn(view, t, keys) <==> exists k :: k in keys && NodeId(t, k) in view && r == CellsOf(view[NodeId(t, k)])
  {
    hide CellsOf;
    if keys != [] {
      RowsInAre(view, t, keys[1..]);
      assert keys == [keys[0]] + keys[1..];
      forall r
        ensures r in RowsIn(view, t, keys) <==> exists k :: k in keys && NodeId(t, k) in view && r == CellsOf(view[NodeId(t, k)])
      {
        if k :| k in keys && NodeId(t, k) in view && r == CellsOf(view[NodeId(t, k)]) {
          assert k == keys[0] || k in keys[1..];
        }
      }
    }
  }

  /** No two nodes of a label share a column's value. */
  ghost predicate UniqueIn(view: View, t: Label, c: Prop) {
    forall x, y :: Shares(view, t, c, x, y) ==> x == y
  }

  predicate Shares(view: View, t: Label, c: Prop, x: Value, y: Value) {
    && NodeId(t, x) in view && NodeId(t, y) in view
    && c in view[NodeId(t, x)] && c in view[NodeId(t, y)] && view[NodeId(t, x)][c] == view[NodeId(t, y)][c]
  }

  lemma SharesCell(view: View, t: Label, c: Prop, x: Value, y: Value)
    requires NodeId(t, x) in view && NodeId(t, y) in view
    ensures var a, b := F.CellOf(CellsOf(view[NodeId(t, x)]), c), F.CellOf(CellsOf(view[NodeId(t, y)]), c);
            Shares(view, t, c, x, y) <==> !a.Null? && a == b
  {
  }

  /** A node's row shares no value of a unique column with another's. */
  lemma HeadUnique(view: View, t: Label, c: Prop, keys: seq<Value>, r: S.Row)
    requires UniqueIn(view, t, c) && NoDup(keys) && keys != [] && NodeId(t, keys[0]) in view && r in RowsIn(view, t, keys[1..])
    ensures var head := F.CellOf(CellsOf(view[NodeId(t, keys[0])]), c); head.Null? || head != F.CellOf(r, c)
  {
    hide CellsOf, F.CellOf, Shares;
    RowsInAre(view, t, keys[1..]);
    var y :| y in keys[1..] && NodeId(t, y) in view && r == CellsOf(view[NodeId(t, y)]);
    assert keys[0] != y;
    SharesCell(view, t, c, keys[0], y);
  }

  ghost predicate UniqueRows(rows: seq<S.Row>, c: Prop) {
    forall i, k :: 0 <= i < k < |rows| && !F.CellOf(rows[i], c).Null? ==> F.CellOf(rows[i], c) != F.CellOf(rows[k], c)
  }

  lemma {:induction false} RowsUnique(view: View, t: Label, c: Prop, keys: seq<Value>)
    requires UniqueIn(view, t, c) && NoDup(keys)
    ensures UniqueRows(RowsIn(view, t, keys), c)
  {
    hide CellsOf, F.CellOf, UniqueIn;
    if keys != [] {
      var rows, rest := RowsIn(view, t, keys), RowsIn(view, t, keys[1..]);
      assert NoDup(keys[1..]);
      RowsUnique(view, t, c, keys[1..]);
      if NodeId(t, keys[0]) in view {
        assert rows == [CellsOf(view[NodeId(t, keys[0])])] + rest;
        forall i, k | 0 <= i < k < |rows| && !F.CellOf(rows[i], c).Null?
          ensures F.CellOf(rows[i], c) != F.CellOf(rows[k], c)
        {
          assert rows[k] == rest[k - 1] && rest[k - 1] in rest;
          if i == 0 {
            HeadUnique(view, t, c, keys, rows[k]);
          } else {
            assert rows[i] == rest[i - 1];
          }
        }
      } else {
        assert rows == rest;
      }
    }
  }

  lemma UniqueTable(view: View, order: Order, t: Label, c: Prop)
    requires UniqueIn(view, t, c) && Lists(order, view)
    ensures F.Unique(DbOf(view, order), t, c)
  {
    hide UniqueIn, RowsIn;
    if t in order {
      RowsUnique(view, t, c, order[t]);
      assert F.RowsOf(DbOf(view, order), t) == RowsIn(view, t, order[t]);
    } else {
      assert F.RowsOf(DbOf(view, order), t) == [];
    }
  }

  // ---- the question as a query

  function CmpOf(op: A.Op): S.CmpOp {
    match op
    case EqOp => S.Eq
    case NeOp => S.Ne
    case GtOp => S.Gt
    case GeOp => S.Ge
    case LtOp => S.Lt
    case LeOp => S.Le
  }

  function LitOf(v: Value): S.Expr {
    S.Lit(S.Num(v as real))
  }

  function ExprOf(f: A.Filter): S.Expr {
    match f
    case Compare(t, c, op, v, first) => S.Node(S.Comparison(CmpOf(op)), if first then [S.Col(t, c), LitOf(v)] else [LitOf(v), S.Col(t, c)])
    case OneOf(t, c, vs) => S.Node(S.InOp, [S.Col(t, c)] + seq(|vs|, i requires 0 <= i < |vs| => LitOf(vs[i])))
    case IsNull(t, c) => S.Node(S.IsNullOp, [S.Col(t, c)])
    case IsBool(t, c, v) => S.Node(S.IsBoolOp(v), [S.Node(S.Comparison(S.Eq), [S.Col(t, c), LitOf(1)])])
    case CompareColumns(t, c, op, t', c') => S.Node(S.Comparison(CmpOf(op)), [S.Col(t, c), S.Col(t', c')])
    case Not(g) => S.Node(S.NotOp, [ExprOf(g)])
    case And(l, r) => S.Node(S.AndOp, [ExprOf(l), ExprOf(r)])
    case Or(l, r) => S.Node(S.OrOp, [ExprOf(l), ExprOf(r)])
  }

  /** SQL has no empty IN list. */
  predicate Listed(f: A.Filter) {
    match f
    case Compare(_, _, _, _, _) => true
    case OneOf(_, _, vs) => vs != []
    case IsNull(_, _) => true
    case IsBool(_, _, _) => true
    case CompareColumns(_, _, _, _, _) => true
    case Not(g) => Listed(g)
    case And(l, r) => Listed(l) && Listed(r)
    case Or(l, r) => Listed(l) && Listed(r)
  }

  function JoinOf(j: A.Join): F.Join {
    F.Join(j.a, j.ac, j.t, j.tc, j.outer)
  }

  function JoinsOf(joins: seq<A.Join>): (js: seq<F.Join>)
    ensures |js| == |joins| && forall i :: 0 <= i < |joins| ==> js[i] == JoinOf(joins[i])
  {
    seq(|joins|, i requires 0 <= i < |joins| => JoinOf(joins[i]))
  }

  function FiltersOf(fs: seq<A.Filter>): (es: seq<S.Expr>)
    ensures |es| == |fs| && forall i :: 0 <= i < |fs| ==> es[i] == ExprOf(fs[i])
  {
    seq(|fs|, i requires 0 <= i < |fs| => ExprOf(fs[i]))
  }

  function QueryOf(block: A.Block, outs: seq<S.Expr>): R.Query {
    R.Query(block.fact, JoinsOf(block.joins), FiltersOf(block.filters), outs)
  }

  // ---- a binding as a FROM's row

  function RowsBound(view: View, b: A.Binding): S.Binding {
    map t | t in b :: CellsOf(A.RowOf(view, b, t))
  }

  function ValueOf(x: Option<Value>): S.Value {
    if x.Some? then S.Num(x.value as real) else S.Null
  }

  function TruthValue(x: A.Truth): S.Value {
    match x
    case True => S.Bool(true)
    case False => S.Bool(false)
    case Unknown => S.Null
  }

  lemma CellIs(view: View, b: A.Binding, t: Label, c: Prop)
    ensures S.Cell(RowsBound(view, b), t, c) == ValueOf(A.Cell(view, b, t, c))
  {
  }

  lemma ComparesAs(op: A.Op, x: Value, y: Value)
    ensures S.Compare(CmpOf(op), S.Num(x as real), S.Num(y as real)) == S.Bool(A.Holds(op, x, y))
  {
  }

  lemma {:induction false} InMeans(x: Option<Value>, vs: seq<Value>)
    ensures S.InOf(ValueOf(x), seq(|vs|, i requires 0 <= i < |vs| => S.Num(vs[i] as real)))
            == if vs == [] then S.Bool(false) else if x.None? then S.Null else S.Bool(x.value in vs)
  {
    var items := seq(|vs|, i requires 0 <= i < |vs| => S.Num(vs[i] as real));
    if vs != [] {
      InMeans(x, vs[1..]);
      assert items[1..] == seq(|vs[1..]|, i requires 0 <= i < |vs[1..]| => S.Num(vs[1..][i] as real));
      if x.Some? {
        ComparesAs(A.EqOp, x.value, vs[0]);
        assert x.value in vs <==> x.value == vs[0] || x.value in vs[1..];
      }
    }
  }

  lemma OneKid(cal: S.Calendar, op: S.Op, x: S.Expr, b: S.Binding)
    ensures S.Eval(cal, S.Node(op, [x]), b, []) == S.Apply(cal, op, [S.Eval(cal, x, b, [])])
  {
    var kids := [x];
    assert seq(|kids|, i requires 0 <= i < |kids| => S.Eval(cal, kids[i], b, [])) == [S.Eval(cal, x, b, [])];
  }

  lemma TwoKids(cal: S.Calendar, op: S.Op, x: S.Expr, y: S.Expr, b: S.Binding)
    ensures S.Eval(cal, S.Node(op, [x, y]), b, []) == S.Apply(cal, op, [S.Eval(cal, x, b, []), S.Eval(cal, y, b, [])])
  {
    var kids := [x, y];
    assert seq(|kids|, i requires 0 <= i < |kids| => S.Eval(cal, kids[i], b, [])) == [S.Eval(cal, x, b, []), S.Eval(cal, y, b, [])];
  }

  lemma ListMeans(cal: S.Calendar, b: S.Binding, t: Label, c: Prop, vs: seq<Value>)
    ensures S.Eval(cal, ExprOf(A.OneOf(t, c, vs)), b, []) == S.InOf(S.Cell(b, t, c), seq(|vs|, i requires 0 <= i < |vs| => S.Num(vs[i] as real)))
  {
    var kids := [S.Col(t, c)] + seq(|vs|, i requires 0 <= i < |vs| => LitOf(vs[i]));
    var items := seq(|vs|, i requires 0 <= i < |vs| => S.Num(vs[i] as real));
    var values := seq(|kids|, i requires 0 <= i < |kids| => S.Eval(cal, kids[i], b, []));
    assert values[0] == S.Cell(b, t, c) && values[1..] == items;
    assert S.Eval(cal, S.Node(S.InOp, kids), b, []) == S.Apply(cal, S.InOp, values);
  }

  lemma ComparisonMeans(cal: S.Calendar, view: View, b: A.Binding, t: Label, c: Prop, op: A.Op, v: Value, first: bool)
    ensures S.Eval(cal, ExprOf(A.Compare(t, c, op, v, first)), RowsBound(view, b), []) == TruthValue(A.Eval(view, b, A.Compare(t, c, op, v, first)))
  {
    hide RowsBound, A.Cell;
    var row, x := RowsBound(view, b), A.Cell(view, b, t, c);
    CellIs(view, b, t, c);
    if first {
      TwoKids(cal, S.Comparison(CmpOf(op)), S.Col(t, c), LitOf(v), row);
    } else {
      TwoKids(cal, S.Comparison(CmpOf(op)), LitOf(v), S.Col(t, c), row);
    }
    if x.Some? {
      ComparesAs(op, x.value, v);
      ComparesAs(op, v, x.value);
    }
  }

  lemma TestMeans(cal: S.Calendar, view: View, b: A.Binding, t: Label, c: Prop, vs: seq<Value>)
    ensures vs != [] ==> S.Eval(cal, ExprOf(A.OneOf(t, c, vs)), RowsBound(view, b), []) == TruthValue(A.Eval(view, b, A.OneOf(t, c, vs)))
    ensures S.Eval(cal, ExprOf(A.IsNull(t, c)), RowsBound(view, b), []) == TruthValue(A.Eval(view, b, A.IsNull(t, c)))
  {
    hide RowsBound, A.Cell, S.Cell;
    var row := RowsBound(view, b);
    CellIs(view, b, t, c);
    ListMeans(cal, row, t, c, vs);
    InMeans(A.Cell(view, b, t, c), vs);
    OneKid(cal, S.IsNullOp, S.Col(t, c), row);
  }

  lemma TruthTestMeans(cal: S.Calendar, view: View, b: A.Binding, t: Label, c: Prop, v: bool)
    ensures S.Eval(cal, ExprOf(A.IsBool(t, c, v)), RowsBound(view, b), []) == TruthValue(A.Eval(view, b, A.IsBool(t, c, v)))
  {
    hide RowsBound, A.Cell, S.Cell;
    var row, test := RowsBound(view, b), S.Node(S.Comparison(S.Eq), [S.Col(t, c), LitOf(1)]);
    CellIs(view, b, t, c);
    OneKid(cal, S.IsBoolOp(v), test, row);
    TwoKids(cal, S.Comparison(S.Eq), S.Col(t, c), LitOf(1), row);
    if A.Cell(view, b, t, c).Some? {
      ComparesAs(A.EqOp, A.Cell(view, b, t, c).value, 1);
    }
  }

  lemma ColumnsMean(cal: S.Calendar, view: View, b: A.Binding, f: A.Filter)
    requires f.CompareColumns?
    ensures S.Eval(cal, ExprOf(f), RowsBound(view, b), []) == TruthValue(A.Eval(view, b, f))
  {
    hide RowsBound, A.Cell, S.Cell;
    var x, y := A.Cell(view, b, f.table, f.col), A.Cell(view, b, f.other, f.otherCol);
    CellIs(view, b, f.table, f.col);
    CellIs(view, b, f.other, f.otherCol);
    TwoKids(cal, S.Comparison(CmpOf(f.op)), S.Col(f.table, f.col), S.Col(f.other, f.otherCol), RowsBound(view, b));
    if x.Some? && y.Some? {
      ComparesAs(f.op, x.value, y.value);
    }
  }

  lemma NotMeans(cal: S.Calendar, view: View, b: A.Binding, g: A.Filter)
    requires S.Eval(cal, ExprOf(g), RowsBound(view, b), []) == TruthValue(A.Eval(view, b, g))
    ensures S.Eval(cal, ExprOf(A.Not(g)), RowsBound(view, b), []) == TruthValue(A.Eval(view, b, A.Not(g)))
  {
    hide RowsBound, S.Eval;
    OneKid(cal, S.NotOp, ExprOf(g), RowsBound(view, b));
  }

  lemma BothMean(cal: S.Calendar, view: View, b: A.Binding, f: A.Filter)
    requires f.And? || f.Or?
    requires S.Eval(cal, ExprOf(f.l), RowsBound(view, b), []) == TruthValue(A.Eval(view, b, f.l))
    requires S.Eval(cal, ExprOf(f.r), RowsBound(view, b), []) == TruthValue(A.Eval(view, b, f.r))
    ensures S.Eval(cal, ExprOf(f), RowsBound(view, b), []) == TruthValue(A.Eval(view, b, f))
  {
    hide RowsBound, S.Eval;
    TwoKids(cal, if f.And? then S.AndOp else S.OrOp, ExprOf(f.l), ExprOf(f.r), RowsBound(view, b));
  }

  /** A filter of the question has, over a binding's rows, the truth it has over the binding. */
  lemma {:induction false} FilterMeans(cal: S.Calendar, view: View, b: A.Binding, f: A.Filter)
    requires Listed(f)
    ensures S.Eval(cal, ExprOf(f), RowsBound(view, b), []) == TruthValue(A.Eval(view, b, f))
    decreases f
  {
    hide RowsBound, S.Eval, A.Cell, TruthValue;
    match f
    case Compare(t, c, op, v, first) => ComparisonMeans(cal, view, b, t, c, op, v, first);
    case OneOf(t, c, vs) => TestMeans(cal, view, b, t, c, vs);
    case IsNull(t, c) => TestMeans(cal, view, b, t, c, []);
    case IsBool(t, c, v) => TruthTestMeans(cal, view, b, t, c, v);
    case CompareColumns(t, c, op, t', c') => ColumnsMean(cal, view, b, f);
    case Not(g) =>
      FilterMeans(cal, view, b, g);
      NotMeans(cal, view, b, g);
    case And(l, r) =>
      FilterMeans(cal, view, b, l);
      FilterMeans(cal, view, b, r);
      BothMean(cal, view, b, f);
    case Or(l, r) =>
      FilterMeans(cal, view, b, l);
      FilterMeans(cal, view, b, r);
      BothMean(cal, view, b, f);
  }

  lemma FiltersMean(cal: S.Calendar, view: View, b: A.Binding, fs: seq<A.Filter>)
    requires forall f :: f in fs ==> Listed(f)
    ensures S.KeepsAll(cal, FiltersOf(fs), RowsBound(view, b)) <==> forall f :: f in fs ==> A.Eval(view, b, f) == A.True
  {
    hide RowsBound, ExprOf, Listed, S.Eval, A.Eval;
    var es := FiltersOf(fs);
    forall i | 0 <= i < |fs|
      ensures S.Keeps(cal, es[i], RowsBound(view, b)) <==> A.Eval(view, b, fs[i]) == A.True
    {
      assert fs[i] in fs;
      FilterMeans(cal, view, b, fs[i]);
    }
    if S.KeepsAll(cal, es, RowsBound(view, b)) {
      forall f | f in fs
        ensures A.Eval(view, b, f) == A.True
      {
        var i :| 0 <= i < |fs| && fs[i] == f;
        assert es[i] in es;
      }
    }
    if forall f :: f in fs ==> A.Eval(view, b, f) == A.True {
      forall e | e in es
        ensures S.Keeps(cal, e, RowsBound(view, b))
      {
        var i :| 0 <= i < |es| && es[i] == e;
        assert fs[i] in fs;
      }
    }
  }

  // ---- the row a fact's joins make

  /** The first node of a join's table that meets the one bound. */
  function Met(view: View, keys: seq<Value>, j: A.Join, x: Option<Value>): (y: Option<Value>)
    ensures y.Some? ==> y.value in keys && A.Meet(view, j, x, y.value)
    ensures y.None? ==> forall k :: k in keys ==> !A.Meet(view, j, x, k)
  {
    if keys == [] then None
    else if A.Meet(view, j, x, keys[0]) then Some(keys[0])
    else Met(view, keys[1..], j, x)
  }

  /** The tables of a fact and its joins. */
  function Names(fact: Label, joins: seq<A.Join>): set<Label> {
    {fact} + set j | j in joins :: j.t
  }

  /** A fact's binding, each join met in turn. */
  function Bound(view: View, order: Order, fact: Label, joins: seq<A.Join>, k: Value): (b: A.Binding)
    ensures b.Keys == Names(fact, joins)
  {
    if joins == [] then map[fact := Some(k)]
    else
      var j, before := joins[|joins| - 1], Bound(view, order, fact, joins[..|joins| - 1], k);
      assert forall d :: d in joins <==> d in joins[..|joins| - 1] || d == j;
      before[j.t := if j.a in before && j.t in order then Met(view, order[j.t], j, before[j.a]) else None]
  }

  lemma {:induction false} MatchingMet(view: View, keys: seq<Value>, j: A.Join, x: Option<Value>)
    ensures var cell := if x.Some? && NodeId(j.a, x.value) in view then F.CellOf(CellsOf(view[NodeId(j.a, x.value)]), j.ac) else S.Null;
            var found, y := F.Matching(RowsIn(view, j.t, keys), j.tc, cell), Met(view, keys, j, x);
            if y.Some? then found != [] && found[0] == CellsOf(view[NodeId(j.t, y.value)]) else found == []
  {
    if keys != [] {
      MatchingMet(view, keys[1..], j, x);
      var rest := RowsIn(view, j.t, keys[1..]);
      if NodeId(j.t, keys[0]) in view {
        var r := CellsOf(view[NodeId(j.t, keys[0])]);
        assert ([r] + rest)[1..] == rest;
      } else {
        assert [] + rest == rest;
      }
    }
  }

  /** What a join adds to the row is the node met. */
  lemma JoinAdds(view: View, order: Order, j: A.Join, before: A.Binding)
    requires j.a in before && j.t !in before
    ensures var y := if j.t in order then Met(view, order[j.t], j, before[j.a]) else None;
            RowsBound(view, before[j.t := y])
            == RowsBound(view, before)[j.t := F.MatchRow(DbOf(view, order), JoinOf(j), S.Cell(RowsBound(view, before), j.a, j.ac))]
  {
    var y := if j.t in order then Met(view, order[j.t], j, before[j.a]) else None;
    var after := before[j.t := y];
    MatchingMet(view, if j.t in order then order[j.t] else [], j, before[j.a]);
    assert F.RowsOf(DbOf(view, order), j.t) == RowsIn(view, j.t, if j.t in order then order[j.t] else []);
    forall t | t in before
      ensures A.RowOf(view, after, t) == A.RowOf(view, before, t)
    {
    }
    assert CellsOf(map[]) == map[];
  }

  ghost predicate Tree(fact: Label, joins: seq<A.Join>) {
    Answered.IsTree(A.Block(fact, joins, []))
  }

  lemma TreeStep(fact: Label, joins: seq<A.Join>)
    requires Tree(fact, joins) && joins != []
    ensures var n := |joins| - 1;
            && Tree(fact, joins[..n])
            && joins[n].a in Names(fact, joins[..n]) && joins[n].t !in Names(fact, joins[..n])
  {
    var n := |joins| - 1;
    var block, before := A.Block(fact, joins, []), A.Block(fact, joins[..n], []);
    forall i | 0 <= i < n
      ensures before.joins[i].a in Answered.Joined(before, i) && before.joins[i].t !in Answered.Joined(before, i)
    {
      assert block.joins[i] == before.joins[i];
      assert forall k :: 0 <= k < i ==> block.joins[k] == before.joins[k];
      assert Answered.Joined(block, i) == Answered.Joined(before, i);
    }
    assert Answered.Joined(block, n) == Names(fact, joins[..n]) by {
      forall t
        ensures t in Answered.Joined(block, n) <==> t in Names(fact, joins[..n])
      {
        if k: nat :| k < n && block.joins[k].t == t {
          assert joins[..n][k] == block.joins[k];
        }
        if d :| d in joins[..n] && d.t == t {
          var k: nat :| k < n && joins[..n][k] == d;
          assert block.joins[k].t == t;
        }
      }
    }
  }

  lemma FactAlone(view: View, order: Order, fact: Label, joins: seq<A.Join>, k: Value)
    requires joins == [] && NodeId(fact, k) in view
    ensures F.Full(DbOf(view, order), JoinsOf(joins), map[fact := CellsOf(view[NodeId(fact, k)])]) == RowsBound(view, Bound(view, order, fact, joins, k))
  {
    hide CellsOf;
    assert JoinsOf(joins) == [];
  }

  lemma OneJoinMore(db: F.Db, joins: seq<A.Join>, row: S.Binding)
    requires joins != []
    ensures var n := |joins| - 1;
            var j, full := joins[n], F.Full(db, JoinsOf(joins[..n]), row);
            F.Full(db, JoinsOf(joins), row) == full[j.t := F.MatchRow(db, JoinOf(j), S.Cell(full, j.a, j.ac))]
  {
    hide F.MatchRow, S.Cell;
    var js := JoinsOf(joins);
    assert js[..|js| - 1] == JoinsOf(joins[..|joins| - 1]) && js[|js| - 1] == JoinOf(joins[|joins| - 1]);
  }

  lemma OneMetMore(view: View, order: Order, fact: Label, joins: seq<A.Join>, k: Value)
    requires joins != []
    ensures var n := |joins| - 1;
            var j, before := joins[n], Bound(view, order, fact, joins[..n], k);
            Bound(view, order, fact, joins, k) == before[j.t := if j.a in before && j.t in order then Met(view, order[j.t], j, before[j.a]) else None]
  {
    hide Met;
  }

  /** A fact's row with each join's match beside it is the rows of its binding. */
  lemma {:induction false} FullIsBound(view: View, order: Order, fact: Label, joins: seq<A.Join>, k: Value)
    requires Tree(fact, joins) && NodeId(fact, k) in view
    ensures F.Full(DbOf(view, order), JoinsOf(joins), map[fact := CellsOf(view[NodeId(fact, k)])]) == RowsBound(view, Bound(view, order, fact, joins, k))
    decreases |joins|
  {
    hide RowsBound, Met, Tree, CellsOf, F.MatchRow, F.Full, Bound, DbOf;
    if joins == [] {
      FactAlone(view, order, fact, joins, k);
    } else {
      var n := |joins| - 1;
      TreeStep(fact, joins);
      FullIsBound(view, order, fact, joins[..n], k);
      OneJoinMore(DbOf(view, order), joins, map[fact := CellsOf(view[NodeId(fact, k)])]);
      OneMetMore(view, order, fact, joins, k);
      JoinAdds(view, order, joins[n], Bound(view, order, fact, joins[..n], k));
    }
  }

  /** Each join's target is bound to the first node that meets. */
  ghost predicate MetEach(view: View, order: Order, joins: seq<A.Join>, made: A.Binding) {
    forall j :: j in joins ==> j.a in made && j.t in made && made[j.t] == if j.t in order then Met(view, order[j.t], j, made[j.a]) else None
  }

  lemma NoneMet(view: View, order: Order, joins: seq<A.Join>, b: A.Binding)
    requires joins == []
    ensures MetEach(view, order, joins, b)
  {
  }

  lemma MetNext(view: View, order: Order, joins: seq<A.Join>, before: A.Binding, after: A.Binding)
    requires joins != []
    requires var n := |joins| - 1;
             var j := joins[n];
             && MetEach(view, order, joins[..n], before) && j.a in before && j.t !in before
             && after == before[j.t := if j.t in order then Met(view, order[j.t], j, before[j.a]) else None]
    ensures MetEach(view, order, joins, after)
  {
    hide Met;
    forall d | d in joins
      ensures d in joins[..|joins| - 1] || d == joins[|joins| - 1]
    {
    }
  }

  /** A fact's binding gives the fact its key and each join's target the first node that meets. */
  lemma {:induction false} BoundIs(view: View, order: Order, fact: Label, joins: seq<A.Join>, k: Value)
    requires Tree(fact, joins)
    ensures var b := Bound(view, order, fact, joins, k);
            b[fact] == Some(k) && MetEach(view, order, joins, b)
    decreases |joins|
  {
    hide Met, Tree, MetEach;
    if joins == [] {
      NoneMet(view, order, joins, map[fact := Some(k)]);
    } else {
      hide Bound;
      var n := |joins| - 1;
      TreeStep(fact, joins);
      BoundIs(view, order, fact, joins[..n], k);
      OneMetMore(view, order, fact, joins, k);
      MetNext(view, order, joins, Bound(view, order, fact, joins[..n], k), Bound(view, order, fact, joins, k));
    }
  }

  // ---- the SQL's rows are the matches

  /** The SQL keeps a fact's row exactly when its binding matches. */
  lemma KeptIsMatch(cal: S.Calendar, view: View, order: Order, block: A.Block, k: Value)
    requires Answered.IsTree(block) && Lists(order, view) && NodeId(block.fact, k) in view && forall f :: f in block.filters ==> Listed(f)
    ensures var db, b := DbOf(view, order), map[block.fact := CellsOf(view[NodeId(block.fact, k)])];
            var full := F.Full(db, JoinsOf(block.joins), b);
            && full == RowsBound(view, Bound(view, order, block.fact, block.joins, k))
            && (F.Survives(db, JoinsOf(block.joins), b) && S.KeepsAll(cal, FiltersOf(block.filters), full)
                <==> A.IsMatch(view, block, Bound(view, order, block.fact, block.joins, k)))
  {
    hide CellsOf, F.Full, F.Survives, FiltersOf, S.KeepsAll, A.Eval, A.IsMatch, Answered.IsTree, Listed, Bound, MetEach, NoneLost, Lists;
    var b := Bound(view, order, block.fact, block.joins, k);
    TreeOfBlock(block);
    FullIsBound(view, order, block.fact, block.joins, k);
    BoundIs(view, order, block.fact, block.joins, k);
    FiltersMean(cal, view, b, block.filters);
    SurvivesIs(view, order, block, k);
    MatchMeans(view, order, block, b);
  }

  /** No join but an outer one is without its node. */
  ghost predicate NoneLost(joins: seq<A.Join>, b: A.Binding) {
    forall j :: j in joins ==> j.t in b && (b[j.t].Some? || j.outer)
  }

  /** A binding whose joins are met matches exactly when no inner join is without its node and every filter is true. */
  lemma MatchMeans(view: View, order: Order, block: A.Block, b: A.Binding)
    requires Lists(order, view) && MetEach(view, order, block.joins, b) && b.Keys == Names(block.fact, block.joins)
    requires b[block.fact].Some? && NodeId(block.fact, b[block.fact].value) in view
    ensures A.IsMatch(view, block, b) <==> NoneLost(block.joins, b) && forall f :: f in block.filters ==> A.Eval(view, b, f) == A.True
  {
    hide A.Eval, A.JoinBound, Met, Lists, RowsBound, F.Matched;
    assert b.Keys == block.Tables();
    forall j | j in block.joins
      ensures A.JoinBound(view, j, b) <==> b[j.t].Some? || j.outer
    {
      JoinMatches(view, order, block, b, j);
    }
  }

  lemma TreeOfBlock(block: A.Block)
    requires Answered.IsTree(block)
    ensures Tree(block.fact, block.joins)
  {
    var bare := A.Block(block.fact, block.joins, []);
    assert forall i: nat :: i <= |block.joins| ==> Answered.Joined(bare, i) == Answered.Joined(block, i);
  }

  lemma JoinMatches(view: View, order: Order, block: A.Block, b: A.Binding, j: A.Join)
    requires Lists(order, view) && j in block.joins && j.a in b && j.t in b
    requires b[j.t] == if j.t in order then Met(view, order[j.t], j, b[j.a]) else None
    ensures A.JoinBound(view, j, b) <==> b[j.t].Some? || j.outer
    ensures F.Matched(JoinOf(j), RowsBound(view, b)) <==> b[j.t].Some?
  {
    CellIs(view, b, j.t, j.tc);
    if b[j.t].None? {
      forall y
        ensures !A.Meet(view, j, b[j.a], y)
      {
        assert NodeId(j.t, y) in view ==> j.t in order && y in order[j.t];
      }
    }
  }

  lemma SurvivesIs(view: View, order: Order, block: A.Block, k: Value)
    requires Tree(block.fact, block.joins) && NodeId(block.fact, k) in view && Lists(order, view)
    ensures F.Survives(DbOf(view, order), JoinsOf(block.joins), map[block.fact := CellsOf(view[NodeId(block.fact, k)])])
            <==> NoneLost(block.joins, Bound(view, order, block.fact, block.joins, k))
  {
    hide CellsOf, F.Full, Bound, RowsBound, F.Matched, MetEach, Lists, Tree;
    var b := Bound(view, order, block.fact, block.joins, k);
    BoundIs(view, order, block.fact, block.joins, k);
    MatchedMeans(view, order, block, b);
    SurvivesBound(view, order, block, k);
  }

  lemma MatchedMeans(view: View, order: Order, block: A.Block, b: A.Binding)
    requires Lists(order, view) && MetEach(view, order, block.joins, b)
    ensures forall j :: j in block.joins ==> j.t in b && (F.Matched(JoinOf(j), RowsBound(view, b)) <==> b[j.t].Some?)
  {
    hide Met, Lists, RowsBound, F.Matched, A.JoinBound;
    forall j | j in block.joins
      ensures j.t in b && (F.Matched(JoinOf(j), RowsBound(view, b)) <==> b[j.t].Some?)
    {
      JoinMatches(view, order, block, b, j);
    }
  }

  lemma SurvivesBound(view: View, order: Order, block: A.Block, k: Value)
    requires Tree(block.fact, block.joins) && NodeId(block.fact, k) in view
    requires var b := Bound(view, order, block.fact, block.joins, k);
             forall j :: j in block.joins ==> j.t in b && (F.Matched(JoinOf(j), RowsBound(view, b)) <==> b[j.t].Some?)
    ensures F.Survives(DbOf(view, order), JoinsOf(block.joins), map[block.fact := CellsOf(view[NodeId(block.fact, k)])])
            <==> NoneLost(block.joins, Bound(view, order, block.fact, block.joins, k))
  {
    hide CellsOf, F.Full, Bound, RowsBound, F.Matched;
    FullIsBound(view, order, block.fact, block.joins, k);
    var b, js := Bound(view, order, block.fact, block.joins, k), JoinsOf(block.joins);
    var row := map[block.fact := CellsOf(view[NodeId(block.fact, k)])];
    if F.Survives(DbOf(view, order), js, row) {
      forall j | j in block.joins && !j.outer
        ensures b[j.t].Some?
      {
        var i :| 0 <= i < |block.joins| && block.joins[i] == j;
        assert js[i] in js;
      }
    }
    if NoneLost(block.joins, b) {
      forall d | d in js && !d.outer
        ensures F.Matched(d, RowsBound(view, b))
      {
        var i :| 0 <= i < |js| && js[i] == d;
        assert block.joins[i] in block.joins;
      }
    }
  }

  /** A match is its fact's binding, when the joins' targets are unique. */
  lemma {:induction false} MatchIsBound(view: View, order: Order, block: A.Block, b: A.Binding)
    requires Answered.IsTree(block) && Lists(order, view) && (forall j :: j in block.joins ==> UniqueIn(view, j.t, j.tc))
    requires A.IsMatch(view, block, b)
    ensures b[block.fact].Some? && b == Bound(view, order, block.fact, block.joins, b[block.fact].value)
  {
    hide A.Eval, UniqueIn, Answered.IsTree, Bound;
    var made := Bound(view, order, block.fact, block.joins, b[block.fact].value);
    assert Tree(block.fact, block.joins) by { TreeOfBlock(block); }
    BoundIs(view, order, block.fact, block.joins, b[block.fact].value);
    MatchKeys(view, block, b);
    assert block.joins[..|block.joins|] == block.joins;
    SameAlong(view, order, block, b, made, |block.joins|);
  }

  lemma MatchKeys(view: View, block: A.Block, b: A.Binding)
    requires A.IsMatch(view, block, b)
    ensures b.Keys == block.Tables() && forall j :: j in block.joins ==> j.a in b && j.t in b && A.JoinBound(view, j, b)
  {
    hide A.Eval;
  }

  lemma StartsJoined(block: A.Block, n: nat)
    requires Tree(block.fact, block.joins) && 0 < n <= |block.joins|
    ensures block.joins[n - 1].a in Names(block.fact, block.joins[..n - 1])
  {
    hide Tree;
    TreePrefix(block.fact, block.joins, n);
    TreeStep(block.fact, block.joins[..n]);
    assert block.joins[..n][..n - 1] == block.joins[..n - 1];
  }

  ghost predicate SameFor(b: A.Binding, made: A.Binding, ts: set<Label>) {
    forall t :: t in ts ==> t in b && t in made && b[t] == made[t]
  }

  lemma {:induction false} SameAlong(view: View, order: Order, block: A.Block, b: A.Binding, made: A.Binding, n: nat)
    requires Tree(block.fact, block.joins) && Lists(order, view) && n <= |block.joins|
    requires forall j :: j in block.joins ==> UniqueIn(view, j.t, j.tc)
    requires A.IsMatch(view, block, b) && MetEach(view, order, block.joins, made)
    requires block.fact in b && block.fact in made && made[block.fact] == b[block.fact]
    ensures SameFor(b, made, Names(block.fact, block.joins[..n]))
  {
    hide A.IsMatch, UniqueIn, Met, Tree, Lists, SameFor, MetEach, Names;
    if n == 0 {
      SameFact(b, made, block.fact, block.joins[..n]);
    } else {
      SameAlong(view, order, block, b, made, n - 1);
      SameNext(view, order, block, b, made, n);
    }
  }

  lemma SameFact(b: A.Binding, made: A.Binding, fact: Label, none: seq<A.Join>)
    requires none == [] && fact in b && fact in made && b[fact] == made[fact]
    ensures SameFor(b, made, Names(fact, none))
  {
  }

  lemma SameNext(view: View, order: Order, block: A.Block, b: A.Binding, made: A.Binding, n: nat)
    requires Tree(block.fact, block.joins) && Lists(order, view) && 0 < n <= |block.joins|
    requires forall j :: j in block.joins ==> UniqueIn(view, j.t, j.tc)
    requires A.IsMatch(view, block, b) && MetEach(view, order, block.joins, made)
    requires SameFor(b, made, Names(block.fact, block.joins[..n - 1]))
    ensures SameFor(b, made, Names(block.fact, block.joins[..n]))
  {
    hide A.IsMatch, UniqueIn, Met, Tree, Lists, A.JoinBound;
    MatchKeys(view, block, b);
    var j := block.joins[n - 1];
    assert j in block.joins && block.joins[..n] == block.joins[..n - 1] + [j];
    StartsJoined(block, n);
    SameMet(view, order, j, b);
  }

  lemma {:induction false} TreePrefix(fact: Label, joins: seq<A.Join>, n: nat)
    requires Tree(fact, joins) && n <= |joins|
    ensures Tree(fact, joins[..n])
    decreases |joins|
  {
    hide Tree;
    if n < |joins| {
      TreeStep(fact, joins);
      TreePrefix(fact, joins[..|joins| - 1], n);
      assert joins[..|joins| - 1][..n] == joins[..n];
    } else {
      assert joins[..n] == joins;
    }
  }

  lemma SameMet(view: View, order: Order, j: A.Join, b: A.Binding)
    requires Lists(order, view) && UniqueIn(view, j.t, j.tc) && j.a in b && j.t in b && A.JoinBound(view, j, b)
    ensures b[j.t] == if j.t in order then Met(view, order[j.t], j, b[j.a]) else None
  {
    if b[j.t].Some? {
      assert NodeId(j.t, b[j.t].value) in view;
      var y := Met(view, order[j.t], j, b[j.a]);
      assert y.Some?;
      assert Shares(view, j.t, j.tc, b[j.t].value, y.value);
    }
  }

  // ---- the answer's rows, fact by fact

  /** The rows of the facts whose bindings match. */
  ghost function MatchRows(view: View, order: Order, block: A.Block, keys: seq<Value>): seq<S.Binding> {
    if keys == [] then []
    else
      var b := Bound(view, order, block.fact, block.joins, keys[0]);
      (if NodeId(block.fact, keys[0]) in view && A.IsMatch(view, block, b) then [RowsBound(view, b)] else [])
      + MatchRows(view, order, block, keys[1..])
  }

  function FactRows(view: View, fact: Label, keys: seq<Value>): seq<S.Binding> {
    var rows := RowsIn(view, fact, keys);
    seq(|rows|, i requires 0 <= i < |rows| => map[fact := rows[i]])
  }

  lemma NoFactRows(view: View, fact: Label)
    ensures FactRows(view, fact, []) == []
  {
  }

  lemma FactRowsCons(view: View, fact: Label, keys: seq<Value>)
    requires keys != []
    ensures var id, rest := NodeId(fact, keys[0]), FactRows(view, fact, keys[1..]);
            FactRows(view, fact, keys) == if id in view then [map[fact := CellsOf(view[id])]] + rest else rest
  {
    hide CellsOf;
  }

  lemma {:induction false} MatchRowsAre(cal: S.Calendar, view: View, order: Order, block: A.Block, keys: seq<Value>)
    requires Answered.IsTree(block) && Lists(order, view) && forall f :: f in block.filters ==> Listed(f)
    ensures M.Where(cal, FiltersOf(block.filters), F.Extensions(DbOf(view, order), JoinsOf(block.joins), FactRows(view, block.fact, keys)))
         == MatchRows(view, order, block, keys)
    decreases |keys|
  {
    hide Answered.IsTree, Lists, DbOf, Bound, RowsBound, CellsOf, A.IsMatch, F.Full, F.Survives, S.KeepsAll, FiltersOf, M.Where, F.Extensions, Listed, RowsIn;
    var db, joins, filters := DbOf(view, order), JoinsOf(block.joins), FiltersOf(block.filters);
    if keys == [] {
      assert FactRows(view, block.fact, keys) == [] by { NoFactRows(view, block.fact); }
      SameRows.NoRows(cal, db, joins, filters);
    } else {
      MatchRowsAre(cal, view, order, block, keys[1..]);
      var rest := FactRows(view, block.fact, keys[1..]);
      if NodeId(block.fact, keys[0]) in view {
        var row := CellsOf(view[NodeId(block.fact, keys[0])]);
        assert FactRows(view, block.fact, keys) == [map[block.fact := row]] + rest && FactRows(view, block.fact, keys)[1..] == rest by {
          FactRowsCons(view, block.fact, keys);
        }
        SameRows.WhereExtensions(cal, db, joins, filters, FactRows(view, block.fact, keys));
        KeptIsMatch(cal, view, order, block, keys[0]);
      } else {
        assert FactRows(view, block.fact, keys) == rest by { FactRowsCons(view, block.fact, keys); }
        assert [] + MatchRows(view, order, block, keys[1..]) == MatchRows(view, order, block, keys[1..]);
      }
    }
  }

  lemma TreeOfQuery(block: A.Block)
    requires Answered.IsTree(block)
    ensures F.IsTree(block.fact, JoinsOf(block.joins))
  {
    var js := JoinsOf(block.joins);
    forall i | 0 <= i < |js|
      ensures F.Starts(block.fact, js, i) && F.Joins(block.fact, js, i)
    {
      assert block.joins[i].a in Answered.Joined(block, i) && block.joins[i].t !in Answered.Joined(block, i);
      if js[i].from != block.fact {
        var k :| 0 <= k < i && block.joins[k].t == block.joins[i].a;
        assert js[k].to == js[i].from;
      }
      forall k | 0 <= k < i
        ensures js[k].to != js[i].to
      {
        assert block.joins[k].t in Answered.Joined(block, i);
      }
    }
  }

  lemma UniqueTargets(view: View, order: Order, block: A.Block)
    requires Lists(order, view) && forall j :: j in block.joins ==> UniqueIn(view, j.t, j.tc)
    ensures F.TargetsUnique(DbOf(view, order), JoinsOf(block.joins))
  {
    hide F.Unique, UniqueIn, DbOf;
    var js := JoinsOf(block.joins);
    forall d | d in js
      ensures F.Unique(DbOf(view, order), d.to, d.toCol)
    {
      var i :| 0 <= i < |js| && js[i] == d;
      assert block.joins[i] in block.joins;
      UniqueTable(view, order, d.to, d.toCol);
    }
  }

  /** The SQL's rows over a graph's nodes are the matches', in the order of the fact's keys. */
  lemma SqlRowsAreMatches(cal: S.Calendar, view: View, order: Order, block: A.Block, outs: seq<S.Expr>)
    requires Answered.IsTree(block) && Lists(order, view) && (forall f :: f in block.filters ==> Listed(f)) && block.fact in order
    requires forall j :: j in block.joins ==> UniqueIn(view, j.t, j.tc)
    ensures R.SqlRows(cal, DbOf(view, order), QueryOf(block, outs)) == MatchRows(view, order, block, order[block.fact])
  {
    hide Answered.IsTree, F.IsTree, F.Joined, F.Extensions, M.Where, MatchRows, UniqueIn, F.TargetsUnique, Listed;
    var db, joins := DbOf(view, order), JoinsOf(block.joins);
    TreeOfQuery(block);
    F.TreeOnce(block.fact, joins);
    UniqueTargets(view, order, block);
    F.JoinedIsExtensions(db, joins, F.Facts(db, block.fact));
    assert F.Facts(db, block.fact) == FactRows(view, block.fact, order[block.fact]);
    MatchRowsAre(cal, view, order, block, order[block.fact]);
  }
}
