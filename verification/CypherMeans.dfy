/** The whole answer in either language: every expression of a block, over every group of its rows. */
module CypherMeans {
  import opened Options
  import opened Sql
  import opened CypherExpr
  import opened From
  import opened Rendered
  import CypherMatch
  import SameRows
  import M = Measures

  // ---- aggregates

  function CyValues(d: Dialect, x: CyExpr, rows: seq<Binding>): seq<Value> {
    seq(|rows|, i requires 0 <= i < |rows| => CyEval(d, x, rows[i], []))
  }

  lemma CyAggIs(d: Dialect, fn: CyFn, distinct: bool, x: CyExpr, b: Binding, rows: seq<Binding>)
    ensures CyEval(d, CyAgg(fn, distinct, Some(x)), b, rows) == CyAggOf(fn, distinct, CyValues(d, x, rows), |rows|)
  {
    assert CyValues(d, x, rows) == seq(|rows|, i requires 0 <= i < |rows| => CyEval(d, x, rows[i], []));
  }

  /** CASE WHEN x THEN 1 END */
  lemma OneWhen(d: Dialect, x: CyExpr, b: Binding)
    ensures CyEval(d, CyNode(CyCase, [x, CyLit(Num(1.0))]), b, []) == if CyEval(d, x, b, []) == Bool(true) then Num(1.0) else Null
  {
    Two(d, CyCase, x, CyLit(Num(1.0)), b, []);
    var v := CyEval(d, x, b, []);
    assert [v, Num(1.0)][2..] == [] && CaseOf([]) == Null && CyEval(d, CyLit(Num(1.0)), b, []) == Num(1.0);
  }

  lemma {:induction false} CountsTruths(d: Dialect, x: Expr, y: CyExpr, rows: seq<Binding>)
    requires forall i :: 0 <= i < |rows| ==> (CyEval(d, y, rows[i], []) == Bool(true) <==> Eval(d.cal, x, rows[i], []) == Bool(true))
    ensures |NonNull(CyValues(d, CyNode(CyCase, [y, CyLit(Num(1.0))]), rows))| == Trues(NonNull(Values(d.cal, x, rows)))
  {
    hide Eval, CyEval;
    if rows != [] {
      var counted := CyNode(CyCase, [y, CyLit(Num(1.0))]);
      forall i | 0 <= i < |rows[1..]|
        ensures CyEval(d, y, rows[1..][i], []) == Bool(true) <==> Eval(d.cal, x, rows[1..][i], []) == Bool(true)
      {
        assert rows[1..][i] == rows[i + 1];
      }
      CountsTruths(d, x, y, rows[1..]);
      OneWhen(d, y, rows[0]);
      M.ValuesCons(d.cal, x, rows);
      assert CyValues(d, counted, rows) == [CyEval(d, counted, rows[0], [])] + CyValues(d, counted, rows[1..]);
      var v, rest := Eval(d.cal, x, rows[0], []), NonNull(Values(d.cal, x, rows[1..]));
      assert ([v] + rest)[1..] == rest;
    }
  }

  lemma AggTranslates(fn: AggFn, distinct: bool, x: Expr)
    requires Translate(Agg(fn, distinct, Some(x))).Some?
    ensures Translate(x).Some? && Translate(Agg(fn, distinct, Some(x))) == BuildAgg(fn, distinct, Translate(x).value)
  {
  }

  lemma AggAgrees(d: Dialect, fn: AggFn, distinct: bool, x: Expr, b: Binding, group: seq<Binding>)
    requires Translate(Agg(fn, distinct, Some(x))).Some? && Translate(x).Some?
    requires forall i :: 0 <= i < |group| ==> Agrees(d, x, group[i], [])
    ensures Agrees(d, Agg(fn, distinct, Some(x)), b, group)
  {
    hide Translate, Eval, CyEval, TruthExact;
    var e, y := Agg(fn, distinct, Some(x)), Translate(x).value;
    AggTranslates(fn, distinct, x);
    M.AggIsOf(d.cal, fn, distinct, x, b, group);
    AggTruth(e);
    if Exact(e) {
      if fn == CountIf {
        CountsTruths(d, x, y, group);
        CyAggIs(d, CyCount, false, CyNode(CyCase, [y, CyLit(Num(1.0))]), b, group);
      } else {
        assert CyValues(d, y, group) == Values(d.cal, x, group);
        if fn == Sum {
          SumOrNull(d, y, b, group);
        } else {
          CyAggIs(d, BuildAgg(fn, distinct, y).value.fn, distinct, y, b, group);
        }
      }
    }
  }

  lemma AggTruth(e: Expr)
    requires e.Agg?
    ensures TruthExact(e) <==> Exact(e)
  {
  }

  /** SUM keeps SQL's null over no values. */
  lemma SumOrNull(d: Dialect, y: CyExpr, b: Binding, group: seq<Binding>)
    ensures CyEval(d, BuildAgg(Sum, false, y).value, b, group) == AggOf(Sum, false, CyValues(d, y, group), |group|)
  {
    hide CyEval;
    var count, sum := CyAgg(CyCount, false, Some(y)), CyAgg(CySum, false, Some(y));
    var none := CyNode(CyCompare(Eq), [count, CyLit(Num(0.0))]);
    CyAggIs(d, CyCount, false, y, b, group);
    CyAggIs(d, CySum, false, y, b, group);
    Two(d, CyCompare(Eq), count, CyLit(Num(0.0)), b, group);
    CyLitIs(d, Num(0.0), b, group);
    NullWhen(d, none, sum, b, group);
  }

  lemma CyLitIs(d: Dialect, v: Value, b: Binding, group: seq<Binding>)
    ensures CyEval(d, CyLit(v), b, group) == v
  {
  }

  // ---- every expression

  /** The translation keeps every exact expression's value, and every other's truth where truth alone counts, over a
      row and its group, nulls included. */
  lemma {:induction false} TranslationAgrees(d: Dialect, e: Expr, b: Binding, group: seq<Binding>)
    requires Translate(e).Some? && Proper(d.cal, e, b, group)
    ensures Agrees(d, e, b, group)
    decreases e
  {
    hide Agrees, Eval, CyEval, Exact, TruthExact;
    match e
    case Col(_, _) => LeafAgrees(d, e, b, group);
    case Lit(_) => LeafAgrees(d, e, b, group);
    case Node(op, kids) =>
      if IsDayComparison(op, kids) {
        DayComparisonIs(op, kids);
        DateCallEval(d.cal, kids[0], b, group);
        TranslationAgrees(d, kids[0].kids[0], b, group);
        DayComparisonAgrees(d, op, kids, b, group);
      } else if IsDateTruncation(op, kids) {
        DateCallEval(d.cal, kids[0], b, group);
        TranslationAgrees(d, kids[0].kids[0], b, group);
        TruncationAgrees(d, op, kids, b, group);
      } else {
        NodeTranslates(op, kids);
        forall i | 0 <= i < |kids| && (op.IfOp? || op.CaseOp? ==> ComesTo(Operands(d.cal, kids, b, group), i))
          ensures Agrees(d, kids[i], b, group)
        {
          TranslationAgrees(d, kids[i], b, group);
        }
        OperatorAgrees(d, op, kids, b, group);
      }
    case Agg(fn, distinct, arg) =>
      if arg.Some? {
        AggTranslates(fn, distinct, arg.value);
        forall i | 0 <= i < |group|
          ensures Agrees(d, arg.value, group[i], [])
        {
          TranslationAgrees(d, arg.value, group[i], []);
        }
        AggAgrees(d, fn, distinct, arg.value, b, group);
      } else {
        LeafAgrees(d, e, b, group);
      }
  }

  lemma LeafAgrees(d: Dialect, e: Expr, b: Binding, group: seq<Binding>)
    requires Translate(e).Some? && (e.Col? || e.Lit? || (e.Agg? && e.arg.None?))
    ensures Agrees(d, e, b, group)
  {
  }

  lemma OperatorAgrees(d: Dialect, op: Op, kids: seq<Expr>, b: Binding, group: seq<Binding>)
    requires !IsDayComparison(op, kids) && !IsDateTruncation(op, kids)
    requires Translate(Node(op, kids)).Some? && Proper(d.cal, Node(op, kids), b, group)
    requires forall i :: 0 <= i < |kids| ==> Translate(kids[i]).Some?
    requires forall i :: 0 <= i < |kids| && (op.IfOp? || op.CaseOp? ==> ComesTo(Operands(d.cal, kids, b, group), i)) ==> Agrees(d, kids[i], b, group)
    ensures Agrees(d, Node(op, kids), b, group)
  {
    hide Agrees, Translate, Proper, ComesTo;
    if op.IfOp? || op.CaseOp? {
      CaseAgrees(d, op, kids, b, group);
    } else if op.ParenOp? || op.AndOp? || op.OrOp? {
      TruthsAgree(d, op, kids, b, group);
    } else if op.IsBoolOp? {
      TruthTestAgrees(d, op, kids, b, group);
    } else if op.TruncOp? {
      TruncationAgrees(d, op, kids, b, group);
    } else {
      PlainAgrees(d, op, kids, b, group);
    }
  }

  // ---- the whole question

  ghost predicate AllTranslate(es: seq<Expr>) {
    forall e :: e in es ==> Translate(e).Some?
  }

  /** WHERE, as Cypher evaluates it. */
  ghost function CyWhere(d: Dialect, filters: seq<Expr>, rows: seq<Binding>): seq<Binding>
    requires AllTranslate(filters)
  {
    if rows == [] then []
    else (if forall f :: f in filters ==> CyEval(d, Translate(f).value, rows[0], []) == Bool(true) then [rows[0]] else [])
         + CyWhere(d, filters, rows[1..])
  }

  ghost function CyKeys(d: Dialect, dims: seq<Expr>, b: Binding): seq<Value>
    requires AllTranslate(dims)
  {
    seq(|dims|, i requires 0 <= i < |dims| => CyEval(d, Translate(dims[i]).value, b, []))
  }

  /** A group, as Cypher keys it. */
  ghost function CyGroup(d: Dialect, dims: seq<Expr>, g: seq<Value>, rows: seq<Binding>): seq<Binding>
    requires AllTranslate(dims)
  {
    if rows == [] then []
    else (if CyKeys(d, dims, rows[0]) == g then [rows[0]] else []) + CyGroup(d, dims, g, rows[1..])
  }

  /** The expressions translate, agree with SQL as their place needs, and are proper on these rows. */
  ghost predicate Filterable(d: Dialect, filters: seq<Expr>, rows: seq<Binding>) {
    && AllTranslate(filters) && (forall f :: f in filters ==> TruthExact(f))
    && forall f, b :: f in filters && b in rows ==> Proper(d.cal, f, b, [])
  }

  ghost predicate Groupable(d: Dialect, dims: seq<Expr>, rows: seq<Binding>) {
    && AllTranslate(dims) && (forall e :: e in dims ==> Exact(e))
    && forall e, b :: e in dims && b in rows ==> Proper(d.cal, e, b, [])
  }

  lemma {:induction false} CyWhereIs(d: Dialect, filters: seq<Expr>, rows: seq<Binding>)
    requires Filterable(d, filters, rows)
    ensures CyWhere(d, filters, rows) == M.Where(d.cal, filters, rows)
  {
    hide Proper, TruthExact, Exact, Translate, Eval, CyEval;
    if rows != [] {
      assert rows[0] in rows && forall b :: b in rows[1..] ==> b in rows;
      CyWhereIs(d, filters, rows[1..]);
      forall f | f in filters
        ensures CyEval(d, Translate(f).value, rows[0], []) == Bool(true) <==> Keeps(d.cal, f, rows[0])
      {
        TranslationAgrees(d, f, rows[0], []);
      }
      assert KeepsAll(d.cal, filters, rows[0]) <==> forall f :: f in filters ==> Keeps(d.cal, f, rows[0]);
    }
  }

  lemma {:induction false} CyGroupIs(d: Dialect, dims: seq<Expr>, g: seq<Value>, rows: seq<Binding>)
    requires Groupable(d, dims, rows)
    ensures CyGroup(d, dims, g, rows) == M.Group(d.cal, dims, g, rows)
  {
    hide Proper, Exact, Translate, Eval, CyEval;
    if rows != [] {
      assert rows[0] in rows && forall b :: b in rows[1..] ==> b in rows;
      CyGroupIs(d, dims, g, rows[1..]);
      forall i | 0 <= i < |dims|
        ensures CyKeys(d, dims, rows[0])[i] == M.Keys(d.cal, dims, rows[0])[i]
      {
        assert dims[i] in dims;
        TranslationAgrees(d, dims[i], rows[0], []);
      }
      assert CyKeys(d, dims, rows[0]) == M.Keys(d.cal, dims, rows[0]);
    }
  }

  /** A block's group in Cypher: MATCH, WHERE, OPTIONAL MATCH, and the dimensions as keys. */
  ghost function CyAnswer(d: Dialect, db: Db, q: Query, dims: seq<Expr>, g: seq<Value>): seq<Binding>
    requires AllTranslate(SubstAll(q.joins, q.filters)) && AllTranslate(SubstAll(q.joins, dims))
  {
    var r := SameRows.Rendering(q);
    CyGroup(d, SubstAll(q.joins, dims), g,
            Joined(db, r.optional, CyWhere(d, r.filters, Joined(db, r.inner, Facts(db, q.fact)))))
  }

  /** The Cypher rendered for a block means what its SQL means: the same groups, of as many rows, and every
      output's value over each of them; and, of a question without dimensions that has no rows, over none. */
  lemma RenderedMeansSql(d: Dialect, db: Db, q: Query, dims: seq<Expr>, g: seq<Value>, e: Expr)
    requires SameRows.Fits(d.cal, db, q) && e in q.outs && forall x :: x in dims ==> x in q.outs
    requires Filterable(d, SubstAll(q.joins, q.filters), Joined(db, SameRows.InnerJoins(q), Facts(db, q.fact)))
    requires Groupable(d, SubstAll(q.joins, dims), CypherRows(d.cal, db, q.fact, SameRows.Rendering(q)))
    requires Translate(CypherMatch.Subst(q.joins, e)).Some? && Exact(CypherMatch.Subst(q.joins, e))
    requires forall b :: b in CyAnswer(d, db, q, dims, g) ==> Proper(d.cal, CypherMatch.Subst(q.joins, e), b, CyAnswer(d, db, q, dims, g))
    requires dims == [] && CyAnswer(d, db, q, dims, g) == [] ==> Proper(d.cal, CypherMatch.Subst(q.joins, e), map[], [])
    ensures var bs, cs := M.Group(d.cal, dims, g, SqlRows(d.cal, db, q)), CyAnswer(d, db, q, dims, g);
            && |bs| == |cs|
            && (forall i :: 0 <= i < |bs| ==>
                 Eval(d.cal, e, bs[i], bs) == CyEval(d, Translate(CypherMatch.Subst(q.joins, e)).value, cs[i], cs))
            && (dims == [] && bs == [] ==>
                 Eval(d.cal, e, map[], []) == CyEval(d, Translate(CypherMatch.Subst(q.joins, e)).value, map[], []))
  {
    hide M.Group, CyGroup, CyWhere, Proper, Exact, TruthExact, Translate, Eval, CyEval, CypherMatch.Subst, SqlRows, SameRows.Fits, Joined,
         SameRows.InnerJoins, SameRows.OptionalJoins, SubstAll;
    var read := CypherMatch.Subst(q.joins, e);
    var r := SameRows.Rendering(q);
    CyWhereIs(d, r.filters, Joined(db, r.inner, Facts(db, q.fact)));
    CyGroupIs(d, SubstAll(q.joins, dims), g, CypherRows(d.cal, db, q.fact, r));
    SameRows.SameAnswers(d.cal, db, q, dims, g, e);
    var cs := CyAnswer(d, db, q, dims, g);
    forall i | 0 <= i < |cs|
      ensures Eval(d.cal, read, cs[i], cs) == CyEval(d, Translate(read).value, cs[i], cs)
    {
      assert cs[i] in cs;
      TranslationAgrees(d, read, cs[i], cs);
    }
    if dims == [] && cs == [] {
      TranslationAgrees(d, read, map[], []);
    }
  }

  // ---- where it does not

  /** NOT (x IS TRUE) over a null: SQL keeps the row, the translation drops it. */
  lemma NegatedTruthTestDrops(d: Dialect, t: Table, c: Column)
    ensures var e := Node(NotOp, [Node(IsBoolOp(true), [Col(t, c)])]);
            && !TruthExact(e) && Translate(e).Some?
            && Keeps(d.cal, e, map[]) && CyEval(d, Translate(e).value, map[], []) != Bool(true)
  {
    var test := Node(IsBoolOp(true), [Col(t, c)]);
    var e := Node(NotOp, [test]);
    assert !Exact(test) && !Exact(e) by { assert e.kids[0] == test; }
    NodeEvalOne(d.cal, IsBoolOp(true), Col(t, c));
    NodeEvalOne(d.cal, NotOp, test);
    NodeTranslates(IsBoolOp(true), [Col(t, c)]);
    assert Parts([Col(t, c)]) == [CyCol(t, c)];
    NodeTranslates(NotOp, [test]);
    assert Parts([test]) == [Translate(test).value];
    Two(d, CyCompare(Eq), CyCol(t, c), CyLit(Bool(true)), map[], []);
    One(d, CyNot, Translate(test).value, map[], []);
  }

  lemma NodeEvalOne(cal: Calendar, op: Op, x: Expr)
    ensures Eval(cal, Node(op, [x]), map[], []) == Apply(cal, op, [Eval(cal, x, map[], [])])
  {
    NodeEval(cal, op, [x], map[], []);
    assert Operands(cal, [x], map[], []) == [Eval(cal, x, map[], [])];
  }

  /** DATE() of a date, compared with a day, is a comparison of a date with a timestamp: always unknown. */
  lemma DateOfDateUnknown(d: Dialect, x: CyExpr, op: CmpOp, day: int, b: Binding, group: seq<Binding>)
    requires CyEval(d, x, b, group).Day?
    ensures CyEval(d, TimestampOn(x, op, day), b, group) == Null
    ensures Compare(op, DateOfTime(CyEval(d, x, b, group)), Day(day)).Bool?
  {
    Two(d, CyCompare(Ge), x, Midnight(day), b, group);
    Two(d, CyCompare(Ge), x, Midnight(day + 1), b, group);
    Two(d, CyCompare(Lt), x, Midnight(day), b, group);
    Two(d, CyCompare(Lt), x, Midnight(day + 1), b, group);
    var from, until := CyNode(CyCompare(Ge), [x, Midnight(day)]), CyNode(CyCompare(Lt), [x, Midnight(day + 1)]);
    Two(d, CyAnd, from, until, b, group);
    One(d, CyNot, CyNode(CyAnd, [from, until]), b, group);
  }
}
