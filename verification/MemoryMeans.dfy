/** The Cypher rendered for memory, with its guard, evaluated as Cypher over everything in memory: it means what the
    SQL means over what memory holds for the reader. */
module MemoryMeans {
  import opened Options
  import opened Sql
  import opened CypherExpr
  import opened CypherMeans
  import opened From
  import opened Rendered
  import opened Guarded
  import CypherMatch
  import SameRows
  import M = Measures

  /** WHERE: the filters, as Cypher evaluates them, and the guard on every node matched. */
  ghost function CyWhereHeld(d: Dialect, guard: Guard, ts: set<Table>, filters: seq<Expr>, rows: seq<Binding>): seq<Binding>
    requires AllTranslate(filters)
  {
    if rows == [] then []
    else (if AllHeld(guard, ts, rows[0]) && forall f :: f in filters ==> CyEval(d, Translate(f).value, rows[0], []) == Bool(true)
          then [rows[0]] else [])
         + CyWhereHeld(d, guard, ts, filters, rows[1..])
  }

  ghost function CyMemoryRows(d: Dialect, db: Db, guard: Guard, q: Query): seq<Binding>
    requires AllTranslate(SubstAll(q.joins, q.filters))
  {
    var r := SameRows.Rendering(q);
    var matched := {q.fact} + set j | j in r.inner :: j.to;
    OptionalMatches(db, guard, r.optional, CyWhereHeld(d, guard, matched, r.filters, Joined(db, r.inner, Facts(db, q.fact))))
  }

  /** A group of the answer memory gives. */
  ghost function CyMemoryAnswer(d: Dialect, db: Db, guard: Guard, q: Query, dims: seq<Expr>, g: seq<Value>): seq<Binding>
    requires AllTranslate(SubstAll(q.joins, q.filters)) && AllTranslate(SubstAll(q.joins, dims))
  {
    CyGroup(d, SubstAll(q.joins, dims), g, CyMemoryRows(d, db, guard, q))
  }

  lemma {:induction false} CyWhereHeldIs(d: Dialect, guard: Guard, ts: set<Table>, filters: seq<Expr>, rows: seq<Binding>)
    requires AllTranslate(filters)
    ensures CyWhereHeld(d, guard, ts, filters, rows) == CyWhere(d, filters, Holding(guard, ts, rows))
  {
    hide AllHeld, CyEval, Translate, AllTranslate;
    if rows != [] {
      CyWhereHeldIs(d, guard, ts, filters, rows[1..]);
      var rest := Holding(guard, ts, rows[1..]);
      if AllHeld(guard, ts, rows[0]) {
        assert ([rows[0]] + rest)[1..] == rest;
      } else {
        assert [] + rest == rest;
        assert [] + CyWhere(d, filters, rest) == CyWhere(d, filters, rest);
      }
    }
  }

  /** The guarded Cypher over all of memory is the Cypher, without its guard, over what memory holds for the reader. */
  lemma GuardedCypherIsHeld(d: Dialect, db: Db, guard: Guard, q: Query, dims: seq<Expr>, g: seq<Value>)
    requires IsTree(q.fact, q.joins)
    requires AllTranslate(SubstAll(q.joins, q.filters)) && AllTranslate(SubstAll(q.joins, dims))
    ensures CyMemoryAnswer(d, db, guard, q, dims, g) == CyAnswer(d, Held(guard, db), q, dims, g)
  {
    hide IsTree, Held, Holding, Joined, OptionalMatches, CyWhereHeld, CyWhere, CyGroup, AllTranslate, SameRows.InnerJoins, SameRows.OptionalJoins, SubstAll;
    SameRows.Trees(q);
    SameRows.AllPicked(q);
    var r := SameRows.Rendering(q);
    forall p | p in r.inner
      ensures !p.outer
    {
      assert p in SameRows.InnerJoins(q) + SameRows.OptionalJoins(q);
    }
    HoldingJoined(db, guard, q.fact, r.inner);
    var ts := {q.fact} + set j | j in r.inner :: j.to;
    var rows := Joined(db, r.inner, Facts(db, q.fact));
    CyWhereHeldIs(d, guard, ts, r.filters, rows);
    OptionalsAreHeld(db, guard, r.optional, CyWhereHeld(d, guard, ts, r.filters, rows));
  }

  /** The guarded Cypher over all of memory has the groups and values the SQL has over what memory holds. */
  lemma MemoryMeansSql(d: Dialect, db: Db, guard: Guard, q: Query, dims: seq<Expr>, g: seq<Value>, e: Expr)
    requires SameRows.Fits(d.cal, Held(guard, db), q) && e in q.outs && forall x :: x in dims ==> x in q.outs
    requires Filterable(d, SubstAll(q.joins, q.filters), Joined(Held(guard, db), SameRows.InnerJoins(q), Facts(Held(guard, db), q.fact)))
    requires Groupable(d, SubstAll(q.joins, dims), CypherRows(d.cal, Held(guard, db), q.fact, SameRows.Rendering(q)))
    requires Translate(CypherMatch.Subst(q.joins, e)).Some? && Exact(CypherMatch.Subst(q.joins, e))
    requires forall b :: b in CyMemoryAnswer(d, db, guard, q, dims, g) ==>
               Proper(d.cal, CypherMatch.Subst(q.joins, e), b, CyMemoryAnswer(d, db, guard, q, dims, g))
    requires dims == [] && CyMemoryAnswer(d, db, guard, q, dims, g) == [] ==> Proper(d.cal, CypherMatch.Subst(q.joins, e), map[], [])
    ensures var bs, cs := M.Group(d.cal, dims, g, SqlRows(d.cal, Held(guard, db), q)), CyMemoryAnswer(d, db, guard, q, dims, g);
            && |bs| == |cs|
            && (forall i :: 0 <= i < |bs| ==>
                 Eval(d.cal, e, bs[i], bs) == CyEval(d, Translate(CypherMatch.Subst(q.joins, e)).value, cs[i], cs))
            && (dims == [] && bs == [] ==>
                 Eval(d.cal, e, map[], []) == CyEval(d, Translate(CypherMatch.Subst(q.joins, e)).value, map[], []))
  {
    hide M.Group, CyMemoryAnswer, CyAnswer, Proper, Exact, Translate, Eval, CyEval, CypherMatch.Subst, SqlRows, SameRows.Fits, Joined, Held,
         SameRows.InnerJoins, SameRows.OptionalJoins, SubstAll, IsTree, Filterable, Groupable;
    FitsTree(d.cal, Held(guard, db), q);
    Translates(d, SubstAll(q.joins, q.filters), SubstAll(q.joins, dims), Joined(Held(guard, db), SameRows.InnerJoins(q), Facts(Held(guard, db), q.fact)),
               CypherRows(d.cal, Held(guard, db), q.fact, SameRows.Rendering(q)));
    GuardedCypherIsHeld(d, db, guard, q, dims, g);
    RenderedMeansSql(d, Held(guard, db), q, dims, g, e);
  }

  lemma FitsTree(cal: Calendar, db: Db, q: Query)
    requires SameRows.Fits(cal, db, q)
    ensures IsTree(q.fact, q.joins)
  {
  }

  lemma Translates(d: Dialect, filters: seq<Expr>, dims: seq<Expr>, rows: seq<Binding>, more: seq<Binding>)
    requires Filterable(d, filters, rows) && Groupable(d, dims, more)
    ensures AllTranslate(filters) && AllTranslate(dims)
  {
    hide Proper, Exact, TruthExact, Translate;
  }
}
