/** A block moved to another fact: a measure that survives the fan-out, over the rows the new fact's joins give. */
module Moved {
  import opened Options
  import opened Sql
  import opened From
  import opened Measures
  import Rendered

  ghost predicate EachOnceIn(rows: seq<Binding>) {
    forall i, j :: 0 <= i < j < |rows| ==> rows[i] != rows[j]
  }

  /** The rows of a table that a list of FROM rows reaches, each once, and an outer join's null row not among them. */
  function RealRows(t: Table, rows: seq<Binding>): (r: seq<Binding>)
    ensures forall d :: d in r <==> d in TableRows(t, rows) && d != map[t := map[]]
    ensures EachOnceIn(r)
  {
    Without(TableRows(t, rows), map[t := map[]])
  }

  function Without(rows: seq<Binding>, d: Binding): (r: seq<Binding>)
    ensures forall b :: b in r <==> b in rows && b != d
    ensures EachOnceIn(rows) ==> EachOnceIn(r)
  {
    if rows == [] then []
    else
      assert rows == [rows[0]] + rows[1..];
      assert EachOnceIn(rows) ==> EachOnceIn(rows[1..]) && rows[0] !in rows[1..];
      if rows[0] == d then Without(rows[1..], d) else [rows[0]] + Without(rows[1..], d)
  }

  lemma {:induction false} ExtensionOf(db: Db, joins: seq<Join>, bs: seq<Binding>, c: Binding)
    requires c in Extensions(db, joins, bs)
    ensures exists b :: b in bs && c == Full(db, joins, b)
  {
    hide Full, Survives;
    assert bs == [bs[0]] + bs[1..];
    if c in Extensions(db, joins, bs[1..]) {
      ExtensionOf(db, joins, bs[1..], c);
    } else {
      assert bs[0] in bs && c == Full(db, joins, bs[0]);
    }
  }

  lemma {:induction false} KeptRow(cal: Calendar, filters: seq<Expr>, dims: seq<Expr>, g: seq<Value>, bs: seq<Binding>, c: Binding)
    ensures c in Where(cal, filters, bs) ==> c in bs
    ensures c in Group(cal, dims, g, bs) ==> c in bs
  {
    hide KeepsAll, Keys;
    if bs != [] {
      KeptRow(cal, filters, dims, g, bs[1..], c);
      assert bs == [bs[0]] + bs[1..];
    }
  }

  /** Each of a block's rows holds, of each table joined, one of its rows, or an outer join's null row. */
  lemma BlockRowsHold(cal: Calendar, db: Db, fact: Table, joins: seq<Join>, filters: seq<Expr>, dims: seq<Expr>, g: seq<Value>, b: Binding)
    requires IsTree(fact, joins) && TargetsUnique(db, joins) && b in Group(cal, dims, g, Where(cal, filters, Joined(db, joins, Facts(db, fact))))
    ensures forall t :: t in b ==> b[t] == map[] || b[t] in RowsOf(db, t)
    ensures b.Keys == {fact} + (set j | j in joins :: j.to)
  {
    hide IsTree, TargetsUnique, Full, Joined, Where, Group, Extensions;
    var bs := Facts(db, fact);
    KeptRow(cal, filters, dims, g, Joined(db, joins, bs), b);
    KeptRow(cal, filters, dims, g, Where(cal, filters, Joined(db, joins, bs)), b);
    TreeOnce(fact, joins);
    JoinedIsExtensions(db, joins, bs);
    ExtensionOf(db, joins, bs, b);
    var c :| c in bs && b == Full(db, joins, c);
    var i :| 0 <= i < |bs| && bs[i] == c;
    assert c == map[fact := RowsOf(db, fact)[i]];
    Rendered.FullRows(db, fact, joins, c);
    Rendered.FullIs(db, fact, joins, c);
  }

  /** The aggregates make nothing of a table's null row: their arguments are null there. */
  ghost predicate NullIgnored(cal: Calendar, e: Expr, t: Table) {
    forall a :: a in Aggregates(e) && a.Agg? && a.arg.Some? ==> Eval(cal, a.arg.value, map[t := map[]], []) == Null
  }

  lemma {:induction false} ValuesHave(cal: Calendar, x: Expr, rows: seq<Binding>, v: Value)
    ensures v in Values(cal, x, rows) <==> exists d :: d in rows && v == Eval(cal, x, d, [])
  {
    hide Eval;
    var vs := Values(cal, x, rows);
    if d :| d in rows && v == Eval(cal, x, d, []) {
      var i :| 0 <= i < |rows| && rows[i] == d;
      assert vs[i] == v;
    }
    if v in vs {
      var i :| 0 <= i < |vs| && vs[i] == v;
      assert rows[i] in rows;
    }
  }

  /** Without the null row, the arguments come to the same values, nulls aside. */
  lemma SameWithoutNull(cal: Calendar, e: Expr, t: Table, rows: seq<Binding>)
    requires NullIgnored(cal, e, t)
    ensures SameArguments(cal, e, TableRows(t, rows), RealRows(t, rows))
  {
    hide Eval, Values, TableRows;
    forall a | a in Aggregates(e) && a.Agg? && a.arg.Some?
      ensures SameMembers(NonNull(Values(cal, a.arg.value, TableRows(t, rows))), NonNull(Values(cal, a.arg.value, RealRows(t, rows))))
    {
      var x := a.arg.value;
      NonNullMembers(Values(cal, x, TableRows(t, rows)));
      NonNullMembers(Values(cal, x, RealRows(t, rows)));
      forall v: Value | !v.Null?
        ensures v in Values(cal, x, TableRows(t, rows)) <==> v in Values(cal, x, RealRows(t, rows))
      {
        ValuesHave(cal, x, TableRows(t, rows), v);
        ValuesHave(cal, x, RealRows(t, rows), v);
      }
    }
  }

  /** When a block moves to another fact, a safe measure on a table is, in every group of the block's own rows, its
      value over the distinct rows of that table the new fact reaches there, however often the joins repeat them;
      and, when its aggregates make nothing of an outer join's null row, over rows of the table alone. */
  lemma MovedMeasure(cal: Calendar, db: Db, fact: Table, joins: seq<Join>, filters: seq<Expr>, dims: seq<Expr>, g: seq<Value>,
                     e: Expr, t: Table, b: Binding)
    requires IsTree(fact, joins) && TargetsUnique(db, joins) && (t == fact || exists j :: j in joins && j.to == t)
    requires FanoutSafe(e) && ReadsOnly(e, {t}) && ArgumentsGiven(e)
    ensures var rows := Group(cal, dims, g, Where(cal, filters, Joined(db, joins, Facts(db, fact))));
            && Eval(cal, e, b, rows) == Eval(cal, e, b, TableRows(t, rows))
            && (NullIgnored(cal, e, t) ==> Eval(cal, e, b, rows) == Eval(cal, e, b, RealRows(t, rows)))
            && forall d :: d in RealRows(t, rows) ==> d.Keys == {t} && d[t] in RowsOf(db, t)
  {
    hide IsTree, TargetsUnique, Eval, ReadsOnly, ArgumentsGiven, Group, Where, Joined, TableRows, NullIgnored, Reaches, Aggregates;
    var rows := Group(cal, dims, g, Where(cal, filters, Joined(db, joins, Facts(db, fact))));
    TableRowsReach(t, rows);
    FanoutSafeSame(cal, e, {t}, b, rows, TableRows(t, rows));
    if NullIgnored(cal, e, t) {
      SameWithoutNull(cal, e, t, rows);
      SafeByArguments(cal, e, b, TableRows(t, rows), RealRows(t, rows));
    }
    forall d | d in RealRows(t, rows)
      ensures d.Keys == {t} && d[t] in RowsOf(db, t)
    {
      var c :| c in rows && d == RowIn(t, c);
      BlockRowsHold(cal, db, fact, joins, filters, dims, g, c);
    }
  }

  /** Of one safe aggregate: the null row may be dropped, whatever the rows, exactly when its argument is null there. */
  lemma NullRowExactly(cal: Calendar, fn: AggFn, distinct: bool, x: Expr, t: Table, b: Binding)
    requires SafeAggregate(Agg(fn, distinct, Some(x)))
    ensures (forall rows :: Eval(cal, Agg(fn, distinct, Some(x)), b, [map[t := map[]]] + rows) == Eval(cal, Agg(fn, distinct, Some(x)), b, rows))
            <==> Eval(cal, x, map[t := map[]], []) == Null
  {
    hide Eval;
    var none: Binding := map[t := map[]];
    var v := Eval(cal, x, none, []);
    forall rows
      ensures v == Null ==> Eval(cal, Agg(fn, distinct, Some(x)), b, [none] + rows) == Eval(cal, Agg(fn, distinct, Some(x)), b, rows)
    {
      AggIsOf(cal, fn, distinct, x, b, [none] + rows);
      AggIsOf(cal, fn, distinct, x, b, rows);
      assert Values(cal, x, [none] + rows) == [v] + Values(cal, x, rows);
      assert ([v] + Values(cal, x, rows))[1..] == Values(cal, x, rows);
    }
    AggIsOf(cal, fn, distinct, x, b, [none]);
    AggIsOf(cal, fn, distinct, x, b, []);
    assert Values(cal, x, [none]) == [v] && Values(cal, x, []) == [];
    assert [none] + [] == [none];
    assert [v][1..] == [];
    if v != Null {
      assert NonNull([v]) == [v] + NonNull([]);
      assert Distinct([v]) == [v];
      assert AggOf(fn, distinct, [v], 1) != AggOf(fn, distinct, [], 0);
      assert Eval(cal, Agg(fn, distinct, Some(x)), b, [none] + []) != Eval(cal, Agg(fn, distinct, Some(x)), b, []);
    }
  }
}
