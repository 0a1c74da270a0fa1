/** A block rendered as Cypher for memory: the tables it must walk, the ones walked only optionally, and the rows
    the match gives. */
module Rendered {
  import opened Options
  import opened Sql
  import opened From
  import opened CypherMatch
  import opened M = Measures

  /** A resolved block: `outs` are its dimensions and measures. */
  datatype Query = Query(fact: Table, joins: seq<Join>, filters: seq<Expr>, outs: seq<Expr>)

  /** MATCH the inner joins, WHERE, then OPTIONAL MATCH the others; RETURN the outputs. */
  datatype Cypher = Cypher(inner: seq<Join>, filters: seq<Expr>, optional: seq<Join>, outs: seq<Expr>)

  function Tables(e: Expr): set<Table>
    decreases e
  {
    match e
    case Col(t, _) => {t}
    case Lit(_) => {}
    case Node(_, kids) => set i, t | 0 <= i < |kids| && t in Tables(kids[i]) :: t
    case Agg(_, _, arg) => if arg.Some? then Tables(arg.value) else {}
  }

  function TablesOf(es: seq<Expr>): set<Table> {
    set e, t | e in es && t in Tables(e) :: t
  }

  function SubstAll(joins: seq<Join>, es: seq<Expr>): seq<Expr> {
    seq(|es|, i requires 0 <= i < |es| => Subst(joins, es[i]))
  }

  function Joinable(q: Query): set<Table> {
    {q.fact} + set j | j in q.joins :: j.to
  }

  /** The tables its columns are read from, once each is read where the outer joins equate it. */
  function Used(q: Query): set<Table> {
    TablesOf(SubstAll(q.joins, q.filters)) + TablesOf(SubstAll(q.joins, q.outs))
  }

  /** The tables that some of the joins lead through to those given. */
  function NeededBy(joins: seq<Join>, ts: set<Table>): set<Table> {
    if joins == [] then ts
    else
      var j := joins[|joins| - 1];
      NeededBy(joins[..|joins| - 1], if j.to in ts then ts + {j.from} else ts)
  }

  function Needed(q: Query): set<Table> {
    NeededBy(q.joins, Used(q) + {q.fact})
  }

  function Filtered(q: Query): set<Table> {
    TablesOf(SubstAll(q.joins, q.filters))
  }

  /** Outer joins that nothing filters on, and the joins from a table walked optionally. */
  function OptionalOf(joins: seq<Join>, needed: set<Table>, filtered: set<Table>): set<Table> {
    if joins == [] then {}
    else
      var j, before := joins[|joins| - 1], OptionalOf(joins[..|joins| - 1], needed, filtered);
      if j.to in needed && (j.from in before || (j.outer && j.to !in filtered)) then before + {j.to} else before
  }

  function Optional(q: Query): set<Table> {
    OptionalOf(q.joins, Needed(q), Filtered(q))
  }

  /** The joins to some tables, as MATCH (inner) or as OPTIONAL MATCH (outer). */
  function Pick(joins: seq<Join>, ts: set<Table>, outer: bool): seq<Join> {
    if joins == [] then []
    else
      var j, before := joins[|joins| - 1], Pick(joins[..|joins| - 1], ts, outer);
      if j.to in ts then before + [j.(outer := outer)] else before
  }

  /** The query as Cypher for memory; Unfit when it reads a table it does not join. */
  method Render(q: Query) returns (r: Option<Cypher>)
    ensures r.None? <==> !(Used(q) <= Joinable(q))
    ensures r.Some? ==> r.value == Cypher(Pick(q.joins, Needed(q) - Optional(q), false), SubstAll(q.joins, q.filters),
                                          Pick(q.joins, Optional(q), true), SubstAll(q.joins, q.outs))
  {
    var filters, outs := SubstAll(q.joins, q.filters), SubstAll(q.joins, q.outs);
    var used := TablesOf(filters) + TablesOf(outs);
    if !(used <= Joinable(q)) {
      return None;
    }
    var needed := used + {q.fact};
    var i := |q.joins|;
    assert q.joins[..i] == q.joins;
    while i > 0
      invariant 0 <= i <= |q.joins|
      invariant NeededBy(q.joins[..i], needed) == Needed(q)
    {
      i := i - 1;
      assert q.joins[..i + 1][..i] == q.joins[..i];
      if q.joins[i].to in needed {
        needed := needed + {q.joins[i].from};
      }
    }
    var optional: set<Table> := {};
    for k := 0 to |q.joins|
      invariant optional == OptionalOf(q.joins[..k], needed, TablesOf(filters))
    {
      assert q.joins[..k + 1][..k] == q.joins[..k];
      var j := q.joins[k];
      if j.to in needed && (j.from in optional || (j.outer && j.to !in TablesOf(filters))) {
        optional := optional + {j.to};
      }
    }
    assert q.joins[..|q.joins|] == q.joins;
    return Some(Cypher(Pick(q.joins, needed - optional, false), filters, Pick(q.joins, optional, true), outs));
  }

  /** The SQL's rows, before they are grouped. */
  function SqlRows(cal: Calendar, db: Db, q: Query): seq<Binding> {
    Where(cal, q.filters, Joined(db, q.joins, Facts(db, q.fact)))
  }

  /** The match's rows. A relationship's edges are the pairs of nodes its columns equate, so walking one is the join. */
  function CypherRows(cal: Calendar, db: Db, fact: Table, r: Cypher): seq<Binding> {
    Joined(db, r.optional, Where(cal, r.filters, Joined(db, r.inner, Facts(db, fact))))
  }

  // ---- the sets the rendering computes

  lemma {:induction false} NeededIs(joins: seq<Join>, fact: Table, ts: set<Table>)
    requires IsTree(fact, joins)
    ensures ts <= NeededBy(joins, ts)
    ensures forall j :: j in joins && j.to in NeededBy(joins, ts) ==> j.from in NeededBy(joins, ts)
    ensures forall t :: t in NeededBy(joins, ts) ==> t in ts || exists j :: j in joins && j.from == t && j.to in NeededBy(joins, ts)
    ensures forall t :: t in NeededBy(joins, ts) && t !in ts ==> t == fact || exists j :: j in joins && j.to == t
  {
    if joins != [] {
      var n := |joins| - 1;
      var j, before := joins[n], joins[..n];
      var ts' := if j.to in ts then ts + {j.from} else ts;
      TreePrefix(fact, joins, n);
      NeededIs(before, fact, ts');
      assert forall d :: d in joins <==> d in before || d == j;
      assert Starts(fact, joins, n) && Joins(fact, joins, n);
      if j.from != fact {
        var k :| 0 <= k < n && joins[k].to == j.from;
        assert joins[k] in joins;
      }
    }
  }

  /** A walked table is optional exactly when its join is outer and unfiltered or starts at an optional one. */
  lemma {:induction false} OptionalIs(joins: seq<Join>, fact: Table, needed: set<Table>, filtered: set<Table>)
    requires IsTree(fact, joins)
    ensures var o := OptionalOf(joins, needed, filtered);
            && o <= needed && (forall t :: t in o ==> exists j :: j in joins && j.to == t)
            && forall j :: j in joins ==> (j.to in o <==> j.to in needed && (j.from in o || (j.outer && j.to !in filtered)))
  {
    if joins != [] {
      var n := |joins| - 1;
      var before := joins[..n];
      TreePrefix(fact, joins, n);
      OptionalIs(before, fact, needed, filtered);
      assert forall d :: d in joins <==> d in before || d == joins[n];
      var o, o' := OptionalOf(joins, needed, filtered), OptionalOf(before, needed, filtered);
      assert joins[n].to !in o' by { NotJoinedBefore(fact, joins, n); }
      assert joins[n].from != joins[n].to by { StartsEarlier(fact, joins, n); }
      forall j | j in before
        ensures j.to in o <==> j.to in needed && (j.from in o || (j.outer && j.to !in filtered))
      {
        var k :| 0 <= k < n && before[k] == j;
        assert j == joins[k];
        StartsEarlier(fact, joins, k);
        NotJoinedBefore(fact, joins, n);
      }
    }
  }

  lemma NotJoinedBefore(fact: Table, joins: seq<Join>, n: nat)
    requires IsTree(fact, joins) && n < |joins|
    ensures joins[n].to != fact && forall d :: d in joins[..n] ==> d.to != joins[n].to
  {
    assert Joins(fact, joins, n);
  }

  lemma {:induction false} PickIs(joins: seq<Join>, ts: set<Table>, outer: bool)
    ensures forall j :: j in joins && j.to in ts ==> j.(outer := outer) in Pick(joins, ts, outer)
    ensures forall p :: p in Pick(joins, ts, outer) ==> p.outer == outer && p.to in ts && IsOneOf(p, joins)
  {
    if joins != [] {
      var n := |joins| - 1;
      PickIs(joins[..n], ts, outer);
      assert forall d :: d in joins <==> d in joins[..n] || d == joins[n];
    }
  }

  /** One of these joins, but for its being outer. */
  predicate IsOneOf(p: Join, joins: seq<Join>) {
    exists j :: j in joins && j == p.(outer := j.outer)
  }

  /** Joins picked after others still make a tree, when each starts at the fact, at one of those, or at another picked. */
  lemma {:induction false} PickTree(fact: Table, joins: seq<Join>, ts: set<Table>, outer: bool, base: seq<Join>)
    requires IsTree(fact, joins) && IsTree(fact, base)
    requires forall j :: j in base ==> j.to !in ts
    requires forall j :: j in joins && j.to in ts ==> j.from == fact || j.from in ts || exists d :: d in base && d.to == j.from
    ensures IsTree(fact, base + Pick(joins, ts, outer))
  {
    if joins == [] {
      assert base + Pick(joins, ts, outer) == base;
    } else {
      hide IsTree;
      var n := |joins| - 1;
      var j, before := joins[n], joins[..n];
      assert forall d :: d in before ==> d in joins;
      TreePrefix(fact, joins, n);
      PickTree(fact, before, ts, outer, base);
      if j.to in ts {
        var all, one := base + Pick(before, ts, outer), j.(outer := outer);
        PickIs(before, ts, outer);
        NotJoinedBefore(fact, joins, n);
        assert j in joins;
        if j.from != fact && !exists d :: d in base && d.to == j.from {
          FromJoined(fact, joins, n);
          var d :| d in before && d.to == j.from;
          assert d.(outer := outer) in all;
        }
        TreeAppend(fact, all, one);
        assert base + Pick(joins, ts, outer) == all + [one];
      }
    }
  }

  lemma FromJoined(fact: Table, joins: seq<Join>, n: nat)
    requires IsTree(fact, joins) && n < |joins|
    ensures joins[n].from == fact || exists d :: d in joins[..n] && d.to == joins[n].from
  {
    assert Starts(fact, joins, n);
    if joins[n].from != fact {
      var k :| 0 <= k < n && joins[k].to == joins[n].from;
      assert joins[k] in joins[..n];
    }
  }

  // ---- a row's tables, whichever way it was joined

  /** Each joined table holds its join's match for the row; one join more leaves that so. */
  ghost predicate Holds(db: Db, fact: Table, joins: seq<Join>, b: Binding, full: Binding) {
    && full.Keys == {fact} + (set j | j in joins :: j.to) && fact in b && full[fact] == b[fact]
    && forall j :: j in joins ==> full[j.to] == MatchRow(db, j, Cell(full, j.from, j.fromCol))
  }

  lemma HoldsNext(db: Db, fact: Table, before: seq<Join>, j: Join, b: Binding, was: Binding)
    requires Holds(db, fact, before, b, was)
    requires j.to != fact && j.from != j.to && forall d :: d in before ==> d.to != j.to && d.from != j.to
    ensures Holds(db, fact, before + [j], b, was[j.to := MatchRow(db, j, Cell(was, j.from, j.fromCol))])
  {
    hide MatchRow;
  }

  lemma {:induction false} FullIs(db: Db, fact: Table, joins: seq<Join>, b: Binding)
    requires IsTree(fact, joins) && b.Keys == {fact}
    ensures Holds(db, fact, joins, b, Full(db, joins, b))
  {
    hide MatchRow, IsTree;
    if joins != [] {
      hide Holds;
      var n := |joins| - 1;
      var before := joins[..n];
      TreePrefix(fact, joins, n);
      FullIs(db, fact, before, b);
      NotJoinedBefore(fact, joins, n);
      StartsEarlier(fact, joins, n);
      forall d | d in before
        ensures d.from != joins[n].to
      {
        var k :| 0 <= k < n && before[k] == d;
        StartsEarlier(fact, joins, k);
      }
      HoldsNext(db, fact, before, joins[n], b, Full(db, before, b));
      assert before + [joins[n]] == joins;
    }
  }

  lemma MatchRowAlike(db: Db, p: Join, j: Join, key: Value)
    requires j == p.(outer := j.outer)
    ensures MatchRow(db, p, key) == MatchRow(db, j, key)
  {
  }

  lemma FullPrefix(db: Db, fact: Table, joins: seq<Join>, b: Binding)
    requires IsTree(fact, joins) && joins != [] && b.Keys == {fact}
    ensures var full, before, j := Full(db, joins, b), Full(db, joins[..|joins| - 1], b), joins[|joins| - 1];
            full == before[j.to := MatchRow(db, j, Cell(before, j.from, j.fromCol))]
  {
  }

  /** Some of the joins, in any order that makes a tree, give their tables the rows all of them give. */
  lemma {:induction false} FullOfPart(db: Db, fact: Table, joins: seq<Join>, part: seq<Join>, b: Binding)
    requires IsTree(fact, joins) && IsTree(fact, part) && b.Keys == {fact} && forall p :: p in part ==> IsOneOf(p, joins)
    ensures var full, some := Full(db, joins, b), Full(db, part, b);
            some.Keys == {fact} + (set j | j in part :: j.to) && forall t :: t in some ==> t in full && full[t] == some[t]
  {
    hide MatchRow, IsTree, Full;
    FullIs(db, fact, joins, b);
    FullIs(db, fact, part, b);
    if part != [] {
      var n := |part| - 1;
      TreePrefix(fact, part, n);
      FullOfPart(db, fact, joins, part[..n], b);
      FromJoined(fact, part, n);
      var p := part[n];
      assert p in part;
      var j :| j in joins && j == p.(outer := j.outer);
      var full, some, was := Full(db, joins, b), Full(db, part, b), Full(db, part[..n], b);
      assert p.from in was;
      MatchRowAlike(db, p, j, Cell(full, j.from, j.fromCol));
      FullPrefix(db, fact, part, b);
      assert some[p.to] == full[p.to];
    }
  }

  lemma {:induction false} FullConcat(db: Db, first: seq<Join>, second: seq<Join>, b: Binding)
    ensures Full(db, first + second, b) == Full(db, second, Full(db, first, b))
  {
    hide MatchRow;
    var all := first + second;
    if second == [] {
      assert all == first;
    } else {
      var n := |second| - 1;
      FullConcat(db, first, second[..n], b);
      assert all[..|all| - 1] == first + second[..n];
    }
  }

  /** Every non-null value of an outer join's pointing column has a match. */
  ghost predicate AlwaysMatched(db: Db, joins: seq<Join>) {
    forall j, r :: j in joins && j.outer && r in RowsOf(db, j.from) && !CellOf(r, j.fromCol).Null?
      ==> MatchRow(db, j, CellOf(r, j.fromCol)) != map[]
  }

  lemma MatchRowIs(db: Db, j: Join, key: Value)
    ensures var r := MatchRow(db, j, key);
            r == map[] || (r in RowsOf(db, j.to) && CellOf(r, j.toCol) == key && !key.Null?)
  {
    MatchingFits(RowsOf(db, j.to), j.toCol, key);
    var found := Matching(RowsOf(db, j.to), j.toCol, key);
    if found != [] {
      assert found[0] in found;
    }
  }

  /** A row's tables hold their own rows, or null rows. */
  lemma FullRows(db: Db, fact: Table, joins: seq<Join>, b: Binding)
    requires IsTree(fact, joins) && b.Keys == {fact} && b[fact] in RowsOf(db, fact)
    ensures var full := Full(db, joins, b);
            forall t :: t in full ==> full[t] == map[] || full[t] in RowsOf(db, t)
  {
    FullIs(db, fact, joins, b);
    var full := Full(db, joins, b);
    forall t | t in full
      ensures full[t] == map[] || full[t] in RowsOf(db, t)
    {
      if t != fact {
        var j :| j in joins && j.to == t;
        MatchRowIs(db, j, Cell(full, j.from, j.fromCol));
      }
    }
  }

  lemma FullMatched(db: Db, fact: Table, joins: seq<Join>, b: Binding)
    requires IsTree(fact, joins) && b.Keys == {fact}
    ensures forall j :: j in joins ==> j.to in Full(db, joins, b) && (Matched(j, Full(db, joins, b)) <==> Full(db, joins, b)[j.to] != map[])
  {
    hide Full, IsTree, MatchRow;
    var full := Full(db, joins, b);
    FullIs(db, fact, joins, b);
    forall j | j in joins
      ensures Matched(j, full) <==> full[j.to] != map[]
    {
      MatchRowIs(db, j, Cell(full, j.from, j.fromCol));
      assert Cell(full, j.to, j.toCol) == CellOf(full[j.to], j.toCol);
    }
  }
}
