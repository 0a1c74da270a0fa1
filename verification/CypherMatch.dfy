/** A block's FROM and WHERE as Cypher over memory: which columns are read where, which tables are walked, and which
    of them only optionally. */
module CypherMatch {
  import opened Options
  import opened Sql
  import opened From
  import M = Measures

  // ---- the column a reference is replaced by

  /** The outer joins' key columns, each with its pointing column. */
  function Same(joins: seq<Join>): map<(Table, Column), (Table, Column)> {
    if joins == [] then map[]
    else
      var j, before := joins[|joins| - 1], Same(joins[..|joins| - 1]);
      if j.outer then before[(j.to, j.toCol) := (j.from, j.fromCol)] else before
  }

  /** Where a column is read: through the joins that equate it, back towards the fact. */
  function Source(joins: seq<Join>, t: Table, c: Column): (Table, Column) {
    if joins == [] then (t, c)
    else
      var j, before := joins[|joins| - 1], joins[..|joins| - 1];
      if j.outer && j.to == t && j.toCol == c then Source(before, j.from, j.fromCol) else Source(before, t, c)
  }

  lemma {:induction false} SameIs(joins: seq<Join>, t: Table, c: Column)
    requires EachOnce(joins)
    ensures (t, c) in Same(joins) <==> exists i :: 0 <= i < |joins| && Equates(joins[i], t, c)
    ensures forall i :: 0 <= i < |joins| && Equates(joins[i], t, c) ==> Same(joins)[(t, c)] == (joins[i].from, joins[i].fromCol)
  {
    if joins != [] {
      var n := |joins| - 1;
      var before := joins[..n];
      SameIs(before, t, c);
      forall i | 0 <= i < |joins| && Equates(joins[i], t, c)
        ensures (t, c) in Same(joins) && Same(joins)[(t, c)] == (joins[i].from, joins[i].fromCol)
      {
        if i < n {
          assert Equates(before[i], t, c);
          assert joins[i].to != joins[n].to;
        }
      }
      if (t, c) in Same(before) && (t, c) !in {(joins[n].to, joins[n].toCol)} {
        var i :| 0 <= i < |before| && Equates(before[i], t, c);
        assert Equates(joins[i], t, c);
      }
    }
  }

  predicate Equates(j: Join, t: Table, c: Column) {
    j.outer && j.to == t && j.toCol == c
  }

  lemma {:induction false} SourceOfPrefix(joins: seq<Join>, n: nat, t: Table, c: Column)
    requires n <= |joins| && forall i :: n <= i < |joins| ==> !Equates(joins[i], t, c)
    ensures Source(joins, t, c) == Source(joins[..n], t, c)
    decreases |joins|
  {
    if n < |joins| {
      SourceOfPrefix(joins[..|joins| - 1], n, t, c);
      assert joins[..|joins| - 1][..n] == joins[..n];
    } else {
      assert joins[..n] == joins;
    }
  }

  /** The substitution loop: it ends, each column it passes being of a table joined before. */
  method ReadAt(fact: Table, joins: seq<Join>, t: Table, c: Column) returns (v: Table, col: Column)
    requires IsTree(fact, joins)
    ensures (v, col) == Source(joins, t, c) && (v, col) !in Same(joins)
  {
    hide IsTree, EachOnce, Source, Same;
    TreeOnce(fact, joins);
    v, col := t, c;
    ghost var n := |joins|;
    assert joins[..n] == joins;
    while (v, col) in Same(joins)
      invariant 0 <= n <= |joins| && Source(joins, t, c) == Source(joins[..n], v, col)
      invariant forall i :: n <= i < |joins| ==> joins[i].to != v
      decreases n
    {
      SameIs(joins, v, col);
      ghost var i :| 0 <= i < |joins| && Equates(joins[i], v, col);
      SourceStep(fact, joins, i, n, v, col);
      StartsEarlier(fact, joins, i);
      var at := Same(joins)[(v, col)];
      v, col, n := at.0, at.1, i;
    }
    SameIs(joins, v, col);
    SourceEnds(joins, n, v, col);
  }

  lemma SourceStep(fact: Table, joins: seq<Join>, i: nat, n: nat, v: Table, col: Column)
    requires IsTree(fact, joins) && i < n <= |joins| && Equates(joins[i], v, col)
    ensures Source(joins[..n], v, col) == Source(joins[..i], joins[i].from, joins[i].fromCol)
  {
    TreeOnce(fact, joins);
    SourceOfPrefix(joins[..n], i + 1, v, col);
    assert joins[..n][..i + 1] == joins[..i + 1] && joins[..i + 1][..i] == joins[..i];
  }

  lemma StartsEarlier(fact: Table, joins: seq<Join>, i: nat)
    requires IsTree(fact, joins) && i < |joins|
    ensures forall k :: i <= k < |joins| ==> joins[k].to != joins[i].from
  {
    assert Starts(fact, joins, i);
    forall k | i <= k < |joins|
      ensures joins[k].to != joins[i].from
    {
      assert Joins(fact, joins, k);
    }
  }

  lemma {:induction false} SourceEnds(joins: seq<Join>, n: nat, v: Table, col: Column)
    requires n <= |joins| && forall i :: 0 <= i < |joins| ==> !Equates(joins[i], v, col)
    ensures Source(joins[..n], v, col) == (v, col)
  {
    SourceOfPrefix(joins[..n], 0, v, col);
  }

  /** An expression with every column read where the joins equate it. */
  function Subst(joins: seq<Join>, e: Expr): Expr
    decreases e
  {
    match e
    case Col(t, c) => var (v, col) := Source(joins, t, c); Col(v, col)
    case Lit(_) => e
    case Node(op, kids) => Node(op, seq(|kids|, i requires 0 <= i < |kids| => Subst(joins, kids[i])))
    case Agg(fn, distinct, arg) => Agg(fn, distinct, if arg.Some? then Some(Subst(joins, arg.value)) else None)
  }

  /** Each outer join's two columns say the same. */
  ghost predicate KeysAgree(joins: seq<Join>, b: Binding) {
    forall j :: j in joins && j.outer ==> Cell(b, j.to, j.toCol) == Cell(b, j.from, j.fromCol)
  }

  lemma {:induction false} SourceSays(joins: seq<Join>, b: Binding, t: Table, c: Column)
    requires KeysAgree(joins, b)
    ensures var (v, col) := Source(joins, t, c); Cell(b, v, col) == Cell(b, t, c)
  {
    if joins != [] {
      var n := |joins| - 1;
      assert joins[n] in joins;
      if Equates(joins[n], t, c) {
        SourceSays(joins[..n], b, joins[n].from, joins[n].fromCol);
      } else {
        SourceSays(joins[..n], b, t, c);
      }
    }
  }
}
