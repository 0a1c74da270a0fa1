/** What the rendering walks of a question: its own question over the nodes, with columns read where the outer joins equate
    them and only the tables matched. Being a match of that grows with the graph. */
module Walked {
  import opened Options
  import opened Data
  import opened Tables
  import A = Answerable
  import Answered
  import MemoryRoute
  import S = Sql
  import F = From
  import R = Rendered
  import CypherMatch
  import SameRows

  type Columns = map<Label, set<Prop>>

  // ---- filters, read where the outer joins equate their columns

  function ReadFilter(js: seq<F.Join>, f: A.Filter): A.Filter {
    match f
    case Compare(t, c, op, v, first) => var (s, p) := CypherMatch.Source(js, t, c); A.Compare(s, p, op, v, first)
    case OneOf(t, c, vs) => var (s, p) := CypherMatch.Source(js, t, c); A.OneOf(s, p, vs)
    case IsNull(t, c) => var (s, p) := CypherMatch.Source(js, t, c); A.IsNull(s, p)
    case IsBool(t, c, v) => var (s, p) := CypherMatch.Source(js, t, c); A.IsBool(s, p, v)
    case CompareColumns(t, c, op, t', c') =>
      var (s, p) := CypherMatch.Source(js, t, c);
      var (s', p') := CypherMatch.Source(js, t', c');
      A.CompareColumns(s, p, op, s', p')
    case Not(g) => A.Not(ReadFilter(js, g))
    case And(l, r) => A.And(ReadFilter(js, l), ReadFilter(js, r))
    case Or(l, r) => A.Or(ReadFilter(js, l), ReadFilter(js, r))
  }

  function ReadFilters(js: seq<F.Join>, fs: seq<A.Filter>): (r: seq<A.Filter>)
    ensures |r| == |fs| && forall i :: 0 <= i < |fs| ==> r[i] == ReadFilter(js, fs[i])
  {
    seq(|fs|, i requires 0 <= i < |fs| => ReadFilter(js, fs[i]))
  }

  lemma SubstKids(js: seq<F.Join>, op: S.Op, kids: seq<S.Expr>, read: seq<S.Expr>)
    requires |kids| == |read| && forall i :: 0 <= i < |kids| ==> CypherMatch.Subst(js, kids[i]) == read[i]
    ensures CypherMatch.Subst(js, S.Node(op, kids)) == S.Node(op, read)
  {
    hide CypherMatch.Source;
    assert seq(|kids|, i requires 0 <= i < |kids| => CypherMatch.Subst(js, kids[i])) == read;
  }

  lemma ReadColumn(js: seq<F.Join>, t: Label, c: Prop)
    ensures var (s, p) := CypherMatch.Source(js, t, c); CypherMatch.Subst(js, S.Col(t, c)) == S.Col(s, p)
    ensures forall v :: CypherMatch.Subst(js, LitOf(v)) == LitOf(v)
  {
  }

  /** Reading a filter's columns elsewhere is reading its expression's there. */
  lemma {:induction false} ReadMeans(js: seq<F.Join>, f: A.Filter)
    ensures ExprOf(ReadFilter(js, f)) == CypherMatch.Subst(js, ExprOf(f))
    decreases f
  {
    hide CypherMatch.Source, CypherMatch.Subst;
    match f
    case IsBool(t, c, v) =>
      ReadColumn(js, t, c);
      var (s, p) := CypherMatch.Source(js, t, c);
      SubstKids(js, S.Comparison(S.Eq), [S.Col(t, c), LitOf(1)], [S.Col(s, p), LitOf(1)]);
      SubstKids(js, S.IsBoolOp(v), ExprOf(f).kids, ExprOf(ReadFilter(js, f)).kids);
    case CompareColumns(t, c, _, t', c') =>
      ReadColumn(js, t, c);
      ReadColumn(js, t', c');
      SubstKids(js, ExprOf(f).op, ExprOf(f).kids, ExprOf(ReadFilter(js, f)).kids);
    case Not(g) =>
      ReadMeans(js, g);
      SubstKids(js, S.NotOp, ExprOf(f).kids, ExprOf(ReadFilter(js, f)).kids);
    case And(l, r) =>
      ReadMeans(js, l);
      ReadMeans(js, r);
      SubstKids(js, S.AndOp, ExprOf(f).kids, ExprOf(ReadFilter(js, f)).kids);
    case Or(l, r) =>
      ReadMeans(js, l);
      ReadMeans(js, r);
      SubstKids(js, S.OrOp, ExprOf(f).kids, ExprOf(ReadFilter(js, f)).kids);
    case _ =>
      ReadColumn(js, f.table, f.col);
      SubstKids(js, ExprOf(f).op, ExprOf(f).kids, ExprOf(ReadFilter(js, f)).kids);
  }

  lemma ReadAllMeans(js: seq<F.Join>, fs: seq<A.Filter>)
    ensures FiltersOf(ReadFilters(js, fs)) == R.SubstAll(js, FiltersOf(fs))
  {
    hide ExprOf, ReadFilter, CypherMatch.Subst;
    forall i | 0 <= i < |fs|
      ensures ExprOf(ReadFilter(js, fs[i])) == CypherMatch.Subst(js, ExprOf(fs[i]))
    {
      ReadMeans(js, fs[i]);
    }
  }

  /** A truth test under no NOT. */
  predicate TruthOnly(f: A.Filter) {
    match f
    case Not(g) => !Tests(g)
    case And(l, r) => TruthOnly(l) && TruthOnly(r)
    case Or(l, r) => TruthOnly(l) && TruthOnly(r)
    case _ => true
  }

  predicate Tests(f: A.Filter) {
    match f
    case IsBool(_, _, _) => true
    case Not(g) => Tests(g)
    case And(l, r) => Tests(l) || Tests(r)
    case Or(l, r) => Tests(l) || Tests(r)
    case _ => false
  }

  lemma {:induction false} ReadKeeps(js: seq<F.Join>, f: A.Filter)
    ensures Listed(ReadFilter(js, f)) == Listed(f) && Tests(ReadFilter(js, f)) == Tests(f) && TruthOnly(ReadFilter(js, f)) == TruthOnly(f)
  {
    match f
    case Not(g) => ReadKeeps(js, g);
    case And(l, r) => ReadKeeps(js, l); ReadKeeps(js, r);
    case Or(l, r) => ReadKeeps(js, l); ReadKeeps(js, r);
    case _ =>
  }

  predicate Kept(cols: Columns, t: Label, c: Prop) {
    t in cols && c in cols[t]
  }

  ghost predicate JoinsKept(joins: seq<A.Join>, cols: Columns) {
    forall j :: j in joins ==> Kept(cols, j.a, j.ac) && Kept(cols, j.t, j.tc)
  }

  lemma {:induction false} SourceKept(joins: seq<A.Join>, cols: Columns, t: Label, c: Prop)
    requires JoinsKept(joins, cols) && Kept(cols, t, c)
    ensures var (s, p) := CypherMatch.Source(JoinsOf(joins), t, c); Kept(cols, s, p)
    decreases |joins|
  {
    if joins != [] {
      var n := |joins| - 1;
      var js := JoinsOf(joins);
      assert js[..n] == JoinsOf(joins[..n]) && js[n] == JoinOf(joins[n]) && joins[n] in joins;
      SourceKept(joins[..n], cols, t, c);
      SourceKept(joins[..n], cols, joins[n].a, joins[n].ac);
    }
  }

  lemma {:induction false} ReadIsKept(joins: seq<A.Join>, cols: Columns, f: A.Filter)
    requires JoinsKept(joins, cols) && MemoryRoute.ColumnsRead(f, cols)
    ensures MemoryRoute.ColumnsRead(ReadFilter(JoinsOf(joins), f), cols)
  {
    hide CypherMatch.Source, JoinsKept;
    match f
    case CompareColumns(t, c, _, t', c') => SourceKept(joins, cols, t, c); SourceKept(joins, cols, t', c');
    case Not(g) => ReadIsKept(joins, cols, g);
    case And(l, r) => ReadIsKept(joins, cols, l); ReadIsKept(joins, cols, r);
    case Or(l, r) => ReadIsKept(joins, cols, l); ReadIsKept(joins, cols, r);
    case _ => SourceKept(joins, cols, f.table, f.col);
  }

  // ---- the tables matched

  function Walk(joins: seq<A.Join>, ts: set<Label>): seq<A.Join> {
    if joins == [] then []
    else
      var j, before := joins[|joins| - 1], Walk(joins[..|joins| - 1], ts);
      if j.t in ts then before + [j.(outer := false)] else before
  }

  lemma {:induction false} WalkIsPick(joins: seq<A.Join>, ts: set<Label>)
    ensures JoinsOf(Walk(joins, ts)) == R.Pick(JoinsOf(joins), ts, false)
    ensures forall j :: j in Walk(joins, ts) ==> !j.outer && exists d :: d in joins && j == d.(outer := false)
  {
    if joins != [] {
      var n := |joins| - 1;
      var js := JoinsOf(joins);
      WalkIsPick(joins[..n], ts);
      assert js[..n] == JoinsOf(joins[..n]) && js[n] == JoinOf(joins[n]);
      assert forall d :: d in joins[..n] ==> d in joins;
      assert joins[n] in joins;
    }
  }

  /** The question the match itself answers. */
  function WalkedFor(block: A.Block, q: R.Query): A.Block {
    A.Block(block.fact, Walk(block.joins, R.Needed(q) - R.Optional(q)), ReadFilters(q.joins, block.filters))
  }

  lemma TreeBack(block: A.Block)
    requires F.IsTree(block.fact, JoinsOf(block.joins))
    ensures Answered.IsTree(block)
  {
    var js := JoinsOf(block.joins);
    forall i | 0 <= i < |js|
      ensures block.joins[i].a in Answered.Joined(block, i) && block.joins[i].t !in Answered.Joined(block, i)
    {
      assert F.Starts(block.fact, js, i) && F.Joins(block.fact, js, i);
      if js[i].from != block.fact {
        var k :| 0 <= k < i && js[k].to == js[i].from;
        assert block.joins[k].t == block.joins[i].a;
      }
      forall k | 0 <= k < i
        ensures block.joins[k].t != block.joins[i].t
      {
        assert js[k].to != js[i].to;
      }
    }
  }

  lemma WalkedIs(block: A.Block, q: R.Query, outs: seq<S.Expr>)
    requires Answered.IsTree(block) && q == QueryOf(block, outs)
    ensures var walked := WalkedFor(block, q);
            && Answered.IsTree(walked) && JoinsOf(walked.joins) == SameRows.InnerJoins(q)
            && FiltersOf(walked.filters) == R.SubstAll(q.joins, q.filters)
            && forall j :: j in walked.joins ==> !j.outer && exists d :: d in block.joins && j == d.(outer := false)
  {
    hide Answered.IsTree, F.IsTree, R.Needed, R.Optional, R.SubstAll, R.Pick, Walk;
    WalkIsPick(block.joins, R.Needed(q) - R.Optional(q));
    ReadAllMeans(q.joins, block.filters);
    TreeOfQuery(block);
    SameRows.Trees(q);
    TreeBack(WalkedFor(block, q));
  }

  /** The match keeps a fact's row exactly when the question it answers matches at the fact's binding. */
  lemma KeptByMatchIs(cal: S.Calendar, view: View, order: Order, block: A.Block, q: R.Query, outs: seq<S.Expr>, k: Value)
    requires Answered.IsTree(block) && q == QueryOf(block, outs) && (forall f :: f in block.filters ==> Listed(f))
    requires Lists(order, view) && NodeId(block.fact, k) in view
    ensures var walked := WalkedFor(block, q);
            SameRows.KeptByMatch(cal, DbOf(view, order), q, map[block.fact := CellsOf(view[NodeId(block.fact, k)])])
            <==> A.IsMatch(view, walked, Bound(view, order, block.fact, walked.joins, k))
  {
    hide Answered.IsTree, Lists, Listed, WalkedFor, SameRows.InnerJoins, R.SubstAll, DbOf, CellsOf, A.IsMatch, Bound, F.Full, F.Survives, S.KeepsAll;
    WalkedIs(block, q, outs);
    WalkedListed(block, q);
    KeptIsMatch(cal, view, order, WalkedFor(block, q), k);
  }

  lemma WalkedListed(block: A.Block, q: R.Query)
    requires forall f :: f in block.filters ==> Listed(f)
    ensures forall f :: f in WalkedFor(block, q).filters ==> Listed(f)
    ensures WalkedFor(block, q).fact == block.fact
  {
    hide Listed, ReadFilter, Walk;
    forall f | f in WalkedFor(block, q).filters
      ensures Listed(f)
    {
      var i :| 0 <= i < |block.filters| && ReadFilter(q.joins, block.filters[i]) == f;
      assert block.filters[i] in block.filters;
      ReadKeeps(q.joins, block.filters[i]);
    }
  }

  // ---- what grows with the graph

  /** What the match keeps over a part of a graph it keeps over the whole, if the question it answers matches there too
      and the joins' targets are unique. */
  lemma KeptGrows(cal: S.Calendar, v: View, w: View, order: Order, block: A.Block, q: R.Query, outs: seq<S.Expr>, k: Value)
    requires Answered.IsTree(block) && q == QueryOf(block, outs) && (forall f :: f in block.filters ==> Listed(f))
    requires Lists(order, v) && Lists(order, w) && NodeId(block.fact, k) in v && NodeId(block.fact, k) in w
    requires MatchGrows(v, w, WalkedFor(block, q)) && forall j :: j in block.joins ==> UniqueIn(w, j.t, j.tc)
    requires SameRows.KeptByMatch(cal, DbOf(v, order), q, map[block.fact := CellsOf(v[NodeId(block.fact, k)])])
    ensures SameRows.KeptByMatch(cal, DbOf(w, order), q, map[block.fact := CellsOf(w[NodeId(block.fact, k)])])
  {
    hide Answered.IsTree, Lists, Listed, WalkedFor, SameRows.InnerJoins, R.SubstAll, DbOf, CellsOf, A.IsMatch, Bound, UniqueIn, SameRows.KeptByMatch, MetEach;
    var walked := WalkedFor(block, q);
    WalkedIs(block, q, outs);
    assert walked.fact == block.fact by { WalkedListed(block, q); }
    KeptByMatchIs(cal, v, order, block, q, outs, k);
    KeptByMatchIs(cal, w, order, block, q, outs, k);
    var b := Bound(v, order, block.fact, walked.joins, k);
    assert A.IsMatch(w, walked, b);
    forall j | j in walked.joins
      ensures UniqueIn(w, j.t, j.tc)
    {
      var d :| d in block.joins && j == d.(outer := false);
    }
    TreeOfBlock(walked);
    BoundIs(v, order, block.fact, walked.joins, k);
    MatchIsBound(w, order, walked, b);
  }

  ghost predicate MatchGrows(v: View, w: View, block: A.Block) {
    forall b :: A.IsMatch(v, block, b) ==> A.IsMatch(w, block, b)
  }

  lemma WalkedKept(block: A.Block, q: R.Query, outs: seq<S.Expr>, cols: Columns)
    requires Answered.IsTree(block) && q == QueryOf(block, outs) && MemoryRoute.ColumnsKept(block, cols)
    ensures MemoryRoute.ColumnsKept(WalkedFor(block, q), cols)
  {
    hide Answered.IsTree, MemoryRoute.ColumnsRead, ReadFilter, Walk, SameRows.InnerJoins, R.SubstAll, R.Needed, R.Optional;
    WalkedIs(block, q, outs);
    var walked := WalkedFor(block, q);
    forall f | f in walked.filters
      ensures MemoryRoute.ColumnsRead(f, cols)
    {
      var i :| 0 <= i < |block.filters| && ReadFilter(q.joins, block.filters[i]) == f;
      assert block.filters[i] in block.filters;
      ReadIsKept(block.joins, cols, block.filters[i]);
    }
  }

  /** The walk: the question's fact and filters, as they are read, and some of its joins, every inner one among them. */
  ghost predicate IsWalk(block: A.Block, walked: A.Block) {
    && walked.fact == block.fact && walked.filters == ReadFilters(JoinsOf(block.joins), block.filters)
    && (forall j :: j in walked.joins ==> !j.outer && exists d :: d in block.joins && j == d.(outer := false))
    && (forall j :: j in block.joins && !j.outer ==> j in walked.joins)
  }

  /** The rendering's is one, when every inner join is needed. */
  lemma WalkedIsWalk(cal: S.Calendar, block: A.Block, q: R.Query, outs: seq<S.Expr>)
    requires Answered.IsTree(block) && q == QueryOf(block, outs) && SameRows.Shaped(cal, q)
    requires forall j :: j in q.joins && !j.outer ==> j.to in R.Needed(q)
    ensures IsWalk(block, WalkedFor(block, q))
  {
    hide Answered.IsTree, SameRows.Shaped, ReadFilter, Walk, R.Needed, R.Optional, R.SubstAll;
    WalkIsPick(block.joins, R.Needed(q) - R.Optional(q));
    forall j | j in block.joins && !j.outer
      ensures j in WalkedFor(block, q).joins
    {
      var i :| 0 <= i < |block.joins| && block.joins[i] == j;
      assert q.joins[i] in q.joins;
      SameRows.InnerNotOptional(cal, q, q.joins[i]);
      WalkHas(block.joins, R.Needed(q) - R.Optional(q), i);
    }
  }

  lemma {:induction false} WalkHas(joins: seq<A.Join>, ts: set<Label>, i: nat)
    requires i < |joins| && joins[i].t in ts
    ensures joins[i].(outer := false) in Walk(joins, ts)
  {
    var n := |joins| - 1;
    if i < n {
      WalkHas(joins[..n], ts, i);
    }
  }
}
