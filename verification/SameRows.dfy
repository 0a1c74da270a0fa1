/** The match rendered for memory gives the SQL's rows: what it needs for that, and the proof. */
module SameRows {
  import opened Sql
  import opened From
  import opened CypherMatch
  import opened Rendered
  import opened M = Measures

  function InnerJoins(q: Query): seq<Join> {
    Pick(q.joins, Needed(q) - Optional(q), false)
  }

  function OptionalJoins(q: Query): seq<Join> {
    Pick(q.joins, Optional(q), true)
  }

  function Rendering(q: Query): Cypher {
    Cypher(InnerJoins(q), SubstAll(q.joins, q.filters), OptionalJoins(q), SubstAll(q.joins, q.outs))
  }

  /** Some filter keeps no row whose table is a null row. */
  ghost predicate RejectsNull(cal: Calendar, filters: seq<Expr>, t: Table) {
    exists w :: w in filters && NeverKeepsNull(cal, w, t)
  }

  ghost predicate NeverKeepsNull(cal: Calendar, w: Expr, t: Table) {
    forall b: Binding :: t in b && b[t] == map[] ==> !Keeps(cal, w, b)
  }

  /** What the rendering needs of a query: the joins from a table walked optionally are outer and unfiltered; and
      a filter on an outer-joined table rejects its null row. */
  ghost predicate Shaped(cal: Calendar, q: Query) {
    && IsTree(q.fact, q.joins) && Used(q) <= Joinable(q)
    && (forall j :: j in q.joins && j.from in Optional(q) ==> j.outer && j.to !in Filtered(q))
    && (forall j :: j in q.joins && j.outer && j.to in Filtered(q) ==> RejectsNull(cal, SubstAll(q.joins, q.filters), j.to))
  }

  ghost predicate SurvivesNeeded(db: Db, q: Query, b: Binding) {
    forall j :: j in q.joins && !j.outer && j.to in Needed(q) ==> Matched(j, Full(db, q.joins, b))
  }

  /** The SQL would keep the row, but for inner joins to tables not needed. */
  ghost predicate KeptByNeeded(cal: Calendar, db: Db, q: Query, b: Binding) {
    SurvivesNeeded(db, q, b) && KeepsAll(cal, q.filters, Full(db, q.joins, b))
  }

  /** The match keeps the row. */
  ghost predicate KeptByMatch(cal: Calendar, db: Db, q: Query, b: Binding) {
    Survives(db, InnerJoins(q), b) && KeepsAll(cal, SubstAll(q.joins, q.filters), Full(db, InnerJoins(q), b))
  }

  /** In a row either keeps, the outer joins' columns agree: each non-null pointing value has a match. */
  ghost predicate AgreesWhereKept(cal: Calendar, db: Db, q: Query, b: Binding) {
    KeptByNeeded(cal, db, q, b) || KeptByMatch(cal, db, q, b) ==> KeysAgree(q.joins, Full(db, q.joins, b))
  }

  /** And of the tables: each is joined on a unique column, and the rows kept have their outer joins' matches. */
  ghost predicate Renders(cal: Calendar, db: Db, q: Query) {
    && Shaped(cal, q) && TargetsUnique(db, q.joins)
    && forall r :: r in RowsOf(db, q.fact) ==> AgreesWhereKept(cal, db, q, map[q.fact := r])
  }

  /** All the rendering relies on: that, and that every inner join is to a table needed. */
  ghost predicate Fits(cal: Calendar, db: Db, q: Query) {
    Renders(cal, db, q) && forall j :: j in q.joins && !j.outer ==> j.to in Needed(q)
  }

  // ---- the tables walked

  lemma Trees(q: Query)
    requires IsTree(q.fact, q.joins)
    ensures IsTree(q.fact, InnerJoins(q)) && IsTree(q.fact, InnerJoins(q) + OptionalJoins(q))
  {
    hide IsTree, NeededBy, OptionalOf, Pick;
    var needed, optional := Needed(q), Optional(q);
    NeededIs(q.joins, q.fact, Used(q) + {q.fact});
    OptionalIs(q.joins, q.fact, needed, Filtered(q));
    NoTree(q.fact);
    PickTree(q.fact, q.joins, needed - optional, false, []);
    assert [] + InnerJoins(q) == InnerJoins(q);
    PickIs(q.joins, needed - optional, false);
    forall j | j in q.joins && j.to in optional
      ensures j.from == q.fact || j.from in optional || exists d :: d in InnerJoins(q) && d.to == j.from
    {
      if j.from != q.fact && j.from !in optional {
        var i :| 0 <= i < |q.joins| && q.joins[i] == j;
        FromJoined(q.fact, q.joins, i);
        var d :| d in q.joins[..i] && d.to == j.from;
        assert d in q.joins && d.(outer := false) in InnerJoins(q);
      }
    }
    PickTree(q.fact, q.joins, optional, true, InnerJoins(q));
  }

  lemma NoTree(fact: Table)
    ensures IsTree(fact, [])
  {
  }

  lemma AllPicked(q: Query)
    ensures forall p :: p in InnerJoins(q) + OptionalJoins(q) ==> IsOneOf(p, q.joins)
    ensures forall p :: p in InnerJoins(q) ==> !p.outer && p.to in Needed(q) - Optional(q)
    ensures forall p :: p in OptionalJoins(q) ==> p.outer && p.to in Optional(q)
    ensures forall j :: j in q.joins && j.to in Needed(q) - Optional(q) ==> j.(outer := false) in InnerJoins(q)
    ensures forall j :: j in q.joins && j.to in Optional(q) ==> j.(outer := true) in OptionalJoins(q)
  {
    hide Needed, Optional, Pick;
    PickIs(q.joins, Needed(q) - Optional(q), false);
    PickIs(q.joins, Optional(q), true);
  }

  lemma PickedUnique(db: Db, q: Query)
    requires TargetsUnique(db, q.joins)
    ensures TargetsUnique(db, InnerJoins(q)) && TargetsUnique(db, OptionalJoins(q))
  {
    hide InnerJoins, OptionalJoins, Unique;
    AllPicked(q);
    forall p | p in InnerJoins(q) || p in OptionalJoins(q)
      ensures Unique(db, p.to, p.toCol)
    {
      assert p in InnerJoins(q) + OptionalJoins(q);
    }
  }

  /** Every table needed is the fact or a table walked; the filters read only the fact and the tables matched. */
  lemma WalkedTables(q: Query)
    requires IsTree(q.fact, q.joins) && Used(q) <= Joinable(q)
    requires forall j :: j in q.joins && j.from in Optional(q) ==> j.outer && j.to !in Filtered(q)
    ensures forall t :: t in Needed(q) ==> t == q.fact || exists p :: p in InnerJoins(q) + OptionalJoins(q) && p.to == t
    ensures forall t :: t in Filtered(q) ==> t == q.fact || exists p :: p in InnerJoins(q) && p.to == t
  {
    hide IsTree, NeededBy, OptionalOf, InnerJoins, OptionalJoins;
    AllPicked(q);
    NeededIs(q.joins, q.fact, Used(q) + {q.fact});
    OptionalIs(q.joins, q.fact, Needed(q), Filtered(q));
    forall t | t in Needed(q)
      ensures t == q.fact || exists p :: p in InnerJoins(q) + OptionalJoins(q) && p.to == t
      ensures t in Filtered(q) ==> t == q.fact || exists p :: p in InnerJoins(q) && p.to == t
    {
      if t != q.fact {
        assert t in Joinable(q);
        var j :| j in q.joins && j.to == t;
        if t in Optional(q) {
          assert j.(outer := true) in InnerJoins(q) + OptionalJoins(q);
        } else {
          assert j.(outer := false) in InnerJoins(q) + OptionalJoins(q);
        }
      }
    }
    assert Filtered(q) <= Used(q) <= Needed(q);
  }

  // ---- one row

  lemma ReadsTables(e: Expr, ts: set<Table>)
    requires Tables(e) <= ts
    ensures ReadsOnly(e, ts)
    decreases e
  {
    match e
    case Col(_, _) =>
    case Lit(_) =>
    case Node(_, kids) =>
      forall i | 0 <= i < |kids|
        ensures ReadsOnly(kids[i], ts)
      {
        assert forall t :: t in Tables(kids[i]) ==> t in Tables(e);
        ReadsTables(kids[i], ts);
      }
    case Agg(_, _, _) =>
  }

  /** Reading columns where the outer joins equate them changes no value. */
  lemma {:induction false} SubstSays(cal: Calendar, joins: seq<Join>, e: Expr, b: Binding)
    requires KeysAgree(joins, b)
    ensures Eval(cal, Subst(joins, e), b, []) == Eval(cal, e, b, [])
    decreases e
  {
    match e
    case Col(t, c) => SourceSays(joins, b, t, c);
    case Lit(_) =>
    case Node(op, kids) =>
      forall i | 0 <= i < |kids|
        ensures Eval(cal, Subst(joins, kids[i]), b, []) == Eval(cal, kids[i], b, [])
      {
        SubstSays(cal, joins, kids[i], b);
      }
      var read := seq(|kids|, i requires 0 <= i < |kids| => Subst(joins, kids[i]));
      assert seq(|read|, i requires 0 <= i < |read| => Eval(cal, read[i], b, []))
          == seq(|kids|, i requires 0 <= i < |kids| => Eval(cal, kids[i], b, []));
    case Agg(_, _, _) =>
  }

  lemma PartAgrees(db: Db, fact: Table, joins: seq<Join>, part: seq<Join>, b: Binding, ts: set<Table>)
    requires IsTree(fact, joins) && IsTree(fact, part) && b.Keys == {fact} && forall p :: p in part ==> IsOneOf(p, joins)
    requires forall t :: t in ts ==> t == fact || exists p :: p in part && p.to == t
    ensures Agree(Full(db, joins, b), Full(db, part, b), ts)
  {
    hide IsTree, Full, IsOneOf;
    FullOfPart(db, fact, joins, part, b);
    var full, some := Full(db, joins, b), Full(db, part, b);
    forall t | t in ts
      ensures t in some && t in full && some[t] == full[t]
    {
      if t != fact {
        var p :| p in part && p.to == t;
        assert p.to in set j | j in part :: j.to;
      }
    }
  }

  /** The filters keep the match's row exactly when they keep the SQL's. */
  lemma FiltersAlike(cal: Calendar, joins: seq<Join>, filters: seq<Expr>, full: Binding, some: Binding)
    requires KeysAgree(joins, full) && Agree(full, some, TablesOf(SubstAll(joins, filters)))
    ensures KeepsAll(cal, filters, full) <==> KeepsAll(cal, SubstAll(joins, filters), some)
  {
    hide Subst, Eval, ReadsOnly, KeysAgree;
    var read := SubstAll(joins, filters);
    forall i | 0 <= i < |filters|
      ensures Keeps(cal, filters[i], full) <==> Keeps(cal, read[i], some)
    {
      SubstSays(cal, joins, filters[i], full);
      assert read[i] in read;
      ReadsTables(read[i], TablesOf(read));
      AgreeingRows(cal, read[i], TablesOf(read), full, some);
    }
  }

  lemma MatchedAlike(db: Db, q: Query, b: Binding, p: Join, j: Join)
    requires IsTree(q.fact, q.joins) && b.Keys == {q.fact} && p in InnerJoins(q) && j in q.joins && j == p.(outer := j.outer)
    ensures Matched(p, Full(db, InnerJoins(q), b)) <==> Matched(j, Full(db, q.joins, b))
  {
    hide IsTree, Full, InnerJoins, OptionalJoins, IsOneOf;
    Trees(q);
    AllPicked(q);
    assert forall d :: d in InnerJoins(q) ==> d in InnerJoins(q) + OptionalJoins(q);
    PartAgrees(db, q.fact, q.joins, InnerJoins(q), b, {p.to});
    assert Cell(Full(db, q.joins, b), p.to, p.toCol) == Cell(Full(db, InnerJoins(q), b), p.to, p.toCol);
  }

  /** An outer join walked as an inner one is filtered on, so a row the filters keep has a match there. */
  lemma OuterMatched(cal: Calendar, q: Query, db: Db, joins: seq<Join>, b: Binding, p: Join, j: Join)
    requires Shaped(cal, q) && IsTree(q.fact, joins) && b.Keys == {q.fact}
    requires j in q.joins && j.outer && j.to in Needed(q) - Optional(q) && p in joins && p.to == j.to
    requires KeepsAll(cal, SubstAll(q.joins, q.filters), Full(db, joins, b))
    ensures Matched(p, Full(db, joins, b))
  {
    hide IsTree, Full, Needed, Subst, SubstAll, Used, MatchRow, Eval, Matched;
    FullMatched(db, q.fact, joins, b);
    OptionalIs(q.joins, q.fact, Needed(q), Filtered(q));
    var w :| w in SubstAll(q.joins, q.filters) && NeverKeepsNull(cal, w, j.to);
    assert Keeps(cal, w, Full(db, joins, b));
  }

  lemma InnerNotOptional(cal: Calendar, q: Query, j: Join)
    requires Shaped(cal, q) && j in q.joins && !j.outer && j.to in Needed(q)
    ensures j.to in Needed(q) - Optional(q)
  {
    hide IsTree, Needed, Subst, Used, MatchRow, RejectsNull;
    OptionalIs(q.joins, q.fact, Needed(q), Filtered(q));
  }

  /** Of the joins' rows, the ones both keep, where the outer joins' columns agree. */
  lemma KeptAlike(cal: Calendar, db: Db, q: Query, b: Binding)
    requires Shaped(cal, q) && b.Keys == {q.fact} && KeysAgree(q.joins, Full(db, q.joins, b))
    ensures KeptByNeeded(cal, db, q, b) <==> KeptByMatch(cal, db, q, b)
  {
    hide Shaped, IsTree, Full, InnerJoins, OptionalJoins, Needed, KeepsAll, Subst, SubstAll, Used, TablesOf, Matched, MatchRow, KeysAgree;
    var full, some := Full(db, q.joins, b), Full(db, InnerJoins(q), b);
    assert IsTree(q.fact, q.joins) by { ShapedTree(cal, q); }
    Trees(q);
    AllPicked(q);
    ShapedWalked(cal, q);
    assert forall p :: p in InnerJoins(q) ==> p in InnerJoins(q) + OptionalJoins(q);
    PartAgrees(db, q.fact, q.joins, InnerJoins(q), b, Filtered(q));
    FiltersAlike(cal, q.joins, q.filters, full, some);
    forall p, j | p in InnerJoins(q) && j in q.joins && j == p.(outer := j.outer)
      ensures Matched(p, some) <==> Matched(j, full)
    {
      MatchedAlike(db, q, b, p, j);
    }
    if KeptByNeeded(cal, db, q, b) {
      forall p | p in InnerJoins(q)
        ensures Matched(p, some)
      {
        var j :| j in q.joins && j == p.(outer := j.outer);
        if j.outer {
          OuterMatched(cal, q, db, InnerJoins(q), b, p, j);
        }
      }
    }
    if KeptByMatch(cal, db, q, b) {
      forall j | j in q.joins && !j.outer && j.to in Needed(q)
        ensures Matched(j, full)
      {
        InnerNotOptional(cal, q, j);
        assert j.(outer := false) in InnerJoins(q);
      }
    }
  }

  lemma ShapedTree(cal: Calendar, q: Query)
    requires Shaped(cal, q)
    ensures IsTree(q.fact, q.joins)
  {
  }

  lemma ShapedWalked(cal: Calendar, q: Query)
    requires Shaped(cal, q)
    ensures forall t :: t in Needed(q) ==> t == q.fact || exists p :: p in InnerJoins(q) + OptionalJoins(q) && p.to == t
    ensures forall t :: t in Filtered(q) ==> t == q.fact || exists p :: p in InnerJoins(q) && p.to == t
  {
    hide IsTree, Needed, Used, InnerJoins, OptionalJoins, RejectsNull, Optional;
    WalkedTables(q);
  }

  // ---- all the rows

  /** The match's row says what the SQL's does of every table needed, and there the outer joins' columns agree. */
  ghost predicate Alike(q: Query, b: Binding, c: Binding) {
    KeysAgree(q.joins, b) && Agree(b, c, Needed(q))
  }

  ghost predicate AllAlike(q: Query, bs: seq<Binding>, cs: seq<Binding>) {
    |bs| == |cs| && forall i :: 0 <= i < |bs| ==> Alike(q, bs[i], cs[i])
  }

  /** The SQL's rows, but for inner joins to tables not needed. */
  ghost function NeededRows(cal: Calendar, db: Db, q: Query, bs: seq<Binding>): seq<Binding> {
    if bs == [] then []
    else (if KeptByNeeded(cal, db, q, bs[0]) then [Full(db, q.joins, bs[0])] else []) + NeededRows(cal, db, q, bs[1..])
  }

  lemma RowAlike(cal: Calendar, db: Db, q: Query, b: Binding)
    requires Shaped(cal, q) && b.Keys == {q.fact} && KeysAgree(q.joins, Full(db, q.joins, b))
    ensures Alike(q, Full(db, q.joins, b), Full(db, OptionalJoins(q), Full(db, InnerJoins(q), b)))
  {
    hide IsTree, Full, InnerJoins, OptionalJoins, Needed, Subst, Used, MatchRow, RejectsNull, KeysAgree;
    Trees(q);
    AllPicked(q);
    ShapedWalked(cal, q);
    PartAgrees(db, q.fact, q.joins, InnerJoins(q) + OptionalJoins(q), b, Needed(q));
    FullConcat(db, InnerJoins(q), OptionalJoins(q), b);
  }

  lemma KeptRow(cal: Calendar, db: Db, q: Query, b: Binding)
    requires Shaped(cal, q) && b.Keys == {q.fact} && AgreesWhereKept(cal, db, q, b)
    ensures KeptByNeeded(cal, db, q, b) <==> KeptByMatch(cal, db, q, b)
    ensures KeptByNeeded(cal, db, q, b) ==> Alike(q, Full(db, q.joins, b), Full(db, OptionalJoins(q), Full(db, InnerJoins(q), b)))
  {
    hide Shaped, Full, InnerJoins, OptionalJoins, KeptByNeeded, KeptByMatch, Alike, KeysAgree;
    if KeysAgree(q.joins, Full(db, q.joins, b)) {
      KeptAlike(cal, db, q, b);
      RowAlike(cal, db, q, b);
    }
  }

  /** The match's rows, of any of the fact's. */
  ghost function MatchExtensions(cal: Calendar, db: Db, q: Query, bs: seq<Binding>): seq<Binding> {
    Extensions(db, OptionalJoins(q), Where(cal, SubstAll(q.joins, q.filters), Extensions(db, InnerJoins(q), bs)))
  }

  lemma MatchExtensionsOf(cal: Calendar, db: Db, q: Query, bs: seq<Binding>)
    ensures bs == [] ==> MatchExtensions(cal, db, q, bs) == []
    ensures bs != [] ==>
              var kept := if KeptByMatch(cal, db, q, bs[0]) then [Full(db, OptionalJoins(q), Full(db, InnerJoins(q), bs[0]))] else [];
              MatchExtensions(cal, db, q, bs) == kept + MatchExtensions(cal, db, q, bs[1..])
  {
    hide Full, InnerJoins, OptionalJoins, KeepsAll, SubstAll, Survives, Where, Extensions;
    var read := SubstAll(q.joins, q.filters);
    if bs == [] {
      NoRows(cal, db, InnerJoins(q), read);
      NoRows(cal, db, OptionalJoins(q), []);
    } else {
      WhereExtensions(cal, db, InnerJoins(q), read, bs);
      var rest := Where(cal, read, Extensions(db, InnerJoins(q), bs[1..]));
      if KeptByMatch(cal, db, q, bs[0]) {
        OptionalExtensions(db, q, Full(db, InnerJoins(q), bs[0]), rest);
      } else {
        assert [] + rest == rest && [] + Extensions(db, OptionalJoins(q), rest) == Extensions(db, OptionalJoins(q), rest);
      }
    }
  }

  lemma AllAlikeWith(q: Query, bs: seq<Binding>, cs: seq<Binding>, b: Binding, c: Binding)
    requires AllAlike(q, bs, cs)
    ensures Alike(q, b, c) ==> AllAlike(q, [b] + bs, [c] + cs)
    ensures AllAlike(q, [] + bs, [] + cs) && AllAlike(q, [], [])
  {
    hide Alike;
    assert [] + bs == bs && [] + cs == cs;
  }

  /** Those rows and the match's, over any of the fact's rows. */
  lemma {:induction false} RowsAlike(cal: Calendar, db: Db, q: Query, bs: seq<Binding>)
    requires Shaped(cal, q) && forall b :: b in bs ==> b.Keys == {q.fact} && AgreesWhereKept(cal, db, q, b)
    ensures AllAlike(q, NeededRows(cal, db, q, bs), MatchExtensions(cal, db, q, bs))
  {
    hide Shaped, Full, InnerJoins, OptionalJoins, AllAlike, Alike, KeptByNeeded, KeptByMatch, AgreesWhereKept, MatchExtensions;
    MatchExtensionsOf(cal, db, q, bs);
    if bs == [] {
      NoneAlike(q);
    } else {
      var b := bs[0];
      assert b in bs;
      RowsAlike(cal, db, q, bs[1..]);
      KeptRow(cal, db, q, b);
      AllAlikeWith(q, NeededRows(cal, db, q, bs[1..]), MatchExtensions(cal, db, q, bs[1..]),
                   Full(db, q.joins, b), Full(db, OptionalJoins(q), Full(db, InnerJoins(q), b)));
    }
  }

  lemma NoneAlike(q: Query)
    ensures AllAlike(q, [], [])
  {
  }

  /** An inner join to a table not needed drops the row from the SQL. */
  ghost predicate Dropped(cal: Calendar, db: Db, q: Query, b: Binding) {
    KeptByNeeded(cal, db, q, b) && exists j :: j in q.joins && !j.outer && j.to !in Needed(q) && !Matched(j, Full(db, q.joins, b))
  }

  /** The SQL's rows are those, less the dropped. */
  lemma {:induction false} DroppedRows(cal: Calendar, db: Db, q: Query, bs: seq<Binding>)
    ensures var rows := Where(cal, q.filters, Extensions(db, q.joins, bs));
            if exists b :: b in bs && Dropped(cal, db, q, b) then |rows| < |NeededRows(cal, db, q, bs)| else rows == NeededRows(cal, db, q, bs)
  {
    hide Full, KeepsAll, Where, Extensions, Needed, Matched;
    if bs == [] {
      NoRows(cal, db, q.joins, q.filters);
    } else {
      DroppedRows(cal, db, q, bs[1..]);
      WhereExtensions(cal, db, q.joins, q.filters, bs);
      assert bs == [bs[0]] + bs[1..];
      assert Survives(db, q.joins, bs[0]) && KeepsAll(cal, q.filters, Full(db, q.joins, bs[0]))
        <==> KeptByNeeded(cal, db, q, bs[0]) && !Dropped(cal, db, q, bs[0]);
    }
  }

  lemma NoRows(cal: Calendar, db: Db, joins: seq<Join>, filters: seq<Expr>)
    ensures Where(cal, filters, []) == [] && Extensions(db, joins, []) == []
  {
  }

  lemma OptionalExtensions(db: Db, q: Query, b: Binding, rest: seq<Binding>)
    ensures Extensions(db, OptionalJoins(q), [b] + rest) == [Full(db, OptionalJoins(q), b)] + Extensions(db, OptionalJoins(q), rest)
  {
    hide OptionalJoins, Survives, Full;
    OptionalSurvives(db, q, b);
    assert ([b] + rest)[1..] == rest;
  }

  lemma OptionalSurvives(db: Db, q: Query, b: Binding)
    ensures Survives(db, OptionalJoins(q), b)
  {
    hide OptionalJoins, InnerJoins;
    AllPicked(q);
  }

  lemma WhereExtensions(cal: Calendar, db: Db, joins: seq<Join>, filters: seq<Expr>, bs: seq<Binding>)
    requires bs != []
    ensures Where(cal, filters, Extensions(db, joins, bs))
         == (if Survives(db, joins, bs[0]) && KeepsAll(cal, filters, Full(db, joins, bs[0])) then [Full(db, joins, bs[0])] else [])
            + Where(cal, filters, Extensions(db, joins, bs[1..]))
  {
    hide KeepsAll, Survives, Full;
    var rest := Extensions(db, joins, bs[1..]);
    if Survives(db, joins, bs[0]) {
      assert ([Full(db, joins, bs[0])] + rest)[1..] == rest;
    } else {
      assert [] + rest == rest;
    }
  }

  lemma MatchRows(cal: Calendar, db: Db, q: Query)
    requires IsTree(q.fact, q.joins) && TargetsUnique(db, q.joins)
    ensures SqlRows(cal, db, q) == Where(cal, q.filters, Extensions(db, q.joins, Facts(db, q.fact)))
    ensures CypherRows(cal, db, q.fact, Rendering(q))
         == Extensions(db, OptionalJoins(q), Where(cal, SubstAll(q.joins, q.filters), Extensions(db, InnerJoins(q), Facts(db, q.fact))))
  {
    hide Extensions, Where, InnerJoins, OptionalJoins, IsTree, TargetsUnique, Joined;
    var bs := Facts(db, q.fact);
    TreeOnce(q.fact, q.joins);
    JoinedIsExtensions(db, q.joins, bs);
    PickedUnique(db, q);
    Trees(q);
    TreeOnce(q.fact, InnerJoins(q));
    JoinedIsExtensions(db, InnerJoins(q), bs);
    TreeOnce(q.fact, InnerJoins(q) + OptionalJoins(q));
    SecondOnce(InnerJoins(q), OptionalJoins(q));
    JoinedIsExtensions(db, OptionalJoins(q), Where(cal, SubstAll(q.joins, q.filters), Extensions(db, InnerJoins(q), bs)));
  }

  /** The match rendered for memory gives the SQL's rows, in order, exactly when no inner join to a table not needed
      drops one. */
  lemma UnneededExactly(cal: Calendar, db: Db, q: Query)
    requires Renders(cal, db, q)
    ensures AllAlike(q, SqlRows(cal, db, q), CypherRows(cal, db, q.fact, Rendering(q)))
            <==> forall r :: r in RowsOf(db, q.fact) ==> !Dropped(cal, db, q, map[q.fact := r])
  {
    hide Extensions, Where, InnerJoins, OptionalJoins, Shaped, TargetsUnique, Joined, Dropped, AgreesWhereKept, NeededRows, SqlRows, CypherRows, Alike;
    var bs := Facts(db, q.fact);
    ShapedTree(cal, q);
    MatchRows(cal, db, q);
    forall b | b in bs
      ensures b.Keys == {q.fact} && AgreesWhereKept(cal, db, q, b)
    {
      var i :| 0 <= i < |bs| && bs[i] == b;
      assert b == map[q.fact := RowsOf(db, q.fact)[i]];
    }
    RowsAlike(cal, db, q, bs);
    DroppedRows(cal, db, q, bs);
    forall i | 0 <= i < |RowsOf(db, q.fact)|
      ensures map[q.fact := RowsOf(db, q.fact)[i]] in bs
    {
      assert bs[i] in bs;
    }
  }

  /** The match rendered for memory gives the SQL's rows, in order. */
  lemma MatchGivesSqlRows(cal: Calendar, db: Db, q: Query)
    requires Fits(cal, db, q)
    ensures AllAlike(q, SqlRows(cal, db, q), CypherRows(cal, db, q.fact, Rendering(q)))
  {
    hide Renders, AllAlike, SqlRows, CypherRows, Rendering;
    UnneededExactly(cal, db, q);
  }

  // ---- the query without its unneeded joins

  function Keeping(joins: seq<Join>, ts: set<Table>): seq<Join> {
    if joins == [] then []
    else
      var j, before := joins[|joins| - 1], Keeping(joins[..|joins| - 1], ts);
      if j.to in ts then before + [j] else before
  }

  /** The query with its columns read where the outer joins equate them, and only the joins then needed. */
  function Without(q: Query): Query {
    Query(q.fact, Keeping(q.joins, Needed(q)), SubstAll(q.joins, q.filters), SubstAll(q.joins, q.outs))
  }

  lemma {:induction false} KeepingIs(joins: seq<Join>, ts: set<Table>)
    ensures forall j :: j in Keeping(joins, ts) <==> j in joins && j.to in ts
  {
    if joins != [] {
      var n := |joins| - 1;
      KeepingIs(joins[..n], ts);
      assert forall d :: d in joins <==> d in joins[..n] || d == joins[n];
    }
  }

  lemma {:induction false} KeepingTree(fact: Table, joins: seq<Join>, ts: set<Table>)
    requires IsTree(fact, joins) && forall j :: j in joins && j.to in ts ==> j.from in ts
    ensures IsTree(fact, Keeping(joins, ts))
  {
    if joins == [] {
    } else {
      hide IsTree;
      var n := |joins| - 1;
      TreePrefix(fact, joins, n);
      assert forall d :: d in joins[..n] ==> d in joins;
      KeepingTree(fact, joins[..n], ts);
      if joins[n].to in ts {
        assert joins[n] in joins;
        KeepingIs(joins[..n], ts);
        NotJoinedBefore(fact, joins, n);
        FromJoined(fact, joins, n);
        TreeAppend(fact, Keeping(joins[..n], ts), joins[n]);
      }
    }
  }

  lemma WithoutIsTree(q: Query)
    requires IsTree(q.fact, q.joins)
    ensures IsTree(q.fact, Without(q).joins)
    ensures forall j :: j in Without(q).joins <==> j in q.joins && j.to in Needed(q)
  {
    hide IsTree, NeededBy;
    NeededIs(q.joins, q.fact, Used(q) + {q.fact});
    forall j | j in q.joins && j.to in Needed(q)
      ensures j.from in Needed(q)
    {
    }
    KeepingTree(q.fact, q.joins, Needed(q));
    KeepingIs(q.joins, Needed(q));
  }

  /** The rows agree in every table needed. */
  ghost predicate AllAgree(bs: seq<Binding>, cs: seq<Binding>, ts: set<Table>) {
    |bs| == |cs| && forall i :: 0 <= i < |bs| ==> Agree(bs[i], cs[i], ts)
  }

  /** Of a row: the query without its unneeded joins keeps it exactly when the match does. */
  lemma KeptWithout(cal: Calendar, db: Db, q: Query, b: Binding)
    requires Shaped(cal, q) && b.Keys == {q.fact}
    ensures var o := Without(q);
            Survives(db, o.joins, b) && KeepsAll(cal, o.filters, Full(db, o.joins, b)) <==> KeptByMatch(cal, db, q, b)
  {
    hide Shaped, IsTree, Full, InnerJoins, OptionalJoins, Needed, KeepsAll, SubstAll, Used, TablesOf, Matched, Keeping;
    var o := Without(q);
    var full, some := Full(db, o.joins, b), Full(db, InnerJoins(q), b);
    assert IsTree(q.fact, q.joins) by { ShapedTree(cal, q); }
    WithoutIsTree(q);
    Trees(q);
    AllPicked(q);
    ShapedWalked(cal, q);
    forall p | p in InnerJoins(q)
      ensures exists j :: j in o.joins && j in q.joins && j == p.(outer := j.outer) && (Matched(p, some) <==> Matched(j, full))
    {
      assert p in InnerJoins(q) + OptionalJoins(q);
      var j :| j in q.joins && j == p.(outer := j.outer);
      InnerOfWithout(db, q, b, p, j);
    }
    InnerFiltersAlike(cal, db, q, b);
    if Survives(db, o.joins, b) && KeepsAll(cal, o.filters, full) {
      forall p | p in InnerJoins(q)
        ensures Matched(p, some)
      {
        var j :| j in o.joins && j in q.joins && j == p.(outer := j.outer) && (Matched(p, some) <==> Matched(j, full));
        if j.outer {
          OuterMatched(cal, q, db, o.joins, b, j, j);
        }
      }
    }
    if KeptByMatch(cal, db, q, b) {
      forall j | j in o.joins && !j.outer
        ensures Matched(j, full)
      {
        InnerNotOptional(cal, q, j);
        var p := j.(outer := false);
        assert p in InnerJoins(q);
        InnerOfWithout(db, q, b, p, j);
      }
    }
  }

  lemma InnerOfWithout(db: Db, q: Query, b: Binding, p: Join, j: Join)
    requires IsTree(q.fact, q.joins) && b.Keys == {q.fact} && p in InnerJoins(q) && j in q.joins && j == p.(outer := j.outer)
    ensures j in Without(q).joins
    ensures Matched(p, Full(db, InnerJoins(q), b)) <==> Matched(j, Full(db, Without(q).joins, b))
  {
    hide IsTree, Full, InnerJoins, OptionalJoins, Keeping, Needed, Matched;
    WithoutIsTree(q);
    Trees(q);
    AllPicked(q);
    MatchedAlike(db, q, b, p, j);
    PartAgrees(db, q.fact, q.joins, Without(q).joins, b, {j.to});
    SameMatched(j, Full(db, q.joins, b), Full(db, Without(q).joins, b));
  }

  lemma SameMatched(j: Join, b: Binding, c: Binding)
    requires Agree(b, c, {j.to})
    ensures Matched(j, b) <==> Matched(j, c)
  {
  }

  lemma InnerFiltersAlike(cal: Calendar, db: Db, q: Query, b: Binding)
    requires Shaped(cal, q) && b.Keys == {q.fact}
    ensures KeepsAll(cal, Without(q).filters, Full(db, Without(q).joins, b)) <==> KeepsAll(cal, SubstAll(q.joins, q.filters), Full(db, InnerJoins(q), b))
  {
    hide Shaped, IsTree, Full, InnerJoins, OptionalJoins, Needed, SubstAll, Used, TablesOf, Keeping, Keeps;
    var read := SubstAll(q.joins, q.filters);
    var full, some := Full(db, Without(q).joins, b), Full(db, InnerJoins(q), b);
    assert IsTree(q.fact, q.joins) by { ShapedTree(cal, q); }
    WithoutIsTree(q);
    Trees(q);
    AllPicked(q);
    ShapedWalked(cal, q);
    assert forall p :: p in InnerJoins(q) ==> p in InnerJoins(q) + OptionalJoins(q);
    PartAgrees(db, q.fact, q.joins, InnerJoins(q), b, Filtered(q));
    FilteredWithout(cal, q);
    PartAgrees(db, q.fact, q.joins, Without(q).joins, b, Filtered(q));
    forall w | w in read
      ensures Keeps(cal, w, full) <==> Keeps(cal, w, some)
    {
      ReadFiltered(cal, q, w, full, some);
    }
  }

  lemma ReadFiltered(cal: Calendar, q: Query, w: Expr, b: Binding, c: Binding)
    requires w in SubstAll(q.joins, q.filters) && Agree(b, c, Filtered(q))
    ensures Keeps(cal, w, b) <==> Keeps(cal, w, c)
  {
    hide Subst, SubstAll, Eval, ReadsOnly;
    ReadsTables(w, TablesOf(SubstAll(q.joins, q.filters)));
    AgreeingRows(cal, w, TablesOf(SubstAll(q.joins, q.filters)), b, c);
  }

  lemma FilteredWithout(cal: Calendar, q: Query)
    requires Shaped(cal, q)
    ensures forall t :: t in Filtered(q) ==> t == q.fact || exists p :: p in Without(q).joins && p.to == t
    ensures forall t :: t in Needed(q) ==> t == q.fact || exists p :: p in Without(q).joins && p.to == t
    ensures forall p :: p in Without(q).joins ==> IsOneOf(p, q.joins)
  {
    hide Shaped, IsTree, InnerJoins, OptionalJoins, Needed, Used, Keeping;
    assert IsTree(q.fact, q.joins) by { ShapedTree(cal, q); }
    ShapedWalked(cal, q);
    AllPicked(q);
    WithoutIsTree(q);
    forall t | t in Needed(q) && t != q.fact
      ensures exists p :: p in Without(q).joins && p.to == t
    {
      var p :| p in InnerJoins(q) + OptionalJoins(q) && p.to == t;
      var j :| j in q.joins && j == p.(outer := j.outer);
      assert j in Without(q).joins;
    }
    forall t | t in Filtered(q) && t != q.fact
      ensures exists p :: p in Without(q).joins && p.to == t
    {
      var p :| p in InnerJoins(q) && p.to == t;
      assert p in InnerJoins(q) + OptionalJoins(q);
      var j :| j in q.joins && j == p.(outer := j.outer);
      assert j in Without(q).joins;
    }
    forall p | p in Without(q).joins
      ensures IsOneOf(p, q.joins)
    {
      assert p == p.(outer := p.outer);
    }
  }

  lemma RowWithout(cal: Calendar, db: Db, q: Query, b: Binding)
    requires Shaped(cal, q) && b.Keys == {q.fact}
    ensures Agree(Full(db, Without(q).joins, b), Full(db, OptionalJoins(q), Full(db, InnerJoins(q), b)), Needed(q))
  {
    hide Shaped, IsTree, Full, InnerJoins, OptionalJoins, Needed, Keeping;
    assert IsTree(q.fact, q.joins) by { ShapedTree(cal, q); }
    Trees(q);
    AllPicked(q);
    WithoutIsTree(q);
    ShapedWalked(cal, q);
    FilteredWithout(cal, q);
    PartAgrees(db, q.fact, q.joins, InnerJoins(q) + OptionalJoins(q), b, Needed(q));
    PartAgrees(db, q.fact, q.joins, Without(q).joins, b, Needed(q));
    FullConcat(db, InnerJoins(q), OptionalJoins(q), b);
  }

  lemma AllAgreeWith(bs: seq<Binding>, cs: seq<Binding>, b: Binding, c: Binding, ts: set<Table>)
    requires AllAgree(bs, cs, ts)
    ensures Agree(b, c, ts) ==> AllAgree([b] + bs, [c] + cs, ts)
    ensures AllAgree([] + bs, [] + cs, ts)
  {
    hide Agree;
    assert [] + bs == bs && [] + cs == cs;
  }

  lemma {:induction false} RowsWithout(cal: Calendar, db: Db, q: Query, bs: seq<Binding>)
    requires Shaped(cal, q) && forall b :: b in bs ==> b.Keys == {q.fact}
    ensures AllAgree(Where(cal, Without(q).filters, Extensions(db, Without(q).joins, bs)), MatchExtensions(cal, db, q, bs), Needed(q))
  {
    hide Shaped, Full, InnerJoins, OptionalJoins, KeepsAll, Survives, Where, Extensions, Without, AllAgree, Agree, Needed, KeptByMatch, MatchExtensions;
    var o := Without(q);
    MatchExtensionsOf(cal, db, q, bs);
    if bs == [] {
      NoRows(cal, db, o.joins, o.filters);
      NoneAgree(Needed(q));
    } else {
      var b := bs[0];
      assert b in bs;
      RowsWithout(cal, db, q, bs[1..]);
      KeptWithout(cal, db, q, b);
      RowWithout(cal, db, q, b);
      WhereExtensions(cal, db, o.joins, o.filters, bs);
      AllAgreeWith(Where(cal, o.filters, Extensions(db, o.joins, bs[1..])), MatchExtensions(cal, db, q, bs[1..]),
                   Full(db, o.joins, b), Full(db, OptionalJoins(q), Full(db, InnerJoins(q), b)), Needed(q));
    }
  }

  lemma NoneAgree(ts: set<Table>)
    ensures AllAgree([], [], ts)
  {
  }

  /** The match's rows are those of the SQL without its unneeded joins, its columns read where the outer joins equate
      them: in order, and the same in every table needed, whatever the tables hold. */
  lemma MatchIsWithout(cal: Calendar, db: Db, q: Query)
    requires Shaped(cal, q) && TargetsUnique(db, q.joins)
    ensures AllAgree(SqlRows(cal, db, Without(q)), CypherRows(cal, db, q.fact, Rendering(q)), Needed(q))
  {
    hide Extensions, Where, InnerJoins, OptionalJoins, IsTree, Joined, Shaped, AllAgree, Unique, Keeping, Needed;
    assert IsTree(q.fact, q.joins) by { ShapedTree(cal, q); }
    var bs := Facts(db, q.fact);
    MatchRows(cal, db, q);
    WithoutIsTree(q);
    TreeOnce(q.fact, Without(q).joins);
    JoinedIsExtensions(db, Without(q).joins, bs);
    RowsWithout(cal, db, q, bs);
  }

  lemma SecondOnce(first: seq<Join>, second: seq<Join>)
    requires EachOnce(first + second)
    ensures EachOnce(second)
  {
    forall i, k | 0 <= i < k < |second|
      ensures second[i].to != second[k].to
    {
      assert second[i] == (first + second)[|first| + i] && second[k] == (first + second)[|first| + k];
    }
  }

  // ---- the answers

  /** An output, over a row and its group, is the same read in either language. */
  lemma {:induction false} OutputAlike(cal: Calendar, q: Query, e: Expr, b: Binding, bs: seq<Binding>, c: Binding, cs: seq<Binding>)
    requires Alike(q, b, c) && AllAlike(q, bs, cs) && Tables(Subst(q.joins, e)) <= Needed(q)
    ensures Eval(cal, e, b, bs) == Eval(cal, Subst(q.joins, e), c, cs)
    decreases e
  {
    hide Needed;
    match e
    case Col(t, col) => SourceSays(q.joins, b, t, col);
    case Lit(_) =>
    case Node(op, kids) =>
      forall i | 0 <= i < |kids|
        ensures Eval(cal, kids[i], b, bs) == Eval(cal, Subst(q.joins, kids[i]), c, cs)
      {
        KidTables(q.joins, op, kids, i);
        OutputAlike(cal, q, kids[i], b, bs, c, cs);
      }
      OperandsAlike(cal, q.joins, op, kids, b, bs, c, cs);
    case Agg(fn, distinct, arg) =>
      if arg.Some? {
        forall i | 0 <= i < |bs|
          ensures Eval(cal, arg.value, bs[i], []) == Eval(cal, Subst(q.joins, arg.value), cs[i], [])
        {
          OutputAlike(cal, q, arg.value, bs[i], [], cs[i], []);
        }
        assert Values(cal, arg.value, bs) == Values(cal, Subst(q.joins, arg.value), cs);
        AggIsOf(cal, fn, distinct, arg.value, b, bs);
        AggIsOf(cal, fn, distinct, Subst(q.joins, arg.value), c, cs);
      }
  }

  lemma KidTables(joins: seq<Join>, op: Op, kids: seq<Expr>, i: nat)
    requires i < |kids|
    ensures Tables(Subst(joins, kids[i])) <= Tables(Subst(joins, Node(op, kids)))
  {
    var read := seq(|kids|, i requires 0 <= i < |kids| => Subst(joins, kids[i]));
    assert Tables(read[i]) <= Tables(Node(op, read));
  }

  lemma OperandsAlike(cal: Calendar, joins: seq<Join>, op: Op, kids: seq<Expr>, b: Binding, bs: seq<Binding>, c: Binding, cs: seq<Binding>)
    requires forall i :: 0 <= i < |kids| ==> Eval(cal, kids[i], b, bs) == Eval(cal, Subst(joins, kids[i]), c, cs)
    ensures Eval(cal, Node(op, kids), b, bs) == Eval(cal, Subst(joins, Node(op, kids)), c, cs)
  {
    hide Apply;
    var read := seq(|kids|, i requires 0 <= i < |kids| => Subst(joins, kids[i]));
    assert seq(|kids|, i requires 0 <= i < |kids| => Eval(cal, kids[i], b, bs))
        == seq(|read|, i requires 0 <= i < |read| => Eval(cal, read[i], c, cs));
  }

  lemma OutTables(q: Query, e: Expr)
    requires IsTree(q.fact, q.joins) && e in q.outs
    ensures Tables(Subst(q.joins, e)) <= Needed(q)
  {
    hide IsTree, NeededBy, Subst, Tables;
    NeededIs(q.joins, q.fact, Used(q) + {q.fact});
    var i :| 0 <= i < |q.outs| && q.outs[i] == e;
    assert SubstAll(q.joins, q.outs)[i] in SubstAll(q.joins, q.outs);
    assert Tables(Subst(q.joins, e)) <= TablesOf(SubstAll(q.joins, q.outs));
  }

  /** A group's rows, whichever language keys them. */
  lemma {:induction false} GroupsAlike(cal: Calendar, q: Query, dims: seq<Expr>, g: seq<Value>, bs: seq<Binding>, cs: seq<Binding>)
    requires AllAlike(q, bs, cs) && forall d :: d in dims ==> Tables(Subst(q.joins, d)) <= Needed(q)
    ensures AllAlike(q, Group(cal, dims, g, bs), Group(cal, SubstAll(q.joins, dims), g, cs))
  {
    hide Alike, Subst, Eval;
    if bs != [] {
      GroupsAlike(cal, q, dims, g, bs[1..], cs[1..]);
      assert Keys(cal, dims, bs[0]) == Keys(cal, SubstAll(q.joins, dims), cs[0]) by {
        forall i | 0 <= i < |dims|
          ensures Eval(cal, dims[i], bs[0], []) == Eval(cal, Subst(q.joins, dims[i]), cs[0], [])
        {
          assert dims[i] in dims;
          OutputAlike(cal, q, dims[i], bs[0], [], cs[0], []);
        }
      }
    }
  }

  /** Over no row and none in its group, nothing is read, wherever its columns are. */
  lemma {:induction false} OverNothing(cal: Calendar, joins: seq<Join>, e: Expr)
    ensures Eval(cal, Subst(joins, e), map[], []) == Eval(cal, e, map[], [])
    decreases e
  {
    match e
    case Col(_, _) =>
    case Lit(_) =>
    case Node(op, kids) =>
      forall i | 0 <= i < |kids|
        ensures Eval(cal, Subst(joins, kids[i]), map[], []) == Eval(cal, kids[i], map[], [])
      {
        OverNothing(cal, joins, kids[i]);
      }
      OperandsAlike(cal, joins, op, kids, map[], [], map[], []);
    case Agg(fn, distinct, arg) =>
      if arg.Some? {
        AggIsOf(cal, fn, distinct, arg.value, map[], []);
        AggIsOf(cal, fn, distinct, Subst(joins, arg.value), map[], []);
        assert Values(cal, arg.value, []) == Values(cal, Subst(joins, arg.value), []);
      }
  }

  /** The two answers are one: whatever the group, a dimension's and a measure's value over it is the same in the
      SQL and in the match rendered for memory, null groups included; and so is the one row of a question without
      dimensions that has no rows. */
  lemma {:induction false} SameAnswers(cal: Calendar, db: Db, q: Query, dims: seq<Expr>, g: seq<Value>, e: Expr)
    requires Fits(cal, db, q) && e in q.outs && forall d :: d in dims ==> d in q.outs
    ensures var bs := Group(cal, dims, g, SqlRows(cal, db, q));
            var cs := Group(cal, SubstAll(q.joins, dims), g, CypherRows(cal, db, q.fact, Rendering(q)));
            && |bs| == |cs|
            && (forall i :: 0 <= i < |bs| ==> Eval(cal, e, bs[i], bs) == Eval(cal, Subst(q.joins, e), cs[i], cs))
            && (dims == [] && bs == [] ==> Eval(cal, e, map[], []) == Eval(cal, Subst(q.joins, e), map[], []))
  {
    OverNothing(cal, q.joins, e);
    hide Alike, Group, Rendering, SqlRows, CypherRows, Needed, Subst, Eval, IsTree;
    MatchGivesSqlRows(cal, db, q);
    forall d | d in dims
      ensures Tables(Subst(q.joins, d)) <= Needed(q)
    {
      OutTables(q, d);
    }
    OutTables(q, e);
    GroupsAlike(cal, q, dims, g, SqlRows(cal, db, q), CypherRows(cal, db, q.fact, Rendering(q)));
    var bs := Group(cal, dims, g, SqlRows(cal, db, q));
    var cs := Group(cal, SubstAll(q.joins, dims), g, CypherRows(cal, db, q.fact, Rendering(q)));
    forall i | 0 <= i < |bs|
      ensures Eval(cal, e, bs[i], bs) == Eval(cal, Subst(q.joins, e), cs[i], cs)
    {
      OutputAlike(cal, q, e, bs[i], bs, cs[i], cs);
    }
  }

  // ---- what each assumption is for

  /** A row's outer-joined key columns may be read at their pointing columns exactly when each of its non-null
      pointing values has a match. */
  lemma KeysAgreeExactly(db: Db, fact: Table, joins: seq<Join>, b: Binding)
    requires IsTree(fact, joins) && b.Keys == {fact}
    ensures var full := Full(db, joins, b);
            KeysAgree(joins, full) <==> forall j :: j in joins && j.outer && !Cell(full, j.from, j.fromCol).Null? ==> Matched(j, full)
  {
    hide IsTree, Full, MatchRow;
    var full := Full(db, joins, b);
    FullIs(db, fact, joins, b);
    forall j | j in joins
      ensures Cell(full, j.to, j.toCol).Null? || Cell(full, j.to, j.toCol) == Cell(full, j.from, j.fromCol)
    {
      MatchRowIs(db, j, Cell(full, j.from, j.fromCol));
      assert Cell(full, j.to, j.toCol) == CellOf(full[j.to], j.toCol);
    }
  }

  /** A pointing value without a match: the SQL groups its row under null, the match under the value. */
  lemma DanglingPointerRegroups(cal: Calendar)
    ensures var db, j := map[0 := [map[0 := Num(1.0)]], 1 := []], Join(0, 0, 1, 0, true);
            var q := Query(0, [j], [], [Col(1, 0)]);
            && IsTree(0, q.joins) && !AlwaysMatched(db, q.joins)
            && (exists b :: SqlRows(cal, db, q) == [b] && Eval(cal, q.outs[0], b, []) == Null)
            && exists c :: CypherRows(cal, db, 0, Rendering(q)) == [c] && Eval(cal, Subst(q.joins, q.outs[0]), c, []) == Num(1.0)
  {
    var row := map[0 := Num(1.0)];
    var db, j := map[0 := [row], 1 := []], Join(0, 0, 1, 0, true);
    var q := Query(0, [j], [], [Col(1, 0)]);
    assert Starts(0, [j], 0) && Joins(0, [j], 0);
    assert row in RowsOf(db, 0) && MatchRow(db, j, Num(1.0)) == map[];
    OneFact(cal, db, q, row);
    assert [j][..0] == [];
    assert Source([], 0, 0) == (0, 0) && Subst([j], Col(1, 0)) == Col(0, 0);
    OnlyFactRead(q, 0);
  }

  /** An inner join to a table nothing reads: the SQL drops the rows it does not match, the match keeps them. */
  lemma UnneededJoinKeepsRows(cal: Calendar)
    ensures var db, j := map[0 := [map[0 := Num(1.0)]], 1 := []], Join(0, 0, 1, 0, false);
            var q := Query(0, [j], [], [Col(0, 0)]);
            IsTree(0, q.joins) && j.to !in Needed(q) && SqlRows(cal, db, q) == [] && |CypherRows(cal, db, 0, Rendering(q))| == 1
  {
    var row := map[0 := Num(1.0)];
    var db, j := map[0 := [row], 1 := []], Join(0, 0, 1, 0, false);
    var q := Query(0, [j], [], [Col(0, 0)]);
    assert Starts(0, [j], 0) && Joins(0, [j], 0);
    OneFact(cal, db, q, row);
    assert [j][..0] == [];
    assert Source([], 0, 0) == (0, 0) && Subst([j], Col(0, 0)) == Col(0, 0);
    OnlyFactRead(q, 0);
  }

  /** A join to a table nothing reads is not walked. */
  lemma OnlyFactRead(q: Query, c: Column)
    requires |q.joins| == 1 && q.joins[0].to != q.fact && q.filters == [] && |q.outs| == 1
    requires Subst(q.joins, q.outs[0]) == Col(q.fact, c)
    ensures q.joins[0].to !in Needed(q) && Rendering(q) == Cypher([], [], [], [Col(q.fact, c)])
  {
    hide Subst;
    var j, e := q.joins[0], Col(q.fact, c);
    assert q.joins == [j] && q.joins[..0] == [];
    assert SubstAll(q.joins, q.outs) == [e] && SubstAll(q.joins, q.filters) == [];
    assert TablesOf([e]) == {q.fact} by {
      assert e in [e] && Tables(e) == {q.fact};
    }
    assert TablesOf([]) == {};
    assert Used(q) == {q.fact} == Used(q) + {q.fact};
    var needed := NeededBy(q.joins, {q.fact});
    assert needed == NeededBy([], {q.fact}) == {q.fact};
    assert Needed(q) == {q.fact};
    assert OptionalOf(q.joins, {q.fact}, {}) == OptionalOf([], {q.fact}, {}) == {};
    assert Optional(q) == {};
    assert Pick(q.joins, {q.fact} - {}, false) == Pick([], {q.fact} - {}, false) == [];
    assert Pick(q.joins, {}, true) == Pick([], {}, true) == [];
  }

  /** One fact row and one join to an empty table, nothing filtered. */
  lemma OneFact(cal: Calendar, db: Db, q: Query, row: Row)
    requires q.filters == [] && |q.joins| == 1 && RowsOf(db, q.fact) == [row] && RowsOf(db, q.joins[0].to) == []
    ensures Facts(db, q.fact) == [map[q.fact := row]]
    ensures SqlRows(cal, db, q) == if q.joins[0].outer then [map[q.fact := row][q.joins[0].to := map[]]] else []
    ensures Where(cal, [], Facts(db, q.fact)) == Facts(db, q.fact)
    ensures Joined(db, [], Facts(db, q.fact)) == Facts(db, q.fact)
  {
    var j, b := q.joins[0], map[q.fact := row];
    assert Facts(db, q.fact) == [b];
    assert q.joins[..0] == [] && q.joins == [j];
    assert JoinEach(db, j, [b]) == JoinOne(db, j, b) + JoinEach(db, j, []);
    assert Joined(db, q.joins, [b]) == JoinEach(db, j, Joined(db, [], [b]));
    forall d
      ensures KeepsAll(cal, [], d) && Where(cal, [], [d]) == [d]
    {
    }
  }

  /** A filter on a table joined from one walked optionally: the rendered WHERE reads a table no MATCH before it
      binds, which Cypher refuses. */
  lemma FilterReadsUnmatched(q: Query, j: Join)
    requires IsTree(q.fact, q.joins) && j in q.joins && j.from in Optional(q) && j.to in Filtered(q)
    ensures j.to in TablesOf(Rendering(q).filters) && j.to != q.fact && forall p :: p in Rendering(q).inner ==> p.to != j.to
  {
    hide IsTree, NeededBy, TablesOf, OptionalOf, Pick;
    NeededIs(q.joins, q.fact, Used(q) + {q.fact});
    OptionalIs(q.joins, q.fact, Needed(q), Filtered(q));
    AllPicked(q);
    var i :| 0 <= i < |q.joins| && q.joins[i] == j;
    NotJoinedBefore(q.fact, q.joins, i);
  }

  lemma OneRow(cal: Calendar, db: Db, j: Join, b: Binding)
    requires RowsOf(db, j.to) == []
    ensures Joined(db, [], [b]) == [b] && JoinEach(db, j, []) == []
    ensures JoinEach(db, j, [b]) == if j.outer then [b[j.to := map[]]] else []
    ensures Where(cal, [], [b]) == [b]
  {
    assert JoinEach(db, j, [b]) == JoinOne(db, j, b) + JoinEach(db, j, []);
    assert KeepsAll(cal, [], b);
  }

  /** An inner join from a table walked optionally is walked optionally too: the SQL drops the rows without a match
      of the first, the match keeps them. */
  lemma InnerFromOptionalKeepsRows(cal: Calendar)
    ensures var db := map[0 := [map[5 := Num(1.0)]], 1 := [], 2 := []];
            var q := Query(0, [Join(0, 0, 1, 0, true), Join(1, 1, 2, 0, false)], [], [Col(2, 1)]);
            && IsTree(0, q.joins) && q.joins[1].from in Optional(q) && q.joins[1].to in Needed(q)
            && SqlRows(cal, db, q) == [] && |CypherRows(cal, db, 0, Rendering(q))| == 1
  {
    var db: Db := map[0 := [map[5 := Num(1.0)]], 1 := [], 2 := []];
    var a, c := Join(0, 0, 1, 0, true), Join(1, 1, 2, 0, false);
    var q := Query(0, [a, c], [], [Col(2, 1)]);
    assert Facts(db, 0) == [map[0 := map[5 := Num(1.0)]]];
    assert RowsOf(db, 1) == [] && RowsOf(db, 2) == [];
    hide SqlRows, CypherRows, Facts, RowsOf, Needed, Optional, InnerJoins, OptionalJoins, SubstAll, IsTree;
    ChainTree(a, c);
    InnerFromOptionalRendered(q, a, c);
    TwoEmptyAnswers(cal, db, q, a, c, map[0 := map[5 := Num(1.0)]]);
  }

  lemma ChainTree(a: Join, c: Join)
    requires a.from == 0 && a.to == 1 && c.from == 1 && c.to == 2
    ensures IsTree(0, [a, c])
  {
    var joins := [a, c];
    assert Starts(0, joins, 0) && Joins(0, joins, 0);
    assert Starts(0, joins, 1) && Joins(0, joins, 1) by { assert joins[0].to == joins[1].from; }
  }

  lemma TwoEmptyAnswers(cal: Calendar, db: Db, q: Query, a: Join, c: Join, b: Binding)
    requires q.joins == [a, c] && q.filters == [] && Facts(db, q.fact) == [b] && a.outer && !c.outer
    requires RowsOf(db, a.to) == [] && RowsOf(db, c.to) == []
    requires InnerJoins(q) == [] && OptionalJoins(q) == [a, c.(outer := true)] && SubstAll(q.joins, q.filters) == []
    ensures SqlRows(cal, db, q) == [] && |CypherRows(cal, db, q.fact, Rendering(q))| == 1
  {
    hide Joined, Where, Facts, RowsOf, InnerJoins, OptionalJoins, SubstAll;
    TwoEmptyJoins(cal, db, a, c, b);
    TwoEmptyJoins(cal, db, a, c.(outer := true), b);
  }

  lemma TwoEmptyJoins(cal: Calendar, db: Db, a: Join, c: Join, b: Binding)
    requires a.outer && RowsOf(db, a.to) == [] && RowsOf(db, c.to) == []
    ensures var rows := if c.outer then [b[a.to := map[]][c.to := map[]]] else [];
            Joined(db, [a, c], [b]) == rows && Where(cal, [], rows) == rows
    ensures Joined(db, [], [b]) == [b] && Where(cal, [], [b]) == [b]
  {
    hide Where, JoinEach;
    var one := b[a.to := map[]];
    OneRow(cal, db, a, b);
    OneRow(cal, db, c, one);
    OneRow(cal, db, c, one[c.to := map[]]);
    NoRows(cal, db, [], []);
    assert [a, c][..1] == [a] && [a][..0] == [];
    assert Joined(db, [a], [b]) == [one];
  }

  lemma InnerFromOptionalRendered(q: Query, a: Join, c: Join)
    requires a == Join(0, 0, 1, 0, true) && c == Join(1, 1, 2, 0, false) && q == Query(0, [a, c], [], [Col(2, 1)])
    ensures Needed(q) == {0, 1, 2} && Optional(q) == {1, 2} && InnerJoins(q) == [] && OptionalJoins(q) == [a, c.(outer := true)]
    ensures SubstAll(q.joins, q.filters) == []
  {
    assert [a, c][..1] == [a] && [a][..0] == [];
    assert Source([a], 2, 1) == Source([], 2, 1) == (2, 1);
    assert SubstAll(q.joins, q.outs) == [Col(2, 1)] && SubstAll(q.joins, q.filters) == [];
    assert TablesOf([Col(2, 1)]) == {2} by {
      assert Col(2, 1) in [Col(2, 1)] && Tables(Col(2, 1)) == {2};
    }
    assert TablesOf([]) == {};
    assert Used(q) == {2} && Filtered(q) == {} && Used(q) + {0} == {2, 0};
    assert {2, 0} + {1} == {2, 0, 1} && {2, 0, 1} + {0} == {0, 1, 2};
    assert NeededBy([a, c], {2, 0}) == NeededBy([a], {2, 0} + {1}) == NeededBy([], {2, 0, 1} + {0});
    assert Needed(q) == {0, 1, 2};
    assert OptionalOf([], {0, 1, 2}, {}) == {} && OptionalOf([a], {0, 1, 2}, {}) == {1};
    assert Optional(q) == OptionalOf([a, c], {0, 1, 2}, {}) == {1} + {2};
    var some := {0, 1, 2} - {1, 2};
    assert Pick([], some, false) == [] && Pick([a], some, false) == [] && Pick([a, c], some, false) == [];
    assert Pick([], {1, 2}, true) == [] && Pick([a], {1, 2}, true) == [a] && Pick([a, c], {1, 2}, true) == [a] + [c.(outer := true)];
  }

  /** A filter that keeps an outer join's null row: the SQL keeps it, the match, which walks the join as an inner
      one, does not. */
  lemma NullFilterDropsRows(cal: Calendar)
    ensures var db := map[0 := [map[5 := Num(1.0)]], 1 := []];
            var q := Query(0, [Join(0, 0, 1, 0, true)], [Node(IsNullOp, [Col(1, 5)])], [Col(0, 5)]);
            && IsTree(0, q.joins) && q.joins[0].to in Filtered(q) && !RejectsNull(cal, SubstAll(q.joins, q.filters), 1)
            && |SqlRows(cal, db, q)| == 1 && CypherRows(cal, db, 0, Rendering(q)) == []
  {
    var db: Db := map[0 := [map[5 := Num(1.0)]], 1 := []];
    var a, w := Join(0, 0, 1, 0, true), Node(IsNullOp, [Col(1, 5)]);
    var q := Query(0, [a], [w], [Col(0, 5)]);
    var b: Binding := map[0 := map[5 := Num(1.0)]];
    assert Starts(0, q.joins, 0) && Joins(0, q.joins, 0);
    assert Facts(db, 0) == [b];
    assert [a][..0] == [];
    OneRow(cal, db, a, b);
    OneRow(cal, db, a.(outer := false), b);
    NullRowKept(cal, b[1 := map[]]);
    var none: Binding := map[1 := map[]];
    NullRowKept(cal, none);
    assert Joined(db, [a], [b]) == [b[1 := map[]]];
    assert SqlRows(cal, db, q) == Where(cal, [w], [b[1 := map[]]]);
    NullFilterRendered(q, a, w);
    assert [a.(outer := false)][..0] == [];
    assert Joined(db, [a.(outer := false)], [b]) == JoinEach(db, a.(outer := false), [b]) == [];
    assert CypherRows(cal, db, 0, Rendering(q)) == Joined(db, [], Where(cal, [w], []));
    assert !NeverKeepsNull(cal, w, 1) by {
      assert 1 in none && none[1] == map[];
    }
  }

  lemma NullRowKept(cal: Calendar, b: Binding)
    requires 1 in b && b[1] == map[]
    ensures Keeps(cal, Node(IsNullOp, [Col(1, 5)]), b)
    ensures Where(cal, [Node(IsNullOp, [Col(1, 5)])], [b]) == [b]
  {
    var w := Node(IsNullOp, [Col(1, 5)]);
    assert Eval(cal, w.kids[0], b, []) == Null;
    assert seq(|w.kids|, i requires 0 <= i < |w.kids| => Eval(cal, w.kids[i], b, [])) == [Null];
    assert KeepsAll(cal, [w], b);
  }

  lemma NullFilterRendered(q: Query, a: Join, w: Expr)
    requires a == Join(0, 0, 1, 0, true) && w == Node(IsNullOp, [Col(1, 5)]) && q == Query(0, [a], [w], [Col(0, 5)])
    ensures Filtered(q) == {1} && InnerJoins(q) == [a.(outer := false)] && OptionalJoins(q) == [] && SubstAll(q.joins, q.filters) == [w]
  {
    assert [a][..0] == [];
    assert Source([], 1, 5) == (1, 5) && Source([], 0, 5) == (0, 5);
    assert Subst([a], Col(1, 5)) == Col(1, 5) && Subst([a], Col(0, 5)) == Col(0, 5);
    assert seq(|w.kids|, i requires 0 <= i < |w.kids| => Subst([a], w.kids[i])) == [Col(1, 5)];
    assert SubstAll(q.joins, q.filters) == [w] && SubstAll(q.joins, q.outs) == [Col(0, 5)];
    assert Tables(w) == {1} by {
      assert Tables(w.kids[0]) == {1};
    }
    assert TablesOf([w]) == {1} by {
      assert w in [w];
    }
    assert TablesOf([Col(0, 5)]) == {0} by {
      assert Col(0, 5) in [Col(0, 5)] && Tables(Col(0, 5)) == {0};
    }
    assert Used(q) == {1, 0} && Used(q) + {0} == {0, 1};
    assert NeededBy([a], {0, 1}) == NeededBy([], {0, 1} + {0});
    assert Needed(q) == {0, 1};
    assert OptionalOf([a], {0, 1}, {1}) == OptionalOf([], {0, 1}, {1}) == {};
    assert Optional(q) == {};
    assert Pick([], {0, 1} - {}, false) == [] && Pick([a], {0, 1} - {}, false) == [a.(outer := false)];
    assert Pick([], {}, true) == [] && Pick([a], {}, true) == [];
  }
}
