/** Measures: filters moved between WHERE and the insides of aggregates, and aggregates that survive a fan-out. */
module Measures {
  import opened Options
  import opened Sql

  // ---- within: filters moved from WHERE into an aggregate's argument

  /** The filters as one condition, as their text reads back: one alone, or (f) AND (g) AND ... */
  function Condition(fs: seq<Expr>): Expr
    requires fs != []
  {
    if |fs| == 1 then fs[0] else Conjunction(fs)
  }

  function Conjunction(fs: seq<Expr>): Expr
    requires fs != []
  {
    if |fs| == 1 then Node(ParenOp, [fs[0]])
    else Node(AndOp, [Conjunction(fs[..|fs| - 1]), Node(ParenOp, [fs[|fs| - 1]])])
  }

  /** IF(condition, argument, NULL) */
  function Only(c: Expr, x: Expr): Expr {
    Node(IfOp, [c, x, Lit(Null)])
  }

  /** Each aggregate's argument becomes IF(condition, argument, NULL); COUNT(*) counts a 1. */
  function Wrap(e: Expr, c: Expr): Expr
    decreases e
  {
    match e
    case Col(_, _) => e
    case Lit(_) => e
    case Node(op, kids) => Node(op, seq(|kids|, i requires 0 <= i < |kids| => Wrap(kids[i], c)))
    case Agg(fn, distinct, arg) =>
      match arg
      case None => Agg(if fn == CountAll then Count else fn, false, Some(Only(c, Lit(Num(1.0)))))
      case Some(x) => Agg(fn, distinct, Some(Only(c, Wrap(x, c))))
  }

  function Within(e: Expr, fs: seq<Expr>): Expr {
    if fs == [] then e else Wrap(e, Condition(fs))
  }

  /** COUNT(*) is the one aggregate without an argument. */
  ghost predicate ArgumentsGiven(e: Expr)
    decreases e
  {
    match e
    case Col(_, _) => true
    case Lit(_) => true
    case Node(_, kids) => forall i :: 0 <= i < |kids| ==> ArgumentsGiven(kids[i])
    case Agg(fn, _, arg) => (fn == CountAll <==> arg.None?) && (arg.Some? ==> ArgumentsGiven(arg.value))
  }

  function Kept(cal: Calendar, c: Expr, rows: seq<Binding>): seq<Binding> {
    if rows == [] then []
    else if Keeps(cal, c, rows[0]) then [rows[0]] + Kept(cal, c, rows[1..])
    else Kept(cal, c, rows[1..])
  }

  lemma OnlyValue(cal: Calendar, c: Expr, x: Expr, b: Binding)
    ensures Eval(cal, Only(c, x), b, []) == if Keeps(cal, c, b) then Eval(cal, x, b, []) else Null
  {
    var vs := [Eval(cal, c, b, []), Eval(cal, x, b, []), Null];
    assert Eval(cal, Only(c, x), b, []) == CaseOf(vs) by {
      var kids := [c, x, Lit(Null)];
      assert seq(|kids|, i requires 0 <= i < |kids| => Eval(cal, kids[i], b, [])) == vs;
    }
    assert vs[2..] == [Null] && CaseOf([Null]) == Null;
  }

  /** The wrapped argument's values, nulls ignored, are the argument's over the rows kept. */
  lemma {:induction false} WrappedValues(cal: Calendar, c: Expr, x: Expr, y: Expr, rows: seq<Binding>)
    requires forall b :: Eval(cal, x, b, []) == Eval(cal, y, b, [])
    ensures NonNull(Values(cal, Only(c, x), rows)) == NonNull(Values(cal, y, Kept(cal, c, rows)))
  {
    hide Eval, Only;
    if rows != [] {
      var b, kept := rows[0], Kept(cal, c, rows[1..]);
      WrappedValues(cal, c, x, y, rows[1..]);
      OnlyValue(cal, c, x, b);
      ValuesCons(cal, Only(c, x), rows);
      if Keeps(cal, c, b) {
        ValuesCons(cal, y, [b] + kept);
        assert ([b] + kept)[1..] == kept;
      }
    }
  }

  lemma ValuesCons(cal: Calendar, x: Expr, rows: seq<Binding>)
    requires rows != []
    ensures Values(cal, x, rows) == [Eval(cal, x, rows[0], [])] + Values(cal, x, rows[1..])
  {
  }

  lemma {:induction false} CountsKept(cal: Calendar, c: Expr, rows: seq<Binding>)
    ensures |NonNull(Values(cal, Only(c, Lit(Num(1.0))), rows))| == |Kept(cal, c, rows)|
  {
    hide Only;
    if rows != [] {
      CountsKept(cal, c, rows[1..]);
      OnlyValue(cal, c, Lit(Num(1.0)), rows[0]);
      ValuesCons(cal, Only(c, Lit(Num(1.0))), rows);
    }
  }

  /** An aggregate expression wrapped in a condition is the expression over the rows the condition keeps:
      a group with none still counts zero, and sums null. */
  lemma {:induction false} WrapIsFilter(cal: Calendar, e: Expr, c: Expr, b: Binding, rows: seq<Binding>)
    requires ArgumentsGiven(e)
    ensures Eval(cal, Wrap(e, c), b, rows) == Eval(cal, e, b, Kept(cal, c, rows))
    decreases e
  {
    hide Kept, NonNull, Only, AggOf, Apply;
    match e
    case Col(_, _) =>
    case Lit(_) =>
    case Node(op, kids) =>
      forall i | 0 <= i < |kids|
        ensures Eval(cal, Wrap(kids[i], c), b, rows) == Eval(cal, kids[i], b, Kept(cal, c, rows))
      {
        WrapIsFilter(cal, kids[i], c, b, rows);
      }
      KidsAlike(cal, op, kids, c, b, rows);
    case Agg(fn, distinct, arg) =>
      match arg {
        case None => CountStarKept(cal, distinct, c, b, rows);
        case Some(x) =>
          forall r: Binding
            ensures Eval(cal, Wrap(x, c), r, []) == Eval(cal, x, r, [])
          {
            WrapIsFilter(cal, x, c, r, []);
            KeptNone(cal, c);
          }
          WrappedValues(cal, c, Wrap(x, c), x, rows);
          AggIsOf(cal, fn, distinct, Only(c, Wrap(x, c)), b, rows);
          AggIsOf(cal, fn, distinct, x, b, Kept(cal, c, rows));
          SameNonNull(fn, distinct, Values(cal, Only(c, Wrap(x, c)), rows), |rows|, Values(cal, x, Kept(cal, c, rows)), |Kept(cal, c, rows)|);
      }
  }

  lemma KeptNone(cal: Calendar, c: Expr)
    ensures Kept(cal, c, []) == []
  {
  }

  /** COUNT(*) counts the rows kept. */
  lemma CountStarKept(cal: Calendar, distinct: bool, c: Expr, b: Binding, rows: seq<Binding>)
    ensures Eval(cal, Wrap(Agg(CountAll, distinct, None), c), b, rows) == Eval(cal, Agg(CountAll, distinct, None), b, Kept(cal, c, rows))
  {
    hide Kept, Only;
    CountsKept(cal, c, rows);
    AggIsOf(cal, Count, false, Only(c, Lit(Num(1.0))), b, rows);
  }

  lemma SameNonNull(fn: AggFn, distinct: bool, vs: seq<Value>, n: nat, ws: seq<Value>, m: nat)
    requires NonNull(vs) == NonNull(ws) && fn != CountAll
    ensures AggOf(fn, distinct, vs, n) == AggOf(fn, distinct, ws, m)
  {
  }

  lemma AggIsOf(cal: Calendar, fn: AggFn, distinct: bool, x: Expr, b: Binding, rows: seq<Binding>)
    ensures Eval(cal, Agg(fn, distinct, Some(x)), b, rows) == AggOf(fn, distinct, Values(cal, x, rows), |rows|)
  {
  }

  lemma KidsAlike(cal: Calendar, op: Op, kids: seq<Expr>, c: Expr, b: Binding, rows: seq<Binding>)
    requires forall i :: 0 <= i < |kids| ==> Eval(cal, Wrap(kids[i], c), b, rows) == Eval(cal, kids[i], b, Kept(cal, c, rows))
    ensures Eval(cal, Wrap(Node(op, kids), c), b, rows) == Eval(cal, Node(op, kids), b, Kept(cal, c, rows))
  {
    hide Apply;
    var wrapped := seq(|kids|, i requires 0 <= i < |kids| => Wrap(kids[i], c));
    assert seq(|wrapped|, i requires 0 <= i < |wrapped| => Eval(cal, wrapped[i], b, rows))
        == seq(|kids|, i requires 0 <= i < |kids| => Eval(cal, kids[i], b, Kept(cal, c, rows)));
  }

  // ---- the block: shared filters in WHERE, each measure's others inside it

  lemma ParenValue(cal: Calendar, e: Expr, b: Binding)
    ensures Eval(cal, Node(ParenOp, [e]), b, []) == Eval(cal, e, b, [])
  {
    var kids := [e];
    assert seq(|kids|, i requires 0 <= i < |kids| => Eval(cal, kids[i], b, [])) == [Eval(cal, e, b, [])];
  }

  lemma TwoOperands(cal: Calendar, op: Op, x: Expr, y: Expr, b: Binding)
    ensures Eval(cal, Node(op, [x, y]), b, []) == Apply(cal, op, [Eval(cal, x, b, []), Eval(cal, y, b, [])])
  {
    hide Apply;
    var kids := [x, y];
    assert seq(|kids|, i requires 0 <= i < |kids| => Eval(cal, kids[i], b, [])) == [Eval(cal, x, b, []), Eval(cal, y, b, [])];
  }

  lemma AndValue(cal: Calendar, x: Expr, y: Expr, b: Binding)
    ensures Eval(cal, Node(AndOp, [x, y]), b, []) == AndOf(Eval(cal, x, b, []), Eval(cal, y, b, []))
  {
    hide Eval;
    TwoOperands(cal, AndOp, x, y, b);
  }

  lemma {:induction false} ConjunctionKeeps(cal: Calendar, fs: seq<Expr>, b: Binding)
    requires fs != []
    ensures Keeps(cal, Conjunction(fs), b) <==> KeepsAll(cal, fs, b)
  {
    hide Eval;
    var n := |fs| - 1;
    ParenValue(cal, fs[n], b);
    if n > 0 {
      ConjunctionKeeps(cal, fs[..n], b);
      assert forall f :: f in fs <==> f in fs[..n] || f == fs[n];
      AndValue(cal, Conjunction(fs[..n]), Node(ParenOp, [fs[n]]), b);
      assert Conjunction(fs) == Node(AndOp, [Conjunction(fs[..n]), Node(ParenOp, [fs[n]])]);
      assert KeepsAll(cal, fs, b) <==> KeepsAll(cal, fs[..n], b) && Keeps(cal, fs[n], b);
    } else {
      assert Conjunction(fs) == Node(ParenOp, [fs[0]]);
      assert fs[0] in fs && forall f :: f in fs ==> f == fs[0];
      assert KeepsAll(cal, fs, b) <==> Keeps(cal, fs[0], b);
    }
  }

  lemma ConditionKeeps(cal: Calendar, fs: seq<Expr>, b: Binding)
    requires fs != []
    ensures Keeps(cal, Condition(fs), b) <==> KeepsAll(cal, fs, b)
  {
    ConjunctionKeeps(cal, fs, b);
  }

  /** The rows a list of conditions keeps. */
  function Where(cal: Calendar, fs: seq<Expr>, rows: seq<Binding>): seq<Binding> {
    if rows == [] then []
    else if KeepsAll(cal, fs, rows[0]) then [rows[0]] + Where(cal, fs, rows[1..])
    else Where(cal, fs, rows[1..])
  }

  function Keys(cal: Calendar, dims: seq<Expr>, b: Binding): seq<Value> {
    seq(|dims|, i requires 0 <= i < |dims| => Eval(cal, dims[i], b, []))
  }

  /** The rows of one group. */
  function Group(cal: Calendar, dims: seq<Expr>, g: seq<Value>, rows: seq<Binding>): seq<Binding> {
    if rows == [] then []
    else if Keys(cal, dims, rows[0]) == g then [rows[0]] + Group(cal, dims, g, rows[1..])
    else Group(cal, dims, g, rows[1..])
  }

  lemma {:induction false} KeptOfGroup(cal: Calendar, dims: seq<Expr>, g: seq<Value>, was: seq<Expr>, c: Expr, now: seq<Expr>, rows: seq<Binding>)
    requires forall b :: KeepsAll(cal, was, b) && Keeps(cal, c, b) <==> KeepsAll(cal, now, b)
    ensures Kept(cal, c, Group(cal, dims, g, Where(cal, was, rows))) == Group(cal, dims, g, Where(cal, now, rows))
  {
    if rows != [] {
      KeptOfGroup(cal, dims, g, was, c, now, rows[1..]);
      var b, rest := rows[0], rows[1..];
      if KeepsAll(cal, was, b) {
        var w := Where(cal, was, rest);
        assert ([b] + w)[1..] == w;
        if Keys(cal, dims, b) == g {
          var k := Group(cal, dims, g, w);
          assert ([b] + k)[1..] == k;
        }
      }
      if KeepsAll(cal, now, b) {
        var w := Where(cal, now, rest);
        assert ([b] + w)[1..] == w;
      }
    }
  }

  lemma {:induction false} SameWhere(cal: Calendar, was: seq<Expr>, now: seq<Expr>, rows: seq<Binding>)
    requires forall b :: KeepsAll(cal, was, b) <==> KeepsAll(cal, now, b)
    ensures Where(cal, was, rows) == Where(cal, now, rows)
  {
    if rows != [] {
      SameWhere(cal, was, now, rows[1..]);
    }
  }

  /** A measure's filters that are not shared by every measure. */
  function Rest(filters: seq<Expr>, shared: set<Expr>): seq<Expr> {
    if filters == [] then []
    else if filters[0] in shared then Rest(filters[1..], shared)
    else [filters[0]] + Rest(filters[1..], shared)
  }

  lemma {:induction false} RestElements(filters: seq<Expr>, shared: set<Expr>)
    ensures forall f :: f in Rest(filters, shared) <==> f in filters && f !in shared
  {
    if filters != [] {
      RestElements(filters[1..], shared);
      assert filters == [filters[0]] + filters[1..];
    }
  }

  /** The filters every measure of a block has. */
  function Shared(all: seq<seq<Expr>>): (s: set<Expr>)
    ensures forall fs :: fs in all ==> forall f :: f in s ==> f in fs
    ensures all != [] ==> forall f :: f in s <==> forall fs :: fs in all ==> f in fs
  {
    if all == [] then {}
    else if |all| == 1 then set f | f in all[0]
    else
      assert all == [all[0]] + all[1..];
      set f | f in all[0] && f in Shared(all[1..])
  }

  /** For every group of the answer, each measure is its aggregate over just the rows its own filters (and the
      request's) keep, though the block's WHERE holds only the filters its measures share. */
  lemma MeasureOverItsOwnRows(cal: Calendar, rows: seq<Binding>, all: seq<seq<Expr>>, i: nat, sharedList: seq<Expr>, request: seq<Expr>,
                              e: Expr, dims: seq<Expr>, g: seq<Value>, b: Binding)
    requires i < |all| && ArgumentsGiven(e)
    requires forall f :: f in sharedList <==> f in Shared(all)
    ensures Eval(cal, Within(e, Rest(all[i], Shared(all))), b, Group(cal, dims, g, Where(cal, sharedList + request, rows)))
            == Eval(cal, e, b, Group(cal, dims, g, Where(cal, all[i] + request, rows)))
  {
    hide Shared, Wrap, Eval, ArgumentsGiven, Keys;
    var shared, filters := Shared(all), all[i];
    var rest := Rest(filters, shared);
    RestElements(filters, shared);
    assert filters in all;
    var was, now := sharedList + request, filters + request;
    forall r: Binding
      ensures KeepsAll(cal, was, r) && KeepsAll(cal, rest, r) <==> KeepsAll(cal, now, r)
    {
      assert forall f :: f in now ==> f in was || f in rest;
      assert forall f :: f in was || f in rest ==> f in now;
    }
    if rest == [] {
      SameWhere(cal, was, now, rows);
    } else {
      forall r: Binding
        ensures Keeps(cal, Condition(rest), r) <==> KeepsAll(cal, rest, r)
      {
        ConditionKeeps(cal, rest, r);
      }
      KeptOfGroup(cal, dims, g, was, Condition(rest), now, rows);
      WrapIsFilter(cal, e, Condition(rest), b, Group(cal, dims, g, Where(cal, was, rows)));
    }
  }

  /** The rows conditions keep are those of which each is true, as often and in the order they come. */
  lemma {:induction false} WhereIs(cal: Calendar, fs: seq<Expr>, rows: seq<Binding>, b: Binding)
    ensures multiset(Where(cal, fs, rows))[b] == if forall f :: f in fs ==> Eval(cal, f, b, []) == Bool(true) then multiset(rows)[b] else 0
  {
    hide Eval;
    if rows != [] {
      WhereIs(cal, fs, rows[1..], b);
      assert rows == [rows[0]] + rows[1..];
      assert KeepsAll(cal, fs, rows[0]) <==> forall f :: f in fs ==> Eval(cal, f, rows[0], []) == Bool(true);
    }
  }

  /** A group's rows are those whose dimensions have its values, as often as they come. */
  lemma {:induction false} GroupIs(cal: Calendar, dims: seq<Expr>, g: seq<Value>, rows: seq<Binding>, b: Binding)
    ensures multiset(Group(cal, dims, g, rows))[b]
         == if |g| == |dims| && (forall i :: 0 <= i < |dims| ==> Eval(cal, dims[i], b, []) == g[i]) then multiset(rows)[b] else 0
  {
    hide Eval;
    if rows != [] {
      GroupIs(cal, dims, g, rows[1..], b);
      assert rows == [rows[0]] + rows[1..];
      assert Keys(cal, dims, rows[0]) == g <==> |g| == |dims| && forall i :: 0 <= i < |dims| ==> Eval(cal, dims[i], rows[0], []) == g[i];
    }
  }

  /** A row of the group's dimensions, kept by the request's filters and by every filter common to all measures. */
  ghost predicate MakesGroup(cal: Calendar, all: seq<seq<Expr>>, request: seq<Expr>, dims: seq<Expr>, g: seq<Value>, b: Binding) {
    && |g| == |dims| && (forall i :: 0 <= i < |dims| ==> Eval(cal, dims[i], b, []) == g[i])
    && (forall f :: f in request ==> Eval(cal, f, b, []) == Bool(true))
    && forall f :: Common(all, f) ==> Eval(cal, f, b, []) == Bool(true)
  }

  ghost predicate Common(all: seq<seq<Expr>>, f: Expr) {
    forall fs :: fs in all ==> f in fs
  }

  /** The rows of a group of the block's answer are those, as often as the joins give them: a row that only some measures
      count makes a group, one that a filter of all of them drops does not. */
  lemma GroupRowsAre(cal: Calendar, rows: seq<Binding>, all: seq<seq<Expr>>, sharedList: seq<Expr>, request: seq<Expr>, dims: seq<Expr>, g: seq<Value>, b: Binding)
    requires all != [] && forall f :: f in sharedList <==> f in Shared(all)
    ensures multiset(Group(cal, dims, g, Where(cal, sharedList + request, rows)))[b] == if MakesGroup(cal, all, request, dims, g, b) then multiset(rows)[b] else 0
  {
    hide Eval, Group, Where, Shared;
    WhereIs(cal, sharedList + request, rows, b);
    GroupIs(cal, dims, g, Where(cal, sharedList + request, rows), b);
    forall f
      ensures f in sharedList + request <==> Common(all, f) || f in request
    {
      assert f in Shared(all) <==> Common(all, f);
    }
  }

  /** So the answer's group keys are exactly those of such rows. */
  lemma GroupsAreThose(cal: Calendar, rows: seq<Binding>, all: seq<seq<Expr>>, sharedList: seq<Expr>, request: seq<Expr>, dims: seq<Expr>, g: seq<Value>)
    requires all != [] && forall f :: f in sharedList <==> f in Shared(all)
    ensures Group(cal, dims, g, Where(cal, sharedList + request, rows)) != [] <==> exists b :: b in rows && MakesGroup(cal, all, request, dims, g, b)
  {
    hide Eval, Group, Where, Shared, MakesGroup;
    var group := Group(cal, dims, g, Where(cal, sharedList + request, rows));
    if group != [] {
      var b := group[0];
      GroupRowsAre(cal, rows, all, sharedList, request, dims, g, b);
      assert b in group && multiset(group)[b] > 0;
      assert b in rows;
    }
    if b :| b in rows && MakesGroup(cal, all, request, dims, g, b) {
      GroupRowsAre(cal, rows, all, sharedList, request, dims, g, b);
      assert multiset(rows)[b] > 0;
      assert b in multiset(group);
    }
  }

  // ---- aggregates that repeated rows do not change

  /** The aggregates of an expression. */
  function Aggregates(e: Expr): set<Expr>
    decreases e
  {
    match e
    case Col(_, _) => {}
    case Lit(_) => {}
    case Node(_, kids) => set i, a | 0 <= i < |kids| && a in Aggregates(kids[i]) :: a
    case Agg(_, _, arg) => {e} + if arg.Some? then Aggregates(arg.value) else {}
  }

  predicate SafeAggregate(a: Expr) {
    a.Agg? && (a.fn == Min || a.fn == Max || (a.fn == Count && a.distinct))
  }

  /** Distinct counts, MIN and MAX, and at least one of them. */
  predicate FanoutSafe(e: Expr) {
    Aggregates(e) != {} && forall a :: a in Aggregates(e) ==> SafeAggregate(a)
  }

  function Kids(e: Expr): seq<Expr> {
    match e
    case Node(_, kids) => kids
    case Agg(_, _, Some(x)) => [x]
    case _ => []
  }

  /** The part of an expression a path of operands leads to. */
  function PartAt(e: Expr, path: seq<nat>): Option<Expr>
    decreases |path|
  {
    if path == [] then Some(e)
    else if path[0] < |Kids(e)| then PartAt(Kids(e)[path[0]], path[1..])
    else None
  }

  ghost predicate IsPart(e: Expr, a: Expr) {
    exists path :: PartAt(e, path) == Some(a)
  }

  lemma IsPartStep(e: Expr, a: Expr)
    ensures IsPart(e, a) <==> e == a || exists i :: 0 <= i < |Kids(e)| && IsPart(Kids(e)[i], a)
  {
    if path :| PartAt(e, path) == Some(a) {
      if path != [] {
        assert PartAt(Kids(e)[path[0]], path[1..]) == Some(a);
      }
    }
    if e == a {
      assert PartAt(e, []) == Some(a);
    }
    if i :| 0 <= i < |Kids(e)| && IsPart(Kids(e)[i], a) {
      var path :| PartAt(Kids(e)[i], path) == Some(a);
      assert ([i] + path)[1..] == path;
      assert PartAt(e, [i] + path) == Some(a);
    }
  }

  lemma {:induction false} AggregatesAre(e: Expr, a: Expr)
    ensures a in Aggregates(e) <==> a.Agg? && IsPart(e, a)
    decreases e
  {
    hide IsPart;
    forall i | 0 <= i < |Kids(e)|
      ensures a in Aggregates(Kids(e)[i]) <==> a.Agg? && IsPart(Kids(e)[i], a)
    {
      AggregatesAre(Kids(e)[i], a);
    }
    IsPartStep(e, a);
    match e
    case Node(_, kids) => assert Kids(e) == kids;
    case Agg(_, _, Some(x)) => assert Kids(e)[0] == x;
    case _ =>
  }

  /** Accepted exactly when it aggregates somewhere, and nowhere but as MIN, MAX or a count of distinct values. */
  lemma FanoutSafeIs(e: Expr)
    ensures FanoutSafe(e) <==>
              && (exists a: Expr :: a.Agg? && IsPart(e, a))
              && forall a: Expr :: a.Agg? && IsPart(e, a) ==> a.fn == Min || a.fn == Max || (a.fn == Count && a.distinct)
  {
    hide IsPart, Aggregates;
    forall a
      ensures a in Aggregates(e) <==> a.Agg? && IsPart(e, a)
    {
      AggregatesAre(e, a);
    }
    if a: Expr :| a.Agg? && IsPart(e, a) {
      assert a in Aggregates(e);
    }
    if a :| a in Aggregates(e) {
      assert IsPart(e, a);
    }
  }

  /** The expression reads no table but these. */
  ghost predicate ReadsOnly(e: Expr, ts: set<Table>)
    decreases e
  {
    match e
    case Col(t, _) => t in ts
    case Lit(_) => true
    case Node(_, kids) => forall i :: 0 <= i < |kids| ==> ReadsOnly(kids[i], ts)
    case Agg(_, _, arg) => arg.Some? ==> ReadsOnly(arg.value, ts)
  }

  /** Two rows that say the same of some tables. */
  ghost predicate Agree(b: Binding, d: Binding, ts: set<Table>) {
    forall t, c :: t in ts ==> Cell(b, t, c) == Cell(d, t, c)
  }

  /** Every row of one list has its like, in those tables, in the other. */
  ghost predicate Reaches(rows: seq<Binding>, others: seq<Binding>, ts: set<Table>) {
    forall b :: b in rows ==> exists d :: d in others && Agree(b, d, ts)
  }

  lemma {:induction false} AgreeingRows(cal: Calendar, e: Expr, ts: set<Table>, b: Binding, d: Binding)
    requires ReadsOnly(e, ts) && Agree(b, d, ts)
    ensures Eval(cal, e, b, []) == Eval(cal, e, d, [])
    decreases e
  {
    match e
    case Col(_, _) =>
    case Lit(_) =>
    case Node(op, kids) =>
      forall i | 0 <= i < |kids|
        ensures Eval(cal, kids[i], b, []) == Eval(cal, kids[i], d, [])
      {
        AgreeingRows(cal, kids[i], ts, b, d);
      }
      assert seq(|kids|, i requires 0 <= i < |kids| => Eval(cal, kids[i], b, []))
          == seq(|kids|, i requires 0 <= i < |kids| => Eval(cal, kids[i], d, []));
    case Agg(_, _, _) =>
  }

  ghost predicate SameMembers(xs: seq<Value>, ys: seq<Value>) {
    forall v :: v in xs <==> v in ys
  }

  lemma SameValues(cal: Calendar, x: Expr, ts: set<Table>, rows: seq<Binding>, others: seq<Binding>)
    requires ReadsOnly(x, ts) && Reaches(rows, others, ts) && Reaches(others, rows, ts)
    ensures SameMembers(Values(cal, x, rows), Values(cal, x, others))
  {
    ValuesReach(cal, x, ts, rows, others);
    ValuesReach(cal, x, ts, others, rows);
  }

  lemma ValuesReach(cal: Calendar, x: Expr, ts: set<Table>, rows: seq<Binding>, others: seq<Binding>)
    requires ReadsOnly(x, ts) && Reaches(rows, others, ts)
    ensures forall v :: v in Values(cal, x, rows) ==> v in Values(cal, x, others)
  {
    hide Eval, ReadsOnly, Agree;
    forall v | v in Values(cal, x, rows)
      ensures v in Values(cal, x, others)
    {
      var i :| 0 <= i < |rows| && Values(cal, x, rows)[i] == v;
      assert rows[i] in rows;
      var d :| d in others && Agree(rows[i], d, ts);
      AgreeingRows(cal, x, ts, rows[i], d);
      var j :| 0 <= j < |others| && others[j] == d;
      assert Values(cal, x, others)[j] == v;
    }
  }

  // ---- what a safe aggregate makes of values depends on which they are, not how many times

  lemma {:induction false} NonNullMembers(vs: seq<Value>)
    ensures forall v :: v in NonNull(vs) <==> v in vs && !v.Null?
  {
    if vs != [] {
      NonNullMembers(vs[1..]);
      assert vs == [vs[0]] + vs[1..];
    }
  }

  lemma {:induction false} DistinctMembers(vs: seq<Value>)
    ensures forall v :: v in Distinct(vs) <==> v in vs
    ensures |Distinct(vs)| == |set v | v in vs|
  {
    if vs != [] {
      DistinctMembers(vs[1..]);
      assert vs == [vs[0]] + vs[1..];
      var rest := set v | v in vs[1..];
      assert (set v | v in vs) == rest + {vs[0]};
    }
  }

  lemma {:induction false} LeastOf(vs: seq<Value>)
    requires vs != []
    ensures Least(vs) in vs && forall v :: v in vs ==> !Below(v, Least(vs))
  {
    assert vs == [vs[0]] + vs[1..];
    if |vs| > 1 {
      LeastOf(vs[1..]);
      forall v | v in vs
        ensures !Below(v, Least(vs))
      {
        BelowIsOrder(v, Least(vs[1..]), vs[0]);
        BelowIsOrder(vs[0], Least(vs[1..]), v);
      }
    }
  }

  lemma {:induction false} GreatestOf(vs: seq<Value>)
    requires vs != []
    ensures Greatest(vs) in vs && forall v :: v in vs ==> !Below(Greatest(vs), v)
  {
    assert vs == [vs[0]] + vs[1..];
    if |vs| > 1 {
      GreatestOf(vs[1..]);
      forall v | v in vs
        ensures !Below(Greatest(vs), v)
      {
        BelowIsOrder(vs[0], Greatest(vs[1..]), v);
        BelowIsOrder(Greatest(vs[1..]), vs[0], v);
      }
    }
  }

  /** Below is a strict total order. */
  lemma BelowIsOrder(x: Value, y: Value, z: Value)
    ensures !Below(x, x)
    ensures Below(x, y) && Below(y, z) ==> Below(x, z)
    ensures x == y || Below(x, y) || Below(y, x)
    ensures !(Below(x, y) && Below(y, x))
  {
  }

  lemma SafeAggOf(fn: AggFn, distinct: bool, xs: seq<Value>, ys: seq<Value>, n: nat, m: nat)
    requires fn == Min || fn == Max || (fn == Count && distinct)
    requires SameMembers(NonNull(xs), NonNull(ys))
    ensures AggOf(fn, distinct, xs, n) == AggOf(fn, distinct, ys, m)
  {
    hide Below, Least, Greatest, Distinct, NonNull;
    var some, others := NonNull(xs), NonNull(ys);
    DistinctMembers(some);
    DistinctMembers(others);
    assert (set v | v in some) == (set v | v in others);
    var used, used' := if distinct then Distinct(some) else some, if distinct then Distinct(others) else others;
    assert SameMembers(used, used');
    if fn != Count {
      SameExtremes(used, used');
    }
  }

  lemma SameExtremes(xs: seq<Value>, ys: seq<Value>)
    requires SameMembers(xs, ys)
    ensures Least(xs) == Least(ys) && Greatest(xs) == Greatest(ys)
  {
    hide Below, Least, Greatest;
    if xs == [] {
      var y := if ys == [] then Null else ys[0];
      assert y in ys ==> y in xs;
    } else {
      assert xs[0] in ys;
      LeastOf(xs);
      LeastOf(ys);
      BelowIsOrder(Least(xs), Least(ys), Least(xs));
      GreatestOf(xs);
      GreatestOf(ys);
      BelowIsOrder(Greatest(xs), Greatest(ys), Greatest(xs));
    }
  }

  /** The aggregates' arguments come to the same values over two lists of rows, nulls and repeats aside. */
  ghost predicate SameArguments(cal: Calendar, e: Expr, rows: seq<Binding>, others: seq<Binding>) {
    forall a :: a in Aggregates(e) && a.Agg? && a.arg.Some? ==>
      SameMembers(NonNull(Values(cal, a.arg.value, rows)), NonNull(Values(cal, a.arg.value, others)))
  }

  /** An accepted expression depends on no more of its rows. */
  lemma {:induction false} SafeByArguments(cal: Calendar, e: Expr, b: Binding, rows: seq<Binding>, others: seq<Binding>)
    requires forall a :: a in Aggregates(e) ==> SafeAggregate(a)
    requires ArgumentsGiven(e) && SameArguments(cal, e, rows, others)
    ensures Eval(cal, e, b, rows) == Eval(cal, e, b, others)
    decreases e
  {
    hide NonNull;
    match e
    case Col(_, _) =>
    case Lit(_) =>
    case Node(op, kids) =>
      forall i | 0 <= i < |kids|
        ensures Eval(cal, kids[i], b, rows) == Eval(cal, kids[i], b, others)
      {
        assert forall a :: a in Aggregates(kids[i]) ==> a in Aggregates(e);
        SafeByArguments(cal, kids[i], b, rows, others);
      }
      assert seq(|kids|, i requires 0 <= i < |kids| => Eval(cal, kids[i], b, rows))
          == seq(|kids|, i requires 0 <= i < |kids| => Eval(cal, kids[i], b, others));
    case Agg(fn, distinct, arg) =>
      assert e in Aggregates(e);
      AggIsOf(cal, fn, distinct, arg.value, b, rows);
      AggIsOf(cal, fn, distinct, arg.value, b, others);
      SafeAggOf(fn, distinct, Values(cal, arg.value, rows), Values(cal, arg.value, others), |rows|, |others|);
  }

  lemma {:induction false} AggregateReads(e: Expr, a: Expr, ts: set<Table>)
    requires ReadsOnly(e, ts) && a in Aggregates(e)
    ensures a.Agg? && (a.arg.Some? ==> ReadsOnly(a.arg.value, ts))
    decreases e
  {
    match e
    case Col(_, _) =>
    case Lit(_) =>
    case Node(_, kids) =>
      var i :| 0 <= i < |kids| && a in Aggregates(kids[i]);
      AggregateReads(kids[i], a, ts);
    case Agg(_, _, arg) =>
      if a != e {
        AggregateReads(arg.value, a, ts);
      }
  }

  /** An accepted expression has the same value over any two lists of rows with the same distinct rows of the
      tables it reads. */
  lemma FanoutSafeSame(cal: Calendar, e: Expr, ts: set<Table>, b: Binding, rows: seq<Binding>, others: seq<Binding>)
    requires forall a :: a in Aggregates(e) ==> SafeAggregate(a)
    requires ReadsOnly(e, ts) && ArgumentsGiven(e)
    requires Reaches(rows, others, ts) && Reaches(others, rows, ts)
    ensures Eval(cal, e, b, rows) == Eval(cal, e, b, others)
  {
    hide Eval, ReadsOnly, ArgumentsGiven, Reaches, SafeAggregate;
    forall a | a in Aggregates(e) && a.Agg? && a.arg.Some?
      ensures SameMembers(NonNull(Values(cal, a.arg.value, rows)), NonNull(Values(cal, a.arg.value, others)))
    {
      AggregateReads(e, a, ts);
      SameValues(cal, a.arg.value, ts, rows, others);
      NonNullMembers(Values(cal, a.arg.value, rows));
      NonNullMembers(Values(cal, a.arg.value, others));
    }
    SafeByArguments(cal, e, b, rows, others);
  }

  /** A FROM row's own row of a table. */
  function RowIn(t: Table, b: Binding): Binding {
    map[t := if t in b then b[t] else map[]]
  }

  /** The distinct rows of a table that a FROM's rows reach, each as a row of its own. */
  function TableRows(t: Table, rows: seq<Binding>): (r: seq<Binding>)
    ensures forall d :: d in r ==> exists b :: b in rows && d == RowIn(t, b)
    ensures forall b :: b in rows ==> RowIn(t, b) in r
    ensures forall i, j :: 0 <= i < j < |r| ==> r[i] != r[j]
  {
    if rows == [] then []
    else
      var rest := TableRows(t, rows[1..]);
      assert rows == [rows[0]] + rows[1..];
      if RowIn(t, rows[0]) in rest then rest else [RowIn(t, rows[0])] + rest
  }

  lemma RowInAgrees(t: Table, b: Binding)
    ensures Agree(b, RowIn(t, b), {t}) && Agree(RowIn(t, b), b, {t})
  {
  }

  lemma TableRowsReach(t: Table, rows: seq<Binding>)
    ensures Reaches(rows, TableRows(t, rows), {t}) && Reaches(TableRows(t, rows), rows, {t})
  {
    hide Agree, TableRows, RowIn;
    forall b | b in rows
      ensures exists d :: d in TableRows(t, rows) && Agree(b, d, {t})
    {
      RowInAgrees(t, b);
    }
    forall d | d in TableRows(t, rows)
      ensures exists b :: b in rows && Agree(d, b, {t})
    {
      var b :| b in rows && d == RowIn(t, b);
      RowInAgrees(t, b);
    }
  }
}
