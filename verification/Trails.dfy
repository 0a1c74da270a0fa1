/** Where an output comes from, hop by hop: the traced origins are exactly those of the trails from the output to a base
    column, each hop a projection and a place in it; and what an origin says is told from its trail's hops alone. */
module Trails {
  import opened Options
  import opened Lineage
  import opened Steering

  /** A projection of a scope, and the place of a column in its expression. */
  datatype Hop = Hop(scope: nat, p: Projection, path: seq<nat>)

  // ---- what a hop does

  ghost predicate Aggregates(e: Expr) {
    exists path :: At(e, path).Some? && At(e, path).value.Agg?
  }

  ghost function HopKind(p: Projection): Kind {
    if p.e.Col? then (if p.e.name != p.name then Rename else Passthrough)
    else if Aggregates(p.e) then Aggregate
    else Transform
  }

  lemma {:induction false} AggregatesIs(e: Expr)
    ensures HasAggregate(e) <==> Aggregates(e)
    decreases e
  {
    hide At;
    forall i | 0 <= i < |Kids(e)|
      ensures HasAggregate(Kids(e)[i]) <==> Aggregates(Kids(e)[i])
    {
      AggregatesIs(Kids(e)[i]);
    }
    AggregatesStep(e);
    HasAggregateStep(e);
  }

  lemma AggregatesStep(e: Expr)
    ensures Aggregates(e) <==> e.Agg? || exists i :: 0 <= i < |Kids(e)| && Aggregates(Kids(e)[i])
  {
    if path :| At(e, path).Some? && At(e, path).value.Agg? {
      if path != [] {
        assert At(Kids(e)[path[0]], path[1..]) == At(e, path);
      }
    }
    if e.Agg? {
      assert At(e, []) == Some(e);
    }
    if i :| 0 <= i < |Kids(e)| && Aggregates(Kids(e)[i]) {
      var path :| At(Kids(e)[i], path).Some? && At(Kids(e)[i], path).value.Agg?;
      NextStep(e, i, path, 0);
      assert At(e, [i] + path).Some?;
    }
  }

  lemma HasAggregateStep(e: Expr)
    ensures HasAggregate(e) <==> e.Agg? || exists i :: 0 <= i < |Kids(e)| && HasAggregate(Kids(e)[i])
  {
    match e
    case Call(_, args) => AggregateFrom(e, 0, args);
    case Order(_, keys) => OrderAggregates(e);
    case Window(x, parts) =>
      AggregateFrom(e, 1, parts);
      assert Kids(e)[0] == x;
    case Arith(_, l, r) => assert Kids(e)[0] == l && Kids(e)[1] == r;
    case If(c, y, n) => assert Kids(e)[0] == c && Kids(e)[1] == y && Kids(e)[2] == n;
    case _ =>
  }

  lemma OrderAggregates(e: Expr)
    requires e.Order?
    ensures HasAggregate(e) <==> exists i :: 0 <= i < |Kids(e)| && HasAggregate(Kids(e)[i])
  {
    AggregateFrom(e, if e.what.Some? then 1 else 0, e.keys);
    assert e.what.Some? ==> Kids(e)[0] == e.what.value;
  }

  lemma AggregateFrom(e: Expr, first: nat, es: seq<Expr>)
    requires first <= |Kids(e)| && Kids(e)[first..] == es
    ensures (exists i :: 0 <= i < |es| && HasAggregate(es[i])) <==> exists i :: first <= i < |Kids(e)| && HasAggregate(Kids(e)[i])
  {
    hide HasAggregate;
    if i :| 0 <= i < |es| && HasAggregate(es[i]) {
      assert Kids(e)[first + i] == es[i];
    }
    if i :| first <= i < |Kids(e)| && HasAggregate(Kids(e)[i]) {
      assert es[i - first] == Kids(e)[i];
    }
  }

  /** What is done at one place of an expression: a function called there, or a number its operands are scaled by. */
  ghost predicate DoneAt(x: Expr, f: Fn) {
    match x
    case Call(g, _) => f == Named(g)
    case Agg(g, _) => f == Named(g)
    case If(_, _, _) => f == IfFn
    case Arith(op, l, r) =>
      || (op.SafeOver? && f == SafeDivideFn)
      || (r.Const? && !r.isText && f == if op.Times? then TimesConst(r.value) else OverConst(r.value))
      || (!(r.Const? && !r.isText) && l.Const? && !l.isText && op.Times? && f == TimesConst(l.value))
    case _ => false
  }

  ghost predicate Done(e: Expr, f: Fn) {
    exists path :: At(e, path).Some? && DoneAt(At(e, path).value, f)
  }

  lemma DoneStep(e: Expr, f: Fn)
    ensures Done(e, f) <==> DoneAt(e, f) || exists i :: 0 <= i < |Kids(e)| && Done(Kids(e)[i], f)
  {
    hide DoneAt, Kids;
    if path :| At(e, path).Some? && DoneAt(At(e, path).value, f) {
      if path != [] {
        assert At(Kids(e)[path[0]], path[1..]) == At(e, path);
      }
    }
    if DoneAt(e, f) {
      assert At(e, []) == Some(e);
    }
    if i :| 0 <= i < |Kids(e)| && Done(Kids(e)[i], f) {
      var path :| At(Kids(e)[i], path).Some? && DoneAt(At(Kids(e)[i], path).value, f);
      NextStep(e, i, path, 0);
      assert At(e, [i] + path).Some?;
    }
  }

  /** A function or scaling of the expression, wherever it is in it. */
  ghost predicate Made(e: Expr, f: Fn) {
    f in Calls(e) || f in Scales(e)
  }

  lemma {:induction false} MadeOf(es: seq<Expr>, f: Fn)
    ensures f in CallsOf(es) || f in ScalesOf(es) <==> exists i :: 0 <= i < |es| && Made(es[i], f)
  {
    if es != [] {
      MadeOf(es[1..], f);
      assert forall i :: 0 <= i < |es[1..]| ==> es[1..][i] == es[i + 1];
      if i :| 0 <= i < |es| && Made(es[i], f) {
        assert i > 0 ==> Made(es[1..][i - 1], f);
      }
    }
  }

  lemma MadeStep(e: Expr, f: Fn)
    ensures Made(e, f) <==> DoneAt(e, f) || exists i :: 0 <= i < |Kids(e)| && Made(Kids(e)[i], f)
  {
    match e
    case Call(_, args) =>
      MadeOf(args, f);
      KidsFrom(e, 0, args, f);
    case Arith(_, l, r) => assert Kids(e)[0] == l && Kids(e)[1] == r;
    case If(c, y, n) => assert Kids(e)[0] == c && Kids(e)[1] == y && Kids(e)[2] == n;
    case Agg(_, x) => assert Kids(e)[0] == x;
    case Order(_, _) => OrderMade(e, f);
    case Window(_, _) => WindowMade(e, f);
    case _ =>
  }

  lemma OrderMade(e: Expr, f: Fn)
    requires e.Order?
    ensures Made(e, f) <==> exists i :: 0 <= i < |Kids(e)| && Made(Kids(e)[i], f)
  {
    MadeOf(e.keys, f);
    KidsFrom(e, if e.what.Some? then 1 else 0, e.keys, f);
    assert e.what.Some? ==> Kids(e)[0] == e.what.value;
  }

  lemma WindowMade(e: Expr, f: Fn)
    requires e.Window?
    ensures Made(e, f) <==> exists i :: 0 <= i < |Kids(e)| && Made(Kids(e)[i], f)
  {
    MadeOf(e.parts, f);
    KidsFrom(e, 1, e.parts, f);
    assert Kids(e)[0] == e.over;
  }

  lemma KidsFrom(e: Expr, first: nat, es: seq<Expr>, f: Fn)
    requires first <= |Kids(e)| && Kids(e)[first..] == es
    ensures (exists i :: 0 <= i < |es| && Made(es[i], f)) <==> exists i :: first <= i < |Kids(e)| && Made(Kids(e)[i], f)
  {
    hide Made;
    if i :| 0 <= i < |es| && Made(es[i], f) {
      assert Kids(e)[first + i] == es[i];
    }
    if i :| first <= i < |Kids(e)| && Made(Kids(e)[i], f) {
      assert es[i - first] == Kids(e)[i];
    }
  }

  lemma {:induction false} MadeIsDone(e: Expr, f: Fn)
    ensures Made(e, f) <==> Done(e, f)
    decreases e
  {
    hide Made, Done, DoneAt;
    forall i | 0 <= i < |Kids(e)|
      ensures Made(Kids(e)[i], f) <==> Done(Kids(e)[i], f)
    {
      MadeIsDone(Kids(e)[i], f);
    }
    MadeStep(e, f);
    DoneStep(e, f);
  }

  lemma {:induction false} UniqueIs(fs: seq<Fn>)
    ensures (forall f :: f in Unique(fs) <==> f in fs) && forall i, k :: 0 <= i < k < |Unique(fs)| ==> Unique(fs)[i] != Unique(fs)[k]
  {
    if fs != [] {
      UniqueIs(fs[..|fs| - 1]);
      assert fs == fs[..|fs| - 1] + [fs[|fs| - 1]];
    }
  }

  /** An expression's functions are those at its places, each once. */
  lemma FnsAre(e: Expr, f: Fn)
    ensures f in Fns(e) <==> Done(e, f)
    ensures forall i, k :: 0 <= i < k < |Fns(e)| ==> Fns(e)[i] != Fns(e)[k]
  {
    hide Done;
    MadeIsDone(e, f);
    UniqueIs(Calls(e) + Scales(e));
  }

  // ---- one hop, field by field

  /** An origin after one projection more: of the same base column; marked if it was or the place steers; of the greater
      kind; with the projection's functions before its own. */
  ghost predicate Carried(p: Projection, path: seq<nat>, b: Origin, o: Origin) {
    && o.table == b.table && o.column == b.column
    && (o.control <==> b.control || Steers(p.e, path))
    && o.kind == (if Rank(HopKind(p)) > Rank(b.kind) then HopKind(p) else b.kind)
    && o.fns == Fns(p.e) + b.fns
  }

  ghost predicate IsColumnAt(e: Expr, path: seq<nat>, a: Alias, n: Name) {
    At(e, path) == Some(Col(a, n))
  }

  ghost predicate ComesBy(S: Scopes, cat: Catalog, s: nat, p: Projection, path: seq<nat>, a: Alias, n: Name, b: Origin, o: Origin) {
    IsColumnAt(p.e, path, a, n) && b in TraceColumn(S, cat, s, a, n) && Carried(p, path, b, o)
  }

  /** A projection's origins are those of the columns at its places, carried. */
  lemma OneHop(S: Scopes, cat: Catalog, s: nat, p: Projection, o: Origin)
    ensures o in Renamed(p, TraceExpr(S, cat, s, p.e)) <==> exists path, a, n, b :: ComesBy(S, cat, s, p, path, a, n, b, o)
  {
    hide TraceExpr, TraceColumn, At, Steers, HopKind, Aggregates, Comes, Carried;
    RenamedHas(p, TraceExpr(S, cat, s, p.e), o);
    if o in Renamed(p, TraceExpr(S, cat, s, p.e)) {
      var x :| x in TraceExpr(S, cat, s, p.e) && o == RenamedOne(p, x);
      TraceMarks(S, cat, s, p.e, x);
      var path, b :| Comes(S, cat, s, p.e, path, b, x);
      ComesAt(S, cat, s, p.e, path, b, x);
      var col := At(p.e, path).value;
      CarriedIs(p, path, b, o);
      assert ComesBy(S, cat, s, p, path, col.alias, col.name, b, o);
    }
    if path, a, n, b :| ComesBy(S, cat, s, p, path, a, n, b, o) {
      var x := b.Via(KindOf(p.e), Fns(p.e), Steers(p.e, path));
      ComesAt(S, cat, s, p.e, path, b, x);
      TraceMarks(S, cat, s, p.e, x);
      assert Comes(S, cat, s, p.e, path, b, x);
      CarriedIs(p, path, b, o);
    }
  }

  lemma ComesAt(S: Scopes, cat: Catalog, s: nat, e: Expr, path: seq<nat>, b: Origin, x: Origin)
    ensures Comes(S, cat, s, e, path, b, x) <==>
              && At(e, path).Some? && At(e, path).value.Col?
              && b in TraceColumn(S, cat, s, At(e, path).value.alias, At(e, path).value.name)
              && x == b.Via(KindOf(e), Fns(e), Steers(e, path))
  {
    hide TraceColumn, At, Steers, KindOf, Fns;
  }

  function RenamedOne(p: Projection, x: Origin): Origin {
    if p.e.Col? && p.e.name != p.name then x.Via(Rename, [], false) else x
  }

  lemma RenamedHas(p: Projection, os: seq<Origin>, o: Origin)
    ensures o in Renamed(p, os) <==> exists x :: x in os && o == RenamedOne(p, x)
  {
    if p.e.Col? && p.e.name != p.name {
      TaggedHas(os, Rename, [], false, o);
    }
  }

  lemma CarriedIs(p: Projection, path: seq<nat>, b: Origin, o: Origin)
    ensures o == RenamedOne(p, b.Via(KindOf(p.e), Fns(p.e), Steers(p.e, path))) <==> Carried(p, path, b, o)
  {
    hide Steers, Fns, Aggregates, HasAggregate;
    AggregatesIs(p.e);
    assert p.e.Col? ==> Fns(p.e) == [] by { NoFns(p.e); }
    assert [] + (Fns(p.e) + b.fns) == Fns(p.e) + b.fns;
    var x := b.Via(KindOf(p.e), Fns(p.e), Steers(p.e, path));
    assert Rank(x.kind) >= Rank(b.kind);
  }

  lemma NoFns(e: Expr)
    ensures e.Col? ==> Fns(e) == []
  {
  }

  // ---- sources and branches

  /** A column's source is that of its scope, or of the nearest scope around that has one for the name. */
  ghost predicate Around(S: Scopes, scopes: seq<nat>, a: Alias) {
    && scopes != []
    && (forall k :: 0 <= k < |scopes| ==> scopes[k] < |S| && S[scopes[k]].Select?)
    && (forall k :: 0 <= k < |scopes| - 1 ==>
          && a !in S[scopes[k]].sources
          && S[scopes[k]].parent == Some(scopes[k + 1]) && scopes[k] < scopes[k + 1])
    && a in S[scopes[|scopes| - 1]].sources
  }

  lemma {:induction false} SourceIs(S: Scopes, s: nat, a: Alias, x: Source)
    ensures FindSource(S, s, a) == Some(x) <==>
              exists scopes :: Around(S, scopes, a) && scopes[0] == s && S[scopes[|scopes| - 1]].sources[a] == x
    decreases |S| - s
  {
    if s < |S| && S[s].Select? {
      if a in S[s].sources {
        assert Around(S, [s], a);
      } else if S[s].parent.Some? && S[s].parent.value > s {
        SourceIs(S, S[s].parent.value, a, x);
        if FindSource(S, s, a) == Some(x) {
          var rest :| Around(S, rest, a) && rest[0] == S[s].parent.value && S[rest[|rest| - 1]].sources[a] == x;
          AroundMore(S, s, rest, a);
        }
      }
    }
    if scopes :| Around(S, scopes, a) && scopes[0] == s && S[scopes[|scopes| - 1]].sources[a] == x {
      AroundFinds(S, scopes, a);
    }
  }

  lemma {:induction false} AroundFinds(S: Scopes, scopes: seq<nat>, a: Alias)
    requires Around(S, scopes, a)
    ensures FindSource(S, scopes[0], a) == Some(S[scopes[|scopes| - 1]].sources[a])
    decreases |scopes|
  {
    if |scopes| > 1 {
      assert scopes[0 + 1] == scopes[1..][0];
      AroundFinds(S, scopes[1..], a);
    }
  }

  lemma AroundMore(S: Scopes, s: nat, rest: seq<nat>, a: Alias)
    requires Around(S, rest, a) && s < |S| && S[s].Select? && a !in S[s].sources && S[s].parent == Some(rest[0]) && s < rest[0]
    ensures Around(S, [s] + rest, a)
  {
  }

  /** From a set operation, branch by branch, to one that is none. */
  ghost predicate Branching(S: Scopes, scopes: seq<nat>) {
    && scopes != []
    && (forall k :: 0 <= k < |scopes| - 1 ==>
          && scopes[k] < |S| && S[scopes[k]].SetOperation?
          && scopes[k + 1] in S[scopes[k]].branches && scopes[k + 1] < scopes[k])
    && !(scopes[|scopes| - 1] < |S| && S[scopes[|scopes| - 1]].SetOperation?)
  }

  lemma {:induction false} LeavesAre(S: Scopes, s: nat, b: nat)
    ensures b in Leaves(S, s) <==> exists scopes :: Branching(S, scopes) && scopes[0] == s && scopes[|scopes| - 1] == b
    decreases s, 0
  {
    hide LeavesOf;
    if s >= |S| || !S[s].SetOperation? {
      assert Branching(S, [s]);
    } else {
      LeavesOfAre(S, s, S[s].branches, b);
      if c: nat :| c in S[s].branches && c < s && b in Leaves(S, c) {
        LeavesAre(S, c, b);
        var rest :| Branching(S, rest) && rest[0] == c && rest[|rest| - 1] == b;
        BranchingMore(S, s, rest);
      }
      if scopes :| Branching(S, scopes) && scopes[0] == s && scopes[|scopes| - 1] == b {
        assert |scopes| > 1;
        assert Branching(S, scopes[1..]);
        LeavesAre(S, scopes[1], b);
      }
    }
  }

  lemma BranchingMore(S: Scopes, s: nat, rest: seq<nat>)
    requires Branching(S, rest) && s < |S| && S[s].SetOperation? && rest[0] in S[s].branches && rest[0] < s
    ensures Branching(S, [s] + rest)
  {
  }

  lemma {:induction false} LeavesOfAre(S: Scopes, s: nat, bs: seq<nat>, b: nat)
    ensures b in LeavesOf(S, s, bs) <==> exists c: nat :: c in bs && c < s && b in Leaves(S, c)
  {
    hide Leaves;
    if bs != [] {
      LeavesOfAre(S, s, bs[1..], b);
      assert bs == [bs[0]] + bs[1..];
      assert LeavesOf(S, s, bs) == (if bs[0] < s then Leaves(S, bs[0]) else []) + LeavesOf(S, s, bs[1..]);
      assert bs[0] in bs;
    }
  }

  /** From a set operation, first branch by first branch, to a SELECT. */
  ghost predicate FirstBranches(S: Scopes, scopes: seq<nat>) {
    && scopes != []
    && (forall k :: 0 <= k < |scopes| - 1 ==>
          && scopes[k] < |S| && S[scopes[k]].SetOperation? && S[scopes[k]].branches != []
          && scopes[k + 1] == S[scopes[k]].branches[0] && scopes[k + 1] < scopes[k])
    && scopes[|scopes| - 1] < |S| && S[scopes[|scopes| - 1]].Select?
  }

  /** A set operation's names are those of the SELECT its first branches come down to. */
  lemma {:induction false} NamesAre(S: Scopes, scopes: seq<nat>)
    requires FirstBranches(S, scopes)
    ensures Leaves(S, scopes[0]) != [] && Leaves(S, scopes[0])[0] == scopes[|scopes| - 1]
    ensures NamesOf(S, scopes[0]) == S[scopes[|scopes| - 1]].projections
    decreases |scopes|
  {
    if |scopes| > 1 {
      assert scopes[0 + 1] == S[scopes[0]].branches[0];
      NamesAre(S, scopes[1..]);
    }
  }

  // ---- trails

  /** A base column as the tracer lists it: known to the catalogue, or of a per-run table. */
  predicate IsBase(cat: Catalog, t: Table, n: Name) {
    if t in cat.columns then n in cat.columns[t] else t in cat.transient
  }

  /** From a column of a scope, through its source. */
  ghost predicate ColumnTrail(S: Scopes, cat: Catalog, s: nat, a: Alias, n: Name, hops: seq<Hop>, t: Table, c: Name)
    decreases s, 1
  {
    match FindSource(S, s, a)
    case None => false
    case Some(Base(t0)) => hops == [] && t == t0 && c == n && IsBase(cat, t0, n)
    case Some(Derived(d)) => d < s && NameTrail(S, cat, d, n, hops, t, c)
  }

  /** From a projection, through a column at a place of it. */
  ghost predicate ProjectionTrail(S: Scopes, cat: Catalog, s: nat, p: Projection, hops: seq<Hop>, t: Table, c: Name)
    decreases s, 3
  {
    hops != [] && hops[0].scope == s && hops[0].p == p
    && exists a, n :: IsColumnAt(p.e, hops[0].path, a, n) && ColumnTrail(S, cat, s, a, n, hops[1..], t, c)
  }

  /** From a scope's output of a name: a SELECT's first projection of it, or, in a set operation, every branch's at the place
      the first branch has it. */
  ghost predicate NameTrail(S: Scopes, cat: Catalog, s: nat, n: Name, hops: seq<Hop>, t: Table, c: Name)
    decreases s, 6
  {
    s < |S| && match S[s]
    case Star(_) => false
    case Select(ps, _, _) => exists i: nat :: FirstNamed(ps, n, i) && ProjectionTrail(S, cat, s, ps[i], hops, t, c)
    case SetOperation(_) => exists i: nat :: FirstNamed(NamesOf(S, s), n, i) && BranchTrail(S, cat, s, i, hops, t, c)
  }

  ghost predicate FirstNamed(ps: seq<Projection>, n: Name, i: nat) {
    i < |ps| && ps[i].name == n && forall k :: 0 <= k < i ==> ps[k].name != n
  }

  ghost predicate BranchTrail(S: Scopes, cat: Catalog, s: nat, i: nat, hops: seq<Hop>, t: Table, c: Name)
    decreases s, 4
  {
    exists b :: b in Leaves(S, s) && b < s && PlaceTrail(S, cat, b, i, hops, t, c)
  }

  /** From a scope's i-th output. */
  ghost predicate PlaceTrail(S: Scopes, cat: Catalog, s: nat, i: nat, hops: seq<Hop>, t: Table, c: Name)
    decreases s, 5
  {
    s < |S| && match S[s]
    case Select(ps, _, _) => i < |ps| && ProjectionTrail(S, cat, s, ps[i], hops, t, c)
    case SetOperation(_) => BranchTrail(S, cat, s, i, hops, t, c)
    case Star(Derived(d)) => d < s && PlaceTrail(S, cat, d, i, hops, t, c)
    case Star(Base(t0)) => hops == [] && t == t0 && t0 in cat.columns && i < |cat.columns[t0]| && c == cat.columns[t0][i]
  }

  // ---- what a trail says

  ghost function TrailKind(hops: seq<Hop>): Kind {
    if hops == [] then Direct
    else if Rank(HopKind(hops[0].p)) > Rank(TrailKind(hops[1..])) then HopKind(hops[0].p)
    else TrailKind(hops[1..])
  }

  function TrailFns(hops: seq<Hop>): seq<Fn> {
    if hops == [] then [] else Fns(hops[0].p.e) + TrailFns(hops[1..])
  }

  /** Some hop's place only steers. */
  ghost predicate Marked(hops: seq<Hop>) {
    exists k :: 0 <= k < |hops| && Steers(hops[k].p.e, hops[k].path)
  }

  ghost function OriginOf(t: Table, c: Name, hops: seq<Hop>): Origin {
    Origin(t, c, TrailKind(hops), TrailFns(hops), Marked(hops))
  }

  lemma {:induction false} TrailKindIs(hops: seq<Hop>)
    ensures forall k :: 0 <= k < |hops| ==> Rank(HopKind(hops[k].p)) <= Rank(TrailKind(hops))
    ensures TrailKind(hops) == Direct || exists k :: 0 <= k < |hops| && HopKind(hops[k].p) == TrailKind(hops)
  {
    hide HopKind;
    if hops != [] {
      TrailKindIs(hops[1..]);
      assert forall k :: 1 <= k < |hops| ==> hops[k] == hops[1..][k - 1];
      assert forall k :: 0 <= k < |hops[1..]| ==> hops[1..][k] == hops[k + 1];
    }
  }

  lemma MarkedStep(hops: seq<Hop>)
    requires hops != []
    ensures Marked(hops) <==> Steers(hops[0].p.e, hops[0].path) || Marked(hops[1..])
  {
    hide Steers;
    if k :| 0 <= k < |hops| && Steers(hops[k].p.e, hops[k].path) {
      assert k > 0 ==> hops[1..][k - 1] == hops[k];
    }
    if k :| 0 <= k < |hops[1..]| && Steers(hops[1..][k].p.e, hops[1..][k].path) {
      assert hops[k + 1] == hops[1..][k];
    }
  }

  /** A hop more carries what the rest of the trail says. */
  lemma CarriedOf(t: Table, c: Name, hops: seq<Hop>, o: Origin)
    requires hops != []
    ensures o == OriginOf(t, c, hops) <==> Carried(hops[0].p, hops[0].path, OriginOf(t, c, hops[1..]), o)
  {
    hide Steers, HopKind, Fns, Marked;
    MarkedStep(hops);
  }

  // ---- the trace is the trails

  ghost predicate Says(o: Origin, t: Table, c: Name, hops: seq<Hop>) {
    o == OriginOf(t, c, hops)
  }

  lemma BaseIs(cat: Catalog, t: Table, n: Name, o: Origin)
    ensures o in BaseOrigins(cat, t, n) <==> IsBase(cat, t, n) && Says(o, t, n, [])
  {
    assert !Marked([]);
  }

  lemma {:induction false} ColumnIs(S: Scopes, cat: Catalog, s: nat, a: Alias, n: Name, o: Origin)
    ensures o in TraceColumn(S, cat, s, a, n) <==> exists hops :: ColumnTrail(S, cat, s, a, n, hops, o.table, o.column) && Says(o, o.table, o.column, hops)
    decreases s, 1
  {
    hide OriginOf, NameTrail, TraceDerived, IsBase, BaseOrigins;
    match FindSource(S, s, a)
    case None =>
    case Some(Base(t)) =>
      BaseIs(cat, t, n, o);
      assert o in TraceColumn(S, cat, s, a, n) ==> Says(o, o.table, o.column, []) && ColumnTrail(S, cat, s, a, n, [], o.table, o.column) by {
        BaseNames(cat, t, n, o);
      }
    case Some(Derived(d)) =>
      if d < s {
        NameIs(S, cat, d, n, o);
        assert forall hops :: ColumnTrail(S, cat, s, a, n, hops, o.table, o.column) <==> NameTrail(S, cat, d, n, hops, o.table, o.column);
      }
  }

  lemma BaseNames(cat: Catalog, t: Table, n: Name, o: Origin)
    ensures o in BaseOrigins(cat, t, n) ==> o.table == t && o.column == n
  {
  }

  lemma {:induction false} ProjectionIs(S: Scopes, cat: Catalog, s: nat, p: Projection, o: Origin)
    ensures o in Renamed(p, TraceExpr(S, cat, s, p.e)) <==>
              exists hops :: ProjectionTrail(S, cat, s, p, hops, o.table, o.column) && Says(o, o.table, o.column, hops)
    decreases s, 3
  {
    hide OriginOf, ColumnTrail, TraceColumn, TraceExpr, Renamed, At, Carried;
    OneHop(S, cat, s, p, o);
    if o in Renamed(p, TraceExpr(S, cat, s, p.e)) {
      var path, a, n, b :| ComesBy(S, cat, s, p, path, a, n, b, o);
      ColumnIs(S, cat, s, a, n, b);
      var rest :| ColumnTrail(S, cat, s, a, n, rest, b.table, b.column) && Says(b, b.table, b.column, rest);
      var hops := [Hop(s, p, path)] + rest;
      assert hops[1..] == rest;
      CarriedSame(p, path, b, o);
      CarriedOf(o.table, o.column, hops, o);
      assert ProjectionTrail(S, cat, s, p, hops, o.table, o.column) && Says(o, o.table, o.column, hops);
    }
    if hops: seq<Hop> :| ProjectionTrail(S, cat, s, p, hops, o.table, o.column) && Says(o, o.table, o.column, hops) {
      var a, n :| IsColumnAt(p.e, hops[0].path, a, n) && ColumnTrail(S, cat, s, a, n, hops[1..], o.table, o.column);
      var b := OriginOf(o.table, o.column, hops[1..]);
      OriginNames(o.table, o.column, hops[1..]);
      CarriedOf(o.table, o.column, hops, o);
      ColumnIs(S, cat, s, a, n, b);
      assert Says(b, b.table, b.column, hops[1..]);
      assert ComesBy(S, cat, s, p, hops[0].path, a, n, b, o);
    }
  }

  lemma OriginNames(t: Table, c: Name, hops: seq<Hop>)
    ensures OriginOf(t, c, hops).table == t && OriginOf(t, c, hops).column == c
  {
  }

  lemma CarriedSame(p: Projection, path: seq<nat>, b: Origin, o: Origin)
    requires Carried(p, path, b, o)
    ensures o.table == b.table && o.column == b.column
  {
  }

  lemma {:induction false} FirstIs(ps: seq<Projection>, n: Name, i: nat)
    ensures FirstNamed(ps, n, i) <==> i < |ps| && i == IndexOf(ps, n)
  {
    if ps != [] && ps[0].name != n {
      if i > 0 {
        FirstIs(ps[1..], n, i - 1);
        assert FirstNamed(ps, n, i) <==> FirstNamed(ps[1..], n, i - 1) by {
          assert forall k :: 1 <= k < |ps| ==> ps[k] == ps[1..][k - 1];
          assert forall k :: 0 <= k < |ps[1..]| ==> ps[1..][k] == ps[k + 1];
        }
      }
    }
  }

  lemma {:induction false} NameIs(S: Scopes, cat: Catalog, s: nat, n: Name, o: Origin)
    ensures o in TraceDerived(S, cat, s, n) <==> exists hops :: NameTrail(S, cat, s, n, hops, o.table, o.column) && Says(o, o.table, o.column, hops)
    decreases s, 6
  {
    hide OriginOf, Says, ProjectionTrail, BranchTrail, TraceExpr, Renamed, TraceLeaves, FirstNamed;
    if s < |S| && !S[s].Star? {
      var ps := if S[s].Select? then S[s].projections else NamesOf(S, s);
      var i := IndexOf(ps, n);
      forall k: nat
        ensures FirstNamed(ps, n, k) <==> k < |ps| && k == i
      {
        FirstIs(ps, n, k);
      }
      if i < |ps| {
        if S[s].Select? {
          ProjectionIs(S, cat, s, ps[i], o);
          forall hops
            ensures NameTrail(S, cat, s, n, hops, o.table, o.column) <==> ProjectionTrail(S, cat, s, ps[i], hops, o.table, o.column)
          {
            assert FirstNamed(ps, n, i);
          }
        } else {
          BranchesAre(S, cat, s, i, o);
          forall hops
            ensures NameTrail(S, cat, s, n, hops, o.table, o.column) <==> BranchTrail(S, cat, s, i, hops, o.table, o.column)
          {
            assert FirstNamed(ps, n, i);
          }
        }
      }
    }
  }

  lemma {:induction false} BranchesAre(S: Scopes, cat: Catalog, s: nat, i: nat, o: Origin)
    requires s < |S| && S[s].SetOperation?
    ensures o in TraceLeaves(S, cat, s, Leaves(S, s), i) <==> exists hops :: BranchTrail(S, cat, s, i, hops, o.table, o.column) && Says(o, o.table, o.column, hops)
    decreases s, 4
  {
    hide OriginOf, Says, PlaceTrail, Positional, TraceLeaves, Leaves;
    forall b: nat | b < s
      ensures o in Positional(S, cat, b, i) <==> exists hops :: PlaceTrail(S, cat, b, i, hops, o.table, o.column) && Says(o, o.table, o.column, hops)
    {
      PlaceIs(S, cat, b, i, o);
    }
    LeavesHave(S, cat, s, Leaves(S, s), i, o);
    if b: nat :| b in Leaves(S, s) && b < s && o in Positional(S, cat, b, i) {
      var hops :| PlaceTrail(S, cat, b, i, hops, o.table, o.column) && Says(o, o.table, o.column, hops);
      assert BranchTrail(S, cat, s, i, hops, o.table, o.column);
    }
    if hops :| BranchTrail(S, cat, s, i, hops, o.table, o.column) && Says(o, o.table, o.column, hops) {
      var b :| b in Leaves(S, s) && b < s && PlaceTrail(S, cat, b, i, hops, o.table, o.column);
      assert o in Positional(S, cat, b, i);
    }
  }

  lemma {:induction false} LeavesHave(S: Scopes, cat: Catalog, s: nat, leaves: seq<nat>, i: nat, o: Origin)
    ensures o in TraceLeaves(S, cat, s, leaves, i) <==> exists b: nat :: b in leaves && b < s && o in Positional(S, cat, b, i)
  {
    hide Positional;
    if leaves != [] {
      LeavesHave(S, cat, s, leaves[1..], i, o);
      assert leaves == [leaves[0]] + leaves[1..];
      assert TraceLeaves(S, cat, s, leaves, i)
          == (if leaves[0] < s then Positional(S, cat, leaves[0], i) else []) + TraceLeaves(S, cat, s, leaves[1..], i);
      assert forall b :: b in leaves[1..] ==> b in leaves;
      assert leaves[0] in leaves;
    }
  }

  /** An output's origins are exactly what its trails say: each of a trail's base column, of the greatest of its hops' kinds,
      with their functions in order, and marked exactly when some hop on the way steers. */
  lemma {:induction false} PlaceIs(S: Scopes, cat: Catalog, s: nat, i: nat, o: Origin)
    ensures o in Positional(S, cat, s, i) <==> exists hops :: PlaceTrail(S, cat, s, i, hops, o.table, o.column) && Says(o, o.table, o.column, hops)
    decreases s, 5
  {
    hide OriginOf, ProjectionTrail, BranchTrail, TraceExpr, Renamed, TraceLeaves, BaseOrigins;
    if s < |S| {
      match S[s]
      case Select(ps, _, _) =>
        if i < |ps| {
          ProjectionIs(S, cat, s, ps[i], o);
          assert forall hops :: PlaceTrail(S, cat, s, i, hops, o.table, o.column) <==> ProjectionTrail(S, cat, s, ps[i], hops, o.table, o.column);
        }
      case SetOperation(_) =>
        BranchesAre(S, cat, s, i, o);
        assert forall hops :: PlaceTrail(S, cat, s, i, hops, o.table, o.column) <==> BranchTrail(S, cat, s, i, hops, o.table, o.column);
      case Star(Derived(d)) =>
        if d < s {
          PlaceIs(S, cat, d, i, o);
          assert forall hops :: PlaceTrail(S, cat, s, i, hops, o.table, o.column) <==> PlaceTrail(S, cat, d, i, hops, o.table, o.column);
        }
      case Star(Base(t)) =>
        if t in cat.columns && i < |cat.columns[t]| {
          var c := cat.columns[t][i];
          BaseIs(cat, t, c, o);
          BaseNames(cat, t, c, o);
          assert IsBase(cat, t, c);
          assert forall hops :: PlaceTrail(S, cat, s, i, hops, o.table, o.column) <==> hops == [] && o.table == t && o.column == c;
        }
    }
  }
}
