/** Which columns only steer a value: every origin of an expression comes of one place in it, and is marked exactly
    when that place is in the condition of an IF, the keys of an ORDER BY or the parts of a window strictly inside. */
module Steering {
  import opened Options
  import opened Lineage

  // ---- places in an expression

  function Kids(e: Expr): seq<Expr> {
    match e
    case Col(_, _) => []
    case Const(_, _) => []
    case Call(_, args) => args
    case Arith(_, l, r) => [l, r]
    case If(c, y, n) => [c, y, n]
    case Agg(_, x) => [x]
    case Order(x, keys) => (if x.Some? then [x.value] else []) + keys
    case Window(x, parts) => [x] + parts
  }

  /** An operand that only steers the value: an IF's condition, an ORDER BY's key, a part of a window. */
  predicate Controls(e: Expr, i: nat) {
    match e
    case If(_, _, _) => i == 0
    case Order(x, _) => x.None? || i > 0
    case Window(_, _) => i > 0
    case _ => false
  }

  /** The part of an expression a path of operands leads to. */
  function At(e: Expr, path: seq<nat>): Option<Expr>
    decreases |path|
  {
    if path == [] then Some(e)
    else if path[0] < |Kids(e)| then At(Kids(e)[path[0]], path[1..])
    else None
  }

  /** The path's first `k` steps lead to an expression, and the next into an operand that only steers it. */
  predicate IntoControl(e: Expr, path: seq<nat>, k: nat) {
    k < |path| && At(e, path[..k]).Some? && Controls(At(e, path[..k]).value, path[k])
  }

  ghost predicate SteersFrom(e: Expr, path: seq<nat>, first: nat) {
    exists k: nat :: first <= k && IntoControl(e, path, k)
  }

  /** The place is in an operand that only steers, of something strictly inside the expression. */
  ghost predicate Steers(e: Expr, path: seq<nat>) {
    SteersFrom(e, path, 1)
  }

  lemma NextStep(e: Expr, i: nat, path: seq<nat>, k: nat)
    requires i < |Kids(e)|
    ensures At(e, [i] + path) == At(Kids(e)[i], path)
    ensures IntoControl(e, [i] + path, 0) <==> Controls(e, i)
    ensures IntoControl(e, [i] + path, k + 1) <==> IntoControl(Kids(e)[i], path, k)
  {
    assert ([i] + path)[1..] == path;
    assert ([i] + path)[..0] == [];
    if k <= |path| {
      assert ([i] + path)[..k + 1] == [i] + path[..k];
      assert ([i] + path[..k])[1..] == path[..k];
    }
  }

  /** One step down: below an operand that steers everything does, when it counts. */
  lemma StepSteers(e: Expr, i: nat, path: seq<nat>, under: bool)
    requires i < |Kids(e)|
    ensures SteersFrom(e, [i] + path, if under then 0 else 1) <==> (under && Controls(e, i)) || SteersFrom(Kids(e)[i], path, 0)
  {
    hide IntoControl, At;
    var first := if under then 0 else 1;
    if SteersFrom(e, [i] + path, first) {
      var k: nat :| first <= k && IntoControl(e, [i] + path, k);
      NextStep(e, i, path, if k == 0 then 0 else k - 1);
    }
    if under && Controls(e, i) {
      NextStep(e, i, path, 0);
      assert IntoControl(e, [i] + path, 0);
    }
    if SteersFrom(Kids(e)[i], path, 0) {
      var k: nat :| 0 <= k && IntoControl(Kids(e)[i], path, k);
      NextStep(e, i, path, k);
      assert IntoControl(e, [i] + path, k + 1);
    }
  }

  // ---- the columns the tracer finds, and the places they are at

  function KidColumns(e: Expr, under: bool, steers: bool, i: nat): seq<(Alias, Name, bool)>
    requires i < |Kids(e)|
  {
    Columns(Kids(e)[i], true, steers || (under && Controls(e, i)))
  }

  lemma {:induction false} ArgColumns(es: seq<Expr>, steers: bool, c: (Alias, Name, bool))
    ensures c in ColumnsOf(es, steers) <==> exists i :: 0 <= i < |es| && c in Columns(es[i], true, steers)
  {
    if es != [] {
      ArgColumns(es[1..], steers, c);
      assert forall i :: 0 <= i < |es[1..]| ==> es[1..][i] == es[i + 1];
      if exists i :: 0 <= i < |es| && c in Columns(es[i], true, steers) {
        var i :| 0 <= i < |es| && c in Columns(es[i], true, steers);
        assert i > 0 ==> c in Columns(es[1..][i - 1], true, steers);
      }
    }
  }

  lemma OrderByKid(e: Expr, under: bool, steers: bool, c: (Alias, Name, bool))
    requires e.Order?
    ensures c in Columns(e, under, steers) <==> exists i :: 0 <= i < |Kids(e)| && c in KidColumns(e, under, steers, i)
  {
    var first := if e.what.Some? then 1 else 0;
    ArgColumns(e.keys, steers || under, c);
    KeyColumns(e, under, steers, first, e.keys, c);
    assert first == 1 ==> KidColumns(e, under, steers, 0) == Columns(e.what.value, true, steers);
  }

  lemma WindowByKid(e: Expr, under: bool, steers: bool, c: (Alias, Name, bool))
    requires e.Window?
    ensures c in Columns(e, under, steers) <==> exists i :: 0 <= i < |Kids(e)| && c in KidColumns(e, under, steers, i)
  {
    ArgColumns(e.parts, steers || under, c);
    KeyColumns(e, under, steers, 1, e.parts, c);
    assert KidColumns(e, under, steers, 0) == Columns(e.over, true, steers);
  }

  /** The operands from one on all steer. */
  lemma KeyColumns(e: Expr, under: bool, steers: bool, first: nat, keys: seq<Expr>, c: (Alias, Name, bool))
    requires first <= |Kids(e)| && Kids(e)[first..] == keys && forall i :: first <= i < |Kids(e)| ==> Controls(e, i)
    ensures (exists i :: 0 <= i < |keys| && c in Columns(keys[i], true, steers || under))
            <==> exists i :: first <= i < |Kids(e)| && c in KidColumns(e, under, steers, i)
  {
    hide Columns;
    forall i | 0 <= i < |keys|
      ensures KidColumns(e, under, steers, first + i) == Columns(keys[i], true, steers || under)
    {
      assert Kids(e)[first + i] == keys[i];
    }
    if i :| first <= i < |Kids(e)| && c in KidColumns(e, under, steers, i) {
      assert KidColumns(e, under, steers, first + (i - first)) == Columns(keys[i - first], true, steers || under);
    }
  }

  lemma ColumnsByKid(e: Expr, under: bool, steers: bool, c: (Alias, Name, bool))
    requires !e.Col?
    ensures c in Columns(e, under, steers) <==> exists i :: 0 <= i < |Kids(e)| && c in KidColumns(e, under, steers, i)
  {
    match e
    case Const(_, _) =>
    case Call(_, args) =>
      ArgColumns(args, steers, c);
      assert forall i :: 0 <= i < |args| ==> KidColumns(e, under, steers, i) == Columns(args[i], true, steers);
    case Arith(_, l, r) =>
      assert c in Columns(e, under, steers) <==> c in KidColumns(e, under, steers, 0) || c in KidColumns(e, under, steers, 1);
    case Order(x, keys) => OrderByKid(e, under, steers, c);
    case Window(x, parts) => WindowByKid(e, under, steers, c);
    case If(x, y, n) =>
      assert c in Columns(e, under, steers) <==>
        c in KidColumns(e, under, steers, 0) || c in KidColumns(e, under, steers, 1) || c in KidColumns(e, under, steers, 2);
    case Agg(_, x) => assert KidColumns(e, under, steers, 0) == Columns(e, under, steers);
  }

  /** A column's place in the expression, and its mark there. */
  ghost predicate IsPlace(e: Expr, path: seq<nat>, under: bool, steers: bool, c: (Alias, Name, bool)) {
    At(e, path) == Some(Col(c.0, c.1)) && c.2 == (steers || SteersFrom(e, path, if under then 0 else 1))
  }

  lemma {:induction false} PlaceOf(e: Expr, under: bool, steers: bool, c: (Alias, Name, bool)) returns (path: seq<nat>)
    requires c in Columns(e, under, steers)
    ensures IsPlace(e, path, under, steers, c)
    decreases e
  {
    hide KidColumns, SteersFrom, Columns;
    if e.Col? {
      path := [];
      AtColumn(e, under, steers, c);
    } else {
      ColumnsByKid(e, under, steers, c);
      var i :| 0 <= i < |Kids(e)| && c in KidColumns(e, under, steers, i);
      var below := KidPlace(e, under, steers, i, c);
      path := [i] + below;
      NextStep(e, i, below, 0);
      StepSteers(e, i, below, under);
    }
  }

  lemma {:induction false} KidPlace(e: Expr, under: bool, steers: bool, i: nat, c: (Alias, Name, bool)) returns (path: seq<nat>)
    requires i < |Kids(e)| && c in KidColumns(e, under, steers, i)
    ensures IsPlace(Kids(e)[i], path, true, steers || (under && Controls(e, i)), c)
    decreases e, 0
  {
    hide Columns;
    path := PlaceOf(Kids(e)[i], true, steers || (under && Controls(e, i)), c);
  }

  lemma AtColumn(e: Expr, under: bool, steers: bool, c: (Alias, Name, bool))
    requires e.Col?
    ensures c in Columns(e, under, steers) <==> c == (e.alias, e.name, steers)
    ensures forall path :: At(e, path).Some? ==> path == []
    ensures !SteersFrom(e, [], 0) && !SteersFrom(e, [], 1)
  {
  }

  lemma {:induction false} ColumnAt(e: Expr, path: seq<nat>, under: bool, steers: bool, c: (Alias, Name, bool))
    requires IsPlace(e, path, under, steers, c)
    ensures c in Columns(e, under, steers)
    decreases |path|
  {
    hide SteersFrom, Columns;
    if e.Col? {
      AtColumn(e, under, steers, c);
    } else if path != [] {
      var i, below := path[0], path[1..];
      assert path == [i] + below;
      NextStep(e, i, below, 0);
      StepSteers(e, i, below, under);
      ColumnAt(Kids(e)[i], below, true, steers || (under && Controls(e, i)), c);
      ColumnsByKid(e, under, steers, c);
      assert c in KidColumns(e, under, steers, i);
    }
  }

  /** Every expression: a column is marked exactly where it is in an operand that only steers, of something strictly inside. */
  lemma MarkedExactly(e: Expr, a: Alias, n: Name, mark: bool)
    ensures (a, n, mark) in Columns(e, false, false) <==> exists path :: At(e, path) == Some(Col(a, n)) && mark == Steers(e, path)
  {
    hide At, Columns;
    if (a, n, mark) in Columns(e, false, false) {
      var path := PlaceOf(e, false, false, (a, n, mark));
      assert At(e, path) == Some(Col(a, n)) && mark == Steers(e, path);
    }
    if path :| At(e, path) == Some(Col(a, n)) && mark == Steers(e, path) {
      ColumnAt(e, path, false, false, (a, n, mark));
    }
  }

  // ---- the trace

  lemma {:induction false} TracedColumn(S: Scopes, cat: Catalog, s: nat, cols: seq<(Alias, Name, bool)>, kind: Kind, fns: seq<Fn>, o: Origin)
    ensures o in TraceColumns(S, cat, s, cols, kind, fns) <==>
              exists c, b :: c in cols && b in TraceColumn(S, cat, s, c.0, c.1) && o == b.Via(kind, fns, c.2)
    decreases |cols|
  {
    hide TraceColumn;
    if cols != [] {
      TracedColumn(S, cat, s, cols[1..], kind, fns, o);
      var os := TraceColumn(S, cat, s, cols[0].0, cols[0].1);
      TaggedHas(os, kind, fns, cols[0].2, o);
      assert cols == [cols[0]] + cols[1..];
    }
  }

  lemma TaggedHas(os: seq<Origin>, kind: Kind, fns: seq<Fn>, control: bool, o: Origin)
    ensures o in Tag(os, kind, fns, control) <==> exists b :: b in os && o == b.Via(kind, fns, control)
  {
    var tagged := Tag(os, kind, fns, control);
    if b :| b in os && o == b.Via(kind, fns, control) {
      var i :| 0 <= i < |os| && os[i] == b;
      assert tagged[i] == o;
    }
    if o in tagged {
      var i :| 0 <= i < |tagged| && tagged[i] == o;
      assert os[i] in os;
    }
  }

  /** An origin of the column at a place of the expression, as the expression leaves it: of the same base column; marked if it
      was or the place steers; of the greater kind; with the expression's functions before its own. */
  ghost predicate Comes(S: Scopes, cat: Catalog, s: nat, e: Expr, path: seq<nat>, b: Origin, o: Origin) {
    && At(e, path).Some? && At(e, path).value.Col?
    && b in TraceColumn(S, cat, s, At(e, path).value.alias, At(e, path).value.name)
    && o.table == b.table && o.column == b.column
    && (o.control <==> b.control || Steers(e, path))
    && o.kind == (if Rank(KindOf(e)) > Rank(b.kind) then KindOf(e) else b.kind)
    && o.fns == Fns(e) + b.fns
  }

  /** The trace of an expression: its origins are exactly those of the columns at its places, as the expression leaves them. */
  lemma TraceMarks(S: Scopes, cat: Catalog, s: nat, e: Expr, o: Origin)
    ensures o in TraceExpr(S, cat, s, e) <==> exists path, b :: Comes(S, cat, s, e, path, b, o)
  {
    hide TraceColumn, TraceColumns, Columns, At, KindOf, Fns, Steers;
    TracedColumn(S, cat, s, Columns(e, false, false), KindOf(e), Fns(e), o);
    if o in TraceExpr(S, cat, s, e) {
      var c, b :| c in Columns(e, false, false) && b in TraceColumn(S, cat, s, c.0, c.1) && o == b.Via(KindOf(e), Fns(e), c.2);
      MarkedExactly(e, c.0, c.1, c.2);
      var path :| At(e, path) == Some(Col(c.0, c.1)) && c.2 == Steers(e, path);
      assert Comes(S, cat, s, e, path, b, o);
    }
    if path, b :| Comes(S, cat, s, e, path, b, o) {
      var col := At(e, path).value;
      MarkedExactly(e, col.alias, col.name, Steers(e, path));
      var c := (col.alias, col.name, Steers(e, path));
      assert c in Columns(e, false, false) && o == b.Via(KindOf(e), Fns(e), c.2);
    }
  }
}
