/** What lineage means: a value depends on the base columns in its trace alone, and a copied one is a base cell. */
module Depends {
  import opened Options
  import opened Lineage

  /** The base tables' cells, by table, row and column; what column is at a place of a table the catalogue does not know; and
      what functions, aggregates, orders and windows make of values. */
  datatype Meaning = Meaning(cell: (Table, nat, Name) -> int, nth: (Table, nat) -> Name, fns: Making)
  datatype Making = Making(call: (nat, seq<int>) -> int, arith: (ArithOp, int, int) -> int, agg: (nat, seq<int>) -> int, order: seq<int> -> int,
                           window: (int, seq<int>, seq<int>, seq<seq<int>>) -> int)

  /** How a scope's output row came to be: the rows it groups, each with a row of every source, and the groups of all the
      scope's outputs, which its windows see; the one row a star passes on; or a leaf of a set operation and that leaf's
      own. */
  datatype Row = Grouped(rows: seq<Joined>, groups: seq<seq<Joined>>) | Starred(src: From) | Taken(leaf: nat, row: Row)
  datatype Joined = Joined(froms: seq<Bound>)
  datatype Bound = Bound(alias: Alias, src: From)
  datatype From = BaseRow(row: nat) | ScopeRow(from: Row) | Nowhere

  function Lookup(froms: seq<Bound>, a: Alias): From {
    if froms == [] then Nowhere else if froms[0].alias == a then froms[0].src else Lookup(froms[1..], a)
  }

  predicate Known(cat: Catalog, t: Table, n: Name) {
    BaseOrigins(cat, t, n) != []
  }

  /** The catalogue says the table has no such column. */
  predicate Lacks(cat: Catalog, t: Table, n: Name) {
    t in cat.columns && n !in cat.columns[t]
  }

  predicate KnownTable(cat: Catalog, t: Table) {
    t in cat.columns || t in cat.transient
  }

  // ---- the value of a scope's output, for one of its rows

  function BaseValue(m: Meaning, cat: Catalog, t: Table, f: From, n: Name): int {
    if f.BaseRow? && !Lacks(cat, t, n) then m.cell(t, f.row, n) else 0
  }

  /** The i-th column: the catalogue's, or, of a table it does not list, whatever is there. */
  function NthValue(m: Meaning, cat: Catalog, t: Table, f: From, i: nat): int {
    if t !in cat.columns then BaseValue(m, cat, t, f, m.nth(t, i))
    else if i < |cat.columns[t]| then BaseValue(m, cat, t, f, cat.columns[t][i])
    else 0
  }

  function First(rows: seq<Joined>): Joined {
    if rows == [] then Joined([]) else rows[0]
  }

  function ColumnValue(m: Meaning, S: Scopes, cat: Catalog, s: nat, a: Alias, n: Name, j: Joined): int
    decreases s, 1, 0
  {
    match FindSource(S, s, a)
    case None => 0
    case Some(Base(t)) => BaseValue(m, cat, t, Lookup(j.froms, a), n)
    case Some(Derived(d)) => if d < s && Lookup(j.froms, a).ScopeRow? then NameValue(m, S, cat, d, Lookup(j.froms, a).from, n) else 0
  }

  function ExprValue(m: Meaning, S: Scopes, cat: Catalog, s: nat, e: Expr, rows: seq<Joined>, j: Joined, groups: seq<seq<Joined>>): int
    decreases s, 2, e
  {
    match e
    case Col(a, n) => ColumnValue(m, S, cat, s, a, n, j)
    case Const(v, _) => v
    case Call(f, args) => m.fns.call(f, seq(|args|, i requires 0 <= i < |args| => ExprValue(m, S, cat, s, args[i], rows, j, groups)))
    case Arith(op, l, r) => m.fns.arith(op, ExprValue(m, S, cat, s, l, rows, j, groups), ExprValue(m, S, cat, s, r, rows, j, groups))
    case If(c, y, n) =>
      if ExprValue(m, S, cat, s, c, rows, j, groups) == 1 then ExprValue(m, S, cat, s, y, rows, j, groups) else ExprValue(m, S, cat, s, n, rows, j, groups)
    case Agg(f, x) => m.fns.agg(f, seq(|rows|, i requires 0 <= i < |rows| => ExprValue(m, S, cat, s, x, [rows[i]], rows[i], groups)))
    case Order(x, keys) =>
      m.fns.order((if x.Some? then [ExprValue(m, S, cat, s, x.value, rows, j, groups)] else [])
                + seq(|keys|, i requires 0 <= i < |keys| => ExprValue(m, S, cat, s, keys[i], rows, j, groups)))
    case Window(x, parts) =>
      m.fns.window(ExprValue(m, S, cat, s, x, rows, j, groups),
                   seq(|parts|, i requires 0 <= i < |parts| => ExprValue(m, S, cat, s, parts[i], rows, j, groups)),
                   seq(|groups|, k requires 0 <= k < |groups| => ExprValue(m, S, cat, s, x, groups[k], First(groups[k]), groups)),
                   seq(|parts|, i requires 0 <= i < |parts| =>
                     seq(|groups|, k requires 0 <= k < |groups| => ExprValue(m, S, cat, s, parts[i], groups[k], First(groups[k]), groups))))
  }

  function ProjectionValue(m: Meaning, S: Scopes, cat: Catalog, s: nat, p: Projection, row: Row): int
    decreases s, 3, 0
  {
    if row.Grouped? && row.rows != [] then ExprValue(m, S, cat, s, p.e, row.rows, row.rows[0], row.groups) else 0
  }

  /** By name. A star passes its source's names on. */
  function NameValue(m: Meaning, S: Scopes, cat: Catalog, s: nat, row: Row, n: Name): int
    decreases s, 5, 0
  {
    if s >= |S| then 0
    else
      match S[s]
      case Select(ps, _, _) => if IndexOf(ps, n) < |ps| then ProjectionValue(m, S, cat, s, ps[IndexOf(ps, n)], row) else 0
      case SetOperation(_) => if IndexOf(NamesOf(S, s), n) < |NamesOf(S, s)| then PlaceValue(m, S, cat, s, row, IndexOf(NamesOf(S, s), n)) else 0
      case Star(Base(t)) => if row.Starred? then BaseValue(m, cat, t, row.src, n) else 0
      case Star(Derived(d)) => if d < s && row.Starred? && row.src.ScopeRow? then NameValue(m, S, cat, d, row.src.from, n) else 0
  }

  /** By place. */
  function PlaceValue(m: Meaning, S: Scopes, cat: Catalog, s: nat, row: Row, i: nat): int
    decreases s, 4, 0
  {
    if s >= |S| then 0
    else
      match S[s]
      case Select(ps, _, _) => if i < |ps| then ProjectionValue(m, S, cat, s, ps[i], row) else 0
      case SetOperation(_) =>
        if row.Taken? && row.leaf < |Leaves(S, s)| then
          assert Leaves(S, s)[row.leaf] in Leaves(S, s);
          PlaceValue(m, S, cat, Leaves(S, s)[row.leaf], row.row, i)
        else 0
      case Star(Base(t)) =>
        if row.Starred? then NthValue(m, cat, t, row.src, i) else 0
      case Star(Derived(d)) => if d < s && row.Starred? && row.src.ScopeRow? then PlaceValue(m, S, cat, d, row.src.from, i) else 0
  }

  // ---- dependence

  /** Two databases with the same functions, and the same cells in every column of the origins. */
  ghost predicate AgreeOn(m: Meaning, w: Meaning, os: seq<Origin>) {
    m.nth == w.nth && m.fns == w.fns && forall o, r: nat :: o in os ==> m.cell(o.table, r, o.column) == w.cell(o.table, r, o.column)
  }

  lemma AgreeOnTag(m: Meaning, w: Meaning, os: seq<Origin>, kind: Kind, fns: seq<Fn>, control: bool)
    requires AgreeOn(m, w, Tag(os, kind, fns, control))
    ensures AgreeOn(m, w, os)
  {
    forall o, r: nat | o in os
      ensures m.cell(o.table, r, o.column) == w.cell(o.table, r, o.column)
    {
      var i :| 0 <= i < |os| && os[i] == o;
      assert Tag(os, kind, fns, control)[i] == o.Via(kind, fns, control);
    }
  }

  lemma AgreeOnPart(m: Meaning, w: Meaning, xs: seq<Origin>, ys: seq<Origin>)
    requires AgreeOn(m, w, xs + ys)
    ensures AgreeOn(m, w, xs) && AgreeOn(m, w, ys)
  {
    forall o | o in xs || o in ys
      ensures o in xs + ys
    {
    }
  }

  /** A column read by name is of a SELECT, or of a set operation whose first branch is one: no star is left there. */
  ghost predicate StarsExpanded(S: Scopes) {
    forall s: nat, a: Alias, d: nat :: FindSource(S, s, a) == Some(Derived(d)) && d < |S| ==> !S[d].Star? && (S[d].SetOperation? ==> NamesOf(S, d) != [])
  }

  /** Every table read is one the catalogue knows, and one passed on by place is listed there. */
  ghost predicate TablesKnown(S: Scopes, cat: Catalog) {
    && (forall s: nat, a: Alias, t: Table :: FindSource(S, s, a) == Some(Base(t)) ==> KnownTable(cat, t))
    && (forall s: nat, t: Table :: s < |S| && S[s] == Star(Base(t)) ==> t in cat.columns)
  }

  lemma {:induction false} TraceColumnsHas(S: Scopes, cat: Catalog, s: nat, cols: seq<(Alias, Name, bool)>, kind: Kind, fns: seq<Fn>, k: nat, m: Meaning, w: Meaning)
    requires k < |cols| && AgreeOn(m, w, TraceColumns(S, cat, s, cols, kind, fns))
    ensures AgreeOn(m, w, TraceColumn(S, cat, s, cols[k].0, cols[k].1))
    decreases |cols|
  {
    hide TraceColumn;
    var first := TraceColumn(S, cat, s, cols[0].0, cols[0].1);
    AgreeOnPart(m, w, Tag(first, kind, fns, cols[0].2), TraceColumns(S, cat, s, cols[1..], kind, fns));
    if k == 0 {
      AgreeOnTag(m, w, first, kind, fns, cols[0].2);
    } else {
      TraceColumnsHas(S, cat, s, cols[1..], kind, fns, k - 1, m, w);
    }
  }

  /** The expression's columns have the same values in both. */
  ghost predicate ColumnsSame(m: Meaning, w: Meaning, S: Scopes, cat: Catalog, s: nat, cols: seq<(Alias, Name, bool)>) {
    forall c, j :: c in cols ==> ColumnValue(m, S, cat, s, c.0, c.1, j) == ColumnValue(w, S, cat, s, c.0, c.1, j)
  }

  lemma {:induction false} ColumnsOfArg(es: seq<Expr>, steers: bool, i: nat)
    requires i < |es|
    ensures forall c :: c in Columns(es[i], true, steers) ==> c in ColumnsOf(es, steers)
  {
    if i > 0 {
      ColumnsOfArg(es[1..], steers, i - 1);
    }
  }

  lemma {:induction false} SameColumnsSameValue(m: Meaning, w: Meaning, S: Scopes, cat: Catalog, s: nat, e: Expr, under: bool, steers: bool, rows: seq<Joined>, j: Joined, groups: seq<seq<Joined>>)
    requires m.fns == w.fns && ColumnsSame(m, w, S, cat, s, Columns(e, under, steers))
    ensures ExprValue(m, S, cat, s, e, rows, j, groups) == ExprValue(w, S, cat, s, e, rows, j, groups)
    decreases e, 1
  {
    hide ColumnValue;
    match e
    case Col(a, n) =>
      assert (a, n, steers) in Columns(e, under, steers);
    case Const(_, _) =>
    case Call(f, args) =>
      SameArgs(m, w, S, cat, s, e, args, steers, rows, j, groups);
    case Arith(_, l, r) =>
      SameColumnsSameValue(m, w, S, cat, s, l, true, steers, rows, j, groups);
      SameColumnsSameValue(m, w, S, cat, s, r, true, steers, rows, j, groups);
    case If(c, y, n) =>
      SameColumnsSameValue(m, w, S, cat, s, c, true, steers || under, rows, j, groups);
      SameColumnsSameValue(m, w, S, cat, s, y, true, steers, rows, j, groups);
      SameColumnsSameValue(m, w, S, cat, s, n, true, steers, rows, j, groups);
    case Agg(f, x) =>
      forall i | 0 <= i < |rows|
        ensures ExprValue(m, S, cat, s, x, [rows[i]], rows[i], groups) == ExprValue(w, S, cat, s, x, [rows[i]], rows[i], groups)
      {
        SameColumnsSameValue(m, w, S, cat, s, x, true, steers, [rows[i]], rows[i], groups);
      }
      assert seq(|rows|, i requires 0 <= i < |rows| => ExprValue(m, S, cat, s, x, [rows[i]], rows[i], groups))
          == seq(|rows|, i requires 0 <= i < |rows| => ExprValue(w, S, cat, s, x, [rows[i]], rows[i], groups));
    case Order(x, keys) =>
      if x.Some? {
        SameColumnsSameValue(m, w, S, cat, s, x.value, true, steers, rows, j, groups);
      }
      SameArgs(m, w, S, cat, s, e, keys, steers || under, rows, j, groups);
    case Window(x, parts) =>
      SameColumnsSameValue(m, w, S, cat, s, x, true, steers, rows, j, groups);
      SameArgs(m, w, S, cat, s, e, parts, steers || under, rows, j, groups);
      SameWindow(m, w, S, cat, s, e, under, steers, groups);
  }

  lemma {:induction false} SameArgs(m: Meaning, w: Meaning, S: Scopes, cat: Catalog, s: nat, e: Expr, args: seq<Expr>, steers: bool, rows: seq<Joined>, j: Joined, groups: seq<seq<Joined>>)
    requires m.fns == w.fns && ColumnsSame(m, w, S, cat, s, ColumnsOf(args, steers)) && forall i :: 0 <= i < |args| ==> args[i] < e
    ensures seq(|args|, i requires 0 <= i < |args| => ExprValue(m, S, cat, s, args[i], rows, j, groups))
         == seq(|args|, i requires 0 <= i < |args| => ExprValue(w, S, cat, s, args[i], rows, j, groups))
    decreases e, 0
  {
    hide ColumnValue, ExprValue;
    forall i | 0 <= i < |args|
      ensures ExprValue(m, S, cat, s, args[i], rows, j, groups) == ExprValue(w, S, cat, s, args[i], rows, j, groups)
    {
      ColumnsOfArg(args, steers, i);
      SameColumnsSameValue(m, w, S, cat, s, args[i], true, steers, rows, j, groups);
    }
  }

  /** What a window sees of the scope's groups. */
  lemma {:induction false} SameWindow(m: Meaning, w: Meaning, S: Scopes, cat: Catalog, s: nat, e: Expr, under: bool, steers: bool, groups: seq<seq<Joined>>)
    requires m.fns == w.fns && ColumnsSame(m, w, S, cat, s, Columns(e, under, steers)) && e.Window?
    ensures seq(|groups|, k requires 0 <= k < |groups| => ExprValue(m, S, cat, s, e.over, groups[k], First(groups[k]), groups))
         == seq(|groups|, k requires 0 <= k < |groups| => ExprValue(w, S, cat, s, e.over, groups[k], First(groups[k]), groups))
    ensures seq(|e.parts|, i requires 0 <= i < |e.parts| =>
              seq(|groups|, k requires 0 <= k < |groups| => ExprValue(m, S, cat, s, e.parts[i], groups[k], First(groups[k]), groups)))
         == seq(|e.parts|, i requires 0 <= i < |e.parts| =>
              seq(|groups|, k requires 0 <= k < |groups| => ExprValue(w, S, cat, s, e.parts[i], groups[k], First(groups[k]), groups)))
    decreases e, 0
  {
    hide ColumnValue, ExprValue;
    forall k | 0 <= k < |groups|
      ensures ExprValue(m, S, cat, s, e.over, groups[k], First(groups[k]), groups) == ExprValue(w, S, cat, s, e.over, groups[k], First(groups[k]), groups)
    {
      SameColumnsSameValue(m, w, S, cat, s, e.over, true, steers, groups[k], First(groups[k]), groups);
    }
    forall i | 0 <= i < |e.parts|
      ensures seq(|groups|, k requires 0 <= k < |groups| => ExprValue(m, S, cat, s, e.parts[i], groups[k], First(groups[k]), groups))
           == seq(|groups|, k requires 0 <= k < |groups| => ExprValue(w, S, cat, s, e.parts[i], groups[k], First(groups[k]), groups))
    {
      ColumnsOfArg(e.parts, steers || under, i);
      forall k | 0 <= k < |groups|
        ensures ExprValue(m, S, cat, s, e.parts[i], groups[k], First(groups[k]), groups) == ExprValue(w, S, cat, s, e.parts[i], groups[k], First(groups[k]), groups)
      {
        SameColumnsSameValue(m, w, S, cat, s, e.parts[i], true, steers || under, groups[k], First(groups[k]), groups);
      }
    }
  }

  lemma BaseDepends(m: Meaning, w: Meaning, cat: Catalog, t: Table, f: From, n: Name)
    requires KnownTable(cat, t) && AgreeOn(m, w, BaseOrigins(cat, t, n))
    ensures BaseValue(m, cat, t, f, n) == BaseValue(w, cat, t, f, n)
  {
    if Known(cat, t, n) {
      assert BaseOrigins(cat, t, n) == [Origin(t, n, Direct, [], false)];
      assert Origin(t, n, Direct, [], false) in BaseOrigins(cat, t, n);
    }
  }

  lemma {:induction false} ColumnDepends(m: Meaning, w: Meaning, S: Scopes, cat: Catalog, s: nat, a: Alias, n: Name, j: Joined)
    requires StarsExpanded(S) && TablesKnown(S, cat) && AgreeOn(m, w, TraceColumn(S, cat, s, a, n))
    ensures ColumnValue(m, S, cat, s, a, n, j) == ColumnValue(w, S, cat, s, a, n, j)
    decreases s, 1, 0
  {
    match FindSource(S, s, a)
    case None =>
    case Some(Base(t)) => BaseDepends(m, w, cat, t, Lookup(j.froms, a), n);
    case Some(Derived(d)) =>
      if d < s && Lookup(j.froms, a).ScopeRow? && d < |S| {
        NameDepends(m, w, S, cat, d, Lookup(j.froms, a).from, n);
      }
  }

  lemma {:induction false} ProjectionDepends(m: Meaning, w: Meaning, S: Scopes, cat: Catalog, s: nat, p: Projection, row: Row)
    requires StarsExpanded(S) && TablesKnown(S, cat) && AgreeOn(m, w, Renamed(p, TraceExpr(S, cat, s, p.e)))
    ensures ProjectionValue(m, S, cat, s, p, row) == ProjectionValue(w, S, cat, s, p, row)
    decreases s, 3, 0
  {
    hide TraceColumn, ColumnValue, StarsExpanded, KindOf, Fns;
    if row.Grouped? && row.rows != [] {
      if p.e.Col? && p.e.name != p.name {
        AgreeOnTag(m, w, TraceExpr(S, cat, s, p.e), Rename, [], false);
      }
      var cols := Columns(p.e, false, false);
      forall c, j | c in cols
        ensures ColumnValue(m, S, cat, s, c.0, c.1, j) == ColumnValue(w, S, cat, s, c.0, c.1, j)
      {
        var k :| 0 <= k < |cols| && cols[k] == c;
        TraceColumnsHas(S, cat, s, cols, KindOf(p.e), Fns(p.e), k, m, w);
        ColumnDepends(m, w, S, cat, s, c.0, c.1, j);
      }
      AgreeOnMeans(m, w, TraceExpr(S, cat, s, p.e));
      SameColumnsSameValue(m, w, S, cat, s, p.e, false, false, row.rows, row.rows[0], row.groups);
    }
  }

  lemma AgreeOnMeans(m: Meaning, w: Meaning, os: seq<Origin>)
    requires AgreeOn(m, w, os)
    ensures m.nth == w.nth && m.fns == w.fns
  {
  }

  lemma {:induction false} NameDepends(m: Meaning, w: Meaning, S: Scopes, cat: Catalog, s: nat, row: Row, n: Name)
    requires StarsExpanded(S) && TablesKnown(S, cat) && s < |S| && !S[s].Star? && AgreeOn(m, w, TraceDerived(S, cat, s, n))
    ensures NameValue(m, S, cat, s, row, n) == NameValue(w, S, cat, s, row, n)
    decreases s, 5, 0
  {
    hide TraceExpr, ProjectionValue, StarsExpanded, Renamed, AgreeOn;
    match S[s]
    case Select(ps, _, _) =>
      if IndexOf(ps, n) < |ps| {
        ProjectionDepends(m, w, S, cat, s, ps[IndexOf(ps, n)], row);
      }
    case SetOperation(_) =>
      if IndexOf(NamesOf(S, s), n) < |NamesOf(S, s)| {
        SetDepends(m, w, S, cat, s, row, IndexOf(NamesOf(S, s), n));
      }
  }

  lemma {:induction false} SetDepends(m: Meaning, w: Meaning, S: Scopes, cat: Catalog, s: nat, row: Row, i: nat)
    requires StarsExpanded(S) && TablesKnown(S, cat) && s < |S| && S[s].SetOperation? && AgreeOn(m, w, TraceLeaves(S, cat, s, Leaves(S, s), i))
    ensures PlaceValue(m, S, cat, s, row, i) == PlaceValue(w, S, cat, s, row, i)
    decreases s, 3, 1
  {
    hide StarsExpanded, AgreeOn;
    if row.Taken? && row.leaf < |Leaves(S, s)| {
      var leaf := Leaves(S, s)[row.leaf];
      assert leaf in Leaves(S, s);
      LeafAgrees(m, w, S, cat, s, Leaves(S, s), i, row.leaf);
      PlaceDepends(m, w, S, cat, leaf, row.row, i);
    }
  }

  lemma {:induction false} LeafAgrees(m: Meaning, w: Meaning, S: Scopes, cat: Catalog, s: nat, leaves: seq<nat>, i: nat, k: nat)
    requires k < |leaves| && leaves[k] < s && AgreeOn(m, w, TraceLeaves(S, cat, s, leaves, i))
    ensures AgreeOn(m, w, Positional(S, cat, leaves[k], i))
    decreases |leaves|
  {
    hide AgreeOn, Positional;
    var first := if leaves[0] < s then Positional(S, cat, leaves[0], i) else [];
    AgreeOnPart(m, w, first, TraceLeaves(S, cat, s, leaves[1..], i));
    if k > 0 {
      LeafAgrees(m, w, S, cat, s, leaves[1..], i, k - 1);
    }
  }

  /** A scope's output, for any of its rows, is the same in two databases that agree on the columns of its trace. */
  lemma {:induction false} PlaceDepends(m: Meaning, w: Meaning, S: Scopes, cat: Catalog, s: nat, row: Row, i: nat)
    requires StarsExpanded(S) && TablesKnown(S, cat) && AgreeOn(m, w, Positional(S, cat, s, i))
    ensures PlaceValue(m, S, cat, s, row, i) == PlaceValue(w, S, cat, s, row, i)
    decreases s, 4, 0
  {
    hide TraceExpr, ProjectionValue, StarsExpanded, Renamed, AgreeOn, BaseValue, BaseOrigins;
    if s < |S| {
      match S[s]
      case Select(ps, _, _) =>
        if i < |ps| {
          ProjectionDepends(m, w, S, cat, s, ps[i], row);
        }
      case SetOperation(_) => SetDepends(m, w, S, cat, s, row, i);
      case Star(Base(t)) =>
        if row.Starred? && i < |cat.columns[t]| {
          BaseDepends(m, w, cat, t, row.src, cat.columns[t][i]);
        }
      case Star(Derived(d)) =>
        if d < s && row.Starred? && row.src.ScopeRow? {
          PlaceDepends(m, w, S, cat, d, row.src.from, i);
        }
    }
  }

  // ---- a star read by name

  /** A meaning with one cell other than another's. */
  function WithCell(m: Meaning, t: Table, r: nat, n: Name, v: int): Meaning {
    m.(cell := (t': Table, r': nat, n': Name) => if t' == t && r' == r && n' == n then v else m.cell(t', r', n'))
  }

  function Zero(): Meaning {
    Meaning((t: Table, r: nat, n: Name) => 0, (t: Table, i: nat) => 0,
            Making((f: nat, vs: seq<int>) => 0, (op: ArithOp, x: int, y: int) => 0, (f: nat, vs: seq<int>) => 0, (vs: seq<int>) => 0,
                   (x: int, xs: seq<int>, ys: seq<int>, zs: seq<seq<int>>) => 0))
  }

  /** What the trace of a scope's i-th output lists tells all that the output depends on. */
  ghost predicate TellsAll(S: Scopes, cat: Catalog, s: nat, i: nat) {
    forall m, w, row :: AgreeOn(m, w, Positional(S, cat, s, i)) ==> PlaceValue(m, S, cat, s, row, i) == PlaceValue(w, S, cat, s, row, i)
  }

  /** An output that is the cell of a column not in its trace. */
  lemma MissesCell(S: Scopes, cat: Catalog, s: nat, i: nat, row: Row, t: Table, n: Name)
    requires Positional(S, cat, s, i) == []
    requires forall m: Meaning {:trigger PlaceValue(m, S, cat, s, row, i)} :: m.nth == Zero().nth ==> PlaceValue(m, S, cat, s, row, i) == m.cell(t, 0, n)
    ensures !TellsAll(S, cat, s, i)
  {
    hide PlaceValue, Positional;
    var zero, one := Zero(), WithCell(Zero(), t, 0, n, 1);
    assert AgreeOn(zero, one, Positional(S, cat, s, i));
    assert PlaceValue(zero, S, cat, s, row, i) == 0 && PlaceValue(one, S, cat, s, row, i) == 1;
  }

  /** The scope's i-th output is a column as it stands. */
  predicate IsColumn(S: Scopes, s: nat, i: nat) {
    s < |S| && S[s].Select? && i < |S[s].projections| && S[s].projections[i].e.Col?
  }

  lemma PlaceOfColumn(m: Meaning, S: Scopes, cat: Catalog, s: nat, i: nat, row: Row)
    requires IsColumn(S, s, i)
    ensures PlaceValue(m, S, cat, s, row, i)
         == if row.Grouped? && row.rows != [] then ColumnValue(m, S, cat, s, S[s].projections[i].e.alias, S[s].projections[i].e.name, row.rows[0]) else 0
  {
    hide ColumnValue;
    var p := S[s].projections[i];
    assert PlaceValue(m, S, cat, s, row, i) == ProjectionValue(m, S, cat, s, p, row);
    if row.Grouped? && row.rows != [] {
      assert ExprValue(m, S, cat, s, p.e, row.rows, row.rows[0], row.groups) == ColumnValue(m, S, cat, s, p.e.alias, p.e.name, row.rows[0]);
    }
  }

  lemma TraceOfColumn(S: Scopes, cat: Catalog, s: nat, i: nat)
    requires IsColumn(S, s, i)
    ensures var e := S[s].projections[i].e;
            Positional(S, cat, s, i) == Renamed(S[s].projections[i], Tag(TraceColumn(S, cat, s, e.alias, e.name), Passthrough, [], false))
  {
    hide TraceColumn;
    OneColumn(S, cat, s, S[s].projections[i].e);
  }

  lemma TraceOfNothing(p: Projection)
    ensures Renamed(p, Tag([], Passthrough, [], false)) == []
  {
  }

  /** A row of the scope, its column's source one row of a table, itself or passed on by a star. */
  function RowVia(a: Alias, f: From): Row {
    Grouped([Joined([Bound(a, f)])], [])
  }

  lemma RowViaHas(a: Alias, f: From)
    ensures Lookup(RowVia(a, f).rows[0].froms, a) == f
  {
  }

  /** Of an output that is a column read by name through a star left unexpanded: its trace tells all it depends on exactly
      when the catalogue says the table has no such column. */
  lemma StarByNameExactly(S: Scopes, cat: Catalog, s: nat, i: nat, d: nat, t: Table)
    requires IsColumn(S, s, i) && FindSource(S, s, S[s].projections[i].e.alias) == Some(Derived(d)) && d < s && S[d] == Star(Base(t))
    ensures TellsAll(S, cat, s, i) <==> Lacks(cat, t, S[s].projections[i].e.name)
  {
    hide PlaceValue, Positional;
    var a, n := S[s].projections[i].e.alias, S[s].projections[i].e.name;
    if Lacks(cat, t, n) {
      forall m, w, row
        ensures PlaceValue(m, S, cat, s, row, i) == PlaceValue(w, S, cat, s, row, i)
      {
        PlaceOfColumn(m, S, cat, s, i, row);
        PlaceOfColumn(w, S, cat, s, i, row);
      }
    } else {
      TraceOfColumn(S, cat, s, i);
      assert TraceColumn(S, cat, s, a, n) == [];
      TraceOfNothing(S[s].projections[i]);
      var row := RowVia(a, ScopeRow(Starred(BaseRow(0))));
      RowViaHas(a, ScopeRow(Starred(BaseRow(0))));
      forall m: Meaning
        ensures PlaceValue(m, S, cat, s, row, i) == m.cell(t, 0, n)
      {
        PlaceOfColumn(m, S, cat, s, i, row);
      }
      MissesCell(S, cat, s, i, row, t, n);
    }
  }

  /** Of an output that is a column of a base table: its trace tells all it depends on exactly when the catalogue knows the
      table, or it is a per-run one. */
  lemma UnknownTableExactly(S: Scopes, cat: Catalog, s: nat, i: nat, t: Table)
    requires IsColumn(S, s, i) && FindSource(S, s, S[s].projections[i].e.alias) == Some(Base(t))
    ensures TellsAll(S, cat, s, i) <==> KnownTable(cat, t)
  {
    hide PlaceValue, Positional;
    var a, n := S[s].projections[i].e.alias, S[s].projections[i].e.name;
    TraceOfColumn(S, cat, s, i);
    if KnownTable(cat, t) {
      var os := BaseOrigins(cat, t, n);
      assert TraceColumn(S, cat, s, a, n) == os;
      forall m, w, row | AgreeOn(m, w, Positional(S, cat, s, i))
        ensures PlaceValue(m, S, cat, s, row, i) == PlaceValue(w, S, cat, s, row, i)
      {
        RenamedAgree(m, w, S[s].projections[i], os);
        PlaceOfColumn(m, S, cat, s, i, row);
        PlaceOfColumn(w, S, cat, s, i, row);
        if row.Grouped? && row.rows != [] {
          BaseDepends(m, w, cat, t, Lookup(row.rows[0].froms, a), n);
        }
      }
    } else {
      assert TraceColumn(S, cat, s, a, n) == [];
      TraceOfNothing(S[s].projections[i]);
      var row := RowVia(a, BaseRow(0));
      RowViaHas(a, BaseRow(0));
      forall m: Meaning
        ensures PlaceValue(m, S, cat, s, row, i) == m.cell(t, 0, n)
      {
        PlaceOfColumn(m, S, cat, s, i, row);
      }
      MissesCell(S, cat, s, i, row, t, n);
    }
  }

  lemma RenamedAgree(m: Meaning, w: Meaning, p: Projection, os: seq<Origin>)
    requires AgreeOn(m, w, Renamed(p, Tag(os, Passthrough, [], false)))
    ensures AgreeOn(m, w, os)
  {
    hide AgreeOn, Tag;
    if p.e.Col? && p.e.name != p.name {
      AgreeOnTag(m, w, Tag(os, Passthrough, [], false), Rename, [], false);
    }
    AgreeOnTag(m, w, os, Passthrough, [], false);
  }

  /** Of a column passed on by its place in a star: exactly when the catalogue lists the table's columns. */
  lemma StarByPlaceExactly(S: Scopes, cat: Catalog, s: nat, i: nat, t: Table)
    requires s < |S| && S[s] == Star(Base(t))
    ensures TellsAll(S, cat, s, i) <==> t in cat.columns
  {
    if t in cat.columns {
      forall m, w, row | AgreeOn(m, w, Positional(S, cat, s, i))
        ensures PlaceValue(m, S, cat, s, row, i) == PlaceValue(w, S, cat, s, row, i)
      {
        if row.Starred? && i < |cat.columns[t]| {
          BaseDepends(m, w, cat, t, row.src, cat.columns[t][i]);
        }
      }
    } else {
      var row := Starred(BaseRow(0));
      forall m: Meaning | m.nth == Zero().nth
        ensures PlaceValue(m, S, cat, s, row, i) == m.cell(t, 0, 0)
      {
      }
      MissesCell(S, cat, s, i, row, t, 0);
    }
  }

  // ---- copies

  /** The base cell a row's output is, when every step to it is a column. */
  datatype Cell = Cell(table: Table, row: nat, column: Name)

  function BaseCell(cat: Catalog, t: Table, f: From, n: Name): Option<Cell> {
    if f.BaseRow? && !Lacks(cat, t, n) then Some(Cell(t, f.row, n)) else None
  }

  function ColumnCell(S: Scopes, cat: Catalog, s: nat, a: Alias, n: Name, j: Joined): Option<Cell>
    decreases s, 1
  {
    match FindSource(S, s, a)
    case None => None
    case Some(Base(t)) => BaseCell(cat, t, Lookup(j.froms, a), n)
    case Some(Derived(d)) => if d < s && Lookup(j.froms, a).ScopeRow? then NameCell(S, cat, d, Lookup(j.froms, a).from, n) else None
  }

  function ProjectionCell(S: Scopes, cat: Catalog, s: nat, p: Projection, row: Row): Option<Cell>
    decreases s, 3
  {
    if row.Grouped? && row.rows != [] && p.e.Col? then ColumnCell(S, cat, s, p.e.alias, p.e.name, row.rows[0]) else None
  }

  function NameCell(S: Scopes, cat: Catalog, s: nat, row: Row, n: Name): Option<Cell>
    decreases s, 5
  {
    if s >= |S| then None
    else
      match S[s]
      case Star(Base(t)) => if row.Starred? then BaseCell(cat, t, row.src, n) else None
      case Star(Derived(d)) => if d < s && row.Starred? && row.src.ScopeRow? then NameCell(S, cat, d, row.src.from, n) else None
      case Select(ps, _, _) => if IndexOf(ps, n) < |ps| then ProjectionCell(S, cat, s, ps[IndexOf(ps, n)], row) else None
      case SetOperation(_) => if IndexOf(NamesOf(S, s), n) < |NamesOf(S, s)| then PlaceCell(S, cat, s, row, IndexOf(NamesOf(S, s), n)) else None
  }

  function PlaceCell(S: Scopes, cat: Catalog, s: nat, row: Row, i: nat): Option<Cell>
    decreases s, 4
  {
    if s >= |S| then None
    else
      match S[s]
      case Select(ps, _, _) => if i < |ps| then ProjectionCell(S, cat, s, ps[i], row) else None
      case SetOperation(_) =>
        if row.Taken? && row.leaf < |Leaves(S, s)| then
          assert Leaves(S, s)[row.leaf] in Leaves(S, s);
          PlaceCell(S, cat, Leaves(S, s)[row.leaf], row.row, i)
        else None
      case Star(Base(t)) =>
        if row.Starred? && t in cat.columns && i < |cat.columns[t]| then BaseCell(cat, t, row.src, cat.columns[t][i]) else None
      case Star(Derived(d)) => if d < s && row.Starred? && row.src.ScopeRow? then PlaceCell(S, cat, d, row.src.from, i) else None
  }

  /** Of the trace, the origins on the way a row's output took: at a set operation, the taken branch's. */
  function ColumnTaken(S: Scopes, cat: Catalog, s: nat, a: Alias, n: Name, j: Joined): seq<Origin>
    decreases s, 1
  {
    match FindSource(S, s, a)
    case None => []
    case Some(Base(t)) => if Lookup(j.froms, a).BaseRow? then BaseOrigins(cat, t, n) else []
    case Some(Derived(d)) => if d < s && Lookup(j.froms, a).ScopeRow? then NameTaken(S, cat, d, Lookup(j.froms, a).from, n) else []
  }

  function ProjectionTaken(S: Scopes, cat: Catalog, s: nat, p: Projection, row: Row): seq<Origin>
    decreases s, 3
  {
    if !row.Grouped? || row.rows == [] then []
    else if p.e.Col? then Renamed(p, Tag(ColumnTaken(S, cat, s, p.e.alias, p.e.name, row.rows[0]), Passthrough, [], false))
    else Renamed(p, TraceExpr(S, cat, s, p.e))
  }

  function NameTaken(S: Scopes, cat: Catalog, s: nat, row: Row, n: Name): seq<Origin>
    decreases s, 5
  {
    if s >= |S| || S[s].Star? then []
    else
      match S[s]
      case Select(ps, _, _) => if IndexOf(ps, n) < |ps| then ProjectionTaken(S, cat, s, ps[IndexOf(ps, n)], row) else []
      case SetOperation(_) => if IndexOf(NamesOf(S, s), n) < |NamesOf(S, s)| then PlaceTaken(S, cat, s, row, IndexOf(NamesOf(S, s), n)) else []
  }

  function PlaceTaken(S: Scopes, cat: Catalog, s: nat, row: Row, i: nat): seq<Origin>
    decreases s, 4
  {
    if s >= |S| then []
    else
      match S[s]
      case Select(ps, _, _) => if i < |ps| then ProjectionTaken(S, cat, s, ps[i], row) else []
      case SetOperation(_) =>
        if row.Taken? && row.leaf < |Leaves(S, s)| then
          assert Leaves(S, s)[row.leaf] in Leaves(S, s);
          PlaceTaken(S, cat, Leaves(S, s)[row.leaf], row.row, i)
        else []
      case Star(Base(t)) =>
        if row.Starred? && row.src.BaseRow? && t in cat.columns && i < |cat.columns[t]| then BaseOrigins(cat, t, cat.columns[t][i]) else []
      case Star(Derived(d)) => if d < s && row.Starred? && row.src.ScopeRow? then PlaceTaken(S, cat, d, row.src.from, i) else []
  }

  /** If one of the origins on the way is no more than renamed, it is the only one, and it names the cell the value is. */
  ghost predicate Copies(taken: seq<Origin>, cell: Option<Cell>) {
    forall o :: o in taken && Rank(o.kind) <= Rank(Rename) ==>
      |taken| == 1 && cell.Some? && cell.value.table == o.table && cell.value.column == o.column
  }

  /** And a cell found on the way is in the origins, no more than renamed. */
  ghost predicate Listed(taken: seq<Origin>, cell: Option<Cell>) {
    cell.Some? ==> |taken| == 1 && Rank(taken[0].kind) <= Rank(Rename) && taken[0].table == cell.value.table && taken[0].column == cell.value.column
  }

  lemma TagKeeps(taken: seq<Origin>, cell: Option<Cell>, kind: Kind)
    requires Copies(taken, cell) && Rank(kind) <= Rank(Rename)
    ensures Copies(Tag(taken, kind, [], false), cell) && (Listed(taken, cell) ==> Listed(Tag(taken, kind, [], false), cell))
  {
    var tagged := Tag(taken, kind, [], false);
    forall o | o in tagged && Rank(o.kind) <= Rank(Rename)
      ensures |tagged| == 1 && cell.Some? && cell.value.table == o.table && cell.value.column == o.column
    {
      var i :| 0 <= i < |tagged| && tagged[i] == o;
      assert taken[i] in taken && Rank(taken[i].kind) <= Rank(o.kind);
    }
  }

  lemma {:induction false} ComputedRanks(S: Scopes, cat: Catalog, s: nat, cols: seq<(Alias, Name, bool)>, kind: Kind, fns: seq<Fn>)
    ensures forall o :: o in TraceColumns(S, cat, s, cols, kind, fns) ==> Rank(o.kind) >= Rank(kind)
    decreases |cols|
  {
    hide TraceColumn;
    if cols != [] {
      ComputedRanks(S, cat, s, cols[1..], kind, fns);
    }
  }

  lemma ComputedTaken(S: Scopes, cat: Catalog, s: nat, p: Projection)
    requires !p.e.Col?
    ensures Copies(Renamed(p, TraceExpr(S, cat, s, p.e)), None)
  {
    hide TraceColumns, Columns, Fns;
    ComputedRanks(S, cat, s, Columns(p.e, false, false), KindOf(p.e), Fns(p.e));
  }

  lemma {:induction false} ColumnCopies(S: Scopes, cat: Catalog, s: nat, a: Alias, n: Name, j: Joined)
    ensures Copies(ColumnTaken(S, cat, s, a, n, j), ColumnCell(S, cat, s, a, n, j))
    ensures StarsExpanded(S) && TablesKnown(S, cat) ==> Listed(ColumnTaken(S, cat, s, a, n, j), ColumnCell(S, cat, s, a, n, j))
    decreases s, 1
  {
    match FindSource(S, s, a)
    case None =>
    case Some(Base(t)) =>
    case Some(Derived(d)) =>
      if d < s && Lookup(j.froms, a).ScopeRow? {
        NameCopies(S, cat, d, Lookup(j.froms, a).from, n);
      }
  }

  lemma {:induction false} ProjectionCopies(S: Scopes, cat: Catalog, s: nat, p: Projection, row: Row)
    ensures Copies(ProjectionTaken(S, cat, s, p, row), ProjectionCell(S, cat, s, p, row))
    ensures StarsExpanded(S) && TablesKnown(S, cat) ==> Listed(ProjectionTaken(S, cat, s, p, row), ProjectionCell(S, cat, s, p, row))
    decreases s, 3
  {
    hide ColumnTaken, ColumnCell, Copies, Listed, TraceExpr, Tag;
    if row.Grouped? && row.rows != [] {
      if p.e.Col? {
        var taken, cell := ColumnTaken(S, cat, s, p.e.alias, p.e.name, row.rows[0]), ColumnCell(S, cat, s, p.e.alias, p.e.name, row.rows[0]);
        ColumnCopies(S, cat, s, p.e.alias, p.e.name, row.rows[0]);
        TagKeeps(taken, cell, Passthrough);
        if p.e.name != p.name {
          TagKeeps(Tag(taken, Passthrough, [], false), cell, Rename);
        }
      } else {
        ComputedTaken(S, cat, s, p);
        NothingListed(Renamed(p, TraceExpr(S, cat, s, p.e)));
      }
    } else {
      NothingTaken();
    }
  }

  lemma NothingTaken()
    ensures (forall cell :: Copies([], cell)) && Listed([], None)
  {
  }

  lemma NothingListed(taken: seq<Origin>)
    ensures Listed(taken, None)
  {
  }

  lemma {:induction false} NameCopies(S: Scopes, cat: Catalog, s: nat, row: Row, n: Name)
    ensures Copies(NameTaken(S, cat, s, row, n), NameCell(S, cat, s, row, n))
    ensures StarsExpanded(S) && TablesKnown(S, cat) && s < |S| && !S[s].Star? ==> Listed(NameTaken(S, cat, s, row, n), NameCell(S, cat, s, row, n))
    decreases s, 5
  {
    hide ProjectionTaken, ProjectionCell, PlaceTaken, PlaceCell, Copies, Listed;
    NothingTaken();
    if s < |S| && !S[s].Star? {
      match S[s]
      case Select(ps, _, _) =>
        if IndexOf(ps, n) < |ps| {
          ProjectionCopies(S, cat, s, ps[IndexOf(ps, n)], row);
        }
      case SetOperation(_) =>
        if IndexOf(NamesOf(S, s), n) < |NamesOf(S, s)| {
          PlaceCopies(S, cat, s, row, IndexOf(NamesOf(S, s), n));
        }
    }
  }

  /** Through subqueries, CTEs and set operations: on the way a row's output took, an origin that passed through or was
      renamed is the only one, and names the base cell the output is; and whenever the output is such a cell, the
      origins say so. */
  lemma {:induction false} PlaceCopies(S: Scopes, cat: Catalog, s: nat, row: Row, i: nat)
    ensures Copies(PlaceTaken(S, cat, s, row, i), PlaceCell(S, cat, s, row, i))
    ensures StarsExpanded(S) && TablesKnown(S, cat) ==> Listed(PlaceTaken(S, cat, s, row, i), PlaceCell(S, cat, s, row, i))
    decreases s, 4
  {
    hide ProjectionTaken, ProjectionCell, Copies, Listed, BaseOrigins, BaseCell;
    NothingTaken();
    if s < |S| {
      match S[s]
      case Select(ps, _, _) =>
        if i < |ps| {
          ProjectionCopies(S, cat, s, ps[i], row);
        }
      case SetOperation(_) =>
        if row.Taken? && row.leaf < |Leaves(S, s)| {
          assert Leaves(S, s)[row.leaf] in Leaves(S, s);
          PlaceCopies(S, cat, Leaves(S, s)[row.leaf], row.row, i);
        }
      case Star(Base(t)) =>
        if row.Starred? && t in cat.columns && i < |cat.columns[t]| {
          BaseCopies(cat, t, row.src, cat.columns[t][i]);
        }
      case Star(Derived(d)) =>
        if d < s && row.Starred? && row.src.ScopeRow? {
          PlaceCopies(S, cat, d, row.src.from, i);
        }
    }
  }

  lemma BaseCopies(cat: Catalog, t: Table, f: From, n: Name)
    ensures f.BaseRow? ==> Copies(BaseOrigins(cat, t, n), BaseCell(cat, t, f, n))
    ensures f.BaseRow? && KnownTable(cat, t) ==> Listed(BaseOrigins(cat, t, n), BaseCell(cat, t, f, n))
    ensures !f.BaseRow? ==> BaseCell(cat, t, f, n) == None
  {
  }

  // ---- the cell is the value, and what was taken is in the trace

  lemma {:induction false} ColumnIsCell(m: Meaning, S: Scopes, cat: Catalog, s: nat, a: Alias, n: Name, j: Joined)
    requires ColumnCell(S, cat, s, a, n, j).Some?
    ensures var c := ColumnCell(S, cat, s, a, n, j).value; ColumnValue(m, S, cat, s, a, n, j) == m.cell(c.table, c.row, c.column)
    decreases s, 1
  {
    var src := FindSource(S, s, a);
    if src.Some? && src.value.Derived? {
      NameIsCell(m, S, cat, src.value.scope, Lookup(j.froms, a).from, n);
    }
  }

  lemma {:induction false} ProjectionIsCell(m: Meaning, S: Scopes, cat: Catalog, s: nat, p: Projection, row: Row)
    requires ProjectionCell(S, cat, s, p, row).Some?
    ensures var c := ProjectionCell(S, cat, s, p, row).value; ProjectionValue(m, S, cat, s, p, row) == m.cell(c.table, c.row, c.column)
    decreases s, 3
  {
    hide ColumnCell, ColumnValue;
    ColumnIsCell(m, S, cat, s, p.e.alias, p.e.name, row.rows[0]);
    assert ExprValue(m, S, cat, s, p.e, row.rows, row.rows[0], row.groups) == ColumnValue(m, S, cat, s, p.e.alias, p.e.name, row.rows[0]);
  }

  lemma {:induction false} NameIsCell(m: Meaning, S: Scopes, cat: Catalog, s: nat, row: Row, n: Name)
    requires NameCell(S, cat, s, row, n).Some?
    ensures var c := NameCell(S, cat, s, row, n).value; NameValue(m, S, cat, s, row, n) == m.cell(c.table, c.row, c.column)
    decreases s, 5
  {
    hide ProjectionCell, ProjectionValue, PlaceCell, PlaceValue;
    match S[s]
    case Select(ps, _, _) => ProjectionIsCell(m, S, cat, s, ps[IndexOf(ps, n)], row);
    case SetOperation(_) => PlaceIsCell(m, S, cat, s, row, IndexOf(NamesOf(S, s), n));
    case Star(Base(_)) =>
    case Star(Derived(d)) => NameIsCell(m, S, cat, d, row.src.from, n);
  }

  lemma {:induction false} PlaceIsCell(m: Meaning, S: Scopes, cat: Catalog, s: nat, row: Row, i: nat)
    requires PlaceCell(S, cat, s, row, i).Some?
    ensures var c := PlaceCell(S, cat, s, row, i).value; PlaceValue(m, S, cat, s, row, i) == m.cell(c.table, c.row, c.column)
    decreases s, 4
  {
    match S[s]
    case Select(ps, _, _) => ProjectionIsCell(m, S, cat, s, ps[i], row);
    case SetOperation(_) =>
      assert Leaves(S, s)[row.leaf] in Leaves(S, s);
      PlaceIsCell(m, S, cat, Leaves(S, s)[row.leaf], row.row, i);
    case Star(Base(_)) =>
    case Star(Derived(d)) => PlaceIsCell(m, S, cat, d, row.src.from, i);
  }

  ghost predicate Within(taken: seq<Origin>, trace: seq<Origin>) {
    forall o :: o in taken ==> o in trace
  }

  lemma WithinTag(taken: seq<Origin>, trace: seq<Origin>, kind: Kind)
    requires Within(taken, trace)
    ensures Within(Tag(taken, kind, [], false), Tag(trace, kind, [], false))
  {
    forall o | o in Tag(taken, kind, [], false)
      ensures o in Tag(trace, kind, [], false)
    {
      var i :| 0 <= i < |taken| && Tag(taken, kind, [], false)[i] == o;
      assert taken[i] in taken;
      var k :| 0 <= k < |trace| && trace[k] == taken[i];
      assert Tag(trace, kind, [], false)[k] == o;
    }
  }

  lemma {:induction false} ColumnWithin(S: Scopes, cat: Catalog, s: nat, a: Alias, n: Name, j: Joined)
    ensures Within(ColumnTaken(S, cat, s, a, n, j), TraceColumn(S, cat, s, a, n))
    decreases s, 1
  {
    var src := FindSource(S, s, a);
    if src.Some? && src.value.Derived? && src.value.scope < s && Lookup(j.froms, a).ScopeRow? {
      NameWithin(S, cat, src.value.scope, Lookup(j.froms, a).from, n);
    }
  }

  lemma {:induction false} ProjectionWithin(S: Scopes, cat: Catalog, s: nat, p: Projection, row: Row)
    ensures Within(ProjectionTaken(S, cat, s, p, row), Renamed(p, TraceExpr(S, cat, s, p.e)))
    decreases s, 3
  {
    hide TraceColumn, ColumnTaken, Within, Tag;
    if row.Grouped? && row.rows != [] && p.e.Col? {
      var taken, trace := ColumnTaken(S, cat, s, p.e.alias, p.e.name, row.rows[0]), TraceColumn(S, cat, s, p.e.alias, p.e.name);
      ColumnWithin(S, cat, s, p.e.alias, p.e.name, row.rows[0]);
      WithinTag(taken, trace, Passthrough);
      OneColumn(S, cat, s, p.e);
      if p.e.name != p.name {
        WithinTag(Tag(taken, Passthrough, [], false), Tag(trace, Passthrough, [], false), Rename);
      }
    } else {
      WithinSelf(Renamed(p, TraceExpr(S, cat, s, p.e)));
    }
  }

  lemma WithinSelf(trace: seq<Origin>)
    ensures Within(trace, trace) && Within([], trace)
  {
  }

  lemma OneColumn(S: Scopes, cat: Catalog, s: nat, e: Expr)
    requires e.Col?
    ensures TraceExpr(S, cat, s, e) == Tag(TraceColumn(S, cat, s, e.alias, e.name), Passthrough, [], false)
  {
    hide TraceColumn;
    assert Columns(e, false, false)[1..] == [];
    assert TraceColumns(S, cat, s, [], Passthrough, []) == [];
  }

  lemma {:induction false} NameWithin(S: Scopes, cat: Catalog, s: nat, row: Row, n: Name)
    ensures Within(NameTaken(S, cat, s, row, n), TraceDerived(S, cat, s, n))
    decreases s, 5
  {
    hide ProjectionTaken, PlaceTaken, Within, TraceExpr, Renamed;
    WithinSelf(TraceDerived(S, cat, s, n));
    if s < |S| && !S[s].Star? {
      if S[s].Select? {
        var ps := S[s].projections;
        if IndexOf(ps, n) < |ps| {
          ProjectionWithin(S, cat, s, ps[IndexOf(ps, n)], row);
        }
      } else if IndexOf(NamesOf(S, s), n) < |NamesOf(S, s)| {
        SetWithin(S, cat, s, row, IndexOf(NamesOf(S, s), n));
      }
    }
  }

  lemma {:induction false} SetWithin(S: Scopes, cat: Catalog, s: nat, row: Row, i: nat)
    requires s < |S| && S[s].SetOperation?
    ensures Within(PlaceTaken(S, cat, s, row, i), TraceLeaves(S, cat, s, Leaves(S, s), i))
    decreases s, 3, 1
  {
    hide Within;
    WithinSelf(TraceLeaves(S, cat, s, Leaves(S, s), i));
    if row.Taken? && row.leaf < |Leaves(S, s)| {
      var leaf := Leaves(S, s)[row.leaf];
      assert leaf in Leaves(S, s);
      PlaceWithin(S, cat, leaf, row.row, i);
      LeafWithin(S, cat, s, Leaves(S, s), i, row.leaf, PlaceTaken(S, cat, leaf, row.row, i));
    }
  }

  lemma {:induction false} LeafWithin(S: Scopes, cat: Catalog, s: nat, leaves: seq<nat>, i: nat, k: nat, taken: seq<Origin>)
    requires k < |leaves| && leaves[k] < s && Within(taken, Positional(S, cat, leaves[k], i))
    ensures Within(taken, TraceLeaves(S, cat, s, leaves, i))
    decreases |leaves|
  {
    hide Positional;
    if k > 0 {
      LeafWithin(S, cat, s, leaves[1..], i, k - 1, taken);
    }
  }

  lemma {:induction false} PlaceWithin(S: Scopes, cat: Catalog, s: nat, row: Row, i: nat)
    ensures Within(PlaceTaken(S, cat, s, row, i), Positional(S, cat, s, i))
    decreases s, 4
  {
    hide ProjectionTaken, Within, TraceExpr, Renamed;
    WithinSelf(Positional(S, cat, s, i));
    if s < |S| {
      match S[s]
      case Select(ps, _, _) =>
        if i < |ps| {
          ProjectionWithin(S, cat, s, ps[i], row);
        }
      case SetOperation(_) => SetWithin(S, cat, s, row, i);
      case Star(Base(_)) =>
      case Star(Derived(d)) =>
        if d < s && row.Starred? && row.src.ScopeRow? {
          PlaceWithin(S, cat, d, row.src.from, i);
        }
    }
  }

  /** Whatever the database holds, the output is this cell. */
  ghost predicate AlwaysCell(S: Scopes, cat: Catalog, s: nat, row: Row, i: nat, t: Table, r: nat, n: Name) {
    forall m: Meaning :: PlaceValue(m, S, cat, s, row, i) == m.cell(t, r, n)
  }

  /** Each origin on the way a row's output took is in the output's trace; and one that passed through or was renamed
      is an exact copy: whatever the database holds, the output is that base column's cell, of one row. */
  lemma OriginIsCopy(S: Scopes, cat: Catalog, s: nat, row: Row, i: nat, o: Origin)
    requires o in PlaceTaken(S, cat, s, row, i)
    ensures o in Positional(S, cat, s, i)
    ensures Rank(o.kind) <= Rank(Rename) ==>
      exists r: nat :: AlwaysCell(S, cat, s, row, i, o.table, r, o.column)
  {
    hide PlaceTaken, PlaceValue, PlaceCell, Positional;
    PlaceWithin(S, cat, s, row, i);
    PlaceCopies(S, cat, s, row, i);
    if Rank(o.kind) <= Rank(Rename) {
      var c := PlaceCell(S, cat, s, row, i).value;
      forall m: Meaning
        ensures PlaceValue(m, S, cat, s, row, i) == m.cell(o.table, c.row, o.column)
      {
        PlaceIsCell(m, S, cat, s, row, i);
      }
      assert AlwaysCell(S, cat, s, row, i, o.table, c.row, o.column);
    }
  }

  /** What an aggregate made is marked so in every origin. */
  lemma AggregateMarked(S: Scopes, cat: Catalog, s: nat, e: Expr, o: Origin)
    requires HasAggregate(e) && o in TraceExpr(S, cat, s, e)
    ensures o.kind == Aggregate
  {
    hide TraceColumns, Columns, Fns;
    assert KindOf(e) == Aggregate;
    ComputedRanks(S, cat, s, Columns(e, false, false), Aggregate, Fns(e));
    assert Rank(o.kind) >= Rank(Aggregate);
  }
}
