/** Column lineage: a query's output columns traced through its scopes to base columns, each with the strongest kind of step
    on the way; plainly, and with the tracer's memo. Names are numbered, case folded; scopes are numbered so that each reads
    only lower ones. */
module Lineage {
  import opened Options

  type Table = nat
  type Name = nat
  type Alias = nat

  /** What the tracer lists an expression as made with: its functions, and the constants that scale in it. */
  datatype Fn = Named(id: nat) | IfFn | SafeDivideFn | TimesConst(k: int) | OverConst(k: int)

  datatype ArithOp = Times | Over | SafeOver

  datatype Kind = Direct | Passthrough | Rename | Unnest | Transform | Aggregate

  function Rank(k: Kind): nat {
    match k
    case Direct => 0
    case Passthrough => 1
    case Rename => 2
    case Unnest => 3
    case Transform => 4
    case Aggregate => 5
  }

  datatype Origin = Origin(table: Table, column: Name, kind: Kind, fns: seq<Fn>, control: bool) {
    /** What a further step makes of an origin: the greater kind, its functions before the others. */
    function Via(kind': Kind, fns': seq<Fn>, control': bool): Origin {
      Origin(table, column, if Rank(kind') > Rank(kind) then kind' else kind, fns' + fns, control || control')
    }
  }

  /** An expression. A constant is a number or a text; an Order is an aggregate's argument with what it is taken in the order
      of, or, of nothing, a window's ORDER BY; a window's parts are its partition and its order. */
  datatype Expr =
    | Col(alias: Alias, name: Name)
    | Const(value: int, isText: bool)
    | Call(fn: nat, args: seq<Expr>)
    | Arith(op: ArithOp, l: Expr, r: Expr)
    | If(cond: Expr, yes: Expr, no: Expr)
    | Agg(fn: nat, arg: Expr)
    | Order(what: Option<Expr>, keys: seq<Expr>)
    | Window(over: Expr, parts: seq<Expr>)

  datatype Projection = Projection(name: Name, e: Expr)

  datatype Source = Base(table: Table) | Derived(scope: nat)

  /** A SELECT with its sources, inside its parent; a SELECT * left unexpanded, of one source; or a set operation. */
  datatype Scope =
    | Select(projections: seq<Projection>, sources: map<Alias, Source>, parent: Option<nat>)
    | Star(source: Source)
    | SetOperation(branches: seq<nat>)

  /** The tables' columns, and the per-run tables, which have no entry. */
  datatype Catalog = Catalog(columns: map<Table, seq<Name>>, transient: set<Table>)

  type Scopes = seq<Scope>

  /** The source of a name, in the scope or the ones around it. */
  function FindSource(S: Scopes, s: nat, a: Alias): Option<Source>
    decreases |S| - s
  {
    if s >= |S| || !S[s].Select? then None
    else if a in S[s].sources then Some(S[s].sources[a])
    else if S[s].parent.Some? && S[s].parent.value > s then FindSource(S, S[s].parent.value, a)
    else None
  }

  // ---- an expression's columns, and how they count in it

  /** Each column, and whether it only steers a value: in the condition of an IF, the keys of an ORDER BY or the parts of a
      window, if that is under the expression itself. */
  function Columns(e: Expr, under: bool, steers: bool): seq<(Alias, Name, bool)>
    decreases e
  {
    match e
    case Col(a, n) => [(a, n, steers)]
    case Const(_, _) => []
    case Call(_, args) => ColumnsOf(args, steers)
    case Arith(_, l, r) => Columns(l, true, steers) + Columns(r, true, steers)
    case If(c, y, n) => Columns(c, true, steers || under) + Columns(y, true, steers) + Columns(n, true, steers)
    case Agg(_, x) => Columns(x, true, steers)
    case Order(x, keys) => (if x.Some? then Columns(x.value, true, steers) else []) + ColumnsOf(keys, steers || under)
    case Window(x, parts) => Columns(x, true, steers) + ColumnsOf(parts, steers || under)
  }

  function ColumnsOf(es: seq<Expr>, steers: bool): seq<(Alias, Name, bool)>
    decreases es
  {
    if es == [] then [] else Columns(es[0], true, steers) + ColumnsOf(es[1..], steers)
  }

  function Calls(e: Expr): seq<Fn>
    decreases e
  {
    match e
    case Col(_, _) => []
    case Const(_, _) => []
    case Call(f, args) => [Named(f)] + CallsOf(args)
    case Arith(op, l, r) => (if op.SafeOver? then [SafeDivideFn] else []) + Calls(l) + Calls(r)
    case If(c, y, n) => [IfFn] + Calls(c) + Calls(y) + Calls(n)
    case Agg(f, x) => [Named(f)] + Calls(x)
    case Order(x, keys) => (if x.Some? then Calls(x.value) else []) + CallsOf(keys)
    case Window(x, parts) => Calls(x) + CallsOf(parts)
  }

  function CallsOf(es: seq<Expr>): seq<Fn>
    decreases es
  {
    if es == [] then [] else Calls(es[0]) + CallsOf(es[1..])
  }

  predicate IsNumber(e: Expr) {
    e.Const? && !e.isText
  }

  /** A number a product or a quotient scales by: its right operand, or a product's left. */
  function Scale(op: ArithOp, l: Expr, r: Expr): seq<Fn> {
    if IsNumber(r) then [if op.Times? then TimesConst(r.value) else OverConst(r.value)]
    else if IsNumber(l) && op.Times? then [TimesConst(l.value)]
    else []
  }

  function Scales(e: Expr): seq<Fn>
    decreases e
  {
    match e
    case Col(_, _) => []
    case Const(_, _) => []
    case Call(_, args) => ScalesOf(args)
    case Arith(op, l, r) => Scale(op, l, r) + Scales(l) + Scales(r)
    case If(c, y, n) => Scales(c) + Scales(y) + Scales(n)
    case Agg(_, x) => Scales(x)
    case Order(x, keys) => (if x.Some? then Scales(x.value) else []) + ScalesOf(keys)
    case Window(x, parts) => Scales(x) + ScalesOf(parts)
  }

  function ScalesOf(es: seq<Expr>): seq<Fn>
    decreases es
  {
    if es == [] then [] else Scales(es[0]) + ScalesOf(es[1..])
  }

  /** Each once, at its first place. */
  function Unique(fs: seq<Fn>): seq<Fn> {
    if fs == [] then []
    else
      var earlier, f := Unique(fs[..|fs| - 1]), fs[|fs| - 1];
      if f in earlier then earlier else earlier + [f]
  }

  function Fns(e: Expr): seq<Fn> {
    if e.Col? then [] else Unique(Calls(e) + Scales(e))
  }

  predicate HasAggregate(e: Expr)
    decreases e
  {
    match e
    case Col(_, _) => false
    case Const(_, _) => false
    case Call(_, args) => exists i :: 0 <= i < |args| && HasAggregate(args[i])
    case Arith(_, l, r) => HasAggregate(l) || HasAggregate(r)
    case If(c, y, n) => HasAggregate(c) || HasAggregate(y) || HasAggregate(n)
    case Agg(_, _) => true
    case Order(x, keys) => (x.Some? && HasAggregate(x.value)) || exists i :: 0 <= i < |keys| && HasAggregate(keys[i])
    case Window(x, parts) => HasAggregate(x) || exists i :: 0 <= i < |parts| && HasAggregate(parts[i])
  }

  function KindOf(e: Expr): Kind {
    if e.Col? then Passthrough else if HasAggregate(e) then Aggregate else Transform
  }

  function Tag(os: seq<Origin>, kind: Kind, fns: seq<Fn>, control: bool): seq<Origin> {
    seq(|os|, i requires 0 <= i < |os| => os[i].Via(kind, fns, control))
  }

  /** A column projected under another name is a rename. */
  function Renamed(p: Projection, os: seq<Origin>): seq<Origin> {
    if p.e.Col? && p.e.name != p.name then Tag(os, Rename, [], false) else os
  }

  /** A base table's column: as the catalog knows it, or as written for a per-run table. */
  function BaseOrigins(cat: Catalog, t: Table, n: Name): seq<Origin> {
    if t in cat.columns then (if n in cat.columns[t] then [Origin(t, n, Direct, [], false)] else [])
    else if t in cat.transient then [Origin(t, n, Direct, [], false)]
    else []
  }

  /** The place of the first projection of a name; past the end when there is none. */
  function IndexOf(ps: seq<Projection>, n: Name): nat {
    if ps == [] || ps[0].name == n then 0 else 1 + IndexOf(ps[1..], n)
  }

  /** A set operation's branches, with those of the set operations among them. */
  function Leaves(S: Scopes, s: nat): (r: seq<nat>)
    ensures forall b :: b in r ==> b <= s && (s < |S| && S[s].SetOperation? ==> b < s)
    decreases s, 0
  {
    if s >= |S| || !S[s].SetOperation? then [s] else LeavesOf(S, s, S[s].branches)
  }

  function LeavesOf(S: Scopes, s: nat, bs: seq<nat>): (r: seq<nat>)
    ensures forall b :: b in r ==> b < s
    decreases s, 0, |bs|
  {
    if bs == [] then []
    else (if bs[0] < s then Leaves(S, bs[0]) else []) + LeavesOf(S, s, bs[1..])
  }

  /** The names of a set operation come from its first branch. */
  function NamesOf(S: Scopes, s: nat): seq<Projection> {
    var leaves := Leaves(S, s);
    if leaves != [] && leaves[0] < |S| && S[leaves[0]].Select? then S[leaves[0]].projections else []
  }

  // ---- the plain recursive tracer

  function TraceExpr(S: Scopes, cat: Catalog, s: nat, e: Expr): seq<Origin>
    decreases s, 3, 0
  {
    TraceColumns(S, cat, s, Columns(e, false, false), KindOf(e), Fns(e))
  }

  function TraceColumns(S: Scopes, cat: Catalog, s: nat, cols: seq<(Alias, Name, bool)>, kind: Kind, fns: seq<Fn>): seq<Origin>
    decreases s, 2, |cols|
  {
    if cols == [] then []
    else Tag(TraceColumn(S, cat, s, cols[0].0, cols[0].1), kind, fns, cols[0].2) + TraceColumns(S, cat, s, cols[1..], kind, fns)
  }

  function TraceColumn(S: Scopes, cat: Catalog, s: nat, a: Alias, n: Name): seq<Origin>
    decreases s, 1, 0
  {
    match FindSource(S, s, a)
    case None => []
    case Some(Base(t)) => BaseOrigins(cat, t, n)
    case Some(Derived(d)) => if d < s then TraceDerived(S, cat, d, n) else []
  }

  function TraceDerived(S: Scopes, cat: Catalog, s: nat, n: Name): seq<Origin>
    decreases s, 6, 0
  {
    if s >= |S| || S[s].Star? then []
    else if S[s].Select? then
      var i := IndexOf(S[s].projections, n);
      if i < |S[s].projections| then Renamed(S[s].projections[i], TraceExpr(S, cat, s, S[s].projections[i].e)) else []
    else
      var i := IndexOf(NamesOf(S, s), n);
      if i < |NamesOf(S, s)| then TraceLeaves(S, cat, s, Leaves(S, s), i) else []
  }

  function TraceLeaves(S: Scopes, cat: Catalog, s: nat, leaves: seq<nat>, i: nat): seq<Origin>
    decreases s, 4, |leaves|
  {
    if leaves == [] then []
    else (if leaves[0] < s then Positional(S, cat, leaves[0], i) else []) + TraceLeaves(S, cat, s, leaves[1..], i)
  }

  /** The origins of a scope's i-th output. */
  function Positional(S: Scopes, cat: Catalog, s: nat, i: nat): seq<Origin>
    decreases s, 5, 0
  {
    if s >= |S| then []
    else
      match S[s]
      case SetOperation(_) => TraceLeaves(S, cat, s, Leaves(S, s), i)
      case Star(Derived(d)) => if d < s then Positional(S, cat, d, i) else []
      case Star(Base(t)) =>
        if t in cat.columns && i < |cat.columns[t]| then BaseOrigins(cat, t, cat.columns[t][i]) else []
      case Select(ps, _, _) => if i < |ps| then Renamed(ps[i], TraceExpr(S, cat, s, ps[i].e)) else []
  }

  // ---- the tracer with its memo

  type Key = (nat, Alias, Name)

  /** The memo is right for a scope and those it may read. */
  ghost predicate Right(S: Scopes, cat: Catalog, memo: map<Key, seq<Origin>>, s: nat) {
    forall k :: k in memo && k.0 <= s ==> memo[k] == TraceColumn(S, cat, k.0, k.1, k.2)
  }

  /** Above a scope, the memo is as it was: the columns being traced there keep their guards. */
  ghost predicate SameAbove(memo: map<Key, seq<Origin>>, after: map<Key, seq<Origin>>, s: nat) {
    && (forall k :: k in memo ==> k in after)
    && (forall k :: k in after && k.0 > s ==> k in memo && after[k] == memo[k])
  }

  lemma RightBelow(S: Scopes, cat: Catalog, memo: map<Key, seq<Origin>>, d: nat, s: nat)
    requires Right(S, cat, memo, s) && d <= s
    ensures Right(S, cat, memo, d)
  {
    hide TraceColumn;
  }

  /** What tracing a scope below leaves of the memo is right here too. */
  lemma TracedBelow(S: Scopes, cat: Catalog, first: map<Key, seq<Origin>>, was: map<Key, seq<Origin>>, now: map<Key, seq<Origin>>, d: nat, s: nat)
    requires Right(S, cat, was, s) && Right(S, cat, now, d) && d < s
    requires SameAbove(first, was, s) && SameAbove(was, now, d)
    ensures Right(S, cat, now, s) && SameAbove(first, now, s)
  {
    hide TraceColumn;
  }

  lemma NothingTraced(S: Scopes, cat: Catalog, s: nat, i: nat, memo: map<Key, seq<Origin>>)
    ensures TraceLeaves(S, cat, s, [], i) == [] && SameAbove(memo, memo, s)
  {
  }

  lemma NextLeaf(S: Scopes, cat: Catalog, s: nat, leaves: seq<nat>, k: nat, i: nat)
    requires k < |leaves|
    ensures TraceLeaves(S, cat, s, leaves[k..], i)
            == (if leaves[k] < s then Positional(S, cat, leaves[k], i) else []) + TraceLeaves(S, cat, s, leaves[k + 1..], i)
  {
    assert leaves[k..][1..] == leaves[k + 1..];
  }

  lemma NoColumns(S: Scopes, cat: Catalog, s: nat, kind: Kind, fns: seq<Fn>, memo: map<Key, seq<Origin>>)
    ensures TraceColumns(S, cat, s, [], kind, fns) == [] && SameAbove(memo, memo, s)
  {
  }

  lemma NextColumn(S: Scopes, cat: Catalog, s: nat, cols: seq<(Alias, Name, bool)>, i: nat, kind: Kind, fns: seq<Fn>)
    requires i < |cols|
    ensures TraceColumns(S, cat, s, cols[i..], kind, fns)
            == Tag(TraceColumn(S, cat, s, cols[i].0, cols[i].1), kind, fns, cols[i].2) + TraceColumns(S, cat, s, cols[i + 1..], kind, fns)
  {
    hide TraceColumn, Tag;
    assert cols[i..][1..] == cols[i + 1..];
  }

  lemma AboveThen(first: map<Key, seq<Origin>>, was: map<Key, seq<Origin>>, now: map<Key, seq<Origin>>, s: nat)
    requires SameAbove(first, was, s) && SameAbove(was, now, s)
    ensures SameAbove(first, now, s)
  {
  }

  class Tracer {
    const S: Scopes
    const cat: Catalog
    var memo: map<Key, seq<Origin>>

    constructor (S0: Scopes, cat0: Catalog)
      ensures S == S0 && cat == cat0 && memo == map[]
    {
      S, cat, memo := S0, cat0, map[];
    }

    method Column(s: nat, a: Alias, n: Name) returns (out: seq<Origin>)
      requires Right(S, cat, memo, s)
      modifies this
      ensures out == TraceColumn(S, cat, s, a, n) && Right(S, cat, memo, s) && SameAbove(old(memo), memo, s)
      decreases s, 1, 0
    {
      var key := (s, a, n);
      if key in memo {
        return memo[key];
      }
      memo := memo[key := []];
      match FindSource(S, s, a) {
        case None => out := [];
        case Some(Base(t)) => out := BaseOrigins(cat, t, n);
        case Some(Derived(d)) =>
          if d < s {
            out := DerivedColumn(d, n);
          } else {
            out := [];
          }
      }
      memo := memo[key := out];
    }

    method Expression(s: nat, e: Expr) returns (out: seq<Origin>)
      requires Right(S, cat, memo, s)
      modifies this
      ensures out == TraceExpr(S, cat, s, e) && Right(S, cat, memo, s) && SameAbove(old(memo), memo, s)
      decreases s, 3, 0
    {
      hide TraceColumn, TraceColumns, Columns, KindOf, Fns, Tag, Right, SameAbove;
      var cols, kind, fns := Columns(e, false, false), KindOf(e), Fns(e);
      out := [];
      ghost var first := memo;
      NoColumns(S, cat, s, kind, fns, memo);
      for i := 0 to |cols|
        invariant out + TraceColumns(S, cat, s, cols[i..], kind, fns) == TraceExpr(S, cat, s, e)
        invariant Right(S, cat, memo, s) && SameAbove(first, memo, s)
      {
        NextColumn(S, cat, s, cols, i, kind, fns);
        ghost var was := memo;
        var os := Column(s, cols[i].0, cols[i].1);
        AboveThen(first, was, memo, s);
        out := out + Tag(os, kind, fns, cols[i].2);
      }
      assert cols[|cols|..] == [];
    }

    method DerivedColumn(s: nat, n: Name) returns (out: seq<Origin>)
      requires Right(S, cat, memo, s)
      modifies this
      ensures out == TraceDerived(S, cat, s, n) && Right(S, cat, memo, s) && SameAbove(old(memo), memo, s)
      decreases s, 6, 0
    {
      hide TraceColumn, Right;
      if s >= |S| || S[s].Star? {
        return [];
      }
      var ps := NamesOf(S, s);
      var i := IndexOf(if S[s].Select? then S[s].projections else ps, n);
      if S[s].Select? {
        if i < |S[s].projections| {
          out := Expression(s, S[s].projections[i].e);
          out := Renamed(S[s].projections[i], out);
        } else {
          out := [];
        }
      } else if i < |ps| {
        out := OverLeaves(s, Leaves(S, s), i);
      } else {
        out := [];
      }
    }

    method OverLeaves(s: nat, leaves: seq<nat>, i: nat) returns (out: seq<Origin>)
      requires Right(S, cat, memo, s)
      modifies this
      ensures out == TraceLeaves(S, cat, s, leaves, i) && Right(S, cat, memo, s) && SameAbove(old(memo), memo, s)
      decreases s, 4, 0
    {
      hide TraceColumn, Positional, TraceLeaves, Right, SameAbove;
      out := [];
      ghost var first := memo;
      NothingTraced(S, cat, s, i, memo);
      for k := 0 to |leaves|
        invariant out + TraceLeaves(S, cat, s, leaves[k..], i) == TraceLeaves(S, cat, s, leaves, i)
        invariant Right(S, cat, memo, s) && SameAbove(first, memo, s)
      {
        NextLeaf(S, cat, s, leaves, k, i);
        if leaves[k] < s {
          ghost var was := memo;
          RightBelow(S, cat, memo, leaves[k], s);
          var os := OutputAt(leaves[k], i);
          TracedBelow(S, cat, first, was, memo, leaves[k], s);
          out := out + os;
        }
      }
      assert leaves[|leaves|..] == [];
    }

    /** positional */
    method OutputAt(s: nat, i: nat) returns (out: seq<Origin>)
      requires Right(S, cat, memo, s)
      modifies this
      ensures out == Positional(S, cat, s, i) && Right(S, cat, memo, s) && SameAbove(old(memo), memo, s)
      decreases s, 5, 0
    {
      hide TraceColumn;
      out := [];
      if s < |S| {
        match S[s] {
          case SetOperation(_) => out := OverLeaves(s, Leaves(S, s), i);
          case Star(Derived(d)) =>
            if d < s {
              out := OutputAt(d, i);
            }
          case Star(Base(t)) =>
            if t in cat.columns && i < |cat.columns[t]| {
              out := BaseOrigins(cat, t, cat.columns[t][i]);
            }
          case Select(ps, _, _) =>
            if i < |ps| {
              out := Expression(s, ps[i].e);
              out := Renamed(ps[i], out);
            }
        }
      }
    }
  }
}
