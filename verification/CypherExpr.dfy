/** SQL expressions as Cypher: the translation, what Cypher makes of it, and when the two agree. */
module CypherExpr {
  import opened Options
  import opened Sql
  import M = Measures

  datatype CyFn = CyCountRows | CyCount | CySum | CyAvg | CyMin | CyMax
  datatype Period = CyDay | CyWeek | CyMonth | CyQuarter | CyYear

  datatype CyOp =
    | CyParen | CyNeg | CyArith(arith: ArithOp) | CyDivide | CyCompare(cmp: CmpOp)
    | CyAnd | CyOr | CyNot | CyIsNull | CyIn | CyCase | CyCoalesce | CyTruncate(period: Period)

  datatype CyExpr =
    | CyCol(table: Table, col: Column)
    | CyLit(v: Value)
    | CyNode(op: CyOp, kids: seq<CyExpr>)
    | CyAgg(fn: CyFn, distinct: bool, arg: Option<CyExpr>)

  /** The database's calendar, and what it makes of a number divided by zero (no error, as SQL's). */
  datatype Dialect = Dialect(cal: Calendar, byZero: real -> Value)

  // ---- what Cypher makes of an expression

  /** toFloat(x) / y */
  function CyQuotient(d: Dialect, x: Value, y: Value): Value {
    if x.Num? && y.Num? && y.n == 0.0 then d.byZero(x.n) else Quotient(x, y)
  }

  function UnitOf(p: Period): Unit {
    match p
    case CyDay => DayUnit
    case CyWeek => WeekMonday
    case CyMonth => MonthUnit
    case CyQuarter => QuarterUnit
    case CyYear => YearUnit
  }

  /** date.truncate takes a date or a timestamp. */
  function CyTrunc(cal: Calendar, p: Period, x: Value): Value {
    Trunc(cal, UnitOf(p), DateOfTime(x))
  }

  /** sum() of no values is 0; the other aggregates of none are null, or count none. */
  function CyAggOf(fn: CyFn, distinct: bool, vs: seq<Value>, rows: nat): Value {
    var some := NonNull(vs);
    var used := if distinct then Distinct(some) else some;
    match fn
    case CyCountRows => Num(rows as real)
    case CyCount => Num(|used| as real)
    case CySum => Num(Total(used))
    case CyAvg => if used == [] then Null else Num(Total(used) / |used| as real)
    case CyMin => Least(used)
    case CyMax => Greatest(used)
  }

  function CyApply(d: Dialect, op: CyOp, vs: seq<Value>): Value {
    match op
    case CyParen => if |vs| == 1 then vs[0] else Null
    case CyNeg => if |vs| == 1 then NegOf(vs[0]) else Null
    case CyArith(a) => if |vs| == 2 then ArithOf(a, vs[0], vs[1]) else Null
    case CyDivide => if |vs| == 2 then CyQuotient(d, vs[0], vs[1]) else Null
    case CyCompare(c) => if |vs| == 2 then Compare(c, vs[0], vs[1]) else Null
    case CyAnd => if |vs| == 2 then AndOf(vs[0], vs[1]) else Null
    case CyOr => if |vs| == 2 then OrOf(vs[0], vs[1]) else Null
    case CyNot => if |vs| == 1 then NotOf(vs[0]) else Null
    case CyIsNull => if |vs| == 1 then Bool(vs[0].Null?) else Null
    case CyIn => if |vs| >= 1 then InOf(vs[0], vs[1..]) else Null
    case CyCase => CaseOf(vs)
    case CyCoalesce => FirstNonNull(vs)
    case CyTruncate(p) => if |vs| == 1 then CyTrunc(d.cal, p, vs[0]) else Null
  }

  function CyEval(d: Dialect, e: CyExpr, b: Binding, group: seq<Binding>): Value
    decreases e
  {
    match e
    case CyCol(t, c) => Cell(b, t, c)
    case CyLit(v) => v
    case CyNode(op, kids) => CyApply(d, op, seq(|kids|, i requires 0 <= i < |kids| => CyEval(d, kids[i], b, group)))
    case CyAgg(fn, distinct, arg) =>
      var vs := match arg
        case None => []
        case Some(x) => seq(|group|, i requires 0 <= i < |group| => CyEval(d, x, group[i], []));
      CyAggOf(fn, distinct, vs, |group|)
  }

  // ---- the translation

  function Midnight(day: int): CyExpr {
    CyLit(Time(day * SecondsPerDay))
  }

  /** Whether the day `x` falls on compares so with a day, told by the bounds of that day's seconds. */
  function TimestampOn(x: CyExpr, op: CmpOp, day: int): CyExpr {
    var on := CyNode(CyAnd, [CyNode(CyCompare(Ge), [x, Midnight(day)]), CyNode(CyCompare(Lt), [x, Midnight(day + 1)])]);
    match op
    case Ge => CyNode(CyCompare(Ge), [x, Midnight(day)])
    case Gt => CyNode(CyCompare(Ge), [x, Midnight(day + 1)])
    case Lt => CyNode(CyCompare(Lt), [x, Midnight(day)])
    case Le => CyNode(CyCompare(Lt), [x, Midnight(day + 1)])
    case Eq => on
    case Ne => CyNode(CyNot, [on])
  }

  function PeriodOf(unit: Unit): Option<Period> {
    match unit
    case DayUnit => Some(CyDay)
    case WeekUnit => None
    case WeekMonday => Some(CyWeek)
    case MonthUnit => Some(CyMonth)
    case QuarterUnit => Some(CyQuarter)
    case YearUnit => Some(CyYear)
  }

  function Build(op: Op, xs: seq<CyExpr>): Option<CyExpr> {
    match op
    case ParenOp => if |xs| == 1 then Some(CyNode(CyParen, xs)) else None
    case NegOp => if |xs| == 1 then Some(CyNode(CyNeg, xs)) else None
    case Arithmetic(a) => if |xs| == 2 then Some(CyNode(CyArith(a), xs)) else None
    case DivOp => if |xs| == 2 then Some(CyNode(CyDivide, xs)) else None
    case SafeDivideOp =>
      if |xs| == 2 then
        Some(CyNode(CyCase, [CyNode(CyCompare(Eq), [xs[1], CyLit(Num(0.0))]), CyLit(Null), CyNode(CyDivide, xs)]))
      else None
    case Comparison(c) => if |xs| == 2 then Some(CyNode(CyCompare(c), xs)) else None
    case AndOp => if |xs| == 2 then Some(CyNode(CyAnd, xs)) else None
    case OrOp => if |xs| == 2 then Some(CyNode(CyOr, xs)) else None
    case NotOp => if |xs| == 1 then Some(CyNode(CyNot, xs)) else None
    case IsNullOp => if |xs| == 1 then Some(CyNode(CyIsNull, xs)) else None
    case IsBoolOp(b) => if |xs| == 1 then Some(CyNode(CyCompare(Eq), [xs[0], CyLit(Bool(b))])) else None
    case InOp => if |xs| >= 2 then Some(CyNode(CyIn, xs)) else None
    case BetweenOp =>
      if |xs| == 3 then
        Some(CyNode(CyAnd, [CyNode(CyCompare(Ge), [xs[0], xs[1]]), CyNode(CyCompare(Le), [xs[0], xs[2]])]))
      else None
    case IfOp => if |xs| == 2 || |xs| == 3 then Some(CyNode(CyCase, xs)) else None
    case CaseOp => Some(CyNode(CyCase, xs))
    case CoalesceOp => if |xs| >= 1 then Some(CyNode(CyCoalesce, xs)) else None
    case DateOp => None
    case TruncOp(unit) => if |xs| == 1 && PeriodOf(unit).Some? then Some(CyNode(CyTruncate(PeriodOf(unit).value), xs)) else None
  }

  predicate IsDateCall(e: Expr) {
    e.Node? && e.op == DateOp && |e.kids| == 1
  }

  predicate IsDayComparison(op: Op, kids: seq<Expr>) {
    op.Comparison? && |kids| == 2 && IsDateCall(kids[0]) && kids[1].Lit? && kids[1].v.Day?
  }

  predicate IsDateTruncation(op: Op, kids: seq<Expr>) {
    op.TruncOp? && |kids| == 1 && IsDateCall(kids[0])
  }

  function BuildAgg(fn: AggFn, distinct: bool, x: CyExpr): Option<CyExpr> {
    match fn
    case CountAll => None
    case Count => Some(CyAgg(CyCount, distinct, Some(x)))
    case CountIf => if distinct then None else Some(CyAgg(CyCount, false, Some(CyNode(CyCase, [x, CyLit(Num(1.0))]))))
    case Sum =>
      if distinct then None
      else Some(CyNode(CyCase, [CyNode(CyCompare(Eq), [CyAgg(CyCount, false, Some(x)), CyLit(Num(0.0))]), CyLit(Null), CyAgg(CySum, false, Some(x))]))
    case Avg => if distinct then None else Some(CyAgg(CyAvg, false, Some(x)))
    case Min => if distinct then None else Some(CyAgg(CyMin, false, Some(x)))
    case Max => if distinct then None else Some(CyAgg(CyMax, false, Some(x)))
  }

  /** The expression as Cypher; None (Unfit) for what has no translation. */
  function Translate(e: Expr): Option<CyExpr>
    decreases e
  {
    match e
    case Col(t, c) => Some(CyCol(t, c))
    case Lit(v) => if v.Time? then None else Some(CyLit(v))
    case Node(op, kids) =>
      if IsDayComparison(op, kids) then
        var x := Translate(kids[0].kids[0]);
        if x.None? then None else Some(TimestampOn(x.value, op.cmp, kids[1].v.day))
      else if IsDateTruncation(op, kids) then
        var x := Translate(kids[0].kids[0]);
        if x.None? then None else Build(op, [x.value])
      else if exists i :: 0 <= i < |kids| && Translate(kids[i]).None? then None
      else Build(op, seq(|kids|, i requires 0 <= i < |kids| => Translate(kids[i]).value))
    case Agg(fn, distinct, arg) =>
      match arg
      case None => if fn == CountAll then Some(CyAgg(CyCountRows, false, None)) else None
      case Some(x) =>
        var y := Translate(x);
        if y.None? then None else BuildAgg(fn, distinct, y.value)
  }

  // ---- what is refused

  /** Operators with a translation, of as many operands as SQL gives them; not DATE on its own, nor a truncation to Sunday's
      weeks. */
  predicate HasTranslation(op: Op, operands: nat) {
    match op
    case ParenOp => operands == 1
    case NegOp => operands == 1
    case NotOp => operands == 1
    case IsNullOp => operands == 1
    case IsBoolOp(_) => operands == 1
    case TruncOp(unit) => operands == 1 && unit != WeekUnit
    case DateOp => false
    case BetweenOp => operands == 3
    case IfOp => operands in {2, 3}
    case InOp => operands >= 2
    case CoalesceOp => operands >= 1
    case CaseOp => true
    case _ => operands == 2
  }

  /** DATE() of something, where a day comparison or a truncation takes it away. */
  predicate TakesDate(op: Op, kids: seq<Expr>) {
    && kids != [] && kids[0].Node? && kids[0].op == DateOp && |kids[0].kids| == 1
    && ((op.Comparison? && |kids| == 2 && kids[1].Lit? && kids[1].v.Day?) || (op.TruncOp? && |kids| == 1))
  }

  ghost predicate Translatable(e: Expr)
    decreases e
  {
    match e
    case Col(_, _) => true
    case Lit(v) => !v.Time?
    case Node(op, kids) =>
      && HasTranslation(op, |kids|)
      && if TakesDate(op, kids) then Translatable(kids[0].kids[0]) else forall i :: 0 <= i < |kids| ==> Translatable(kids[i])
    case Agg(fn, distinct, None) => fn == CountAll
    case Agg(fn, distinct, Some(x)) => fn != CountAll && (distinct ==> fn == Count) && Translatable(x)
  }

  /** An expression is refused exactly when a part of it has no translation. */
  lemma {:induction false} TranslatesExactly(e: Expr)
    ensures Translate(e).Some? <==> Translatable(e)
    decreases e
  {
    match e
    case Node(op, kids) =>
      if TakesDate(op, kids) {
        TranslatesExactly(kids[0].kids[0]);
        TakenDate(op, kids);
      } else {
        forall i | 0 <= i < |kids|
          ensures Translate(kids[i]).Some? <==> Translatable(kids[i])
        {
          TranslatesExactly(kids[i]);
        }
        PlainTranslates(op, kids);
      }
    case Agg(fn, distinct, Some(x)) => TranslatesExactly(x);
    case _ =>
  }

  lemma TakenDate(op: Op, kids: seq<Expr>)
    requires TakesDate(op, kids)
    ensures Translate(Node(op, kids)).Some? <==> HasTranslation(op, |kids|) && Translate(kids[0].kids[0]).Some?
  {
    hide TimestampOn;
  }

  lemma PlainTranslates(op: Op, kids: seq<Expr>)
    requires !TakesDate(op, kids)
    ensures Translate(Node(op, kids)).Some? <==> HasTranslation(op, |kids|) && forall i :: 0 <= i < |kids| ==> Translate(kids[i]).Some?
  {
    hide TimestampOn, Build;
    if forall i :: 0 <= i < |kids| ==> Translate(kids[i]).Some? {
      BuildIs(op, seq(|kids|, i requires 0 <= i < |kids| => Translate(kids[i]).value));
    }
  }

  lemma BuildIs(op: Op, xs: seq<CyExpr>)
    ensures Build(op, xs).Some? <==> HasTranslation(op, |xs|)
  {
  }

  // ---- where the two languages agree

  /** Its value is SQL's: a truth test (IS TRUE, IS FALSE) stands only where truth alone counts. */
  ghost predicate Exact(e: Expr)
    decreases e, 0
  {
    match e
    case Col(_, _) => true
    case Lit(_) => true
    case Node(op, kids) =>
      if op.IfOp? || op.CaseOp? then
        forall i :: 0 <= i < |kids| ==> if IsCondition(kids, i) then TruthExact(kids[i]) else Exact(kids[i])
      else !op.IsBoolOp? && forall i :: 0 <= i < |kids| ==> Exact(kids[i])
    case Agg(fn, _, arg) => arg.Some? ==> if fn == CountIf then TruthExact(arg.value) else Exact(arg.value)
  }

  predicate IsCondition(kids: seq<Expr>, i: nat) {
    i % 2 == 0 && i + 1 < |kids|
  }

  /** It is true when SQL's is: a truth test, or a conjunction or disjunction of such. */
  ghost predicate TruthExact(e: Expr)
    decreases e, 1
  {
    Exact(e)
    || (e.Node? && e.op.IsBoolOp? && forall i :: 0 <= i < |e.kids| ==> Exact(e.kids[i]))
    || (e.Node? && (e.op.ParenOp? || e.op.AndOp? || e.op.OrOp?) && forall i :: 0 <= i < |e.kids| ==> TruthExact(e.kids[i]))
  }

  /** CASE comes to its i-th operand: no condition before it was true, and it is a condition, the default, or the
      value of a true condition. */
  predicate ComesTo(vs: seq<Value>, i: nat)
    requires i < |vs|
  {
    && (forall k :: 0 <= k < i - 1 && k % 2 == 0 ==> vs[k] != Bool(true))
    && (i % 2 == 1 ==> vs[i - 1] == Bool(true))
  }

  function Operands(cal: Calendar, kids: seq<Expr>, b: Binding, group: seq<Binding>): seq<Value> {
    seq(|kids|, i requires 0 <= i < |kids| => Eval(cal, kids[i], b, group))
  }

  /** The SQL is well typed and raises no error: DATE() is of a timestamp, DATE_TRUNC of a date, and no quotient
      that is come to divides by zero. */
  ghost predicate Proper(cal: Calendar, e: Expr, b: Binding, group: seq<Binding>)
    decreases e
  {
    match e
    case Col(_, _) => true
    case Lit(_) => true
    case Node(op, kids) =>
      var vs := Operands(cal, kids, b, group);
      && (forall i :: 0 <= i < |kids| && (op.IfOp? || op.CaseOp? ==> ComesTo(vs, i)) ==> Proper(cal, kids[i], b, group))
      && (op.DivOp? && |kids| == 2 ==> vs[1] != Num(0.0))
      && (op.DateOp? && |kids| == 1 ==> !vs[0].Day?)
      && (op.TruncOp? && |kids| == 1 ==> !vs[0].Time?)
    case Agg(_, _, arg) => arg.Some? ==> forall i :: 0 <= i < |group| ==> Proper(cal, arg.value, group[i], [])
  }

  // ---- one operator at a time

  function CyOperands(d: Dialect, xs: seq<CyExpr>, b: Binding, group: seq<Binding>): seq<Value> {
    seq(|xs|, i requires 0 <= i < |xs| => CyEval(d, xs[i], b, group))
  }

  lemma NodeIs(d: Dialect, op: CyOp, xs: seq<CyExpr>, b: Binding, group: seq<Binding>)
    ensures CyEval(d, CyNode(op, xs), b, group) == CyApply(d, op, CyOperands(d, xs, b, group))
  {
  }

  lemma One(d: Dialect, op: CyOp, x: CyExpr, b: Binding, group: seq<Binding>)
    ensures CyEval(d, CyNode(op, [x]), b, group) == CyApply(d, op, [CyEval(d, x, b, group)])
  {
    NodeIs(d, op, [x], b, group);
    assert CyOperands(d, [x], b, group) == [CyEval(d, x, b, group)];
  }

  lemma Two(d: Dialect, op: CyOp, x: CyExpr, y: CyExpr, b: Binding, group: seq<Binding>)
    ensures CyEval(d, CyNode(op, [x, y]), b, group) == CyApply(d, op, [CyEval(d, x, b, group), CyEval(d, y, b, group)])
  {
    NodeIs(d, op, [x, y], b, group);
    assert CyOperands(d, [x, y], b, group) == [CyEval(d, x, b, group), CyEval(d, y, b, group)];
  }

  lemma Three(d: Dialect, op: CyOp, x: CyExpr, y: CyExpr, z: CyExpr, b: Binding, group: seq<Binding>)
    ensures CyEval(d, CyNode(op, [x, y, z]), b, group)
         == CyApply(d, op, [CyEval(d, x, b, group), CyEval(d, y, b, group), CyEval(d, z, b, group)])
  {
    NodeIs(d, op, [x, y, z], b, group);
    assert CyOperands(d, [x, y, z], b, group) == [CyEval(d, x, b, group), CyEval(d, y, b, group), CyEval(d, z, b, group)];
  }

  /** CASE WHEN c THEN null ELSE x END */
  lemma NullWhen(d: Dialect, c: CyExpr, x: CyExpr, b: Binding, group: seq<Binding>)
    ensures CyEval(d, CyNode(CyCase, [c, CyLit(Null), x]), b, group)
         == if CyEval(d, c, b, group) == Bool(true) then Null else CyEval(d, x, b, group)
  {
    Three(d, CyCase, c, CyLit(Null), x, b, group);
    var v, w := CyEval(d, c, b, group), CyEval(d, x, b, group);
    assert [v, Null, w][2..] == [w] && CaseOf([w]) == w && CyEval(d, CyLit(Null), b, group) == Null;
  }

  lemma AtMidnight(d: Dialect, c: CmpOp, x: CyExpr, day: int, b: Binding, group: seq<Binding>)
    ensures CyEval(d, CyNode(CyCompare(c), [x, Midnight(day)]), b, group) == Compare(c, CyEval(d, x, b, group), Time(day * SecondsPerDay))
  {
    Two(d, CyCompare(c), x, Midnight(day), b, group);
  }

  /** What the comparisons with midnights come to. */
  function OnDay(v: Value, op: CmpOp, day: int): Value {
    var from, next := Time(day * SecondsPerDay), Time((day + 1) * SecondsPerDay);
    match op
    case Ge => Compare(Ge, v, from)
    case Gt => Compare(Ge, v, next)
    case Lt => Compare(Lt, v, from)
    case Le => Compare(Lt, v, next)
    case Eq => AndOf(Compare(Ge, v, from), Compare(Lt, v, next))
    case Ne => NotOf(AndOf(Compare(Ge, v, from), Compare(Lt, v, next)))
  }

  lemma TimestampIs(d: Dialect, x: CyExpr, op: CmpOp, day: int, b: Binding, group: seq<Binding>)
    ensures CyEval(d, TimestampOn(x, op, day), b, group) == OnDay(CyEval(d, x, b, group), op, day)
  {
    hide Compare, CyEval, Midnight;
    AtMidnight(d, Ge, x, day, b, group);
    AtMidnight(d, Ge, x, day + 1, b, group);
    AtMidnight(d, Lt, x, day, b, group);
    AtMidnight(d, Lt, x, day + 1, b, group);
    var from, until := CyNode(CyCompare(Ge), [x, Midnight(day)]), CyNode(CyCompare(Lt), [x, Midnight(day + 1)]);
    Two(d, CyAnd, from, until, b, group);
    One(d, CyNot, CyNode(CyAnd, [from, until]), b, group);
  }

  /** A day comparison of a timestamp is the comparison of its day. */
  lemma TimestampOnDay(d: Dialect, x: CyExpr, op: CmpOp, day: int, b: Binding, group: seq<Binding>)
    requires !CyEval(d, x, b, group).Day?
    ensures CyEval(d, TimestampOn(x, op, day), b, group) == Compare(op, DateOfTime(CyEval(d, x, b, group)), Day(day))
  {
    hide CyEval, TimestampOn;
    TimestampIs(d, x, op, day, b, group);
    var v := CyEval(d, x, b, group);
    if v.Time? {
      DayBounds(v.sec, day);
      DayBounds(v.sec, day + 1);
    }
  }

  lemma DayBounds(sec: int, day: int)
    ensures sec / SecondsPerDay >= day <==> sec >= day * SecondsPerDay
  {
    var q, r := sec / SecondsPerDay, sec % SecondsPerDay;
    assert sec == q * 86400 + r && 0 <= r < 86400;
  }

  /** Of the operands an operator reads, Cypher's operator makes what SQL's does. */
  lemma BuildExact(d: Dialect, op: Op, xs: seq<CyExpr>, vs: seq<Value>, b: Binding, group: seq<Binding>)
    requires Build(op, xs).Some? && !op.IsBoolOp? && !op.IfOp? && !op.CaseOp? && !op.TruncOp?
    requires vs == CyOperands(d, xs, b, group) && (op.DivOp? ==> vs[1] != Num(0.0))
    ensures CyEval(d, Build(op, xs).value, b, group) == Apply(d.cal, op, vs)
  {
    if op.SafeDivideOp? {
      BuildSafeDivide(d, xs, vs, b, group);
    } else if op.BetweenOp? {
      var low, high := CyNode(CyCompare(Ge), [xs[0], xs[1]]), CyNode(CyCompare(Le), [xs[0], xs[2]]);
      Two(d, CyCompare(Ge), xs[0], xs[1], b, group);
      Two(d, CyCompare(Le), xs[0], xs[2], b, group);
      Two(d, CyAnd, low, high, b, group);
    } else {
      NodeIs(d, Build(op, xs).value.op, xs, b, group);
    }
  }

  lemma BuildSafeDivide(d: Dialect, xs: seq<CyExpr>, vs: seq<Value>, b: Binding, group: seq<Binding>)
    requires |xs| == 2 && vs == CyOperands(d, xs, b, group)
    ensures CyEval(d, Build(SafeDivideOp, xs).value, b, group) == Quotient(vs[0], vs[1])
  {
    var zero := CyNode(CyCompare(Eq), [xs[1], CyLit(Num(0.0))]);
    Two(d, CyCompare(Eq), xs[1], CyLit(Num(0.0)), b, group);
    NodeIs(d, CyDivide, xs, b, group);
    NullWhen(d, zero, CyNode(CyDivide, xs), b, group);
  }

  /** A truth test agrees with SQL's exactly on an operand that is true or false, not null; its truth, always. */
  lemma TruthTest(d: Dialect, b0: bool, x: CyExpr, b: Binding, group: seq<Binding>)
    ensures var v, test := CyEval(d, x, b, group), CyEval(d, Build(IsBoolOp(b0), [x]).value, b, group);
            && (test == Apply(d.cal, IsBoolOp(b0), [v]) <==> v.Bool?)
            && (test == Bool(true) <==> Apply(d.cal, IsBoolOp(b0), [v]) == Bool(true))
  {
    Two(d, CyCompare(Eq), x, CyLit(Bool(b0)), b, group);
  }

  /** Two lists of a CASE's operands that it cannot tell apart: of those it comes to, conditions are true together,
      and values are equal. */
  ghost predicate CaseSame(vs: seq<Value>, ws: seq<Value>) {
    && |vs| == |ws|
    && forall i :: 0 <= i < |vs| && ComesTo(vs, i) ==>
         if i % 2 == 0 && i + 1 < |vs| then (vs[i] == Bool(true) <==> ws[i] == Bool(true)) else vs[i] == ws[i]
  }

  lemma {:induction false} CaseOfSame(vs: seq<Value>, ws: seq<Value>)
    requires CaseSame(vs, ws)
    ensures CaseOf(vs) == CaseOf(ws)
  {
    if vs == [] {
    } else if |vs| == 1 {
      assert ComesTo(vs, 0);
    } else {
      assert ComesTo(vs, 0);
      if vs[0] == Bool(true) {
        assert ComesTo(vs, 1);
      } else {
        var rest, others := vs[2..], ws[2..];
        forall i | 0 <= i < |rest| && ComesTo(rest, i)
          ensures if i % 2 == 0 && i + 1 < |rest| then (rest[i] == Bool(true) <==> others[i] == Bool(true)) else rest[i] == others[i]
        {
          assert ComesTo(vs, i + 2) by {
            forall k | 0 <= k < i + 1 && k % 2 == 0
              ensures vs[k] != Bool(true)
            {
              assert k > 0 ==> vs[k] == rest[k - 2];
            }
            assert i % 2 == 1 ==> vs[i + 1] == rest[i - 1];
          }
        }
        CaseOfSame(rest, others);
      }
    }
  }

  // ---- the whole expression

  /** A node's parts, as translated. */
  function Parts(kids: seq<Expr>): seq<CyExpr>
    requires forall i :: 0 <= i < |kids| ==> Translate(kids[i]).Some?
  {
    seq(|kids|, i requires 0 <= i < |kids| => Translate(kids[i]).value)
  }

  /** What is claimed of an expression: its value where it is exact, its truth where truth counts. */
  ghost predicate Agrees(d: Dialect, e: Expr, b: Binding, group: seq<Binding>)
    requires Translate(e).Some?
  {
    var v, w := Eval(d.cal, e, b, group), CyEval(d, Translate(e).value, b, group);
    && (Exact(e) ==> w == v)
    && (TruthExact(e) ==> (w == Bool(true) <==> v == Bool(true)))
  }

  lemma NodeEval(cal: Calendar, op: Op, kids: seq<Expr>, b: Binding, group: seq<Binding>)
    ensures Eval(cal, Node(op, kids), b, group) == Apply(cal, op, Operands(cal, kids, b, group))
  {
    assert Operands(cal, kids, b, group) == seq(|kids|, i requires 0 <= i < |kids| => Eval(cal, kids[i], b, group));
  }

  lemma NodeTranslates(op: Op, kids: seq<Expr>)
    requires Translate(Node(op, kids)).Some? && !IsDayComparison(op, kids) && !IsDateTruncation(op, kids)
    ensures forall i :: 0 <= i < |kids| ==> Translate(kids[i]).Some?
    ensures Translate(Node(op, kids)) == Build(op, Parts(kids))
  {
  }

  lemma DateCallEval(cal: Calendar, e: Expr, b: Binding, group: seq<Binding>)
    requires IsDateCall(e)
    ensures Eval(cal, e, b, group) == DateOfTime(Eval(cal, e.kids[0], b, group))
    ensures Proper(cal, e, b, group) ==> Proper(cal, e.kids[0], b, group) && !Eval(cal, e.kids[0], b, group).Day?
    ensures Exact(e) ==> Exact(e.kids[0])
  {
    NodeEval(cal, DateOp, e.kids, b, group);
  }

  lemma DayComparisonAgrees(d: Dialect, op: Op, kids: seq<Expr>, b: Binding, group: seq<Binding>)
    requires IsDayComparison(op, kids) && Translate(Node(op, kids)).Some? && Proper(d.cal, Node(op, kids), b, group)
    requires Agrees(d, kids[0].kids[0], b, group)
    ensures Agrees(d, Node(op, kids), b, group)
  {
    hide Translate, Exact, TruthExact, Eval, CyEval, TimestampOn;
    var x := kids[0].kids[0];
    DayComparisonIs(op, kids);
    assert Proper(d.cal, kids[0], b, group);
    DateCallEval(d.cal, kids[0], b, group);
    NodeEval(d.cal, op, kids, b, group);
    LitEval(d.cal, kids[1], b, group);
    PlainNode(op, kids);
    if Exact(Node(op, kids)) {
      TimestampOnDay(d, Translate(x).value, op.cmp, kids[1].v.day, b, group);
    }
  }

  lemma DayComparisonIs(op: Op, kids: seq<Expr>)
    requires IsDayComparison(op, kids) && Translate(Node(op, kids)).Some?
    ensures Translate(kids[0].kids[0]).Some?
    ensures Translate(Node(op, kids)).value == TimestampOn(Translate(kids[0].kids[0]).value, op.cmp, kids[1].v.day)
  {
  }

  lemma LitEval(cal: Calendar, e: Expr, b: Binding, group: seq<Binding>)
    requires e.Lit?
    ensures Eval(cal, e, b, group) == e.v
  {
  }

  /** Operators other than those that combine truths. */
  lemma PlainNode(op: Op, kids: seq<Expr>)
    requires !op.IsBoolOp? && !op.ParenOp? && !op.AndOp? && !op.OrOp?
    ensures TruthExact(Node(op, kids)) <==> Exact(Node(op, kids))
    ensures Exact(Node(op, kids)) && !op.IfOp? && !op.CaseOp? ==> forall i :: 0 <= i < |kids| ==> Exact(kids[i])
  {
  }

  lemma TruncationAgrees(d: Dialect, op: Op, kids: seq<Expr>, b: Binding, group: seq<Binding>)
    requires op.TruncOp? && Translate(Node(op, kids)).Some? && Proper(d.cal, Node(op, kids), b, group)
    requires IsDateTruncation(op, kids) ==> Translate(kids[0].kids[0]).Some? && Agrees(d, kids[0].kids[0], b, group)
    requires !IsDateTruncation(op, kids) ==> forall i :: 0 <= i < |kids| ==> Translate(kids[i]).Some? && Agrees(d, kids[i], b, group)
    ensures Agrees(d, Node(op, kids), b, group)
  {
    hide Exact, TruthExact, Eval, CyEval;
    PlainNode(op, kids);
    NodeEval(d.cal, op, kids, b, group);
    if IsDateTruncation(op, kids) {
      assert Proper(d.cal, kids[0], b, group);
      DateCallEval(d.cal, kids[0], b, group);
      One(d, CyTruncate(PeriodOf(op.unit).value), Translate(kids[0].kids[0]).value, b, group);
    } else {
      NodeTranslates(op, kids);
      assert Parts(kids) == [Translate(kids[0]).value];
      One(d, CyTruncate(PeriodOf(op.unit).value), Translate(kids[0]).value, b, group);
    }
  }

  lemma CaseAgrees(d: Dialect, op: Op, kids: seq<Expr>, b: Binding, group: seq<Binding>)
    requires (op.IfOp? || op.CaseOp?) && Translate(Node(op, kids)).Some?
    requires forall i :: 0 <= i < |kids| ==> Translate(kids[i]).Some?
    requires forall i :: 0 <= i < |kids| && ComesTo(Operands(d.cal, kids, b, group), i) ==> Agrees(d, kids[i], b, group)
    ensures Agrees(d, Node(op, kids), b, group)
  {
    hide Translate, TruthExact, Eval, CyEval, ComesTo;
    NodeTranslates(op, kids);
    PlainNode(op, kids);
    var vs, ws := Operands(d.cal, kids, b, group), CyOperands(d, Parts(kids), b, group);
    NodeEval(d.cal, op, kids, b, group);
    NodeIs(d, CyCase, Parts(kids), b, group);
    if Exact(Node(op, kids)) {
      forall i | 0 <= i < |vs| && ComesTo(vs, i)
        ensures if IsCondition(kids, i) then (vs[i] == Bool(true) <==> ws[i] == Bool(true)) else vs[i] == ws[i]
      {
        assert Agrees(d, kids[i], b, group);
      }
      CaseOfSame(vs, ws);
    }
  }

  lemma TruthParts(op: Op, kids: seq<Expr>)
    ensures op.ParenOp? || op.AndOp? || op.OrOp? ==> (Exact(Node(op, kids)) ==> forall i :: 0 <= i < |kids| ==> Exact(kids[i]))
    ensures op.ParenOp? || op.AndOp? || op.OrOp? ==> (TruthExact(Node(op, kids)) ==> forall i :: 0 <= i < |kids| ==> TruthExact(kids[i]))
    ensures op.IsBoolOp? ==> !Exact(Node(op, kids)) && (TruthExact(Node(op, kids)) ==> forall i :: 0 <= i < |kids| ==> Exact(kids[i]))
  {
    if Exact(Node(op, kids)) && !op.IsBoolOp? && !op.IfOp? && !op.CaseOp? {
      forall i | 0 <= i < |kids|
        ensures TruthExact(kids[i])
      {
        assert Exact(kids[i]);
      }
    }
  }

  lemma TruthsAgree(d: Dialect, op: Op, kids: seq<Expr>, b: Binding, group: seq<Binding>)
    requires (op.ParenOp? || op.AndOp? || op.OrOp?) && Translate(Node(op, kids)).Some?
    requires forall i :: 0 <= i < |kids| ==> Translate(kids[i]).Some? && Agrees(d, kids[i], b, group)
    ensures Agrees(d, Node(op, kids), b, group)
  {
    hide Translate, Eval, CyEval, Exact, TruthExact;
    NodeTranslates(op, kids);
    TruthParts(op, kids);
    var vs, ws := Operands(d.cal, kids, b, group), CyOperands(d, Parts(kids), b, group);
    NodeEval(d.cal, op, kids, b, group);
    NodeIs(d, Build(op, Parts(kids)).value.op, Parts(kids), b, group);
    if Exact(Node(op, kids)) {
      assert vs == ws;
    }
  }

  lemma TruthTestAgrees(d: Dialect, op: Op, kids: seq<Expr>, b: Binding, group: seq<Binding>)
    requires op.IsBoolOp? && Translate(Node(op, kids)).Some?
    requires forall i :: 0 <= i < |kids| ==> Translate(kids[i]).Some? && Agrees(d, kids[i], b, group)
    ensures Agrees(d, Node(op, kids), b, group)
  {
    hide Translate, Eval, CyEval, Exact, TruthExact;
    NodeTranslates(op, kids);
    TruthParts(op, kids);
    NodeEval(d.cal, op, kids, b, group);
    assert Parts(kids) == [Translate(kids[0]).value];
    TruthTest(d, op.b, Translate(kids[0]).value, b, group);
    assert Operands(d.cal, kids, b, group) == [Eval(d.cal, kids[0], b, group)];
  }

  lemma PlainAgrees(d: Dialect, op: Op, kids: seq<Expr>, b: Binding, group: seq<Binding>)
    requires !op.IsBoolOp? && !op.ParenOp? && !op.AndOp? && !op.OrOp? && !op.IfOp? && !op.CaseOp? && !op.TruncOp?
    requires !IsDayComparison(op, kids) && Translate(Node(op, kids)).Some? && Proper(d.cal, Node(op, kids), b, group)
    requires forall i :: 0 <= i < |kids| ==> Translate(kids[i]).Some? && Agrees(d, kids[i], b, group)
    ensures Agrees(d, Node(op, kids), b, group)
  {
    hide Translate, Exact, TruthExact, Eval, CyEval, Build;
    NodeTranslates(op, kids);
    PlainNode(op, kids);
    NodeEval(d.cal, op, kids, b, group);
    if Exact(Node(op, kids)) {
      assert CyOperands(d, Parts(kids), b, group) == Operands(d.cal, kids, b, group);
      BuildSized(op, Parts(kids));
      BuildExact(d, op, Parts(kids), Operands(d.cal, kids, b, group), b, group);
    }
  }

  lemma BuildSized(op: Op, xs: seq<CyExpr>)
    requires Build(op, xs).Some?
    ensures op.DivOp? ==> |xs| == 2
  {
  }
}
