/** SQL expressions as the compiler handles them, and what they mean: over a row, and over a group of rows. */
module Sql {
  import opened Options

  /** A cell. A text is its rank in the collation; a timestamp is in seconds, a date in days, from one epoch. */
  datatype Value = Null | Bool(b: bool) | Num(n: real) | Text(rank: int) | Day(day: int) | Time(sec: int)

  type Table = nat
  type Column = nat

  /** A table's row; a column it does not hold is null, so the empty row is an outer join's null row. */
  type Row = map<Column, Value>

  /** One row of a FROM: each table's row, under its alias. */
  type Binding = map<Table, Row>

  datatype ArithOp = Add | Sub | Mul
  datatype CmpOp = Eq | Ne | Gt | Ge | Lt | Le
  datatype AggFn = CountAll | Count | CountIf | Sum | Avg | Min | Max
  datatype Unit = DayUnit | WeekUnit | WeekMonday | MonthUnit | QuarterUnit | YearUnit

  /** What an expression's node does with its operands. IfOp has a condition, a value and, or not, another;
      CaseOp the conditions and values in turn, then, or not, the default; InOp the value, then the list. */
  datatype Op =
    | ParenOp | NegOp | Arithmetic(arith: ArithOp) | DivOp | SafeDivideOp
    | Comparison(cmp: CmpOp) | AndOp | OrOp | NotOp | IsNullOp | IsBoolOp(b: bool)
    | InOp | BetweenOp | IfOp | CaseOp | CoalesceOp
    | DateOp | TruncOp(unit: Unit)

  datatype Expr =
    | Col(table: Table, col: Column)
    | Lit(v: Value)
    | Node(op: Op, kids: seq<Expr>)
    | Agg(fn: AggFn, distinct: bool, arg: Option<Expr>)

  // ---- cells

  function Cell(b: Binding, t: Table, c: Column): Value {
    if t in b && c in b[t] then b[t][c] else Null
  }

  function Sign(op: CmpOp, order: int): bool {
    match op
    case Eq => order == 0
    case Ne => order != 0
    case Gt => order > 0
    case Ge => order >= 0
    case Lt => order < 0
    case Le => order <= 0
  }

  /** How two cells of one type compare: below, equal, above. */
  function Order(x: Value, y: Value): Option<int> {
    match (x, y)
    case (Bool(a), Bool(b)) => Some(if a == b then 0 else if b then -1 else 1)
    case (Num(a), Num(b)) => Some(if a == b then 0 else if a < b then -1 else 1)
    case (Text(a), Text(b)) => Some(a - b)
    case (Day(a), Day(b)) => Some(a - b)
    case (Time(a), Time(b)) => Some(a - b)
    case _ => None
  }

  /** A comparison: unknown (null) with a null. */
  function Compare(op: CmpOp, x: Value, y: Value): Value {
    match Order(x, y)
    case Some(o) => Bool(Sign(op, o))
    case None => Null
  }

  function AndOf(x: Value, y: Value): Value {
    if x == Bool(false) || y == Bool(false) then Bool(false)
    else if x == Bool(true) && y == Bool(true) then Bool(true)
    else Null
  }

  function OrOf(x: Value, y: Value): Value {
    if x == Bool(true) || y == Bool(true) then Bool(true)
    else if x == Bool(false) && y == Bool(false) then Bool(false)
    else Null
  }

  function NotOf(x: Value): Value {
    if x.Bool? then Bool(!x.b) else Null
  }

  function NegOf(x: Value): Value {
    if x.Num? then Num(0.0 - x.n) else Null
  }

  function ArithOf(op: ArithOp, x: Value, y: Value): Value {
    if x.Num? && y.Num? then
      Num(match op case Add => x.n + y.n case Sub => x.n - y.n case Mul => x.n * y.n)
    else Null
  }

  /** A quotient; a zero divisor has none (SQL's / raises an error there). */
  function Quotient(x: Value, y: Value): Value {
    if x.Num? && y.Num? && y.n != 0.0 then Num(x.n / y.n) else Null
  }

  function InOf(x: Value, items: seq<Value>): Value {
    if items == [] then Bool(false)
    else OrOf(Compare(Eq, x, items[0]), InOf(x, items[1..]))
  }

  const SecondsPerDay := 86400

  function DateOfTime(x: Value): Value {
    match x
    case Time(s) => Day(s / SecondsPerDay)
    case Day(d) => Day(d)
    case _ => Null
  }

  /** DATE_TRUNC, over a calendar: the first day of each day's period. */
  function Trunc(cal: Calendar, unit: Unit, x: Value): Value {
    if x.Day? then Day(cal(unit, x.day)) else Null
  }

  // ---- aggregates: what each makes of its argument's values, nulls ignored

  function NonNull(vs: seq<Value>): seq<Value> {
    if vs == [] then []
    else if vs[0].Null? then NonNull(vs[1..])
    else [vs[0]] + NonNull(vs[1..])
  }

  function Distinct(vs: seq<Value>): seq<Value> {
    if vs == [] then []
    else
      var rest := Distinct(vs[1..]);
      if vs[0] in rest then rest else [vs[0]] + rest
  }

  function Total(vs: seq<Value>): real {
    if vs == [] then 0.0 else (if vs[0].Num? then vs[0].n else 0.0) + Total(vs[1..])
  }

  function Trues(vs: seq<Value>): nat {
    if vs == [] then 0 else (if vs[0] == Bool(true) then 1 else 0) + Trues(vs[1..])
  }

  function Kind(x: Value): int {
    match x case Null => 0 case Bool(_) => 1 case Num(_) => 2 case Text(_) => 3 case Day(_) => 4 case Time(_) => 5
  }

  /** A total order on cells: by type, then by value. */
  predicate Below(x: Value, y: Value) {
    Kind(x) < Kind(y) || (Kind(x) == Kind(y) && Order(x, y).Some? && Order(x, y).value < 0)
  }

  function Least(vs: seq<Value>): Value {
    if vs == [] then Null
    else if |vs| == 1 then vs[0]
    else
      var rest := Least(vs[1..]);
      if Below(rest, vs[0]) then rest else vs[0]
  }

  function Greatest(vs: seq<Value>): Value {
    if vs == [] then Null
    else if |vs| == 1 then vs[0]
    else
      var rest := Greatest(vs[1..]);
      if Below(vs[0], rest) then rest else vs[0]
  }

  /** An aggregate over its argument's values; `rows` is the group's size, for COUNT(*). */
  function AggOf(fn: AggFn, distinct: bool, vs: seq<Value>, rows: nat): Value {
    var some := NonNull(vs);
    var used := if distinct then Distinct(some) else some;
    match fn
    case CountAll => Num(rows as real)
    case Count => Num(|used| as real)
    case CountIf => Num(Trues(used) as real)
    case Sum => if used == [] then Null else Num(Total(used))
    case Avg => if used == [] then Null else Num(Total(used) / |used| as real)
    case Min => Least(used)
    case Max => Greatest(used)
  }

  // ---- expressions

  function FirstNonNull(vs: seq<Value>): Value {
    if vs == [] then Null else if vs[0].Null? then FirstNonNull(vs[1..]) else vs[0]
  }

  /** CASE: the value after the first true condition, else the default, else null. */
  function CaseOf(vs: seq<Value>): Value {
    if vs == [] then Null
    else if |vs| == 1 then vs[0]
    else if vs[0] == Bool(true) then vs[1]
    else CaseOf(vs[2..])
  }

  type Calendar = (Unit, int) -> int

  /** What an operator makes of its operands' values. */
  function Apply(cal: Calendar, op: Op, vs: seq<Value>): Value {
    match op
    case ParenOp => if |vs| == 1 then vs[0] else Null
    case NegOp => if |vs| == 1 then NegOf(vs[0]) else Null
    case Arithmetic(a) => if |vs| == 2 then ArithOf(a, vs[0], vs[1]) else Null
    case DivOp => if |vs| == 2 then Quotient(vs[0], vs[1]) else Null
    case SafeDivideOp => if |vs| == 2 then Quotient(vs[0], vs[1]) else Null
    case Comparison(c) => if |vs| == 2 then Compare(c, vs[0], vs[1]) else Null
    case AndOp => if |vs| == 2 then AndOf(vs[0], vs[1]) else Null
    case OrOp => if |vs| == 2 then OrOf(vs[0], vs[1]) else Null
    case NotOp => if |vs| == 1 then NotOf(vs[0]) else Null
    case IsNullOp => if |vs| == 1 then Bool(vs[0].Null?) else Null
    case IsBoolOp(b) => if |vs| == 1 then Bool(vs[0] == Bool(b)) else Null
    case InOp => if |vs| >= 1 then InOf(vs[0], vs[1..]) else Null
    case BetweenOp => if |vs| == 3 then AndOf(Compare(Ge, vs[0], vs[1]), Compare(Le, vs[0], vs[2])) else Null
    case IfOp => CaseOf(vs)
    case CaseOp => CaseOf(vs)
    case CoalesceOp => FirstNonNull(vs)
    case DateOp => if |vs| == 1 then DateOfTime(vs[0]) else Null
    case TruncOp(unit) => if |vs| == 1 then Trunc(cal, unit, vs[0]) else Null
  }

  /** An expression's value for a row `b`, its aggregates over `group`; an aggregate's own argument is taken
      over each of the group's rows, and holds no other. */
  function Eval(cal: Calendar, e: Expr, b: Binding, group: seq<Binding>): Value
    decreases e
  {
    match e
    case Col(t, c) => Cell(b, t, c)
    case Lit(v) => v
    case Node(op, kids) => Apply(cal, op, seq(|kids|, i requires 0 <= i < |kids| => Eval(cal, kids[i], b, group)))
    case Agg(fn, distinct, arg) =>
      var vs := match arg
        case None => []
        case Some(x) => seq(|group|, i requires 0 <= i < |group| => Eval(cal, x, group[i], []));
      AggOf(fn, distinct, vs, |group|)
  }

  /** The values of an aggregate's argument over a group's rows. */
  function Values(cal: Calendar, x: Expr, rows: seq<Binding>): seq<Value> {
    seq(|rows|, i requires 0 <= i < |rows| => Eval(cal, x, rows[i], []))
  }

  /** A condition keeps a row when it is true: not false, and not unknown. */
  predicate Keeps(cal: Calendar, e: Expr, b: Binding) {
    Eval(cal, e, b, []) == Bool(true)
  }

  predicate KeepsAll(cal: Calendar, es: seq<Expr>, b: Binding) {
    forall e :: e in es ==> Keeps(cal, e, b)
  }
}
