/** A translated expression's text: the tree it prints as, bracketed only where the translation brackets. */
module CypherText {
  import opened Options
  import Sql
  import opened CypherExpr
  import opened P = Printing
  import D = DerivedMeasures

  /** Each column's, and each literal's, own word. */
  type Words = CyExpr -> nat

  const CALL := 4
  const ITEMS := 5

  function Sign(a: Sql.ArithOp): BinOp {
    match a case Add => Plus case Sub => Minus case Mul => Times
  }

  function Which(c: Sql.CmpOp): nat {
    match c case Eq => 0 case Ne => 1 case Gt => 2 case Ge => 3 case Lt => 4 case Le => 5
  }

  /** The operators print apart. */
  lemma OperatorsApart()
    ensures forall a, b :: Sign(a) == Sign(b) ==> a == b
    ensures forall c, d :: Which(c) == Which(d) ==> c == d
  {
  }

  /** NOT's operand is always bracketed, a quotient's first is toFloat's argument; the rest print as they are. */
  function Text(words: Words, e: CyExpr): Tree
    decreases e
  {
    match e
    case CyCol(_, _) => Atom(words(e))
    case CyLit(_) => Atom(words(e))
    case CyAgg(_, _, arg) => Closed(CALL, if arg.Some? then [Text(words, arg.value)] else [])
    case CyNode(op, kids) =>
      var ps := seq(|kids|, i requires 0 <= i < |kids| => Text(words, kids[i]));
      match op
      case CyParen => if |ps| == 1 then Paren(ps[0]) else Closed(CALL, ps)
      case CyNeg => if |ps| == 1 then Neg(ps[0]) else Closed(CALL, ps)
      case CyNot => if |ps| == 1 then Not(Paren(ps[0])) else Closed(CALL, ps)
      case CyIsNull => if |ps| == 1 then IsNull(ps[0]) else Closed(CALL, ps)
      case CyArith(a) => if |ps| == 2 then Bin(Sign(a), ps[0], ps[1]) else Closed(CALL, ps)
      case CyCompare(c) => if |ps| == 2 then Bin(Compare(Which(c)), ps[0], ps[1]) else Closed(CALL, ps)
      case CyDivide => if |ps| == 2 then Bin(Over, Closed(D.TO_FLOAT, [ps[0]]), ps[1]) else Closed(CALL, ps)
      case CyAnd => if |ps| == 2 then Bin(And, ps[0], ps[1]) else Closed(CALL, ps)
      case CyOr => if |ps| == 2 then Bin(Or, ps[0], ps[1]) else Closed(CALL, ps)
      case CyIn => if |ps| >= 1 then Bin(In, ps[0], Closed(ITEMS, ps[1..])) else Closed(CALL, ps)
      case CyCase => Closed(D.CASE, ps)
      case CyCoalesce => Closed(CALL, ps)
      case CyTruncate(_) => Closed(CALL, ps)
  }

  // ---- SQL's own precedence

  /** How tightly an SQL expression binds: IS, IN and BETWEEN tighter than the comparisons, calls and CASE as words. */
  function SqlLevel(e: Sql.Expr): nat {
    if !e.Node? then ATOM
    else
      match e.op
      case OrOp => OR
      case AndOp => AND
      case NotOp => NOT
      case Comparison(_) => COMPARE
      case IsNullOp => IN
      case IsBoolOp(_) => IN
      case InOp => IN
      case BetweenOp => IN
      case Arithmetic(a) => if a.Mul? then MULTIPLY else ADD
      case DivOp => MULTIPLY
      case NegOp => NEGATE
      case _ => ATOM
  }

  /** Each operand binds at least as tightly as its place needs; operators of a level join left to right. */
  predicate Placed(op: Sql.Op, kids: seq<Sql.Expr>) {
    match op
    case OrOp => |kids| == 2 ==> SqlLevel(kids[0]) >= OR && SqlLevel(kids[1]) > OR
    case AndOp => |kids| == 2 ==> SqlLevel(kids[0]) >= AND && SqlLevel(kids[1]) > AND
    case NotOp => |kids| == 1 ==> SqlLevel(kids[0]) >= NOT
    case Comparison(_) => |kids| == 2 ==> SqlLevel(kids[0]) >= COMPARE && SqlLevel(kids[1]) > COMPARE
    case IsNullOp => |kids| == 1 ==> SqlLevel(kids[0]) >= IN
    case IsBoolOp(_) => |kids| == 1 ==> SqlLevel(kids[0]) >= IN
    case InOp => kids != [] ==> SqlLevel(kids[0]) >= IN
    case BetweenOp => |kids| == 3 ==> SqlLevel(kids[0]) >= IN && SqlLevel(kids[1]) > IN && SqlLevel(kids[2]) > IN
    case Arithmetic(a) =>
      var level := if a.Mul? then MULTIPLY else ADD;
      |kids| == 2 ==> SqlLevel(kids[0]) >= level && SqlLevel(kids[1]) > level
    case DivOp => |kids| == 2 ==> SqlLevel(kids[0]) >= MULTIPLY && SqlLevel(kids[1]) > MULTIPLY
    case NegOp => |kids| == 1 ==> SqlLevel(kids[0]) >= NEGATE
    case _ => true
  }

  /** A tree as SQL text is read: its looser operands are in brackets, which are nodes of it. */
  predicate SqlBracketed(e: Sql.Expr)
    decreases e
  {
    match e
    case Col(_, _) => true
    case Lit(_) => true
    case Node(op, kids) => Placed(op, kids) && forall i :: 0 <= i < |kids| ==> SqlBracketed(kids[i])
    case Agg(_, _, arg) => arg.Some? ==> SqlBracketed(arg.value)
  }

  // ---- which SQL prints right

  /** A truth test prints as a comparison, a BETWEEN as a conjunction: looser than they bind in SQL. */
  predicate Loosened(e: Sql.Expr) {
    e.Node? && (e.op.IsBoolOp? || e.op.BetweenOp?)
  }

  predicate IsDayEquality(e: Sql.Expr) {
    e.Node? && IsDayComparison(e.op, e.kids) && e.op.cmp == Sql.Eq
  }

  predicate PlacesKept(op: Sql.Op, kids: seq<Sql.Expr>) {
    match op
    case SafeDivideOp => |kids| == 2 ==> SqlLevel(kids[1]) > MULTIPLY
    case Comparison(_) => |kids| == 2 ==> SqlLevel(kids[0]) > COMPARE && !Loosened(kids[0]) && !Loosened(kids[1])
    case IsNullOp => |kids| == 1 ==> !Loosened(kids[0])
    case IsBoolOp(_) => |kids| == 1 ==> !Loosened(kids[0])
    case InOp => kids != [] ==> !Loosened(kids[0])
    case BetweenOp => |kids| == 3 ==> !Loosened(kids[0])
    case AndOp => |kids| == 2 ==> !(kids[1].Node? && kids[1].op.BetweenOp?) && !IsDayEquality(kids[1])
    case _ => true
  }

  /** No divisor of SAFE_DIVIDE is a product or looser; no operand of a comparison, and no value tested, listed or
      bounded, is a truth test or a BETWEEN; no comparison is a comparison's left operand; no BETWEEN and no day's
      equality is AND's right operand; and what DATE() of which is compared with a day binds tighter than a comparison. */
  predicate PrintsRight(e: Sql.Expr)
    decreases e
  {
    match e
    case Col(_, _) => true
    case Lit(_) => true
    case Node(op, kids) =>
      if IsDayComparison(op, kids) then
        var x := kids[0].kids[0];
        PrintsRight(x) && SqlLevel(x) > COMPARE && !Loosened(x)
      else if IsDateTruncation(op, kids) then PrintsRight(kids[0].kids[0])
      else PlacesKept(op, kids) && forall i :: 0 <= i < |kids| ==> PrintsRight(kids[i])
    case Agg(_, _, arg) => arg.Some? ==> PrintsRight(arg.value)
  }

  function DayLevel(c: Sql.CmpOp): nat {
    if c == Sql.Eq then AND else if c == Sql.Ne then NOT else COMPARE
  }

  /** How tightly its text binds. */
  function TextLevel(e: Sql.Expr): nat {
    if !e.Node? then ATOM
    else if IsDayComparison(e.op, e.kids) then DayLevel(e.op.cmp)
    else if e.op.IsBoolOp? then COMPARE
    else if e.op.BetweenOp? then AND
    else SqlLevel(e)
  }

  ghost predicate PrintsAs(words: Words, e: Sql.Expr, t: Tree) {
    Level(t) == TextLevel(e) && (Bracketed(t) <==> PrintsRight(e))
  }

  function OneTree(op: CyOp, x: Tree): Tree {
    match op
    case CyParen => Paren(x)
    case CyNeg => Neg(x)
    case CyNot => Not(Paren(x))
    case CyIsNull => IsNull(x)
    case _ => Closed(CALL, [x])
  }

  lemma TextOne(words: Words, op: CyOp, x: CyExpr)
    requires op.CyParen? || op.CyNeg? || op.CyNot? || op.CyIsNull?
    ensures Text(words, CyNode(op, [x])) == OneTree(op, Text(words, x))
  {
    var kids := [x];
    assert seq(|kids|, i requires 0 <= i < |kids| => Text(words, kids[i])) == [Text(words, x)];
  }

  function TwoTree(op: CyOp, x: Tree, y: Tree): Tree {
    match op
    case CyArith(a) => Bin(Sign(a), x, y)
    case CyCompare(c) => Bin(Compare(Which(c)), x, y)
    case CyDivide => Bin(Over, Closed(D.TO_FLOAT, [x]), y)
    case CyAnd => Bin(And, x, y)
    case _ => Bin(Or, x, y)
  }

  lemma TextTwo(words: Words, op: CyOp, x: CyExpr, y: CyExpr)
    requires op.CyArith? || op.CyCompare? || op.CyDivide? || op.CyAnd? || op.CyOr?
    ensures Text(words, CyNode(op, [x, y])) == TwoTree(op, Text(words, x), Text(words, y))
  {
    var kids := [x, y];
    assert seq(|kids|, i requires 0 <= i < |kids| => Text(words, kids[i])) == [Text(words, x), Text(words, y)];
  }

  /** A bound of a timestamp, or of any value: one comparison. */
  lemma BoundText(words: Words, c: Sql.CmpOp, x: CyExpr, y: CyExpr)
    ensures var t := Text(words, CyNode(CyCompare(c), [x, y]));
            Level(t) == COMPARE && (Bracketed(t) <==> Bracketed(Text(words, x)) && Bracketed(Text(words, y))
                                                      && Level(Text(words, x)) > COMPARE && Level(Text(words, y)) > COMPARE)
  {
    hide Bracketed, Text;
    TextTwo(words, CyCompare(c), x, y);
    OperandsBracketed(Text(words, CyNode(CyCompare(c), [x, y])));
  }

  lemma LiteralText(words: Words, v: Sql.Value)
    ensures Level(Text(words, CyLit(v))) == ATOM && Bracketed(Text(words, CyLit(v)))
  {
  }

  /** Two bounds as one conjunction. */
  lemma BoundsText(words: Words, c: Sql.CmpOp, x: CyExpr, y: CyExpr, o: Sql.CmpOp, z: CyExpr)
    ensures var t := Text(words, CyNode(CyAnd, [CyNode(CyCompare(c), [x, y]), CyNode(CyCompare(o), [x, z])]));
            Level(t) == AND && (Bracketed(t) <==> Bracketed(Text(words, x)) && Bracketed(Text(words, y)) && Bracketed(Text(words, z))
                                                  && Level(Text(words, x)) > COMPARE && Level(Text(words, y)) > COMPARE && Level(Text(words, z)) > COMPARE)
  {
    hide Bracketed, Text;
    var low, high := CyNode(CyCompare(c), [x, y]), CyNode(CyCompare(o), [x, z]);
    TextTwo(words, CyAnd, low, high);
    BoundText(words, c, x, y);
    BoundText(words, o, x, z);
    OperandsBracketed(Text(words, CyNode(CyAnd, [low, high])));
  }

  lemma DayText(words: Words, x: CyExpr, op: Sql.CmpOp, day: int)
    ensures var t := Text(words, TimestampOn(x, op, day));
            && Level(t) == DayLevel(op)
            && (Bracketed(t) <==> Bracketed(Text(words, x)) && Level(Text(words, x)) > COMPARE)
  {
    hide Bracketed, Text;
    LiteralText(words, Sql.Time(day * Sql.SecondsPerDay));
    LiteralText(words, Sql.Time((day + 1) * Sql.SecondsPerDay));
    BoundText(words, Sql.Ge, x, Midnight(day));
    BoundText(words, Sql.Ge, x, Midnight(day + 1));
    BoundText(words, Sql.Lt, x, Midnight(day));
    BoundText(words, Sql.Lt, x, Midnight(day + 1));
    BoundsText(words, Sql.Ge, x, Midnight(day), Sql.Lt, Midnight(day + 1));
    var on := CyNode(CyAnd, [CyNode(CyCompare(Sql.Ge), [x, Midnight(day)]), CyNode(CyCompare(Sql.Lt), [x, Midnight(day + 1)])]);
    TextOne(words, CyNot, on);
    NotParen(Text(words, on));
  }

  lemma NotParen(t: Tree)
    ensures Bracketed(Not(Paren(t))) <==> Bracketed(t)
    ensures Bracketed(Paren(t)) <==> Bracketed(t)
  {
  }

  /** What has its own words around its parts is bracketed when they are. */
  lemma ClosedText(words: Words, op: CyOp, xs: seq<CyExpr>)
    requires op.CyCase? || op.CyCoalesce? || op.CyTruncate?
    ensures var t := Text(words, CyNode(op, xs));
            Level(t) == ATOM && (Bracketed(t) <==> forall i :: 0 <= i < |xs| ==> Bracketed(Text(words, xs[i])))
  {
    var ps := seq(|xs|, i requires 0 <= i < |xs| => Text(words, xs[i]));
    assert Text(words, CyNode(op, xs)).parts == ps;
    assert forall i :: 0 <= i < |xs| ==> ps[i] == Text(words, xs[i]);
  }

  lemma ListText(words: Words, xs: seq<CyExpr>)
    requires |xs| >= 1
    ensures var t := Text(words, CyNode(CyIn, xs));
            Level(t) == IN && (Bracketed(t) <==> Level(Text(words, xs[0])) >= IN && forall i :: 0 <= i < |xs| ==> Bracketed(Text(words, xs[i])))
  {
    var ps := seq(|xs|, i requires 0 <= i < |xs| => Text(words, xs[i]));
    var t := Text(words, CyNode(CyIn, xs));
    assert t == Bin(In, ps[0], Closed(ITEMS, ps[1..]));
    OperandsBracketed(t);
    var items := ps[1..];
    assert Bracketed(Closed(ITEMS, items)) <==> forall i :: 0 <= i < |items| ==> Bracketed(items[i]);
    forall i | 1 <= i < |xs|
      ensures ps[i] == items[i - 1] && ps[i] == Text(words, xs[i])
    {
    }
    if forall i :: 0 <= i < |items| ==> Bracketed(items[i]) {
      forall i | 1 <= i < |xs|
        ensures Bracketed(Text(words, xs[i]))
      {
        assert Bracketed(items[i - 1]);
      }
    }
    if forall i :: 0 <= i < |xs| ==> Bracketed(Text(words, xs[i])) {
      forall i | 0 <= i < |items|
        ensures Bracketed(items[i])
      {
        assert items[i] == Text(words, xs[i + 1]);
      }
    }
  }

  // ---- one operator at a time

  /** Operands that print as their expressions say, in places as SQL needs. */
  ghost predicate Operands(words: Words, kids: seq<Sql.Expr>, xs: seq<CyExpr>) {
    |xs| == |kids| && forall i :: 0 <= i < |kids| ==> PrintsAs(words, kids[i], Text(words, xs[i]))
  }

  lemma SafeDivideText(words: Words, kids: seq<Sql.Expr>, xs: seq<CyExpr>)
    requires |xs| == 2 && Operands(words, kids, xs)
    ensures var t := Text(words, Build(Sql.SafeDivideOp, xs).value);
            Level(t) == ATOM && (Bracketed(t) <==> PrintsRight(kids[0]) && PrintsRight(kids[1]) && SqlLevel(kids[1]) > MULTIPLY)
  {
    hide Reading, Print, Bracketed, PrintsRight;
    assert xs == [xs[0], xs[1]];
    var tx, ty := Text(words, xs[0]), Text(words, xs[1]);
    var zero := CyLit(Sql.Num(0.0));
    var test, quotient := CyNode(CyCompare(Sql.Eq), [xs[1], zero]), CyNode(CyDivide, xs);
    TextTwo(words, CyCompare(Sql.Eq), xs[1], zero);
    TextTwo(words, CyDivide, xs[0], xs[1]);
    var parts := [test, CyLit(Sql.Null), quotient];
    assert seq(|parts|, i requires 0 <= i < |parts| => Text(words, parts[i])) == [Text(words, test), Text(words, CyLit(Sql.Null)), Text(words, quotient)];
    assert Text(words, CyNode(CyCase, parts)) == Closed(D.CASE, [Text(words, test), Text(words, CyLit(Sql.Null)), Text(words, quotient)]);
    QuotientBracketed(tx, ty, Text(words, zero), Text(words, CyLit(Sql.Null)));
  }

  lemma UnaryText(words: Words, op: Sql.Op, kids: seq<Sql.Expr>, xs: seq<CyExpr>)
    requires op.ParenOp? || op.NegOp? || op.NotOp? || op.IsNullOp? || op.IsBoolOp?
    requires Build(op, xs).Some? && Operands(words, kids, xs) && Placed(op, kids)
    ensures var t := Text(words, Build(op, xs).value);
            Level(t) == TextLevel(Sql.Node(op, kids)) && (Bracketed(t) <==> PrintsRight(kids[0]) && PlacesKept(op, kids))
  {
    hide Bracketed, Text, PrintsRight;
    assert xs == [xs[0]];
    var x := Text(words, xs[0]);
    NotParen(x);
    OneOperand(x);
    if op.IsBoolOp? {
      LiteralText(words, Sql.Bool(op.b));
      BoundText(words, Sql.Eq, xs[0], CyLit(Sql.Bool(op.b)));
    } else {
      TextOne(words, Build(op, xs).value.op, xs[0]);
    }
  }

  lemma OneOperand(x: Tree)
    ensures Bracketed(Neg(x)) <==> Bracketed(x) && Level(x) >= NEGATE
    ensures Bracketed(IsNull(x)) <==> Bracketed(x) && Level(x) >= IN
  {
  }

  lemma BinaryText(words: Words, op: Sql.Op, kids: seq<Sql.Expr>, xs: seq<CyExpr>)
    requires op.Arithmetic? || op.DivOp? || op.Comparison? || op.AndOp? || op.OrOp?
    requires Build(op, xs).Some? && !IsDayComparison(op, kids) && Operands(words, kids, xs) && Placed(op, kids)
    ensures var t := Text(words, Build(op, xs).value);
            Level(t) == TextLevel(Sql.Node(op, kids)) && (Bracketed(t) <==> PrintsRight(kids[0]) && PrintsRight(kids[1]) && PlacesKept(op, kids))
  {
    hide Bracketed, Text, PrintsRight;
    assert xs == [xs[0], xs[1]];
    TextTwo(words, Build(op, xs).value.op, xs[0], xs[1]);
    OperandsBracketed(Text(words, Build(op, xs).value));
    CallBracketed(Text(words, xs[0]));
  }

  lemma CallBracketed(x: Tree)
    ensures Bracketed(Closed(D.TO_FLOAT, [x])) <==> Bracketed(x)
    ensures Level(Closed(D.TO_FLOAT, [x])) == ATOM
  {
    var parts := [x];
    assert Bracketed(Closed(D.TO_FLOAT, parts)) <==> forall i :: 0 <= i < |parts| ==> Bracketed(parts[i]);
    assert parts[0] == x;
  }

  lemma BetweenText(words: Words, kids: seq<Sql.Expr>, xs: seq<CyExpr>)
    requires |xs| == 3 && Operands(words, kids, xs) && Placed(Sql.BetweenOp, kids)
    ensures var t := Text(words, Build(Sql.BetweenOp, xs).value);
            Level(t) == AND && (Bracketed(t) <==> PrintsRight(kids[0]) && PrintsRight(kids[1]) && PrintsRight(kids[2]) && !Loosened(kids[0]))
  {
    hide Bracketed, Text, PrintsRight;
    BoundsText(words, Sql.Ge, xs[0], xs[1], Sql.Le, xs[2]);
  }

  /** Of a node's operands' texts, the node's. */
  lemma NodeText(words: Words, op: Sql.Op, kids: seq<Sql.Expr>, xs: seq<CyExpr>)
    requires !IsDayComparison(op, kids) && !IsDateTruncation(op, kids)
    requires Build(op, xs).Some? && Operands(words, kids, xs) && Placed(op, kids)
    ensures PrintsAs(words, Sql.Node(op, kids), Text(words, Build(op, xs).value))
  {
    hide Bracketed, Text;
    match op
    case SafeDivideOp => SafeDivideText(words, kids, xs);
    case ParenOp => UnaryText(words, op, kids, xs);
    case NegOp => UnaryText(words, op, kids, xs);
    case NotOp => UnaryText(words, op, kids, xs);
    case IsNullOp => UnaryText(words, op, kids, xs);
    case IsBoolOp(_) => UnaryText(words, op, kids, xs);
    case Arithmetic(_) => BinaryText(words, op, kids, xs);
    case DivOp => BinaryText(words, op, kids, xs);
    case Comparison(_) => BinaryText(words, op, kids, xs);
    case AndOp => BinaryText(words, op, kids, xs);
    case OrOp => BinaryText(words, op, kids, xs);
    case BetweenOp => BetweenText(words, kids, xs);
    case InOp => ListText(words, xs);
    case IfOp => ClosedText(words, CyCase, xs);
    case CaseOp => ClosedText(words, CyCase, xs);
    case CoalesceOp => ClosedText(words, CyCoalesce, xs);
    case TruncOp(unit) => ClosedText(words, CyTruncate(PeriodOf(unit).value), xs);
    case DateOp =>
  }

  lemma AggText(words: Words, fn: Sql.AggFn, distinct: bool, x: Sql.Expr, y: CyExpr)
    requires BuildAgg(fn, distinct, y).Some? && (Bracketed(Text(words, y)) <==> PrintsRight(x))
    ensures PrintsAs(words, Sql.Agg(fn, distinct, Some(x)), Text(words, BuildAgg(fn, distinct, y).value))
  {
    hide Bracketed, PrintsRight, Text;
    AggPrints(fn, distinct, x);
    if fn == Sql.CountIf {
      CountIfText(words, y);
    } else if fn == Sql.Sum {
      SumText(words, y);
    } else {
      CallBracketedAs(words, BuildAgg(fn, distinct, y).value.fn, distinct, y);
    }
  }

  lemma CountIfText(words: Words, y: CyExpr)
    ensures var t := Text(words, BuildAgg(Sql.CountIf, false, y).value); Level(t) == ATOM && (Bracketed(t) <==> Bracketed(Text(words, y)))
  {
    hide Bracketed, Text;
    LiteralText(words, Sql.Num(1.0));
    var inner := [y, CyLit(Sql.Num(1.0))];
    ClosedText(words, CyCase, inner);
    assert inner[0] == y && inner[1] == CyLit(Sql.Num(1.0));
    CallBracketedAs(words, CyCount, false, CyNode(CyCase, inner));
  }

  lemma SumText(words: Words, y: CyExpr)
    ensures var t := Text(words, BuildAgg(Sql.Sum, false, y).value); Level(t) == ATOM && (Bracketed(t) <==> Bracketed(Text(words, y)))
  {
    hide Bracketed, Text;
    LiteralText(words, Sql.Num(0.0));
    LiteralText(words, Sql.Null);
    CallBracketedAs(words, CyCount, false, y);
    CallBracketedAs(words, CySum, false, y);
    var count, sum := CyAgg(CyCount, false, Some(y)), CyAgg(CySum, false, Some(y));
    BoundText(words, Sql.Eq, count, CyLit(Sql.Num(0.0)));
    var parts := [CyNode(CyCompare(Sql.Eq), [count, CyLit(Sql.Num(0.0))]), CyLit(Sql.Null), sum];
    ClosedText(words, CyCase, parts);
    assert Bracketed(Text(words, parts[0])) <==> Bracketed(Text(words, y));
    assert Bracketed(Text(words, parts[1])) && (Bracketed(Text(words, parts[2])) <==> Bracketed(Text(words, y)));
  }

  lemma AggPrints(fn: Sql.AggFn, distinct: bool, x: Sql.Expr)
    ensures PrintsRight(Sql.Agg(fn, distinct, Some(x))) <==> PrintsRight(x)
  {
  }

  lemma CallBracketedAs(words: Words, fn: CyFn, distinct: bool, y: CyExpr)
    ensures var t := Text(words, CyAgg(fn, distinct, Some(y))); Level(t) == ATOM && (Bracketed(t) <==> Bracketed(Text(words, y)))
  {
    var parts := [Text(words, y)];
    assert Bracketed(Closed(CALL, parts)) <==> forall i :: 0 <= i < |parts| ==> Bracketed(parts[i]);
    assert parts[0] == Text(words, y);
  }

  // ---- the whole expression

  /** Of an SQL expression bracketed as SQL reads it, what its Cypher prints as. */
  lemma {:induction false} TextIs(words: Words, e: Sql.Expr)
    requires Translate(e).Some? && SqlBracketed(e)
    ensures PrintsAs(words, e, Text(words, Translate(e).value))
    decreases e
  {
    hide Bracketed, Text, PrintsRight, Placed, PrintsAs;
    match e
    case Col(_, _) => LeafText(words, e);
    case Lit(_) => LeafText(words, e);
    case Node(op, kids) =>
      if IsDayComparison(op, kids) {
        DayComparisonIs(op, kids);
        var x := kids[0].kids[0];
        assert SqlBracketed(kids[0]) && SqlBracketed(x);
        TextIs(words, x);
        DayText(words, Translate(x).value, op.cmp, kids[1].v.day);
        DayPrints(words, op, kids, Text(words, Translate(e).value), Text(words, Translate(x).value));
      } else if IsDateTruncation(op, kids) {
        var x := kids[0].kids[0];
        assert SqlBracketed(kids[0]) && SqlBracketed(x);
        TextIs(words, x);
        TruncationText(words, op, kids);
      } else {
        NodeTranslates(op, kids);
        forall i | 0 <= i < |kids|
          ensures PrintsAs(words, kids[i], Text(words, Parts(kids)[i]))
        {
          TextIs(words, kids[i]);
        }
        NodeText(words, op, kids, Parts(kids));
      }
    case Agg(fn, distinct, arg) =>
      if arg.Some? {
        TextIs(words, arg.value);
        PrintsIs(words, arg.value, Text(words, Translate(arg.value).value));
        AggText(words, fn, distinct, arg.value, Translate(arg.value).value);
      } else {
        LeafText(words, e);
      }
  }

  lemma PrintsIs(words: Words, e: Sql.Expr, t: Tree)
    requires PrintsAs(words, e, t)
    ensures Level(t) == TextLevel(e) && (Bracketed(t) <==> PrintsRight(e))
  {
  }

  lemma LeafText(words: Words, e: Sql.Expr)
    requires Translate(e).Some? && (e.Col? || e.Lit? || (e.Agg? && e.arg.None?))
    ensures PrintsAs(words, e, Text(words, Translate(e).value))
  {
  }

  lemma DayPrints(words: Words, op: Sql.Op, kids: seq<Sql.Expr>, t: Tree, x: Tree)
    requires IsDayComparison(op, kids) && PrintsAs(words, kids[0].kids[0], x)
    requires Level(t) == DayLevel(op.cmp)
    requires Bracketed(t) <==> Bracketed(x) && Level(x) > COMPARE
    ensures PrintsAs(words, Sql.Node(op, kids), t)
  {
    hide Bracketed;
  }

  lemma TruncationText(words: Words, op: Sql.Op, kids: seq<Sql.Expr>)
    requires IsDateTruncation(op, kids) && Translate(Sql.Node(op, kids)).Some?
    requires Translate(kids[0].kids[0]).Some? && PrintsAs(words, kids[0].kids[0], Text(words, Translate(kids[0].kids[0]).value))
    ensures PrintsAs(words, Sql.Node(op, kids), Text(words, Translate(Sql.Node(op, kids)).value))
  {
    hide Bracketed;
    var xs := [Translate(kids[0].kids[0]).value];
    assert Translate(Sql.Node(op, kids)) == Build(op, xs);
    ClosedText(words, Build(op, xs).value.op, xs);
    assert Text(words, xs[0]) == Text(words, Translate(kids[0].kids[0]).value);
  }

  /** The Cypher text of an SQL expression reads back as the translation's tree exactly when the SQL is such as prints
      right: the translation adds no brackets, and these are the places where its operators bind looser than SQL's. */
  lemma TranslationReadsBack(words: Words, e: Sql.Expr)
    requires Translate(e).Some? && SqlBracketed(e)
    ensures var t := Text(words, Translate(e).value); Reading(Print(t)) == Some(t) <==> PrintsRight(e)
  {
    hide Reading, Print, Bracketed, Text, PrintsRight;
    ReadsBackExactly(Text(words, Translate(e).value));
    TextIs(words, e);
  }

  /** SAFE_DIVIDE reads back right exactly when its operands do and its divisor binds tighter than a product: a
      divisor that is a sum, difference or product is printed without the brackets it needs. */
  lemma SafeDivideReadsBack(words: Words, x: CyExpr, y: CyExpr)
    ensures var t := Text(words, Build(Sql.SafeDivideOp, [x, y]).value);
            Reading(Print(t)) == Some(t)
            <==> Bracketed(Text(words, x)) && Bracketed(Text(words, y)) && Level(Text(words, y)) > MULTIPLY
  {
    hide Reading, Print, Bracketed;
    var tx, ty := Text(words, x), Text(words, y);
    var zero, nothing := CyLit(Sql.Num(0.0)), CyLit(Sql.Null);
    var test, quotient := CyNode(CyCompare(Sql.Eq), [y, zero]), CyNode(CyDivide, [x, y]);
    var t := Text(words, CyNode(CyCase, [test, nothing, quotient]));
    assert Text(words, test) == Bin(Compare(0), ty, Text(words, zero));
    assert Text(words, quotient) == Bin(Over, Closed(D.TO_FLOAT, [tx]), ty);
    assert t == Closed(D.CASE, [Text(words, test), Text(words, nothing), Text(words, quotient)]);
    ReadsBackExactly(t);
    QuotientBracketed(tx, ty, Text(words, zero), Text(words, nothing));
  }

  lemma QuotientBracketed(x: Tree, y: Tree, zero: Tree, nothing: Tree)
    requires zero.Atom? && nothing.Atom?
    ensures Bracketed(Closed(D.CASE, [Bin(Compare(0), y, zero), nothing, Bin(Over, Closed(D.TO_FLOAT, [x]), y)]))
            <==> Bracketed(x) && Bracketed(y) && Level(y) > MULTIPLY
  {
    hide Bracketed;
    assert Bracketed(zero) && Bracketed(nothing) by {
      AtomsBracketed(zero);
      AtomsBracketed(nothing);
    }
    var test, quotient := Bin(Compare(0), y, zero), Bin(Over, Closed(D.TO_FLOAT, [x]), y);
    OnePart(D.TO_FLOAT, x);
    ThreeParts(D.CASE, test, nothing, quotient);
    OperandsBracketed(test);
    OperandsBracketed(quotient);
  }

  lemma AtomsBracketed(t: Tree)
    requires t.Atom?
    ensures Bracketed(t)
  {
  }

  lemma OperandsBracketed(t: Tree)
    requires t.Bin?
    ensures Bracketed(t) <==> Bracketed(t.l) && Bracketed(t.r) && Level(t.r) > LevelOf(t.op)
                              && (if t.op.Compare? then Level(t.l) > COMPARE else Level(t.l) >= LevelOf(t.op))
  {
  }
}
