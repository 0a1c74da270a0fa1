/** Cypher text, as tokens: how an expression's tree prints, and what reading it by operator precedence gives. */
module Printing {
  import opened Options

  /** Operators by how tightly they bind; comparisons of any kind are one level, and chain. */
  datatype BinOp = Or | And | Compare(which: nat) | In | Plus | Minus | Times | Over

  const OR := 0
  const AND := 1
  const NOT := 2
  const COMPARE := 3
  const IN := 4
  const ADD := 5
  const MULTIPLY := 6
  const NEGATE := 7
  const ATOM := 8

  function LevelOf(op: BinOp): nat {
    match op
    case Or => OR
    case And => AND
    case Compare(_) => COMPARE
    case In => IN
    case Plus => ADD
    case Minus => ADD
    case Times => MULTIPLY
    case Over => MULTIPLY
  }

  /** A tree: `Closed` is what has its own words around and between its parts (a function's call, CASE ... END, a list).
      A comparison of a comparison is a chain of them, not a comparison of its truth. */
  datatype Tree =
    | Atom(id: nat)
    | Paren(x: Tree)
    | Closed(which: nat, parts: seq<Tree>)
    | Not(x: Tree)
    | Neg(x: Tree)
    | IsNull(x: Tree)
    | Bin(op: BinOp, l: Tree, r: Tree)
    | Chain(op: BinOp, l: Tree, r: Tree)

  datatype Token = Word(id: nat) | Open | Close | Begin(which: nat) | Sep | End | NotSign | NullTest | Sign(op: BinOp)

  function Level(t: Tree): nat {
    match t
    case Atom(_) => ATOM
    case Paren(_) => ATOM
    case Closed(_, _) => ATOM
    case Not(_) => NOT
    case Neg(_) => NEGATE
    case IsNull(_) => IN
    case Bin(op, _, _) => LevelOf(op)
    case Chain(op, _, _) => LevelOf(op)
  }

  function Print(t: Tree): (r: seq<Token>)
    ensures r != []
    decreases t
  {
    match t
    case Atom(id) => [Word(id)]
    case Paren(x) => [Open] + Print(x) + [Close]
    case Closed(k, parts) => [Begin(k)] + PrintParts(parts)
    case Not(x) => [NotSign] + Print(x)
    case Neg(x) => [Sign(Minus)] + Print(x)
    case IsNull(x) => Print(x) + [NullTest]
    case Bin(op, l, r) => Print(l) + [Sign(op)] + Print(r)
    case Chain(op, l, r) => Print(l) + [Sign(op)] + Print(r)
  }

  function PrintParts(parts: seq<Tree>): (r: seq<Token>)
    ensures r != []
    decreases parts
  {
    if parts == [] then [End]
    else [Sep] + Print(parts[0]) + PrintParts(parts[1..])
  }

  predicate IsComparison(t: Tree) {
    t.Chain? || (t.Bin? && t.op.Compare?)
  }

  /** Every operand binds at least as tightly as its place needs: a looser one is in brackets. */
  predicate Bracketed(t: Tree)
    decreases t
  {
    match t
    case Atom(_) => true
    case Paren(x) => Bracketed(x)
    case Closed(_, parts) => forall i :: 0 <= i < |parts| ==> Bracketed(parts[i])
    case Not(x) => Bracketed(x) && Level(x) >= NOT
    case Neg(x) => Bracketed(x) && Level(x) >= NEGATE
    case IsNull(x) => Bracketed(x) && Level(x) >= IN
    case Bin(op, l, r) =>
      Bracketed(l) && Bracketed(r) && Level(r) > LevelOf(op) && (if op.Compare? then Level(l) > COMPARE else Level(l) >= LevelOf(op))
    case Chain(op, l, r) => Bracketed(l) && Bracketed(r) && op.Compare? && IsComparison(l) && Level(r) > COMPARE
  }

  // ---- reading, by precedence

  datatype Read = Read(tree: Tree, rest: seq<Token>)

  /** An operand of a level: a prefix operator of that level and its operand, else operands joined by the level's
      operators, left to right. */
  function Parse(level: nat, ts: seq<Token>): (r: Option<Read>)
    requires level <= ATOM
    ensures r.Some? ==> |r.value.rest| < |ts|
    decreases |ts|, 1, ATOM - level
  {
    if level == ATOM then ParseAtom(ts)
    else if level == NOT && ts != [] && ts[0] == NotSign then
      var x := Parse(NOT, ts[1..]);
      if x.None? then None else Some(Read(Not(x.value.tree), x.value.rest))
    else if level == NEGATE && ts != [] && ts[0] == Sign(Minus) then
      var x := Parse(NEGATE, ts[1..]);
      if x.None? then None else Some(Read(Neg(x.value.tree), x.value.rest))
    else
      var x := Parse(level + 1, ts);
      if x.None? then None else Onward(level, x.value.tree, x.value.rest)
  }

  function Join(op: BinOp, l: Tree, r: Tree): Tree {
    if op.Compare? && IsComparison(l) then Chain(op, l, r) else Bin(op, l, r)
  }

  /** The rest of a level's operators, after an operand. */
  function Onward(level: nat, left: Tree, ts: seq<Token>): (r: Option<Read>)
    requires level < ATOM
    ensures r.Some? ==> |r.value.rest| <= |ts|
    decreases |ts|, 0, 0
  {
    if ts == [] then Some(Read(left, ts))
    else if ts[0].Sign? && LevelOf(ts[0].op) == level then
      var x := Parse(level + 1, ts[1..]);
      if x.None? then None else Onward(level, Join(ts[0].op, left, x.value.tree), x.value.rest)
    else if ts[0] == NullTest && level == IN then Onward(level, IsNull(left), ts[1..])
    else Some(Read(left, ts))
  }

  function ParseAtom(ts: seq<Token>): (r: Option<Read>)
    ensures r.Some? ==> |r.value.rest| < |ts|
    decreases |ts|, 0, 0
  {
    if ts == [] then None
    else
      match ts[0]
      case Word(id) => Some(Read(Atom(id), ts[1..]))
      case Open =>
        var x := Parse(OR, ts[1..]);
        if x.None? || x.value.rest == [] || x.value.rest[0] != Close then None
        else Some(Read(Paren(x.value.tree), x.value.rest[1..]))
      case Begin(k) =>
        var ps := ParseParts(ts[1..]);
        if ps.None? then None else Some(Read(Closed(k, ps.value.0), ps.value.1))
      case _ => None
  }

  function ParseParts(ts: seq<Token>): (r: Option<(seq<Tree>, seq<Token>)>)
    ensures r.Some? ==> |r.value.1| < |ts|
    decreases |ts|, 2, 0
  {
    if ts == [] then None
    else if ts[0] == End then Some(([], ts[1..]))
    else if ts[0] == Sep then
      var x := Parse(OR, ts[1..]);
      if x.None? then None
      else
        var more := ParseParts(x.value.rest);
        if more.None? then None else Some(([x.value.tree] + more.value.0, more.value.1))
    else None
  }

  /** The whole text as one expression. */
  function Reading(ts: seq<Token>): Option<Tree> {
    var x := Parse(OR, ts);
    if x.Some? && x.value.rest == [] then Some(x.value.tree) else None
  }

  // ---- what a bracketed tree prints is read back as it

  /** The next token continues no operator tighter than the level. */
  predicate Stops(level: nat, rest: seq<Token>) {
    rest == [] || (!(rest[0].Sign? && LevelOf(rest[0].op) > level) && !(rest[0] == NullTest && IN > level))
  }

  lemma StopsTighter(level: nat, rest: seq<Token>, left: Tree)
    requires level + 1 < ATOM && Stops(level, rest)
    ensures Onward(level + 1, left, rest) == Some(Read(left, rest)) && Stops(level + 1, rest)
  {
  }

  /** At a tree's own level or looser, its text reads as the tree, and the level's operators go on from there. */
  lemma {:induction false} ReadsOn(t: Tree, level: nat, rest: seq<Token>)
    requires Bracketed(t) && level <= Level(t) && Stops(level, rest)
    ensures Parse(level, Print(t) + rest) == if level == ATOM then Some(Read(t, rest)) else Onward(level, t, rest)
    decreases t, ATOM - level, 1
  {
    hide Parse, Onward, ParseAtom, Print, Bracketed, ParseParts;
    if level < Level(t) {
      Looser(t, level, rest);
    } else if level == ATOM {
      AtomReads(t, rest);
    } else {
      OwnLevel(t, rest);
    }
  }

  lemma {:induction false} Looser(t: Tree, level: nat, rest: seq<Token>)
    requires Bracketed(t) && level < Level(t) && Stops(level, rest)
    ensures Parse(level, Print(t) + rest) == Onward(level, t, rest)
    decreases t, ATOM - level, 0
  {
    hide Parse, Onward, ParseAtom, Print, Bracketed, ParseParts, Stops;
    LevelTop(t);
    StopsNext(level, rest);
    ReadsOn(t, level + 1, rest);
    if level + 1 < ATOM {
      StopsTighter(level, rest, t);
    }
    FirstToken(t);
    ParseDown(level, Print(t) + rest);
    assert (Print(t) + rest)[0] == Print(t)[0];
  }

  lemma LevelTop(t: Tree)
    ensures Level(t) <= ATOM
  {
  }

  lemma StopsNext(level: nat, rest: seq<Token>)
    requires Stops(level, rest)
    ensures Stops(level + 1, rest)
  {
  }

  lemma ParseDown(level: nat, ts: seq<Token>)
    requires level < ATOM && ts != []
    requires !(level == NOT && ts[0] == NotSign) && !(level == NEGATE && ts[0] == Sign(Minus))
    ensures var x := Parse(level + 1, ts); Parse(level, ts) == if x.None? then None else Onward(level, x.value.tree, x.value.rest)
  {
  }

  /** A tree's text starts with a prefix sign only when the tree, or its leftmost operand, is such. */
  lemma {:induction false} FirstToken(t: Tree)
    requires Bracketed(t)
    ensures Print(t)[0] == NotSign ==> Level(t) <= NOT
    ensures Print(t)[0] == Sign(Minus) ==> Level(t) <= NEGATE
    decreases t
  {
    match t
    case Atom(_) =>
    case Paren(_) =>
    case Closed(_, _) =>
    case Not(_) =>
    case Neg(_) =>
    case IsNull(x) => FirstToken(x);
    case Bin(_, l, _) => FirstToken(l);
    case Chain(_, l, _) => FirstToken(l);
  }

  lemma {:induction false} AtomReads(t: Tree, rest: seq<Token>)
    requires Bracketed(t) && Level(t) == ATOM
    ensures Parse(ATOM, Print(t) + rest) == Some(Read(t, rest))
    decreases t, 0, 0
  {
    hide Onward, Stops;
    match t
    case Atom(id) =>
      assert (Print(t) + rest)[1..] == rest;
    case Paren(x) =>
      var after := [Close] + rest;
      assert (Print(t) + rest)[1..] == Print(x) + after;
      CloseStops(after);
      ReadsOn(x, OR, after);
      OnwardStops(OR, x, after);
      assert after[1..] == rest;
    case Closed(k, parts) =>
      assert (Print(t) + rest)[1..] == PrintParts(parts) + rest;
      PartsRead(parts, rest);
  }

  lemma CloseStops(after: seq<Token>)
    requires after != [] && (after[0] == Close || after[0] == Sep || after[0] == End)
    ensures forall level :: Stops(level, after)
  {
  }

  lemma OnwardStops(level: nat, left: Tree, after: seq<Token>)
    requires level < ATOM && after != [] && (after[0] == Close || after[0] == Sep || after[0] == End)
    ensures Onward(level, left, after) == Some(Read(left, after))
  {
  }

  lemma {:induction false} PartsRead(parts: seq<Tree>, rest: seq<Token>)
    requires forall i :: 0 <= i < |parts| ==> Bracketed(parts[i])
    ensures ParseParts(PrintParts(parts) + rest) == Some((parts, rest))
    decreases parts, 0
  {
    hide Onward, Stops, Parse, Bracketed;
    var ts := PrintParts(parts) + rest;
    if parts == [] {
      assert ts[1..] == rest;
    } else {
      var after := PrintParts(parts[1..]) + rest;
      assert ts[1..] == Print(parts[0]) + after;
      assert after[0] == Sep || after[0] == End;
      CloseStops(after);
      ReadsOn(parts[0], OR, after);
      OnwardStops(OR, parts[0], after);
      PartsRead(parts[1..], rest);
      assert [parts[0]] + parts[1..] == parts;
    }
  }

  /** A tree of an operator, at the operator's level. */
  lemma {:induction false} OwnLevel(t: Tree, rest: seq<Token>)
    requires Bracketed(t) && Level(t) < ATOM && Stops(Level(t), rest)
    ensures Parse(Level(t), Print(t) + rest) == Onward(Level(t), t, rest)
    decreases t, 0, 1
  {
    match t
    case Not(x) => PrefixReads(t, x, NotSign, rest);
    case Neg(x) => PrefixReads(t, x, Sign(Minus), rest);
    case IsNull(x) =>
      var after := [NullTest] + rest;
      assert Print(t) + rest == Print(x) + after && after[1..] == rest;
      ReadsOn(x, IN, after);
    case Bin(op, l, r) => InfixReads(t, op, l, r, rest);
    case Chain(op, l, r) => InfixReads(t, op, l, r, rest);
  }

  lemma {:induction false} PrefixReads(t: Tree, x: Tree, sign: Token, rest: seq<Token>)
    requires (t == Not(x) && sign == NotSign) || (t == Neg(x) && sign == Sign(Minus))
    requires Bracketed(t) && Stops(Level(t), rest)
    ensures Parse(Level(t), Print(t) + rest) == Onward(Level(t), t, rest)
    decreases t, 0, 0
  {
    hide Onward;
    var ts := Print(t) + rest;
    assert ts[0] == sign && ts[1..] == Print(x) + rest;
    ReadsOn(x, Level(t), rest);
    PrefixEnds(x, Level(t), rest);
    PrefixEnds(t, Level(t), rest);
  }

  /** Nothing is joined at a prefix operator's level. */
  lemma PrefixEnds(t: Tree, level: nat, rest: seq<Token>)
    requires (level == NOT || level == NEGATE) && Stops(level, rest)
    ensures Onward(level, t, rest) == Some(Read(t, rest))
  {
  }

  lemma {:induction false} InfixReads(t: Tree, op: BinOp, l: Tree, r: Tree, rest: seq<Token>)
    requires (t == Bin(op, l, r) || t == Chain(op, l, r)) && Bracketed(t) && Stops(LevelOf(op), rest)
    ensures Parse(LevelOf(op), Print(t) + rest) == Onward(LevelOf(op), t, rest)
    decreases t, 0, 0
  {
    hide Parse, ParseAtom, ParseParts, Print;
    var level := LevelOf(op);
    var after := [Sign(op)] + Print(r) + rest;
    InfixPrint(t, op, l, r, rest);
    assert after[1..] == Print(r) + rest && Stops(level, after);
    ReadsOn(l, level, after);
    StopsNext(level, rest);
    ReadsOn(r, level + 1, rest);
    StopsTighter(level, rest, r);
    LeftComparison(t, op, l, r);
    assert Onward(level, l, after) == Onward(level, t, rest);
  }

  lemma InfixPrint(t: Tree, op: BinOp, l: Tree, r: Tree, rest: seq<Token>)
    requires t == Bin(op, l, r) || t == Chain(op, l, r)
    ensures Print(t) + rest == Print(l) + ([Sign(op)] + Print(r) + rest)
  {
    assert Print(t) == Print(l) + [Sign(op)] + Print(r);
    JoinTexts(Print(l), [Sign(op)], Print(r), rest);
  }

  lemma JoinTexts(a: seq<Token>, b: seq<Token>, c: seq<Token>, rest: seq<Token>)
    ensures a + b + c + rest == a + (b + c + rest)
  {
  }

  lemma LeftComparison(t: Tree, op: BinOp, l: Tree, r: Tree)
    requires (t == Bin(op, l, r) || t == Chain(op, l, r)) && Bracketed(t)
    ensures Join(op, l, r) == t
  {
  }

  /** What is read is bracketed. */
  lemma {:induction false} ParsedIsBracketed(level: nat, ts: seq<Token>)
    requires level <= ATOM && Parse(level, ts).Some?
    ensures var t := Parse(level, ts).value.tree; Bracketed(t) && Level(t) >= level
    decreases |ts|, 1, ATOM - level
  {
    if level == ATOM {
      AtomIsBracketed(ts);
    } else if level == NOT && ts != [] && ts[0] == NotSign {
      ParsedIsBracketed(NOT, ts[1..]);
    } else if level == NEGATE && ts != [] && ts[0] == Sign(Minus) {
      ParsedIsBracketed(NEGATE, ts[1..]);
    } else {
      ParsedIsBracketed(level + 1, ts);
      var x := Parse(level + 1, ts).value;
      OnwardIsBracketed(level, x.tree, x.rest);
    }
  }

  lemma {:induction false} OnwardIsBracketed(level: nat, left: Tree, ts: seq<Token>)
    requires level < ATOM && Onward(level, left, ts).Some? && Bracketed(left) && Level(left) >= level
    ensures var t := Onward(level, left, ts).value.tree; Bracketed(t) && Level(t) >= level
    decreases |ts|, 0, 0
  {
    if ts != [] {
      if ts[0].Sign? && LevelOf(ts[0].op) == level {
        ParsedIsBracketed(level + 1, ts[1..]);
        var x := Parse(level + 1, ts[1..]).value;
        JoinBracketed(ts[0].op, left, x.tree);
        OnwardIsBracketed(level, Join(ts[0].op, left, x.tree), x.rest);
      } else if ts[0] == NullTest && level == IN {
        OnwardIsBracketed(level, IsNull(left), ts[1..]);
      }
    }
  }

  lemma JoinBracketed(op: BinOp, l: Tree, r: Tree)
    requires Bracketed(l) && Bracketed(r) && Level(l) >= LevelOf(op) && Level(r) > LevelOf(op)
    ensures Bracketed(Join(op, l, r)) && Level(Join(op, l, r)) == LevelOf(op)
  {
    if op.Compare? && Level(l) == COMPARE && Bracketed(l) {
      assert IsComparison(l);
    }
  }

  lemma {:induction false} AtomIsBracketed(ts: seq<Token>)
    requires ParseAtom(ts).Some?
    ensures var t := ParseAtom(ts).value.tree; Bracketed(t) && Level(t) == ATOM
    decreases |ts|, 0, 0
  {
    if ts[0].Open? {
      ParsedIsBracketed(OR, ts[1..]);
    } else if ts[0].Begin? {
      PartsAreBracketed(ts[1..]);
    }
  }

  lemma {:induction false} PartsAreBracketed(ts: seq<Token>)
    requires ParseParts(ts).Some?
    ensures forall i :: 0 <= i < |ParseParts(ts).value.0| ==> Bracketed(ParseParts(ts).value.0[i])
    decreases |ts|, 2, 0
  {
    if ts[0] == Sep {
      ParsedIsBracketed(OR, ts[1..]);
      PartsAreBracketed(Parse(OR, ts[1..]).value.rest);
    }
  }

  /** A tree's text is read back as the tree exactly when each looser operand is in brackets. */
  lemma ReadsBackExactly(t: Tree)
    ensures Reading(Print(t)) == Some(t) <==> Bracketed(t)
  {
    hide Parse, Bracketed, Print, Onward;
    if Bracketed(t) {
      assert Print(t) + [] == Print(t);
      ReadsOn(t, OR, []);
      NothingOn(t);
    } else if Reading(Print(t)) == Some(t) {
      ParsedIsBracketed(OR, Print(t));
    }
  }

  lemma NothingOn(t: Tree)
    ensures Onward(OR, t, []) == Some(Read(t, []))
  {
  }

  lemma OnePart(k: nat, a: Tree)
    ensures Bracketed(Closed(k, [a])) <==> Bracketed(a)
  {
    assert [a][0] == a;
  }

  lemma ThreeParts(k: nat, a: Tree, b: Tree, c: Tree)
    ensures Bracketed(Closed(k, [a, b, c])) <==> Bracketed(a) && Bracketed(b) && Bracketed(c)
  {
    var parts := [a, b, c];
    assert parts[0] == a && parts[1] == b && parts[2] == c;
  }
}
