/** Measures over other measures: an order in which each is defined before it is used, and how they print. */
module DerivedMeasures {
  import opened Options
  import opened Printing

  type Name = nat

  /** A ratio of two other measures, or their difference, as asked for: perhaps not of two. */
  datatype Measure = Measure(alias: Name, ratio: bool, operands: seq<Name>)

  function Aliases(ms: seq<Measure>): set<Name> {
    set m | m in ms :: m.alias
  }

  predicate Ready(known: set<Name>, m: Measure) {
    |m.operands| == 2 && m.operands[0] in known && m.operands[1] in known
  }

  /** Each measure is of two others, base or before it. */
  ghost predicate IsOrder(base: set<Name>, order: seq<Measure>) {
    forall i :: 0 <= i < |order| ==>
      && |order[i].operands| == 2
      && order[i].operands[0] in base + Aliases(order[..i]) && order[i].operands[1] in base + Aliases(order[..i])
  }

  ghost predicate SameMeasures(order: seq<Measure>, asked: seq<Measure>) {
    forall m :: m in order <==> m in asked
  }

  ghost predicate HasOrder(base: set<Name>, asked: seq<Measure>) {
    exists order :: IsOrder(base, order) && SameMeasures(order, asked)
  }

  /** The names that closing the base under the measures gives leave some measure without its operands. */
  ghost predicate Stuck(base: set<Name>, asked: seq<Measure>, known: set<Name>) {
    && base <= known && (forall m :: m in asked && Ready(known, m) ==> m.alias in known)
    && exists m :: m in asked && !Ready(known, m)
  }

  lemma NoAliases()
    ensures Aliases([]) == {}
  {
  }

  lemma AskedToo(order: seq<Measure>, asked: seq<Measure>, m: Measure)
    requires SameMeasures(order, asked) && m in order
    ensures m in asked
  {
  }

  lemma {:induction false} OrderStays(base: set<Name>, asked: seq<Measure>, known: set<Name>, order: seq<Measure>, n: nat)
    requires base <= known && forall m :: m in asked && Ready(known, m) ==> m.alias in known
    requires IsOrder(base, order) && SameMeasures(order, asked) && n <= |order|
    ensures Aliases(order[..n]) <= known && forall i :: 0 <= i < n ==> Ready(known, order[i])
  {
    hide IsOrder, Aliases, SameMeasures;
    if n == 0 {
      assert Aliases(order[..0]) == {} by { NoAliases(); }
    } else {
      OrderStays(base, asked, known, order, n - 1);
      assert order[..n] == order[..n - 1] + [order[n - 1]];
      AliasesWith(order[..n - 1], order[n - 1]);
      OrderAt(base, order, n - 1);
      assert order[n - 1] in asked by { AskedToo(order, asked, order[n - 1]); }
    }
  }

  lemma StuckHasNoOrder(base: set<Name>, asked: seq<Measure>, known: set<Name>)
    requires Stuck(base, asked, known)
    ensures !HasOrder(base, asked)
  {
    if order :| IsOrder(base, order) && SameMeasures(order, asked) {
      OrderStays(base, asked, known, order, |order|);
    }
  }

  function ReadyOf(known: set<Name>, ms: seq<Measure>): seq<Measure> {
    if ms == [] then [] else (if Ready(known, ms[0]) then [ms[0]] else []) + ReadyOf(known, ms[1..])
  }

  function NotReady(known: set<Name>, ms: seq<Measure>): seq<Measure> {
    if ms == [] then [] else (if Ready(known, ms[0]) then [] else [ms[0]]) + NotReady(known, ms[1..])
  }

  lemma {:induction false} SplitBy(known: set<Name>, ms: seq<Measure>)
    ensures forall m :: m in ReadyOf(known, ms) <==> m in ms && Ready(known, m)
    ensures forall m :: m in NotReady(known, ms) <==> m in ms && !Ready(known, m)
    ensures |ReadyOf(known, ms)| + |NotReady(known, ms)| == |ms|
  {
    if ms != [] {
      SplitBy(known, ms[1..]);
      assert ms == [ms[0]] + ms[1..];
    }
  }

  lemma OrderGrows(base: set<Name>, order: seq<Measure>, ready: seq<Measure>)
    requires IsOrder(base, order) && forall m :: m in ready ==> Ready(base + Aliases(order), m)
    ensures IsOrder(base, order + ready)
  {
    var all := order + ready;
    forall i | 0 <= i < |all|
      ensures Ready(base + Aliases(all[..i]), all[i])
    {
      if i < |order| {
        assert all[..i] == order[..i] && Ready(base + Aliases(order[..i]), order[i]);
      } else {
        assert all[i] == ready[i - |order|] && all[i] in ready;
        assert all[..i] == order + ready[..i - |order|];
        assert Aliases(order) <= Aliases(all[..i]);
      }
    }
  }

  /** The derived measures in an order that defines each before it is used; None (Unfit) exactly when there is none.
      Each round defines those whose two operands are known. */
  method Order(base: set<Name>, asked: seq<Measure>) returns (derived: Option<seq<Measure>>)
    ensures derived.Some? <==> HasOrder(base, asked)
    ensures derived.Some? ==> IsOrder(base, derived.value) && SameMeasures(derived.value, asked)
  {
    var order, pending := [], asked;
    while pending != []
      invariant IsOrder(base, order) && forall m :: m in order || m in pending <==> m in asked
      decreases |pending|
    {
      var known := base + Aliases(order);
      SplitBy(known, pending);
      var ready := ReadyOf(known, pending);
      if ready == [] {
        assert pending[0] in pending;
        assert Stuck(base, asked, known);
        StuckHasNoOrder(base, asked, known);
        return None;
      }
      OrderGrows(base, order, ready);
      order := order + ready;
      pending := NotReady(known, pending);
    }
    return Some(order);
  }

  // ---- their text

  const CASE := 0
  const TO_FLOAT := 1
  const SAFE_DIVIDE := 2
  const ZERO: Tree := Atom(0)
  const NULL: Tree := Atom(1)

  /** A ratio's tree in Cypher: null over zero, else the quotient of real numbers. */
  function RatioTree(x: Tree, y: Tree): Tree {
    Closed(CASE, [Bin(Compare(0), y, ZERO), NULL, Bin(Over, Closed(TO_FLOAT, [x]), y)])
  }

  function DifferenceTree(x: Tree, y: Tree): Tree {
    Bin(Minus, x, y)
  }

  /** A quotient's text reads back right exactly when its parts' do and its divisor binds tighter than a product. */
  lemma RatioReadsBack(x: Tree, y: Tree)
    ensures Reading(Print(RatioTree(x, y))) == Some(RatioTree(x, y)) <==> Bracketed(x) && Bracketed(y) && Level(y) > MULTIPLY
  {
    hide Reading, Print;
    var t := RatioTree(x, y);
    ReadsBackExactly(t);
    assert Bracketed(ZERO) && Bracketed(NULL);
    OnePart(TO_FLOAT, x);
    ThreeParts(CASE, Bin(Compare(0), y, ZERO), NULL, Bin(Over, Closed(TO_FLOAT, [x]), y));
  }

  lemma DifferenceReadsBack(x: Tree, y: Tree)
    ensures Reading(Print(DifferenceTree(x, y))) == Some(DifferenceTree(x, y))
            <==> Bracketed(x) && Bracketed(y) && Level(x) >= ADD && Level(y) > ADD
  {
    hide Reading, Print;
    ReadsBackExactly(DifferenceTree(x, y));
  }

  lemma Regroup(a: seq<Token>, b: seq<Token>, c: seq<Token>, d: seq<Token>, e: seq<Token>)
    ensures a + b + (c + d + e) == (a + b + c) + d + e
  {
  }

  /** A divisor printed without brackets: x over (a plus b) is read as (x over a) plus b. */
  lemma UnbracketedDivisor(x: Tree, a: nat, b: nat)
    requires Bracketed(x)
    ensures var over := Bin(Over, Closed(TO_FLOAT, [x]), Bin(Plus, Atom(a), Atom(b)));
            var read := Bin(Plus, Bin(Over, Closed(TO_FLOAT, [x]), Atom(a)), Atom(b));
            read != over && Reading(Print(over)) == Some(read)
  {
    hide Reading;
    var call := Closed(TO_FLOAT, [x]);
    var read := Bin(Plus, Bin(Over, call, Atom(a)), Atom(b));
    OnePart(TO_FLOAT, x);
    assert Bracketed(Bin(Over, call, Atom(a)));
    assert Bracketed(read);
    ReadsBackExactly(read);
    var over := Bin(Over, call, Bin(Plus, Atom(a), Atom(b)));
    assert Print(over) == Print(call) + [Sign(Over)] + (Print(Atom(a)) + [Sign(Plus)] + Print(Atom(b)));
    assert Print(read) == (Print(call) + [Sign(Over)] + Print(Atom(a))) + [Sign(Plus)] + Print(Atom(b));
    Regroup(Print(call), [Sign(Over)], Print(Atom(a)), [Sign(Plus)], Print(Atom(b)));
  }

  // ---- the derived measures of a plan

  /** The text of each name: a base measure's is its own name, a derived one's is over the two before it. */
  function TreeOf(order: seq<Measure>, n: Name): Tree
    decreases |order|
  {
    if order == [] then Atom(n)
    else
      var m, before := order[|order| - 1], order[..|order| - 1];
      if m.alias != n || |m.operands| != 2 then TreeOf(before, n)
      else if m.ratio then RatioTree(TreeOf(before, m.operands[0]), TreeOf(before, m.operands[1]))
      else DifferenceTree(TreeOf(before, m.operands[0]), TreeOf(before, m.operands[1]))
  }

  lemma ReadyAt(base: set<Name>, order: seq<Measure>, i: nat)
    requires IsOrder(base, order) && i < |order|
    ensures Ready(base + Aliases(order[..i]), order[i]) && Aliases(order[..i + 1]) == Aliases(order[..i]) + {order[i].alias}
  {
    hide IsOrder, Ready;
    assert order[..i + 1] == order[..i] + [order[i]];
    AliasesWith(order[..i], order[i]);
    OrderAt(base, order, i);
  }

  lemma AliasesWith(ms: seq<Measure>, m: Measure)
    ensures Aliases(ms + [m]) == Aliases(ms) + {m.alias}
  {
    assert forall x :: x in ms + [m] <==> x in ms || x == m;
  }

  lemma OrderAt(base: set<Name>, order: seq<Measure>, i: nat)
    requires IsOrder(base, order) && i < |order|
    ensures Ready(base + Aliases(order[..i]), order[i])
  {
    hide Aliases;
  }

  lemma NoneDerived()
    ensures forall n :: TreeOf([], n) == Atom(n)
  {
  }

  lemma TreeNext(before: seq<Measure>, m: Measure, n: Name)
    requires |m.operands| == 2
    ensures TreeOf(before + [m], n) ==
      if m.alias != n then TreeOf(before, n)
      else if m.ratio then RatioTree(TreeOf(before, m.operands[0]), TreeOf(before, m.operands[1]))
      else DifferenceTree(TreeOf(before, m.operands[0]), TreeOf(before, m.operands[1]))
  {
    assert (before + [m])[..|before|] == before;
  }

  /** The loop that fills in each output's text; no operand it looks up is missing. */
  method Texts(base: set<Name>, order: seq<Measure>) returns (texts: map<Name, Tree>)
    requires IsOrder(base, order)
    ensures texts.Keys == base + Aliases(order) && forall n :: n in texts ==> texts[n] == TreeOf(order, n)
  {
    hide TreeOf, RatioTree, DifferenceTree, IsOrder;
    texts := map n | n in base :: Atom(n);
    NoneDerived();
    for i := 0 to |order|
      invariant texts.Keys == base + Aliases(order[..i]) && forall n :: n in texts ==> texts[n] == TreeOf(order[..i], n)
    {
      var m := order[i];
      assert order[..i + 1] == order[..i] + [m];
      ReadyAt(base, order, i);
      forall n
        ensures TreeOf(order[..i + 1], n) == if n != m.alias then TreeOf(order[..i], n)
          else if m.ratio then RatioTree(TreeOf(order[..i], m.operands[0]), TreeOf(order[..i], m.operands[1]))
          else DifferenceTree(TreeOf(order[..i], m.operands[0]), TreeOf(order[..i], m.operands[1]))
      {
        TreeNext(order[..i], m, n);
      }
      var x, y := texts[m.operands[0]], texts[m.operands[1]];
      texts := texts[m.alias := if m.ratio then RatioTree(x, y) else DifferenceTree(x, y)];
    }
    assert order[..|order|] == order;
  }

  /** No name is of two measures. */
  ghost predicate Apart(base: set<Name>, order: seq<Measure>) {
    && (forall i :: 0 <= i < |order| ==> order[i].alias !in base)
    && forall i, k :: 0 <= i < k < |order| ==> order[i].alias != order[k].alias
  }

  lemma OperandsEarlier(base: set<Name>, order: seq<Measure>, i: nat)
    requires IsOrder(base, order) && Apart(base, order) && i < |order|
    ensures |order[i].operands| == 2
    ensures forall k :: i <= k < |order| ==> order[k].alias != order[i].operands[0] && order[k].alias != order[i].operands[1]
  {
    OrderAt(base, order, i);
    assert forall m :: m in order[..i] ==> exists k :: 0 <= k < i && order[k] == m;
  }

  lemma {:induction false} TreeStays(order: seq<Measure>, k: nat, n: Name)
    requires k <= |order| && forall i :: k <= i < |order| ==> order[i].alias != n
    ensures TreeOf(order, n) == TreeOf(order[..k], n)
    decreases |order|
  {
    if k < |order| {
      TreeStays(order[..|order| - 1], k, n);
      assert order[..|order| - 1][..k] == order[..k];
    } else {
      assert order[..k] == order;
    }
  }

  ghost predicate IsText(order: seq<Measure>, m: Measure)
    requires |m.operands| == 2
  {
    var x, y := TreeOf(order, m.operands[0]), TreeOf(order, m.operands[1]);
    TreeOf(order, m.alias) ==
      if m.ratio then Closed(CASE, [Bin(Compare(0), y, Atom(0)), Atom(1), Bin(Over, Closed(TO_FLOAT, [x]), y)]) else Bin(Minus, x, y)
  }

  /** A base measure's text is its name; a ratio's is null where its divisor's is zero, else the one as a real number over the
      other; a difference's, the one minus the other. */
  lemma TextsAre(base: set<Name>, order: seq<Measure>)
    requires IsOrder(base, order) && Apart(base, order)
    ensures forall n :: n in base ==> TreeOf(order, n) == Atom(n)
    ensures forall i :: 0 <= i < |order| ==> |order[i].operands| == 2 && IsText(order, order[i])
  {
    hide IsOrder;
    forall n | n in base
      ensures TreeOf(order, n) == Atom(n)
    {
      TreeStays(order, 0, n);
    }
    forall i | 0 <= i < |order|
      ensures |order[i].operands| == 2 && IsText(order, order[i])
    {
      OperandsEarlier(base, order, i);
      TreeStays(order, i + 1, order[i].alias);
      TreeStays(order, i, order[i].operands[0]);
      TreeStays(order, i, order[i].operands[1]);
      assert order[..i + 1] == order[..i] + [order[i]];
      TreeNext(order[..i], order[i], order[i].alias);
    }
  }

  /** The name is of a difference. */
  predicate IsDifference(order: seq<Measure>, n: Name) {
    TreeOf(order, n).Bin?
  }

  lemma {:induction false} TreeLevels(order: seq<Measure>, n: Name)
    ensures Level(TreeOf(order, n)) == if IsDifference(order, n) then ADD else ATOM
    ensures IsDifference(order, n) <==> TreeOf(order, n).Bin? && TreeOf(order, n).op == Minus
  {
    if order != [] {
      TreeLevels(order[..|order| - 1], n);
    }
  }

  /** The i-th derived measure's text is bracketed where it must be; its second operand is no difference. */
  predicate IsBracketed(order: seq<Measure>, i: nat)
    requires i < |order|
  {
    Bracketed(TreeOf(order[..i + 1], order[i].alias))
  }

  predicate SecondIsTight(order: seq<Measure>, i: nat)
    requires i < |order|
  {
    |order[i].operands| == 2 && !IsDifference(order[..i], order[i].operands[1])
  }

  predicate AllBracketed(order: seq<Measure>) {
    forall i :: 0 <= i < |order| ==> IsBracketed(order, i)
  }

  predicate NoSecondDifference(order: seq<Measure>) {
    forall i :: 0 <= i < |order| ==> SecondIsTight(order, i)
  }

  lemma LastOf(order: seq<Measure>)
    requires order != []
    ensures var n := |order| - 1;
            && (AllBracketed(order) <==> AllBracketed(order[..n]) && IsBracketed(order, n))
            && (NoSecondDifference(order) <==> NoSecondDifference(order[..n]) && SecondIsTight(order, n))
  {
    hide TreeOf, Bracketed, IsDifference;
    var n := |order| - 1;
    var before := order[..n];
    forall i | 0 <= i < n
      ensures IsBracketed(before, i) == IsBracketed(order, i) && SecondIsTight(before, i) == SecondIsTight(order, i)
    {
      assert before[..i + 1] == order[..i + 1] && before[..i] == order[..i];
    }
  }

  /** Every derived measure reads back right exactly when none has a difference for its second operand. */
  lemma {:induction false} DerivedReadBack(base: set<Name>, order: seq<Measure>)
    requires IsOrder(base, order)
    ensures AllBracketed(order) <==> NoSecondDifference(order)
    ensures AllBracketed(order) ==> forall n :: Reading(Print(TreeOf(order, n))) == Some(TreeOf(order, n))
  {
    AllRead(base, order);
    if AllBracketed(order) {
      forall n
        ensures Reading(Print(TreeOf(order, n))) == Some(TreeOf(order, n))
      {
        ReadsBackExactly(TreeOf(order, n));
      }
    }
  }

  lemma {:induction false} AllRead(base: set<Name>, order: seq<Measure>)
    requires IsOrder(base, order)
    ensures AllBracketed(order) <==> NoSecondDifference(order)
    ensures AllBracketed(order) ==> forall n :: Bracketed(TreeOf(order, n))
  {
    hide TreeOf, Bracketed, IsDifference, AllBracketed, NoSecondDifference, IsOrder;
    if order == [] {
      NoneLoose();
    } else {
      var n := |order| - 1;
      var before, m := order[..n], order[n];
      OrderPrefix(base, order);
      AllRead(base, before);
      LastOf(order);
      ReadyAt(base, order, n);
      assert order[..n + 1] == order == before + [m];
      LastReadsBack(before, m);
    }
  }

  lemma NoneLoose()
    ensures forall n :: Bracketed(TreeOf([], n))
    ensures AllBracketed([]) && NoSecondDifference([])
  {
  }

  lemma OrderPrefix(base: set<Name>, order: seq<Measure>)
    requires IsOrder(base, order) && order != []
    ensures IsOrder(base, order[..|order| - 1])
  {
    var before := order[..|order| - 1];
    forall i | 0 <= i < |before|
      ensures Ready(base + Aliases(before[..i]), before[i])
    {
      assert before[..i] == order[..i];
      assert Ready(base + Aliases(order[..i]), order[i]);
    }
  }

  lemma LastReadsBack(before: seq<Measure>, m: Measure)
    requires |m.operands| == 2
    ensures (forall n :: Bracketed(TreeOf(before, n))) ==>
      (Bracketed(TreeOf(before + [m], m.alias)) <==> !IsDifference(before, m.operands[1]))
    ensures IsDifference(before, m.operands[1]) ==> !Bracketed(TreeOf(before + [m], m.alias))
    ensures forall n :: n != m.alias ==> TreeOf(before + [m], n) == TreeOf(before, n)
  {
    hide Reading, Print;
    var x, y := TreeOf(before, m.operands[0]), TreeOf(before, m.operands[1]);
    assert (before + [m])[..|before|] == before;
    TreeLevels(before, m.operands[0]);
    TreeLevels(before, m.operands[1]);
    RatioReadsBack(x, y);
    ReadsBackExactly(RatioTree(x, y));
    DifferenceReadsBack(x, y);
    ReadsBackExactly(DifferenceTree(x, y));
  }

  /** In SQL, the operands are bracketed or a function's arguments, so it always reads back right. */
  function SqlTreeOf(order: seq<Measure>, n: Name): Tree
    decreases |order|
  {
    if order == [] then Atom(n)
    else
      var m, before := order[|order| - 1], order[..|order| - 1];
      if m.alias != n || |m.operands| != 2 then SqlTreeOf(before, n)
      else if m.ratio then Closed(SAFE_DIVIDE, [SqlTreeOf(before, m.operands[0]), SqlTreeOf(before, m.operands[1])])
      else Bin(Minus, Paren(SqlTreeOf(before, m.operands[0])), Paren(SqlTreeOf(before, m.operands[1])))
  }

  lemma {:induction false} SqlStays(order: seq<Measure>, k: nat, n: Name)
    requires k <= |order| && forall i :: k <= i < |order| ==> order[i].alias != n
    ensures SqlTreeOf(order, n) == SqlTreeOf(order[..k], n)
    decreases |order|
  {
    if k < |order| {
      SqlStays(order[..|order| - 1], k, n);
      assert order[..|order| - 1][..k] == order[..k];
    } else {
      assert order[..k] == order;
    }
  }

  ghost predicate IsSqlText(order: seq<Measure>, m: Measure)
    requires |m.operands| == 2
  {
    var x, y := SqlTreeOf(order, m.operands[0]), SqlTreeOf(order, m.operands[1]);
    SqlTreeOf(order, m.alias) == if m.ratio then Closed(SAFE_DIVIDE, [x, y]) else Bin(Minus, Paren(x), Paren(y))
  }

  /** In SQL, a ratio is a SAFE_DIVIDE of the two, a difference the one in brackets minus the other in brackets. */
  lemma SqlTextsAre(base: set<Name>, order: seq<Measure>)
    requires IsOrder(base, order) && Apart(base, order)
    ensures forall n :: n in base ==> SqlTreeOf(order, n) == Atom(n)
    ensures forall i :: 0 <= i < |order| ==> |order[i].operands| == 2 && IsSqlText(order, order[i])
  {
    hide IsOrder;
    forall n | n in base
      ensures SqlTreeOf(order, n) == Atom(n)
    {
      SqlStays(order, 0, n);
    }
    forall i | 0 <= i < |order|
      ensures |order[i].operands| == 2 && IsSqlText(order, order[i])
    {
      OperandsEarlier(base, order, i);
      SqlStays(order, i + 1, order[i].alias);
      SqlStays(order, i, order[i].operands[0]);
      SqlStays(order, i, order[i].operands[1]);
      assert order[..i + 1][..i] == order[..i];
    }
  }

  lemma {:induction false} SqlReadsBack(order: seq<Measure>, n: Name)
    ensures Reading(Print(SqlTreeOf(order, n))) == Some(SqlTreeOf(order, n))
  {
    hide Reading, Print;
    SqlBracketed(order, n);
    ReadsBackExactly(SqlTreeOf(order, n));
  }

  lemma {:induction false} SqlBracketed(order: seq<Measure>, n: Name)
    ensures Bracketed(SqlTreeOf(order, n))
    decreases |order|
  {
    if order != [] {
      var m, before := order[|order| - 1], order[..|order| - 1];
      SqlBracketed(before, n);
      if |m.operands| == 2 {
        SqlBracketed(before, m.operands[0]);
        SqlBracketed(before, m.operands[1]);
      }
    }
  }
}
