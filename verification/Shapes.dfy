/** A query's shape: its slots left out and its tables' names made canonical; and one numbering for all its texts. */
module Shapes {
  import opened Slots

  /** A table's canonical name. */
  type Canonical = nat -> nat

  function Named(canon: Canonical, t: Tree): Tree {
    match t
    case Node(tag, xs) => Node(canon(tag), xs)
    case _ => t
  }

  /** The tree with every slot a placeholder. */
  function Shape(canon: Canonical, t: Tree): Tree
    decreases t
  {
    if IsSlot(t) then Hole
    else With(Named(canon, t), seq(|Kids(t)|, i requires 0 <= i < |Kids(t)| => Shape(canon, Kids(t)[i])))
  }

  /** The tree with its tables' names canonical, and nothing left out. */
  function Canon(canon: Canonical, t: Tree): Tree
    decreases t
  {
    if IsSlot(t) then t
    else With(Named(canon, t), seq(|Kids(t)|, i requires 0 <= i < |Kids(t)| => Canon(canon, Kids(t)[i])))
  }

  lemma WithKids(t: Tree, kids: seq<Tree>, others: seq<Tree>)
    requires |kids| == |others| == |Kids(t)|
    ensures Kids(With(t, kids)) == kids && With(With(t, kids), others) == With(t, others)
  {
  }

  /** The tree has no placeholder of its own. */
  ghost predicate NoHoles(t: Tree)
    decreases t
  {
    !t.Hole? && forall i :: 0 <= i < |Kids(t)| ==> NoHoles(Kids(t)[i])
  }

  /** A tree's placeholders, left to right. */
  function Holes(t: Tree): seq<Path>
    decreases t
  {
    if t.Hole? then [[]]
    else Flat(seq(|Kids(t)|, i requires 0 <= i < |Kids(t)| => Under(i, Holes(Kids(t)[i]))))
  }

  /** What is in the slots, in their order. */
  function Contents(t: Tree): seq<Tree>
    decreases t
  {
    if IsSlot(t) then [t]
    else Flat(seq(|Kids(t)|, i requires 0 <= i < |Kids(t)| => Contents(Kids(t)[i])))
  }

  lemma ShapeKids(canon: Canonical, t: Tree)
    requires !IsSlot(t)
    ensures |Kids(Shape(canon, t))| == |Kids(t)| && (Shape(canon, t).Hole? <==> t.Hole?)
    ensures forall i :: 0 <= i < |Kids(t)| ==> Kids(Shape(canon, t))[i] == Shape(canon, Kids(t)[i])
  {
    var kids := seq(|Kids(t)|, i requires 0 <= i < |Kids(t)| => Shape(canon, Kids(t)[i]));
    WithKids(Named(canon, t), kids, kids);
  }

  /** A shape's placeholders are where its text's slots are. */
  lemma {:induction false} HolesAreSlots(canon: Canonical, t: Tree)
    requires NoHoles(t)
    ensures Holes(Shape(canon, t)) == SlotsOf(t)
    decreases t
  {
    if !IsSlot(t) {
      hide Shape;
      ShapeKids(canon, t);
      var s := Shape(canon, t);
      forall i | 0 <= i < |Kids(t)|
        ensures Holes(Kids(s)[i]) == SlotsOf(Kids(t)[i])
      {
        HolesAreSlots(canon, Kids(t)[i]);
      }
      assert seq(|Kids(s)|, i requires 0 <= i < |Kids(s)| => Under(i, Holes(Kids(s)[i])))
          == seq(|Kids(t)|, i requires 0 <= i < |Kids(t)| => Under(i, SlotsOf(Kids(t)[i])));
    }
  }

  /** Texts of one shape have their slots in the same places, numbered alike. */
  lemma {:induction false} SameShapeSameSlots(canon: Canonical, t: Tree, u: Tree)
    requires NoHoles(t) && NoHoles(u) && Shape(canon, t) == Shape(canon, u)
    ensures SlotsOf(t) == SlotsOf(u)
  {
    HolesAreSlots(canon, t);
    HolesAreSlots(canon, u);
  }

  lemma {:induction false} FlatSums<X, Y, Z>(xss: seq<seq<X>>, yss: seq<seq<Y>>, zss: seq<seq<Z>>)
    requires |xss| == |yss| == |zss| && forall i :: 0 <= i < |xss| ==> |xss[i]| == |yss[i]| + |zss[i]|
    ensures |Flat(xss)| == |Flat(yss)| + |Flat(zss)|
  {
    if xss != [] {
      FlatSums(xss[1..], yss[1..], zss[1..]);
    }
  }

  function HoleParts(t: Tree): seq<seq<Path>> {
    seq(|Kids(t)|, i requires 0 <= i < |Kids(t)| => Under(i, Holes(Kids(t)[i])))
  }

  lemma HolesUnfold(t: Tree)
    ensures Holes(t) == if t.Hole? then [[]] else Flat(HoleParts(t))
  {
    assert HoleParts(t) == seq(|Kids(t)|, i requires 0 <= i < |Kids(t)| => Under(i, Holes(Kids(t)[i])));
  }

  lemma {:induction false} NoHolesExactly(t: Tree)
    ensures NoHoles(t) <==> Holes(t) == []
    decreases t
  {
    HolesUnfold(t);
    if !t.Hole? {
      forall i | 0 <= i < |Kids(t)|
        ensures NoHoles(Kids(t)[i]) <==> HoleParts(t)[i] == []
      {
        NoHolesExactly(Kids(t)[i]);
      }
      FlatEmpty(HoleParts(t));
    }
  }

  lemma {:induction false} FlatEmpty<X>(xss: seq<seq<X>>)
    ensures Flat(xss) == [] <==> forall i :: 0 <= i < |xss| ==> xss[i] == []
  {
    if xss != [] {
      FlatEmpty(xss[1..]);
      assert forall i :: 0 < i < |xss| ==> xss[i] == xss[1..][i - 1];
      if forall i :: 0 <= i < |xss| ==> xss[i] == [] {
        assert forall i :: 0 <= i < |xss[1..]| ==> xss[1..][i] == xss[i + 1];
      }
    }
  }

  lemma SlotHasNoHole(t: Tree)
    requires IsSlot(t)
    ensures Holes(t) == []
  {
    NoHolesExactly(t);
    forall i | 0 <= i < |Kids(t)|
      ensures NoHoles(Kids(t)[i])
    {
      var kid := Kids(t)[i];
      assert IsLiteral(kid) || kid.Lit?;
      assert kid.Neg? ==> Kids(kid) == [kid.arg] && NoHoles(kid.arg);
    }
  }

  /** A shape's placeholders are its text's slots and its text's own placeholders. */
  lemma {:induction false} ShapeHoles(canon: Canonical, t: Tree)
    ensures |Holes(Shape(canon, t))| == |SlotsOf(t)| + |Holes(t)|
    decreases t
  {
    if IsSlot(t) {
      SlotHasNoHole(t);
    } else if !t.Hole? {
      hide Holes, SlotsOf, Shape;
      ShapeKids(canon, t);
      var s := Shape(canon, t);
      Unfold(t);
      HolesUnfold(t);
      HolesUnfold(s);
      forall i | 0 <= i < |Kids(t)|
        ensures |HoleParts(s)[i]| == |SlotParts(t)[i]| + |HoleParts(t)[i]|
      {
        ShapeHoles(canon, Kids(t)[i]);
      }
      FlatSums(HoleParts(s), SlotParts(t), HoleParts(t));
    }
  }

  /** So a shape shows where the slots are exactly when the text has no placeholder of its own. */
  lemma {:induction false} HolesAreSlotsExactly(canon: Canonical, t: Tree)
    ensures Holes(Shape(canon, t)) == SlotsOf(t) <==> NoHoles(t)
  {
    NoHolesExactly(t);
    ShapeHoles(canon, t);
    if NoHoles(t) {
      HolesAreSlots(canon, t);
    }
  }

  /** A text with a placeholder of its own can share a shape and be numbered otherwise. */
  lemma PlaceholdersMisnumber(canon: Canonical, tag: nat, a: Tree)
    requires a.Lit?
    ensures var t, u := Node(tag, [Hole, a]), Node(tag, [a, Hole]);
            !NoHoles(t) && Shape(canon, t) == Shape(canon, u) && SlotsOf(t) != SlotsOf(u)
  {
    var t, u := Node(tag, [Hole, a]), Node(tag, [a, Hole]);
    assert Kids(t)[0] == Hole && !NoHoles(Hole);
    assert Shape(canon, Hole) == Hole == Shape(canon, a);
    ShapeKids(canon, t);
    ShapeKids(canon, u);
    assert Kids(Shape(canon, t)) == [Hole, Hole] == Kids(Shape(canon, u));
    SlotsIn(t);
    SlotsIn(u);
    assert HasSlotAt(t, [1]) && !HasSlotAt(u, [1]) by {
      assert [1][1..] == [];
      SlotsIn(Hole);
      SlotsIn(a);
    }
  }

  predicate HasSlotAt(t: Tree, p: Path) {
    p in SlotsOf(t)
  }

  // ---- putting the contents back

  /** How many placeholders each child has. */
  function HoleCounts(t: Tree): (r: seq<nat>)
    ensures |r| == |Kids(t)|
  {
    seq(|Kids(t)|, i requires 0 <= i < |Kids(t)| => |Holes(Kids(t)[i])|)
  }

  /** The shape with its placeholders filled, the first with the at-th content. */
  function Fill(s: Tree, contents: seq<Tree>, at: nat): Tree
    decreases s
  {
    if s.Hole? then (if at < |contents| then contents[at] else Hole)
    else With(s, seq(|Kids(s)|, i requires 0 <= i < |Kids(s)| => Fill(Kids(s)[i], contents, at + Before(HoleCounts(s), i))))
  }

  function Refill(s: Tree, contents: seq<Tree>): Tree {
    Fill(s, contents, 0)
  }

  function KidContents(t: Tree): seq<seq<Tree>> {
    seq(|Kids(t)|, i requires 0 <= i < |Kids(t)| => Contents(Kids(t)[i]))
  }

  lemma {:induction false} FlatLengths<X, Y>(xss: seq<seq<X>>, yss: seq<seq<Y>>)
    requires |xss| == |yss| && forall i :: 0 <= i < |xss| ==> |xss[i]| == |yss[i]|
    ensures |Flat(xss)| == |Flat(yss)|
  {
    if xss != [] {
      FlatLengths(xss[1..], yss[1..]);
    }
  }

  lemma {:induction false} AsManyHoles(canon: Canonical, t: Tree)
    requires NoHoles(t)
    ensures |Holes(Shape(canon, t))| == |Contents(t)|
    decreases t
  {
    if !IsSlot(t) {
      hide Shape;
      ShapeKids(canon, t);
      var s := Shape(canon, t);
      var holes := seq(|Kids(s)|, i requires 0 <= i < |Kids(s)| => Under(i, Holes(Kids(s)[i])));
      var contents := seq(|Kids(t)|, i requires 0 <= i < |Kids(t)| => Contents(Kids(t)[i]));
      forall i | 0 <= i < |Kids(t)|
        ensures |holes[i]| == |contents[i]|
      {
        AsManyHoles(canon, Kids(t)[i]);
      }
      FlatLengths(holes, contents);
    }
  }

  /** The contents, from one place on, begin with these. */
  predicate From(all: seq<Tree>, at: nat, part: seq<Tree>) {
    at + |part| <= |all| && all[at..at + |part|] == part
  }

  lemma FromPart(all: seq<Tree>, at: nat, parts: seq<seq<Tree>>, i: nat)
    requires From(all, at, Flat(parts)) && i < |parts|
    ensures |Lens(parts)| == |parts| && From(all, at + Before(Lens(parts), i), parts[i])
  {
    hide Before, Lens, Flat;
    FlatPart(parts, i);
    var k := Before(Lens(parts), i);
    var whole := Flat(parts);
    forall j | 0 <= j < |parts[i]|
      ensures all[at + k + j] == parts[i][j]
    {
      assert whole[k + j] == whole[k..k + |parts[i]|][j];
      assert whole[k + j] == all[at..at + |whole|][k + j];
    }
  }

  lemma CountsAlike(canon: Canonical, t: Tree)
    requires NoHoles(t) && !IsSlot(t)
    ensures HoleCounts(Shape(canon, t)) == Lens(KidContents(t))
  {
    hide Shape, Holes, Contents;
    ShapeKids(canon, t);
    forall i | 0 <= i < |Kids(t)|
      ensures |Holes(Kids(Shape(canon, t))[i])| == |Contents(Kids(t)[i])|
    {
      AsManyHoles(canon, Kids(t)[i]);
    }
  }

  lemma ContentsIs(t: Tree)
    requires !IsSlot(t)
    ensures Contents(t) == Flat(KidContents(t)) && |KidContents(t)| == |Kids(t)|
    ensures forall i :: 0 <= i < |Kids(t)| ==> KidContents(t)[i] == Contents(Kids(t)[i])
  {
  }

  lemma FillSlot(canon: Canonical, t: Tree, all: seq<Tree>, at: nat)
    requires IsSlot(t) && From(all, at, [t])
    ensures Fill(Shape(canon, t), all, at) == Canon(canon, t)
  {
    assert all[at..at + 1][0] == all[at];
  }

  lemma {:induction false} FillRebuilds(canon: Canonical, t: Tree, all: seq<Tree>, at: nat)
    requires NoHoles(t) && From(all, at, Contents(t))
    ensures Fill(Shape(canon, t), all, at) == Canon(canon, t)
    decreases t
  {
    hide Fill, Shape, Canon, HoleCounts, From, KidContents, Before, Lens, IsSlot;
    if IsSlot(t) {
      FillSlot(canon, t, all, at);
    } else {
      hide Contents;
      CountsAlike(canon, t);
      ContentsIs(t);
      forall i | 0 <= i < |Kids(t)|
        ensures Fill(Shape(canon, Kids(t)[i]), all, at + Before(HoleCounts(Shape(canon, t)), i)) == Canon(canon, Kids(t)[i])
      {
        FromPart(all, at, KidContents(t), i);
        FillRebuilds(canon, Kids(t)[i], all, at + Before(Lens(KidContents(t)), i));
      }
      FillNode(canon, t, all, at);
    }
  }

  lemma FillNode(canon: Canonical, t: Tree, all: seq<Tree>, at: nat)
    requires NoHoles(t) && !IsSlot(t)
    requires forall i :: 0 <= i < |Kids(t)| ==>
      Fill(Shape(canon, Kids(t)[i]), all, at + Before(HoleCounts(Shape(canon, t)), i)) == Canon(canon, Kids(t)[i])
    ensures Fill(Shape(canon, t), all, at) == Canon(canon, t)
  {
    hide HoleCounts, Before, With;
    var s := Shape(canon, t);
    ShapeKids(canon, t);
    var kids := seq(|Kids(t)|, i requires 0 <= i < |Kids(t)| => Shape(canon, Kids(t)[i]));
    var filled := seq(|Kids(s)|, i requires 0 <= i < |Kids(s)| => Fill(Kids(s)[i], all, at + Before(HoleCounts(s), i)));
    assert filled == seq(|Kids(t)|, i requires 0 <= i < |Kids(t)| => Canon(canon, Kids(t)[i]));
    WithKids(Named(canon, t), kids, filled);
  }

  /** Putting a text's own slot contents back into its shape gives the text, its tables' names canonical. */
  lemma RefillRebuilds(canon: Canonical, t: Tree)
    requires NoHoles(t)
    ensures Refill(Shape(canon, t), Contents(t)) == Canon(canon, t)
  {
    FillRebuilds(canon, t, Contents(t), 0);
  }

  // ---- one numbering for a query of several statements

  /** A slot's place: its statement, and where in it. */
  type Place = (nat, Path)

  function PlacesIn(k: nat, ps: seq<Path>): seq<Place> {
    seq(|ps|, i requires 0 <= i < |ps| => (k, ps[i]))
  }

  /** The slots of a query's statements, in order. */
  function Places(trees: seq<Tree>): seq<Place> {
    if trees == [] then [] else Places(trees[..|trees| - 1]) + PlacesIn(|trees| - 1, SlotsOf(trees[|trees| - 1]))
  }

  /** A literal's text, a minus sign put before a negated one's; of an array, its items'. Quotes are forgotten. */
  datatype Value = Text(text: string) | List(items: seq<Value>) | NoValue

  function ValueOf(t: Tree): Value
    decreases t
  {
    match t
    case Lit(x, _) => Text(x)
    case Neg(a) => if a.Lit? then Text("-" + a.text) else NoValue
    case Array(xs) => List(seq(|xs|, i requires 0 <= i < |xs| => ValueOf(xs[i])))
    case _ => NoValue
  }

  /** A slot's literals: itself, or an array's items. */
  function Items(t: Tree): (r: seq<Tree>)
    requires IsSlot(t)
    ensures forall i :: 0 <= i < |r| ==> IsLiteral(r[i])
  {
    if t.Array? then t.items else [t]
  }

  /** The literal is of a text between quotes, negated or not. */
  predicate Quoted(x: Tree)
    requires IsLiteral(x)
  {
    if x.Lit? then x.quoted else x.arg.quoted
  }

  /** As a tokenizer reads it, a number has no sign of its own: its minus is a negation. And a text between quotes is
      not negated. */
  predicate Written(x: Tree)
    requires IsLiteral(x)
  {
    if x.Lit? then x.quoted || !("-" <= x.text) else !x.arg.quoted
  }

  /** Two literals have one value exactly when they are the same but for quotes: of two so written, when both are
      quoted or neither is, they are then the same. */
  lemma LiteralValues(x: Tree, y: Tree)
    requires IsLiteral(x) && IsLiteral(y) && ValueOf(x) == ValueOf(y)
    ensures x == y <==> (x.Neg? <==> y.Neg?) && (Quoted(x) <==> Quoted(y))
    ensures Written(x) && Written(y) ==> (x == y <==> (Quoted(x) <==> Quoted(y)))
  {
    assert x.Neg? ==> "-" <= ValueOf(x).text && ValueOf(x).text[1..] == x.arg.text;
    assert y.Neg? ==> "-" <= ValueOf(y).text && ValueOf(y).text[1..] == y.arg.text;
  }

  lemma ItemValues(t: Tree, u: Tree)
    requires IsSlot(t) && IsSlot(u)
    ensures ValueOf(t) == ValueOf(u) <==>
              && (t.Array? <==> u.Array?) && |Items(t)| == |Items(u)|
              && forall i :: 0 <= i < |Items(t)| ==> ValueOf(Items(t)[i]) == ValueOf(Items(u)[i])
  {
    if t.Array? && u.Array? {
      if ValueOf(t) == ValueOf(u) {
        assert |ValueOf(t).items| == |ValueOf(u).items|;
        forall i | 0 <= i < |t.items|
          ensures ValueOf(t.items[i]) == ValueOf(u.items[i])
        {
          assert ValueOf(t).items[i] == ValueOf(u).items[i];
        }
      }
      if |t.items| == |u.items| && forall i :: 0 <= i < |t.items| ==> ValueOf(t.items[i]) == ValueOf(u.items[i]) {
        assert ValueOf(t).items == ValueOf(u).items;
      }
    } else if !t.Array? && !u.Array? {
      assert Items(t)[0] == t && Items(u)[0] == u;
    }
  }

  /** What a slot's value tells of it. Two have one value exactly when both are arrays or neither is, item by item with
      one text, minus sign included. They are then the same exactly when, item by item, both are quoted or neither is. */
  lemma ValuesTellTexts(t: Tree, u: Tree)
    requires IsSlot(t) && IsSlot(u)
    ensures ValueOf(t) == ValueOf(u) <==>
              && (t.Array? <==> u.Array?) && |Items(t)| == |Items(u)|
              && forall i :: 0 <= i < |Items(t)| ==> ValueOf(Items(t)[i]) == ValueOf(Items(u)[i])
    ensures ValueOf(t) == ValueOf(u) && (forall i :: 0 <= i < |Items(t)| ==> Written(Items(t)[i]) && Written(Items(u)[i])) ==>
              (t == u <==> forall i :: 0 <= i < |Items(t)| ==> (Quoted(Items(t)[i]) <==> Quoted(Items(u)[i])))
    ensures ValueOf(t) == ValueOf(u) ==>
              (t == u <==> forall i :: 0 <= i < |Items(t)| ==>
                (Items(t)[i].Neg? <==> Items(u)[i].Neg?) && (Quoted(Items(t)[i]) <==> Quoted(Items(u)[i])))
  {
    hide ValueOf, Written, Quoted, IsLiteral;
    ItemValues(t, u);
    if ValueOf(t) == ValueOf(u) {
      forall i | 0 <= i < |Items(t)|
        ensures Items(t)[i] == Items(u)[i] <==> (Items(t)[i].Neg? <==> Items(u)[i].Neg?) && (Quoted(Items(t)[i]) <==> Quoted(Items(u)[i]))
        ensures Written(Items(t)[i]) && Written(Items(u)[i]) ==>
                  (Items(t)[i] == Items(u)[i] <==> (Quoted(Items(t)[i]) <==> Quoted(Items(u)[i])))
      {
        LiteralValues(Items(t)[i], Items(u)[i]);
      }
      assert t == u <==> Items(t) == Items(u);
    }
  }

  /** `a = 5` and `a = '5'`, and `a = -5` and `a = '-5'`: texts of one shape, with one value in their slots, that are not
      the same. */
  lemma QuotesForgotten(canon: Canonical, tag: nat, a: Tree)
    ensures var t, u := Node(tag, [a, Lit("5", false)]), Node(tag, [a, Lit("5", true)]);
            t != u && Shape(canon, t) == Shape(canon, u) && Contents(t) != Contents(u) && ValuesIn(t) == ValuesIn(u)
    ensures var t, u := Node(tag, [a, Neg(Lit("5", false))]), Node(tag, [a, Lit("-5", true)]);
            t != u && Shape(canon, t) == Shape(canon, u) && Contents(t) != Contents(u) && ValuesIn(t) == ValuesIn(u)
  {
    OtherLiteral(canon, tag, a, Lit("5", false), Lit("5", true));
    OtherLiteral(canon, tag, a, Neg(Lit("5", false)), Lit("-5", true));
  }

  lemma OtherLiteral(canon: Canonical, tag: nat, a: Tree, x: Tree, y: Tree)
    requires IsLiteral(x) && IsLiteral(y) && x != y && ValueOf(x) == ValueOf(y)
    ensures var t, u := Node(tag, [a, x]), Node(tag, [a, y]);
            t != u && Shape(canon, t) == Shape(canon, u) && Contents(t) != Contents(u) && ValuesIn(t) == ValuesIn(u)
  {
    hide Shape, Contents, ValueOf;
    var t, u := Node(tag, [a, x]), Node(tag, [a, y]);
    assert Kids(t) == [a, x] && Kids(u) == [a, y];
    LiteralParts(canon, x);
    LiteralParts(canon, y);
    TwoParts(canon, tag, a, x);
    TwoParts(canon, tag, a, y);
    var n := |Contents(a)|;
    assert Contents(t)[n] == x && Contents(u)[n] == y;
    forall i | 0 <= i < |Contents(t)|
      ensures ValuesIn(t)[i] == ValuesIn(u)[i]
    {
      assert i < n ==> Contents(t)[i] == Contents(u)[i];
    }
  }

  lemma LiteralParts(canon: Canonical, x: Tree)
    requires IsLiteral(x)
    ensures Shape(canon, x) == Hole && Contents(x) == [x]
  {
  }

  lemma TwoParts(canon: Canonical, tag: nat, a: Tree, x: Tree)
    ensures Shape(canon, Node(tag, [a, x])) == Node(canon(tag), [Shape(canon, a), Shape(canon, x)])
    ensures Contents(Node(tag, [a, x])) == Contents(a) + Contents(x)
  {
    hide Shape, Contents;
    var t := Node(tag, [a, x]);
    ShapeIs(canon, t);
    assert seq(|Kids(t)|, i requires 0 <= i < |Kids(t)| => Shape(canon, Kids(t)[i])) == [Shape(canon, a), Shape(canon, x)];
    ContentsIs(t);
    var parts := KidContents(t);
    assert parts == [Contents(a), Contents(x)];
    assert Flat(parts[1..][1..]) == [] && Flat(parts[1..]) == Contents(x);
  }

  lemma ShapeIs(canon: Canonical, t: Tree)
    requires !IsSlot(t)
    ensures Shape(canon, t) == With(Named(canon, t), seq(|Kids(t)|, i requires 0 <= i < |Kids(t)| => Shape(canon, Kids(t)[i])))
  {
  }

  function ValuesIn(t: Tree): seq<Value> {
    seq(|Contents(t)|, i requires 0 <= i < |Contents(t)| => ValueOf(Contents(t)[i]))
  }

  /** The literal values of a query, in slot order. */
  function Literals(trees: seq<Tree>): seq<Value> {
    if trees == [] then [] else Literals(trees[..|trees| - 1]) + ValuesIn(trees[|trees| - 1])
  }

  /** Two lists of lists, flattened, keep each other's places. */
  lemma {:induction false} FlatTogether<X, Y>(xss: seq<seq<X>>, yss: seq<seq<Y>>, i: nat) returns (k: nat, j: nat)
    requires |xss| == |yss| && (forall n :: 0 <= n < |xss| ==> |xss[n]| == |yss[n]|) && i < |Flat(xss)|
    ensures |Flat(xss)| == |Flat(yss)| && k < |xss| && j < |xss[k]|
    ensures Flat(xss)[i] == xss[k][j] && Flat(yss)[i] == yss[k][j]
  {
    FlatLengths(xss, yss);
    if i < |xss[0]| {
      return 0, i;
    }
    k, j := FlatTogether(xss[1..], yss[1..], i - |xss[0]|);
    k := k + 1;
  }

  /** A slot's content is what its place holds. */
  lemma {:induction false} ContentAtSlot(t: Tree, i: nat)
    requires i < |SlotsOf(t)|
    ensures |Contents(t)| == |SlotsOf(t)| && HasAt(t, SlotsOf(t)[i]) && Contents(t)[i] == At(t, SlotsOf(t)[i])
    decreases t
  {
    if !IsSlot(t) {
      hide SlotsOf, Contents;
      var slots, contents := SlotParts(t), KidContents(t);
      Unfold(t);
      ContentsIs(t);
      forall n | 0 <= n < |Kids(t)|
        ensures |slots[n]| == |contents[n]|
      {
        AsManySlots(Kids(t)[n]);
      }
      var k, j := FlatTogether(slots, contents, i);
      FlatLengths(slots, contents);
      ContentAtSlot(Kids(t)[k], j);
      var p := SlotsOf(Kids(t)[k])[j];
      assert slots[k][j] == [k] + p && ([k] + p)[1..] == p;
    }
  }

  lemma {:induction false} AsManySlots(t: Tree)
    ensures |Contents(t)| == |SlotsOf(t)|
    decreases t
  {
    if !IsSlot(t) {
      hide SlotsOf, Contents;
      var slots, contents := SlotParts(t), KidContents(t);
      Unfold(t);
      ContentsIs(t);
      forall n | 0 <= n < |Kids(t)|
        ensures |slots[n]| == |contents[n]|
      {
        AsManySlots(Kids(t)[n]);
      }
      FlatLengths(slots, contents);
    }
  }

  /** The i-th literal value is the content of the i-th place. */
  lemma {:induction false} LiteralAtPlace(trees: seq<Tree>, i: nat)
    requires i < |Places(trees)|
    ensures |Literals(trees)| == |Places(trees)|
    ensures var (k, p) := Places(trees)[i]; k < |trees| && HasAt(trees[k], p) && Literals(trees)[i] == ValueOf(At(trees[k], p))
  {
    hide SlotsOf, Contents, ValueOf, HasAt, At;
    var n := |trees| - 1;
    var before := Places(trees[..n]);
    AsManySlots(trees[n]);
    AsManyLiterals(trees[..n]);
    if i < |before| {
      LiteralAtPlace(trees[..n], i);
      assert Places(trees)[i] == before[i] && Literals(trees)[i] == Literals(trees[..n])[i];
    } else {
      var j := i - |before|;
      ContentAtSlot(trees[n], j);
      assert Places(trees)[i] == PlacesIn(n, SlotsOf(trees[n]))[j] && Literals(trees)[i] == ValuesIn(trees[n])[j];
    }
  }

  lemma {:induction false} AsManyLiterals(trees: seq<Tree>)
    ensures |Literals(trees)| == |Places(trees)|
  {
    if trees != [] {
      AsManyLiterals(trees[..|trees| - 1]);
      AsManySlots(trees[|trees| - 1]);
    }
  }

  ghost predicate SameShapes(canon: Canonical, ts: seq<Tree>, us: seq<Tree>) {
    && |ts| == |us|
    && forall k :: 0 <= k < |ts| ==> NoHoles(ts[k]) && NoHoles(us[k]) && Shape(canon, ts[k]) == Shape(canon, us[k])
  }

  lemma {:induction false} SamePlaces(canon: Canonical, ts: seq<Tree>, us: seq<Tree>)
    requires SameShapes(canon, ts, us)
    ensures Places(ts) == Places(us)
  {
    if ts != [] {
      var n := |ts| - 1;
      SamePlaces(canon, ts[..n], us[..n]);
      SameShapeSameSlots(canon, ts[n], us[n]);
    }
  }

  /** The index a filter records in one text of a shape selects, in any other, that text's own literal at the same
      place, across all its statements. */
  lemma {:induction false} SlotSelectsOwnLiteral(canon: Canonical, ts: seq<Tree>, us: seq<Tree>, i: nat)
    requires SameShapes(canon, ts, us) && i < |Places(ts)|
    ensures i < |Literals(us)| && i < |Literals(ts)|
    ensures var (k, p) := Places(ts)[i];
            && k < |ts| && HasAt(ts[k], p) && HasAt(us[k], p)
            && Literals(ts)[i] == ValueOf(At(ts[k], p)) && Literals(us)[i] == ValueOf(At(us[k], p))
  {
    SamePlaces(canon, ts, us);
    LiteralAtPlace(ts, i);
    LiteralAtPlace(us, i);
  }

  // ---- the numbering, as it is made

  lemma NoneDescend()
    ensures Descending([])
  {
  }

  lemma OneDescends(p: Path)
    ensures Descending([p])
  {
  }

  lemma DescendingPrefix(ps: seq<Path>)
    requires Descending(ps) && ps != []
    ensures Descending(ps[..|ps| - 1])
  {
  }

  lemma LastIsNotAbove(ps: seq<Path>, x: Path)
    requires Descending(ps) && ps != [] && x in ps[..|ps| - 1]
    ensures !(ps[|ps| - 1] <= x)
  {
    var k :| 0 <= k < |ps| - 1 && ps[k] == x;
    assert !(ps[|ps| - 1] <= ps[k]);
  }

  lemma {:induction false} TopsDescend(t: Tree, ps: seq<Path>)
    requires Descending(ps)
    ensures Descending(Tops(t, ps))
  {
    hide IsTop, Descending;
    if ps == [] {
      NoneDescend();
    } else {
      var n := |ps| - 1;
      var before := Tops(t, ps[..n]);
      DescendingPrefix(ps);
      TopsDescend(t, ps[..n]);
      TopsIn(t, ps[..n]);
      forall x | x in before
        ensures !(ps[n] <= x)
      {
        LastIsNotAbove(ps, x);
      }
      OneDescends(ps[n]);
      DescendingConcat(before, [ps[n]]);
      assert before + [] == before;
    }
  }

  lemma SlotsDiffer(t: Tree)
    ensures forall i, k :: 0 <= i < k < |SlotsOf(t)| ==> SlotsOf(t)[i] != SlotsOf(t)[k]
  {
    PreOrderDescends(t);
    TopsDescend(t, PreOrder(t));
    WalkFindsSlots(t);
    var slots := SlotsOf(t);
    assert forall i, k :: 0 <= i < k < |slots| ==> !(slots[k] <= slots[i]);
  }

  /** Every place has its index, and nothing else has one. */
  ghost predicate Numbers(slot: map<Place, nat>, places: seq<Place>) {
    && (forall i :: 0 <= i < |places| ==> places[i] in slot && slot[places[i]] == i)
    && (forall p :: p in slot ==> p in places)
  }

  lemma {:induction false} PlacesKnow(trees: seq<Tree>)
    ensures forall p :: p in Places(trees) ==> p.0 < |trees|
  {
    if trees != [] {
      PlacesKnow(trees[..|trees| - 1]);
    }
  }

  lemma NumbersNext(slot: map<Place, nat>, places: seq<Place>, p: Place)
    requires Numbers(slot, places) && p !in places
    ensures Numbers(slot[p := |places|], places + [p])
  {
    assert p in places + [p] && forall x :: x in places ==> x in places + [p];
  }

  /** Each statement's slots, numbered on from those before it. */
  method NumberSlots(trees: seq<Tree>) returns (slot: map<Place, nat>)
    ensures Numbers(slot, Places(trees))
  {
    hide SlotsOf, Numbers, Places, PlacesIn;
    slot := map[];
    var offset := 0;
    NoNumbers();
    assert trees[..0] == [];
    for k := 0 to |trees|
      invariant Numbers(slot, Places(trees[..k])) && offset == |Places(trees[..k])|
    {
      var slots := LiteralSlots(trees[k]);
      ghost var before, here := Places(trees[..k]), PlacesIn(k, slots);
      NextStatement(trees, k, slots);
      for i := 0 to |slots|
        invariant Numbers(slot, before + here[..i])
      {
        NextPlace(trees, k, slots, i);
        NumbersNext(slot, before + here[..i], here[i]);
        slot := slot[(k, slots[i]) := offset + i];
      }
      offset := offset + |slots|;
    }
    assert trees[..|trees|] == trees;
  }

  lemma NoNumbers()
    ensures Numbers(map[], Places([])) && Places([]) == []
  {
  }

  /** One statement more adds its slots' places. */
  lemma NextStatement(trees: seq<Tree>, k: nat, slots: seq<Path>)
    requires k < |trees| && slots == SlotsOf(trees[k])
    ensures Places(trees[..k + 1]) == Places(trees[..k]) + PlacesIn(k, slots) && |PlacesIn(k, slots)| == |slots|
    ensures Places(trees[..k]) + PlacesIn(k, slots)[..0] == Places(trees[..k]) && PlacesIn(k, slots)[..|slots|] == PlacesIn(k, slots)
  {
    hide SlotsOf;
    assert trees[..k + 1][..k] == trees[..k];
  }

  /** Each is new, and is the slot's place. */
  lemma NextPlace(trees: seq<Tree>, k: nat, slots: seq<Path>, i: nat)
    requires k < |trees| && slots == SlotsOf(trees[k]) && i < |slots|
    ensures var before, here := Places(trees[..k]), PlacesIn(k, slots);
            && here[i] == (k, slots[i]) && here[i] !in before + here[..i] && |before + here[..i]| == |before| + i
            && before + here[..i + 1] == before + here[..i] + [here[i]]
  {
    hide SlotsOf, Places;
    PlacesKnow(trees[..k]);
    SlotsDiffer(trees[k]);
    var before, here := Places(trees[..k]), PlacesIn(k, slots);
    assert here[..i + 1] == here[..i] + [here[i]];
  }
}
