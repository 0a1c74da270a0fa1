/** Literal slots: which parts of a query's tree its shape leaves out, in what order, and how they go back in. */
module Slots {

  /** A query's tree, as far as its literals matter: a literal has its text, between quotes or not; a `?` placeholder is a
      hole. */
  datatype Tree = Lit(text: string, quoted: bool) | Neg(arg: Tree) | Array(items: seq<Tree>) | Node(tag: nat, kids: seq<Tree>) | Hole

  /** The children taken on the way down to a node. */
  type Path = seq<nat>

  function Kids(t: Tree): (r: seq<Tree>)
    ensures forall i :: 0 <= i < |r| ==> r[i] < t
  {
    match t
    case Neg(a) => [a]
    case Array(xs) => xs
    case Node(_, xs) => xs
    case _ => []
  }

  /** The node with other children. */
  function With(t: Tree, kids: seq<Tree>): Tree {
    match t
    case Neg(_) => if |kids| == 1 then Neg(kids[0]) else t
    case Array(_) => Array(kids)
    case Node(tag, _) => Node(tag, kids)
    case _ => t
  }

  predicate HasAt(t: Tree, p: Path)
    decreases |p|
  {
    p == [] || (p[0] < |Kids(t)| && HasAt(Kids(t)[p[0]], p[1..]))
  }

  function At(t: Tree, p: Path): Tree
    requires HasAt(t, p)
    decreases |p|
  {
    if p == [] then t else At(Kids(t)[p[0]], p[1..])
  }

  predicate IsLiteral(t: Tree) {
    t.Lit? || (t.Neg? && t.arg.Lit?)
  }

  /** A literal, or a whole array of nothing else. */
  predicate IsSlot(t: Tree) {
    IsLiteral(t) || (t.Array? && t.items != [] && forall i :: 0 <= i < |t.items| ==> IsLiteral(t.items[i]))
  }

  function Flat<X>(xss: seq<seq<X>>): seq<X> {
    if xss == [] then [] else xss[0] + Flat(xss[1..])
  }

  function Under(i: nat, ps: seq<Path>): seq<Path> {
    seq(|ps|, k requires 0 <= k < |ps| => [i] + ps[k])
  }

  /** The slots of a tree, topmost, left to right. */
  function SlotsOf(t: Tree): seq<Path>
    decreases t
  {
    if IsSlot(t) then [[]]
    else Flat(seq(|Kids(t)|, i requires 0 <= i < |Kids(t)| => Under(i, SlotsOf(Kids(t)[i]))))
  }

  /** The tree's nodes, each before what is under it. */
  function PreOrder(t: Tree): seq<Path>
    decreases t
  {
    [[]] + Flat(seq(|Kids(t)|, i requires 0 <= i < |Kids(t)| => Under(i, PreOrder(Kids(t)[i]))))
  }

  // ---- lists of lists

  function Before(lens: seq<nat>, i: nat): nat
    requires i <= |lens|
  {
    if i == 0 then 0 else Before(lens, i - 1) + lens[i - 1]
  }

  function Lens<X>(xss: seq<seq<X>>): (r: seq<nat>)
    ensures |r| == |xss|
  {
    seq(|xss|, i requires 0 <= i < |xss| => |xss[i]|)
  }

  lemma {:induction false} BeforeTail(lens: seq<nat>, i: nat)
    requires lens != [] && 0 < i <= |lens|
    ensures Before(lens, i) == lens[0] + Before(lens[1..], i - 1)
  {
    if i > 1 {
      BeforeTail(lens, i - 1);
    }
  }

  /** Each list is a part of the whole, from where those before it end. */
  lemma {:induction false} FlatPart<X>(xss: seq<seq<X>>, i: nat)
    requires i < |xss|
    ensures Before(Lens(xss), i) + |xss[i]| <= |Flat(xss)|
    ensures Flat(xss)[Before(Lens(xss), i)..Before(Lens(xss), i) + |xss[i]|] == xss[i]
  {
    if i > 0 {
      FlatPart(xss[1..], i - 1);
      assert Lens(xss)[1..] == Lens(xss[1..]);
      BeforeTail(Lens(xss), i);
      var at := Before(Lens(xss[1..]), i - 1);
      assert Flat(xss) == xss[0] + Flat(xss[1..]);
      assert Flat(xss)[|xss[0]| + at..|xss[0]| + at + |xss[i]|] == Flat(xss[1..])[at..at + |xss[i]|];
    }
  }

  lemma {:induction false} FlatIn<X>(xss: seq<seq<X>>)
    ensures forall x :: x in Flat(xss) <==> exists i :: 0 <= i < |xss| && x in xss[i]
  {
    if xss != [] {
      FlatIn(xss[1..]);
      forall x
        ensures x in Flat(xss) <==> exists i :: 0 <= i < |xss| && x in xss[i]
      {
        if x in Flat(xss[1..]) {
          var i :| 0 <= i < |xss[1..]| && x in xss[1..][i];
          assert x in xss[i + 1];
        }
        if i :| 0 <= i < |xss| && x in xss[i] {
          assert i > 0 ==> x in xss[1..][i - 1];
        }
      }
    }
  }

  lemma UnderIn(i: nat, ps: seq<Path>)
    ensures forall p :: p in Under(i, ps) <==> p != [] && p[0] == i && p[1..] in ps
  {
    forall p
      ensures p in Under(i, ps) <==> p != [] && p[0] == i && p[1..] in ps
    {
      if p != [] && p[0] == i && p[1..] in ps {
        var k :| 0 <= k < |ps| && ps[k] == p[1..];
        assert Under(i, ps)[k] == p;
      }
      if p in Under(i, ps) {
        var k :| 0 <= k < |ps| && Under(i, ps)[k] == p;
        assert p[1..] == ps[k];
      }
    }
  }

  // ---- which nodes are slots

  /** A slot with no slot above it. */
  ghost predicate IsTop(t: Tree, p: Path) {
    HasAt(t, p) && IsSlot(At(t, p)) && forall q :: q < p && HasAt(t, q) ==> !IsSlot(At(t, q))
  }

  lemma SlotsIn(t: Tree)
    ensures forall p :: p in SlotsOf(t) <==> if IsSlot(t) then p == [] else p != [] && p[0] < |Kids(t)| && p[1..] in SlotsOf(Kids(t)[p[0]])
  {
    if !IsSlot(t) {
      var parts := seq(|Kids(t)|, i requires 0 <= i < |Kids(t)| => Under(i, SlotsOf(Kids(t)[i])));
      FlatIn(parts);
      forall p
        ensures p in Flat(parts) <==> p != [] && p[0] < |Kids(t)| && p[1..] in SlotsOf(Kids(t)[p[0]])
      {
        if i :| 0 <= i < |parts| && p in parts[i] {
          UnderIn(i, SlotsOf(Kids(t)[i]));
        }
        if p != [] && p[0] < |Kids(t)| {
          UnderIn(p[0], SlotsOf(Kids(t)[p[0]]));
          assert parts[p[0]] == Under(p[0], SlotsOf(Kids(t)[p[0]]));
        }
      }
    }
  }

  lemma {:induction false} TopsBelow(t: Tree, p: Path)
    requires p != [] && p[0] < |Kids(t)| && !IsSlot(t)
    ensures IsTop(t, p) <==> IsTop(Kids(t)[p[0]], p[1..])
  {
    var kid, rest := Kids(t)[p[0]], p[1..];
    if IsTop(t, p) {
      forall q | q < rest && HasAt(kid, q)
        ensures !IsSlot(At(kid, q))
      {
        var q' := [p[0]] + q;
        assert q'[1..] == q && q' < p && HasAt(t, q') && At(t, q') == At(kid, q);
      }
    }
    if IsTop(kid, rest) {
      forall q | q < p && HasAt(t, q)
        ensures !IsSlot(At(t, q))
      {
        if q != [] {
          assert q[1..] < rest;
        }
      }
    }
  }

  /** The slots are exactly the topmost. */
  lemma {:induction false} SlotsAreTops(t: Tree, p: Path)
    ensures p in SlotsOf(t) <==> IsTop(t, p)
    decreases t
  {
    SlotsIn(t);
    if IsSlot(t) {
      assert HasAt(t, []) && At(t, []) == t;
      if p != [] {
        assert [] < p;
      }
    } else if p == [] {
      assert !IsTop(t, p);
    } else if p[0] < |Kids(t)| {
      TopsBelow(t, p);
      SlotsAreTops(Kids(t)[p[0]], p[1..]);
    }
  }

  /** The node is a slot or inside one. */
  ghost predicate InSlot(t: Tree, p: Path) {
    exists q :: q in SlotsOf(t) && q <= p
  }

  /** A literal or its negation, or an array of one or more of nothing else. */
  ghost predicate IsWritten(t: Tree) {
    || t.Lit? || (t.Neg? && t.arg.Lit?)
    || (t.Array? && t.items != [] && forall x :: x in t.items ==> x.Lit? || (x.Neg? && x.arg.Lit?))
  }

  /** No slot is inside another; each is a literal, its negation, or an array of such; and every such is in one. */
  lemma SlotsDisjointAndCovering(t: Tree)
    ensures forall p, q :: p in SlotsOf(t) && q in SlotsOf(t) && p <= q ==> p == q
    ensures forall p :: p in SlotsOf(t) ==> HasAt(t, p) && IsWritten(At(t, p))
    ensures forall p :: HasAt(t, p) && IsWritten(At(t, p)) ==> InSlot(t, p)
  {
    forall p | p in SlotsOf(t)
      ensures HasAt(t, p) && IsWritten(At(t, p))
    {
      SlotsAreTops(t, p);
    }
    forall p, q | p in SlotsOf(t) && q in SlotsOf(t) && p <= q
      ensures p == q
    {
      SlotsAreTops(t, p);
      SlotsAreTops(t, q);
      assert p != q ==> p < q;
    }
    forall p | HasAt(t, p) && IsWritten(At(t, p))
      ensures InSlot(t, p)
    {
      var x := At(t, p);
      assert x.Array? ==> forall i :: 0 <= i < |x.items| ==> x.items[i] in x.items;
      Covered(t, p);
    }
  }

  lemma {:induction false} Covered(t: Tree, p: Path)
    requires HasAt(t, p) && IsSlot(At(t, p))
    ensures InSlot(t, p)
    decreases |p|
  {
    if q :| q < p && HasAt(t, q) && IsSlot(At(t, q)) {
      Covered(t, q);
      var s :| s in SlotsOf(t) && s <= q;
      assert s <= p;
    } else {
      SlotsAreTops(t, p);
    }
  }

  // ---- the walk that finds them

  /** No later path is one above, or the same as, an earlier one. */
  ghost predicate Descending(ps: seq<Path>) {
    forall i, k :: 0 <= i < k < |ps| ==> !(ps[k] <= ps[i])
  }

  lemma DescendingConcat(xs: seq<Path>, ys: seq<Path>)
    requires Descending(xs) && Descending(ys) && forall x, y :: x in xs && y in ys ==> !(y <= x)
    ensures Descending(xs + ys)
  {
    var all := xs + ys;
    forall i, k | 0 <= i < k < |all|
      ensures !(all[k] <= all[i])
    {
      if k < |xs| {
        assert !(xs[k] <= xs[i]);
      } else if i < |xs| {
        assert xs[i] in xs && ys[k - |xs|] in ys;
      } else {
        assert !(ys[k - |xs|] <= ys[i - |xs|]);
      }
    }
  }

  predicate StartsAt(p: Path, i: nat) {
    p != [] && p[0] == i
  }

  /** Lists each under its own child, the children in order. */
  ghost predicate UnderEach(parts: seq<seq<Path>>, from: nat) {
    forall i, p :: 0 <= i < |parts| && p in parts[i] ==> StartsAt(p, from + i)
  }

  lemma {:induction false} DescendingFlat(parts: seq<seq<Path>>, from: nat)
    requires UnderEach(parts, from) && forall i :: 0 <= i < |parts| ==> Descending(parts[i])
    ensures Descending(Flat(parts))
  {
    if parts != [] {
      DescendingFlat(parts[1..], from + 1);
      FlatIn(parts[1..]);
      forall x, y | x in parts[0] && y in Flat(parts[1..])
        ensures !(y <= x)
      {
        var i :| 0 <= i < |parts[1..]| && y in parts[1..][i];
        assert y in parts[i + 1] && StartsAt(y, from + i + 1) && StartsAt(x, from + 0);
      }
      DescendingConcat(parts[0], Flat(parts[1..]));
    }
  }

  lemma PrefixUnder(i: nat, p: Path, q: Path)
    ensures [i] + p <= [i] + q <==> p <= q
  {
    if [i] + p <= [i] + q {
      assert p == ([i] + p)[1..] && q == ([i] + q)[1..];
    }
  }

  function Parts(t: Tree): seq<seq<Path>> {
    seq(|Kids(t)|, i requires 0 <= i < |Kids(t)| => Under(i, PreOrder(Kids(t)[i])))
  }

  lemma PartsUnder(t: Tree)
    ensures UnderEach(Parts(t), 0)
  {
    forall i, p | 0 <= i < |Parts(t)| && p in Parts(t)[i]
      ensures StartsAt(p, i)
    {
      UnderIn(i, PreOrder(Kids(t)[i]));
    }
  }

  lemma UnderDescends(i: nat, ps: seq<Path>)
    requires Descending(ps)
    ensures Descending(Under(i, ps))
  {
    var under := Under(i, ps);
    forall a, b | 0 <= a < b < |under|
      ensures !(under[b] <= under[a])
    {
      assert under[a] == [i] + ps[a] && under[b] == [i] + ps[b] && !(ps[b] <= ps[a]);
      PrefixUnder(i, ps[b], ps[a]);
    }
  }

  lemma {:induction false} PreOrderDescends(t: Tree)
    ensures Descending(PreOrder(t)) && forall p :: p in PreOrder(t) <==> HasAt(t, p)
    decreases t
  {
    hide Descending, PreOrder, UnderEach;
    var parts := Parts(t);
    PartsUnder(t);
    forall i | 0 <= i < |parts|
      ensures Descending(parts[i])
    {
      PreOrderDescends(Kids(t)[i]);
      UnderDescends(i, PreOrder(Kids(t)[i]));
    }
    DescendingFlat(parts, 0);
    Unfold(t);
    RootFirst(Flat(parts), t);
    forall p
      ensures p in PreOrder(t) <==> HasAt(t, p)
    {
      PreOrderIn(t, p);
      if p != [] && p[0] < |Kids(t)| {
        PreOrderDescends(Kids(t)[p[0]]);
      }
    }
  }

  lemma {:induction false} RootFirst(ps: seq<Path>, t: Tree)
    requires ps == Flat(Parts(t)) && Descending(ps)
    ensures Descending([[]] + ps)
  {
    hide PreOrder;
    PartsUnder(t);
    FlatIn(Parts(t));
    forall y | y in ps
      ensures y != []
    {
      var i :| 0 <= i < |Parts(t)| && y in Parts(t)[i];
      assert StartsAt(y, 0 + i);
    }
    DescendingConcat([[]], ps);
  }

  lemma PreOrderIn(t: Tree, p: Path)
    ensures p in PreOrder(t) <==> p == [] || (p[0] < |Kids(t)| && p[1..] in PreOrder(Kids(t)[p[0]]))
  {
    hide PreOrder;
    var parts := Parts(t);
    Unfold(t);
    FlatIn(parts);
    if i :| 0 <= i < |parts| && p in parts[i] {
      UnderIn(i, PreOrder(Kids(t)[i]));
    }
    if p != [] && p[0] < |Kids(t)| {
      UnderIn(p[0], PreOrder(Kids(t)[p[0]]));
      assert parts[p[0]] == Under(p[0], PreOrder(Kids(t)[p[0]]));
    }
  }

  /** The topmost slots among some nodes. */
  ghost function Tops(t: Tree, ps: seq<Path>): seq<Path> {
    if ps == [] then []
    else Tops(t, ps[..|ps| - 1]) + (if IsTop(t, ps[|ps| - 1]) then [ps[|ps| - 1]] else [])
  }

  lemma {:induction false} TopsConcat(t: Tree, xs: seq<Path>, ys: seq<Path>)
    ensures Tops(t, xs + ys) == Tops(t, xs) + Tops(t, ys)
  {
    hide IsTop;
    if ys == [] {
      assert xs + ys == xs;
    } else {
      var n := |ys| - 1;
      TopsConcat(t, xs, ys[..n]);
      assert (xs + ys)[..|xs + ys| - 1] == xs + ys[..n];
    }
  }

  lemma {:induction false} TopsUnder(t: Tree, i: nat, ps: seq<Path>)
    requires i < |Kids(t)| && !IsSlot(t)
    ensures Tops(t, Under(i, ps)) == Under(i, Tops(Kids(t)[i], ps))
  {
    hide IsTop;
    if ps != [] {
      var n := |ps| - 1;
      TopsUnder(t, i, ps[..n]);
      assert Under(i, ps)[..n] == Under(i, ps[..n]);
      assert Under(i, ps)[n] == [i] + ps[n] && ([i] + ps[n])[1..] == ps[n];
      TopsBelow(t, [i] + ps[n]);
    }
  }

  lemma {:induction false} NoTopsUnder(t: Tree, ps: seq<Path>)
    requires IsSlot(t) && forall p :: p in ps ==> p != []
    ensures Tops(t, ps) == []
  {
    if ps != [] {
      var n := |ps| - 1;
      assert forall p :: p in ps[..n] ==> p in ps;
      NoTopsUnder(t, ps[..n]);
      assert ps[n] in ps && [] < ps[n] && HasAt(t, []) && At(t, []) == t;
    }
  }

  function SlotParts(t: Tree): seq<seq<Path>> {
    seq(|Kids(t)|, i requires 0 <= i < |Kids(t)| => Under(i, SlotsOf(Kids(t)[i])))
  }

  lemma {:induction false} TopsFlat(t: Tree, from: nat)
    requires !IsSlot(t) && from <= |Kids(t)|
    requires forall i :: 0 <= i < |Kids(t)| ==> Tops(Kids(t)[i], PreOrder(Kids(t)[i])) == SlotsOf(Kids(t)[i])
    ensures Tops(t, Flat(Parts(t)[from..])) == Flat(SlotParts(t)[from..])
    decreases |Kids(t)| - from
  {
    hide IsTop, SlotsOf, PreOrder, Under, IsSlot, Tops, Flat;
    NextPart(t, from);
    if from < |Kids(t)| {
      TopsFlat(t, from + 1);
      TopsConcat(t, Parts(t)[from], Flat(Parts(t)[from + 1..]));
      TopsUnder(t, from, PreOrder(Kids(t)[from]));
    }
  }

  lemma NextPart(t: Tree, from: nat)
    requires from <= |Kids(t)|
    ensures from == |Kids(t)| ==> Tops(t, Flat(Parts(t)[from..])) == [] && Flat(SlotParts(t)[from..]) == []
    ensures from < |Kids(t)| ==>
              && Flat(Parts(t)[from..]) == Parts(t)[from] + Flat(Parts(t)[from + 1..])
              && Flat(SlotParts(t)[from..]) == SlotParts(t)[from] + Flat(SlotParts(t)[from + 1..])
              && Parts(t)[from] == Under(from, PreOrder(Kids(t)[from])) && SlotParts(t)[from] == Under(from, SlotsOf(Kids(t)[from]))
  {
    hide IsTop, SlotsOf, PreOrder, Under, IsSlot;
    var parts, slots := Parts(t)[from..], SlotParts(t)[from..];
    if from < |Kids(t)| {
      assert parts[1..] == Parts(t)[from + 1..] && slots[1..] == SlotParts(t)[from + 1..];
    }
  }

  lemma Unfold(t: Tree)
    ensures PreOrder(t) == [[]] + Flat(Parts(t))
    ensures SlotsOf(t) == if IsSlot(t) then [[]] else Flat(SlotParts(t))
  {
    assert Parts(t) == seq(|Kids(t)|, i requires 0 <= i < |Kids(t)| => Under(i, PreOrder(Kids(t)[i])));
    assert SlotParts(t) == seq(|Kids(t)|, i requires 0 <= i < |Kids(t)| => Under(i, SlotsOf(Kids(t)[i])));
  }

  /** The topmost slots of the walk are the slots, in their order. */
  lemma {:induction false} WalkFindsSlots(t: Tree)
    ensures Tops(t, PreOrder(t)) == SlotsOf(t)
    decreases t
  {
    hide IsTop, SlotsOf, PreOrder, Parts, SlotParts, IsSlot;
    var root: seq<Path> := [[]];
    var parts := Parts(t);
    Unfold(t);
    TopsConcat(t, root, Flat(parts));
    TopRoot(t);
    assert root[..0] == [] && Tops(t, []) == [];
    assert Tops(t, root) == if IsSlot(t) then root else [];
    if IsSlot(t) {
      PartsUnder(t);
      FlatIn(parts);
      NoTopsUnder(t, Flat(parts));
    } else {
      forall i | 0 <= i < |Kids(t)|
        ensures Tops(Kids(t)[i], PreOrder(Kids(t)[i])) == SlotsOf(Kids(t)[i])
      {
        WalkFindsSlots(Kids(t)[i]);
      }
      TopsFlat(t, 0);
      assert parts[0..] == parts && SlotParts(t)[0..] == SlotParts(t);
    }
  }

  lemma TopRoot(t: Tree)
    ensures IsTop(t, []) <==> IsSlot(t)
  {
  }

  ghost predicate UnderOne(found: seq<Path>, p: Path) {
    exists s :: s in found && s <= p
  }

  lemma UnderOneMore(found: seq<Path>, n: Path, p: Path)
    ensures UnderOne(found + [n], p) <==> UnderOne(found, p) || n <= p
  {
    assert n in found + [n];
    if s :| s in found && s <= p {
      assert s in found + [n];
    }
  }

  lemma MetUnder(t: Tree, order: seq<Path>, i: nat, s: Path)
    requires Descending(order) && i < |order| && s in Tops(t, order[..i]) && s <= order[i]
    ensures !IsTop(t, order[i])
  {
    hide IsTop, Tops;
    TopsIn(t, order[..i]);
    var k :| 0 <= k < i && order[..i][k] == s;
    assert !(order[i] <= order[k]);
    assert s < order[i];
    TopHides(t, s, order[i]);
  }

  lemma MetTop(t: Tree, order: seq<Path>, i: nat)
    requires Descending(order) && i < |order| && (forall p :: HasAt(t, p) ==> p in order)
    requires HasAt(t, order[i]) && IsSlot(At(t, order[i])) && !UnderOne(Tops(t, order[..i]), order[i])
    ensures IsTop(t, order[i])
  {
    hide IsTop, Tops, IsSlot, SlotsOf, HasAt, At;
    var n := order[i];
    Covered(t, n);
    var s :| s in SlotsOf(t) && s <= n;
    SlotsAreTops(t, s);
    TopHas(t, s);
    var k :| 0 <= k < |order| && order[k] == s;
    if k < i {
      assert s in order[..i] by {
        assert order[..i][k] == s;
      }
      TopsIn(t, order[..i]);
      assert false;
    }
  }

  /** A node of the walk is a topmost slot exactly when it is a slot and under none found before it. */
  lemma TopWhenMet(t: Tree, order: seq<Path>, i: nat, found: seq<Path>)
    requires order == PreOrder(t) && i < |order| && found == Tops(t, order[..i])
    ensures HasAt(t, order[i])
    ensures IsTop(t, order[i]) <==> IsSlot(At(t, order[i])) && !UnderOne(found, order[i])
  {
    hide IsTop, PreOrder, Tops, IsSlot;
    PreOrderDescends(t);
    var n := order[i];
    assert n in order;
    if s :| s in found && s <= n {
      MetUnder(t, order, i, s);
    } else if IsSlot(At(t, n)) {
      MetTop(t, order, i);
    } else {
      NoSlotNoTop(t, n);
    }
  }

  lemma TopHas(t: Tree, s: Path)
    requires IsTop(t, s)
    ensures HasAt(t, s)
  {
  }

  lemma NoSlotNoTop(t: Tree, n: Path)
    requires HasAt(t, n) && !IsSlot(At(t, n))
    ensures !IsTop(t, n)
  {
  }

  lemma TopHides(t: Tree, s: Path, n: Path)
    requires IsTop(t, s) && s < n
    ensures !IsTop(t, n)
  {
  }

  lemma {:induction false} TopsIn(t: Tree, ps: seq<Path>)
    ensures forall p :: p in Tops(t, ps) <==> p in ps && IsTop(t, p)
  {
    hide IsTop;
    if ps != [] {
      TopsIn(t, ps[..|ps| - 1]);
      assert ps == ps[..|ps| - 1] + [ps[|ps| - 1]];
    }
  }

  /** literal_slots: a walk that skips what is inside a slot it has found. */
  method LiteralSlots(t: Tree) returns (found: seq<Path>)
    ensures found == SlotsOf(t)
  {
    hide IsTop, SlotsOf, PreOrder;
    var order := PreOrder(t);
    PreOrderDescends(t);
    var skip: set<Path> := {};
    found := [];
    for i := 0 to |order|
      invariant found == Tops(t, order[..i])
      invariant forall q :: q in order ==> (q in skip <==> UnderOne(found, q))
    {
      var n := order[i];
      assert n in order && order[..i + 1][..i] == order[..i];
      TopWhenMet(t, order, i, found);
      if n in skip {
        continue;
      }
      if IsSlot(At(t, n)) {
        ghost var was := found;
        found := found + [n];
        skip := skip + set q | q in order && n <= q;
        forall q: Path | q in order
          ensures UnderOne(found, q) <==> UnderOne(was, q) || n <= q
        {
          UnderOneMore(was, n, q);
        }
      }
    }
    assert order[..|order|] == order;
    WalkFindsSlots(t);
  }
}
