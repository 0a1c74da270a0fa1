/** What the memory route's decision collects from a block's filters: each equality and lower bound with a literal, wherever
    it stands, filter by filter and in each the nearest its top first, from left to right. */
module Comparisons {
  import opened Options
  import opened Data
  import opened Answerable

  type Place = seq<nat>

  function Parts(f: Filter): seq<Filter> {
    match f
    case Not(g) => [g]
    case And(l, r) => [l, r]
    case Or(l, r) => [l, r]
    case _ => []
  }

  /** The part of a filter a place leads to. */
  function PartAt(f: Filter, place: Place): Option<Filter>
    decreases |place|
  {
    if place == [] then Some(f)
    else if place[0] < |Parts(f)| then PartAt(Parts(f)[place[0]], place[1..])
    else None
  }

  predicate IsCollected(f: Filter, place: Place) {
    match PartAt(f, place)
    case Some(Compare(_, _, op, _, _)) => op == EqOp || op == GeOp || op == GtOp
    case _ => false
  }

  predicate Is(f: Filter, place: Place, x: Atom) {
    match PartAt(f, place)
    case Some(Compare(t, c, op, v, _)) => x == Atom(t, c, op, v)
    case _ => false
  }

  /** Nearer the top, or as near and to the left. */
  ghost predicate Before(p: Place, q: Place) {
    |p| < |q| || (|p| == |q| && exists k :: LeftAt(p, q, k))
  }

  predicate LeftAt(p: Place, q: Place, k: nat) {
    k < |p| == |q| && p[..k] == q[..k] && p[k] < q[k]
  }

  ghost predicate InOrder(places: seq<Place>) {
    forall i, k :: 0 <= i < k < |places| ==> Before(places[i], places[k])
  }

  /** The comparisons are those at the places, from one depth on and as far as another. */
  ghost predicate Each(f: Filter, atoms: seq<Atom>, places: seq<Place>, from: nat, to: nat) {
    && |atoms| == |places|
    && forall i :: 0 <= i < |atoms| ==> from <= |places[i]| < to && IsCollected(f, places[i]) && Is(f, places[i], atoms[i])
  }

  ghost predicate HasAll(f: Filter, places: seq<Place>, from: nat, to: nat) {
    forall p :: IsCollected(f, p) && from <= |p| < to ==> p in places
  }

  ghost predicate Listed(f: Filter, atoms: seq<Atom>, places: seq<Place>, from: nat, to: nat) {
    Each(f, atoms, places, from, to) && InOrder(places) && HasAll(f, places, from, to)
  }

  lemma InOrderBoth(left: seq<Place>, right: seq<Place>)
    requires InOrder(left) && InOrder(right) && forall p, q :: p in left && q in right ==> Before(p, q)
    ensures InOrder(left + right)
  {
    hide Before;
    forall i, k | 0 <= i < k < |left + right|
      ensures Before((left + right)[i], (left + right)[k])
    {
      if i < |left| <= k {
        assert left[i] in left && right[k - |left|] in right;
      }
    }
  }

  lemma EachBoth(f: Filter, xs: seq<Atom>, left: seq<Place>, ys: seq<Atom>, right: seq<Place>, from: nat, mid: nat, to: nat)
    requires Each(f, xs, left, from, mid) && Each(f, ys, right, from, to) && mid <= to
    ensures Each(f, xs + ys, left + right, from, to)
  {
    hide IsCollected, Is;
  }

  function Under(i: nat, places: seq<Place>): (r: seq<Place>)
    ensures |r| == |places| && forall k :: 0 <= k < |r| ==> r[k] == [i] + places[k]
  {
    seq(|places|, k requires 0 <= k < |places| => [i] + places[k])
  }

  lemma PartUnder(f: Filter, i: nat, p: Place)
    requires i < |Parts(f)|
    ensures PartAt(f, [i] + p) == PartAt(Parts(f)[i], p)
  {
    assert ([i] + p)[1..] == p;
  }

  lemma BeforeUnder(i: nat, p: Place, q: Place)
    requires Before(p, q)
    ensures Before([i] + p, [i] + q)
  {
    if k: nat :| LeftAt(p, q, k) {
      assert ([i] + p)[..k + 1] == [i] + p[..k];
      assert ([i] + q)[..k + 1] == [i] + q[..k];
      assert LeftAt([i] + p, [i] + q, k + 1);
    }
  }

  lemma EachUnder(f: Filter, i: nat, atoms: seq<Atom>, places: seq<Place>, depth: nat)
    requires i < |Parts(f)| && Each(Parts(f)[i], atoms, places, depth, depth + 1)
    ensures Each(f, atoms, Under(i, places), depth + 1, depth + 2)
  {
    forall k | 0 <= k < |atoms|
      ensures PartAt(f, Under(i, places)[k]) == PartAt(Parts(f)[i], places[k])
    {
      PartUnder(f, i, places[k]);
    }
  }

  lemma InOrderUnder(i: nat, places: seq<Place>)
    requires InOrder(places)
    ensures InOrder(Under(i, places))
  {
    hide Before;
    forall k, m | 0 <= k < m < |places|
      ensures Before(Under(i, places)[k], Under(i, places)[m])
    {
      BeforeUnder(i, places[k], places[m]);
    }
  }

  lemma HasUnder(f: Filter, i: nat, places: seq<Place>, depth: nat, p: Place)
    requires i < |Parts(f)| && HasAll(Parts(f)[i], places, depth, depth + 1)
    requires IsCollected(f, p) && |p| == depth + 1 && p[0] == i
    ensures p in Under(i, places)
  {
    assert p == [i] + p[1..];
    PartUnder(f, i, p[1..]);
    var k :| 0 <= k < |places| && places[k] == p[1..];
    assert Under(i, places)[k] == p;
  }

  lemma {:induction false} LevelListed(f: Filter, depth: nat) returns (places: seq<Place>)
    ensures Listed(f, Level(f, depth), places, depth, depth + 1)
    decreases f
  {
    hide Listed, Before;
    places := [];
    if depth == 0 {
      places := if IsCollected(f, []) then [[]] else [];
      TopListed(f, places);
    } else if f.Not? {
      var below := LevelListed(f.f, depth - 1);
      places := NotListed(f, depth, below);
    } else if f.And? || f.Or? {
      var l := LevelListed(f.l, depth - 1);
      var r := LevelListed(f.r, depth - 1);
      places := BothListed(f, depth, l, r);
    } else {
      NothingListed(f, depth);
    }
  }

  lemma TopListed(f: Filter, places: seq<Place>)
    requires places == if IsCollected(f, []) then [[]] else []
    ensures Listed(f, Level(f, 0), places, 0, 1)
  {
    assert forall p: Place :: |p| < 1 ==> p == [];
  }

  lemma NothingListed(f: Filter, depth: nat)
    requires depth > 0 && Parts(f) == []
    ensures Listed(f, Level(f, depth), [], depth, depth + 1)
  {
    assert forall p: Place :: |p| == depth ==> PartAt(f, p).None?;
  }

  lemma NotListed(f: Filter, depth: nat, below: seq<Place>) returns (places: seq<Place>)
    requires depth > 0 && f.Not? && Listed(f.f, Level(f.f, depth - 1), below, depth - 1, depth)
    ensures Listed(f, Level(f, depth), places, depth, depth + 1)
  {
    hide Before, IsCollected, Is;
    places := Under(0, below);
    EachUnder(f, 0, Level(f.f, depth - 1), below, depth - 1);
    InOrderUnder(0, below);
    forall p | IsCollected(f, p) && depth <= |p| < depth + 1
      ensures p in places
    {
      CollectedInside(f, p);
      HasUnder(f, 0, below, depth - 1, p);
    }
  }

  lemma BothListed(f: Filter, depth: nat, l: seq<Place>, r: seq<Place>) returns (places: seq<Place>)
    requires depth > 0 && (f.And? || f.Or?)
    requires Listed(f.l, Level(f.l, depth - 1), l, depth - 1, depth) && Listed(f.r, Level(f.r, depth - 1), r, depth - 1, depth)
    ensures Listed(f, Level(f, depth), places, depth, depth + 1)
  {
    hide Each, InOrder, HasAll;
    places := Under(0, l) + Under(1, r);
    EachUnder(f, 0, Level(f.l, depth - 1), l, depth - 1);
    EachUnder(f, 1, Level(f.r, depth - 1), r, depth - 1);
    EachBoth(f, Level(f.l, depth - 1), Under(0, l), Level(f.r, depth - 1), Under(1, r), depth, depth + 1, depth + 1);
    LeftsFirst(f, depth, l, r);
    HasTwo(f, depth, l, r);
  }

  lemma LeftsFirst(f: Filter, depth: nat, l: seq<Place>, r: seq<Place>)
    requires depth > 0 && (f.And? || f.Or?)
    requires Each(f.l, Level(f.l, depth - 1), l, depth - 1, depth) && Each(f.r, Level(f.r, depth - 1), r, depth - 1, depth)
    requires InOrder(l) && InOrder(r)
    ensures InOrder(Under(0, l) + Under(1, r))
  {
    hide Before, InOrder, Each, Under, Level;
    InOrderUnder(0, l);
    InOrderUnder(1, r);
    forall p, q | p in Under(0, l) && q in Under(1, r)
      ensures Before(p, q)
    {
      Lengths(f.l, Level(f.l, depth - 1), l, depth - 1, p, 0);
      Lengths(f.r, Level(f.r, depth - 1), r, depth - 1, q, 1);
      LeftFirst(p, q);
    }
    InOrderBoth(Under(0, l), Under(1, r));
  }

  lemma HasTwo(f: Filter, depth: nat, l: seq<Place>, r: seq<Place>)
    requires depth > 0 && (f.And? || f.Or?)
    requires HasAll(f.l, l, depth - 1, depth) && HasAll(f.r, r, depth - 1, depth)
    ensures HasAll(f, Under(0, l) + Under(1, r), depth, depth + 1)
  {
    hide IsCollected, Under;
    assert Parts(f) == [f.l, f.r];
    forall p | IsCollected(f, p) && depth <= |p| < depth + 1
      ensures p in Under(0, l) + Under(1, r)
    {
      CollectedInside(f, p);
      HasUnder(f, p[0], if p[0] == 0 then l else r, depth - 1, p);
    }
  }

  lemma Lengths(f: Filter, atoms: seq<Atom>, places: seq<Place>, depth: nat, p: Place, i: nat)
    requires Each(f, atoms, places, depth, depth + 1) && p in Under(i, places)
    ensures |p| == depth + 1 && p[0] == i
  {
    hide IsCollected, Is;
    var k :| 0 <= k < |Under(i, places)| && Under(i, places)[k] == p;
    assert p == [i] + places[k];
  }

  lemma LeftFirst(p: Place, q: Place)
    requires |p| == |q| > 0 && p[0] < q[0]
    ensures Before(p, q)
  {
    assert p[..0] == q[..0];
    assert LeftAt(p, q, 0);
  }

  lemma CollectedInside(f: Filter, p: Place)
    requires IsCollected(f, p) && p != []
    ensures p[0] < |Parts(f)|
  {
  }

  lemma {:induction false} LevelsListed(f: Filter, depth: nat, end: nat) returns (places: seq<Place>)
    requires end == Depth(f) + 1 && depth <= end
    ensures Listed(f, Levels(f, depth), places, depth, end)
    decreases end - depth
  {
    hide Listed;
    if depth == end {
      places := [];
      NoLevels(f, end);
    } else {
      var first := LevelListed(f, depth);
      var rest := LevelsListed(f, depth + 1, end);
      places := NextLevel(f, depth, end, first, rest);
    }
  }

  lemma NoLevels(f: Filter, end: nat)
    requires end == Depth(f) + 1
    ensures Listed(f, Levels(f, end), [], end, end)
  {
  }

  lemma NextLevel(f: Filter, depth: nat, end: nat, first: seq<Place>, rest: seq<Place>) returns (places: seq<Place>)
    requires depth < end == Depth(f) + 1
    requires Listed(f, Level(f, depth), first, depth, depth + 1) && Listed(f, Levels(f, depth + 1), rest, depth + 1, end)
    ensures Listed(f, Levels(f, depth), places, depth, end)
  {
    hide Each, InOrder, HasAll, Level;
    places := first + rest;
    Wider(f, Levels(f, depth + 1), rest, depth, end);
    EachBoth(f, Level(f, depth), first, Levels(f, depth + 1), rest, depth, depth + 1, end);
    LevelFirst(f, Level(f, depth), first, Levels(f, depth + 1), rest, depth, end);
    HasBoth(f, first, rest, depth, end);
  }

  lemma Wider(f: Filter, atoms: seq<Atom>, places: seq<Place>, depth: nat, end: nat)
    requires Each(f, atoms, places, depth + 1, end)
    ensures Each(f, atoms, places, depth, end)
  {
    hide IsCollected, Is;
  }

  lemma LevelFirst(f: Filter, xs: seq<Atom>, first: seq<Place>, ys: seq<Atom>, rest: seq<Place>, depth: nat, end: nat)
    requires Each(f, xs, first, depth, depth + 1) && Each(f, ys, rest, depth + 1, end) && InOrder(first) && InOrder(rest)
    ensures InOrder(first + rest)
  {
    hide IsCollected, Is, InOrder;
    forall p, q | p in first && q in rest
      ensures Before(p, q)
    {
      var i :| 0 <= i < |first| && first[i] == p;
      var k :| 0 <= k < |rest| && rest[k] == q;
      assert |first[i]| == depth && |rest[k]| > depth;
    }
    InOrderBoth(first, rest);
  }

  lemma HasBoth(f: Filter, first: seq<Place>, rest: seq<Place>, depth: nat, end: nat)
    requires HasAll(f, first, depth, depth + 1) && HasAll(f, rest, depth + 1, end)
    ensures HasAll(f, first + rest, depth, end)
  {
    hide IsCollected;
  }

  lemma {:induction false} NoneBelow(f: Filter, p: Place)
    requires |p| > Depth(f)
    ensures !IsCollected(f, p)
    decreases |p|
  {
    if p[0] < |Parts(f)| {
      NoneBelow(Parts(f)[p[0]], p[1..]);
    }
  }

  // ---- all filters

  type FilterPlace = (nat, Place)

  ghost predicate Earlier(p: FilterPlace, q: FilterPlace) {
    p.0 < q.0 || (p.0 == q.0 && Before(p.1, q.1))
  }

  ghost predicate AllInOrder(at: seq<FilterPlace>) {
    forall i, k :: 0 <= i < k < |at| ==> Earlier(at[i], at[k])
  }

  predicate IsOne(fs: seq<Filter>, p: FilterPlace, x: Atom) {
    p.0 < |fs| && IsCollected(fs[p.0], p.1) && Is(fs[p.0], p.1, x)
  }

  ghost predicate AllAt(fs: seq<Filter>, atoms: seq<Atom>, at: seq<FilterPlace>) {
    |atoms| == |at| && forall i :: 0 <= i < |at| ==> IsOne(fs, at[i], atoms[i])
  }

  ghost predicate HasEach(fs: seq<Filter>, at: seq<FilterPlace>) {
    forall p: FilterPlace :: p.0 < |fs| && IsCollected(fs[p.0], p.1) ==> p in at
  }

  /** Every equality and lower bound with a literal, wherever it stands in the filters, each once; no other comparison; and
      in order: of an earlier filter, nearer its top, or further left. */
  lemma {:induction false} CollectedIsListed(fs: seq<Filter>) returns (at: seq<FilterPlace>)
    ensures AllAt(fs, CollectedAll(fs), at) && AllInOrder(at) && HasEach(fs, at)
  {
    hide IsOne, Earlier, IsCollected, Collected, Listed, Shifted;
    if fs == [] {
      at := [];
    } else {
      var first := LevelsListed(fs[0], 0, Depth(fs[0]) + 1);
      assert Collected(fs[0]) == Levels(fs[0], 0) by {
        CollectedLevels(fs[0]);
      }
      var rest := CollectedIsListed(fs[1..]);
      var here := Here(fs, first);
      Later(fs, rest);
      at := here + Shifted(rest);
      HereAndLater(fs, here, Shifted(rest));
    }
  }

  lemma HereAndLater(fs: seq<Filter>, here: seq<FilterPlace>, later: seq<FilterPlace>)
    requires fs != [] && AllAt(fs, Collected(fs[0]), here) && AllAt(fs, CollectedAll(fs[1..]), later)
    requires AllInOrder(here) && AllInOrder(later) && (forall p :: p in here ==> p.0 == 0) && forall p :: p in later ==> p.0 > 0
    requires forall p: FilterPlace :: p.0 == 0 && IsCollected(fs[0], p.1) ==> p in here
    requires forall p: FilterPlace :: 0 < p.0 < |fs| && IsCollected(fs[p.0], p.1) ==> p in later
    ensures AllAt(fs, CollectedAll(fs), here + later) && AllInOrder(here + later) && HasEach(fs, here + later)
  {
    hide AllAt, HasEach, AllInOrder, IsCollected, Collected;
    AllInOrderBoth(here, later);
    assert CollectedAll(fs) == Collected(fs[0]) + CollectedAll(fs[1..]);
    AllAtBoth(fs, Collected(fs[0]), here, CollectedAll(fs[1..]), later);
    HasEachOf(fs, here, later);
  }

  lemma AllAtBoth(fs: seq<Filter>, xs: seq<Atom>, here: seq<FilterPlace>, ys: seq<Atom>, later: seq<FilterPlace>)
    requires AllAt(fs, xs, here) && AllAt(fs, ys, later)
    ensures AllAt(fs, xs + ys, here + later)
  {
    hide IsOne;
  }

  lemma HasEachOf(fs: seq<Filter>, here: seq<FilterPlace>, later: seq<FilterPlace>)
    requires fs != [] && forall p: FilterPlace :: p.0 == 0 && IsCollected(fs[0], p.1) ==> p in here
    requires forall p: FilterPlace :: 0 < p.0 < |fs| && IsCollected(fs[p.0], p.1) ==> p in later
    ensures HasEach(fs, here + later)
  {
    hide IsCollected;
    forall p: FilterPlace | p.0 < |fs| && IsCollected(fs[p.0], p.1)
      ensures p in here + later
    {
      assert p in here || p in later;
    }
  }

  lemma CollectedLevels(f: Filter)
    ensures Collected(f) == Levels(f, 0)
  {
  }

  lemma AllInOrderBoth(left: seq<FilterPlace>, right: seq<FilterPlace>)
    requires AllInOrder(left) && AllInOrder(right)
    requires (forall p :: p in left ==> p.0 == 0) && forall p :: p in right ==> p.0 > 0
    ensures AllInOrder(left + right)
  {
    hide Before;
    forall i, k | 0 <= i < k < |left + right|
      ensures Earlier((left + right)[i], (left + right)[k])
    {
      if i < |left| <= k {
        assert left[i] in left && right[k - |left|] in right;
      }
    }
  }

  lemma Here(fs: seq<Filter>, places: seq<Place>) returns (here: seq<FilterPlace>)
    requires fs != [] && Listed(fs[0], Collected(fs[0]), places, 0, Depth(fs[0]) + 1)
    ensures AllAt(fs, Collected(fs[0]), here) && AllInOrder(here) && forall p :: p in here ==> p.0 == 0
    ensures forall p: FilterPlace :: p.0 == 0 && IsCollected(fs[0], p.1) ==> p in here
  {
    hide IsCollected, Is, Before, Depth, Collected;
    here := seq(|places|, i requires 0 <= i < |places| => (0, places[i]));
    forall p: FilterPlace | p.0 == 0 && IsCollected(fs[0], p.1)
      ensures p in here
    {
      if |p.1| > Depth(fs[0]) {
        NoneBelow(fs[0], p.1);
      }
      var i :| 0 <= i < |places| && places[i] == p.1;
      assert here[i] == p;
    }
  }

  function Shifted(rest: seq<FilterPlace>): (later: seq<FilterPlace>)
    ensures |later| == |rest| && forall i :: 0 <= i < |rest| ==> later[i] == (rest[i].0 + 1, rest[i].1)
  {
    seq(|rest|, i requires 0 <= i < |rest| => (rest[i].0 + 1, rest[i].1))
  }

  lemma Later(fs: seq<Filter>, rest: seq<FilterPlace>)
    requires fs != [] && AllAt(fs[1..], CollectedAll(fs[1..]), rest) && AllInOrder(rest) && HasEach(fs[1..], rest)
    ensures AllAt(fs, CollectedAll(fs[1..]), Shifted(rest)) && AllInOrder(Shifted(rest)) && forall p :: p in Shifted(rest) ==> p.0 > 0
    ensures forall p: FilterPlace :: 0 < p.0 < |fs| && IsCollected(fs[p.0], p.1) ==> p in Shifted(rest)
  {
    hide IsCollected, Is, CollectedAll, AllInOrder, Shifted;
    forall i | 0 <= i < |rest|
      ensures IsOne(fs, Shifted(rest)[i], CollectedAll(fs[1..])[i])
    {
      assert IsOne(fs[1..], rest[i], CollectedAll(fs[1..])[i]);
    }
    LaterInOrder(rest);
    forall p: FilterPlace | 0 < p.0 < |fs| && IsCollected(fs[p.0], p.1)
      ensures p in Shifted(rest)
    {
      var before: FilterPlace := (p.0 - 1, p.1);
      assert fs[1..][before.0] == fs[p.0];
      var i :| 0 <= i < |rest| && rest[i] == before;
      assert Shifted(rest)[i] == p;
    }
  }

  lemma LaterInOrder(rest: seq<FilterPlace>)
    requires AllInOrder(rest)
    ensures AllInOrder(Shifted(rest))
  {
    hide Before, Shifted;
    forall i, k | 0 <= i < k < |rest|
      ensures Earlier(Shifted(rest)[i], Shifted(rest)[k])
    {
      assert Earlier(rest[i], rest[k]);
    }
  }
}
