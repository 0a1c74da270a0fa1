/** The facts that point at one anchor, most recent first, and what the cap keeps of them. */
module Recency {
  import opened Data

  /** A fact as an inward read orders it: its partition date (0 when its table has none), then its key. */
  datatype Fact = Fact(date: int, key: Value)

  predicate Before(x: Fact, y: Fact) {
    x.date > y.date || (x.date == y.date && x.key < y.key)
  }

  ghost predicate IsFirst(f: Fact, s: set<Fact>) {
    f in s && forall y :: y in s && y != f ==> Before(f, y)
  }

  lemma FirstExists(s: set<Fact>)
    requires s != {}
    ensures exists f :: IsFirst(f, s)
  {
    var x :| x in s;
    if s == {x} {
      assert IsFirst(x, s);
    } else {
      FirstExists(s - {x});
      var f :| IsFirst(f, s - {x});
      if Before(x, f) {
        forall y | y in s && y != x
          ensures Before(x, y)
        {
          assert y == f || Before(f, y);
        }
        assert IsFirst(x, s);
      } else {
        assert IsFirst(f, s);
      }
    }
  }

  function First(s: set<Fact>): (f: Fact)
    requires s != {}
    ensures IsFirst(f, s)
  {
    FirstExists(s);
    var f :| f in s && forall y :: y in s && y != f ==> Before(f, y);
    f
  }

  /** The order of an inward read: ORDER BY partition DESC, key. */
  function ByRecency(s: set<Fact>): (r: seq<Fact>)
    ensures |r| == |s|
    ensures Elements(r) == s
  {
    if s == {} then [] else
      var f := First(s);
      var rest := ByRecency(s - {f});
      ElementsCons(f, rest);
      [f] + rest
  }

  lemma ElementsCons(f: Fact, rest: seq<Fact>)
    ensures Elements([f] + rest) == {f} + Elements(rest)
  {
  }

  /** What the cap keeps of the facts: the most recent `cap` of them. */
  function TopCap(s: set<Fact>, cap: nat): (r: set<Fact>)
    ensures r <= s
    decreases cap
  {
    if s == {} || cap == 0 then {} else
      var f := First(s);
      {f} + TopCap(s - {f}, cap - 1)
  }

  lemma FirstUnique(s: set<Fact>, f: Fact)
    requires IsFirst(f, s)
    ensures First(s) == f
  {
  }

  lemma ElementsOfTakeCons<T>(x: T, s: seq<T>, n: nat)
    requires n > 0
    ensures Elements(Take([x] + s, n)) == {x} + Elements(Take(s, n - 1))
  {
    var t := Take(s, n - 1);
    assert Take([x] + s, n) == [x] + t;
    forall y | y in {x} + Elements(t)
      ensures y in [x] + t
    {
      if y != x {
        var i :| 0 <= i < |t| && t[i] == y;
        assert ([x] + t)[i + 1] == y;
      }
    }
  }

  /** TopCap is the prefix the order gives. */
  lemma {:induction false} TopCapIsPrefix(s: set<Fact>, cap: nat)
    ensures TopCap(s, cap) == Elements(Take(ByRecency(s), cap))
    decreases cap
  {
    if s == {} || cap == 0 {
      assert Take(ByRecency(s), cap) == [];
    } else {
      var f := First(s);
      var rest := ByRecency(s - {f});
      TopCapIsPrefix(s - {f}, cap - 1);
      ElementsOfTakeCons(f, rest, cap);
    }
  }

  lemma TopCapAll(s: set<Fact>, cap: nat)
    requires |s| <= cap
    ensures TopCap(s, cap) == s
  {
    TopCapIsPrefix(s, cap);
  }

  /** A store that holds some of the facts, the cap's among them, reads the same facts under the cap. */
  lemma {:induction false} TopCapOfPart(part: set<Fact>, whole: set<Fact>, cap: nat)
    requires part <= whole && TopCap(whole, cap) <= part
    ensures TopCap(part, cap) == TopCap(whole, cap)
    decreases cap
  {
    if whole != {} && cap > 0 {
      var f := First(whole);
      assert f in TopCap(whole, cap);
      FirstUnique(part, f);
      forall x | x in TopCap(whole - {f}, cap - 1)
        ensures x in part - {f}
      {
        assert x in TopCap(whole, cap) && x in whole - {f};
      }
      TopCapOfPart(part - {f}, whole - {f}, cap - 1);
    }
  }

  function Since(s: set<Fact>, since: int): set<Fact> {
    set f | f in s && f.date >= since
  }

  /** A later window's most recent facts are among an earlier window's. */
  lemma {:induction false} TopCapOfWindow(s: set<Fact>, since: int, cap: nat)
    ensures TopCap(Since(s, since), cap) <= TopCap(s, cap)
    decreases cap
  {
    var w := Since(s, since);
    if w != {} && cap > 0 {
      var f := First(s);
      var g := First(w);
      assert f == g || Before(f, g);
      assert f in w;
      FirstUnique(w, f);
      assert Since(s - {f}, since) == w - {f};
      TopCapOfWindow(s - {f}, since, cap - 1);
    }
  }
}
