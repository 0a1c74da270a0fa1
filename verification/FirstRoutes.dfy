/** Of several shortest routes to a table, which one the search finds: the one that goes first along the earlier listed joins. */
module FirstRoutes {
  import opened Sql
  import opened From
  import opened Routes

  /** Where a table lists a join first. */
  predicate ListedAt(cat: Catalogue, h: Hop, i: nat) {
    && h.from in cat.edges && i < |cat.edges[h.from]|
    && cat.edges[h.from][i] == Edge(h.to, h.mine, h.theirs)
    && forall k :: 0 <= k < i ==> cat.edges[h.from][k] != Edge(h.to, h.mine, h.theirs)
  }

  /** Of two hops from one table, the one listed earlier. */
  ghost predicate HopBefore(cat: Catalogue, h: Hop, g: Hop) {
    h.from == g.from && exists i: nat, k: nat :: i < k && ListedAt(cat, h, i) && ListedAt(cat, g, k)
  }

  ghost predicate PartsAt(cat: Catalogue, p: Path, q: Path, k: nat) {
    k < |p| && k < |q| && p[..k] == q[..k] && HopBefore(cat, p[k], q[k])
  }

  /** As long, and where they part, along a join listed earlier. */
  ghost predicate PathBefore(cat: Catalogue, p: Path, q: Path) {
    |p| == |q| && exists k: nat :: PartsAt(cat, p, q, k)
  }

  ghost predicate NotAfter(cat: Catalogue, p: Path, q: Path) {
    p == q || PathBefore(cat, p, q)
  }

  lemma ListedOnce(cat: Catalogue, h: Hop, i: nat, k: nat)
    requires ListedAt(cat, h, i) && ListedAt(cat, h, k)
    ensures i == k
  {
  }

  lemma HopsBefore(cat: Catalogue, f: Hop, g: Hop, h: Hop)
    requires HopBefore(cat, f, g) && HopBefore(cat, g, h)
    ensures HopBefore(cat, f, h)
  {
    var i: nat, k: nat :| i < k && ListedAt(cat, f, i) && ListedAt(cat, g, k);
    var k': nat, m: nat :| k' < m && ListedAt(cat, g, k') && ListedAt(cat, h, m);
    ListedOnce(cat, g, k, k');
  }

  lemma BeforeThen(cat: Catalogue, p: Path, q: Path, r: Path)
    requires PathBefore(cat, p, q) && PathBefore(cat, q, r)
    ensures PathBefore(cat, p, r)
  {
    hide HopBefore;
    var k: nat :| PartsAt(cat, p, q, k);
    var m: nat :| PartsAt(cat, q, r, m);
    if k < m {
      assert q[k] == q[..m][k] == r[..m][k] == r[k] && q[..k] == q[..m][..k] == r[..m][..k] == r[..k];
      assert PartsAt(cat, p, r, k);
    } else if m < k {
      assert p[m] == p[..k][m] == q[..k][m] == q[m] && p[..m] == p[..k][..m] == q[..k][..m] == q[..m];
      assert PartsAt(cat, p, r, m);
    } else {
      HopsBefore(cat, p[k], q[k], r[k]);
      assert PartsAt(cat, p, r, k);
    }
  }

  lemma BeforeLonger(cat: Catalogue, p: Path, q: Path, h: Hop, g: Hop)
    requires PathBefore(cat, p, q)
    ensures PathBefore(cat, p + [h], q + [g])
  {
    hide HopBefore;
    var k: nat :| PartsAt(cat, p, q, k);
    assert (p + [h])[..k] == p[..k] && (q + [g])[..k] == q[..k];
    assert PartsAt(cat, p + [h], q + [g], k);
  }

  lemma BeforeAtLast(cat: Catalogue, p: Path, h: Hop, g: Hop)
    requires HopBefore(cat, h, g)
    ensures PathBefore(cat, p + [h], p + [g])
  {
    assert (p + [h])[..|p|] == p == (p + [g])[..|p|];
    assert PartsAt(cat, p + [h], p + [g], |p|);
  }

  // ---- the search goes through tables in the order of their routes

  /** No route over another table of the level before would come earlier. */
  ghost predicate BestOf(cat: Catalogue, unique: UniqueColumn, start: Table, routes: map<Table, Path>, t: Table)
    requires t in routes
  {
    t != start ==> forall u, h: Hop :: u in routes && |routes[u]| + 1 == |routes[t]| && h.from == u && h.to == t && IsHop(cat, unique, h) ==>
      NotAfter(cat, routes[t], routes[u] + [h])
  }

  ghost predicate Best(cat: Catalogue, unique: UniqueColumn, start: Table, routes: map<Table, Path>) {
    forall t :: t in routes ==> BestOf(cat, unique, start, routes, t)
  }

  /** The queue is in the order of its routes, within a level. */
  ghost predicate Sorted(cat: Catalogue, st: State)
    requires QueueSeen(st)
  {
    forall i, k :: 0 <= i < k < |st.queue| && |Route(st, i)| == |Route(st, k)| ==> PathBefore(cat, Route(st, i), Route(st, k))
  }

  /** While `t` is looked at: those of its level still waiting come after it; and those waiting of the next were met by way of
      tables before it, or from it, along the joins so far. */
  ghost predicate Waiting(cat: Catalogue, t: Table, i: nat, st: State)
    requires QueueSeen(st) && t in st.routes
  {
    && (forall x :: x in st.queue && |st.routes[x]| == |st.routes[t]| ==> PathBefore(cat, st.routes[t], st.routes[x]))
    && (forall x :: x in st.queue && |st.routes[x]| == |st.routes[t]| + 1 ==> MetBefore(cat, t, st.routes[t], i, st.routes[x]))
  }

  ghost predicate MetBefore(cat: Catalogue, t: Table, route: Path, i: nat, path: Path) {
    && |path| == |route| + 1
    && (PathBefore(cat, path[..|path| - 1], route)
        || (path[..|path| - 1] == route && ListedBefore(cat, path[|path| - 1], t, i)))
  }

  ghost predicate ListedBefore(cat: Catalogue, h: Hop, t: Table, i: nat) {
    h.from == t && exists k: nat :: k < i && ListedAt(cat, h, k)
  }

  /** The state of the search while `t` is looked at, its first `i` joins done. */
  ghost predicate Looking(cat: Catalogue, unique: UniqueColumn, hops: nat, start: Table, t: Table, i: nat, st: State) {
    && QueueSeen(st) && t in st.routes && t !in st.queue && |st.routes[t]| < hops && t in cat.edges && i <= |cat.edges[t]|
    && Rooted(cat, unique, hops, start, st.routes) && Layered(st, |st.routes[t]|) && Done(cat, unique, hops, st, {t})
    && Sorted(cat, st) && Waiting(cat, t, i, st) && Best(cat, unique, start, st.routes)
    && forall k :: 0 <= k < i && unique(cat.edges[t][k].other, cat.edges[t][k].theirs) ==> cat.edges[t][k].other in st.routes
  }

  /** The next join leads to a table not met: it is listed first here, and no table met before leads there from this level. */
  lemma NewIsBest(cat: Catalogue, unique: UniqueColumn, hops: nat, start: Table, t: Table, i: nat, st: State)
    requires Looking(cat, unique, hops, start, t, i, st) && i < |cat.edges[t]|
    requires var e := cat.edges[t][i]; e.other !in st.routes && unique(e.other, e.theirs)
    ensures var e := cat.edges[t][i];
            var h := Hop(t, e.mine, e.other, e.theirs);
            && ListedAt(cat, h, i)
            && forall u, g: Hop :: u in st.routes && |st.routes[u]| == |st.routes[t]| && g.from == u && g.to == e.other && IsHop(cat, unique, g) ==>
                 NotAfter(cat, st.routes[t] + [h], st.routes[u] + [g])
  {
    hide Rooted, Layered, Sorted, Best, PathBefore;
    var e := cat.edges[t][i];
    var h := Hop(t, e.mine, e.other, e.theirs);
    assert ListedAt(cat, h, i);
    forall u, g: Hop | u in st.routes && |st.routes[u]| == |st.routes[t]| && g.from == u && g.to == e.other && IsHop(cat, unique, g)
      ensures NotAfter(cat, st.routes[t] + [h], st.routes[u] + [g])
    {
      if u == t {
        var k := FirstOf(cat, g);
        assert k >= i;
        if k > i {
          assert HopBefore(cat, h, g);
          BeforeAtLast(cat, st.routes[t], h, g);
        }
      } else if u in st.queue {
        BeforeLonger(cat, st.routes[t], st.routes[u], h, g);
      } else {
        AlreadyMet(cat, unique, hops, t, u, g, st);
      }
    }
  }

  lemma AlreadyMet(cat: Catalogue, unique: UniqueColumn, hops: nat, t: Table, u: Table, g: Hop, st: State)
    requires Done(cat, unique, hops, st, {t}) && u in st.routes && u !in st.queue && u != t && |st.routes[u]| < hops
    requires g.from == u && IsHop(cat, unique, g)
    ensures g.to in st.routes
  {
    assert Looked(cat, unique, EdgesOf(cat, u), u, st);
    assert Edge(g.to, g.mine, g.theirs) in EdgesOf(cat, u);
  }

  lemma FirstOf(cat: Catalogue, h: Hop) returns (i: nat)
    requires h.from in cat.edges && Edge(h.to, h.mine, h.theirs) in cat.edges[h.from]
    ensures ListedAt(cat, h, i)
  {
    i := 0;
    while cat.edges[h.from][i] != Edge(h.to, h.mine, h.theirs)
      invariant i < |cat.edges[h.from]| && forall k :: 0 <= k < i ==> cat.edges[h.from][k] != Edge(h.to, h.mine, h.theirs)
      decreases |cat.edges[h.from]| - i
    {
      var k :| 0 <= k < |cat.edges[h.from]| && cat.edges[h.from][k] == Edge(h.to, h.mine, h.theirs);
      i := i + 1;
    }
  }

  /** A join done: the table it leads to, if new, waits behind the others of its level, by a best route. */
  lemma SeeLooking(cat: Catalogue, unique: UniqueColumn, hops: nat, start: Table, t: Table, i: nat, st: State)
    requires Looking(cat, unique, hops, start, t, i, st) && i < |cat.edges[t]|
    ensures Looking(cat, unique, hops, start, t, i + 1, See(unique, t, cat.edges[t][i], st))
    ensures See(unique, t, cat.edges[t][i], st).routes[t] == st.routes[t]
  {
    hide Rooted, Layered, Done, Sorted, Waiting, Best, IsHop;
    var e := cat.edges[t][i];
    assert e in EdgesOf(cat, t);
    SeeKeeps(cat, unique, hops, start, t, e, st);
    var r := See(unique, t, e, st);
    if r == st {
      WaitingOn(cat, t, i, st);
    } else {
      NewIsBest(cat, unique, hops, start, t, i, st);
      NewWaits(cat, unique, hops, start, t, i, st);
      NewSorted(cat, unique, hops, start, t, i, st);
      NewBest(cat, unique, hops, start, t, i, st);
    }
  }

  lemma WaitingOn(cat: Catalogue, t: Table, i: nat, st: State)
    requires QueueSeen(st) && t in st.routes && Waiting(cat, t, i, st)
    ensures Waiting(cat, t, i + 1, st)
  {
    hide PathBefore, ListedAt;
  }

  lemma NewWaits(cat: Catalogue, unique: UniqueColumn, hops: nat, start: Table, t: Table, i: nat, st: State)
    requires Looking(cat, unique, hops, start, t, i, st) && i < |cat.edges[t]|
    requires var e := cat.edges[t][i]; e.other !in st.routes && unique(e.other, e.theirs) && ListedAt(cat, Hop(t, e.mine, e.other, e.theirs), i)
    ensures QueueSeen(See(unique, t, cat.edges[t][i], st)) && Waiting(cat, t, i + 1, See(unique, t, cat.edges[t][i], st))
  {
    hide Rooted, Layered, Done, Sorted, Best, IsHop, PathBefore, ListedAt;
    var e := cat.edges[t][i];
    var h := Hop(t, e.mine, e.other, e.theirs);
    var r := See(unique, t, e, st);
    assert r.routes[e.other] == st.routes[t] + [h];
    assert MetBefore(cat, t, st.routes[t], i + 1, st.routes[t] + [h]) by {
      assert (st.routes[t] + [h])[..|st.routes[t]|] == st.routes[t];
      assert ListedBefore(cat, h, t, i + 1);
    }
    forall x | x in r.queue && |r.routes[x]| == |r.routes[t]| + 1
      ensures MetBefore(cat, t, r.routes[t], i + 1, r.routes[x])
    {
      if x != e.other {
        assert x in st.queue && MetBefore(cat, t, st.routes[t], i, st.routes[x]);
      }
    }
  }

  lemma NewSorted(cat: Catalogue, unique: UniqueColumn, hops: nat, start: Table, t: Table, i: nat, st: State)
    requires Looking(cat, unique, hops, start, t, i, st) && i < |cat.edges[t]|
    requires var e := cat.edges[t][i]; e.other !in st.routes && unique(e.other, e.theirs) && ListedAt(cat, Hop(t, e.mine, e.other, e.theirs), i)
    ensures QueueSeen(See(unique, t, cat.edges[t][i], st)) && Sorted(cat, See(unique, t, cat.edges[t][i], st))
  {
    hide Rooted, Layered, Done, Best, IsHop, PathBefore, ListedAt;
    var e := cat.edges[t][i];
    var h := Hop(t, e.mine, e.other, e.theirs);
    var r := See(unique, t, e, st);
    forall m, k | 0 <= m < k < |r.queue| && |Route(r, m)| == |Route(r, k)|
      ensures PathBefore(cat, Route(r, m), Route(r, k))
    {
      assert r.queue[m] == st.queue[m] && st.queue[m] in st.queue && Route(r, m) == st.routes[st.queue[m]];
      if k < |st.queue| {
        assert r.queue[k] == st.queue[k] && st.queue[k] in st.queue;
        assert PathBefore(cat, Route(st, m), Route(st, k));
      } else {
        MetThen(cat, t, st.routes[t], i, Route(r, m), h);
      }
    }
  }

  lemma MetThen(cat: Catalogue, t: Table, route: Path, i: nat, path: Path, h: Hop)
    requires MetBefore(cat, t, route, i, path) && h.from == t && ListedAt(cat, h, i)
    ensures PathBefore(cat, path, route + [h])
  {
    hide ListedAt;
    var n := |path| - 1;
    assert path == path[..n] + [path[n]];
    if PathBefore(cat, path[..n], route) {
      BeforeLonger(cat, path[..n], route, path[n], h);
    } else {
      BeforeAtLast(cat, route, path[n], h);
    }
  }

  lemma NewBest(cat: Catalogue, unique: UniqueColumn, hops: nat, start: Table, t: Table, i: nat, st: State)
    requires Looking(cat, unique, hops, start, t, i, st) && i < |cat.edges[t]|
    requires var e := cat.edges[t][i];
             var h := Hop(t, e.mine, e.other, e.theirs);
             && e.other !in st.routes && unique(e.other, e.theirs)
             && forall u, g: Hop :: u in st.routes && |st.routes[u]| == |st.routes[t]| && g.from == u && g.to == e.other && IsHop(cat, unique, g) ==>
                  NotAfter(cat, st.routes[t] + [h], st.routes[u] + [g])
    ensures Best(cat, unique, start, See(unique, t, cat.edges[t][i], st).routes)
  {
    hide Rooted, Done, Sorted, Waiting, IsHop, NotAfter;
    var e := cat.edges[t][i];
    var r := See(unique, t, e, st);
    forall x | x in r.routes
      ensures BestOf(cat, unique, start, r.routes, x)
    {
      if x != e.other {
        assert BestOf(cat, unique, start, st.routes, x);
        assert |r.routes[e.other]| + 1 > |r.routes[x]|;
      }
    }
  }

  lemma {:induction false} SpreadLooking(cat: Catalogue, unique: UniqueColumn, hops: nat, start: Table, t: Table, i: nat, st: State)
    requires Looking(cat, unique, hops, start, t, i, st)
    ensures Looking(cat, unique, hops, start, t, |cat.edges[t]|, Spread(unique, t, cat.edges[t][i..], st))
    ensures Spread(unique, t, cat.edges[t][i..], st).routes[t] == st.routes[t]
    decreases |cat.edges[t]| - i
  {
    hide Looking, See;
    LookingAt(cat, unique, hops, start, t, i, st);
    if i < |cat.edges[t]| {
      SeeLooking(cat, unique, hops, start, t, i, st);
      assert cat.edges[t][i..][1..] == cat.edges[t][i + 1..];
      SpreadLooking(cat, unique, hops, start, t, i + 1, See(unique, t, cat.edges[t][i], st));
    } else {
      assert cat.edges[t][i..] == [];
    }
  }

  lemma LookingAt(cat: Catalogue, unique: UniqueColumn, hops: nat, start: Table, t: Table, i: nat, st: State)
    requires Looking(cat, unique, hops, start, t, i, st)
    ensures t in st.routes && t in cat.edges && i <= |cat.edges[t]|
  {
  }

  // ---- step after step

  /** Between steps: those waiting of the level after the first's were met by way of tables before it. */
  ghost predicate Ready(cat: Catalogue, unique: UniqueColumn, hops: nat, start: Table, st: State) {
    && Searching(cat, unique, hops, start, st) && Sorted(cat, st) && Best(cat, unique, start, st.routes)
    && (st.queue != [] ==> forall x :: x in st.queue && |st.routes[x]| == |Route(st, 0)| + 1 ==> PathBefore(cat, st.routes[x][..|st.routes[x]| - 1], Route(st, 0)))
  }

  lemma SearchingSays(cat: Catalogue, unique: UniqueColumn, hops: nat, start: Table, st: State)
    requires Searching(cat, unique, hops, start, st)
    ensures QueueSeen(st) && Rooted(cat, unique, hops, start, st.routes) && Done(cat, unique, hops, st, {})
    ensures st.queue != [] ==> Layered(st, |Route(st, 0)|) && |Route(st, 0)| <= hops && st.queue[0] in st.routes
  {
    if st.queue != [] {
      assert st.queue[0] in st.queue;
      RouteWithin(cat, unique, hops, start, st.queue[0], st.routes);
    }
  }

  /** The first of the queue, taken to be looked at. */
  lemma PoppedLooking(cat: Catalogue, unique: UniqueColumn, hops: nat, start: Table, st: State)
    requires Ready(cat, unique, hops, start, st) && st.queue != [] && st.queue[0] in st.routes && st.queue[0] in cat.edges
    requires |st.routes[st.queue[0]]| < hops
    ensures Looking(cat, unique, hops, start, st.queue[0], 0, Pop(st))
  {
    hide Rooted, Layered, Done, Best, PathBefore, Searching;
    SearchingSays(cat, unique, hops, start, st);
    PopKeeps(cat, unique, hops, st);
    PoppedSorted(cat, st);
    var t, p := st.queue[0], Pop(st);
    forall x | x in p.queue && |p.routes[x]| == |p.routes[t]|
      ensures PathBefore(cat, p.routes[t], p.routes[x])
    {
      var k :| 0 <= k < |p.queue| && p.queue[k] == x;
      assert PathBefore(cat, Route(st, 0), Route(st, k + 1));
    }
    forall x | x in p.queue && |p.routes[x]| == |p.routes[t]| + 1
      ensures MetBefore(cat, t, p.routes[t], 0, p.routes[x])
    {
      assert x in st.queue;
    }
  }

  lemma PoppedSorted(cat: Catalogue, st: State)
    requires QueueSeen(st) && st.queue != [] && Sorted(cat, st)
    ensures QueueSeen(Pop(st)) && Sorted(cat, Pop(st))
  {
    hide PathBefore;
    var p := Pop(st);
    assert forall x :: x in p.queue ==> x in st.queue;
    forall i, k | 0 <= i < k < |p.queue| && |Route(p, i)| == |Route(p, k)|
      ensures PathBefore(cat, Route(p, i), Route(p, k))
    {
      assert PathBefore(cat, Route(st, i + 1), Route(st, k + 1));
    }
  }

  /** The first of the queue, taken and not looked at. */
  lemma PoppedReady(cat: Catalogue, unique: UniqueColumn, hops: nat, start: Table, st: State)
    requires Ready(cat, unique, hops, start, st) && st.queue != [] && QueueSeen(st) && Searching(cat, unique, hops, start, Pop(st))
    ensures Ready(cat, unique, hops, start, Pop(st))
  {
    hide Rooted, Done, Best, PathBefore, Searching;
    SearchingSays(cat, unique, hops, start, st);
    PoppedSorted(cat, st);
    var p := Pop(st);
    if p.queue != [] {
      var u := p.queue[0];
      assert u == st.queue[1] && u in st.queue && Route(p, 0) == st.routes[u];
      forall x | x in p.queue && |p.routes[x]| == |Route(p, 0)| + 1
        ensures PathBefore(cat, p.routes[x][..|p.routes[x]| - 1], Route(p, 0))
      {
        assert x in st.queue;
        assert |st.routes[u]| == |Route(st, 0)|;
        assert PathBefore(cat, Route(st, 0), Route(st, 1));
        BeforeThen(cat, st.routes[x][..|st.routes[x]| - 1], Route(st, 0), Route(st, 1));
      }
    }
  }

  /** A table looked at, the next is first. */
  lemma LookedReady(cat: Catalogue, unique: UniqueColumn, hops: nat, start: Table, t: Table, st: State)
    requires t in cat.edges && Looking(cat, unique, hops, start, t, |cat.edges[t]|, st) && Searching(cat, unique, hops, start, st)
    ensures Ready(cat, unique, hops, start, st)
  {
    hide Rooted, Done, Best, PathBefore, Searching, ListedBefore, Sorted;
    if st.queue != [] {
      var u := st.queue[0];
      assert u in st.queue && Route(st, 0) == st.routes[u];
      forall x | x in st.queue && |st.routes[x]| == |Route(st, 0)| + 1
        ensures PathBefore(cat, st.routes[x][..|st.routes[x]| - 1], Route(st, 0))
      {
        assert |st.routes[u]| == |st.routes[t]|;
        assert PathBefore(cat, st.routes[t], st.routes[u]);
        assert MetBefore(cat, t, st.routes[t], |cat.edges[t]|, st.routes[x]);
        var prefix := st.routes[x][..|st.routes[x]| - 1];
        if prefix != st.routes[t] {
          BeforeThen(cat, prefix, st.routes[t], st.routes[u]);
        }
      }
    }
  }

  lemma StepReady(cat: Catalogue, unique: UniqueColumn, hops: nat, start: Table, st: State)
    requires Ready(cat, unique, hops, start, st) && st.queue != [] && QueueSeen(st)
    ensures Ready(cat, unique, hops, start, Step(cat, unique, hops, st))
  {
    hide Ready, Looking, Rooted, Layered, Done, Spread;
    assert Searching(cat, unique, hops, start, st) by { ReadySays(cat, unique, hops, start, st); }
    SearchingSays(cat, unique, hops, start, st);
    StepKeeps(cat, unique, hops, start, st);
    var t := st.queue[0];
    if |st.routes[t]| < hops && t in cat.edges {
      PoppedLooking(cat, unique, hops, start, st);
      SpreadLooking(cat, unique, hops, start, t, 0, Pop(st));
      assert cat.edges[t][0..] == cat.edges[t] == EdgesOf(cat, t);
      LookedReady(cat, unique, hops, start, t, Step(cat, unique, hops, st));
    } else {
      NothingLooked(cat, unique, hops, st);
      PoppedReady(cat, unique, hops, start, st);
    }
  }

  lemma ReadySays(cat: Catalogue, unique: UniqueColumn, hops: nat, start: Table, st: State)
    requires Ready(cat, unique, hops, start, st)
    ensures Searching(cat, unique, hops, start, st) && Best(cat, unique, start, st.routes)
  {
    hide Searching, Best;
  }

  lemma NothingLooked(cat: Catalogue, unique: UniqueColumn, hops: nat, st: State)
    requires st.queue != [] && QueueSeen(st) && st.queue[0] in st.routes && |st.routes[st.queue[0]]| <= hops
    requires !(|st.routes[st.queue[0]]| < hops && st.queue[0] in cat.edges)
    ensures Step(cat, unique, hops, st) == Pop(st)
  {
  }

  lemma {:induction false} ExploreReady(cat: Catalogue, unique: UniqueColumn, hops: nat, start: Table, st: State)
    requires Ready(cat, unique, hops, start, st) && QueueSeen(st)
    ensures Ready(cat, unique, hops, start, Explore(cat, unique, hops, st))
    decreases Unseen(cat, st), |st.queue|
  {
    hide Ready, Step;
    if st.queue != [] {
      StepReady(cat, unique, hops, start, st);
      ExploreReady(cat, unique, hops, start, Step(cat, unique, hops, st));
    }
  }

  lemma StartReady(cat: Catalogue, unique: UniqueColumn, hops: nat, start: Table)
    ensures Ready(cat, unique, hops, start, State([start], map[start := []]))
  {
    var st := State([start], map[start := []]);
    assert Searching(cat, unique, hops, start, st) by {
      assert forall t :: t in st.routes ==> t in st.queue;
    }
  }

  lemma ReachedBest(cat: Catalogue, unique: UniqueColumn, hops: nat, start: Table)
    ensures Best(cat, unique, start, Reached(cat, unique, hops, start))
  {
    hide Ready, Best;
    var st := State([start], map[start := []]);
    StartReady(cat, unique, hops, start);
    ExploreReady(cat, unique, hops, start, st);
    ReadySays(cat, unique, hops, start, Explore(cat, unique, hops, st));
  }

  lemma NotAfterThen(cat: Catalogue, p: Path, q: Path, h: Hop, r: Path)
    requires NotAfter(cat, p, q + [h]) && NotAfter(cat, q, r)
    ensures NotAfter(cat, p, r + [h])
  {
    hide PathBefore;
    if q != r {
      BeforeLonger(cat, q, r, h, h);
      if p != q + [h] {
        BeforeThen(cat, p, q + [h], r + [h]);
      }
    }
  }

  /** The last hop of a shortest route is from a table a level before; and the route found comes no later than that table's own
      and the hop. */
  lemma LastOfShortest(cat: Catalogue, unique: UniqueColumn, hops: nat, start: Table, goal: Table, p: Path)
    requires p != [] && goal in Reached(cat, unique, hops, start)
    requires IsRoute(cat, unique, start, p, goal) && |p| == |Reached(cat, unique, hops, start)[goal]|
    ensures var routes := Reached(cat, unique, hops, start);
            var n := |p| - 1;
            && IsRoute(cat, unique, start, p[..n], p[n].from) && p[n].from in routes && |routes[p[n].from]| == n
            && NotAfter(cat, routes[goal], routes[p[n].from] + [p[n]])
  {
    hide Reached, IsHop, NotAfter, Rooted, Done;
    var routes := Reached(cat, unique, hops, start);
    var n := |p| - 1;
    ReachedSearched(cat, unique, hops, start);
    RouteWithin(cat, unique, hops, start, goal, routes);
    NoShorter(cat, unique, hops, start, p[..n], p[n].from);
    HopFurther(cat, unique, hops, start, p[n]);
    ReachedBest(cat, unique, hops, start);
    StartAtOnce(cat, unique, hops, start, routes);
    assert BestOf(cat, unique, start, routes, goal);
  }

  lemma StartAtOnce(cat: Catalogue, unique: UniqueColumn, hops: nat, start: Table, routes: map<Table, Path>)
    requires Rooted(cat, unique, hops, start, routes)
    ensures start in routes && routes[start] == []
  {
  }

  /** The route found is, of all the shortest to the table, the one that, where it parts from another, goes along the join its
      table lists earlier. */
  lemma {:induction false} FirstOfShortest(cat: Catalogue, unique: UniqueColumn, hops: nat, start: Table, goal: Table, p: Path)
    requires goal in Reached(cat, unique, hops, start)
    requires IsRoute(cat, unique, start, p, goal) && |p| == |Reached(cat, unique, hops, start)[goal]|
    ensures p == Reached(cat, unique, hops, start)[goal] || PathBefore(cat, Reached(cat, unique, hops, start)[goal], p)
    decreases |p|
  {
    hide Reached, IsRoute, PathBefore;
    if p != [] {
      var n := |p| - 1;
      LastOfShortest(cat, unique, hops, start, goal, p);
      FirstOfShortest(cat, unique, hops, start, p[n].from, p[..n]);
      assert p == p[..n] + [p[n]];
      var routes := Reached(cat, unique, hops, start);
      NotAfterThen(cat, routes[goal], routes[p[n].from], p[n], p[..n]);
    }
  }
}
