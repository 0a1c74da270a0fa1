/** Join routes: the shortest chains of joins, breadth first, that never multiply the starting table's rows. */
module Routes {
  import opened Sql
  import opened From

  /** A trusted join as seen from one of its tables. */
  datatype Edge = Edge(other: Table, mine: Column, theirs: Column)

  /** The tables' joins, each table's in order, and the joins mostly written as outer ones. */
  datatype Catalogue = Catalogue(edges: map<Table, seq<Edge>>, outer: set<(Table, Column, Table, Column)>)

  datatype Hop = Hop(from: Table, mine: Column, to: Table, theirs: Column)

  type Path = seq<Hop>

  type UniqueColumn = (Table, Column) -> bool

  function EdgesOf(cat: Catalogue, t: Table): seq<Edge> {
    if t in cat.edges then cat.edges[t] else []
  }

  /** A hop along a trusted join, to a table unique on its join column. */
  predicate IsHop(cat: Catalogue, unique: UniqueColumn, h: Hop) {
    h.from in cat.edges && Edge(h.to, h.mine, h.theirs) in cat.edges[h.from] && unique(h.to, h.theirs)
  }

  /** A chain of such hops from `start` to `goal`. */
  ghost predicate IsRoute(cat: Catalogue, unique: UniqueColumn, start: Table, path: Path, goal: Table)
    decreases |path|
  {
    if path == [] then goal == start
    else
      var n := |path| - 1;
      path[n].to == goal && IsHop(cat, unique, path[n]) && IsRoute(cat, unique, start, path[..n], path[n].from)
  }

  // ---- what the search finds, whatever its goal

  /** The search's state: the tables waiting, and the route found to each table seen. */
  datatype State = State(queue: seq<Table>, routes: map<Table, Path>)

  function Targets(cat: Catalogue): set<Table> {
    set t, e | t in cat.edges && e in cat.edges[t] :: e.other
  }

  function Unseen(cat: Catalogue, st: State): nat {
    |Targets(cat) - st.routes.Keys|
  }

  function See(unique: UniqueColumn, t: Table, e: Edge, st: State): State
    requires t in st.routes
  {
    if e.other in st.routes || !unique(e.other, e.theirs) then st
    else State(st.queue + [e.other], st.routes[e.other := st.routes[t] + [Hop(t, e.mine, e.other, e.theirs)]])
  }

  function Spread(unique: UniqueColumn, t: Table, es: seq<Edge>, st: State): (r: State)
    requires t in st.routes
    ensures t in r.routes
    ensures st.queue <= r.queue
    ensures forall x :: x in st.routes ==> x in r.routes && r.routes[x] == st.routes[x]
    ensures r.routes.Keys <= st.routes.Keys + (set e | e in es :: e.other)
    ensures r == st || exists e :: e in es && e.other !in st.routes && e.other in r.routes
    ensures forall x :: x in r.queue ==> x in st.queue || x in r.routes
  {
    if es == [] then st
    else
      var s1 := See(unique, t, es[0], st);
      assert es == [es[0]] + es[1..];
      Spread(unique, t, es[1..], s1)
  }

  function Pop(st: State): State
    requires st.queue != []
  {
    State(st.queue[1..], st.routes)
  }

  predicate QueueSeen(st: State) {
    forall x :: x in st.queue ==> x in st.routes
  }

  /** One table taken from the queue. */
  function Step(cat: Catalogue, unique: UniqueColumn, hops: nat, st: State): (r: State)
    requires st.queue != [] && QueueSeen(st)
    ensures QueueSeen(r)
    ensures forall x :: x in st.routes ==> x in r.routes && r.routes[x] == st.routes[x]
    ensures Unseen(cat, r) < Unseen(cat, st) || (Unseen(cat, r) == Unseen(cat, st) && |r.queue| < |st.queue|)
  {
    var t := st.queue[0];
    assert t in st.queue;
    if |st.routes[t]| == hops then Pop(st)
    else
      var r := Spread(unique, t, EdgesOf(cat, t), Pop(st));
      StepSees(cat, unique, t, Pop(st));
      r
  }

  lemma {:induction false} StepSees(cat: Catalogue, unique: UniqueColumn, t: Table, st: State)
    requires t in st.routes
    ensures var r := Spread(unique, t, EdgesOf(cat, t), st);
            r == st || Unseen(cat, r) < Unseen(cat, st)
  {
    var r := Spread(unique, t, EdgesOf(cat, t), st);
    if r != st {
      var e :| e in EdgesOf(cat, t) && e.other !in st.routes && e.other in r.routes;
      var before, after := Targets(cat) - st.routes.Keys, Targets(cat) - r.routes.Keys;
      assert e.other in before && e.other !in after;
      assert after <= before - {e.other};
      Smaller(after, before - {e.other});
    }
  }

  lemma {:induction false} Smaller(a: set<Table>, b: set<Table>)
    requires a <= b
    ensures |a| <= |b|
  {
    if a != {} {
      var x :| x in a;
      Smaller(a - {x}, b - {x});
    }
  }

  function Explore(cat: Catalogue, unique: UniqueColumn, hops: nat, st: State): (r: State)
    requires QueueSeen(st)
    ensures r.queue == []
    ensures forall x :: x in st.routes ==> x in r.routes && r.routes[x] == st.routes[x]
    decreases Unseen(cat, st), |st.queue|
  {
    if st.queue == [] then st else Explore(cat, unique, hops, Step(cat, unique, hops, st))
  }

  /** Every table the start reaches within the hops, with its route. */
  function Reached(cat: Catalogue, unique: UniqueColumn, hops: nat, start: Table): map<Table, Path> {
    Explore(cat, unique, hops, State([start], map[start := []])).routes
  }

  // ---- the search is breadth first

  /** A route is the route to its last hop's start, and that hop. */
  ghost predicate Rooted(cat: Catalogue, unique: UniqueColumn, hops: nat, start: Table, routes: map<Table, Path>) {
    && start in routes && routes[start] == []
    && forall t :: t in routes && t != start ==> ExtendsRoute(cat, unique, hops, t, routes)
  }

  ghost predicate ExtendsRoute(cat: Catalogue, unique: UniqueColumn, hops: nat, t: Table, routes: map<Table, Path>)
    requires t in routes
  {
    var path := routes[t];
    && 0 < |path| <= hops && path[|path| - 1].to == t
    && IsHop(cat, unique, path[|path| - 1])
    && path[|path| - 1].from in routes && routes[path[|path| - 1].from] == path[..|path| - 1]
  }

  /** The queue is in order of distance, its tables a level from the rest. */
  ghost predicate Layered(st: State, level: nat)
    requires QueueSeen(st)
  {
    && (forall t :: t in st.routes ==> |st.routes[t]| <= level + 1)
    && (forall t :: t in st.queue ==> level <= |st.routes[t]|)
    && (forall i, k :: 0 <= i < k < |st.queue| ==> st.queue[i] != st.queue[k] && |Route(st, i)| <= |Route(st, k)|)
  }

  function Route(st: State, i: nat): Path
    requires QueueSeen(st) && i < |st.queue|
  {
    assert st.queue[i] in st.queue;
    st.routes[st.queue[i]]
  }

  /** A table's hops reach no table later than one hop after it. */
  ghost predicate Looked(cat: Catalogue, unique: UniqueColumn, es: seq<Edge>, t: Table, st: State)
    requires t in st.routes
  {
    forall e :: e in es && unique(e.other, e.theirs) ==> e.other in st.routes && |st.routes[e.other]| <= |st.routes[t]| + 1
  }

  ghost predicate Done(cat: Catalogue, unique: UniqueColumn, hops: nat, st: State, but: set<Table>) {
    forall t :: t in st.routes && t !in st.queue && t !in but && |st.routes[t]| < hops ==> Looked(cat, unique, EdgesOf(cat, t), t, st)
  }

  ghost predicate Searching(cat: Catalogue, unique: UniqueColumn, hops: nat, start: Table, st: State)
  {
    && QueueSeen(st) && Rooted(cat, unique, hops, start, st.routes)
    && (st.queue != [] ==> Layered(st, |Route(st, 0)|))
    && Done(cat, unique, hops, st, {})
  }

  lemma SeeKeeps(cat: Catalogue, unique: UniqueColumn, hops: nat, start: Table, t: Table, e: Edge, st: State)
    requires QueueSeen(st) && t in st.routes && t !in st.queue && |st.routes[t]| < hops && e in EdgesOf(cat, t)
    requires Rooted(cat, unique, hops, start, st.routes) && Layered(st, |st.routes[t]|) && Done(cat, unique, hops, st, {t})
    ensures var r := See(unique, t, e, st);
            && QueueSeen(r) && t in r.routes && t !in r.queue && r.routes[t] == st.routes[t]
            && Rooted(cat, unique, hops, start, r.routes) && Layered(r, |r.routes[t]|) && Done(cat, unique, hops, r, {t})
            && Looked(cat, unique, [e], t, r)
  {
    hide Rooted, Layered, Done;
    var r := See(unique, t, e, st);
    SeeLooks(cat, unique, hops, t, e, st);
    if r != st {
      SeeKeepsRooted(cat, unique, hops, start, t, e, st);
      SeeKeepsLayered(cat, unique, hops, start, t, e, st);
    }
  }

  lemma SeeLooks(cat: Catalogue, unique: UniqueColumn, hops: nat, t: Table, e: Edge, st: State)
    requires QueueSeen(st) && t in st.routes && Layered(st, |st.routes[t]|) && Done(cat, unique, hops, st, {t})
    ensures Done(cat, unique, hops, See(unique, t, e, st), {t}) && Looked(cat, unique, [e], t, See(unique, t, e, st))
  {
    hide EdgesOf;
    var r := See(unique, t, e, st);
    if r != st {
      forall x | x in r.routes && x !in r.queue && x != t && |r.routes[x]| < hops
        ensures Looked(cat, unique, EdgesOf(cat, x), x, r)
      {
        assert e.other in r.queue;
        assert Looked(cat, unique, EdgesOf(cat, x), x, st);
      }
    }
  }

  lemma SeeKeepsRooted(cat: Catalogue, unique: UniqueColumn, hops: nat, start: Table, t: Table, e: Edge, st: State)
    requires t in st.routes && |st.routes[t]| < hops && IsHop(cat, unique, Hop(t, e.mine, e.other, e.theirs)) && e.other !in st.routes
    requires Rooted(cat, unique, hops, start, st.routes)
    ensures Rooted(cat, unique, hops, start, See(unique, t, e, st).routes)
  {
    hide IsHop;
    var r := See(unique, t, e, st);
    if unique(e.other, e.theirs) {
      var path := r.routes[e.other];
      assert path[..|path| - 1] == st.routes[t];
      forall x | x in r.routes && x != start
        ensures ExtendsRoute(cat, unique, hops, x, r.routes)
      {
        if x != e.other {
          assert ExtendsRoute(cat, unique, hops, x, st.routes);
        }
      }
    }
  }

  lemma SeeKeepsLayered(cat: Catalogue, unique: UniqueColumn, hops: nat, start: Table, t: Table, e: Edge, st: State)
    requires QueueSeen(st) && t in st.routes && t !in st.queue && Layered(st, |st.routes[t]|) && e.other !in st.routes
    ensures QueueSeen(See(unique, t, e, st)) && t !in See(unique, t, e, st).queue
    ensures Layered(See(unique, t, e, st), |st.routes[t]|)
  {
    var r := See(unique, t, e, st);
    var n := |st.queue|;
    if unique(e.other, e.theirs) {
      forall i, k | 0 <= i < k < |r.queue|
        ensures r.queue[i] != r.queue[k] && |Route(r, i)| <= |Route(r, k)|
      {
        assert r.queue[i] == st.queue[i] && st.queue[i] in st.queue;
        if k < n {
          assert r.queue[k] == st.queue[k] && st.queue[k] in st.queue;
          assert |Route(st, i)| <= |Route(st, k)|;
        }
      }
    }
  }

  lemma {:induction false} SpreadKeeps(cat: Catalogue, unique: UniqueColumn, hops: nat, start: Table, t: Table, es: seq<Edge>, st: State)
    requires QueueSeen(st) && t in st.routes && t !in st.queue && |st.routes[t]| < hops && forall e :: e in es ==> e in EdgesOf(cat, t)
    requires Rooted(cat, unique, hops, start, st.routes) && Layered(st, |st.routes[t]|) && Done(cat, unique, hops, st, {t})
    ensures var r := Spread(unique, t, es, st);
            && QueueSeen(r) && t !in r.queue && r.routes[t] == st.routes[t]
            && Rooted(cat, unique, hops, start, r.routes) && Layered(r, |r.routes[t]|) && Done(cat, unique, hops, r, {t})
            && Looked(cat, unique, es, t, r)
  {
    hide Rooted, Layered, Done, See, EdgesOf;
    if es != [] {
      SeeKeeps(cat, unique, hops, start, t, es[0], st);
      var s1 := See(unique, t, es[0], st);
      SpreadKeeps(cat, unique, hops, start, t, es[1..], s1);
      var r := Spread(unique, t, es[1..], s1);
      assert es[0] in [es[0]];
      assert forall e :: e in es <==> e == es[0] || e in es[1..];
    }
  }

  lemma StepKeeps(cat: Catalogue, unique: UniqueColumn, hops: nat, start: Table, st: State)
    requires st.queue != [] && Searching(cat, unique, hops, start, st)
    ensures Searching(cat, unique, hops, start, Step(cat, unique, hops, st))
  {
    hide Rooted, IsHop, Layered, Looked, EdgesOf, Unseen, Spread;
    var t, popped := st.queue[0], Pop(st);
    assert t in st.queue;
    var level := |st.routes[t]|;
    PopKeeps(cat, unique, hops, st);
    var r := Step(cat, unique, hops, st);
    assert level <= hops by { RouteWithin(cat, unique, hops, start, t, st.routes); }
    if level < hops {
      SpreadKeeps(cat, unique, hops, start, t, EdgesOf(cat, t), popped);
    }
    if r.queue != [] {
      Relayer(r, level);
    }
  }

  lemma RouteWithin(cat: Catalogue, unique: UniqueColumn, hops: nat, start: Table, t: Table, routes: map<Table, Path>)
    requires Rooted(cat, unique, hops, start, routes) && t in routes
    ensures |routes[t]| <= hops
  {
    if t != start {
      assert ExtendsRoute(cat, unique, hops, t, routes);
    }
  }

  lemma PopKeeps(cat: Catalogue, unique: UniqueColumn, hops: nat, st: State)
    requires st.queue != [] && QueueSeen(st) && Layered(st, |Route(st, 0)|) && Done(cat, unique, hops, st, {})
    ensures QueueSeen(Pop(st)) && st.queue[0] in st.routes && st.queue[0] !in Pop(st).queue
    ensures Layered(Pop(st), |Route(st, 0)|) && Done(cat, unique, hops, Pop(st), {st.queue[0]})
  {
    hide Looked, EdgesOf;
    var p := Pop(st);
    assert forall x :: x in st.queue <==> x == st.queue[0] || x in p.queue;
    forall i, k | 0 <= i < k < |p.queue|
      ensures p.queue[i] != p.queue[k] && |Route(p, i)| <= |Route(p, k)|
    {
      assert p.queue[i] == st.queue[i + 1] && p.queue[k] == st.queue[k + 1];
      assert |Route(st, i + 1)| <= |Route(st, k + 1)|;
    }
    forall x | x in p.routes && x !in p.queue && x != st.queue[0] && |p.routes[x]| < hops
      ensures Looked(cat, unique, EdgesOf(cat, x), x, p)
    {
      assert Looked(cat, unique, EdgesOf(cat, x), x, st);
      LookedPopped(cat, unique, EdgesOf(cat, x), x, st);
    }
  }

  lemma LookedPopped(cat: Catalogue, unique: UniqueColumn, es: seq<Edge>, t: Table, st: State)
    requires st.queue != [] && t in st.routes
    ensures Looked(cat, unique, es, t, Pop(st)) <==> Looked(cat, unique, es, t, st)
  {
  }

  lemma Relayer(st: State, level: nat)
    requires QueueSeen(st) && st.queue != [] && Layered(st, level)
    ensures Layered(st, |Route(st, 0)|)
  {
    assert st.queue[0] in st.queue;
    forall x | x in st.queue
      ensures |Route(st, 0)| <= |st.routes[x]|
    {
      var i :| 0 <= i < |st.queue| && st.queue[i] == x;
      assert i > 0 ==> |Route(st, 0)| <= |Route(st, i)|;
    }
  }

  lemma {:induction false} ExploreKeeps(cat: Catalogue, unique: UniqueColumn, hops: nat, start: Table, st: State)
    requires Searching(cat, unique, hops, start, st)
    ensures Searching(cat, unique, hops, start, Explore(cat, unique, hops, st))
    decreases Unseen(cat, st), |st.queue|
  {
    hide Searching, Step;
    assert QueueSeen(st) by { Seen(cat, unique, hops, start, st); }
    if st.queue != [] {
      StepKeeps(cat, unique, hops, start, st);
      ExploreKeeps(cat, unique, hops, start, Step(cat, unique, hops, st));
    }
  }

  lemma Seen(cat: Catalogue, unique: UniqueColumn, hops: nat, start: Table, st: State)
    requires Searching(cat, unique, hops, start, st)
    ensures QueueSeen(st)
  {
  }

  // ---- what it finds is a shortest route, or there is none

  lemma ReachedSearched(cat: Catalogue, unique: UniqueColumn, hops: nat, start: Table)
    ensures var routes := Reached(cat, unique, hops, start);
            Rooted(cat, unique, hops, start, routes) && Done(cat, unique, hops, State([], routes), {})
  {
    var st := State([start], map[start := []]);
    assert Searching(cat, unique, hops, start, st) by {
      assert forall t :: t in st.routes ==> t in st.queue;
    }
    ExploreKeeps(cat, unique, hops, start, st);
  }

  lemma {:induction false} RootedIsRoute(cat: Catalogue, unique: UniqueColumn, hops: nat, start: Table, routes: map<Table, Path>, goal: Table)
    requires Rooted(cat, unique, hops, start, routes) && goal in routes
    ensures IsRoute(cat, unique, start, routes[goal], goal)
    decreases |routes[goal]|
  {
    hide IsHop;
    if goal != start {
      var path := routes[goal];
      assert ExtendsRoute(cat, unique, hops, goal, routes);
      RootedIsRoute(cat, unique, hops, start, routes, path[|path| - 1].from);
    }
  }

  /** A table a hop leads to is at most a hop further. */
  lemma HopFurther(cat: Catalogue, unique: UniqueColumn, hops: nat, start: Table, h: Hop)
    requires h.from in Reached(cat, unique, hops, start) && |Reached(cat, unique, hops, start)[h.from]| < hops && IsHop(cat, unique, h)
    ensures h.to in Reached(cat, unique, hops, start)
    ensures |Reached(cat, unique, hops, start)[h.to]| <= |Reached(cat, unique, hops, start)[h.from]| + 1
  {
    hide Reached;
    var routes := Reached(cat, unique, hops, start);
    ReachedSearched(cat, unique, hops, start);
    assert Looked(cat, unique, EdgesOf(cat, h.from), h.from, State([], routes));
    assert Edge(h.to, h.mine, h.theirs) in EdgesOf(cat, h.from);
  }

  lemma {:induction false} NoShorter(cat: Catalogue, unique: UniqueColumn, hops: nat, start: Table, path: Path, goal: Table)
    requires IsRoute(cat, unique, start, path, goal) && |path| <= hops
    ensures var routes := Reached(cat, unique, hops, start);
            goal in routes && |routes[goal]| <= |path|
    decreases |path|
  {
    hide Reached, IsHop;
    if path == [] {
      ReachedSearched(cat, unique, hops, start);
    } else {
      var n := |path| - 1;
      NoShorter(cat, unique, hops, start, path[..n], path[n].from);
      HopFurther(cat, unique, hops, start, path[n]);
    }
  }

  /** Reached holds a shortest route to every table some route within the hops leads to, and to no other. */
  lemma ShortestRoutes(cat: Catalogue, unique: UniqueColumn, hops: nat, start: Table, goal: Table)
    ensures var routes := Reached(cat, unique, hops, start);
            && (goal in routes <==> exists p :: IsRoute(cat, unique, start, p, goal) && |p| <= hops)
            && (goal in routes ==> IsRoute(cat, unique, start, routes[goal], goal) && |routes[goal]| <= hops
                                   && forall p :: IsRoute(cat, unique, start, p, goal) ==> |routes[goal]| <= |p|)
  {
    hide IsRoute, IsHop, Reached;
    var routes := Reached(cat, unique, hops, start);
    ReachedSearched(cat, unique, hops, start);
    if goal in routes {
      RootedIsRoute(cat, unique, hops, start, routes, goal);
      RouteWithin(cat, unique, hops, start, goal, routes);
    }
    forall p | IsRoute(cat, unique, start, p, goal) && |p| <= hops
      ensures goal in routes && |routes[goal]| <= |p|
    {
      NoShorter(cat, unique, hops, start, p, goal);
    }
  }

  /** Routes from one table are closed under prefixes: a table a route passes is reached by that part of it. */
  lemma {:induction false} PrefixClosed(cat: Catalogue, unique: UniqueColumn, hops: nat, start: Table, goal: Table, k: nat)
    requires goal in Reached(cat, unique, hops, start) && k < |Reached(cat, unique, hops, start)[goal]|
    ensures var routes := Reached(cat, unique, hops, start);
            routes[goal][k].to in routes && routes[routes[goal][k].to] == routes[goal][..k + 1]
    decreases |Reached(cat, unique, hops, start)[goal]|
  {
    hide Reached, IsHop;
    var routes := Reached(cat, unique, hops, start);
    var path := routes[goal];
    ReachedSearched(cat, unique, hops, start);
    assert goal != start && ExtendsRoute(cat, unique, hops, goal, routes);
    var n := |path| - 1;
    if k == n {
      assert path[..k + 1] == path;
    } else {
      PrefixClosed(cat, unique, hops, start, path[n].from, k);
      assert path[..n][..k + 1] == path[..k + 1];
    }
  }
}
