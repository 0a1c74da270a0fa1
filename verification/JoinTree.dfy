/** The joins of a block: one search per table it needs, and the routes laid over one another. */
module JoinTree {
  import opened Options
  import opened Sql
  import opened From
  import opened Routes

  /** The search's variables against its state. */
  ghost predicate Follows(queue: seq<(Table, Path)>, seen: set<Table>, st: State) {
    && QueueSeen(st) && seen == st.routes.Keys && |queue| == |st.queue|
    && forall i :: 0 <= i < |queue| ==> queue[i].0 == st.queue[i] && queue[i].0 in st.routes && queue[i].1 == st.routes[queue[i].0]
  }

  lemma FollowsSee(queue: seq<(Table, Path)>, seen: set<Table>, st: State, t: Table, steps: Path, e: Edge, unique: UniqueColumn)
    requires Follows(queue, seen, st) && t in st.routes && st.routes[t] == steps
    ensures var r := See(unique, t, e, st);
            && t in r.routes && r.routes[t] == steps
            && if e.other in seen || !unique(e.other, e.theirs) then r == st
               else e.other in r.routes && r.routes[e.other] == steps + [Hop(t, e.mine, e.other, e.theirs)]
                    && Follows(queue + [(e.other, steps + [Hop(t, e.mine, e.other, e.theirs)])], seen + {e.other}, r)
  {
  }

  lemma FollowsPop(queue: seq<(Table, Path)>, seen: set<Table>, st: State)
    requires Follows(queue, seen, st) && queue != []
    ensures st.queue != [] && Follows(queue[1..], seen, Pop(st))
    ensures queue[0].0 == st.queue[0] && queue[0].0 in st.routes && queue[0].1 == st.routes[queue[0].0]
  {
    assert forall x :: x in st.queue[1..] ==> x in st.queue;
  }

  /** The hops from one table: a goal met is returned at once. */
  method Widen(unique: UniqueColumn, es: seq<Edge>, t: Table, steps: Path, goal: Table,
               queue0: seq<(Table, Path)>, seen0: set<Table>, ghost st0: State)
    returns (found: Option<Path>, queue: seq<(Table, Path)>, seen: set<Table>)
    requires Follows(queue0, seen0, st0) && t in st0.routes && st0.routes[t] == steps && goal !in seen0
    ensures found.Some? ==> goal in Spread(unique, t, es, st0).routes && Spread(unique, t, es, st0).routes[goal] == found.value
    ensures found.None? ==> goal !in seen && Follows(queue, seen, Spread(unique, t, es, st0))
  {
    hide See, Follows;
    queue, seen := queue0, seen0;
    ghost var st := st0;
    for i := 0 to |es|
      invariant Follows(queue, seen, st) && goal !in seen
      invariant t in st.routes && st.routes[t] == steps
      invariant Spread(unique, t, es[i..], st) == Spread(unique, t, es, st0)
    {
      var Edge(other, mine, theirs) := es[i];
      assert es[i..][0] == es[i] && es[i..][1..] == es[i + 1..];
      FollowsSee(queue, seen, st, t, steps, es[i], unique);
      st := See(unique, t, es[i], st);
      if other in seen || !unique(other, theirs) {
        continue;
      }
      var route := steps + [Hop(t, mine, other, theirs)];
      if other == goal {
        return Some(route), queue, seen;
      }
      seen := seen + {other};
      queue := queue + [(other, route)];
    }
    return None, queue, seen;
  }

  lemma StepIs(cat: Catalogue, unique: UniqueColumn, hops: nat, st: State)
    requires st.queue != [] && QueueSeen(st) && st.queue[0] in st.routes
    ensures Step(cat, unique, hops, st) == if |st.routes[st.queue[0]]| == hops then Pop(st) else Spread(unique, st.queue[0], EdgesOf(cat, st.queue[0]), Pop(st))
    ensures Explore(cat, unique, hops, st) == Explore(cat, unique, hops, Step(cat, unique, hops, st))
  {
  }

  /** The shortest route to one goal: the search stops when it meets it. */
  method FindRoute(cat: Catalogue, unique: UniqueColumn, hops: nat, start: Table, goal: Table) returns (path: Option<Path>)
    ensures path == if goal in Reached(cat, unique, hops, start) then Some(Reached(cat, unique, hops, start)[goal]) else None
  {
    hide Step, Spread, Unseen, Follows, Explore, EdgesOf;
    if start == goal {
      return Some([]);
    }
    var seen: set<Table> := {start};
    var queue: seq<(Table, Path)> := [(start, [])];
    ghost var st := State([start], map[start := []]);
    FollowsStart(start);
    while queue != []
      invariant Follows(queue, seen, st) && goal !in seen
      invariant QueueSeen(st) && |queue| == |st.queue| && seen == st.routes.Keys
      invariant Explore(cat, unique, hops, st).routes == Reached(cat, unique, hops, start)
      decreases Unseen(cat, st), |queue|
    {
      var (t, steps) := queue[0];
      FollowsPop(queue, seen, st);
      StepIs(cat, unique, hops, st);
      queue := queue[1..];
      ghost var popped := Pop(st);
      st := Step(cat, unique, hops, st);
      if |steps| == hops {
        continue;
      }
      var found;
      found, queue, seen := Widen(unique, EdgesOf(cat, t), t, steps, goal, queue, seen, popped);
      if found.Some? {
        return found;
      }
      FollowsMeans(queue, seen, st);
    }
    ExploreDone(cat, unique, hops, st);
    return None;
  }

  lemma FollowsStart(start: Table)
    ensures Follows([(start, [])], {start}, State([start], map[start := []]))
  {
  }

  lemma FollowsMeans(queue: seq<(Table, Path)>, seen: set<Table>, st: State)
    requires Follows(queue, seen, st)
    ensures QueueSeen(st) && |queue| == |st.queue| && seen == st.routes.Keys
  {
  }

  lemma ExploreDone(cat: Catalogue, unique: UniqueColumn, hops: nat, st: State)
    requires st.queue == []
    ensures Explore(cat, unique, hops, st) == st
  {
  }

  // ---- the routes of one block's tables, as one list of joins

  /** The log mostly writes this join as an outer one, whichever way round. */
  predicate WrittenOuter(cat: Catalogue, h: Hop) {
    (h.from, h.mine, h.to, h.theirs) in cat.outer || (h.to, h.theirs, h.from, h.mine) in cat.outer
  }

  function JoinOf(cat: Catalogue, h: Hop): Join {
    Join(h.from, h.mine, h.to, h.theirs, WrittenOuter(cat, h))
  }

  function JoinsOf(cat: Catalogue, path: Path): seq<Join> {
    seq(|path|, k requires 0 <= k < |path| => JoinOf(cat, path[k]))
  }

  /** Each hop of a route starts where the one before it ended, and is the last hop of its own table's route. */
  lemma HopOfRoute(cat: Catalogue, unique: UniqueColumn, hops: nat, fact: Table, goal: Table, k: nat)
    requires goal in Reached(cat, unique, hops, fact) && k < |Reached(cat, unique, hops, fact)[goal]|
    ensures var routes := Reached(cat, unique, hops, fact);
            var path := routes[goal];
            && path[k].from == (if k == 0 then fact else path[k - 1].to)
            && path[k].to != fact && path[k].to in routes && routes[path[k].to] == path[..k + 1]
            && IsHop(cat, unique, path[k])
  {
    hide Reached, IsHop;
    var routes := Reached(cat, unique, hops, fact);
    var path: Path := routes[goal];
    var to := path[k].to;
    ReachedSearched(cat, unique, hops, fact);
    PrefixClosed(cat, unique, hops, fact, goal, k);
    assert to != fact && ExtendsRoute(cat, unique, hops, to, routes);
    assert path[..k + 1][..k] == path[..k];
    var from := path[k].from;
    assert from != fact ==> ExtendsRoute(cat, unique, hops, from, routes);
  }

  /** Every join is the last hop of its table's own shortest route. */
  ghost predicate OwnHops(cat: Catalogue, routes: map<Table, Path>, joins: seq<Join>) {
    forall j :: j in joins ==> j.to in routes && routes[j.to] != [] && j == JoinOf(cat, routes[j.to][|routes[j.to]| - 1])
  }

  /** The joins are exactly the hops of the wanted tables' routes. */
  ghost predicate HopsOf(cat: Catalogue, routes: map<Table, Path>, wanted: seq<Table>, joins: seq<Join>) {
    && (forall t :: t in wanted ==> t in routes)
    && (forall t, j :: t in wanted && j in JoinsOf(cat, routes[t]) ==> j in joins)
    && (forall j :: j in joins ==> exists t :: t in wanted && j in JoinsOf(cat, routes[t]))
  }

  /** One route laid over the joins so far. */
  method Overlay(cat: Catalogue, unique: UniqueColumn, hops: nat, fact: Table, goal: Table, route: Path, joins0: seq<Join>, joined0: set<Table>)
    returns (joins: seq<Join>, joined: set<Table>)
    requires goal in Reached(cat, unique, hops, fact) && route == Reached(cat, unique, hops, fact)[goal]
    requires IsTree(fact, joins0) && joined0 == {fact} + (set j | j in joins0 :: j.to) && OwnHops(cat, Reached(cat, unique, hops, fact), joins0)
    ensures IsTree(fact, joins) && joined == {fact} + (set j | j in joins :: j.to) && OwnHops(cat, Reached(cat, unique, hops, fact), joins)
    ensures forall j :: j in joins0 || j in JoinsOf(cat, route) <==> j in joins
  {
    hide IsTree, Reached, IsHop;
    joins, joined := joins0, joined0;
    ghost var routes := Reached(cat, unique, hops, fact);
    for k := 0 to |route|
      invariant IsTree(fact, joins) && joined == {fact} + (set j | j in joins :: j.to) && OwnHops(cat, routes, joins)
      invariant forall j :: j in joins <==> j in joins0 || j in JoinsOf(cat, route)[..k]
    {
      HopOfRoute(cat, unique, hops, fact, goal, k);
      var Hop(a, ac, b, bc) := route[k];
      ghost var j := JoinOf(cat, route[k]);
      assert JoinsOf(cat, route)[..k + 1] == JoinsOf(cat, route)[..k] + [j];
      if b in joined {
        ghost var same :| same in joins && same.to == b;
        assert same == j;
        continue;
      }
      if k > 0 {
        assert JoinsOf(cat, route)[..k][k - 1] == JoinOf(cat, route[k - 1]);
        assert JoinOf(cat, route[k - 1]) in joins;
      }
      TreeAppend(fact, joins, j);
      joins := joins + [Join(a, ac, b, bc, WrittenOuter(cat, route[k]))];
      joined := joined + {b};
    }
    assert JoinsOf(cat, route)[..|route|] == JoinsOf(cat, route);
  }

  /** A block's joins: none (Unfit) when the fact cannot reach a table it needs without multiplying its rows;
      else a tree rooted at the fact, of the hops of each table's shortest route and no other. */
  method JoinList(cat: Catalogue, unique: UniqueColumn, hops: nat, fact: Table, wanted: seq<Table>) returns (joins: Option<seq<Join>>)
    ensures joins.None? <==> exists t :: t in wanted && t !in Reached(cat, unique, hops, fact)
    ensures joins.Some? ==> IsTree(fact, joins.value) && HopsOf(cat, Reached(cat, unique, hops, fact), wanted, joins.value)
    ensures joins.Some? ==> forall j :: j in joins.value ==>
              && unique(j.to, j.toCol)
              && (j.outer <==> (j.from, j.fromCol, j.to, j.toCol) in cat.outer || (j.to, j.toCol, j.from, j.fromCol) in cat.outer)
  {
    hide Reached, IsHop;
    var routes: map<Table, Path> := map[];
    for i := 0 to |wanted|
      invariant forall t :: t in wanted[..i] <==> t in routes
      invariant forall t :: t in routes ==> t in Reached(cat, unique, hops, fact) && routes[t] == Reached(cat, unique, hops, fact)[t]
    {
      assert wanted[..i + 1] == wanted[..i] + [wanted[i]];
      if wanted[i] !in routes {
        var route := FindRoute(cat, unique, hops, fact, wanted[i]);
        if route.None? {
          return None;
        }
        routes := routes[wanted[i] := route.value];
      }
    }
    assert wanted[..|wanted|] == wanted;
    var js: seq<Join>, joined := [], {fact};
    ghost var reached := Reached(cat, unique, hops, fact);
    for i := 0 to |wanted|
      invariant IsTree(fact, js) && joined == {fact} + (set j | j in js :: j.to) && OwnHops(cat, reached, js)
      invariant HopsOf(cat, reached, wanted[..i], js)
    {
      assert wanted[..i + 1] == wanted[..i] + [wanted[i]];
      js, joined := Overlay(cat, unique, hops, fact, wanted[i], routes[wanted[i]], js, joined);
    }
    OwnHopsUnique(cat, unique, hops, fact, js);
    return Some(js);
  }

  lemma OwnHopsUnique(cat: Catalogue, unique: UniqueColumn, hops: nat, fact: Table, joins: seq<Join>)
    requires OwnHops(cat, Reached(cat, unique, hops, fact), joins)
    ensures forall j :: j in joins ==>
              && unique(j.to, j.toCol)
              && (j.outer <==> (j.from, j.fromCol, j.to, j.toCol) in cat.outer || (j.to, j.toCol, j.from, j.fromCol) in cat.outer)
  {
    hide Reached;
    var routes := Reached(cat, unique, hops, fact);
    forall j | j in joins
      ensures unique(j.to, j.toCol)
      ensures j.outer <==> (j.from, j.fromCol, j.to, j.toCol) in cat.outer || (j.to, j.toCol, j.from, j.fromCol) in cat.outer
    {
      HopOfRoute(cat, unique, hops, fact, j.to, |routes[j.to]| - 1);
    }
  }

  /** Over tables whose unique columns are, a block's joins keep every fact row at most once, in order, and
      every one exactly once when the log writes all of them as outer joins. */
  lemma BlockKeepsFactRows(cat: Catalogue, unique: UniqueColumn, hops: nat, fact: Table, wanted: seq<Table>, joins: seq<Join>, db: Db)
    requires IsTree(fact, joins) && forall j :: j in joins ==> unique(j.to, j.toCol)
    requires forall t, c :: unique(t, c) ==> Unique(db, t, c)
    ensures Subsequence(FactRows(fact, Joined(db, joins, Facts(db, fact))), RowsOf(db, fact))
    ensures (forall j :: j in joins ==> j.outer) ==> FactRows(fact, Joined(db, joins, Facts(db, fact))) == RowsOf(db, fact)
  {
    FactRowsOnce(db, fact, joins);
  }
}
