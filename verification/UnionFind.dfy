/** Disjoint sets over numbered columns: a parent list that only points down, so every root is the least of its set. Columns
    are numbered in the order of their ids. */
module UnionFind {

  type Column = nat

  // ---- what is connected

  predicate Linked(edges: set<(Column, Column)>, x: Column, y: Column) {
    (x, y) in edges || (y, x) in edges
  }

  ghost predicate IsPath(edges: set<(Column, Column)>, path: seq<Column>, x: Column, y: Column) {
    && path != [] && path[0] == x && path[|path| - 1] == y
    && forall i :: 0 <= i < |path| - 1 ==> Linked(edges, path[i], path[i + 1])
  }

  /** A chain of unions leads from one column to the other. */
  ghost predicate Connected(edges: set<(Column, Column)>, x: Column, y: Column) {
    exists path :: IsPath(edges, path, x, y)
  }

  lemma ConnectedSelf(edges: set<(Column, Column)>, x: Column)
    ensures Connected(edges, x, x)
  {
    assert IsPath(edges, [x], x, x);
  }

  lemma ConnectedEdge(edges: set<(Column, Column)>, x: Column, y: Column)
    requires Linked(edges, x, y)
    ensures Connected(edges, x, y)
  {
    assert IsPath(edges, [x, y], x, y);
  }

  lemma ConnectedBack(edges: set<(Column, Column)>, x: Column, y: Column)
    requires Connected(edges, x, y)
    ensures Connected(edges, y, x)
  {
    var p :| IsPath(edges, p, x, y);
    var back := seq(|p|, i requires 0 <= i < |p| => p[|p| - 1 - i]);
    forall i | 0 <= i < |back| - 1
      ensures Linked(edges, back[i], back[i + 1])
    {
      var k := |p| - 2 - i;
      assert Linked(edges, p[k], p[k + 1]);
    }
    assert IsPath(edges, back, y, x);
  }

  lemma ConnectedOn(edges: set<(Column, Column)>, x: Column, y: Column, z: Column)
    requires Connected(edges, x, y) && Connected(edges, y, z)
    ensures Connected(edges, x, z)
  {
    var p :| IsPath(edges, p, x, y);
    var q :| IsPath(edges, q, y, z);
    var all := p + q[1..];
    forall i | 0 <= i < |all| - 1
      ensures Linked(edges, all[i], all[i + 1])
    {
      if i < |p| - 1 {
        assert Linked(edges, p[i], p[i + 1]);
      } else {
        assert Linked(edges, q[i - |p| + 1], q[i - |p| + 2]);
      }
    }
    assert IsPath(edges, all, x, z);
  }

  lemma ConnectedMore(edges: set<(Column, Column)>, more: set<(Column, Column)>, x: Column, y: Column)
    requires edges <= more && Connected(edges, x, y)
    ensures Connected(more, x, y)
  {
    var p :| IsPath(edges, p, x, y);
    assert IsPath(more, p, x, y);
  }

  // ---- the forest

  /** Every parent is a column of the forest, and none is above its child. */
  ghost predicate Falls(parent: map<Column, Column>) {
    forall x :: x in parent ==> parent[x] in parent && parent[x] <= x
  }

  ghost function Root(parent: map<Column, Column>, x: Column): (r: Column)
    requires Falls(parent)
    ensures r <= x && (x in parent ==> r in parent && parent[r] == r) && (x !in parent ==> r == x)
    decreases x
  {
    if x !in parent || parent[x] == x then x else Root(parent, parent[x])
  }

  /** A step towards the root leaves every root as it was. */
  lemma {:induction false} HalvingKeepsRoots(parent: map<Column, Column>, x: Column, y: Column)
    requires Falls(parent) && x in parent
    ensures Falls(parent[x := parent[parent[x]]])
    ensures Root(parent[x := parent[parent[x]]], y) == Root(parent, y)
    decreases y
  {
    if y in parent && parent[y] != y {
      HalvingKeepsRoots(parent, x, parent[y]);
      HalvingKeepsRoots(parent, x, parent[parent[y]]);
    }
  }

  lemma {:induction false} LinkingRoots(parent: map<Column, Column>, low: Column, high: Column, y: Column)
    requires Falls(parent) && low in parent && high in parent && low < high && parent[low] == low && parent[high] == high
    ensures Falls(parent[high := low])
    ensures Root(parent[high := low], y) == if Root(parent, y) == high then low else Root(parent, y)
    decreases y
  {
    if y in parent && parent[y] != y {
      LinkingRoots(parent, low, high, parent[y]);
    }
  }

  lemma {:induction false} PathKeepsRoot(parent: map<Column, Column>, edges: set<(Column, Column)>, path: seq<Column>, x: Column, y: Column)
    requires Falls(parent) && IsPath(edges, path, x, y)
    requires forall u, v :: (u, v) in edges ==> Root(parent, u) == Root(parent, v)
    ensures Root(parent, x) == Root(parent, y)
    decreases |path|
  {
    if |path| > 1 {
      var rest := path[1..];
      assert Linked(edges, path[0], path[1]);
      forall i | 0 <= i < |rest| - 1
        ensures Linked(edges, rest[i], rest[i + 1])
      {
        var k := i + 1;
        assert Linked(edges, path[k], path[k + 1]);
      }
      assert IsPath(edges, rest, path[1], y);
      PathKeepsRoot(parent, edges, rest, path[1], y);
    }
  }

  /** The forest says exactly what the unions made connect. */
  ghost predicate Says(parent: map<Column, Column>, edges: set<(Column, Column)>)
    requires Falls(parent)
  {
    forall x, y :: Root(parent, x) == Root(parent, y) <==> Connected(edges, x, y)
  }

  lemma SameRootsSay(parent: map<Column, Column>, after: map<Column, Column>, edges: set<(Column, Column)>)
    requires Falls(parent) && Falls(after) && Says(parent, edges) && forall y :: Root(after, y) == Root(parent, y)
    ensures Says(after, edges)
  {
    forall x, y
      ensures Root(after, x) == Root(after, y) <==> Connected(edges, x, y)
    {
      assert Root(after, x) == Root(parent, x) && Root(after, y) == Root(parent, y);
    }
  }

  /** Roots made one, of a and of b, say what one more union connects. */
  lemma UnionSays(parent: map<Column, Column>, after: map<Column, Column>, edges: set<(Column, Column)>, a: Column, b: Column)
    requires Falls(parent) && Falls(after) && Says(parent, edges)
    requires var (ra, rb) := (Root(parent, a), Root(parent, b));
             var low := if ra < rb then ra else rb;
             forall y :: Root(after, y) == if Root(parent, y) == ra || Root(parent, y) == rb then low else Root(parent, y)
    ensures Says(after, edges + {(a, b)})
  {
    var more := edges + {(a, b)};
    forall u, v | (u, v) in more
      ensures Root(after, u) == Root(after, v)
    {
      if (u, v) in edges {
        ConnectedEdge(edges, u, v);
        assert Root(parent, u) == Root(parent, v);
      }
    }
    forall x, y
      ensures Root(after, x) == Root(after, y) <==> Connected(more, x, y)
    {
      if Connected(more, x, y) {
        var path :| IsPath(more, path, x, y);
        PathKeepsRoot(after, more, path, x, y);
      } else {
        UnionConnects(parent, after, edges, a, b, x, y);
      }
    }
  }

  lemma UnionConnects(parent: map<Column, Column>, after: map<Column, Column>, edges: set<(Column, Column)>, a: Column, b: Column, x: Column, y: Column)
    requires Falls(parent) && Says(parent, edges)
    requires !Connected(edges + {(a, b)}, x, y)
    ensures var (ra, rb, rx, ry) := (Root(parent, a), Root(parent, b), Root(parent, x), Root(parent, y));
            rx != ry && !((rx == ra || rx == rb) && (ry == ra || ry == rb))
  {
    var more := edges + {(a, b)};
    var (ra, rb, rx, ry) := (Root(parent, a), Root(parent, b), Root(parent, x), Root(parent, y));
    ConnectedEdge(more, a, b);
    ConnectedBack(more, a, b);
    forall u, v | Root(parent, u) == Root(parent, v)
      ensures Connected(more, u, v)
    {
      assert Connected(edges, u, v);
      ConnectedMore(edges, more, u, v);
    }
    if rx == ra && ry == rb {
      ConnectedOn(more, x, a, b);
      ConnectedOn(more, x, b, y);
    } else if rx == rb && ry == ra {
      ConnectedOn(more, x, b, a);
      ConnectedOn(more, x, a, y);
    }
  }

  /** The least column connected to one. */
  ghost predicate IsLeast(edges: set<(Column, Column)>, x: Column, r: Column) {
    Connected(edges, x, r) && forall y :: Connected(edges, x, y) ==> r <= y
  }

  lemma RootIsLeast(parent: map<Column, Column>, edges: set<(Column, Column)>, x: Column)
    requires Falls(parent) && Says(parent, edges)
    ensures IsLeast(edges, x, Root(parent, x))
  {
    var r := Root(parent, x);
    assert Root(parent, r) == r;
    forall y | Connected(edges, x, y)
      ensures r <= y
    {
      assert Root(parent, x) == Root(parent, y);
    }
  }

  ghost predicate Sound(parent: map<Column, Column>, edges: set<(Column, Column)>) {
    Falls(parent) && Says(parent, edges)
  }

  lemma Halving(parent: map<Column, Column>, edges: set<(Column, Column)>, x0: Column, x: Column)
    requires Sound(parent, edges) && x in parent && parent[x] != x && Connected(edges, x0, x)
    ensures parent[x] in parent && parent[parent[x]] in parent && parent[parent[x]] < x
    ensures Sound(parent[x := parent[parent[x]]], edges) && Connected(edges, x0, parent[parent[x]])
  {
    var next := parent[parent[x]];
    forall y
      ensures Falls(parent[x := next]) && Root(parent[x := next], y) == Root(parent, y)
    {
      HalvingKeepsRoots(parent, x, y);
    }
    SameRootsSay(parent, parent[x := next], edges);
    assert Root(parent, x0) == Root(parent, x) == Root(parent, parent[x]) == Root(parent, next);
  }

  lemma AtRoot(parent: map<Column, Column>, edges: set<(Column, Column)>, x0: Column, x: Column)
    requires Sound(parent, edges) && x in parent && parent[x] == x && Connected(edges, x0, x)
    ensures IsLeast(edges, x0, x)
  {
    hide IsLeast;
    assert Root(parent, x0) == Root(parent, x) == x;
    RootIsLeast(parent, edges, x0);
  }

  /** Two roots, made one. */
  lemma Joining(parent: map<Column, Column>, edges: set<(Column, Column)>, a: Column, b: Column, ra: Column, rb: Column)
    requires Sound(parent, edges) && a in parent && b in parent && IsLeast(edges, a, ra) && IsLeast(edges, b, rb)
    ensures ra in parent && rb in parent
    ensures ra == rb ==> Sound(parent, edges + {(a, b)})
    ensures ra < rb ==> Sound(parent[rb := ra], edges + {(a, b)})
    ensures rb < ra ==> Sound(parent[ra := rb], edges + {(a, b)})
  {
    hide Says, Connected;
    LeastIsRoot(parent, edges, a, ra);
    LeastIsRoot(parent, edges, b, rb);
    var low, high := if ra < rb then ra else rb, if ra < rb then rb else ra;
    var after := if ra == rb then parent else parent[high := low];
    forall y
      ensures Falls(after) && Root(after, y) == if Root(parent, y) == high then low else Root(parent, y)
    {
      if ra != rb {
        LinkingRoots(parent, low, high, y);
      }
    }
    UnionSays(parent, after, edges, a, b);
  }

  class DSU {
    var parent: map<Column, Column>
    ghost var edges: set<(Column, Column)>

    ghost predicate Valid()
      reads this
    {
      Sound(parent, edges)
    }

    constructor ()
      ensures Valid() && edges == {} && parent == map[]
    {
      parent, edges := map[], {};
      NoUnions();
    }

    /** The least column connected to this one; halving the path to it changes what is connected to none. */
    method Find(x0: Column) returns (r: Column)
      requires Valid()
      modifies this
      ensures Valid() && edges == old(edges) && parent.Keys == old(parent).Keys + {x0}
      ensures IsLeast(edges, x0, r)
    {
      hide Sound, IsLeast, Connected;
      var x := x0;
      if x !in parent {
        AddingKeepsRoots(parent, x, edges);
        parent := parent[x := x];
      }
      ConnectedSelf(edges, x);
      while parent[x] != x
        invariant x in parent && parent.Keys == old(parent).Keys + {x0} && edges == old(edges)
        invariant Sound(parent, edges) && Connected(edges, x0, x)
        decreases x
      {
        Halving(parent, edges, x0, x);
        parent := parent[x := parent[parent[x]]];
        x := parent[x];
      }
      AtRoot(parent, edges, x0, x);
      return x;
    }

    method Union(a: Column, b: Column)
      requires Valid()
      modifies this
      ensures Valid() && edges == old(edges) + {(a, b)} && parent.Keys == old(parent).Keys + {a, b}
    {
      hide Sound, IsLeast, Connected;
      var ra := Find(a);
      var rb := Find(b);
      Joining(parent, edges, a, b, ra, rb);
      if ra != rb {
        parent := parent[(if ra < rb then rb else ra) := if ra < rb then ra else rb];
      }
      edges := edges + {(a, b)};
    }
  }

  lemma NoUnions()
    ensures Sound(map[], {})
  {
    forall x, y
      ensures Connected({}, x, y) <==> x == y
    {
      ConnectedSelf({}, x);
      if Connected({}, x, y) {
        var p :| IsPath({}, p, x, y);
        assert |p| > 1 ==> Linked({}, p[0], p[1]);
      }
    }
  }

  lemma AddingKeepsRoots(parent: map<Column, Column>, x: Column, edges: set<(Column, Column)>)
    requires Sound(parent, edges) && x !in parent
    ensures Sound(parent[x := x], edges)
  {
    forall y
      ensures Root(parent[x := x], y) == Root(parent, y)
    {
      AddingKeepsRoot(parent, x, y);
    }
    SameRootsSay(parent, parent[x := x], edges);
  }

  lemma {:induction false} AddingKeepsRoot(parent: map<Column, Column>, x: Column, y: Column)
    requires Falls(parent) && x !in parent
    ensures Falls(parent[x := x]) && Root(parent[x := x], y) == Root(parent, y)
    decreases y
  {
    if y in parent && parent[y] != y {
      AddingKeepsRoot(parent, x, parent[y]);
    }
  }

  lemma {:induction false} LeastIsRoot(parent: map<Column, Column>, edges: set<(Column, Column)>, x: Column, r: Column)
    requires Falls(parent) && Says(parent, edges) && IsLeast(edges, x, r) && x in parent
    ensures r == Root(parent, x) && r in parent && parent[r] == r
  {
    RootIsLeast(parent, edges, x);
  }
}
