/** Id spaces, and the joins that equate two of them which production keeps apart. */
module Suspects {
  import opened UnionFind

  type Name = nat
  type Table = nat

  /** A JoinKey: the two columns some queries join, and whether unchanged. */
  datatype Key = Key(id: nat, l: Column, r: Column, identity: bool)

  /** What is known of the columns: each one's name, its table, and each table's columns. */
  datatype Columns = Columns(name: Column -> Name, table: map<Column, Table>, holds: map<Table, set<Column>>)

  // ---- id spaces, as sets

  function Edges(same: set<(Column, Column)>, accepted: set<Key>): set<(Column, Column)> {
    same + set k | k in accepted && k.identity :: (k.l, k.r)
  }

  function Touched(accepted: set<Key>): set<Column> {
    (set k | k in accepted :: k.l) + (set k | k in accepted :: k.r)
  }

  function Ends(edges: set<(Column, Column)>): set<Column> {
    (set e | e in edges :: e.0) + (set e | e in edges :: e.1)
  }

  /** A column's space, named by its least column. */
  ghost function Space(edges: set<(Column, Column)>, x: Column): (r: Column)
    ensures IsLeast(edges, x, r)
    decreases x
  {
    if y: Column :| y < x && Connected(edges, x, y) then
      var r := Space(edges, y);
      LeastThrough(edges, x, y, r);
      r
    else
      ConnectedSelf(edges, x);
      x
  }

  lemma LeastThrough(edges: set<(Column, Column)>, x: Column, y: Column, r: Column)
    requires Connected(edges, x, y) && IsLeast(edges, y, r)
    ensures IsLeast(edges, x, r)
  {
    ConnectedOn(edges, x, y, r);
    forall z | Connected(edges, x, z)
      ensures r <= z
    {
      ConnectedBack(edges, x, y);
      ConnectedOn(edges, y, x, z);
    }
  }

  lemma LeastIsSpace(edges: set<(Column, Column)>, x: Column, r: Column)
    requires IsLeast(edges, x, r)
    ensures r == Space(edges, x)
  {
  }

  ghost function Established(edges: set<(Column, Column)>, accepted: set<Key>): set<Column> {
    set c | c in Touched(accepted) :: Space(edges, c)
  }

  /** The spaces of one name, of the columns the joins and the lineage mention. */
  ghost function Named(cols: Columns, edges: set<(Column, Column)>, accepted: set<Key>, n: Name): set<Column> {
    set c | c in Ends(edges) + Touched(accepted) && cols.name(c) == n && Space(edges, c) in Established(edges, accepted) :: Space(edges, c)
  }

  /** A column's id spaces: its own when an accepted join touches it, else those of its name. */
  ghost function SpacesOf(cols: Columns, edges: set<(Column, Column)>, accepted: set<Key>, c: Column): set<Column> {
    if Space(edges, c) in Established(edges, accepted) then {Space(edges, c)} else Named(cols, edges, accepted, cols.name(c))
  }

  function ColumnsOf(cols: Columns, t: Table): set<Column> {
    if t in cols.holds then cols.holds[t] else {}
  }

  /** Some column production joins through is of a table that holds both spaces as separate columns. */
  ghost predicate Bridged(cols: Columns, edges: set<(Column, Column)>, production: set<Key>, a: Column, b: Column) {
    exists c :: c in Touched(production) && HoldsBoth(cols, edges, c, a, b)
  }

  ghost predicate HoldsBoth(cols: Columns, edges: set<(Column, Column)>, c: Column, a: Column, b: Column) {
    && c in cols.table && cols.table[c] in cols.holds
    && exists x, y :: x in cols.holds[cols.table[c]] && y in cols.holds[cols.table[c]] && Space(edges, x) == a && Space(edges, y) == b
  }

  /** The join's two columns are of established spaces that do not meet, and production bridges a column of each. */
  ghost predicate Contradicted(cols: Columns, same: set<(Column, Column)>, accepted: set<Key>, production: set<Key>, k: Key) {
    var edges := Edges(same, accepted);
    var left, right := SpacesOf(cols, edges, accepted, k.l), SpacesOf(cols, edges, accepted, k.r);
    left !! right && exists a, b :: a in left && b in right && Bridged(cols, edges, production, a, b)
  }

  /** The joins contradicted by those accepted, each judged without itself. */
  ghost function Judged(cols: Columns, same: set<(Column, Column)>, production: set<Key>, human: set<Key>, accepted: set<Key>): set<nat> {
    set k | k in human && Contradicted(cols, same, accepted - {k}, production, k) :: k.id
  }

  ghost function Accepted(production: set<Key>, human: set<Key>, suspect: set<nat>): set<Key> {
    production + set k | k in human && k.id !in suspect
  }

  /** The first pass judges by production alone; each after it, by production and the joins the last one accepted. */
  ghost function Pass(cols: Columns, same: set<(Column, Column)>, production: set<Key>, human: set<Key>, n: nat): set<nat> {
    if n == 0 then Judged(cols, same, production, human, production)
    else Judged(cols, same, production, human, Accepted(production, human, Pass(cols, same, production, human, n - 1)))
  }

  const MAX_PASSES := 5

  /** When two passes in a row agree, so do all after them: the suspects are then exactly the joins that production
      and the joins accepted contradict. */
  lemma {:induction false} StableIsFixed(cols: Columns, same: set<(Column, Column)>, production: set<Key>, human: set<Key>, n: nat, m: nat)
    requires n <= m && Pass(cols, same, production, human, n + 1) == Pass(cols, same, production, human, n)
    ensures var found := Pass(cols, same, production, human, n);
            && Pass(cols, same, production, human, m) == found
            && Judged(cols, same, production, human, Accepted(production, human, found)) == found
    decreases m
  {
    hide Judged, Accepted;
    if m > n {
      StableIsFixed(cols, same, production, human, n, m - 1);
    }
  }

  function Pairs(same: seq<(Column, Column)>): set<(Column, Column)> {
    set e | e in same
  }

  function Members(ks: seq<Key>): set<Key> {
    set k | k in ks
  }

  // ---- id spaces, computed

  lemma TakenNext(ks: seq<Key>, i: nat)
    requires i < |ks|
    ensures Members(ks[..i + 1]) == Members(ks[..i]) + {ks[i]}
    ensures Touched(Members(ks[..i + 1])) == Touched(Members(ks[..i])) + {ks[i].l, ks[i].r}
  {
    assert ks[..i + 1] == ks[..i] + [ks[i]];
    var before, after := Members(ks[..i]), Members(ks[..i + 1]);
    assert after == before + {ks[i]};
    assert Touched(after) == Touched(before) + {ks[i].l, ks[i].r};
  }

  lemma EndsNone()
    ensures Ends({}) == {}
  {
  }

  lemma EdgesNone(same: set<(Column, Column)>)
    ensures Edges(same, {}) == same
  {
  }

  lemma EndsNext(edges: set<(Column, Column)>, a: Column, b: Column)
    ensures Ends(edges + {(a, b)}) == Ends(edges) + {a, b}
  {
  }

  lemma EdgesNext(same: set<(Column, Column)>, accepted: set<Key>, k: Key)
    ensures Edges(same, accepted + {k}) == Edges(same, accepted) + (if k.identity then {(k.l, k.r)} else {})
  {
  }

  lemma NothingEstablished(edges: set<(Column, Column)>)
    ensures Touched({}) == {} && Established(edges, {}) == {}
  {
  }

  lemma EstablishedNext(edges: set<(Column, Column)>, accepted: set<Key>, k: Key)
    ensures Established(edges, accepted + {k}) == Established(edges, accepted) + {Space(edges, k.l), Space(edges, k.r)}
  {
    hide Space;
    assert Touched(accepted + {k}) == Touched(accepted) + {k.l, k.r};
  }

  /** The lineage's unions, and those of the accepted joins that keep identity. */
  method UniteAll(sets: DSU, same: seq<(Column, Column)>, taken: seq<Key>)
    requires sets.Valid() && sets.edges == {} && sets.parent == map[]
    modifies sets
    ensures sets.Valid() && sets.edges == Edges(Pairs(same), Members(taken))
    ensures sets.parent.Keys == Ends(sets.edges)
  {
    hide Sound, Edges, Ends;
    EndsNone();
    for i := 0 to |same|
      invariant sets.Valid() && sets.edges == Pairs(same[..i]) && sets.parent.Keys == Ends(sets.edges)
    {
      assert same[..i + 1] == same[..i] + [same[i]];
      EndsNext(sets.edges, same[i].0, same[i].1);
      sets.Union(same[i].0, same[i].1);
    }
    assert same[..|same|] == same;
    ghost var lineage := Pairs(same);
    EdgesNone(lineage);
    assert Members(taken[..0]) == {};
    for i := 0 to |taken|
      invariant sets.Valid() && sets.edges == Edges(lineage, Members(taken[..i])) && sets.parent.Keys == Ends(sets.edges)
    {
      var k := taken[i];
      TakenNext(taken, i);
      EdgesNext(lineage, Members(taken[..i]), k);
      if k.identity {
        EndsNext(sets.edges, k.l, k.r);
        sets.Union(k.l, k.r);
      }
    }
    assert taken[..|taken|] == taken;
  }

  method EstablishedBy(sets: DSU, taken: seq<Key>) returns (found: set<Column>)
    requires sets.Valid()
    modifies sets
    ensures sets.Valid() && sets.edges == old(sets.edges) && found == Established(sets.edges, Members(taken))
    ensures sets.parent.Keys == old(sets.parent).Keys + Touched(Members(taken))
  {
    hide Sound, IsLeast, Established, Touched;
    found := {};
    NothingEstablished(sets.edges);
    assert Members(taken[..0]) == {};
    for i := 0 to |taken|
      invariant sets.Valid() && sets.edges == old(sets.edges) && found == Established(sets.edges, Members(taken[..i]))
      invariant sets.parent.Keys == old(sets.parent).Keys + Touched(Members(taken[..i]))
    {
      TakenNext(taken, i);
      EstablishedNext(sets.edges, Members(taken[..i]), taken[i]);
      var left := sets.Find(taken[i].l);
      var right := sets.Find(taken[i].r);
      LeastIsSpace(sets.edges, taken[i].l, left);
      LeastIsSpace(sets.edges, taken[i].r, right);
      found := found + {left, right};
    }
    assert taken[..|taken|] == taken;
  }

  /** The spaces of some columns of a name, by name. */
  ghost function NamedAmong(cols: Columns, edges: set<(Column, Column)>, found: set<Column>, among: set<Column>, n: Name): set<Column> {
    set c | c in among && cols.name(c) == n && Space(edges, c) in found :: Space(edges, c)
  }

  lemma AllNamed(cols: Columns, edges: set<(Column, Column)>, accepted: set<Key>)
    ensures forall n :: NamedAmong(cols, edges, Established(edges, accepted), Ends(edges) + Touched(accepted), n) == Named(cols, edges, accepted, n)
  {
    hide Space, Established, Ends, Touched;
  }

  function At(byName: map<Name, set<Column>>, n: Name): set<Column> {
    if n in byName then byName[n] else {}
  }

  method NamesOf(cols: Columns, sets: DSU, found: set<Column>) returns (byName: map<Name, set<Column>>)
    requires sets.Valid()
    modifies sets
    ensures sets.Valid() && sets.edges == old(sets.edges)
    ensures forall n :: At(byName, n) == NamedAmong(cols, sets.edges, found, old(sets.parent).Keys, n)
  {
    hide Sound, IsLeast;
    byName := map[];
    var rest := sets.parent.Keys;
    ghost var all := rest;
    while rest != {}
      invariant sets.Valid() && sets.edges == old(sets.edges) && rest <= all
      invariant forall n :: At(byName, n) == NamedAmong(cols, sets.edges, found, all - rest, n)
      decreases rest
    {
      var c :| c in rest;
      var root := sets.Find(c);
      LeastIsSpace(sets.edges, c, root);
      ghost var done, was := all - rest, byName;
      assert all - (rest - {c}) == done + {c};
      if root in found {
        byName := byName[cols.name(c) := At(byName, cols.name(c)) + {root}];
      }
      forall n
        ensures At(byName, n) == NamedAmong(cols, sets.edges, found, done + {c}, n)
      {
        assert At(was, n) == NamedAmong(cols, sets.edges, found, done, n);
        OneMore(cols, sets.edges, found, done, c, n);
      }
      rest := rest - {c};
    }
    assert all - {} == all;
  }

  lemma OneMore(cols: Columns, edges: set<(Column, Column)>, found: set<Column>, done: set<Column>, c: Column, n: Name)
    ensures NamedAmong(cols, edges, found, done + {c}, n)
         == NamedAmong(cols, edges, found, done, n) + (if cols.name(c) == n && Space(edges, c) in found then {Space(edges, c)} else {})
  {
  }

  method RootsOf(sets: DSU, columns: set<Column>) returns (roots: set<Column>)
    requires sets.Valid()
    modifies sets
    ensures sets.Valid() && sets.edges == old(sets.edges) && roots == set x | x in columns :: Space(sets.edges, x)
  {
    hide Sound, IsLeast;
    roots := {};
    var rest := columns;
    while rest != {}
      invariant sets.Valid() && sets.edges == old(sets.edges) && rest <= columns
      invariant roots == set x | x in columns - rest :: Space(sets.edges, x)
      decreases rest
    {
      var x :| x in rest;
      var root := sets.Find(x);
      LeastIsSpace(sets.edges, x, root);
      assert columns - (rest - {x}) == (columns - rest) + {x};
      roots := roots + {root};
      rest := rest - {x};
    }
    assert columns - {} == columns;
  }

  class IdSpaces {
    const cols: Columns
    const sets: DSU
    var established: set<Column>
    var byName: map<Name, set<Column>>
    ghost var edges: set<(Column, Column)>
    ghost var accepted: set<Key>

    ghost predicate Valid()
      reads this, sets
    {
      && sets.Valid() && sets.edges == edges
      && established == Established(edges, accepted)
      && forall n :: At(byName, n) == Named(cols, edges, accepted, n)
    }

    constructor (same: seq<(Column, Column)>, taken: seq<Key>, cols0: Columns)
      ensures Valid() && fresh(sets) && cols == cols0
      ensures accepted == Members(taken) && edges == Edges(Pairs(same), Members(taken))
    {
      cols := cols0;
      sets := new DSU();
      new;
      hide Sound, IsLeast, Established, Touched, Named, NamedAmong, Edges, Ends, At;
      UniteAll(sets, same, taken);
      accepted := Members(taken);
      edges := sets.edges;
      established := EstablishedBy(sets, taken);
      byName := NamesOf(cols, sets, established);
      AllNamed(cols, edges, accepted);
    }

    /** A column's spaces, as the accepted joins and the lineage alone determine them. */
    method Of(column: Column) returns (spaces: set<Column>)
      requires Valid()
      modifies sets
      ensures Valid() && spaces == SpacesOf(cols, edges, accepted, column)
    {
      hide Named, Established;
      var root := sets.Find(column);
      LeastIsSpace(edges, column, root);
      var n := cols.name(column);
      if root in established {
        return {root};
      }
      return At(byName, n);
    }

    /** Whether a table production joins through holds both spaces. */
    method Bridges(a: Column, b: Column, production: seq<Key>) returns (found: bool)
      requires Valid()
      modifies sets
      ensures Valid() && found == Bridged(cols, edges, Members(production), a, b)
    {
      hide Named, Established, HoldsBoth;
      ghost var whole := Members(production);
      found := false;
      for i := 0 to |production|
        invariant Valid()
        invariant found == exists c :: c in Touched(Members(production[..i])) && HoldsBoth(cols, edges, c, a, b)
      {
        var k := production[i];
        TakenNext(production, i);
        var left := Holds(k.l, a, b);
        var right := Holds(k.r, a, b);
        found := found || left || right;
      }
      assert production[..|production|] == production;
    }

    method Holds(c: Column, a: Column, b: Column) returns (both: bool)
      requires Valid()
      modifies sets
      ensures Valid() && both == HoldsBoth(cols, edges, c, a, b)
    {
      hide Named, Established;
      if c !in cols.table {
        return false;
      }
      var roots := RootsOf(sets, ColumnsOf(cols, cols.table[c]));
      return {a, b} <= roots;
    }

    /** Whether the join equates two separate spaces that production keeps apart. */
    method Contradicts(k: Key, production: seq<Key>) returns (yes: bool)
      requires Valid()
      modifies sets
      ensures Valid()
      ensures yes == (var left, right := SpacesOf(cols, edges, accepted, k.l), SpacesOf(cols, edges, accepted, k.r);
                      left !! right && exists a, b :: a in left && b in right && Bridged(cols, edges, Members(production), a, b))
    {
      hide Named, Established, SpacesOf, Bridged;
      var left := Of(k.l);
      var right := Of(k.r);
      if left !! right {
        yes := AnyBridge(this, left, right, production);
      } else {
        yes := false;
      }
    }
  }

  method AnyBridge(spaces: IdSpaces, left: set<Column>, right: set<Column>, production: seq<Key>) returns (found: bool)
    requires spaces.Valid()
    modifies spaces.sets
    ensures spaces.Valid()
    ensures found == exists a, b :: a in left && b in right && Bridged(spaces.cols, spaces.edges, Members(production), a, b)
  {
    hide Bridged, Named, Established, Sound;
    ghost var whole := Members(production);
    var todo := left;
    while todo != {}
      invariant spaces.Valid() && todo <= left
      invariant forall a, b :: a in left - todo && b in right ==> !Bridged(spaces.cols, spaces.edges, whole, a, b)
      decreases todo
    {
      var a :| a in todo;
      var rest := right;
      while rest != {}
        invariant spaces.Valid() && rest <= right
        invariant forall b :: b in right - rest ==> !Bridged(spaces.cols, spaces.edges, whole, a, b)
        decreases rest
      {
        var b :| b in rest;
        var bridged := spaces.Bridges(a, b, production);
        if bridged {
          return true;
        }
        rest := rest - {b};
      }
      todo := todo - {a};
    }
    return false;
  }

  // ---- the passes

  /** The joins a person made that are not among the suspects. */
  function Unsuspected(human: seq<Key>, suspect: set<nat>): seq<Key> {
    if human == [] then []
    else (if human[0].id in suspect then [] else [human[0]]) + Unsuspected(human[1..], suspect)
  }

  /** Those that are not this join. */
  function Others(ks: seq<Key>, k: Key): seq<Key> {
    if ks == [] then []
    else (if ks[0].id == k.id then [] else [ks[0]]) + Others(ks[1..], k)
  }

  lemma {:induction false} UnsuspectedIs(human: seq<Key>, suspect: set<nat>)
    ensures Members(Unsuspected(human, suspect)) == set k | k in human && k.id !in suspect
  {
    if human != [] {
      UnsuspectedIs(human[1..], suspect);
      assert human == [human[0]] + human[1..];
      var rest := Unsuspected(human[1..], suspect);
      assert forall k :: k in Unsuspected(human, suspect) <==> k in Members(rest) || (k == human[0] && k.id !in suspect);
    }
  }

  /** A join's id is its own. */
  ghost predicate IdsDiffer(ks: set<Key>) {
    forall x, y :: x in ks && y in ks && x.id == y.id ==> x == y
  }

  lemma {:induction false} OthersAre(ks: seq<Key>, k: Key)
    requires forall x :: x in ks && x.id == k.id ==> x == k
    ensures Members(Others(ks, k)) == Members(ks) - {k}
  {
    if ks != [] {
      OthersAre(ks[1..], k);
      assert ks == [ks[0]] + ks[1..];
      var rest := Others(ks[1..], k);
      assert forall x :: x in Others(ks, k) <==> x in Members(rest) || (x == ks[0] && x.id != k.id);
    }
  }

  /** One pass: each person's join judged by those accepted, never by itself. */
  method Judge(production: seq<Key>, human: seq<Key>, accepted: seq<Key>, same: seq<(Column, Column)>, cols: Columns) returns (found: set<nat>)
    requires IdsDiffer(Members(human) + Members(accepted))
    ensures found == Judged(cols, Pairs(same), Members(production), Members(human), Members(accepted))
  {
    hide Contradicted, IdSpaces.Valid;
    found := {};
    for i := 0 to |human|
      invariant found == Judged(cols, Pairs(same), Members(production), Members(human[..i]), Members(accepted))
    {
      var k := human[i];
      assert human[..i + 1] == human[..i] + [k];
      OthersAre(accepted, k);
      var yes := JudgeOne(production, k, Others(accepted, k), same, cols);
      JudgedNext(cols, Pairs(same), Members(production), Members(human[..i]), k, Members(accepted));
      assert Members(human[..i + 1]) == Members(human[..i]) + {k};
      if yes {
        found := found + {k.id};
      }
    }
    assert human[..|human|] == human;
  }

  method JudgeOne(production: seq<Key>, k: Key, accepted: seq<Key>, same: seq<(Column, Column)>, cols: Columns) returns (yes: bool)
    ensures yes == Contradicted(cols, Pairs(same), Members(accepted), Members(production), k)
  {
    hide SpacesOf, Bridged, Established, Named;
    var spaces := new IdSpaces(same, accepted, cols);
    yes := spaces.Contradicts(k, production);
  }

  lemma JudgedNext(cols: Columns, same: set<(Column, Column)>, production: set<Key>, human: set<Key>, k: Key, accepted: set<Key>)
    ensures Judged(cols, same, production, human + {k}, accepted)
         == Judged(cols, same, production, human, accepted)
            + (if Contradicted(cols, same, accepted - {k}, production, k) then {k.id} else {})
  {
    hide Contradicted;
  }

  /** The suspect joins: what five passes leave, or fewer when one changes nothing. They depend on which joins and
      which lineage there are, not on their order. */
  method FindSuspects(production: seq<Key>, human: seq<Key>, same: seq<(Column, Column)>, cols: Columns) returns (found: set<nat>)
    requires IdsDiffer(Members(production) + Members(human))
    ensures found == Pass(cols, Pairs(same), Members(production), Members(human), MAX_PASSES - 1)
  {
    hide Judged;
    ghost var ps, hs, ls := Members(production), Members(human), Pairs(same);
    found := {};
    for i := 0 to MAX_PASSES
      invariant i > 0 ==> found == Pass(cols, ls, ps, hs, i - 1)
    {
      var accepted := if i == 0 then production else production + Unsuspected(human, found);
      UnsuspectedIs(human, found);
      assert Members(production + Unsuspected(human, found)) == ps + Members(Unsuspected(human, found));
      assert Members(Unsuspected(human, found)) == set k | k in hs && k.id !in found;
      assert Members(accepted) == if i == 0 then ps else Accepted(ps, hs, found);
      var judged := Judge(production, human, accepted, same, cols);
      assert judged == Pass(cols, ls, ps, hs, i);
      if i > 0 && judged == found {
        StableIsFixed(cols, ls, ps, hs, i - 1, MAX_PASSES - 1);
        break;
      }
      found := judged;
    }
  }
}
