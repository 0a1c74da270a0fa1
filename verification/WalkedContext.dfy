/** A covered question's match, with filters read where the outer joins equate their columns, binds only nodes of the
    context: so what it keeps of memory it keeps of the warehouse. */
module WalkedContext {
  import opened Options
  import opened Data
  import opened Template
  import opened Context
  import opened Served
  import opened Provenance
  import opened Answerable
  import opened Answered
  import opened Walked
  import T = Tables
  import F = From
  import CypherMatch

  // ---- where a column is read

  /** Each walked table's node is met by its join. */
  ghost predicate WalkMet(view: View, joins: seq<Join>, b: Binding) {
    forall j :: j in joins && j.t in b ==> j.a in b && b[j.t].Some? && Meet(view, j, b[j.a], b[j.t].value)
  }

  lemma WalkIsMet(view: View, block: Block, walked: Block, b: Binding)
    requires IsTree(block) && IsWalk(block, walked) && IsMatch(view, walked, b)
    ensures WalkMet(view, block.joins, b)
  {
    hide Eval, Meet, ReadFilters;
    forall j | j in block.joins && j.t in b
      ensures j.a in b && b[j.t].Some? && Meet(view, j, b[j.a], b[j.t].value)
    {
      TargetOnce(block, j);
      var d :| d in walked.joins && d.t == j.t;
      var e :| e in block.joins && d == e.(outer := false);
      TargetOnce(block, e);
      assert JoinBound(view, d, b);
      MeetEitherFlag(view, j, d, b[j.a], b[j.t].value);
    }
  }

  lemma MeetEitherFlag(view: View, j: Join, d: Join, x: Option<Value>, y: Value)
    requires d == j.(outer := d.outer)
    ensures Meet(view, j, x, y) <==> Meet(view, d, x, y)
  {
  }

  lemma TargetsApart(block: Block, k: nat, i: nat)
    requires IsTree(block) && k < i < |block.joins|
    ensures block.joins[k].t != block.joins[i].t
  {
    assert block.joins[i].t !in Joined(block, i);
    assert block.joins[k].t in Joined(block, i);
  }

  /** A table is joined once, and is not the fact. */
  lemma TargetOnce(block: Block, j: Join)
    requires IsTree(block) && j in block.joins
    ensures j.t != block.fact && forall e :: e in block.joins && e.t == j.t ==> e == j
  {
    hide IsTree;
    var i :| 0 <= i < |block.joins| && block.joins[i] == j;
    TargetIsNew(block, i);
    forall e | e in block.joins && e.t == j.t
      ensures e == j
    {
      var k :| 0 <= k < |block.joins| && block.joins[k] == e;
      if k != i {
        TargetsApart(block, if k < i then k else i, if k < i then i else k);
      }
    }
  }

  /** Of a walked table, a column has the value it has where it is read. */
  lemma {:induction false} SourceCell(view: View, joins: seq<Join>, b: Binding, t: Label, c: Prop)
    requires WalkMet(view, joins, b) && t in b
    ensures var (s, p) := CypherMatch.Source(T.JoinsOf(joins), t, c); s in b && Cell(view, b, s, p) == Cell(view, b, t, c)
    decreases |joins|
  {
    if joins != [] {
      var n := |joins| - 1;
      var js, j := T.JoinsOf(joins), joins[n];
      assert js[..n] == T.JoinsOf(joins[..n]) && js[n] == T.JoinOf(j) && j in joins;
      assert forall d :: d in joins[..n] ==> d in joins;
      if j.outer && j.t == t && j.tc == c {
        SourceCell(view, joins[..n], b, j.a, j.ac);
      } else {
        SourceCell(view, joins[..n], b, t, c);
      }
    }
  }

  function ReadAtom(js: seq<F.Join>, x: Atom): Atom {
    var (s, p) := CypherMatch.Source(js, x.table, x.col);
    Atom(s, p, x.op, x.value)
  }

  /** What is collected of a filter is collected of it as it is read. */
  lemma {:induction false} CollectedRead(js: seq<F.Join>, f: Filter)
    ensures |Collected(ReadFilter(js, f))| == |Collected(f)|
    ensures forall i :: 0 <= i < |Collected(f)| ==> Collected(ReadFilter(js, f))[i] == ReadAtom(js, Collected(f)[i])
    ensures Plain(ReadFilter(js, f)) == Plain(f)
  {
    hide CypherMatch.Source, Levels;
    LevelsRead(js, f, 0);
    match f
    case Not(g) => CollectedRead(js, g);
    case And(l, r) => CollectedRead(js, l); CollectedRead(js, r);
    case Or(l, r) => CollectedRead(js, l); CollectedRead(js, r);
    case _ =>
  }

  lemma {:induction false} LevelRead(js: seq<F.Join>, f: Filter, depth: nat)
    ensures Depth(ReadFilter(js, f)) == Depth(f)
    ensures |Level(ReadFilter(js, f), depth)| == |Level(f, depth)|
    ensures forall i :: 0 <= i < |Level(f, depth)| ==> Level(ReadFilter(js, f), depth)[i] == ReadAtom(js, Level(f, depth)[i])
    decreases f
  {
    hide CypherMatch.Source;
    var below := if depth == 0 then 0 else depth - 1;
    match f
    case Not(g) => LevelRead(js, g, below);
    case And(l, r) => LevelRead(js, l, below); LevelRead(js, r, below);
    case Or(l, r) => LevelRead(js, l, below); LevelRead(js, r, below);
    case _ =>
  }

  lemma {:induction false} LevelsRead(js: seq<F.Join>, f: Filter, depth: nat)
    ensures |Levels(ReadFilter(js, f), depth)| == |Levels(f, depth)|
    ensures forall i :: 0 <= i < |Levels(f, depth)| ==> Levels(ReadFilter(js, f), depth)[i] == ReadAtom(js, Levels(f, depth)[i])
    decreases Depth(f) + 1 - depth
  {
    hide ReadFilter, ReadAtom, Level;
    LevelRead(js, f, depth);
    if depth <= Depth(f) {
      LevelsRead(js, f, depth + 1);
    }
  }

  lemma {:induction false} AllCollectedRead(js: seq<F.Join>, fs: seq<Filter>, x: Atom)
    requires x in CollectedAll(fs)
    ensures ReadAtom(js, x) in CollectedAll(ReadFilters(js, fs))
  {
    hide ReadFilter, ReadAtom, Collected;
    CollectedRead(js, fs[0]);
    assert ReadFilters(js, fs)[1..] == ReadFilters(js, fs[1..]);
    if x in Collected(fs[0]) {
      var i :| 0 <= i < |Collected(fs[0])| && Collected(fs[0])[i] == x;
      assert Collected(ReadFilters(js, fs)[0])[i] == ReadAtom(js, x);
    } else {
      AllCollectedRead(js, fs[1..], x);
    }
  }

  /** What the question's filters name holds, of a walked match, where it is read. */
  lemma ReadAtomsHold(view: View, block: Block, walked: Block, b: Binding)
    requires IsWalk(block, walked) && IsMatch(view, walked, b) && forall f :: f in block.filters ==> Plain(f)
    ensures forall x :: x in CollectedAll(block.filters) ==> AtomHolds(view, b, ReadAtom(T.JoinsOf(block.joins), x))
  {
    hide Eval, JoinBound, ReadFilter, Plain, ReadAtom, AtomHolds;
    var js := T.JoinsOf(block.joins);
    forall f | f in walked.filters
      ensures Plain(f)
    {
      var i :| 0 <= i < |block.filters| && ReadFilter(js, block.filters[i]) == f;
      assert block.filters[i] in block.filters;
      CollectedRead(js, block.filters[i]);
    }
    AtomsHold(view, b, walked.filters);
    forall x | x in CollectedAll(block.filters)
      ensures AtomHolds(view, b, ReadAtom(js, x))
    {
      AllCollectedRead(js, block.filters, x);
    }
  }

  // ---- the walked match, with null rows for the tables it does not walk

  function Filled(block: Block, b: Binding): Binding {
    map t | t in block.Tables() :: if t in b then b[t] else None
  }

  lemma FilledTaken(view: View, block: Block, walked: Block, b: Binding)
    requires IsTree(block) && IsWalk(block, walked) && IsMatch(view, walked, b)
    ensures Taken(view, block, Filled(block, b)) && forall t :: t in b ==> t in block.Tables()
  {
    hide Eval, Meet, IsTree, IsWalk, IsMatch;
    WalkIsMet(view, block, walked, b);
    WalkedTables(view, block, walked, b);
    forall j | j in block.joins
      ensures j.a in Filled(block, b) && JoinTaken(view, j, Filled(block, b))
    {
      StartsAtTable(block, j);
      var filled := Filled(block, b);
      if j.t in b {
        assert filled[j.a] == b[j.a] && filled[j.t] == b[j.t];
      } else {
        assert filled[j.t].None? && j.outer;
      }
    }
  }

  /** The walk's tables are some of the block's, with the target of every inner join. */
  lemma WalkedTables(view: View, block: Block, walked: Block, b: Binding)
    requires IsWalk(block, walked) && IsMatch(view, walked, b)
    ensures (forall t :: t in b ==> t in block.Tables()) && forall j :: j in block.joins && !j.outer ==> j.t in b
  {
    hide Eval, JoinBound, ReadFilters;
    assert b.Keys == walked.Tables();
    forall t | t in b && t != block.fact
      ensures t in block.Tables()
    {
      var d :| d in walked.joins && d.t == t;
      var e :| e in block.joins && d == e.(outer := false);
    }
  }

  lemma StartsAtTable(block: Block, j: Join)
    requires IsTree(block) && j in block.joins
    ensures j.a in block.Tables() && j.t in block.Tables()
  {
    var i :| 0 <= i < |block.joins| && block.joins[i] == j;
    assert block.joins[i].a in Joined(block, i);
  }

  /** A column read elsewhere is the target of an outer join on it. */
  lemma {:induction false} SourceMoved(js: seq<F.Join>, t: Label, c: Prop)
    requires CypherMatch.Source(js, t, c) != (t, c)
    ensures exists i :: 0 <= i < |js| && CypherMatch.Equates(js[i], t, c)
    decreases |js|
  {
    var n := |js| - 1;
    if !CypherMatch.Equates(js[n], t, c) {
      SourceMoved(js[..n], t, c);
      var i :| 0 <= i < n && CypherMatch.Equates(js[..n][i], t, c);
      assert CypherMatch.Equates(js[i], t, c);
    }
  }

  /** An outer join's target column is read where its pointing column is. */
  lemma SourceOfTarget(block: Block, i: nat)
    requires IsTree(block) && i < |block.joins| && block.joins[i].outer
    ensures var js, j := T.JoinsOf(block.joins), block.joins[i];
            CypherMatch.Source(js, j.t, j.tc) == CypherMatch.Source(js, j.a, j.ac)
  {
    hide IsTree, CypherMatch.Source;
    var js, j := T.JoinsOf(block.joins), block.joins[i];
    T.TreeOfQuery(block);
    assert js[i] == T.JoinOf(j);
    assert js[..|js|] == js;
    CypherMatch.SourceStep(block.fact, js, i, |js|, j.t, j.tc);
    CypherMatch.StartsEarlier(block.fact, js, i);
    CypherMatch.SourceOfPrefix(js, i, j.a, j.ac);
  }

  ghost predicate Asked(s: Setting, block: Block, walked: Block, b: Binding, capped: set<Read>, since: int) {
    && s.Sound() && Fits(s, block) && IsWalk(block, walked) && IsMatch(s.m, walked, b)
    && Covers(block, s.keyOf, s.rels, s.rs, capped, since, s.Anchor(), s.key)
    && HasKeys(s) && s.lim.since <= since
    && capped == set x | x in Alone(s.w, s.lim, s.rs, s.key).log && x.capped :: x.read
  }

  /** Rows hold their keys. */
  ghost predicate HasKeys(s: Setting) {
    forall id :: id in s.w && id.lb in s.keyOf ==> s.keyOf[id.lb] in s.w[id]
  }

  lemma WalkedStart(s: Setting, block: Block, walked: Block, b: Binding, capped: set<Read>, since: int, v: Label)
    requires Asked(s, block, walked, b, capped, since) && v in StartOf(s, block) && v in b
    ensures InContext(s, Filled(block, b), v)
  {
    hide Alone, Covers, Scan, Eval, IsTree, IsWalk, IsMatch, OnKeys, Provenance.OneReadPerLabel, CypherMatch.Source, Plain, StartOf;
    WalkIsMet(s.m, block, walked, b);
    ReadAtomsHold(s.m, block, walked, b);
    FilledTaken(s.m, block, walked, b);
    forall x | x in CollectedAll(block.filters) && x.table == v
      ensures AtomHolds(s.m, Filled(block, b), x)
    {
      SourceCell(s.m, block.joins, b, v, x.col);
      SameCell(s.m, block, b, v, x.col);
    }
    StartInContext(s, s.m, block, Filled(block, b), capped, since, v);
  }

  lemma SameCell(view: View, block: Block, b: Binding, t: Label, c: Prop)
    requires t in b && t in block.Tables()
    ensures Cell(view, Filled(block, b), t, c) == Cell(view, b, t, c)
  {
  }

  /** What a null row at the start leads back to: the entity, or what the entity points at. */
  lemma BackIn(s: Setting, block: Block, walked: Block, b: Binding, capped: set<Read>, since: int, j: Join)
    requires Asked(s, block, walked, b, capped, since)
    requires j in block.joins && j.t in StartOf(s, block) && j.t !in b && j.a in b && LeadsBack(s, j)
    ensures b[j.a].Some? && NodeId(j.a, b[j.a].value) in s.Context()
  {
    hide Alone, Scan, Eval, IsTree, IsWalk, IsMatch, Provenance.OneReadPerLabel, CypherMatch.Source, Plain, CoverJoins, RelOf, InwardRead, ReadFrom;
    var n := Scan(CollectedAll(block.filters), block.Tables(), s.keyOf, s.rels);
    ScanFrom(CollectedAll(block.filters), block.Tables(), s.keyOf, s.rels, j.t);
    var x :| x in CollectedAll(block.filters) && NamedBy(n, s.keyOf, s.rels, j.t, x);
    BackCell(s, block, walked, b, j, x);
    CellIsWarehouse(s, s.m, b, j.a, j.ac);
    assert OnKeys(s.rels, s.keyOf, j);
    if n.via[j.t].None? {
      var entity := NodeId(s.Anchor(), s.key);
      assert (j.t, x.value) == (s.Anchor(), s.key);
      AnchorIsIn(s);
      StartPointsAt(s, j, entity, b[j.a].value);
    } else {
      assert (j.a, x.value) == (s.Anchor(), s.key);
      AnchorIsIn(s);
    }
  }

  /** The equality that named such a null row is read at the column that points there. */
  lemma BackCell(s: Setting, block: Block, walked: Block, b: Binding, j: Join, x: Atom)
    requires s.Sound() && Fits(s, block) && IsWalk(block, walked) && IsMatch(s.m, walked, b)
    requires j in block.joins && j.t !in b && j.a in b && x in CollectedAll(block.filters) && x.table == j.t && x.op == EqOp
    ensures x.col == j.tc && Cell(s.m, b, j.a, j.ac) == Some(x.value)
  {
    hide Alone, Eval, IsWalk, IsMatch, Provenance.OneReadPerLabel, CypherMatch.Source, Plain, OnKeys, IsTree;
    var js := T.JoinsOf(block.joins);
    ReadAtomsHold(s.m, block, walked, b);
    var y := ReadAtom(js, x);
    assert AtomHolds(s.m, b, y);
    assert y.table in b;
    SourceMoved(js, x.table, x.col);
    var i :| 0 <= i < |js| && CypherMatch.Equates(js[i], x.table, x.col);
    assert block.joins[i] in block.joins;
    TargetOnce(block, j);
    assert block.joins[i] == j;
    SourceOfTarget(block, i);
    WalkIsMet(s.m, block, walked, b);
    SourceCell(s.m, block.joins, b, j.a, j.ac);
  }

  /** Every node of a walked match is of the context. */
  lemma WalkedInContext(s: Setting, block: Block, walked: Block, b: Binding, capped: set<Read>, since: int)
    requires Asked(s, block, walked, b, capped, since)
    ensures BoundInContext(s, b)
  {
    hide Alone, Scan, Eval, IsTree, IsWalk, IsMatch, Provenance.OneReadPerLabel, CoverJoins, StartOf, OnKeys, Plain, LeadsBack, Taken, HasKeys;
    var filled, start := Filled(block, b), StartOf(s, block);
    FilledTaken(s.m, block, walked, b);
    forall v | v in start
      ensures InContext(s, filled, v)
    {
      if v in b {
        WalkedStart(s, block, walked, b, capped, since, v);
      }
    }
    forall j | j in block.joins && j.t in start && j.t in filled && filled[j.t].None? && LeadsBack(s, j)
      ensures InContext(s, filled, j.a)
    {
      if j.a in b {
        NullIsUnwalked(s, block, walked, b, j);
        BackIn(s, block, walked, b, capped, since, j);
      }
    }
    assert block.joins[..|block.joins|] == block.joins;
    CoveredInContext(s, s.m, block, filled, start, |block.joins|);
    forall v | v in b && b[v].Some?
      ensures NodeId(v, b[v].value) in s.Context()
    {
      assert v in CoverJoins(block.joins, s.rels, s.rs, s.Anchor(), start) by { CoversAll(s, block, capped, since, v); }
      assert InContext(s, filled, v) && filled[v] == b[v];
    }
  }

  lemma CoversAll(s: Setting, block: Block, capped: set<Read>, since: int, v: Label)
    requires |s.rs| > 0 && Covers(block, s.keyOf, s.rels, s.rs, capped, since, s.Anchor(), s.key) && v in block.Tables()
    ensures v in CoverJoins(block.joins, s.rels, s.rs, s.Anchor(), StartOf(s, block))
  {
    hide Scan, CoverJoins;
  }

  lemma NullIsUnwalked(s: Setting, block: Block, walked: Block, b: Binding, j: Join)
    requires IsTree(block) && IsWalk(block, walked) && IsMatch(s.m, walked, b) && j in block.joins
    requires j.t in Filled(block, b) && Filled(block, b)[j.t].None?
    ensures j.t !in b
  {
    WalkIsMet(s.m, block, walked, b);
  }

  /** So a walked match over memory is one over the warehouse. */
  lemma WalkedInWarehouse(s: Setting, block: Block, walked: Block, b: Binding, capped: set<Read>, since: int)
    requires Asked(s, block, walked, b, capped, since)
    ensures IsMatch(s.w, walked, b)
  {
    hide Alone, Covers, Eval, Fits, Provenance.OneReadPerLabel, Meet, RowOf;
    WalkedInContext(s, block, walked, b, capped, since);
    ContextRowsAlike(s, b);
    forall f | f in walked.filters
      ensures Eval(s.w, b, f) == True
    {
      SameRowsSameTruth(s.m, s.w, b, f);
    }
    forall j | j in walked.joins
      ensures j.a in b && j.t in b && JoinBound(s.w, j, b)
    {
      assert JoinBound(s.m, j, b) && !j.outer;
      MeetsInWarehouse(s, s.m, j, b[j.a], b[j.t].value);
    }
    FactBound(s, walked, b);
  }
}
