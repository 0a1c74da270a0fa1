/** Where the memory route's decision says yes to a question memory does not hold the whole answer of. Each shows
    the block covered, and a binding that matches the warehouse and not the context the yes is for. */
module Escapes {
  import opened Options
  import opened Data
  import opened Template
  import opened Context
  import opened Served
  import opened Provenance
  import opened Answerable
  import opened Answered
  import opened MemoryRoute

  // ---- blocks over one table of facts, filtered by the entity

  /** The facts' filter by the entity, and one more comparison that names no other. */
  lemma ScannedPair(rels: seq<Rel>, keyOf: map<Label, Prop>, tables: set<Label>, l: Label, r: Rel, key: Value, second: Atom)
    requires l in tables && RelOf(rels, l, r.fk) == Some(r) && !(l in keyOf && keyOf[l] == r.fk)
    requires second.table == l && (second.op == EqOp ==> RelOf(rels, l, second.col).None? && !(l in keyOf && keyOf[l] == second.col))
    ensures Scan([Atom(l, r.fk, EqOp, key), second], tables, keyOf, rels) == Named({(r.end, key)}, map[l := Some(r.kind)])
  {
    hide RelOf;
    var first := Atom(l, r.fk, EqOp, key);
    assert [first, second][..1] == [first] && [first][..0] == [];
    assert Scan([first], tables, keyOf, rels) == Named({(r.end, key)}, map[l := Some(r.kind)]);
  }

  /** A block over the facts alone is covered when the template reads them into the entity, uncut, and its second
      comparison is what the decision takes for the window's bound. */
  lemma PairCovers(block: Block, keyOf: map<Label, Prop>, rels: seq<Rel>, rs: seq<Read>, r: Rel, key: Value, second: Atom, capped: set<Read>, since: int)
    requires block.joins == [] && CollectedAll(block.filters) == [Atom(block.fact, r.fk, EqOp, key), second]
    requires RelOf(rels, block.fact, r.fk) == Some(r) && !(block.fact in keyOf && keyOf[block.fact] == r.fk)
    requires second.table == block.fact
    requires second.op == EqOp ==> RelOf(rels, block.fact, second.col).None? && !(block.fact in keyOf && keyOf[block.fact] == second.col)
    requires InwardRead(rs, r.kind, block.fact).Some? && InwardRead(rs, r.kind, block.fact).value !in capped
    requires var window := InwardRead(rs, r.kind, block.fact).value.window;
             window.Some? ==> window.value == second.col && (second.op == GeOp || second.op == GtOp) && second.value >= since
    ensures Covers(block, keyOf, rels, rs, capped, since, r.end, key)
  {
    hide CollectedAll, Scan, InwardRead, RelOf;
    ScannedPair(rels, keyOf, block.Tables(), block.fact, r, key, second);
  }

  lemma CollectedPair(f: Filter, g: Filter, x: Atom, y: Atom)
    requires f.Compare? && f == Compare(x.table, x.col, x.op, x.value, f.columnFirst) && (x.op == EqOp || x.op == GeOp || x.op == GtOp)
    requires g.Compare? && g == Compare(y.table, y.col, y.op, y.value, g.columnFirst) && (y.op == EqOp || y.op == GeOp || y.op == GtOp)
    ensures CollectedAll([f, g]) == [x, y]
  {
    CollectedOfOne(f);
    CollectedOfOne(g);
    assert [f, g][1..] == [g] && [g][1..] == [];
    assert CollectedAll([]) == [];
    assert CollectedAll([g]) == [y];
  }

  /** A binding of a block over one table. */
  lemma OneTable(view: View, block: Block, k: Value)
    requires block.joins == []
    ensures IsMatch(view, block, map[block.fact := Some(k)]) <==>
              NodeId(block.fact, k) in view && forall f :: f in block.filters ==> Eval(view, map[block.fact := Some(k)], f) == True
  {
    hide Eval;
    assert block.Tables() == {block.fact};
  }

  lemma OneTableBinding(view: View, block: Block, b: Binding)
    requires block.joins == [] && IsMatch(view, block, b)
    ensures b[block.fact].Some? && b == map[block.fact := b[block.fact]]
  {
    hide Eval;
    assert block.Tables() == {block.fact};
  }

  // ---- an equality inside an OR

  /** It is collected as if it were a conjunct. For one table of facts filtered by `customer = key OR amount = v`,
      the decision says the facts are covered, while a fact of another customer with that amount matches the
      warehouse and not the context memory holds. */
  lemma OrEscapes(s: Setting, block: Block, fk: Prop, amount: Prop, v: Value, capped: set<Read>, since: int, kind: nat, other: NodeId)
    requires s.Sound() && s.Anchor() != block.fact && block.joins == []
    requires block.filters == [Or(Compare(block.fact, fk, EqOp, s.key, true), Compare(block.fact, amount, EqOp, v, true))]
    requires RelOf(s.rels, block.fact, fk) == Some(Rel(kind, block.fact, s.Anchor(), fk)) && RelOf(s.rels, block.fact, amount).None?
    requires !(block.fact in s.keyOf && s.keyOf[block.fact] in {fk, amount})
    requires InwardRead(s.rs, kind, block.fact).Some? && InwardRead(s.rs, kind, block.fact).value !in capped
    requires InwardRead(s.rs, kind, block.fact).value.window.None?
    requires other.lb == block.fact && other in s.w && amount in s.w[other] && s.w[other][amount] == v
    requires !Points(s.w[other], fk, s.key)
    ensures Covers(block, s.keyOf, s.rels, s.rs, capped, since, s.Anchor(), s.key)
    ensures IsMatch(s.w, block, map[block.fact := Some(other.key)])
    ensures !IsMatch(s.Context(), block, map[block.fact := Some(other.key)])
  {
    hide Alone, Eval, Scan, Covers, InwardRead, RelOf;
    var q := InwardRead(s.rs, kind, block.fact).value;
    HopOfRel(s.rs, q);
    assert other == NodeId(block.fact, other.key);
    if other in s.Context() {
      InwardPoints(s.w, s.lim, s.rs, s.key, q, other);
    }
    OneTable(s.w, block, other.key);
    OneTable(s.Context(), block, other.key);
    OrCollected(block, fk, amount, s.key, v);
    PairCovers(block, s.keyOf, s.rels, s.rs, Rel(kind, block.fact, s.Anchor(), fk), s.key, Atom(block.fact, amount, EqOp, v), capped, since);
    OrHolds(s.w, map[block.fact := Some(other.key)], block.fact, fk, amount, s.key, v);
  }

  lemma OrCollected(block: Block, fk: Prop, amount: Prop, key: Value, v: Value)
    requires block.filters == [Or(Compare(block.fact, fk, EqOp, key, true), Compare(block.fact, amount, EqOp, v, true))]
    ensures CollectedAll(block.filters) == [Atom(block.fact, fk, EqOp, key), Atom(block.fact, amount, EqOp, v)]
  {
    assert block.filters[1..] == [];
    var f := block.filters[0];
    assert Depth(f.l) == 0 && Depth(f.r) == 0 && Depth(f) == 1;
    assert Levels(f, 2) == [];
    assert Levels(f, 1) == Level(f, 1) + Levels(f, 2);
    assert Levels(f, 0) == Level(f, 0) + Levels(f, 1);
    assert Level(f, 1) == [Atom(block.fact, fk, EqOp, key)] + [Atom(block.fact, amount, EqOp, v)];
    assert CollectedAll(block.filters) == Collected(f) + CollectedAll([]);
  }

  lemma OrHolds(view: View, b: Binding, l: Label, fk: Prop, amount: Prop, key: Value, v: Value)
    requires Cell(view, b, l, amount) == Some(v)
    ensures Eval(view, b, Or(Compare(l, fk, EqOp, key, true), Compare(l, amount, EqOp, v, true))) == True
  {
    assert Eval(view, b, Compare(l, amount, EqOp, v, true)) == True;
  }

  // ---- a column memory does not keep

  /** The decision does not look at which columns are kept. The entity's facts filtered by a column memory does not
      keep are covered; one that has the value matches the reader's rows in the warehouse, and no view of the kept
      columns: not the context, and not memory. */
  lemma UnkeptColumnEscapes(s: Setting, whole: View, cols: map<Label, set<Prop>>, block: Block, fk: Prop, c: Prop, v: Value, capped: set<Read>,
                            since: int, kind: nat, fact: NodeId)
    requires s.Sound() && s.Anchor() != block.fact && block.joins == []
    requires Narrowed(s.w, whole, cols) && block.fact in cols && c !in cols[block.fact]
    requires block.filters == [Compare(block.fact, fk, EqOp, s.key, true), Compare(block.fact, c, EqOp, v, true)]
    requires RelOf(s.rels, block.fact, fk) == Some(Rel(kind, block.fact, s.Anchor(), fk)) && RelOf(s.rels, block.fact, c).None?
    requires !(block.fact in s.keyOf && s.keyOf[block.fact] in {fk, c})
    requires InwardRead(s.rs, kind, block.fact).Some? && InwardRead(s.rs, kind, block.fact).value !in capped
    requires InwardRead(s.rs, kind, block.fact).value.window.None?
    requires fact.lb == block.fact && fact in whole && Points(whole[fact], fk, s.key) && Points(whole[fact], c, v)
    ensures Covers(block, s.keyOf, s.rels, s.rs, capped, since, s.Anchor(), s.key)
    ensures IsMatch(whole, block, map[block.fact := Some(fact.key)])
    ensures !IsMatch(s.Context(), block, map[block.fact := Some(fact.key)]) && !IsMatch(s.m, block, map[block.fact := Some(fact.key)])
  {
    hide Alone, Scan, Covers, InwardRead, RelOf, IsMatch, CollectedAll, Provenance.OneReadPerLabel;
    var b := map[block.fact := Some(fact.key)];
    assert fact == NodeId(block.fact, fact.key);
    CollectedPair(block.filters[0], block.filters[1], Atom(block.fact, fk, EqOp, s.key), Atom(block.fact, c, EqOp, v));
    PairCovers(block, s.keyOf, s.rels, s.rs, Rel(kind, block.fact, s.Anchor(), fk), s.key, Atom(block.fact, c, EqOp, v), capped, since);
    OneTable(whole, block, fact.key);
    OneTable(s.Context(), block, fact.key);
    OneTable(s.m, block, fact.key);
    assert Eval(whole, b, block.filters[0]) == True && Eval(whole, b, block.filters[1]) == True;
    ContextColumns(s, whole, cols, b, block.fact, c);
    assert block.filters[1] in block.filters;
  }

  /** No view of the kept columns has a cell of another. */
  lemma ContextColumns(s: Setting, whole: View, cols: map<Label, set<Prop>>, b: Binding, l: Label, c: Prop)
    requires s.Sound() && Narrowed(s.w, whole, cols) && l in cols && c !in cols[l]
    ensures Cell(s.Context(), b, l, c).None? && Cell(s.m, b, l, c).None?
  {
    hide Through, LastHop, Provenance.OneReadPerLabel;
    assert FromView(s.Context(), s.w);
    assert forall id :: id in s.m ==> Data.Within(s.m[id], s.w[id]);
  }

  // ---- another relationship

  /** Two relationships from one table of facts to the entity (a payer and a payee): facts are covered by the one
      they are filtered on, and a join along the other is taken to reach the entity itself. A fact the entity
      pays to another matches the warehouse with the other bound, whom the context does not hold. */
  lemma OtherRelationshipEscapes(s: Setting, block: Block, payer: Rel, payee: Rel, capped: set<Read>, since: int, fact: NodeId, other: NodeId)
    requires s.HoldsContext() && s.Anchor() in s.keyOf && s.Anchor() != block.fact
    requires payer.end == s.Anchor() && payee.end == s.Anchor()
    requires RelOf(s.rels, block.fact, payer.fk) == Some(payer) && RelOf(s.rels, block.fact, payee.fk) == Some(payee)
    requires !(block.fact in s.keyOf && s.keyOf[block.fact] == payer.fk)
    requires block.joins == [Answerable.Join(block.fact, payee.fk, s.Anchor(), s.keyOf[s.Anchor()], false)]
    requires block.filters == [Compare(block.fact, payer.fk, EqOp, s.key, true)]
    requires InwardRead(s.rs, payer.kind, block.fact).Some? && InwardRead(s.rs, payee.kind, block.fact).Some?
    requires InwardRead(s.rs, payer.kind, block.fact).value !in capped && InwardRead(s.rs, payer.kind, block.fact).value.window.None?
    requires forall q :: q in s.rs && q.rel.Some? ==> q.lb != s.Anchor()
    requires fact.lb == block.fact && fact in s.w && Points(s.w[fact], payer.fk, s.key) && Points(s.w[fact], payee.fk, other.key)
    requires other.lb == s.Anchor() && other.key != s.key && other in s.w && Points(s.w[other], s.keyOf[s.Anchor()], other.key)
    ensures Covers(block, s.keyOf, s.rels, s.rs, capped, since, s.Anchor(), s.key)
    ensures IsMatch(s.w, block, map[block.fact := Some(fact.key), s.Anchor() := Some(other.key)])
    ensures !IsMatch(s.Context(), block, map[block.fact := Some(fact.key), s.Anchor() := Some(other.key)])
  {
    hide Alone, Covers, InwardRead, RelOf;
    var l, j := s.Anchor(), block.joins[0];
    var b := map[block.fact := Some(fact.key), l := Some(other.key)];
    assert fact == NodeId(block.fact, fact.key) && other == NodeId(l, other.key);
    assert block.Tables() == {block.fact, l};
    OtherCovers(block, s.keyOf, s.rels, s.rs, payer, payee, s.key, capped, since);
    assert Eval(s.w, b, block.filters[0]) == True;
    assert Meet(s.w, j, b[j.a], other.key);
    if other in s.Context() {
      AnchorOfLabel(s.w, s.lim, s.rs, s.key, other);
    }
    UnheldEnd(s.Context(), block, j, b);
  }

  lemma UnheldEnd(view: View, block: Block, j: Answerable.Join, b: Binding)
    requires j in block.joins && j.t in b && b[j.t].Some? && NodeId(j.t, b[j.t].value) !in view
    ensures !IsMatch(view, block, b)
  {
    hide Eval;
    if j.a in b {
      assert !JoinBound(view, j, b);
    }
  }

  lemma OtherCovers(block: Block, keyOf: map<Label, Prop>, rels: seq<Rel>, rs: seq<Read>, payer: Rel, payee: Rel, key: Value, capped: set<Read>, since: int)
    requires payee.end == payer.end && payer.end != block.fact
    requires RelOf(rels, block.fact, payer.fk) == Some(payer) && RelOf(rels, block.fact, payee.fk) == Some(payee)
    requires !(block.fact in keyOf && keyOf[block.fact] == payer.fk)
    requires |block.joins| == 1 && block.joins[0].a == block.fact && block.joins[0].ac == payee.fk && block.joins[0].t == payer.end
    requires block.filters == [Compare(block.fact, payer.fk, EqOp, key, true)]
    requires InwardRead(rs, payer.kind, block.fact).Some? && InwardRead(rs, payee.kind, block.fact).Some?
    requires InwardRead(rs, payer.kind, block.fact).value !in capped && InwardRead(rs, payer.kind, block.fact).value.window.None?
    ensures Covers(block, keyOf, rels, rs, capped, since, payer.end, key)
  {
    hide Scan, InwardRead, RelOf, CollectedAll, CoverJoins;
    var anchor := payer.end;
    OneScanned(rels, keyOf, block, payer, key);
    var n := Named({(anchor, key)}, map[block.fact := Some(payer.kind)]);
    assert Answerable.Start(n, rs, anchor) == {block.fact};
    assert block.joins == [block.joins[0]];
    OneJoinCovers(block.joins[0], rels, rs, anchor, payee);
    assert block.Tables() == {block.fact, anchor};
  }

  lemma OneScanned(rels: seq<Rel>, keyOf: map<Label, Prop>, block: Block, r: Rel, key: Value)
    requires block.filters == [Compare(block.fact, r.fk, EqOp, key, true)]
    requires RelOf(rels, block.fact, r.fk) == Some(r) && !(block.fact in keyOf && keyOf[block.fact] == r.fk)
    ensures Scan(CollectedAll(block.filters), block.Tables(), keyOf, rels) == Named({(r.end, key)}, map[block.fact := Some(r.kind)])
  {
    hide RelOf;
    var first := Atom(block.fact, r.fk, EqOp, key);
    CollectedOfOne(block.filters[0]);
    assert block.filters[1..] == [] && CollectedAll(block.filters) == [first];
    assert [first][..0] == [];
  }

  lemma OneJoinCovers(j: Answerable.Join, rels: seq<Rel>, rs: seq<Read>, anchor: Label, payee: Rel)
    requires j.t == anchor && RelOf(rels, j.a, j.ac) == Some(payee) && payee.end == anchor && j.a != anchor
    requires InwardRead(rs, payee.kind, j.a).Some?
    ensures CoverJoins([j], rels, rs, anchor, {j.a}) == {j.a, anchor}
  {
    hide RelOf, InwardRead;
    assert [j][..0] == [];
  }

  // ---- a bound written literal-first

  /** `v >= d` bounds the period from above, and the decision reads it as a bound from below. For the entity's facts
      filtered so, with v inside the window, the facts are covered; and the answer is the warehouse's exactly when
      the entity has no fact before the window that the comparison admits. */
  lemma LiteralFirstExactly(s: Setting, block: Block, fk: Prop, d: Prop, op: Op, v: Value, capped: set<Read>, since: int, kind: nat)
    requires s.Sound() && s.Anchor() != block.fact && block.joins == [] && (op == GeOp || op == GtOp)
    requires block.filters == [Compare(block.fact, fk, EqOp, s.key, true), Compare(block.fact, d, op, v, false)]
    requires RelOf(s.rels, block.fact, fk) == Some(Rel(kind, block.fact, s.Anchor(), fk))
    requires !(block.fact in s.keyOf && s.keyOf[block.fact] == fk)
    requires InwardRead(s.rs, kind, block.fact).Some? && InwardRead(s.rs, kind, block.fact).value !in capped
    requires InwardRead(s.rs, kind, block.fact).value.window == Some(d) && InwardRead(s.rs, kind, block.fact).value.rel.value.fk == fk
    requires capped == (set x | x in Alone(s.w, s.lim, s.rs, s.key).log && x.capped :: x.read) && v >= since
    ensures Covers(block, s.keyOf, s.rels, s.rs, capped, since, s.Anchor(), s.key)
    ensures (forall b :: IsMatch(s.Context(), block, b) <==> IsMatch(s.w, block, b)) <==>
              forall id :: id in s.w && Admitted(s.w[id], fk, s.key, d, op, v) && id.lb == block.fact ==> s.w[id][d] >= s.lim.since
  {
    hide Alone, Scan, Covers, InwardRead, RelOf, IsMatch, CollectedAll, Provenance.OneReadPerLabel, Eval;
    CollectedPair(block.filters[0], block.filters[1], Atom(block.fact, fk, EqOp, s.key), Atom(block.fact, d, op, v));
    PairCovers(block, s.keyOf, s.rels, s.rs, Rel(kind, block.fact, s.Anchor(), fk), s.key, Atom(block.fact, d, op, v), capped, since);
    var q := InwardRead(s.rs, kind, block.fact).value;
    forall id | id in s.w && id.lb == block.fact
      ensures IsMatch(s.w, block, map[block.fact := Some(id.key)]) <==> Admitted(s.w[id], fk, s.key, d, op, v)
      ensures IsMatch(s.Context(), block, map[block.fact := Some(id.key)]) <==> Admitted(s.w[id], fk, s.key, d, op, v) && s.w[id][d] >= s.lim.since
    {
      LiteralFirstMatch(s, block, fk, d, op, v, capped, q, id);
    }
    SameByFacts(s, block);
    if forall b :: IsMatch(s.Context(), block, b) <==> IsMatch(s.w, block, b) {
      forall id | id in s.w && Admitted(s.w[id], fk, s.key, d, op, v) && id.lb == block.fact
        ensures s.w[id][d] >= s.lim.since
      {
        assert IsMatch(s.Context(), block, map[block.fact := Some(id.key)]) <==> IsMatch(s.w, block, map[block.fact := Some(id.key)]);
      }
    }
  }

  predicate Admitted(row: Row, fk: Prop, key: Value, d: Prop, op: Op, v: Value) {
    Points(row, fk, key) && d in row && Answerable.Holds(op, v, row[d])
  }

  lemma LiteralFirstMatch(s: Setting, block: Block, fk: Prop, d: Prop, op: Op, v: Value, capped: set<Read>, q: Read, id: NodeId)
    requires s.Sound() && s.Anchor() != block.fact && block.joins == []
    requires block.filters == [Compare(block.fact, fk, EqOp, s.key, true), Compare(block.fact, d, op, v, false)]
    requires q in s.rs && q.inward && q.lb == block.fact && q.rel.Some? && q.rel.value.fk == fk && q.window == Some(d) && q !in capped
    requires capped == set x | x in Alone(s.w, s.lim, s.rs, s.key).log && x.capped :: x.read
    requires id in s.w && id.lb == block.fact
    ensures IsMatch(s.w, block, map[block.fact := Some(id.key)]) <==> Admitted(s.w[id], fk, s.key, d, op, v)
    ensures IsMatch(s.Context(), block, map[block.fact := Some(id.key)]) <==> Admitted(s.w[id], fk, s.key, d, op, v) && s.w[id][d] >= s.lim.since
  {
    hide Alone, IsMatch, Provenance.OneReadPerLabel;
    HopOfRel(s.rs, q);
    assert id == NodeId(block.fact, id.key);
    OneTable(s.w, block, id.key);
    OneTable(s.Context(), block, id.key);
    TwoFilters(s.w, block, fk, s.key, d, op, v, id);
    if id in s.Context() {
      InwardPoints(s.w, s.lim, s.rs, s.key, q, id);
      ContextRow(s, id);
      TwoFilters(s.Context(), block, fk, s.key, d, op, v, id);
    } else if Admitted(s.w[id], fk, s.key, d, op, v) && s.w[id][d] >= s.lim.since {
      InwardIsIn(s, q, id, capped);
    }
  }

  lemma ContextRow(s: Setting, id: NodeId)
    requires s.Sound() && id in s.Context()
    ensures id in s.w && s.Context()[id] == s.w[id]
  {
    hide Through, LastHop, Provenance.OneReadPerLabel;
    assert FromView(s.Context(), s.w);
  }

  lemma TwoFilters(view: View, block: Block, fk: Prop, key: Value, d: Prop, op: Op, v: Value, id: NodeId)
    requires block.filters == [Compare(block.fact, fk, EqOp, key, true), Compare(block.fact, d, op, v, false)]
    requires id in view && id == NodeId(block.fact, id.key)
    ensures (forall f :: f in block.filters ==> Eval(view, map[block.fact := Some(id.key)], f) == True) <==> Admitted(view[id], fk, key, d, op, v)
  {
    assert block.filters[0] in block.filters && block.filters[1] in block.filters;
  }

  /** Over one table, matching alike is matching alike fact by fact. */
  lemma SameByFacts(s: Setting, block: Block)
    requires s.Sound() && block.joins == []
    ensures (forall b :: IsMatch(s.Context(), block, b) <==> IsMatch(s.w, block, b)) <==>
              forall id :: id in s.w && id.lb == block.fact ==>
                (IsMatch(s.Context(), block, map[block.fact := Some(id.key)]) <==> IsMatch(s.w, block, map[block.fact := Some(id.key)]))
  {
    hide Alone, IsMatch, Provenance.OneReadPerLabel;
    if forall id :: id in s.w && id.lb == block.fact ==>
         (IsMatch(s.Context(), block, map[block.fact := Some(id.key)]) <==> IsMatch(s.w, block, map[block.fact := Some(id.key)])) {
      forall b
        ensures IsMatch(s.Context(), block, b) <==> IsMatch(s.w, block, b)
      {
        if IsMatch(s.Context(), block, b) {
          BoundFact(s, s.Context(), block, b);
        }
        if IsMatch(s.w, block, b) {
          BoundFact(s, s.w, block, b);
        }
      }
    }
  }

  lemma BoundFact(s: Setting, view: View, block: Block, b: Binding)
    requires s.Sound() && block.joins == [] && IsMatch(view, block, b) && (view == s.Context() || view == s.w)
    ensures b[block.fact].Some? && b == map[block.fact := Some(b[block.fact].value)]
    ensures NodeId(block.fact, b[block.fact].value) in s.w && NodeId(block.fact, b[block.fact].value).lb == block.fact
  {
    hide Alone, Eval, Provenance.OneReadPerLabel;
    OneTableBinding(view, block, b);
    if view == s.Context() {
      ContextRow(s, NodeId(block.fact, b[block.fact].value));
    }
  }
}
