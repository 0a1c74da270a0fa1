/** When memory owes a yes: the block names one entity, each table of facts it names by the entity is read into it uncut and
    from inside the window, and every table is reached from the named ones, join after join, along what the template
    reads. The decision says yes exactly then. */
module Owed {
  import opened Options
  import opened Data
  import opened Template
  import opened Answerable

  // ---- the entities named

  /** The relationship a column makes: the last of the model's it is the column of. */
  ghost predicate LastRel(rels: seq<Rel>, start: Label, fk: Prop, r: Rel) {
    exists i :: RelAt(rels, start, fk, r, i)
  }

  ghost predicate RelAt(rels: seq<Rel>, start: Label, fk: Prop, r: Rel, i: nat) {
    && i < |rels| && rels[i] == r && r.start == start && r.fk == fk
    && forall k :: i < k < |rels| ==> !(rels[k].start == start && rels[k].fk == fk)
  }

  lemma {:induction false} RelOfIs(rels: seq<Rel>, start: Label, fk: Prop, r: Rel)
    ensures RelOf(rels, start, fk) == Some(r) <==> LastRel(rels, start, fk, r)
  {
    if rels != [] {
      var last := rels[|rels| - 1];
      if last.start == start && last.fk == fk {
        assert RelAt(rels, start, fk, last, |rels| - 1);
      } else {
        var earlier := rels[..|rels| - 1];
        RelOfIs(earlier, start, fk, r);
        if i: nat :| RelAt(rels, start, fk, r, i) {
          assert RelAt(earlier, start, fk, r, i);
        }
        if i: nat :| RelAt(earlier, start, fk, r, i) {
          assert RelAt(rels, start, fk, r, i);
        }
      }
    }
  }

  /** What the decision looks names up in: the block's tables, their keys and the model's relationships. */
  datatype Names = Names(tables: set<Label>, keyOf: map<Label, Prop>, rels: seq<Rel>)

  predicate OnKey(d: Names, x: Atom) {
    x.table in d.keyOf && d.keyOf[x.table] == x.col
  }

  /** An equality names an entity: its own table's, on its key; another's, on a column that makes a relationship to it. */
  ghost predicate NamesOne(d: Names, x: Atom, l: Label, key: Value) {
    && x.op == EqOp && x.table in d.tables && key == x.value
    && if OnKey(d, x) then l == x.table else exists r :: LastRel(d.rels, x.table, x.col, r) && l == r.end
  }

  ghost predicate NamesAny(d: Names, x: Atom) {
    exists l :: NamesOne(d, x, l, x.value)
  }

  /** The last of the equalities on a table that name an entity. */
  ghost predicate LastNaming(d: Names, atoms: seq<Atom>, i: nat, v: Label) {
    && i < |atoms| && atoms[i].table == v && NamesAny(d, atoms[i])
    && forall k :: i < k < |atoms| && atoms[k].table == v ==> !NamesAny(d, atoms[k])
  }

  ghost predicate NamedKey(d: Names, atoms: seq<Atom>, v: Label, i: nat) {
    LastNaming(d, atoms, i, v) && OnKey(d, atoms[i])
  }

  ghost predicate NamedBy(d: Names, atoms: seq<Atom>, v: Label, i: nat, r: Rel) {
    LastNaming(d, atoms, i, v) && !OnKey(d, atoms[i]) && LastRel(d.rels, v, atoms[i].col, r)
  }

  lemma NamesIs(d: Names, x: Atom, l: Label, key: Value)
    ensures NamesOne(d, x, l, key) <==>
              && x.op == EqOp && x.table in d.tables && key == x.value
              && if OnKey(d, x) then l == x.table
                 else RelOf(d.rels, x.table, x.col).Some? && l == RelOf(d.rels, x.table, x.col).value.end
  {
    var r := RelOf(d.rels, x.table, x.col);
    hide RelOf, LastRel;
    if r.Some? {
      RelOfIs(d.rels, x.table, x.col, r.value);
    }
    if !OnKey(d, x) {
      if q :| LastRel(d.rels, x.table, x.col, q) && l == q.end {
        RelOfIs(d.rels, x.table, x.col, q);
      }
    }
  }

  lemma AnyIs(d: Names, x: Atom)
    ensures NamesAny(d, x) <==> x.op == EqOp && x.table in d.tables && (OnKey(d, x) || RelOf(d.rels, x.table, x.col).Some?)
  {
    hide RelOf, NamesOne;
    forall l
      ensures NamesOne(d, x, l, x.value) <==>
                && x.op == EqOp && x.table in d.tables
                && if OnKey(d, x) then l == x.table
                   else RelOf(d.rels, x.table, x.col).Some? && l == RelOf(d.rels, x.table, x.col).value.end
    {
      NamesIs(d, x, l, x.value);
    }
    if OnKey(d, x) {
      assert x.op == EqOp && x.table in d.tables ==> NamesOne(d, x, x.table, x.value);
    } else if RelOf(d.rels, x.table, x.col).Some? {
      assert x.op == EqOp && x.table in d.tables ==> NamesOne(d, x, RelOf(d.rels, x.table, x.col).value.end, x.value);
    }
  }

  function Scanned(d: Names, atoms: seq<Atom>): Named {
    Scan(atoms, d.tables, d.keyOf, d.rels)
  }

  lemma {:induction false} AnchorsAre(d: Names, atoms: seq<Atom>, l: Label, key: Value)
    ensures (l, key) in Scanned(d, atoms).anchors <==> exists x :: x in atoms && NamesOne(d, x, l, key)
    decreases |atoms|
  {
    hide RelOf, NamesOne;
    if atoms != [] {
      var earlier, last := atoms[..|atoms| - 1], atoms[|atoms| - 1];
      AnchorsAre(d, earlier, l, key);
      NamesIs(d, last, l, key);
      assert atoms == earlier + [last];
    }
  }

  /** How a table was last named: on its own key, or by the relationship of a column. */
  ghost predicate NamedThus(d: Names, atoms: seq<Atom>, v: Label, how: Option<nat>) {
    match how
    case None => exists i :: NamedKey(d, atoms, v, i)
    case Some(kind) => exists i, r :: NamedBy(d, atoms, v, i, r) && r.kind == kind
  }

  lemma {:induction false} ViaIs(d: Names, atoms: seq<Atom>, v: Label, how: Option<nat>)
    ensures v in Scanned(d, atoms).via && Scanned(d, atoms).via[v] == how <==> NamedThus(d, atoms, v, how)
    decreases |atoms|
  {
    hide RelOf, NamesAny, LastRel, NamedThus;
    if atoms == [] {
      NoneNamed(d, v, how);
    } else {
      var earlier, last := atoms[..|atoms| - 1], atoms[|atoms| - 1];
      AnyIs(d, last);
      if last.table == v && NamesAny(d, last) {
        NamedLast(d, atoms, v, how);
      } else {
        ViaIs(d, earlier, v, how);
        NamedEarlier(d, atoms, v, how);
      }
    }
  }

  lemma NoneNamed(d: Names, v: Label, how: Option<nat>)
    ensures !NamedThus(d, [], v, how)
  {
  }

  lemma NamedLast(d: Names, atoms: seq<Atom>, v: Label, how: Option<nat>)
    requires atoms != [] && atoms[|atoms| - 1].table == v && NamesAny(d, atoms[|atoms| - 1])
    ensures NamedThus(d, atoms, v, how) <==>
              var x := atoms[|atoms| - 1];
              if OnKey(d, x) then how == None
              else RelOf(d.rels, v, x.col).Some? && how == Some(RelOf(d.rels, v, x.col).value.kind)
  {
    hide RelOf, NamesAny, LastRel;
    var n := |atoms| - 1;
    var x := atoms[n];
    assert LastNaming(d, atoms, n, v);
    assert forall i: nat :: LastNaming(d, atoms, i, v) ==> i == n;
    if OnKey(d, x) {
      assert NamedKey(d, atoms, v, n);
    } else {
      AnyIs(d, x);
      var r := RelOf(d.rels, v, x.col).value;
      RelOfIs(d.rels, v, x.col, r);
      assert NamedBy(d, atoms, v, n, r);
      forall q | LastRel(d.rels, v, x.col, q)
        ensures q == r
      {
        RelOfIs(d.rels, v, x.col, q);
      }
    }
  }

  lemma NamedEarlier(d: Names, atoms: seq<Atom>, v: Label, how: Option<nat>)
    requires atoms != [] && !(atoms[|atoms| - 1].table == v && NamesAny(d, atoms[|atoms| - 1]))
    ensures NamedThus(d, atoms, v, how) <==> NamedThus(d, atoms[..|atoms| - 1], v, how)
  {
    hide NamesAny, LastRel;
    var earlier := atoms[..|atoms| - 1];
    forall i: nat
      ensures LastNaming(d, atoms, i, v) <==> LastNaming(d, earlier, i, v)
    {
    }
    match how
    case None =>
      assert forall i: nat :: NamedKey(d, atoms, v, i) <==> NamedKey(d, earlier, v, i);
    case Some(kind) =>
      assert forall i: nat, r :: NamedBy(d, atoms, v, i, r) <==> NamedBy(d, earlier, v, i, r);
  }

  // ---- the named facts' reads

  /** The last lower bound on a column. */
  ghost predicate LastLower(atoms: seq<Atom>, t: Label, c: Prop, i: nat) {
    && i < |atoms| && IsLower(atoms[i], t, c)
    && forall k :: i < k < |atoms| ==> !IsLower(atoms[k], t, c)
  }

  predicate IsLower(x: Atom, t: Label, c: Prop) {
    (x.op == GeOp || x.op == GtOp) && x.table == t && x.col == c
  }

  lemma {:induction false} LowerBoundIs(atoms: seq<Atom>, t: Label, c: Prop, low: Value)
    ensures LowerBound(atoms, t, c) == Some(low) <==> exists i: nat :: LastLower(atoms, t, c, i) && atoms[i].value == low
    decreases |atoms|
  {
    if atoms != [] {
      var earlier := atoms[..|atoms| - 1];
      if IsLower(atoms[|atoms| - 1], t, c) {
        assert LastLower(atoms, t, c, |atoms| - 1);
      } else {
        LowerBoundIs(earlier, t, c, low);
        assert forall i: nat :: LastLower(atoms, t, c, i) <==> LastLower(earlier, t, c, i);
      }
    }
  }

  /** The facts a table holds, named by a relationship, are read into the entity by `q`. */
  ghost predicate ReadInto(d: Names, atoms: seq<Atom>, rs: seq<Read>, v: Label, q: Read) {
    && q in rs && q.inward && q.lb == v && q.rel.Some?
    && exists i, r :: NamedBy(d, atoms, v, i, r) && r.kind == q.rel.value.kind
  }

  ghost predicate Bounded(atoms: seq<Atom>, t: Label, c: Prop, since: int) {
    exists i: nat :: LastLower(atoms, t, c, i) && atoms[i].value >= since
  }

  /** Uncut, and, when windowed, bounded from inside the window. */
  ghost predicate ReadWhole(atoms: seq<Atom>, capped: set<Read>, since: int, v: Label, q: Read) {
    && q !in capped
    && (q.window.Some? ==> Bounded(atoms, v, q.window.value, since))
  }

  /** The entity's own table, or facts read into it. */
  ghost predicate FromStart(d: Names, atoms: seq<Atom>, rs: seq<Read>, anchor: Label, v: Label) {
    (v == anchor && exists i :: NamedKey(d, atoms, v, i)) || exists q :: ReadInto(d, atoms, rs, v, q)
  }

  // ---- join after join

  ghost predicate ReadsFrom(rs: seq<Read>, r: Rel, l: Label) {
    exists q :: q in rs && q.rel.Some? && q.rel.value.kind == r.kind && q.via == l
  }

  ghost predicate ReadsIn(rs: seq<Read>, r: Rel, l: Label) {
    exists q :: q in rs && q.inward && q.lb == l && q.rel.Some? && q.rel.value.kind == r.kind
  }

  /** A join leads from one of its tables to the other: to the end of the relationship its column makes, which the template
      reads from there; or from facts read into the entity to the entity itself. */
  ghost predicate Leads(d: Names, rs: seq<Read>, anchor: Label, j: Join, from: Label, to: Label) {
    || (j.a == from && j.t == to && exists r :: LastRel(d.rels, from, j.ac, r) && r.end == to && ReadsFrom(rs, r, from))
    || (j.t == from && j.a == to && exists r :: LastRel(d.rels, from, j.tc, r) && r.end == to && ReadsFrom(rs, r, from))
    || (j.a == from && j.t == to == anchor && exists r :: LastRel(d.rels, from, j.ac, r) && r.end == anchor && ReadsIn(rs, r, from))
  }

  /** From a start, along joins one after another in the block's order. */
  ghost predicate Chain(d: Names, rs: seq<Read>, anchor: Label, joins: seq<Join>, start: set<Label>, ts: seq<Label>, at: seq<nat>) {
    && |ts| == |at| + 1 && ts[0] in start
    && (forall k :: 0 <= k < |at| ==> at[k] < |joins| && Leads(d, rs, anchor, joins[at[k]], ts[k], ts[k + 1]))
    && forall k :: 0 <= k < |at| - 1 ==> at[k] < at[k + 1]
  }

  ghost predicate Reached(d: Names, rs: seq<Read>, anchor: Label, joins: seq<Join>, start: set<Label>, v: Label) {
    exists ts, at :: Chain(d, rs, anchor, joins, start, ts, at) && ts[|at|] == v
  }

  lemma ReadsFromIs(rs: seq<Read>, r: Rel, l: Label)
    ensures ReadFrom(rs, r.kind, l) <==> ReadsFrom(rs, r, l)
  {
  }

  lemma ReadsInIs(rs: seq<Read>, r: Rel, l: Label)
    ensures InwardRead(rs, r.kind, l).Some? <==> ReadsIn(rs, r, l)
  {
  }

  lemma LeadsIs(d: Names, rs: seq<Read>, anchor: Label, j: Join, from: Label, to: Label)
    ensures var out, back := RelOf(d.rels, j.a, j.ac), RelOf(d.rels, j.t, j.tc);
            Leads(d, rs, anchor, j, from, to) <==>
              || (j.a == from && j.t == to && out.Some? && out.value.end == to && ReadFrom(rs, out.value.kind, j.a))
              || (j.t == from && j.a == to && back.Some? && back.value.end == to && ReadFrom(rs, back.value.kind, j.t))
              || (j.a == from && j.t == to == anchor && out.Some? && out.value.end == anchor && InwardRead(rs, out.value.kind, j.a).Some?)
  {
    hide RelOf, LastRel, ReadFrom, InwardRead, ReadsFrom, ReadsIn;
    var out, back := RelOf(d.rels, j.a, j.ac), RelOf(d.rels, j.t, j.tc);
    forall r
      ensures out == Some(r) <==> LastRel(d.rels, j.a, j.ac, r)
      ensures ReadFrom(rs, r.kind, j.a) <==> ReadsFrom(rs, r, j.a)
      ensures InwardRead(rs, r.kind, j.a).Some? <==> ReadsIn(rs, r, j.a)
    {
      RelOfIs(d.rels, j.a, j.ac, r);
      ReadsFromIs(rs, r, j.a);
      ReadsInIs(rs, r, j.a);
    }
    forall r
      ensures back == Some(r) <==> LastRel(d.rels, j.t, j.tc, r)
      ensures ReadFrom(rs, r.kind, j.t) <==> ReadsFrom(rs, r, j.t)
    {
      RelOfIs(d.rels, j.t, j.tc, r);
      ReadsFromIs(rs, r, j.t);
    }
  }

  /** A join adds to the covered tables exactly those it leads to from them. */
  lemma JoinAdds(d: Names, rs: seq<Read>, anchor: Label, j: Join, covered: set<Label>, v: Label)
    ensures v in CoverJoin(j, d.rels, rs, anchor, covered) <==> v in covered || exists from :: from in covered && Leads(d, rs, anchor, j, from, v)
  {
    hide RelOf, ReadFrom, InwardRead, Leads;
    LeadsIs(d, rs, anchor, j, j.a, v);
    LeadsIs(d, rs, anchor, j, j.t, v);
    if from :| from in covered && Leads(d, rs, anchor, j, from, v) {
      LeadsIs(d, rs, anchor, j, from, v);
    }
  }

  lemma {:induction false} ReachedIs(d: Names, rs: seq<Read>, anchor: Label, joins: seq<Join>, start: set<Label>, v: Label)
    ensures v in CoverJoins(joins, d.rels, rs, anchor, start) <==> Reached(d, rs, anchor, joins, start, v)
    decreases |joins|
  {
    hide CoverJoin, Leads, Reached;
    if joins == [] {
      ReachedByNone(d, rs, anchor, start, v);
    } else {
      var earlier, last := joins[..|joins| - 1], joins[|joins| - 1];
      ReachedIs(d, rs, anchor, earlier, start, v);
      JoinAdds(d, rs, anchor, last, CoverJoins(earlier, d.rels, rs, anchor, start), v);
      ReachedMore(d, rs, anchor, joins, start, v);
      if from :| from in CoverJoins(earlier, d.rels, rs, anchor, start) && Leads(d, rs, anchor, last, from, v) {
        ReachedIs(d, rs, anchor, earlier, start, from);
        assert LedFrom(d, rs, anchor, joins, start, from, v);
      }
      if from :| LedFrom(d, rs, anchor, joins, start, from, v) {
        ReachedIs(d, rs, anchor, earlier, start, from);
      }
    }
  }

  lemma ChainJoins(d: Names, rs: seq<Read>, anchor: Label, joins: seq<Join>, start: set<Label>, ts: seq<Label>, at: seq<nat>)
    requires Chain(d, rs, anchor, joins, start, ts, at)
    ensures at != [] ==> |joins| > 0
  {
    if at != [] {
      assert at[0] < |joins|;
    }
  }

  lemma ReachedByNone(d: Names, rs: seq<Read>, anchor: Label, start: set<Label>, v: Label)
    ensures Reached(d, rs, anchor, [], start, v) <==> v in start
  {
    if v in start {
      var at: seq<nat> := [];
      assert Chain(d, rs, anchor, [], start, [v], at) && [v][|at|] == v;
    }
    if ts, at :| Chain(d, rs, anchor, [], start, ts, at) && ts[|at|] == v {
      ChainJoins(d, rs, anchor, [], start, ts, at);
    }
  }

  /** Reached without the last join, and led from by it. */
  ghost predicate LedFrom(d: Names, rs: seq<Read>, anchor: Label, joins: seq<Join>, start: set<Label>, from: Label, v: Label)
    requires joins != []
  {
    Reached(d, rs, anchor, joins[..|joins| - 1], start, from) && Leads(d, rs, anchor, joins[|joins| - 1], from, v)
  }

  lemma ReachedMore(d: Names, rs: seq<Read>, anchor: Label, joins: seq<Join>, start: set<Label>, v: Label)
    requires joins != []
    ensures Reached(d, rs, anchor, joins, start, v) <==>
              || Reached(d, rs, anchor, joins[..|joins| - 1], start, v)
              || exists from :: LedFrom(d, rs, anchor, joins, start, from, v)
  {
    hide Leads;
    var n := |joins| - 1;
    var earlier := joins[..n];
    if Reached(d, rs, anchor, joins, start, v) {
      var ts, at :| Chain(d, rs, anchor, joins, start, ts, at) && ts[|at|] == v;
      ChainLess(d, rs, anchor, joins, start, ts, at);
    }
    if ts, at :| Chain(d, rs, anchor, earlier, start, ts, at) && ts[|at|] == v {
      assert Chain(d, rs, anchor, joins, start, ts, at);
    }
    if from :| LedFrom(d, rs, anchor, joins, start, from, v) {
      var ts, at :| Chain(d, rs, anchor, earlier, start, ts, at) && ts[|at|] == from;
      ChainMore(d, rs, anchor, joins, start, ts, at, v);
    }
  }

  lemma ChainMore(d: Names, rs: seq<Read>, anchor: Label, joins: seq<Join>, start: set<Label>, ts: seq<Label>, at: seq<nat>, v: Label)
    requires joins != [] && Chain(d, rs, anchor, joins[..|joins| - 1], start, ts, at)
    requires Leads(d, rs, anchor, joins[|joins| - 1], ts[|at|], v)
    ensures Chain(d, rs, anchor, joins, start, ts + [v], at + [|joins| - 1])
  {
    hide Leads;
    var ts', at' := ts + [v], at + [|joins| - 1];
    forall k | 0 <= k < |at'|
      ensures at'[k] < |joins| && Leads(d, rs, anchor, joins[at'[k]], ts'[k], ts'[k + 1])
    {
      if k < |at| {
        assert joins[..|joins| - 1][at[k]] == joins[at'[k]];
      }
    }
  }

  lemma ChainLess(d: Names, rs: seq<Read>, anchor: Label, joins: seq<Join>, start: set<Label>, ts: seq<Label>, at: seq<nat>)
    requires joins != [] && Chain(d, rs, anchor, joins, start, ts, at)
    ensures Reached(d, rs, anchor, joins[..|joins| - 1], start, ts[|at|])
            || exists from :: LedFrom(d, rs, anchor, joins, start, from, ts[|at|])
  {
    hide Leads;
    var n := |joins| - 1;
    Ascending(at);
    if at != [] && at[|at| - 1] == n {
      var m := |at| - 1;
      assert Chain(d, rs, anchor, joins[..n], start, ts[..m + 1], at[..m]);
      assert ts[..m + 1][m] == ts[m];
      assert LedFrom(d, rs, anchor, joins, start, ts[m], ts[m + 1]);
    } else {
      assert Chain(d, rs, anchor, joins[..n], start, ts, at);
    }
  }

  lemma {:induction false} Ascending(at: seq<nat>)
    requires forall k :: 0 <= k < |at| - 1 ==> at[k] < at[k + 1]
    ensures forall k :: 0 <= k < |at| - 1 ==> at[k] < at[|at| - 1]
  {
    if |at| > 1 {
      var earlier := at[..|at| - 1];
      assert forall k :: 0 <= k < |earlier| - 1 ==> earlier[k] < earlier[k + 1];
      Ascending(earlier);
      assert at[|at| - 2] < at[(|at| - 2) + 1];
    }
  }

  // ---- the decision

  /** The block is about the one entity (anchor, key). */
  ghost predicate AboutOne(d: Names, atoms: seq<Atom>, anchor: Label, key: Value) {
    && (exists x :: x in atoms && NamesOne(d, x, anchor, key))
    && forall x, l, k :: x in atoms && NamesOne(d, x, l, k) ==> l == anchor && k == key
  }

  ghost predicate Owes(block: Block, keyOf: map<Label, Prop>, rels: seq<Rel>, rs: seq<Read>, capped: set<Read>, since: int,
                       anchor: Label, key: Value) {
    var atoms, d := CollectedAll(block.filters), Names(block.Tables(), keyOf, rels);
    && AboutOne(d, atoms, anchor, key)
    && (forall v, q :: ReadInto(d, atoms, rs, v, q) ==> ReadWhole(atoms, capped, since, v, q))
    && exists start :: IsStart(d, atoms, rs, anchor, start) && forall v :: v in block.Tables() ==> Reached(d, rs, anchor, block.joins, start, v)
  }

  ghost predicate IsStart(d: Names, atoms: seq<Atom>, rs: seq<Read>, anchor: Label, start: set<Label>) {
    forall v :: v in start <==> FromStart(d, atoms, rs, anchor, v)
  }

  /** Each type is read inward once. */
  ghost predicate InwardOnce(rs: seq<Read>) {
    forall p, q :: p in rs && q in rs && p.inward && q.inward && p.rel.Some? && q.rel.Some? && p.rel.value.kind == q.rel.value.kind ==> p == q
  }

  lemma AboutOneIs(d: Names, atoms: seq<Atom>, anchor: Label, key: Value)
    ensures Scanned(d, atoms).anchors == {(anchor, key)} <==> AboutOne(d, atoms, anchor, key)
  {
    hide NamesOne, Scan;
    forall l: Label, k: Value
      ensures (l, k) in Scanned(d, atoms).anchors <==> exists x :: x in atoms && NamesOne(d, x, l, k)
    {
      AnchorsAre(d, atoms, l, k);
    }
    if AboutOne(d, atoms, anchor, key) {
      forall e | e in Scanned(d, atoms).anchors
        ensures e == (anchor, key)
      {
        assert e == (e.0, e.1);
      }
    }
    if Scanned(d, atoms).anchors == {(anchor, key)} {
      forall x, l, k | x in atoms && NamesOne(d, x, l, k)
        ensures l == anchor && k == key
      {
        assert (l, k) in Scanned(d, atoms).anchors;
      }
      assert (anchor, key) in Scanned(d, atoms).anchors;
    }
  }

  lemma ReadIntoIs(d: Names, atoms: seq<Atom>, rs: seq<Read>, v: Label, q: Read)
    requires InwardOnce(rs)
    ensures ReadInto(d, atoms, rs, v, q) <==>
              var n := Scanned(d, atoms);
              v in n.via && n.via[v].Some? && InwardRead(rs, n.via[v].value, v) == Some(q)
  {
    hide Scan, NamedBy;
    var n := Scanned(d, atoms);
    if ReadInto(d, atoms, rs, v, q) {
      ViaIs(d, atoms, v, Some(q.rel.value.kind));
    }
    if v in n.via && n.via[v].Some? {
      ViaIs(d, atoms, v, n.via[v]);
    }
  }

  lemma StartIs(d: Names, atoms: seq<Atom>, rs: seq<Read>, anchor: Label)
    requires InwardOnce(rs)
    ensures IsStart(d, atoms, rs, anchor, Answerable.Start(Scanned(d, atoms), rs, anchor))
  {
    hide Scan, ReadInto, InwardRead, NamedKey;
    var n := Scanned(d, atoms);
    forall v
      ensures v in Answerable.Start(n, rs, anchor) <==> FromStart(d, atoms, rs, anchor, v)
    {
      ViaIs(d, atoms, v, None);
      forall q
        ensures ReadInto(d, atoms, rs, v, q) <==> v in n.via && n.via[v].Some? && InwardRead(rs, n.via[v].value, v) == Some(q)
      {
        ReadIntoIs(d, atoms, rs, v, q);
      }
      if v in n.via && n.via[v].Some? && InwardRead(rs, n.via[v].value, v).Some? {
        assert ReadInto(d, atoms, rs, v, InwardRead(rs, n.via[v].value, v).value);
      }
    }
  }

  lemma WholeIs(d: Names, atoms: seq<Atom>, rs: seq<Read>, capped: set<Read>, since: int, v: Label)
    requires InwardOnce(rs)
    ensures WholePeriod(Scanned(d, atoms), rs, atoms, capped, since, v) <==>
              forall q :: ReadInto(d, atoms, rs, v, q) ==> ReadWhole(atoms, capped, since, v, q)
  {
    hide Scan, ReadInto, InwardRead, LowerBound, Bounded;
    var n := Scanned(d, atoms);
    forall q
      ensures ReadInto(d, atoms, rs, v, q) <==> v in n.via && n.via[v].Some? && InwardRead(rs, n.via[v].value, v) == Some(q)
    {
      ReadIntoIs(d, atoms, rs, v, q);
    }
    forall q: Read | q.window.Some?
      ensures (LowerBound(atoms, v, q.window.value).Some? && LowerBound(atoms, v, q.window.value).value >= since)
              <==> Bounded(atoms, v, q.window.value, since)
    {
      BoundFrom(atoms, v, q.window.value, since);
    }
  }

  lemma BoundFrom(atoms: seq<Atom>, t: Label, c: Prop, since: int)
    ensures (LowerBound(atoms, t, c).Some? && LowerBound(atoms, t, c).value >= since)
            <==> Bounded(atoms, t, c, since)
  {
    hide LowerBound;
    if LowerBound(atoms, t, c).Some? {
      LowerBoundIs(atoms, t, c, LowerBound(atoms, t, c).value);
    }
    if i: nat :| LastLower(atoms, t, c, i) && atoms[i].value >= since {
      LowerBoundIs(atoms, t, c, atoms[i].value);
    }
  }

  /** The decision covers the block exactly when memory owes it. */
  lemma CoversExactly(block: Block, keyOf: map<Label, Prop>, rels: seq<Rel>, rs: seq<Read>, capped: set<Read>, since: int,
                      anchor: Label, key: Value)
    requires InwardOnce(rs)
    ensures Covers(block, keyOf, rels, rs, capped, since, anchor, key) <==> Owes(block, keyOf, rels, rs, capped, since, anchor, key)
  {
    hide Scan, ReadInto, WholePeriod, AboutOne, Reached, CoverJoins, CollectedAll;
    var atoms, d := CollectedAll(block.filters), Names(block.Tables(), keyOf, rels);
    var n := Scanned(d, atoms);
    var start := Answerable.Start(n, rs, anchor);
    AboutOneIs(d, atoms, anchor, key);
    StartIs(d, atoms, rs, anchor);
    forall v
      ensures v in CoverJoins(block.joins, rels, rs, anchor, start) <==> Reached(d, rs, anchor, block.joins, start, v)
    {
      ReachedIs(d, rs, anchor, block.joins, start, v);
    }
    assert forall other :: IsStart(d, atoms, rs, anchor, other) ==> other == start;
    AllWhole(d, atoms, rs, capped, since, anchor);
  }

  lemma AllWhole(d: Names, atoms: seq<Atom>, rs: seq<Read>, capped: set<Read>, since: int, anchor: Label)
    requires InwardOnce(rs)
    ensures (forall v :: v in Answerable.Start(Scanned(d, atoms), rs, anchor) ==> WholePeriod(Scanned(d, atoms), rs, atoms, capped, since, v))
            <==> forall v, q :: ReadInto(d, atoms, rs, v, q) ==> ReadWhole(atoms, capped, since, v, q)
  {
    hide Scan, ReadInto, WholePeriod, ReadWhole;
    var n := Scanned(d, atoms);
    StartIs(d, atoms, rs, anchor);
    forall v
      ensures WholePeriod(n, rs, atoms, capped, since, v) <==> forall q :: ReadInto(d, atoms, rs, v, q) ==> ReadWhole(atoms, capped, since, v, q)
    {
      WholeIs(d, atoms, rs, capped, since, v);
    }
    forall v, q | ReadInto(d, atoms, rs, v, q)
      ensures v in Answerable.Start(n, rs, anchor)
    {
      assert FromStart(d, atoms, rs, anchor, v);
    }
    if forall v :: v in Answerable.Start(n, rs, anchor) ==> WholePeriod(n, rs, atoms, capped, since, v) {
      forall v, q | ReadInto(d, atoms, rs, v, q)
        ensures ReadWhole(atoms, capped, since, v, q)
      {
        assert WholePeriod(n, rs, atoms, capped, since, v);
      }
    }
  }
}
