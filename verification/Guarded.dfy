/** The guard memory adds to a match: of each node, only those still held for the reader. */
module Guarded {
  import opened Sql
  import opened From
  import opened CypherMatch
  import opened Rendered
  import opened SameRows
  import M = Measures

  /** Whether memory still holds a table's row for the reader. */
  type Guard = (Table, Row) -> bool

  function HeldRows(guard: Guard, t: Table, rows: seq<Row>): seq<Row> {
    if rows == [] then []
    else if guard(t, rows[0]) then [rows[0]] + HeldRows(guard, t, rows[1..])
    else HeldRows(guard, t, rows[1..])
  }

  /** What memory holds, as tables. */
  function Held(guard: Guard, db: Db): Db {
    map t | t in db :: HeldRows(guard, t, db[t])
  }

  /** A row's tables, of those given, are all held. */
  predicate AllHeld(guard: Guard, ts: set<Table>, b: Binding) {
    forall t :: t in ts && t in b ==> guard(t, b[t])
  }

  /** WHERE: the filters, and the guard on every node matched. */
  function WhereHeld(cal: Calendar, guard: Guard, ts: set<Table>, filters: seq<Expr>, bs: seq<Binding>): seq<Binding> {
    if bs == [] then []
    else if KeepsAll(cal, filters, bs[0]) && AllHeld(guard, ts, bs[0]) then [bs[0]] + WhereHeld(cal, guard, ts, filters, bs[1..])
    else WhereHeld(cal, guard, ts, filters, bs[1..])
  }

  /** OPTIONAL MATCH with the guard in its own WHERE. */
  function OptionalOne(db: Db, guard: Guard, j: Join, b: Binding): seq<Binding> {
    var found := HeldRows(guard, j.to, Matching(RowsOf(db, j.to), j.toCol, Cell(b, j.from, j.fromCol)));
    if found == [] then [b[j.to := map[]]]
    else seq(|found|, i requires 0 <= i < |found| => b[j.to := found[i]])
  }

  function OptionalEach(db: Db, guard: Guard, j: Join, bs: seq<Binding>): seq<Binding> {
    if bs == [] then [] else OptionalOne(db, guard, j, bs[0]) + OptionalEach(db, guard, j, bs[1..])
  }

  function OptionalMatches(db: Db, guard: Guard, joins: seq<Join>, bs: seq<Binding>): seq<Binding> {
    if joins == [] then bs
    else OptionalEach(db, guard, joins[|joins| - 1], OptionalMatches(db, guard, joins[..|joins| - 1], bs))
  }

  /** The guarded match's rows over everything in memory. */
  function MemoryRows(cal: Calendar, db: Db, guard: Guard, fact: Table, r: Cypher): seq<Binding> {
    var matched := {fact} + set j | j in r.inner :: j.to;
    OptionalMatches(db, guard, r.optional, WhereHeld(cal, guard, matched, r.filters, Joined(db, r.inner, Facts(db, fact))))
  }

  // ---- the guard picks what memory holds

  lemma {:induction false} HeldMatching(guard: Guard, t: Table, rows: seq<Row>, c: Column, key: Value)
    ensures Matching(HeldRows(guard, t, rows), c, key) == HeldRows(guard, t, Matching(rows, c, key))
  {
    if rows != [] {
      var r, rest := rows[0], rows[1..];
      HeldMatching(guard, t, rest, c, key);
      var m, h := Matching(rest, c, key), HeldRows(guard, t, rest);
      assert ([r] + m)[1..] == m && ([r] + h)[1..] == h;
    }
  }

  lemma HeldRowsOf(guard: Guard, db: Db, t: Table)
    ensures RowsOf(Held(guard, db), t) == HeldRows(guard, t, RowsOf(db, t))
  {
  }

  lemma {:induction false} OptionalIsHeld(db: Db, guard: Guard, j: Join, bs: seq<Binding>)
    requires j.outer
    ensures OptionalEach(db, guard, j, bs) == JoinEach(Held(guard, db), j, bs)
  {
    hide Held;
    if bs != [] {
      OptionalIsHeld(db, guard, j, bs[1..]);
      HeldRowsOf(guard, db, j.to);
      HeldMatching(guard, j.to, RowsOf(db, j.to), j.toCol, Cell(bs[0], j.from, j.fromCol));
    }
  }

  lemma {:induction false} OptionalsAreHeld(db: Db, guard: Guard, joins: seq<Join>, bs: seq<Binding>)
    requires forall j :: j in joins ==> j.outer
    ensures OptionalMatches(db, guard, joins, bs) == Joined(Held(guard, db), joins, bs)
  {
    hide Held;
    if joins != [] {
      var n := |joins| - 1;
      OptionalsAreHeld(db, guard, joins[..n], bs);
      assert joins[n] in joins;
      OptionalIsHeld(db, guard, joins[n], OptionalMatches(db, guard, joins[..n], bs));
    }
  }

  /** The rows whose tables are all held. */
  function Holding(guard: Guard, ts: set<Table>, bs: seq<Binding>): seq<Binding> {
    if bs == [] then []
    else (if AllHeld(guard, ts, bs[0]) then [bs[0]] else []) + Holding(guard, ts, bs[1..])
  }

  lemma {:induction false} HoldingConcat(guard: Guard, ts: set<Table>, xs: seq<Binding>, ys: seq<Binding>)
    ensures Holding(guard, ts, xs + ys) == Holding(guard, ts, xs) + Holding(guard, ts, ys)
  {
    hide AllHeld;
    if xs == [] {
      assert xs + ys == ys && Holding(guard, ts, xs) == [];
    } else {
      HoldingConcat(guard, ts, xs[1..], ys);
      assert xs + ys == [xs[0]] + (xs[1..] + ys) && xs == [xs[0]] + xs[1..];
      HoldingCons(guard, ts, xs[0], xs[1..] + ys);
      HoldingCons(guard, ts, xs[0], xs[1..]);
    }
  }

  lemma HoldingCons(guard: Guard, ts: set<Table>, b: Binding, rest: seq<Binding>)
    ensures Holding(guard, ts, [b] + rest) == (if AllHeld(guard, ts, b) then [b] else []) + Holding(guard, ts, rest)
  {
    hide AllHeld;
    assert ([b] + rest)[1..] == rest;
  }

  lemma NoneJoined(db: Db, guard: Guard, more: set<Table>, ts: set<Table>, j: Join)
    ensures Holding(guard, ts, []) == [] && Holding(guard, more, []) == []
    ensures JoinEach(db, j, []) == [] && JoinEach(Held(guard, db), j, []) == []
  {
  }

  lemma JoinEachCons(db: Db, j: Join, b: Binding, rest: seq<Binding>)
    ensures JoinEach(db, j, [b] + rest) == JoinOne(db, j, b) + JoinEach(db, j, rest)
  {
    hide JoinOne;
    assert ([b] + rest)[1..] == rest;
  }

  /** Of a row's matches, the held ones, when the row itself is held; none when it is not. */
  lemma {:induction false} HoldingMatches(guard: Guard, ts: set<Table>, j: Join, b: Binding, found: seq<Row>)
    requires j.to !in ts
    ensures var held := HeldRows(guard, j.to, found);
            Holding(guard, ts + {j.to}, seq(|found|, i requires 0 <= i < |found| => b[j.to := found[i]]))
            == if AllHeld(guard, ts, b) then seq(|held|, i requires 0 <= i < |held| => b[j.to := held[i]]) else []
  {
    hide AllHeld, Holding;
    var made := seq(|found|, i requires 0 <= i < |found| => b[j.to := found[i]]);
    if found == [] {
      HoldingNone(guard, ts + {j.to});
    } else {
      HoldingMatches(guard, ts, j, b, found[1..]);
      assert made == [b[j.to := found[0]]] + seq(|found[1..]|, i requires 0 <= i < |found[1..]| => b[j.to := found[1..][i]]);
      HoldingCons(guard, ts + {j.to}, b[j.to := found[0]], made[1..]);
      HeldWith(guard, ts, j, b, found[0]);
    }
  }

  lemma HoldingNone(guard: Guard, ts: set<Table>)
    ensures Holding(guard, ts, []) == []
  {
  }

  lemma HeldWith(guard: Guard, ts: set<Table>, j: Join, b: Binding, r: Row)
    requires j.to !in ts
    ensures AllHeld(guard, ts + {j.to}, b[j.to := r]) <==> AllHeld(guard, ts, b) && guard(j.to, r)
  {
    var d := b[j.to := r];
    if AllHeld(guard, ts + {j.to}, d) {
      forall t | t in ts && t in b
        ensures guard(t, b[t])
      {
        assert t in d && d[t] == b[t];
      }
      assert j.to in d;
    }
  }

  /** One row's matches, held: those of what memory holds, if the row itself is held. */
  lemma HoldingJoinOne(db: Db, guard: Guard, ts: set<Table>, j: Join, b: Binding)
    requires j.to !in ts && !j.outer
    ensures Holding(guard, ts + {j.to}, JoinOne(db, j, b)) == if AllHeld(guard, ts, b) then JoinOne(Held(guard, db), j, b) else []
  {
    hide Held, AllHeld, HeldRows, Holding;
    var key := Cell(b, j.from, j.fromCol);
    HoldingMatches(guard, ts, j, b, Matching(RowsOf(db, j.to), j.toCol, key));
    HeldRowsOf(guard, db, j.to);
    HeldMatching(guard, j.to, RowsOf(db, j.to), j.toCol, key);
  }

  lemma {:induction false} HoldingJoin(db: Db, guard: Guard, ts: set<Table>, j: Join, bs: seq<Binding>)
    requires j.to !in ts && !j.outer
    ensures Holding(guard, ts + {j.to}, JoinEach(db, j, bs)) == JoinEach(Held(guard, db), j, Holding(guard, ts, bs))
  {
    hide Held, AllHeld, HeldRows, JoinOne, Holding, JoinEach;
    if bs == [] {
      NoneJoined(db, guard, ts + {j.to}, ts, j);
    } else {
      var b, rest := bs[0], bs[1..];
      assert bs == [b] + rest;
      HoldingJoin(db, guard, ts, j, rest);
      JoinEachCons(db, j, b, rest);
      HoldingConcat(guard, ts + {j.to}, JoinOne(db, j, b), JoinEach(db, j, rest));
      HoldingJoinOne(db, guard, ts, j, b);
      HoldingCons(guard, ts, b, rest);
      JoinEachCons(Held(guard, db), j, b, Holding(guard, ts, rest));
      assert [] + Holding(guard, ts, rest) == Holding(guard, ts, rest);
    }
  }

  lemma {:induction false} HoldingFacts(guard: Guard, fact: Table, rows: seq<Row>)
    ensures var held := HeldRows(guard, fact, rows);
            Holding(guard, {fact}, seq(|rows|, i requires 0 <= i < |rows| => map[fact := rows[i]]))
            == seq(|held|, i requires 0 <= i < |held| => map[fact := held[i]])
  {
    var made := seq(|rows|, i requires 0 <= i < |rows| => map[fact := rows[i]]);
    if rows != [] {
      HoldingFacts(guard, fact, rows[1..]);
      assert made[1..] == seq(|rows[1..]|, i requires 0 <= i < |rows[1..]| => map[fact := rows[1..][i]]);
      assert AllHeld(guard, {fact}, made[0]) <==> guard(fact, rows[0]);
    }
  }

  lemma {:induction false} HoldingJoined(db: Db, guard: Guard, fact: Table, joins: seq<Join>)
    requires IsTree(fact, joins) && forall j :: j in joins ==> !j.outer
    ensures Holding(guard, {fact} + (set j | j in joins :: j.to), Joined(db, joins, Facts(db, fact)))
         == Joined(Held(guard, db), joins, Facts(Held(guard, db), fact))
  {
    hide IsTree, Held, Holding, JoinEach;
    if joins == [] {
      HoldingFacts(guard, fact, RowsOf(db, fact));
      HeldRowsOf(guard, db, fact);
      assert {fact} + (set j | j in joins :: j.to) == {fact};
      var rows, held := RowsOf(db, fact), HeldRows(guard, fact, RowsOf(db, fact));
      assert Facts(db, fact) == seq(|rows|, i requires 0 <= i < |rows| => map[fact := rows[i]]);
      assert Facts(Held(guard, db), fact) == seq(|held|, i requires 0 <= i < |held| => map[fact := held[i]]);
    } else {
      var n := |joins| - 1;
      TreePrefix(fact, joins, n);
      HoldingJoined(db, guard, fact, joins[..n]);
      NotJoinedBefore(fact, joins, n);
      var ts := {fact} + set j | j in joins[..n] :: j.to;
      assert joins[n] in joins && forall d :: d in joins <==> d in joins[..n] || d == joins[n];
      assert {fact} + (set j | j in joins :: j.to) == ts + {joins[n].to};
      HoldingJoin(db, guard, ts, joins[n], Joined(db, joins[..n], Facts(db, fact)));
      assert Holding(guard, ts, Joined(db, joins[..n], Facts(db, fact))) == Joined(Held(guard, db), joins[..n], Facts(Held(guard, db), fact));
    }
  }

  lemma {:induction false} WhereHeldIs(cal: Calendar, guard: Guard, ts: set<Table>, filters: seq<Expr>, bs: seq<Binding>)
    ensures WhereHeld(cal, guard, ts, filters, bs) == M.Where(cal, filters, Holding(guard, ts, bs))
  {
    hide AllHeld, KeepsAll;
    if bs != [] {
      WhereHeldIs(cal, guard, ts, filters, bs[1..]);
      var rest := Holding(guard, ts, bs[1..]);
      if AllHeld(guard, ts, bs[0]) {
        assert ([bs[0]] + rest)[1..] == rest;
      } else {
        assert [] + rest == rest;
      }
    }
  }

  /** The guarded match over all of memory is the match over what memory holds for the reader. */
  lemma GuardedIsHeld(cal: Calendar, db: Db, guard: Guard, fact: Table, r: Cypher)
    requires IsTree(fact, r.inner) && (forall j :: j in r.inner ==> !j.outer) && (forall j :: j in r.optional ==> j.outer)
    ensures MemoryRows(cal, db, guard, fact, r) == CypherRows(cal, Held(guard, db), fact, r)
  {
    hide IsTree, Held, Holding, Joined, OptionalMatches, WhereHeld;
    HoldingJoined(db, guard, fact, r.inner);
    var ts := {fact} + set j | j in r.inner :: j.to;
    WhereHeldIs(cal, guard, ts, r.filters, Joined(db, r.inner, Facts(db, fact)));
    OptionalsAreHeld(db, guard, r.optional, WhereHeld(cal, guard, ts, r.filters, Joined(db, r.inner, Facts(db, fact))));
  }
}
