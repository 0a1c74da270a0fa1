/** A block's FROM: the fact's rows, each joined in turn to the tables the block reads. */
module From {
  import opened Sql

  /** One join of a block: `to.toCol = from.fromCol`, LEFT when outer. */
  datatype Join = Join(from: Table, fromCol: Column, to: Table, toCol: Column, outer: bool)

  type Db = map<Table, seq<Row>>

  function RowsOf(db: Db, t: Table): seq<Row> {
    if t in db then db[t] else []
  }

  function CellOf(r: Row, c: Column): Value {
    if c in r then r[c] else Null
  }

  /** No two rows of the table share a value of the column. */
  ghost predicate Unique(db: Db, t: Table, c: Column) {
    forall i, k :: 0 <= i < k < |RowsOf(db, t)| && !CellOf(RowsOf(db, t)[i], c).Null?
      ==> CellOf(RowsOf(db, t)[i], c) != CellOf(RowsOf(db, t)[k], c)
  }

  /** The rows a key's value matches: none for a null. */
  function Matching(rows: seq<Row>, c: Column, key: Value): seq<Row> {
    if rows == [] then []
    else if !key.Null? && CellOf(rows[0], c) == key then [rows[0]] + Matching(rows[1..], c, key)
    else Matching(rows[1..], c, key)
  }

  function JoinOne(db: Db, j: Join, b: Binding): seq<Binding> {
    var found := Matching(RowsOf(db, j.to), j.toCol, Cell(b, j.from, j.fromCol));
    if found == [] && j.outer then [b[j.to := map[]]]
    else seq(|found|, i requires 0 <= i < |found| => b[j.to := found[i]])
  }

  function JoinEach(db: Db, j: Join, bs: seq<Binding>): seq<Binding> {
    if bs == [] then [] else JoinOne(db, j, bs[0]) + JoinEach(db, j, bs[1..])
  }

  /** The rows a list of joins makes of others, each join over what those before it made. */
  function Joined(db: Db, joins: seq<Join>, bs: seq<Binding>): seq<Binding> {
    if joins == [] then bs
    else JoinEach(db, joins[|joins| - 1], Joined(db, joins[..|joins| - 1], bs))
  }

  function Facts(db: Db, fact: Table): seq<Binding> {
    seq(|RowsOf(db, fact)|, i requires 0 <= i < |RowsOf(db, fact)| => map[fact := RowsOf(db, fact)[i]])
  }

  /** Each join starts from the fact or a table joined before it, and joins a table not joined yet. */
  ghost predicate IsTree(fact: Table, joins: seq<Join>) {
    forall i :: 0 <= i < |joins| ==> Starts(fact, joins, i) && Joins(fact, joins, i)
  }

  ghost predicate Starts(fact: Table, joins: seq<Join>, i: nat)
    requires i < |joins|
  {
    joins[i].from == fact || exists k :: 0 <= k < i && joins[k].to == joins[i].from
  }

  ghost predicate Joins(fact: Table, joins: seq<Join>, i: nat)
    requires i < |joins|
  {
    joins[i].to != fact && forall k :: 0 <= k < i ==> joins[k].to != joins[i].to
  }

  ghost predicate TargetsUnique(db: Db, joins: seq<Join>) {
    forall j :: j in joins ==> Unique(db, j.to, j.toCol)
  }

  /** No table is joined twice. */
  ghost predicate EachOnce(joins: seq<Join>) {
    forall i, k :: 0 <= i < k < |joins| ==> joins[i].to != joins[k].to
  }

  lemma TreeOnce(fact: Table, joins: seq<Join>)
    requires IsTree(fact, joins)
    ensures EachOnce(joins)
  {
    forall i, k | 0 <= i < k < |joins|
      ensures joins[i].to != joins[k].to
    {
      assert Joins(fact, joins, k);
    }
  }

  lemma TreePrefix(fact: Table, joins: seq<Join>, n: nat)
    requires IsTree(fact, joins) && n <= |joins|
    ensures IsTree(fact, joins[..n])
  {
    forall i | 0 <= i < n
      ensures Starts(fact, joins[..n], i) && Joins(fact, joins[..n], i)
    {
      assert Starts(fact, joins, i) && Joins(fact, joins, i);
      if joins[i].from != fact {
        var k :| 0 <= k < i && joins[k].to == joins[i].from;
        assert joins[..n][k].to == joins[i].from;
      }
    }
  }

  lemma TreeAppend(fact: Table, joins: seq<Join>, j: Join)
    requires IsTree(fact, joins) && j.to != fact && forall i :: i in joins ==> i.to != j.to
    requires j.from == fact || exists i :: i in joins && i.to == j.from
    ensures IsTree(fact, joins + [j])
  {
    var all := joins + [j];
    forall i | 0 <= i < |all|
      ensures Starts(fact, all, i) && Joins(fact, all, i)
    {
      if i < |joins| {
        assert all[i] == joins[i] && Starts(fact, joins, i) && Joins(fact, joins, i);
        if joins[i].from != fact {
          var k :| 0 <= k < i && joins[k].to == joins[i].from;
          assert all[k].to == all[i].from;
        }
      } else if j.from != fact {
        var d :| d in joins && d.to == j.from;
        var k :| 0 <= k < |joins| && joins[k] == d;
        assert all[k].to == all[i].from;
      }
    }
  }

  // ---- one row at a time: with unique targets a row has one extension

  /** The one row a key's value matches, or the null row. */
  function MatchRow(db: Db, j: Join, key: Value): Row {
    var found := Matching(RowsOf(db, j.to), j.toCol, key);
    if found == [] then map[] else found[0]
  }

  /** A row with each join's match beside it, its null row when there is none. */
  function Full(db: Db, joins: seq<Join>, b: Binding): Binding {
    if joins == [] then b
    else
      var j, before := joins[|joins| - 1], Full(db, joins[..|joins| - 1], b);
      before[j.to := MatchRow(db, j, Cell(before, j.from, j.fromCol))]
  }

  predicate Matched(j: Join, full: Binding) {
    !Cell(full, j.to, j.toCol).Null?
  }

  /** The row survives the inner joins. */
  ghost predicate Survives(db: Db, joins: seq<Join>, b: Binding) {
    forall j :: j in joins && !j.outer ==> Matched(j, Full(db, joins, b))
  }

  /** Each row's extension, of those that survive. */
  ghost function Extensions(db: Db, joins: seq<Join>, bs: seq<Binding>): seq<Binding> {
    if bs == [] then []
    else (if Survives(db, joins, bs[0]) then [Full(db, joins, bs[0])] else []) + Extensions(db, joins, bs[1..])
  }

  lemma {:induction false} MatchingFits(rows: seq<Row>, c: Column, key: Value)
    ensures forall r :: r in Matching(rows, c, key) <==> r in rows && CellOf(r, c) == key && !key.Null?
  {
    if rows != [] {
      MatchingFits(rows[1..], c, key);
      assert rows == [rows[0]] + rows[1..];
    }
  }

  lemma {:induction false} NoneMatching(rows: seq<Row>, c: Column, key: Value)
    requires forall i :: 0 <= i < |rows| ==> CellOf(rows[i], c) != key
    ensures Matching(rows, c, key) == []
  {
    if rows != [] {
      NoneMatching(rows[1..], c, key);
    }
  }

  lemma {:induction false} AtMostOne(rows: seq<Row>, c: Column, key: Value)
    requires forall i, k :: 0 <= i < k < |rows| && !CellOf(rows[i], c).Null? ==> CellOf(rows[i], c) != CellOf(rows[k], c)
    ensures |Matching(rows, c, key)| <= 1
  {
    if rows != [] {
      var rest := rows[1..];
      if !key.Null? && CellOf(rows[0], c) == key {
        forall i | 0 <= i < |rest|
          ensures CellOf(rest[i], c) != key
        {
          assert rest[i] == rows[i + 1];
        }
        NoneMatching(rest, c, key);
      } else {
        assert forall i :: 0 <= i < |rest| ==> rest[i] == rows[i + 1];
        AtMostOne(rest, c, key);
      }
    }
  }

  /** With a unique target, a join keeps a row, once, when it is outer or matches. */
  lemma JoinOneIs(db: Db, j: Join, b: Binding)
    requires Unique(db, j.to, j.toCol)
    ensures var full := b[j.to := MatchRow(db, j, Cell(b, j.from, j.fromCol))];
            JoinOne(db, j, b) == if j.outer || Matched(j, full) then [full] else []
  {
    var rows, key := RowsOf(db, j.to), Cell(b, j.from, j.fromCol);
    AtMostOne(rows, j.toCol, key);
    MatchingFits(rows, j.toCol, key);
    var found := Matching(rows, j.toCol, key);
    if found != [] {
      assert found[0] in found;
      assert found == [found[0]];
    }
  }

  lemma SurvivesNext(db: Db, joins: seq<Join>, b: Binding)
    requires joins != []
    requires forall k :: 0 <= k < |joins| - 1 ==> joins[k].to != joins[|joins| - 1].to
    ensures var n := |joins| - 1;
            Survives(db, joins, b) <==> Survives(db, joins[..n], b) && (joins[n].outer || Matched(joins[n], Full(db, joins, b)))
  {
    var n := |joins| - 1;
    var full, before := Full(db, joins, b), Full(db, joins[..n], b);
    assert forall j :: j in joins <==> j in joins[..n] || j == joins[n];
    forall j | j in joins[..n]
      ensures Matched(j, full) == Matched(j, before)
    {
      var k :| 0 <= k < n && joins[..n][k] == j;
      assert joins[k].to != joins[n].to;
    }
  }

  lemma {:induction false} JoinEachExtension(db: Db, joins: seq<Join>, bs: seq<Binding>)
    requires joins != [] && Unique(db, joins[|joins| - 1].to, joins[|joins| - 1].toCol)
    requires forall k :: 0 <= k < |joins| - 1 ==> joins[k].to != joins[|joins| - 1].to
    ensures JoinEach(db, joins[|joins| - 1], Extensions(db, joins[..|joins| - 1], bs)) == Extensions(db, joins, bs)
  {
    hide Survives, Unique, JoinOne, Matched;
    var n := |joins| - 1;
    if bs != [] {
      JoinEachExtension(db, joins, bs[1..]);
      SurvivesNext(db, joins, bs[0]);
      if Survives(db, joins[..n], bs[0]) {
        var before, rest := Full(db, joins[..n], bs[0]), Extensions(db, joins[..n], bs[1..]);
        JoinOneIs(db, joins[n], before);
        assert Extensions(db, joins[..n], bs) == [before] + rest;
        assert ([before] + rest)[1..] == rest;
      } else {
        assert Extensions(db, joins[..n], bs) == Extensions(db, joins[..n], bs[1..]);
      }
    }
  }

  /** The rows of a FROM whose targets are unique: each row's one extension, of those that survive. */
  lemma {:induction false} JoinedIsExtensions(db: Db, joins: seq<Join>, bs: seq<Binding>)
    requires EachOnce(joins) && TargetsUnique(db, joins)
    ensures Joined(db, joins, bs) == Extensions(db, joins, bs)
  {
    if joins == [] {
      NoJoins(db, bs);
    } else {
      var n := |joins| - 1;
      assert joins[n] in joins;
      JoinedIsExtensions(db, joins[..n], bs);
      JoinEachExtension(db, joins, bs);
    }
  }

  lemma {:induction false} NoJoins(db: Db, bs: seq<Binding>)
    ensures Extensions(db, [], bs) == bs
  {
    if bs != [] {
      NoJoins(db, bs[1..]);
      assert Survives(db, [], bs[0]);
    }
  }

  lemma {:induction false} FullKeepsFact(db: Db, fact: Table, joins: seq<Join>, b: Binding)
    requires IsTree(fact, joins) && fact in b
    ensures fact in Full(db, joins, b) && Full(db, joins, b)[fact] == b[fact]
  {
    if joins != [] {
      var n := |joins| - 1;
      TreePrefix(fact, joins, n);
      assert Joins(fact, joins, n);
      FullKeepsFact(db, fact, joins[..n], b);
    }
  }

  /** The fact's rows in some rows of a FROM. */
  function FactRows(fact: Table, bs: seq<Binding>): seq<Row> {
    seq(|bs|, i requires 0 <= i < |bs| => if fact in bs[i] then bs[i][fact] else map[])
  }

  /** `xs` is `ys` with some of its places left out. */
  ghost predicate Subsequence(xs: seq<Row>, ys: seq<Row>) {
    xs == [] || (ys != [] && ((xs[0] == ys[0] && Subsequence(xs[1..], ys[1..])) || Subsequence(xs, ys[1..])))
  }

  lemma {:induction false} ExtensionsInOrder(db: Db, fact: Table, joins: seq<Join>, bs: seq<Binding>)
    requires IsTree(fact, joins) && forall b :: b in bs ==> fact in b
    ensures Subsequence(FactRows(fact, Extensions(db, joins, bs)), FactRows(fact, bs))
    ensures (forall j :: j in joins ==> j.outer) ==> FactRows(fact, Extensions(db, joins, bs)) == FactRows(fact, bs)
  {
    hide IsTree, Full, Matched;
    if bs != [] {
      ExtensionsInOrder(db, fact, joins, bs[1..]);
      assert bs[0] in bs;
      FullKeepsFact(db, fact, joins, bs[0]);
      assert FactRows(fact, bs) == [bs[0][fact]] + FactRows(fact, bs[1..]);
      var rest := Extensions(db, joins, bs[1..]);
      if Survives(db, joins, bs[0]) {
        assert FactRows(fact, [Full(db, joins, bs[0])] + rest) == [bs[0][fact]] + FactRows(fact, rest);
      } else {
        assert Extensions(db, joins, bs) == rest;
      }
    }
  }

  /** A fact's row is in the answer at most once, in the fact's order; exactly once when every join is outer. */
  lemma FactRowsOnce(db: Db, fact: Table, joins: seq<Join>)
    requires IsTree(fact, joins) && TargetsUnique(db, joins)
    ensures Subsequence(FactRows(fact, Joined(db, joins, Facts(db, fact))), RowsOf(db, fact))
    ensures (forall j :: j in joins ==> j.outer) ==> FactRows(fact, Joined(db, joins, Facts(db, fact))) == RowsOf(db, fact)
  {
    hide IsTree, Extensions, Subsequence, Joined;
    var bs := Facts(db, fact);
    TreeOnce(fact, joins);
    JoinedIsExtensions(db, joins, bs);
    ExtensionsInOrder(db, fact, joins, bs);
    assert FactRows(fact, bs) == RowsOf(db, fact);
  }

  /** A target that is not unique does multiply its fact's rows. */
  lemma SharedTargetMultiplies(fact: Table, other: Table, key: Column)
    requires fact != other
    ensures var row := map[key := Num(1.0)];
            var db := map[fact := [row], other := [row, row]];
            var j := Join(fact, key, other, key, false);
            IsTree(fact, [j]) && !Unique(db, other, key) && |Joined(db, [j], Facts(db, fact))| == 2
  {
    var row := map[key := Num(1.0)];
    var db := map[fact := [row], other := [row, row]];
    var j := Join(fact, key, other, key, false);
    assert RowsOf(db, other) == [row, row];
    assert Matching([row], key, Num(1.0)) == [row];
    assert [row, row][1..] == [row];
    assert Matching([row, row], key, Num(1.0)) == [row, row];
    var b := map[fact := row];
    assert Facts(db, fact) == [b];
    assert Joined(db, [], Facts(db, fact)) == [b];
    assert [j][..0] == [];
    assert |JoinOne(db, j, b)| == 2;
    assert JoinEach(db, j, [b]) == JoinOne(db, j, b) + JoinEach(db, j, []);
    assert Starts(fact, [j], 0) && Joins(fact, [j], 0);
    assert !Unique(db, other, key) by {
      assert RowsOf(db, other)[0] == RowsOf(db, other)[1];
    }
  }
}
