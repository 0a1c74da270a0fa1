/** The inward read: many anchors' facts, a page at a time.

    The whole answer is one list, sorted by key and within a key from the latest fact back. A page is a bounded prefix of
    what is left of it, its size (cap + 1) times the keys still asked for. The loop keeps, of each key, all its rows or a
    prefix longer than the cap, which is enough to know the rows kept under the cap and whether it cut any. */
module PagedRead {
  import opened Data
  import opened Recency

  /** A row of an inward read: the fact, and the anchor it points at. */
  datatype InRow = InRow(via: Value, fact: Fact)

  function Tag(v: Value, facts: seq<Fact>): (r: seq<InRow>)
    ensures |r| == |facts|
  {
    seq(|facts|, i requires 0 <= i < |facts| => InRow(v, facts[i]))
  }

  /** One anchor's rows, in the order they were read. */
  function Of(rows: seq<InRow>, v: Value): seq<Fact> {
    if rows == [] then []
    else if rows[0].via == v then [rows[0].fact] + Of(rows[1..], v)
    else Of(rows[1..], v)
  }

  /** The keys of a set, in the order the database puts them. (`ask` is sorted as text; the database sorts
      the column's own type, so its order is a sequence of its own.) */
  function Among(order: seq<Value>, keys: set<Value>): seq<Value> {
    if order == [] then []
    else if order[0] in keys then [order[0]] + Among(order[1..], keys)
    else Among(order[1..], keys)
  }

  function Concat(keys: seq<Value>, answer: Value -> seq<Fact>): seq<InRow> {
    if keys == [] then [] else Tag(keys[0], answer(keys[0])) + Concat(keys[1..], answer)
  }

  /** What the target answers: the rows of every key asked for, in the database's order, up to the limit. */
  function Page(order: seq<Value>, keys: set<Value>, limit: nat, answer: Value -> seq<Fact>): seq<InRow> {
    Take(Concat(Among(order, keys), answer), limit)
  }

  function Kept(rows: seq<InRow>, done: set<Value>): seq<InRow> {
    if rows == [] then []
    else if rows[0].via in done then [rows[0]] + Kept(rows[1..], done)
    else Kept(rows[1..], done)
  }

  function Without(keys: seq<Value>, done: set<Value>): seq<Value> {
    if keys == [] then []
    else if keys[0] in done then Without(keys[1..], done)
    else [keys[0]] + Without(keys[1..], done)
  }

  // ---- an anchor's rows of a concatenation, a page and a selection

  lemma {:induction false} OfConcat(a: seq<InRow>, b: seq<InRow>, v: Value)
    ensures Of(a + b, v) == Of(a, v) + Of(b, v)
  {
    if a == [] {
      assert a + b == b;
    } else {
      assert (a + b)[1..] == a[1..] + b;
      OfConcat(a[1..], b, v);
    }
  }

  lemma {:induction false} OfTag(u: Value, facts: seq<Fact>, v: Value)
    ensures Of(Tag(u, facts), v) == if u == v then facts else []
  {
    if facts != [] {
      assert Tag(u, facts)[1..] == Tag(u, facts[1..]);
      OfTag(u, facts[1..], v);
    }
  }

  lemma {:induction false} OfAll(keys: seq<Value>, answer: Value -> seq<Fact>, v: Value)
    requires NoDup(keys)
    ensures Of(Concat(keys, answer), v) == if v in keys then answer(v) else []
  {
    if keys != [] {
      OfConcat(Tag(keys[0], answer(keys[0])), Concat(keys[1..], answer), v);
      OfTag(keys[0], answer(keys[0]), v);
      OfAll(keys[1..], answer, v);
    }
  }

  lemma {:induction false} OfKept(rows: seq<InRow>, done: set<Value>, v: Value)
    ensures Of(Kept(rows, done), v) == if v in done then Of(rows, v) else []
  {
    if rows != [] {
      OfKept(rows[1..], done, v);
      if rows[0].via in done {
        assert ([rows[0]] + Kept(rows[1..], done))[1..] == Kept(rows[1..], done);
      }
    }
  }

  lemma {:induction false} NoRows(rows: seq<InRow>, v: Value)
    requires forall r :: r in rows ==> r.via != v
    ensures Of(rows, v) == []
  {
    if rows != [] {
      NoRows(rows[1..], v);
    }
  }

  lemma {:induction false} AllRows(rows: seq<InRow>, v: Value)
    requires forall r :: r in rows ==> r.via == v
    ensures |Of(rows, v)| == |rows|
  {
    if rows != [] {
      AllRows(rows[1..], v);
    }
  }

  lemma {:induction false} SomeRow(rows: seq<InRow>, v: Value, i: nat)
    requires i < |rows| && rows[i].via == v
    ensures Of(rows, v) != []
  {
    if i > 0 {
      SomeRow(rows[1..], v, i - 1);
    }
  }

  lemma {:induction false} WithoutElements(keys: seq<Value>, done: set<Value>)
    requires NoDup(keys)
    ensures NoDup(Without(keys, done))
    ensures Elements(Without(keys, done)) == Elements(keys) - done
    ensures |Without(keys, done)| <= |keys|
    ensures (exists k :: k in keys && k in done) ==> |Without(keys, done)| < |keys|
  {
    if keys != [] {
      WithoutElements(keys[1..], done);
      var rest := Without(keys[1..], done);
      assert keys == [keys[0]] + keys[1..];
      if keys[0] !in done {
        assert Elements([keys[0]] + rest) == {keys[0]} + Elements(rest);
        assert keys[0] !in Elements(rest);
        if k :| k in keys && k in done {
          assert k in keys[1..];
        }
      }
    }
  }

  lemma {:induction false} AmongElements(order: seq<Value>, keys: set<Value>)
    requires NoDup(order)
    ensures NoDup(Among(order, keys))
    ensures forall k :: k in Among(order, keys) <==> k in order && k in keys
  {
    if order != [] {
      AmongElements(order[1..], keys);
      assert order == [order[0]] + order[1..];
    }
  }

  /** A page is a prefix: every anchor in it but the last is whole, and the last is a prefix of its own. */
  lemma {:induction false} PagePrefix(keys: seq<Value>, answer: Value -> seq<Fact>, n: nat, v: Value)
    requires NoDup(keys)
    requires 0 < n <= |Concat(keys, answer)|
    ensures var page := Concat(keys, answer)[..n];
            var last := page[n - 1].via;
            && last in keys
            && Of(page, v) <= (if v in keys then answer(v) else [])
            && (v != last && Of(page, v) != [] ==> Of(page, v) == answer(v))
  {
    var k := keys[0];
    var here, rest := Tag(k, answer(k)), Concat(keys[1..], answer);
    var page := Concat(keys, answer)[..n];
    if n <= |here| {
      assert page == Tag(k, answer(k)[..n]);
      OfTag(k, answer(k)[..n], v);
    } else {
      assert page == here + rest[..n - |here|];
      OfConcat(here, rest[..n - |here|], v);
      OfTag(k, answer(k), v);
      PagePrefix(keys[1..], answer, n - |here|, v);
      assert page[n - 1] == rest[..n - |here|][n - |here| - 1];
    }
  }

  /** What a read must give an anchor: all its rows, or the first of them, more than the cap. */
  ghost predicate Enough(got: seq<Fact>, all: seq<Fact>, cap: nat) {
    got <= all && (got == all || |got| > cap)
  }

  /** Enough is enough: cut at the cap, and flagged as capped, as the whole answer would be. */
  lemma EnoughIsExact(got: seq<Fact>, all: seq<Fact>, cap: nat)
    requires Enough(got, all, cap)
    ensures Take(got, cap) == Take(all, cap)
    ensures |got| > cap <==> |all| > cap
  {
    if got != all {
      assert Take(got, cap) == got[..cap] == all[..cap];
    }
  }

  method CountRows(page: seq<InRow>) returns (count: map<Value, nat>)
    ensures forall v :: v in count <==> Of(page, v) != []
    ensures forall v :: v in count ==> count[v] == |Of(page, v)|
  {
    count := map[];
    var i := 0;
    while i < |page|
      invariant i <= |page|
      invariant forall v :: v in count <==> Of(page[..i], v) != []
      invariant forall v :: v in count ==> count[v] == |Of(page[..i], v)|
    {
      var u := page[i].via;
      forall v
        ensures Of(page[..i + 1], v) == Of(page[..i], v) + if u == v then [page[i].fact] else []
      {
        assert page[..i + 1] == page[..i] + [page[i]];
        OfConcat(page[..i], [page[i]], v);
        assert Of([page[i]], v) == if u == v then [page[i].fact] else [];
      }
      count := count[u := (if u in count then count[u] else 0) + 1];
      i := i + 1;
    }
    assert page[..i] == page;
  }

  /** The anchors a full page completes: one at least. */
  lemma FullPageCompletes(page: seq<InRow>, order: seq<Value>, chunk: seq<Value>, answer: Value -> seq<Fact>, cap: nat, done: set<Value>)
    requires NoDup(order) && NoDup(chunk) && chunk != [] && Elements(chunk) <= Elements(order)
    requires page == Page(order, Elements(chunk), (cap + 1) * |chunk|, answer)
    requires |page| == (cap + 1) * |chunk|
    requires done == set r | r in page && (r.via != page[|page| - 1].via || |Of(page, r.via)| > cap) :: r.via
    ensures done <= Elements(chunk) && done != {}
    ensures forall v :: v in done ==> Enough(Of(page, v), answer(v), cap)
  {
    var keys := Among(order, Elements(chunk));
    AmongElements(order, Elements(chunk));
    var n := |page|;
    assert n >= cap + 1 by { AtLeastOne(cap, |chunk|); }
    assert page == Concat(keys, answer)[..n];
    var last := page[n - 1].via;
    forall v | v in done
      ensures v in Elements(chunk) && Enough(Of(page, v), answer(v), cap)
    {
      var i :| 0 <= i < n && page[i].via == v;
      SomeRow(page, v, i);
      PagePrefix(keys, answer, n, v);
    }
    if r :| r in page && r.via != last {
      assert r.via in done;
    } else {
      AllRows(page, last);
      assert page[n - 1] in page;
      assert last in done;
    }
  }

  lemma AtLeastOne(cap: nat, n: nat)
    requires n > 0
    ensures (cap + 1) * n >= cap + 1
  {
  }

  lemma PrefixNoDup<T>(s: seq<T>, n: nat)
    requires NoDup(s) && n <= |s|
    ensures NoDup(s[..n]) && NoDup(s[n..])
    ensures Elements(s[..n]) + Elements(s[n..]) == Elements(s)
    ensures Elements(s[..n]) !! Elements(s[n..])
  {
    assert s == s[..n] + s[n..];
  }

  ghost predicate Served(rows: seq<InRow>, answer: Value -> seq<Fact>, ask: set<Value>, left: set<Value>, cap: nat) {
    && (forall r :: r in rows ==> r.via in ask - left)
    && forall v :: v in ask && v !in left ==> Enough(Of(rows, v), answer(v), cap)
  }

  /** Rows read for some of the keys left serve them. */
  lemma ServeMore(rows: seq<InRow>, more: seq<InRow>, answer: Value -> seq<Fact>, ask: set<Value>,
                  left: set<Value>, still: set<Value>, cap: nat)
    requires Served(rows, answer, ask, left, cap)
    requires still <= left <= ask
    requires forall r :: r in more ==> r.via in left - still
    requires forall v :: v in left && v !in still ==> Enough(Of(more, v), answer(v), cap)
    ensures Served(rows + more, answer, ask, still, cap)
  {
    forall v | v in ask && v !in still
      ensures Enough(Of(rows + more, v), answer(v), cap)
    {
      OfConcat(rows, more, v);
      if v in left {
        NoRows(rows, v);
      } else {
        NoRows(more, v);
      }
    }
  }

  lemma {:induction false} KeptVias(rows: seq<InRow>, done: set<Value>)
    ensures forall r :: r in Kept(rows, done) ==> r.via in done
  {
    if rows != [] {
      KeptVias(rows[1..], done);
    }
  }

  /** The rows of every key asked for, a page at a time, at most `keysPerRead` keys in a query. */
  method ReadInward(answer: Value -> seq<Fact>, order: seq<Value>, ask: seq<Value>, cap: nat, keysPerRead: nat)
      returns (rows: seq<InRow>)
    requires keysPerRead > 0 && NoDup(ask) && NoDup(order) && Elements(ask) <= Elements(order)
    ensures Served(rows, answer, Elements(ask), {}, cap)
  {
    rows := [];
    var pending := ask;
    while pending != []
      invariant NoDup(pending) && Elements(pending) <= Elements(ask)
      invariant Served(rows, answer, Elements(ask), Elements(pending), cap)
      decreases |pending|
    {
      var size := if |pending| < keysPerRead then |pending| else keysPerRead;
      var chunk, rest := pending[..size], pending[size..];
      PrefixNoDup(pending, size);
      var limit := (cap + 1) * |chunk|;
      AtLeastOne(cap, |chunk|);
      var page := Page(order, Elements(chunk), limit, answer);
      if |page| < limit {
        ShortPageServes(page, order, chunk, answer, limit, cap);
        ServeMore(rows, page, answer, Elements(ask), Elements(pending), Elements(rest), cap);
        rows := rows + page;
        pending := rest;
        continue;
      }
      var count := CountRows(page);
      var last := page[|page| - 1].via;
      var done := set v | v in count && (v != last || count[v] > cap);
      DoneKeys(page, count, last, cap, done);
      FullPageCompletes(page, order, chunk, answer, cap, done);
      WithoutElements(pending, done);
      var k :| k in done;
      assert k in pending;
      KeptVias(page, done);
      forall v | v in done
        ensures Enough(Of(Kept(page, done), v), answer(v), cap)
      {
        OfKept(page, done, v);
      }
      ServeMore(rows, Kept(page, done), answer, Elements(ask), Elements(pending), Elements(pending) - done, cap);
      rows := rows + Kept(page, done);
      pending := Without(pending, done);
    }
  }

  lemma DoneKeys(page: seq<InRow>, count: map<Value, nat>, last: Value, cap: nat, done: set<Value>)
    requires forall v :: v in count <==> Of(page, v) != []
    requires forall v :: v in count ==> count[v] == |Of(page, v)|
    requires done == set v | v in count && (v != last || count[v] > cap)
    ensures done == set r | r in page && (r.via != last || |Of(page, r.via)| > cap) :: r.via
  {
    forall v
      ensures v in count <==> exists r :: r in page && r.via == v
    {
      if r :| r in page && r.via == v {
        var i :| 0 <= i < |page| && page[i] == r;
        SomeRow(page, v, i);
      } else {
        NoRows(page, v);
      }
    }
  }

  lemma ShortPageServes(page: seq<InRow>, order: seq<Value>, chunk: seq<Value>, answer: Value -> seq<Fact>, limit: nat, cap: nat)
    requires NoDup(order) && NoDup(chunk) && Elements(chunk) <= Elements(order)
    requires page == Page(order, Elements(chunk), limit, answer) && |page| < limit
    ensures forall r :: r in page ==> r.via in Elements(chunk)
    ensures forall v :: v in Elements(chunk) ==> Enough(Of(page, v), answer(v), cap)
  {
    var keys := Among(order, Elements(chunk));
    AmongElements(order, Elements(chunk));
    assert page == Concat(keys, answer);
    forall v
      ensures Of(page, v) == if v in keys then answer(v) else []
    {
      OfAll(keys, answer, v);
    }
    assert forall v :: v in Elements(chunk) ==> v in order;
    forall r | r in page
      ensures r.via in Elements(chunk)
    {
      var i :| 0 <= i < |page| && page[i] == r;
      SomeRow(page, r.via, i);
    }
  }
}
