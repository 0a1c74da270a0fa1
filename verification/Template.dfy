/** The template: which reads fetch a label's context from the virtual graph. */
module Template {
  import opened Options
  import opened Data

  /** One read. Hop 0 is the anchor itself (no relationship). An inward read fetches the start nodes that
      point at the anchor; any other fetches the end a start node already fetched points at. */
  datatype Read = Read(hop: nat, lb: Label, rel: Option<Rel>, via: Label, inward: bool, window: Option<Prop>)

  /** The model: its labels, its relationships (sorted by type), and each label's partition property. */
  datatype Schema = Schema(labels: set<Label>, rels: seq<Rel>, partition: map<Label, Prop>)
  {
    ghost predicate Valid() {
      && NoDup(rels)
      && KindsApart(rels)
      && forall r :: r in rels ==> r.start in labels && r.end in labels
    }

    function Window(l: Label): Option<Prop> {
      if l in partition then Some(partition[l]) else None
    }
  }

  function AnchorRead(anchor: Label): Read {
    Read(0, anchor, None, anchor, false, None)
  }

  function ToOne(hop: nat, r: Rel): Read {
    Read(hop, r.end, Some(r), r.start, false, None)
  }

  predicate Touches(r: Rel, anchor: Label) {
    r.start == anchor || r.end == anchor
  }

  /** Hop 1: out of the anchor when it is the start; else into it, windowed by the start's partition. */
  function FirstHop(s: Schema, anchor: Label, r: Rel): Read {
    if r.start == anchor then ToOne(1, r)
    else Read(1, r.start, Some(r), anchor, true, s.Window(r.start))
  }

  ghost predicate HasRead(rs: seq<Read>, hop: nat, r: Rel) {
    exists q :: q in rs && q.hop == hop && q.rel == Some(r)
  }

  ghost predicate Fetches(rs: seq<Read>, hop: nat, l: Label) {
    exists q :: q in rs && q.hop == hop && q.lb == l
  }

  ghost predicate UsedBefore(rs: seq<Read>, hop: nat, kind: nat) {
    exists q :: q in rs && q.hop < hop && q.rel.Some? && q.rel.value.kind == kind
  }

  predicate ReadOf(s: Schema, anchor: Label, hops: nat, q: Read) {
    && q.rel.Some? && q.rel.value in s.rels
    && if q.hop == 1 then Touches(q.rel.value, anchor) && q == FirstHop(s, anchor, q.rel.value)
       else 2 <= q.hop <= hops && q == ToOne(q.hop, q.rel.value)
  }

  /** The reads are as they must be up to `hops`: every relationship that touches the anchor at hop 1; at
      each later hop, exactly the unused relationships out of what the hop before fetched. */
  ghost predicate IsTemplate(s: Schema, anchor: Label, hops: nat, rs: seq<Read>) {
    && |rs| > 0 && rs[0] == AnchorRead(anchor) && NoDup(rs)
    && (forall i :: 1 <= i < |rs| ==> ReadOf(s, anchor, hops, rs[i]))
    && (forall r :: r in s.rels ==> (HasRead(rs, 1, r) <==> Touches(r, anchor)))
    && (forall h, r :: 2 <= h <= hops && r in s.rels ==>
          (HasRead(rs, h, r) <==> Fetches(rs, h - 1, r.start) && !UsedBefore(rs, h, r.kind)))
  }

  /** Reads of a later hop leave what earlier hops read unchanged. */
  lemma LaterReads(rs: seq<Read>, more: seq<Read>, hop: nat)
    requires forall q :: q in more ==> q.hop >= hop
    ensures forall h: nat, r :: h < hop ==> (HasRead(rs + more, h, r) <==> HasRead(rs, h, r))
    ensures forall h: nat, l :: h < hop ==> (Fetches(rs + more, h, l) <==> Fetches(rs, h, l))
    ensures forall h: nat, k :: h <= hop ==> (UsedBefore(rs + more, h, k) <==> UsedBefore(rs, h, k))
  {
    forall h: nat, r | h < hop
      ensures HasRead(rs + more, h, r) <==> HasRead(rs, h, r)
    {
      if HasRead(rs, h, r) {
        var q :| q in rs && q.hop == h && q.rel == Some(r);
        assert q in rs + more;
      }
    }
    forall h: nat, l | h < hop
      ensures Fetches(rs + more, h, l) <==> Fetches(rs, h, l)
    {
      if Fetches(rs, h, l) {
        var q :| q in rs && q.hop == h && q.lb == l;
        assert q in rs + more;
      }
    }
    forall h: nat, k | h <= hop
      ensures UsedBefore(rs + more, h, k) <==> UsedBefore(rs, h, k)
    {
      if UsedBefore(rs, h, k) {
        var q :| q in rs && q.hop < h && q.rel.Some? && q.rel.value.kind == k;
        assert q in rs + more;
      }
    }
  }

  /** A hop's reads, appended, make the template of one hop more. */
  lemma AppendHop(s: Schema, anchor: Label, hop: nat, rs: seq<Read>, more: seq<Read>)
    requires hop >= 2 && IsTemplate(s, anchor, hop - 1, rs) && NoDup(more)
    requires forall q :: q in more ==> q.rel.Some? && q.rel.value in s.rels && q == ToOne(hop, q.rel.value)
    requires forall r :: r in s.rels ==>
               (ToOne(hop, r) in more <==> Fetches(rs, hop - 1, r.start) && !UsedBefore(rs, hop, r.kind))
    ensures IsTemplate(s, anchor, hop, rs + more)
  {
    var all := rs + more;
    LaterReads(rs, more, hop);
    assert forall q :: q in rs ==> q.hop < hop;
    assert forall i :: |rs| <= i < |all| ==> all[i] in more;
    forall i | 1 <= i < |all|
      ensures ReadOf(s, anchor, hop, all[i])
    {
      if i >= |rs| {
        assert all[i] in more;
      }
    }
    forall r | r in s.rels
      ensures HasRead(all, hop, r) <==> ToOne(hop, r) in more
    {
      if ToOne(hop, r) in more {
        assert ToOne(hop, r) in all;
      }
      if HasRead(all, hop, r) {
        var q :| q in all && q.hop == hop && q.rel == Some(r);
        assert q in more by {
          assert forall x :: x in rs ==> x.hop < hop;
        }
      }
    }
  }

  method HopOne(s: Schema, anchor: Label) returns (rs: seq<Read>)
    requires s.Valid()
    ensures IsTemplate(s, anchor, 1, rs)
  {
    rs := [AnchorRead(anchor)];
    var i := 0;
    while i < |s.rels|
      invariant i <= |s.rels|
      invariant |rs| > 0 && rs[0] == AnchorRead(anchor) && NoDup(rs)
      invariant forall j :: 1 <= j < |rs| ==>
                  && rs[j].rel.Some? && rs[j].rel.value in s.rels[..i] && Touches(rs[j].rel.value, anchor)
                  && rs[j] == FirstHop(s, anchor, rs[j].rel.value)
      invariant forall j :: 0 <= j < i && Touches(s.rels[j], anchor) ==> FirstHop(s, anchor, s.rels[j]) in rs
    {
      var r := s.rels[i];
      if r.start == anchor {
        rs := rs + [ToOne(1, r)];
      } else if r.end == anchor {
        rs := rs + [Read(1, r.start, Some(r), anchor, true, s.Window(r.start))];
      }
      i := i + 1;
    }
    forall r | r in s.rels
      ensures HasRead(rs, 1, r) <==> Touches(r, anchor)
    {
      if Touches(r, anchor) {
        assert FirstHop(s, anchor, r) in rs;
      }
    }
  }

  /** One later hop: the unused relationships out of the frontier. */
  method NextHop(s: Schema, hop: nat, used: set<nat>, frontier: set<Label>) returns (more: seq<Read>)
    requires s.Valid()
    ensures NoDup(more)
    ensures forall q :: q in more ==> q.rel.Some? && q.rel.value in s.rels && q == ToOne(hop, q.rel.value)
    ensures forall r :: r in s.rels ==> (ToOne(hop, r) in more <==> r.start in frontier && r.kind !in used)
  {
    more := [];
    var i := 0;
    while i < |s.rels|
      invariant i <= |s.rels|
      invariant NoDup(more) && forall q :: q in more ==> q.rel.Some? && q.rel.value in s.rels[..i] && q == ToOne(hop, q.rel.value)
      invariant forall q :: q in more ==> q.rel.value.start in frontier && q.rel.value.kind !in used
      invariant forall j :: 0 <= j < i && s.rels[j].start in frontier && s.rels[j].kind !in used ==> ToOne(hop, s.rels[j]) in more
    {
      var r := s.rels[i];
      if r.kind !in used && r.start in frontier {
        more := more + [ToOne(hop, r)];
      }
      i := i + 1;
    }
  }

  function Kinds(rs: seq<Read>): set<nat> {
    set q | q in rs && q.rel.Some? :: q.rel.value.kind
  }

  function Labels(rs: seq<Read>): set<Label> {
    set q | q in rs :: q.lb
  }

  /** Where BuildTemplate's loop stands before it reads `hop`: `used` and `frontier` are what its reads say. */
  ghost predicate Progress(s: Schema, anchor: Label, hop: nat, rs: seq<Read>, used: set<nat>, frontier: set<Label>) {
    && hop >= 2
    && IsTemplate(s, anchor, hop - 1, rs)
    && used == Kinds(rs)
    && (forall l :: l in frontier <==> Fetches(rs, hop - 1, l))
  }

  lemma FirstFrontier(s: Schema, anchor: Label, rs: seq<Read>)
    requires IsTemplate(s, anchor, 1, rs)
    ensures Progress(s, anchor, 2, rs, Kinds(rs), Labels(rs[1..]))
  {
    forall l | Fetches(rs, 1, l)
      ensures l in Labels(rs[1..])
    {
      var q :| q in rs && q.hop == 1 && q.lb == l;
      var i :| 0 <= i < |rs| && rs[i] == q;
      assert rs[1..][i - 1] == q;
    }
  }

  method HopMade(s: Schema, anchor: Label, hop: nat, ghost rs: seq<Read>, used: set<nat>, frontier: set<Label>, more: seq<Read>)
      returns (used': set<nat>, frontier': set<Label>)
    requires Progress(s, anchor, hop, rs, used, frontier) && NoDup(more)
    requires forall q :: q in more ==> q.rel.Some? && q.rel.value in s.rels && q == ToOne(hop, q.rel.value)
    requires forall r :: r in s.rels ==> (ToOne(hop, r) in more <==> r.start in frontier && r.kind !in used)
    ensures Progress(s, anchor, hop + 1, rs + more, used', frontier')
  {
    used' := used + Kinds(more);
    frontier' := Labels(more);
    UsedIsUsedBefore(s, anchor, hop, rs, used);
    AppendHop(s, anchor, hop, rs, more);
    KindsOfBoth(rs, more);
    FrontierOf(rs, more, hop, frontier');
  }

  lemma KindsOfBoth(rs: seq<Read>, more: seq<Read>)
    ensures Kinds(rs + more) == Kinds(rs) + Kinds(more)
  {
    forall k | k in Kinds(rs) + Kinds(more)
      ensures k in Kinds(rs + more)
    {
      var q :| (q in rs || q in more) && q.rel.Some? && q.rel.value.kind == k;
      assert q in rs + more;
    }
  }

  lemma UsedIsUsedBefore(s: Schema, anchor: Label, hop: nat, rs: seq<Read>, used: set<nat>)
    requires hop >= 2 && IsTemplate(s, anchor, hop - 1, rs)
    requires used == Kinds(rs)
    ensures forall k :: k in used <==> UsedBefore(rs, hop, k)
  {
    assert forall q :: q in rs ==> q.hop < hop;
  }

  lemma FrontierOf(rs: seq<Read>, more: seq<Read>, hop: nat, frontier: set<Label>)
    requires forall q :: q in rs ==> q.hop < hop
    requires forall q :: q in more ==> q.hop == hop
    requires frontier == Labels(more)
    ensures forall l :: l in frontier <==> Fetches(rs + more, hop, l)
  {
    forall l | l in frontier
      ensures Fetches(rs + more, hop, l)
    {
      var q :| q in more && q.lb == l;
      assert q in rs + more;
    }
  }

  /** A template's reads, field by field: the anchor's own; out of the anchor to an end, and into it from the starts, those
      windowed by the start's partition; and from then on out of what the hop before fetched, along a type no hop before
      read. Each once, and no other. */
  lemma TemplateReads(s: Schema, anchor: Label, hops: nat, rs: seq<Read>)
    requires s.Valid() && hops >= 1 && IsTemplate(s, anchor, hops, rs)
    ensures NoDup(rs) && |rs| > 0 && rs[0] == Read(0, anchor, None, anchor, false, None)
    ensures forall r :: r in s.rels ==> (Read(1, r.end, Some(r), anchor, false, None) in rs <==> r.start == anchor)
    ensures forall r :: r in s.rels ==>
              (Read(1, r.start, Some(r), anchor, true, if r.start in s.partition then Some(s.partition[r.start]) else None) in rs
               <==> r.end == anchor && r.start != anchor)
    ensures forall h, r :: 2 <= h <= hops && r in s.rels ==>
              (Read(h, r.end, Some(r), r.start, false, None) in rs
               <==> (exists q :: q in rs && q.hop == h - 1 && q.lb == r.start)
                    && !exists q :: q in rs && q.hop < h && q.rel.Some? && q.rel.value.kind == r.kind)
    ensures forall i :: 1 <= i < |rs| ==>
              && rs[i].rel.Some? && rs[i].rel.value in s.rels && 1 <= rs[i].hop <= hops
              && var r := rs[i].rel.value;
                 || (rs[i].hop == 1 && rs[i] == Read(1, r.end, Some(r), anchor, false, None))
                 || (rs[i].hop == 1 && rs[i] == Read(1, r.start, Some(r), anchor, true, if r.start in s.partition then Some(s.partition[r.start]) else None))
                 || (rs[i].hop >= 2 && rs[i] == Read(rs[i].hop, r.end, Some(r), r.start, false, None))
  {
    forall r | r in s.rels
      ensures Read(1, r.end, Some(r), anchor, false, None) in rs <==> r.start == anchor
      ensures Read(1, r.start, Some(r), anchor, true, s.Window(r.start)) in rs <==> r.end == anchor && r.start != anchor
    {
      FirstRead(s, anchor, hops, rs, r);
    }
    forall h, r | 2 <= h <= hops && r in s.rels
      ensures Read(h, r.end, Some(r), r.start, false, None) in rs
              <==> (exists q :: q in rs && q.hop == h - 1 && q.lb == r.start)
                   && !exists q :: q in rs && q.hop < h && q.rel.Some? && q.rel.value.kind == r.kind
    {
      LaterRead(s, anchor, hops, rs, h, r);
    }
  }

  lemma FirstRead(s: Schema, anchor: Label, hops: nat, rs: seq<Read>, r: Rel)
    requires IsTemplate(s, anchor, hops, rs) && r in s.rels
    ensures Read(1, r.end, Some(r), anchor, false, None) in rs <==> r.start == anchor
    ensures Read(1, r.start, Some(r), anchor, true, s.Window(r.start)) in rs <==> r.end == anchor && r.start != anchor
  {
    assert HasRead(rs, 1, r) <==> Touches(r, anchor);
    forall q | q in rs && q.hop == 1 && q.rel == Some(r)
      ensures q == FirstHop(s, anchor, r)
    {
      var i :| 0 <= i < |rs| && rs[i] == q;
    }
  }

  lemma LaterRead(s: Schema, anchor: Label, hops: nat, rs: seq<Read>, h: nat, r: Rel)
    requires IsTemplate(s, anchor, hops, rs) && 2 <= h <= hops && r in s.rels
    ensures Read(h, r.end, Some(r), r.start, false, None) in rs
            <==> (exists q :: q in rs && q.hop == h - 1 && q.lb == r.start)
                 && !exists q :: q in rs && q.hop < h && q.rel.Some? && q.rel.value.kind == r.kind
  {
    assert HasRead(rs, h, r) <==> Fetches(rs, h - 1, r.start) && !UsedBefore(rs, h, r.kind);
    forall q | q in rs && q.hop == h && q.rel == Some(r)
      ensures q == ToOne(h, r)
    {
      var i :| 0 <= i < |rs| && rs[i] == q;
    }
  }

  /** The template's reads, or None for a label the virtual graph does not have. */
  method BuildTemplate(s: Schema, anchor: Label, hops: nat) returns (result: Option<seq<Read>>)
    requires s.Valid()
    ensures result.Some? <==> anchor in s.labels
    ensures result.Some? ==> IsTemplate(s, anchor, if hops == 0 then 1 else hops, result.value)
    ensures result.Some? ==> forall q :: q in result.value && q.inward ==>
              && q.rel.Some? && q.rel.value in s.rels && q.rel.value.end == anchor && q.rel.value.start == q.lb && q.lb != anchor
              && q.window == if q.lb in s.partition then Some(s.partition[q.lb]) else None
    ensures result.Some? ==> forall r :: r in s.rels && r.end == anchor && r.start != anchor ==>
              exists q :: q in result.value && q.inward && q.hop == 1 && q.rel == Some(r) && q.lb == r.start && q.via == anchor
    ensures result.Some? ==> forall r :: r in s.rels && r.start == anchor ==>
              exists q :: q in result.value && !q.inward && q.hop == 1 && q.rel == Some(r) && q.lb == r.end && q.via == anchor
  {
    if anchor !in s.labels {
      return None;
    }
    var rs := HopOne(s, anchor);
    var used := Kinds(rs);
    var frontier := Labels(rs[1..]);
    FirstFrontier(s, anchor, rs);
    var hop := 2;
    while hop <= hops
      invariant 2 <= hop && (hop <= hops + 1 || hop == 2)
      invariant Progress(s, anchor, hop, rs, used, frontier)
      decreases hops + 1 - hop
    {
      var more := NextHop(s, hop, used, frontier);
      used, frontier := HopMade(s, anchor, hop, rs, used, frontier, more);
      rs := rs + more;
      hop := hop + 1;
    }
    TemplateReads(s, anchor, if hops == 0 then 1 else hops, rs);
    return Some(rs);
  }

  /** What a template promises a batch: one anchor read; inward reads at hop 1 only, on the anchor's own key;
      a to-one read keyed on a label fetched a hop earlier. */
  ghost predicate WellFormed(rs: seq<Read>, anchor: Label) {
    && |rs| > 0 && rs[0] == AnchorRead(anchor)
    && forall i :: 1 <= i < |rs| ==>
         var q := rs[i];
         && q.hop >= 1 && q.rel.Some?
         && (q.inward ==> q.hop == 1 && q.via == anchor && q.rel.value.end == anchor && q.lb == q.rel.value.start && q.lb != anchor)
         && (!q.inward ==> q.via == q.rel.value.start && q.lb == q.rel.value.end && q.window.None?
                           && Fetches(rs, q.hop - 1, q.via))
  }

  lemma TemplateIsWellFormed(s: Schema, anchor: Label, hops: nat, rs: seq<Read>)
    requires IsTemplate(s, anchor, hops, rs)
    ensures WellFormed(rs, anchor)
  {
    forall i | 1 <= i < |rs| && !rs[i].inward
      ensures Fetches(rs, rs[i].hop - 1, rs[i].via)
    {
      var q := rs[i];
      if q.hop == 1 {
        assert AnchorRead(anchor) in rs;
      } else {
        assert q in rs;
        assert HasRead(rs, q.hop, q.rel.value);
      }
    }
  }

  /** Each relationship is read at one hop only. */
  lemma EachRelationshipOnce(s: Schema, anchor: Label, hops: nat, rs: seq<Read>, p: Read, q: Read)
    requires s.Valid() && IsTemplate(s, anchor, hops, rs)
    requires p in rs && q in rs && p.rel.Some? && q.rel.Some?
    requires p.rel.value.kind == q.rel.value.kind
    ensures p == q
  {
    var i :| 0 <= i < |rs| && rs[i] == p;
    var j :| 0 <= j < |rs| && rs[j] == q;
    assert p.rel.value == q.rel.value;
    if q.hop >= 2 {
      LaterReadUnused(s, anchor, hops, rs, q);
    }
    if p.hop >= 2 {
      LaterReadUnused(s, anchor, hops, rs, p);
    }
  }

  lemma LaterReadUnused(s: Schema, anchor: Label, hops: nat, rs: seq<Read>, q: Read)
    requires IsTemplate(s, anchor, hops, rs)
    requires q in rs && q.hop >= 2
    ensures q.rel.Some? && !UsedBefore(rs, q.hop, q.rel.value.kind)
  {
    assert HasRead(rs, q.hop, q.rel.value);
  }
}
