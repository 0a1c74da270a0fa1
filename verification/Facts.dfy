/** What conversations learn: facts, each superseding the owner's current one about the same thing. */
module Facts {
  import opened Options

  type Id = nat

  /** What a fact says something of: its owner's `about` (the source's predicate) of a node. */
  datatype Subject = Subject(owner: nat, node: nat, about: nat)

  datatype Fact = Fact(subject: Subject, value: nat, validFrom: nat, validUntil: Option<nat>)

  type Memory = map<Id, Fact>

  datatype Because = Changed | Corrected

  predicate Current(m: Memory, id: Id, s: Subject) {
    id in m && m[id].subject == s && m[id].validUntil.None?
  }

  predicate HoldsAt(f: Fact, t: nat) {
    f.validFrom <= t && (f.validUntil.Some? ==> t < f.validUntil.value)
  }

  // ---- the two statements

  /** FACT: the new fact, holding from now. */
  function State(m: Memory, id: Id, s: Subject, value: nat, now: nat): Memory {
    m[id := Fact(s, value, now, None)]
  }

  /** SUPERSEDE: the owner's other current facts about the same thing: held until now, or, corrected, never held. */
  function Supersede(m: Memory, id: Id, s: Subject, because: Because, now: nat): (r: Memory)
    ensures id !in m ==> r == m
  {
    if id !in m then m
    else map i | i in m :: if i != id && Current(m, i, s) then m[i].(validUntil := Some(if because == Corrected then m[i].validFrom else now)) else m[i]
  }

  // ---- one learn after another

  /** What a memory written by one learn after another keeps: nothing holds from later than now, at most one fact of a
      subject is current, and no two ever hold at once. */
  ghost predicate Consistent(m: Memory, now: nat) {
    && (forall i :: i in m ==> m[i].validFrom <= now && (m[i].validUntil.Some? ==> m[i].validUntil.value <= now))
    && (forall i, k, s :: Current(m, i, s) && Current(m, k, s) ==> i == k)
    && (forall i, k, t: nat :: i in m && k in m && i != k && m[i].subject == m[k].subject ==> !(HoldsAt(m[i], t) && HoldsAt(m[k], t)))
  }

  function Learned(m: Memory, id: Id, s: Subject, value: nat, because: Because, now: nat): Memory {
    Supersede(State(m, id, s, value, now), id, s, because, now)
  }

  /** What one learn does to each fact. */
  lemma LearnedIs(m: Memory, id: Id, s: Subject, value: nat, because: Because, now: nat)
    requires id !in m
    ensures var after := Learned(m, id, s, value, because, now);
            && after.Keys == m.Keys + {id} && after[id] == Fact(s, value, now, None)
            && (forall i :: Current(m, i, s) ==> after[i] == m[i].(validUntil := Some(if because == Corrected then m[i].validFrom else now)))
            && (forall i :: i in m && !Current(m, i, s) ==> after[i] == m[i])
  {
  }

  /** The learned fact is then its subject's one current fact; a fact it corrected holds at no time, one it changed
      until now; and what held of anything else, or before, still does. */
  lemma LearnedSupersedes(m: Memory, id: Id, s: Subject, value: nat, because: Because, now: nat)
    requires id !in m && Consistent(m, now)
    ensures var after := Learned(m, id, s, value, because, now);
            && Consistent(after, now)
            && (forall i :: Current(after, i, s) <==> i == id)
            && (forall t: nat :: HoldsAt(after[id], t) <==> t >= now)
            && (forall i, t: nat :: Current(m, i, s) ==> (HoldsAt(after[i], t) <==> because == Changed && HoldsAt(m[i], t) && t < now))
            && (forall i :: i in m && !Current(m, i, s) ==> after[i] == m[i])
  {
    hide Supersede, State, Learned;
    LearnedIs(m, id, s, value, because, now);
    var after := Learned(m, id, s, value, because, now);
    forall i, k, t: nat | i in after && k in after && i != k && after[i].subject == after[k].subject
      ensures !(HoldsAt(after[i], t) && HoldsAt(after[k], t))
    {
      if i != id && k != id {
        assert !(HoldsAt(m[i], t) && HoldsAt(m[k], t));
        assert HoldsAt(after[i], t) ==> HoldsAt(m[i], t);
        assert HoldsAt(after[k], t) ==> HoldsAt(m[k], t);
      }
    }
    forall i, k, x | Current(after, i, x) && Current(after, k, x)
      ensures i == k
    {
      assert i != id ==> Current(m, i, x);
      assert k != id ==> Current(m, k, x);
    }
  }

  ghost predicate SomethingHolds(m: Memory, s: Subject, t: nat) {
    exists i :: i in m && m[i].subject == s && HoldsAt(m[i], t)
  }

  /** From some time on, something always holds of the subject. */
  ghost predicate AlwaysHeld(m: Memory, s: Subject, since: nat) {
    forall t: nat :: t >= since ==> SomethingHolds(m, s, t)
  }

  /** A change leaves no gap: whenever something held of the subject, something still does. */
  lemma ChangeLeavesNoGap(m: Memory, id: Id, s: Subject, value: nat, now: nat, since: nat)
    requires id !in m && Consistent(m, now) && AlwaysHeld(m, s, since)
    ensures AlwaysHeld(Learned(m, id, s, value, Changed, now), s, since)
  {
    hide Supersede, State, Learned;
    LearnedIs(m, id, s, value, Changed, now);
    var after := Learned(m, id, s, value, Changed, now);
    forall t: nat | t >= since
      ensures SomethingHolds(after, s, t)
    {
      assert SomethingHolds(m, s, t);
      if t >= now {
        assert HoldsAt(after[id], t);
      } else {
        var i :| i in m && m[i].subject == s && HoldsAt(m[i], t);
        assert HoldsAt(after[i], t);
      }
    }
  }

  /** The facts of memory, as conversations that never overlap write them. */
  class Knowledge {
    var facts: Memory
    var clock: nat

    ghost predicate Valid()
      reads this
    {
      Consistent(facts, clock)
    }

    constructor ()
      ensures Valid() && facts == map[]
    {
      facts, clock := map[], 0;
    }

    /** A fact about a thing: stated, then its owner's current one superseded. */
    method Learn(id: Id, s: Subject, value: nat, because: Because, now: nat)
      requires Valid() && id !in facts && clock <= now
      modifies this
      ensures Valid() && clock == now && facts == Learned(old(facts), id, s, value, because, now)
      ensures forall i :: Current(facts, i, s) <==> i == id
      ensures because == Corrected ==> forall i, t: nat :: Current(old(facts), i, s) ==> !HoldsAt(facts[i], t)
    {
      hide Supersede, Current, State, HoldsAt;
      Later(facts, clock, now);
      LearnedSupersedes(facts, id, s, value, because, now);
      facts := State(facts, id, s, value, now);
      facts := Supersede(facts, id, s, because, now);
      clock := now;
    }
  }

  lemma Later(m: Memory, was: nat, now: nat)
    requires Consistent(m, was) && was <= now
    ensures Consistent(m, now)
  {
  }

  // ---- many conversations at once, statement by statement

  datatype Stage = Ready | Stated | Done

  /** A learn under way: its clock was read before its first statement. */
  datatype Call = Call(id: Id, subject: Subject, value: nat, because: Because, now: nat, stage: Stage)

  datatype World = World(facts: Memory, calls: seq<Call>)

  /** Only how far each call has come differs. */
  ghost predicate SameCalls(w: World, r: World) {
    |r.calls| == |w.calls| && forall k :: 0 <= k < |w.calls| ==> r.calls[k] == w.calls[k].(stage := r.calls[k].stage)
  }

  /** The i-th call's next statement. */
  function Step(w: World, i: nat): (r: World)
    ensures SameCalls(w, r)
  {
    if i >= |w.calls| then w
    else
      var c := w.calls[i];
      match c.stage
      case Ready => World(State(w.facts, c.id, c.subject, c.value, c.now), w.calls[i := c.(stage := Stated)])
      case Stated => World(Supersede(w.facts, c.id, c.subject, c.because, c.now), w.calls[i := c.(stage := Done)])
      case Done => w
  }

  /** An interleaving: whose statement runs at each step. */
  function Run(w: World, steps: seq<nat>): (r: World)
    ensures SameCalls(w, r)
  {
    if steps == [] then w else Step(Run(w, steps[..|steps| - 1]), steps[|steps| - 1])
  }

  predicate Pending(w: World, id: Id) {
    exists i :: 0 <= i < |w.calls| && w.calls[i].id == id && w.calls[i].stage == Stated
  }

  /** The calls' ids are their own; a fact not yet stated is not there, one stated is about its call's subject; and of
      the facts whose learn is over, at most one of a subject is current. */
  ghost predicate Settled(w: World) {
    && (forall i, k :: 0 <= i < k < |w.calls| ==> w.calls[i].id != w.calls[k].id)
    && (forall i :: 0 <= i < |w.calls| ==> if w.calls[i].stage == Ready then w.calls[i].id !in w.facts
                                            else w.calls[i].id in w.facts && w.facts[w.calls[i].id].subject == w.calls[i].subject)
    && (forall x, y, s :: Current(w.facts, x, s) && Current(w.facts, y, s) && !Pending(w, x) && !Pending(w, y) ==> x == y)
  }

  lemma StepSettles(w: World, i: nat)
    requires Settled(w)
    ensures Settled(Step(w, i))
  {
    if i < |w.calls| {
      var c, after := w.calls[i], Step(w, i);
      forall x, y, s | Current(after.facts, x, s) && Current(after.facts, y, s) && !Pending(after, x) && !Pending(after, y)
        ensures x == y
      {
        StepCurrent(w, i, x, s);
        StepCurrent(w, i, y, s);
      }
    }
  }

  /** A fact current and over after a step was so before it, or is the one the step ends the learn of, which then is
      its subject's only current one. */
  lemma StepCurrent(w: World, i: nat, x: Id, s: Subject)
    requires Settled(w) && i < |w.calls| && Current(Step(w, i).facts, x, s) && !Pending(Step(w, i), x)
    ensures Current(w.facts, x, s)
    ensures w.calls[i].stage == Stated && w.calls[i].subject == s ==> x == w.calls[i].id
    ensures !(w.calls[i].stage == Stated && w.calls[i].subject == s) ==> !Pending(w, x)
  {
  }

  lemma {:induction false} RunSettles(w: World, steps: seq<nat>)
    requires Settled(w)
    ensures Settled(Run(w, steps))
  {
    if steps != [] {
      RunSettles(w, steps[..|steps| - 1]);
      StepSettles(Run(w, steps[..|steps| - 1]), steps[|steps| - 1]);
    }
  }

  /** Whatever the interleaving, once every learn is over at most one fact of a subject is current. */
  lemma AtMostOneCurrent(w: World, steps: seq<nat>, s: Subject, x: Id, y: Id)
    requires Settled(w) && forall i :: 0 <= i < |w.calls| ==> Run(w, steps).calls[i].stage == Done
    requires Current(Run(w, steps).facts, x, s) && Current(Run(w, steps).facts, y, s)
    ensures x == y
  {
    RunSettles(w, steps);
  }

  /** The p-th step supersedes, for another call, the i-th call's fact. */
  ghost predicate SupersededAt(w: World, steps: seq<nat>, i: nat, p: nat)
    requires i < |w.calls| && p < |steps|
  {
    var before, j := Run(w, steps[..p]), steps[p];
    && j != i && j < |w.calls| && before.calls[j].stage == Stated && w.calls[j].subject == w.calls[i].subject
    && w.calls[i].id in before.facts
  }

  lemma {:induction false} FactsStay(w: World, steps: seq<nat>, p: nat)
    requires p <= |steps|
    ensures Run(w, steps[..p]).facts.Keys <= Run(w, steps).facts.Keys
    decreases |steps|
  {
    if p < |steps| {
      FactsStay(w, steps[..|steps| - 1], p);
      assert steps[..|steps| - 1][..p] == steps[..p];
    } else {
      assert steps[..p] == steps;
    }
  }

  /** A call's fact is current exactly when it is stated and no other call about the same thing superseded since. */
  lemma {:induction false} CurrentExactly(w: World, steps: seq<nat>, i: nat)
    requires Settled(w) && i < |w.calls| && w.calls[i].stage == Ready
    ensures Current(Run(w, steps).facts, w.calls[i].id, w.calls[i].subject)
            <==> w.calls[i].id in Run(w, steps).facts && forall p :: 0 <= p < |steps| ==> !SupersededAt(w, steps, i, p)
  {
    if steps != [] {
      hide Run, Step, SupersededAt, Settled;
      var n := |steps| - 1;
      var earlier := steps[..n];
      CurrentExactly(w, earlier, i);
      RunSettles(w, earlier);
      forall p | 0 <= p < n
        ensures SupersededAt(w, steps, i, p) <==> SupersededAt(w, earlier, i, p)
        ensures SupersededAt(w, steps, i, p) ==> w.calls[i].id in Run(w, earlier).facts
      {
        SupersededBefore(w, steps, i, p);
      }
      StepOn(w, Run(w, earlier), steps[n], i);
      LastStep(w, steps, i);
    }
  }

  lemma {:induction false} SupersededBefore(w: World, steps: seq<nat>, i: nat, p: nat)
    requires i < |w.calls| && p < |steps| - 1
    ensures SupersededAt(w, steps, i, p) <==> SupersededAt(w, steps[..|steps| - 1], i, p)
    ensures SupersededAt(w, steps, i, p) ==> w.calls[i].id in Run(w, steps[..|steps| - 1]).facts
  {
    hide Run;
    var earlier := steps[..|steps| - 1];
    assert steps[..p] == earlier[..p] && steps[p] == earlier[p];
    FactsStay(w, earlier, p);
  }

  lemma LastStep(w: World, steps: seq<nat>, i: nat)
    requires i < |w.calls| && steps != []
    ensures var n := |steps| - 1;
            var before, j := Run(w, steps[..n]), steps[n];
            && Run(w, steps) == Step(before, j)
            && (SupersededAt(w, steps, i, n) <==>
                  w.calls[i].id in before.facts
                  && j != i && j < |w.calls| && before.calls[j].stage == Stated && w.calls[j].subject == w.calls[i].subject)
  {
  }

  /** One statement more: it states the call's fact, or supersedes it for another call, or leaves it as it is. */
  lemma StepOn(w: World, before: World, j: nat, i: nat)
    requires SameCalls(w, before) && Settled(before) && i < |w.calls|
    ensures var id, s, after := w.calls[i].id, w.calls[i].subject, Step(before, j);
            && (id in before.facts ==> id in after.facts)
            && (id !in before.facts && id in after.facts ==> Current(after.facts, id, s) && (j >= |w.calls| || j == i))
            && (id in before.facts ==>
                  (Current(after.facts, id, s) <==>
                     Current(before.facts, id, s)
                     && !(j != i && j < |w.calls| && before.calls[j].stage == Stated && w.calls[j].subject == s)))
  {
    if j < |w.calls| && j != i {
      assert before.calls[j].id != before.calls[i].id;
    }
  }

  /** Two conversations that learn of the same thing at once can leave no fact of it current. */
  lemma NoneCurrent(s: Subject, now: nat)
    ensures var w := World(map[], [Call(0, s, 1, Changed, now, Ready), Call(1, s, 2, Changed, now, Ready)]);
            var end := Run(w, [0, 1, 0, 1]);
            && Settled(w) && (forall i :: 0 <= i < 2 ==> end.calls[i].stage == Done)
            && !Current(end.facts, 0, s) && !Current(end.facts, 1, s) && end.facts.Keys == {0, 1}
  {
    var w := World(map[], [Call(0, s, 1, Changed, now, Ready), Call(1, s, 2, Changed, now, Ready)]);
    hide Run, Step;
    BothStated(s, now);
    RunFour(w);
  }

  lemma BothStated(s: Subject, now: nat)
    ensures var w := World(map[], [Call(0, s, 1, Changed, now, Ready), Call(1, s, 2, Changed, now, Ready)]);
            var end := Step(Step(Step(Step(w, 0), 1), 0), 1);
            && end.facts == map[0 := Fact(s, 1, now, Some(now)), 1 := Fact(s, 2, now, Some(now))]
            && end.calls == [Call(0, s, 1, Changed, now, Done), Call(1, s, 2, Changed, now, Done)]
  {
    var c, d := Call(0, s, 1, Changed, now, Ready), Call(1, s, 2, Changed, now, Ready);
    var w := World(map[], [c, d]);
    var w2 := Step(Step(w, 0), 1);
    assert w2 == World(map[0 := Fact(s, 1, now, None), 1 := Fact(s, 2, now, None)], [c.(stage := Stated), d.(stage := Stated)]);
    var w3 := Step(w2, 0);
    assert w3.facts == map[0 := Fact(s, 1, now, None), 1 := Fact(s, 2, now, Some(now))];
    assert w3.calls == [c.(stage := Done), d.(stage := Stated)];
  }

  lemma RunFour(w: World)
    ensures Run(w, [0, 1, 0, 1]) == Step(Step(Step(Step(w, 0), 1), 0), 1)
  {
    hide Step;
    RunNext(w, [], 0);
    RunNext(w, [0], 1);
    RunNext(w, [0, 1], 0);
    RunNext(w, [0, 1, 0], 1);
    assert [] + [0] == [0] && [0] + [1] == [0, 1] && [0, 1] + [0] == [0, 1, 0] && [0, 1, 0] + [1] == [0, 1, 0, 1];
  }

  lemma RunNext(w: World, steps: seq<nat>, i: nat)
    ensures Run(w, steps + [i]) == Step(Run(w, steps), i)
  {
    assert (steps + [i])[..|steps|] == steps;
  }
}
