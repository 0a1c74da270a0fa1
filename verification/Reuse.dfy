/** Answers given again from memory: each ask's step, the step whose answer it repeats, and its asker's verdicts. */
module Reuse {
  import opened Options

  type Id = nat
  type Request = nat
  type Answer = nat

  /** An ask's step: once over, it has the request it was asked as; a reused answer is the same as another step's. */
  datatype Step = Step(owner: nat, at: nat, ok: bool, asked: Option<Request>, answer: Option<Answer>, holdsUntil: Option<nat>, sameAs: Option<Id>)

  /** The steps, and the (owner, step) of each rejection. */
  datatype Memory = Memory(steps: map<Id, Step>, rejected: set<(nat, Id)>)

  /** The owner rejected the step's answer, given first or again. */
  predicate Rejected(m: Memory, owner: nat, s: Id) {
    exists r :: r in m.rejected && r.0 == owner && (r.1 == s || (r.1 in m.steps && m.steps[r.1].sameAs == Some(s)))
  }

  /** REMEMBERED's conditions: the owner's own answered step of the same request, still holding, itself no copy, and
      never rejected. */
  predicate Reusable(m: Memory, owner: nat, asked: Request, now: nat, s: Id) {
    s in m.steps && var step := m.steps[s];
    && step.owner == owner && step.asked == Some(asked) && step.ok && step.answer.Some?
    && (step.holdsUntil.None? || step.holdsUntil.value > now) && step.sameAs.None?
    && !Rejected(m, owner, s)
  }

  /** What REMEMBERED may return: a latest reusable step, or none. */
  ghost predicate IsRemembered(m: Memory, owner: nat, asked: Request, now: nat, hit: Option<Id>) {
    match hit
    case None => forall s :: s in m.steps ==> !Reusable(m, owner, asked, now, s)
    case Some(h) => Reusable(m, owner, asked, now, h) && forall s :: s in m.steps && Reusable(m, owner, asked, now, s) ==> m.steps[s].at <= m.steps[h].at
  }

  // ---- the statements

  function Create(m: Memory, id: Id, owner: nat, now: nat): Memory {
    m.(steps := m.steps[id := Step(owner, now, false, None, None, None, None)])
  }

  /** A statement about a step that is gone changes nothing. */
  function Attach(m: Memory, id: Id, ok: bool): Memory {
    if id in m.steps then m.(steps := m.steps[id := m.steps[id].(ok := ok)]) else m
  }

  /** KEEP: the step's request, its answer unless it was cut short, and the time that stops holding. */
  function Keep(m: Memory, id: Id, asked: Request, answer: Option<Answer>, holdsUntil: Option<nat>): Memory {
    if id in m.steps then m.(steps := m.steps[id := m.steps[id].(asked := Some(asked), answer := answer, holdsUntil := holdsUntil)]) else m
  }

  function SameAs(m: Memory, id: Id, was: Id): Memory {
    if id in m.steps && was in m.steps then
      var w := m.steps[was];
      m.(steps := m.steps[id := m.steps[id].(asked := w.asked, answer := w.answer, holdsUntil := w.holdsUntil, sameAs := Some(was))])
    else m
  }

  function Reject(m: Memory, owner: nat, id: Id): Memory {
    if id in m.steps then m.(rejected := m.rejected + {(owner, id)}) else m
  }

  function Unlinked(s: Step, gone: set<Id>): Step {
    if s.sameAs.Some? && s.sameAs.value in gone then s.(sameAs := None) else s
  }

  /** What a sweep of expired conversations leaves: not their steps, nor the rejections of them, which were said in
      them too; a copy of a step that went is linked to nothing. */
  function Swept(m: Memory, gone: set<Id>): Memory {
    Memory(map id | id in m.steps && id !in gone :: Unlinked(m.steps[id], gone), set r | r in m.rejected && r.1 !in gone)
  }

  // ---- many conversations, statement by statement

  /** What a conversation's ask has come to. */
  datatype Doing =
    | Idle
    | Looked(asked: Request, now: nat, hit: Option<Id>)
    | Made(id: Id, asked: Request, now: nat, hit: Option<Id>)
    | Attached(id: Id, asked: Request, now: nat, hit: Option<Id>)

  datatype Talk = Talk(owner: nat, doing: Doing, lastAsk: Option<Id>)

  /** The ids made so far are all told apart, those of steps that are gone included. */
  datatype World = World(m: Memory, talks: seq<Talk>, used: set<Id>)

  datatype Action =
    | Look(asked: Request, now: nat, hit: Option<Id>)
    | Make(id: Id, at: nat)
    | Finish(ok: bool)
    | Give(answer: Option<Answer>, holdsUntil: Option<nat>)
    | Verdict
    | Sweep(gone: set<Id>)

  /** Whether a conversation may take the action now: it looks first, makes its step, attaches it, and gives the answer,
      the one found (SAME_AS) or a new one (KEEP); between asks, its user may reject the last answer. A sweep may come at
      any time and take any steps, of conversations under way too. */
  ghost predicate May(w: World, i: nat, a: Action) {
    if a.Sweep? then true
    else if i >= |w.talks| then false
    else
      var t := w.talks[i];
      match a
      case Look(asked, now, hit) => t.doing.Idle? && IsRemembered(w.m, t.owner, asked, now, hit)
      case Make(id, _) => t.doing.Looked? && id !in w.used
      case Finish(ok) => t.doing.Made? && (t.doing.hit.Some? ==> ok)
      case Give(_, _) => t.doing.Attached?
      case Verdict => t.doing.Idle? && t.lastAsk.Some?
  }

  ghost function Do(w: World, i: nat, a: Action): World
    requires May(w, i, a)
  {
    if a.Sweep? then w.(m := Swept(w.m, a.gone))
    else
      var t := w.talks[i];
      match a
      case Look(asked, now, hit) => w.(talks := w.talks[i := t.(doing := Looked(asked, now, hit))])
      case Make(id, at) =>
        World(Create(w.m, id, t.owner, at), w.talks[i := t.(doing := Made(id, t.doing.asked, t.doing.now, t.doing.hit))], w.used + {id})
      case Finish(ok) =>
        w.(m := Attach(w.m, t.doing.id, ok), talks := w.talks[i := t.(doing := Attached(t.doing.id, t.doing.asked, t.doing.now, t.doing.hit))])
      case Give(answer, holdsUntil) =>
        w.(m := if t.doing.hit.Some? then SameAs(w.m, t.doing.id, t.doing.hit.value) else Keep(w.m, t.doing.id, t.doing.asked, answer, holdsUntil),
           talks := w.talks[i := t.(doing := Idle, lastAsk := Some(t.doing.id))])
      case Verdict => w.(m := Reject(w.m, t.owner, t.lastAsk.value))
  }

  // ---- what every step keeps

  /** A reused answer is its original's, which succeeded: the same owner's, request, answer and hold; and the original
      is no copy. */
  predicate OneDeep(m: Memory, id: Id) {
    id in m.steps && (m.steps[id].sameAs.Some? ==>
      var was := m.steps[id].sameAs.value;
      was in m.steps && m.steps[was].sameAs.None? && SameAnswer(m.steps[id], m.steps[was]))
  }

  predicate SameAnswer(s: Step, was: Step) {
    && s.owner == was.owner && s.ok && was.ok && s.asked == was.asked && s.asked.Some?
    && s.answer == was.answer && s.answer.Some? && s.holdsUntil == was.holdsUntil
  }

  predicate Making(t: Talk) {
    t.doing.Made? || t.doing.Attached?
  }

  /** The step was made, and no conversation is making it. */
  predicate Done(w: World, id: Id) {
    id in w.used && forall k :: 0 <= k < |w.talks| && Making(w.talks[k]) ==> w.talks[k].doing.id != id
  }

  /** The answer found is its owner's, given, no copy, and held when found. */
  predicate Found(m: Memory, t: Talk, h: Id)
    requires !t.doing.Idle?
  {
    h in m.steps ==>
      && m.steps[h].owner == t.owner && m.steps[h].ok && m.steps[h].asked == Some(t.doing.asked) && m.steps[h].answer.Some?
      && m.steps[h].sameAs.None? && (m.steps[h].holdsUntil.None? || m.steps[h].holdsUntil.value > t.doing.now)
  }

  /** A conversation's last step is done; the one it makes has no answer yet; the answer it found is one, unless it has
      been swept since. */
  ghost predicate Fair(w: World, t: Talk) {
    && (t.lastAsk.Some? ==> Done(w, t.lastAsk.value))
    && (Making(t) ==> t.doing.id in w.used)
    && (Making(t) && t.doing.id in w.m.steps ==>
          w.m.steps[t.doing.id].asked.None? && w.m.steps[t.doing.id].sameAs.None? && w.m.steps[t.doing.id].owner == t.owner)
    && (!t.doing.Idle? && t.doing.hit.Some? ==>
          && t.doing.hit.value in w.used && Found(w.m, t, t.doing.hit.value)
          && (t.doing.Attached? && t.doing.id in w.m.steps ==> w.m.steps[t.doing.id].ok))
  }

  ghost predicate Sound(w: World) {
    && w.m.steps.Keys <= w.used
    && (forall id :: id in w.m.steps ==> OneDeep(w.m, id))
    && (forall i :: 0 <= i < |w.talks| ==> Fair(w, w.talks[i]))
    && (forall i, k :: 0 <= i < k < |w.talks| && Making(w.talks[i]) && Making(w.talks[k]) ==> w.talks[i].doing.id != w.talks[k].doing.id)
    && (forall r :: r in w.m.rejected ==> r.1 in w.m.steps && Done(w, r.1))
  }

  /** A step no conversation is making stays as it is and done, unless a sweep takes it or its link. */
  lemma DoneStays(w: World, i: nat, a: Action, id: Id)
    requires Sound(w) && May(w, i, a) && Done(w, id)
    ensures var after := Do(w, i, a);
            && Done(after, id) && w.used <= after.used
            && (id in after.m.steps <==> id in w.m.steps && !(a.Sweep? && id in a.gone))
            && (id in after.m.steps ==> after.m.steps[id] == if a.Sweep? then Unlinked(w.m.steps[id], a.gone) else w.m.steps[id])
  {
    if !a.Sweep? {
      assert Fair(w, w.talks[i]);
    }
  }

  lemma SweptOneDeep(m: Memory, gone: set<Id>)
    requires forall id :: id in m.steps ==> OneDeep(m, id)
    ensures forall id :: id in Swept(m, gone).steps ==> OneDeep(Swept(m, gone), id)
  {
    forall id | id in Swept(m, gone).steps
      ensures OneDeep(Swept(m, gone), id)
    {
      assert OneDeep(m, id);
    }
  }

  lemma DoKeepsSteps(w: World, i: nat, a: Action)
    requires Sound(w) && May(w, i, a)
    ensures forall id :: id in Do(w, i, a).m.steps ==> OneDeep(Do(w, i, a).m, id)
  {
    var after := Do(w, i, a).m;
    if a.Sweep? {
      SweptOneDeep(w.m, a.gone);
    } else {
      assert Fair(w, w.talks[i]);
      forall id | id in after.steps
        ensures OneDeep(after, id)
      {
        assert id in w.m.steps ==> OneDeep(w.m, id);
      }
    }
  }

  lemma DoKeepsTalks(w: World, i: nat, a: Action, k: nat)
    requires Sound(w) && May(w, i, a) && k < |w.talks|
    ensures Fair(Do(w, i, a), Do(w, i, a).talks[k])
  {
    if a.Sweep? {
      SweepKeepsTalk(w, i, a, k);
    } else if i == k {
      DoKeepsOwn(w, i, a);
    } else {
      DoKeepsOther(w, i, a, k);
    }
  }

  lemma SweepKeepsTalk(w: World, i: nat, a: Action, k: nat)
    requires Sound(w) && a.Sweep? && k < |w.talks|
    ensures Fair(Do(w, i, a), Do(w, i, a).talks[k])
  {
    assert Fair(w, w.talks[k]);
  }

  lemma DoKeepsOwn(w: World, i: nat, a: Action)
    requires Sound(w) && May(w, i, a) && !a.Sweep?
    ensures Fair(Do(w, i, a), Do(w, i, a).talks[i])
  {
    assert Fair(w, w.talks[i]);
  }

  lemma DoKeepsOther(w: World, i: nat, a: Action, k: nat)
    requires Sound(w) && May(w, i, a) && !a.Sweep? && k < |w.talks| && k != i
    ensures Fair(Do(w, i, a), Do(w, i, a).talks[k])
  {
    assert Fair(w, w.talks[i]) && Fair(w, w.talks[k]);
  }

  lemma DoKeepsRejected(w: World, i: nat, a: Action)
    requires Sound(w) && May(w, i, a)
    ensures forall r :: r in Do(w, i, a).m.rejected ==> r.1 in Do(w, i, a).m.steps && Done(Do(w, i, a), r.1)
  {
    var after := Do(w, i, a);
    forall r | r in after.m.rejected
      ensures r.1 in after.m.steps && Done(after, r.1)
    {
      if !a.Sweep? {
        assert Fair(w, w.talks[i]);
      }
      DoneStays(w, i, a, r.1);
    }
  }

  lemma DoKeeps(w: World, i: nat, a: Action)
    requires Sound(w) && May(w, i, a)
    ensures Sound(Do(w, i, a))
  {
    hide Done, OneDeep;
    var after := Do(w, i, a);
    DoKeepsSteps(w, i, a);
    DoKeepsRejected(w, i, a);
    if !a.Sweep? {
      assert Fair(w, w.talks[i]);
    }
    forall k | 0 <= k < |after.talks|
      ensures Fair(after, after.talks[k])
    {
      DoKeepsTalks(w, i, a, k);
    }
  }

  // ---- whole runs

  /** A run: at each step some conversation takes an action it may. */
  ghost predicate IsRun(ws: seq<World>, moves: seq<(nat, Action)>) {
    && |ws| == |moves| + 1
    && forall k :: 0 <= k < |moves| ==> May(ws[k], moves[k].0, moves[k].1) && ws[k + 1] == Do(ws[k], moves[k].0, moves[k].1)
  }

  lemma {:induction false} RunSound(ws: seq<World>, moves: seq<(nat, Action)>, k: nat)
    requires IsRun(ws, moves) && Sound(ws[0]) && k < |ws|
    ensures Sound(ws[k])
  {
    if k > 0 {
      RunSound(ws, moves, k - 1);
      DoKeeps(ws[k - 1], moves[k - 1].0, moves[k - 1].1);
    }
  }

  /** The step that first gave a step's answer. */
  function Original(m: Memory, id: Id): Id
    requires id in m.steps
  {
    if m.steps[id].sameAs.Some? then m.steps[id].sameAs.value else id
  }

  /** In every run, a copy is of a step that is no copy, with its owner, request, answer and hold. */
  lemma CopiesAreOneDeep(ws: seq<World>, moves: seq<(nat, Action)>, k: nat, id: Id)
    requires IsRun(ws, moves) && Sound(ws[0]) && k < |ws| && id in ws[k].m.steps
    ensures OneDeep(ws[k].m, id)
  {
    RunSound(ws, moves, k);
  }

  /** No sweep of the run, from here to there, takes the step and leaves the other. */
  ghost predicate TakenTogether(moves: seq<(nat, Action)>, p: nat, q: nat, id: Id, o: Id) {
    forall k :: p <= k < q < |moves| && moves[k].1.Sweep? && id in moves[k].1.gone ==> o in moves[k].1.gone
  }

  /** The original is gone, or the step is still rejected and a copy of it. */
  ghost predicate OutOfUse(w: World, owner: nat, id: Id, o: Id) {
    && Done(w, o)
    && (o in w.m.steps ==> (owner, id) in w.m.rejected && id in w.m.steps && Original(w.m, id) == o)
  }

  lemma OriginalDone(w: World, id: Id)
    requires Sound(w) && id in w.m.steps && Done(w, id)
    ensures Original(w.m, id) in w.m.steps && Done(w, Original(w.m, id))
  {
    assert OneDeep(w.m, id);
    assert forall k :: 0 <= k < |w.talks| ==> Fair(w, w.talks[k]);
  }

  lemma {:induction false} StaysOut(ws: seq<World>, moves: seq<(nat, Action)>, p: nat, q: nat, owner: nat, id: Id, o: Id)
    requires IsRun(ws, moves) && Sound(ws[0]) && p <= q < |moves| && OutOfUse(ws[p], owner, id, o) && TakenTogether(moves, p, q, id, o)
    ensures OutOfUse(ws[q], owner, id, o)
    decreases q
  {
    hide Sound, May, Do, Done;
    if p < q {
      StaysOut(ws, moves, p, q - 1, owner, id, o);
      RunSound(ws, moves, q - 1);
      NextOut(ws[q - 1], moves[q - 1].0, moves[q - 1].1, owner, id, o);
    }
  }

  lemma NextOut(w: World, i: nat, a: Action, owner: nat, id: Id, o: Id)
    requires Sound(w) && May(w, i, a) && OutOfUse(w, owner, id, o) && (a.Sweep? && id in a.gone ==> o in a.gone)
    ensures OutOfUse(Do(w, i, a), owner, id, o)
  {
    hide Done, OneDeep, Fair;
    DoneStays(w, i, a, o);
    if o in Do(w, i, a).m.steps {
      DoneStays(w, i, a, id);
    }
  }

  /** While the original is there, the copy is linked to it. */
  ghost predicate Copied(w: World, h: Id, o: Id) {
    Done(w, h) && Done(w, o) && (o in w.m.steps && h in w.m.steps ==> w.m.steps[h].sameAs == Some(o))
  }

  lemma {:induction false} StaysCopied(ws: seq<World>, moves: seq<(nat, Action)>, p: nat, q: nat, h: Id, o: Id)
    requires IsRun(ws, moves) && Sound(ws[0]) && p <= q < |ws| && Copied(ws[p], h, o)
    ensures Copied(ws[q], h, o)
    decreases q
  {
    hide Sound, May, Do, Done;
    if p < q {
      StaysCopied(ws, moves, p, q - 1, h, o);
      RunSound(ws, moves, q - 1);
      DoneStays(ws[q - 1], moves[q - 1].0, moves[q - 1].1, o);
      DoneStays(ws[q - 1], moves[q - 1].0, moves[q - 1].1, h);
    }
  }

  /** In every run, sweeps included: once an owner rejects an answer, given first or again, no ask of theirs that looks
      later finds the step that first gave it, unless a sweep took the rejected step and left that one; nor a step that
      repeated it, unless a sweep took the one it repeats. What a look finds still holds then. */
  lemma RejectedNeverAgain(ws: seq<World>, moves: seq<(nat, Action)>, p: nat, q: nat, owner: nat, id: Id)
    requires IsRun(ws, moves) && Sound(ws[0]) && p <= q < |moves| && (owner, id) in ws[p].m.rejected
    requires moves[q].1.Look? && ws[q].talks[moves[q].0].owner == owner && moves[q].1.hit.Some?
    ensures id in ws[p].m.steps && moves[q].1.hit.value in ws[q].m.steps
    ensures TakenTogether(moves, p, q, id, Original(ws[p].m, id)) ==> moves[q].1.hit.value != Original(ws[p].m, id)
    ensures var h, o := moves[q].1.hit.value, Original(ws[p].m, id);
            h in ws[p].m.steps && ws[p].m.steps[h].sameAs == Some(o) ==> o !in ws[q].m.steps
    ensures var found := ws[q].m.steps[moves[q].1.hit.value];
            found.holdsUntil.None? || found.holdsUntil.value > moves[q].1.now
  {
    RunSound(ws, moves, p);
    var h := moves[q].1.hit.value;
    assert May(ws[q], moves[q].0, moves[q].1);
    assert (owner, id).1 in ws[p].m.steps && Done(ws[p], (owner, id).1);
    var o := Original(ws[p].m, id);
    OriginalDone(ws[p], id);
    if TakenTogether(moves, p, q, id, o) {
      StaysOut(ws, moves, p, q, owner, id, o);
      assert o in ws[q].m.steps ==> Rejected(ws[q].m, owner, o);
    }
    if h in ws[p].m.steps && ws[p].m.steps[h].sameAs == Some(o) {
      CopyDone(ws[p], h);
      StaysCopied(ws, moves, p, q, h, o);
    }
  }

  lemma CopyDone(w: World, h: Id)
    requires Sound(w) && h in w.m.steps && w.m.steps[h].sameAs.Some?
    ensures Done(w, h)
  {
    assert forall k :: 0 <= k < |w.talks| ==> Fair(w, w.talks[k]);
  }

  // ---- one conversation, its asks and verdicts

  class Graph {
    var m: Memory

    constructor ()
      ensures m == Memory(map[], {})
    {
      m := Memory(map[], {});
    }
  }

  predicate Over(m: Memory, id: Id) {
    id in m.steps && m.steps[id].asked.Some?
  }

  /** What a memory keeps between asks. */
  ghost predicate Linked(m: Memory) {
    && (forall id :: id in m.steps ==> OneDeep(m, id))
    && forall r :: r in m.rejected ==> Over(m, r.1)
  }

  /** REMEMBERED: of the reusable steps, a latest. */
  method Remembered(m: Memory, owner: nat, asked: Request, now: nat) returns (hit: Option<Id>)
    ensures IsRemembered(m, owner, asked, now, hit)
  {
    hide Reusable;
    hit := None;
    var rest := m.steps.Keys;
    while rest != {}
      invariant rest <= m.steps.Keys
      invariant hit.None? ==> forall s :: s in m.steps && s !in rest ==> !Reusable(m, owner, asked, now, s)
      invariant hit.Some? ==> hit.value in m.steps && Reusable(m, owner, asked, now, hit.value)
      invariant hit.Some? ==> forall s :: s in m.steps && s !in rest && Reusable(m, owner, asked, now, s) ==> m.steps[s].at <= m.steps[hit.value].at
      decreases rest
    {
      var s :| s in rest;
      if Reusable(m, owner, asked, now, s) && (hit.None? || m.steps[hit.value].at < m.steps[s].at) {
        hit := Some(s);
      }
      rest := rest - {s};
    }
  }

  lemma FoundIs(m: Memory, owner: nat, asked: Request, now: nat, hit: Option<Id>)
    requires IsRemembered(m, owner, asked, now, hit) && hit.Some?
    ensures hit.value in m.steps && m.steps[hit.value].owner == owner && m.steps[hit.value].ok && m.steps[hit.value].asked == Some(asked)
    ensures m.steps[hit.value].answer.Some? && m.steps[hit.value].sameAs.None?
  {
  }

  /** One step more, its own answer or a copy of one that is no copy. */
  lemma LinkedWith(m: Memory, id: Id, step: Step)
    requires Linked(m) && id !in m.steps && step.asked.Some?
    requires step.sameAs.Some? ==> step.sameAs.value in m.steps && m.steps[step.sameAs.value].sameAs.None? && SameAnswer(step, m.steps[step.sameAs.value])
    ensures Linked(m.(steps := m.steps[id := step])) && Over(m.(steps := m.steps[id := step]), id)
  {
    var after := m.(steps := m.steps[id := step]);
    forall x | x in after.steps
      ensures OneDeep(after, x)
    {
      assert x != id ==> OneDeep(m, x);
    }
  }

  // ---- what a sweep brings back

  /** The step gave the answer `o` first gave: it is that step, or a copy of it. */
  predicate Gave(m: Memory, o: Id, s: Id) {
    s in m.steps && (s == o || m.steps[s].sameAs == Some(o))
  }

  /** Reusable for some request, while it holds. */
  predicate Usable(m: Memory, owner: nat, s: Id) {
    s in m.steps && m.steps[s].owner == owner && m.steps[s].asked.Some? && m.steps[s].ok && m.steps[s].answer.Some? && m.steps[s].sameAs.None?
    && !Rejected(m, owner, s)
  }

  /** A rejected answer is in use again after an audit sweep exactly when what first gave it stays while every step
      of it that was rejected goes, or it goes while a copy that was not itself rejected stays. */
  lemma SweptExactly(m: Memory, gone: set<Id>, owner: nat, o: Id)
    requires Linked(m) && o in m.steps && m.steps[o].owner == owner && m.steps[o].sameAs.None?
    requires m.steps[o].asked.Some? && m.steps[o].ok && m.steps[o].answer.Some? && Rejected(m, owner, o)
    ensures !(exists s :: Gave(m, o, s) && Usable(m, owner, s))
    ensures (exists s :: Gave(m, o, s) && Usable(Swept(m, gone), owner, s)) <==>
              if o in gone then exists s :: Gave(m, o, s) && s !in gone && (owner, s) !in m.rejected
              else forall s :: Gave(m, o, s) && (owner, s) in m.rejected ==> s in gone
  {
    var left := Swept(m, gone);
    forall s | Gave(m, o, s)
      ensures OneDeep(m, s)
    {
    }
    if o in gone {
      forall s | Gave(m, o, s)
        ensures Usable(left, owner, s) <==> s !in gone && (owner, s) !in m.rejected
      {
        OrphanUsable(m, gone, owner, o, s);
      }
    } else {
      forall s | Gave(m, o, s)
        ensures Usable(left, owner, s) <==> s == o && forall x :: Gave(m, o, x) && (owner, x) in m.rejected ==> x in gone
      {
        OriginalUsable(m, gone, owner, o, s);
      }
      assert Gave(m, o, o);
    }
  }

  lemma OrphanUsable(m: Memory, gone: set<Id>, owner: nat, o: Id, s: Id)
    requires Linked(m) && o in m.steps && o in gone && Gave(m, o, s) && m.steps[o].owner == owner && m.steps[o].sameAs.None?
    ensures Usable(Swept(m, gone), owner, s) <==> s !in gone && (owner, s) !in m.rejected
  {
    var left := Swept(m, gone);
    assert OneDeep(m, s);
    if s !in gone {
      assert left.steps[s] == m.steps[s].(sameAs := None);
      forall x | x in left.steps
        ensures left.steps[x].sameAs != Some(s)
      {
        assert OneDeep(m, x);
      }
      if Rejected(left, owner, s) {
        var r :| r in left.rejected && r.0 == owner && (r.1 == s || (r.1 in left.steps && left.steps[r.1].sameAs == Some(s)));
        assert r == (owner, s);
      }
      if (owner, s) in m.rejected {
        assert (owner, s) in left.rejected;
      }
    }
  }

  lemma OriginalUsable(m: Memory, gone: set<Id>, owner: nat, o: Id, s: Id)
    requires Linked(m) && o in m.steps && o !in gone && Gave(m, o, s) && m.steps[o].owner == owner && m.steps[o].sameAs.None?
    requires m.steps[o].asked.Some? && m.steps[o].ok && m.steps[o].answer.Some?
    ensures Usable(Swept(m, gone), owner, s) <==> s == o && forall x :: Gave(m, o, x) && (owner, x) in m.rejected ==> x in gone
  {
    var left := Swept(m, gone);
    assert OneDeep(m, s);
    if s == o {
      forall x | Gave(m, o, x) && (owner, x) in m.rejected && x !in gone
        ensures Rejected(left, owner, o)
      {
        assert (owner, x) in left.rejected;
        assert x in left.steps && (x == o || left.steps[x].sameAs == Some(o));
      }
      if Rejected(left, owner, o) {
        var r :| r in left.rejected && r.0 == owner && (r.1 == o || (r.1 in left.steps && left.steps[r.1].sameAs == Some(o)));
        assert Gave(m, o, r.1) && r == (owner, r.1);
      }
    }
  }

  /** An ask's statements with nothing in between come to what an ask does: a copy of the step found, or a step of its own. */
  lemma AskAlone(w: World, i: nat, asked: Request, now: nat, hit: Option<Id>, id: Id, ok: bool, answer: Option<Answer>, holdsUntil: Option<nat>)
    requires i < |w.talks| && w.talks[i].doing.Idle? && IsRemembered(w.m, w.talks[i].owner, asked, now, hit)
    requires id !in w.used && id !in w.m.steps && (hit.Some? ==> ok)
    ensures May(w, i, Look(asked, now, hit))
    ensures var w1 := Do(w, i, Look(asked, now, hit));
            May(w1, i, Make(id, now)) && var w2 := Do(w1, i, Make(id, now));
            May(w2, i, Finish(ok)) && var w3 := Do(w2, i, Finish(ok));
            May(w3, i, Give(answer, holdsUntil)) && var w4 := Do(w3, i, Give(answer, holdsUntil));
            && w4.m.rejected == w.m.rejected && w4.talks == w.talks[i := Talk(w.talks[i].owner, Idle, Some(id))]
            && (hit.Some? ==> hit.value in w.m.steps)
            && w4.m.steps == w.m.steps[id :=
                 if hit.Some? then
                   var was := w.m.steps[hit.value];
                   Step(w.talks[i].owner, now, true, was.asked, was.answer, was.holdsUntil, hit)
                 else Step(w.talks[i].owner, now, ok, Some(asked), answer, holdsUntil, None)]
  {
  }

  /** The owner's own answer to the request, first given, that still holds. */
  predicate IsAnswered(s: Step, owner: nat, asked: Request, now: nat) {
    s.owner == owner && s.asked == Some(asked) && s.ok && s.answer.Some? && s.sameAs.None? && (s.holdsUntil.Some? ==> s.holdsUntil.value > now)
  }

  /** Found exactly when some such answer was never rejected, as first given or as given again; and then a latest. */
  lemma RememberedIs(m: Memory, owner: nat, asked: Request, now: nat, hit: Option<Id>)
    requires IsRemembered(m, owner, asked, now, hit)
    ensures hit.None? <==> forall s :: s in m.steps && IsAnswered(m.steps[s], owner, asked, now) ==>
              exists r :: r in m.rejected && r.0 == owner && (r.1 == s || (r.1 in m.steps && m.steps[r.1].sameAs == Some(s)))
    ensures hit.Some? ==>
              && hit.value in m.steps && IsAnswered(m.steps[hit.value], owner, asked, now)
              && (forall s :: s in m.steps && IsAnswered(m.steps[s], owner, asked, now) && !Rejected(m, owner, s) ==>
                    m.steps[s].at <= m.steps[hit.value].at)
              && forall r :: r in m.rejected && r.0 == owner ==>
                   r.1 != hit.value && (r.1 in m.steps ==> m.steps[r.1].sameAs != hit)
  {
    hide Rejected;
    forall s | s in m.steps
      ensures Reusable(m, owner, asked, now, s) <==> IsAnswered(m.steps[s], owner, asked, now) && !Rejected(m, owner, s)
      ensures Rejected(m, owner, s) <==>
                exists r :: r in m.rejected && r.0 == owner && (r.1 == s || (r.1 in m.steps && m.steps[r.1].sameAs == Some(s)))
    {
      RejectedIs(m, owner, s);
    }
  }

  lemma RejectedIs(m: Memory, owner: nat, s: Id)
    ensures Rejected(m, owner, s) <==>
              exists r :: r in m.rejected && r.0 == owner && (r.1 == s || (r.1 in m.steps && m.steps[r.1].sameAs == Some(s)))
  {
  }

  class Conversation {
    const graph: Graph
    const owner: nat
    var lastAsk: Option<Id>

    ghost predicate Valid()
      reads this, graph
    {
      Linked(graph.m) && (lastAsk.Some? ==> Over(graph.m, lastAsk.value))
    }

    constructor (graph0: Graph, owner0: nat)
      requires Linked(graph0.m)
      ensures Valid() && graph == graph0 && owner == owner0 && lastAsk.None?
    {
      graph, owner, lastAsk := graph0, owner0, None;
    }

    /** A request answered before, still holding and never rejected, is answered from memory; any other anew. */
    method Ask(asked: Request, now: nat, id: Id, ok: bool, answer: Option<Answer>, holdsUntil: Option<nat>)
      returns (given: Option<Answer>, was: Option<Id>)
      requires Valid() && id !in graph.m.steps
      modifies this, graph
      ensures Valid() && lastAsk == Some(id) && graph.m.rejected == old(graph.m.rejected)
      ensures IsRemembered(old(graph.m), owner, asked, now, was)
      ensures was.Some? ==> was.value in old(graph.m).steps
      ensures was.None? <==> forall s :: s in old(graph.m).steps && IsAnswered(old(graph.m).steps[s], owner, asked, now) ==>
                exists r :: r in old(graph.m).rejected && r.0 == owner
                            && (r.1 == s || (r.1 in old(graph.m).steps && old(graph.m).steps[r.1].sameAs == Some(s)))
      ensures was.Some? ==>
                && IsAnswered(old(graph.m).steps[was.value], owner, asked, now)
                && (forall s :: s in old(graph.m).steps && IsAnswered(old(graph.m).steps[s], owner, asked, now) && !Rejected(old(graph.m), owner, s) ==>
                      old(graph.m).steps[s].at <= old(graph.m).steps[was.value].at)
                && forall r :: r in old(graph.m).rejected && r.0 == owner ==>
                     r.1 != was.value && (r.1 in old(graph.m).steps ==> old(graph.m).steps[r.1].sameAs != was)
      ensures was.Some? ==> given == old(graph.m).steps[was.value].answer
      ensures was.None? ==> given == answer
      ensures graph.m.steps == old(graph.m).steps[id :=
        if was.Some? then var w := old(graph.m).steps[was.value]; Step(owner, now, true, w.asked, w.answer, w.holdsUntil, was)
        else Step(owner, now, ok, Some(asked), answer, holdsUntil, None)]
    {
      hide IsRemembered, Linked, Over;
      ghost var before := graph.m;
      was := Remembered(graph.m, owner, asked, now);
      RememberedIs(graph.m, owner, asked, now, was);
      if was.Some? {
        FoundIs(graph.m, owner, asked, now, was);
        given := graph.m.steps[was.value].answer;
        graph.m := Create(graph.m, id, owner, now);
        graph.m := Attach(graph.m, id, true);
        graph.m := SameAs(graph.m, id, was.value);
        LinkedWith(before, id, graph.m.steps[id]);
      } else {
        given := answer;
        graph.m := Create(graph.m, id, owner, now);
        graph.m := Attach(graph.m, id, ok);
        graph.m := Keep(graph.m, id, asked, answer, holdsUntil);
        LinkedWith(before, id, graph.m.steps[id]);
      }
      assert graph.m == before.(steps := before.steps[id := graph.m.steps[id]]);
      lastAsk := Some(id);
    }

    /** A rejection of the answer given last; none, no change. */
    method RejectLast() returns (done: bool)
      requires Valid()
      modifies graph
      ensures Valid() && done == lastAsk.Some?
      ensures graph.m.steps == old(graph.m).steps
      ensures graph.m.rejected == old(graph.m).rejected + if lastAsk.Some? && lastAsk.value in graph.m.steps then {(owner, lastAsk.value)} else {}
      ensures done ==> forall asked, now :: !Reusable(graph.m, owner, asked, now, Original(graph.m, lastAsk.value))
      ensures done && lastAsk.value in graph.m.steps && graph.m.steps[lastAsk.value].sameAs.Some? ==>
                forall asked, now :: !Reusable(graph.m, owner, asked, now, graph.m.steps[lastAsk.value].sameAs.value)
      ensures done && lastAsk.value in graph.m.steps && graph.m.steps[lastAsk.value].sameAs.None? ==>
                forall asked, now :: !Reusable(graph.m, owner, asked, now, lastAsk.value)
    {
      done := lastAsk.Some?;
      if done {
        graph.m := Reject(graph.m, owner, lastAsk.value);
        assert (owner, lastAsk.value) in graph.m.rejected;
        assert OneDeep(graph.m, lastAsk.value);
      }
    }
  }
}
