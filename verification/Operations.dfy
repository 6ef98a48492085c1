/**
 * The operation registry as a state machine: one step for each section under the registry's lock,
 * and for the calls between two sections.
 */
module Operations {
  import opened Wrappers

  datatype Kind = Tool | Job

  datatype Status = Running | Cancelling | Ended(text: string)

  /**
   * A context as `start` finds it: the operation it carries as a value, and the operation whose own
   * context it was derived from, so that it ends when that one ends.
   */
  datatype Context = Context(owner: Option<nat>, under: Option<nat>)

  /** context.Background, and the context of a request. */
  const BACKGROUND := Context(None, None)

  /** What `start` returns: it carries the new operation and ends with it. */
  function ContextOf(id: nat): Context { Context(Some(id), Some(id)) }

  /** A fresh background context that carries the same operation: the owner is kept, the end is not. */
  function Detached(c: Context): Context { BACKGROUND.(owner := c.owner) }

  /**
   * An operation is named by its place in the order of starting, so a parent comes before its
   * children. Its own context was derived from that of `under`.
   */
  datatype Op = Op(
    parent: Option<nat>,
    under: Option<nat>,
    kind: Kind,
    cancellable: bool,
    identity: string,
    request: nat,
    resource: Option<string>,
    finishing: bool,
    finished: Option<int>,
    status: Status,
    cancelRequested: bool)

  datatype Audit = Started(id: nat) | CancelAudited(id: nat) | FinishAudited(id: nat, text: string)

  /**
   * `entries` is the history map, `dead` the operations whose own cancel function was called,
   * `trail` the audit log. The rest is work between two lock sections: cancels to call, finishes to
   * audit and to complete, and children a cascade has yet to visit.
   */
  datatype State = State(
    ops: seq<Op>, entries: set<nat>, dead: set<nat>, trail: seq<Audit>,
    firing: set<nat>, ending: set<nat>, closing: map<nat, string>, queued: set<nat>)

  const EMPTY := State([], {}, {}, [], {}, {}, map[], {})

  /** Expire is a context that ends on its own: the deadline of a job, or a caller that went away. */
  datatype Event =
    | Start(context: Context, kind: Kind, cancellable: bool, identity: string)
    | Prune(now: int, dropped: set<nat>)
    | SetResource(id: nat, resource: string)
    | Cancel(id: nat, cascaded: bool)
    | Fire(id: nat)
    | NoteResource(resource: string)
    | AuditCancel(id: nat)
    | Begin(id: nat)
    | Stop(id: nat, text: string)
    | End(id: nat, now: int)
    | Expire(id: nat)

  const HISTORY := 1000
  const DAY := 24 * 3600 * 1000000000

  predicate Known(s: State, id: nat) { id < |s.ops| }

  /** A context whose operations were started here. */
  predicate ContextIsKnown(s: State, c: Context) {
    (c.owner.Some? ==> Known(s, c.owner.value)) && (c.under.Some? ==> Known(s, c.under.value))
  }

  function NewOp(s: State, context: Context, kind: Kind, cancellable: bool, identity: string): Op
    requires ContextIsKnown(s, context)
  {
    var parent := context.owner;
    Op(parent, context.under, kind, cancellable,
       if parent.Some? then s.ops[parent.value].identity else identity,
       if parent.Some? then s.ops[parent.value].request else |s.ops|,
       None, false, None, Running, false)
  }

  /** cancelOperation gets past its four early returns. */
  predicate Hit(s: State, id: nat) {
    Known(s, id) && id in s.entries && s.ops[id].finished.None? && !s.ops[id].finishing && s.ops[id].cancellable
  }

  function Marked(op: Op): Op { op.(cancelRequested := true, status := Cancelling) }

  /** The children a cascade goes on to. */
  predicate IsNext(s: State, id: nat, child: nat) {
    && Known(s, child) && child in s.entries && s.ops[child].parent == Some(id)
    && s.ops[child].finished.None? && s.ops[child].kind == Tool && s.ops[child].cancellable
  }

  function Children(s: State, id: nat): set<nat> { set c | c in s.entries && IsNext(s, id, c) }

  function CancelStep(s: State, id: nat): State {
    if !Hit(s, id) then s
    else s.(ops := s.ops[id := Marked(s.ops[id])], queued := s.queued + Children(s, id),
            firing := if s.ops[id].cancelRequested then s.firing else s.firing + {id})
  }

  /** noteResourceCancel matches by resource, whatever the operation's kind, and does not cancel the context. */
  predicate Matches(s: State, resource: string, id: nat) {
    && Known(s, id) && id in s.entries && s.ops[id].resource == Some(resource)
    && s.ops[id].finished.None? && !s.ops[id].cancelRequested
  }

  function NoteStep(s: State, resource: string): State {
    var marked := seq(|s.ops|, i requires 0 <= i < |s.ops| =>
      if Matches(s, resource, i) then Marked(s.ops[i]) else s.ops[i]);
    s.(ops := marked)
  }

  function BeginStep(s: State, id: nat): State
    requires Known(s, id)
  {
    if s.ops[id].finished.Some? || s.ops[id].finishing then s
    else s.(ops := s.ops[id := s.ops[id].(finishing := true)], ending := s.ending + {id})
  }

  /** Which finished operations pruneLocked may drop. */
  ghost predicate PruneIs(s: State, now: int, dropped: set<nat>) {
    && dropped <= Completed(s)
    && (forall k :: k in Completed(s) - dropped ==> now - s.ops[k].finished.value <= 24 * 3600 * 1000000000)
    && |Completed(s) - dropped| <= 1000
    && (forall d :: d in dropped && now - s.ops[d].finished.value <= 24 * 3600 * 1000000000 ==>
      && |Completed(s) - dropped| == 1000
      && forall k :: k in Completed(s) - dropped ==> s.ops[d].finished.value <= s.ops[k].finished.value)
  }

  function Completed(s: State): set<nat> { set i | i in s.entries && i < |s.ops| && s.ops[i].finished.Some? }

  function At(ops: seq<Op>, id: nat): int {
    if id < |ops| && ops[id].finished.Some? then ops[id].finished.value else 0
  }

  function FinishedAt(s: State, id: nat): int { At(s.ops, id) }

  ghost predicate Enabled(s: State, e: Event) {
    match e
    case Start(context, _, _, _) => ContextIsKnown(s, context)
    case Prune(now, dropped) => PruneIs(s, now, dropped)
    case SetResource(id, _) => Known(s, id) && s.ops[id].kind == Job && s.ops[id].resource == None
    case Cancel(id, cascaded) => cascaded ==> id in s.queued
    case Fire(id) => id in s.firing
    case NoteResource(_) => true
    case AuditCancel(id) => Known(s, id) && s.ops[id].cancelRequested
    case Begin(id) => Known(s, id)
    case Stop(id, _) => id in s.ending
    case End(id, _) => id in s.closing && Known(s, id)
    case Expire(id) => Known(s, id)
  }

  function Step(s: State, e: Event): State
    requires Enabled(s, e)
  {
    match e
    case Start(context, kind, cancellable, identity) =>
      s.(ops := s.ops + [NewOp(s, context, kind, cancellable, identity)], entries := s.entries + {|s.ops|},
         trail := s.trail + [Started(|s.ops|)])
    case Prune(_, dropped) => s.(entries := s.entries - dropped)
    case SetResource(id, resource) => s.(ops := s.ops[id := s.ops[id].(resource := Some(resource))])
    case Cancel(id, _) => CancelStep(s, id)
    case Fire(id) => s.(firing := s.firing - {id}, dead := s.dead + {id}, trail := s.trail + [CancelAudited(id)])
    case NoteResource(resource) => NoteStep(s, resource)
    case AuditCancel(id) => s.(trail := s.trail + [CancelAudited(id)])
    case Begin(id) => BeginStep(s, id)
    case Stop(id, text) =>
      s.(ending := s.ending - {id}, closing := s.closing[id := text], dead := s.dead + {id},
         trail := s.trail + [FinishAudited(id, text)])
    case End(id, now) =>
      s.(ops := s.ops[id := s.ops[id].(finished := Some(now), status := Ended(s.closing[id]))],
         closing := s.closing - {id})
    case Expire(id) => s.(dead := s.dead + {id})
  }

  ghost predicate Run(s: State, es: seq<Event>, t: State)
    decreases es
  {
    if es == [] then s == t else Enabled(s, es[0]) && Run(Step(s, es[0]), es[1..], t)
  }

  // ---- What every step keeps ----

  /** How often the end of `id` stands in the audit log. */
  function Finishes(trail: seq<Audit>, id: nat): nat {
    if trail == [] then 0
    else
      var last := trail[|trail| - 1];
      Finishes(trail[..|trail| - 1], id) + if last.FinishAudited? && last.id == id then 1 else 0
  }

  /** An operation belongs to the request and the identity of its parent, and a root to its own. */
  predicate Owned(s: State, id: nat)
    requires Known(s, id)
  {
    var op := s.ops[id];
    && (op.under.Some? ==> op.under.value < id)
    && if op.parent.Some? then
         && op.parent.value < id && op.request == s.ops[op.parent.value].request
         && op.identity == s.ops[op.parent.value].identity
       else op.request == id
  }

  /** The stages of finishing: not begun, begun, audited, recorded. */
  predicate Staged(s: State, id: nat)
    requires Known(s, id)
  {
    var op := s.ops[id];
    && (op.finished.Some? ==> op.finishing && id !in s.closing)
    && (id in s.ending ==> op.finishing && op.finished.None? && id !in s.closing)
    && (id in s.closing ==> op.finishing)
    && (op.finishing ==> op.finished.Some? || id in s.ending || id in s.closing)
    && Finishes(s.trail, id) == (if op.finished.Some? || id in s.closing then 1 else 0)
  }

  ghost predicate Rooted(s: State) { forall i: nat {:trigger Owned(s, i)} :: Known(s, i) ==> Owned(s, i) }

  ghost predicate Stages(s: State) {
    && (forall i: nat {:trigger Staged(s, i)} :: Known(s, i) ==> Staged(s, i))
    && (forall i: nat {:trigger Finishes(s.trail, i)} :: !Known(s, i) ==> Finishes(s.trail, i) == 0)
  }

  /** Every name in use is that of a started operation, and only finished ones have left the history. */
  ghost predicate Bounded(s: State) {
    && (forall i :: i in s.entries || i in s.dead || i in s.firing ==> Known(s, i))
    && (forall i :: i in s.ending || i in s.closing || i in s.queued ==> Known(s, i))
    && (forall i: nat :: Known(s, i) && s.ops[i].finished.None? ==> i in s.entries)
  }

  /** A cascade visits cancellable tools only, and only marked operations are cancelled. */
  ghost predicate Cascading(s: State) {
    && (forall i :: i in s.firing ==> Known(s, i) && s.ops[i].cancelRequested)
    && (forall i :: i in s.queued ==>
      Known(s, i) && s.ops[i].kind == Tool && s.ops[i].cancellable && s.ops[i].parent.Some?)
  }

  ghost predicate Inv(s: State) { Rooted(s) && Stages(s) && Bounded(s) && Cascading(s) }

  lemma FinishesNext(trail: seq<Audit>, a: Audit, id: nat)
    ensures Finishes(trail + [a], id) == Finishes(trail, id) + if a.FinishAudited? && a.id == id then 1 else 0
  {
    assert (trail + [a])[..|trail|] == trail;
  }

  /** What an operation was started as. */
  function Birth(op: Op): (Option<nat>, Option<nat>, Kind, bool, string, nat) {
    (op.parent, op.under, op.kind, op.cancellable, op.identity, op.request)
  }

  /** No step changes what an operation was started as. */
  lemma BirthsStay(s: State, e: Event, id: nat)
    requires Enabled(s, e) && Known(s, id)
    ensures Known(Step(s, e), id) && Birth(Step(s, e).ops[id]) == Birth(s.ops[id])
  {
    hide PruneIs, Children, Finishes;
  }

  lemma RootedStays(s: State, e: Event)
    requires Rooted(s) && Enabled(s, e)
    ensures Rooted(Step(s, e))
  {
    var t := Step(s, e);
    forall i: nat | Known(t, i)
      ensures Owned(t, i)
    {
      if Known(s, i) {
        assert Owned(s, i);
        BirthsStay(s, e, i);
        if s.ops[i].parent.Some? {
          BirthsStay(s, e, s.ops[i].parent.value);
        }
      } else {
        OnlyStartAdds(s, e, i);
      }
    }
  }

  lemma OnlyStartAdds(s: State, e: Event, id: nat)
    requires Enabled(s, e) && !Known(s, id) && Known(Step(s, e), id)
    ensures e.Start? && id == |s.ops| && Step(s, e).ops[..id] == s.ops
    ensures Step(s, e).ops[id] == NewOp(s, e.context, e.kind, e.cancellable, e.identity)
  {
    hide PruneIs, Children, Finishes;
  }

  lemma TrailGrows(s: State, e: Event, id: nat)
    requires Enabled(s, e)
    ensures Finishes(Step(s, e).trail, id) == Finishes(s.trail, id) + if e.Stop? && e.id == id then 1 else 0
  {
    hide PruneIs, Children, Finishes;
    if e.Start? {
      FinishesNext(s.trail, Started(|s.ops|), id);
    } else if e.Fire? || e.AuditCancel? {
      FinishesNext(s.trail, CancelAudited(e.id), id);
    } else if e.Stop? {
      FinishesNext(s.trail, FinishAudited(e.id, e.text), id);
    }
  }

  lemma StagedStays(s: State, e: Event, id: nat)
    requires Enabled(s, e) && Known(s, id) && Staged(s, id)
    ensures Known(Step(s, e), id) && Staged(Step(s, e), id)
  {
    hide Finishes, PruneIs, Children;
    TrailGrows(s, e, id);
  }

  lemma NewIsStaged(s: State, e: Event, id: nat)
    requires Enabled(s, e) && Bounded(s) && !Known(s, id) && Known(Step(s, e), id) && Finishes(s.trail, id) == 0
    ensures Staged(Step(s, e), id)
  {
    hide Finishes, PruneIs, Children;
    OnlyStartAdds(s, e, id);
    TrailGrows(s, e, id);
  }

  lemma StagesStay(s: State, e: Event)
    requires Stages(s) && Bounded(s) && Enabled(s, e)
    ensures Stages(Step(s, e))
  {
    var t := Step(s, e);
    hide Finishes, Step, Staged, Enabled;
    forall i: nat
      ensures Known(t, i) ==> Staged(t, i)
      ensures !Known(t, i) ==> Finishes(t.trail, i) == 0
    {
      if Known(s, i) {
        StagedStays(s, e, i);
      } else {
        TrailGrows(s, e, i);
        StopsAreKnown(s, e);
        if Known(t, i) {
          NewIsStaged(s, e, i);
        }
      }
    }
  }

  lemma StopsAreKnown(s: State, e: Event)
    requires Bounded(s) && Enabled(s, e)
    ensures e.Stop? ==> Known(s, e.id)
  {
  }

  lemma BoundedStays(s: State, e: Event)
    requires Bounded(s) && Enabled(s, e)
    ensures Bounded(Step(s, e))
  {
    if e.Prune? {
      assert forall d :: d in e.dropped ==> d in Completed(s);
    }
    hide Finishes, PruneIs, Children;
    assert e.Cancel? ==> forall c :: c in Children(s, e.id) ==> Known(s, c) by {
      ChildrenAreKnown(s);
    }
  }

  lemma ChildrenAreKnown(s: State)
    ensures forall id: nat, c :: c in Children(s, id) ==> Known(s, c)
  {
  }

  lemma CascadingStays(s: State, e: Event)
    requires Cascading(s) && Enabled(s, e)
    ensures Cascading(Step(s, e))
  {
    hide Finishes, PruneIs;
  }

  lemma StepKeeps(s: State, e: Event)
    requires Inv(s) && Enabled(s, e)
    ensures Inv(Step(s, e))
  {
    hide Rooted, Stages, Bounded, Cascading, Step, Enabled;
    RootedStays(s, e);
    StagesStay(s, e);
    BoundedStays(s, e);
    CascadingStays(s, e);
  }

  // ---- Whole runs ----

  lemma {:induction false} RunKeeps(s: State, es: seq<Event>, t: State)
    requires Inv(s) && Run(s, es, t)
    ensures Inv(t)
    decreases es
  {
    hide Inv, Step, Enabled;
    if es != [] {
      StepKeeps(s, es[0]);
      RunKeeps(Step(s, es[0]), es[1..], t);
    }
  }

  lemma OneStep(s: State, e: Event)
    requires Enabled(s, e)
    ensures Run(s, [e], Step(s, e))
  {
    hide Step, Enabled;
    assert [e][1..] == [] && Run(Step(s, e), [], Step(s, e));
  }

  lemma {:induction false} RunThenRun(s: State, a: seq<Event>, t: State, b: seq<Event>, u: State)
    requires Run(s, a, t) && Run(t, b, u)
    ensures Run(s, a + b, u)
    decreases a
  {
    hide Step, Enabled;
    if a == [] {
      assert a + b == b;
    } else {
      assert (a + b)[1..] == a[1..] + b;
      RunThenRun(Step(s, a[0]), a[1..], t, b, u);
    }
  }

  /** An operation is done when its finish is recorded. */
  predicate Done(s: State, id: nat) { Known(s, id) && s.ops[id].finished.Some? }

  lemma StepHistory(s: State, e: Event, id: nat)
    requires Inv(s) && Enabled(s, e) && Known(s, id)
    ensures var t := Step(s, e);
      && Known(t, id) && (s.ops[id].cancelRequested ==> t.ops[id].cancelRequested)
      && (Done(s, id) ==>
        Done(t, id) && t.ops[id].status == s.ops[id].status && t.ops[id].cancelRequested == s.ops[id].cancelRequested)
  {
    hide PruneIs, Children, Finishes, Rooted, Cascading, Bounded;
    assert Staged(s, id);
  }

  /**
   * The history of an operation over any run: once requested, its cancellation stays requested,
   * and once it is finished neither its status nor that flag changes again.
   */
  lemma {:induction false} History(s: State, es: seq<Event>, t: State, id: nat)
    requires Inv(s) && Run(s, es, t) && Known(s, id)
    ensures Known(t, id) && Birth(t.ops[id]) == Birth(s.ops[id])
    ensures s.ops[id].cancelRequested ==> t.ops[id].cancelRequested
    ensures Done(s, id) ==>
      Done(t, id) && t.ops[id].status == s.ops[id].status && t.ops[id].cancelRequested == s.ops[id].cancelRequested
    decreases es
  {
    hide Inv, Step, Enabled;
    if es != [] {
      StepHistory(s, es[0], id);
      BirthsStay(s, es[0], id);
      StepKeeps(s, es[0]);
      History(Step(s, es[0]), es[1..], t, id);
    }
  }

  /** From an empty registry, the end of an operation is audited once at most, and always before it is recorded. */
  lemma AuditedOnce(es: seq<Event>, t: State, id: nat)
    requires Run(EMPTY, es, t)
    ensures Finishes(t.trail, id) <= 1 && (Done(t, id) ==> Finishes(t.trail, id) == 1)
  {
    EmptyIsFine();
    RunKeeps(EMPTY, es, t);
    if Known(t, id) {
      assert Staged(t, id);
    }
  }

  lemma EmptyIsFine()
    ensures Inv(EMPTY)
  {
  }

  function Root(s: State, id: nat): nat {
    var owned := id < |s.ops| && s.ops[id].parent.Some? && s.ops[id].parent.value < id;
    if owned then Root(s, s.ops[id].parent.value) else id
  }

  /** Every operation carries the request and the identity of its outermost ancestor. */
  lemma {:induction false} RequestIsRoot(s: State, id: nat)
    requires Rooted(s) && Known(s, id)
    ensures var root := Root(s, id);
      root <= id && s.ops[root].parent.None? && s.ops[id].request == root && s.ops[id].identity == s.ops[root].identity
  {
    assert Owned(s, id);
    if s.ops[id].parent.Some? {
      RequestIsRoot(s, s.ops[id].parent.value);
    }
  }

  // ---- Detached jobs ----

  /** The context of `id` was derived, over any number of others, from that of `top`. */
  predicate Descends(s: State, id: nat, top: nat) {
    id == top
      || (id < |s.ops| && s.ops[id].under.Some? && s.ops[id].under.value < id
        && Descends(s, s.ops[id].under.value, top))
  }

  /** The context of an operation has ended: its own cancel function was called, or one above it. */
  ghost predicate Dead(s: State, id: nat) { exists top :: top in s.dead && Descends(s, id, top) }

  /** A context ends with those it was derived from, and an operation without one above it only by itself. */
  lemma ContextsEndTogether(s: State, id: nat)
    requires Rooted(s) && Known(s, id)
    ensures Dead(s, id) <==> id in s.dead || (s.ops[id].under.Some? && Dead(s, s.ops[id].under.value))
  {
    assert Owned(s, id);
    if id in s.dead {
      assert Descends(s, id, id);
    }
  }

  /** The job's context stands by itself, and nobody has asked for the job to be cancelled or finished. */
  ghost predicate LeftAlone(s: State, job: nat) {
    && Known(s, job) && s.ops[job].kind == Job && s.ops[job].under.None?
    && !s.ops[job].cancelRequested && !s.ops[job].finishing
    && job !in s.dead && job !in s.firing && job !in s.ending && job !in s.closing
  }

  /** An event that names the job: its own cancel, its resource, its own finish, its deadline. */
  predicate Names(s: State, e: Event, job: nat) {
    match e
    case Cancel(id, cascaded) => id == job && !cascaded
    case NoteResource(resource) => Known(s, job) && s.ops[job].resource == Some(resource)
    case Begin(id) => id == job
    case Expire(id) => id == job
    case _ => false
  }

  ghost predicate RunBeside(s: State, es: seq<Event>, t: State, job: nat)
    decreases es
  {
    if es == [] then s == t
    else Enabled(s, es[0]) && !Names(s, es[0], job) && RunBeside(Step(s, es[0]), es[1..], t, job)
  }

  lemma BesideStep(s: State, e: Event, job: nat)
    requires Inv(s) && LeftAlone(s, job) && Enabled(s, e) && !Names(s, e, job)
    ensures LeftAlone(Step(s, e), job)
  {
    hide PruneIs, Finishes, Rooted, Stages, Bounded;
  }

  /**
   * A detached job keeps its owner but not its owner's context: in no interleaving does anything
   * done to other operations, its launcher among them, mark the job, end its context or finish it.
   */
  lemma {:induction false} JobsAreDetached(s: State, es: seq<Event>, t: State, job: nat)
    requires Inv(s) && LeftAlone(s, job) && RunBeside(s, es, t, job)
    ensures LeftAlone(t, job) && !Dead(t, job) && Birth(t.ops[job]) == Birth(s.ops[job])
    decreases es
  {
    if es == [] {
      ContextsEndTogether(s, job);
    } else {
      hide Inv, Step, Enabled, Names;
      BesideStep(s, es[0], job);
      BirthsStay(s, es[0], job);
      StepKeeps(s, es[0]);
      JobsAreDetached(Step(s, es[0]), es[1..], t, job);
    }
  }

  /**
   * Without the detached context it would be otherwise: whatever is started under the context of an
   * operation, a job included, has a dead context as soon as that operation's own cancel function
   * was called.
   */
  lemma StartedUnderIsEnded(s: State, e: Event, es: seq<Event>, t: State, launcher: nat)
    requires Inv(s) && e.Start? && Enabled(s, e) && e.context.under == Some(launcher)
    requires Run(Step(s, e), es, t) && launcher in t.dead
    ensures Known(t, |s.ops|) && Dead(t, |s.ops|)
  {
    var job := |s.ops|;
    StepKeeps(s, e);
    RunKeeps(Step(s, e), es, t);
    OnlyStartAdds(s, e, job);
    hide Step, Enabled, Run;
    History(Step(s, e), es, t, job);
    assert Owned(t, job);
    assert Descends(t, launcher, launcher);
    assert Descends(t, job, launcher);
  }

  // ---- One cascade ----

  /**
   * `id` is reached by a cancel of `target`: a chain of cancellable tools leads down to it, and
   * no link of the chain is finished or finishing.
   */
  predicate Reached(s: State, target: nat, id: nat) {
    && Hit(s, id)
    && (id == target
      || (s.ops[id].kind == Tool && s.ops[id].parent.Some? && s.ops[id].parent.value < id
        && Reached(s, target, s.ops[id].parent.value)))
  }

  function Reach(s: State, target: nat): set<nat> { set id | id in s.entries && Reached(s, target, id) }

  lemma {:induction false} ReachedIsBelow(s: State, target: nat, id: nat)
    requires Reached(s, target, id)
    ensures target <= id && Hit(s, target)
  {
    if id != target {
      ReachedIsBelow(s, target, s.ops[id].parent.value);
    }
  }

  /** A cascade that passes a child of the target comes from the target. */
  lemma {:induction false} ReachedFromChild(s: State, target: nat, child: nat, id: nat)
    requires Rooted(s) && Hit(s, target) && IsNext(s, target, child) && Reached(s, child, id)
    ensures Reached(s, target, id) && id != target
  {
    assert Owned(s, child);
    ReachedIsBelow(s, child, id);
    if id != child {
      ReachedFromChild(s, target, child, s.ops[id].parent.value);
    }
  }

  /** Everything a cascade reaches besides its target it reaches through a child of the target. */
  lemma {:induction false} ReachedThroughChild(s: State, target: nat, id: nat) returns (child: nat)
    requires Rooted(s) && Reached(s, target, id) && id != target
    ensures child in Children(s, target) && Reached(s, child, id)
  {
    assert Owned(s, id);
    var parent := s.ops[id].parent.value;
    if parent == target {
      child := id;
    } else {
      child := ReachedThroughChild(s, target, parent);
    }
  }

  /** Two children are never reached through each other's branch. */
  lemma {:induction false} BranchesApart(s: State, target: nat, a: nat, b: nat, id: nat)
    requires Rooted(s) && IsNext(s, target, a) && IsNext(s, target, b) && a != b && Reached(s, a, id)
    ensures !Reached(s, b, id)
  {
    assert Owned(s, a) && Owned(s, b);
    if Reached(s, b, id) {
      if id == a {
        ReachedIsBelow(s, b, target);
      } else if id == b {
        ReachedIsBelow(s, a, target);
      } else {
        BranchesApart(s, target, a, b, s.ops[id].parent.value);
      }
      assert false;
    }
  }
}
