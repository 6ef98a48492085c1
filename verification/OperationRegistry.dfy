/** The operation registry itself: its methods, built from the steps of the state machine. */
module OperationRegistry {
  import opened Wrappers
  import opened Collections
  import opened Operations
  import Sorting

  datatype CancelReply = NotFound | AlreadyFinished(requested: bool, status: Status) | NotCancellable | Accepted

  /** What a tracked tool returned: `result["ok"]` may be true, false or missing. */
  datatype Outcome = NoResult | Outcome(ok: Option<bool>, cancelled: bool, timedOut: bool)

  /** What cancelOperation answers, by the operation it finds. */
  ghost predicate ReplyIs(s: State, id: nat, r: CancelReply)
    requires id in s.entries ==> Known(s, id)
  {
    && (r == NotFound <==> id !in s.entries)
    && (r.AlreadyFinished? <==> id in s.entries && s.ops[id].finished.Some?)
    && (r.AlreadyFinished? ==> r.requested == s.ops[id].cancelRequested && r.status == s.ops[id].status)
    && (r == NotCancellable <==>
      id in s.entries && s.ops[id].finished.None? && (s.ops[id].finishing || !s.ops[id].cancellable))
  }

  function NewlyMarked(a: State, marked: set<nat>, id: nat): nat {
    if id in marked && Known(a, id) && !a.ops[id].cancelRequested then 1 else 0
  }

  /** Exactly the operations in `marked` were marked, each newly marked one cancelled and audited once. */
  ghost predicate MarkedExactly(a: State, b: State, marked: set<nat>) {
    && |b.ops| == |a.ops| && b.entries == a.entries
    && (forall i: nat {:trigger b.ops[i]} :: i < |a.ops| ==>
      b.ops[i] == if i in marked then a.ops[i].(cancelRequested := true, status := Cancelling) else a.ops[i])
    && (forall i: nat :: i in b.dead <==> i in a.dead || NewlyMarked(a, marked, i) == 1)
    && (forall i: nat ::
      multiset(b.trail)[CancelAudited(i)] == multiset(a.trail)[CancelAudited(i)] + NewlyMarked(a, marked, i))
    && b.ending == a.ending && b.closing == a.closing
  }

  lemma MarkedTells(a: State, b: State, id: nat)
    requires MarkedExactly(a, b, Reach(a, id)) && Hit(a, id)
    ensures id < |b.ops| && b.ops[id].cancelRequested && b.ops[id].status == Cancelling
    ensures !a.ops[id].cancelRequested ==> id in b.dead && CancelAudited(id) in b.trail
  {
    assert id in Reach(a, id);
    assert b.ops[id].cancelRequested;
    assert !a.ops[id].cancelRequested ==> multiset(b.trail)[CancelAudited(id)] > 0;
  }

  lemma MarkNothing(a: State)
    ensures MarkedExactly(a, a, {})
  {
  }

  lemma MarkMore(a: State, b: State, c: State, first: set<nat>, second: set<nat>)
    requires MarkedExactly(a, b, first) && MarkedExactly(b, c, second) && first !! second
    ensures MarkedExactly(a, c, first + second)
  {
    forall i: nat | i < |a.ops|
      ensures c.ops[i] == if i in first + second then Marked(a.ops[i]) else a.ops[i]
    {
      assert b.ops[i] == if i in first then Marked(a.ops[i]) else a.ops[i];
    }
    forall i: nat
      ensures NewlyMarked(a, first + second, i) == NewlyMarked(a, first, i) + NewlyMarked(b, second, i)
    {
      if Known(a, i) {
        assert b.ops[i] == if i in first then Marked(a.ops[i]) else a.ops[i];
      }
    }
  }

  /** Marking changes nothing that a cascade looks at. */
  lemma {:induction false} SameReach(a: State, b: State, marked: set<nat>, target: nat, id: nat)
    requires MarkedExactly(a, b, marked)
    ensures Reached(b, target, id) <==> Reached(a, target, id)
    decreases id
  {
    if Known(a, id) {
      assert b.ops[id] == if id in marked then Marked(a.ops[id]) else a.ops[id];
      if a.ops[id].parent.Some? && a.ops[id].parent.value < id {
        SameReach(a, b, marked, target, a.ops[id].parent.value);
      }
    }
  }

  /** The locked mark and, the first time, the audited cancel behind it. */
  function CancelOne(a: State, id: nat, cascaded: bool): State
    requires Hit(a, id)
  {
    var b := CancelStep(a, id);
    if a.ops[id].cancelRequested then b
    else b.(firing := b.firing - {id}, dead := b.dead + {id}, trail := b.trail + [CancelAudited(id)])
  }

  lemma OneIsMarked(a: State, id: nat, cascaded: bool)
    requires Hit(a, id)
    ensures MarkedExactly(a, CancelOne(a, id, cascaded), {id})
  {
    hide Children;
  }

  /** Marking and cancelling one operation, as steps. */
  lemma MarkOne(a: State, id: nat, cascaded: bool)
    requires Inv(a) && Hit(a, id) && Enabled(a, Cancel(id, cascaded))
    ensures var b, c := Step(a, Cancel(id, cascaded)), CancelOne(a, id, cascaded);
      && Inv(c) && MarkedExactly(a, c, {id})
      && (a.ops[id].cancelRequested ==> c == b && Run(a, [Cancel(id, cascaded)], c))
      && (!a.ops[id].cancelRequested ==>
        Enabled(b, Fire(id)) && c == Step(b, Fire(id)) && Run(a, [Cancel(id, cascaded)] + [Fire(id)], c))
  {
    hide Inv, Run, Children, MarkedExactly;
    OneIsMarked(a, id, cascaded);
    var b := Step(a, Cancel(id, cascaded));
    StepKeeps(a, Cancel(id, cascaded));
    OneStep(a, Cancel(id, cascaded));
    if !a.ops[id].cancelRequested {
      StepKeeps(b, Fire(id));
      OneStep(b, Fire(id));
      RunThenRun(a, [Cancel(id, cascaded)], b, [Fire(id)], Step(b, Fire(id)));
    }
  }

  /** The operations reached through some of a target's children. */
  function Via(s: State, children: set<nat>): set<nat> {
    set id | id in s.entries && exists c :: c in children && Reached(s, c, id)
  }

  lemma ReachIsVia(s: State, id: nat)
    requires Inv(s) && Hit(s, id)
    ensures Reach(s, id) == {id} + Via(s, Children(s, id))
  {
    forall x
      ensures x in Reach(s, id) <==> x == id || x in Via(s, Children(s, id))
    {
      if x in Reach(s, id) && x != id {
        var c := ReachedThroughChild(s, id, x);
      }
      if x in Via(s, Children(s, id)) {
        var c :| c in Children(s, id) && Reached(s, c, x);
        ReachedFromChild(s, id, c, x);
      }
    }
  }

  lemma ViaOneMore(s: State, id: nat, done: set<nat>, child: nat)
    requires Inv(s) && Hit(s, id) && done <= Children(s, id) && child in Children(s, id) && child !in done
    ensures Via(s, done + {child}) == Via(s, done) + Reach(s, child)
    ensures {id} + Via(s, done) !! Reach(s, child)
  {
    hide Reached, Inv;
    forall x | x in Reach(s, child)
      ensures x != id && x !in Via(s, done)
    {
      InvIsRooted(s);
      ReachedFromChild(s, id, child, x);
      if x in Via(s, done) {
        var c :| c in done && Reached(s, c, x);
        BranchesApart(s, id, c, child, x);
      }
    }
  }

  lemma InvIsRooted(s: State)
    requires Inv(s)
    ensures Rooted(s)
  {
  }

  lemma BranchMarked(s: State, t: State, u: State, marked: set<nat>, child: nat)
    requires MarkedExactly(s, t, marked) && MarkedExactly(t, u, Reach(t, child)) && marked !! Reach(s, child)
    ensures MarkedExactly(s, u, marked + Reach(s, child))
  {
    forall x: nat
      ensures Reached(t, child, x) <==> Reached(s, child, x)
    {
      SameReach(s, t, marked, child, x);
    }
    hide Reached;
    assert Reach(t, child) == Reach(s, child);
    MarkMore(s, t, u, marked, Reach(s, child));
  }

  lemma NotReached(s: State, id: nat)
    requires !Hit(s, id)
    ensures Reach(s, id) == {}
  {
    forall x | Reached(s, id, x)
      ensures false
    {
      ReachedIsBelow(s, id, x);
    }
  }

  // ---- Pruning ----

  predicate Distinct(ids: seq<nat>) { forall i, j :: 0 <= i < j < |ids| ==> ids[i] != ids[j] }

  function ElementsOf(ids: seq<nat>): set<nat> { set x | x in ids }

  lemma {:induction false} CountElements(ids: seq<nat>)
    ensures |ElementsOf(ids)| <= |ids| && (Distinct(ids) ==> |ElementsOf(ids)| == |ids|)
  {
    if ids != [] {
      var front, last := ids[..|ids| - 1], ids[|ids| - 1];
      CountElements(front);
      assert ids == front + [last];
      assert ElementsOf(ids) == ElementsOf(front) + {last};
    }
  }

  /** The loop of pruneLocked drops the oldest beyond the limit and everything older than a day. */
  predicate TooOld(ops: seq<Op>, sorted: seq<nat>, now: int, i: nat)
    requires i < |sorted|
  {
    i < |sorted| - HISTORY || now - At(ops, sorted[i]) > DAY
  }

  function DroppedBy(ops: seq<Op>, sorted: seq<nat>, now: int, m: nat): set<nat>
    requires m <= |sorted|
  {
    set i | 0 <= i < m && TooOld(ops, sorted, now, i) :: sorted[i]
  }

  ghost predicate ByAge(s: State, sorted: seq<nat>) {
    && Distinct(sorted) && ElementsOf(sorted) == Completed(s)
    && forall i, j :: 0 <= i < j < |sorted| ==> FinishedAt(s, sorted[i]) <= FinishedAt(s, sorted[j])
  }

  /** The newest of the sorted list, as far as the limit allows. */
  function Newest(sorted: seq<nat>): seq<nat> { if |sorted| <= HISTORY then sorted else sorted[|sorted| - HISTORY..] }

  lemma KeptIsNewest(s: State, sorted: seq<nat>, now: int)
    requires ByAge(s, sorted)
    ensures var dropped := DroppedBy(s.ops, sorted, now, |sorted|);
      && dropped <= Completed(s) && Completed(s) - dropped <= ElementsOf(Newest(sorted))
      && forall k :: k in Completed(s) - dropped ==> now - FinishedAt(s, k) <= DAY
  {
    var dropped := DroppedBy(s.ops, sorted, now, |sorted|);
    forall k | k in Completed(s) - dropped
      ensures k in Newest(sorted) && now - FinishedAt(s, k) <= DAY
    {
      assert k in ElementsOf(sorted);
      var i :| 0 <= i < |sorted| && sorted[i] == k;
      assert !TooOld(s.ops, sorted, now, i);
      assert |sorted| > HISTORY ==> Newest(sorted)[i - (|sorted| - HISTORY)] == k;
    }
    forall d | d in dropped
      ensures d in Completed(s)
    {
      assert d in ElementsOf(sorted);
    }
  }

  /** A victim within the day had to make room: the newest that fit are all kept, and none is older. */
  lemma RoomWasNeeded(s: State, sorted: seq<nat>, now: int, d: nat)
    requires ByAge(s, sorted) && d in DroppedBy(s.ops, sorted, now, |sorted|) && now - FinishedAt(s, d) <= DAY
    ensures var kept := Completed(s) - DroppedBy(s.ops, sorted, now, |sorted|);
      kept == ElementsOf(Newest(sorted)) && |kept| == HISTORY && forall k :: k in kept ==>
        FinishedAt(s, d) <= FinishedAt(s, k)
  {
    var kept, n := Completed(s) - DroppedBy(s.ops, sorted, now, |sorted|), |sorted| - HISTORY;
    var i :| 0 <= i < |sorted| && TooOld(s.ops, sorted, now, i) && sorted[i] == d;
    forall k | k in Newest(sorted)
      ensures k in kept && FinishedAt(s, d) <= FinishedAt(s, k)
    {
      var j :| 0 <= j < HISTORY && Newest(sorted)[j] == k;
      assert sorted[n + j] == k && i < n + j;
      assert k in ElementsOf(sorted);
      forall m | 0 <= m < |sorted| && sorted[m] == k
        ensures !TooOld(s.ops, sorted, now, m)
      {
        assert m == n + j;
      }
    }
    KeptIsNewest(s, sorted, now);
    assert kept == ElementsOf(Newest(sorted));
    assert Distinct(Newest(sorted));
    CountElements(Newest(sorted));
  }

  lemma PruneOutcome(s: State, sorted: seq<nat>, now: int)
    requires ByAge(s, sorted)
    ensures PruneIs(s, now, DroppedBy(s.ops, sorted, now, |sorted|))
  {
    var dropped := DroppedBy(s.ops, sorted, now, |sorted|);
    var kept := Completed(s) - dropped;
    KeptIsNewest(s, sorted, now);
    CountElements(Newest(sorted));
    SubsetIsSmaller(kept, ElementsOf(Newest(sorted)));
    forall d | d in dropped && now - FinishedAt(s, d) <= DAY
      ensures |kept| == HISTORY && forall k :: k in kept ==> FinishedAt(s, d) <= FinishedAt(s, k)
    {
      RoomWasNeeded(s, sorted, now, d);
    }
  }

  function OlderFirst(ops: seq<Op>): (nat, nat) -> bool { (a: nat, b: nat) => At(ops, a) <= At(ops, b) }

  lemma SortedByAge(s: State, completed: seq<nat>)
    requires (forall i :: i in completed <==> i in Completed(s)) && forall i: nat :: multiset(completed)[i] <= 1
    ensures ByAge(s, Sorting.Sort(completed, OlderFirst(s.ops)))
  {
    var le := OlderFirst(s.ops);
    assert Sorting.TotalPreorder(le);
    Sorting.SortIsSorted(completed, le);
    Sorting.SortKeepsDistinct(completed, le);
    Sorting.SortKeepsElements(completed, le);
    hide Sorting.Sort, At;
    assert forall a: nat, b: nat {:trigger le(a, b)} :: le(a, b) <==> At(s.ops, a) <= At(s.ops, b);
  }

  class Registry {
    var ops: seq<Op>
    var entries: set<nat>
    var dead: set<nat>
    var trail: seq<Audit>

    ghost var firing: set<nat>
    ghost var ending: set<nat>
    ghost var closing: map<nat, string>
    ghost var queued: set<nat>

    ghost function Now(): State
      reads this
    {
      State(ops, entries, dead, trail, firing, ending, closing, queued)
    }

    constructor ()
      ensures Now() == EMPTY
    {
      ops, entries, dead, trail := [], {}, {}, [];
      firing, ending, closing, queued := {}, {}, map[], {};
    }

    /** The first half of pruneLocked: the finished operations, in no particular order. */
    method ListCompleted() returns (completed: seq<nat>)
      requires Bounded(Now())
      ensures forall i :: i in completed <==> i in Completed(Now())
      ensures forall i: nat :: multiset(completed)[i] <= 1
    {
      completed := [];
      var names := entries;
      ghost var finished := Completed(Now());
      InHistory(Now());
      hide Bounded, Completed;
      while names != {}
        invariant names <= entries
        invariant forall i :: i in completed <==> i in finished && i !in names
        invariant forall i: nat :: multiset(completed)[i] <= 1
        decreases |names|
      {
        var id :| id in names;
        names := names - {id};
        if ops[id].finished.Some? {
          assert id !in completed;
          completed := completed + [id];
        }
      }
    }

    /** The second half: walk the sorted list and delete. */
    method DropOld(sorted: seq<nat>, now: int)
      modifies `entries
      ensures entries == old(entries) - DroppedBy(ops, sorted, now, |sorted|)
    {
      var index := 0;
      while index < |sorted|
        invariant 0 <= index <= |sorted|
        invariant entries == old(entries) - DroppedBy(ops, sorted, now, index)
      {
        DropNext(ops, sorted, now, index);
        if index < |sorted| - HISTORY || now - At(ops, sorted[index]) > DAY {
          entries := entries - {sorted[index]};
        }
        index := index + 1;
      }
    }

    /** pruneLocked. */
    method PruneLocked(now: int) returns (ghost dropped: set<nat>)
      requires Bounded(Now())
      modifies `entries
      ensures PruneIs(old(Now()), now, dropped) && Now() == old(Now()).(entries := old(entries) - dropped)
    {
      hide Bounded, PruneIs, Sorting.Sort, At, DroppedBy, ByAge, Completed;
      var completed := ListCompleted();
      SortedByAge(Now(), completed);
      var sorted := Sorting.Sort(completed, OlderFirst(ops));
      PruneOutcome(Now(), sorted, now);
      DropOld(sorted, now);
      dropped := DroppedBy(ops, sorted, now, |sorted|);
    }

    /** The new operation, under the request and the identity of the operation its context carries. */
    method Enter(context: Context, kind: Kind, cancellable: bool, identity: string) returns (id: nat)
      requires ContextIsKnown(Now(), context)
      modifies `ops, `entries, `trail
      ensures Now() == Step(old(Now()), Operations.Start(context, kind, cancellable, identity)) && id == old(|ops|)
      ensures entries == old(entries) + {id} && trail == old(trail) + [Started(id)] && ops == old(ops) + [ops[id]]
      ensures ops[id].parent == context.owner && ops[id].under == context.under
      ensures ops[id].kind == kind && ops[id].cancellable == cancellable && ops[id].status == Operations.Running
      ensures ops[id].resource.None? && ops[id].finished.None? && !ops[id].finishing && !ops[id].cancelRequested
      ensures if context.owner.Some? then
          && ops[id].identity == old(ops)[context.owner.value].identity
          && ops[id].request == old(ops)[context.owner.value].request
        else
          ops[id].identity == identity && ops[id].request == id
    {
      id := |ops|;
      var parent := context.owner;
      ops := ops + [Op(parent, context.under, kind, cancellable,
        if parent.Some? then ops[parent.value].identity else identity,
        if parent.Some? then ops[parent.value].request else id,
        None, false, None, Operations.Running, false)];
      entries := entries + {id};
      trail := trail + [Started(id)];
    }

    /** start: prune, then enter; the context it returns carries the new operation and ends with it. */
    method Start(context: Context, kind: Kind, cancellable: bool, identity: string, now: int)
      returns (started: Context, id: nat, ghost es: seq<Event>)
      requires Inv(Now()) && ContextIsKnown(Now(), context)
      modifies `ops, `entries, `trail
      ensures Inv(Now()) && Run(old(Now()), es, Now())
      ensures id == old(|ops|) && |ops| == id + 1 && id in entries && started == ContextOf(id)
      ensures ops == old(ops) + [NewOp(old(Now()), context, kind, cancellable, identity)]
      ensures trail == old(trail) + [Started(id)] && started.owner == started.under == Some(id)
      ensures ops[id].request == Root(Now(), id) && |Completed(Now())| <= 1000
      ensures kind == Job && context.under.None? ==> LeftAlone(Now(), id)
    {
      ghost var s := Now();
      ghost var dropped := PruneLocked(now);
      ghost var t := Now();
      id := Enter(context, kind, cancellable, identity);
      started := ContextOf(id);
      ghost var e := Operations.Start(context, kind, cancellable, identity);
      es := [Prune(now, dropped), e];
      StartDone(s, now, dropped, t, e, Now());
    }

    /** The first locked section of finish. */
    method BeginFinish(id: nat) returns (first: bool)
      requires id < |ops|
      modifies `ops, `ending
      ensures Now() == Step(old(Now()), Begin(id))
      ensures first <==> old(ops[id]).finished.None? && !old(ops[id]).finishing
    {
      if ops[id].finished.Some? || ops[id].finishing {
        return false;
      }
      ops := ops[id := ops[id].(finishing := true)];
      ending := ending + {id};
      first := true;
    }

    /** Between the sections: the context ends and the result is audited. */
    method StopAndAudit(id: nat, text: string)
      requires id in ending
      modifies `dead, `trail, `ending, `closing
      ensures Now() == Step(old(Now()), Stop(id, text))
    {
      dead := dead + {id};
      trail := trail + [FinishAudited(id, text)];
      ending, closing := ending - {id}, closing[id := text];
    }

    /** The second locked section of finish. */
    method EndFinish(id: nat, text: string, now: int)
      requires id < |ops| && id in closing && closing[id] == text
      modifies `ops, `closing
      ensures Now() == Step(old(Now()), End(id, now))
    {
      ops := ops[id := ops[id].(finished := Some(now), status := Ended(text))];
      closing := closing - {id};
    }

    /** finish, with nothing in between: the first call decides, any later one changes nothing. */
    method Finish(id: nat, text: string, now: int) returns (ghost es: seq<Event>)
      requires Inv(Now()) && id < |ops|
      modifies this
      ensures Inv(Now()) && Run(old(Now()), es, Now())
      ensures old(ops[id]).finished.Some? || old(ops[id]).finishing ==> Now() == old(Now())
      ensures old(ops[id]).finished.None? && !old(ops[id]).finishing ==>
        |ops| == old(|ops|)
          && ops[id] == old(ops[id]).(finishing := true, finished := Some(now), status := Ended(text))
          && dead == old(dead) + {id} && trail == old(trail) + [FinishAudited(id, text)]
    {
      hide Inv, Run;
      ghost var s := Now();
      var first := BeginFinish(id);
      es := [Begin(id)];
      OneStep(s, Begin(id));
      StepKeeps(s, Begin(id));
      if !first {
        return;
      }
      ghost var t := Now();
      StopAndAudit(id, text);
      ghost var u := Now();
      EndFinish(id, text, now);
      OneStep(t, Stop(id, text));
      StepKeeps(t, Stop(id, text));
      OneStep(u, End(id, now));
      StepKeeps(u, End(id, now));
      RunThenRun(s, es, t, [Stop(id, text)], u);
      RunThenRun(s, es + [Stop(id, text)], u, [End(id, now)], Now());
      es := es + [Stop(id, text)] + [End(id, now)];
    }

    /** The locked section of cancelOperation, for an operation that can be cancelled. */
    method MarkCancel(id: nat, ghost cascaded: bool) returns (first: bool, children: set<nat>)
      requires Hit(Now(), id) && (cascaded ==> id in queued)
      modifies `ops, `firing, `queued
      ensures Now() == Step(old(Now()), Cancel(id, cascaded))
      ensures first == !old(ops[id]).cancelRequested && children == Children(old(Now()), id)
      ensures forall c :: c in children <==>
        && c in entries && c < |ops| && old(ops)[c].parent == Some(id) && old(ops)[c].finished.None?
        && old(ops)[c].kind == Tool && old(ops)[c].cancellable
      ensures queued == old(queued) + children && |ops| == old(|ops|)
    {
      first := !ops[id].cancelRequested;
      children := set c | c in entries && c < |ops| && ops[c].parent == Some(id) && ops[c].finished.None?
        && ops[c].kind == Tool && ops[c].cancellable;
      firing := if first then firing + {id} else firing;
      queued := queued + children;
      ops := ops[id := ops[id].(cancelRequested := true, status := Cancelling)];
    }

    /** Outside the lock: audit the request, then call the operation's own cancel function. */
    method FireCancel(id: nat)
      requires id in firing
      modifies `dead, `trail, `firing
      ensures Now() == Step(old(Now()), Fire(id))
    {
      trail := trail + [CancelAudited(id)];
      dead := dead + {id};
      firing := firing - {id};
    }

    /**
     * cancelOperation, undisturbed: it marks exactly what the cancel reaches, audits each new mark
     * once, and ends because children are younger than their parents.
     */
    method CancelOperation(id: nat, ghost cascaded: bool) returns (r: CancelReply, ghost es: seq<Event>)
      requires Inv(Now()) && (cascaded ==> id in queued)
      modifies this
      ensures Inv(Now()) && Run(old(Now()), es, Now())
      ensures id in old(entries) ==> id < |old(ops)|
      ensures ReplyIs(old(Now()), id, r)
      ensures r == Accepted ==> id < |ops| && ops[id].cancelRequested && ops[id].status == Cancelling
      ensures r == Accepted && !old(ops)[id].cancelRequested ==> id in dead && CancelAudited(id) in trail
      ensures MarkedExactly(old(Now()), Now(), Reach(old(Now()), id)) && old(queued) <= queued
      decreases if id < |ops| then |ops| - id else 0, 1
    {
      hide Inv, Run, Reach, Via, Children, MarkedExactly, Step;
      ghost var s := Now();
      es := [];
      EntriesAreKnown(s);
      r := Reply(id);
      if r != Accepted {
        NotReached(s, id);
        MarkNothing(s);
        NoStep(s);
        return;
      }
      MarkOne(s, id, cascaded);
      var first, children := MarkCancel(id, cascaded);
      es := [Cancel(id, cascaded)];
      if first {
        FireCancel(id);
        es := es + [Fire(id)];
      }
      ReachIsVia(s, id);
      ghost var more := CancelChildren(id, children, s, es);
      es := es + more;
      MarkedTells(s, Now(), id);
    }

    /** The loop of cancelOperation over the children it collected. */
    method CancelChildren(id: nat, children: set<nat>, ghost s: State, ghost sofar: seq<Event>)
      returns (ghost es: seq<Event>)
      requires Inv(Now()) && Run(s, sofar, Now()) && Inv(s) && Hit(s, id) && children == Children(s, id)
      requires MarkedExactly(s, Now(), {id}) && |ops| == |s.ops| && children <= queued && s.queued <= queued
      modifies this
      ensures Inv(Now()) && Run(s, sofar + es, Now()) && s.queued <= queued
      ensures MarkedExactly(s, Now(), {id} + Via(s, children))
      decreases if id < |ops| then |ops| - id else 0, 0
    {
      hide Inv, Run, Reach, Via, Children, MarkedExactly, Step, Hit;
      NoneVia(s);
      es := [];
      var left := children;
      assert children - left == {} && {id} + Via(s, {}) == {id} && sofar + es == sofar;
      while left != {}
        invariant Inv(Now()) && Run(s, sofar + es, Now()) && left <= children <= queued && s.queued <= queued
        invariant MarkedExactly(s, Now(), {id} + Via(s, children - left)) && |ops| == |s.ops|
        decreases |left|
      {
        var child :| child in left;
        ghost var t, marked := Now(), {id} + Via(s, children - left);
        ViaOneMore(s, id, children - left, child);
        ChildIsYounger(s, id, child);
        var reply, more := CancelOperation(child, true);
        BranchMarked(s, t, Now(), marked, child);
        RunThenRun(s, sofar + es, t, more, Now());
        SameCount(t, Now(), child);
        OneBranchMore(s, id, children, left, child);
        assert sofar + es + more == sofar + (es + more);
        es, left := es + more, left - {child};
      }
      assert children - left == children;
    }

    lemma OneBranchMore(s: State, id: nat, children: set<nat>, left: set<nat>, child: nat)
      requires child in left && left <= children
      requires Via(s, children - left + {child}) == Via(s, children - left) + Reach(s, child)
      ensures {id} + Via(s, children - (left - {child})) == {id} + Via(s, children - left) + Reach(s, child)
    {
      hide Via, Reach;
      assert children - left + {child} == children - (left - {child});
    }

    /** The four early returns. */
    method Reply(id: nat) returns (r: CancelReply)
      requires forall i :: i in entries ==> i < |ops|
      ensures ReplyIs(Now(), id, r)
    {
      if id !in entries {
        return NotFound;
      }
      if ops[id].finished.Some? {
        return AlreadyFinished(ops[id].cancelRequested, ops[id].status);
      }
      if ops[id].finishing {
        return NotCancellable;
      }
      if !ops[id].cancellable {
        return NotCancellable;
      }
      r := Accepted;
    }

    /**
     * noteResourceCancel: every unfinished operation of the resource is marked, whatever its kind,
     * and each is audited; no context is cancelled here.
     */
    method NoteResourceCancel(resource: string) returns (ghost es: seq<Event>)
      requires Inv(Now())
      modifies this
      ensures Inv(Now()) && Run(old(Now()), es, Now()) && dead == old(dead) && entries == old(entries)
      ensures |ops| == old(|ops|) && forall i :: 0 <= i < |ops| ==>
        ops[i] ==
          if i in old(entries) && old(ops)[i].resource == Some(resource) && old(ops)[i].finished.None?
            && !old(ops)[i].cancelRequested
          then old(ops)[i].(cancelRequested := true, status := Cancelling) else old(ops)[i]
      ensures forall i: nat ::
        multiset(trail)[CancelAudited(i)] ==
          multiset(old(trail))[CancelAudited(i)] + if Matches(old(Now()), resource, i) then 1 else 0
    {
      hide Inv, Run;
      ghost var s := Now();
      EntriesAreKnown(s);
      var matched := MarkMatches(resource);
      StepKeeps(s, NoteResource(resource));
      OneStep(s, NoteResource(resource));
      es := [NoteResource(resource)];
      ghost var all := matched;
      ghost var marked := ops;
      while matched != {}
        invariant Inv(Now()) && Run(s, es, Now()) && matched <= all && ops == marked && dead == s.dead
        invariant entries == s.entries
        invariant forall i: nat ::
          multiset(trail)[CancelAudited(i)] == multiset(s.trail)[CancelAudited(i)] + if i in all - matched then 1 else 0
        decreases |matched|
      {
        var id :| id in matched;
        ghost var t := Now();
        StepKeeps(t, AuditCancel(id));
        OneStep(t, AuditCancel(id));
        trail := trail + [CancelAudited(id)];
        RunThenRun(s, es, t, [AuditCancel(id)], Now());
        es, matched := es + [AuditCancel(id)], matched - {id};
      }
    }

    /** The locked loop of noteResourceCancel. */
    method MarkMatches(resource: string) returns (matched: set<nat>)
      requires forall i :: i in entries ==> i < |ops|
      modifies `ops
      ensures Now() == NoteStep(old(Now()), resource)
      ensures forall i: nat :: i in matched <==> Matches(old(Now()), resource, i)
    {
      ghost var s := Now();
      matched := {};
      var left := entries;
      while left != {}
        invariant left <= entries && |ops| == |s.ops|
        invariant forall i: nat :: i in matched <==> i !in left && Matches(s, resource, i)
        invariant forall i :: 0 <= i < |ops| ==> ops[i] == if i in matched then Marked(s.ops[i]) else s.ops[i]
        decreases |left|
      {
        var id :| id in left;
        if ops[id].resource == Some(resource) && ops[id].finished.None? && !ops[id].cancelRequested {
          ops := ops[id := ops[id].(cancelRequested := true, status := Cancelling)];
          matched := matched + {id};
        }
        left := left - {id};
      }
    }

    /** A command job: owned by its launcher, under a context of its own, with a resource of its own. */
    method StartJob(caller: Context, resource: string, now: int) returns (id: nat, ghost es: seq<Event>)
      requires Inv(Now()) && ContextIsKnown(Now(), caller)
      modifies `ops, `entries, `trail
      ensures Inv(Now()) && Run(old(Now()), es, Now())
      ensures id == old(|ops|) && |ops| == id + 1 && id in entries && LeftAlone(Now(), id)
      ensures ops[id].resource == Some(resource) && ops[id].parent == caller.owner
      ensures caller.owner.Some? ==>
        var launcher := old(ops)[caller.owner.value];
        ops[id].identity == launcher.identity && ops[id].request == launcher.request
    {
      hide Inv, Run, Root;
      ghost var s := Now();
      var started;
      started, id, es := Start(Detached(caller), Job, true, "", now);
      ghost var t := Now();
      ghost var e := SetResource(id, resource);
      StepKeeps(t, e);
      OneStep(t, e);
      RunThenRun(s, es, t, [e], Step(t, e));
      ops := ops[id := ops[id].(resource := Some(resource))];
      es := es + [e];
    }

    /** The end of executeTracked: an interrupted tool is cancelled first, then the operation is finished. */
    method Conclude(id: nat, outcome: Outcome, contextEnded: bool, acknowledged: bool, now: int)
      returns (ghost es: seq<Event>)
      requires Inv(Now()) && id < |ops| && ops[id].finished.None? && !ops[id].finishing
      modifies this
      ensures Inv(Now()) && Run(old(Now()), es, Now()) && |ops| == old(|ops|)
      ensures ops[id].finished == Some(now) && Finishes(trail, id) == 1
      ensures var interrupted := contextEnded && old(ops)[id].cancellable
          && (outcome.NoResult? || outcome.ok != Some(true) || acknowledged);
        && (interrupted ==> ops[id].cancelRequested && ops[id].status == Ended("cancelled"))
        && (!interrupted && outcome.NoResult? ==> ops[id].status == Ended("failed"))
        && (!interrupted && outcome.Outcome? && outcome.timedOut ==> ops[id].status == Ended("timed_out"))
        && (!interrupted && outcome.Outcome? && !outcome.timedOut && outcome.cancelled ==>
          ops[id].status == Ended("cancelled"))
        && (!interrupted && outcome.Outcome? && !outcome.timedOut && !outcome.cancelled ==>
          ops[id].status == Ended(if outcome.ok == Some(false) then "failed" else "completed"))
    {
      hide Inv, Run;
      ghost var s := Now();
      var status := "completed";
      if outcome.NoResult? || outcome.ok == Some(false) {
        status := "failed";
      }
      if outcome.Outcome? && outcome.cancelled {
        status := "cancelled";
      }
      if outcome.Outcome? && outcome.timedOut {
        status := "timed_out";
      }
      es := [];
      NoStep(s);
      if contextEnded && ops[id].cancellable && (outcome.NoResult? || outcome.ok != Some(true) || acknowledged) {
        UnfinishedIsHit(s, id);
        var reply, cancels := CancelOperation(id, false);
        es := cancels;
        status := "cancelled";
      }
      ghost var t := Now();
      var finish := Finish(id, status, now);
      RunThenRun(s, es, t, finish, Now());
      es := es + finish;
      FinishedOnce(Now(), id);
    }
  }

  lemma UnfinishedIsHit(s: State, id: nat)
    requires Inv(s) && Known(s, id) && s.ops[id].finished.None? && !s.ops[id].finishing && s.ops[id].cancellable
    ensures id in Reach(s, id)
  {
  }

  lemma FinishedOnce(s: State, id: nat)
    requires Inv(s) && Done(s, id)
    ensures Finishes(s.trail, id) == 1
  {
    assert Staged(s, id);
  }

  lemma EntriesAreKnown(s: State)
    requires Inv(s)
    ensures forall i :: i in s.entries ==> i < |s.ops|
  {
    hide Rooted, Stages, Cascading;
    assert forall i :: i in s.entries ==> Known(s, i);
  }

  lemma NoStep(s: State)
    ensures Run(s, [], s)
  {
  }

  lemma NoneVia(s: State)
    ensures Via(s, {}) == {}
  {
  }

  lemma ChildIsYounger(s: State, id: nat, child: nat)
    requires Inv(s) && child in Children(s, id)
    ensures id < child < |s.ops|
  {
    assert Owned(s, child);
  }

  lemma SameCount(t: State, u: State, child: nat)
    requires MarkedExactly(t, u, Reach(t, child))
    ensures |u.ops| == |t.ops|
  {
  }

  lemma InHistory(s: State)
    requires Bounded(s)
    ensures forall id :: id in s.entries ==> Known(s, id) && (id in Completed(s) <==> s.ops[id].finished.Some?)
    ensures Completed(s) <= s.entries
  {
  }

  lemma DropNext(ops: seq<Op>, sorted: seq<nat>, now: int, m: nat)
    requires m < |sorted|
    ensures var dropped := DroppedBy(ops, sorted, now, m);
      DroppedBy(ops, sorted, now, m + 1) == if TooOld(ops, sorted, now, m) then dropped + {sorted[m]} else dropped
  {
  }

  /** After a start the history holds the new operation and no more finished ones than it may. */
  lemma StartDone(s: State, now: int, dropped: set<nat>, t: State, e: Event, u: State)
    requires Inv(s) && PruneIs(s, now, dropped) && t == s.(entries := s.entries - dropped)
    requires e.Start? && Enabled(t, e) && u == Step(t, e)
    ensures Inv(u) && Run(s, [Prune(now, dropped), e], u)
    ensures |s.ops| in u.entries && u.ops[|s.ops|].request == Root(u, |s.ops|) && |Completed(u)| <= HISTORY
    ensures e.kind == Job && e.context.under.None? ==> LeftAlone(u, |s.ops|)
  {
    hide Inv, Root, Run;
    StepKeeps(s, Prune(now, dropped));
    InvIsBounded(t);
    NewIsLeftAlone(t, e);
    StepKeeps(t, e);
    OneStep(s, Prune(now, dropped));
    OneStep(t, e);
    RunThenRun(s, [Prune(now, dropped)], t, [e], u);
    assert [Prune(now, dropped), e] == [Prune(now, dropped)] + [e];
    NewRequest(u, |s.ops|);
    assert Completed(u) == Completed(s) - dropped;
  }

  lemma InvIsBounded(s: State)
    requires Inv(s)
    ensures Bounded(s)
  {
  }

  lemma NewIsLeftAlone(t: State, e: Event)
    requires Bounded(t) && e.Start? && Enabled(t, e)
    ensures e.kind == Job && e.context.under.None? ==> LeftAlone(Step(t, e), |t.ops|)
  {
    hide PruneIs;
    assert !Known(t, |t.ops|);
  }

  lemma NewRequest(s: State, id: nat)
    requires Inv(s) && Known(s, id)
    ensures s.ops[id].request == Root(s, id)
  {
    RequestIsRoot(s, id);
  }
}
