/** Leases on a fixed number of heavy slots: a token channel, a table of operations, and their cancel functions. */
module HeavySlots {
  import opened Wrappers

  /** A lease has taken a token, is entered in the table, has left it, and has given its token back. */
  datatype Phase = Taken | Entered | Left | Done

  datatype Heavy = Heavy(cancel: Option<int>, requested: bool)

  /**
   * Leases are numbered in the order of their tokens. `pending` are calls of cancel functions
   * decided under the lock and made after it, `called` those already made.
   */
  datatype State = State(
    capacity: nat, tokens: nat, phases: seq<Phase>, table: map<nat, Heavy>, pending: set<(nat, int)>,
    called: set<(nat, int)>)

  /** The steps of all goroutines: each is one channel operation, one locked section, or one call. */
  datatype Event =
    | Take
    | Enter(lease: nat)
    | Leave(lease: nat)
    | GiveBack(lease: nat)
    | ReleaseAgain(lease: nat)
    | SetCancel(lease: nat, cancel: int)
    | Cancel(lease: nat)
    | Call(lease: nat, cancel: int)

  predicate In(s: State, lease: nat, phase: Phase) { lease < |s.phases| && s.phases[lease] == phase }

  /** sync.Once lets a lease leave once; a second Release does nothing. */
  predicate Enabled(s: State, e: Event) {
    match e
    case Take => s.tokens < s.capacity
    case Enter(l) => In(s, l, Taken)
    case Leave(l) => In(s, l, Entered)
    case GiveBack(l) => In(s, l, Left)
    case ReleaseAgain(l) => In(s, l, Left) || In(s, l, Done)
    case SetCancel(l, _) => l < |s.phases| && !In(s, l, Taken)
    case Cancel(_) => true
    case Call(l, c) => (l, c) in s.pending
  }

  function Step(s: State, e: Event): State
    requires Enabled(s, e)
  {
    match e
    case Take => s.(tokens := s.tokens + 1, phases := s.phases + [Taken])
    case Enter(l) => s.(phases := s.phases[l := Entered], table := s.table[l := Heavy(None, false)])
    case Leave(l) => s.(phases := s.phases[l := Left], table := s.table - {l})
    case GiveBack(l) => s.(tokens := if s.tokens > 0 then s.tokens - 1 else 0, phases := s.phases[l := Done])
    case ReleaseAgain(_) => s
    case SetCancel(l, c) =>
      if l !in s.table then s
      else
        s.(table := s.table[l := s.table[l].(cancel := Some(c))],
           pending := if s.table[l].requested then s.pending + {(l, c)} else s.pending)
    case Cancel(l) =>
      if l !in s.table || s.table[l].cancel.None? || s.table[l].requested then s
      else
        s.(table := s.table[l := s.table[l].(requested := true)],
           pending := s.pending + {(l, s.table[l].cancel.value)})
    case Call(l, c) => s.(pending := s.pending - {(l, c)}, called := s.called + {(l, c)})
  }

  function Empty(capacity: nat): State { State(capacity, 0, [], map[], {}, {}) }

  predicate Run(s: State, es: seq<Event>, t: State)
    decreases es
  {
    if es == [] then s == t else Enabled(s, es[0]) && Run(Step(s, es[0]), es[1..], t)
  }

  function Count(phases: seq<Phase>, wanted: set<Phase>): nat {
    if phases == [] then 0 else Count(phases[..|phases| - 1], wanted) + if phases[|phases| - 1] in wanted then 1 else 0
  }

  const HOLDING := {Taken, Entered, Left}

  lemma {:induction false} CountUpdate(phases: seq<Phase>, i: nat, p: Phase, wanted: set<Phase>)
    requires i < |phases|
    ensures Count(phases[i := p], wanted) ==
      Count(phases, wanted) - (if phases[i] in wanted then 1 else 0) + if p in wanted then 1 else 0
  {
    var front := phases[..|phases| - 1];
    if i == |phases| - 1 {
      assert phases[i := p][..|phases| - 1] == front;
    } else {
      assert phases[i := p][..|phases| - 1] == front[i := p];
      CountUpdate(front, i, p, wanted);
    }
  }

  lemma CountMore(phases: seq<Phase>, p: Phase, wanted: set<Phase>)
    ensures Count(phases + [p], wanted) == Count(phases, wanted) + if p in wanted then 1 else 0
  {
    assert (phases + [p])[..|phases|] == phases;
  }

  lemma {:induction false} CountSplits(phases: seq<Phase>)
    ensures Count(phases, {Entered}) <= Count(phases, HOLDING)
    ensures Count(phases, HOLDING) + Count(phases, {Done}) == |phases|
  {
    if phases != [] {
      CountSplits(phases[..|phases| - 1]);
      var last := phases[|phases| - 1];
      assert last.Taken? || last.Entered? || last.Left? || last.Done?;
    }
  }

  /** Tokens are the leases that have not given theirs back; the table holds exactly the entered ones. */
  ghost predicate Inv(s: State) {
    && s.tokens == Count(s.phases, HOLDING) <= s.capacity
    && (forall l :: l in s.table <==> In(s, l, Entered)) && |s.table| == Count(s.phases, {Entered})
    && (forall l :: l in s.table && s.table[l].requested ==>
      s.table[l].cancel.Some? && (l, s.table[l].cancel.value) in s.pending + s.called)
  }

  lemma StepKeeps(s: State, e: Event)
    requires Inv(s) && Enabled(s, e)
    ensures Inv(Step(s, e))
  {
    hide Count;
    if e.Take? {
      CountMore(s.phases, Taken, HOLDING);
      CountMore(s.phases, Taken, {Entered});
    } else if e.Enter? || e.Leave? || e.GiveBack? {
      MoveKeeps(s, e);
    }
  }

  /** A lease going on to its next phase. */
  lemma MoveKeeps(s: State, e: Event)
    requires Inv(s) && Enabled(s, e) && (e.Enter? || e.Leave? || e.GiveBack?)
    ensures Inv(Step(s, e))
  {
    hide Count, Inv;
    match e {
      case Enter(l) => EnterKeeps(s, l);
      case Leave(l) => LeaveKeeps(s, l);
      case GiveBack(l) => GiveBackKeeps(s, l);
    }
  }

  lemma EnterKeeps(s: State, l: nat)
    requires Inv(s) && In(s, l, Taken)
    ensures Inv(Step(s, Enter(l)))
  {
    hide Count;
    CountUpdate(s.phases, l, Entered, HOLDING);
    CountUpdate(s.phases, l, Entered, {Entered});
  }

  lemma LeaveKeeps(s: State, l: nat)
    requires Inv(s) && In(s, l, Entered)
    ensures Inv(Step(s, Leave(l)))
  {
    hide Count;
    CountUpdate(s.phases, l, Left, HOLDING);
    CountUpdate(s.phases, l, Left, {Entered});
    assert (s.table - {l}).Keys == s.table.Keys - {l};
  }

  lemma GiveBackKeeps(s: State, l: nat)
    requires Inv(s) && In(s, l, Left)
    ensures Inv(Step(s, GiveBack(l)))
  {
    hide Count;
    CountUpdate(s.phases, l, Done, HOLDING);
    CountUpdate(s.phases, l, Done, {Entered});
    CountSplits(s.phases);
  }

  lemma {:induction false} RunKeeps(s: State, es: seq<Event>, t: State)
    requires Inv(s) && Run(s, es, t)
    ensures Inv(t) && t.capacity == s.capacity
    decreases es
  {
    hide Inv;
    if es != [] {
      StepKeeps(s, es[0]);
      RunKeeps(Step(s, es[0]), es[1..], t);
    }
  }

  /** How many tokens a run takes, and how many it gives back. */
  function Takes(es: seq<Event>): nat { if es == [] then 0 else (if es[0].Take? then 1 else 0) + Takes(es[1..]) }

  function Returns(es: seq<Event>, lease: nat): nat {
    if es == [] then 0 else (if es[0] == GiveBack(lease) then 1 else 0) + Returns(es[1..], lease)
  }

  /** A lease gives back one token at most, and exactly one by the time it is done. */
  lemma {:induction false} OneTokenEach(s: State, es: seq<Event>, t: State, lease: nat)
    requires Run(s, es, t)
    ensures Returns(es, lease) == (if In(t, lease, Done) then 1 else 0) - if In(s, lease, Done) then 1 else 0
    ensures |t.phases| == |s.phases| + Takes(es)
    decreases es
  {
    if es != [] {
      OneTokenEach(Step(s, es[0]), es[1..], t, lease);
    }
  }

  /**
   * Conservation under every interleaving: listed operations never exceed tokens in use, tokens
   * never exceed the capacity, and each token taken is in use or was given back once.
   */
  lemma SlotsAreConserved(capacity: nat, es: seq<Event>, t: State)
    requires Run(Empty(capacity), es, t)
    ensures |t.table| <= t.tokens <= capacity
    ensures t.tokens + Count(t.phases, {Done}) == Takes(es)
    ensures forall lease: nat :: Returns(es, lease) == if In(t, lease, Done) then 1 else 0
  {
    RunKeeps(Empty(capacity), es, t);
    CountSplits(t.phases);
    OneTokenEach(Empty(capacity), es, t, 0);
    forall lease: nat
      ensures Returns(es, lease) == if In(t, lease, Done) then 1 else 0
    {
      OneTokenEach(Empty(capacity), es, t, lease);
    }
  }

  /**
   * No accepted cancel is lost: whichever of SetCancel and the request comes first, the function in
   * the table is called.
   */
  lemma CancelIsNotLost(capacity: nat, es: seq<Event>, t: State, lease: nat)
    requires Run(Empty(capacity), es, t) && lease in t.table && t.table[lease].requested && t.pending == {}
    ensures t.table[lease].cancel.Some? && (lease, t.table[lease].cancel.value) in t.called
  {
    RunKeeps(Empty(capacity), es, t);
  }

  // ---- The engine's methods ----

  datatype CancelReply = NotFound | SpecializedCancel | Requested

  class Slots {
    const capacity: nat
    var tokens: nat
    var phases: seq<Phase>
    var table: map<nat, Heavy>
    ghost var pending: set<(nat, int)>
    ghost var called: set<(nat, int)>

    ghost function Now(): State
      reads this
    {
      State(capacity, tokens, phases, table, pending, called)
    }

    constructor (capacity: nat)
      ensures Now() == Empty(capacity)
    {
      this.capacity := capacity;
      tokens, phases, table, pending, called := 0, [], map[], {}, {};
    }

    /** The send on the slot channel: it fails at once when the channel is full. */
    method TryTake() returns (lease: Option<nat>)
      requires Inv(Now())
      modifies `tokens, `phases
      ensures Inv(Now()) && (lease.None? <==> old(tokens) == capacity)
      ensures lease.None? ==> Now() == old(Now())
      ensures lease.Some? ==>
        lease.value == old(|phases|) && Enabled(old(Now()), Take) && Now() == Step(old(Now()), Take)
    {
      if tokens == capacity {
        return None;
      }
      StepKeeps(Now(), Take);
      tokens, phases, lease := tokens + 1, phases + [Taken], Some(|phases|);
    }

    /** acquireHeavyOperation: a token, then an entry in the table. */
    method Acquire() returns (lease: Option<nat>)
      requires Inv(Now())
      modifies `tokens, `phases, `table
      ensures Inv(Now()) && (lease.None? <==> old(tokens) == capacity) && (lease.None? ==> Now() == old(Now()))
      ensures lease.Some? ==>
        In(Now(), lease.value, Entered) && tokens == old(tokens) + 1 && |table| == old(|table|) + 1
    {
      lease := TryTake();
      if lease.Some? {
        StepKeeps(Now(), Enter(lease.value));
        phases, table := phases[lease.value := Entered], table[lease.value := Heavy(None, false)];
      }
    }

    /** Release, through its sync.Once: only the first call leaves the table and gives the token back. */
    method Release(lease: nat)
      requires Inv(Now()) && lease < |phases| && phases[lease] != Taken
      modifies `tokens, `phases, `table
      ensures Inv(Now()) && lease !in table
      ensures old(In(Now(), lease, Entered)) ==>
        In(Now(), lease, Done) && tokens == old(tokens) - 1 && table == old(table) - {lease}
      ensures !old(In(Now(), lease, Entered)) ==> Now() == old(Now())
    {
      if phases[lease] != Entered {
        return;
      }
      StepKeeps(Now(), Leave(lease));
      phases, table := phases[lease := Left], table - {lease};
      HolderCounts(Now(), lease);
      StepKeeps(Now(), GiveBack(lease));
      tokens, phases := tokens - 1, phases[lease := Done];
    }

    /** SetCancel: store the function, and call it when a cancel was already accepted. */
    method SetCancelFunction(lease: nat, cancel: int) returns (invoke: bool)
      requires Inv(Now()) && lease < |phases| && phases[lease] != Taken
      modifies `table, `pending, `called
      ensures Inv(Now()) && (invoke <==> lease in old(table) && old(table)[lease].requested)
      ensures invoke ==> (lease, cancel) in called
      ensures lease in old(table) ==> table == old(table)[lease := old(table)[lease].(cancel := Some(cancel))]
    {
      hide Inv, Count;
      StepKeeps(Now(), SetCancel(lease, cancel));
      invoke := false;
      if lease in table {
        invoke := table[lease].requested;
        table := table[lease := table[lease].(cancel := Some(cancel))];
        pending := if invoke then pending + {(lease, cancel)} else pending;
      }
      if invoke {
        StepKeeps(Now(), Call(lease, cancel));
        pending, called := pending - {(lease, cancel)}, called + {(lease, cancel)};
      }
    }

    /** cancelHeavyOperation, for the function of the lease itself. */
    method CancelHeavyOperation(lease: nat) returns (r: CancelReply)
      requires Inv(Now())
      modifies `table, `pending, `called
      ensures Inv(Now())
      ensures r.NotFound? <==> lease !in old(table)
      ensures r.SpecializedCancel? <==> lease in old(table) && old(table)[lease].cancel.None?
      ensures r.Requested? ==> lease in table && table[lease].requested && table[lease].cancel.Some?
      ensures r.Requested? ==> (lease, table[lease].cancel.value) in pending + called
    {
      StepKeeps(Now(), Cancel(lease));
      if lease !in table {
        return CancelReply.NotFound;
      }
      var heavy := table[lease];
      if heavy.cancel.None? {
        return SpecializedCancel;
      }
      if heavy.requested {
        return Requested;
      }
      table := table[lease := heavy.(requested := true)];
      pending := pending + {(lease, heavy.cancel.value)};
      StepKeeps(Now(), Call(lease, heavy.cancel.value));
      pending, called := pending - {(lease, heavy.cancel.value)}, called + {(lease, heavy.cancel.value)};
      r := Requested;
    }
  }

  lemma HolderCounts(s: State, lease: nat)
    requires Inv(s) && In(s, lease, Left)
    ensures s.tokens > 0
  {
    CountUpdate(s.phases, lease, Done, HOLDING);
  }
}
