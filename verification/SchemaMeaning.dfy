/** What the rejection walk says about the empty object, and what it overlooks. */
module SchemaMeaning {
  import opened Wrappers
  import opened SchemaWalk

  /** Exactly one is true. */
  predicate OneTrue(bs: seq<bool>) {
    exists i :: 0 <= i < |bs| && bs[i] && forall j :: 0 <= j < |bs| && j != i ==> !bs[j]
  }

  predicate TwoTrue(bs: seq<bool>) { exists i, j :: 0 <= i < j < |bs| && bs[i] && bs[j] }

  /** What the lists of a schema demand, given which of their schemas hold: all, some, and exactly one. */
  predicate ListsHold(allOf: seq<bool>, anyOf: seq<bool>, oneOf: seq<bool>) {
    false !in allOf && (anyOf != [] ==> true in anyOf) && (oneOf != [] ==> OneTrue(oneOf))
  }

  function Map(ok: Node -> bool, bs: seq<Node>): seq<bool> { seq(|bs|, i requires 0 <= i < |bs| => ok(bs[i])) }

  /** The lists of `n` hold when `ok` tells which schemas do. */
  predicate HoldsBy(ok: Node -> bool, n: Node)
    requires n.Node?
  {
    ListsHold(Map(ok, n.allOf), Map(ok, n.anyOf), Map(ok, n.oneOf))
  }

  /**
   * What a schema demands of the empty object: nothing required, its reference, and its lists.
   * Other keywords are not looked at.
   */
  ghost predicate Demands(valid: Node -> bool, n: Node, defs: Definitions) {
    match n
    case Boolean(accepts) => accepts
    case Node(required, reference, _, _, _, _, _) =>
      && required == [] && HoldsBy(valid, n)
      && (reference.Some? && reference.value in defs ==> valid(defs[reference.value]))
  }

  /**
   * A valuation says which schemas the empty object is valid under. It conforms when validity
   * needs all that is demanded; it is the meaning when nothing else is needed.
   */
  ghost predicate Conforms(valid: Node -> bool, defs: Definitions) {
    forall n: Node :: valid(n) ==> Demands(valid, n, defs)
  }

  ghost predicate Means(valid: Node -> bool, defs: Definitions) {
    forall n: Node :: valid(n) <==> Demands(valid, n, defs)
  }

  lemma OneOrTwo(bs: seq<bool>)
    ensures OneTrue(bs) <==> true in bs && !TwoTrue(bs)
  {
    if true in bs {
      var i :| 0 <= i < |bs| && bs[i];
      if !TwoTrue(bs) {
        forall j | 0 <= j < |bs| && j != i
          ensures !bs[j]
        {
          assert i < j || j < i;
        }
      }
    }
  }

  lemma InMap(ok: Node -> bool, bs: seq<Node>)
    ensures true in Map(ok, bs) <==> exists b :: b in bs && ok(b)
    ensures false in Map(ok, bs) <==> exists b :: b in bs && !ok(b)
  {
    forall b | b in bs
      ensures ok(b) in Map(ok, bs)
    {
      var i :| 0 <= i < |bs| && bs[i] == b;
      assert Map(ok, bs)[i] == ok(b);
    }
  }

  /** Soundness: a schema the walk rejects does not accept the empty object, in any reading of its cycles. */
  lemma {:induction false} RejectedIsInvalid(valid: Node -> bool, node: Node, defs: Definitions, seen: set<string>)
    requires Conforms(valid, defs) && Rejects(node, defs, seen)
    ensures !valid(node)
    decreases |defs.Keys - seen|, node
  {
    if node.required == [] {
      if node.reference.Some? {
        OneFewerUnseen(defs, seen, node.reference.value);
        RejectedIsInvalid(valid, defs[node.reference.value], defs, seen + {node.reference.value});
      } else {
        forall b | (b in node.allOf || b in node.anyOf || b in node.oneOf) && Rejects(b, defs, seen)
          ensures !valid(b)
        {
          RejectedIsInvalid(valid, b, defs, seen);
        }
        InMap(valid, node.allOf);
        InMap(valid, node.anyOf);
        InMap(valid, node.oneOf);
        OneOrTwo(Map(valid, node.oneOf));
        hide Map, OneTrue, TwoTrue;
      }
    }
  }

  // ---- Exactness ----

  /** References resolve, to objects or booleans, and never lead back, in this schema and below it. */
  predicate Resolves(n: Node, defs: Definitions, seen: set<string>)
    decreases |defs.Keys - seen|, n
  {
    n.Node? ==>
      && (forall b :: b in n.allOf ==> Resolves(b, defs, seen))
      && (forall b :: b in n.anyOf ==> Resolves(b, defs, seen))
      && (forall b :: b in n.oneOf ==> Resolves(b, defs, seen))
      && (n.reference.Some? ==>
        var name := n.reference.value;
        && name !in seen && name in defs
        && (OneFewerUnseen(defs, seen, name); Resolves(defs[name], defs, seen + {name})))
  }

  /** Whether the empty object is valid under a schema whose references resolve. */
  predicate Accepts(n: Node, defs: Definitions, seen: set<string>)
    requires Resolves(n, defs, seen)
    decreases |defs.Keys - seen|, n
  {
    if n.Boolean? then n.accepts
    else
      && n.required == []
      && ListsHold(
        seq(|n.allOf|, i requires 0 <= i < |n.allOf| => Accepts(n.allOf[i], defs, seen)),
        seq(|n.anyOf|, i requires 0 <= i < |n.anyOf| => Accepts(n.anyOf[i], defs, seen)),
        seq(|n.oneOf|, i requires 0 <= i < |n.oneOf| => Accepts(n.oneOf[i], defs, seen)))
      && (n.reference.Some? ==>
        var name := n.reference.value;
        OneFewerUnseen(defs, seen, name);
        Accepts(defs[name], defs, seen + {name}))
  }

  function Takes(defs: Definitions, seen: set<string>): Node -> bool {
    (b: Node) => Resolves(b, defs, seen) && Accepts(b, defs, seen)
  }

  lemma AcceptsLists(n: Node, defs: Definitions, seen: set<string>)
    requires n.Node? && Resolves(n, defs, seen)
    ensures Accepts(n, defs, seen) <==>
      && n.required == [] && HoldsBy(Takes(defs, seen), n)
      && (n.reference.Some? ==> Accepts(defs[n.reference.value], defs, seen + {n.reference.value}))
  {
    var ok := Takes(defs, seen);
    assert forall i :: 0 <= i < |n.allOf| ==> n.allOf[i] in n.allOf;
    assert forall i :: 0 <= i < |n.anyOf| ==> n.anyOf[i] in n.anyOf;
    assert forall i :: 0 <= i < |n.oneOf| ==> n.oneOf[i] in n.oneOf;
    assert seq(|n.allOf|, i requires 0 <= i < |n.allOf| => Accepts(n.allOf[i], defs, seen)) == Map(ok, n.allOf);
    assert seq(|n.anyOf|, i requires 0 <= i < |n.anyOf| => Accepts(n.anyOf[i], defs, seen)) == Map(ok, n.anyOf);
    assert seq(|n.oneOf|, i requires 0 <= i < |n.oneOf| => Accepts(n.oneOf[i], defs, seen)) == Map(ok, n.oneOf);
    hide ListsHold;
  }

  /** In every reading of a set of definitions, this is what its resolved schemas mean. */
  lemma {:induction false} MeaningIsAccepts(valid: Node -> bool, n: Node, defs: Definitions, seen: set<string>)
    requires Means(valid, defs) && Resolves(n, defs, seen)
    ensures valid(n) <==> Accepts(n, defs, seen)
    decreases |defs.Keys - seen|, n
  {
    if n.Node? {
      forall b | b in n.allOf || b in n.anyOf || b in n.oneOf
        ensures Resolves(b, defs, seen) && (valid(b) <==> Accepts(b, defs, seen))
      {
        MeaningIsAccepts(valid, b, defs, seen);
      }
      if n.reference.Some? {
        OneFewerUnseen(defs, seen, n.reference.value);
        MeaningIsAccepts(valid, defs[n.reference.value], defs, seen + {n.reference.value});
      }
      AcceptsLists(n, defs, seen);
      SameLists(valid, Takes(defs, seen), n);
    }
  }

  /** What the walk makes of a schema at this point. */
  function Passes(defs: Definitions, seen: set<string>): Node -> bool { (b: Node) => !Rejects(b, defs, seen) }

  /**
   * Something the walk does not look at makes a difference here, as far as its own answers for the
   * subschemas tell: a `false` (a reference to one is overlooked at the definition), a second
   * alternative of oneOf that passes, or lists beside a reference that do not hold.
   */
  ghost predicate Overlooked(n: Node, defs: Definitions, seen: set<string>) {
    !Rejects(n, defs, seen) &&
    match n
    case Boolean(accepts) => !accepts
    case Node(_, reference, _, _, oneOf, _, _) =>
      if reference.Some? then !HoldsBy(Passes(defs, seen), n) else TwoTrue(Map(Passes(defs, seen), oneOf))
  }

  /** Nothing is overlooked, in this schema and everything below and behind it. */
  ghost predicate SeesAll(n: Node, defs: Definitions, seen: set<string>)
    requires Resolves(n, defs, seen)
    decreases |defs.Keys - seen|, n
  {
    && !Overlooked(n, defs, seen)
    && (n.Node? ==>
      && (forall b :: b in n.allOf ==> SeesAll(b, defs, seen)) && (forall b :: b in n.anyOf ==> SeesAll(b, defs, seen))
      && (forall b :: b in n.oneOf ==> SeesAll(b, defs, seen))
      && (n.reference.Some? ==>
        var name := n.reference.value;
        OneFewerUnseen(defs, seen, name);
        SeesAll(defs[name], defs, seen + {name})))
  }

  /** The walk is exact for this schema and for everything below and behind it. */
  ghost predicate ExactBelow(n: Node, defs: Definitions, seen: set<string>)
    requires Resolves(n, defs, seen)
    decreases |defs.Keys - seen|, n
  {
    && (Accepts(n, defs, seen) <==> !Rejects(n, defs, seen))
    && (n.Node? ==>
      && (forall b :: b in n.allOf ==> ExactBelow(b, defs, seen))
      && (forall b :: b in n.anyOf ==> ExactBelow(b, defs, seen))
      && (forall b :: b in n.oneOf ==> ExactBelow(b, defs, seen))
      && (n.reference.Some? ==>
        var name := n.reference.value;
        OneFewerUnseen(defs, seen, name);
        ExactBelow(defs[name], defs, seen + {name})))
  }

  lemma SameLists(ok: Node -> bool, other: Node -> bool, n: Node)
    requires n.Node? && forall b :: b in n.allOf || b in n.anyOf || b in n.oneOf ==> ok(b) == other(b)
    ensures HoldsBy(ok, n) <==> HoldsBy(other, n)
  {
    hide ListsHold, Map;
    SameMap(ok, other, n.allOf);
    SameMap(ok, other, n.anyOf);
    SameMap(ok, other, n.oneOf);
  }

  lemma SameMap(ok: Node -> bool, other: Node -> bool, bs: seq<Node>)
    requires forall b :: b in bs ==> ok(b) == other(b)
    ensures Map(ok, bs) == Map(other, bs)
  {
    assert forall i :: 0 <= i < |bs| ==> bs[i] in bs;
  }

  /** What the walk asks of the lists where there is no reference. */
  lemma PassesLists(n: Node, defs: Definitions, seen: set<string>)
    requires n.Node? && n.required == [] && n.reference.None?
    ensures var ok := Passes(defs, seen);
      !Rejects(n, defs, seen) <==>
        && false !in Map(ok, n.allOf) && (n.anyOf != [] ==> true in Map(ok, n.anyOf))
        && (n.oneOf != [] ==> true in Map(ok, n.oneOf))
  {
    var ok := Passes(defs, seen);
    InMap(ok, n.allOf);
    InMap(ok, n.anyOf);
    InMap(ok, n.oneOf);
    hide Map;
  }

  /** When the walk is exact for the subschemas, it is exact here if and only if it overlooks nothing here. */
  lemma ExactHere(n: Node, defs: Definitions, seen: set<string>)
    requires n.Node? && Resolves(n, defs, seen)
    requires forall b :: b in n.allOf || b in n.anyOf || b in n.oneOf ==>
      Resolves(b, defs, seen) && (Accepts(b, defs, seen) <==> !Rejects(b, defs, seen))
    requires n.reference.Some? ==>
      var name := n.reference.value;
      Accepts(defs[name], defs, seen + {name}) <==> !Rejects(defs[name], defs, seen + {name})
    ensures (Accepts(n, defs, seen) <==> !Rejects(n, defs, seen)) <==> !Overlooked(n, defs, seen)
  {
    AcceptsLists(n, defs, seen);
    hide Accepts, Resolves;
    SameLists(Takes(defs, seen), Passes(defs, seen), n);
    if n.required == [] && n.reference.None? {
      PassesLists(n, defs, seen);
      OneOrTwo(Map(Passes(defs, seen), n.oneOf));
      hide Rejects, OneTrue, TwoTrue;
    }
  }

  /**
   * The walk is exact everywhere in a schema whose references resolve without a cycle if and only
   * if there is nothing it overlooks.
   */
  lemma {:induction false} ExactIfNothingOverlooked(n: Node, defs: Definitions, seen: set<string>)
    requires Resolves(n, defs, seen)
    ensures ExactBelow(n, defs, seen) <==> SeesAll(n, defs, seen)
    decreases |defs.Keys - seen|, n
  {
    hide Rejects, Overlooked, Accepts;
    if n.Boolean? {
      BooleanIs(n, defs, seen);
    } else {
      forall b | b in n.allOf || b in n.anyOf || b in n.oneOf
        ensures Resolves(b, defs, seen) && (ExactBelow(b, defs, seen) <==> SeesAll(b, defs, seen))
      {
        ExactIfNothingOverlooked(b, defs, seen);
      }
      if n.reference.Some? {
        OneFewerUnseen(defs, seen, n.reference.value);
        ExactIfNothingOverlooked(defs[n.reference.value], defs, seen + {n.reference.value});
      }
      if ExactBelow(n, defs, seen) || SeesAll(n, defs, seen) {
        ExactHere(n, defs, seen);
      }
    }
  }

  lemma BooleanIs(n: Node, defs: Definitions, seen: set<string>)
    requires n.Boolean? && Resolves(n, defs, seen)
    ensures (Accepts(n, defs, seen) <==> !Rejects(n, defs, seen)) <==> !Overlooked(n, defs, seen)
  {
  }

  /** The empty object is valid under a schema that is not rejected, when the walk overlooks nothing. */
  lemma NotRejectedIsValid(valid: Node -> bool, n: Node, defs: Definitions)
    requires Means(valid, defs) && Resolves(n, defs, {}) && SeesAll(n, defs, {})
    ensures valid(n) <==> !Rejects(n, defs, {})
  {
    ExactIfNothingOverlooked(n, defs, {});
    MeaningIsAccepts(valid, n, defs, {});
  }

  // ---- What can be overlooked ----

  /** A `false`, a reference to it, two alternatives of oneOf that both pass, and a list beside a reference. */
  const NEVER := Boolean(false)
  const TWICE := Node([], None, [], [], [OPEN, OPEN], [], false)
  const BESIDE := Node([], Some("open"), [CLOSED], [], [], [], false)
  const NOWHERE := Node([], Some("never"), [], [], [], [], false)
  const SOME_DEFS: Definitions := map["open" := OPEN, "never" := NEVER]

  lemma SmallMaps(ok: Node -> bool, a: Node)
    ensures Map(ok, []) == [] && Map(ok, [a]) == [ok(a)] && Map(ok, [a, a]) == [ok(a), ok(a)]
    ensures ok(a) ==> !OneTrue([ok(a), ok(a)])
  {
    if ok(a) {
      assert [ok(a), ok(a)][0] && [ok(a), ok(a)][1];
    }
  }

  lemma NoneIsRejected()
    ensures !Rejects(NEVER, SOME_DEFS, {}) && !Rejects(NOWHERE, SOME_DEFS, {})
    ensures !Rejects(TWICE, SOME_DEFS, {}) && !Rejects(BESIDE, SOME_DEFS, {})
  {
    assert Lookup(SOME_DEFS, "open") == Some(OPEN) && Lookup(SOME_DEFS, "never") == None;
    OneFewerUnseen(SOME_DEFS, {}, "open");
    assert !Rejects(OPEN, SOME_DEFS, {} + {"open"});
    assert !Rejects(OPEN, SOME_DEFS, {}) && OPEN in TWICE.oneOf;
  }

  lemma NoneIsCyclic()
    ensures Resolves(NEVER, SOME_DEFS, {}) && Resolves(NOWHERE, SOME_DEFS, {})
    ensures Resolves(TWICE, SOME_DEFS, {}) && Resolves(BESIDE, SOME_DEFS, {})
  {
    OneFewerUnseen(SOME_DEFS, {}, "open");
    OneFewerUnseen(SOME_DEFS, {}, "never");
    assert Resolves(OPEN, SOME_DEFS, {} + {"open"}) && Resolves(NEVER, SOME_DEFS, {} + {"never"});
    assert Resolves(CLOSED, SOME_DEFS, {}) && Resolves(OPEN, SOME_DEFS, {});
  }

  /** None of the four is rejected, and none accepts the empty object; there is no cycle in any of them. */
  lemma OverlookedThings(valid: Node -> bool)
    requires Means(valid, SOME_DEFS)
    ensures !Rejects(NEVER, SOME_DEFS, {}) && !valid(NEVER) && Resolves(NEVER, SOME_DEFS, {})
    ensures !Rejects(NOWHERE, SOME_DEFS, {}) && !valid(NOWHERE) && Resolves(NOWHERE, SOME_DEFS, {})
    ensures !Rejects(TWICE, SOME_DEFS, {}) && !valid(TWICE) && Resolves(TWICE, SOME_DEFS, {})
    ensures !Rejects(BESIDE, SOME_DEFS, {}) && !valid(BESIDE) && Resolves(BESIDE, SOME_DEFS, {})
  {
    hide Map, Rejects, OneTrue, Resolves;
    SmallMaps(valid, OPEN);
    SmallMaps(valid, CLOSED);
    NoneIsRejected();
    NoneIsCyclic();
    assert valid(OPEN) by {
      assert Demands(valid, OPEN, SOME_DEFS);
    }
    assert !Demands(valid, NEVER, SOME_DEFS) && !Demands(valid, NOWHERE, SOME_DEFS);
    assert !Demands(valid, TWICE, SOME_DEFS);
    assert !Demands(valid, CLOSED, SOME_DEFS) && !Demands(valid, BESIDE, SOME_DEFS);
  }

  /** A schema that is nothing but a reference to itself. */
  const SELF := Node([], Some("self"), [], [], [], [], false)
  const SELF_DEFS: Definitions := map["self" := SELF]

  /** The reading in which the cycle is given the answer `open`. */
  predicate Reading(n: Node, open: bool) {
    match n
    case Boolean(accepts) => accepts
    case Node(required, reference, allOf, anyOf, oneOf, _, _) =>
      && required == []
      && ListsHold(
        seq(|allOf|, i requires 0 <= i < |allOf| => Reading(allOf[i], open)),
        seq(|anyOf|, i requires 0 <= i < |anyOf| => Reading(anyOf[i], open)),
        seq(|oneOf|, i requires 0 <= i < |oneOf| => Reading(oneOf[i], open)))
      && (reference == Some("self") ==> open)
  }

  lemma ReadingLists(n: Node, open: bool)
    ensures Reading(n, open) <==> Demands((m: Node) => Reading(m, open), n, SELF_DEFS)
  {
    var ok := (m: Node) => Reading(m, open);
    if n.Node? {
      assert seq(|n.allOf|, i requires 0 <= i < |n.allOf| => Reading(n.allOf[i], open)) == Map(ok, n.allOf);
      assert seq(|n.anyOf|, i requires 0 <= i < |n.anyOf| => Reading(n.anyOf[i], open)) == Map(ok, n.anyOf);
      assert seq(|n.oneOf|, i requires 0 <= i < |n.oneOf| => Reading(n.oneOf[i], open)) == Map(ok, n.oneOf);
      hide Map;
      assert Reading(SELF, open) == open;
    }
  }

  /** On a cycle the meaning is open: both answers are readings of it. The walk does not reject. */
  lemma CyclesStayOpen(open: bool)
    ensures !Rejects(SELF, SELF_DEFS, {}) && !Resolves(SELF, SELF_DEFS, {})
    ensures Means((n: Node) => Reading(n, open), SELF_DEFS) && Reading(SELF, open) == open
  {
    assert Lookup(SELF_DEFS, "self") == Some(SELF);
    OneFewerUnseen(SELF_DEFS, {}, "self");
    assert !Rejects(SELF, SELF_DEFS, {} + {"self"}) && !Resolves(SELF, SELF_DEFS, {} + {"self"});
    assert Reading(SELF, open) == open;
    hide Rejects, Resolves, Reading, Demands;
    forall n: Node
      ensures Reading(n, open) <==> Demands((m: Node) => Reading(m, open), n, SELF_DEFS)
    {
      ReadingLists(n, open);
    }
  }
}
