/** The walks over tool schemas with possibly cyclic references, in Go and in Python. */
module SchemaWalk {
  import opened Wrappers

  /**
   * A schema is a boolean or an object; of an object, the parts the walks look at. An absent list is
   * an empty one, and only `#/$defs/` references count.
   */
  datatype Node =
    | Boolean(accepts: bool)
    | Node(required: seq<string>, reference: Option<string>, allOf: seq<Node>, anyOf: seq<Node>, oneOf: seq<Node>,
      thenBranch: seq<Node>, additiveObject: bool)

  type Definitions = map<string, Node>

  /** A definition that is an object. */
  function Lookup(defs: Definitions, name: string): Option<Node> {
    if name in defs && defs[name].Node? then Some(defs[name]) else None
  }

  lemma {:induction false} OneFewerUnseen(defs: Definitions, seen: set<string>, name: string)
    requires name in defs && name !in seen
    ensures |defs.Keys - (seen + {name})| < |defs.Keys - seen|
  {
    assert defs.Keys - (seen + {name}) == defs.Keys - seen - {name};
  }

  // ---- rejectsEmptyObject ----

  /** The Go walk: `seen` are the references already followed on the way down. */
  predicate Rejects(node: Node, defs: Definitions, seen: set<string>)
    decreases |defs.Keys - seen|, node
  {
    if node.Boolean? then false
    else if node.required != [] then true
    else if node.reference.Some? then
      var name := node.reference.value;
      if name in seen || Lookup(defs, name).None? then false
      else
        OneFewerUnseen(defs, seen, name);
        Rejects(Lookup(defs, name).value, defs, seen + {name})
    else
      || (exists b :: b in node.allOf && Rejects(b, defs, seen))
      || (node.anyOf != [] && forall b :: b in node.anyOf ==> Rejects(b, defs, seen))
      || (node.oneOf != [] && forall b :: b in node.oneOf ==> Rejects(b, defs, seen))
  }

  /** The loop over one of anyOf and oneOf. */
  method AllReject(branches: seq<Node>, defs: Definitions, seen: set<string>, ghost node: Node) returns (all: bool)
    requires forall b :: b in branches ==> b < node
    ensures all == forall b :: b in branches ==> Rejects(b, defs, seen)
    decreases |defs.Keys - seen|, node, 0
  {
    for i := 0 to |branches|
      invariant forall b :: b in branches[..i] ==> Rejects(b, defs, seen)
    {
      assert branches[i] in branches && branches[i] < node;
      var rejects := RejectsEmptyObject(branches[i], defs, seen);
      if !rejects {
        return false;
      }
      assert branches[..i + 1] == branches[..i] + [branches[i]];
    }
    assert branches[..|branches|] == branches;
    all := true;
  }

  /** rejectsEmptyObject */
  method RejectsEmptyObject(node: Node, defs: Definitions, seen: set<string>) returns (r: bool)
    ensures r == Rejects(node, defs, seen)
    decreases |defs.Keys - seen|, node, 1
  {
    if node.Boolean? {
      return false;
    }
    if |node.required| > 0 {
      return true;
    }
    if node.reference.Some? {
      var name := node.reference.value;
      if name in seen || Lookup(defs, name).None? {
        return false;
      }
      OneFewerUnseen(defs, seen, name);
      r := RejectsEmptyObject(Lookup(defs, name).value, defs, seen + {name});
      return;
    }
    for i := 0 to |node.allOf|
      invariant forall b :: b in node.allOf[..i] ==> !Rejects(b, defs, seen)
    {
      var rejects := RejectsEmptyObject(node.allOf[i], defs, seen);
      if rejects {
        return true;
      }
      assert node.allOf[..i + 1] == node.allOf[..i] + [node.allOf[i]];
    }
    assert node.allOf[..|node.allOf|] == node.allOf;
    if |node.anyOf| > 0 {
      var all := AllReject(node.anyOf, defs, seen, node);
      if all {
        return true;
      }
    }
    if |node.oneOf| > 0 {
      var all := AllReject(node.oneOf, defs, seen, node);
      if all {
        return true;
      }
    }
    r := false;
  }

  // ---- The Python twin ----

  /** _rejects_empty_object: the first of anyOf and oneOf that is there decides. */
  predicate PythonRejects(node: Node, defs: Definitions, seen: set<string>)
    decreases |defs.Keys - seen|, node
  {
    if node.Boolean? then false
    else if node.required != [] then true
    else if node.reference.Some? then
      var name := node.reference.value;
      if name in seen || name !in defs then false
      else
        OneFewerUnseen(defs, seen, name);
        PythonRejects(defs[name], defs, seen + {name})
    else if exists b :: b in node.allOf && PythonRejects(b, defs, seen) then true
    else if node.anyOf != [] then forall b :: b in node.anyOf ==> PythonRejects(b, defs, seen)
    else if node.oneOf != [] then forall b :: b in node.oneOf ==> PythonRejects(b, defs, seen)
    else false
  }

  /** What Python rejects, Go rejects. */
  lemma {:induction false} PythonImpliesGo(node: Node, defs: Definitions, seen: set<string>)
    ensures PythonRejects(node, defs, seen) ==> Rejects(node, defs, seen)
    decreases |defs.Keys - seen|, node
  {
    if node.Node? && node.required == [] {
      if node.reference.Some? {
        var name := node.reference.value;
        if name !in seen && name in defs {
          OneFewerUnseen(defs, seen, name);
          PythonImpliesGo(defs[name], defs, seen + {name});
        }
      } else {
        forall b | b in node.allOf || b in node.anyOf || b in node.oneOf
          ensures PythonRejects(b, defs, seen) ==> Rejects(b, defs, seen)
        {
          PythonImpliesGo(b, defs, seen);
        }
      }
    }
  }

  /** A schema as the Python walk sees it: no oneOf beside an anyOf. */
  function Visible(node: Node): (r: Node)
    ensures r.Boolean? <==> node.Boolean?
  {
    if node.Boolean? then node
    else
      var allOf := seq(|node.allOf|, i requires 0 <= i < |node.allOf| => Visible(node.allOf[i]));
      var anyOf := seq(|node.anyOf|, i requires 0 <= i < |node.anyOf| => Visible(node.anyOf[i]));
      var oneOf := seq(|node.oneOf|, i requires 0 <= i < |node.oneOf| => Visible(node.oneOf[i]));
      node.(allOf := allOf, anyOf := anyOf, oneOf := if node.anyOf != [] then [] else oneOf)
  }

  function VisibleAll(defs: Definitions): Definitions { map name | name in defs :: Visible(defs[name]) }

  lemma SameAlternatives(bs: seq<Node>, vs: seq<Node>, defs: Definitions, seen: set<string>)
    requires |vs| == |bs| && forall i :: 0 <= i < |bs| ==> vs[i] == Visible(bs[i])
    requires forall b :: b in bs ==> (PythonRejects(b, defs, seen) <==> Rejects(Visible(b), VisibleAll(defs), seen))
    ensures (exists v :: v in vs && Rejects(v, VisibleAll(defs), seen)) <==>
      exists b :: b in bs && PythonRejects(b, defs, seen)
    ensures (forall v :: v in vs ==> Rejects(v, VisibleAll(defs), seen)) <==> forall b :: b in bs ==>
      PythonRejects(b, defs, seen)
  {
    hide PythonRejects, Rejects, Visible;
    if v :| v in vs && Rejects(v, VisibleAll(defs), seen) {
      var i :| 0 <= i < |vs| && vs[i] == v;
      assert bs[i] in bs;
    }
    if b :| b in bs && PythonRejects(b, defs, seen) {
      var i :| 0 <= i < |bs| && bs[i] == b;
      assert vs[i] in vs;
    }
    if v :| v in vs && !Rejects(v, VisibleAll(defs), seen) {
      var i :| 0 <= i < |vs| && vs[i] == v;
      assert bs[i] in bs;
    }
    if b :| b in bs && !PythonRejects(b, defs, seen) {
      var i :| 0 <= i < |bs| && bs[i] == b;
      assert vs[i] in vs;
    }
  }

  /** What the two walks look at in a schema without required fields or reference. */
  lemma BothUnfold(node: Node, v: Node, defs: Definitions, all: Definitions, seen: set<string>)
    requires node.Node? && node.required == [] && node.reference.None?
    requires v.Node? && v.required == [] && v.reference.None?
    ensures PythonRejects(node, defs, seen) <==>
      || (exists b :: b in node.allOf && PythonRejects(b, defs, seen))
      || (if node.anyOf != [] then forall b :: b in node.anyOf ==> PythonRejects(b, defs, seen)
         else node.oneOf != [] && forall b :: b in node.oneOf ==> PythonRejects(b, defs, seen))
    ensures Rejects(v, all, seen) <==>
      || (exists b :: b in v.allOf && Rejects(b, all, seen))
      || (v.anyOf != [] && forall b :: b in v.anyOf ==> Rejects(b, all, seen))
      || (v.oneOf != [] && forall b :: b in v.oneOf ==> Rejects(b, all, seen))
  {
  }

  lemma AlternativesAgree(node: Node, defs: Definitions, seen: set<string>)
    requires node.Node? && node.required == [] && node.reference.None?
    requires forall b :: b in node.allOf || b in node.anyOf || b in node.oneOf ==>
      (PythonRejects(b, defs, seen) <==> Rejects(Visible(b), VisibleAll(defs), seen))
    ensures PythonRejects(node, defs, seen) <==> Rejects(Visible(node), VisibleAll(defs), seen)
  {
    hide VisibleAll, Rejects, PythonRejects;
    var v := Visible(node);
    BothUnfold(node, v, defs, VisibleAll(defs), seen);
    SameAlternatives(node.allOf, v.allOf, defs, seen);
    SameAlternatives(node.anyOf, v.anyOf, defs, seen);
    if node.anyOf == [] {
      SameAlternatives(node.oneOf, v.oneOf, defs, seen);
    }
  }

  /** Exactly what Python rejects: what Go rejects once every oneOf beside an anyOf is dropped. */
  lemma {:induction false} WalksAgree(node: Node, defs: Definitions, seen: set<string>)
    ensures PythonRejects(node, defs, seen) <==> Rejects(Visible(node), VisibleAll(defs), seen)
    decreases |defs.Keys - seen|, node
  {
    var all := VisibleAll(defs);
    assert all.Keys == defs.Keys;
    if node.Node? && node.required == [] {
      if node.reference.Some? {
        var name := node.reference.value;
        if name !in seen && name in defs {
          OneFewerUnseen(defs, seen, name);
          WalksAgree(defs[name], defs, seen + {name});
        }
      } else {
        forall b | b in node.allOf || b in node.anyOf || b in node.oneOf
          ensures PythonRejects(b, defs, seen) <==> Rejects(Visible(b), all, seen)
        {
          WalksAgree(b, defs, seen);
        }
        AlternativesAgree(node, defs, seen);
      }
    }
  }

  const OPEN := Node([], None, [], [], [], [], true)
  const CLOSED := Node(["ok"], None, [], [], [], [], true)
  const MIXED := Node([], None, [], [OPEN], [CLOSED], [], true)

  /** Where they differ: an anyOf that accepts the empty object hides a oneOf that does not. */
  lemma WalksCanDiffer()
    ensures Rejects(MIXED, map[], {}) && !PythonRejects(MIXED, map[], {})
  {
    assert OPEN in MIXED.anyOf && CLOSED in MIXED.oneOf;
    assert !PythonRejects(OPEN, map[], {}) && Rejects(CLOSED, map[], {});
  }

  // ---- additiveObjectBranch ----

  /** What a chain of references leads to, following each name once. */
  function Target(node: Node, defs: Definitions, seen: set<string>): (t: Option<Node>)
    ensures t.Some? ==> t.value.Node? && t.value.reference.None?
    decreases |defs.Keys - seen|
  {
    if node.Boolean? then None
    else if node.reference.None? then Some(node)
    else
      var name := node.reference.value;
      if name in seen || Lookup(defs, name).None? then None
      else
        OneFewerUnseen(defs, seen, name);
        Target(Lookup(defs, name).value, defs, seen + {name})
  }

  /** additiveObjectBranch: the names followed are collected in a set it updates. */
  method AdditiveObjectBranch(start: Node, defs: Definitions) returns (r: bool)
    ensures r <==> Target(start, defs, {}).Some? && Target(start, defs, {}).value.additiveObject
  {
    var node, seen: set<string> := start, {};
    while node.Node? && node.reference.Some?
      invariant Target(node, defs, seen) == Target(start, defs, {})
      decreases |defs.Keys - seen|
    {
      var name := node.reference.value;
      if name in seen || Lookup(defs, name).None? {
        return false;
      }
      OneFewerUnseen(defs, seen, name);
      seen := seen + {name};
      node := Lookup(defs, name).value;
    }
    r := node.Node? && node.additiveObject;
  }

  /** A chain of references, name by name. */
  predicate Leads(defs: Definitions, node: Node, names: seq<string>, end: Node)
    decreases names
  {
    if names == [] then node == end
    else
      && node.Node? && node.reference == Some(names[0]) && Lookup(defs, names[0]).Some?
      && Leads(defs, Lookup(defs, names[0]).value, names[1..], end)
  }

  predicate Fresh(names: seq<string>, seen: set<string>) {
    (forall n :: n in names ==> n !in seen) && forall i, j :: 0 <= i < j < |names| ==> names[i] != names[j]
  }

  /** The target is the end of the chain of references, and there is one exactly when no name comes twice. */
  lemma {:induction false} TargetEndsChain(node: Node, defs: Definitions, seen: set<string>)
    returns (names: seq<string>)
    ensures Target(node, defs, seen).Some? ==>
      Fresh(names, seen) && Leads(defs, node, names, Target(node, defs, seen).value)
    decreases |defs.Keys - seen|
  {
    names := [];
    if node.Node? && node.reference.Some? {
      var name := node.reference.value;
      if name !in seen && Lookup(defs, name).Some? {
        OneFewerUnseen(defs, seen, name);
        var rest := TargetEndsChain(Lookup(defs, name).value, defs, seen + {name});
        names := [name] + rest;
        assert names[1..] == rest;
      }
    }
  }

  lemma {:induction false} ChainEndsInTarget(
    node: Node, defs: Definitions, seen: set<string>, names: seq<string>, end: Node)
    requires Fresh(names, seen) && Leads(defs, node, names, end) && end.Node? && end.reference.None?
    ensures Target(node, defs, seen) == Some(end)
    decreases |names|
  {
    if names != [] {
      OneFewerUnseen(defs, seen, names[0]);
      forall n | n in names[1..]
        ensures n !in seen + {names[0]}
      {
      }
      ChainEndsInTarget(Lookup(defs, names[0]).value, defs, seen + {names[0]}, names[1..], end);
    }
  }

  // ---- requiredBranchesWithInherited ----

  function Fields(node: Node): set<string>
    requires node.Node?
  {
    set f | f in node.required
  }

  ghost predicate Below(kids: seq<Node>, node: Node) { forall i :: 0 <= i < |kids| ==> kids[i] < node }

  /** The subschemas the walk descends into, in its order. */
  function Kids(node: Node): (kids: seq<Node>)
    requires node.Node?
    ensures Below(kids, node)
  {
    node.anyOf + node.oneOf + node.allOf + node.thenBranch
  }

  predicate Descends(kids: seq<Node>) { exists k :: k in kids && k.Node? }

  /** The sets of required fields along the ways down through the alternatives, and through `then`. */
  function Branches(node: Node, defs: Definitions, seen: set<string>, inherited: set<string>): seq<set<string>>
    decreases |defs.Keys - seen|, node, 1, 0
  {
    if node.Boolean? then []
    else
      var local := inherited + Fields(node);
      if node.reference.Some? then
        var name := node.reference.value;
        if name in seen || Lookup(defs, name).None? then []
        else
          OneFewerUnseen(defs, seen, name);
          Branches(Lookup(defs, name).value, defs, seen + {name}, local)
      else if Descends(Kids(node)) then AllBranches(Kids(node), defs, seen, local, node)
      else if local == {} then []
      else [local]
  }

  function AllBranches(
    kids: seq<Node>, defs: Definitions, seen: set<string>, local: set<string>, ghost node: Node): seq<set<string>>
    requires Below(kids, node)
    decreases |defs.Keys - seen|, node, 0, |kids|
  {
    if kids == [] then [] else Branches(kids[0], defs, seen, local) + AllBranches(kids[1..], defs, seen, local, node)
  }

  lemma {:induction false} AllBranchesAppend(
    kids: seq<Node>, k: Node, defs: Definitions, seen: set<string>, local: set<string>, node: Node)
    requires k < node && Below(kids, node)
    ensures AllBranches(kids + [k], defs, seen, local, node) ==
      AllBranches(kids, defs, seen, local, node) + Branches(k, defs, seen, local)
  {
    if kids == [] {
      assert [k][1..] == [] && [] + [k] == [k];
    } else {
      assert (kids + [k])[1..] == kids[1..] + [k];
      AllBranchesAppend(kids[1..], k, defs, seen, local, node);
      hide Branches;
      var first, last := Branches(kids[0], defs, seen, local), Branches(k, defs, seen, local);
      var rest := AllBranches(kids[1..], defs, seen, local, node);
      assert first + (rest + last) == first + rest + last;
    }
  }

  /** requiredBranchesWithInherited: the branches grow while the loops go over the alternatives. */
  method RequiredBranches(node: Node, defs: Definitions, seen: set<string>, inherited: set<string>)
    returns (branches: seq<set<string>>)
    ensures branches == Branches(node, defs, seen, inherited)
    decreases |defs.Keys - seen|, node
  {
    if node.Boolean? {
      return [];
    }
    var local := inherited + Fields(node);
    if node.reference.Some? {
      var name := node.reference.value;
      if name in seen || Lookup(defs, name).None? {
        return [];
      }
      OneFewerUnseen(defs, seen, name);
      branches := RequiredBranches(Lookup(defs, name).value, defs, seen + {name}, local);
      return;
    }
    branches := [];
    var descended, kids := false, Kids(node);
    for i := 0 to |kids|
      invariant branches == AllBranches(kids[..i], defs, seen, local, node)
      invariant descended == Descends(kids[..i])
    {
      assert kids[i] in kids && kids[..i + 1] == kids[..i] + [kids[i]];
      AllBranchesAppend(kids[..i], kids[i], defs, seen, local, node);
      if kids[i].Node? {
        descended := true;
        var more := RequiredBranches(kids[i], defs, seen, local);
        branches := branches + more;
      }
    }
    assert kids[..|kids|] == kids;
    if !descended && local != {} {
      branches := [local];
    } else if !descended {
      NoBranches(kids, defs, seen, local, node);
    }
  }

  lemma {:induction false} NoBranches(
    kids: seq<Node>, defs: Definitions, seen: set<string>, local: set<string>, node: Node)
    requires !Descends(kids) && Below(kids, node)
    ensures AllBranches(kids, defs, seen, local, node) == []
  {
    if kids != [] {
      assert kids[0] in kids;
      assert forall k :: k in kids[1..] ==> k in kids;
      NoBranches(kids[1..], defs, seen, local, node);
    }
  }

  /** A subschema of one of the alternatives, or of `then`. */
  predicate Under(node: Node, k: Node)
    requires node.Node?
  {
    k in node.anyOf || k in node.oneOf || k in node.allOf || k in node.thenBranch
  }

  /**
   * A way down: from each object to the definition it refers to, or to an object under it, as long as
   * there is one; no reference is followed twice.
   */
  ghost predicate Way(defs: Definitions, seen: set<string>, nodes: seq<Node>)
    decreases |nodes|
  {
    && nodes != [] && nodes[0].Node?
    && if nodes[0].reference.Some? then
         var name := nodes[0].reference.value;
         && name !in seen && name in defs && |nodes| > 1 && nodes[1] == defs[name]
         && Way(defs, seen + {name}, nodes[1..])
       else if |nodes| > 1 then Under(nodes[0], nodes[1]) && Way(defs, seen, nodes[1..])
       else !exists k :: Under(nodes[0], k) && k.Node?
  }

  ghost predicate WayTo(defs: Definitions, seen: set<string>, node: Node, nodes: seq<Node>) {
    nodes != [] && nodes[0] == node && Way(defs, seen, nodes)
  }

  /** Everything required on the way. */
  function FieldsOn(nodes: seq<Node>): set<string> { set n, f | n in nodes && n.Node? && f in n.required :: f }

  lemma FieldsOnFirst(nodes: seq<Node>)
    requires nodes != [] && nodes[0].Node?
    ensures FieldsOn(nodes) == Fields(nodes[0]) + FieldsOn(nodes[1..])
  {
    assert nodes == [nodes[0]] + nodes[1..];
  }

  lemma NoFields()
    ensures FieldsOn([]) == {}
  {
  }

  lemma KidsAreUnder(node: Node)
    requires node.Node?
    ensures forall k :: k in Kids(node) <==> Under(node, k)
  {
  }

  lemma {:induction false} InAllBranches(
    kids: seq<Node>, k: Node, defs: Definitions, seen: set<string>, local: set<string>, node: Node, b: set<string>)
    requires k in kids && Below(kids, node) && b in Branches(k, defs, seen, local)
    ensures b in AllBranches(kids, defs, seen, local, node)
  {
    hide Branches;
    if kids[0] != k {
      InAllBranches(kids[1..], k, defs, seen, local, node, b);
    }
  }

  /** What the walk finds at one node. */
  lemma BranchesHere(node: Node, defs: Definitions, seen: set<string>, inherited: set<string>, b: set<string>)
    requires node.Node?
    ensures var local := inherited + Fields(node);
      && (node.reference.Some? && node.reference.value !in seen && Lookup(defs, node.reference.value).Some? ==>
        var name := node.reference.value;
        Branches(node, defs, seen, inherited) == Branches(defs[name], defs, seen + {name}, local))
      && (node.reference.None? && !Descends(Kids(node)) && local != {} ==>
        local in Branches(node, defs, seen, inherited))
      && (node.reference.None? ==>
        forall k :: k in Kids(node) && k.Node? && b in Branches(k, defs, seen, local) ==>
          b in Branches(node, defs, seen, inherited))
  {
    var local := inherited + Fields(node);
    if node.reference.Some? {
      if node.reference.value !in seen && Lookup(defs, node.reference.value).Some? {
        OneFewerUnseen(defs, seen, node.reference.value);
      }
    } else {
      forall k | k in Kids(node) && k.Node? && b in Branches(k, defs, seen, local)
        ensures b in Branches(node, defs, seen, inherited)
      {
        InAllBranches(Kids(node), k, defs, seen, local, node, b);
      }
    }
  }

  /** Each way down is a branch. */
  lemma {:induction false} WayIsBranch(defs: Definitions, seen: set<string>, inherited: set<string>, nodes: seq<Node>)
    requires Way(defs, seen, nodes) && inherited + FieldsOn(nodes) != {}
    ensures inherited + FieldsOn(nodes) in Branches(nodes[0], defs, seen, inherited)
    decreases |nodes|
  {
    hide Kids, Under, FieldsOn, Fields, Below, Branches;
    var node := nodes[0];
    var local := inherited + Fields(node);
    FieldsOnFirst(nodes);
    NoFields();
    KidsAreUnder(node);
    BranchesHere(node, defs, seen, inherited, inherited + FieldsOn(nodes));
    assert local + FieldsOn(nodes[1..]) == inherited + FieldsOn(nodes);
    if node.reference.Some? {
      WayIsBranch(defs, seen + {node.reference.value}, local, nodes[1..]);
    } else if |nodes| > 1 {
      WayIsBranch(defs, seen, local, nodes[1..]);
      assert nodes[1] in Kids(node) && nodes[1].Node?;
    } else {
      assert nodes[1..] == [] && !Descends(Kids(node));
      assert local == inherited + FieldsOn(nodes);
    }
  }

  /** Each branch comes of a way down. */
  lemma {:induction false} BranchIsWay(
    node: Node, defs: Definitions, seen: set<string>, inherited: set<string>, b: set<string>)
    returns (nodes: seq<Node>)
    requires b in Branches(node, defs, seen, inherited)
    ensures nodes != [] && nodes[0] == node && Way(defs, seen, nodes) && b == inherited + FieldsOn(nodes) != {}
    decreases |defs.Keys - seen|, node
  {
    hide Kids, Under, FieldsOn, Fields, Below;
    var local := inherited + Fields(node);
    var rest: seq<Node> := [];
    if node.reference.Some? {
      var name := node.reference.value;
      OneFewerUnseen(defs, seen, name);
      rest := BranchIsWay(defs[name], defs, seen + {name}, local, b);
    } else if Descends(Kids(node)) {
      var k := BranchOfKid(Kids(node), defs, seen, local, node, b);
      rest := BranchIsWay(k, defs, seen, local, b);
    }
    nodes := [node] + rest;
    assert nodes[1..] == rest;
    FieldsOnFirst(nodes);
    NoFields();
    KidsAreUnder(node);
  }

  /** The branches are what is required, and not nothing, along the ways down. */
  lemma BranchesAreWays(node: Node, defs: Definitions, seen: set<string>, inherited: set<string>, b: set<string>)
    ensures b in Branches(node, defs, seen, inherited) <==>
      b != {} && exists nodes :: WayTo(defs, seen, node, nodes) && b == inherited + FieldsOn(nodes)
  {
    hide Branches, Way, FieldsOn;
    if b in Branches(node, defs, seen, inherited) {
      var nodes := BranchIsWay(node, defs, seen, inherited, b);
    }
    if b != {} {
      forall nodes | WayTo(defs, seen, node, nodes) && b == inherited + FieldsOn(nodes)
        ensures b in Branches(node, defs, seen, inherited)
      {
        WayIsBranch(defs, seen, inherited, nodes);
      }
    }
  }

  /** What an object with the fields `present` needs in order to be valid under a schema. */
  ghost predicate Holds(valid: Node -> bool, defs: Definitions, present: set<string>) {
    forall n: Node :: valid(n) && n.Node? ==>
      && Fields(n) <= present
      && (n.reference.Some? && n.reference.value in defs ==> valid(defs[n.reference.value]))
      && (forall b :: b in n.allOf ==> valid(b))
      && (n.anyOf != [] ==> exists b :: b in n.anyOf && valid(b))
      && (n.oneOf != [] ==> exists b :: b in n.oneOf && valid(b))
  }

  /** All alternatives are schemas the walk finds something in. */
  ghost predicate Covers(branches: seq<Node>, defs: Definitions, seen: set<string>, local: set<string>, node: Node)
    requires Below(branches, node)
    decreases |defs.Keys - seen|, node, 0
  {
    branches != [] && forall b :: b in branches ==> Tight(b, defs, seen, local)
  }

  /**
   * Nothing escapes the walk: references resolve without a cycle, some list of alternatives (or one
   * allOf branch) is covered, and a leaf requires something.
   */
  ghost predicate Tight(node: Node, defs: Definitions, seen: set<string>, inherited: set<string>)
    decreases |defs.Keys - seen|, node, 1
  {
    node.Node? &&
    var local := inherited + Fields(node);
    if node.reference.Some? then
      var name := node.reference.value;
      if name in seen || Lookup(defs, name).None? then false
      else
        OneFewerUnseen(defs, seen, name);
        Tight(Lookup(defs, name).value, defs, seen + {name}, local)
    else if Descends(Kids(node)) then
      || Covers(node.anyOf, defs, seen, local, node) || Covers(node.oneOf, defs, seen, local, node)
      || (exists b :: b in node.allOf && Tight(b, defs, seen, local))
    else local != {}
  }

  predicate SomeWithin(branches: seq<set<string>>, present: set<string>) { exists b :: b in branches && b <= present }

  lemma {:induction false} BranchAmongAll(
    kids: seq<Node>, k: Node, defs: Definitions, seen: set<string>, local: set<string>, node: Node,
    present: set<string>)
    requires k in kids && Below(kids, node) && SomeWithin(Branches(k, defs, seen, local), present)
    ensures SomeWithin(AllBranches(kids, defs, seen, local, node), present)
  {
    hide Branches;
    if kids[0] == k {
      var b :| b in Branches(k, defs, seen, local) && b <= present;
      assert b in AllBranches(kids, defs, seen, local, node);
    } else {
      BranchAmongAll(kids[1..], k, defs, seen, local, node, present);
      var b :| b in AllBranches(kids[1..], defs, seen, local, node) && b <= present;
      assert b in AllBranches(kids, defs, seen, local, node);
    }
  }

  /**
   * The branches cover every valid object: when nothing escapes the walk, an object that is valid
   * under the schema has all fields of at least one of the branches found.
   */
  lemma {:induction false} BranchesCover(
    valid: Node -> bool, node: Node, defs: Definitions, seen: set<string>, inherited: set<string>,
    present: set<string>)
    requires Holds(valid, defs, present) && valid(node) && inherited <= present && Tight(node, defs, seen, inherited)
    ensures SomeWithin(Branches(node, defs, seen, inherited), present)
    decreases |defs.Keys - seen|, node
  {
    var local := inherited + Fields(node);
    if node.reference.Some? {
      var name := node.reference.value;
      OneFewerUnseen(defs, seen, name);
      BranchesCover(valid, Lookup(defs, name).value, defs, seen + {name}, local, present);
    } else if Descends(Kids(node)) {
      var k := CoveredKid(valid, node, defs, seen, local, present);
      BranchesCover(valid, k, defs, seen, local, present);
      BranchAmongAll(Kids(node), k, defs, seen, local, node, present);
    } else {
      assert local in [local];
    }
  }

  /** One of the covered subschemas holds. */
  lemma CoveredKid(
    valid: Node -> bool, node: Node, defs: Definitions, seen: set<string>, local: set<string>, present: set<string>)
    returns (k: Node)
    requires Holds(valid, defs, present) && valid(node) && node.Node?
    requires Covers(node.anyOf, defs, seen, local, node) || Covers(node.oneOf, defs, seen, local, node)
      || exists b :: b in node.allOf && Tight(b, defs, seen, local)
    ensures k in Kids(node) && k < node && valid(k) && Tight(k, defs, seen, local)
  {
    hide Tight;
    if Covers(node.anyOf, defs, seen, local, node) {
      k :| k in node.anyOf && valid(k);
    } else if Covers(node.oneOf, defs, seen, local, node) {
      k :| k in node.oneOf && valid(k);
    } else {
      k :| k in node.allOf && Tight(k, defs, seen, local);
    }
  }

  /** Each branch carries what the schema itself requires. */
  lemma {:induction false} BranchesCarry(
    node: Node, defs: Definitions, seen: set<string>, inherited: set<string>, b: set<string>)
    requires node.Node? && b in Branches(node, defs, seen, inherited)
    ensures inherited + Fields(node) <= b
    decreases |defs.Keys - seen|, node
  {
    var local := inherited + Fields(node);
    if node.reference.Some? {
      OneFewerUnseen(defs, seen, node.reference.value);
      BranchesCarry(Lookup(defs, node.reference.value).value, defs, seen + {node.reference.value}, local, b);
    } else if Descends(Kids(node)) {
      var k := BranchOfKid(Kids(node), defs, seen, local, node, b);
      BranchesCarry(k, defs, seen, local, b);
    }
  }

  lemma {:induction false} BranchOfKid(
    kids: seq<Node>, defs: Definitions, seen: set<string>, local: set<string>, node: Node, b: set<string>)
    returns (k: Node)
    requires Below(kids, node) && b in AllBranches(kids, defs, seen, local, node)
    ensures k in kids && k < node && k.Node? && b in Branches(k, defs, seen, local)
  {
    if b in Branches(kids[0], defs, seen, local) {
      k := kids[0];
    } else {
      k := BranchOfKid(kids[1..], defs, seen, local, node, b);
    }
  }
}
