/**
 * The component tree: a text component, a "struct" (a fixed sequence of
 * components of any kind under one element) and a "vec" (a variable-length
 * sequence under one element). Every component exposes one node, its root;
 * `InSync` is what a component's `audit` checks, recursively; dropping a
 * component removes each of its nodes from its parent.
 */
module Components {
  import opened Wrappers
  import opened Unicode
  import opened Dom
  import opened WebSupport

  datatype Component =
    | Text(text: DomText)
    | Struct(st: DomStruct)
    | Vec(vec: DomVec)

  /** A string and the text node that shows it. */
  datatype DomText = DomText(contents: seq<CodePoint>, textNode: TextHandle)

  /** A structure is a static list of components: `()` or `(First, Rest)`. */
  datatype Structure = Unit | Pair(first: Component, rest: Structure)

  /** A fixed structure of components shown as the children of one element. */
  datatype DomStruct = DomStruct(contents: Structure, elem: ElementHandle)

  /** A vector of components shown, in order, as the children of one element. */
  datatype DomVec = DomVec(contents: seq<Component>, elem: ElementHandle)

  /** The component's root node: its text node or its element. */
  function Node(c: Component): NodeId {
    match c
    case Text(t) => t.textNode.node
    case Struct(ds) => ds.elem.elem
    case Vec(v) => v.elem.elem
  }

  /** `Structure::LEN`: 0 for `()`, one more than the rest for a pair. */
  function Len(st: Structure): (n: nat)
    ensures n == 0 <==> st.Unit?
  {
    match st
    case Unit => 0
    case Pair(_, rest) => Len(rest) + 1
  }

  /** Member `k` of a structure, counting from 0. */
  function Member(st: Structure, k: nat): Component
    requires k < Len(st)
  {
    if k == 0 then st.first else Member(st.rest, k - 1)
  }

  /** The members' root nodes, in order: slot `k` holds member `k`'s root. */
  function Roots(st: Structure): (r: seq<NodeId>)
    ensures |r| == Len(st)
    ensures forall k | 0 <= k < Len(st) :: r[k] == Node(Member(st, k))
  {
    match st
    case Unit => []
    case Pair(first, rest) => [Node(first)] + Roots(rest)
  }

  /** Every node a component owns, its root included. */
  function Nodes(c: Component): set<NodeId>
    decreases c, 1
  {
    {Node(c)} + Members(c)
  }

  /** The nodes owned by a component's members, at any depth. */
  function Members(c: Component): set<NodeId>
    decreases c, 0
  {
    match c
    case Text(_) => {}
    case Struct(ds) => StructureNodes(ds.contents)
    case Vec(v) => set i, n | 0 <= i < |v.contents| && n in Nodes(v.contents[i]) :: n
  }

  function StructureNodes(st: Structure): set<NodeId>
    decreases st, 2
  {
    match st
    case Unit => {}
    case Pair(first, rest) => Nodes(first) + StructureNodes(rest)
  }

  /** The nodes of the first `i` members of a vector. */
  function PrefixNodes(cs: seq<Component>, i: nat): set<NodeId>
    requires i <= |cs|
  {
    set j, n | 0 <= j < i && n in Nodes(cs[j]) :: n
  }

  /** The nodes of the first `i + 1` members are those of the first `i` and of member `i`. */
  lemma PrefixNodesStep(cs: seq<Component>, i: nat)
    requires i < |cs|
    ensures PrefixNodes(cs, i + 1) == PrefixNodes(cs, i) + Nodes(cs[i])
  {
  }

  /** No member contributes nothing; all members contribute every member node. */
  lemma PrefixNodesEnds(v: DomVec)
    ensures PrefixNodes(v.contents, 0) == {}
    ensures PrefixNodes(v.contents, |v.contents|) == Members(Vec(v))
  {
  }

  lemma MemberNodes(v: DomVec, i: nat)
    requires i < |v.contents|
    ensures Nodes(v.contents[i]) <= Members(Vec(v))
  {
  }

  lemma RootsInNodes(st: Structure)
    ensures forall x | x in Roots(st) :: x in StructureNodes(st)
  {
  }

  /**
   * Each handle owns its node alone, so no node occurs twice in a tree: the
   * owning element is not among its members' nodes, and members are disjoint.
   */
  predicate WellFormed(c: Component)
    decreases c, 1
  {
    match c
    case Text(_) => true
    case Struct(ds) => ds.elem.elem !in StructureNodes(ds.contents) && StructureWellFormed(ds.contents)
    case Vec(v) =>
      && v.elem.elem !in Members(c)
      && (forall i | 0 <= i < |v.contents| :: WellFormed(v.contents[i]))
      && (forall i, j | 0 <= i < j < |v.contents| :: Nodes(v.contents[i]) !! Nodes(v.contents[j]))
  }

  predicate StructureWellFormed(st: Structure)
    decreases st, 2
  {
    match st
    case Unit => true
    case Pair(first, rest) =>
      WellFormed(first) && StructureWellFormed(rest) && Nodes(first) !! StructureNodes(rest)
  }

  /** The members of a well-formed structure have distinct roots. */
  lemma {:induction false} RootsNoDup(st: Structure)
    requires StructureWellFormed(st)
    ensures NoDup(Roots(st))
  {
    match st
    case Unit =>
    case Pair(first, rest) =>
      RootsNoDup(rest);
      RootsInNodes(rest);
      NoDupCons(Node(first), Roots(rest));
  }

  /** Every node of the component exists in the document, with the kind its handle has. */
  predicate Exists(s: DomState, c: Component)
    decreases c, 1
  {
    match c
    case Text(t) => s.IsText(t.textNode.node)
    case Struct(ds) => s.IsElement(ds.elem.elem) && StructureExists(s, ds.contents)
    case Vec(v) => s.IsElement(v.elem.elem) && forall i | 0 <= i < |v.contents| :: Exists(s, v.contents[i])
  }

  predicate StructureExists(s: DomState, st: Structure)
    decreases st, 2
  {
    match st
    case Unit => true
    case Pair(first, rest) => Exists(s, first) && StructureExists(s, rest)
  }

  /**
   * `Component::audit` passes. A text component's string is its node's data;
   * a struct's element passes `ElementHandle::audit`, has `LEN` children and
   * its structure passes from index 0; a vec's element passes, has one child
   * per member, and member `i` passes and is child `i`.
   */
  predicate InSync(s: DomState, c: Component)
    decreases c, 1
  {
    match c
    case Text(t) =>
      t.textNode.node in s.data && s.data[t.textNode.node] == t.contents
    case Struct(ds) =>
      && ElementInSync(s, ds.elem) && ds.elem.elem in s.children
      && |s.children[ds.elem.elem]| == Len(ds.contents)
      && StructureInSync(s, ds.contents, s.children[ds.elem.elem], 0)
    case Vec(v) =>
      && ElementInSync(s, v.elem) && v.elem.elem in s.children
      && |s.children[v.elem.elem]| == |v.contents|
      && forall i | 0 <= i < |v.contents| ::
           InSync(s, v.contents[i]) && s.children[v.elem.elem][i] == Node(v.contents[i])
  }

  /**
   * `Structure::audit(list, index)` passes: `index + LEN` is the list's length,
   * and from `index` on, each entry is the next member's node and that member
   * passes its own audit.
   */
  predicate StructureInSync(s: DomState, st: Structure, list: seq<NodeId>, index: nat)
    decreases st, 2
  {
    match st
    case Unit => index == |list|
    case Pair(first, rest) =>
      && index + Len(st) == |list|
      && list[index] == Node(first)
      && InSync(s, first)
      && StructureInSync(s, rest, list, index + 1)
  }

  /** Every member of the structure passes its own audit. */
  predicate MembersInSync(s: DomState, st: Structure) {
    match st
    case Unit => true
    case Pair(first, rest) => InSync(s, first) && MembersInSync(s, rest)
  }

  /** The structure audit from `index` passes exactly when the list ends with the members' roots and every member passes. */
  lemma {:induction false} StructureInSyncRoots(s: DomState, st: Structure, list: seq<NodeId>, index: nat)
    ensures StructureInSync(s, st, list, index) <==>
      index + Len(st) == |list| && list[index..] == Roots(st) && MembersInSync(s, st)
  {
    match st
    case Unit =>
    case Pair(first, rest) =>
      if index + Len(st) == |list| {
        StructureInSyncRoots(s, rest, list, index + 1);
        assert list[index..] == [list[index]] + list[index + 1..];
      }
  }

  /** A component that passes its audit exists in the document. */
  lemma {:induction false} InSyncExists(s: DomState, c: Component)
    requires s.Valid() && InSync(s, c)
    ensures Exists(s, c)
    decreases c, 1
  {
    match c
    case Text(_) =>
    case Struct(ds) =>
      StructureInSyncExists(s, ds.contents, s.children[ds.elem.elem], 0);
    case Vec(v) =>
      forall i | 0 <= i < |v.contents| ensures Exists(s, v.contents[i]) {
        InSyncExists(s, v.contents[i]);
      }
  }

  lemma {:induction false} StructureInSyncExists(s: DomState, st: Structure, list: seq<NodeId>, index: nat)
    requires s.Valid() && StructureInSync(s, st, list, index)
    ensures StructureExists(s, st)
    decreases st, 2
  {
    match st
    case Unit =>
    case Pair(first, rest) =>
      InSyncExists(s, first);
      StructureInSyncExists(s, rest, list, index + 1);
  }

  // ----------------------------------------------------------------------- frames

  /** Two snapshots agree on what an audit reads at node `n`. */
  predicate AgreeAt(s: DomState, t: DomState, n: NodeId) {
    && (n in s.children <==> n in t.children) && (n in s.children ==> s.children[n] == t.children[n])
    && (n in s.attributes <==> n in t.attributes) && (n in s.attributes ==> s.attributes[n] == t.attributes[n])
    && (n in s.onbeforeinput <==> n in t.onbeforeinput)
    && (n in s.onbeforeinput ==> s.onbeforeinput[n] == t.onbeforeinput[n])
    && (n in s.data <==> n in t.data) && (n in s.data ==> s.data[n] == t.data[n])
  }

  predicate Agree(s: DomState, t: DomState, ns: set<NodeId>) {
    forall n | n in ns :: AgreeAt(s, t, n)
  }

  lemma AgreeSub(s: DomState, t: DomState, a: set<NodeId>, b: set<NodeId>)
    requires a <= b && Agree(s, t, b)
    ensures Agree(s, t, a)
  {
  }

  /** A change to the attributes or handler of element `e` alone leaves every other node as it was. */
  lemma OwnerOnlyChanged(s: DomState, t: DomState, e: NodeId, ns: set<NodeId>)
    requires e !in ns && t == s.(attributes := t.attributes, onbeforeinput := t.onbeforeinput)
    requires e in t.attributes && t.attributes == s.attributes[e := t.attributes[e]]
    requires e in t.onbeforeinput && t.onbeforeinput == s.onbeforeinput[e := t.onbeforeinput[e]]
    ensures Agree(s, t, ns)
  {
  }

  /** An audit reads only the nodes the component owns. */
  lemma {:induction false} InSyncFrame(s: DomState, t: DomState, c: Component)
    requires Agree(s, t, Nodes(c))
    ensures InSync(s, c) <==> InSync(t, c)
    ensures Exists(s, c) <==> Exists(t, c)
    decreases c, 1
  {
    assert AgreeAt(s, t, Node(c));
    match c
    case Text(_) =>
    case Struct(ds) =>
      assert Members(c) == StructureNodes(ds.contents);
      AgreeSub(s, t, StructureNodes(ds.contents), Nodes(c));
      StructureInSyncFrame(s, t, ds.contents, if ds.elem.elem in s.children then s.children[ds.elem.elem] else [], 0);
    case Vec(v) =>
      forall i | 0 <= i < |v.contents|
        ensures (InSync(s, v.contents[i]) <==> InSync(t, v.contents[i]))
             && (Exists(s, v.contents[i]) <==> Exists(t, v.contents[i]))
      {
        MemberNodes(v, i);
        AgreeSub(s, t, Nodes(v.contents[i]), Nodes(c));
        InSyncFrame(s, t, v.contents[i]);
      }
  }

  lemma {:induction false} StructureInSyncFrame(s: DomState, t: DomState, st: Structure, list: seq<NodeId>, index: nat)
    requires Agree(s, t, StructureNodes(st))
    ensures StructureInSync(s, st, list, index) <==> StructureInSync(t, st, list, index)
    ensures StructureExists(s, st) <==> StructureExists(t, st)
    decreases st, 2
  {
    match st
    case Unit =>
    case Pair(first, rest) =>
      AgreeSub(s, t, Nodes(first), StructureNodes(st));
      AgreeSub(s, t, StructureNodes(rest), StructureNodes(st));
      InSyncFrame(s, t, first);
      StructureInSyncFrame(s, t, rest, list, index + 1);
  }

  /** Changing only other nodes' child lists and parents keeps agreement. */
  lemma AgreeOutside(s: DomState, t: DomState, ns: set<NodeId>, e: NodeId)
    requires e !in ns
    requires t == s.(children := t.children, parent := t.parent)
    requires t.children.Keys == s.children.Keys
    requires forall n | n in s.children && n != e :: t.children[n] == s.children[n]
    ensures Agree(s, t, ns)
  {
  }

  /** Detaching keeps every node's kind. */
  lemma {:induction false} ExistsDetach(s: DomState, ns: set<NodeId>, c: Component)
    requires Exists(s, c)
    ensures Exists(s.Detach(ns), c)
    decreases c, 1
  {
    match c
    case Text(_) =>
    case Struct(ds) =>
      StructureExistsDetach(s, ns, ds.contents);
    case Vec(v) =>
      forall i | 0 <= i < |v.contents| ensures Exists(s.Detach(ns), v.contents[i]) {
        ExistsDetach(s, ns, v.contents[i]);
      }
  }

  lemma {:induction false} StructureExistsDetach(s: DomState, ns: set<NodeId>, st: Structure)
    requires StructureExists(s, st)
    ensures StructureExists(s.Detach(ns), st)
    decreases st, 2
  {
    match st
    case Unit =>
    case Pair(first, rest) =>
      ExistsDetach(s, ns, first);
      StructureExistsDetach(s, ns, rest);
  }

  /**
   * Detaching nodes that are not among a component's members leaves it in
   * sync: the child lists it audits hold only member nodes, so no entry goes.
   */
  lemma {:induction false} DetachOutside(s: DomState, ns: set<NodeId>, c: Component)
    requires InSync(s, c) && ns !! Members(c)
    ensures InSync(s.Detach(ns), c)
    decreases c, 1
  {
    var t := s.Detach(ns);
    match c
    case Text(_) =>
    case Struct(ds) =>
      var e, list := ds.elem.elem, s.children[ds.elem.elem];
      StructureInSyncRoots(s, ds.contents, list, 0);
      RootsInNodes(ds.contents);
      assert list == list[0..];
      FilterNothing(list, ns);
      assert t.children[e] == list;
      StructureDetachOutside(s, ns, ds.contents, list, 0);
    case Vec(v) =>
      var e, list := v.elem.elem, s.children[v.elem.elem];
      forall x | x in list ensures x !in ns {
        var i :| 0 <= i < |list| && list[i] == x;
        MemberNodes(v, i);
      }
      FilterNothing(list, ns);
      assert t.children[e] == list;
      forall i | 0 <= i < |v.contents| ensures InSync(t, v.contents[i]) {
        MemberNodes(v, i);
        DetachOutside(s, ns, v.contents[i]);
      }
  }

  lemma {:induction false} StructureDetachOutside(s: DomState, ns: set<NodeId>, st: Structure, list: seq<NodeId>, index: nat)
    requires StructureInSync(s, st, list, index) && ns !! StructureNodes(st)
    ensures StructureInSync(s.Detach(ns), st, list, index)
    decreases st, 2
  {
    match st
    case Unit =>
    case Pair(first, rest) =>
      DetachOutside(s, ns, first);
      StructureDetachOutside(s, ns, rest, list, index + 1);
  }

  /**
   * In a consistent document, every member node of a component that passes
   * its audit has a parent, and that parent is one of the component's nodes.
   */
  lemma {:induction false} ParentsInside(s: DomState, c: Component)
    requires ChildrenPointBack(s.children, s.parent) && InSync(s, c)
    ensures forall y | y in Members(c) :: y in s.parent && s.parent[y] in Nodes(c)
    decreases c, 1
  {
    match c
    case Text(_) =>
    case Struct(ds) =>
      StructureParentsInside(s, ds.contents, ds.elem.elem, 0);
    case Vec(v) =>
      var e := v.elem.elem;
      forall y | y in Members(c) ensures y in s.parent && s.parent[y] in Nodes(c) {
        var i :| 0 <= i < |v.contents| && y in Nodes(v.contents[i]);
        MemberNodes(v, i);
        if y == Node(v.contents[i]) {
          assert y in s.children[e];
        } else {
          ParentsInside(s, v.contents[i]);
        }
      }
  }

  lemma {:induction false} StructureParentsInside(s: DomState, st: Structure, e: NodeId, index: nat)
    requires ChildrenPointBack(s.children, s.parent) && e in s.children
    requires StructureInSync(s, st, s.children[e], index)
    ensures forall y | y in StructureNodes(st) ::
      y in s.parent && (s.parent[y] == e || s.parent[y] in StructureNodes(st))
    decreases st, 2
  {
    match st
    case Unit =>
    case Pair(first, rest) =>
      assert s.children[e][index] in s.children[e];
      ParentsInside(s, first);
      StructureParentsInside(s, rest, e, index + 1);
  }

  /**
   * Replacing the children of an element outside a component that passes its
   * audit keeps it in sync, when none of the new children is one of its members.
   */
  lemma ReplaceKeepsMember(s: DomState, e: NodeId, xs: seq<NodeId>, m: Component)
    requires s.Valid() && e in s.children && InSync(s, m) && e !in Nodes(m)
    requires forall x | x in xs :: x !in Members(m)
    ensures InSync(s.ReplaceChildren(e, xs), m)
  {
    var gone := Elements(xs) + Elements(s.children[e]);
    ParentsInside(s, m);
    forall y | y in s.children[e] ensures y !in Members(m) {
      assert s.parent[y] == e;
    }
    DetachOutside(s, gone, m);
    var u := s.Detach(gone);
    var t := s.ReplaceChildren(e, xs);
    AgreeOutside(u, t, Nodes(m), e);
    InSyncFrame(u, t, m);
  }

  // ----------------------------------------------------------------------- audits

  /** `Component::audit`, with each failed assertion a `false` result. */
  method Audit(d: Document, c: Component) returns (ok: bool)
    requires Exists(d.state, c)
    ensures ok == InSync(d.state, c)
    decreases c, 1
  {
    match c
    case Text(t) =>
      ok := d.state.data[t.textNode.node] == t.contents;
    case Struct(ds) =>
      var e := ds.elem.elem;
      ok := AuditElement(d, ds.elem);
      if !ok {
        return;
      }
      var domChildren := d.state.children[e];
      if |domChildren| != Len(ds.contents) {
        return false;
      }
      ok := AuditStructure(d, ds.contents, domChildren, 0);
    case Vec(v) =>
      var e := v.elem.elem;
      ok := AuditElement(d, v.elem);
      if !ok {
        return;
      }
      var domChildren := d.state.children[e];
      if |domChildren| != |v.contents| {
        return false;
      }
      var i := 0;
      while i < |v.contents|
        invariant 0 <= i <= |v.contents|
        invariant forall j | 0 <= j < i :: InSync(d.state, v.contents[j]) && domChildren[j] == Node(v.contents[j])
      {
        ok := Audit(d, v.contents[i]);
        if !ok {
          return;
        }
        if !AuditNode(d.state, e, i, Node(v.contents[i])) {
          return false;
        }
        i := i + 1;
      }
  }

  /** `Structure::audit(node_list, index)`. */
  method AuditStructure(d: Document, st: Structure, list: seq<NodeId>, index: nat) returns (ok: bool)
    requires StructureExists(d.state, st)
    ensures ok == StructureInSync(d.state, st, list, index)
    decreases st, 2
  {
    match st
    case Unit =>
      ok := index == |list|;
    case Pair(first, rest) =>
      if index + Len(st) != |list| || list[index] != Node(first) {
        return false;
      }
      ok := Audit(d, first);
      if !ok {
        return;
      }
      ok := AuditStructure(d, rest, list, index + 1);
  }

  // ------------------------------------------------------------------------ drops

  /**
   * Dropping a component: a struct or vec drops its members first, in order,
   * and then its element; every node leaves its parent.
   */
  method DropComponent(d: Document, c: Component)
    requires d.Valid() && Exists(d.state, c)
    modifies d
    ensures d.Valid() && d.next == old(d.next)
    ensures d.state == old(d.state).Detach(Nodes(c))
    decreases c, 1
  {
    ghost var s0 := d.state;
    match c
    case Text(t) =>
      assert Nodes(c) == {t.textNode.node};
      Drop(d, t.textNode.node);
    case Struct(ds) =>
      DropStructure(d, ds.contents);
      assert d.state.IsNode(ds.elem.elem);
      Drop(d, ds.elem.elem);
      DetachDetach(s0, StructureNodes(ds.contents), {ds.elem.elem});
      assert StructureNodes(ds.contents) + {ds.elem.elem} == Nodes(c);
    case Vec(v) =>
      DropMembers(d, v);
      assert d.state.IsNode(v.elem.elem);
      Drop(d, v.elem.elem);
      DetachDetach(s0, Members(c), {v.elem.elem});
      assert Members(c) + {v.elem.elem} == Nodes(c);
  }

  method DropStructure(d: Document, st: Structure)
    requires d.Valid() && StructureExists(d.state, st)
    modifies d
    ensures d.Valid() && d.next == old(d.next)
    ensures d.state == old(d.state).Detach(StructureNodes(st))
    decreases st, 2
  {
    match st
    case Unit =>
      DetachNothing(d.state);
    case Pair(first, rest) =>
      ghost var s0 := d.state;
      StructureExistsDetach(s0, Nodes(first), rest);
      DropComponent(d, first);
      DropStructure(d, rest);
      DetachDetach(s0, Nodes(first), StructureNodes(rest));
  }

  /** Dropping a vector's members, first to last. */
  method DropMembers(d: Document, v: DomVec)
    requires d.Valid() && forall i | 0 <= i < |v.contents| :: Exists(d.state, v.contents[i])
    modifies d
    ensures d.Valid() && d.next == old(d.next)
    ensures d.state == old(d.state).Detach(Members(Vec(v)))
    decreases Vec(v), 0
  {
    var cs := v.contents;
    ghost var s0 := d.state;
    DetachNothing(s0);
    PrefixNodesEnds(v);
    var i := 0;
    while i < |cs|
      invariant 0 <= i <= |cs|
      invariant d.Valid() && d.next == old(d.next)
      invariant d.state == s0.Detach(PrefixNodes(cs, i))
      invariant forall j | 0 <= j < |cs| :: Exists(d.state, cs[j])
    {
      DropComponent(d, cs[i]);
      DetachDetach(s0, PrefixNodes(cs, i), Nodes(cs[i]));
      PrefixNodesStep(cs, i);
      forall j | 0 <= j < |cs| ensures Exists(d.state, cs[j]) {
        ExistsDetach(s0, PrefixNodes(cs, i + 1), cs[j]);
      }
      i := i + 1;
    }
  }

  /** Detaching no node changes nothing. */
  lemma DetachNothing(s: DomState)
    ensures s.Detach({}) == s
  {
    forall p | p in s.children ensures s.Detach({}).children[p] == s.children[p] {
      FilterNothing(s.children[p], {});
    }
    assert s.Detach({}).children == s.children;
  }
}
