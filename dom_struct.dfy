/**
 * The struct component: a fixed structure of components shown as the
 * children of one element. A structure installs its members' nodes into a
 * pre-sized array, which is attached to the element in one `replaceChildren`.
 */
module DomStructs {
  import opened Wrappers
  import opened Unicode
  import opened Dom
  import opened WebSupport
  import opened Components

  /**
   * `Structure::install(nodes, index)`: `index + LEN` must be the array's
   * length; the members' nodes go into slots `index` onwards, in order, and
   * the slots before `index` are untouched.
   */
  method Install(a: array<Option<NodeId>>, st: Structure, index: nat)
    requires index + Len(st) == a.Length && a.Length < U32_LIMIT
    modifies a
    ensures a[..index] == old(a[..index])
    ensures forall k | 0 <= k < Len(st) :: a[index + k] == Some(Roots(st)[k])
    decreases st
  {
    match st
    case Unit =>
    case Pair(first, rest) =>
      SetSlot(a, index, Node(first));
      Install(a, rest, index + 1);
  }

  /** An array installed from index 0 is full, and holds exactly the members' roots. */
  lemma InstalledRoots(slots: seq<Option<NodeId>>, st: Structure)
    requires |slots| == Len(st)
    requires forall k | 0 <= k < Len(st) :: slots[k] == Some(Roots(st)[k])
    ensures forall k | 0 <= k < |slots| :: slots[k].Some?
    ensures Filled(slots) == Roots(st)
  {
  }

  /** The members' roots are nodes of the document. */
  lemma {:induction false} RootsExist(s: DomState, st: Structure)
    requires StructureExists(s, st)
    ensures forall x | x in Roots(st) :: s.IsNode(x)
  {
    match st
    case Unit =>
    case Pair(first, rest) =>
      RootsExist(s, rest);
  }

  /**
   * `DomStruct::new`: the members are installed into an array of length
   * `LEN`, and the array becomes the element's child list in one step.
   */
  method New(d: Document, st: Structure, h: ElementHandle) returns (ds: DomStruct)
    requires d.Valid() && d.state.IsElement(h.elem) && StructureExists(d.state, st)
    requires WellFormed(Struct(DomStruct(st, h))) && Len(st) < U32_LIMIT
    modifies d
    ensures d.Valid() && d.next == old(d.next)
    ensures ds == DomStruct(st, h)
    ensures d.state == old(d.state).ReplaceChildren(h.elem, Roots(st))
    ensures old(ElementInSync(d.state, h) && MembersInSync(d.state, st)) ==> InSync(d.state, Struct(ds))
  {
    ghost var s0 := d.state;
    var childNodes := NewArrayHandle(Len(st));
    Install(childNodes, st, 0);
    InstalledRoots(childNodes[..], st);
    RootsNoDup(st);
    RootsInNodes(st);
    RootsExist(s0, st);
    AttachNodes(d, h, childNodes);
    ds := DomStruct(st, h);
    if ElementInSync(s0, h) && MembersInSync(s0, st) {
      AttachInSync(s0, ds);
    }
  }

  /**
   * Replacing the element's children with the members' roots puts every
   * member in its slot and keeps it in sync: the structure audit passes.
   */
  lemma {:induction false} AttachStructure(s: DomState, e: NodeId, xs: seq<NodeId>, st: Structure, index: nat)
    requires s.Valid() && e in s.children
    requires StructureWellFormed(st) && e !in StructureNodes(st) && MembersInSync(s, st)
    requires index + Len(st) == |xs| && xs[index..] == Roots(st)
    requires forall x | x in xs[..index] :: x !in StructureNodes(st)
    ensures StructureInSync(s.ReplaceChildren(e, xs), st, xs, index)
    decreases st
  {
    match st
    case Unit =>
    case Pair(first, rest) =>
      SlotFacts(xs, index, first, rest);
      ReplaceKeepsMember(s, e, xs, first);
      AttachStructure(s, e, xs, rest, index + 1);
  }

  /**
   * Where the roots of `Pair(first, rest)` fill `xs` from `index` on and no
   * earlier entry is one of its nodes: `first`'s root sits at `index`, the
   * rest's roots follow, no entry is a member of `first`, and no entry up to
   * `index` is a node of the rest.
   */
  lemma SlotFacts(xs: seq<NodeId>, index: nat, first: Component, rest: Structure)
    requires StructureWellFormed(Pair(first, rest))
    requires index + Len(Pair(first, rest)) == |xs| && xs[index..] == Roots(Pair(first, rest))
    requires forall x | x in xs[..index] :: x !in StructureNodes(Pair(first, rest))
    ensures xs[index] == Node(first) && xs[index + 1..] == Roots(rest)
    ensures forall x | x in xs :: x !in Members(first)
    ensures forall x | x in xs[..index + 1] :: x !in StructureNodes(rest)
  {
    assert xs[index] == Node(first);
    assert xs[index + 1..] == Roots(rest) by {
      assert xs[index..] == [xs[index]] + xs[index + 1..];
    }
    RootsInNodes(rest);
    forall x | x in xs ensures x !in Members(first) {
      var j :| 0 <= j < |xs| && xs[j] == x;
      if j < index {
        assert x in xs[..index];
      } else if j > index {
        assert x in xs[index + 1..];
      }
    }
    forall x | x in xs[..index + 1] ensures x !in StructureNodes(rest) {
      var j :| 0 <= j < index + 1 && xs[..index + 1][j] == x;
      if j < index {
        assert x in xs[..index];
      }
    }
  }

  /** After `new`, the struct passes its audit when its element and its members did before. */
  lemma AttachInSync(s: DomState, ds: DomStruct)
    requires s.Valid() && ds.elem.elem in s.children && ElementInSync(s, ds.elem)
    requires MembersInSync(s, ds.contents) && WellFormed(Struct(ds))
    ensures InSync(s.ReplaceChildren(ds.elem.elem, Roots(ds.contents)), Struct(ds))
    ensures s.ReplaceChildren(ds.elem.elem, Roots(ds.contents)).children[ds.elem.elem] == Roots(ds.contents)
  {
    var xs := Roots(ds.contents);
    assert xs[0..] == xs;
    AttachStructure(s, ds.elem.elem, xs, ds.contents, 0);
  }

  /**
   * `DomStruct::set_contents` as written: the new structure replaces the old
   * one, whose members are dropped and leave the element; nothing is
   * installed or attached.
   */
  method SetContentsAsWritten(d: Document, ds: DomStruct, contents: Structure) returns (ds': DomStruct)
    requires d.Valid() && StructureExists(d.state, ds.contents) && Len(contents) == Len(ds.contents)
    modifies d
    ensures d.Valid() && d.next == old(d.next)
    ensures ds' == ds.(contents := contents)
    ensures d.state == old(d.state).Detach(StructureNodes(ds.contents))
  {
    DropStructure(d, ds.contents);
    ds' := ds.(contents := contents);
  }

  /** After `set_contents` as written, a struct with at least one member fails its audit: its element has no children left. */
  lemma SetContentsAsWrittenBreaksSync(s: DomState, ds: DomStruct, contents: Structure)
    requires InSync(s, Struct(ds)) && Len(contents) == Len(ds.contents) && Len(contents) > 0
    ensures !InSync(s.Detach(StructureNodes(ds.contents)), Struct(ds.(contents := contents)))
  {
    var e, list := ds.elem.elem, s.children[ds.elem.elem];
    StructureInSyncRoots(s, ds.contents, list, 0);
    assert list == list[0..];
    RootsInNodes(ds.contents);
    FilterAll(list, StructureNodes(ds.contents));
  }

  /**
   * `set_contents` that keeps the element in step: the old members are
   * dropped, the new ones installed and attached as in `new`.
   */
  method SetContents(d: Document, ds: DomStruct, contents: Structure) returns (ds': DomStruct)
    requires d.Valid() && d.state.IsElement(ds.elem.elem) && Len(contents) == Len(ds.contents)
    requires StructureExists(d.state, ds.contents) && StructureExists(d.state, contents)
    requires WellFormed(Struct(ds.(contents := contents))) && Len(contents) < U32_LIMIT
    modifies d
    ensures d.Valid() && d.next == old(d.next)
    ensures ds' == ds.(contents := contents)
    ensures d.state == old(d.state).Detach(StructureNodes(ds.contents)).ReplaceChildren(ds.elem.elem, Roots(contents))
  {
    ghost var s0 := d.state;
    StructureExistsDetach(s0, StructureNodes(ds.contents), contents);
    DropStructure(d, ds.contents);
    ds' := New(d, contents, ds.elem);
  }

  /** Members that pass their audit keep passing when nodes outside them are detached. */
  lemma {:induction false} MembersDetachOutside(s: DomState, ns: set<NodeId>, st: Structure)
    requires MembersInSync(s, st) && ns !! StructureNodes(st)
    ensures MembersInSync(s.Detach(ns), st)
  {
    match st
    case Unit =>
    case Pair(first, rest) =>
      DetachOutside(s, ns, first);
      MembersDetachOutside(s, ns, rest);
  }

  /**
   * After the corrected `set_contents`, the struct passes its audit when its
   * element and the new members did before, and the new members are not
   * among the old ones.
   */
  lemma SetContentsInSync(s: DomState, ds: DomStruct, contents: Structure)
    requires s.Valid() && ds.elem.elem in s.children && ElementInSync(s, ds.elem)
    requires MembersInSync(s, contents) && WellFormed(Struct(ds.(contents := contents)))
    requires StructureNodes(contents) !! StructureNodes(ds.contents)
    ensures InSync(s.Detach(StructureNodes(ds.contents)).ReplaceChildren(ds.elem.elem, Roots(contents)),
                   Struct(ds.(contents := contents)))
  {
    var ns := StructureNodes(ds.contents);
    DetachValid(s, ns);
    MembersDetachOutside(s, ns, contents);
    AttachInSync(s.Detach(ns), ds.(contents := contents));
  }

  /**
   * A change made through `DomStruct::get_mut` that leaves the element alone,
   * keeps every member's root in its slot and every member passing its audit
   * keeps the struct in sync.
   */
  lemma GetMutKeepsSync(s: DomState, t: DomState, ds: DomStruct, contents: Structure)
    requires InSync(s, Struct(ds)) && AgreeAt(s, t, ds.elem.elem)
    requires Roots(contents) == Roots(ds.contents) && MembersInSync(t, contents)
    ensures InSync(t, Struct(ds.(contents := contents)))
  {
    var list := s.children[ds.elem.elem];
    StructureInSyncRoots(s, ds.contents, list, 0);
    StructureInSyncRoots(t, contents, list, 0);
  }

  /**
   * `DomStruct::set_attribute` as written: delegated to the element handle as
   * written, so the shadow keeps the name as given.
   */
  method SetAttributeAsWritten(d: Document, ds: DomStruct, name: string, value: string) returns (ds': DomStruct)
    requires d.Valid() && d.state.IsElement(ds.elem.elem) && ValidAttributeName(name)
    modifies d
    ensures d.Valid() && d.next == old(d.next)
    ensures ds' == ds.(elem := ds.elem.(attributes := ds.elem.attributes[name := value]))
    ensures d.state == old(d.state).SetAttribute(ds.elem.elem, name, value)
  {
    var h := WebSupport.SetAttributeAsWritten(d, ds.elem, name, value);
    ds' := ds.(elem := h);
  }

  /**
   * As written, a name with an ASCII capital whose lowercase form the element
   * lacks makes the struct fail its audit.
   */
  lemma SetAttributeAsWrittenBreaksStructSync(s: DomState, ds: DomStruct, name: string, value: string)
    requires InSync(s, Struct(ds)) && !IsLower(name) && AsciiLower(name) !in ds.elem.attributes
    ensures !InSync(s.SetAttribute(ds.elem.elem, name, value),
                    Struct(ds.(elem := ds.elem.(attributes := ds.elem.attributes[name := value]))))
  {
    SetAttributeAsWrittenDiverges(s, ds.elem, name, value);
  }

  /** As written, a lowercase name keeps the struct in sync: it is then the corrected delegation. */
  lemma SetAttributeAsWrittenLowercaseKeepsStructSync(s: DomState, ds: DomStruct, name: string, value: string)
    requires InSync(s, Struct(ds)) && WellFormed(Struct(ds)) && LowerKeys(ds.elem) && IsLower(name)
    ensures InSync(s.SetAttribute(ds.elem.elem, name, value),
                   Struct(ds.(elem := ds.elem.(attributes := ds.elem.attributes[name := value]))))
  {
    SetAttributeKeepsStructSync(s, ds, name, value);
  }

  /**
   * `DomStruct::set_attribute`, corrected: delegated to the corrected element
   * handle, which keys the shadow by the name the element stores.
   */
  method SetAttribute(d: Document, ds: DomStruct, name: string, value: string) returns (ds': DomStruct)
    requires d.Valid() && d.state.IsElement(ds.elem.elem) && ValidAttributeName(name)
    modifies d
    ensures d.Valid() && d.next == old(d.next)
    ensures ds' == ds.(elem := ds.elem.(attributes := ds.elem.attributes[AsciiLower(name) := value]))
    ensures d.state == old(d.state).SetAttribute(ds.elem.elem, name, value)
  {
    var h := WebSupport.SetAttribute(d, ds.elem, name, value);
    ds' := ds.(elem := h);
  }

  /** `DomStruct::set_onbeforeinput`, delegated to the element. */
  method SetOnBeforeInput(d: Document, ds: DomStruct, handler: HandlerId) returns (ds': DomStruct)
    requires d.Valid() && d.state.IsElement(ds.elem.elem)
    modifies d
    ensures d.Valid() && d.next == old(d.next)
    ensures ds' == ds.(elem := ds.elem.(beforeinput := Some(handler)))
    ensures d.state == old(d.state).(onbeforeinput := old(d.state.onbeforeinput)[ds.elem.elem := Some(handler)])
  {
    var h := WebSupport.SetOnBeforeInput(d, ds.elem, handler);
    ds' := ds.(elem := h);
  }

  /**
   * A change confined to the element's own attributes and handler, after which
   * the new handle passes its audit, keeps the struct in sync with the same members.
   */
  lemma OwnerUpdateKeepsSync(s: DomState, t: DomState, ds: DomStruct, h: ElementHandle)
    requires InSync(s, Struct(ds)) && WellFormed(Struct(ds)) && h.elem == ds.elem.elem
    requires t == s.(attributes := t.attributes, onbeforeinput := t.onbeforeinput)
    requires Agree(s, t, StructureNodes(ds.contents))
    requires ElementInSync(t, h)
    ensures InSync(t, Struct(ds.(elem := h)))
  {
    var list := s.children[ds.elem.elem];
    StructureInSyncFrame(s, t, ds.contents, list, 0);
  }

  /** Setting an attribute through the struct keeps it in sync. */
  lemma SetAttributeKeepsStructSync(s: DomState, ds: DomStruct, name: string, value: string)
    requires InSync(s, Struct(ds)) && WellFormed(Struct(ds)) && LowerKeys(ds.elem)
    ensures InSync(s.SetAttribute(ds.elem.elem, name, value),
                   Struct(ds.(elem := ds.elem.(attributes := ds.elem.attributes[AsciiLower(name) := value]))))
  {
    var h := ds.elem.(attributes := ds.elem.attributes[AsciiLower(name) := value]);
    var t := s.SetAttribute(ds.elem.elem, name, value);
    assert ElementInSync(t, h) by {
      SetAttributeKeepsSync(s, ds.elem, name, value);
    }
    assert ds.elem.elem !in StructureNodes(ds.contents);
    OwnerOnlyChanged(s, t, ds.elem.elem, StructureNodes(ds.contents));
    OwnerUpdateKeepsSync(s, t, ds, h);
  }

  /** Installing a handler through the struct keeps it in sync. */
  lemma SetOnBeforeInputKeepsStructSync(s: DomState, ds: DomStruct, handler: HandlerId)
    requires InSync(s, Struct(ds)) && WellFormed(Struct(ds))
    ensures InSync(s.(onbeforeinput := s.onbeforeinput[ds.elem.elem := Some(handler)]),
                   Struct(ds.(elem := ds.elem.(beforeinput := Some(handler)))))
  {
    var h := ds.elem.(beforeinput := Some(handler));
    var t := s.(onbeforeinput := s.onbeforeinput[ds.elem.elem := Some(handler)]);
    assert ElementInSync(t, h) by {
      SetOnBeforeInputKeepsSync(s, ds.elem, handler);
    }
    assert ds.elem.elem !in StructureNodes(ds.contents);
    OwnerOnlyChanged(s, t, ds.elem.elem, StructureNodes(ds.contents));
    OwnerUpdateKeepsSync(s, t, ds, h);
  }
}
