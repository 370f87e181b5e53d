/**
 * The vec component: a variable-length vector of components whose order is
 * the order of its element's child list.
 */
module DomVecs {
  import opened Wrappers
  import opened Unicode
  import opened Dom
  import opened WebSupport
  import opened Components

  /** The roots of a vector's members, in order. */
  function VecRoots(cs: seq<Component>): (r: seq<NodeId>)
    ensures |r| == |cs| && forall i | 0 <= i < |cs| :: r[i] == Node(cs[i])
  {
    seq(|cs|, i requires 0 <= i < |cs| => Node(cs[i]))
  }

  /** A vec passes its audit exactly when its element does and its child list is its members' roots, each member passing. */
  lemma VecInSyncIff(s: DomState, v: DomVec)
    ensures InSync(s, Vec(v)) <==>
      && ElementInSync(s, v.elem) && v.elem.elem in s.children
      && s.children[v.elem.elem] == VecRoots(v.contents)
      && forall i | 0 <= i < |v.contents| :: InSync(s, v.contents[i])
  {
  }

  /** `DomVec::new`: no members, and the element as given. */
  function New(h: ElementHandle): (v: DomVec)
    ensures v.contents == [] && v.elem == h
  {
    DomVec([], h)
  }

  /** A new vec passes its audit exactly when its element does and has no children. */
  lemma NewInSync(s: DomState, h: ElementHandle)
    ensures InSync(s, Vec(New(h))) <==> ElementInSync(s, h) && h.elem in s.children && s.children[h.elem] == []
    ensures WellFormed(Vec(New(h)))
  {
  }

  /** `DomVec::push`: the component becomes the last member and its node the element's last child. */
  method Push(d: Document, v: DomVec, c: Component) returns (v': DomVec)
    requires d.Valid() && d.state.IsElement(v.elem.elem) && d.state.IsNode(Node(c)) && Node(c) != v.elem.elem
    modifies d
    ensures d.Valid() && d.next == old(d.next)
    ensures v' == v.(contents := v.contents + [c])
    ensures d.state == old(d.state).AppendChild(v.elem.elem, Node(c))
  {
    v' := v.(contents := v.contents + [c]);
    AppendNode(d, v.elem, Node(c));
  }

  /**
   * Pushing a component that passes its audit and owns none of the vec's
   * nodes keeps the vec in sync and well formed.
   */
  lemma PushKeepsSync(s: DomState, v: DomVec, c: Component)
    requires InSync(s, Vec(v)) && WellFormed(Vec(v)) && InSync(s, c) && WellFormed(c)
    requires Nodes(Vec(v)) !! Nodes(c)
    ensures InSync(s.AppendChild(v.elem.elem, Node(c)), Vec(v.(contents := v.contents + [c])))
    ensures WellFormed(Vec(v.(contents := v.contents + [c])))
  {
    var e, x := v.elem.elem, Node(c);
    var u := s.Detach({x});
    assert InSync(u, Vec(v)) && InSync(u, c) by {
      DetachOutside(s, {x}, Vec(v));
      DetachOutside(s, {x}, c);
    }
    AppendOwnedInSync(u, s.AppendChild(e, x), v, c);
    PushWellFormed(v, c);
  }

  /** Appending the root of a component in sync to the list of a vec in sync, outside its members, keeps both in sync. */
  lemma AppendOwnedInSync(u: DomState, t: DomState, v: DomVec, c: Component)
    requires InSync(u, Vec(v)) && WellFormed(Vec(v)) && InSync(u, c) && v.elem.elem !in Nodes(c)
    requires t == u.(children := u.children[v.elem.elem := u.children[v.elem.elem] + [Node(c)]], parent := t.parent)
    ensures InSync(t, Vec(v.(contents := v.contents + [c])))
  {
    var e := v.elem.elem;
    AgreeOutside(u, t, Nodes(c), e);
    InSyncFrame(u, t, c);
    forall i | 0 <= i < |v.contents| ensures InSync(t, v.contents[i]) {
      MemberNodes(v, i);
      AgreeOutside(u, t, Nodes(v.contents[i]), e);
      InSyncFrame(u, t, v.contents[i]);
    }
  }

  /** Pushing a well-formed component that owns none of the vec's nodes keeps the vec well formed. */
  lemma PushWellFormed(v: DomVec, c: Component)
    requires WellFormed(Vec(v)) && WellFormed(c) && Nodes(Vec(v)) !! Nodes(c)
    ensures WellFormed(Vec(v.(contents := v.contents + [c])))
    ensures Members(Vec(v.(contents := v.contents + [c]))) == Members(Vec(v)) + Nodes(c)
  {
    var cs := v.contents + [c];
    assert Members(Vec(v.(contents := cs))) == Members(Vec(v)) + Nodes(c) by {
      forall n | n in Members(Vec(v.(contents := cs))) ensures n in Members(Vec(v)) + Nodes(c) {
        var i :| 0 <= i < |cs| && n in Nodes(cs[i]);
        if i < |v.contents| {
          MemberNodes(v, i);
        }
      }
      forall n | n in Members(Vec(v)) ensures n in Members(Vec(v.(contents := cs))) {
        var i :| 0 <= i < |v.contents| && n in Nodes(v.contents[i]);
        assert cs[i] == v.contents[i];
      }
      assert cs[|v.contents|] == c;
    }
    forall i, j | 0 <= i < j < |cs| ensures Nodes(cs[i]) !! Nodes(cs[j]) {
      if j == |v.contents| {
        MemberNodes(v, i);
      }
    }
  }

  /**
   * `DomVec::remove(i)`: returns member `i`, and the later members move down
   * by one. The document is not touched.
   */
  function Remove(v: DomVec, i: nat): (r: (DomVec, Component))
    requires i < |v.contents|
    ensures r.1 == v.contents[i] && r.0.elem == v.elem
    ensures |r.0.contents| == |v.contents| - 1
    ensures forall j | 0 <= j < i :: r.0.contents[j] == v.contents[j]
    ensures forall j | i <= j < |r.0.contents| :: r.0.contents[j] == v.contents[j + 1]
  {
    (v.(contents := v.contents[..i] + v.contents[i + 1..]), v.contents[i])
  }

  /** Right after `remove`, before the removed member is dropped, the vec fails its audit: it has one child too many. */
  lemma RemoveBreaksSync(s: DomState, v: DomVec, i: nat)
    requires i < |v.contents| && InSync(s, Vec(v))
    ensures !InSync(s, Vec(Remove(v, i).0))
  {
  }

  /** Filtering out a set that holds exactly entry `i` of a list removes that entry. */
  lemma {:induction false} FilterAt(xs: seq<NodeId>, ns: set<NodeId>, i: nat)
    requires i < |xs| && xs[i] in ns
    requires forall j | 0 <= j < |xs| && j != i :: xs[j] !in ns
    ensures Filter(xs, ns) == xs[..i] + xs[i + 1..]
  {
    if i == 0 {
      FilterNothing(xs[1..], ns);
    } else {
      FilterAt(xs[1..], ns, i - 1);
      assert xs[..i] == [xs[0]] + xs[1..][..i - 1];
      assert xs[i + 1..] == xs[1..][i..];
    }
  }

  /** Filtering out the nodes of member `i` from the members' roots removes root `i` alone. */
  lemma FilterRoots(cs: seq<Component>, i: nat)
    requires i < |cs|
    requires forall a, b | 0 <= a < b < |cs| :: Nodes(cs[a]) !! Nodes(cs[b])
    ensures Filter(VecRoots(cs), Nodes(cs[i])) == VecRoots(cs[..i] + cs[i + 1..])
  {
    var list, ns := VecRoots(cs), Nodes(cs[i]);
    forall j | 0 <= j < |list| && j != i ensures list[j] !in ns {
      assert list[j] in Nodes(cs[j]);
      assert Nodes(cs[j]) !! ns by {
        if j < i {} else {}
      }
    }
    FilterAt(list, ns, i);
    assert list[..i] + list[i + 1..] == VecRoots(cs[..i] + cs[i + 1..]);
  }

  /** Dropping the removed member takes exactly its root out of the element's child list. */
  lemma RemoveThenDropChildren(s: DomState, v: DomVec, i: nat)
    requires i < |v.contents| && InSync(s, Vec(v)) && WellFormed(Vec(v))
    ensures s.Detach(Nodes(v.contents[i])).children[v.elem.elem] == VecRoots(Remove(v, i).0.contents)
  {
    var e := v.elem.elem;
    assert s.children[e] == VecRoots(v.contents);
    FilterRoots(v.contents, i);
    assert s.Detach(Nodes(v.contents[i])).children[e] == Filter(s.children[e], Nodes(v.contents[i]));
  }

  /** Removing a member keeps a vec well formed. */
  lemma RemoveWellFormed(v: DomVec, i: nat)
    requires i < |v.contents| && WellFormed(Vec(v))
    ensures WellFormed(Vec(Remove(v, i).0))
  {
    var v' := Remove(v, i).0;
    forall n | n in Members(Vec(v')) ensures n in Members(Vec(v)) {
      var j :| 0 <= j < |v'.contents| && n in Nodes(v'.contents[j]);
      MemberNodes(v, if j < i then j else j + 1);
    }
    forall a, b | 0 <= a < b < |v'.contents| ensures Nodes(v'.contents[a]) !! Nodes(v'.contents[b]) {
      assert v'.contents[a] == v.contents[if a < i then a else a + 1];
      assert v'.contents[b] == v.contents[if b < i then b else b + 1];
    }
  }

  /**
   * Once the removed member is dropped, which detaches all its nodes, the
   * shortened vec passes its audit again and stays well formed.
   */
  lemma RemoveThenDropKeepsSync(s: DomState, v: DomVec, i: nat)
    requires i < |v.contents| && InSync(s, Vec(v)) && WellFormed(Vec(v))
    ensures InSync(s.Detach(Nodes(v.contents[i])), Vec(Remove(v, i).0))
    ensures WellFormed(Vec(Remove(v, i).0))
  {
    var ns := Nodes(v.contents[i]);
    var v' := Remove(v, i).0;
    var t := s.Detach(ns);
    RemoveThenDropChildren(s, v, i);
    forall j | 0 <= j < |v'.contents| ensures InSync(t, v'.contents[j]) {
      var k := if j < i then j else j + 1;
      assert v'.contents[j] == v.contents[k];
      MemberNodes(v, k);
      DetachOutside(s, ns, v.contents[k]);
    }
    assert ElementInSync(t, v'.elem);
    RemoveWellFormed(v, i);
  }

  /**
   * `DomVec::set_contents(c)`: the old members are dropped, the vector
   * becomes `[c]`, and the element's children become exactly `[c's node]`.
   */
  method SetContents(d: Document, v: DomVec, c: Component) returns (v': DomVec)
    requires d.Valid() && d.state.IsElement(v.elem.elem) && Exists(d.state, c) && Node(c) != v.elem.elem
    requires forall i | 0 <= i < |v.contents| :: Exists(d.state, v.contents[i])
    modifies d
    ensures d.Valid() && d.next == old(d.next)
    ensures v' == v.(contents := [c])
    ensures d.state == old(d.state).Detach(Members(Vec(v))).ReplaceChildren(v.elem.elem, [Node(c)])
  {
    ghost var s0 := d.state;
    ExistsDetach(s0, Members(Vec(v)), c);
    DropMembers(d, v);
    v' := v.(contents := [c]);
    AttachNode(d, v.elem, Node(c));
  }

  /**
   * After `set_contents(c)`, the vec passes its audit when its element and
   * `c` did before and `c` owns none of the vec's nodes.
   */
  lemma SetContentsInSync(s: DomState, v: DomVec, c: Component)
    requires s.Valid() && v.elem.elem in s.children && ElementInSync(s, v.elem)
    requires InSync(s, c) && WellFormed(c) && Nodes(c) !! Nodes(Vec(v))
    ensures InSync(s.Detach(Members(Vec(v))).ReplaceChildren(v.elem.elem, [Node(c)]), Vec(v.(contents := [c])))
    ensures WellFormed(Vec(v.(contents := [c])))
  {
    var e, ns := v.elem.elem, Members(Vec(v));
    var u := s.Detach(ns);
    var t := u.ReplaceChildren(e, [Node(c)]);
    DetachValid(s, ns);
    DetachOutside(s, ns, c);
    assert Node(c) !in Members(c) by {
      match c
      case Text(_) =>
      case Struct(_) =>
      case Vec(_) =>
    }
    ReplaceKeepsMember(u, e, [Node(c)], c);
    assert ElementInSync(t, v.elem) by {
      assert t.attributes == s.attributes && t.onbeforeinput == s.onbeforeinput;
    }
    SingletonInSync(t, v, c);
    SingletonWellFormed(v, c);
  }

  /** A vec holding one well-formed member whose nodes exclude the vec's element is well formed. */
  lemma SingletonWellFormed(v: DomVec, c: Component)
    requires WellFormed(c) && v.elem.elem !in Nodes(c)
    ensures WellFormed(Vec(v.(contents := [c])))
  {
    assert Members(Vec(v.(contents := [c]))) == Nodes(c) by {
      assert [c][0] == c;
    }
  }

  /** A vec whose element holds exactly the node of its only member, which passes, passes its audit. */
  lemma SingletonInSync(t: DomState, v: DomVec, c: Component)
    requires ElementInSync(t, v.elem) && v.elem.elem in t.children
    requires t.children[v.elem.elem] == [Node(c)] && InSync(t, c)
    ensures InSync(t, Vec(v.(contents := [c])))
  {
  }

  /** `DomVec::get` and `get_mut`: the member at `i`, and None exactly when `i` is out of bounds. */
  function Get(v: DomVec, i: nat): (r: Option<Component>)
    ensures r.None? <==> i >= |v.contents|
    ensures r.Some? ==> r.value == v.contents[i]
  {
    if i < |v.contents| then Some(v.contents[i]) else None
  }

  /** Writing a member back through the reference `get_mut` returned. */
  function SetMember(v: DomVec, i: nat, c: Component): (v': DomVec)
    requires i < |v.contents|
    ensures v'.elem == v.elem && |v'.contents| == |v.contents| && v'.contents[i] == c
    ensures forall j | 0 <= j < |v.contents| && j != i :: v'.contents[j] == v.contents[j]
  {
    v.(contents := v.contents[i := c])
  }

  /**
   * A change through `get_mut(i)` that touches only member `i`'s nodes, keeps
   * its root and leaves it passing its audit, keeps the whole vec in sync.
   */
  lemma SetMemberKeepsSync(s: DomState, t: DomState, v: DomVec, i: nat, c: Component)
    requires i < |v.contents| && InSync(s, Vec(v)) && WellFormed(Vec(v))
    requires Agree(s, t, Nodes(Vec(v)) - Nodes(v.contents[i]))
    requires InSync(t, c) && Node(c) == Node(v.contents[i])
    ensures InSync(t, Vec(SetMember(v, i, c)))
  {
    var e := v.elem.elem;
    assert AgreeAt(s, t, e);
    forall j | 0 <= j < |v.contents| && j != i ensures InSync(t, v.contents[j]) {
      MemberNodes(v, j);
      AgreeSub(s, t, Nodes(v.contents[j]), Nodes(Vec(v)) - Nodes(v.contents[i]));
      InSyncFrame(s, t, v.contents[j]);
    }
  }

  /**
   * `DomVec::set_attribute` as written: delegated to the element handle as
   * written, so the shadow keeps the name as given.
   */
  method SetAttributeAsWritten(d: Document, v: DomVec, name: string, value: string) returns (v': DomVec)
    requires d.Valid() && d.state.IsElement(v.elem.elem) && ValidAttributeName(name)
    modifies d
    ensures d.Valid() && d.next == old(d.next)
    ensures v' == v.(elem := v.elem.(attributes := v.elem.attributes[name := value]))
    ensures d.state == old(d.state).SetAttribute(v.elem.elem, name, value)
  {
    var h := WebSupport.SetAttributeAsWritten(d, v.elem, name, value);
    v' := v.(elem := h);
  }

  /**
   * As written, a name with an ASCII capital whose lowercase form the element
   * lacks makes the vec fail its audit.
   */
  lemma SetAttributeAsWrittenBreaksVecSync(s: DomState, v: DomVec, name: string, value: string)
    requires InSync(s, Vec(v)) && !IsLower(name) && AsciiLower(name) !in v.elem.attributes
    ensures !InSync(s.SetAttribute(v.elem.elem, name, value),
                    Vec(v.(elem := v.elem.(attributes := v.elem.attributes[name := value]))))
  {
    SetAttributeAsWrittenDiverges(s, v.elem, name, value);
  }

  /** As written, a lowercase name keeps the vec in sync: it is then the corrected delegation. */
  lemma SetAttributeAsWrittenLowercaseKeepsVecSync(s: DomState, v: DomVec, name: string, value: string)
    requires InSync(s, Vec(v)) && WellFormed(Vec(v)) && LowerKeys(v.elem) && IsLower(name)
    ensures InSync(s.SetAttribute(v.elem.elem, name, value),
                   Vec(v.(elem := v.elem.(attributes := v.elem.attributes[name := value]))))
  {
    SetAttributeKeepsVecSync(s, v, name, value);
  }

  /**
   * `DomVec::set_attribute`, corrected: delegated to the corrected element
   * handle, which keys the shadow by the name the element stores.
   */
  method SetAttribute(d: Document, v: DomVec, name: string, value: string) returns (v': DomVec)
    requires d.Valid() && d.state.IsElement(v.elem.elem) && ValidAttributeName(name)
    modifies d
    ensures d.Valid() && d.next == old(d.next)
    ensures v' == v.(elem := v.elem.(attributes := v.elem.attributes[AsciiLower(name) := value]))
    ensures d.state == old(d.state).SetAttribute(v.elem.elem, name, value)
  {
    var h := WebSupport.SetAttribute(d, v.elem, name, value);
    v' := v.(elem := h);
  }

  /** `DomVec::set_onbeforeinput`, delegated to the element. */
  method SetOnBeforeInput(d: Document, v: DomVec, handler: HandlerId) returns (v': DomVec)
    requires d.Valid() && d.state.IsElement(v.elem.elem)
    modifies d
    ensures d.Valid() && d.next == old(d.next)
    ensures v' == v.(elem := v.elem.(beforeinput := Some(handler)))
    ensures d.state == old(d.state).(onbeforeinput := old(d.state.onbeforeinput)[v.elem.elem := Some(handler)])
  {
    var h := WebSupport.SetOnBeforeInput(d, v.elem, handler);
    v' := v.(elem := h);
  }

  /**
   * A change confined to the element's own attributes and handler, after which
   * the new handle passes its audit, keeps the vec in sync with the same members.
   */
  lemma OwnerUpdateKeepsSync(s: DomState, t: DomState, v: DomVec, h: ElementHandle)
    requires InSync(s, Vec(v)) && WellFormed(Vec(v)) && h.elem == v.elem.elem
    requires t == s.(attributes := t.attributes, onbeforeinput := t.onbeforeinput)
    requires Agree(s, t, Members(Vec(v)))
    requires ElementInSync(t, h)
    ensures InSync(t, Vec(v.(elem := h)))
  {
    forall i | 0 <= i < |v.contents| ensures InSync(t, v.contents[i]) {
      MemberNodes(v, i);
      AgreeSub(s, t, Nodes(v.contents[i]), Members(Vec(v)));
      InSyncFrame(s, t, v.contents[i]);
    }
  }

  /** Setting an attribute through the vec keeps it in sync. */
  lemma SetAttributeKeepsVecSync(s: DomState, v: DomVec, name: string, value: string)
    requires InSync(s, Vec(v)) && WellFormed(Vec(v)) && LowerKeys(v.elem)
    ensures InSync(s.SetAttribute(v.elem.elem, name, value),
                   Vec(v.(elem := v.elem.(attributes := v.elem.attributes[AsciiLower(name) := value]))))
  {
    var h := v.elem.(attributes := v.elem.attributes[AsciiLower(name) := value]);
    var t := s.SetAttribute(v.elem.elem, name, value);
    assert ElementInSync(t, h) by {
      SetAttributeKeepsSync(s, v.elem, name, value);
    }
    assert v.elem.elem !in Members(Vec(v));
    OwnerOnlyChanged(s, t, v.elem.elem, Members(Vec(v)));
    OwnerUpdateKeepsSync(s, t, v, h);
  }

  /** Installing a handler through the vec keeps it in sync. */
  lemma SetOnBeforeInputKeepsVecSync(s: DomState, v: DomVec, handler: HandlerId)
    requires InSync(s, Vec(v)) && WellFormed(Vec(v))
    ensures InSync(s.(onbeforeinput := s.onbeforeinput[v.elem.elem := Some(handler)]),
                   Vec(v.(elem := v.elem.(beforeinput := Some(handler)))))
  {
    var h := v.elem.(beforeinput := Some(handler));
    var t := s.(onbeforeinput := s.onbeforeinput[v.elem.elem := Some(handler)]);
    assert ElementInSync(t, h) by {
      SetOnBeforeInputKeepsSync(s, v.elem, handler);
    }
    assert v.elem.elem !in Members(Vec(v));
    OwnerOnlyChanged(s, t, v.elem.elem, Members(Vec(v)));
    OwnerUpdateKeepsSync(s, t, v, h);
  }
}
