/**
 * The handles through which components reach the host document. A handle
 * owns one node; it is the only code that mutates that node, and it keeps a
 * shadow copy of what it wrote (an element's attributes and `onbeforeinput`
 * handler) so that `audit` can compare the shadow with the document.
 *
 * Handles are values: a Rust handle is uniquely owned, so updating it through
 * `&mut self` is the same as replacing it with a new value. Each operation
 * that writes the document is a method on the `Dom.Document` it writes.
 */
module WebSupport {
  import opened Wrappers
  import opened Unicode
  import opened Dom

  /** A text node owned by one handle (`TextHandle`, an `AutoRemove<Text>`). */
  datatype TextHandle = TextHandle(node: NodeId)

  /**
   * An element owned by one handle, with the attributes the handle has set
   * and the identity of the `beforeinput` closure it holds, if any.
   */
  datatype ElementHandle = ElementHandle(
    elem: NodeId,
    attributes: map<string, string>,
    beforeinput: Option<HandlerId>)

  /**
   * Dropping an `AutoRemove` wrapper: when the node has a parent, the parent
   * removes it; otherwise nothing happens.
   */
  method Drop(d: Document, n: NodeId)
    requires d.Valid() && d.state.IsNode(n)
    modifies d
    ensures d.Valid() && d.next == old(d.next)
    ensures d.state == old(d.state).Detach({n})
  {
    if n in d.state.parent {
      d.RemoveChild(d.state.parent[n], n);
    } else {
      DetachParentless(d.state, n);
    }
  }

  /** Dropping a node leaves it without a parent and in no child list, and keeps the tree consistent. */
  lemma DropDetaches(s: DomState, n: NodeId)
    requires s.Valid()
    ensures s.Detach({n}).Valid()
    ensures n !in s.Detach({n}).parent
    ensures forall p | p in s.children :: n !in s.Detach({n}).children[p]
    ensures n !in s.parent ==> s.Detach({n}) == s
  {
    DetachValid(s, {n});
    if n !in s.parent {
      DetachParentless(s, n);
    }
  }

  /** Dropping a node takes exactly its own entry out of its parent's list, and every other list is as it was. */
  lemma DropRemovesOwnEntry(s: DomState, n: NodeId)
    requires ChildrenPointBack(s.children, s.parent) && ParentsListed(s.parent, s.children, s.data)
    requires ListsDistinct(s.children)
    ensures n in s.parent ==>
      var l := s.children[s.parent[n]];
      s.Detach({n}).children[s.parent[n]] == l[..IndexOf(l, n)] + l[IndexOf(l, n) + 1..]
    ensures forall p | p in s.children && (n !in s.parent || p != s.parent[n]) ::
      s.Detach({n}).children[p] == s.children[p]
  {
    if n in s.parent {
      var p := s.parent[n];
      assert p in s.children && n in s.children[p];
      var l := s.children[p];
      assert NoDup(l);
      FilterOne(l, IndexOf(l, n));
      assert s.Detach({n}).children[p] == Filter(l, {n});
    }
    forall p | p in s.children && (n !in s.parent || p != s.parent[n])
      ensures s.Detach({n}).children[p] == s.children[p]
    {
      assert n !in s.children[p];
      FilterNothing(s.children[p], {n});
    }
  }

  // ---------------------------------------------------------------- text handles

  /** `TextHandle::default`: a new, empty, parentless text node. */
  method NewTextHandle(d: Document) returns (h: TextHandle)
    requires d.Valid()
    modifies d
    ensures d.Valid() && d.next == old(d.next) + 1
    ensures !old(d.state).IsNode(h.node)
    ensures d.state == old(d.state).AddText(h.node)
  {
    var t := d.CreateText();
    h := TextHandle(t);
  }

  /** `TextHandle::set_data`. */
  method SetData(d: Document, h: TextHandle, s: seq<CodePoint>)
    requires d.Valid() && d.state.IsText(h.node)
    modifies d
    ensures d.Valid() && d.next == old(d.next)
    ensures d.state == old(d.state).(data := old(d.state.data)[h.node := s])
  {
    d.SetData(h.node, s);
  }

  /** `TextHandle::append_data`. */
  method AppendData(d: Document, h: TextHandle, s: seq<CodePoint>)
    requires d.Valid() && d.state.IsText(h.node)
    modifies d
    ensures d.Valid() && d.next == old(d.next)
    ensures d.state == old(d.state).(data := old(d.state.data)[h.node := old(d.state.data)[h.node] + s])
  {
    d.AppendData(h.node, s);
  }

  /**
   * `TextHandle::insert_data`, which unwraps the result: an offset the
   * document rejects is a panic, so the offset must fall on a code point.
   */
  method InsertData(d: Document, h: TextHandle, offset: nat, s: seq<CodePoint>)
    requires d.Valid() && d.state.IsText(h.node)
    requires Utf16ToCharIdx(d.state.data[h.node], offset).Some?
    modifies d
    ensures d.Valid() && d.next == old(d.next)
    ensures d.state == old(d.state).(data := old(d.state.data)[h.node :=
      InsertAt(old(d.state.data)[h.node], Utf16ToCharIdx(old(d.state.data)[h.node], offset).value, s)])
  {
    var ok := d.InsertData(h.node, offset, s);
  }

  // ------------------------------------------------------------- element handles

  /**
   * The shadow attributes as `ElementHandle::audit` compares them with the
   * element's: each shadow key, looked up with `getAttribute` (which
   * lowercases it), has the shadow value, and each attribute name the element
   * reports is a shadow key.
   */
  predicate AttributesInSync(dom: map<string, string>, shadow: map<string, string>) {
    && (forall k | k in shadow :: AsciiLower(k) in dom && dom[AsciiLower(k)] == shadow[k])
    && (forall k | k in dom :: k in shadow)
  }

  /** `ElementHandle::audit` passes: the attributes agree, and the handler slots are both empty or hold the same closure. */
  predicate ElementInSync(s: DomState, h: ElementHandle) {
    && h.elem in s.attributes && h.elem in s.onbeforeinput
    && AttributesInSync(s.attributes[h.elem], h.attributes)
    && s.onbeforeinput[h.elem] == h.beforeinput
  }

  /** Every shadow key is already lowercase, as the corrected `SetAttribute` keeps it. */
  predicate LowerKeys(h: ElementHandle) {
    forall k | k in h.attributes :: IsLower(k)
  }

  /** With lowercase shadow keys, the attribute audit passes exactly when the two maps are equal. */
  lemma AttributesInSyncIffEqual(dom: map<string, string>, shadow: map<string, string>)
    requires forall k | k in shadow :: IsLower(k)
    ensures AttributesInSync(dom, shadow) <==> dom == shadow
  {
    if AttributesInSync(dom, shadow) {
      forall k | k in shadow ensures k in dom && dom[k] == shadow[k] {
        assert AsciiLower(k) == k;
      }
      assert dom.Keys == shadow.Keys;
    }
  }

  /** `ElementFactory::create_element` and `ElementHandle::new`: a fresh element and an empty shadow. */
  method NewElementHandle(d: Document) returns (h: ElementHandle)
    requires d.Valid()
    modifies d
    ensures d.Valid() && d.next == old(d.next) + 1
    ensures h.attributes == map[] && h.beforeinput == None
    ensures !old(d.state).IsNode(h.elem)
    ensures d.state == old(d.state).AddElement(h.elem)
    ensures ElementInSync(d.state, h) && LowerKeys(h)
  {
    var e := d.CreateElement();
    h := ElementHandle(e, map[], None);
  }

  /** `ElementHandle::append_node`. */
  method AppendNode(d: Document, h: ElementHandle, child: NodeId)
    requires d.Valid() && d.state.IsElement(h.elem) && d.state.IsNode(child) && child != h.elem
    modifies d
    ensures d.Valid() && d.next == old(d.next)
    ensures d.state == old(d.state).AppendChild(h.elem, child)
  {
    d.AppendChild(h.elem, child);
  }

  /** After `appendChild`, the node is the last entry of the list, and every other list only lost it. */
  lemma AppendChildPlacesLast(s: DomState, p: NodeId, x: NodeId)
    requires s.Valid() && p in s.children && s.IsNode(x)
    ensures var r := s.AppendChild(p, x);
      && r.children[p] == Filter(s.children[p], {x}) + [x]
      && r.parent[x] == p
      && (forall q | q in s.children && q != p :: r.children[q] == Filter(s.children[q], {x}))
    ensures x !in s.children[p] ==> s.AppendChild(p, x).children[p] == s.children[p] + [x]
  {
    if x !in s.children[p] {
      FilterNothing(s.children[p], {x});
    }
  }

  /**
   * `ElementHandle::insert_node(i, child)`: the reference is `item(i)` of the
   * child list, read before the insertion, and null past the end.
   */
  method InsertNode(d: Document, h: ElementHandle, i: nat, child: NodeId)
    requires d.Valid() && d.state.IsElement(h.elem) && d.state.IsNode(child) && child != h.elem
    modifies d
    ensures d.Valid() && d.next == old(d.next)
    ensures d.state == old(d.state).InsertBefore(h.elem, child, old(d.state).Item(h.elem, i))
  {
    var r := d.state.Item(h.elem, i);
    d.InsertBefore(h.elem, child, r);
  }

  /**
   * `insert_node(i, c)` places a node that is not yet a child of the element
   * at position `i`, and appends it when `i` is at or past the end.
   */
  lemma InsertNodePosition(s: DomState, p: NodeId, i: nat, x: NodeId)
    requires s.Valid() && p in s.children && s.IsNode(x) && x !in s.children[p]
    ensures i < |s.children[p]| ==> s.InsertBefore(p, x, s.Item(p, i)).children[p] == InsertAt(s.children[p], i, [x])
    ensures i >= |s.children[p]| ==> s.InsertBefore(p, x, s.Item(p, i)) == s.AppendChild(p, x)
    ensures s.InsertBefore(p, x, s.Item(p, i)).parent[x] == p
  {
    var list := s.children[p];
    FilterNothing(list, {x});
    assert s.Detach({x}).children[p] == list;
    if i < |list| {
      assert NoDup(list);
      var k := IndexOf(list, list[i]);
      assert k == i;
    }
  }

  /** `ElementHandle::attach_node`: the element's children become exactly `[child]`. */
  method AttachNode(d: Document, h: ElementHandle, child: NodeId)
    requires d.Valid() && d.state.IsElement(h.elem) && d.state.IsNode(child) && child != h.elem
    modifies d
    ensures d.Valid() && d.next == old(d.next)
    ensures d.state == old(d.state).ReplaceChildren(h.elem, [child])
  {
    d.ReplaceChildren(h.elem, [child]);
  }

  /** After `replaceChildren(xs)` the list is `xs`, the new children point at the element, and the old ones that were not reused are parentless. */
  lemma ReplaceChildrenFacts(s: DomState, p: NodeId, xs: seq<NodeId>)
    requires s.Valid() && p in s.children
    ensures var r := s.ReplaceChildren(p, xs);
      && r.children[p] == xs
      && (forall x | x in xs :: r.parent[x] == p)
      && (forall x | x in s.children[p] && x !in xs :: x !in r.parent)
  {
  }

  // ----------------------------------------------------------------- array handle

  /** `ArrayHandle::new_with_length`: a JavaScript array of `len` empty slots; the length must fit in u32. */
  method NewArrayHandle(len: nat) returns (a: array<Option<NodeId>>)
    requires len < U32_LIMIT
    ensures fresh(a) && a.Length == len
    ensures forall i | 0 <= i < len :: a[i] == None
  {
    a := new Option<NodeId>[len](_ => None);
  }

  /** `ArrayHandle::set`: writes slot `index` and no other. */
  method SetSlot(a: array<Option<NodeId>>, index: nat, n: NodeId)
    requires index < a.Length && index < U32_LIMIT
    modifies a
    ensures a[..] == old(a[..])[index := Some(n)]
  {
    a[index] := Some(n);
  }

  /** The nodes of a completely filled array, in order. */
  function Filled(slots: seq<Option<NodeId>>): (r: seq<NodeId>)
    requires forall i | 0 <= i < |slots| :: slots[i].Some?
    ensures |r| == |slots|
    ensures forall i | 0 <= i < |slots| :: slots[i] == Some(r[i])
  {
    if slots == [] then [] else [slots[0].value] + Filled(slots[1..])
  }

  /** `ElementHandle::attach_nodes`: the element's children become exactly the array's nodes, in order. */
  method AttachNodes(d: Document, h: ElementHandle, a: array<Option<NodeId>>)
    requires d.Valid() && d.state.IsElement(h.elem)
    requires forall i | 0 <= i < a.Length :: a[i].Some?
    requires NoDup(Filled(a[..])) && h.elem !in Filled(a[..])
    requires forall x | x in Filled(a[..]) :: d.state.IsNode(x)
    modifies d
    ensures d.Valid() && d.next == old(d.next)
    ensures d.state == old(d.state).ReplaceChildren(h.elem, Filled(a[..]))
  {
    d.ReplaceChildren(h.elem, Filled(a[..]));
  }

  // ------------------------------------------------------- attributes and handlers

  /**
   * `ElementHandle::set_attribute` as written: the shadow records the name as
   * given, while the element stores it lowercased. The element refusing the
   * name is a panic (`unwrap`), so the name must be valid.
   */
  method SetAttributeAsWritten(d: Document, h: ElementHandle, name: string, value: string)
    returns (h': ElementHandle)
    requires d.Valid() && d.state.IsElement(h.elem) && ValidAttributeName(name)
    modifies d
    ensures d.Valid() && d.next == old(d.next)
    ensures h' == h.(attributes := h.attributes[name := value])
    ensures d.state == old(d.state).SetAttribute(h.elem, name, value)
  {
    h' := h.(attributes := h.attributes[name := value]);
    var ok := d.SetAttribute(h.elem, name, value);
  }

  /**
   * With a name that is not lowercase and whose lowercase form the shadow
   * lacks, the written shadow no longer passes the audit: the element reports
   * the lowercase name, which is not a shadow key.
   */
  lemma SetAttributeAsWrittenDiverges(s: DomState, h: ElementHandle, name: string, value: string)
    requires ElementInSync(s, h) && !IsLower(name) && AsciiLower(name) !in h.attributes
    ensures !ElementInSync(s.SetAttribute(h.elem, name, value), h.(attributes := h.attributes[name := value]))
  {
    var r := s.SetAttribute(h.elem, name, value);
    assert AsciiLower(name) in r.attributes[h.elem];
    assert AsciiLower(name) != name;
  }

  /** A concrete case: `set_attribute("Class", "x")` on a fresh element. */
  lemma SetAttributeAsWrittenExample(s: DomState, e: NodeId)
    requires e in s.attributes && e in s.onbeforeinput
    requires s.attributes[e] == map[] && s.onbeforeinput[e] == None
    ensures ElementInSync(s, ElementHandle(e, map[], None))
    ensures !ElementInSync(s.SetAttribute(e, "Class", "x"), ElementHandle(e, map["Class" := "x"], None))
  {
    assert AsciiLower("Class") == "class";
    SetAttributeAsWrittenDiverges(s, ElementHandle(e, map[], None), "Class", "x");
  }

  /** `set_attribute` with the shadow keyed by the name the element stores. */
  method SetAttribute(d: Document, h: ElementHandle, name: string, value: string)
    returns (h': ElementHandle)
    requires d.Valid() && d.state.IsElement(h.elem) && ValidAttributeName(name)
    modifies d
    ensures d.Valid() && d.next == old(d.next)
    ensures h' == h.(attributes := h.attributes[AsciiLower(name) := value])
    ensures d.state == old(d.state).SetAttribute(h.elem, name, value)
  {
    h' := h.(attributes := h.attributes[AsciiLower(name) := value]);
    var ok := d.SetAttribute(h.elem, name, value);
  }

  /**
   * Setting an attribute keeps the handle in sync; afterwards both the shadow
   * and the element map the name to the value, and other names are unchanged.
   */
  lemma SetAttributeKeepsSync(s: DomState, h: ElementHandle, name: string, value: string)
    requires ElementInSync(s, h) && LowerKeys(h)
    ensures ElementInSync(s.SetAttribute(h.elem, name, value), h.(attributes := h.attributes[AsciiLower(name) := value]))
    ensures LowerKeys(h.(attributes := h.attributes[AsciiLower(name) := value]))
    ensures s.SetAttribute(h.elem, name, value).GetAttribute(h.elem, name) == Some(value)
    ensures forall k | AsciiLower(k) != AsciiLower(name) ::
      s.SetAttribute(h.elem, name, value).GetAttribute(h.elem, k) == s.GetAttribute(h.elem, k)
  {
    var h' := h.(attributes := h.attributes[AsciiLower(name) := value]);
    var r := s.SetAttribute(h.elem, name, value);
    AsciiLowerIsLower(name);
    forall k | k in h'.attributes
      ensures AsciiLower(k) in r.attributes[h.elem] && r.attributes[h.elem][AsciiLower(k)] == h'.attributes[k]
    {
      if k != AsciiLower(name) {
        assert IsLower(k);
      }
    }
  }

  /** With a lowercase name the written shadow is the corrected one, so it stays in sync. */
  lemma SetAttributeAsWrittenLowercase(s: DomState, h: ElementHandle, name: string, value: string)
    requires ElementInSync(s, h) && LowerKeys(h) && IsLower(name)
    ensures ElementInSync(s.SetAttribute(h.elem, name, value), h.(attributes := h.attributes[name := value]))
  {
    SetAttributeKeepsSync(s, h, name, value);
  }

  /**
   * `ElementHandle::set_onbeforeinput`: the handle keeps the new closure,
   * whose identity is `handler`, and installs that same closure on the element.
   */
  method SetOnBeforeInput(d: Document, h: ElementHandle, handler: HandlerId) returns (h': ElementHandle)
    requires d.Valid() && d.state.IsElement(h.elem)
    modifies d
    ensures d.Valid() && d.next == old(d.next)
    ensures h' == h.(beforeinput := Some(handler))
    ensures d.state == old(d.state).(onbeforeinput := old(d.state.onbeforeinput)[h.elem := Some(handler)])
  {
    h' := h.(beforeinput := Some(handler));
    d.SetOnBeforeInput(h.elem, Some(handler));
  }

  /** Installing a handler keeps an in-sync handle in sync, with the handler present on both sides. */
  lemma SetOnBeforeInputKeepsSync(s: DomState, h: ElementHandle, handler: HandlerId)
    requires ElementInSync(s, h)
    ensures var r := s.(onbeforeinput := s.onbeforeinput[h.elem := Some(handler)]);
      ElementInSync(r, h.(beforeinput := Some(handler))) && r.onbeforeinput[h.elem] == Some(handler)
  {
  }

  // ------------------------------------------------------------------------ audits

  /** The `beforeinput` half of `ElementHandle::audit`, case by case. */
  method AuditHandler(d: Document, h: ElementHandle) returns (ok: bool)
    requires h.elem in d.state.onbeforeinput
    ensures ok <==> d.state.onbeforeinput[h.elem] == h.beforeinput
  {
    match (h.beforeinput, d.state.onbeforeinput[h.elem])
    case (Some(expected), Some(actual)) => ok := actual == expected;
    case (Some(_), None) => ok := false;
    case (None, Some(_)) => ok := false;
    case (None, None) => ok := true;
  }

  /**
   * `ElementHandle::audit`: every shadow attribute is read back with
   * `getAttribute`, every attribute name of the element is looked up in the
   * shadow, and the handler slots are compared. A failed assertion is a
   * `false` result.
   */
  method AuditElement(d: Document, h: ElementHandle) returns (ok: bool)
    requires d.state.IsElement(h.elem)
    ensures ok == ElementInSync(d.state, h)
  {
    var e := h.elem;
    var shadowKeys := h.attributes.Keys;
    while shadowKeys != {}
      invariant shadowKeys <= h.attributes.Keys
      invariant forall k | k in h.attributes && k !in shadowKeys ::
        d.state.GetAttribute(e, k) == Some(h.attributes[k])
      decreases shadowKeys
    {
      var k :| k in shadowKeys;
      if d.state.GetAttribute(e, k) != Some(h.attributes[k]) {
        return false;
      }
      shadowKeys := shadowKeys - {k};
    }
    var domKeys := d.state.attributes[e].Keys;
    while domKeys != {}
      invariant domKeys <= d.state.attributes[e].Keys
      invariant forall k | k in d.state.attributes[e] && k !in domKeys :: k in h.attributes
      decreases domKeys
    {
      var k :| k in domKeys;
      if k !in h.attributes {
        return false;
      }
      domKeys := domKeys - {k};
    }
    ok := AuditHandler(d, h);
  }

  /** `NodeListHandle::audit_node(i, n)`: the list has an item at `i` and it is `n`. */
  function AuditNode(s: DomState, p: NodeId, i: nat, n: NodeId): (ok: bool)
    requires p in s.children
    ensures ok <==> i < |s.children[p]| && s.children[p][i] == n
  {
    s.Item(p, i) == Some(n)
  }
}
