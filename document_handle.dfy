/**
 * The document handle: the owner of the shadow tree's root, the body
 * component, kept in step with the document's `body`.
 */
module Documents {
  import opened Wrappers
  import opened Dom
  import opened Components

  /** A body component owns an element: it is a struct or a vec. */
  predicate IsElementComponent(c: Component) {
    c.Struct? || c.Vec?
  }

  /**
   * What the document audit checks: the document has a body exactly when the
   * handle has one, it is the component's root, and the component passes.
   */
  predicate DocumentInSync(s: DomState, body: Option<Component>) {
    match body
    case None => s.body.None?
    case Some(b) => s.body == Some(Node(b)) && InSync(s, b)
  }

  class DocumentHandle {
    const document: Document
    var body: Option<Component>

    /** The document is valid and the body component, if any, exists in it. */
    predicate Valid()
      reads this, document
    {
      && document.Valid()
      && (body.Some? ==> IsElementComponent(body.value) && Exists(document.state, body.value))
    }

    /** `DocumentHandle::default`: no body component yet. */
    constructor (d: Document)
      requires d.Valid()
      ensures document == d && body == None && Valid()
    {
      document := d;
      body := None;
    }

    /**
     * `DocumentHandle::set_body`: the old body component is dropped, which
     * detaches its nodes, then the new one is stored and its element becomes
     * the document's body.
     */
    method SetBody(b: Component)
      requires Valid() && IsElementComponent(b) && Exists(document.state, b)
      modifies this, document
      ensures Valid() && body == Some(b) && document.next == old(document.next)
      ensures document.state ==
        (if old(body).Some? then old(document.state).Detach(Nodes(old(body).value)) else old(document.state))
          .(body := Some(Node(b)))
    {
      if body.Some? {
        ExistsDetach(document.state, Nodes(body.value), b);
        DropComponent(document, body.value);
      }
      ghost var s1 := document.state;
      document.SetBody(Node(b));
      ExistsSetBody(s1, Node(b), b);
      body := Some(b);
    }

    /**
     * Assigning a whole new component through `body_mut()`
     * (`*h.body_mut().unwrap() = b`): the old body component is dropped, which
     * detaches its nodes, and `b` is stored. `set_body` is bypassed. The model
     * keeps the document's `body` pointer at the old element; in the browser the
     * old element has left `<html>`, so the document has no body at all.
     */
    method AssignThroughBodyMut(b: Component)
      requires Valid() && body.Some? && IsElementComponent(b) && Exists(document.state, b)
      modifies this, document
      ensures Valid() && body == Some(b) && document.next == old(document.next)
      ensures document.state == old(document.state).Detach(Nodes(old(body).value))
    {
      ExistsDetach(document.state, Nodes(body.value), b);
      DropComponent(document, body.value);
      body := Some(b);
    }

    /** `DocumentHandle::audit`: the body pointers agree and the body component passes its audit. */
    method Audit() returns (ok: bool)
      requires Valid()
      ensures ok == DocumentInSync(document.state, body)
    {
      match (body, document.state.body)
      case (Some(b), Some(db)) =>
        if db != Node(b) {
          return false;
        }
        ok := Components.Audit(document, b);
      case (Some(_), None) =>
        ok := false;
      case (None, Some(_)) =>
        ok := false;
      case (None, None) =>
        ok := true;
    }
  }

  /** Assigning the document's body leaves every component that existed in place. */
  lemma ExistsSetBody(s: DomState, n: NodeId, c: Component)
    requires Exists(s, c)
    ensures Exists(s.(body := Some(n)), c)
  {
    InSyncFrame(s, s.(body := Some(n)), c);
  }

  /**
   * After `set_body(b)`, the document passes its audit when `b` passed its
   * own and owns none of the old body's nodes.
   */
  lemma SetBodyInSync(s: DomState, old_body: Option<Component>, b: Component)
    requires InSync(s, b)
    requires old_body.Some? ==> Nodes(old_body.value) !! Nodes(b)
    ensures DocumentInSync((if old_body.Some? then s.Detach(Nodes(old_body.value)) else s).(body := Some(Node(b))), Some(b))
  {
    var u := if old_body.Some? then s.Detach(Nodes(old_body.value)) else s;
    if old_body.Some? {
      DetachOutside(s, Nodes(old_body.value), b);
    }
    InSyncFrame(u, u.(body := Some(Node(b))), b);
  }

  /**
   * A change made through `body_mut()` that leaves the body's nodes and the
   * document's `body` alone keeps the document audit passing.
   */
  lemma BodyMutFrame(s: DomState, t: DomState, b: Component)
    requires DocumentInSync(s, Some(b)) && t.body == s.body && Agree(s, t, Nodes(b))
    ensures DocumentInSync(t, Some(b))
  {
    InSyncFrame(s, t, b);
  }

  /**
   * A change made through `body_mut()` that keeps the body component's root
   * and leaves the component in sync keeps the document audit passing.
   */
  lemma BodyMutKeepsSync(s: DomState, t: DomState, b: Component, b': Component)
    requires DocumentInSync(s, Some(b)) && t.body == s.body
    requires Node(b') == Node(b) && InSync(t, b')
    ensures DocumentInSync(t, Some(b'))
  {
  }

  /**
   * Assigning a component with another root through `body_mut()` makes the
   * document fail its audit: the model's DOM body still points at the old
   * element (in the browser it is null); either way it is not the new root.
   */
  lemma AssignThroughBodyMutBreaksSync(s: DomState, b: Component, b': Component)
    requires DocumentInSync(s, Some(b)) && Node(b') != Node(b)
    ensures !DocumentInSync(s.Detach(Nodes(b)), Some(b'))
  {
  }
}
