/**
 * The abstract host document that the wrappers mirror: node ids, a parent
 * pointer per node, an ordered child list, an attribute map and one
 * `onbeforeinput` handler slot per element, the data of each text node, and the
 * document's body. The operations follow the WHATWG DOM Living Standard:
 * "remove" (section 4.2.3), `appendChild`/`insertBefore` (section 4.2.3, pre-insert,
 * with a null reference child appending), `replaceChildren` (section 4.2.6, a
 * whole-list replacement), `setAttribute`/`getAttribute` with the ASCII
 * lowercasing of names on HTML elements (section 4.9), and the CharacterData
 * methods (section 4.10), whose offsets count UTF-16 code units.
 */
module Dom {
  import opened Wrappers
  import opened Unicode

  type NodeId = nat

  /** Identity of a registered JavaScript event-handler closure. */
  type HandlerId = nat

  /** The elements of `xs` that are not in `ns`, in their original order. */
  function Filter(xs: seq<NodeId>, ns: set<NodeId>): (r: seq<NodeId>)
    ensures |r| <= |xs|
  {
    if xs == [] then [] else (if xs[0] in ns then [] else [xs[0]]) + Filter(xs[1..], ns)
  }

  /** A filtered list holds exactly the nodes of the list that are not filtered out. */
  lemma {:induction false} FilterMembers(xs: seq<NodeId>, ns: set<NodeId>)
    ensures forall x :: x in Filter(xs, ns) <==> x in xs && x !in ns
  {
    if xs != [] {
      FilterMembers(xs[1..], ns);
      assert xs == [xs[0]] + xs[1..];
    }
  }

  /** No node occurs twice in `xs`. */
  predicate NoDup(xs: seq<NodeId>) {
    forall i, j | 0 <= i < j < |xs| :: xs[i] != xs[j]
  }

  /** The position of `x` in `xs`. */
  function IndexOf(xs: seq<NodeId>, x: NodeId): (i: nat)
    requires x in xs
    ensures i < |xs| && xs[i] == x
  {
    if xs[0] == x then 0 else 1 + IndexOf(xs[1..], x)
  }

  /** The set of nodes of `xs`. */
  function Elements(xs: seq<NodeId>): (r: set<NodeId>)
    ensures forall x :: x in r <==> x in xs
  {
    set x | x in xs
  }

  lemma NoDupCons(x: NodeId, xs: seq<NodeId>)
    ensures NoDup([x] + xs) <==> x !in xs && NoDup(xs)
  {
    var l := [x] + xs;
    if x in xs {
      var k := IndexOf(xs, x);
      assert l[0] == l[k + 1];
    } else {
      if NoDup(xs) {
        forall i, j | 0 <= i < j < |l| ensures l[i] != l[j] {
          if i > 0 {
            assert l[i] == xs[i - 1];
          }
        }
      }
      if NoDup(l) {
        forall i, j | 0 <= i < j < |xs| ensures xs[i] != xs[j] {
          assert xs[i] == l[i + 1] && xs[j] == l[j + 1];
        }
      }
    }
  }

  /** Filtering keeps a list free of repetitions. */
  lemma {:induction false} FilterNoDup(xs: seq<NodeId>, ns: set<NodeId>)
    requires NoDup(xs)
    ensures NoDup(Filter(xs, ns))
  {
    if xs != [] {
      assert xs == [xs[0]] + xs[1..];
      NoDupCons(xs[0], xs[1..]);
      FilterNoDup(xs[1..], ns);
      FilterMembers(xs[1..], ns);
      if xs[0] !in ns {
        NoDupCons(xs[0], Filter(xs[1..], ns));
      }
    }
  }

  /** Filtering out nodes a list does not hold leaves it unchanged. */
  lemma {:induction false} FilterNothing(xs: seq<NodeId>, ns: set<NodeId>)
    requires forall x | x in xs :: x !in ns
    ensures Filter(xs, ns) == xs
  {
    if xs != [] {
      FilterNothing(xs[1..], ns);
      assert xs == [xs[0]] + xs[1..];
    }
  }

  /** Filtering out every node of a list leaves nothing. */
  lemma {:induction false} FilterAll(xs: seq<NodeId>, ns: set<NodeId>)
    requires forall x | x in xs :: x in ns
    ensures Filter(xs, ns) == []
  {
    if xs != [] {
      assert xs[0] in xs;
      FilterAll(xs[1..], ns);
    }
  }

  /** Filtering twice is filtering once by the union. */
  lemma {:induction false} FilterFilter(xs: seq<NodeId>, a: set<NodeId>, b: set<NodeId>)
    ensures Filter(Filter(xs, a), b) == Filter(xs, a + b)
  {
    if xs != [] {
      FilterFilter(xs[1..], a, b);
      var f := Filter(xs[1..], a);
      if xs[0] in a {
        assert Filter(xs, a) == f;
      } else {
        assert Filter(xs, a) == [xs[0]] + f;
        assert ([xs[0]] + f)[1..] == f;
      }
    }
  }

  /** Filtering a list without repetitions by one of its members removes exactly that position. */
  lemma {:induction false} FilterOne(xs: seq<NodeId>, i: nat)
    requires NoDup(xs) && i < |xs|
    ensures Filter(xs, {xs[i]}) == xs[..i] + xs[i + 1..]
  {
    assert xs == [xs[0]] + xs[1..];
    NoDupCons(xs[0], xs[1..]);
    if i == 0 {
      FilterNothing(xs[1..], {xs[0]});
    } else {
      FilterOne(xs[1..], i - 1);
      assert xs[1..][i - 1] == xs[i];
      assert xs[0] != xs[i];
      assert xs[..i] == [xs[0]] + xs[1..][..i - 1];
      assert xs[i + 1..] == xs[1..][i..];
    }
  }

  /** ASCII lowercase of one char. */
  function LowerChar(c: char): char {
    if 'A' <= c <= 'Z' then (c as int + 32) as char else c
  }

  /** The ASCII lowercase of a name, as `setAttribute` and `getAttribute` apply to it on an HTML element. */
  function AsciiLower(name: string): (r: string)
    ensures |r| == |name|
    ensures forall i | 0 <= i < |name| :: r[i] == LowerChar(name[i])
  {
    seq(|name|, i requires 0 <= i < |name| => LowerChar(name[i]))
  }

  /**
   * A valid attribute local name, the check `setAttribute` makes first (WHATWG
   * DOM Living Standard, section 4.9): at least one char, and no ASCII
   * whitespace, NULL, `/`, `=` or `>`.
   */
  predicate ValidAttributeName(name: string) {
    && |name| >= 1
    && forall i | 0 <= i < |name| ::
         name[i] as int !in {0x09, 0x0A, 0x0C, 0x0D, 0x20, 0x00, 0x2F, 0x3D, 0x3E}
  }

  /** The empty name and a name with a space or `=` are refused; `class` and `data-x` are accepted. */
  lemma ValidAttributeNameExamples()
    ensures !ValidAttributeName("") && !ValidAttributeName("a b") && !ValidAttributeName("a=b")
    ensures ValidAttributeName("class") && ValidAttributeName("data-x")
  {
    assert "a b"[1] == ' ';
    assert "a=b"[1] == '=';
  }

  /** A name that lowercasing leaves unchanged. */
  predicate IsLower(name: string) {
    AsciiLower(name) == name
  }

  lemma AsciiLowerIsLower(name: string)
    ensures IsLower(AsciiLower(name))
  {
  }

  /** Elements are the keys of the three element maps; text nodes are the keys of `data`. */
  predicate KindsDisjoint(children: map<NodeId, seq<NodeId>>, attributes: map<NodeId, map<string, string>>,
                          onbeforeinput: map<NodeId, Option<HandlerId>>, data: map<NodeId, seq<CodePoint>>) {
    && children.Keys == attributes.Keys
    && children.Keys == onbeforeinput.Keys
    && children.Keys !! data.Keys
  }

  /** Every listed child points back at the element whose list holds it. */
  predicate ChildrenPointBack(children: map<NodeId, seq<NodeId>>, parent: map<NodeId, NodeId>) {
    forall p, x | p in children && x in children[p] :: x in parent && parent[x] == p
  }

  /** Every parent pointer names an element whose list holds the node, and only nodes have parents. */
  predicate ParentsListed(parent: map<NodeId, NodeId>, children: map<NodeId, seq<NodeId>>,
                          data: map<NodeId, seq<CodePoint>>) {
    forall x | x in parent :: && parent[x] in children && x in children[parent[x]]
                              && (x in children || x in data)
  }

  /** No child list holds a node twice. */
  predicate ListsDistinct(children: map<NodeId, seq<NodeId>>) {
    forall p | p in children :: NoDup(children[p])
  }

  /** A snapshot of the host document. */
  datatype DomState = DomState(
    parent: map<NodeId, NodeId>,
    children: map<NodeId, seq<NodeId>>,
    attributes: map<NodeId, map<string, string>>,
    onbeforeinput: map<NodeId, Option<HandlerId>>,
    data: map<NodeId, seq<CodePoint>>,
    body: Option<NodeId>)
  {
    predicate IsElement(n: NodeId) {
      n in children && n in attributes && n in onbeforeinput
    }

    predicate IsText(n: NodeId) {
      n in data
    }

    predicate IsNode(n: NodeId) {
      IsElement(n) || IsText(n)
    }

    /** A new element `e` with no parent, no children, no attributes and no handler. */
    function AddElement(e: NodeId): DomState {
      this.(children := children[e := []], attributes := attributes[e := map[]],
            onbeforeinput := onbeforeinput[e := None])
    }

    /** A new text node `t` with empty data and no parent. */
    function AddText(t: NodeId): DomState {
      this.(data := data[t := []])
    }

    /**
     * The tree's bookkeeping is consistent: elements and text nodes are told
     * apart by which maps hold them, every child points back at the element
     * whose list holds it, every parent pointer is matched by a list entry,
     * child lists have no repetitions, and the body is an element.
     */
    predicate Valid() {
      && KindsDisjoint(children, attributes, onbeforeinput, data)
      && ChildrenPointBack(children, parent)
      && ParentsListed(parent, children, data)
      && ListsDistinct(children)
      && (body.Some? ==> body.value in children)
    }

    /** The entry at position `i` of an element's child list (`NodeList.item`), None past the end. */
    function Item(p: NodeId, i: nat): (r: Option<NodeId>)
      requires p in children
      ensures r.Some? <==> i < |children[p]|
      ensures r.Some? ==> r.value == children[p][i]
    {
      if i < |children[p]| then Some(children[p][i]) else None
    }

    /**
     * Every node of `ns` removed from its parent (the "remove" algorithm for
     * each of them). A node sits in its parent's list and in no other, so
     * filtering every list removes exactly those entries.
     */
    function Detach(ns: set<NodeId>): (s: DomState)
      ensures s.children.Keys == children.Keys
    {
      this.(parent := parent - ns, children := map p | p in children :: Filter(children[p], ns))
    }

    /** `appendChild(x)` on `p`: `x` leaves its old parent and becomes `p`'s last child. */
    function AppendChild(p: NodeId, x: NodeId): (r: DomState)
      requires p in children
      ensures r.children.Keys == children.Keys
      ensures r.attributes == attributes && r.onbeforeinput == onbeforeinput && r.data == data && r.body == body
    {
      var s := Detach({x});
      s.(children := s.children[p := s.children[p] + [x]], parent := s.parent[x := p])
    }

    /**
     * `insertBefore(x, ref)` on `p`: when `ref` is `x` itself the reference
     * becomes `x`'s next sibling; `x` leaves its old parent and is inserted
     * before the reference, or appended when the reference is null.
     */
    function InsertBefore(p: NodeId, x: NodeId, ref: Option<NodeId>): (r: DomState)
      requires Valid() && p in children
      requires ref.Some? ==> ref.value in children[p]
      ensures r.children.Keys == children.Keys
      ensures r.attributes == attributes && r.onbeforeinput == onbeforeinput && r.data == data && r.body == body
    {
      var r := if ref == Some(x) then NextSibling(p, x) else ref;
      var s := Detach({x});
      var list := s.children[p];
      FilterMembers(children[p], {x});
      var list' := if r.None? then list + [x] else InsertAt(list, IndexOf(list, r.value), [x]);
      s.(children := s.children[p := list'], parent := s.parent[x := p])
    }

    /** The child that follows `x` in `p`'s list, if any; under Valid() it is not `x`. */
    function NextSibling(p: NodeId, x: NodeId): (r: Option<NodeId>)
      requires Valid() && p in children && x in children[p]
      ensures r.Some? ==> r.value in children[p] && r.value != x
    {
      var i := IndexOf(children[p], x);
      if i + 1 < |children[p]| then Some(children[p][i + 1]) else None
    }

    /**
     * `replaceChildren(xs...)` on `p`: the nodes of `xs` leave their old
     * parents, every old child of `p` is removed, and `p`'s list becomes `xs`.
     */
    function ReplaceChildren(p: NodeId, xs: seq<NodeId>): (r: DomState)
      requires p in children
      ensures r.children.Keys == children.Keys
      ensures r.attributes == attributes && r.onbeforeinput == onbeforeinput && r.data == data && r.body == body
    {
      var s := Detach(Elements(xs) + Elements(children[p]));
      s.(children := s.children[p := xs], parent := s.parent + map x | x in xs :: p)
    }

    /** `setAttribute(name, value)` on an HTML element: the name is stored ASCII-lowercased. */
    function SetAttribute(e: NodeId, name: string, value: string): DomState
      requires e in attributes
    {
      this.(attributes := attributes[e := attributes[e][AsciiLower(name) := value]])
    }

    /** `getAttribute(name)` on an HTML element: looks up the ASCII-lowercased name. */
    function GetAttribute(e: NodeId, name: string): (r: Option<string>)
      requires e in attributes
      ensures r.Some? <==> AsciiLower(name) in attributes[e]
    {
      if AsciiLower(name) in attributes[e] then Some(attributes[e][AsciiLower(name)]) else None
    }
  }

  /** One list of a detached snapshot: the old list without the detached nodes, still free of repetitions. */
  lemma DetachedList(s: DomState, ns: set<NodeId>, p: NodeId)
    requires p in s.children
    ensures forall x :: x in s.Detach(ns).children[p] <==> x in s.children[p] && x !in ns
    ensures NoDup(s.children[p]) ==> NoDup(s.Detach(ns).children[p])
  {
    FilterMembers(s.children[p], ns);
    if NoDup(s.children[p]) {
      FilterNoDup(s.children[p], ns);
    }
  }

  lemma DetachPointBack(s: DomState, ns: set<NodeId>)
    requires ChildrenPointBack(s.children, s.parent)
    ensures ChildrenPointBack(s.Detach(ns).children, s.Detach(ns).parent)
  {
    var d := s.Detach(ns);
    forall p, x | p in d.children && x in d.children[p] ensures x in d.parent && d.parent[x] == p {
      DetachedList(s, ns, p);
    }
  }

  lemma DetachListed(s: DomState, ns: set<NodeId>)
    requires ParentsListed(s.parent, s.children, s.data)
    ensures ParentsListed(s.Detach(ns).parent, s.Detach(ns).children, s.Detach(ns).data)
  {
    var d := s.Detach(ns);
    forall x | x in d.parent
      ensures d.parent[x] in d.children && x in d.children[d.parent[x]] && (x in d.children || x in d.data)
    {
      DetachedList(s, ns, s.parent[x]);
    }
  }

  lemma DetachDistinct(s: DomState, ns: set<NodeId>)
    requires ListsDistinct(s.children)
    ensures ListsDistinct(s.Detach(ns).children)
  {
    var d := s.Detach(ns);
    forall p | p in d.children ensures NoDup(d.children[p]) {
      DetachedList(s, ns, p);
    }
  }

  /** Detaching keeps the tree consistent, and leaves the detached nodes parentless and listed nowhere. */
  lemma DetachValid(s: DomState, ns: set<NodeId>)
    requires s.Valid()
    ensures s.Detach(ns).Valid()
    ensures forall x | x in ns :: x !in s.Detach(ns).parent
    ensures forall p, x | p in s.children && x in ns :: x !in s.Detach(ns).children[p]
  {
    DetachPointBack(s, ns);
    DetachListed(s, ns);
    DetachDistinct(s, ns);
    forall p, x | p in s.children && x in ns ensures x !in s.Detach(ns).children[p] {
      DetachedList(s, ns, p);
    }
  }

  /** Detaching a node that has no parent changes nothing. */
  lemma DetachParentless(s: DomState, x: NodeId)
    requires ChildrenPointBack(s.children, s.parent) && x !in s.parent
    ensures s.Detach({x}) == s
  {
    var d := s.Detach({x});
    forall p | p in s.children ensures d.children[p] == s.children[p] {
      assert x !in s.children[p];
      FilterNothing(s.children[p], {x});
    }
    assert d.children == s.children;
  }

  /** Detaching is cumulative: one set after another is the union at once. */
  lemma DetachDetach(s: DomState, a: set<NodeId>, b: set<NodeId>)
    ensures s.Detach(a).Detach(b) == s.Detach(a + b)
  {
    var l, r := s.Detach(a).Detach(b), s.Detach(a + b);
    forall p | p in s.children ensures l.children[p] == r.children[p] {
      FilterFilter(s.children[p], a, b);
    }
    assert l.children == r.children;
    assert l.parent == r.parent;
  }

  /** Adding a fresh element or text node keeps the tree consistent. */
  lemma AddNodeValid(s: DomState, n: NodeId)
    requires s.Valid() && !s.IsNode(n)
    ensures s.AddElement(n).Valid() && s.AddText(n).Valid()
  {
    AddElementListed(s.parent, s.children, s.data, n);
    AddElementPointBack(s.children, s.parent, n);
    assert NoDup([]);
  }

  lemma AddElementPointBack(children: map<NodeId, seq<NodeId>>, parent: map<NodeId, NodeId>, n: NodeId)
    requires ChildrenPointBack(children, parent) && n !in children
    ensures ChildrenPointBack(children[n := []], parent)
  {
  }

  lemma AddElementListed(parent: map<NodeId, NodeId>, children: map<NodeId, seq<NodeId>>,
                         data: map<NodeId, seq<CodePoint>>, n: NodeId)
    requires ParentsListed(parent, children, data) && n !in children && n !in data
    ensures ParentsListed(parent, children[n := []], data)
    ensures ParentsListed(parent, children, data[n := []])
  {
    forall x | x in parent ensures parent[x] != n {
      assert parent[x] in children;
    }
  }

  lemma NoDupSnoc(xs: seq<NodeId>, x: NodeId)
    requires NoDup(xs) && x !in xs
    ensures NoDup(xs + [x])
  {
    var l := xs + [x];
    forall i, j | 0 <= i < j < |l| ensures l[i] != l[j] {
      if j == |l| - 1 {
        assert l[i] in xs;
      }
    }
  }

  lemma RelinkPointBack(children: map<NodeId, seq<NodeId>>, parent: map<NodeId, NodeId>,
                        p: NodeId, x: NodeId, list: seq<NodeId>)
    requires ChildrenPointBack(children, parent) && p in children && x !in parent
    requires forall y | y in list :: y in children[p] || y == x
    ensures ChildrenPointBack(children[p := list], parent[x := p])
  {
    var c, r := children[p := list], parent[x := p];
    forall q, y | q in c && y in c[q] ensures y in r && r[y] == q {
      if y != x && q == p {
        assert y in children[p];
      }
    }
  }

  lemma RelinkListed(parent: map<NodeId, NodeId>, children: map<NodeId, seq<NodeId>>,
                     data: map<NodeId, seq<CodePoint>>, p: NodeId, x: NodeId, list: seq<NodeId>)
    requires ParentsListed(parent, children, data) && p in children && (x in children || x in data)
    requires x in list && forall y | y in children[p] :: y in list
    ensures ParentsListed(parent[x := p], children[p := list], data)
  {
    var c, r := children[p := list], parent[x := p];
    forall y | y in r ensures r[y] in c && y in c[r[y]] && (y in c || y in data) {
      if y != x {
        assert y in children[parent[y]];
      }
    }
  }

  /**
   * Linking a parentless node `x` into `p`'s list keeps the tree consistent,
   * when the new list is the old one plus `x`, without repetitions.
   */
  lemma Relink(d: DomState, p: NodeId, x: NodeId, list: seq<NodeId>)
    requires d.Valid() && p in d.children && d.IsNode(x) && x !in d.parent
    requires NoDup(list) && forall y :: y in list <==> y in d.children[p] || y == x
    ensures d.(children := d.children[p := list], parent := d.parent[x := p]).Valid()
  {
    RelinkPointBack(d.children, d.parent, p, x, list);
    RelinkListed(d.parent, d.children, d.data, p, x, list);
  }

  lemma AppendChildValid(s: DomState, p: NodeId, x: NodeId)
    requires s.Valid() && p in s.children && s.IsNode(x)
    ensures s.AppendChild(p, x).Valid()
  {
    DetachValid(s, {x});
    var d := s.Detach({x});
    DetachedList(s, {x}, p);
    NoDupSnoc(d.children[p], x);
    Relink(d, p, x, d.children[p] + [x]);
  }

  lemma InsertAtNoDup(xs: seq<NodeId>, i: nat, x: NodeId)
    requires i <= |xs| && NoDup(xs) && x !in xs
    ensures NoDup(InsertAt(xs, i, [x]))
    ensures forall y :: y in InsertAt(xs, i, [x]) <==> y in xs || y == x
  {
    var l := InsertAt(xs, i, [x]);
    forall a, b | 0 <= a < b < |l| ensures l[a] != l[b] {
      if a < i {
        assert l[a] == xs[a];
        if b == i { assert l[a] in xs; } else if b > i { assert l[b] == xs[b - 1]; }
      } else if a == i {
        assert l[b] == xs[b - 1];
      } else {
        assert l[a] == xs[a - 1] && l[b] == xs[b - 1];
      }
    }
    assert xs == xs[..i] + xs[i..];
  }

  lemma InsertBeforeValid(s: DomState, p: NodeId, x: NodeId, ref: Option<NodeId>)
    requires s.Valid() && p in s.children && s.IsNode(x)
    requires ref.Some? ==> ref.value in s.children[p]
    ensures s.InsertBefore(p, x, ref).Valid()
  {
    var rf := if ref == Some(x) then s.NextSibling(p, x) else ref;
    DetachValid(s, {x});
    var d := s.Detach({x});
    var list := d.children[p];
    DetachedList(s, {x}, p);
    if rf.None? {
      NoDupSnoc(list, x);
      Relink(d, p, x, list + [x]);
    } else {
      InsertAtNoDup(list, IndexOf(list, rf.value), x);
      Relink(d, p, x, InsertAt(list, IndexOf(list, rf.value), [x]));
    }
  }

  lemma ReplantPointBack(children: map<NodeId, seq<NodeId>>, parent: map<NodeId, NodeId>, p: NodeId, xs: seq<NodeId>)
    requires ChildrenPointBack(children, parent) && p in children
    requires forall x | x in xs :: x !in parent
    ensures ChildrenPointBack(children[p := xs], parent + map x | x in xs :: p)
  {
    var c, r := children[p := xs], parent + map x | x in xs :: p;
    forall q, y | q in c && y in c[q] ensures y in r && r[y] == q {
      if q != p {
        assert y in children[q];
      }
    }
  }

  lemma ReplantListed(parent: map<NodeId, NodeId>, children: map<NodeId, seq<NodeId>>,
                      data: map<NodeId, seq<CodePoint>>, p: NodeId, xs: seq<NodeId>)
    requires ParentsListed(parent, children, data) && p in children && children[p] == []
    requires forall x | x in xs :: x in children || x in data
    ensures ParentsListed(parent + map x | x in xs :: p, children[p := xs], data)
  {
    var c, r := children[p := xs], parent + map x | x in xs :: p;
    forall y | y in r ensures r[y] in c && y in c[r[y]] && (y in c || y in data) {
      if y !in xs {
        assert y in children[parent[y]];
      }
    }
  }

  /** Planting parentless nodes `xs` as the whole list of a childless `p` keeps the tree consistent. */
  lemma Replant(d: DomState, p: NodeId, xs: seq<NodeId>)
    requires d.Valid() && p in d.children && d.children[p] == [] && NoDup(xs)
    requires forall x | x in xs :: d.IsNode(x) && x !in d.parent
    ensures d.(children := d.children[p := xs], parent := d.parent + map x | x in xs :: p).Valid()
  {
    ReplantPointBack(d.children, d.parent, p, xs);
    ReplantListed(d.parent, d.children, d.data, p, xs);
  }

  lemma ReplaceChildrenValid(s: DomState, p: NodeId, xs: seq<NodeId>)
    requires s.Valid() && p in s.children && NoDup(xs)
    requires forall x | x in xs :: s.IsNode(x)
    ensures s.ReplaceChildren(p, xs).Valid()
  {
    var gone := Elements(xs) + Elements(s.children[p]);
    DetachValid(s, gone);
    var d := s.Detach(gone);
    DetachedList(s, gone, p);
    FilterAll(s.children[p], gone);
    Replant(d, p, xs);
  }

  /**
   * The host document as the wrappers see it. Every method keeps `Valid()`
   * and states its effect on `state`, a DomState value; `next` hands out fresh ids.
   */
  class Document {
    /** The document's tree, attributes, handlers, text and body. */
    var state: DomState
    /** The id the next created node receives. */
    var next: NodeId

    /** The tree is consistent and every existing node id is below `next`. */
    predicate Valid()
      reads this
    {
      && state.Valid()
      && (forall n | n in state.children :: n < next)
      && (forall n | n in state.data :: n < next)
    }

    /** An empty document without a body. */
    constructor ()
      ensures Valid() && state == DomState(map[], map[], map[], map[], map[], None)
    {
      state := DomState(map[], map[], map[], map[], map[], None);
      next := 0;
    }

    /** `createElement`: a fresh element with no parent, no children, no attributes and no handler. */
    method CreateElement() returns (e: NodeId)
      requires Valid()
      modifies this
      ensures Valid() && e == old(next) && next == e + 1
      ensures !old(state).IsNode(e)
      ensures state == old(state).AddElement(e)
    {
      e := next;
      AddNodeValid(state, e);
      state := state.AddElement(e);
      next := next + 1;
    }

    /** `new Text()`: a fresh text node with empty data and no parent. */
    method CreateText() returns (t: NodeId)
      requires Valid()
      modifies this
      ensures Valid() && t == old(next) && next == t + 1
      ensures !old(state).IsNode(t)
      ensures state == old(state).AddText(t)
    {
      t := next;
      AddNodeValid(state, t);
      state := state.AddText(t);
      next := next + 1;
    }

    /** `removeChild(x)` on `p`. */
    method RemoveChild(p: NodeId, x: NodeId)
      requires Valid() && p in state.children && x in state.children[p]
      modifies this
      ensures Valid() && next == old(next)
      ensures state == old(state).Detach({x})
    {
      DetachValid(state, {x});
      state := state.Detach({x});
    }

    /** `append(x)` / `appendChild(x)` on `p`; `x` may not be `p` itself (a HierarchyRequestError). */
    method AppendChild(p: NodeId, x: NodeId)
      requires Valid() && state.IsElement(p) && state.IsNode(x) && x != p
      modifies this
      ensures Valid() && next == old(next)
      ensures state == old(state).AppendChild(p, x)
    {
      AppendChildValid(state, p, x);
      state := state.AppendChild(p, x);
    }

    /** `insertBefore(x, ref)` on `p`; `ref` must be a child of `p` (otherwise a NotFoundError). */
    method InsertBefore(p: NodeId, x: NodeId, ref: Option<NodeId>)
      requires Valid() && state.IsElement(p) && state.IsNode(x) && x != p
      requires ref.Some? ==> ref.value in state.children[p]
      modifies this
      ensures Valid() && next == old(next)
      ensures state == old(state).InsertBefore(p, x, ref)
    {
      InsertBeforeValid(state, p, x, ref);
      state := state.InsertBefore(p, x, ref);
    }

    /** `replaceChildren(xs...)` on `p`, for nodes that are not `p` and not repeated. */
    method ReplaceChildren(p: NodeId, xs: seq<NodeId>)
      requires Valid() && state.IsElement(p) && NoDup(xs) && p !in xs
      requires forall x | x in xs :: state.IsNode(x)
      modifies this
      ensures Valid() && next == old(next)
      ensures state == old(state).ReplaceChildren(p, xs)
    {
      ReplaceChildrenValid(state, p, xs);
      state := state.ReplaceChildren(p, xs);
    }

    /**
     * `setAttribute(name, value)` on element `e`. It throws (InvalidCharacterError)
     * on a name that is not a valid attribute local name, and then changes nothing.
     */
    method SetAttribute(e: NodeId, name: string, value: string) returns (ok: bool)
      requires Valid() && state.IsElement(e)
      modifies this
      ensures Valid() && next == old(next)
      ensures ok <==> ValidAttributeName(name)
      ensures ok ==> state == old(state).SetAttribute(e, name, value)
      ensures !ok ==> state == old(state)
    {
      if !ValidAttributeName(name) {
        return false;
      }
      state := state.SetAttribute(e, name, value);
      ok := true;
    }

    /** Assigning the `onbeforeinput` property of element `e`. */
    method SetOnBeforeInput(e: NodeId, h: Option<HandlerId>)
      requires Valid() && state.IsElement(e)
      modifies this
      ensures Valid() && next == old(next)
      ensures state == old(state).(onbeforeinput := old(state).onbeforeinput[e := h])
    {
      state := state.(onbeforeinput := state.onbeforeinput[e := h]);
    }

    /** Assigning `data` of text node `t`. */
    method SetData(t: NodeId, s: seq<CodePoint>)
      requires Valid() && state.IsText(t)
      modifies this
      ensures Valid() && next == old(next)
      ensures state == old(state).(data := old(state).data[t := s])
    {
      state := state.(data := state.data[t := s]);
    }

    /** `appendData(s)` on text node `t`. */
    method AppendData(t: NodeId, s: seq<CodePoint>)
      requires Valid() && state.IsText(t)
      modifies this
      ensures Valid() && next == old(next)
      ensures state == old(state).(data := old(state).data[t := old(state).data[t] + s])
    {
      state := state.(data := state.data[t := state.data[t] + s]);
    }

    /**
     * `insertData(offset, s)` on text node `t`, with `offset` in UTF-16 code
     * units. It fails (IndexSizeError) when the offset is past the end. The data
     * here are code points, so an offset between the two halves of a surrogate
     * pair, which a browser accepts by splitting the pair, has no position
     * here; the model reports it as a failure too.
     */
    method InsertData(t: NodeId, offset: nat, s: seq<CodePoint>) returns (ok: bool)
      requires Valid() && state.IsText(t)
      modifies this
      ensures Valid() && next == old(next)
      ensures ok <==> Utf16ToCharIdx(old(state).data[t], offset).Some?
      ensures offset > Utf16Len(old(state).data[t]) ==> !ok
      ensures ok ==> state == old(state).(data := old(state).data[t :=
        InsertAt(old(state).data[t], Utf16ToCharIdx(old(state).data[t], offset).value, s)])
      ensures !ok ==> state == old(state)
    {
      match Utf16ToCharIdx(state.data[t], offset)
      case Some(k) =>
        Utf16ToCharIdxBound(state.data[t], offset);
        state := state.(data := state.data[t := InsertAt(state.data[t], k, s)]);
        ok := true;
      case None =>
        ok := false;
    }

    /** Assigning `document.body`. */
    method SetBody(b: NodeId)
      requires Valid() && state.IsElement(b)
      modifies this
      ensures Valid() && next == old(next)
      ensures state == old(state).(body := Some(b))
    {
      state := state.(body := Some(b));
    }
  }
}
