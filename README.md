# Shadow-DOM wrappers of the Codillon editor, in Dafny

Codillon builds its user interface from Rust components. Each component keeps a
Rust-side copy, its *shadow*, of the part of the browser DOM that it owns, and
every change to that part goes through the component. The handles in
`web_support.rs` are the only code that writes the DOM:

- `TextHandle` owns a text node.
- `ElementHandle` owns an element and remembers the attributes and the
  `beforeinput` handler it installed.
- `AutoRemove` detaches a node from its parent when the handle is dropped.
- `DocumentHandle` owns the body component.

Three components are built on these handles:

- `DomText` is a string mirrored in a text node.
- `DomStruct` is a fixed-length heterogeneous list of components, built from
  nested pairs. Its members' nodes are the owner element's children.
- `DomVec` is a variable-length homogeneous list whose order is the order of
  the owner element's child list.

Every component has an `audit` that panics when shadow and DOM disagree.

This project models all of this against an abstract host document, and proves
that every mutator keeps the audit passing, except the ones under "## Findings"
(which are proved to break it as written, and proved to keep it once corrected),
the u32 error path of `insert_at_char`, and assignment through `body_mut()`. The files are:

- `dom.dfy` is the host document (`Dom.Document`). It is a class whose
  `state` field is a `DomState` value holding:
  - the parent and ordered child list of each node;
  - the attributes and the `onbeforeinput` handler slot of each element;
  - the data of each text node;
  - the body.

  Each method is specified by a pure function on `DomState`. These functions follow the WHATWG DOM Living Standard:
  - "remove" and pre-insert, section 4.2.3 (a null reference child appends);
  - `replaceChildren` as a whole-list replacement, section 4.2.6;
  - `setAttribute`/`getAttribute`, which lowercase ASCII names on HTML
    elements, section 4.9;
  - the CharacterData methods, whose offsets count UTF-16 code units,
    section 4.10.
- `unicode.dfy` holds code-point widths in UTF-8 (RFC 3629, section 3) and in
  UTF-16 (RFC 2781, section 2.1). It also has the index conversions that
  `insert_at_char` uses.
- `web_support.dfy` has the handles, the element audit, `audit_node` and the
  array handle.
- `component.dfy` has the three components as one recursive datatype. It also
  holds:
  - the audit as the predicate `InSync` and as methods that compute it;
  - dropping a component, which detaches every node it owns.
- `dom_text.dfy`, `dom_struct.dfy` and `dom_vec.dfy` hold the component
  operations and their sync lemmas.
- `document_handle.dfy` has the document handle.

Handles and components are values. A Rust component is uniquely owned, so
changing it through `&mut self` is the same as replacing it with a new value.
Each mutator is therefore a method that writes the `Document` and returns the
new shadow. Each panicking `assert!` in an audit becomes a `false` result. An
`assert!` in a mutator becomes a precondition.

## Model

| member | source | states |
|---|---|---|
| WebSupport.Drop | src/web_support.rs:89-95 | dropping a handle removes its node from its parent, and the document is otherwise the same |
| WebSupport.DropDetaches | src/web_support.rs:89-95 | after the drop the node has no parent and is in no child list; a node without a parent is left as it was |
| WebSupport.DropRemovesOwnEntry | src/web_support.rs:89-95 | the drop takes exactly the node's own entry out of its parent's list, and every other list is unchanged |
| WebSupport.NewTextHandle | src/web_support.rs:101-105 | a new text node: fresh, without a parent, with empty data |
| WebSupport.SetData | src/web_support.rs:112-121 | `set_data` makes the node's data exactly the given string |
| WebSupport.AppendData | src/web_support.rs:112-121 | `append_data` appends the string to the node's data |
| WebSupport.InsertData | src/web_support.rs:112-121 | `insert_data` inserts the string at the code point that the UTF-16 offset names; an offset past the end is a panic (`unwrap`), so it is excluded, and an offset inside a surrogate pair is excluded by the model (see Left out) |
| WebSupport.NewElementHandle | src/web_support.rs:146-152 | a new handle has no attributes and no handler, and it passes the element audit |
| WebSupport.AppendNode | src/web_support.rs:154-156 | `append_node` is `appendChild` on the owner |
| WebSupport.AppendChildPlacesLast | src/web_support.rs:154-156 | after `append_node(c)`, `c` is the last child and its parent is the owner; a node that was not a child is added at the end of the old list |
| WebSupport.InsertNode | src/web_support.rs:158-171 | `insert_node(i, c)` is `insertBefore` with the current `i`-th child as reference, or none |
| WebSupport.InsertNodePosition | src/web_support.rs:158-171 | for a node `c` that is not yet a child of the element and `i` below the child count, `c` lands at position `i`; at or past the count, `insert_node` is the same as `append_node` |
| WebSupport.AttachNode | src/web_support.rs:173-175 | `attach_node(c)` replaces the child list with `[c]` |
| WebSupport.ReplaceChildrenFacts | src/web_support.rs:173-179 | after a replacement, the child list is exactly the given nodes and each of them has the owner as parent |
| WebSupport.AttachNodes | src/web_support.rs:177-179 | `attach_nodes(a)` replaces the child list with the array's nodes, in order |
| WebSupport.NewArrayHandle | src/web_support.rs:366-370 | a new array has the requested length and empty slots; the length must fit in u32 |
| WebSupport.SetSlot | src/web_support.rs:372-375 | `set(i, n)` writes slot `i` and no other slot |
| WebSupport.Filled | src/web_support.rs:177-179 | the nodes of a filled array, one per slot, in order |
| WebSupport.AttributesInSyncIffEqual | src/web_support.rs:187-197 | with lowercase shadow keys, the two attribute loops of the audit pass exactly when the shadow map equals the DOM map |
| WebSupport.SetAttributeAsWritten | src/web_support.rs:181-184 | as written: the shadow key is the name as given, and the DOM receives `setAttribute(name, value)`; a name the DOM refuses is a panic (`unwrap`), so the name must be valid |
| WebSupport.SetAttributeAsWrittenDiverges | src/web_support.rs:181-184 | as written, a name with an ASCII capital that is new to the element makes the element audit fail |
| WebSupport.SetAttributeAsWrittenExample | src/web_support.rs:181-184 | `set_attribute("Class", "x")` on a fresh element makes it fail its audit |
| WebSupport.SetAttributeAsWrittenLowercase | src/web_support.rs:181-184 | as written, a lowercase name keeps the element audit passing |
| WebSupport.SetAttribute | src/web_support.rs:181-184 | corrected: the shadow key is the name the DOM stores, and the DOM receives `setAttribute(name, value)`; a name the DOM refuses is a panic, so the name must be valid |
| Dom.ValidAttributeNameExamples | src/web_support.rs:183 | the DOM refuses the empty name and names with a space or `=`, and accepts `class` and `data-x` |
| WebSupport.SetAttributeKeepsSync | src/web_support.rs:181-184 | corrected: `set_attribute` keeps the element audit passing; the DOM then returns `value` for `name`; every other attribute is unchanged |
| WebSupport.SetOnBeforeInput | src/web_support.rs:218-228 | the shadow slot and the DOM slot both receive the same new handler |
| WebSupport.SetOnBeforeInputKeepsSync | src/web_support.rs:218-228 | installing a handler keeps the element audit passing, and the DOM slot holds that handler |
| WebSupport.AuditHandler | src/web_support.rs:199-207 | the handler audit passes exactly when both slots are empty, or both hold the same handler |
| WebSupport.AuditElement | src/web_support.rs:186-208 | the element audit passes exactly when every shadow attribute is in the DOM with the same value, every DOM attribute is a shadow key, and the handler audit passes |
| WebSupport.AuditNode | src/web_support.rs:348-355 | `audit_node(i, n)` passes exactly when the list has an item at `i` and it is `n` |
| Components.Len | src/dom_struct.rs:26-37 | `LEN` is 0 exactly for the empty structure `()`; a pair counts one more than its rest |
| Components.Roots | src/dom_struct.rs:26-41 | one root node per member, as many as `LEN`: slot `k` holds member `k`'s root |
| Components.RootsNoDup | src/dom_struct.rs:38-42 | in a well-formed structure, the members' roots are pairwise distinct |
| Components.StructureInSyncRoots | src/dom_struct.rs:30-48 | a structure's audit from `index` passes exactly when `index + LEN` is the list length, the list from `index` is the members' roots, and every member passes its own audit |
| Components.InSyncExists | src/dom_struct.rs:84-89 | a component that passes its audit has every node it names in the document, with the right kind |
| Components.InSyncFrame | src/dom_vec.rs:51-59 | a component's audit depends only on the DOM at the nodes it owns |
| Components.DetachOutside | src/web_support.rs:89-95 | detaching nodes that a component does not own below its root keeps it passing its audit |
| Components.ParentsInside | src/dom_struct.rs:55-59 | in sync, every node a component owns below its root has a parent that the component also owns |
| Components.ReplaceKeepsMember | src/web_support.rs:173-179 | replacing the child list of an element outside a component keeps that component passing, provided the new list holds none of the nodes it owns below its root |
| Components.Audit | src/dom_text.rs:47-49 | `audit` on a text, struct or vec component passes exactly when `InSync` holds |
| Components.AuditStructure | src/dom_struct.rs:30-48 | the structure audit from `index` passes exactly when `StructureInSync` holds |
| Components.DropComponent | src/web_support.rs:89-95 | dropping a component detaches every node it owns |
| Components.DropStructure | src/dom_struct.rs:10-13 | dropping a structure detaches every node that its members own |
| Components.DropMembers | src/dom_vec.rs:8-11 | dropping a vector's members, in order, detaches every node that they own |
| DomTexts.Utf16Offset | src/dom_text.rs:31-33 | the offset computed from char index `k` is the UTF-16 length of the first `k` code points, clamped to the end |
| DomTexts.ShadowInsert | src/dom_text.rs:31-34 | `insert_str` at the byte index of char `k` inserts at char `k`; past the end it appends |
| DomTexts.InsertAtCharSamePosition | src/dom_text.rs:31-36 | the UTF-16 offset lands on the same character in the node's data as the char index in the string |
| DomTexts.New | src/dom_text.rs:14-19 | `new(s)` makes a fresh text node whose data is `s`, with string `s`, in sync |
| DomTexts.SetData | src/dom_text.rs:26-29 | `set_data(s)` makes both string and data `s`, in sync |
| DomTexts.PushStr | src/dom_text.rs:21-24 | `push_str(s)` appends `s` to both and keeps the component in sync |
| DomTexts.InsertAtChar | src/dom_text.rs:31-37 | the string gets `s` at char `k` in any case. The call errs exactly when the UTF-16 offset does not fit in u32, and then the DOM is unchanged. Otherwise the data gets `s` at the same character, and sync is kept |
| DomTexts.InSyncInsertAllowed | src/dom_text.rs:31-36 | in sync, the node's data always accepts the computed offset, so `insert_data` does not panic |
| DomTexts.InsertAtCharErrorDiverges | src/dom_text.rs:34-35 | on the error path, a non-empty insertion leaves the string and the data out of sync |
| DomTexts.InsertAtCharExample | src/dom_text.rs:31-36 | inserting "X" at char 1 of "ab" gives "aXb", at char 7 it appends, and an astral character counts as two UTF-16 units |
| DomStructs.Install | src/dom_struct.rs:27-42 | `install` at `index` needs `index + LEN` to equal the array length; it writes member `k`'s root into slot `index + k` and leaves earlier slots alone |
| DomStructs.InstalledRoots | src/dom_struct.rs:38-42 | an array installed from 0 holds exactly the members' roots, in order |
| DomStructs.New | src/dom_struct.rs:55-59 | `new` replaces the owner's children with the members' roots in one step, and the struct passes its audit when its element and members did |
| DomStructs.AttachInSync | src/dom_struct.rs:55-59 | after the attachment, the child list is the members' roots and the struct passes its audit |
| DomStructs.SetContentsAsWritten | src/dom_struct.rs:70-72 | as written: the old members are dropped, which detaches their nodes, and only the shadow field is reassigned |
| DomStructs.SetContentsAsWrittenBreaksSync | src/dom_struct.rs:70-72 | as written, after `set_contents` a non-empty struct fails its audit |
| DomStructs.SetContents | src/dom_struct.rs:55-72 | corrected: the old members are dropped, then the new members' roots replace the owner's children |
| DomStructs.SetContentsInSync | src/dom_struct.rs:55-72 | after the corrected `set_contents`, the struct passes its audit |
| DomStructs.MembersDetachOutside | src/dom_struct.rs:70-72 | detaching nodes that the members do not own keeps every member passing its audit |
| DomStructs.SetAttributeAsWritten | src/dom_struct.rs:74-79 | as written: delegated to the element handle as written, so the shadow key is the name as given; the contents are unchanged |
| DomStructs.SetAttributeAsWrittenBreaksStructSync | src/dom_struct.rs:74-79 | as written, a name with an ASCII capital that is new to the element makes the struct fail its audit |
| DomStructs.SetAttributeAsWrittenLowercaseKeepsStructSync | src/dom_struct.rs:74-79 | as written, a lowercase name keeps the struct in sync |
| DomStructs.SetAttribute | src/dom_struct.rs:74-79 | corrected: delegated to the corrected element handle; it acts on the owner element only, and the contents are unchanged |
| DomStructs.SetOnBeforeInput | src/dom_struct.rs:74-79 | `set_onbeforeinput` acts on the owner element only, and the contents are unchanged |
| DomStructs.OwnerUpdateKeepsSync | src/dom_struct.rs:74-89 | a change confined to the owner's attributes and handler, after which the owner passes, keeps the struct in sync |
| DomStructs.SetAttributeKeepsStructSync | src/dom_struct.rs:74-79 | corrected: `set_attribute` through the struct keeps it in sync |
| DomStructs.GetMutKeepsSync | src/dom_struct.rs:66-68 | a change through `get_mut` that leaves the element alone, keeps each member's root in its slot and keeps every member in sync keeps the struct in sync |
| DomStructs.SetOnBeforeInputKeepsStructSync | src/dom_struct.rs:74-79 | `set_onbeforeinput` through the struct keeps it in sync |
| DomVecs.VecInSyncIff | src/dom_vec.rs:51-59 | the vec audit passes exactly when the owner passes, the child list is the members' roots in order, and every member passes |
| DomVecs.New | src/dom_vec.rs:14-19 | `new(e)` has no members and keeps `e` |
| DomVecs.NewInSync | src/dom_vec.rs:14-19 | a new vec passes its audit exactly when its element does and has no children |
| DomVecs.Push | src/dom_vec.rs:21-24 | `push(c)` appends `c` to the members and `c`'s root to the owner's children |
| DomVecs.PushKeepsSync | src/dom_vec.rs:21-24 | pushing a component that is in sync and disjoint from the vec keeps the vec in sync and well formed |
| DomVecs.Remove | src/dom_vec.rs:26-28 | `remove(i)` returns member `i`; later members move down by one; the DOM is not touched |
| DomVecs.RemoveBreaksSync | src/dom_vec.rs:26-28 | before the removed member is dropped, the vec fails its audit |
| DomVecs.RemoveThenDropKeepsSync | src/dom_vec.rs:26-28 | once the removed member is dropped, the shortened vec passes its audit again |
| DomVecs.SetContents | src/dom_vec.rs:30-33 | `set_contents(c)` drops the old members; the members become `[c]` and the owner's children `[c's root]` |
| DomVecs.SetContentsInSync | src/dom_vec.rs:30-33 | after `set_contents(c)`, the vec passes its audit when its element and `c` did |
| DomVecs.Get | src/dom_vec.rs:37-38 | `get(i)` is None exactly when `i` is out of bounds, and otherwise member `i` |
| DomVecs.SetMember | src/dom_vec.rs:38 | writing back through `get_mut(i)` changes member `i` only |
| DomVecs.SetMemberKeepsSync | src/dom_vec.rs:38 | a change through `get_mut(i)` that keeps member `i` in sync and its root unchanged keeps the vec in sync |
| DomVecs.SetAttributeAsWritten | src/dom_vec.rs:40-43 | as written: delegated to the element handle as written, so the shadow key is the name as given; the members are unchanged |
| DomVecs.SetAttributeAsWrittenBreaksVecSync | src/dom_vec.rs:40-43 | as written, a name with an ASCII capital that is new to the element makes the vec fail its audit |
| DomVecs.SetAttributeAsWrittenLowercaseKeepsVecSync | src/dom_vec.rs:40-43 | as written, a lowercase name keeps the vec in sync |
| DomVecs.SetAttribute | src/dom_vec.rs:40-43 | corrected: delegated to the corrected element handle; it acts on the owner element only |
| DomVecs.SetOnBeforeInput | src/dom_vec.rs:40-43 | `set_onbeforeinput` acts on the owner element only |
| DomVecs.OwnerUpdateKeepsSync | src/dom_vec.rs:40-59 | a change confined to the owner's attributes and handler, after which the owner passes, keeps the vec in sync |
| DomVecs.SetAttributeKeepsVecSync | src/dom_vec.rs:40-43 | corrected: `set_attribute` through the vec keeps it in sync |
| DomVecs.SetOnBeforeInputKeepsVecSync | src/dom_vec.rs:40-43 | `set_onbeforeinput` through the vec keeps it in sync |
| Documents.DocumentHandle.constructor | src/web_support.rs:259-266 | a new document handle has no body component |
| Documents.DocumentHandle.SetBody | src/web_support.rs:280-284 | `set_body(b)` drops the old body component, stores `b`, and makes `b`'s element the document's body |
| Documents.DocumentHandle.Audit | src/web_support.rs:297-307 | the audit passes with neither body, fails with exactly one, and with both requires the same node and a passing body audit |
| Documents.SetBodyInSync | src/web_support.rs:280-284 | after `set_body(b)` the stored body and the DOM body are the same node, and the document passes its audit |
| Documents.DocumentHandle.AssignThroughBodyMut | src/web_support.rs:276-278 | assigning a component through `body_mut()` drops the old body component, which detaches its nodes, and stores the new one; the model keeps the document's `body` pointer at the old element (in the browser it becomes null) |
| Documents.AssignThroughBodyMutBreaksSync | src/web_support.rs:276-278 | after assigning a component with another root through `body_mut()`, the document fails its audit |
| Documents.BodyMutFrame | src/web_support.rs:276-278 | a change through `body_mut()` that leaves the body's nodes and the document's `body` alone keeps the document audit passing |
| Documents.BodyMutKeepsSync | src/web_support.rs:276-278 | a change through `body_mut()` that keeps the body's root and keeps the body component in sync keeps the document audit passing |
| Unicode.CharToByteIdxIsPrefixLen | src/dom_text.rs:32 | a char index becomes the UTF-8 length of that many code points, clamped to the end |
| Unicode.CharToByteRoundTrip | src/dom_text.rs:32-34 | converting the byte index back gives the clamped char index |
| Unicode.Utf16IdxOfCharIdx | src/dom_text.rs:32-33 | the UTF-16 index of the byte index of char `k` is the UTF-16 length of the first `k` code points |
| Unicode.Utf16ToCharIdxOfPrefix | src/dom_text.rs:35 | a UTF-16 offset at a code-point boundary names that code point |
| Unicode.AstralCharOffsets | src/dom_text.rs:32-33 | every astral character takes four UTF-8 bytes and two UTF-16 units; after it the byte index is 4 and the UTF-16 index 2, and the UTF-16 offset 1 inside it names no code point |

## Left out

- Shadow values are not shared: components and handles are values, not objects. This follows Rust's unique ownership. The model does not capture aliasing of a component, or its update in place.
- The `<html>` element, and the body's place under it, are not modelled. The body is a pointer to an element. The old body leaves `<html>` only in the sense that the pointer changes. The browser's body setter also moves the new body element out of any previous parent and under `<html>`; the model leaves the new body's parent and its place in any child list unchanged.
- Element tags and the `ElementFactory` (`div`, `span`, `p`, `br`, `body`, src/web_support.rs:310-338) are left out. Each factory call is `WebSupport.NewElementHandle`, which creates a fresh element with no parent, children, attributes or handler.
- The ancestor check of pre-insertion (a node inserted into its own descendant) is not modelled. Components never nest an owner inside its members: `Components.WellFormed` states that ownership.
- Closures are handler identities compared by equality. What a closure does, and how it is invalidated when dropped, are not modelled.
- Read-only navigation is not modelled: `NodeReader`, `ElementReader`, `SelectionHandle`, `get_selection` and `body()` (src/web_support.rs:22-62, 231-250, 272-274, 286-295), and `DomStruct::get` (src/dom_struct.rs:62-64).
- `NodeListHandle::length` and `ArrayHandle::length` are plain reads. They appear inside the audits and `install` as the length of a sequence or an array.
- The `AccessToken`, `WithNode` and `WithElement` capability traits are left out. They are Rust visibility discipline, and each component just exposes one node id, `Components.Node`.
- `src/main.rs` and `src/editor.rs` are wiring and an application built on the components, and they are not part of this model.
- WebSupport.InsertNode: the `as u32` truncation of the index is not modelled. Indices are taken to be in range.
- WebSupport.AttachNode and WebSupport.AttachNodes: the `Result` of `replaceChildren` is ignored by the source. The model requires the new children to differ from the element, which is the one failure (a HierarchyRequestError) a component can reach; ownership rules it out, since an owner is never its own member. `AttachNodes` also requires every slot to be filled and the nodes to be distinct; its only caller, `DomStructs.New`, passes an array filled by `DomStructs.Install` with the distinct roots of `Components.RootsNoDup`.
- WebSupport.SetSlot: a JavaScript `Array.set` past the end grows the array. The model requires the index to be in range; `DomStructs.Install`, the only caller, guarantees it.
- WebSupport.AuditNode: the `index -> u32` conversion panic is not modelled. Child lists are taken to be shorter than 2^32.
- DomTexts.InsertAtChar: the conversion of the UTF-16 offset to u32 is modelled as written, with its error path. On 32-bit wasm the offset always fits, so there the error cannot occur.
- WebSupport.InsertData: a UTF-16 offset that falls between the two halves of a surrogate pair is excluded by the precondition. In the browser it would split the pair.
- Documents.DocumentHandle.AssignThroughBodyMut: `body_mut()` hands out the stored body component itself. Replacing it as a whole through that reference bypasses `set_body`, so the document's `body` and the stored component stop matching and the document audit fails (`Documents.AssignThroughBodyMutBreaksSync`). In the browser the old body element leaves `<html>` when it is dropped, so `document.body` becomes null and the audit fails with "missing body"; the model keeps the old pointer, and the audit fails either way. Changes that keep the root are covered by `Documents.BodyMutKeepsSync`.
- DomStructs.GetMutKeepsSync: a change through `DomStruct::get_mut` is modelled as any DOM change that leaves the element alone, followed by writing a new structure back. Assigning a whole new structure through the reference (`*s.get_mut() = c`) drops the old members and is `DomStructs.SetContentsAsWritten`, which breaks sync (`DomStructs.SetContentsAsWrittenBreaksSync`).
- SetAttributeKeepsStructSync (`DomStructs.SetAttributeKeepsStructSync`): sync is proved for the corrected delegation. The delegation as written keeps sync only for lowercase names (`DomStructs.SetAttributeAsWrittenLowercaseKeepsStructSync`) and breaks it for a new name with an ASCII capital (`DomStructs.SetAttributeAsWrittenBreaksStructSync`); see Findings.
- SetAttributeKeepsVecSync (`DomVecs.SetAttributeKeepsVecSync`): sync is proved for the corrected delegation. The delegation as written keeps sync only for lowercase names (`DomVecs.SetAttributeAsWrittenLowercaseKeepsVecSync`) and breaks it for a new name with an ASCII capital (`DomVecs.SetAttributeAsWrittenBreaksVecSync`); see Findings.
- Dom.ValidAttributeName follows the current DOM standard's "valid attribute local name". Browsers that still check the stricter XML `Name` production refuse more names; the model does not capture that difference.
- DomVecs.SetMember: `get_mut` is modelled as `Get` plus writing the changed member back. A change made through the reference is any DOM change confined to that member's nodes.
- Host code that changes the DOM between calls is not modelled as concurrency. `Components.InSyncFrame` says which DOM changes an audit can notice.

## Findings

| source | as written | input that shows it | evidently intended | confidence | as-written member | corrected member |
|---|---|---|---|---|---|---|
| src/web_support.rs:181-184 | the shadow map keys the attribute by the name as given, while the DOM lowercases ASCII names of attributes on HTML elements; the audit then looks the shadow key up case-insensitively, but compares the DOM's name list with the shadow keys exactly | `set_attribute("Class", "x")` on a fresh element: the DOM lists `class`, which is not a shadow key, so the audit panics | the shadow keys the attribute by the lowercased name, so the audit keeps passing | not executed | WebSupport.SetAttributeAsWritten, WebSupport.SetAttributeAsWrittenExample, DomStructs.SetAttributeAsWritten, DomStructs.SetAttributeAsWrittenBreaksStructSync, DomVecs.SetAttributeAsWritten, DomVecs.SetAttributeAsWrittenBreaksVecSync | WebSupport.SetAttribute, WebSupport.SetAttributeKeepsSync, DomStructs.SetAttribute, DomStructs.SetAttributeKeepsStructSync, DomVecs.SetAttribute, DomVecs.SetAttributeKeepsVecSync |
| src/dom_struct.rs:70-72 | `set_contents` reassigns the shadow field only. Dropping the old members detaches their nodes, and the new members are never installed or attached | any struct with at least one member: after `set_contents`, the owner has fewer children than `LEN`, so the audit panics | `set_contents` installs the new members and attaches them, as `new` does | not executed | DomStructs.SetContentsAsWritten, DomStructs.SetContentsAsWrittenBreaksSync | DomStructs.SetContents, DomStructs.SetContentsInSync |
