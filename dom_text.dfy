/**
 * The text component: a string kept in step with the data of its text node.
 * Strings are sequences of code points; the component's string is indexed in
 * UTF-8 bytes, the text node's data in UTF-16 code units, so an insertion
 * converts a char index to a byte index and the byte index to a UTF-16 offset.
 */
module DomTexts {
  import opened Wrappers
  import opened Unicode
  import opened Dom
  import opened WebSupport
  import opened Components

  /** The error `insert_at_char` returns when the UTF-16 offset does not fit in u32. */
  const OffsetOverflow: string := "utf16 offset out of u32 range"

  /**
   * The UTF-16 offset `insert_at_char` hands to the text node: the char index
   * becomes a byte index (clamped to the end), and the byte index a UTF-16
   * offset. It is the UTF-16 length of the first `k` code points.
   */
  function Utf16Offset(contents: seq<CodePoint>, k: nat): (u: nat)
    ensures u == Utf16Len(contents[..Min(k, |contents|)])
  {
    Utf16IdxOfCharIdx(contents, k);
    ByteToUtf16Idx(contents, CharToByteIdx(contents, k))
  }

  /**
   * The string after `insert_str` at the byte index of char `k`: the
   * insertion lands at char `k`, or at the end when `k` is past it.
   */
  function ShadowInsert(contents: seq<CodePoint>, k: nat, s: seq<CodePoint>): (r: seq<CodePoint>)
    ensures r == InsertAt(contents, Min(k, |contents|), s)
    ensures k >= |contents| ==> r == contents + s
  {
    CharToByteRoundTrip(contents, k);
    var b := CharToByteIdx(contents, k);
    InsertAt(contents, ByteToCharIdx(contents, b).value, s)
  }

  /**
   * The offset lands on the same character in the text node's data as the
   * char index in the string, whenever the two are equal: both sides insert
   * at the same place.
   */
  lemma InsertAtCharSamePosition(contents: seq<CodePoint>, k: nat)
    ensures Utf16ToCharIdx(contents, Utf16Offset(contents, k)) == Some(Min(k, |contents|))
  {
    Utf16ToCharIdxOfPrefix(contents, Min(k, |contents|));
  }

  /** `DomText::new`: an empty string and a new empty text node, then `set_data`. */
  method New(d: Document, s: seq<CodePoint>) returns (t: DomText)
    requires d.Valid()
    modifies d
    ensures d.Valid() && d.next == old(d.next) + 1
    ensures t.contents == s && !old(d.state).IsNode(t.textNode.node)
    ensures d.state == old(d.state).AddText(t.textNode.node).(data := old(d.state.data)[t.textNode.node := s])
    ensures InSync(d.state, Text(t))
  {
    var h := NewTextHandle(d);
    t := DomText([], h);
    t := SetData(d, t, s);
  }

  /** `DomText::set_data`: both the string and the node's data become `s`. */
  method SetData(d: Document, t: DomText, s: seq<CodePoint>) returns (t': DomText)
    requires d.Valid() && d.state.IsText(t.textNode.node)
    modifies d
    ensures d.Valid() && d.next == old(d.next)
    ensures t' == t.(contents := s)
    ensures d.state == old(d.state).(data := old(d.state.data)[t.textNode.node := s])
    ensures InSync(d.state, Text(t'))
  {
    t' := t.(contents := s);
    WebSupport.SetData(d, t.textNode, s);
  }

  /** `DomText::push_str`: `s` is appended to both the string and the node's data. */
  method PushStr(d: Document, t: DomText, s: seq<CodePoint>) returns (t': DomText)
    requires d.Valid() && d.state.IsText(t.textNode.node)
    modifies d
    ensures d.Valid() && d.next == old(d.next)
    ensures t' == t.(contents := t.contents + s)
    ensures d.state == old(d.state).(data := old(d.state.data)[t.textNode.node := old(d.state.data)[t.textNode.node] + s])
    ensures old(InSync(d.state, Text(t))) ==> InSync(d.state, Text(t'))
  {
    t' := t.(contents := t.contents + s);
    AppendData(d, t.textNode, s);
  }

  /**
   * `DomText::insert_at_char`. The string is changed first; then the UTF-16
   * offset is converted to u32, which can fail, and only then is the node's
   * data changed. The text node rejecting the offset is a panic, so the
   * offset must fall on a code point of the node's data when it fits.
   */
  method InsertAtChar(d: Document, t: DomText, k: nat, s: seq<CodePoint>)
    returns (t': DomText, r: Result<(), string>)
    requires d.Valid() && d.state.IsText(t.textNode.node)
    requires Utf16Offset(t.contents, k) < U32_LIMIT ==>
      Utf16ToCharIdx(d.state.data[t.textNode.node], Utf16Offset(t.contents, k)).Some?
    modifies d
    ensures d.Valid() && d.next == old(d.next)
    ensures t' == t.(contents := InsertAt(t.contents, Min(k, |t.contents|), s))
    ensures r.Ok? <==> Utf16Offset(t.contents, k) < U32_LIMIT
    ensures r.Ok? ==> d.state == old(d.state).(data := old(d.state.data)[t.textNode.node :=
      InsertAt(old(d.state.data)[t.textNode.node], Utf16ToCharIdx(old(d.state.data)[t.textNode.node], Utf16Offset(t.contents, k)).value, s)])
    ensures r.Err? ==> d.state == old(d.state)
    ensures r.Ok? && old(InSync(d.state, Text(t))) ==> InSync(d.state, Text(t'))
  {
    var n := t.textNode.node;
    var byteIdx := CharToByteIdx(t.contents, k);
    var utf16Idx := ByteToUtf16Idx(t.contents, byteIdx);
    t' := t.(contents := ShadowInsert(t.contents, k, s));
    if utf16Idx >= U32_LIMIT {
      return t', Err(OffsetOverflow);
    }
    InsertAtCharSamePosition(t.contents, k);
    WebSupport.InsertData(d, t.textNode, utf16Idx, s);
    r := Ok(());
  }

  /**
   * In sync, the precondition of `insert_at_char` always holds: the offset
   * computed from the string falls on a code point of the node's data.
   */
  lemma InSyncInsertAllowed(st: DomState, t: DomText, k: nat)
    requires InSync(st, Text(t))
    ensures Utf16ToCharIdx(st.data[t.textNode.node], Utf16Offset(t.contents, k)).Some?
  {
    InsertAtCharSamePosition(t.contents, k);
  }

  /**
   * On the error path the string has already grown while the node's data has
   * not, so a component that was in sync no longer is.
   */
  lemma InsertAtCharErrorDiverges(st: DomState, t: DomText, k: nat, s: seq<CodePoint>)
    requires InSync(st, Text(t)) && s != []
    ensures !InSync(st, Text(t.(contents := InsertAt(t.contents, Min(k, |t.contents|), s))))
  {
  }

  /** Inserting "X" at char 1 of "ab" gives "aXb"; past the end it appends. */
  lemma InsertAtCharExample()
    ensures ShadowInsert([0x61, 0x62], 1, [0x58]) == [0x61, 0x58, 0x62]
    ensures ShadowInsert([0x61, 0x62], 7, [0x58]) == [0x61, 0x62, 0x58]
    ensures Utf16Offset([0x1F600, 0x61], 1) == 2
  {
    assert InsertAt([0x61, 0x62], 1, [0x58]) == [0x61, 0x58, 0x62];
    assert Utf16Len([0x1F600]) == 2;
  }
}
