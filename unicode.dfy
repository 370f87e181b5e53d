/**
 * Unicode scalar values and the index conversions a Rust `String` (UTF-8) and a
 * DOM string (UTF-16) need: the width of one code point in UTF-8 (RFC 3629,
 * section 3) and in UTF-16 (RFC 2781, section 2.1), the conversion from a char
 * index to a byte index (`str_indices::chars::to_byte_idx`), from a byte index
 * to a UTF-16 index (`str_indices::utf16::from_byte_idx`), and back from byte
 * and UTF-16 offsets to char positions.
 */
module Unicode {
  import opened Wrappers

  /** A Unicode scalar value: what a Rust `char` holds. */
  type CodePoint = c: int | 0 <= c < 0x11_0000 && !(0xD800 <= c < 0xE000)

  /** One more than the largest value a `u32` holds. */
  const U32_LIMIT: nat := 0x1_0000_0000

  function Min(a: nat, b: nat): nat { if a <= b then a else b }

  /** Bytes in the UTF-8 encoding of `c` (RFC 3629, section 3). */
  function Utf8Width(c: CodePoint): (w: nat)
    ensures 1 <= w <= 4
    ensures w == 1 <==> c < 0x80
  {
    if c < 0x80 then 1 else if c < 0x800 then 2 else if c < 0x1_0000 then 3 else 4
  }

  /** Code units in the UTF-16 encoding of `c` (RFC 2781, section 2.1): a surrogate pair above U+FFFF. */
  function Utf16Width(c: CodePoint): (w: nat)
    ensures w == 1 || w == 2
    ensures w == 2 <==> c >= 0x1_0000
  {
    if c < 0x1_0000 then 1 else 2
  }

  /** Length in bytes of the UTF-8 encoding of `s`. */
  function Utf8Len(s: seq<CodePoint>): (n: nat)
    ensures |s| <= n <= 4 * |s|
  {
    if s == [] then 0 else Utf8Width(s[0]) + Utf8Len(s[1..])
  }

  /** Length in code units of the UTF-16 encoding of `s`. */
  function Utf16Len(s: seq<CodePoint>): (n: nat)
    ensures |s| <= n <= 2 * |s|
  {
    if s == [] then 0 else Utf16Width(s[0]) + Utf16Len(s[1..])
  }

  /**
   * `str_indices::chars::to_byte_idx`: the byte index at which char `k` starts,
   * walking the string one char at a time; a char index past the end gives the
   * byte length of the string.
   */
  function CharToByteIdx(s: seq<CodePoint>, k: nat): nat
  {
    if k == 0 || s == [] then 0
    else Utf8Width(s[0]) + CharToByteIdx(s[1..], k - 1)
  }

  /** The byte index of char `k` is the UTF-8 length of the first `k` chars, all of them when `k` is past the end. */
  lemma {:induction false} CharToByteIdxIsPrefixLen(s: seq<CodePoint>, k: nat)
    ensures CharToByteIdx(s, k) == Utf8Len(s[..Min(k, |s|)])
    ensures k >= |s| ==> CharToByteIdx(s, k) == Utf8Len(s)
  {
    if k != 0 && s != [] {
      CharToByteIdxIsPrefixLen(s[1..], k - 1);
      assert s[..Min(k, |s|)] == [s[0]] + s[1..][..Min(k - 1, |s| - 1)];
    }
    assert s[..|s|] == s;
  }

  /**
   * `str_indices::utf16::from_byte_idx`: the number of UTF-16 code units before
   * the char that byte `b` belongs to; a byte index past the end gives the
   * UTF-16 length of the whole string.
   */
  function ByteToUtf16Idx(s: seq<CodePoint>, b: nat): (u: nat)
    ensures u <= Utf16Len(s)
  {
    if s == [] || b < Utf8Width(s[0]) then 0
    else Utf16Width(s[0]) + ByteToUtf16Idx(s[1..], b - Utf8Width(s[0]))
  }

  /**
   * The char position at which byte offset `b` lies, or None when `b` is not a
   * char boundary of `s` (inside a multi-byte char, or past the end); this is
   * the check `String::insert_str` makes before it inserts.
   */
  function ByteToCharIdx(s: seq<CodePoint>, b: nat): (r: Option<nat>)
    ensures r.Some? ==> r.value <= |s|
  {
    if b == 0 then Some(0)
    else if s == [] || b < Utf8Width(s[0]) then None
    else
      match ByteToCharIdx(s[1..], b - Utf8Width(s[0]))
      case Some(k) => Some(k + 1)
      case None => None
  }

  /**
   * The char position at which UTF-16 offset `u` lies, or None when `u` is past
   * the end of `s` or falls between the two halves of a surrogate pair.
   */
  function Utf16ToCharIdx(s: seq<CodePoint>, u: nat): (r: Option<nat>)
    ensures r.Some? ==> r.value <= |s|
  {
    if u == 0 then Some(0)
    else if s == [] || u < Utf16Width(s[0]) then None
    else
      match Utf16ToCharIdx(s[1..], u - Utf16Width(s[0]))
      case Some(k) => Some(k + 1)
      case None => None
  }

  /** `s` with `t` inserted before char position `k`. */
  function InsertAt<T>(s: seq<T>, k: nat, t: seq<T>): (r: seq<T>)
    requires k <= |s|
    ensures |r| == |s| + |t|
    ensures r[..k] == s[..k] && r[k..k + |t|] == t && r[k + |t|..] == s[k..]
  {
    s[..k] + t + s[k..]
  }

  /** The byte index of a char index is a char boundary, at the clamped char position. */
  lemma {:induction false} CharToByteRoundTrip(s: seq<CodePoint>, k: nat)
    ensures ByteToCharIdx(s, CharToByteIdx(s, k)) == Some(Min(k, |s|))
  {
    if k == 0 || s == [] {
    } else {
      CharToByteRoundTrip(s[1..], k - 1);
    }
  }

  /**
   * Converting char index `k` to a byte index and that to a UTF-16 index gives
   * the UTF-16 length of the first `k` chars (all of them when `k` is past the end).
   */
  lemma {:induction false} Utf16IdxOfCharIdx(s: seq<CodePoint>, k: nat)
    ensures ByteToUtf16Idx(s, CharToByteIdx(s, k)) == Utf16Len(s[..Min(k, |s|)])
  {
    if k == 0 || s == [] {
    } else {
      Utf16IdxOfCharIdx(s[1..], k - 1);
      assert s[..Min(k, |s|)] == [s[0]] + s[1..][..Min(k - 1, |s| - 1)];
    }
  }

  /** The UTF-16 length of a prefix is a UTF-16 offset that lands exactly after that prefix. */
  lemma {:induction false} Utf16ToCharIdxOfPrefix(s: seq<CodePoint>, k: nat)
    requires k <= |s|
    ensures Utf16ToCharIdx(s, Utf16Len(s[..k])) == Some(k)
  {
    if k == 0 {
    } else {
      assert s[..k] == [s[0]] + s[1..][..k - 1];
      Utf16ToCharIdxOfPrefix(s[1..], k - 1);
    }
  }

  /** A UTF-16 offset the DOM accepts never exceeds the UTF-16 length of the data. */
  lemma {:induction false} Utf16ToCharIdxBound(s: seq<CodePoint>, u: nat)
    requires Utf16ToCharIdx(s, u).Some?
    ensures u <= Utf16Len(s)
    ensures u == Utf16Len(s[..Utf16ToCharIdx(s, u).value])
  {
    if u != 0 {
      Utf16ToCharIdxBound(s[1..], u - Utf16Width(s[0]));
      var k := Utf16ToCharIdx(s, u).value;
      assert s[..k] == [s[0]] + s[1..][..k - 1];
    }
  }

  /**
   * An astral char takes four UTF-8 bytes and two UTF-16 units, so after it the
   * char, byte and UTF-16 indices all differ, and a UTF-16 offset between its
   * two units names no char.
   */
  lemma AstralCharOffsets(c: CodePoint, s: seq<CodePoint>)
    requires c >= 0x1_0000
    ensures Utf8Width(c) == 4 && Utf16Width(c) == 2
    ensures CharToByteIdx([c] + s, 1) == 4
    ensures ByteToUtf16Idx([c] + s, 4) == 2
    ensures Utf16ToCharIdx([c] + s, 1) == None
  {
    assert ([c] + s)[0] == c && ([c] + s)[1..] == s;
  }
}
