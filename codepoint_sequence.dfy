/**
 * The codepoint-sequence handle (SBCodepointSequence): an encoding tag, a
 * borrowed buffer of code units and its length, with a reference count, and
 * the query that decodes the scalar value at a cursor and moves the cursor.
 */
module Sequences {
  import opened Unicode
  import Utf8
  import Utf16
  import Utf32

  datatype Option<T> = None | Some(value: T)

  /** The most code units one decode of the encoding can consume. */
  function MaxUnits(e: Encoding): nat {
    match e
    case UTF8 => 4
    case UTF16 => 2
    case UTF32 => 1
  }

  /**
   * The dispatch of SBCodepointSequenceGetCodepointAt on the encoding tag,
   * for a cursor already known to be in range: the untyped buffer is read as
   * units of the encoding's width and handed to that encoding's decoder.
   */
  function DecodeAt(e: Encoding, units: seq<int>, i: nat): (d: Step)
    requires UnitsFit(e, units) && i < |units|
    ensures 1 <= d.advance <= MaxUnits(e) && i + d.advance <= |units|
    ensures d.value != Invalid
    ensures d.value == Faulty ==> d.advance == 1
    ensures d.value.Scalar? ==> IsScalarValue(d.value.v)
  {
    match e
    case UTF8 => Utf8.DecodeUtf8(units, i)
    case UTF16 => Utf16.DecodeUtf16(units, i)
    case UTF32 => Utf32.DecodeUtf32(units, i)
  }

  /** How many units from i on one decode of the encoding may look at. */
  function WindowEnd(e: Encoding, units: seq<int>, i: nat): nat {
    if i + MaxUnits(e) <= |units| then i + MaxUnits(e) else |units|
  }

  lemma Utf8ReadsOnlyWindow(s: seq<Byte>, t: seq<Byte>, i: nat)
    requires i < |s| && i < |t| && WindowEnd(UTF8, s, i) == WindowEnd(UTF8, t, i)
    requires forall k :: i <= k < WindowEnd(UTF8, s, i) ==> s[k] == t[k]
    ensures Utf8.DecodeUtf8(s, i) == Utf8.DecodeUtf8(t, i)
  {
  }

  /** The corrected UTF-8 decoder reads the same window as the one it repairs. */
  lemma Utf8CorrectedReadsOnlyWindow(s: seq<Byte>, t: seq<Byte>, i: nat)
    requires i < |s| && i < |t| && WindowEnd(UTF8, s, i) == WindowEnd(UTF8, t, i)
    requires forall k :: i <= k < WindowEnd(UTF8, s, i) ==> s[k] == t[k]
    ensures Utf8.DecodeUtf8Corrected(s, i) == Utf8.DecodeUtf8Corrected(t, i)
  {
  }

  lemma Utf16ReadsOnlyWindow(s: seq<Unit16>, t: seq<Unit16>, i: nat)
    requires i < |s| && i < |t| && WindowEnd(UTF16, s, i) == WindowEnd(UTF16, t, i)
    requires forall k :: i <= k < WindowEnd(UTF16, s, i) ==> s[k] == t[k]
    ensures Utf16.DecodeUtf16(s, i) == Utf16.DecodeUtf16(t, i)
  {
  }

  /**
   * A decode reads nothing but the units in its window: at most four (two,
   * one) units from the cursor on, and none at or past the length. Two
   * buffers that agree there decode alike.
   */
  lemma DecodeReadsOnlyWindow(e: Encoding, s: seq<int>, t: seq<int>, i: nat)
    requires UnitsFit(e, s) && UnitsFit(e, t) && i < |s| && i < |t|
    requires s[i..WindowEnd(e, s, i)] == t[i..WindowEnd(e, t, i)]
    ensures DecodeAt(e, s, i) == DecodeAt(e, t, i)
  {
    var n := WindowEnd(e, s, i);
    assert n == WindowEnd(e, t, i) by {
      assert |s[i..n]| == n - i;
    }
    assert forall k :: i <= k < n ==> s[k] == s[i..n][k - i] == t[k];
    match e
    case UTF8 => Utf8ReadsOnlyWindow(s, t, i);
    case UTF16 => Utf16ReadsOnlyWindow(s, t, i);
    case UTF32 =>
  }

  /**
   * SBCodepointSequenceGetCodepointAt on values: with no cursor, or a cursor
   * at or past the end, the result is Invalid and the cursor is unchanged;
   * otherwise the result is never Invalid and the cursor moves forward by
   * one to MaxUnits units without passing the end, and by exactly one unit
   * when the result is Faulty.
   */
  function CodepointAt(e: Encoding, units: seq<int>, cursor: Option<nat>): (r: (Codepoint, Option<nat>))
    requires UnitsFit(e, units)
    ensures cursor.None? ==> r == (Invalid, None)
    ensures cursor.Some? && cursor.value >= |units| ==> r == (Invalid, cursor)
    ensures cursor.Some? && cursor.value < |units| ==>
      && r.0 != Invalid
      && r.1.Some? && cursor.value < r.1.value <= |units|
      && r.1.value <= cursor.value + MaxUnits(e)
      && (r.0 == Faulty ==> r.1.value == cursor.value + 1)
  {
    match cursor
    case None => (Invalid, None)
    case Some(i) =>
      if i < |units| then
        var d := DecodeAt(e, units, i);
        (d.value, Some(i + d.advance))
      else
        (Invalid, cursor)
  }

  /** The caller's cursor variable, updated in place through a pointer in the source. */
  class Cursor {
    var index: nat

    constructor (index: nat)
      ensures this.index == index
    {
      this.index := index;
    }
  }

  /**
   * A live handle. `buffer` is the caller's text, borrowed and never freed
   * by the handle; `length` is the number of code units of it in use;
   * `freed` records that the handle's own storage was released.
   */
  class CodepointSequence {
    const encoding: Encoding
    const buffer: seq<int>
    const length: nat
    var retainCount: nat
    ghost var freed: bool

    ghost predicate Valid()
      reads this
    {
      !freed && 0 < length <= |buffer| && UnitsFit(encoding, buffer) && retainCount >= 1
    }

    /** The code units the handle decodes: the first `length` units of the buffer. */
    function Units(): seq<int>
      reads this
      requires length <= |buffer|
    {
      buffer[..length]
    }

    constructor Init(encoding: Encoding, buffer: seq<int>, length: nat)
      requires 0 < length <= |buffer| && UnitsFit(encoding, buffer)
      ensures Valid()
      ensures this.encoding == encoding && this.buffer == buffer && this.length == length
      ensures retainCount == 1
    {
      this.encoding := encoding;
      this.buffer := buffer;
      this.length := length;
      retainCount := 1;
      freed := false;
    }

    /**
     * SBCodepointSequenceCreateWithEncoding: no handle for an absent buffer
     * or a zero length; otherwise a new handle holding the encoding, the
     * buffer and the length, with one reference.
     */
    static method CreateWithEncoding(encoding: Encoding, buffer: Option<seq<int>>, length: nat)
      returns (h: CodepointSequence?)
      requires buffer.Some? ==> length <= |buffer.value| && UnitsFit(encoding, buffer.value)
      ensures h == null <==> buffer.None? || length == 0
      ensures h != null ==> fresh(h) && h.Valid() && h.retainCount == 1
      ensures h != null ==> h.encoding == encoding && h.buffer == buffer.value && h.length == length
    {
      h := null;
      if buffer.Some? && length > 0 {
        h := new CodepointSequence.Init(encoding, buffer.value, length);
      }
    }

    /** SBCodepointSequenceCreateWithUTF8String. */
    static method CreateWithUTF8String(s: Option<seq<Byte>>, length: nat) returns (h: CodepointSequence?)
      requires s.Some? ==> length <= |s.value|
      ensures h == null <==> s.None? || length == 0
      ensures h != null ==> fresh(h) && h.Valid() && h.retainCount == 1
      ensures h != null ==> h.encoding == UTF8 && h.buffer == s.value && h.length == length
    {
      h := CreateWithEncoding(UTF8, if s.Some? then Some(s.value) else None, length);
    }

    /** SBCodepointSequenceCreateWithUTF16String. */
    static method CreateWithUTF16String(s: Option<seq<Unit16>>, length: nat) returns (h: CodepointSequence?)
      requires s.Some? ==> length <= |s.value|
      ensures h == null <==> s.None? || length == 0
      ensures h != null ==> fresh(h) && h.Valid() && h.retainCount == 1
      ensures h != null ==> h.encoding == UTF16 && h.buffer == s.value && h.length == length
    {
      h := CreateWithEncoding(UTF16, if s.Some? then Some(s.value) else None, length);
    }

    /** SBCodepointSequenceCreateWithUTF32String. */
    static method CreateWithUTF32String(s: Option<seq<Unit32>>, length: nat) returns (h: CodepointSequence?)
      requires s.Some? ==> length <= |s.value|
      ensures h == null <==> s.None? || length == 0
      ensures h != null ==> fresh(h) && h.Valid() && h.retainCount == 1
      ensures h != null ==> h.encoding == UTF32 && h.buffer == s.value && h.length == length
    {
      h := CreateWithEncoding(UTF32, if s.Some? then Some(s.value) else None, length);
    }

    /**
     * SBCodepointSequenceGetCodepointAt: decodes at the cursor and moves the
     * cursor in place, exactly as CodepointAt says; an absent cursor gives
     * Invalid.
     */
    method GetCodepointAt(cursor: Cursor?) returns (cp: Codepoint)
      requires Valid()
      modifies cursor
      ensures cursor == null ==> cp == Invalid
      ensures cursor != null ==>
        (cp, Some(cursor.index)) == CodepointAt(encoding, Units(), Some(old(cursor.index)))
    {
      cp := Invalid;
      if cursor != null && cursor.index < length {
        var step := DecodeAt(encoding, buffer[..length], cursor.index);
        cp := step.value;
        cursor.index := cursor.index + step.advance;
      }
    }

    /** SBCodepointSequenceRetain: one more reference; the same handle comes back. */
    static method Retain(h: CodepointSequence?) returns (r: CodepointSequence?)
      requires h != null ==> h.Valid()
      modifies h
      ensures r == h
      ensures h != null ==> h.Valid() && h.retainCount == old(h.retainCount) + 1
    {
      if h != null {
        h.retainCount := h.retainCount + 1;
      }
      r := h;
    }

    /**
     * SBCodepointSequenceRelease: one reference fewer; the handle is freed
     * exactly when none is left. The borrowed buffer is left alone.
     */
    static method Release(h: CodepointSequence?)
      requires h != null ==> h.Valid()
      modifies h
      ensures h != null ==> h.retainCount == old(h.retainCount) - 1
      ensures h != null ==> (h.freed <==> h.retainCount == 0)
      ensures h != null && !h.freed ==> h.Valid()
    {
      if h != null {
        h.retainCount := h.retainCount - 1;
        if h.retainCount == 0 {
          h.freed := true;
        }
      }
    }

    /**
     * A handle created with one reference, retained n times and then
     * released m times: it stays alive with n + 1 - m references while
     * m <= n, and release n + 1 frees it.
     */
    static method RetainsThenReleases(h: CodepointSequence, n: nat, m: nat)
      requires h.Valid() && h.retainCount == 1 && m <= n + 1
      modifies h
      ensures h.freed <==> m == n + 1
      ensures !h.freed ==> h.Valid() && h.retainCount == n + 1 - m
    {
      var k := 0;
      while k < n
        invariant 0 <= k <= n
        invariant h.Valid() && h.retainCount == 1 + k
      {
        var same := Retain(h);
        k := k + 1;
      }
      k := 0;
      while k < m
        invariant 0 <= k <= m
        invariant k <= n ==> h.Valid() && h.retainCount == 1 + n - k
        invariant k == n + 1 ==> h.freed
      {
        Release(h);
        k := k + 1;
      }
    }
  }

  /**
   * Clients of the handle: the decodes, the absent buffer and the reference
   * counting of a few concrete inputs, from the contracts alone.
   */
  method ScenarioCreation() {
    var none := CodepointSequence.CreateWithUTF8String(None, 0);
    assert none == null;
    var empty := CodepointSequence.CreateWithUTF16String(Some([]), 0);
    assert empty == null;
    var zero := CodepointSequence.CreateWithUTF32String(Some([0x41]), 0);
    assert zero == null;
  }

  method ScenarioUtf8() {
    var euro := CodepointSequence.CreateWithUTF8String(Some([0xE2, 0x82, 0xAC]), 3);
    var cursor := new Cursor(0);
    assert euro.Units() == [0xE2, 0x82, 0xAC];
    var cp := euro.GetCodepointAt(cursor);
    assert cp == Scalar(0x20AC) && cursor.index == 3;
    cp := euro.GetCodepointAt(cursor);
    assert cp == Invalid && cursor.index == 3;

    var overlong := CodepointSequence.CreateWithUTF8String(Some([0xC0, 0x80]), 2);
    cursor.index := 0;
    assert overlong.Units() == [0xC0, 0x80];
    cp := overlong.GetCodepointAt(cursor);
    assert cp == Faulty && cursor.index == 1;
  }

  method ScenarioUtf16() {
    var smiley := CodepointSequence.CreateWithUTF16String(Some([0xD83D, 0xDE00]), 2);
    var cursor := new Cursor(0);
    assert smiley.Units() == [0xD83D, 0xDE00];
    var cp := smiley.GetCodepointAt(cursor);
    assert cp == Scalar(0x1F600) && cursor.index == 2;
  }

  method ScenarioUtf32() {
    var beyond := CodepointSequence.CreateWithUTF32String(Some([0x110000]), 1);
    var cursor := new Cursor(0);
    assert beyond.Units() == [0x110000];
    var cp := beyond.GetCodepointAt(cursor);
    assert cp == Faulty && cursor.index == 1;
    cp := beyond.GetCodepointAt(null);
    assert cp == Invalid;

    var same := CodepointSequence.Retain(beyond);
    assert same == beyond && beyond.retainCount == 2;
    CodepointSequence.Release(beyond);
    assert !beyond.freed;
    CodepointSequence.Release(beyond);
    assert beyond.freed;
  }
}
