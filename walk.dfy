/**
 * Walking a codepoint sequence: a caller starts a cursor at 0 and calls
 * SBCodepointSequenceGetCodepointAt until it returns Invalid. Because every
 * in-range decode moves the cursor by at least one unit, the walk ends, and
 * on the concatenated encodings of scalar values it gives those values back.
 */
module Walks {
  import opened Unicode
  import opened Sequences
  import Utf8
  import Utf16
  import Utf32

  /**
   * The results a walk from cursor i collects, up to (not including) the
   * Invalid that ends it: at least one and at most one per remaining unit.
   */
  function Walk(e: Encoding, units: seq<int>, i: nat): (cps: seq<Codepoint>)
    requires UnitsFit(e, units) && i <= |units|
    ensures |cps| <= |units| - i
    ensures i < |units| ==> |cps| >= 1
    decreases |units| - i
  {
    if i == |units| then
      []
    else
      var d := DecodeAt(e, units, i);
      [d.value] + Walk(e, units, i + d.advance)
  }

  /** A walk from a cursor before the end is the decode there, then the walk on. */
  lemma WalkUnfold(e: Encoding, units: seq<int>, i: nat)
    requires UnitsFit(e, units) && i < |units|
    ensures Walk(e, units, i) == [DecodeAt(e, units, i).value] + Walk(e, units, i + DecodeAt(e, units, i).advance)
  {
  }

  /** A decode that yields scalar v and advances n starts the walk with v. */
  lemma WalkScalarStep(e: Encoding, units: seq<int>, i: nat, v: int, n: nat)
    requires UnitsFit(e, units) && i < |units| && DecodeAt(e, units, i) == Step(Scalar(v), n)
    ensures i + n <= |units| && Walk(e, units, i) == [Scalar(v)] + Walk(e, units, i + n)
  {
    WalkUnfold(e, units, i);
  }

  /** A walk from the end of the buffer collects nothing. */
  lemma WalkAtEnd(e: Encoding, units: seq<int>, i: nat)
    requires UnitsFit(e, units) && i == |units|
    ensures Walk(e, units, i) == []
  {
  }

  /** No result of a walk is Invalid: only the end of the buffer stops it. */
  lemma {:induction false} WalkHasNoInvalid(e: Encoding, units: seq<int>, i: nat)
    requires UnitsFit(e, units) && i <= |units|
    ensures forall k :: 0 <= k < |Walk(e, units, i)| ==> Walk(e, units, i)[k] != Invalid
    decreases |units| - i
  {
    if i < |units| {
      WalkUnfold(e, units, i);
      WalkHasNoInvalid(e, units, i + DecodeAt(e, units, i).advance);
    }
  }

  /** Pieces of code units, one after the other. */
  function Concat(pieces: seq<seq<int>>): seq<int> {
    if pieces == [] then [] else pieces[0] + Concat(pieces[1..])
  }

  /** The decode results that stand for the values vs, in order. */
  function Scalars(vs: seq<int>): (cps: seq<Codepoint>)
    ensures |cps| == |vs| && forall k :: 0 <= k < |vs| ==> cps[k] == Scalar(vs[k])
  {
    if vs == [] then [] else [Scalar(vs[0])] + Scalars(vs[1..])
  }

  /**
   * Each piece decodes on its own to the matching value of vs, with the
   * advance of its length.
   */
  ghost predicate EachDecodesTo(e: Encoding, pieces: seq<seq<int>>, vs: seq<int>)
    decreases |pieces|
  {
    if pieces == [] || vs == [] then
      pieces == [] && vs == []
    else
      && 0 < |pieces[0]| && UnitsFit(e, pieces[0])
      && DecodeAt(e, pieces[0], 0) == Step(Scalar(vs[0]), |pieces[0]|)
      && EachDecodesTo(e, pieces[1..], vs[1..])
  }

  /**
   * An accepted decode reads only the units it consumes: wherever those
   * units stand in a buffer, whatever precedes and follows them, the decode
   * there is the same step.
   */
  lemma AcceptedReadsOnlyItsUnits(e: Encoding, s: seq<int>, i: nat, u: seq<int>)
    requires UnitsFit(e, s) && UnitsFit(e, u) && 0 < |u| && i + |u| <= |s| && s[i..i + |u|] == u
    requires DecodeAt(e, u, 0).value.Scalar? && DecodeAt(e, u, 0).advance == |u|
    ensures DecodeAt(e, s, i) == DecodeAt(e, u, 0)
  {
    assert forall k :: 0 <= k < |u| ==> s[i + k] == u[k];
    match e
    case UTF8 =>
      assert Utf8.DecodeUtf8(s, i) == Utf8.DecodeUtf8(u, 0);
    case UTF16 =>
      assert Utf16.DecodeUtf16(s, i) == Utf16.DecodeUtf16(u, 0);
    case UTF32 =>
  }

  /** Splitting the units from i on at the end of their first piece. */
  lemma SliceOfConcat(s: seq<int>, i: nat, pieces: seq<seq<int>>)
    requires pieces != [] && i <= |s| && s[i..] == Concat(pieces)
    ensures i + |pieces[0]| <= |s|
    ensures s[i..i + |pieces[0]|] == pieces[0]
    ensures s[i + |pieces[0]|..] == Concat(pieces[1..])
  {
    var u, rest := pieces[0], Concat(pieces[1..]);
    assert s[i..] == u + rest;
    assert s[i..i + |u|] == (u + rest)[..|u|];
    assert s[i + |u|..] == (u + rest)[|u|..];
  }

  /**
   * The first piece decodes, in place, to its value, and the walk goes on
   * at the start of the next piece.
   */
  lemma WalkFirstPiece(e: Encoding, s: seq<int>, i: nat, pieces: seq<seq<int>>, vs: seq<int>)
    requires UnitsFit(e, s) && i <= |s| && s[i..] == Concat(pieces) && EachDecodesTo(e, pieces, vs)
    requires pieces != []
    ensures i + |pieces[0]| <= |s| && s[i + |pieces[0]|..] == Concat(pieces[1..])
    ensures EachDecodesTo(e, pieces[1..], vs[1..])
    ensures Walk(e, s, i) == [Scalar(vs[0])] + Walk(e, s, i + |pieces[0]|)
  {
    var u := pieces[0];
    SliceOfConcat(s, i, pieces);
    assert DecodeAt(e, s, i) == Step(Scalar(vs[0]), |u|) by {
      AcceptedReadsOnlyItsUnits(e, s, i, u);
    }
    WalkScalarStep(e, s, i, vs[0], |u|);
  }

  /**
   * Walking, from cursor i, units that consist of pieces that each decode
   * on their own gives back their values, one decode per piece: decodes do
   * not interfere across piece boundaries.
   */
  lemma {:induction false} WalkConcat(e: Encoding, s: seq<int>, i: nat, pieces: seq<seq<int>>, vs: seq<int>)
    requires UnitsFit(e, s) && i <= |s| && s[i..] == Concat(pieces) && EachDecodesTo(e, pieces, vs)
    ensures Walk(e, s, i) == Scalars(vs)
    decreases |pieces|
  {
    if pieces == [] {
      WalkAtEnd(e, s, i);
    } else {
      WalkFirstPiece(e, s, i, pieces, vs);
      WalkConcat(e, s, i + |pieces[0]|, pieces[1..], vs[1..]);
    }
  }

  predicate AllScalars(vs: seq<int>) {
    forall k :: 0 <= k < |vs| ==> IsScalarValue(vs[k])
  }

  /** One scalar value in the encoding's code units. */
  ghost function EncodeScalar(e: Encoding, v: int): (u: seq<int>)
    requires IsScalarValue(v)
    ensures 1 <= |u| <= MaxUnits(e) && UnitsFit(e, u)
  {
    match e
    case UTF8 => Utf8.EncodeUtf8(v)
    case UTF16 => Utf16.EncodeUtf16(v)
    case UTF32 => Utf32.EncodeUtf32(v)
  }

  /** The encodings of scalar values, one piece per value. */
  ghost function Encodings(e: Encoding, vs: seq<int>): (pieces: seq<seq<int>>)
    requires AllScalars(vs)
    ensures |pieces| == |vs|
    ensures forall k :: 0 <= k < |vs| ==> pieces[k] == EncodeScalar(e, vs[k])
  {
    seq(|vs|, k requires 0 <= k < |vs| => EncodeScalar(e, vs[k]))
  }

  /** Scalar values in the encoding's code units, one after the other. */
  ghost function EncodeAll(e: Encoding, vs: seq<int>): (u: seq<int>)
    requires AllScalars(vs)
  {
    Concat(Encodings(e, vs))
  }

  /** Code units that each fit the encoding still fit once concatenated. */
  lemma {:induction false} ConcatFits(e: Encoding, pieces: seq<seq<int>>)
    requires forall k :: 0 <= k < |pieces| ==> UnitsFit(e, pieces[k])
    ensures UnitsFit(e, Concat(pieces))
    decreases |pieces|
  {
    if pieces != [] {
      ConcatFits(e, pieces[1..]);
      var u, rest := pieces[0], Concat(pieces[1..]);
      assert forall k :: 0 <= k < |u + rest| ==> (u + rest)[k] == if k < |u| then u[k] else rest[k - |u|];
    }
  }

  /** The encoding of v decodes, on its own, to v with the advance of its length. */
  ghost predicate RoundTrips(e: Encoding, v: int)
    requires IsScalarValue(v)
  {
    DecodeAt(e, EncodeScalar(e, v), 0) == Step(Scalar(v), |EncodeScalar(e, v)|)
  }

  /**
   * Which scalar values round-trip on their own: all of them in UTF-16 and
   * UTF-32, and those outside U+0400-U+0800 in UTF-8 as written.
   */
  lemma RoundTripsExactly(e: Encoding, v: int)
    requires IsScalarValue(v)
    ensures RoundTrips(e, v) <==> e != UTF8 || !(0x400 <= v <= 0x800)
  {
    match e
    case UTF8 => Utf8.Utf8RoundTripsExactly(v);
    case UTF16 => Utf16.Utf16EncodeThenDecode(v);
    case UTF32 => Utf32.Utf32EncodeThenDecode(v);
  }

  /** Encodings of values that each round-trip decode, piece by piece, to those values. */
  lemma {:induction false} EncodingsDecode(e: Encoding, vs: seq<int>)
    requires AllScalars(vs) && forall k :: 0 <= k < |vs| ==> RoundTrips(e, vs[k])
    ensures EachDecodesTo(e, Encodings(e, vs), vs)
    decreases |vs|
  {
    if vs != [] {
      assert RoundTrips(e, vs[0]);
      assert Encodings(e, vs)[1..] == Encodings(e, vs[1..]);
      EncodingsDecode(e, vs[1..]);
    }
  }

  /**
   * Walking the concatenated encodings of scalar values gives back exactly
   * those values, one decode per value; in UTF-8 as written this holds
   * provided none lies in U+0400-U+0800.
   */
  lemma WalkRoundTrip(e: Encoding, vs: seq<int>)
    requires AllScalars(vs)
    requires e == UTF8 ==> forall k :: 0 <= k < |vs| ==> !(0x400 <= vs[k] <= 0x800)
    ensures UnitsFit(e, EncodeAll(e, vs))
    ensures Walk(e, EncodeAll(e, vs), 0) == Scalars(vs)
  {
    forall k | 0 <= k < |vs|
      ensures RoundTrips(e, vs[k])
    {
      RoundTripsExactly(e, vs[k]);
    }
    EncodingsDecode(e, vs);
    ConcatFits(e, Encodings(e, vs));
    WalkConcat(e, EncodeAll(e, vs), 0, Encodings(e, vs), vs);
  }
}
