/**
 * The UTF-32 decoder of the codepoint sequence (_SBGetUTF32CodepointAt): a
 * unit is the scalar value itself when it lies in the range that section 3.9
 * of the Unicode Standard allows.
 */
module Utf32 {
  import opened Unicode

  /**
   * Decodes the unit s[i]: the unit itself when it is at most 0x10FFFF and
   * not a surrogate, Faulty otherwise; the cursor moves one unit either way.
   */
  function DecodeUtf32(s: seq<Unit32>, i: nat): (d: Step)
    requires i < |s|
    ensures d.advance == 1
    ensures d.value != Invalid
    ensures d.value.Scalar? ==> d.value.v == s[i]
  {
    var unit := s[i];
    if !(0xD800 <= unit <= 0xDFFF) && unit <= 0x10FFFF then Step(Scalar(unit), 1) else Step(Faulty, 1)
  }

  /** The UTF-32 form of a scalar value: the value as a single unit. */
  ghost function EncodeUtf32(v: int): (u: seq<Unit32>)
    requires IsScalarValue(v)
    ensures |u| == 1
  {
    [v]
  }

  /** A unit is accepted exactly when it is a scalar value. */
  lemma Utf32AcceptsExactlyScalars(s: seq<Unit32>, i: nat)
    requires i < |s|
    ensures DecodeUtf32(s, i) == if IsScalarValue(s[i]) then Step(Scalar(s[i]), 1) else Step(Faulty, 1)
  {
  }

  /** Every scalar value round-trips. */
  lemma Utf32EncodeThenDecode(v: int)
    requires IsScalarValue(v)
    ensures DecodeUtf32(EncodeUtf32(v), 0) == Step(Scalar(v), 1)
  {
  }
}
