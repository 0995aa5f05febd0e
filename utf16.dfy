/**
 * The UTF-16 decoder of the codepoint sequence (_SBGetUTF16CodepointAt) and
 * the surrogate-pair encoding of section 2.1 of RFC 2781 as a ghost encoder.
 */
module Utf16 {
  import opened Unicode

  predicate IsHighSurrogate(u: int) {
    0xD800 <= u <= 0xDBFF
  }

  predicate IsLowSurrogate(u: int) {
    0xDC00 <= u <= 0xDFFF
  }

  /**
   * Decodes the scalar value whose first unit is s[i], as the source does:
   * a unit outside 0xD800-0xDFFF is the value itself (one unit); a high
   * surrogate followed by a low surrogate is combined (two units); anything
   * else is Faulty with a one-unit advance. The source combines the pair as
   * `(high << 10) + low - ((0xD800 << 10) + 0xDC00 - 0x10000)` in unsigned
   * 32-bit arithmetic, which never wraps for these operands.
   */
  function DecodeUtf16(s: seq<Unit16>, i: nat): (d: Step)
    requires i < |s|
    ensures 1 <= d.advance <= 2 && i + d.advance <= |s|
    ensures d.value != Invalid
    ensures d.value == Faulty ==> d.advance == 1
    ensures d.value.Scalar? ==> IsScalarValue(d.value.v)
    ensures d.advance == 2 ==> 0x10000 <= d.value.v <= 0x10FFFF
  {
    var lead: int := s[i];
    var remaining := |s| - i;
    if !(0xD800 <= lead <= 0xDFFF) then
      Step(Scalar(lead), 1)
    else if lead <= 0xDBFF then
      if remaining > 1 && IsLowSurrogate(s[i + 1]) then
        Step(Scalar(lead * 0x400 + s[i + 1] as int - (0xD800 * 0x400 + 0xDC00 - 0x10000)), 2)
      else
        Step(Faulty, 1)
    else
      Step(Faulty, 1)
  }

  /**
   * In the source's unsigned 32-bit arithmetic the pair formula does not
   * wrap: it is the RFC 2781 value of the pair.
   */
  lemma PairFormulaDoesNotWrap(h: bv32, l: bv32)
    requires 0xD800 <= h <= 0xDBFF && 0xDC00 <= l <= 0xDFFF
    ensures (h << 10) + l - ((0xD800 << 10) + 0xDC00 - 0x10000) == (h - 0xD800) * 0x400 + (l - 0xDC00) + 0x10000
    ensures 0x10000 <= (h << 10) + l - ((0xD800 << 10) + 0xDC00 - 0x10000) <= 0x10FFFF
  {
  }

  lemma PairToInt(h: bv32, l: bv32)
    requires 0xD800 <= h <= 0xDBFF && 0xDC00 <= l <= 0xDFFF
    ensures ((h - 0xD800) * 0x400 + (l - 0xDC00) + 0x10000) as int == (h as int - 0xD800) * 0x400 + (l as int - 0xDC00) + 0x10000
  {
  }

  /**
   * For a high and a low surrogate held as the source's 32-bit values,
   * DecodeUtf16 returns exactly the value of the source's pair formula.
   */
  lemma Utf16PairIsC(h: Unit16, l: Unit16, hb: bv32, lb: bv32)
    requires IsHighSurrogate(h) && IsLowSurrogate(l)
    requires hb as int == h && lb as int == l && 0xD800 <= hb <= 0xDBFF && 0xDC00 <= lb <= 0xDFFF
    ensures DecodeUtf16([h, l], 0) == Step(Scalar(((hb << 10) + lb - ((0xD800 << 10) + 0xDC00 - 0x10000)) as int), 2)
  {
    PairFormulaDoesNotWrap(hb, lb);
    PairToInt(hb, lb);
  }

  /** The UTF-16 form of a scalar value: itself, or a high and a low surrogate. */
  ghost function EncodeUtf16(v: int): (u: seq<Unit16>)
    requires IsScalarValue(v)
    ensures |u| == (if v < 0x10000 then 1 else 2)
    ensures |u| == 2 ==> IsHighSurrogate(u[0]) && IsLowSurrogate(u[1])
  {
    if v < 0x10000 then
      [v]
    else
      [0xD800 + (v - 0x10000) / 0x400, 0xDC00 + (v - 0x10000) % 0x400]
  }

  /** A surrogate pair decodes to the scalar value RFC 2781 assigns it. */
  lemma Utf16SurrogatePair(s: seq<Unit16>, i: nat)
    requires i + 1 < |s| && IsHighSurrogate(s[i]) && IsLowSurrogate(s[i + 1])
    ensures DecodeUtf16(s, i) == Step(Scalar((s[i] as int - 0xD800) * 0x400 + (s[i + 1] as int - 0xDC00) + 0x10000), 2)
  {
  }

  /**
   * A decode is Faulty exactly when the lead unit is a low surrogate, or a
   * high surrogate that is last or not followed by a low surrogate.
   */
  lemma Utf16FaultyExactly(s: seq<Unit16>, i: nat)
    requires i < |s|
    ensures DecodeUtf16(s, i).value == Faulty <==>
      IsLowSurrogate(s[i]) || (IsHighSurrogate(s[i]) && (i + 1 == |s| || !IsLowSurrogate(s[i + 1])))
  {
  }

  /** Every scalar value round-trips, with the advance equal to its encoded length. */
  lemma Utf16EncodeThenDecode(v: int)
    requires IsScalarValue(v)
    ensures DecodeUtf16(EncodeUtf16(v), 0) == Step(Scalar(v), |EncodeUtf16(v)|)
  {
    if v >= 0x10000 {
      var u := EncodeUtf16(v);
      var w := v - 0x10000;
      assert w == (w / 0x400) * 0x400 + w % 0x400;
      assert u[0] as int * 0x400 + u[1] as int - (0xD800 * 0x400 + 0xDC00 - 0x10000) == v;
    }
  }

  /** What the decoder accepts is exactly the encoding of the value it returns. */
  lemma Utf16DecodedIsEncoding(s: seq<Unit16>, i: nat)
    requires i < |s| && DecodeUtf16(s, i).value.Scalar?
    ensures var d := DecodeUtf16(s, i);
      s[i..i + d.advance] == EncodeUtf16(d.value.v)
  {
    var d := DecodeUtf16(s, i);
    if d.advance == 2 {
      var h: int, l: int := s[i] - 0xD800, s[i + 1] - 0xDC00;
      var w := h * 0x400 + l;
      assert d.value.v - 0x10000 == w;
      assert w / 0x400 == h && w % 0x400 == l;
      assert s[i..i + 2] == [s[i], s[i + 1]];
    }
  }
}
