/**
 * The UTF-8 decoder of the codepoint sequence (_SBGetUTF8CodepointAt), the
 * byte table of section 3 of RFC 3629 as a ghost encoder, and what the
 * decoder does with that table's output.
 *
 * The C code works on unsigned integers with masks, shifts and ORs. Here a
 * mask `x & 0xF` of a byte is `x % 0x10`, and the shifted payload fields that
 * the code ORs together never overlap (each continuation payload is below
 * 0x40), so their OR is their sum.
 */
module Utf8 {
  import opened Unicode

  /**
   * The payload of a continuation byte as the source computes it: the byte
   * minus 0x80, kept in an unsigned 32-bit SBCodepoint, so that a byte below
   * 0x80 wraps around to a value far above 0x3F. The byte is accepted as a
   * continuation byte exactly when the payload is at most 0x3F.
   */
  function ContinuationPayload(b: Byte): (p: int)
    ensures p <= 0x3F <==> 0x80 <= b <= 0xBF
    ensures p <= 0x3F ==> p == b - 0x80
  {
    (b - 0x80) % 0x1_0000_0000
  }

  /** A continuation byte, 10xxxxxx. */
  predicate IsContinuation(b: Byte) {
    0x80 <= b <= 0xBF
  }

  /**
   * Decodes the scalar value whose lead byte is s[i], as the source does:
   *   0x00-0x7F  the byte itself, one byte;
   *   0xC2-0xDF  with one continuation byte: ((lead & 0xF) << 6) | payload,
   *              two bytes (the mask is 0xF, not 0x1F: see Utf8MaskDropsBit10);
   *   0xE0-0xEF  with two continuation bytes, when the composed value is
   *              above 0x0800 and not a surrogate, three bytes;
   *   0xF0-0xF4  with three continuation bytes, when the composed value lies
   *              in [0x10000, 0x10FFFF], four bytes;
   * and Faulty with a one-byte advance in every other case. `|s| - i` is the
   * source's `remaining`, so a continuation byte is read only below |s|.
   */
  function DecodeUtf8(s: seq<Byte>, i: nat): (d: Step)
    requires i < |s|
    ensures 1 <= d.advance <= 4 && i + d.advance <= |s|
    ensures d.value != Invalid
    ensures d.value == Faulty ==> d.advance == 1
    ensures d.value.Scalar? ==> IsScalarValue(d.value.v)
  {
    var lead := s[i];
    var remaining := |s| - i;
    if lead < 0x80 then
      Step(Scalar(lead), 1)
    else if 0xC2 <= lead <= 0xDF then
      if remaining > 1 && ContinuationPayload(s[i + 1]) <= 0x3F then
        Step(Scalar((lead % 0x10) * 0x40 + ContinuationPayload(s[i + 1])), 2)
      else
        Step(Faulty, 1)
    else if 0xE0 <= lead <= 0xEF then
      if remaining > 2 && ContinuationPayload(s[i + 1]) <= 0x3F && ContinuationPayload(s[i + 2]) <= 0x3F then
        var cp := (lead % 0x10) * 0x1000 + ContinuationPayload(s[i + 1]) * 0x40 + ContinuationPayload(s[i + 2]);
        if cp > 0x0800 && !(0xD800 <= cp <= 0xDFFF) then Step(Scalar(cp), 3) else Step(Faulty, 1)
      else
        Step(Faulty, 1)
    else if 0xF0 <= lead <= 0xF4 then
      if remaining > 3 && ContinuationPayload(s[i + 1]) <= 0x3F && ContinuationPayload(s[i + 2]) <= 0x3F
        && ContinuationPayload(s[i + 3]) <= 0x3F
      then
        var cp := (lead % 0x8) * 0x40000 + ContinuationPayload(s[i + 1]) * 0x1000
          + ContinuationPayload(s[i + 2]) * 0x40 + ContinuationPayload(s[i + 3]);
        if 0x10000 <= cp <= 0x10FFFF then Step(Scalar(cp), 4) else Step(Faulty, 1)
      else
        Step(Faulty, 1)
    else
      Step(Faulty, 1)
  }

  /**
   * The decoder with the two deviations from RFC 3629 repaired: the 2-byte
   * lead is masked with 0x1F, and the 3-byte form accepts values from 0x0800
   * on. Everything else is as in DecodeUtf8.
   */
  function DecodeUtf8Corrected(s: seq<Byte>, i: nat): (d: Step)
    requires i < |s|
    ensures 1 <= d.advance <= 4 && i + d.advance <= |s|
    ensures d.value != Invalid
    ensures d.value == Faulty ==> d.advance == 1
    ensures d.value.Scalar? ==> IsScalarValue(d.value.v)
  {
    var lead := s[i];
    var remaining := |s| - i;
    if lead < 0x80 then
      Step(Scalar(lead), 1)
    else if 0xC2 <= lead <= 0xDF then
      if remaining > 1 && ContinuationPayload(s[i + 1]) <= 0x3F then
        Step(Scalar((lead % 0x20) * 0x40 + ContinuationPayload(s[i + 1])), 2)
      else
        Step(Faulty, 1)
    else if 0xE0 <= lead <= 0xEF then
      if remaining > 2 && ContinuationPayload(s[i + 1]) <= 0x3F && ContinuationPayload(s[i + 2]) <= 0x3F then
        var cp := (lead % 0x10) * 0x1000 + ContinuationPayload(s[i + 1]) * 0x40 + ContinuationPayload(s[i + 2]);
        if cp >= 0x0800 && !(0xD800 <= cp <= 0xDFFF) then Step(Scalar(cp), 3) else Step(Faulty, 1)
      else
        Step(Faulty, 1)
    else if 0xF0 <= lead <= 0xF4 then
      if remaining > 3 && ContinuationPayload(s[i + 1]) <= 0x3F && ContinuationPayload(s[i + 2]) <= 0x3F
        && ContinuationPayload(s[i + 3]) <= 0x3F
      then
        var cp := (lead % 0x8) * 0x40000 + ContinuationPayload(s[i + 1]) * 0x1000
          + ContinuationPayload(s[i + 2]) * 0x40 + ContinuationPayload(s[i + 3]);
        if 0x10000 <= cp <= 0x10FFFF then Step(Scalar(cp), 4) else Step(Faulty, 1)
      else
        Step(Faulty, 1)
    else
      Step(Faulty, 1)
  }

  /**
   * The shortest UTF-8 form of a scalar value (section 3 of RFC 3629):
   * 0xxxxxxx, 110xxxxx 10xxxxxx, 1110xxxx 10xxxxxx 10xxxxxx or
   * 11110xxx 10xxxxxx 10xxxxxx 10xxxxxx.
   */
  ghost function EncodeUtf8(v: int): (b: seq<Byte>)
    requires IsScalarValue(v)
    ensures 1 <= |b| <= 4
    ensures |b| == 1 <==> v < 0x80
    ensures forall k :: 1 <= k < |b| ==> IsContinuation(b[k])
  {
    if v < 0x80 then
      [v]
    else if v < 0x800 then
      [0xC0 + v / 0x40, 0x80 + v % 0x40]
    else if v < 0x10000 then
      [0xE0 + v / 0x1000, 0x80 + (v / 0x40) % 0x40, 0x80 + v % 0x40]
    else
      [0xF0 + v / 0x40000, 0x80 + (v / 0x1000) % 0x40, 0x80 + (v / 0x40) % 0x40, 0x80 + v % 0x40]
  }

  /**
   * The source computes on 32-bit unsigned SBCodepoint values. For the
   * operands the decoder meets, its masks are remainders and its shifted
   * fields OR-ed together are sums, which is how DecodeUtf8 writes them.
   */
  lemma MaskIsRemainder(x: bv32)
    requires x < 0x100
    ensures x & 0xF == x % 0x10 && x & 0x1F == x % 0x20 && x & 0x7 == x % 0x8
  {
  }

  lemma ShiftOrIsSum2(a: bv32, p: bv32)
    requires a < 0x20 && p < 0x40
    ensures (a << 6) | p == a * 0x40 + p
  {
  }

  lemma ShiftOrIsSum3(a: bv32, m: bv32, p: bv32)
    requires a < 0x10 && m < 0x40 && p < 0x40
    ensures (a << 12) | (m << 6) | p == a * 0x1000 + m * 0x40 + p
  {
  }

  lemma ShiftOrIsSum4(a: bv32, m: bv32, n: bv32, p: bv32)
    requires a < 0x8 && m < 0x40 && n < 0x40 && p < 0x40
    ensures (a << 18) | (m << 12) | (n << 6) | p == a * 0x40000 + m * 0x1000 + n * 0x40 + p
  {
  }

  // From the source's 32-bit values to the decoder's integers

  lemma MaskToInt(x: bv32)
    requires x < 0x100
    ensures (x & 0xF) as int == x as int % 0x10
  {
  }

  lemma MaskToInt8(x: bv32)
    requires x < 0x100
    ensures (x & 0x7) as int == x as int % 0x8
  {
  }

  lemma PayloadToInt(x: bv32)
    requires 0x80 <= x < 0x100
    ensures (x - 0x80) as int == x as int - 0x80
  {
  }

  lemma SumToInt2(a: bv32, p: bv32)
    requires a < 0x40 && p < 0x40
    ensures (a * 0x40 + p) as int == a as int * 0x40 + p as int
  {
  }

  lemma SumToInt3(a: bv32, m: bv32, p: bv32)
    requires a < 0x10 && m < 0x40 && p < 0x40
    ensures (a * 0x1000 + m * 0x40 + p) as int == a as int * 0x1000 + m as int * 0x40 + p as int
  {
  }

  lemma HighLowToInt(hi: bv32, lo: bv32)
    requires hi < 0x200 && lo < 0x1000
    ensures (hi * 0x1000 + lo) as int == hi as int * 0x1000 + lo as int
  {
  }

  lemma SumToInt4(a: bv32, m: bv32, n: bv32, p: bv32)
    requires a < 0x8 && m < 0x40 && n < 0x40 && p < 0x40
    ensures (a * 0x40000 + m * 0x1000 + n * 0x40 + p) as int
      == a as int * 0x40000 + m as int * 0x1000 + n as int * 0x40 + p as int
  {
    var hi, lo := a * 0x40 + m, n * 0x40 + p;
    assert a * 0x40000 + m * 0x1000 + n * 0x40 + p == hi * 0x1000 + lo;
    SumToInt2(a, m);
    SumToInt2(n, p);
    HighLowToInt(hi, lo);
  }

  // Each branch's 32-bit expression, for bytes lead.. held as l.., as an integer

  lemma TwoByteExprToInt(l: Byte, c: Byte, lead: bv32, cont: bv32)
    requires lead as int == l && cont as int == c && 0xC2 <= lead <= 0xDF && 0x80 <= cont <= 0xBF
    ensures (((lead & 0xF) << 6) | (cont - 0x80)) as int == (l % 0x10) * 0x40 + (c - 0x80)
  {
    ShiftOrIsSum2(lead & 0xF, cont - 0x80);
    SumToInt2(lead & 0xF, cont - 0x80);
    MaskToInt(lead);
    PayloadToInt(cont);
  }

  lemma ThreeByteExprToInt(l: Byte, m: Byte, c: Byte, lead: bv32, mid: bv32, cont: bv32)
    requires lead as int == l && mid as int == m && cont as int == c
    requires 0xE0 <= lead <= 0xEF && 0x80 <= mid <= 0xBF && 0x80 <= cont <= 0xBF
    ensures (((lead & 0xF) << 12) | ((mid - 0x80) << 6) | (cont - 0x80)) as int
      == (l % 0x10) * 0x1000 + (m - 0x80) * 0x40 + (c - 0x80)
  {
    ShiftOrIsSum3(lead & 0xF, mid - 0x80, cont - 0x80);
    SumToInt3(lead & 0xF, mid - 0x80, cont - 0x80);
    MaskToInt(lead);
    PayloadToInt(mid);
    PayloadToInt(cont);
  }

  lemma FourByteExprToInt(l: Byte, m: Byte, n: Byte, c: Byte, lead: bv32, mid: bv32, next: bv32, cont: bv32)
    requires lead as int == l && mid as int == m && next as int == n && cont as int == c
    requires 0xF0 <= lead <= 0xF4 && 0x80 <= mid <= 0xBF && 0x80 <= next <= 0xBF && 0x80 <= cont <= 0xBF
    ensures (((lead & 0x7) << 18) | ((mid - 0x80) << 12) | ((next - 0x80) << 6) | (cont - 0x80)) as int
      == (l % 0x8) * 0x40000 + (m - 0x80) * 0x1000 + (n - 0x80) * 0x40 + (c - 0x80)
  {
    ShiftOrIsSum4(lead & 0x7, mid - 0x80, next - 0x80, cont - 0x80);
    SumToInt4(lead & 0x7, mid - 0x80, next - 0x80, cont - 0x80);
    MaskToInt8(lead);
    PayloadToInt(mid);
    PayloadToInt(next);
    PayloadToInt(cont);
  }

  // Each branch's result, for the integer x its expression computes

  lemma TwoByteDecode(l: Byte, c: Byte, x: int)
    requires 0xC2 <= l <= 0xDF && 0x80 <= c <= 0xBF && x == (l % 0x10) * 0x40 + (c - 0x80)
    ensures DecodeUtf8([l, c], 0) == Step(Scalar(x), 2)
  {
  }

  lemma ThreeByteDecode(l: Byte, m: Byte, c: Byte, x: int)
    requires 0xE0 <= l <= 0xEF && 0x80 <= m <= 0xBF && 0x80 <= c <= 0xBF
    requires x == (l % 0x10) * 0x1000 + (m - 0x80) * 0x40 + (c - 0x80)
    ensures DecodeUtf8([l, m, c], 0) == if x > 0x0800 && !(0xD800 <= x <= 0xDFFF) then Step(Scalar(x), 3) else Step(Faulty, 1)
  {
  }

  lemma FourByteDecode(l: Byte, m: Byte, n: Byte, c: Byte, x: int)
    requires 0xF0 <= l <= 0xF4 && 0x80 <= m <= 0xBF && 0x80 <= n <= 0xBF && 0x80 <= c <= 0xBF
    requires x == (l % 0x8) * 0x40000 + (m - 0x80) * 0x1000 + (n - 0x80) * 0x40 + (c - 0x80)
    ensures DecodeUtf8([l, m, n, c], 0) == if 0x10000 <= x <= 0x10FFFF then Step(Scalar(x), 4) else Step(Faulty, 1)
  {
  }

  /**
   * The 2-byte branch: for bytes l, c held as the source's 32-bit values
   * lead, cont, DecodeUtf8 returns exactly the value the source's
   * mask-shift-OR expression computes.
   */
  lemma Utf8TwoByteBranchIsC(l: Byte, c: Byte, lead: bv32, cont: bv32)
    requires 0xC2 <= l <= 0xDF && 0x80 <= c <= 0xBF
    requires lead as int == l && cont as int == c && 0xC2 <= lead <= 0xDF && 0x80 <= cont <= 0xBF
    ensures DecodeUtf8([l, c], 0) == Step(Scalar((((lead & 0xF) << 6) | (cont - 0x80)) as int), 2)
  {
    TwoByteExprToInt(l, c, lead, cont);
    TwoByteDecode(l, c, (((lead & 0xF) << 6) | (cont - 0x80)) as int);
  }

  /**
   * The 3-byte branch: DecodeUtf8 accepts exactly when the source's
   * expression is above 0x0800 and not a surrogate, and then returns it.
   */
  lemma Utf8ThreeByteBranchIsC(l: Byte, m: Byte, c: Byte, lead: bv32, mid: bv32, cont: bv32)
    requires 0xE0 <= l <= 0xEF && 0x80 <= m <= 0xBF && 0x80 <= c <= 0xBF
    requires lead as int == l && mid as int == m && cont as int == c
    requires 0xE0 <= lead <= 0xEF && 0x80 <= mid <= 0xBF && 0x80 <= cont <= 0xBF
    ensures var x := (((lead & 0xF) << 12) | ((mid - 0x80) << 6) | (cont - 0x80)) as int;
      DecodeUtf8([l, m, c], 0) == if x > 0x0800 && !(0xD800 <= x <= 0xDFFF) then Step(Scalar(x), 3) else Step(Faulty, 1)
  {
    ThreeByteExprToInt(l, m, c, lead, mid, cont);
    ThreeByteDecode(l, m, c, (((lead & 0xF) << 12) | ((mid - 0x80) << 6) | (cont - 0x80)) as int);
  }

  /**
   * The 4-byte branch: DecodeUtf8 accepts exactly when the source's
   * expression lies in [0x10000, 0x10FFFF], and then returns it.
   */
  lemma Utf8FourByteBranchIsC(l: Byte, m: Byte, n: Byte, c: Byte, lead: bv32, mid: bv32, next: bv32, cont: bv32)
    requires 0xF0 <= l <= 0xF4 && 0x80 <= m <= 0xBF && 0x80 <= n <= 0xBF && 0x80 <= c <= 0xBF
    requires lead as int == l && mid as int == m && next as int == n && cont as int == c
    requires 0xF0 <= lead <= 0xF4 && 0x80 <= mid <= 0xBF && 0x80 <= next <= 0xBF && 0x80 <= cont <= 0xBF
    ensures var x := (((lead & 0x7) << 18) | ((mid - 0x80) << 12) | ((next - 0x80) << 6) | (cont - 0x80)) as int;
      DecodeUtf8([l, m, n, c], 0) == if 0x10000 <= x <= 0x10FFFF then Step(Scalar(x), 4) else Step(Faulty, 1)
  {
    FourByteExprToInt(l, m, n, c, lead, mid, next, cont);
    FourByteDecode(l, m, n, c, (((lead & 0x7) << 18) | ((mid - 0x80) << 12) | ((next - 0x80) << 6) | (cont - 0x80)) as int);
  }

  // Splitting a value into its 6-bit groups and joining the groups back

  lemma Split3(v: int)
    requires 0 <= v < 0x10000
    ensures v == (v / 0x1000) * 0x1000 + ((v / 0x40) % 0x40) * 0x40 + v % 0x40
  {
    var q := v / 0x40;
    assert v == q * 0x40 + v % 0x40;
    assert q == (q / 0x40) * 0x40 + q % 0x40;
    assert q / 0x40 == v / 0x1000;
  }

  lemma Split4(v: int)
    requires 0 <= v < 0x110000
    ensures v == (v / 0x40000) * 0x40000 + ((v / 0x1000) % 0x40) * 0x1000 + ((v / 0x40) % 0x40) * 0x40 + v % 0x40
  {
    var q := v / 0x40;
    var q2 := q / 0x40;
    assert v == q * 0x40 + v % 0x40;
    assert q == q2 * 0x40 + q % 0x40;
    assert q2 == v / 0x1000;
    assert q2 == (q2 / 0x40) * 0x40 + q2 % 0x40;
    assert q2 / 0x40 == v / 0x40000;
  }

  lemma Join3(a: int, m: int, c: int)
    requires 0 <= a < 0x10 && 0 <= m < 0x40 && 0 <= c < 0x40
    ensures var v := a * 0x1000 + m * 0x40 + c;
      v / 0x1000 == a && (v / 0x40) % 0x40 == m && v % 0x40 == c
  {
    var v := a * 0x1000 + m * 0x40 + c;
    assert v / 0x40 == a * 0x40 + m;
  }

  lemma Join4(a: int, m: int, n: int, c: int)
    requires 0 <= a < 0x8 && 0 <= m < 0x40 && 0 <= n < 0x40 && 0 <= c < 0x40
    ensures var v := a * 0x40000 + m * 0x1000 + n * 0x40 + c;
      v / 0x40000 == a && (v / 0x1000) % 0x40 == m && (v / 0x40) % 0x40 == n && v % 0x40 == c
  {
    var v := a * 0x40000 + m * 0x1000 + n * 0x40 + c;
    assert v / 0x40 == a * 0x1000 + m * 0x40 + n;
    assert v / 0x1000 == a * 0x40 + m;
  }

  // Encode, then decode

  /**
   * The two-byte form as written: the 0xF mask keeps only four of the five
   * payload bits of the lead, so U+0080-U+03FF come back and U+0400-U+07FF
   * come back with bit 10 (0x400) cleared.
   */
  lemma Utf8TwoByteEncodeThenDecode(v: int)
    requires 0x80 <= v < 0x800
    ensures DecodeUtf8(EncodeUtf8(v), 0) == Step(Scalar(if v < 0x400 then v else v - 0x400), 2)
  {
    var b := EncodeUtf8(v);
    var q, c := v / 0x40, v % 0x40;
    assert b[0] == 0xC0 + q && b[1] == 0x80 + c;
    assert b[0] % 0x10 == if q < 0x10 then q else q - 0x10;
    assert ContinuationPayload(b[1]) == c;
  }

  /** The three-byte form as written: every value but U+0800 comes back. */
  lemma Utf8ThreeByteEncodeThenDecode(v: int)
    requires 0x800 <= v < 0x10000 && IsScalarValue(v)
    ensures DecodeUtf8(EncodeUtf8(v), 0) == if v == 0x800 then Step(Faulty, 1) else Step(Scalar(v), 3)
  {
    var b := EncodeUtf8(v);
    Split3(v);
    var a, m, c := v / 0x1000, (v / 0x40) % 0x40, v % 0x40;
    assert b[0] == 0xE0 + a && b[1] == 0x80 + m && b[2] == 0x80 + c;
    assert b[0] % 0x10 == a;
    assert ContinuationPayload(b[1]) == m;
    assert ContinuationPayload(b[2]) == c;
  }

  /** The four-byte form: every supplementary-plane value comes back. */
  lemma Utf8FourByteEncodeThenDecode(v: int)
    requires 0x10000 <= v <= 0x10FFFF
    ensures DecodeUtf8(EncodeUtf8(v), 0) == Step(Scalar(v), 4)
  {
    var b := EncodeUtf8(v);
    Split4(v);
    var a, m, n, c := v / 0x40000, (v / 0x1000) % 0x40, (v / 0x40) % 0x40, v % 0x40;
    assert b[0] == 0xF0 + a && b[1] == 0x80 + m && b[2] == 0x80 + n && b[3] == 0x80 + c;
    assert b[0] % 0x8 == a;
    assert ContinuationPayload(b[1]) == m;
    assert ContinuationPayload(b[2]) == n;
    assert ContinuationPayload(b[3]) == c;
  }

  /**
   * Encode-then-decode with the decoder as written, for every scalar value:
   * U+0400-U+07FF come back with bit 10 cleared, U+0800 is Faulty, and every
   * other value comes back with the advance equal to its encoded length.
   */
  lemma Utf8EncodeThenDecode(v: int)
    requires IsScalarValue(v)
    ensures DecodeUtf8(EncodeUtf8(v), 0) ==
      if 0x400 <= v < 0x800 then Step(Scalar(v - 0x400), 2)
      else if v == 0x800 then Step(Faulty, 1)
      else Step(Scalar(v), |EncodeUtf8(v)|)
  {
    if v < 0x80 {
    } else if v < 0x800 {
      Utf8TwoByteEncodeThenDecode(v);
    } else if v < 0x10000 {
      Utf8ThreeByteEncodeThenDecode(v);
    } else {
      Utf8FourByteEncodeThenDecode(v);
    }
  }

  /** The decoder as written round-trips a scalar value exactly when it is outside U+0400-U+0800. */
  lemma Utf8RoundTripsExactly(v: int)
    requires IsScalarValue(v)
    ensures DecodeUtf8(EncodeUtf8(v), 0) == Step(Scalar(v), |EncodeUtf8(v)|) <==> !(0x400 <= v <= 0x800)
  {
    Utf8EncodeThenDecode(v);
  }

  /** D0 80, the encoding of U+0400, decodes to U+0000. */
  lemma Utf8MaskDropsBit10()
    ensures EncodeUtf8(0x400) == [0xD0, 0x80]
    ensures DecodeUtf8([0xD0, 0x80], 0) == Step(Scalar(0), 2)
  {
  }

  /** E0 A0 80, the encoding of U+0800, is reported as Faulty. */
  lemma Utf8RejectsU0800()
    ensures EncodeUtf8(0x800) == [0xE0, 0xA0, 0x80]
    ensures DecodeUtf8([0xE0, 0xA0, 0x80], 0) == Step(Faulty, 1)
  {
  }

  /**
   * Leads D0 and D1 lose bit 10 too, so a 2-byte form decodes to an ASCII
   * value: D0 AF to U+002F, D1 81 to U+0041, where the corrected decoder
   * gives U+042F and U+0441.
   */
  lemma Utf8TwoByteToAscii()
    ensures DecodeUtf8([0xD0, 0xAF], 0) == Step(Scalar(0x2F), 2)
    ensures DecodeUtf8([0xD1, 0x81], 0) == Step(Scalar(0x41), 2)
    ensures DecodeUtf8Corrected([0xD0, 0xAF], 0) == Step(Scalar(0x42F), 2)
    ensures DecodeUtf8Corrected([0xD1, 0x81], 0) == Step(Scalar(0x441), 2)
  {
  }

  // Decode, then encode

  /** An accepted two-byte form is the encoding of its value or of its value plus 0x400. */
  lemma Utf8TwoByteDecodedIsEncoding(s: seq<Byte>, i: nat)
    requires i < |s| && 0xC2 <= s[i] <= 0xDF && DecodeUtf8(s, i).value.Scalar?
    ensures var v := DecodeUtf8(s, i).value.v;
      v < 0x400 && s[i..i + 2] == EncodeUtf8(if s[i] < 0xD0 then v else v + 0x400)
  {
    var lead: int := s[i];
    var c: int := s[i + 1] - 0x80;
    var w := (lead - 0xC0) * 0x40 + c;
    assert ContinuationPayload(s[i + 1]) == c;
    assert DecodeUtf8(s, i).value.v == if lead < 0xD0 then w else w - 0x400;
    assert w / 0x40 == lead - 0xC0 && w % 0x40 == c;
    assert s[i..i + 2] == [s[i], s[i + 1]];
  }

  /** An accepted three-byte form is the encoding of its value. */
  lemma Utf8ThreeByteDecodedIsEncoding(s: seq<Byte>, i: nat)
    requires i < |s| && 0xE0 <= s[i] <= 0xEF && DecodeUtf8(s, i).value.Scalar?
    ensures s[i..i + 3] == EncodeUtf8(DecodeUtf8(s, i).value.v)
  {
    var m: int, c: int := s[i + 1] - 0x80, s[i + 2] - 0x80;
    assert ContinuationPayload(s[i + 1]) == m && ContinuationPayload(s[i + 2]) == c;
    var a: int := s[i] - 0xE0;
    assert s[i] % 0x10 == a;
    var v := a * 0x1000 + m * 0x40 + c;
    assert DecodeUtf8(s, i).value.v == v;
    Join3(a, m, c);
    assert EncodeUtf8(v) == [0xE0 + a, 0x80 + m, 0x80 + c];
    assert s[i..i + 3] == [s[i], s[i + 1], s[i + 2]];
  }

  /** An accepted four-byte form is the encoding of its value. */
  lemma Utf8FourByteDecodedIsEncoding(s: seq<Byte>, i: nat)
    requires i < |s| && 0xF0 <= s[i] <= 0xF4 && DecodeUtf8(s, i).value.Scalar?
    ensures s[i..i + 4] == EncodeUtf8(DecodeUtf8(s, i).value.v)
  {
    var m: int, n: int, c: int := s[i + 1] - 0x80, s[i + 2] - 0x80, s[i + 3] - 0x80;
    assert ContinuationPayload(s[i + 1]) == m && ContinuationPayload(s[i + 2]) == n;
    assert ContinuationPayload(s[i + 3]) == c;
    var a: int := s[i] - 0xF0;
    assert s[i] % 0x8 == a;
    var v := a * 0x40000 + m * 0x1000 + n * 0x40 + c;
    assert DecodeUtf8(s, i).value.v == v;
    Join4(a, m, n, c);
    assert EncodeUtf8(v) == [0xF0 + a, 0x80 + m, 0x80 + n, 0x80 + c];
    assert s[i..i + 4] == [s[i], s[i + 1], s[i + 2], s[i + 3]];
  }

  /**
   * What the decoder as written accepts is a well-formed encoding: the units
   * it consumed are the encoding of the value it returned, except that a
   * two-byte form returns its value with bit 10 cleared, so those units are
   * the encoding either of that value or of that value plus 0x400.
   */
  lemma Utf8DecodedIsEncoding(s: seq<Byte>, i: nat)
    requires i < |s| && DecodeUtf8(s, i).value.Scalar?
    ensures var d := DecodeUtf8(s, i);
      && (d.advance != 2 ==> s[i..i + d.advance] == EncodeUtf8(d.value.v))
      && (d.advance == 2 ==>
            d.value.v < 0x400 &&
            (s[i..i + 2] == EncodeUtf8(d.value.v) || s[i..i + 2] == EncodeUtf8(d.value.v + 0x400)))
  {
    if s[i] < 0x80 {
    } else if s[i] <= 0xDF {
      Utf8TwoByteDecodedIsEncoding(s, i);
    } else if s[i] <= 0xEF {
      Utf8ThreeByteDecodedIsEncoding(s, i);
    } else {
      Utf8FourByteDecodedIsEncoding(s, i);
    }
  }

  /** A byte that cannot begin a sequence (0x80-0xC1, 0xF5-0xFF) is Faulty. */
  lemma Utf8InvalidLeadIsFaulty(s: seq<Byte>, i: nat)
    requires i < |s| && (0x80 <= s[i] <= 0xC1 || 0xF5 <= s[i])
    ensures DecodeUtf8(s, i) == Step(Faulty, 1)
  {
  }

  // The corrected decoder

  /**
   * The two deviations are the only differences: the corrected decoder
   * disagrees with the decoder as written exactly on a 0xD0-0xDF lead with a
   * continuation byte after it, and on E0 A0 80.
   */
  lemma Utf8CorrectionChangesOnly(s: seq<Byte>, i: nat)
    requires i < |s|
    ensures DecodeUtf8Corrected(s, i) != DecodeUtf8(s, i) <==>
      (0xD0 <= s[i] <= 0xDF && i + 1 < |s| && IsContinuation(s[i + 1]))
      || (i + 2 < |s| && s[i..i + 3] == [0xE0, 0xA0, 0x80])
  {
    var lead: int := s[i];
    if 0xE0 <= lead <= 0xEF && i + 2 < |s| && IsContinuation(s[i + 1]) && IsContinuation(s[i + 2]) {
      var m: int, c: int := s[i + 1] - 0x80, s[i + 2] - 0x80;
      assert ContinuationPayload(s[i + 1]) == m && ContinuationPayload(s[i + 2]) == c;
      assert lead % 0x10 == lead - 0xE0;
      var v := (lead - 0xE0) * 0x1000 + m * 0x40 + c;
      assert v == 0x800 <==> lead == 0xE0 && m == 0x20 && c == 0;
      assert s[i..i + 3] == [s[i], s[i + 1], s[i + 2]];
    } else if 0xC2 <= lead <= 0xDF && i + 1 < |s| && IsContinuation(s[i + 1]) {
      assert lead % 0x20 == lead - 0xC0;
      assert lead % 0x10 == if lead < 0xD0 then lead - 0xC0 else lead - 0xD0;
      assert i + 2 < |s| ==> s[i..i + 3][0] == lead;
    } else {
      assert i + 2 < |s| ==> s[i..i + 3][0] == lead;
      assert i + 2 < |s| && 0xE0 == lead ==> s[i..i + 3][1] == s[i + 1] && s[i..i + 3][2] == s[i + 2];
    }
  }

  /** The corrected decoder round-trips every scalar value. */
  lemma Utf8CorrectedEncodeThenDecode(v: int)
    requires IsScalarValue(v)
    ensures DecodeUtf8Corrected(EncodeUtf8(v), 0) == Step(Scalar(v), |EncodeUtf8(v)|)
  {
    var b := EncodeUtf8(v);
    if v < 0x80 {
    } else if v < 0x800 {
      var q, c := v / 0x40, v % 0x40;
      assert b[0] == 0xC0 + q && b[1] == 0x80 + c;
      assert b[0] % 0x20 == q;
      assert ContinuationPayload(b[1]) == c;
    } else if v == 0x800 {
      assert b == [0xE0, 0xA0, 0x80];
    } else {
      Utf8EncodeThenDecode(v);
      Utf8CorrectionChangesOnly(b, 0);
      assert b[0] >= 0xE0;
      assert |b| == 3 ==> b[0..3] == b;
    }
  }

  /** An accepted two-byte form of the corrected decoder is the encoding of its value. */
  lemma Utf8CorrectedTwoByteDecodedIsEncoding(s: seq<Byte>, i: nat)
    requires i < |s| && 0xC2 <= s[i] <= 0xDF && DecodeUtf8Corrected(s, i).value.Scalar?
    ensures s[i..i + 2] == EncodeUtf8(DecodeUtf8Corrected(s, i).value.v)
  {
    var lead: int := s[i];
    var c: int := s[i + 1] - 0x80;
    var w := (lead - 0xC0) * 0x40 + c;
    assert ContinuationPayload(s[i + 1]) == c;
    assert lead % 0x20 == lead - 0xC0;
    assert DecodeUtf8Corrected(s, i).value.v == w;
    assert w / 0x40 == lead - 0xC0 && w % 0x40 == c;
    assert s[i..i + 2] == [s[i], s[i + 1]];
  }

  /** What the corrected decoder accepts is exactly the encoding of the value it returns. */
  lemma Utf8CorrectedDecodedIsEncoding(s: seq<Byte>, i: nat)
    requires i < |s| && DecodeUtf8Corrected(s, i).value.Scalar?
    ensures var d := DecodeUtf8Corrected(s, i);
      s[i..i + d.advance] == EncodeUtf8(d.value.v)
  {
    if s[i] < 0x80 {
    } else if s[i] <= 0xDF {
      Utf8CorrectedTwoByteDecodedIsEncoding(s, i);
    } else if i + 2 < |s| && s[i..i + 3] == [0xE0, 0xA0, 0x80] {
      assert s[i] == 0xE0 && s[i + 1] == 0xA0 && s[i + 2] == 0x80 by {
        assert s[i..i + 3][0] == s[i] && s[i..i + 3][1] == s[i + 1] && s[i..i + 3][2] == s[i + 2];
      }
      assert DecodeUtf8Corrected(s, i) == Step(Scalar(0x800), 3);
      assert EncodeUtf8(0x800) == [0xE0, 0xA0, 0x80];
    } else {
      Utf8CorrectionChangesOnly(s, i);
      if s[i] <= 0xEF {
        Utf8ThreeByteDecodedIsEncoding(s, i);
      } else {
        Utf8FourByteDecodedIsEncoding(s, i);
      }
    }
  }

  /**
   * An accepted decode of the corrected decoder reads only the bytes it
   * consumes: the same bytes at any cursor of any buffer decode the same.
   */
  lemma Utf8CorrectedAcceptedReadsOnlyItsUnits(s: seq<Byte>, i: nat, u: seq<Byte>)
    requires 0 < |u| && i + |u| <= |s| && s[i..i + |u|] == u
    requires DecodeUtf8Corrected(u, 0).value.Scalar? && DecodeUtf8Corrected(u, 0).advance == |u|
    ensures DecodeUtf8Corrected(s, i) == DecodeUtf8Corrected(u, 0)
  {
    assert forall k :: 0 <= k < |u| ==> s[i + k] == u[k];
  }

  /**
   * At any cursor where the bytes of a scalar value's encoding stand, the
   * corrected decoder returns that value and consumes exactly that encoding.
   */
  lemma Utf8CorrectedDecodesEncodingAnywhere(s: seq<Byte>, i: nat, v: int)
    requires IsScalarValue(v) && i + |EncodeUtf8(v)| <= |s| && s[i..i + |EncodeUtf8(v)|] == EncodeUtf8(v)
    ensures DecodeUtf8Corrected(s, i) == Step(Scalar(v), |EncodeUtf8(v)|)
  {
    Utf8CorrectedEncodeThenDecode(v);
    Utf8CorrectedAcceptedReadsOnlyItsUnits(s, i, EncodeUtf8(v));
  }
}
