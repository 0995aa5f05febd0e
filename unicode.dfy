/**
 * Vocabulary shared by the three decoders and the codepoint-sequence handle:
 * code-unit widths, the decode result and the scalar-value range of Unicode.
 */
module Unicode {

  /** An 8-bit UTF-8 code unit (SBUInt8). */
  type Byte = x: int | 0 <= x < 0x100

  /** A 16-bit UTF-16 code unit (SBUInt16). */
  type Unit16 = x: int | 0 <= x < 0x1_0000

  /** A 32-bit UTF-32 code unit (SBUInt32). */
  type Unit32 = x: int | 0 <= x < 0x1_0000_0000

  /** The transfer encoding a handle was created with (SBEncoding). */
  datatype Encoding = UTF8 | UTF16 | UTF32

  /**
   * What a decode reports. The source encodes the two sentinels as reserved
   * integers (SBCodepointFaulty, SBCodepointInvalid); here they are cases of
   * their own, so they can never collide with a scalar value.
   *   Scalar(v) - the code unit(s) at the cursor form the scalar value v
   *   Faulty    - the cursor was in range but the unit(s) there are malformed
   *   Invalid   - the cursor was absent or at/after the end; nothing was read
   */
  datatype Codepoint = Scalar(v: int) | Faulty | Invalid

  /** One decode step: the result and how many code units the cursor moves. */
  datatype Step = Step(value: Codepoint, advance: nat)

  /** Unicode scalar values: [0, 0x10FFFF] without the surrogates [0xD800, 0xDFFF]. */
  predicate IsScalarValue(v: int) {
    0 <= v <= 0x10FFFF && !(0xD800 <= v <= 0xDFFF)
  }

  /** The exclusive upper bound of a code unit of the given encoding. */
  function UnitLimit(e: Encoding): int {
    match e
    case UTF8 => 0x100
    case UTF16 => 0x1_0000
    case UTF32 => 0x1_0000_0000
  }

  /** Every unit of `units` fits the width of a code unit of `e`. */
  predicate UnitsFit(e: Encoding, units: seq<int>) {
    forall k :: 0 <= k < |units| ==> 0 <= units[k] < UnitLimit(e)
  }
}
