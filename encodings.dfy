/** The host's closed set of sample encodings and the value range of each integer one. */
module Encodings {

  datatype EncodingType =
    | Int1SByte | Int1UByte | Int2SBytes | Int2UBytes | Int4SComplex
    | Int4SBytes | Int4UBytes | Flt4Bytes | Flt8Complex | Flt8Bytes
  {
    /** The two complex encodings, which the edge filter refuses. */
    predicate IsComplex(): (c: bool)
      ensures c ==> !IsInteger()
    {
      this == Int4SComplex || this == Flt8Complex
    }

    /** Encodings whose samples are integers of 8, 16 or 32 bits. */
    predicate IsInteger() {
      Int1SByte? || Int1UByte? || Int2SBytes? || Int2UBytes? || Int4SBytes? || Int4UBytes?
    }

    function MinValue(): int
      requires IsInteger()
    {
      match this
      case Int1SByte => -0x80
      case Int2SBytes => -0x8000
      case Int4SBytes => -0x8000_0000
      case _ => 0
    }

    function MaxValue(): int
      requires IsInteger()
    {
      match this
      case Int1SByte => 0x7F
      case Int1UByte => 0xFF
      case Int2SBytes => 0x7FFF
      case Int2UBytes => 0xFFFF
      case Int4SBytes => 0x7FFF_FFFF
      case Int4UBytes => 0xFFFF_FFFF
    }

    /** v is a value of this encoding's sample type. */
    predicate InRange(v: int)
      requires IsInteger()
    {
      MinValue() <= v <= MaxValue()
    }
  }
}
