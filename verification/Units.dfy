/** The two alphabets every text in the tool is written in: UTF-8 bytes inside, UTF-16 units at the Windows edge. */
module Units {
  type Byte = b: int | 0 <= b < 0x100
  type Unit = u: int | 0 <= u < 0x10000
  type Bytes = seq<Byte>
  type Wide = seq<Unit>

  // A Unicode scalar value: a code point that is not half of a surrogate pair.
  type Scalar = c: int | 0 <= c < 0x110000 && !(0xD800 <= c < 0xE000)

  const U64_MAX: int := 0xFFFF_FFFF_FFFF_FFFF

  function Min(a: int, b: int): int {
    if a <= b then a else b
  }

  function Ascii(text: string): (bytes: Bytes)
    requires forall k | 0 <= k < |text| :: text[k] < 128 as char
    ensures |bytes| == |text| && forall k | 0 <= k < |text| :: bytes[k] == text[k] as int
  {
    seq(|text|, i requires 0 <= i < |text| => text[i] as int)
  }
}
