/**
 * BitStreamFormat: how the bit reader turns stream bytes into bits. A unit of
 * `byteSize` bytes is read at a time, optionally byte-swapped, and split into
 * bits; `reversed` selects where the i-th bit read lands in the result.
 */
module BitStreamFormats {
  import opened Binary
  import opened Results

  type PositiveInt = n: int | n >= 1 witness 1

  datatype BitStreamFormat = BitStreamFormat(byteSize: PositiveInt, byteSwap: bool, reversed: bool)

  datatype FormatError = ByteSizeNotPositive  // ArgumentOutOfRangeException.ThrowIfNegativeOrZero

  /** The validating constructor: a unit size of zero or less is refused; the rest is stored as given. */
  function Create(byteSize: int, byteSwap: bool, reversed: bool): (r: Result<BitStreamFormat, FormatError>)
    ensures r.Success? <==> byteSize > 0
    ensures r.Success? ==> r.value.byteSize == byteSize && r.value.byteSwap == byteSwap && r.value.reversed == reversed
    ensures r.Failure? ==> r.error == ByteSizeNotPositive
  {
    if byteSize <= 0 then Failure(ByteSizeNotPositive) else Success(BitStreamFormat(byteSize, byteSwap, reversed))
  }

  const ByteLeastSignificant: BitStreamFormat := Create(1, false, false).value
  const ByteMostSignificant: BitStreamFormat := Create(1, false, true).value
  const ShortBigEndianLeastSignificant: BitStreamFormat := Create(2, !IsLittleEndian, false).value
  const ShortBigEndianMostSignificant: BitStreamFormat := Create(2, !IsLittleEndian, true).value
  const ShortLittleEndianLeastSignificant: BitStreamFormat := Create(2, IsLittleEndian, false).value
  const ShortLittleEndianMostSignificant: BitStreamFormat := Create(2, IsLittleEndian, true).value

  /** What the six presets fix, on the little-endian host. */
  lemma PresetFields()
    ensures ByteLeastSignificant.byteSize == 1 && !ByteLeastSignificant.byteSwap
    ensures ByteMostSignificant.byteSize == 1 && !ByteMostSignificant.byteSwap
    ensures ShortBigEndianLeastSignificant.byteSize == 2 && ShortBigEndianMostSignificant.byteSize == 2
    ensures ShortLittleEndianLeastSignificant.byteSize == 2 && ShortLittleEndianMostSignificant.byteSize == 2
    // *LeastSignificant presets are not reversed, *MostSignificant ones are
    ensures !ByteLeastSignificant.reversed && !ShortBigEndianLeastSignificant.reversed
    ensures !ShortLittleEndianLeastSignificant.reversed
    ensures ByteMostSignificant.reversed && ShortBigEndianMostSignificant.reversed
    ensures ShortLittleEndianMostSignificant.reversed
    // big- and little-endian short presets differ only in (opposite) byteSwap
    ensures ShortBigEndianLeastSignificant == ShortLittleEndianLeastSignificant.(byteSwap := !ShortLittleEndianLeastSignificant.byteSwap)
    ensures ShortBigEndianMostSignificant == ShortLittleEndianMostSignificant.(byteSwap := !ShortLittleEndianMostSignificant.byteSwap)
    // on a little-endian host the little-endian presets swap
    ensures ShortLittleEndianLeastSignificant.byteSwap && ShortLittleEndianMostSignificant.byteSwap
  {
  }
}
