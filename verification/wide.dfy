/**
 * `from_bytes_32` and `from_bytes_64`: a length guard in front of the host's
 * DataView.getFloat32 / getFloat64.  The DataView read itself (the binary32
 * and binary64 layouts) is the host's and is a parameter here: `read` takes
 * the bytes and the little-endian flag and gives the float they hold.
 */
module WideFloats {
  import opened IeeeFloat
  import opened Binary16

  /** `from_bytes_32`: NaN unless there are exactly four bytes, otherwise
      what the host reads from them in the given order. */
  function FromBytes32(bytes: seq<Byte>, littleEndian: bool, read: (seq<Byte>, bool) -> Value): (v: Value)
    ensures |bytes| != 4 ==> v == NaN
  {
    if |bytes| != 4 then NaN else read(bytes, littleEndian)
  }

  /** `from_bytes_64`: NaN unless there are exactly eight bytes, otherwise
      what the host reads from them in the given order. */
  function FromBytes64(bytes: seq<Byte>, littleEndian: bool, read: (seq<Byte>, bool) -> Value): (v: Value)
    ensures |bytes| != 8 ==> v == NaN
  {
    if |bytes| != 8 then NaN else read(bytes, littleEndian)
  }

  /** `from_bytes_32_le`. */
  function FromBytes32Le(bytes: seq<Byte>, read: (seq<Byte>, bool) -> Value): (v: Value)
    ensures |bytes| != 4 ==> v == NaN
    ensures |bytes| == 4 ==> v == read(bytes, true)
  {
    FromBytes32(bytes, true, read)
  }

  /** `from_bytes_32_be`. */
  function FromBytes32Be(bytes: seq<Byte>, read: (seq<Byte>, bool) -> Value): (v: Value)
    ensures |bytes| != 4 ==> v == NaN
    ensures |bytes| == 4 ==> v == read(bytes, false)
  {
    FromBytes32(bytes, false, read)
  }

  /** `from_bytes_64_le`. */
  function FromBytes64Le(bytes: seq<Byte>, read: (seq<Byte>, bool) -> Value): (v: Value)
    ensures |bytes| != 8 ==> v == NaN
    ensures |bytes| == 8 ==> v == read(bytes, true)
  {
    FromBytes64(bytes, true, read)
  }

  /** `from_bytes_64_be`. */
  function FromBytes64Be(bytes: seq<Byte>, read: (seq<Byte>, bool) -> Value): (v: Value)
    ensures |bytes| != 8 ==> v == NaN
    ensures |bytes| == 8 ==> v == read(bytes, false)
  {
    FromBytes64(bytes, false, read)
  }

  /** The guards pass the bytes on untouched: on the right length the result
      is exactly the host's reading of the same bytes in the same order, and
      a reading other than NaN can only come from the right length. */
  lemma GuardsPassThrough(bytes: seq<Byte>, littleEndian: bool, read: (seq<Byte>, bool) -> Value)
    ensures |bytes| == 4 ==> FromBytes32(bytes, littleEndian, read) == read(bytes, littleEndian)
    ensures |bytes| == 8 ==> FromBytes64(bytes, littleEndian, read) == read(bytes, littleEndian)
    ensures FromBytes32(bytes, littleEndian, read) != NaN ==> |bytes| == 4
    ensures FromBytes64(bytes, littleEndian, read) != NaN ==> |bytes| == 8
  {
  }

  /** The three decoders accept disjoint lengths: on any byte string at
      most one of from_bytes_16, from_bytes_32 and from_bytes_64 can give
      something other than NaN, whatever the host reads. */
  lemma DecodersDisjoint(bytes: seq<Byte>, littleEndian: bool, read32: (seq<Byte>, bool) -> Value, read64: (seq<Byte>, bool) -> Value)
    ensures FromBytes16(bytes, littleEndian) != NaN ==> FromBytes32(bytes, littleEndian, read32) == NaN && FromBytes64(bytes, littleEndian, read64) == NaN
    ensures FromBytes32(bytes, littleEndian, read32) != NaN ==> FromBytes64(bytes, littleEndian, read64) == NaN
  {
  }
}
