/** The two static conversions of the query engine: a word to the bytes it is stored as, and a
    packed level byte to its level value. */
module Packing {
  import opened Wrappers

  /** pack_word: struct.pack('B' * len(word), *map(ord, word)). A character whose code does not
      fit in one unsigned byte makes struct.pack raise. */
  function PackWord(word: string): (r: Result<seq<byte>>)
    ensures r.Ok? <==> forall i :: 0 <= i < |word| ==> word[i] as int < 256
    ensures r.Ok? ==> |r.value| == |word| && forall i :: 0 <= i < |word| ==> r.value[i] == word[i] as int
    ensures r.Err? ==> r.error == StructError
  {
    if word == [] then Ok([])
    else if word[0] as int >= 256 then Err(StructError)
    else
      match PackWord(word[1..])
      case Ok(rest) => Ok([word[0] as int as byte] + rest)
      case Err(e) => Err(e)
  }

  /** _unpack_word_in_data_array: chr of every byte. */
  function UnpackWord(bytes: seq<byte>): (w: string)
    ensures |w| == |bytes| && forall i :: 0 <= i < |bytes| ==> w[i] as int == bytes[i]
  {
    seq(|bytes|, i requires 0 <= i < |bytes| => bytes[i] as char)
  }

  /** Unpacking a packed word gives the word back, and packing an unpacked block gives its bytes. */
  lemma PackRoundTrip(word: string, bytes: seq<byte>)
    ensures PackWord(word).Ok? ==> UnpackWord(PackWord(word).value) == word
    ensures PackWord(UnpackWord(bytes)) == Ok(bytes)
  {
    var p := PackWord(UnpackWord(bytes));
    assert p.Ok?;
    assert p.value == bytes;
  }

  /** byte_int_level_to_float: level / 50 + 1 for 0 <= level <= 250, ValueError otherwise. */
  function ByteIntLevelToFloat(level: int): (r: Result<real>)
    ensures r.Ok? <==> 0 <= level <= 250
    ensures r.Ok? ==> 1.0 <= r.value <= 6.0 && (r.value - 1.0) * 50.0 == level as real
    ensures r.Err? ==> r.error == ValueError
  {
    if 0 <= level <= 250 then Ok(level as real / 50.0 + 1.0) else Err(ValueError)
  }

  /** Distinct packed levels decode to distinct level values. */
  lemma LevelDecodeInjective(a: int, b: int)
    requires ByteIntLevelToFloat(a).Ok? && ByteIntLevelToFloat(b).Ok?
    requires ByteIntLevelToFloat(a) == ByteIntLevelToFloat(b)
    ensures a == b
  {
  }

  /** Decoding preserves the order of packed levels. */
  lemma LevelDecodeMonotone(a: int, b: int)
    requires ByteIntLevelToFloat(a).Ok? && ByteIntLevelToFloat(b).Ok?
    ensures a <= b <==> ByteIntLevelToFloat(a).value <= ByteIntLevelToFloat(b).value
  {
  }
}
