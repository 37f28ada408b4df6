/** The public point queries of the query engine: the length gate, and the level and membership
    questions about one word. Each gates the word's length first and then packs it. */
module Queries {
  import opened Wrappers
  import opened Validator
  import opened Reader
  import opened Layout
  import opened Packing
  import opened Search
  import opened Lookup

  /** get_max_word_len: the table has one entry more than the longest word length. */
  function GetMaxWordLen(rd: Reader): (n: int)
    requires rd.Valid()
    ensures 1 <= n <= 254
    ensures forall L :: IsWordLenValid(rd.wlp, L) <==> 1 <= L <= n
  {
    rd.GetWlpLen() - 1
  }

  /** is_word_len_valid: the lengths that have a segment, 1 up to the maximum word length. */
  function IsWordLenValidQuery(rd: Reader, n: int): (b: bool)
    requires rd.Valid()
    ensures b <==> 1 <= n <= GetMaxWordLen(rd)
    ensures b <==> IsWordLenValid(rd.wlp, n)
  {
    0 < n < rd.GetWlpLen()
  }

  /** The float the source hands out for a level byte, or its ValueError. */
  function Decoded(r: Option<int>): (res: Result<Option<real>>)
    ensures r.None? ==> res == Ok(None)
    ensures r.Some? && 0 <= r.value <= 250 ==> res == Ok(Some(r.value as real / 50.0 + 1.0))
    ensures r.Some? && !(0 <= r.value <= 250) ==> res == Err(ValueError)
  {
    match r
    case None => Ok(None)
    case Some(level) =>
      match ByteIntLevelToFloat(level)
      case Ok(v) => Ok(Some(v))
      case Err(err) => Err(err)
  }

  /** get_word_level_for_pos_id (source lines 353-372): None for a length without a segment,
      StructError for a word that does not pack, and otherwise the decoded answer of the level
      lookup, whose guarantees LevelOutcome states (level is that answer, a..e the averaged
      blocks). */
  method GetWordLevelForPosId(rd: Reader, word: string, q: PosQuery, avg: bool)
    returns (res: Result<Option<real>>, ghost level: Option<int>, ghost a: int, ghost e: int)
    requires rd.Valid()
    ensures !IsWordLenValid(rd.wlp, |word|) ==> res == Ok(None)
    ensures IsWordLenValid(rd.wlp, |word|) && PackWord(word).Err? ==> res == Err(StructError)
    ensures IsWordLenValid(rd.wlp, |word|) && PackWord(word).Ok? ==>
      LevelOutcome(Entries(rd.wlp, rd.data, |word|), PackWord(word).value, q, avg,
                   LandedBlock(rd.wlp, rd.data, PackWord(word).value), level, a, e) &&
      res == Decoded(level)
  {
    level, a, e := None, 0, 0;
    if !(0 < |word| < rd.GetWlpLen()) {
      return Ok(None), level, a, e;
    }
    var packed := PackWord(word);
    if packed.Err? {
      return Err(StructError), level, a, e;
    }
    var r;
    r, a, e := IntWordLevelForPosId(rd, packed.value, q, avg);
    level := r;
    res := Decoded(r);
  }

  /** is_word_in_database (source lines 375-390): false for a length without a segment,
      StructError for a word that does not pack, and otherwise whether the search finds it,
      which in a sorted segment is whether the word is stored. */
  method IsWordInDatabase(rd: Reader, word: string) returns (res: Result<bool>)
    requires rd.Valid()
    ensures !IsWordLenValid(rd.wlp, |word|) ==> res == Ok(false)
    ensures IsWordLenValid(rd.wlp, |word|) && PackWord(word).Err? ==> res == Err(StructError)
    ensures IsWordLenValid(rd.wlp, |word|) && PackWord(word).Ok? ==>
      res.Ok? && (res.value ==> HasWord(Entries(rd.wlp, rd.data, |word|), PackWord(word).value)) &&
      (SegmentSorted(Entries(rd.wlp, rd.data, |word|)) ==>
         (res.value <==> HasWord(Entries(rd.wlp, rd.data, |word|), PackWord(word).value)))
  {
    if !(0 < |word| < rd.GetWlpLen()) {
      return Ok(false);
    }
    var packed := PackWord(word);
    if packed.Err? {
      return Err(StructError);
    }
    var first := FirstWordMatchPos(rd, packed.value);
    if first != -1 {
      ghost var es := Entries(rd.wlp, rd.data, |word|);
      ghost var k :| 0 <= k < |es| && first == BlockPos(rd.wlp, |word|, k) && es[k].word == packed.value;
    }
    return Ok(first != -1);
  }

  /** is_word_pos_id_database (source lines 393-404): whether the level query without averaging
      answers; it passes on the query's errors, so a matching block whose level byte is above
      250 raises ValueError. */
  method IsWordPosIdDatabase(rd: Reader, word: string, q: PosQuery) returns (res: Result<bool>)
    requires rd.Valid()
    ensures !IsWordLenValid(rd.wlp, |word|) ==> res == Ok(false)
    ensures IsWordLenValid(rd.wlp, |word|) && PackWord(word).Err? ==> res == Err(StructError)
    ensures IsWordLenValid(rd.wlp, |word|) && PackWord(word).Ok? ==>
      var es := Entries(rd.wlp, rd.data, |word|);
      var w := PackWord(word).value;
      (res == Ok(true) ==> HasMatch(es, w, q)) &&
      (!HasMatch(es, w, q) ==> res == Ok(false)) &&
      (SegmentSorted(es) ==>
         forall t :: MatchAt(es, t, w, q) ==> res == if es[t].level <= 250 then Ok(true) else Err(ValueError))
  {
    var r, level, a, e := GetWordLevelForPosId(rd, word, q, false);
    if r.Err? {
      return Err(r.error);
    }
    return Ok(r.value.Some?);
  }

  /** The validator checks level bytes against 6 * 50 = 300, which no byte exceeds, so it accepts
      a layout whose only block, the word "a" with category 0, has the level byte 255; the level
      query for that block then raises ValueError when it decodes the level. */
  lemma AcceptedLevelMayNotDecode()
    ensures var wlp, data := [0, 3], [97, 0, 255];
      DataValid(wlp, data) && SegmentSorted(Entries(wlp, data, 1)) &&
      MatchAt(Entries(wlp, data, 1), 0, [97], PosId(0)) &&
      Decoded(Some(Entries(wlp, data, 1)[0].level)) == Err(ValueError)
  {
    var wlp: seq<nat>, data: seq<byte> := [0, 3], [97, 0, 255];
    assert SegmentShapeValid(wlp, 1);
    assert BlockValid(data, 0, 3) && SegmentValid(data, 3, 3, 3) && SegmentValid(data, 0, 3, 3);
    assert SegmentBlocksValid(wlp, data, 1);
    EntryBytes(wlp, data, 1, 0);
    assert Entries(wlp, data, 1)[0] == Entry([97], 0, 255);
  }
}
