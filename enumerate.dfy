/** The per-length enumeration of the query engine: the range of block starts of one segment,
    the three generators over it (words, word and category, word, category and level), and the
    two per-length counts. A generator is modelled by the whole sequence it yields. */
module Enumerate {
  import opened Wrappers
  import opened Validator
  import opened Reader
  import opened Sequences
  import opened Layout
  import opened Packing
  import opened Search
  import opened WordRange

  // ---- the block starts of a segment ----

  /** Where blocks 0..n-1 of segment L start, in storage order. */
  function BlockStarts(wlp: seq<nat>, L: int, n: nat): (s: seq<int>)
    requires IsWordLenValid(wlp, L)
    ensures |s| == n && forall j :: 0 <= j < n ==> s[j] == BlockPos(wlp, L, j)
  {
    seq(n, j => BlockPos(wlp, L, j))
  }

  /** The forward range from block a up to block n yields the starts of blocks a..n-1. */
  lemma {:induction false} ForwardStarts(wlp: seq<nat>, L: int, a: int, n: nat)
    requires IsWordLenValid(wlp, L) && 0 <= a <= n
    ensures Elems(Range(BlockPos(wlp, L, a), BlockPos(wlp, L, n), L + 2)) == BlockStarts(wlp, L, n)[a..]
    decreases n - a
  {
    PosOrder(wlp, L, n, a);
    if a < n {
      BlockPosStep(wlp, L, a);
      ForwardStarts(wlp, L, a + 1, n);
      var s := BlockStarts(wlp, L, n);
      assert s[a..] == [s[a]] + s[a + 1..];
    }
  }

  /** The backward range from block j down to block -1 yields the starts of blocks j..0. */
  lemma {:induction false} BackwardStarts(wlp: seq<nat>, L: int, j: int, n: nat)
    requires IsWordLenValid(wlp, L) && -1 <= j < n
    ensures Elems(Range(BlockPos(wlp, L, j), BlockPos(wlp, L, -1), -(L + 2))) ==
            Reverse(BlockStarts(wlp, L, n)[..j + 1])
    decreases j + 1
  {
    PosOrder(wlp, L, j, -1);
    var s := BlockStarts(wlp, L, n);
    if j >= 0 {
      BlockPosStep(wlp, L, j);
      BackwardStarts(wlp, L, j - 1, n);
      assert s[..j + 1] == s[..j] + [s[j]];
      ReverseSnoc(s[..j], s[j]);
    } else {
      assert s[..j + 1] == [];
    }
  }

  /** _get_word_yield_start_block_range: the starts of the blocks of segment L, forward, or
      backward when reverse is set. */
  function StartBlockRange(rd: Reader, L: int, reverse: bool): (r: Range)
    requires rd.Valid() && IsWordLenValid(rd.wlp, L)
    ensures r.step != 0
    ensures var s := BlockStarts(rd.wlp, L, BlockCount(rd.wlp, L));
      Elems(r) == if reverse then Reverse(s) else s
  {
    var wlp := rd.wlp;
    var n := BlockCount(wlp, L);
    var b := L + 2;
    SegmentEnd(wlp, L);
    BlockPosStep(wlp, L, n - 1);
    BlockPosStep(wlp, L, 0);
    ForwardStarts(wlp, L, 0, n);
    BackwardStarts(wlp, L, n - 1, n);
    assert BlockStarts(wlp, L, n)[..n] == BlockStarts(wlp, L, n);
    if reverse then Range(wlp[L] - b, wlp[L - 1] - b, -b) else Range(wlp[L - 1], wlp[L], b)
  }

  // ---- what the generators yield ----

  /** The blocks of a segment in the order a generator visits them. */
  function Ordered(es: seq<Entry>, reverse: bool): (os: seq<Entry>)
    ensures |os| == |es|
    ensures forall k :: 0 <= k < |es| ==> os[k] == if reverse then es[|es| - 1 - k] else es[k]
  {
    if reverse then Reverse(es) else es
  }

  /** The strings stored words unpack to. */
  function Unpacked(ws: seq<seq<byte>>): (r: seq<string>)
    ensures |r| == |ws| && forall k :: 0 <= k < |ws| ==> r[k] == UnpackWord(ws[k])
  {
    seq(|ws|, k requires 0 <= k < |ws| => UnpackWord(ws[k]))
  }

  /** The (word, category) pairs of a sequence of blocks. */
  function PosPairs(os: seq<Entry>): (r: seq<(string, int)>)
    ensures |r| == |os| && forall k :: 0 <= k < |os| ==> r[k] == (UnpackWord(os[k].word), os[k].pos)
  {
    seq(|os|, k requires 0 <= k < |os| => (UnpackWord(os[k].word), os[k].pos))
  }

  /** The (word, category, level) triple of one block, or the ValueError of its level byte. */
  function TripleOf(x: Entry): Result<(string, int, real)>
  {
    match ByteIntLevelToFloat(x.level)
    case Err(err) => Err(err)
    case Ok(v) => Ok((UnpackWord(x.word), x.pos, v))
  }

  /** The (word, category, level) triples of a sequence of blocks, or the ValueError of the first
      level byte that does not decode. */
  function LevelTriples(os: seq<Entry>): Result<seq<(string, int, real)>>
  {
    if os == [] then Ok([])
    else
      match LevelTriples(os[..|os| - 1])
      case Err(err) => Err(err)
      case Ok(p) =>
        match TripleOf(os[|os| - 1])
        case Err(err) => Err(err)
        case Ok(t) => Ok(p + [t])
  }

  /** The triples fail exactly when a level byte is above 250, always with ValueError; otherwise
      there is one triple per block, with the block's word, category and decoded level. */
  lemma {:induction false} LevelTriplesMeaning(os: seq<Entry>)
    ensures LevelTriples(os).Err? <==> exists k :: 0 <= k < |os| && os[k].level > 250
    ensures LevelTriples(os).Err? ==> LevelTriples(os).error == ValueError
    ensures LevelTriples(os).Ok? ==>
      var r := LevelTriples(os).value;
      |r| == |os| &&
      forall k :: 0 <= k < |os| ==> r[k] == (UnpackWord(os[k].word), os[k].pos, os[k].level as real / 50.0 + 1.0)
    decreases |os|
  {
    if os != [] {
      var p := os[..|os| - 1];
      LevelTriplesMeaning(p);
      assert forall k :: 0 <= k < |p| ==> p[k] == os[k];
      if LevelTriples(p).Err? {
        var k :| 0 <= k < |p| && p[k].level > 250;
        assert os[k].level > 250;
      }
    }
  }

  /** Two blocks unpack to the same string only when they hold the same bytes. */
  lemma UnpackInjective(a: seq<byte>, b: seq<byte>)
    ensures UnpackWord(a) == UnpackWord(b) <==> a == b
  {
    PackRoundTrip([], a);
    PackRoundTrip([], b);
  }

  // ---- reading a block ----

  /** _unpack_word_in_data_array: the string of the L bytes from position i. */
  method UnpackWordInDataArray(rd: Reader, i: int, L: nat) returns (word: string)
    requires 0 <= i && i + L <= |rd.data|
    ensures word == UnpackWord(rd.data[i..i + L])
  {
    word := "";
    var j := i;
    while j < i + L
      invariant i <= j <= i + L
      invariant |word| == j - i && forall t :: 0 <= t < j - i ==> word[t] == rd.data[i + t] as char
    {
      word := word + [rd.data[j] as char];
      j := j + 1;
    }
  }

  /** The k-th value of the start range is the start of the k-th block a generator visits. */
  lemma VisitedBlock(rd: Reader, L: int, reverse: bool, starts: seq<int>, k: int)
    requires rd.Valid() && IsWordLenValid(rd.wlp, L)
    requires starts == Elems(StartBlockRange(rd, L, reverse)) && 0 <= k < |starts|
    ensures 0 <= starts[k] && starts[k] + L + 2 <= |rd.data|
    ensures Ordered(Entries(rd.wlp, rd.data, L), reverse)[k] == EntryAt(rd.data, starts[k], L)
  {
    var n := BlockCount(rd.wlp, L);
    var j := if reverse then n - 1 - k else k;
    assert starts[k] == BlockPos(rd.wlp, L, j);
    EntryBytes(rd.wlp, rd.data, L, j);
  }

  /** The start range has one value per block. */
  lemma StartsCount(rd: Reader, L: int, reverse: bool)
    requires rd.Valid() && IsWordLenValid(rd.wlp, L)
    ensures |Elems(StartBlockRange(rd, L, reverse))| == |Entries(rd.wlp, rd.data, L)|
  {
  }

  /** The starts visit the blocks os: the k-th start lies inside the data and the block there
      is os[k]. */
  ghost predicate Visits(data: seq<byte>, L: nat, starts: seq<int>, os: seq<Entry>)
  {
    |starts| == |os| &&
    forall k :: 0 <= k < |starts| ==>
      0 <= starts[k] && starts[k] + L + 2 <= |data| && os[k] == EntryAt(data, starts[k], L)
  }

  /** The word of the k-th visited block is the L bytes at the k-th start. */
  lemma VisitedWord(data: seq<byte>, L: nat, starts: seq<int>, os: seq<Entry>, k: int)
    requires Visits(data, L, starts, os) && 0 <= k < |starts|
    ensures 0 <= starts[k] && starts[k] + L <= |data| && k < |Words(os)|
    ensures Words(os)[k] == data[starts[k]..starts[k] + L]
  {
  }

  /** The start range of segment L visits its blocks in the generators' order. */
  lemma VisitPlan(rd: Reader, L: int, reverse: bool)
    requires rd.Valid() && IsWordLenValid(rd.wlp, L)
    ensures Visits(rd.data, L, Elems(StartBlockRange(rd, L, reverse)), Ordered(Entries(rd.wlp, rd.data, L), reverse))
  {
    var starts := Elems(StartBlockRange(rd, L, reverse));
    var os := Ordered(Entries(rd.wlp, rd.data, L), reverse);
    StartsCount(rd, L, reverse);
    forall k | 0 <= k < |starts|
      ensures 0 <= starts[k] && starts[k] + L + 2 <= |rd.data| && os[k] == EntryAt(rd.data, starts[k], L)
    {
      VisitedBlock(rd, L, reverse, starts, k);
    }
  }

  /** One step of yield_words_with_length, on the words seen so far. */
  lemma DedupStep(ws: seq<seq<byte>>, k: int)
    requires 0 <= k < |ws|
    ensures Unpacked(Dedup(ws[..k + 1])) ==
      if k > 0 && UnpackWord(ws[k - 1]) == UnpackWord(ws[k]) then Unpacked(Dedup(ws[..k]))
      else Unpacked(Dedup(ws[..k])) + [UnpackWord(ws[k])]
  {
    assert ws[..k + 1] == ws[..k] + [ws[k]];
    DedupSnoc(ws[..k], ws[k]);
    if k > 0 {
      UnpackInjective(ws[k - 1], ws[k]);
    }
    var d := Dedup(ws[..k]);
    assert Unpacked(d + [ws[k]]) == Unpacked(d) + [UnpackWord(ws[k])];
  }

  /** One step of the loop of yield_words_with_length: the word is yielded exactly when it
      differs from the one yielded last. */
  lemma YieldWordStep(ws: seq<seq<byte>>, k: int, last: Option<string>, word: string, out: seq<string>)
    requires 0 <= k < |ws| && word == UnpackWord(ws[k]) && out == Unpacked(Dedup(ws[..k]))
    requires k == 0 ==> last.None?
    requires k > 0 ==> last == Some(UnpackWord(ws[k - 1]))
    ensures Unpacked(Dedup(ws[..k + 1])) == if last != Some(word) then out + [word] else out
  {
    DedupStep(ws, k);
  }

  // ---- the generators ----

  /** yield_words_with_length: nothing for a length without a segment; otherwise the words of
      the blocks in visiting order, each one dropped when it equals the word yielded last. */
  method YieldWordsWithLength(rd: Reader, L: int, reverse: bool) returns (out: seq<string>)
    requires rd.Valid()
    ensures !IsWordLenValid(rd.wlp, L) ==> out == []
    ensures IsWordLenValid(rd.wlp, L) ==>
      out == Unpacked(Dedup(Words(Ordered(Entries(rd.wlp, rd.data, L), reverse))))
  {
    out := [];
    if !(0 < L < rd.GetWlpLen()) {
      return;
    }
    var starts := Elems(StartBlockRange(rd, L, reverse));
    VisitPlan(rd, L, reverse);
    out := VisitWords(rd, L, starts, Ordered(Entries(rd.wlp, rd.data, L), reverse));
  }

  /** The loop of yield_words_with_length over the visited blocks. */
  method VisitWords(rd: Reader, L: nat, starts: seq<int>, ghost os: seq<Entry>) returns (out: seq<string>)
    requires Visits(rd.data, L, starts, os)
    ensures out == Unpacked(Dedup(Words(os)))
  {
    ghost var ws := Words(os);
    out := [];
    var last: Option<string> := None;
    for k := 0 to |starts|
      invariant out == Unpacked(Dedup(ws[..k]))
      invariant k == 0 ==> last.None?
      invariant k > 0 ==> last == Some(UnpackWord(ws[k - 1]))
    {
      VisitedWord(rd.data, L, starts, os, k);
      var word := UnpackWordInDataArray(rd, starts[k], L);
      YieldWordStep(ws, k, last, word, out);
      if last != Some(word) {
        out := out + [word];
        last := Some(word);
      }
    }
    assert ws[..|starts|] == ws;
  }

  /** yield_word_pos_id_with_length: one (word, category) pair per block, in visiting order. */
  method YieldWordPosIdWithLength(rd: Reader, L: int, reverse: bool) returns (out: seq<(string, int)>)
    requires rd.Valid()
    ensures !IsWordLenValid(rd.wlp, L) ==> out == []
    ensures IsWordLenValid(rd.wlp, L) ==> out == PosPairs(Ordered(Entries(rd.wlp, rd.data, L), reverse))
  {
    out := [];
    if !(0 < L < rd.GetWlpLen()) {
      return;
    }
    var starts := Elems(StartBlockRange(rd, L, reverse));
    VisitPlan(rd, L, reverse);
    out := VisitPairs(rd, L, starts, Ordered(Entries(rd.wlp, rd.data, L), reverse));
  }

  /** The loop of yield_word_pos_id_with_length over the visited blocks. */
  method VisitPairs(rd: Reader, L: nat, starts: seq<int>, ghost os: seq<Entry>) returns (out: seq<(string, int)>)
    requires Visits(rd.data, L, starts, os)
    ensures out == PosPairs(os)
  {
    ghost var ps := PosPairs(os);
    out := [];
    for k := 0 to |starts|
      invariant out == ps[..k]
    {
      var i := starts[k];
      var word := UnpackWordInDataArray(rd, i, L);
      var pos := rd.data[i + L];
      assert ps[..k + 1] == ps[..k] + [(word, pos)];
      out := out + [(word, pos)];
    }
    assert ps[..|starts|] == ps;
  }

  /** One step of yield_word_pos_level_with_length: the triples so far, extended by the one
      read at the k-th visited block. */
  lemma TripleStep(data: seq<byte>, L: nat, starts: seq<int>, os: seq<Entry>, k: int)
    requires Visits(data, L, starts, os) && 0 <= k < |starts|
    ensures LevelTriples(os[..k + 1]) ==
      match LevelTriples(os[..k])
      case Err(err) => Err(err)
      case Ok(p) =>
        match TripleOf(EntryAt(data, starts[k], L))
        case Err(err) => Err(err)
        case Ok(t) => Ok(p + [t])
  {
    assert os[..k + 1][..k] == os[..k];
  }

  /** The loop body of yield_word_pos_level_with_length on the block at i. */
  method ReadTriple(rd: Reader, i: int, L: nat) returns (t: Result<(string, int, real)>)
    requires 0 <= i && i + L + 2 <= |rd.data|
    ensures t == TripleOf(EntryAt(rd.data, i, L))
  {
    var word := UnpackWordInDataArray(rd, i, L);
    var j := i + L;
    var pos := rd.data[j];
    var level := ByteIntLevelToFloat(rd.data[j + 1]);
    if level.Err? {
      return Err(level.error);
    }
    return Ok((word, pos, level.value));
  }

  /** The first failing level byte decides the whole result. */
  lemma {:induction false} TriplesErrorSticks(os: seq<Entry>, n: int)
    requires 0 <= n <= |os| && LevelTriples(os[..n]).Err?
    ensures LevelTriples(os) == LevelTriples(os[..n])
    decreases |os|
  {
    if n < |os| {
      var p := os[..|os| - 1];
      assert p[..n] == os[..n];
      TriplesErrorSticks(p, n);
    } else {
      assert os[..n] == os;
    }
  }

  /** yield_word_pos_level_with_length: one (word, category, level) triple per block in
      visiting order, or ValueError at the first level byte above 250. */
  method YieldWordPosLevelWithLength(rd: Reader, L: int, reverse: bool)
    returns (res: Result<seq<(string, int, real)>>)
    requires rd.Valid()
    ensures !IsWordLenValid(rd.wlp, L) ==> res == Ok([])
    ensures IsWordLenValid(rd.wlp, L) ==> res == LevelTriples(Ordered(Entries(rd.wlp, rd.data, L), reverse))
  {
    if !(0 < L < rd.GetWlpLen()) {
      return Ok([]);
    }
    var starts := Elems(StartBlockRange(rd, L, reverse));
    VisitPlan(rd, L, reverse);
    res := VisitTriples(rd, L, starts, Ordered(Entries(rd.wlp, rd.data, L), reverse));
  }

  /** The loop of yield_word_pos_level_with_length over the visited blocks. */
  method VisitTriples(rd: Reader, L: nat, starts: seq<int>, ghost os: seq<Entry>)
    returns (res: Result<seq<(string, int, real)>>)
    requires Visits(rd.data, L, starts, os)
    ensures res == LevelTriples(os)
  {
    var out := [];
    for k := 0 to |starts|
      invariant LevelTriples(os[..k]) == Ok(out)
    {
      TripleStep(rd.data, L, starts, os, k);
      var t := ReadTriple(rd, starts[k], L);
      if t.Err? {
        TriplesErrorSticks(os, k + 1);
        return Err(t.error);
      }
      out := out + [t.value];
    }
    assert os[..|starts|] == os;
    return Ok(out);
  }

  /** The inner loop of get_word_count_for_length over the block at i: it finds the first byte
      where the block differs from last_word and from there copies the block into last_word.
      Afterwards last_word holds the block, and changed says whether it held something else. */
  method AdvanceLastWord(rd: Reader, lastWord: array<byte>, i: int) returns (changed: bool)
    requires 0 <= i && i + lastWord.Length <= |rd.data|
    modifies lastWord
    ensures lastWord[..] == rd.data[i..i + lastWord.Length]
    ensures changed <==> old(lastWord[..]) != rd.data[i..i + lastWord.Length]
  {
    var L := lastWord.Length;
    for j := 0 to L
      invariant lastWord[..] == old(lastWord[..])
      invariant forall t :: 0 <= t < j ==> lastWord[t] == rd.data[i + t]
    {
      var arrayPos := i + j;
      var currentChar := rd.data[arrayPos];
      if currentChar != lastWord[j] {
        assert old(lastWord[..])[j] != rd.data[i..i + L][j];
        lastWord[j] := currentChar;
        for k := j + 1 to L
          invariant arrayPos == i + k - 1
          invariant forall t :: 0 <= t < k ==> lastWord[t] == rd.data[i + t]
        {
          arrayPos := arrayPos + 1;
          lastWord[k] := rd.data[arrayPos];
        }
        return true;
      }
    }
    return false;
  }

  /** No stored word starts with a zero byte, so the all-zero start value of last_word never
      equals the first word visited. */
  lemma FirstWordNotZero(rd: Reader, L: int)
    requires rd.Valid() && IsWordLenValid(rd.wlp, L)
    ensures forall k :: 0 <= k < |Entries(rd.wlp, rd.data, L)| ==>
      0 < |Entries(rd.wlp, rd.data, L)[k].word| && Entries(rd.wlp, rd.data, L)[k].word[0] != 0
  {
    forall k | 0 <= k < |Entries(rd.wlp, rd.data, L)|
      ensures 0 < |Entries(rd.wlp, rd.data, L)[k].word| && Entries(rd.wlp, rd.data, L)[k].word[0] != 0
    {
      EntryWellFormed(rd.wlp, rd.data, L, k);
    }
  }

  /** One step of get_word_count_for_length, on the words seen so far. */
  lemma CountStep(ws: seq<seq<byte>>, k: int)
    requires 0 <= k < |ws|
    ensures |Dedup(ws[..k + 1])| == if k > 0 && ws[k - 1] == ws[k] then |Dedup(ws[..k])| else |Dedup(ws[..k])| + 1
  {
    assert ws[..k + 1] == ws[..k] + [ws[k]];
    DedupSnoc(ws[..k], ws[k]);
  }

  /** get_word_count_for_length: 0 for a length without a segment; otherwise the number of
      stored words once adjacent repeats are dropped, which is how many words
      yield_words_with_length yields. */
  method GetWordCountForLength(rd: Reader, L: int) returns (count: int)
    requires rd.Valid()
    ensures !IsWordLenValid(rd.wlp, L) ==> count == 0
    ensures IsWordLenValid(rd.wlp, L) ==> count == |Dedup(Words(Entries(rd.wlp, rd.data, L)))|
  {
    if !(0 < L < rd.GetWlpLen()) {
      return 0;
    }
    var starts := Elems(StartBlockRange(rd, L, false));
    VisitPlan(rd, L, false);
    FirstWordNotZero(rd, L);
    count := CountVisitedWords(rd, L, starts, Entries(rd.wlp, rd.data, L));
  }

  /** The loop of get_word_count_for_length over the visited blocks, with last_word starting out
      as L zero bytes. */
  method CountVisitedWords(rd: Reader, L: nat, starts: seq<int>, ghost os: seq<Entry>) returns (count: int)
    requires Visits(rd.data, L, starts, os)
    requires forall k :: 0 <= k < |os| ==> 0 < |os[k].word| && os[k].word[0] != 0
    ensures count == |Dedup(Words(os))|
  {
    ghost var ws := Words(os);
    count := 0;
    var lastWord := new byte[L](_ => 0);
    ghost var zeros := lastWord[..];
    for k := 0 to |starts|
      invariant k == 0 ==> lastWord[..] == zeros
      invariant k > 0 ==> lastWord[..] == ws[k - 1]
      invariant count == |Dedup(ws[..k])|
    {
      assert ws[k] == rd.data[starts[k]..starts[k] + L];
      if k == 0 {
        assert ws[0][0] != zeros[0];
      }
      var changed := AdvanceLastWord(rd, lastWord, starts[k]);
      CountStep(ws, k);
      if changed {
        count := count + 1;
      }
    }
    assert ws[..|starts|] == ws;
  }

  /** get_word_pos_count_for_length: 0 for a length without a segment, otherwise the number of
      blocks of the segment, one per pair yield_word_pos_id_with_length yields. */
  function GetWordPosCountForLength(rd: Reader, L: int): (n: int)
    requires rd.Valid()
    ensures !IsWordLenValid(rd.wlp, L) ==> n == 0
    ensures IsWordLenValid(rd.wlp, L) ==> n == |Entries(rd.wlp, rd.data, L)|
  {
    if !(0 < L < rd.GetWlpLen()) then 0
    else (rd.wlp[L] - rd.wlp[L - 1]) / (L + 2)
  }

  // ---- properties of what is yielded ----

  /** Visiting the blocks backwards visits their words backwards. */
  lemma WordsReversed(es: seq<Entry>)
    ensures Words(Ordered(es, true)) == Reverse(Words(es))
  {
  }

  lemma UnpackedReverse(ws: seq<seq<byte>>)
    ensures Unpacked(Reverse(ws)) == Reverse(Unpacked(ws))
  {
  }

  /** The backward generator yields exactly the forward one's words, last first. */
  lemma YieldWordsReversal(es: seq<Entry>)
    ensures Unpacked(Dedup(Words(Ordered(es, true)))) == Reverse(Unpacked(Dedup(Words(es))))
  {
    WordsReversed(es);
    DedupReverse(Words(es));
    UnpackedReverse(Dedup(Words(es)));
  }

  /** In a sorted segment the forward generator yields strictly increasing words, and the
      backward one strictly decreasing words. */
  lemma YieldWordsOrdered(es: seq<Entry>)
    requires SegmentSorted(es)
    ensures StrictlyIncreasing(Dedup(Words(Ordered(es, false))))
    ensures StrictlyDecreasing(Dedup(Words(Ordered(es, true))))
  {
    SortedWordsNonDecreasing(es);
    DedupIncreasing(Words(es));
    ReverseDecreasing(Dedup(Words(es)));
    WordsReversed(es);
    DedupReverse(Words(es));
  }

  /** Every stored word is yielded, and nothing else is. */
  lemma YieldWordsCover(es: seq<Entry>, reverse: bool)
    ensures forall w :: w in Dedup(Words(Ordered(es, reverse))) <==> w in Words(es)
  {
    var ws := Words(Ordered(es, reverse));
    DedupElements(ws);
    DedupCovers(ws);
    assert forall w :: w in ws <==> w in Words(es) by {
      forall w | w in Words(es) ensures w in ws {
        var k :| 0 <= k < |es| && Words(es)[k] == w;
        if reverse {
          assert ws[|es| - 1 - k] == w;
        }
      }
    }
  }

  /** The per-length word count is the number of words the generator yields in either order. */
  lemma CountIsYieldLength(es: seq<Entry>, reverse: bool)
    ensures |Unpacked(Dedup(Words(Ordered(es, reverse))))| == |Dedup(Words(es))|
  {
    if reverse {
      WordsReversed(es);
      DedupReverse(Words(es));
    }
  }
}
