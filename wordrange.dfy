/** The word-range queries: the positions of the category bytes of every block of a word, and the
    category list and category-to-level map read from them. */
module WordRange {
  import opened Wrappers
  import opened Validator
  import opened Reader
  import opened Layout
  import opened Packing
  import opened Search
  import opened Lookup

  /** A Python range. */
  datatype Range = Range(start: int, stop: int, step: int)

  /** The values a range with a non-zero step yields, in order: up to below stop for a positive
      step, down to above stop for a negative one. */
  function Elems(r: Range): seq<int>
    requires r.step != 0
    decreases if r.step > 0 then r.stop - r.start else r.start - r.stop
  {
    if (r.step > 0 && r.start >= r.stop) || (r.step < 0 && r.start <= r.stop) then []
    else [r.start] + Elems(Range(r.start + r.step, r.stop, r.step))
  }

  /** The positions of the category bytes of blocks a..e-1 of segment L. */
  function PosOffsets(wlp: seq<nat>, L: int, a: int, e: int): seq<int>
    requires IsWordLenValid(wlp, L)
    decreases e - a
  {
    if a >= e then [] else [BlockPos(wlp, L, a) + L] + PosOffsets(wlp, L, a + 1, e)
  }

  /** Blocks a..e-1 are the whole run of the word: they hold it, and their neighbours do not. */
  ghost predicate WordRun(es: seq<Entry>, w: seq<byte>, a: int, e: int)
  {
    a < e && Run(es, w, a, e) && (a == 0 || es[a - 1].word != w) && (e == |es| || es[e].word != w)
  }

  /** The range from the category byte of block a to just past that of block e-1, stepping by
      the block length, yields the category bytes of blocks a..e-1. */
  lemma {:induction false} RangeOfBlocks(wlp: seq<nat>, L: int, a: int, e: int)
    requires IsWordLenValid(wlp, L) && a < e
    ensures Elems(Range(BlockPos(wlp, L, a) + L, BlockPos(wlp, L, e - 1) + L + 1, L + 2)) ==
            PosOffsets(wlp, L, a, e)
    decreases e - a
  {
    BlockPosStep(wlp, L, a);
    PosOrder(wlp, L, a, e - 1);
    if a + 1 < e {
      RangeOfBlocks(wlp, L, a + 1, e);
    } else {
      assert PosOffsets(wlp, L, a + 1, e) == [];
    }
  }

  /** The range the source builds from the blocks just before and just after blocks a..e-1,
      which start at before and after, yields the category bytes of blocks a..e-1. */
  lemma RangeBetween(wlp: seq<nat>, L: int, a: int, e: int, before: int, after: int)
    requires IsWordLenValid(wlp, L) && a < e
    requires before == BlockPos(wlp, L, a - 1) && after == BlockPos(wlp, L, e)
    ensures Elems(Range(before + (L + 2) + L, after - (L + 2) + L + 1, L + 2)) == PosOffsets(wlp, L, a, e)
  {
    BlockPosStep(wlp, L, a - 1);
    BlockPosStep(wlp, L, e);
    RangeOfBlocks(wlp, L, a, e);
  }

  /** One step of a loop over such a range: the range goes on exactly while blocks remain, and
      its next value is the category byte of the next block. */
  lemma RangeStep(wlp: seq<nat>, L: int, i: int, stop: int, step: int, j: int, e: int)
    requires IsWordLenValid(wlp, L) && step > 0
    requires Elems(Range(i, stop, step)) == PosOffsets(wlp, L, j, e)
    ensures i < stop <==> j < e
    ensures i < stop ==>
      i == BlockPos(wlp, L, j) + L && Elems(Range(i + step, stop, step)) == PosOffsets(wlp, L, j + 1, e)
  {
    var xs, ys := Elems(Range(i, stop, step)), PosOffsets(wlp, L, j, e);
    if i < stop {
      assert xs[0] == i && xs[1..] == Elems(Range(i + step, stop, step));
      assert j < e;
      assert ys[0] == BlockPos(wlp, L, j) + L && ys[1..] == PosOffsets(wlp, L, j + 1, e);
    } else {
      assert |ys| == 0;
    }
  }

  /** In a sorted segment the run around any block of the word is every block of the word. */
  lemma RunIsAll(es: seq<Entry>, w: seq<byte>, a: int, e: int, t: int)
    requires SegmentSorted(es) && WordRun(es, w, a, e) && 0 <= t < |es|
    ensures es[t].word == w <==> a <= t < e
  {
    if a <= t < e {
      RunAt(es, w, a, e, t);
    } else if es[t].word == w {
      RunAt(es, w, a, e, a);
      if t < a {
        RunContiguous(es, w, t, a - 1, a);
      } else {
        RunContiguous(es, w, a, e, t);
      }
    }
  }

  // ---- the two scans of _get_word_data_range ----

  /** The backward loop of source lines 262-277: it stops at the segment start or at the first
      block before block k of another word, at position m, the block before the run. */
  method RunStartScan(rd: Reader, word: seq<byte>, first: int, ghost es: seq<Entry>, ghost k: int)
    returns (m: int, ghost a: int)
    requires rd.Valid() && IsWordLenValid(rd.wlp, |word|)
    requires es == Entries(rd.wlp, rd.data, |word|)
    requires 0 <= k < |es| && first == BlockPos(rd.wlp, |word|, k) && es[k].word == word
    ensures a <= k && Run(es, word, a, k + 1) && (a == 0 || es[a - 1].word != word)
    ensures m == BlockPos(rd.wlp, |word|, a - 1)
  {
    var wlp := rd.wlp;
    var L := |word|;
    var B := L + 2;
    var start := wlp[L - 1];
    m, a := first, k;
    while true
      invariant 0 <= a <= k && m == BlockPos(wlp, L, a)
      invariant Run(es, word, a, k + 1)
      decreases a
    {
      BlockPosStep(wlp, L, a);
      PosOrder(wlp, L, 0, a - 1);
      m := m - B;
      if m < start {
        return;
      }
      var same := ReadBlock(rd, word, m, es, a - 1);
      if !same {
        return;
      }
      a := a - 1;
    }
  }

  /** The forward loop of source lines 282-297: it stops at the segment end or at the first block
      after block k of another word, at position m, the block after the run. */
  method RunEndScan(rd: Reader, word: seq<byte>, first: int, ghost es: seq<Entry>, ghost k: int)
    returns (m: int, ghost e: int)
    requires rd.Valid() && IsWordLenValid(rd.wlp, |word|)
    requires es == Entries(rd.wlp, rd.data, |word|)
    requires 0 <= k < |es| && first == BlockPos(rd.wlp, |word|, k) && es[k].word == word
    ensures k < e && Run(es, word, k, e) && (e == |es| || es[e].word != word)
    ensures m == BlockPos(rd.wlp, |word|, e)
  {
    var wlp := rd.wlp;
    var L := |word|;
    var B := L + 2;
    var end := wlp[L];
    SegmentEnd(wlp, L);
    m, e := first, k + 1;
    while true
      invariant k < e <= |es| && m == BlockPos(wlp, L, e - 1)
      invariant Run(es, word, k, e)
      decreases |es| - e
    {
      BlockPosStep(wlp, L, e - 1);
      PosOrder(wlp, L, |es|, e);
      m := m + B;
      if m >= end {
        return;
      }
      var same := ReadBlock(rd, word, m, es, e);
      if !same {
        return;
      }
      RunSnoc(es, word, k, e);
      e := e + 1;
    }
  }

  /** Source lines 250-301 for a packed word: None when the search does not find it, and
      otherwise the range of the category bytes of the blocks a..e-1 of the run around the block
      the search lands on, its end taken from the block after the run. */
  method PackedWordRange(rd: Reader, w: seq<byte>) returns (r: Option<Range>, ghost a: int, ghost e: int)
    requires rd.Valid() && IsWordLenValid(rd.wlp, |w|)
    ensures r.None? ==>
      (SegmentSorted(Entries(rd.wlp, rd.data, |w|)) ==> !HasWord(Entries(rd.wlp, rd.data, |w|), w))
    ensures r.Some? ==>
      r.value.step == |w| + 2 && WordRun(Entries(rd.wlp, rd.data, |w|), w, a, e) &&
      Elems(r.value) == PosOffsets(rd.wlp, |w|, a, e)
  {
    a, e := 0, 0;
    var L := |w|;
    var B := L + 2;
    ghost var es := Entries(rd.wlp, rd.data, L);
    var first := FirstWordMatchPos(rd, w);
    if first == -1 {
      return None, a, e;
    }
    ghost var k :| 0 <= k < |es| && first == BlockPos(rd.wlp, L, k) && es[k].word == w;
    var m0, m;
    m0, a := RunStartScan(rd, w, first, es, k);
    var startRange := m0 + B + L;
    m, e := RunEndScan(rd, w, first, es, k);
    var endRange := m - B + L + 1;
    RunJoin(es, w, a, k + 1, e);
    RangeBetween(rd.wlp, L, a, e, m0, m);
    return Some(Range(startRange, endRange, B)), a, e;
  }

  /** _get_word_data_range (source lines 236-301): None for a length without a segment,
      StructError for a word that does not pack, and otherwise the range of the packed word. */
  method WordDataRange(rd: Reader, word: string) returns (res: Result<Option<Range>>, ghost a: int, ghost e: int)
    requires rd.Valid()
    ensures res.Err? <==> IsWordLenValid(rd.wlp, |word|) && PackWord(word).Err?
    ensures res.Err? ==> res.error == StructError
    ensures res == Ok(None) ==> (!IsWordLenValid(rd.wlp, |word|) ||
      (SegmentSorted(Entries(rd.wlp, rd.data, |word|)) ==>
         !HasWord(Entries(rd.wlp, rd.data, |word|), PackWord(word).value)))
    ensures res.Ok? && res.value.Some? ==>
      IsWordLenValid(rd.wlp, |word|) && PackWord(word).Ok? && res.value.value.step == |word| + 2 &&
      WordRun(Entries(rd.wlp, rd.data, |word|), PackWord(word).value, a, e) &&
      Elems(res.value.value) == PosOffsets(rd.wlp, |word|, a, e)
  {
    a, e := 0, 0;
    if !(0 < |word| < |rd.wlp|) {
      return Ok(None), a, e;
    }
    var packed := PackWord(word);
    if packed.Err? {
      return Err(StructError), a, e;
    }
    var r;
    r, a, e := PackedWordRange(rd, packed.value);
    return Ok(r), a, e;
  }

  // ---- the end of the range as the source computes it ----

  /** The offset of the first byte at or after t where the bytes at p differ from the word, or
      |word| when they spell it: where the byte loop leaves i. */
  function Mismatch(data: seq<byte>, p: int, word: seq<byte>, t: nat): (d: nat)
    requires 0 <= p && p + |word| <= |data| && t <= |word|
    ensures t <= d <= |word|
    ensures d < |word| ==> data[p + d] != word[d]
    ensures forall j :: t <= j < d ==> data[p + j] == word[j]
    decreases |word| - t
  {
    if t == |word| || data[p + t] != word[t] then t else Mismatch(data, p, word, t + 1)
  }

  /** The value of i when the forward loop of source lines 282-297 ends, started at block m with
      i as given: the mismatch position in the first block of another word, or, when the loop
      reaches the segment end, the value i kept from the last block it read in full. The branch
      for a block that would run past the end of the data stands for the IndexError the source
      raises at line 290; it cannot be taken when the data is valid and m is the start of a
      block, because every segment lies inside the data in whole blocks. */
  function ForwardExitAsWritten(data: seq<byte>, word: seq<byte>, m: int, i: int, end: int): (r: int)
    requires 0 <= m && end <= |data|
    ensures r == i || m < r <= |data|
    decreases end - m
  {
    var m' := m + |word| + 2;
    if m' >= end then i
    else if m' + |word| > |data| then i
    else
      var d := Mismatch(data, m', word, 0);
      if d < |word| then m' + d else ForwardExitAsWritten(data, word, m', m' + |word|, end)
  }

  /** The value of i when the backward loop of source lines 264-278 ends, started at block m with
      i as given: the mismatch position in the first block of another word, or, when the loop
      passes the segment start, the value i kept from the last block it read in full. */
  function BackwardExitAsWritten(data: seq<byte>, word: seq<byte>, m: int, i: int, start: int): (r: int)
    requires m <= |data|
    ensures r == i || r < m
    decreases m - start
  {
    var m' := m - (|word| + 2);
    if m' < start || m' < 0 then i
    else
      var d := Mismatch(data, m', word, 0);
      if d < |word| then m' + d else BackwardExitAsWritten(data, word, m', m' + |word|, start)
  }

  /** end_range as the source computes it (source line 299): from i as the two scans leave it,
      which is stale when the forward scan stops at the segment end. */
  function RangeEndAsWritten(wlp: seq<nat>, data: seq<byte>, word: seq<byte>, first: int): int
    requires DataValid(wlp, data) && IsWordLenValid(wlp, |word|) && 0 <= first <= |data|
  {
    TableMonotone(wlp, |word|, |wlp| - 1);
    var i := BackwardExitAsWritten(data, word, first, first + |word|, wlp[|word| - 1]);
    ForwardExitAsWritten(data, word, first, i, wlp[|word|]) - (|word| + 2) + |word| + 1
  }

  /** A run holds the word from any of its blocks on. */
  lemma {:induction false} RunDrop(es: seq<Entry>, w: seq<byte>, a: int, e: int, t: int)
    requires Run(es, w, a, e) && a <= t <= e
    ensures Run(es, w, t, e)
    decreases t - a
  {
    if a < t {
      RunDrop(es, w, a + 1, e, t);
    }
  }

  /** The byte loop runs through the whole word exactly when the bytes at p spell it. */
  lemma MismatchMeaning(data: seq<byte>, p: int, word: seq<byte>)
    requires 0 <= p && p + |word| <= |data|
    ensures Mismatch(data, p, word, 0) == |word| <==> data[p..p + |word|] == word
  {
    var d := Mismatch(data, p, word, 0);
    var spelled := data[p..p + |word|];
    assert forall t :: 0 <= t < |word| ==> spelled[t] == data[p + t];
    if d == |word| {
      assert spelled == word;
    }
  }

  /** The n blocks after the one at m, one block length apart and before end, spell the word,
      and the block after them, at after, spells another word (hit) or starts at or past end. */
  ghost predicate Chain(data: seq<byte>, word: seq<byte>, m: int, end: int, n: nat, hit: bool, after: int)
    decreases n
  {
    var m' := m + |word| + 2;
    if n == 0 then
      after == m' &&
      (hit ==> 0 <= m' && m' < end && m' + |word| <= |data| && data[m'..m' + |word|] != word) &&
      (!hit ==> m' >= end)
    else
      0 <= m' && m' < end && m' + |word| <= |data| && data[m'..m' + |word|] == word &&
      Chain(data, word, m', end, n - 1, hit, after)
  }

  /** Along such a chain the forward loop of source lines 282-297 leaves i inside the block at
      after when that block spells another word, and otherwise keeps the i of the last block it
      read in full, or the given i when it read none. */
  lemma {:induction false} ChainExit(data: seq<byte>, word: seq<byte>, m: int, i: int, end: int,
                                     n: nat, hit: bool, after: int)
    requires 0 <= m && end <= |data| && Chain(data, word, m, end, n, hit, after)
    ensures var r := ForwardExitAsWritten(data, word, m, i, end);
      (hit ==> after <= r < after + |word|) &&
      (!hit ==> r == if n == 0 then i else after - 2)
    decreases n
  {
    var m' := m + |word| + 2;
    if n == 0 {
      if hit {
        MismatchMeaning(data, m', word);
      }
    } else {
      MismatchMeaning(data, m', word);
      ChainExit(data, word, m', m' + |word|, end, n - 1, hit, after);
    }
  }

  /** Blocks j+1..e-1 of a segment holding the word, and block e holding another word or lying
      past the segment end, form a chain after block j. */
  lemma {:induction false} ChainOfRun(wlp: seq<nat>, data: seq<byte>, word: seq<byte>,
                                      es: seq<Entry>, j: int, e: int, m: int, after: int)
    requires DataValid(wlp, data) && IsWordLenValid(wlp, |word|) && es == Entries(wlp, data, |word|)
    requires 0 <= j < e <= |es| && Run(es, word, j + 1, e) && (e == |es| || es[e].word != word)
    requires m == BlockPos(wlp, |word|, j) && after == BlockPos(wlp, |word|, e)
    ensures Chain(data, word, m, wlp[|word|], e - j - 1, e < |es|, after)
    decreases e - j
  {
    var L := |word|;
    var m' := m + L + 2;
    ForwardNext(wlp, data, L, es, j + 1, m);
    if j + 1 < |es| {
      EntryBytes(wlp, data, L, j + 1);
      assert es[j + 1].word == data[m'..m' + L];
    }
    if e > j + 1 {
      ChainOfRun(wlp, data, word, es, j + 1, e, m', after);
    }
  }

  /** A run holds the word up to any of its blocks. */
  lemma {:induction false} RunTake(es: seq<Entry>, w: seq<byte>, a: int, e: int, t: int)
    requires Run(es, w, a, e) && a <= t <= e
    ensures Run(es, w, a, t)
    decreases t - a
  {
    if a < t {
      RunTake(es, w, a + 1, e, t);
    }
  }

  /** The n blocks before the one at m, one block length apart and from start on, spell the
      word, and the block before them, at before, spells another word (hit) or starts before
      start. */
  ghost predicate BackChain(data: seq<byte>, word: seq<byte>, m: int, start: int, n: nat, hit: bool, before: int)
    decreases n
  {
    var m' := m - (|word| + 2);
    if n == 0 then
      before == m' &&
      (hit ==> 0 <= m' && start <= m' && m' + |word| <= |data| && data[m'..m' + |word|] != word) &&
      (!hit ==> m' < start || m' < 0)
    else
      0 <= m' && start <= m' && m' + |word| <= |data| && data[m'..m' + |word|] == word &&
      BackChain(data, word, m', start, n - 1, hit, before)
  }

  /** One more block spelling the word, at m' below m, extends a backward chain. */
  lemma BackChainCons(data: seq<byte>, word: seq<byte>, m: int, m': int, start: int, n: nat, hit: bool, before: int)
    requires m' == m - (|word| + 2) && 0 <= m' && start <= m' && m' + |word| <= |data|
    requires data[m'..m' + |word|] == word && BackChain(data, word, m', start, n, hit, before)
    ensures BackChain(data, word, m, start, n + 1, hit, before)
  {
  }

  /** Along such a chain the backward loop of source lines 264-278 leaves i no later than the
      category byte of the block after the one at before: inside that block when it spells
      another word, and otherwise at the i of the last block it read in full. */
  lemma {:induction false} BackChainExit(data: seq<byte>, word: seq<byte>, m: int, i: int, start: int,
                                         n: nat, hit: bool, before: int)
    requires m <= |data| && i <= m + |word| && BackChain(data, word, m, start, n, hit, before)
    ensures BackwardExitAsWritten(data, word, m, i, start) <= before + |word| + 2 + |word|
    ensures hit ==> BackwardExitAsWritten(data, word, m, i, start) < before + |word|
    decreases n
  {
    var m' := m - (|word| + 2);
    if n > 0 || hit {
      MismatchMeaning(data, m', word);
    }
    if n > 0 {
      BackChainExit(data, word, m', m' + |word|, start, n - 1, hit, before);
    }
  }

  /** Blocks a..j-1 of a segment holding the word, and block a-1 holding another word or lying
      before the segment start, form a backward chain before block j. */
  lemma {:induction false} BackChainOfRun(wlp: seq<nat>, data: seq<byte>, word: seq<byte>,
                                          es: seq<Entry>, a: int, j: int, m: int, before: int)
    requires DataValid(wlp, data) && IsWordLenValid(wlp, |word|) && es == Entries(wlp, data, |word|)
    requires 0 <= a <= j < |es| && Run(es, word, a, j) && (a == 0 || es[a - 1].word != word)
    requires m == BlockPos(wlp, |word|, j) && before == BlockPos(wlp, |word|, a - 1)
    ensures BackChain(data, word, m, wlp[|word| - 1], j - a, a > 0, before)
    decreases j - a
  {
    var L := |word|;
    var m' := m - (L + 2);
    BackwardNext(wlp, L, j, m);
    if j > a {
      BlockBelowSpells(wlp, data, word, es, a, j, m');
      RunTake(es, word, a, j, j - 1);
      BackChainOfRun(wlp, data, word, es, a, j - 1, m', before);
      BackChainCons(data, word, m, m', wlp[L - 1], j - 1 - a, a > 0, before);
    } else if a > 0 {
      EntryBytes(wlp, data, L, a - 1);
      assert es[a - 1].word == data[m'..m' + L];
    }
  }

  /** Inside a run a..j-1, the block just below block j lies in the segment and spells the word. */
  lemma BlockBelowSpells(wlp: seq<nat>, data: seq<byte>, word: seq<byte>, es: seq<Entry>, a: int, j: int, p: int)
    requires DataValid(wlp, data) && IsWordLenValid(wlp, |word|) && es == Entries(wlp, data, |word|)
    requires 0 <= a < j < |es| && Run(es, word, a, j) && p == BlockPos(wlp, |word|, j - 1)
    ensures 0 <= wlp[|word| - 1] <= p && p + |word| <= |data| && data[p..p + |word|] == word
  {
    EntryBytes(wlp, data, |word|, j - 1);
    RunAt(es, word, a, j, j - 1);
  }

  /** Started from block k of the run a..e-1, the backward loop leaves i no later than the
      category byte of block a. */
  lemma BackwardExitOfRun(wlp: seq<nat>, data: seq<byte>, word: seq<byte>, a: int, e: int, k: int, first: int)
    requires DataValid(wlp, data) && IsWordLenValid(wlp, |word|)
    requires WordRun(Entries(wlp, data, |word|), word, a, e) && a <= k < e
    requires first == BlockPos(wlp, |word|, k) && 0 <= first <= |data|
    ensures BackwardExitAsWritten(data, word, first, first + |word|, wlp[|word| - 1]) <=
      BlockPos(wlp, |word|, a) + |word|
  {
    var L := |word|;
    var es := Entries(wlp, data, L);
    RunTake(es, word, a, e, k);
    BackChainOfRun(wlp, data, word, es, a, k, first, BlockPos(wlp, L, a - 1));
    BackChainExit(data, word, first, first + L, wlp[L - 1], k - a, a > 0, BlockPos(wlp, L, a - 1));
    BlockPosStep(wlp, L, a);
  }

  /** A range from the category byte of block a whose stop lies after the category byte of
      block e-1 and no further than the next one yields the category bytes of blocks a..e-1. */
  lemma {:induction false} RangeOfBlocksStop(wlp: seq<nat>, L: int, a: int, e: int, stop: int)
    requires IsWordLenValid(wlp, L) && a < e
    requires BlockPos(wlp, L, e - 1) + L < stop <= BlockPos(wlp, L, e - 1) + L + L + 2
    ensures Elems(Range(BlockPos(wlp, L, a) + L, stop, L + 2)) == PosOffsets(wlp, L, a, e)
    decreases e - a
  {
    BlockPosStep(wlp, L, a);
    PosOrder(wlp, L, a, e - 1);
    if a + 1 < e {
      RangeOfBlocksStop(wlp, L, a + 1, e, stop);
    } else {
      assert Elems(Range(BlockPos(wlp, L, a) + L + L + 2, stop, L + 2)) == [];
      assert PosOffsets(wlp, L, a + 1, e) == [];
    }
  }

  /** A range with a positive step yields only values below its stop. */
  lemma {:induction false} ElemsBelow(r: Range)
    requires r.step > 0
    ensures forall x :: x in Elems(r) ==> x < r.stop
    decreases r.stop - r.start
  {
    if r.start < r.stop {
      ElemsBelow(Range(r.start + r.step, r.stop, r.step));
    }
  }

  /** The category byte of the last block is among those of blocks a..e-1. */
  lemma {:induction false} PosOffsetsLast(wlp: seq<nat>, L: int, a: int, e: int)
    requires IsWordLenValid(wlp, L) && a < e
    ensures BlockPos(wlp, L, e - 1) + L in PosOffsets(wlp, L, a, e)
    decreases e - a
  {
    assert PosOffsets(wlp, L, a, e) == [BlockPos(wlp, L, a) + L] + PosOffsets(wlp, L, a + 1, e);
    if a + 1 < e {
      PosOffsetsLast(wlp, L, a + 1, e);
    }
  }

  /** A range from the category byte of block a yields exactly the category bytes of blocks
      a..e-1 when its stop lies just past the last one's, and misses that byte when its stop
      lies before it. */
  lemma StopMeaning(wlp: seq<nat>, L: int, a: int, e: int, reaches: bool, stop: int)
    requires IsWordLenValid(wlp, L) && a < e
    requires !reaches ==> BlockPos(wlp, L, e - 1) + L < stop <= BlockPos(wlp, L, e - 1) + L + L + 2
    requires reaches ==> stop < BlockPos(wlp, L, e - 1) + L
    ensures Elems(Range(BlockPos(wlp, L, a) + L, stop, L + 2)) == PosOffsets(wlp, L, a, e) <==> !reaches
  {
    if reaches {
      ElemsBelow(Range(BlockPos(wlp, L, a) + L, stop, L + 2));
      PosOffsetsLast(wlp, L, a, e);
    } else {
      RangeOfBlocksStop(wlp, L, a, e, stop);
    }
  }

  /** For the whole run a..e-1 of a word around the block k the search lands on, the source's
      range, with its end taken from i as the scans leave it, yields exactly the category bytes
      of the run when the run ends before the segment does. When the run reaches the segment
      end, it loses the run's last block, or every block of the run when the search landed on
      that last block. */
  lemma AsWrittenRangeMeaning(wlp: seq<nat>, data: seq<byte>, word: seq<byte>, a: int, e: int, k: int, first: int)
    requires DataValid(wlp, data) && IsWordLenValid(wlp, |word|)
    requires WordRun(Entries(wlp, data, |word|), word, a, e) && a <= k < e
    requires first == BlockPos(wlp, |word|, k) && 0 <= first <= |data|
    ensures var L := |word|;
      Elems(Range(BlockPos(wlp, L, a) + L, RangeEndAsWritten(wlp, data, word, first), L + 2)) ==
        PosOffsets(wlp, L, a, e)
      <==> e < |Entries(wlp, data, L)|
    ensures var L := |word|;
      e == |Entries(wlp, data, L)| && k + 1 < e ==>
        Elems(Range(BlockPos(wlp, L, a) + L, RangeEndAsWritten(wlp, data, word, first), L + 2)) ==
          PosOffsets(wlp, L, a, e - 1)
    ensures var L := |word|;
      e == |Entries(wlp, data, L)| && k + 1 == e ==>
        Elems(Range(BlockPos(wlp, L, a) + L, RangeEndAsWritten(wlp, data, word, first), L + 2)) == []
  {
    var i, r := ExitsOfRun(wlp, data, word, a, e, k, first);
    StopOfExit(wlp, |word|, a, k, e, e == |Entries(wlp, data, |word|)|, i, r,
               RangeEndAsWritten(wlp, data, word, first));
  }

  /** Where the two loops leave i when the search lands on block k of the run a..e-1. */
  lemma ExitsOfRun(wlp: seq<nat>, data: seq<byte>, word: seq<byte>, a: int, e: int, k: int, first: int)
    returns (i: int, r: int)
    requires DataValid(wlp, data) && IsWordLenValid(wlp, |word|)
    requires WordRun(Entries(wlp, data, |word|), word, a, e) && a <= k < e
    requires first == BlockPos(wlp, |word|, k) && 0 <= first <= |data|
    ensures var L := |word|;
      (i == BlockPos(wlp, L, k) + L || i < BlockPos(wlp, L, k)) && i <= BlockPos(wlp, L, a) + L
    ensures var L, n := |word|, |Entries(wlp, data, |word|)|;
      (e == n ==> r == if e == k + 1 then i else BlockPos(wlp, L, e) - 2) &&
      (e < n ==> BlockPos(wlp, L, e) <= r < BlockPos(wlp, L, e) + L)
    ensures RangeEndAsWritten(wlp, data, word, first) == r - (|word| + 2) + |word| + 1
  {
    var L := |word|;
    TableMonotone(wlp, L, |wlp| - 1);
    i := BackwardExitAsWritten(data, word, first, first + L, wlp[L - 1]);
    r := ForwardExitAsWritten(data, word, first, i, wlp[L]);
    BackwardExitOfRun(wlp, data, word, a, e, k, first);
    ForwardExitOfRun(wlp, data, word, a, e, k, first, i);
  }

  /** Where the forward loop leaves i when it starts from block k of the run a..e-1. */
  lemma ForwardExitOfRun(wlp: seq<nat>, data: seq<byte>, word: seq<byte>, a: int, e: int, k: int, first: int, i: int)
    requires DataValid(wlp, data) && IsWordLenValid(wlp, |word|)
    requires WordRun(Entries(wlp, data, |word|), word, a, e) && a <= k < e
    requires first == BlockPos(wlp, |word|, k) && 0 <= first <= |data| && wlp[|word|] <= |data|
    ensures var L, n, r := |word|, |Entries(wlp, data, |word|)|, ForwardExitAsWritten(data, word, first, i, wlp[|word|]);
      (e == n ==> r == if e == k + 1 then i else BlockPos(wlp, L, e) - 2) &&
      (e < n ==> BlockPos(wlp, L, e) <= r < BlockPos(wlp, L, e) + L)
  {
    var L := |word|;
    var es := Entries(wlp, data, L);
    RunDrop(es, word, a, e, k + 1);
    ChainOfRun(wlp, data, word, es, k, e, first, BlockPos(wlp, L, e));
    ChainExit(data, word, first, i, wlp[L], e - k - 1, e < |es|, BlockPos(wlp, L, e));
  }

  /** The arithmetic of AsWrittenRangeMeaning: the range end computed from where the forward
      loop leaves i. */
  lemma StopOfExit(wlp: seq<nat>, L: int, a: int, k: int, e: int, reaches: bool, i: int, r: int, stop: int)
    requires IsWordLenValid(wlp, L) && a <= k < e && stop == r - (L + 2) + L + 1
    requires i == BlockPos(wlp, L, k) + L || i < BlockPos(wlp, L, k)
    requires i <= BlockPos(wlp, L, a) + L
    requires reaches ==> r == if e == k + 1 then i else BlockPos(wlp, L, e) - 2
    requires !reaches ==> BlockPos(wlp, L, e) <= r < BlockPos(wlp, L, e) + L
    ensures Elems(Range(BlockPos(wlp, L, a) + L, stop, L + 2)) == PosOffsets(wlp, L, a, e) <==> !reaches
    ensures reaches && k + 1 < e ==>
      Elems(Range(BlockPos(wlp, L, a) + L, stop, L + 2)) == PosOffsets(wlp, L, a, e - 1)
    ensures reaches && k + 1 == e ==> Elems(Range(BlockPos(wlp, L, a) + L, stop, L + 2)) == []
  {
    BlockPosStep(wlp, L, e - 1);
    PosOrder(wlp, L, k, e - 1);
    StopMeaning(wlp, L, a, e, reaches, stop);
    if reaches && k + 1 < e {
      BlockPosStep(wlp, L, e - 2);
      RangeOfBlocksStop(wlp, L, a, e - 1, stop);
    }
  }


  /** A word whose run reaches the end of its segment loses its last block: for the single word
      "a" with category 0, the source's range is range(1, 0, 3), which is empty, while the
      corrected end gives range(1, 2, 3), the position of the one category byte. */
  lemma AsWrittenDropsLastBlock()
    ensures DataValid([0, 3], [97, 0, 0])
    ensures HasWord(Entries([0, 3], [97, 0, 0], 1), [97])
    ensures RangeEndAsWritten([0, 3], [97, 0, 0], [97], 0) == 0
    ensures Elems(Range(1, RangeEndAsWritten([0, 3], [97, 0, 0], [97], 0), 3)) == []
    ensures Elems(Range(BlockPos([0, 3], 1, 0) + 1, BlockPos([0, 3], 1, 0) + 1 + 1, 3)) ==
            PosOffsets([0, 3], 1, 0, 1) == [1]
  {
    OneBlockLayoutValid();
    var es := Entries([0, 3], [97, 0, 0], 1);
    EntryBytes([0, 3], [97, 0, 0], 1, 0);
    assert es[0].word == [97];
    RangeOfBlocks([0, 3], 1, 0, 1);
  }

  // ---- what the two queries read from the range ----

  /** The fold of f, in storage order, over the blocks among lo..hi-1 that hold w. */
  function FoldWord<A>(es: seq<Entry>, w: seq<byte>, lo: int, hi: int, z: A, f: (A, Entry) -> A): A
    requires 0 <= lo && hi <= |es|
    decreases hi - lo
  {
    if hi <= lo then z
    else
      var acc := FoldWord(es, w, lo, hi - 1, z, f);
      if es[hi - 1].word == w then f(acc, es[hi - 1]) else acc
  }

  /** pos_list.append: one category more. */
  function AddPos(ps: seq<int>, x: Entry): seq<int>
  {
    ps + [x.pos]
  }

  /** result[pos_tag] = byte_int_level_to_float(level): one entry more, or the ValueError of a
      level byte above 250, which ends the query. */
  function AddLevel(acc: Result<map<int, real>>, x: Entry): Result<map<int, real>>
  {
    match acc
    case Err(err) => Err(err)
    case Ok(m) =>
      match ByteIntLevelToFloat(x.level)
      case Err(err) => Err(err)
      case Ok(v) => Ok(m[x.pos := v])
  }

  /** The categories of the blocks of w, in storage order: what get_all_pos_for_word returns. */
  function CategoriesOf(es: seq<Entry>, w: seq<byte>): seq<int>
  {
    FoldWord(es, w, 0, |es|, [], AddPos)
  }

  /** The category-to-level map of the blocks of w: what get_pos_level_dict_for_word returns. */
  function LevelsOf(es: seq<Entry>, w: seq<byte>): Result<map<int, real>>
  {
    FoldWord(es, w, 0, |es|, Ok(map[]), AddLevel)
  }

  lemma {:induction false} FoldNone<A>(es: seq<Entry>, w: seq<byte>, lo: int, hi: int, z: A, f: (A, Entry) -> A)
    requires 0 <= lo && hi <= |es|
    requires forall t :: lo <= t < hi ==> es[t].word != w
    ensures FoldWord(es, w, lo, hi, z, f) == z
    decreases hi - lo
  {
    if lo < hi {
      FoldNone(es, w, lo, hi - 1, z, f);
    }
  }

  /** Blocks before a that do not hold w contribute nothing. */
  lemma {:induction false} FoldShift<A>(es: seq<Entry>, w: seq<byte>, lo: int, a: int, hi: int, z: A, f: (A, Entry) -> A)
    requires 0 <= lo <= a <= hi <= |es|
    requires forall t :: lo <= t < a ==> es[t].word != w
    ensures FoldWord(es, w, lo, hi, z, f) == FoldWord(es, w, a, hi, z, f)
    decreases hi - a
  {
    if hi == a {
      FoldNone(es, w, lo, a, z, f);
    } else {
      FoldShift(es, w, lo, a, hi - 1, z, f);
    }
  }

  /** Blocks from e on that do not hold w contribute nothing. */
  lemma {:induction false} FoldTail<A>(es: seq<Entry>, w: seq<byte>, lo: int, e: int, hi: int, z: A, f: (A, Entry) -> A)
    requires 0 <= lo && 0 <= e <= hi <= |es|
    requires forall t :: e <= t < hi ==> es[t].word != w
    ensures FoldWord(es, w, lo, hi, z, f) == FoldWord(es, w, lo, e, z, f)
    decreases hi - e
  {
    if e < hi {
      FoldTail(es, w, lo, e, hi - 1, z, f);
    }
  }

  /** In a sorted segment, folding over the word's run is folding over the whole segment. */
  lemma RunFold<A>(es: seq<Entry>, w: seq<byte>, a: int, e: int, z: A, f: (A, Entry) -> A)
    requires SegmentSorted(es) && WordRun(es, w, a, e)
    ensures FoldWord(es, w, 0, |es|, z, f) == FoldWord(es, w, a, e, z, f)
  {
    forall t | 0 <= t < |es| ensures es[t].word == w <==> a <= t < e {
      RunIsAll(es, w, a, e, t);
    }
    FoldShift(es, w, 0, a, |es|, z, f);
    FoldTail(es, w, a, e, |es|, z, f);
  }

  /** One step of the level loop over a block of w: its level decoded and stored under its
      category, or the ValueError of its level byte. */
  lemma LevelStep(es: seq<Entry>, w: seq<byte>, lo: int, j: int, m: map<int, real>)
    requires 0 <= lo <= j < |es| && es[j].word == w
    requires FoldWord(es, w, lo, j, Ok(map[]), AddLevel) == Ok(m)
    ensures ByteIntLevelToFloat(es[j].level).Ok? ==>
      FoldWord(es, w, lo, j + 1, Ok(map[]), AddLevel) == Ok(m[es[j].pos := ByteIntLevelToFloat(es[j].level).value])
    ensures ByteIntLevelToFloat(es[j].level).Err? ==>
      FoldWord(es, w, lo, j + 1, Ok(map[]), AddLevel) == Err(ValueError)
  {
  }

  /** The ValueError of one level byte is the answer of the whole query. */
  lemma {:induction false} LevelErrorSticks(es: seq<Entry>, w: seq<byte>, lo: int, n: int, hi: int)
    requires 0 <= lo && n <= hi <= |es|
    requires FoldWord(es, w, lo, n, Ok(map[]), AddLevel) == Err(ValueError)
    ensures FoldWord(es, w, lo, hi, Ok(map[]), AddLevel) == Err(ValueError)
    decreases hi - n
  {
    if n < hi {
      LevelErrorSticks(es, w, lo, n, hi - 1);
    }
  }

  /** One iteration of a loop over the range of a run's category bytes: while the range goes
      on, i is the category byte of block j of the run, and the level byte follows it. */
  lemma ReadRunBlock(rd: Reader, w: seq<byte>, a: int, e: int, i: int, stop: int, j: int)
    requires rd.Valid() && IsWordLenValid(rd.wlp, |w|)
    requires WordRun(Entries(rd.wlp, rd.data, |w|), w, a, e) && a <= j <= e
    requires Elems(Range(i, stop, |w| + 2)) == PosOffsets(rd.wlp, |w|, j, e)
    ensures i < stop <==> j < e
    ensures i < stop ==>
      var es := Entries(rd.wlp, rd.data, |w|);
      0 <= i && i + 1 < |rd.data| && es[j].word == w &&
      rd.data[i] == es[j].pos && rd.data[i + 1] == es[j].level &&
      Elems(Range(i + |w| + 2, stop, |w| + 2)) == PosOffsets(rd.wlp, |w|, j + 1, e)
  {
    RangeStep(rd.wlp, |w|, i, stop, |w| + 2, j, e);
    if i < stop {
      var es := Entries(rd.wlp, rd.data, |w|);
      assert |es| == BlockCount(rd.wlp, |w|);
      EntryBytes(rd.wlp, rd.data, |w|, j);
      RunAt(es, w, a, e, j);
    }
  }

  /** The loop of source lines 314-318 over the range of a's..e-1's category bytes. */
  method PosListForRange(rd: Reader, ghost w: seq<byte>, r: Range, ghost a: int, ghost e: int)
    returns (ps: seq<int>)
    requires rd.Valid() && IsWordLenValid(rd.wlp, |w|) && r.step == |w| + 2
    requires WordRun(Entries(rd.wlp, rd.data, |w|), w, a, e)
    requires Elems(r) == PosOffsets(rd.wlp, |w|, a, e)
    ensures ps == FoldWord(Entries(rd.wlp, rd.data, |w|), w, a, e, [], AddPos)
  {
    var wlp, data := rd.wlp, rd.data;
    var L := |w|;
    ghost var es := Entries(wlp, data, L);
    var i := r.start;
    ghost var j := a;
    ps := [];
    while i < r.stop
      invariant a <= j <= e
      invariant Elems(Range(i, r.stop, r.step)) == PosOffsets(wlp, L, j, e)
      invariant ps == FoldWord(es, w, a, j, [], AddPos)
      decreases r.stop - i
    {
      ReadRunBlock(rd, w, a, e, i, r.stop, j);
      ps := ps + [data[i]];
      i := i + r.step;
      j := j + 1;
    }
    ReadRunBlock(rd, w, a, e, i, r.stop, j);
  }

  /** The loop of source lines 338-348 over the range of a's..e-1's category bytes. */
  method LevelMapForRange(rd: Reader, ghost w: seq<byte>, r: Range, ghost a: int, ghost e: int)
    returns (res: Result<map<int, real>>)
    requires rd.Valid() && IsWordLenValid(rd.wlp, |w|) && r.step == |w| + 2
    requires WordRun(Entries(rd.wlp, rd.data, |w|), w, a, e)
    requires Elems(r) == PosOffsets(rd.wlp, |w|, a, e)
    ensures res == FoldWord(Entries(rd.wlp, rd.data, |w|), w, a, e, Ok(map[]), AddLevel)
  {
    var wlp, data := rd.wlp, rd.data;
    var L := |w|;
    ghost var es := Entries(wlp, data, L);
    var i := r.start;
    ghost var j := a;
    var result: map<int, real> := map[];
    while i < r.stop
      invariant a <= j <= e
      invariant Elems(Range(i, r.stop, r.step)) == PosOffsets(wlp, L, j, e)
      invariant Ok(result) == FoldWord(es, w, a, j, Ok(map[]), AddLevel)
      decreases r.stop - i
    {
      ReadRunBlock(rd, w, a, e, i, r.stop, j);
      LevelStep(es, w, a, j, result);
      var posTag := data[i];
      var level := ByteIntLevelToFloat(data[i + 1]);
      if level.Err? {
        LevelErrorSticks(es, w, a, j + 1, e);
        return Err(ValueError);
      }
      result := result[posTag := level.value];
      i := i + r.step;
      j := j + 1;
    }
    ReadRunBlock(rd, w, a, e, i, r.stop, j);
    return Ok(result);
  }

  /** get_all_pos_for_word (source lines 302-320): the categories of the word's blocks. An
      invalid length gives the empty list; a word that does not pack raises StructError. */
  method GetAllPosForWord(rd: Reader, word: string) returns (res: Result<seq<int>>)
    requires rd.Valid()
    ensures res.Err? <==> IsWordLenValid(rd.wlp, |word|) && PackWord(word).Err?
    ensures res.Err? ==> res.error == StructError
    ensures !IsWordLenValid(rd.wlp, |word|) ==> res == Ok([])
    ensures IsWordLenValid(rd.wlp, |word|) && PackWord(word).Ok? &&
            SegmentSorted(Entries(rd.wlp, rd.data, |word|)) ==>
              res == Ok(CategoriesOf(Entries(rd.wlp, rd.data, |word|), PackWord(word).value))
  {
    var range, a, e := WordDataRange(rd, word);
    if range.Err? {
      return Err(range.error);
    }
    if range.value.None? {
      if IsWordLenValid(rd.wlp, |word|) && SegmentSorted(Entries(rd.wlp, rd.data, |word|)) {
        NoWordFoldsToStart(Entries(rd.wlp, rd.data, |word|), PackWord(word).value, [], AddPos);
      }
      return Ok([]);
    }
    ghost var w := PackWord(word).value;
    var ps := PosListForRange(rd, w, range.value.value, a, e);
    if SegmentSorted(Entries(rd.wlp, rd.data, |word|)) {
      RunFold(Entries(rd.wlp, rd.data, |word|), w, a, e, [], AddPos);
    }
    return Ok(ps);
  }

  /** get_pos_level_dict_for_word (source lines 323-350): each category of the word's blocks
      mapped to its decoded level. An invalid length gives the empty map; a word that does not
      pack raises StructError, a level byte above 250 ValueError. */
  method GetPosLevelDictForWord(rd: Reader, word: string) returns (res: Result<map<int, real>>)
    requires rd.Valid()
    ensures IsWordLenValid(rd.wlp, |word|) && PackWord(word).Err? ==> res == Err(StructError)
    ensures !IsWordLenValid(rd.wlp, |word|) ==> res == Ok(map[])
    ensures IsWordLenValid(rd.wlp, |word|) && PackWord(word).Ok? &&
            SegmentSorted(Entries(rd.wlp, rd.data, |word|)) ==>
              res == LevelsOf(Entries(rd.wlp, rd.data, |word|), PackWord(word).value)
  {
    var range, a, e := WordDataRange(rd, word);
    if range.Err? {
      return Err(range.error);
    }
    if range.value.None? {
      if IsWordLenValid(rd.wlp, |word|) && SegmentSorted(Entries(rd.wlp, rd.data, |word|)) {
        NoWordFoldsToStart(Entries(rd.wlp, rd.data, |word|), PackWord(word).value, Ok(map[]), AddLevel);
      }
      return Ok(map[]);
    }
    ghost var w := PackWord(word).value;
    res := LevelMapForRange(rd, w, range.value.value, a, e);
    if SegmentSorted(Entries(rd.wlp, rd.data, |word|)) {
      RunFold(Entries(rd.wlp, rd.data, |word|), w, a, e, Ok(map[]), AddLevel);
    }
  }

  /** A word without blocks folds to the start value. */
  lemma NoWordFoldsToStart<A>(es: seq<Entry>, w: seq<byte>, z: A, f: (A, Entry) -> A)
    requires !HasWord(es, w)
    ensures FoldWord(es, w, 0, |es|, z, f) == z
  {
    FoldNone(es, w, 0, |es|, z, f);
  }

  // ---- what the two answers mean ----

  predicate Increasing(s: seq<int>)
  {
    forall i, k :: 0 <= i < k < |s| ==> s[i] < s[k]
  }

  lemma {:induction false} CategoriesMembers(es: seq<Entry>, w: seq<byte>, n: int)
    requires 0 <= n <= |es|
    ensures forall p :: p in FoldWord(es, w, 0, n, [], AddPos) <==>
      exists t :: 0 <= t < n && es[t].word == w && es[t].pos == p
  {
    if n > 0 {
      CategoriesMembers(es, w, n - 1);
      var prev := FoldWord(es, w, 0, n - 1, [], AddPos);
      forall p ensures p in FoldWord(es, w, 0, n, [], AddPos) <==>
        exists t :: 0 <= t < n && es[t].word == w && es[t].pos == p
      {
        if p in FoldWord(es, w, 0, n, [], AddPos) && p !in prev {
          assert es[n - 1].word == w && es[n - 1].pos == p;
        }
      }
    }
  }

  lemma CategoriesBelow(es: seq<Entry>, w: seq<byte>, n: int, j: int)
    requires SegmentSorted(es) && 0 <= n <= j < |es| && es[j].word == w
    ensures forall x :: x in FoldWord(es, w, 0, n, [], AddPos) ==> x < es[j].pos
  {
    CategoriesMembers(es, w, n);
    forall x | x in FoldWord(es, w, 0, n, [], AddPos) ensures x < es[j].pos {
      var t :| 0 <= t < n && es[t].word == w && es[t].pos == x;
      PosIncreasing(es, t, j);
    }
  }

  lemma {:induction false} CategoriesIncreasing(es: seq<Entry>, w: seq<byte>, n: int)
    requires SegmentSorted(es) && 0 <= n <= |es|
    ensures Increasing(FoldWord(es, w, 0, n, [], AddPos))
  {
    if n > 0 {
      CategoriesIncreasing(es, w, n - 1);
      if es[n - 1].word == w {
        CategoriesBelow(es, w, n - 1, n - 1);
        var prev := FoldWord(es, w, 0, n - 1, [], AddPos);
        var s := prev + [es[n - 1].pos];
        forall i, k | 0 <= i < k < |s| ensures s[i] < s[k] {
          if k == |prev| {
            assert s[i] in prev;
          }
        }
      }
    }
  }

  lemma {:induction false} LevelsDefined(es: seq<Entry>, w: seq<byte>, n: int)
    requires 0 <= n <= |es|
    ensures FoldWord(es, w, 0, n, Ok(map[]), AddLevel).Ok? <==>
      forall t :: 0 <= t < n && es[t].word == w ==> es[t].level <= 250
  {
    if n > 0 {
      LevelsDefined(es, w, n - 1);
    }
  }

  lemma {:induction false} LevelsKeys(es: seq<Entry>, w: seq<byte>, n: int)
    requires 0 <= n <= |es| && FoldWord(es, w, 0, n, Ok(map[]), AddLevel).Ok?
    ensures forall p :: p in FoldWord(es, w, 0, n, Ok(map[]), AddLevel).value <==>
      p in FoldWord(es, w, 0, n, [], AddPos)
  {
    if n > 0 {
      if es[n - 1].word == w {
        assert FoldWord(es, w, 0, n - 1, Ok(map[]), AddLevel).Ok?;
      }
      LevelsKeys(es, w, n - 1);
    }
  }

  lemma {:induction false} LevelsValues(es: seq<Entry>, w: seq<byte>, n: int)
    requires SegmentSorted(es) && 0 <= n <= |es| && FoldWord(es, w, 0, n, Ok(map[]), AddLevel).Ok?
    ensures forall t :: 0 <= t < n && es[t].word == w ==>
      es[t].pos in FoldWord(es, w, 0, n, Ok(map[]), AddLevel).value &&
      FoldWord(es, w, 0, n, Ok(map[]), AddLevel).value[es[t].pos] == es[t].level as real / 50.0 + 1.0
  {
    if n > 0 {
      if es[n - 1].word == w {
        assert FoldWord(es, w, 0, n - 1, Ok(map[]), AddLevel).Ok?;
        forall t | 0 <= t < n - 1 && es[t].word == w ensures es[t].pos != es[n - 1].pos {
          PosIncreasing(es, t, n - 1);
        }
      }
      LevelsValues(es, w, n - 1);
    }
  }

  /** get_all_pos_for_word answers, in a sorted segment, the categories the word is stored
      with, each once, in increasing order. */
  lemma CategoriesOfMeaning(es: seq<Entry>, w: seq<byte>)
    ensures forall p :: p in CategoriesOf(es, w) <==> exists t :: 0 <= t < |es| && es[t].word == w && es[t].pos == p
    ensures SegmentSorted(es) ==> Increasing(CategoriesOf(es, w))
  {
    CategoriesMembers(es, w, |es|);
    if SegmentSorted(es) {
      CategoriesIncreasing(es, w, |es|);
    }
  }

  /** get_pos_level_dict_for_word answers, in a sorted segment, a map from exactly the word's
      categories to the decoded levels stored with them, or ValueError when one of the word's
      level bytes is above 250. */
  lemma LevelsOfMeaning(es: seq<Entry>, w: seq<byte>)
    ensures LevelsOf(es, w).Ok? <==> forall t :: 0 <= t < |es| && es[t].word == w ==> es[t].level <= 250
    ensures LevelsOf(es, w).Err? ==> LevelsOf(es, w).error == ValueError
    ensures LevelsOf(es, w).Ok? ==> forall p :: p in LevelsOf(es, w).value <==> p in CategoriesOf(es, w)
    ensures SegmentSorted(es) && LevelsOf(es, w).Ok? ==>
      forall t :: 0 <= t < |es| && es[t].word == w ==>
        es[t].pos in LevelsOf(es, w).value &&
        LevelsOf(es, w).value[es[t].pos] == es[t].level as real / 50.0 + 1.0
  {
    LevelsDefined(es, w, |es|);
    LevelsErrorIsValueError(es, w, |es|);
    if LevelsOf(es, w).Ok? {
      LevelsKeys(es, w, |es|);
      if SegmentSorted(es) {
        LevelsValues(es, w, |es|);
      }
    }
  }

  lemma {:induction false} LevelsErrorIsValueError(es: seq<Entry>, w: seq<byte>, n: int)
    requires 0 <= n <= |es|
    ensures FoldWord(es, w, 0, n, Ok(map[]), AddLevel).Err? ==>
      FoldWord(es, w, 0, n, Ok(map[]), AddLevel).error == ValueError
  {
    if n > 0 {
      LevelsErrorIsValueError(es, w, n - 1);
    }
  }
}
