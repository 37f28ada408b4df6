/** Point queries of the engine: binary search for a word within its segment, and the lookups
    built on it. */
module Search {
  import opened Wrappers
  import opened Validator
  import opened Reader
  import opened Layout

  ghost predicate HasWord(es: seq<Entry>, w: seq<byte>)
  {
    exists t :: 0 <= t < |es| && es[t].word == w
  }

  /** Two byte strings of equal length that agree before index t and differ at t are ordered
      by their bytes at t. */
  lemma {:induction false} LessAtFirstDiff(a: seq<byte>, b: seq<byte>, t: int)
    requires |a| == |b| && 0 <= t < |a| && a[..t] == b[..t] && a[t] < b[t]
    ensures Less(a, b)
    decreases t
  {
    if t > 0 {
      assert a[0] == a[..t][0] == b[..t][0] == b[0];
      assert a[1..][..t-1] == a[..t][1..] && b[1..][..t-1] == b[..t][1..];
      LessAtFirstDiff(a[1..], b[1..], t - 1);
    }
  }

  /** Every block before index lo holds a word smaller than w. */
  ghost predicate AllBelow(es: seq<Entry>, lo: int, w: seq<byte>)
  {
    forall j :: 0 <= j < lo && j < |es| ==> Less(es[j].word, w)
  }

  /** Every block after index hi holds a word larger than w. */
  ghost predicate AllAbove(es: seq<Entry>, hi: int, w: seq<byte>)
  {
    forall j :: hi < j < |es| && 0 <= j ==> Less(w, es[j].word)
  }

  /** In a sorted segment, a word smaller than the query has only smaller words before it. */
  lemma SortedBelow(es: seq<Entry>, k: int, w: seq<byte>)
    requires SegmentSorted(es) && 0 <= k < |es| && Less(es[k].word, w)
    ensures AllBelow(es, k + 1, w)
  {
    forall j | 0 <= j < k ensures Less(es[j].word, w) {
      assert KeyLess(es[j], es[k]);
      if Less(es[j].word, es[k].word) {
        LessTransitive(es[j].word, es[k].word, w);
      }
    }
  }

  /** In a sorted segment, a word larger than the query has only larger words after it. */
  lemma SortedAbove(es: seq<Entry>, k: int, w: seq<byte>)
    requires SegmentSorted(es) && 0 <= k < |es| && Less(w, es[k].word)
    ensures AllAbove(es, k - 1, w)
  {
    forall j | k < j < |es| ensures Less(w, es[j].word) {
      assert KeyLess(es[k], es[j]);
      if Less(es[k].word, es[j].word) {
        LessTransitive(w, es[k].word, es[j].word);
      }
    }
  }

  /** The binary-search bracket: on a sorted segment, the word can only sit in blocks lo..hi. */
  ghost predicate Bracket(es: seq<Entry>, lo: int, hi: int, w: seq<byte>)
  {
    SegmentSorted(es) ==> AllBelow(es, lo, w) && AllAbove(es, hi, w)
  }

  /** A probe that finds a smaller word moves the bracket's lower end past it. */
  lemma NarrowUp(es: seq<Entry>, lo: int, hi: int, mid: int, w: seq<byte>)
    requires Bracket(es, lo, hi, w) && 0 <= mid < |es| && Less(es[mid].word, w)
    ensures Bracket(es, mid + 1, hi, w)
  {
    if SegmentSorted(es) {
      SortedBelow(es, mid, w);
    }
  }

  /** A probe that finds a larger word moves the bracket's upper end below it. */
  lemma NarrowDown(es: seq<Entry>, lo: int, hi: int, mid: int, w: seq<byte>)
    requires Bracket(es, lo, hi, w) && 0 <= mid < |es| && Less(w, es[mid].word)
    ensures Bracket(es, lo, mid - 1, w)
  {
    if SegmentSorted(es) {
      SortedAbove(es, mid, w);
    }
  }

  /** When the bracket is empty, a sorted segment does not hold the word. */
  lemma Absent(es: seq<Entry>, lo: int, hi: int, w: seq<byte>)
    requires hi < lo && Bracket(es, lo, hi, w)
    ensures SegmentSorted(es) ==> !HasWord(es, w)
  {
    LessIrreflexive(w);
    forall j | 0 <= j < |es| && SegmentSorted(es) ensures es[j].word != w {
      if j < lo {
        assert Less(es[j].word, w);
      } else {
        assert Less(w, es[j].word);
      }
    }
  }

  /** Blocks are ordered by their start positions as by their indices. */
  lemma PosOrder(wlp: seq<nat>, L: int, i: int, j: int)
    requires IsWordLenValid(wlp, L)
    ensures BlockPos(wlp, L, i) <= BlockPos(wlp, L, j) <==> i <= j
  {
    var B := L + 2;
    assert BlockPos(wlp, L, j) - BlockPos(wlp, L, i) == (j - i) * B;
    if i <= j {
      MulMono(0, j - i, B);
    } else {
      MulMono(1, i - j, B);
    }
  }

  /** The blocks es are stored one after another from byte position base, L + 2 bytes each. */
  ghost predicate BlocksAt(data: seq<byte>, L: nat, base: int, es: seq<Entry>)
  {
    0 <= base && Offset(base, L + 2, |es|) <= |data| &&
    forall j :: 0 <= j < |es| ==>
      0 <= Offset(base, L + 2, j) && Offset(base, L + 2, j) + L + 2 <= |data| &&
      es[j] == EntryAt(data, Offset(base, L + 2, j), L)
  }

  /** The first L bytes of block j are its word. */
  lemma BlockWord(data: seq<byte>, L: nat, base: int, es: seq<Entry>, j: int)
    requires BlocksAt(data, L, base, es) && 0 <= j < |es|
    ensures 0 <= Offset(base, L + 2, j) && Offset(base, L + 2, j) + L <= |data|
    ensures data[Offset(base, L + 2, j)..Offset(base, L + 2, j) + L] == es[j].word
  {
    var e := es[j];
  }

  /** A segment of a valid layout is stored as its blocks. */
  lemma SegmentBlocksAt(wlp: seq<nat>, data: seq<byte>, L: int)
    requires DataValid(wlp, data) && IsWordLenValid(wlp, L)
    ensures var es := Entries(wlp, data, L);
      BlocksAt(data, L, wlp[L - 1], es) && wlp[L] == Offset(wlp[L - 1], L + 2, |es|)
  {
    EntriesAreBlocks(wlp, data, L);
  }

  /** The probe of one binary-search step over blocks lo..hi of B bytes from base: the midpoint
      the source computes from the byte positions of blocks lo and hi is the start of block mid,
      and its neighbours are one block away. */
  ghost predicate MidProbe(base: int, B: int, lo: int, hi: int, mid: int)
  {
    0 < B && Offset(base, B, lo) <= Offset(base, B, mid) <= Offset(base, B, hi) &&
    Midpoint(Offset(base, B, lo), Offset(base, B, hi), B) == Offset(base, B, mid) &&
    Offset(base, B, mid) + B == Offset(base, B, mid + 1) &&
    Offset(base, B, mid) - B == Offset(base, B, mid - 1)
  }

  /** The probe of the step from blocks lo..hi is block mid, halfway between them. */
  lemma MidOffsets(base: int, B: int, lo: int, hi: int, mid: int)
    requires 0 < B && 0 <= lo <= hi && mid == lo + (hi - lo) / 2
    ensures MidProbe(base, B, lo, hi, mid)
  {
    ProbeArith(base, B, lo, hi);
    assert (mid + 1) * B == mid * B + B && (mid - 1) * B == mid * B - B;
    OffsetOrder(base, B, lo, mid);
    OffsetOrder(base, B, mid, hi);
  }

  /** The probe of the source's loop as it runs over n blocks: block mid, and at or past the end
      of the blocks only when mid == n. */
  lemma Probe(base: int, B: int, n: int, lo: int, hi: int, l: int, r: int, m: int)
    returns (mid: int)
    requires 0 < B && 0 <= lo <= hi <= n
    requires l == Offset(base, B, lo) && r == Offset(base, B, hi) && m == Midpoint(l, r, B)
    ensures mid == lo + (hi - lo) / 2 && lo <= mid <= hi && m == Offset(base, B, mid) && l <= m <= r
    ensures m + B == Offset(base, B, mid + 1) && m - B == Offset(base, B, mid - 1)
    ensures m >= Offset(base, B, n) <==> mid == n
  {
    mid := lo + (hi - lo) / 2;
    MidOffsets(base, B, lo, hi, mid);
    OffsetOrder(base, B, n, mid);
  }

  /** The loop of _get_first_word_match_pos over the blocks es stored from base to end, with
      the probe at end treated as a block larger than the query. */
  method SearchLoop(data: seq<byte>, word: seq<byte>, ghost es: seq<Entry>, base: int, end: int)
    returns (m: int)
    requires BlocksAt(data, |word|, base, es) && end == Offset(base, |word| + 2, |es|)
    ensures var k := SearchBlocks(es, word, 0, |es|);
      m == if k == -1 then -1 else Offset(base, |word| + 2, k)
  {
    var B := |word| + 2;
    var l, r := base, end;
    ghost var lo, hi := 0, |es|;
    ghost var k := SearchBlocks(es, word, lo, hi);
    OffsetOrder(base, B, lo, hi);
    while l <= r
      invariant 0 <= lo <= |es| && -1 <= hi <= |es|
      invariant l == Offset(base, B, lo) && r == Offset(base, B, hi)
      invariant l <= r <==> lo <= hi
      invariant SearchBlocks(es, word, lo, hi) == k
      decreases hi - lo
    {
      m := Midpoint(l, r, B);
      ghost var mid := Probe(base, B, |es|, lo, hi, l, r, m);
      SearchBlocksStep(es, word, lo, hi, mid);
      if m >= end {
        r, hi := m - B, mid - 1;
      } else {
        ghost var sign := CompareBlock(data, word, es, base, mid);
        var c := CompareAt(data, m, word);
        assert c == sign;
        if c < 0 {
          l, lo := m + B, mid + 1;
        } else if c > 0 {
          r, hi := m - B, mid - 1;
        } else {
          return m;
        }
      }
      OffsetOrder(base, B, lo, hi);
    }
    return -1;
  }

  /** The byte probe of blocks lo..hi, which start at base and are B bytes long, is the start of
      the middle block. */
  lemma ProbeArith(base: int, B: int, lo: int, hi: int)
    requires 0 < B && 0 <= lo <= hi
    ensures Midpoint(base + lo * B, base + hi * B, B) == base + (lo + (hi - lo) / 2) * B
  {
    var l, r := base + lo * B, base + hi * B;
    MulMono(lo, hi, B);
    assert r - l == (hi - lo) * B;
    DivExact(hi - lo, B);
    assert (hi - lo) / 2 * B + lo * B == (lo + (hi - lo) / 2) * B;
  }

  /** Block k of segment |word| starts at m and holds the word. */
  ghost predicate FoundAt(rd: Reader, word: seq<byte>, m: int)
    requires rd.Valid() && IsWordLenValid(rd.wlp, |word|)
  {
    exists k :: 0 <= k < BlockCount(rd.wlp, |word|) && m == BlockPos(rd.wlp, |word|, k) &&
                Entries(rd.wlp, rd.data, |word|)[k].word == word
  }

  /** The byte loop of the binary search: compares the word stored at m with the query, byte by
      byte, stopping at the first difference. */
  method CompareAt(data: seq<byte>, m: int, word: seq<byte>) returns (c: int)
    requires 0 <= m && m + |word| <= |data|
    ensures c < 0 ==> Less(data[m..m + |word|], word)
    ensures c > 0 ==> Less(word, data[m..m + |word|])
    ensures c == 0 ==> data[m..m + |word|] == word
    ensures CompareAsWritten(data, m, word, 0) == Ok(c)
  {
    ghost var stored := data[m..m + |word|];
    var i := m;
    var t := 0;
    while t < |word|
      invariant 0 <= t <= |word| && i == m + t
      invariant data[m..m + t] == word[..t]
      invariant CompareAsWritten(data, m, word, 0) == CompareAsWritten(data, m, word, t)
    {
      var c2 := data[i];
      if c2 < word[t] {
        assert stored[..t] == word[..t] && stored[t] == c2;
        LessAtFirstDiff(stored, word, t);
        return -1;
      }
      if c2 > word[t] {
        assert stored[..t] == word[..t] && stored[t] == c2;
        LessAtFirstDiff(word, stored, t);
        return 1;
      }
      assert data[m..m + t + 1] == data[m..m + t] + [c2];
      i := i + 1;
      t := t + 1;
    }
    return 0;
  }

  /** The binary search of _get_first_word_match_pos on the blocks lo..hi of a segment, by block
      index, with the one correction that a probe one past the last block (the segment end, which
      the source reads: see BinarySearchAsWritten) counts as a block above the query. Every other
      probe is the source's. Returns the index of a block holding w, or -1. */
  ghost function SearchBlocks(es: seq<Entry>, w: seq<byte>, lo: int, hi: int): int
    requires 0 <= lo && hi <= |es|
    decreases hi - lo
  {
    if lo > hi then -1
    else
      var mid := lo + (hi - lo) / 2;
      if mid == |es| then SearchBlocks(es, w, lo, mid - 1)
      else if es[mid].word == w then mid
      else if Less(es[mid].word, w) then SearchBlocks(es, w, mid + 1, hi)
      else SearchBlocks(es, w, lo, mid - 1)
  }

  /** One step of the search from blocks lo..hi, probing block mid. */
  lemma SearchBlocksStep(es: seq<Entry>, w: seq<byte>, lo: int, hi: int, mid: int)
    requires 0 <= lo <= hi <= |es| && mid == lo + (hi - lo) / 2
    ensures mid == |es| ==> SearchBlocks(es, w, lo, hi) == SearchBlocks(es, w, lo, mid - 1)
    ensures mid < |es| && es[mid].word == w ==> SearchBlocks(es, w, lo, hi) == mid
    ensures mid < |es| && es[mid].word != w && Less(es[mid].word, w) ==>
      SearchBlocks(es, w, lo, hi) == SearchBlocks(es, w, mid + 1, hi)
    ensures mid < |es| && es[mid].word != w && !Less(es[mid].word, w) ==>
      SearchBlocks(es, w, lo, hi) == SearchBlocks(es, w, lo, mid - 1)
  {
  }

  /** The block the corrected search of the whole segment lands on, or -1. */
  ghost function LandedBlock(wlp: seq<nat>, data: seq<byte>, word: seq<byte>): int
    requires DataValid(wlp, data) && IsWordLenValid(wlp, |word|)
  {
    var es := Entries(wlp, data, |word|);
    SearchBlocks(es, word, 0, |es|)
  }

  /** The search returns -1 or a block of lo..hi holding the word. */
  lemma {:induction false} SearchBlocksHit(es: seq<Entry>, w: seq<byte>, lo: int, hi: int)
    requires 0 <= lo && hi <= |es|
    ensures var k := SearchBlocks(es, w, lo, hi);
      k == -1 || (lo <= k <= hi && k < |es| && es[k].word == w)
    decreases hi - lo
  {
    if lo <= hi {
      var mid := lo + (hi - lo) / 2;
      SearchBlocksStep(es, w, lo, hi, mid);
      if mid == |es| {
        SearchBlocksHit(es, w, lo, mid - 1);
      } else if es[mid].word == w {
      } else if Less(es[mid].word, w) {
        SearchBlocksHit(es, w, mid + 1, hi);
      } else {
        SearchBlocksHit(es, w, lo, mid - 1);
      }
    }
  }

  /** On a sorted segment, a search from blocks lo..hi that bracket the word returns -1 only
      when no block holds it. */
  lemma {:induction false} SearchBlocksMiss(es: seq<Entry>, w: seq<byte>, lo: int, hi: int)
    requires 0 <= lo && hi <= |es| && SegmentSorted(es) && Bracket(es, lo, hi, w)
    ensures SearchBlocks(es, w, lo, hi) == -1 ==> !HasWord(es, w)
    decreases hi - lo
  {
    if lo > hi {
      Absent(es, lo, hi, w);
    } else {
      var mid := lo + (hi - lo) / 2;
      SearchBlocksStep(es, w, lo, hi, mid);
      if mid == |es| {
        SearchBlocksMiss(es, w, lo, mid - 1);
      } else if es[mid].word == w {
      } else if Less(es[mid].word, w) {
        NarrowUp(es, lo, hi, mid, w);
        SearchBlocksMiss(es, w, mid + 1, hi);
      } else {
        LessTotal(es[mid].word, w);
        NarrowDown(es, lo, hi, mid, w);
        SearchBlocksMiss(es, w, lo, mid - 1);
      }
    }
  }

  /** What the search means: from blocks lo..hi that bracket the word it returns -1 or a block of
      lo..hi holding the word, and on a sorted segment -1 exactly when no block holds it. */
  lemma SearchBlocksMeaning(es: seq<Entry>, w: seq<byte>, lo: int, hi: int)
    requires 0 <= lo && hi <= |es| && Bracket(es, lo, hi, w)
    ensures var k := SearchBlocks(es, w, lo, hi);
      (k == -1 || (lo <= k <= hi && k < |es| && es[k].word == w)) &&
      (SegmentSorted(es) ==> (k == -1 <==> !HasWord(es, w)))
  {
    var k := SearchBlocks(es, w, lo, hi);
    SearchBlocksHit(es, w, lo, hi);
    if SegmentSorted(es) {
      SearchBlocksMiss(es, w, lo, hi);
    }
    if k != -1 {
      assert es[k].word == w;
    }
  }

  /** The corrected search over the whole segment: -1 or a block holding the word, and on a
      sorted segment -1 exactly when no block holds it. */
  lemma LandedBlockMeaning(wlp: seq<nat>, data: seq<byte>, word: seq<byte>)
    requires DataValid(wlp, data) && IsWordLenValid(wlp, |word|)
    ensures var es, k := Entries(wlp, data, |word|), LandedBlock(wlp, data, word);
      (k == -1 || (0 <= k < |es| && es[k].word == word)) &&
      (SegmentSorted(es) ==> (k == -1 <==> !HasWord(es, word)))
  {
    var es := Entries(wlp, data, |word|);
    SearchBlocksMeaning(es, word, 0, |es|);
  }

  /** _get_first_word_match_pos, with a probe that lands on the segment end treated as a block
      larger than the query (the source compares the bytes found there: see
      BinarySearchAsWritten). It returns the start of the block SearchBlocks lands on, or -1;
      by LandedBlockMeaning that is a block holding the word, and on a sorted segment -1 means
      no block holds it. The block found is any block of the word, not necessarily its first.
      The quotient is halved with / 2, which is >> 1 on the non-negative values it sees. */
  method FirstWordMatchPos(rd: Reader, word: seq<byte>) returns (m: int)
    requires rd.Valid() && IsWordLenValid(rd.wlp, |word|)
    ensures var k := LandedBlock(rd.wlp, rd.data, word);
      m == if k == -1 then -1 else BlockPos(rd.wlp, |word|, k)
    ensures m == -1 <==> LandedBlock(rd.wlp, rd.data, word) == -1
    ensures m == -1 || FoundAt(rd, word, m)
    ensures SegmentSorted(Entries(rd.wlp, rd.data, |word|)) ==>
      (m == -1 <==> !HasWord(Entries(rd.wlp, rd.data, |word|), word))
  {
    var L := |word|;
    ghost var es := Entries(rd.wlp, rd.data, L);
    SegmentBlocksAt(rd.wlp, rd.data, L);
    m := SearchLoop(rd.data, word, es, rd.wlp[L - 1], rd.wlp[L]);
    LandedBlockMeaning(rd.wlp, rd.data, word);
    ghost var k := LandedBlock(rd.wlp, rd.data, word);
    if k != -1 {
      assert m == BlockPos(rd.wlp, L, k) && es[k].word == word;
      PosOrder(rd.wlp, L, 0, k);
    }
  }

  /** The byte comparison of the source at a position whose bytes lie inside the data, from a
      prefix t on which they agree with the query: it does not fail, and its sign is the order
      of the stored word and the query. */
  lemma {:induction false} CompareMeaning(data: seq<byte>, m: int, word: seq<byte>, t: nat)
    requires 0 <= m && m + |word| <= |data| && t <= |word|
    requires data[m..m + t] == word[..t]
    ensures var c := CompareAsWritten(data, m, word, t);
      c.Ok? && (c.value < 0 ==> Less(data[m..m + |word|], word)) &&
      (c.value > 0 ==> Less(word, data[m..m + |word|])) &&
      (c.value == 0 ==> data[m..m + |word|] == word)
    decreases |word| - t
  {
    var stored := data[m..m + |word|];
    if t < |word| {
      assert stored[..t] == data[m..m + t] && stored[t] == data[m + t];
      if data[m + t] < word[t] {
        LessAtFirstDiff(stored, word, t);
      } else if data[m + t] > word[t] {
        LessAtFirstDiff(word, stored, t);
      } else {
        assert data[m..m + t + 1] == data[m..m + t] + [data[m + t]];
        assert word[..t + 1] == word[..t] + [word[t]];
        CompareMeaning(data, m, word, t + 1);
      }
    } else {
      assert word[..t] == word;
    }
  }

  /** With both bounds at the segment end, the source's only probe is the segment end itself,
      so it returns -1 or that position, or raises IndexError. */
  lemma AsWrittenAtEnd(data: seq<byte>, word: seq<byte>, end: int)
    requires 0 <= end <= |data|
    ensures var s := SearchAsWritten(data, word, end, end);
      s == Ok(-1) || s == Ok(end) || s == Err(IndexError)
  {
  }

  /** One step of the source's loop over blocks lo..hi stored from base, whose probe is block mid
      and whose byte comparison there gives c. */
  lemma AsWrittenStep(data: seq<byte>, word: seq<byte>, base: int, lo: int, hi: int, mid: int, c: int)
    requires 0 <= Offset(base, |word| + 2, lo) && Offset(base, |word| + 2, hi) <= |data|
    requires MidProbe(base, |word| + 2, lo, hi, mid)
    requires CompareAsWritten(data, Offset(base, |word| + 2, mid), word, 0) == Ok(c)
    ensures var B := |word| + 2;
      SearchAsWritten(data, word, Offset(base, B, lo), Offset(base, B, hi)) ==
        if c < 0 then SearchAsWritten(data, word, Offset(base, B, mid + 1), Offset(base, B, hi))
        else if c > 0 then SearchAsWritten(data, word, Offset(base, B, lo), Offset(base, B, mid - 1))
        else Ok(Offset(base, B, mid))
  {
    var B := |word| + 2;
    AsWrittenUnfold(data, word, Offset(base, B, lo), Offset(base, B, hi), Offset(base, B, mid), c);
  }

  /** One step of the source's loop from byte bounds l..r, whose probe m gives c in the byte
      comparison. */
  lemma AsWrittenUnfold(data: seq<byte>, word: seq<byte>, l: int, r: int, m: int, c: int)
    requires 0 <= l <= m <= r <= |data| && m == Midpoint(l, r, |word| + 2)
    requires CompareAsWritten(data, m, word, 0) == Ok(c)
    ensures var B := |word| + 2;
      SearchAsWritten(data, word, l, r) ==
        if c < 0 then SearchAsWritten(data, word, m + B, r)
        else if c > 0 then SearchAsWritten(data, word, l, m - B)
        else Ok(m)
  {
  }

  /** The source's answer s agrees with the block k of the corrected search over n blocks of B
      bytes from base: both name the same block, or k is -1 and s is -1, the end of the blocks
      or IndexError. */
  ghost predicate Agree(s: Result<int>, k: int, base: int, B: int, n: int)
  {
    s == Ok(if k == -1 then -1 else Offset(base, B, k)) ||
    (k == -1 && (s == Ok(Offset(base, B, n)) || s == Err(IndexError)))
  }

  /** The source's byte comparison at block mid: it does not fail, and its sign is the order of
      the block's word and the query. */
  lemma CompareBlock(data: seq<byte>, word: seq<byte>, es: seq<Entry>, base: int, mid: int) returns (c: int)
    requires BlocksAt(data, |word|, base, es) && 0 <= mid < |es|
    ensures 0 <= Offset(base, |word| + 2, mid) && Offset(base, |word| + 2, mid) + |word| <= |data|
    ensures CompareAsWritten(data, Offset(base, |word| + 2, mid), word, 0) == Ok(c)
    ensures c < 0 ==> Less(es[mid].word, word) && es[mid].word != word
    ensures c > 0 ==> Less(word, es[mid].word) && es[mid].word != word && !Less(es[mid].word, word)
    ensures c == 0 ==> es[mid].word == word
  {
    var m := Offset(base, |word| + 2, mid);
    BlockWord(data, |word|, base, es, mid);
    CompareMeaning(data, m, word, 0);
    LessIrreflexive(word);
    c := CompareAsWritten(data, m, word, 0).value;
    if c > 0 {
      LessAsymmetric(word, es[mid].word);
    }
  }

  /** One step of both searches from blocks lo..hi, where block mid is probed and the byte
      comparison there gives c: when c is zero both stop and agree, otherwise both move on to
      the same half. */
  lemma AgreeStep(data: seq<byte>, word: seq<byte>, es: seq<Entry>, base: int, lo: int, hi: int, mid: int, c: int)
    requires 0 <= lo <= hi <= |es| && mid == lo + (hi - lo) / 2 && mid < |es|
    requires 0 <= Offset(base, |word| + 2, lo) && Offset(base, |word| + 2, hi) <= |data|
    requires MidProbe(base, |word| + 2, lo, hi, mid)
    requires CompareAsWritten(data, Offset(base, |word| + 2, mid), word, 0) == Ok(c)
    requires c < 0 ==> Less(es[mid].word, word) && es[mid].word != word
    requires c > 0 ==> !Less(es[mid].word, word) && es[mid].word != word
    requires c == 0 ==> es[mid].word == word
    ensures 0 <= Offset(base, |word| + 2, mid + 1) && Offset(base, |word| + 2, mid - 1) <= |data|
    ensures var B := |word| + 2;
      var s, k := SearchAsWritten(data, word, Offset(base, B, lo), Offset(base, B, hi)), SearchBlocks(es, word, lo, hi);
      (c < 0 ==> s == SearchAsWritten(data, word, Offset(base, B, mid + 1), Offset(base, B, hi)) &&
                 k == SearchBlocks(es, word, mid + 1, hi)) &&
      (c > 0 ==> s == SearchAsWritten(data, word, Offset(base, B, lo), Offset(base, B, mid - 1)) &&
                 k == SearchBlocks(es, word, lo, mid - 1)) &&
      (c == 0 ==> Agree(s, k, base, B, |es|))
  {
    var B := |word| + 2;
    SearchBlocksStep(es, word, lo, hi, mid);
    AsWrittenStep(data, word, base, lo, hi, mid, c);
  }

  /** From blocks lo..hi of the blocks es stored from base, the source's loop returns the start
      of the block the corrected search lands on, except where that search returns -1 and the
      source's probe reaches the end of the blocks: there the source reports that end position
      or raises IndexError. */
  lemma {:induction false} AsWrittenAgrees(data: seq<byte>, word: seq<byte>, es: seq<Entry>, base: int, lo: int, hi: int)
    requires BlocksAt(data, |word|, base, es) && 0 <= lo <= |es| && -1 <= hi <= |es|
    requires 0 <= Offset(base, |word| + 2, lo) && Offset(base, |word| + 2, hi) <= |data|
    ensures var B := |word| + 2;
      Agree(SearchAsWritten(data, word, Offset(base, B, lo), Offset(base, B, hi)), SearchBlocks(es, word, lo, hi), base, B, |es|)
    decreases hi - lo
  {
    OffsetOrder(base, |word| + 2, lo, hi);
    if lo <= hi {
      var mid := lo + (hi - lo) / 2;
      if mid == |es| {
        AgreeAtEnd(data, word, es, base, lo, hi);
      } else {
        MidOffsets(base, |word| + 2, lo, hi, mid);
        var c := CompareBlock(data, word, es, base, mid);
        AgreeStep(data, word, es, base, lo, hi, mid, c);
        if c < 0 {
          AsWrittenAgrees(data, word, es, base, mid + 1, hi);
        } else if c > 0 {
          AsWrittenAgrees(data, word, es, base, lo, mid - 1);
        }
      }
    }
  }

  /** When the probe reaches the end of the blocks, the corrected search returns -1 and the
      source returns -1, the end position or IndexError. */
  lemma AgreeAtEnd(data: seq<byte>, word: seq<byte>, es: seq<Entry>, base: int, lo: int, hi: int)
    requires 0 <= lo <= hi <= |es| && lo + (hi - lo) / 2 == |es|
    requires 0 <= Offset(base, |word| + 2, lo) && Offset(base, |word| + 2, hi) <= |data|
    ensures var B := |word| + 2;
      Agree(SearchAsWritten(data, word, Offset(base, B, lo), Offset(base, B, hi)), SearchBlocks(es, word, lo, hi), base, B, |es|)
  {
    assert lo == hi == |es|;
    SearchBlocksStep(es, word, lo, hi, |es|);
    AsWrittenAtEnd(data, word, Offset(base, |word| + 2, hi));
  }

  /** The corrected search returns what the source's returns, except where the source reports
      the segment end or raises IndexError; there the corrected search returns -1. */
  lemma BinarySearchAgrees(wlp: seq<nat>, data: seq<byte>, word: seq<byte>)
    requires DataValid(wlp, data) && IsWordLenValid(wlp, |word|)
    ensures var k, s := LandedBlock(wlp, data, word), BinarySearchAsWritten(wlp, data, word);
      s == Ok(if k == -1 then -1 else BlockPos(wlp, |word|, k)) ||
      (k == -1 && (s == Ok(wlp[|word|]) || s == Err(IndexError)))
  {
    var es := Entries(wlp, data, |word|);
    SegmentBlocksAt(wlp, data, |word|);
    OffsetOrder(wlp[|word| - 1], |word| + 2, 0, 0);
    AsWrittenAgrees(data, word, es, wlp[|word| - 1], 0, |es|);
  }

  // ---- the search as the source writes it ----

  /** The byte loop of the source's search, reading through the bounds-checked accessor: the
      sign of the first difference between the bytes at p and the query, or IndexError when a
      byte it needs lies outside the data. */
  function CompareAsWritten(data: seq<byte>, p: int, word: seq<byte>, t: nat): (r: Result<int>)
    requires t <= |word| && 0 <= p && p + t <= |data|
    ensures r.Err? ==> r.error == IndexError && p + |word| > |data|
    ensures r == Ok(0) ==> 0 <= p && p + |word| <= |data| && data[p + t..p + |word|] == word[t..]
    decreases |word| - t
  {
    if t == |word| then Ok(0)
    else if p + t >= |data| then Err(IndexError)
    else if data[p + t] < word[t] then Ok(-1)
    else if data[p + t] > word[t] then Ok(1)
    else
      var r := CompareAsWritten(data, p, word, t + 1);
      assert r == Ok(0) ==> data[p + t..p + |word|] == [data[p + t]] + data[p + t + 1..p + |word|];
      r
  }

  /** The probe of the source's search between byte positions l and r, for blocks of B bytes:
      half the number of blocks between them, rounded down, past l. The source halves with
      >> 1, which is / 2 on the non-negative quotients it sees. */
  function Midpoint(l: int, r: int, B: int): int
    requires 0 < B
  {
    ((r - l) / B) / 2 * B + l
  }

  /** The probe lies between its bounds. */
  lemma MidpointWithin(l: int, r: int, B: int)
    requires l <= r && 0 < B
    ensures l <= Midpoint(l, r, B) <= r
  {
    var q := (r - l) / B;
    assert q * B <= r - l;
    MulMono(q / 2, q, B);
  }

  /** The loop of _get_first_word_match_pos as written: l and r are byte positions and the loop
      runs while l <= r. A position it returns holds the query's bytes, but it need not be a
      block of the query's segment. */
  function SearchAsWritten(data: seq<byte>, word: seq<byte>, l: int, r: int): (res: Result<int>)
    requires 0 <= l && r <= |data|
    ensures res.Err? ==> res.error == IndexError
    ensures res.Ok? && res.value != -1 ==>
      l <= res.value && res.value + |word| <= |data| && data[res.value..res.value + |word|] == word
    decreases r - l + |word| + 2
  {
    if l > r then Ok(-1)
    else
      var B := |word| + 2;
      var m := Midpoint(l, r, B);
      MidpointWithin(l, r, B);
      match CompareAsWritten(data, m, word, 0)
      case Err(e) => Err(e)
      case Ok(c) =>
        if c < 0 then SearchAsWritten(data, word, m + B, r)
        else if c > 0 then SearchAsWritten(data, word, l, m - B)
        else Ok(m)
  }

  /** _get_first_word_match_pos as written: the upper bound starts at the segment end. */
  function BinarySearchAsWritten(wlp: seq<nat>, data: seq<byte>, word: seq<byte>): (res: Result<int>)
    requires DataValid(wlp, data) && IsWordLenValid(wlp, |word|)
    ensures res.Err? ==> res.error == IndexError
    ensures res.Ok? && res.value != -1 ==>
      wlp[|word| - 1] <= res.value && res.value + |word| <= |data| &&
      data[res.value..res.value + |word|] == word
  {
    TableMonotone(wlp, |word|, |wlp| - 1);
    SearchAsWritten(data, word, wlp[|word| - 1], wlp[|word|])
  }

  /** The two-segment layout of AsWrittenFalsePositive is valid. */
  lemma FalsePositiveLayoutValid()
    ensures DataValid([0, 3, 7], [97, 0, 0, 98, 97, 0, 0])
  {
    var data: seq<byte> := [97, 0, 0, 98, 97, 0, 0];
    assert BlockValid(data, 0, 3) && BlockValid(data, 3, 4);
    assert SegmentValid(data, 3, 3, 3) && SegmentValid(data, 7, 7, 4);
    assert SegmentValid(data, 0, 3, 3) && SegmentValid(data, 3, 7, 4);
  }

  /** A valid, sorted layout where the source's search reports "b" as present: the probe at
      the end of the one-letter segment reads the first byte of the two-letter word "ba". */
  lemma AsWrittenFalsePositive()
    ensures var wlp, data := [0, 3, 7], [97, 0, 0, 98, 97, 0, 0];
      DataValid(wlp, data) && SegmentSorted(Entries(wlp, data, 1)) &&
      !HasWord(Entries(wlp, data, 1), [98]) && BinarySearchAsWritten(wlp, data, [98]) == Ok(3)
  {
    var wlp: seq<nat>, data: seq<byte> := [0, 3, 7], [97, 0, 0, 98, 97, 0, 0];
    FalsePositiveLayoutValid();
    var es := Entries(wlp, data, 1);
    EntryBytes(wlp, data, 1, 0);
    assert |es| == 1 && es[0].word == [97];
    assert CompareAsWritten(data, 0, [98], 0) == Ok(-1);
    assert CompareAsWritten(data, 3, [98], 0) == Ok(0);
    assert SearchAsWritten(data, [98], 3, 3) == Ok(3);
  }

  /** A valid layout of one block where the source's search for a larger word probes past the
      end of the data and raises IndexError. */
  lemma AsWrittenIndexError()
    ensures var wlp, data := [0, 3], [97, 0, 0];
      DataValid(wlp, data) && BinarySearchAsWritten(wlp, data, [98]) == Err(IndexError)
  {
    var data: seq<byte> := [97, 0, 0];
    OneBlockLayoutValid();
    assert CompareAsWritten(data, 0, [98], 0) == Ok(-1);
    assert CompareAsWritten(data, 3, [98], 0) == Err(IndexError);
    assert SearchAsWritten(data, [98], 3, 3) == Err(IndexError);
  }

  /** A valid layout of one block, the word "a" with category 0 and level byte 0. */
  lemma OneBlockLayoutValid()
    ensures DataValid([0, 3], [97, 0, 0])
  {
    assert SegmentShapeValid([0, 3], 1);
    assert BlockValid([97, 0, 0], 0, 3);
    assert SegmentBlocksValid([0, 3], [97, 0, 0], 1);
  }
}
