/** The level lookup of a (word, category) pair: the binary search lands on some block of the
    word, and the lookup scans the same-word run around it, returning the level of the block
    with the requested category or, optionally, the rounded mean of the levels it visited. */
module Lookup {
  import opened Wrappers
  import opened Validator
  import opened Reader
  import opened Layout
  import opened Search

  /** The category asked for: an id, or the analyser's "any category" sentinel (an infinite
      float in the source), which no block equals and no block exceeds. */
  datatype PosQuery = PosId(id: int) | AnyPos

  predicate Matches(p: int, q: PosQuery)
  {
    q.PosId? && p == q.id
  }

  predicate Above(p: int, q: PosQuery)
  {
    q.PosId? && p > q.id
  }

  /** Block t holds the word with the requested category. */
  ghost predicate MatchAt(es: seq<Entry>, t: int, w: seq<byte>, q: PosQuery)
  {
    0 <= t < |es| && es[t].word == w && Matches(es[t].pos, q)
  }

  ghost predicate HasMatch(es: seq<Entry>, w: seq<byte>, q: PosQuery)
  {
    exists t :: MatchAt(es, t, w, q)
  }

  /** Blocks a..e-1 all hold the word. */
  ghost predicate Run(es: seq<Entry>, w: seq<byte>, a: int, e: int)
    decreases e - a
  {
    0 <= a <= e <= |es| && (a < e ==> es[a].word == w && Run(es, w, a + 1, e))
  }

  /** No block among a..e-1 carries the requested category. */
  ghost predicate NoMatchIn(es: seq<Entry>, q: PosQuery, a: int, e: int)
    decreases e - a
  {
    0 <= a <= e <= |es| && (a < e ==> !Matches(es[a].pos, q) && NoMatchIn(es, q, a + 1, e))
  }

  lemma {:induction false} RunAt(es: seq<Entry>, w: seq<byte>, a: int, e: int, t: int)
    requires Run(es, w, a, e) && a <= t < e
    ensures es[t].word == w
    decreases t - a
  {
    if a < t {
      RunAt(es, w, a + 1, e, t);
    }
  }

  lemma {:induction false} RunSnoc(es: seq<Entry>, w: seq<byte>, a: int, e: int)
    requires Run(es, w, a, e) && e < |es| && es[e].word == w
    ensures Run(es, w, a, e + 1)
    decreases e - a
  {
    if a < e {
      RunSnoc(es, w, a + 1, e);
    }
  }

  lemma {:induction false} RunJoin(es: seq<Entry>, w: seq<byte>, a: int, k: int, e: int)
    requires Run(es, w, a, k) && Run(es, w, k - 1, e) && a < k
    ensures Run(es, w, a, e)
    decreases k - a
  {
    if a < k - 1 {
      RunJoin(es, w, a + 1, k, e);
    }
  }

  lemma {:induction false} NoMatchAt(es: seq<Entry>, q: PosQuery, a: int, e: int, t: int)
    requires NoMatchIn(es, q, a, e) && a <= t < e
    ensures !Matches(es[t].pos, q)
    decreases t - a
  {
    if a < t {
      NoMatchAt(es, q, a + 1, e, t);
    }
  }

  lemma {:induction false} NoMatchSnoc(es: seq<Entry>, q: PosQuery, a: int, e: int)
    requires NoMatchIn(es, q, a, e) && e < |es| && !Matches(es[e].pos, q)
    ensures NoMatchIn(es, q, a, e + 1)
    decreases e - a
  {
    if a < e {
      NoMatchSnoc(es, q, a + 1, e);
    }
  }

  // ---- facts about sorted segments ----

  /** In a sorted segment the blocks of one word are contiguous. */
  lemma RunContiguous(es: seq<Entry>, w: seq<byte>, i: int, t: int, j: int)
    requires SegmentSorted(es) && 0 <= i <= t <= j < |es| && es[i].word == w && es[j].word == w
    ensures es[t].word == w
  {
    if i < t < j {
      assert KeyLess(es[i], es[t]) && KeyLess(es[t], es[j]);
      LessIrreflexive(w);
      if Less(w, es[t].word) && Less(es[t].word, w) {
        LessTransitive(w, es[t].word, w);
      }
    }
  }

  /** Within the blocks of one word of a sorted segment, categories strictly increase. */
  lemma PosIncreasing(es: seq<Entry>, i: int, j: int)
    requires SegmentSorted(es) && 0 <= i < j < |es| && es[i].word == es[j].word
    ensures es[i].pos < es[j].pos
  {
    assert KeyLess(es[i], es[j]);
    LessIrreflexive(es[i].word);
  }

  /** A sorted segment holds each (word, category) pair at most once. */
  lemma MatchUnique(es: seq<Entry>, w: seq<byte>, q: PosQuery, s: int, t: int)
    requires SegmentSorted(es) && MatchAt(es, s, w, q) && MatchAt(es, t, w, q)
    ensures s == t
  {
    if s < t {
      PosIncreasing(es, s, t);
    } else if t < s {
      PosIncreasing(es, t, s);
    }
  }

  /** The backward scan from a block whose category is above the request found no match and
      stopped at the start of the run: then the segment holds no match at all. */
  lemma NoMatchAfterBackScan(es: seq<Entry>, w: seq<byte>, q: PosQuery, a: int, k: int)
    requires SegmentSorted(es) && Run(es, w, a, k + 1) && a <= k < |es|
    requires a == 0 || es[a - 1].word != w
    requires NoMatchIn(es, q, a, k) && Above(es[k].pos, q)
    ensures !HasMatch(es, w, q)
  {
    RunAt(es, w, a, k + 1, k);
    forall t | MatchAt(es, t, w, q) ensures false {
      if t < a {
        RunContiguous(es, w, t, a - 1, k);
      } else if t < k {
        NoMatchAt(es, q, a, k, t);
      } else if k < t {
        PosIncreasing(es, k, t);
      }
    }
  }

  /** The forward scan from a block whose category is not above the request found no match and
      stopped at the end of the run: then the segment holds no match at all. */
  lemma NoMatchAfterForwardScan(es: seq<Entry>, w: seq<byte>, q: PosQuery, k: int, e: int)
    requires SegmentSorted(es) && Run(es, w, k, e) && k < e
    requires e == |es| || es[e].word != w
    requires NoMatchIn(es, q, k, e) && !Above(es[k].pos, q)
    ensures !HasMatch(es, w, q)
  {
    RunAt(es, w, k, e, k);
    forall t | MatchAt(es, t, w, q) ensures false {
      if e <= t {
        RunContiguous(es, w, k, e, t);
      } else if k <= t {
        NoMatchAt(es, q, k, e, t);
      } else {
        PosIncreasing(es, t, k);
      }
    }
  }

  /** The rounded mean of the levels of a non-empty run lies between its smallest and its
      largest level. */
  lemma AverageWithinLevels(es: seq<Entry>, a: int, e: int, lo: int, hi: int)
    requires 0 <= a < e <= |es|
    requires forall t :: a <= t < e ==> lo <= es[t].level <= hi
    ensures lo <= RoundHalfEven(SumRange(es, a, e), e - a) <= hi
  {
    SumRangeBounds(es, a, e, lo, hi);
    RoundedMeanBounds(SumRange(es, a, e), e - a, lo, hi);
  }

  // ---- the scans ----

  /** The byte loop of the scans: whether the bytes at m spell the word. */
  method WordAt(data: seq<byte>, m: int, word: seq<byte>) returns (same: bool)
    requires 0 <= m && m + |word| <= |data|
    ensures same <==> data[m..m + |word|] == word
  {
    var i := m;
    var t := 0;
    while t < |word|
      invariant 0 <= t <= |word| && i == m + t
      invariant data[m..i] == word[..t]
    {
      if data[i] != word[t] {
        assert data[m..m + |word|][t] != word[t];
        return false;
      }
      assert data[m..i + 1] == data[m..i] + [data[i]];
      i := i + 1;
      t := t + 1;
    }
    assert word[..t] == word;
    return true;
  }

  /** The byte loop applied to block j of the word's segment, which starts at m: whether the
      block holds the word, with where its category and level bytes are. */
  method ReadBlock(rd: Reader, word: seq<byte>, m: int, ghost es: seq<Entry>, ghost j: int)
    returns (same: bool)
    requires rd.Valid() && IsWordLenValid(rd.wlp, |word|)
    requires es == Entries(rd.wlp, rd.data, |word|)
    requires 0 <= j < |es| && m == BlockPos(rd.wlp, |word|, j)
    ensures 0 <= m && m + |word| + 2 <= |rd.data|
    ensures same <==> es[j].word == word
    ensures rd.data[m + |word|] == es[j].pos && rd.data[m + |word| + 1] == es[j].level
  {
    EntryBytes(rd.wlp, rd.data, |word|, j);
    same := WordAt(rd.data, m, word);
  }

  /** The block before block a starts one block length earlier, and it lies inside the segment
      exactly when a is not the first block. */
  lemma BackwardNext(wlp: seq<nat>, L: int, a: int, m: int)
    requires IsWordLenValid(wlp, L) && 0 <= a && m == BlockPos(wlp, L, a)
    ensures m - (L + 2) == BlockPos(wlp, L, a - 1)
    ensures m - (L + 2) < wlp[L - 1] <==> a == 0
  {
    BlockPosStep(wlp, L, a);
    PosOrder(wlp, L, 0, a - 1);
  }

  /** A block of the word that does not match extends the backward scan by one. */
  lemma BackwardGrow(es: seq<Entry>, w: seq<byte>, q: PosQuery, a: int, k: int)
    requires 0 < a <= k < |es| && es[a - 1].word == w && !Matches(es[a - 1].pos, q)
    requires Run(es, w, a, k + 1) && NoMatchIn(es, q, a, k)
    ensures Run(es, w, a - 1, k + 1) && NoMatchIn(es, q, a - 1, k)
    ensures SumRange(es, a - 1, k) == es[a - 1].level + SumRange(es, a, k)
  {
  }

  /** The backward scan of source lines 160-182, over the blocks before block k (which holds
      the word and starts at first): it stops at the segment start or at the first block of
      another word, returning the level of the first block it meets with the requested category
      and otherwise adding the levels it passes to count0 blocks and the sum acc0. */
  method ScanBackwardFor(rd: Reader, word: seq<byte>, q: PosQuery, first: int,
                         ghost es: seq<Entry>, ghost k: int, count0: int, acc0: int)
    returns (hit: Option<int>, count: int, acc: int, ghost a: int)
    requires rd.Valid() && IsWordLenValid(rd.wlp, |word|)
    requires es == Entries(rd.wlp, rd.data, |word|)
    requires 0 <= k < |es| && first == BlockPos(rd.wlp, |word|, k) && es[k].word == word
    ensures hit.Some? ==>
      0 <= a < k && MatchAt(es, a, word, q) && hit.value == es[a].level &&
      Run(es, word, a, k + 1) && NoMatchIn(es, q, a + 1, k)
    ensures hit.None? ==>
      a <= k && Run(es, word, a, k + 1) && (a == 0 || es[a - 1].word != word) &&
      count == count0 + (k - a) && acc == acc0 + SumRange(es, a, k) && NoMatchIn(es, q, a, k)
  {
    var wlp, data := rd.wlp, rd.data;
    var L := |word|;
    var B := L + 2;
    var start := wlp[L - 1];
    var m := first;
    count, acc, a := count0, acc0, k;
    hit := None;
    while true
      invariant 0 <= a <= k && m == BlockPos(wlp, L, a)
      invariant Run(es, word, a, k + 1) && NoMatchIn(es, q, a, k)
      invariant count == count0 + (k - a) && acc == acc0 + SumRange(es, a, k)
      decreases a
    {
      BackwardNext(wlp, L, a, m);
      m := m - B;
      if m < start {
        return;
      }
      var same := ReadBlock(rd, word, m, es, a - 1);
      if !same {
        return;
      }
      var p := data[m + L];
      var level := data[m + L + 1];
      if Matches(p, q) {
        hit := Some(level);
        a := a - 1;
        return;
      }
      BackwardGrow(es, word, q, a, k);
      count := count + 1;
      acc := acc + level;
      a := a - 1;
    }
  }

  /** The backward scan of source lines 214-230: like ScanBackwardFor, but it only adds up the
      levels of the run before block k, without looking at categories. */
  method ScanBackwardAll(rd: Reader, word: seq<byte>, first: int,
                         ghost es: seq<Entry>, ghost k: int, count0: int, acc0: int)
    returns (count: int, acc: int, ghost a: int)
    requires rd.Valid() && IsWordLenValid(rd.wlp, |word|)
    requires es == Entries(rd.wlp, rd.data, |word|)
    requires 0 <= k < |es| && first == BlockPos(rd.wlp, |word|, k) && es[k].word == word
    ensures a <= k && Run(es, word, a, k + 1) && (a == 0 || es[a - 1].word != word)
    ensures count == count0 + (k - a) && acc == acc0 + SumRange(es, a, k)
  {
    var wlp, data := rd.wlp, rd.data;
    var L := |word|;
    var B := L + 2;
    var start := wlp[L - 1];
    var m := first;
    count, acc, a := count0, acc0, k;
    while true
      invariant 0 <= a <= k && m == BlockPos(wlp, L, a)
      invariant Run(es, word, a, k + 1)
      invariant count == count0 + (k - a) && acc == acc0 + SumRange(es, a, k)
      decreases a
    {
      BlockPosStep(wlp, L, a);
      PosOrder(wlp, L, 0, a - 1);
      m := m - B;
      if m < start {
        return;
      }
      var same := ReadBlock(rd, word, m, es, a - 1);
      if !same {
        return;
      }
      assert SumRange(es, a - 1, k) == data[m + L + 1] + SumRange(es, a, k);
      count := count + 1;
      acc := acc + data[m + L + 1];
      a := a - 1;
    }
  }

  /** The block after block e - 1 starts one block length further on, and it lies inside the
      segment exactly when e is not the last block. */
  lemma ForwardNext(wlp: seq<nat>, data: seq<byte>, L: int, es: seq<Entry>, e: int, m: int)
    requires DataValid(wlp, data) && IsWordLenValid(wlp, L) && es == Entries(wlp, data, L)
    requires 0 < e <= |es| && m == BlockPos(wlp, L, e - 1)
    ensures m + (L + 2) == BlockPos(wlp, L, e)
    ensures m + (L + 2) >= wlp[L] <==> e == |es|
  {
    BlockPosStep(wlp, L, e - 1);
    SegmentEnd(wlp, L);
    PosOrder(wlp, L, |es|, e);
  }

  /** A block of the word that does not match extends the forward scan by one. */
  lemma ForwardGrow(es: seq<Entry>, w: seq<byte>, q: PosQuery, k: int, e: int)
    requires 0 <= k < e < |es| && es[e].word == w && !Matches(es[e].pos, q)
    requires Run(es, w, k, e) && NoMatchIn(es, q, k + 1, e)
    ensures Run(es, w, k, e + 1) && NoMatchIn(es, q, k + 1, e + 1)
    ensures SumRange(es, k + 1, e + 1) == SumRange(es, k + 1, e) + es[e].level
  {
    SumRangeSnoc(es, k + 1, e);
    RunSnoc(es, w, k, e);
    NoMatchSnoc(es, q, k + 1, e);
  }

  /** The forward scan over the blocks after block k (source lines 188-210): it stops at the
      segment end or at the first block of another word, returning the level of the first block
      it meets with the requested category and otherwise adding the levels it passes. */
  method ScanForward(rd: Reader, word: seq<byte>, q: PosQuery, first: int,
                     ghost es: seq<Entry>, ghost k: int, count0: int, acc0: int)
    returns (hit: Option<int>, count: int, acc: int, ghost e: int)
    requires rd.Valid() && IsWordLenValid(rd.wlp, |word|)
    requires es == Entries(rd.wlp, rd.data, |word|)
    requires 0 <= k < |es| && first == BlockPos(rd.wlp, |word|, k) && es[k].word == word
    ensures hit.Some? ==>
      k < e < |es| && MatchAt(es, e, word, q) && hit.value == es[e].level &&
      Run(es, word, k, e + 1) && NoMatchIn(es, q, k + 1, e)
    ensures hit.None? ==>
      k < e && Run(es, word, k, e) && (e == |es| || es[e].word != word) &&
      count == count0 + (e - k - 1) && acc == acc0 + SumRange(es, k + 1, e) &&
      NoMatchIn(es, q, k + 1, e)
  {
    var wlp, data := rd.wlp, rd.data;
    var L := |word|;
    var B := L + 2;
    var end := wlp[L];
    SegmentEnd(wlp, L);
    var m := first;
    count, acc, e := count0, acc0, k + 1;
    hit := None;
    while true
      invariant k < e <= |es| && m == BlockPos(wlp, L, e - 1)
      invariant Run(es, word, k, e)
      invariant count == count0 + (e - k - 1) && acc == acc0 + SumRange(es, k + 1, e)
      invariant NoMatchIn(es, q, k + 1, e)
      decreases |es| - e
    {
      ForwardNext(wlp, data, L, es, e, m);
      m := m + B;
      if m >= end {
        return;
      }
      var same := ReadBlock(rd, word, m, es, e);
      if !same {
        return;
      }
      var p := data[m + L];
      var level := data[m + L + 1];
      if Matches(p, q) {
        RunSnoc(es, word, k, e);
        hit := Some(level);
        return;
      }
      count := count + 1;
      acc := acc + level;
      ForwardGrow(es, word, q, k, e);
      e := e + 1;
    }
  }

  /** What the level lookup promises of its answer r about the blocks es of the word's segment,
      where k is the block the binary search lands on and a..e-1 are the blocks whose levels an
      averaged answer is the rounded mean of: an answer is only given for a stored word; without
      averaging it is the level of a block with the requested category; in a sorted segment it
      is the level of the matching block whenever there is one; and if the sorted segment holds
      the word but not the category, the averaged answer is the rounded mean over the run of the
      word that starts at the word's first block and ends just after block k when k's category
      is above the request, at the word's last block otherwise. */
  ghost predicate LevelOutcome(es: seq<Entry>, w: seq<byte>, q: PosQuery, avg: bool, k: int,
                               r: Option<int>, a: int, e: int)
  {
    (r.Some? ==> HasWord(es, w)) &&
    (r.Some? && !avg ==> (exists t :: MatchAt(es, t, w, q) && r.value == es[t].level)) &&
    (SegmentSorted(es) ==> forall t :: MatchAt(es, t, w, q) ==> r == Some(es[t].level)) &&
    (SegmentSorted(es) && avg && HasWord(es, w) && !HasMatch(es, w, q) ==>
      a <= k < e && Run(es, w, a, e) && es[k].word == w && (a == 0 || es[a - 1].word != w) &&
      (if Above(es[k].pos, q) then e == k + 1 else e == |es| || es[e].word != w) &&
      r == Some(RoundHalfEven(SumRange(es, a, e), e - a)))
  }

  /** In a sorted segment the answer is determined by the blocks, the request and the landed
      block: two answers that both meet LevelOutcome are equal. */
  lemma OutcomeDetermined(es: seq<Entry>, w: seq<byte>, q: PosQuery, avg: bool, k: int,
                          r1: Option<int>, a1: int, e1: int, r2: Option<int>, a2: int, e2: int)
    requires SegmentSorted(es)
    requires LevelOutcome(es, w, q, avg, k, r1, a1, e1) && LevelOutcome(es, w, q, avg, k, r2, a2, e2)
    ensures r1 == r2
  {
    if HasMatch(es, w, q) {
      var t :| MatchAt(es, t, w, q);
    } else if !avg || !HasWord(es, w) {
      assert r1.None? && r2.None?;
    } else {
      RunStart(es, w, k, a1, e1, a2, e2);
      RunStart(es, w, k, a2, e2, a1, e1);
      if !Above(es[k].pos, q) {
        RunEnd(es, w, k, a1, e1, a2, e2);
        RunEnd(es, w, k, a2, e2, a1, e1);
      }
    }
  }

  /** Two runs through block k that each start at a first block of the word start together. */
  lemma RunStart(es: seq<Entry>, w: seq<byte>, k: int, a1: int, e1: int, a2: int, e2: int)
    requires a1 <= k < e1 && Run(es, w, a1, e1) && a2 <= k < e2 && Run(es, w, a2, e2)
    requires a2 == 0 || es[a2 - 1].word != w
    ensures a1 >= a2
  {
    if a1 < a2 {
      RunAt(es, w, a1, e1, a2 - 1);
    }
  }

  /** Two runs through block k that each end at a last block of the word end together. */
  lemma RunEnd(es: seq<Entry>, w: seq<byte>, k: int, a1: int, e1: int, a2: int, e2: int)
    requires a1 <= k < e1 && Run(es, w, a1, e1) && a2 <= k < e2 && Run(es, w, a2, e2)
    requires e2 == |es| || es[e2].word != w
    ensures e1 <= e2
  {
    if e2 < e1 {
      RunAt(es, w, a1, e1, e2);
    }
  }

  /** The answer None when the search finds nothing, which in a sorted segment means that the
      word is not stored. */
  lemma MissOutcome(es: seq<Entry>, w: seq<byte>, q: PosQuery, avg: bool, k: int)
    requires SegmentSorted(es) ==> !HasWord(es, w)
    ensures LevelOutcome(es, w, q, avg, k, None, 0, 0)
  {
    if HasMatch(es, w, q) {
      var t :| MatchAt(es, t, w, q);
      assert es[t].word == w;
    }
  }

  /** The answer when block t matches: its level, the only possible one in a sorted segment. */
  lemma MatchOutcome(es: seq<Entry>, w: seq<byte>, q: PosQuery, avg: bool, k: int, t: int, a: int, e: int)
    requires MatchAt(es, t, w, q)
    ensures LevelOutcome(es, w, q, avg, k, Some(es[t].level), a, e)
  {
    if SegmentSorted(es) {
      forall s | MatchAt(es, s, w, q) ensures s == t {
        MatchUnique(es, w, q, s, t);
      }
    }
  }

  /** The branch of source lines 160-185: the landed block k's category is above the request, so
      only the blocks before it are scanned. */
  method LevelBelowLanding(rd: Reader, word: seq<byte>, q: PosQuery, avg: bool, first: int,
                           level: int, ghost es: seq<Entry>, ghost k: int)
    returns (r: Option<int>, ghost a: int, ghost e: int)
    requires rd.Valid() && IsWordLenValid(rd.wlp, |word|)
    requires es == Entries(rd.wlp, rd.data, |word|)
    requires 0 <= k < |es| && first == BlockPos(rd.wlp, |word|, k) && es[k].word == word
    requires Above(es[k].pos, q) && level == es[k].level
    ensures LevelOutcome(es, word, q, avg, k, r, a, e)
  {
    var hit, count, acc;
    hit, count, acc, a := ScanBackwardFor(rd, word, q, first, es, k, 1, level);
    e := k + 1;
    if hit.Some? {
      MatchOutcome(es, word, q, avg, k, a, a, e);
      return hit, a, e;
    }
    if SegmentSorted(es) {
      NoMatchAfterBackScan(es, word, q, a, k);
    }
    SumRangeSnoc(es, a, k);
    assert HasWord(es, word) by { assert es[k].word == word; }
    if avg {
      return Some(RoundHalfEven(acc, count)), a, e;
    }
    return None, a, e;
  }

  /** When the forward scan from a block whose category is below the request finds no match,
      the answer is the average over the word's whole run, or None without averaging. */
  lemma WholeRunOutcome(es: seq<Entry>, w: seq<byte>, q: PosQuery, avg: bool, a: int, k: int, e: int,
                        count: int, acc: int)
    requires 0 <= a <= k < e <= |es| && es[k].word == w
    requires Run(es, w, a, k + 1) && (a == 0 || es[a - 1].word != w)
    requires Run(es, w, k, e) && (e == |es| || es[e].word != w)
    requires !Matches(es[k].pos, q) && !Above(es[k].pos, q) && NoMatchIn(es, q, k + 1, e)
    requires count == e - a && acc == SumRange(es, a, e)
    ensures LevelOutcome(es, w, q, avg, k, if avg then Some(RoundHalfEven(acc, count)) else None, a, e)
  {
    RunJoin(es, w, a, k + 1, e);
    assert HasWord(es, w) by { assert es[k].word == w; }
    if SegmentSorted(es) {
      NoMatchAfterForwardScan(es, w, q, k, e);
    }
  }

  /** The branch of source lines 187-230: the landed block k's category is below the request (or
      the request is the "any category" sentinel), so the blocks after it are scanned for the
      category and then the blocks before it are added up. */
  method LevelAboveLanding(rd: Reader, word: seq<byte>, q: PosQuery, avg: bool, first: int,
                           level: int, ghost es: seq<Entry>, ghost k: int)
    returns (r: Option<int>, ghost a: int, ghost e: int)
    requires rd.Valid() && IsWordLenValid(rd.wlp, |word|)
    requires es == Entries(rd.wlp, rd.data, |word|)
    requires 0 <= k < |es| && first == BlockPos(rd.wlp, |word|, k) && es[k].word == word
    requires !Matches(es[k].pos, q) && !Above(es[k].pos, q) && level == es[k].level
    ensures LevelOutcome(es, word, q, avg, k, r, a, e)
  {
    var hit, count, acc;
    a := k;
    hit, count, acc, e := ScanForward(rd, word, q, first, es, k, 1, level);
    if hit.Some? {
      MatchOutcome(es, word, q, avg, k, e, a, e);
      return hit, a, e;
    }
    count, acc, a := ScanBackwardAll(rd, word, first, es, k, count, acc);
    SumRangeSplit(es, a, k, e);
    assert SumRange(es, k, e) == level + SumRange(es, k + 1, e);
    WholeRunOutcome(es, word, q, avg, a, k, e, count, acc);
    if avg {
      return Some(RoundHalfEven(acc, count)), a, e;
    }
    return None, a, e;
  }

  /** _get_int_word_level_for_pos_id (source lines 126-224): the level byte of the block holding
      the word with the requested category, found by the binary search and a scan of the
      same-word run around the block it lands on; when no block matches and averaging was asked
      for, the rounded mean of the levels of the blocks a..e-1 the scans visited. */
  method IntWordLevelForPosId(rd: Reader, word: seq<byte>, q: PosQuery, avg: bool)
    returns (r: Option<int>, ghost a: int, ghost e: int)
    requires rd.Valid() && IsWordLenValid(rd.wlp, |word|)
    ensures LevelOutcome(Entries(rd.wlp, rd.data, |word|), word, q, avg,
                         LandedBlock(rd.wlp, rd.data, word), r, a, e)
  {
    var wlp, data := rd.wlp, rd.data;
    var L := |word|;
    ghost var es := Entries(wlp, data, L);
    ghost var k := LandedBlock(wlp, data, word);
    LandedBlockMeaning(wlp, data, word);
    var first := FirstWordMatchPos(rd, word);
    if first == -1 {
      MissOutcome(es, word, q, avg, k);
      return None, 0, 0;
    }
    r, a, e := LevelAtLanding(rd, word, q, avg, first, es, k);
  }

  /** Source lines 143-233: the binary search has landed on block k, which holds the word and
      starts at first; its category decides between the answer at k, the backward branch and
      the forward branch. */
  method LevelAtLanding(rd: Reader, word: seq<byte>, q: PosQuery, avg: bool, first: int,
                        ghost es: seq<Entry>, ghost k: int)
    returns (r: Option<int>, ghost a: int, ghost e: int)
    requires rd.Valid() && IsWordLenValid(rd.wlp, |word|)
    requires es == Entries(rd.wlp, rd.data, |word|)
    requires 0 <= k < |es| && first == BlockPos(rd.wlp, |word|, k) && es[k].word == word
    ensures LevelOutcome(es, word, q, avg, k, r, a, e)
  {
    var L := |word|;
    var same := ReadBlock(rd, word, first, es, k);
    var i := first + L;
    var p := rd.data[i];
    var level := rd.data[i + 1];
    if Matches(p, q) {
      MatchOutcome(es, word, q, avg, k, k, k, k + 1);
      return Some(level), k, k + 1;
    }
    if Above(p, q) {
      r, a, e := LevelBelowLanding(rd, word, q, avg, first, level, es, k);
    } else {
      r, a, e := LevelAboveLanding(rd, word, q, avg, first, level, es, k);
    }
  }

  /** The layout of two blocks of "a", with categories 1 and 3 and level bytes 0 and 100, is
      valid and sorted. */
  lemma TwoBlockLayoutValid()
    ensures var wlp, data := [0, 6], [97, 1, 0, 97, 3, 100];
      DataValid(wlp, data) && Entries(wlp, data, 1) == [Entry([97], 1, 0), Entry([97], 3, 100)] &&
      SegmentSorted(Entries(wlp, data, 1))
  {
    var wlp: seq<nat>, data: seq<byte> := [0, 6], [97, 1, 0, 97, 3, 100];
    assert SegmentShapeValid(wlp, 1);
    assert BlockValid(data, 0, 3) && BlockValid(data, 3, 3);
    assert SegmentValid(data, 6, 6, 3) && SegmentValid(data, 3, 6, 3) && SegmentValid(data, 0, 6, 3);
    assert SegmentBlocksValid(wlp, data, 1);
    EntryBytes(wlp, data, 1, 0);
    EntryBytes(wlp, data, 1, 1);
    assert data[0..1] == [97] && data[3..4] == [97];
  }

  /** The search returns the block it lands on, not the word's first block: on that sorted
      layout both blocks hold "a", and the search lands on the second, at byte 3. */
  lemma LandsOnLaterOccurrence()
    ensures var wlp, data := [0, 6], [97, 1, 0, 97, 3, 100];
      DataValid(wlp, data) && SegmentSorted(Entries(wlp, data, 1)) &&
      Entries(wlp, data, 1)[0].word == [97] && LandedBlock(wlp, data, [97]) == 1 &&
      BlockPos(wlp, 1, LandedBlock(wlp, data, [97])) == 3
  {
    TwoBlockLayoutValid();
    assert SearchBlocks(Entries([0, 6], [97, 1, 0, 97, 3, 100], 1), [97], 0, 2) == 1;
  }

  /** On that layout the binary search lands on the second block, whose category 3 is above
      the request 0, so the averaged answer for ("a", 0) is the rounded mean of both level
      bytes, 50, and not the level byte of the first block alone. */
  lemma AverageAroundLanding(r: Option<int>, a: int, e: int)
    requires var wlp, data := [0, 6], [97, 1, 0, 97, 3, 100];
      DataValid(wlp, data) &&
      LevelOutcome(Entries(wlp, data, 1), [97], PosId(0), true, LandedBlock(wlp, data, [97]), r, a, e)
    ensures r == Some(50)
  {
    var wlp: seq<nat>, data: seq<byte> := [0, 6], [97, 1, 0, 97, 3, 100];
    TwoBlockLayoutValid();
    var es := Entries(wlp, data, 1);
    assert SearchBlocks(es, [97], 0, 2) == 1;
    assert HasWord(es, [97]) by { assert es[0].word == [97]; }
    assert !HasMatch(es, [97], PosId(0));
    assert a == 0 && e == 2;
    assert SumRange(es, 0, 2) == 100;
  }
}
