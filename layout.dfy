/** The index layout seen as data: segment L of a validated table and data array is a sequence
    of blocks, each a word of L letters, a category byte and a packed level byte. */
module Layout {
  import opened Wrappers
  import opened Validator
  import opened Sequences

  /** A decoded data block. */
  datatype Entry = Entry(word: seq<byte>, pos: byte, level: byte)

  /** is_word_len_valid: lengths 1 .. |wlp| - 1 have a segment. */
  predicate IsWordLenValid(wlp: seq<nat>, L: int)
  {
    0 < L < |wlp|
  }

  /** The number of blocks in segment L. */
  function BlockCount(wlp: seq<nat>, L: int): nat
    requires WlpTableValid(wlp) && IsWordLenValid(wlp, L)
  {
    assert SegmentShapeValid(wlp, L);
    (wlp[L] - wlp[L-1]) / (L + 2)
  }

  /** Where block j of segment L starts. */
  function BlockPos(wlp: seq<nat>, L: int, j: int): int
    requires IsWordLenValid(wlp, L)
  {
    wlp[L-1] + j * (L + 2)
  }

  /** Neighbouring blocks are one block length apart. */
  lemma BlockPosStep(wlp: seq<nat>, L: int, j: int)
    requires IsWordLenValid(wlp, L)
    ensures BlockPos(wlp, L, j + 1) == BlockPos(wlp, L, j) + L + 2
    ensures BlockPos(wlp, L, j - 1) == BlockPos(wlp, L, j) - (L + 2)
  {
    assert (j + 1) * (L + 2) == j * (L + 2) + (L + 2);
    assert (j - 1) * (L + 2) == j * (L + 2) - (L + 2);
  }

  lemma MulMono(a: int, b: int, c: int)
    requires 0 <= a <= b && c > 0
    ensures a * c <= b * c
  {
  }

  lemma DivExact(k: int, b: int)
    requires b > 0 && k >= 0
    ensures (k * b) / b == k
  {
    var x := k * b;
    var q, m := x / b, x % b;
    assert x == q * b + m && 0 <= m < b;
    assert (q - k) * b == -m;
    if q - k >= 1 { MulMono(1, q - k, b); }
    if q - k <= -1 { MulMono(1, k - q, b); }
  }

  /** Segment L is exactly BlockCount(wlp, L) blocks long. */
  lemma SegmentSize(wlp: seq<nat>, L: int)
    requires WlpTableValid(wlp) && IsWordLenValid(wlp, L)
    ensures wlp[L-1] <= wlp[L]
    ensures wlp[L] - wlp[L-1] == BlockCount(wlp, L) * (L + 2)
  {
    assert SegmentShapeValid(wlp, L);
  }

  /** Segment L ends where its block BlockCount(wlp, L) would start. */
  lemma SegmentEnd(wlp: seq<nat>, L: int)
    requires WlpTableValid(wlp) && IsWordLenValid(wlp, L)
    ensures wlp[L] == BlockPos(wlp, L, BlockCount(wlp, L))
  {
    SegmentSize(wlp, L);
  }

  /** Every block of segment L lies inside the segment, and the segment inside the data. */
  lemma BlockInside(wlp: seq<nat>, data: seq<byte>, L: int, j: int)
    requires DataValid(wlp, data) && IsWordLenValid(wlp, L) && 0 <= j < BlockCount(wlp, L)
    ensures wlp[L-1] <= BlockPos(wlp, L, j)
    ensures BlockPos(wlp, L, j) + L + 2 <= wlp[L] <= |data|
  {
    SegmentSize(wlp, L);
    MulMono(j + 1, BlockCount(wlp, L), L + 2);
    assert (j + 1) * (L + 2) == j * (L + 2) + (L + 2);
    TableMonotone(wlp, L, |wlp| - 1);
  }

  /** The start of block j of blocks of B bytes stored from base. */
  function Offset(base: int, B: int, j: int): int
  {
    base + j * B
  }

  /** Block starts are ordered as their indices. */
  lemma OffsetOrder(base: int, B: int, i: int, j: int)
    requires 0 < B
    ensures Offset(base, B, i) <= Offset(base, B, j) <==> i <= j
  {
    if i <= j {
      MulMono(0, j - i, B);
      assert j * B - i * B == (j - i) * B;
    } else {
      MulMono(1, i - j, B);
      assert i * B - j * B == (i - j) * B;
    }
  }

  /** Every one of n blocks of B bytes stored from base ends by the end of the last. */
  lemma OffsetsWithin(base: int, B: int, n: int)
    requires 0 < B
    ensures forall j :: 0 <= j < n ==> base <= Offset(base, B, j) && Offset(base, B, j) + B <= Offset(base, B, n)
  {
    forall j | 0 <= j < n
      ensures base <= Offset(base, B, j) && Offset(base, B, j) + B <= Offset(base, B, n)
    {
      OffsetOrder(base, B, 0, j);
      OffsetOrder(base, B, j + 1, n);
      assert (j + 1) * B == j * B + B;
    }
  }

  function EntryAt(data: seq<byte>, p: int, L: nat): Entry
    requires 0 <= p && p + L + 2 <= |data|
  {
    Entry(data[p..p + L], data[p + L], data[p + L + 1])
  }

  /** The n blocks of words of L letters stored one after another from byte position base. */
  ghost function Blocks(data: seq<byte>, base: int, L: nat, n: nat): (es: seq<Entry>)
    requires 0 <= base && Offset(base, L + 2, n) <= |data|
    ensures |es| == n
    ensures forall j :: 0 <= j < n ==>
      0 <= Offset(base, L + 2, j) && Offset(base, L + 2, j) + L + 2 <= |data| &&
      es[j] == EntryAt(data, Offset(base, L + 2, j), L)
  {
    OffsetsWithin(base, L + 2, n);
    seq(n, j requires 0 <= j < n => EntryAt(data, Offset(base, L + 2, j), L))
  }

  /** The blocks of segment L, in storage order. */
  ghost function Entries(wlp: seq<nat>, data: seq<byte>, L: int): (es: seq<Entry>)
    requires DataValid(wlp, data) && IsWordLenValid(wlp, L)
    ensures |es| == BlockCount(wlp, L)
  {
    seq(BlockCount(wlp, L), j requires 0 <= j < BlockCount(wlp, L) =>
      BlockInside(wlp, data, L, j);
      EntryAt(data, BlockPos(wlp, L, j), L))
  }

  /** Segment L is its blocks, stored from its start up to the start of the next segment. */
  lemma EntriesAreBlocks(wlp: seq<nat>, data: seq<byte>, L: int)
    requires DataValid(wlp, data) && IsWordLenValid(wlp, L)
    ensures 0 <= wlp[L-1] && wlp[L] == Offset(wlp[L-1], L + 2, BlockCount(wlp, L)) <= |data|
    ensures Entries(wlp, data, L) == Blocks(data, wlp[L-1], L, BlockCount(wlp, L))
  {
    SegmentEnd(wlp, L);
    TableMonotone(wlp, L, |wlp| - 1);
    var es, bs := Entries(wlp, data, L), Blocks(data, wlp[L-1], L, BlockCount(wlp, L));
    forall j | 0 <= j < |es|
      ensures es[j] == bs[j]
    {
      EntryBytes(wlp, data, L, j);
    }
  }

  /** What block j of segment L holds, byte by byte. */
  lemma EntryBytes(wlp: seq<nat>, data: seq<byte>, L: int, j: int)
    requires DataValid(wlp, data) && IsWordLenValid(wlp, L) && 0 <= j < BlockCount(wlp, L)
    ensures wlp[L-1] <= BlockPos(wlp, L, j) && BlockPos(wlp, L, j) + L + 2 <= wlp[L] <= |data|
    ensures Entries(wlp, data, L)[j] == EntryAt(data, BlockPos(wlp, L, j), L)
  {
    BlockInside(wlp, data, L, j);
  }

  /** The validity of a segment, block by block. */
  lemma {:induction false} SegmentBlockValid(data: seq<byte>, p: int, e: int, b: int, n: int, j: int)
    requires b > 0 && e - p == n * b && 0 <= j < n && SegmentValid(data, p, e, b)
    ensures BlockValid(data, p + j * b, b)
    decreases j
  {
    assert p < e by { MulMono(1, n, b); }
    if j > 0 {
      assert e - (p + b) == (n - 1) * b;
      SegmentBlockValid(data, p + b, e, b, n - 1, j - 1);
      assert p + b + (j - 1) * b == p + j * b;
    }
  }

  /** Each block's word is L lower-case letters and its category a valid tag id. */
  lemma EntryWellFormed(wlp: seq<nat>, data: seq<byte>, L: int, j: int)
    requires DataValid(wlp, data) && IsWordLenValid(wlp, L) && 0 <= j < BlockCount(wlp, L)
    ensures |Entries(wlp, data, L)[j].word| == L
    ensures forall t :: 0 <= t < L ==> IsLowerLetter(Entries(wlp, data, L)[j].word[t])
    ensures Entries(wlp, data, L)[j].pos <= MaxPosTagId
  {
    SegmentSize(wlp, L);
    assert SegmentBlocksValid(wlp, data, L);
    SegmentBlockValid(data, wlp[L-1], wlp[L], L + 2, BlockCount(wlp, L), j);
    EntryBytes(wlp, data, L, j);
  }

  // ---- the order of words: Python's comparison of strings, over their character codes ----

  predicate Less(a: seq<int>, b: seq<int>)
    decreases |a|
  {
    |b| > 0 && (|a| == 0 || a[0] < b[0] || (a[0] == b[0] && Less(a[1..], b[1..])))
  }

  lemma {:induction false} LessIrreflexive(a: seq<int>)
    ensures !Less(a, a)
    decreases |a|
  {
    if |a| > 0 {
      LessIrreflexive(a[1..]);
    }
  }

  lemma {:induction false} LessTransitive(a: seq<int>, b: seq<int>, c: seq<int>)
    requires Less(a, b) && Less(b, c)
    ensures Less(a, c)
    decreases |a|
  {
    if |a| > 0 && a[0] == b[0] && b[0] == c[0] {
      LessTransitive(a[1..], b[1..], c[1..]);
    }
  }

  lemma {:induction false} LessTotal(a: seq<int>, b: seq<int>)
    ensures a == b || Less(a, b) || Less(b, a)
    decreases |a|
  {
    if |a| > 0 && |b| > 0 && a[0] == b[0] {
      LessTotal(a[1..], b[1..]);
      if a[1..] == b[1..] {
        assert a == [a[0]] + a[1..] && b == [b[0]] + b[1..];
      }
    }
  }

  lemma LessAsymmetric(a: seq<int>, b: seq<int>)
    ensures !(Less(a, b) && Less(b, a))
  {
    if Less(a, b) && Less(b, a) {
      LessTransitive(a, b, a);
      LessIrreflexive(a);
    }
  }

  /** The order of blocks within a segment: by word, then by category id. */
  predicate KeyLess(x: Entry, y: Entry)
  {
    Less(x.word, y.word) || (x.word == y.word && x.pos < y.pos)
  }

  ghost predicate SegmentSorted(es: seq<Entry>)
  {
    forall i, j :: 0 <= i < j < |es| ==> KeyLess(es[i], es[j])
  }

  /** Every segment is sorted by (word, category id): the validator does not check this. */
  ghost predicate LayoutSorted(wlp: seq<nat>, data: seq<byte>)
    requires DataValid(wlp, data)
  {
    forall L :: IsWordLenValid(wlp, L) ==> SegmentSorted(Entries(wlp, data, L))
  }

  function Words(es: seq<Entry>): (ws: seq<seq<byte>>)
    ensures |ws| == |es| && forall i :: 0 <= i < |es| ==> ws[i] == es[i].word
  {
    seq(|es|, i requires 0 <= i < |es| => es[i].word)
  }

  predicate StrictlyIncreasing(s: seq<seq<byte>>)
  {
    forall i, j :: 0 <= i < j < |s| ==> Less(s[i], s[j])
  }

  predicate StrictlyDecreasing(s: seq<seq<byte>>)
  {
    forall i, j :: 0 <= i < j < |s| ==> Less(s[j], s[i])
  }

  predicate NonDecreasing(s: seq<seq<byte>>)
  {
    forall i, j :: 0 <= i < j < |s| ==> Less(s[i], s[j]) || s[i] == s[j]
  }

  /** Dropping adjacent duplicates of a non-decreasing sequence leaves it strictly increasing. */
  lemma {:induction false} DedupIncreasing(s: seq<seq<byte>>)
    requires NonDecreasing(s)
    ensures StrictlyIncreasing(Dedup(s))
    decreases |s|
  {
    if |s| > 0 {
      var p, x := s[..|s| - 1], s[|s| - 1];
      assert s == p + [x];
      assert NonDecreasing(p);
      DedupIncreasing(p);
      DedupSnoc(p, x);
      if !(|p| > 0 && p[|p| - 1] == x) {
        var d := Dedup(p);
        DedupElements(p);
        forall i | 0 <= i < |d| ensures Less(d[i], x) {
          assert d[i] in p;
          var k :| 0 <= k < |p| && p[k] == d[i];
          assert Less(p[k], x) || p[k] == x;
          if p[k] == x {
            LessAsymmetric(x, p[|p| - 1]);
            assert false;
          }
        }
      }
    }
  }

  lemma ReverseDecreasing(s: seq<seq<byte>>)
    requires StrictlyIncreasing(s)
    ensures StrictlyDecreasing(Reverse(s))
  {
  }

  /** The words of a sorted segment never go down. */
  lemma SortedWordsNonDecreasing(es: seq<Entry>)
    requires SegmentSorted(es)
    ensures NonDecreasing(Words(es))
  {
  }

  // ---- rounding ----

  /** Python's round(num / den) for den > 0: the nearest integer, ties to the even one. */
  function RoundHalfEven(num: int, den: int): (r: int)
    requires den > 0
    ensures 2 * (r * den - num) <= den && 2 * (num - r * den) <= den
    ensures 2 * (r * den - num) == den || 2 * (num - r * den) == den ==> r % 2 == 0
  {
    var q, m := num / den, num % den;
    assert num == q * den + m;
    assert (q + 1) * den == q * den + den;
    if 2 * m < den then q
    else if 2 * m > den then q + 1
    else if q % 2 == 0 then q
    else q + 1
  }

  lemma NonPositiveFactor(x: int, d: int)
    requires d > 0 && x * d <= 0
    ensures x <= 0
  {
    if x >= 1 {
      MulMono(1, x, d);
    }
  }

  /** A rounded mean of values in [lo, hi] stays in [lo, hi]. */
  lemma RoundedMeanBounds(num: int, den: int, lo: int, hi: int)
    requires den > 0 && lo * den <= num <= hi * den
    ensures lo <= RoundHalfEven(num, den) <= hi
  {
    var r := RoundHalfEven(num, den);
    assert (2 * (lo - r) - 1) * den == 2 * (lo * den - r * den) - den;
    NonPositiveFactor(2 * (lo - r) - 1, den);
    assert (2 * (r - hi) - 1) * den == 2 * (r * den - hi * den) - den;
    NonPositiveFactor(2 * (r - hi) - 1, den);
  }

  /** The sum of the levels of blocks a..e-1. */
  function SumRange(es: seq<Entry>, a: int, e: int): int
    requires 0 <= a && e <= |es|
    decreases e - a
  {
    if a >= e then 0 else es[a].level + SumRange(es, a + 1, e)
  }

  lemma {:induction false} SumRangeSnoc(es: seq<Entry>, a: int, e: int)
    requires 0 <= a <= e < |es|
    ensures SumRange(es, a, e + 1) == SumRange(es, a, e) + es[e].level
    decreases e - a
  {
    if a < e {
      SumRangeSnoc(es, a + 1, e);
    }
  }

  lemma {:induction false} SumRangeSplit(es: seq<Entry>, a: int, k: int, e: int)
    requires 0 <= a <= k <= e <= |es|
    ensures SumRange(es, a, e) == SumRange(es, a, k) + SumRange(es, k, e)
    decreases k - a
  {
    if a < k {
      SumRangeSplit(es, a + 1, k, e);
    }
  }

  /** The sum of n levels that all lie in [lo, hi] lies in [lo * n, hi * n]. */
  lemma {:induction false} SumRangeBounds(es: seq<Entry>, a: int, e: int, lo: int, hi: int)
    requires 0 <= a <= e <= |es|
    requires forall t :: a <= t < e ==> lo <= es[t].level <= hi
    ensures lo * (e - a) <= SumRange(es, a, e) <= hi * (e - a)
    decreases e - a
  {
    if a < e {
      SumRangeBounds(es, a + 1, e, lo, hi);
      assert lo * (e - a) == lo * (e - a - 1) + lo && hi * (e - a) == hi * (e - a - 1) + hi;
    }
  }
}
