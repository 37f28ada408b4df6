/** Structural checks on a word-length-position table and its data array. */
module Validator {
  import opened Wrappers
  import POSTag

  /** The largest category byte a block may hold. */
  const MaxPosTagId: int := POSTag.TotalTags() - 1

  /** The bound the level byte is checked against. It is 6 * 50 = 300, larger than any byte,
      so the level check never rejects anything. */
  const MaxLevelValue: int := 6 * 50

  /** chr(b) is one of ascii_lowercase. */
  predicate IsLowerLetter(b: int)
  {
    'a' as int <= b <= 'z' as int
  }

  /** is_wlp_length_valid. */
  predicate IsWlpLengthValid(n: int)
  {
    2 <= n <= 255
  }

  /** What is_wlp_array_valid decides: a valid length, and each segment k (from w[k-1] to w[k])
      non-negative in size and made of whole blocks of k + 2 bytes. */
  predicate WlpTableValid(w: seq<int>)
  {
    IsWlpLengthValid(|w|) && forall k :: 1 <= k < |w| ==> SegmentShapeValid(w, k)
  }

  /** Segment k of the table is non-negative in size and made of whole blocks of k + 2 bytes. */
  predicate SegmentShapeValid(w: seq<int>, k: int)
    requires 1 <= k < |w|
  {
    w[k-1] <= w[k] && (w[k] - w[k-1]) % (k + 2) == 0
  }

  /** What validate_data_block accepts on a block that lies inside the data: k lower-case
      letters, a category byte of at most MaxPosTagId and a level byte of at most MaxLevelValue. */
  predicate BlockValid(data: seq<byte>, start: int, blockLength: int)
  {
    3 <= blockLength && 0 <= start && start + blockLength <= |data| &&
    (forall i :: start <= i < start + blockLength - 2 ==> IsLowerLetter(data[i])) &&
    data[start + blockLength - 2] <= MaxPosTagId &&
    data[start + blockLength - 1] <= MaxLevelValue
  }

  /** Every block at stride blockLength from p up to (not including) e is valid. */
  predicate SegmentValid(data: seq<byte>, p: int, e: int, blockLength: int)
    requires blockLength > 0
    decreases e - p
  {
    p >= e || (BlockValid(data, p, blockLength) && SegmentValid(data, p + blockLength, e, blockLength))
  }

  /** What is_data_valid decides. */
  predicate DataValid(wlp: seq<nat>, data: seq<byte>)
  {
    WlpTableValid(wlp) && wlp[|wlp| - 1] <= |data| &&
    forall k :: 1 <= k < |wlp| ==> SegmentBlocksValid(wlp, data, k)
  }

  /** Every block of segment k is valid. */
  predicate SegmentBlocksValid(wlp: seq<nat>, data: seq<byte>, k: int)
    requires 1 <= k < |wlp|
  {
    SegmentValid(data, wlp[k-1], wlp[k], k + 2)
  }

  /** is_wlp_array_valid: walks the table pairwise with a growing block size. */
  method IsWlpArrayValid(w: seq<int>) returns (ok: bool)
    ensures ok <==> WlpTableValid(w)
  {
    if !IsWlpLengthValid(|w|) {
      return false;
    }
    var sectorEnd := w[0];
    var blockSize := 2;
    var k := 1;  // index of the item the iterator yields next
    while k < |w|
      invariant 1 <= k <= |w|
      invariant sectorEnd == w[k-1] && blockSize == k + 1
      invariant forall j :: 1 <= j < k ==> SegmentShapeValid(w, j)
    {
      var sectorStart := sectorEnd;
      sectorEnd := w[k];
      blockSize := blockSize + 1;
      if sectorEnd < sectorStart {
        assert !SegmentShapeValid(w, k);
        return false;
      }
      if (sectorEnd - sectorStart) % blockSize != 0 {
        assert !SegmentShapeValid(w, k);
        return false;
      }
      k := k + 1;
    }
    return true;
  }

  /** validate_data_block. The byte reads are bounds-checked (IndexError), and with fewer than
      three bytes per block the loop variable the category check reads was never bound. */
  method ValidateDataBlock(data: seq<byte>, start: nat, blockLength: int) returns (r: Result<bool>)
    ensures r == Ok(true) <==> BlockValid(data, start, blockLength)
    ensures 3 <= blockLength && start + blockLength <= |data| ==> r.Ok?
    ensures blockLength < 3 ==> r == Err(UnboundLocalError)
    ensures r == Err(IndexError) ==> start + blockLength > |data|
  {
    var wordLen := blockLength - 2;
    if wordLen <= 0 {
      return Err(UnboundLocalError);
    }
    var i := start;
    while i < start + wordLen
      invariant start <= i <= start + wordLen
      invariant forall j :: start <= j < i ==> j < |data| && IsLowerLetter(data[j])
    {
      if i >= |data| {
        return Err(IndexError);
      }
      if !IsLowerLetter(data[i]) {
        return Ok(false);
      }
      i := i + 1;
    }
    // the source's loop variable stops at the last word byte
    var last := i - 1;
    if last + 1 >= |data| {
      return Err(IndexError);
    }
    if data[last + 1] > MaxPosTagId {
      return Ok(false);
    }
    if last + 2 >= |data| {
      return Err(IndexError);
    }
    if data[last + 2] > MaxLevelValue {
      return Ok(false);
    }
    return Ok(true);
  }

  /** is_data_valid. It never raises: every block it hands to ValidateDataBlock lies inside data. */
  method IsDataValid(wlp: seq<nat>, data: seq<byte>) returns (ok: bool)
    ensures ok <==> DataValid(wlp, data)
  {
    var tableOk := IsWlpArrayValid(wlp);
    if !tableOk {
      return false;
    }
    if wlp[|wlp| - 1] > |data| {
      return false;
    }
    var sectorEnd: int := wlp[0];
    var blockSize := 2;
    var k := 1;
    while k < |wlp|
      invariant 1 <= k <= |wlp|
      invariant sectorEnd == wlp[k-1] && blockSize == k + 1
      invariant forall j :: 1 <= j < k ==> SegmentBlocksValid(wlp, data, j)
    {
      blockSize := blockSize + 1;
      var sectorStart := sectorEnd;
      sectorEnd := wlp[k];
      TableMonotone(wlp, k, |wlp| - 1);
      assert SegmentShapeValid(wlp, k);
      ghost var n := WholeBlocks(sectorEnd - sectorStart, blockSize);
      var p := sectorStart;
      while p < sectorEnd
        invariant sectorStart <= p && sectorEnd - p == n * blockSize
        invariant SegmentValid(data, p, sectorEnd, blockSize) ==
                  SegmentValid(data, sectorStart, sectorEnd, blockSize)
        decreases sectorEnd - p
      {
        NextBlock(p, sectorEnd, n, blockSize);
        var r := ValidateDataBlock(data, p, blockSize);
        assert r.Ok?;
        if !r.value {
          assert !SegmentBlocksValid(wlp, data, k);
          return false;
        }
        p := p + blockSize;
        n := n - 1;
      }
      k := k + 1;
    }
    return true;
  }

  /** A segment size that passed the table check is a whole number of blocks. */
  lemma WholeBlocks(x: int, b: int) returns (n: int)
    requires b > 0 && x >= 0 && x % b == 0
    ensures n >= 0 && x == n * b
  {
    n := x / b;
  }

  /** One more block fits before the end of a segment that is not yet exhausted. */
  lemma NextBlock(p: int, e: int, n: int, b: int)
    requires b > 0 && e - p == n * b && p < e
    ensures n >= 1 && p + b <= e && e - (p + b) == (n - 1) * b
  {
  }

  /** The table's offsets are non-decreasing as a whole, not only pairwise. */
  lemma {:induction false} TableMonotone(w: seq<int>, i: int, j: int)
    requires WlpTableValid(w) && 0 <= i <= j < |w|
    ensures w[i] <= w[j]
    decreases j - i
  {
    if i < j {
      assert SegmentShapeValid(w, i + 1);
      TableMonotone(w, i + 1, j);
    }
  }

  /** A segment's check reads only bytes inside the segment. */
  lemma {:induction false} SegmentReadsOnlyItself(d1: seq<byte>, d2: seq<byte>, p: int, e: int, b: int, n: int)
    requires b > 0 && 0 <= p && e <= |d1| && e <= |d2| && e - p == n * b
    requires forall i :: p <= i < e ==> d1[i] == d2[i]
    ensures SegmentValid(d1, p, e, b) == SegmentValid(d2, p, e, b)
    decreases e - p
  {
    if p < e {
      NextBlock(p, e, n, b);
      assert BlockValid(d1, p, b) == BlockValid(d2, p, b);
      SegmentReadsOnlyItself(d1, d2, p + b, e, b, n - 1);
    }
  }

  /** Bytes outside [wlp[0], wlp[|wlp|-1]) are never inspected: leading or trailing filler is
      accepted whatever it holds. */
  lemma FillerIgnored(wlp: seq<nat>, d1: seq<byte>, d2: seq<byte>)
    requires WlpTableValid(wlp)
    requires wlp[|wlp| - 1] <= |d1| && wlp[|wlp| - 1] <= |d2|
    requires forall i :: wlp[0] <= i < wlp[|wlp| - 1] ==> d1[i] == d2[i]
    ensures DataValid(wlp, d1) == DataValid(wlp, d2)
  {
    forall k | 1 <= k < |wlp|
      ensures SegmentBlocksValid(wlp, d1, k) == SegmentBlocksValid(wlp, d2, k)
    {
      assert SegmentShapeValid(wlp, k);
      TableMonotone(wlp, 0, k - 1);
      TableMonotone(wlp, k, |wlp| - 1);
      var n := WholeBlocks(wlp[k] - wlp[k-1], k + 2);
      SegmentReadsOnlyItself(d1, d2, wlp[k-1], wlp[k], k + 2, n);
    }
  }

  /** The level check never fails for a byte. */
  lemma LevelCheckNeverRejects(data: seq<byte>, start: int, blockLength: int)
    requires 3 <= blockLength && 0 <= start && start + blockLength <= |data|
    ensures BlockValid(data, start, blockLength) <==>
      (forall i :: start <= i < start + blockLength - 2 ==> IsLowerLetter(data[i])) &&
      data[start + blockLength - 2] <= MaxPosTagId
  {
  }

  /** Validity says nothing about the order of blocks: "b" before "a" is accepted. */
  lemma OrderNotChecked()
    ensures DataValid([0, 6], [98, 0, 0, 97, 0, 0])
  {
    assert SegmentValid([98, 0, 0, 97, 0, 0], 6, 6, 3);
    assert BlockValid([98, 0, 0, 97, 0, 0], 3, 3);
    assert SegmentValid([98, 0, 0, 97, 0, 0], 3, 6, 3);
    assert BlockValid([98, 0, 0, 97, 0, 0], 0, 3);
  }

  /** Block j of a valid segment of blocks of b bytes stored from p is a valid block. */
  lemma {:induction false} BlockOfValidSegment(data: seq<byte>, p: int, e: int, b: int, j: int)
    requires b > 0 && 0 <= j && p + (j + 1) * b <= e && SegmentValid(data, p, e, b)
    ensures BlockValid(data, p + j * b, b)
    decreases j
  {
    if j > 0 {
      assert (p + b) + ((j - 1) + 1) * b == p + (j + 1) * b;
      BlockOfValidSegment(data, p + b, e, b, j - 1);
      assert (p + b) + (j - 1) * b == p + j * b;
    }
  }

  /** Every block of an accepted segment passes validate_data_block: block j of segment k,
      which starts j blocks of k + 2 bytes after wlp[k-1] and ends by wlp[k]. */
  lemma AcceptedBlockValid(wlp: seq<nat>, data: seq<byte>, k: int, j: int)
    requires 1 <= k < |wlp| && 0 <= j && wlp[k-1] + (j + 1) * (k + 2) <= wlp[k]
    ensures DataValid(wlp, data) ==> BlockValid(data, wlp[k-1] + j * (k + 2), k + 2)
  {
    if DataValid(wlp, data) {
      assert SegmentBlocksValid(wlp, data, k);
      BlockOfValidSegment(data, wlp[k-1], wlp[k], k + 2, j);
    }
  }

  /** Data shorter than the last table entry is rejected, whatever the table. */
  lemma RejectsTruncatedData(wlp: seq<nat>, data: seq<byte>)
    ensures |wlp| > 0 && wlp[|wlp| - 1] > |data| ==> !DataValid(wlp, data)
  {
  }

  /** A category byte above MaxPosTagId in any block of any segment is rejected. */
  lemma RejectsCategoryAboveMaximum(wlp: seq<nat>, data: seq<byte>, k: int, j: int)
    requires 1 <= k < |wlp| && 0 <= j && wlp[k-1] + (j + 1) * (k + 2) <= wlp[k]
    ensures var c := wlp[k-1] + j * (k + 2) + k;
      c < |data| && data[c] > MaxPosTagId ==> !DataValid(wlp, data)
  {
    AcceptedBlockValid(wlp, data, k, j);
  }

  /** A byte of a block's word that is not a lower-case letter, in any block of any segment, is
      rejected. */
  lemma RejectsNonLetter(wlp: seq<nat>, data: seq<byte>, k: int, j: int, i: int)
    requires 1 <= k < |wlp| && 0 <= j && wlp[k-1] + (j + 1) * (k + 2) <= wlp[k] && 0 <= i < k
    ensures var c := wlp[k-1] + j * (k + 2) + i;
      0 <= c < |data| && !IsLowerLetter(data[c]) ==> !DataValid(wlp, data)
  {
    AcceptedBlockValid(wlp, data, k, j);
  }

  /** A table of a length outside 2..255, with a decreasing entry or with a segment that is not
      a whole number of blocks is rejected, whatever the data. */
  lemma RejectsBadTable(w: seq<nat>, data: seq<byte>, k: int)
    ensures !IsWlpLengthValid(|w|) ==> !WlpTableValid(w) && !DataValid(w, data)
    ensures 1 <= k < |w| && (w[k] < w[k-1] || (w[k] - w[k-1]) % (k + 2) != 0) ==>
      !WlpTableValid(w) && !DataValid(w, data)
  {
    if 1 <= k < |w| && (w[k] < w[k-1] || (w[k] - w[k-1]) % (k + 2) != 0) {
      assert !SegmentShapeValid(w, k);
    }
  }

  /** The length check is exactly the length part of the whole check: a length passes it
      precisely when some table of that length, with some data, passes is_data_valid. */
  lemma LengthCheckExact(n: int)
    ensures IsWlpLengthValid(n) <==> exists w: seq<nat>, data: seq<byte> :: |w| == n && DataValid(w, data)
  {
    if IsWlpLengthValid(n) {
      var w: seq<nat> := seq(n, _ => 0);
      var data: seq<byte> := [];
      forall k | 1 <= k < |w|
        ensures SegmentShapeValid(w, k) && SegmentBlocksValid(w, data, k)
      {
      }
      assert DataValid(w, data);
    }
  }

  /** Tables the validator accepts. */
  lemma TableExamples()
    ensures WlpTableValid([0, 9]) && WlpTableValid([0, 6, 10]) && WlpTableValid([3, 6, 6, 6, 12])
  {
  }
}
