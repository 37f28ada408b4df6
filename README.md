# cefrpy word-level index, modelled in Dafny

This project models the core of `cefrpy`, a read-only index that gives an English word, and
optionally its part-of-speech (POS) tag, a CEFR proficiency level on a 1–6 scale. The index is a
packed binary file that holds two parts:

- the word-length-position table `wlp`. Entry `k-1` is where segment `k` starts and entry `k` is
  where it ends.
- a flat data array. Segment `k` holds the words of length `k` in blocks of `k + 2` bytes: `k`
  lower-case letters, a POS id byte and a packed level byte (`level / 50 + 1`).

The model covers the four layers of that core:

- **Validator** (`validator.dfy`): the structural checks `is_wlp_length_valid`,
  `is_wlp_array_valid`, `validate_data_block` and `is_data_valid`. The length check is a plain
  predicate, `IsWlpLengthValid`. The other three are imperative methods, each proved equal to a
  recursive or quantified predicate (`WlpTableValid`, `BlockValid`, `DataValid`).
- **Reader** (`reader.dfy`): the split of a byte source into N, the table and the data array,
  plus a `Reader` class with immutable fields and bounds-checked accessors. `Load` succeeds
  exactly when the validator accepts the split.
- **Query engine** (`layout.dfy`, `search.dfy`, `lookup.dfy`, `queries.dfy`, `wordrange.dfy`,
  `enumerate.dfy`, `merge.dfy`, `iteration.dfy`, `packing.dfy`):
  - `Layout.Entries` gives the abstract view of a segment as a sequence of `(word, pos, level)`
    entries.
  - The binary search, the POS lookup with its neighbour scans and rounded average, and the
    word range are modelled.
  - So are the category list and the category-to-level map, the per-length generators (words
    with adjacent repeats dropped, pairs, triples) and the k-way merge of `_yield_all_data`.
  - So are the counts, `pack_word` and `byte_int_level_to_float`.
- **Enums** (`postag.dfy`, `cefrlevel.dfy`): the 28 POS tags with their name, id and
  description conversions, and the six CEFR levels with their order and `from_str`.

The validator does not check that each segment is sorted by (word, POS id). The engine depends
on that order, so the model states it as the predicate `Layout.SegmentSorted` (and
`Layout.LayoutSorted` for the whole layout). The engine's contracts assume it only where the
answer depends on it. Where the contracts do not assume it, they still say what holds, for
example "found implies the word is stored".

The analyser's "average over every category" sentinel is a float infinity. The model makes it
an explicit variant: `Lookup.PosQuery` is `PosId(id)` or `AnyPos`. `HeapqReverseDataWrapper`
becomes the `reverse` flag of the merge's comparison `Merge.Before`.

Three behaviours of the code are easy to miss, and the model keeps all of them:

- The validator checks level bytes against `6 * 50 = 300` (`CEFRDataValidator.py:13`). No byte
  exceeds that, so it never rejects a level byte. `byte_int_level_to_float` accepts only
  0..250 (`CEFRDataProcessor.py:754-757`), so a loaded file can hold a level that the lookup
  then fails to decode (`Queries.AcceptedLevelMayNotDecode`).
- Suppose the block the binary search lands on has a POS id above the requested one, and
  averaging is asked for. The code then scans only backward (`CEFRDataProcessor.py:159-184`).
  It averages the landed block and the same-word blocks before it, not the word's whole run
  (`Lookup.LevelBelowLanding`). Which block the search lands on therefore decides the answer,
  and `Lookup.LevelOutcome` is stated in terms of that block (`Search.LandedBlock`).
- The docstring of `_get_first_word_match_pos` (`CEFRDataProcessor.py:88-94`) promises the
  position of the word's first occurrence. The code returns the block the binary search lands
  on, which need not be the first block of the word. On a sorted segment with two blocks of
  "a", it returns the second, at byte 3 (`Lookup.LandsOnLaterOccurrence`). The model follows
  the code.

## Model

| member | source | states |
|---|---|---|
| Validator.LengthCheckExact | src/cefrpy/CEFRDataValidator.py:16-26 | is_wlp_length_valid accepts a length exactly when some table of that length, with some data, passes is_data_valid |
| Validator.IsWlpArrayValid | src/cefrpy/CEFRDataValidator.py:29-58 | accepts exactly the tables of length 2..255 whose every segment k has a non-negative size that is a multiple of k + 2 |
| Validator.ValidateDataBlock | src/cefrpy/CEFRDataValidator.py:61-84 | Ok(true) exactly when the block has k lower-case letters, a POS byte ≤ 27 and a level byte ≤ 300; UnboundLocalError for blocks shorter than 3 bytes; IndexError only for a block that runs past the data |
| Validator.IsDataValid | src/cefrpy/CEFRDataValidator.py:87-118 | accepts exactly when the table is valid, its last entry is within the data and every block of every segment is valid; never raises, because every block it checks lies inside the data |
| Validator.TableMonotone | src/cefrpy/CEFRDataValidator.py:47-56 | the pairwise check makes the whole table non-decreasing |
| Validator.FillerIgnored | src/cefrpy/CEFRDataValidator.py:109-116 | two data arrays that agree on [wlp[0], wlp[-1]) get the same verdict, so leading and trailing filler is never inspected |
| Validator.LevelCheckNeverRejects | src/cefrpy/CEFRDataValidator.py:81-82 | on a block inside the data, validity does not depend on the level byte at all |
| Validator.OrderNotChecked | src/cefrpy/CEFRDataValidator.py:87-118 | a segment holding "b" before "a" is accepted: block order is not checked |
| Validator.AcceptedBlockValid | src/cefrpy/CEFRDataValidator.py:109-116 | in an accepted layout, every block j of every segment k passes validate_data_block |
| Validator.RejectsTruncatedData | src/cefrpy/CEFRDataValidator.py:101-102 | for any table and data, data shorter than the last table entry is rejected |
| Validator.RejectsCategoryAboveMaximum | src/cefrpy/CEFRDataValidator.py:78-79 | for any table and data, a POS byte above 27 in any block of any segment is rejected |
| Validator.RejectsNonLetter | src/cefrpy/CEFRDataValidator.py:74-76 | for any table and data, a word byte that is not a lower-case letter, in any block of any segment, is rejected |
| Validator.RejectsBadTable | src/cefrpy/CEFRDataValidator.py:39-56 | for any data, a table with a length outside 2..255, a decreasing entry or a segment that is not a whole number of blocks is rejected |
| Validator.TableExamples | src/cefrpy/CEFRDataValidator.py:39-58 | concrete well-formed tables are accepted |
| Reader.DecodeU32s | src/cefrpy/CEFRDataReader.py:54-55 | frombytes gives one unsigned 32-bit entry per four bytes |
| Reader.EncodeDecode | src/cefrpy/CEFRDataReader.py:54-55 | re-encoding the decoded table gives back its bytes |
| Reader.DecodeEncode | src/cefrpy/CEFRDataReader.py:54-55 | decoding an encoded table gives back its entries |
| Reader.ReadData | src/cefrpy/CEFRDataReader.py:42-58 | byte 0 is N, the next 4N bytes (or as many as there are) are the table and the rest is the data; an N outside 2..255 stops the read and an empty source raises; ValueError exactly when the table bytes present are not a multiple of 4; a successful split has min(N, (len − 1) / 4) entries and re-assembles into the source |
| Reader.SplitRoundTrip | src/cefrpy/CEFRDataReader.py:49-56 | a source written as N, table and data splits back into exactly that table and that data |
| Reader.Reader.constructor | src/cefrpy/CEFRDataReader.py:23-39 | a reader holds exactly the given table and data, which the validator accepts |
| Reader.Load | src/cefrpy/CEFRDataReader.py:23-58 | construction succeeds exactly when the source splits and the validator accepts the split; otherwise the split's error or the invalid-database error |
| Reader.Reader.GetWlpValueAt | src/cefrpy/CEFRDataReader.py:61-77 | wlp[i] exactly when 0 ≤ i < len(wlp), IndexError otherwise |
| Reader.Reader.GetDataArrayValueAt | src/cefrpy/CEFRDataReader.py:80-96 | data[i] exactly when 0 ≤ i < len(data), IndexError otherwise |
| Reader.Reader.GetWlpLen | src/cefrpy/CEFRDataReader.py:99-106 | the table length, which lies in 2..255 on any constructed reader |
| Reader.Reader.GetDataArrayLen | src/cefrpy/CEFRDataReader.py:109-116 | the data length, never below the last table entry |
| Packing.PackWord | src/cefrpy/CEFRDataProcessor.py:726-737 | succeeds exactly when every character code is below 256, giving those codes; StructError otherwise |
| Packing.UnpackWord | src/cefrpy/CEFRDataProcessor.py:407-426 | one character per byte, with that byte as its code |
| Packing.PackRoundTrip | src/cefrpy/CEFRDataProcessor.py:737 | unpacking a packed word gives the word back, and packing unpacked bytes gives the bytes back |
| Packing.ByteIntLevelToFloat | src/cefrpy/CEFRDataProcessor.py:740-757 | succeeds exactly for 0..250, with a value in [1, 6] that is p/50 + 1; ValueError otherwise |
| Packing.LevelDecodeInjective | src/cefrpy/CEFRDataProcessor.py:754-755 | distinct packed levels decode to distinct values |
| Packing.LevelDecodeMonotone | src/cefrpy/CEFRDataProcessor.py:754-755 | decoding keeps the order of packed levels: a ≤ b exactly when their decoded levels are |
| Layout.EntryWellFormed | src/cefrpy/CEFRDataValidator.py:114-116 | every block of an accepted segment holds k lower-case letters and a POS id ≤ 27 |
| Layout.RoundHalfEven | src/cefrpy/CEFRDataProcessor.py:233 | the nearest integer to num/den, the even one on a tie (Python's round) |
| Layout.RoundedMeanBounds | src/cefrpy/CEFRDataProcessor.py:232-233 | a rounded mean of values in [lo, hi] lies in [lo, hi] |
| Search.CompareAt | src/cefrpy/CEFRDataProcessor.py:107-119 | the byte loop's sign is the order of the stored word and the query, and 0 means they are equal |
| Search.SearchLoop | src/cefrpy/CEFRDataProcessor.py:98-124 | the byte-position loop, with only the probe at the segment end treated as beyond the word, returns the start of the block the block-index search SearchBlocks lands on, or -1 |
| Search.SearchBlocksMeaning | src/cefrpy/CEFRDataProcessor.py:98-124 | from a bracketing range, the block-index search returns -1 or a block holding the word, and on a sorted segment -1 exactly when no block holds it |
| Search.LandedBlockMeaning | src/cefrpy/CEFRDataProcessor.py:88-124 | the block the search lands on holds the word, and on a sorted segment no block is landed on exactly when the word is absent |
| Search.FirstWordMatchPos | src/cefrpy/CEFRDataProcessor.py:88-124 | the start of the landed block, or -1 exactly when there is none; so -1 or a block of the query's segment holding the word, and on a sorted segment -1 exactly when no block holds it |
| Search.CompareMeaning | src/cefrpy/CEFRDataProcessor.py:107-119 | the as-written byte comparison at a position inside the data has the sign of the order of the stored word and the query |
| Search.AsWrittenAgrees | src/cefrpy/CEFRDataProcessor.py:98-124 | from the same bounds, the as-written loop and the corrected search probe the same blocks: they agree on every found block, and differ only when the corrected search finds nothing and the as-written one returns -1, the segment end or IndexError |
| Search.BinarySearchAgrees | src/cefrpy/CEFRDataProcessor.py:98-124 | over the whole segment, the as-written search returns the landed block's start, or, only when nothing is landed on, -1, the segment end or IndexError |
| Search.CompareAsWritten | src/cefrpy/CEFRDataProcessor.py:105-117 | the byte loop through the bounds-checked accessor: IndexError only when the word would run past the data, and 0 only when the bytes at p spell the rest of the word |
| Search.SearchAsWritten | src/cefrpy/CEFRDataProcessor.py:101-122 | the loop between byte bounds l and r: IndexError is its only error, and a position other than -1 lies at or after l and spells the word |
| Search.BinarySearchAsWritten | src/cefrpy/CEFRDataProcessor.py:98-124 | the search with r starting at the segment end: a position it returns holds the word's bytes, but it may lie outside the segment |
| Search.AsWrittenFalsePositive | src/cefrpy/CEFRDataProcessor.py:101-104 | on a valid sorted layout the as-written search finds "b", which is absent, at the start of the next segment |
| Search.AsWrittenIndexError | src/cefrpy/CEFRDataProcessor.py:101-108 | on a valid one-block layout the as-written search reads past the data and raises IndexError |
| Lookup.WordAt | src/cefrpy/CEFRDataProcessor.py:166-170 | the scans' byte loop is true exactly when the bytes at m spell the word |
| Lookup.ScanBackwardFor | src/cefrpy/CEFRDataProcessor.py:160-182 | returns the level of the nearest matching block before the landing: it and every block between it and the landing hold the word, and none of those in between matches; or else the run start it reached, with the count and sum of the levels it passed and no match among them |
| Lookup.ScanForward | src/cefrpy/CEFRDataProcessor.py:188-210 | returns the level of the nearest matching block after the landing: every block from the landing to it holds the word, and none of those in between matches; or else the run end it reached, with the count and sum of the levels it passed and no match among them |
| Lookup.ScanBackwardAll | src/cefrpy/CEFRDataProcessor.py:214-230 | reaches the start of the same-word run and adds the count and levels of every block before the landing |
| Lookup.MatchUnique | src/cefrpy/CEFRDataProcessor.py:148-149 | a sorted segment holds each (word, POS) pair at most once, so the returned level is unambiguous |
| Lookup.NoMatchAfterBackScan | src/cefrpy/CEFRDataProcessor.py:159-184 | in a sorted segment, a backward scan from a block whose POS is above the request that finds no match proves that no match exists |
| Lookup.NoMatchAfterForwardScan | src/cefrpy/CEFRDataProcessor.py:187-210 | in a sorted segment, a forward scan from a block whose POS is below the request that finds no match proves that no match exists |
| Lookup.AverageWithinLevels | src/cefrpy/CEFRDataProcessor.py:232-233 | the rounded average of a run lies between its smallest and largest level |
| Lookup.LevelBelowLanding | src/cefrpy/CEFRDataProcessor.py:159-185 | a landed POS above the request gives the backward match, or None, or the average of the landed block and the run before it |
| Lookup.LevelAboveLanding | src/cefrpy/CEFRDataProcessor.py:187-233 | a landed POS below the request, or the AnyPos sentinel, gives the forward match, or None, or the average of the whole run |
| Lookup.LevelAtLanding | src/cefrpy/CEFRDataProcessor.py:143-233 | from the landed block: its level when its POS matches, otherwise the backward or the forward branch, with the guarantees of LevelOutcome for that block |
| Lookup.IntWordLevelForPosId | src/cefrpy/CEFRDataProcessor.py:127-233 | an answer only for a stored word; without averaging the level of a block with that word and POS; in a sorted segment exactly the matching block's level when there is one, and otherwise, with averaging, the rounded mean over the word's run from its first block to just after the landed block (landed POS above the request) or to its last block |
| Lookup.OutcomeDetermined | src/cefrpy/CEFRDataProcessor.py:127-233 | on a sorted segment the answer is a function of the blocks, the request and the landed block: any two answers meeting LevelOutcome are equal |
| Lookup.LandsOnLaterOccurrence | src/cefrpy/CEFRDataProcessor.py:88-124 | on a valid sorted segment whose two blocks both hold "a", the search lands on the second block, at byte 3, not on the word's first occurrence |
| Lookup.AverageAroundLanding | src/cefrpy/CEFRDataProcessor.py:159-184 | on the two-block layout "a"/POS 1/level 0, "a"/POS 3/level 100, the search lands on the second block, so the averaged answer for ("a", 0) is 50 |
| Queries.GetMaxWordLen | src/cefrpy/CEFRDataProcessor.py:65-72 | len(wlp) − 1, within 1..254, and the valid lengths are exactly 1 to it |
| Queries.IsWordLenValidQuery | src/cefrpy/CEFRDataProcessor.py:75-85 | true exactly for the lengths 1..get_max_word_len() that have a segment |
| Queries.Decoded | src/cefrpy/CEFRDataProcessor.py:371-372 | None stays None; a level in 0..250 becomes p/50 + 1; any other level is a ValueError |
| Queries.GetWordLevelForPosId | src/cefrpy/CEFRDataProcessor.py:353-372 | None for an invalid length, StructError for an unpackable word, otherwise the decoded answer of the level lookup with its guarantees |
| Queries.IsWordInDatabase | src/cefrpy/CEFRDataProcessor.py:375-390 | false for an invalid length; true only for a stored word, and in a sorted segment exactly for the stored words |
| Queries.IsWordPosIdDatabase | src/cefrpy/CEFRDataProcessor.py:393-404 | true only when a block with that word and POS exists, false when none does, and in a sorted segment a ValueError exactly when the match's level byte is above 250 |
| Queries.AcceptedLevelMayNotDecode | src/cefrpy/CEFRDataValidator.py:13 | a layout the validator accepts can hold level byte 255, whose lookup then fails to decode |
| WordRange.RunStartScan | src/cefrpy/CEFRDataProcessor.py:261-280 | the backward scan stops just before the first block of the word's run |
| WordRange.RunEndScan | src/cefrpy/CEFRDataProcessor.py:281-297 | the forward scan stops at the block just after the word's run |
| WordRange.RangeBetween | src/cefrpy/CEFRDataProcessor.py:280-301 | the range built from the blocks around a run yields exactly the run's POS-byte positions |
| WordRange.PackedWordRange | src/cefrpy/CEFRDataProcessor.py:250-301 | None only when a sorted segment lacks the word; otherwise a range of step k + 2 over the POS bytes of exactly the word's whole run |
| WordRange.WordDataRange | src/cefrpy/CEFRDataProcessor.py:236-301 | the same, after the length gate (None) and packing (StructError) |
| WordRange.BackwardExitAsWritten | src/cefrpy/CEFRDataProcessor.py:264-278 | i as the backward loop leaves it: the i it started with, or a position before the block it started from |
| WordRange.ForwardExitAsWritten | src/cefrpy/CEFRDataProcessor.py:282-297 | i as the forward loop leaves it: the i it started with, or a position after the block it started from and within the data |
| WordRange.BackChainExit | src/cefrpy/CEFRDataProcessor.py:264-278 | along blocks that spell the word, the backward loop leaves i no later than the category byte of the lowest of them: inside the block before them when it spells another word, or at the i of the last block it read in full |
| WordRange.ChainExit | src/cefrpy/CEFRDataProcessor.py:282-297 | along blocks that spell the word, the forward loop leaves i inside the first block spelling another word, or, at the segment end, keeps the i of the last block it read in full |
| WordRange.AsWrittenRangeMeaning | src/cefrpy/CEFRDataProcessor.py:283-299 | for every valid layout and every run of a word, the range with end_range as the source computes it equals the corrected range exactly when the run ends before its segment does; when the run reaches the segment end, the range loses the run's last block, or every block of the run when the search lands on the segment's last block (the backward loop then leaves i at or before block a's category byte) |
| WordRange.AsWrittenDropsLastBlock | src/cefrpy/CEFRDataProcessor.py:283-299 | for a word whose run ends at the segment end, the as-written end from the stale i makes the range empty, while the corrected end covers the block |
| WordRange.PosListForRange | src/cefrpy/CEFRDataProcessor.py:319-324 | reading the range gives the POS ids of the run's blocks in storage order |
| WordRange.LevelMapForRange | src/cefrpy/CEFRDataProcessor.py:342-350 | reading the range gives each run block's POS mapped to its decoded level, or the first ValueError |
| WordRange.GetAllPosForWord | src/cefrpy/CEFRDataProcessor.py:304-324 | [] for an invalid length, StructError for an unpackable word, and in a sorted segment the POS ids of all the word's blocks |
| WordRange.GetPosLevelDictForWord | src/cefrpy/CEFRDataProcessor.py:327-350 | {} for an invalid length, StructError for an unpackable word, and in a sorted segment every POS of the word mapped to its level |
| WordRange.CategoriesOfMeaning | src/cefrpy/CEFRDataProcessor.py:319-324 | the category list holds exactly the POS ids stored with the word, strictly increasing in a sorted segment |
| WordRange.LevelsOfMeaning | src/cefrpy/CEFRDataProcessor.py:342-350 | the map is defined exactly when all the word's levels are ≤ 250; its keys are the word's POS ids, each mapped to that block's decoded level |
| Enumerate.StartBlockRange | src/cefrpy/CEFRDataProcessor.py:429-449 | the range yields every block start of the segment, forward or exactly reversed |
| Enumerate.UnpackWordInDataArray | src/cefrpy/CEFRDataProcessor.py:407-426 | the characters of the L bytes at i |
| Enumerate.YieldWordsWithLength | src/cefrpy/CEFRDataProcessor.py:452-474 | nothing for an invalid length; otherwise the segment's words in visiting order with adjacent repeats dropped |
| Enumerate.YieldWordPosIdWithLength | src/cefrpy/CEFRDataProcessor.py:477-498 | nothing for an invalid length; otherwise one (word, POS) pair per block in visiting order |
| Enumerate.YieldWordPosLevelWithLength | src/cefrpy/CEFRDataProcessor.py:501-526 | nothing for an invalid length; otherwise one triple per block, or the ValueError of an undecodable level |
| Enumerate.LevelTriplesMeaning | src/cefrpy/CEFRDataProcessor.py:518-526 | the triples fail exactly when some level byte is above 250; otherwise each holds its block's word, POS and decoded level |
| Enumerate.AdvanceLastWord | src/cefrpy/CEFRDataProcessor.py:657-669 | afterwards last_word holds the block's word, and it reports a change exactly when it held another word |
| Enumerate.FirstWordNotZero | src/cefrpy/CEFRDataProcessor.py:656 | every stored word starts with a non-zero byte, so the all-zero start value of last_word never equals the first block, which is always counted |
| Enumerate.GetWordCountForLength | src/cefrpy/CEFRDataProcessor.py:640-671 | 0 for an invalid length; otherwise the number of words left after adjacent repeats are dropped |
| Enumerate.GetWordPosCountForLength | src/cefrpy/CEFRDataProcessor.py:690-707 | 0 for an invalid length; otherwise the number of blocks in the segment |
| Enumerate.YieldWordsReversal | src/cefrpy/CEFRDataProcessor.py:444-449 | the reverse generator yields exactly the reversal of the forward one |
| Enumerate.YieldWordsOrdered | src/cefrpy/CEFRDataProcessor.py:468-474 | on a sorted segment the forward output strictly increases and the reverse output strictly decreases |
| Enumerate.YieldWordsCover | src/cefrpy/CEFRDataProcessor.py:469-474 | every stored word is yielded, and nothing else |
| Enumerate.CountIsYieldLength | src/cefrpy/CEFRDataProcessor.py:653-671 | the per-length word count equals the number of words yielded, in either direction |
| Merge.BeforeOrder | src/cefrpy/CEFRDataProcessor.py:9-44 | with or without the reversing flag, the merge's comparison is a strict order |
| Merge.FindMin | src/cefrpy/CEFRDataProcessor.py:586-587 | -1 exactly when every stream is exhausted; otherwise a stream whose head is first in the merge order, lowest index on ties |
| Merge.InitialHeads | src/cefrpy/CEFRDataProcessor.py:579-584 | after one next() on every generator, the heap holds each stream's first item, or nothing for an empty stream, and every generator is at its start |
| Merge.MergeStreams | src/cefrpy/CEFRDataProcessor.py:555-594 | the output is a permutation of all items of all streams, and it is in order when every stream is |
| Merge.YieldAllData | src/cefrpy/CEFRDataProcessor.py:529-594 | with the length sort, the streams concatenated shortest first (longest first when reversed); otherwise their merge; both are permutations of all items |
| Iteration.StrLessOrder | src/cefrpy/CEFRDataProcessor.py:582 | Python's string comparison, which the heap uses, is a strict total order |
| Iteration.WordStreams | src/cefrpy/CEFRDataProcessor.py:555 | one word generator per length 1..max |
| Iteration.PairStreams | src/cefrpy/CEFRDataProcessor.py:555 | one pair generator per length 1..max |
| Iteration.TripleStreams | src/cefrpy/CEFRDataProcessor.py:555 | one triple generator per length 1..max, or the first ValueError |
| Iteration.WordsMergeStrict | src/cefrpy/CEFRDataProcessor.py:586-594 | on a sorted layout the merged words strictly increase, or strictly decrease when reversed |
| Iteration.PairsMergeStrict | src/cefrpy/CEFRDataProcessor.py:586-594 | on a sorted layout the merged (word, POS) pairs are strictly ordered |
| Iteration.TriplesMergeStrict | src/cefrpy/CEFRDataProcessor.py:586-594 | on a sorted layout the merged triples are strictly ordered |
| Iteration.WordTotalsAgree | src/cefrpy/CEFRDataProcessor.py:452-474 | the words yielded number the same in either direction |
| Iteration.PairTotalsAgree | src/cefrpy/CEFRDataProcessor.py:477-498 | the pairs yielded number the same in either direction |
| Iteration.GetTotalWords | src/cefrpy/CEFRDataProcessor.py:674-687 | the sum of the per-length word counts, which is the number of words yielded |
| Iteration.GetWordPosCount | src/cefrpy/CEFRDataProcessor.py:710-723 | the sum of the per-length block counts, which is the number of pairs yielded |
| Iteration.YieldWords | src/cefrpy/CEFRDataProcessor.py:597-608 | a permutation of all per-length word streams, as long as get_total_words; concatenated by length, or strictly ordered on a sorted layout |
| Iteration.YieldWordPosId | src/cefrpy/CEFRDataProcessor.py:611-622 | a permutation of all per-length pair streams, as long as get_word_pos_count; concatenated by length, or strictly ordered on a sorted layout |
| Iteration.YieldWordPosLevel | src/cefrpy/CEFRDataProcessor.py:625-637 | the same for the triples, or the ValueError of an undecodable level |
| POSTag.Id | src/cefrpy/POSTag.py:40-67 | each tag's id lies in 0..27 |
| POSTag.TagOf | src/cefrpy/POSTag.py:40-67 | POSTag(id) is the member with that id |
| POSTag.TagOfId | src/cefrpy/POSTag.py:40-67 | the id determines the tag |
| POSTag.TotalTags | src/cefrpy/POSTag.py:208-216 | 28, the number of tags, tag names and descriptions |
| POSTag.FromId | src/cefrpy/POSTag.py:163-164 | POSTag(id) succeeds exactly for 0..27 and raises ValueError otherwise |
| POSTag.FromTagName | src/cefrpy/POSTag.py:108-126 | a found tag has exactly the given name; an unknown name raises ValueError |
| POSTag.GetIdByTagName | src/cefrpy/POSTag.py:129-146 | succeeds exactly for known names, giving the id whose name it is; ValueError otherwise |
| POSTag.GetTagNameById | src/cefrpy/POSTag.py:149-166 | succeeds exactly for 0..27, even though the guard admits 28, and the name maps back to the id |
| POSTag.Description | src/cefrpy/POSTag.py:101-105 | the tag's entry in POS_TAGS_DESCRIPTIONS, a non-empty text |
| POSTag.DescriptionIdentifiesTag | src/cefrpy/POSTag.py:3-32 | no two tags share a description: get_description is one-to-one |
| POSTag.DescriptionByTagName | src/cefrpy/POSTag.py:169-185 | the description of the named tag; ValueError for an unknown name |
| POSTag.DescriptionByTagId | src/cefrpy/POSTag.py:188-205 | raises exactly when id < 0 or id ≥ 28, otherwise that tag's description |
| POSTag.GetAllTags | src/cefrpy/POSTag.py:219-227 | 28 names with each tag's name at its id |
| POSTag.Hash | src/cefrpy/POSTag.py:94-98 | the hash is the id, which maps back to the tag |
| POSTag.NameRoundTrip | src/cefrpy/POSTag.py:108-126 | from_tag_name(str(t)) == t |
| POSTag.IdRoundTrip | src/cefrpy/POSTag.py:129-166 | get_id_by_tag_name(get_tag_name_by_id(i)) == i for every valid id |
| POSTag.EqualityByValue | src/cefrpy/POSTag.py:84-91 | two tags are equal exactly when their ids are |
| POSTag.DescriptionsAgree | src/cefrpy/POSTag.py:101-105 | get_description, the by-id lookup and the by-name lookup agree |
| CEFRLevel.Value | src/cefrpy/CEFRLevel.py:9-14 | every level's value lies in 1..6 |
| CEFRLevel.Upper | src/cefrpy/CEFRLevel.py:82 | ASCII lower-case letters are upper-cased and every other character is kept |
| CEFRLevel.UpperIdempotent | src/cefrpy/CEFRLevel.py:82 | no ASCII lower-case letter is left after upper-casing, so upper-casing twice is upper-casing once |
| CEFRLevel.Lookup | src/cefrpy/CEFRLevel.py:82 | a found member has exactly the given name |
| CEFRLevel.FromStr | src/cefrpy/CEFRLevel.py:68-86 | a found level's name is the upper-cased input; otherwise ValueError |
| CEFRLevel.ValuesIdentifyLevels | src/cefrpy/CEFRLevel.py:3-14 | the values are exactly 1..6, one level each (the enumeration is unique), so `__eq__` by value is identity |
| CEFRLevel.OrderIsTotal | src/cefrpy/CEFRLevel.py:36-66 | <, <=, >, >= are consistent with each other, and the order is total and asymmetric |
| CEFRLevel.LtTransitive | src/cefrpy/CEFRLevel.py:36-42 | < is transitive |
| CEFRLevel.FromStrRoundTrip | src/cefrpy/CEFRLevel.py:16-20 | from_str(str(l)) == l, and the lower-case name works too |
| CEFRLevel.UnknownNameRejected | src/cefrpy/CEFRLevel.py:82-84 | from_str raises ValueError exactly when the upper-cased string is no level's name, as for "D1" and the empty string |

## Findings

| source | as written | input that shows it | evidently intended | confidence | as-written member | corrected member |
|---|---|---|---|---|---|---|
| src/cefrpy/CEFRDataProcessor.py:101-103 | the search's upper bound starts at the exclusive segment end and the loop runs while l <= r, so a probe can land on the segment end (modelled by Search.BinarySearchAsWritten) | wlp [0, 3, 7], data "a" 0 0 "ba" 0 0, query "b": reports 3 (inside the two-letter segment) for an absent word; wlp [0, 3], data "a" 0 0, query "b": IndexError | only a probe that lands on the segment end is treated as beyond the word (Search.SearchLoop); every other probe is where the code puts it | high; not executed | Search.AsWrittenFalsePositive | Search.FirstWordMatchPos |
| src/cefrpy/CEFRDataProcessor.py:283-299 | end_range uses i, which the forward scan does not refresh when it stops at the segment end, so the range loses the run's last block, or every block of the run when the search lands on the segment's last block (modelled by WordRange.AsWrittenRangeMeaning) | wlp [0, 3], data "a" 0 0, get_all_pos_for_word("a"): range(1, 0, 3) is empty, so [] instead of [0] | the end is taken from the block after the run, m − (k + 2) + k + 1 | high; not executed | WordRange.AsWrittenDropsLastBlock | WordRange.PackedWordRange |

The rest of the model (the level lookup, membership and the word-range queries) uses the
corrected members.

## Left out

- File I/O is not modelled: `open`, the default `data.bin` path next to the module, and the
  processor's default-argument reader. `Reader.Load` takes the file's bytes as an in-memory
  sequence.
- Table byte order: `array('I')` is native-endian and platform-sized. The model reads 4-byte
  little-endian unsigned entries.
- The reader's exception text is not modelled. A rejected layout is the `InvalidDatabase`
  error.
- Reader.Reader.constructor: the source fills `_wlp` in place with `frombytes` while reading.
  The model splits first (`Reader.ReadData`) and stores the result in immutable fields.
- Generator laziness is not modelled: the generators and `_yield_all_data` return whole
  sequences.
- Iteration.YieldWordPosLevel: when a level byte does not decode, the source raises after
  yielding the items before it. The model returns only the error.
- The heap is not modelled: `heapq` is a linear search for the first stream head
  (`Merge.FindMin`) with the same pop-and-refill order.
- Merge.FindMin: equal heads go to the lowest stream index. This matches the `(item, index)`
  heap tuples in forward mode only. In reverse mode `HeapqReverseDataWrapper`
  (`CEFRDataProcessor.py:9-44`) defines only `__lt__`, so the heap breaks ties in no fixed
  order. No tie can arise in `_yield_all_data`, because each stream holds the items of one word
  length and items of different lengths are never equal.
- Merge.MergeStreams: on streams that are not each in order, the output is stated only as a
  permutation of all items. The exact interleaving the heap produces is not pinned down, and
  neither is that of `Iteration.YieldWords` and `Iteration.YieldWordPosId` on an unsorted
  layout.
- Floating point: levels are exact `real`s, and `round(sum / count)` is integer round-half-even
  (`Layout.RoundHalfEven`). This is exact at these magnitudes.
- A POS id that is a float other than the infinity sentinel is not modelled. `Lookup.PosQuery`
  holds an integer id or `AnyPos`.
- CEFRLevel.FromStr: upper-cases ASCII letters only, not the full Unicode case mapping of
  `str.upper`. That mapping cannot turn any other string into a level name made of `A`–`C` and
  a digit.
- Lookup.IntWordLevelForPosId: the answer is pinned down only for sorted segments, where
  `Lookup.OutcomeDetermined` shows it is unique. On an unsorted segment the contract says only
  that an answer comes from a stored word and, without averaging, is the level of a block
  with that word and POS.
- WordRange.PackedWordRange: an absent word is reported only as "not in a sorted segment".
  Under the corrected search, a None answer on an unsorted segment says nothing more.
- src/cefrpy/CEFRAnalyzer.py is not part of this model. It is a wrapper that maps tag names to
  ids and rounds floats into levels.
- src/cefrpy/CEFRSpacyAnalyzer.py is not part of this model. It works over spaCy objects.
- src/cefrpy/__init__.py (exports and version) is not part of this model.
