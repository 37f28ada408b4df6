/** Iteration over the whole database: yield_words, yield_word_pos_id and yield_word_pos_level
    feed the per-length generators of every length to _yield_all_data, and get_total_words and
    get_word_pos_count add up the per-length counts. */
module Iteration {
  import opened Wrappers
  import opened Reader
  import opened Sequences
  import opened Layout
  import opened Packing
  import opened Enumerate
  import opened Queries
  import opened Merge

  // ---- the orders Python compares the yielded items by ----

  function Codes(s: string): (c: seq<int>)
    ensures |c| == |s| && forall i :: 0 <= i < |s| ==> c[i] == s[i] as int
  {
    seq(|s|, i requires 0 <= i < |s| => s[i] as int)
  }

  /** Python's < on strings: by character code, a proper prefix first. */
  predicate StrLess(a: string, b: string)
  {
    Less(Codes(a), Codes(b))
  }

  lemma StrLessOrder()
    ensures StrictOrder(StrLess) && Total(StrLess)
  {
    forall a: string ensures !StrLess(a, a) {
      LessIrreflexive(Codes(a));
    }
    forall a: string, b: string, c: string | StrLess(a, b) && StrLess(b, c) ensures StrLess(a, c) {
      LessTransitive(Codes(a), Codes(b), Codes(c));
    }
    forall a: string, b: string ensures a == b || StrLess(a, b) || StrLess(b, a) {
      LessTotal(Codes(a), Codes(b));
      if Codes(a) == Codes(b) {
        assert forall i :: 0 <= i < |a| ==> a[i] as int == b[i] as int;
      }
    }
  }

  /** Comparing unpacked words as strings compares their bytes. */
  lemma UnpackLess(a: seq<byte>, b: seq<byte>)
    ensures StrLess(UnpackWord(a), UnpackWord(b)) <==> Less(a, b)
  {
    assert Codes(UnpackWord(a)) == a;
    assert Codes(UnpackWord(b)) == b;
  }

  /** Python's < on (word, category) tuples. */
  predicate PairLess(x: (string, int), y: (string, int))
  {
    StrLess(x.0, y.0) || (x.0 == y.0 && x.1 < y.1)
  }

  lemma PairLessOrder()
    ensures StrictOrder(PairLess) && Total(PairLess)
  {
    StrLessOrder();
  }

  /** Python's < on (word, category, level) tuples. */
  predicate TripleLess(x: (string, int, real), y: (string, int, real))
  {
    StrLess(x.0, y.0) || (x.0 == y.0 && (x.1 < y.1 || (x.1 == y.1 && x.2 < y.2)))
  }

  lemma TripleLessOrder()
    ensures StrictOrder(TripleLess) && Total(TripleLess)
  {
    StrLessOrder();
  }

  // ---- the per-length streams ----

  /** What yield_words_with_length yields for each length 1 .. get_max_word_len(). */
  ghost function WordsByLength(rd: Reader, reverse: bool): (ss: seq<seq<string>>)
    requires rd.Valid()
    ensures |ss| == |rd.wlp| - 1
  {
    seq(|rd.wlp| - 1, i requires 0 <= i < |rd.wlp| - 1 =>
      Unpacked(Dedup(Words(Ordered(Entries(rd.wlp, rd.data, i + 1), reverse)))))
  }

  /** What yield_word_pos_id_with_length yields for each length. */
  ghost function PairsByLength(rd: Reader, reverse: bool): (ss: seq<seq<(string, int)>>)
    requires rd.Valid()
    ensures |ss| == |rd.wlp| - 1
  {
    seq(|rd.wlp| - 1, i requires 0 <= i < |rd.wlp| - 1 =>
      PosPairs(Ordered(Entries(rd.wlp, rd.data, i + 1), reverse)))
  }

  /** What yield_word_pos_level_with_length yields for each length, or the ValueError of the
      first length whose levels do not decode. */
  ghost function TriplesByLength(rd: Reader, reverse: bool, n: int): (r: Result<seq<seq<(string, int, real)>>>)
    requires rd.Valid() && 0 <= n < |rd.wlp|
    ensures r.Ok? ==> |r.value| == n
  {
    if n == 0 then Ok([])
    else
      match TriplesByLength(rd, reverse, n - 1)
      case Err(err) => Err(err)
      case Ok(p) =>
        match LevelTriples(Ordered(Entries(rd.wlp, rd.data, n), reverse))
        case Err(err) => Err(err)
        case Ok(t) => Ok(p + [t])
  }

  /** The generators list of _yield_all_data for yield_words. */
  method WordStreams(rd: Reader, reverse: bool) returns (ss: seq<seq<string>>)
    requires rd.Valid()
    ensures ss == WordsByLength(rd, reverse)
  {
    ghost var all := WordsByLength(rd, reverse);
    ss := [];
    for i := 1 to GetMaxWordLen(rd) + 1
      invariant ss == all[..i - 1]
    {
      var s := YieldWordsWithLength(rd, i, reverse);
      WordsPrefix(rd, reverse, i, s);
      ss := ss + [s];
    }
    assert all[..|all|] == all;
  }

  /** The generators list of _yield_all_data for yield_word_pos_id. */
  method PairStreams(rd: Reader, reverse: bool) returns (ss: seq<seq<(string, int)>>)
    requires rd.Valid()
    ensures ss == PairsByLength(rd, reverse)
  {
    ghost var all := PairsByLength(rd, reverse);
    ss := [];
    for i := 1 to GetMaxWordLen(rd) + 1
      invariant ss == all[..i - 1]
    {
      var s := YieldWordPosIdWithLength(rd, i, reverse);
      PairsPrefix(rd, reverse, i, s);
      ss := ss + [s];
    }
    assert all[..|all|] == all;
  }

  /** The streams of the first n lengths are those of the first n - 1 and the n-th. */
  lemma WordsPrefix(rd: Reader, reverse: bool, n: int, s: seq<string>)
    requires rd.Valid() && 0 < n < |rd.wlp|
    requires s == Unpacked(Dedup(Words(Ordered(Entries(rd.wlp, rd.data, n), reverse))))
    ensures WordsByLength(rd, reverse)[..n] == WordsByLength(rd, reverse)[..n - 1] + [s]
  {
    var all := WordsByLength(rd, reverse);
    assert all[n - 1] == s;
    assert all[..n] == all[..n - 1] + [all[n - 1]];
  }

  lemma PairsPrefix(rd: Reader, reverse: bool, n: int, s: seq<(string, int)>)
    requires rd.Valid() && 0 < n < |rd.wlp|
    requires s == PosPairs(Ordered(Entries(rd.wlp, rd.data, n), reverse))
    ensures PairsByLength(rd, reverse)[..n] == PairsByLength(rd, reverse)[..n - 1] + [s]
  {
    var all := PairsByLength(rd, reverse);
    assert all[n - 1] == s;
    assert all[..n] == all[..n - 1] + [all[n - 1]];
  }

  /** The generators list of _yield_all_data for yield_word_pos_level. */
  method TripleStreams(rd: Reader, reverse: bool) returns (res: Result<seq<seq<(string, int, real)>>>)
    requires rd.Valid()
    ensures res == TriplesByLength(rd, reverse, |rd.wlp| - 1)
  {
    var ss := [];
    var i := 1;
    while i < |rd.wlp|
      invariant 1 <= i <= |rd.wlp|
      invariant TriplesByLength(rd, reverse, i - 1) == Ok(ss)
    {
      var s := YieldWordPosLevelWithLength(rd, i, reverse);
      TriplesNext(rd, reverse, i, ss, s);
      if s.Err? {
        return Err(s.error);
      }
      ss := ss + [s.value];
      i := i + 1;
    }
    return Ok(ss);
  }

  /** One more length: its triples are appended, or its ValueError decides the whole result. */
  lemma TriplesNext(rd: Reader, reverse: bool, n: int, p: seq<seq<(string, int, real)>>,
                    s: Result<seq<(string, int, real)>>)
    requires rd.Valid() && 0 < n < |rd.wlp| && TriplesByLength(rd, reverse, n - 1) == Ok(p)
    requires s == LevelTriples(Ordered(Entries(rd.wlp, rd.data, n), reverse))
    ensures s.Ok? ==> TriplesByLength(rd, reverse, n) == Ok(p + [s.value])
    ensures s.Err? ==> TriplesByLength(rd, reverse, |rd.wlp| - 1) == Err(s.error)
  {
    TriplesStep(rd, reverse, n, p);
    if s.Err? {
      TriplesErrorStays(rd, reverse, n, |rd.wlp| - 1);
    }
  }

  /** One more length: its triples are appended, or its ValueError becomes the result. */
  lemma TriplesStep(rd: Reader, reverse: bool, n: int, p: seq<seq<(string, int, real)>>)
    requires rd.Valid() && 0 < n < |rd.wlp| && TriplesByLength(rd, reverse, n - 1) == Ok(p)
    ensures var t := LevelTriples(Ordered(Entries(rd.wlp, rd.data, n), reverse));
      TriplesByLength(rd, reverse, n) == if t.Err? then Err(t.error) else Ok(p + [t.value])
  {
  }

  /** A length whose levels do not decode decides the result for all longer prefixes. */
  lemma {:induction false} TriplesErrorStays(rd: Reader, reverse: bool, n: int, m: int)
    requires rd.Valid() && 0 <= n <= m < |rd.wlp| && TriplesByLength(rd, reverse, n).Err?
    ensures TriplesByLength(rd, reverse, m) == TriplesByLength(rd, reverse, n)
    decreases m - n
  {
    if n < m {
      TriplesErrorStays(rd, reverse, n, m - 1);
    }
  }

  // ---- the order of each stream ----

  /** Every block of segment L holds a word of L letters. */
  lemma EntriesWordLength(rd: Reader, L: int)
    requires rd.Valid() && IsWordLenValid(rd.wlp, L)
    ensures forall t :: 0 <= t < |Entries(rd.wlp, rd.data, L)| ==> |Entries(rd.wlp, rd.data, L)[t].word| == L
  {
    forall t | 0 <= t < |Entries(rd.wlp, rd.data, L)| ensures |Entries(rd.wlp, rd.data, L)[t].word| == L {
      EntryWellFormed(rd.wlp, rd.data, L, t);
    }
  }

  /** The blocks of a sorted segment, as (word, category) tuples, are in the tuples' order. */
  lemma KeyPairLess(x: Entry, y: Entry)
    requires KeyLess(x, y)
    ensures PairLess((UnpackWord(x.word), x.pos), (UnpackWord(y.word), y.pos))
  {
    UnpackLess(x.word, y.word);
  }

  /** The words a generator over a sorted segment of L-letter words yields are strictly in the
      heap's order, and each has L letters. */
  lemma WordStreamOrdered(es: seq<Entry>, L: int, reverse: bool)
    requires SegmentSorted(es) && forall t :: 0 <= t < |es| ==> |es[t].word| == L
    ensures var s := Unpacked(Dedup(Words(Ordered(es, reverse))));
      StrictlyAscending(StrLess, reverse, s) && forall j :: 0 <= j < |s| ==> |s[j]| == L
  {
    var ws := Words(Ordered(es, reverse));
    var d := Dedup(ws);
    YieldWordsOrdered(es);
    forall i, j | 0 <= i < j < |d| ensures Before(StrLess, reverse, UnpackWord(d[i]), UnpackWord(d[j])) {
      UnpackLess(d[i], d[j]);
      UnpackLess(d[j], d[i]);
    }
    DedupElements(ws);
    forall j | 0 <= j < |d| ensures |d[j]| == L {
      assert d[j] in ws;
    }
  }

  /** The same for the (word, category) tuples. */
  lemma PairStreamOrdered(es: seq<Entry>, L: int, reverse: bool)
    requires SegmentSorted(es) && forall t :: 0 <= t < |es| ==> |es[t].word| == L
    ensures var s := PosPairs(Ordered(es, reverse));
      StrictlyAscending(PairLess, reverse, s) && forall j :: 0 <= j < |s| ==> |s[j].0| == L
  {
    var s := PosPairs(Ordered(es, reverse));
    forall i, j | 0 <= i < j < |es| ensures Before(PairLess, reverse, s[i], s[j]) {
      PairOrderedAt(es, reverse, i, j);
    }
  }

  /** Two blocks of a sorted segment, as pairs in the order the generator yields them. */
  lemma PairOrderedAt(es: seq<Entry>, reverse: bool, i: int, j: int)
    requires SegmentSorted(es) && 0 <= i < j < |es|
    ensures var s := PosPairs(Ordered(es, reverse)); Before(PairLess, reverse, s[i], s[j])
  {
    var n := |es|;
    if reverse {
      assert KeyLess(es[n - 1 - j], es[n - 1 - i]);
      KeyPairLess(es[n - 1 - j], es[n - 1 - i]);
    } else {
      assert KeyLess(es[i], es[j]);
      KeyPairLess(es[i], es[j]);
    }
  }

  /** The same for the (word, category, level) tuples, when the levels decode. */
  lemma TripleStreamOrdered(es: seq<Entry>, L: int, reverse: bool)
    requires SegmentSorted(es) && forall t :: 0 <= t < |es| ==> |es[t].word| == L
    requires LevelTriples(Ordered(es, reverse)).Ok?
    ensures var s := LevelTriples(Ordered(es, reverse)).value;
      StrictlyAscending(TripleLess, reverse, s) && forall j :: 0 <= j < |s| ==> |s[j].0| == L
  {
    var os := Ordered(es, reverse);
    var n := |es|;
    LevelTriplesMeaning(os);
    var s := LevelTriples(os).value;
    forall i, j | 0 <= i < j < n ensures Before(TripleLess, reverse, s[i], s[j]) {
      if reverse {
        KeyPairLess(es[n - 1 - j], es[n - 1 - i]);
      } else {
        KeyPairLess(es[i], es[j]);
      }
    }
  }

  /** Merging streams that are each strictly ordered, whose items are told apart by their word's
      length, gives a strictly ordered output. */
  lemma MergedStrict<T(!new)>(ss: seq<seq<T>>, lt: (T, T) -> bool, reverse: bool, tag: T -> int, out: seq<T>)
    requires StrictOrder(lt) && Total(lt)
    requires forall g :: 0 <= g < |ss| ==> StrictlyAscending(lt, reverse, ss[g])
    requires forall g, j :: 0 <= g < |ss| && 0 <= j < |ss[g]| ==> tag(ss[g][j]) == g + 1
    requires multiset(out) == Bag(ss) && Ascending(lt, reverse, out)
    ensures StrictlyAscending(lt, reverse, out)
  {
    BagOnce(ss, lt, reverse, tag);
    StrictFromSteps(lt, reverse, out);
  }

  /** Strictly ordered streams are ordered step by step. */
  lemma AllSteps<T(!new)>(ss: seq<seq<T>>, lt: (T, T) -> bool, reverse: bool)
    requires StrictOrder(lt)
    requires forall g :: 0 <= g < |ss| ==> StrictlyAscending(lt, reverse, ss[g])
    ensures AllAscending(ss, lt, reverse)
  {
    forall g | 0 <= g < |ss| ensures Ascending(lt, reverse, ss[g]) {
      StepsFromStrict(lt, reverse, ss[g]);
    }
  }

  /** In a sorted database every word stream is strictly ordered and holds words of its own
      length only. */
  lemma WordStreamsOrdered(rd: Reader, reverse: bool)
    requires rd.Valid() && LayoutSorted(rd.wlp, rd.data)
    ensures var ss := WordsByLength(rd, reverse);
      (forall g :: 0 <= g < |ss| ==> StrictlyAscending(StrLess, reverse, ss[g])) &&
      (forall g, j :: 0 <= g < |ss| && 0 <= j < |ss[g]| ==> |ss[g][j]| == g + 1)
  {
    var ss := WordsByLength(rd, reverse);
    forall g | 0 <= g < |ss|
      ensures StrictlyAscending(StrLess, reverse, ss[g]) && forall j :: 0 <= j < |ss[g]| ==> |ss[g][j]| == g + 1
    {
      EntriesWordLength(rd, g + 1);
      WordStreamOrdered(Entries(rd.wlp, rd.data, g + 1), g + 1, reverse);
    }
  }

  lemma PairStreamsOrdered(rd: Reader, reverse: bool)
    requires rd.Valid() && LayoutSorted(rd.wlp, rd.data)
    ensures var ss := PairsByLength(rd, reverse);
      (forall g :: 0 <= g < |ss| ==> StrictlyAscending(PairLess, reverse, ss[g])) &&
      (forall g, j :: 0 <= g < |ss| && 0 <= j < |ss[g]| ==> |ss[g][j].0| == g + 1)
  {
    var ss := PairsByLength(rd, reverse);
    forall g | 0 <= g < |ss|
      ensures StrictlyAscending(PairLess, reverse, ss[g]) && forall j :: 0 <= j < |ss[g]| ==> |ss[g][j].0| == g + 1
    {
      EntriesWordLength(rd, g + 1);
      PairStreamOrdered(Entries(rd.wlp, rd.data, g + 1), g + 1, reverse);
    }
  }

  /** The g-th stream of a successful triple list is the triples of length g + 1. */
  lemma {:induction false} TriplesAt(rd: Reader, reverse: bool, n: int, g: int)
    requires rd.Valid() && 0 <= g < n < |rd.wlp| && TriplesByLength(rd, reverse, n).Ok?
    ensures var t := LevelTriples(Ordered(Entries(rd.wlp, rd.data, g + 1), reverse));
      t.Ok? && TriplesByLength(rd, reverse, n).value[g] == t.value
    decreases n
  {
    var prev := TriplesByLength(rd, reverse, n - 1);
    var t := LevelTriples(Ordered(Entries(rd.wlp, rd.data, n), reverse));
    assert prev.Ok? && t.Ok?;
    assert TriplesByLength(rd, reverse, n).value == prev.value + [t.value];
    if g < n - 1 {
      TriplesAt(rd, reverse, n - 1, g);
    }
  }

  /** Each triple stream of a sorted database is strictly ordered and holds words of its length. */
  lemma TripleStreamsOrdered(rd: Reader, reverse: bool, n: int)
    requires rd.Valid() && LayoutSorted(rd.wlp, rd.data) && 0 <= n < |rd.wlp|
    requires TriplesByLength(rd, reverse, n).Ok?
    ensures var ss := TriplesByLength(rd, reverse, n).value;
      (forall g :: 0 <= g < |ss| ==> StrictlyAscending(TripleLess, reverse, ss[g])) &&
      (forall g, j :: 0 <= g < |ss| && 0 <= j < |ss[g]| ==> |ss[g][j].0| == g + 1)
  {
    var ss := TriplesByLength(rd, reverse, n).value;
    forall g | 0 <= g < |ss|
      ensures StrictlyAscending(TripleLess, reverse, ss[g]) && forall j :: 0 <= j < |ss[g]| ==> |ss[g][j].0| == g + 1
    {
      TriplesAt(rd, reverse, n, g);
      EntriesWordLength(rd, g + 1);
      TripleStreamOrdered(Entries(rd.wlp, rd.data, g + 1), g + 1, reverse);
    }
  }

  /** The merge of the word streams of a sorted database is strictly ordered. */
  lemma WordsMergeStrict(rd: Reader, reverse: bool, out: seq<string>)
    requires rd.Valid() && LayoutSorted(rd.wlp, rd.data)
    requires var ss := WordsByLength(rd, reverse);
      multiset(out) == Bag(ss) && (AllAscending(ss, StrLess, reverse) ==> Ascending(StrLess, reverse, out))
    ensures StrictlyAscending(StrLess, reverse, out)
  {
    var ss := WordsByLength(rd, reverse);
    StrLessOrder();
    WordStreamsOrdered(rd, reverse);
    AllSteps(ss, StrLess, reverse);
    MergedStrict(ss, StrLess, reverse, (w: string) => |w|, out);
  }

  lemma PairsMergeStrict(rd: Reader, reverse: bool, out: seq<(string, int)>)
    requires rd.Valid() && LayoutSorted(rd.wlp, rd.data)
    requires var ss := PairsByLength(rd, reverse);
      multiset(out) == Bag(ss) && (AllAscending(ss, PairLess, reverse) ==> Ascending(PairLess, reverse, out))
    ensures StrictlyAscending(PairLess, reverse, out)
  {
    var ss := PairsByLength(rd, reverse);
    PairLessOrder();
    PairStreamsOrdered(rd, reverse);
    AllSteps(ss, PairLess, reverse);
    MergedStrict(ss, PairLess, reverse, (p: (string, int)) => |p.0|, out);
  }

  lemma TriplesMergeStrict(rd: Reader, reverse: bool, ss: seq<seq<(string, int, real)>>, out: seq<(string, int, real)>)
    requires rd.Valid() && LayoutSorted(rd.wlp, rd.data)
    requires TriplesByLength(rd, reverse, |rd.wlp| - 1) == Ok(ss)
    requires multiset(out) == Bag(ss) && (AllAscending(ss, TripleLess, reverse) ==> Ascending(TripleLess, reverse, out))
    ensures StrictlyAscending(TripleLess, reverse, out)
  {
    TripleLessOrder();
    TripleStreamsOrdered(rd, reverse, |rd.wlp| - 1);
    AllSteps(ss, TripleLess, reverse);
    MergedStrict(ss, TripleLess, reverse, (t: (string, int, real)) => |t.0|, out);
  }

  // ---- the counts ----

  /** yield_words yields as many words in either order. */
  lemma WordTotalsAgree(rd: Reader, reverse: bool)
    requires rd.Valid()
    ensures SumLengths(WordsByLength(rd, reverse)) == SumLengths(WordsByLength(rd, false))
  {
    var ss, tt := WordsByLength(rd, reverse), WordsByLength(rd, false);
    forall i | 0 <= i < |ss| ensures |ss[i]| == |tt[i]| {
      CountIsYieldLength(Entries(rd.wlp, rd.data, i + 1), reverse);
      CountIsYieldLength(Entries(rd.wlp, rd.data, i + 1), false);
    }
    SumLengthsPointwise(ss, tt);
  }

  /** yield_word_pos_id yields one pair per block in either order. */
  lemma PairTotalsAgree(rd: Reader, reverse: bool)
    requires rd.Valid()
    ensures SumLengths(PairsByLength(rd, reverse)) == SumLengths(PairsByLength(rd, false))
  {
    var ss, tt := PairsByLength(rd, reverse), PairsByLength(rd, false);
    forall i | 0 <= i < |ss| ensures |ss[i]| == |tt[i]| {
      assert ss[i] == PosPairs(Ordered(Entries(rd.wlp, rd.data, i + 1), reverse));
      assert tt[i] == PosPairs(Ordered(Entries(rd.wlp, rd.data, i + 1), false));
    }
    SumLengthsPointwise(ss, tt);
  }

  /** Counting length n adds that length's word count to the running total. */
  lemma WordTotalStep(rd: Reader, n: int)
    requires rd.Valid() && 0 < n < |rd.wlp|
    ensures var ss := WordsByLength(rd, false);
      SumLengths(ss[..n]) == SumLengths(ss[..n - 1]) + |Dedup(Words(Entries(rd.wlp, rd.data, n)))|
  {
    var ss := WordsByLength(rd, false);
    CountIsYieldLength(Entries(rd.wlp, rd.data, n), false);
    assert ss[..n] == ss[..n - 1] + [ss[n - 1]];
    FlattenSnoc(ss[..n - 1], ss[n - 1]);
  }

  /** Counting length n adds that length's block count to the running total. */
  lemma PairTotalStep(rd: Reader, n: int)
    requires rd.Valid() && 0 < n < |rd.wlp|
    ensures var ss := PairsByLength(rd, false);
      SumLengths(ss[..n]) == SumLengths(ss[..n - 1]) + |Entries(rd.wlp, rd.data, n)|
  {
    var ss := PairsByLength(rd, false);
    assert ss[n - 1] == PosPairs(Ordered(Entries(rd.wlp, rd.data, n), false));
    assert ss[..n] == ss[..n - 1] + [ss[n - 1]];
    FlattenSnoc(ss[..n - 1], ss[n - 1]);
  }

  /** get_total_words: the per-length word counts added up, which is how many words the
      per-length generators yield together. */
  method GetTotalWords(rd: Reader) returns (counter: int)
    requires rd.Valid()
    ensures counter == SumLengths(WordsByLength(rd, false))
  {
    ghost var ss := WordsByLength(rd, false);
    counter := 0;
    var length := 1;
    while length < |rd.wlp|
      invariant 1 <= length <= |rd.wlp|
      invariant counter == SumLengths(ss[..length - 1])
    {
      var c := GetWordCountForLength(rd, length);
      WordTotalStep(rd, length);
      counter := counter + c;
      length := length + 1;
    }
    assert ss[..|ss|] == ss;
  }

  /** get_word_pos_count: the per-length block counts added up, which is how many pairs the
      per-length generators yield together. */
  method GetWordPosCount(rd: Reader) returns (counter: int)
    requires rd.Valid()
    ensures counter == SumLengths(PairsByLength(rd, false))
  {
    ghost var ss := PairsByLength(rd, false);
    counter := 0;
    var length := 1;
    while length < |rd.wlp|
      invariant 1 <= length <= |rd.wlp|
      invariant counter == SumLengths(ss[..length - 1])
    {
      var c := GetWordPosCountForLength(rd, length);
      PairTotalStep(rd, length);
      counter := counter + c;
      length := length + 1;
    }
    assert ss[..|ss|] == ss;
  }

  // ---- the three iterations ----

  /** yield_words: with the length sort, the per-length word streams one after the other;
      otherwise their merge. Either way every stream's words come out once each, as many as
      get_total_words counts, and in a sorted database the merge is strictly increasing (strictly
      decreasing when reversed). */
  method YieldWords(rd: Reader, reverse: bool, lengthSort: bool) returns (out: seq<string>)
    requires rd.Valid()
    ensures var ss := WordsByLength(rd, reverse);
      (lengthSort ==> out == Flatten(if reverse then Reverse(ss) else ss)) &&
      multiset(out) == Bag(ss)
    ensures |out| == SumLengths(WordsByLength(rd, false))
    ensures !lengthSort && LayoutSorted(rd.wlp, rd.data) ==> StrictlyAscending(StrLess, reverse, out)
  {
    StrLessOrder();
    var ss := WordStreams(rd, reverse);
    out := YieldAllData(ss, StrLess, reverse, lengthSort);
    BagSize(ss);
    WordTotalsAgree(rd, reverse);
    if !lengthSort && LayoutSorted(rd.wlp, rd.data) {
      WordsMergeStrict(rd, reverse, out);
    }
  }

  /** yield_word_pos_id: the same for the (word, category) pairs, as many as get_word_pos_count
      counts. */
  method YieldWordPosId(rd: Reader, reverse: bool, lengthSort: bool) returns (out: seq<(string, int)>)
    requires rd.Valid()
    ensures var ss := PairsByLength(rd, reverse);
      (lengthSort ==> out == Flatten(if reverse then Reverse(ss) else ss)) &&
      multiset(out) == Bag(ss)
    ensures |out| == SumLengths(PairsByLength(rd, false))
    ensures !lengthSort && LayoutSorted(rd.wlp, rd.data) ==> StrictlyAscending(PairLess, reverse, out)
  {
    PairLessOrder();
    var ss := PairStreams(rd, reverse);
    out := YieldAllData(ss, PairLess, reverse, lengthSort);
    BagSize(ss);
    PairTotalsAgree(rd, reverse);
    if !lengthSort && LayoutSorted(rd.wlp, rd.data) {
      PairsMergeStrict(rd, reverse, out);
    }
  }

  /** yield_word_pos_level: the same for the (word, category, level) triples, or ValueError when
      some block's level byte does not decode. */
  method YieldWordPosLevel(rd: Reader, reverse: bool, lengthSort: bool)
    returns (res: Result<seq<(string, int, real)>>)
    requires rd.Valid()
    ensures var t := TriplesByLength(rd, reverse, |rd.wlp| - 1);
      (res.Err? <==> t.Err?) && (res.Err? ==> res.error == t.error) &&
      (res.Ok? ==>
         (lengthSort ==> res.value == Flatten(if reverse then Reverse(t.value) else t.value)) &&
         multiset(res.value) == Bag(t.value) &&
         (!lengthSort && LayoutSorted(rd.wlp, rd.data) ==> StrictlyAscending(TripleLess, reverse, res.value)))
  {
    TripleLessOrder();
    var r := TripleStreams(rd, reverse);
    if r.Err? {
      return Err(r.error);
    }
    var ss := r.value;
    var out := YieldAllData(ss, TripleLess, reverse, lengthSort);
    if !lengthSort && LayoutSorted(rd.wlp, rd.data) {
      TriplesMergeStrict(rd, reverse, ss, out);
    }
    return Ok(out);
  }
}
