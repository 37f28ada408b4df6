/** The k-way merge of _yield_all_data. Every per-length generator is modelled by the sequence
    it yields; the heap of (item, generator index) pairs by one optional head per generator, of
    which the least (or, with the reverse wrapper, the greatest) is popped, and the generator it
    came from is advanced. */
module Merge {
  import opened Wrappers
  import opened Sequences

  // ---- orders ----

  ghost predicate StrictOrder<T(!new)>(lt: (T, T) -> bool)
  {
    (forall x :: !lt(x, x)) && (forall x, y, z :: lt(x, y) && lt(y, z) ==> lt(x, z))
  }

  ghost predicate Total<T(!new)>(lt: (T, T) -> bool)
  {
    forall x, y :: x == y || lt(x, y) || lt(y, x)
  }

  /** Whether x comes out of the heap before y: the item order, or its converse when the items
      are wrapped in HeapqReverseDataWrapper. */
  function Before<T>(lt: (T, T) -> bool, reverse: bool, x: T, y: T): bool
  {
    if reverse then lt(y, x) else lt(x, y)
  }

  /** Before is a strict order whenever the item order is. */
  lemma BeforeOrder<T(!new)>(lt: (T, T) -> bool, reverse: bool)
    requires StrictOrder(lt)
    ensures forall x :: !Before(lt, reverse, x, x)
    ensures forall x, y, z :: Before(lt, reverse, x, y) && Before(lt, reverse, y, z) ==> Before(lt, reverse, x, z)
  {
  }

  /** Each step of s is in the order the heap pops items. */
  ghost predicate Ascending<T>(lt: (T, T) -> bool, reverse: bool, s: seq<T>)
  {
    forall j :: 0 <= j < |s| - 1 ==> !Before(lt, reverse, s[j + 1], s[j])
  }

  /** s is strictly in the order the heap pops items. */
  ghost predicate StrictlyAscending<T>(lt: (T, T) -> bool, reverse: bool, s: seq<T>)
  {
    forall i, j :: 0 <= i < j < |s| ==> Before(lt, reverse, s[i], s[j])
  }

  // ---- what the streams hold ----

  /** Everything the streams hold, with multiplicity. */
  function Bag<T>(ss: seq<seq<T>>): multiset<T>
  {
    if ss == [] then multiset{} else Bag(ss[..|ss| - 1]) + multiset(ss[|ss| - 1])
  }

  lemma {:induction false} BagFlatten<T>(ss: seq<seq<T>>)
    ensures multiset(Flatten(ss)) == Bag(ss)
    decreases |ss|
  {
    if ss != [] {
      var p := ss[..|ss| - 1];
      assert ss == p + [ss[|ss| - 1]];
      FlattenSnoc(p, ss[|ss| - 1]);
      BagFlatten(p);
    }
  }

  lemma {:induction false} BagReverse<T>(ss: seq<seq<T>>)
    ensures Bag(Reverse(ss)) == Bag(ss)
    decreases |ss|
  {
    if ss != [] {
      var p, s := ss[..|ss| - 1], ss[|ss| - 1];
      assert Bag(Reverse(ss)) == Bag([s] + Reverse(p));
      BagCons(s, Reverse(p));
      BagReverse(p);
    }
  }

  lemma {:induction false} BagCons<T>(s: seq<T>, ss: seq<seq<T>>)
    ensures Bag([s] + ss) == multiset(s) + Bag(ss)
    decreases |ss|
  {
    if ss == [] {
      assert [s] + ss == [s];
      assert [s][..0] == [];
    } else {
      var p := ss[..|ss| - 1];
      assert ([s] + ss)[..|ss|] == [s] + p;
      BagCons(s, p);
    }
  }

  lemma {:induction false} BagSize<T>(ss: seq<seq<T>>)
    ensures |Bag(ss)| == SumLengths(ss)
  {
    BagFlatten(ss);
    FlattenLength(ss);
  }

  /** What the generators still have to give when generator g's head is its item cur[g] (all
      of it when cur[g] is past its end), together with everything after it. */
  function Pend<T>(ss: seq<seq<T>>, cur: seq<nat>): multiset<T>
    requires |cur| == |ss|
  {
    if ss == [] then multiset{}
    else
      var k := |ss| - 1;
      Pend(ss[..k], cur[..k]) + (if cur[k] <= |ss[k]| then multiset(ss[k][cur[k]..]) else multiset{})
  }

  /** Before any pop, everything is pending. */
  lemma {:induction false} PendStart<T>(ss: seq<seq<T>>, cur: seq<nat>)
    requires |cur| == |ss| && forall g :: 0 <= g < |ss| ==> cur[g] == 0
    ensures Pend(ss, cur) == Bag(ss)
    decreases |ss|
  {
    if ss != [] {
      var k := |ss| - 1;
      PendStart(ss[..k], cur[..k]);
      assert ss[k][0..] == ss[k];
    }
  }

  /** Advancing generator g0 past its head removes exactly that head from what is pending. */
  lemma {:induction false} PendAdvance<T>(ss: seq<seq<T>>, cur: seq<nat>, g0: int)
    requires |cur| == |ss| && 0 <= g0 < |ss| && cur[g0] < |ss[g0]|
    ensures Pend(ss, cur[g0 := cur[g0] + 1]) + multiset{ss[g0][cur[g0]]} == Pend(ss, cur)
    decreases |ss|
  {
    var k := |ss| - 1;
    var cur' := cur[g0 := cur[g0] + 1];
    if g0 == k {
      assert cur'[..k] == cur[..k];
      var t, c := ss[k], cur[k];
      assert t[c..] == [t[c]] + t[c + 1..];
    } else {
      assert cur'[..k] == cur[..k][g0 := cur[g0] + 1];
      PendAdvance(ss[..k], cur[..k], g0);
    }
  }

  /** When every generator is spent, nothing is pending. */
  lemma {:induction false} PendSpent<T>(ss: seq<seq<T>>, cur: seq<nat>)
    requires |cur| == |ss| && forall g :: 0 <= g < |ss| ==> cur[g] == |ss[g]|
    ensures Pend(ss, cur) == multiset{}
    decreases |ss|
  {
    if ss != [] {
      var k := |ss| - 1;
      PendSpent(ss[..k], cur[..k]);
    }
  }

  /** The state of generator g: its head is its item cur[g], and the generator has handed out
      cur[g] + 1 items; once it is spent it has no head and has handed out everything. */
  ghost predicate GenState<T>(s: seq<T>, head: Option<T>, next: nat, cur: nat)
  {
    cur <= |s| &&
    (cur < |s| ==> head == Some(s[cur]) && next == cur + 1) &&
    (cur == |s| ==> head.None? && next == |s|)
  }

  ghost predicate HeapMatches<T>(ss: seq<seq<T>>, heads: seq<Option<T>>, next: seq<nat>, cur: seq<nat>)
  {
    |heads| == |ss| && |next| == |ss| && |cur| == |ss| &&
    forall g :: 0 <= g < |ss| ==> GenState(ss[g], heads[g], next[g], cur[g])
  }

  // ---- the heap ----

  /** heappop's choice: the index of a head no other head comes before, or -1 when the heap is
      empty. Among equal heads it picks the lowest generator index. */
  method FindMin<T(!new)>(heads: seq<Option<T>>, lt: (T, T) -> bool, reverse: bool) returns (b: int)
    requires StrictOrder(lt)
    ensures -1 <= b < |heads|
    ensures b == -1 <==> forall g :: 0 <= g < |heads| ==> heads[g].None?
    ensures b >= 0 ==>
      heads[b].Some? &&
      forall g :: 0 <= g < |heads| && heads[g].Some? ==> !Before(lt, reverse, heads[g].value, heads[b].value)
    ensures b >= 0 ==> forall g :: 0 <= g < b && heads[g].Some? ==> heads[g].value != heads[b].value
  {
    BeforeOrder(lt, reverse);
    b := -1;
    for k := 0 to |heads|
      invariant -1 <= b < k
      invariant b == -1 ==> forall g :: 0 <= g < k ==> heads[g].None?
      invariant b >= 0 ==>
        heads[b].Some? &&
        forall g :: 0 <= g < k && heads[g].Some? ==> !Before(lt, reverse, heads[g].value, heads[b].value)
      invariant b >= 0 ==> forall g :: 0 <= g < b && heads[g].Some? ==> heads[g].value != heads[b].value
    {
      if heads[k].Some? && (b == -1 || Before(lt, reverse, heads[k].value, heads[b].value)) {
        b := k;
      }
    }
  }

  /** The heap when every generator has been asked for its first item. */
  method InitialHeads<T>(ss: seq<seq<T>>) returns (heads: seq<Option<T>>, next: seq<nat>, ghost cur: seq<nat>)
    ensures HeapMatches(ss, heads, next, cur)
    ensures forall g :: 0 <= g < |ss| ==> cur[g] == 0
  {
    heads, next, cur := [], [], [];
    for g := 0 to |ss|
      invariant |heads| == g && |next| == g && |cur| == g
      invariant forall i :: 0 <= i < g ==> GenState(ss[i], heads[i], next[i], cur[i]) && cur[i] == 0
    {
      if |ss[g]| > 0 {
        heads, next := heads + [Some(ss[g][0])], next + [1];
      } else {
        heads, next := heads + [None], next + [0];
      }
      cur := cur + [0];
    }
  }

  ghost predicate AllAscending<T>(ss: seq<seq<T>>, lt: (T, T) -> bool, reverse: bool)
  {
    forall g :: 0 <= g < |ss| ==> Ascending(lt, reverse, ss[g])
  }

  /** The invariant of the merge loop: the heap matches the generators, the output and what is
      pending together are everything, and with ordered streams the output is ordered and no
      head comes before its last item. */
  ghost predicate MergeInv<T>(ss: seq<seq<T>>, lt: (T, T) -> bool, reverse: bool,
                              heads: seq<Option<T>>, next: seq<nat>, cur: seq<nat>, out: seq<T>)
  {
    HeapMatches(ss, heads, next, cur) &&
    multiset(out) + Pend(ss, cur) == Bag(ss) &&
    (AllAscending(ss, lt, reverse) ==>
       Ascending(lt, reverse, out) &&
       (|out| > 0 ==>
          forall g :: 0 <= g < |ss| && heads[g].Some? ==> !Before(lt, reverse, heads[g].value, out[|out| - 1])))
  }

  /** Popping generator g and pushing its next item, if any, keeps the heap matched. */
  lemma AdvanceMatches<T>(ss: seq<seq<T>>, heads: seq<Option<T>>, next: seq<nat>, cur: seq<nat>, g: int,
                          heads': seq<Option<T>>, next': seq<nat>)
    requires HeapMatches(ss, heads, next, cur) && 0 <= g < |ss| && heads[g].Some?
    requires next[g] < |ss[g]| ==> heads' == heads[g := Some(ss[g][next[g]])] && next' == next[g := next[g] + 1]
    requires next[g] >= |ss[g]| ==> heads' == heads[g := None] && next' == next
    ensures cur[g] < |ss[g]| && heads[g].value == ss[g][cur[g]]
    ensures HeapMatches(ss, heads', next', cur[g := cur[g] + 1])
  {
    assert GenState(ss[g], heads[g], next[g], cur[g]);
    var cur' := cur[g := cur[g] + 1];
    forall k | 0 <= k < |ss| ensures GenState(ss[k], heads'[k], next'[k], cur'[k]) {
      if k != g {
        assert GenState(ss[k], heads[k], next[k], cur[k]);
      }
    }
  }

  /** With ordered streams, the popped head follows the last item yielded, and no head left in
      the heap comes before it. */
  lemma AdvanceOrdered<T>(ss: seq<seq<T>>, lt: (T, T) -> bool, reverse: bool,
                          heads: seq<Option<T>>, next: seq<nat>, cur: seq<nat>, out: seq<T>, g: int,
                          heads': seq<Option<T>>)
    requires HeapMatches(ss, heads, next, cur) && AllAscending(ss, lt, reverse)
    requires Ascending(lt, reverse, out)
    requires |out| > 0 ==>
      forall k :: 0 <= k < |ss| && heads[k].Some? ==> !Before(lt, reverse, heads[k].value, out[|out| - 1])
    requires 0 <= g < |ss| && heads[g].Some?
    requires forall k :: 0 <= k < |ss| && heads[k].Some? ==> !Before(lt, reverse, heads[k].value, heads[g].value)
    requires next[g] < |ss[g]| ==> heads' == heads[g := Some(ss[g][next[g]])]
    requires next[g] >= |ss[g]| ==> heads' == heads[g := None]
    ensures Ascending(lt, reverse, out + [heads[g].value])
    ensures forall k :: 0 <= k < |ss| && heads'[k].Some? ==> !Before(lt, reverse, heads'[k].value, heads[g].value)
  {
    assert GenState(ss[g], heads[g], next[g], cur[g]);
    assert Ascending(lt, reverse, ss[g]);
  }

  /** One round of the merge loop keeps its invariant: pop the head of generator g, which no
      other head comes before, yield it, and push that generator's next item if it has one. */
  lemma PopKeeps<T>(ss: seq<seq<T>>, lt: (T, T) -> bool, reverse: bool,
                    heads: seq<Option<T>>, next: seq<nat>, cur: seq<nat>, out: seq<T>, g: int,
                    heads': seq<Option<T>>, next': seq<nat>)
    requires MergeInv(ss, lt, reverse, heads, next, cur, out)
    requires 0 <= g < |ss| && heads[g].Some?
    requires forall k :: 0 <= k < |ss| && heads[k].Some? ==> !Before(lt, reverse, heads[k].value, heads[g].value)
    requires next[g] < |ss[g]| ==> heads' == heads[g := Some(ss[g][next[g]])] && next' == next[g := next[g] + 1]
    requires next[g] >= |ss[g]| ==> heads' == heads[g := None] && next' == next
    ensures MergeInv(ss, lt, reverse, heads', next', cur[g := cur[g] + 1], out + [heads[g].value])
  {
    AdvanceMatches(ss, heads, next, cur, g, heads', next');
    PendAdvance(ss, cur, g);
    var out' := out + [heads[g].value];
    assert multiset(out') == multiset(out) + multiset{heads[g].value};
    if AllAscending(ss, lt, reverse) {
      AdvanceOrdered(ss, lt, reverse, heads, next, cur, out, g, heads');
    }
  }

  /** The heap merge of _yield_all_data: every item of every stream comes out exactly once, and
      when every stream is in the merge's order so is the output. */
  method MergeStreams<T(==,!new)>(ss: seq<seq<T>>, lt: (T, T) -> bool, reverse: bool) returns (out: seq<T>)
    requires StrictOrder(lt)
    ensures multiset(out) == Bag(ss)
    ensures AllAscending(ss, lt, reverse) ==> Ascending(lt, reverse, out)
  {
    var heads: seq<Option<T>>, next: seq<nat>;
    ghost var cur: seq<nat>;
    heads, next, cur := InitialHeads(ss);
    PendStart(ss, cur);
    BagSize(ss);
    out := [];
    while true
      invariant MergeInv(ss, lt, reverse, heads, next, cur, out)
      decreases |Bag(ss)| - |out|
    {
      var g := FindMin(heads, lt, reverse);
      if g == -1 {
        PendSpent(ss, cur);
        return;
      }
      var x := heads[g].value;
      var heads', next' := heads, next;
      if next[g] < |ss[g]| {
        heads', next' := heads[g := Some(ss[g][next[g]])], next[g := next[g] + 1];
      } else {
        heads' := heads[g := None];
      }
      PopKeeps(ss, lt, reverse, heads, next, cur, out, g, heads', next');
      heads, next, cur := heads', next', cur[g := cur[g] + 1];
      out := out + [x];
    }
  }

  /** _yield_all_data over the per-length streams ss (ss[L - 1] for length L): with the length
      sort, the streams one after the other, shortest first or, reversed, longest first;
      otherwise their heap merge. */
  method YieldAllData<T(==,!new)>(ss: seq<seq<T>>, lt: (T, T) -> bool, reverse: bool, lengthSort: bool)
    returns (out: seq<T>)
    requires StrictOrder(lt)
    ensures lengthSort ==> out == Flatten(if reverse then Reverse(ss) else ss)
    ensures multiset(out) == Bag(ss)
    ensures !lengthSort && AllAscending(ss, lt, reverse) ==> Ascending(lt, reverse, out)
  {
    var maxWordLen := |ss|;
    if lengthSort {
      out := [];
      if reverse {
        ghost var rs := Reverse(ss);
        for k := 0 to maxWordLen
          invariant out == Flatten(rs[..k])
        {
          var length := maxWordLen - k;
          assert rs[..k + 1] == rs[..k] + [ss[length - 1]];
          FlattenSnoc(rs[..k], ss[length - 1]);
          out := out + ss[length - 1];
        }
        assert rs[..maxWordLen] == rs;
        BagReverse(ss);
      } else {
        for length := 1 to maxWordLen + 1
          invariant out == Flatten(ss[..length - 1])
        {
          assert ss[..length] == ss[..length - 1] + [ss[length - 1]];
          FlattenSnoc(ss[..length - 1], ss[length - 1]);
          out := out + ss[length - 1];
        }
        assert ss[..maxWordLen] == ss;
      }
      BagFlatten(if reverse then Reverse(ss) else ss);
      return;
    }
    out := MergeStreams(ss, lt, reverse);
  }

  // ---- from a stepwise order to a strict one ----

  lemma Twice<T>(s: seq<T>, j: int)
    requires 0 <= j < |s| - 1 && s[j] == s[j + 1]
    ensures multiset(s)[s[j]] >= 2
  {
    assert s == s[..j] + [s[j], s[j + 1]] + s[j + 2..];
  }

  /** When no item occurs twice, an output in the merge's stepwise order is strictly ordered. */
  lemma {:induction false} StrictFromSteps<T(!new)>(lt: (T, T) -> bool, reverse: bool, s: seq<T>)
    requires StrictOrder(lt) && Total(lt) && Ascending(lt, reverse, s)
    requires forall x :: multiset(s)[x] <= 1
    ensures StrictlyAscending(lt, reverse, s)
    decreases |s|
  {
    BeforeOrder(lt, reverse);
    if |s| > 1 {
      var p := s[..|s| - 1];
      assert Ascending(lt, reverse, p);
      assert s == p + [s[|s| - 1]];
      assert forall x :: multiset(p)[x] <= multiset(s)[x];
      StrictFromSteps(lt, reverse, p);
      var k := |s| - 2;
      if s[k] == s[k + 1] {
        Twice(s, k);
      }
      assert Before(lt, reverse, s[k], s[k + 1]);
      forall i | 0 <= i < k ensures Before(lt, reverse, s[i], s[k + 1]) {
        assert Before(lt, reverse, p[i], p[k]);
      }
    }
  }

  /** A strictly ordered sequence is ordered step by step. */
  lemma StepsFromStrict<T(!new)>(lt: (T, T) -> bool, reverse: bool, s: seq<T>)
    requires StrictOrder(lt) && StrictlyAscending(lt, reverse, s)
    ensures Ascending(lt, reverse, s)
  {
    BeforeOrder(lt, reverse);
    forall j | 0 <= j < |s| - 1 ensures !Before(lt, reverse, s[j + 1], s[j]) {
      assert Before(lt, reverse, s[j], s[j + 1]);
    }
  }

  /** A strictly ordered stream holds no item twice. */
  lemma {:induction false} StrictOnce<T(!new)>(lt: (T, T) -> bool, reverse: bool, s: seq<T>)
    requires StrictOrder(lt) && StrictlyAscending(lt, reverse, s)
    ensures forall x :: multiset(s)[x] <= 1
    decreases |s|
  {
    BeforeOrder(lt, reverse);
    if s != [] {
      var p, y := s[..|s| - 1], s[|s| - 1];
      assert s == p + [y];
      StrictOnce(lt, reverse, p);
      assert y !in p;
    }
  }

  /** Streams that are each strictly ordered and whose items are told apart by a tag (stream g
      holds only items tagged g + 1) hold no item twice between them. */
  lemma {:induction false} BagOnce<T(!new)>(ss: seq<seq<T>>, lt: (T, T) -> bool, reverse: bool, tag: T -> int)
    requires StrictOrder(lt)
    requires forall g :: 0 <= g < |ss| ==> StrictlyAscending(lt, reverse, ss[g])
    requires forall g, j :: 0 <= g < |ss| && 0 <= j < |ss[g]| ==> tag(ss[g][j]) == g + 1
    ensures forall x :: Bag(ss)[x] <= 1
    ensures forall x :: Bag(ss)[x] > 0 ==> 1 <= tag(x) <= |ss|
    decreases |ss|
  {
    if ss != [] {
      var k := |ss| - 1;
      var p, s := ss[..k], ss[k];
      BagOnce(p, lt, reverse, tag);
      StrictOnce(lt, reverse, s);
      forall x ensures Bag(ss)[x] <= 1 && (Bag(ss)[x] > 0 ==> 1 <= tag(x) <= |ss|) {
        if multiset(s)[x] > 0 {
          assert x in s;
          assert tag(x) == k + 1;
        }
      }
    }
  }
}
