/** Sequence operations the enumeration functions are specified with: reversal and the removal
    of adjacent duplicates that yield_words_with_length performs with its last_word. */
module Sequences {

  function Reverse<T>(s: seq<T>): (r: seq<T>)
    ensures |r| == |s|
    ensures forall i :: 0 <= i < |s| ==> r[i] == s[|s| - 1 - i]
  {
    if s == [] then [] else [s[|s| - 1]] + Reverse(s[..|s| - 1])
  }

  /** s with every element equal to the one before it dropped, defined by the last element. */
  function Dedup<T(==)>(s: seq<T>): seq<T>
  {
    if |s| == 0 then []
    else if |s| >= 2 && s[|s| - 2] == s[|s| - 1] then Dedup(s[..|s| - 1])
    else Dedup(s[..|s| - 1]) + [s[|s| - 1]]
  }

  /** One step of a loop that keeps the element it yielded last. */
  lemma DedupSnoc<T>(s: seq<T>, x: T)
    ensures Dedup(s + [x]) == if |s| > 0 && s[|s| - 1] == x then Dedup(s) else Dedup(s) + [x]
  {
    assert (s + [x])[..|s|] == s;
  }

  lemma {:induction false} DedupLast<T>(s: seq<T>)
    requires |s| > 0
    ensures |Dedup(s)| > 0 && Dedup(s)[|Dedup(s)| - 1] == s[|s| - 1]
    decreases |s|
  {
    if |s| >= 2 && s[|s| - 2] == s[|s| - 1] {
      DedupLast(s[..|s| - 1]);
    }
  }

  /** Every element of Dedup(s) occurs in s. */
  lemma {:induction false} DedupElements<T>(s: seq<T>)
    ensures forall y :: y in Dedup(s) ==> y in s
    decreases |s|
  {
    if |s| > 0 {
      var p := s[..|s| - 1];
      DedupElements(p);
      assert forall y :: y in p ==> y in s;
    }
  }

  /** Every element of s occurs in Dedup(s). */
  lemma {:induction false} DedupCovers<T>(s: seq<T>)
    ensures forall y :: y in s ==> y in Dedup(s)
    decreases |s|
  {
    if |s| > 0 {
      var p, x := s[..|s| - 1], s[|s| - 1];
      assert s == p + [x];
      DedupCovers(p);
      DedupSnoc(p, x);
      if |p| > 0 && p[|p| - 1] == x {
        assert x in p;
      }
    }
  }

  lemma DedupSingleton<T>(x: T)
    ensures Dedup([x]) == [x]
  {
    DedupSnoc([], x);
    assert [] + [x] == [x];
  }

  lemma DedupPair<T>(x: T, y: T)
    ensures Dedup([x, y]) == if x == y then [x] else [x, y]
  {
    DedupSnoc([x], y);
    DedupSingleton(x);
    assert [x] + [y] == [x, y];
  }

  lemma DedupConsStep<T>(x: T, t: seq<T>)
    requires |t| >= 2
    requires Dedup([x] + t[..|t| - 1]) ==
      if t[0] == x then Dedup(t[..|t| - 1]) else [x] + Dedup(t[..|t| - 1])
    ensures Dedup([x] + t) == if t[0] == x then Dedup(t) else [x] + Dedup(t)
  {
    var p, y := t[..|t| - 1], t[|t| - 1];
    assert t == p + [y];
    var xp := [x] + p;
    assert [x] + t == xp + [y];
    assert xp[|xp| - 1] == p[|p| - 1];
    DedupSnoc(xp, y);
    DedupSnoc(p, y);
    assert p[0] == t[0];
  }

  /** Dedup seen from the front. */
  lemma {:induction false} DedupCons<T>(x: T, t: seq<T>)
    ensures Dedup([x] + t) == if |t| > 0 && t[0] == x then Dedup(t) else [x] + Dedup(t)
    decreases |t|
  {
    if |t| == 0 {
      assert [x] + t == [x];
      DedupSingleton(x);
    } else if |t| == 1 {
      assert t == [t[0]];
      assert [x] + t == [x, t[0]];
      DedupPair(x, t[0]);
      DedupSingleton(t[0]);
    } else {
      DedupCons(x, t[..|t| - 1]);
      assert t[..|t| - 1][0] == t[0];
      DedupConsStep(x, t);
    }
  }

  /** Reversing and dropping adjacent duplicates commute. */
  lemma {:induction false} DedupReverse<T>(s: seq<T>)
    ensures Dedup(Reverse(s)) == Reverse(Dedup(s))
    decreases |s|
  {
    if |s| > 0 {
      var p, x := s[..|s| - 1], s[|s| - 1];
      assert s == p + [x];
      assert Reverse(s) == [x] + Reverse(p);
      DedupReverse(p);
      DedupCons(x, Reverse(p));
      DedupSnoc(p, x);
      if |p| > 0 && p[|p| - 1] == x {
      } else {
        ReverseSnoc(Dedup(p), x);
      }
    }
  }

  lemma ReverseSnoc<T>(s: seq<T>, x: T)
    ensures Reverse(s + [x]) == [x] + Reverse(s)
  {
    assert (s + [x])[..|s|] == s;
  }

  lemma {:induction false} ReverseAppend<T>(a: seq<T>, b: seq<T>)
    ensures Reverse(a + b) == Reverse(b) + Reverse(a)
    decreases |b|
  {
    if |b| == 0 {
      assert a + b == a;
    } else {
      var p, y := b[..|b| - 1], b[|b| - 1];
      assert a + b == (a + p) + [y];
      ReverseSnoc(a + p, y);
      ReverseAppend(a, p);
      assert b == p + [y];
      ReverseSnoc(p, y);
    }
  }

  /** Concatenation of a sequence of sequences. */
  function Flatten<T>(ss: seq<seq<T>>): (r: seq<T>)
  {
    if ss == [] then [] else ss[0] + Flatten(ss[1..])
  }

  function SumLengths<T>(ss: seq<seq<T>>): nat
  {
    if ss == [] then 0 else |ss[0]| + SumLengths(ss[1..])
  }

  lemma {:induction false} FlattenLength<T>(ss: seq<seq<T>>)
    ensures |Flatten(ss)| == SumLengths(ss)
    decreases |ss|
  {
    if ss != [] {
      FlattenLength(ss[1..]);
    }
  }

  /** Sequences of sequences of the same lengths, position by position, have the same total. */
  lemma {:induction false} SumLengthsPointwise<T, U>(ss: seq<seq<T>>, tt: seq<seq<U>>)
    requires |ss| == |tt| && forall i :: 0 <= i < |ss| ==> |ss[i]| == |tt[i]|
    ensures SumLengths(ss) == SumLengths(tt)
    decreases |ss|
  {
    if ss != [] {
      SumLengthsPointwise(ss[1..], tt[1..]);
    }
  }

  lemma {:induction false} FlattenSnoc<T>(ss: seq<seq<T>>, s: seq<T>)
    ensures Flatten(ss + [s]) == Flatten(ss) + s
    ensures SumLengths(ss + [s]) == SumLengths(ss) + |s|
    decreases |ss|
  {
    if ss == [] {
      assert [s][1..] == [];
    } else {
      assert (ss + [s])[1..] == ss[1..] + [s];
      FlattenSnoc(ss[1..], s);
    }
  }
}
