/** The six CEFR proficiency levels, their names, values and order. */
module CEFRLevel {
  import opened Wrappers

  datatype Level = A1 | A2 | B1 | B2 | C1 | C2

  /** The level's value (its __int__). */
  function Value(l: Level): (v: int)
    ensures 1 <= v <= 6
  {
    match l
    case A1 => 1
    case A2 => 2
    case B1 => 3
    case B2 => 4
    case C1 => 5
    case C2 => 6
  }

  /** The level's member name (its __str__). */
  function Name(l: Level): string
  {
    match l
    case A1 => "A1"
    case A2 => "A2"
    case B1 => "B1"
    case B2 => "B2"
    case C1 => "C1"
    case C2 => "C2"
  }

  /** The comparison operators each compare the values. */
  predicate Lt(a: Level, b: Level) { Value(a) < Value(b) }
  predicate Le(a: Level, b: Level) { Value(a) <= Value(b) }
  predicate Gt(a: Level, b: Level) { Value(a) > Value(b) }
  predicate Ge(a: Level, b: Level) { Value(a) >= Value(b) }
  predicate Eq(a: Level, b: Level) { Value(a) == Value(b) }

  /** str.upper() on the ASCII letters; every other character is kept. */
  function Upper(s: string): (u: string)
    ensures |u| == |s|
    ensures forall i :: 0 <= i < |s| ==>
      u[i] == if 'a' <= s[i] <= 'z' then (s[i] as int - 32) as char else s[i]
  {
    if s == [] then []
    else [if 'a' <= s[0] <= 'z' then (s[0] as int - 32) as char else s[0]] + Upper(s[1..])
  }

  /** Looks a name up among the members, case-sensitively. */
  function Lookup(name: string): (r: Option<Level>)
    ensures r.Some? ==> Name(r.value) == name
  {
    match name
    case "A1" => Some(A1)
    case "A2" => Some(A2)
    case "B1" => Some(B1)
    case "B2" => Some(B2)
    case "C1" => Some(C1)
    case "C2" => Some(C2)
    case _ => None
  }

  /** from_str: upper-cases the input, then looks it up; ValueError when nothing matches. */
  function FromStr(s: string): (r: Result<Level>)
    ensures r.Ok? ==> Name(r.value) == Upper(s)
    ensures r.Err? ==> r.error == ValueError
  {
    match Lookup(Upper(s))
    case Some(l) => Ok(l)
    case None => Err(ValueError)
  }

  /** The values are exactly 1..6, one level per value (the enumeration is unique), so equality
      by value is identity. */
  lemma ValuesIdentifyLevels(a: Level, b: Level, v: int)
    ensures Eq(a, b) <==> a == b
    ensures (exists l :: Value(l) == v) <==> 1 <= v <= 6
  {
    if 1 <= v <= 6 {
      var l := [A1, A2, B1, B2, C1, C2][v - 1];
      assert Value(l) == v;
    }
  }

  /** The operators are consistent with each other and the order is total. */
  lemma OrderIsTotal(a: Level, b: Level)
    ensures Le(a, b) <==> Lt(a, b) || Eq(a, b)
    ensures Gt(a, b) <==> Lt(b, a)
    ensures Ge(a, b) <==> Le(b, a)
    ensures Lt(a, b) || a == b || Lt(b, a)
    ensures !(Lt(a, b) && Lt(b, a))
  {
  }

  lemma LtTransitive(a: Level, b: Level, c: Level)
    requires Lt(a, b) && Lt(b, c)
    ensures Lt(a, c)
  {
  }

  /** from_str(str(l)) == l, and from_str accepts the lower-case name too. */
  lemma FromStrRoundTrip(l: Level)
    ensures FromStr(Name(l)) == Ok(l)
    ensures FromStr(LowerName(l)) == Ok(l)
  {
    var n, ln := Name(l), LowerName(l);
    assert |ln| == |n| == 2;
    assert Upper(n) == n;
    assert Upper(ln) == n;
  }

  function LowerName(l: Level): string
  {
    match l
    case A1 => "a1"
    case A2 => "a2"
    case B1 => "b1"
    case B2 => "b2"
    case C1 => "c1"
    case C2 => "c2"
  }

  /** from_str raises exactly for a string whose upper-cased form is no level's name, such as
      "D1" or the empty string. */
  lemma UnknownNameRejected(s: string)
    ensures FromStr(s) == Err(ValueError) <==> forall l: Level :: Upper(s) != Name(l)
    ensures FromStr("D1") == Err(ValueError) && FromStr("") == Err(ValueError)
  {
    forall l: Level
      ensures Lookup(Name(l)) == Some(l)
    {
      match l
      case A1 => case A2 => case B1 => case B2 => case C1 => case C2 =>
    }
    assert Upper("D1") == "D1";
  }

  /** Upper-casing leaves no ASCII lower-case letter behind, so a second pass changes nothing. */
  lemma {:induction false} UpperIdempotent(s: string)
    ensures forall i :: 0 <= i < |s| ==> !('a' <= Upper(s)[i] <= 'z')
    ensures Upper(Upper(s)) == Upper(s)
  {
    var u := Upper(s);
    assert forall i :: 0 <= i < |u| ==> Upper(u)[i] == u[i];
  }
}
