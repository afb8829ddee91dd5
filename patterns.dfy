/** The fragment of JavaScript regular expressions that the registration
    validators use: literal text, bracketed character classes, non-capturing
    alternation `(?:a|b)`, concatenation and a fixed repetition count `a{n}`.
    The meaning of a pattern is given by `Ends(p, s, i)`: the set of positions
    at which some match of `p` that starts at position `i` of `s` ends. */
module Patterns {

  /** A character range `lo-hi` inside a class. */
  datatype Span = Span(lo: char, hi: char)

  /** A bracketed class `[...]`: some ranges plus some single characters. */
  datatype CharClass = CharClass(ranges: seq<Span>, singles: string)

  datatype Pattern =
    | Text(text: string)
    | Class(members: CharClass)
    | Either(left: Pattern, right: Pattern)
    | Then(first: Pattern, rest: Pattern)
    | Repeat(body: Pattern, count: nat)

  /** A regular expression literal: `/p/` finds a match anywhere, `/^p$/` must match the whole input. */
  datatype Regex = Unanchored(pattern: Pattern) | Anchored(pattern: Pattern)

  predicate InRanges(c: char, ranges: seq<Span>)
  {
    ranges != [] && (ranges[0].lo <= c <= ranges[0].hi || InRanges(c, ranges[1..]))
  }

  predicate InClass(c: char, cls: CharClass)
  {
    InRanges(c, cls.ranges) || c in cls.singles
  }

  /** `[lo-hi]` */
  function Range(lo: char, hi: char): (cls: CharClass)
    ensures forall c :: InClass(c, cls) <==> lo <= c <= hi
  {
    var ranges := [Span(lo, hi)];
    assert forall c :: InRanges(c, ranges) <==> lo <= c <= hi by {
      assert ranges[1..] == [];
    }
    CharClass(ranges, "")
  }

  function Ends(p: Pattern, s: string, i: nat): (ends: set<nat>)
    requires i <= |s|
    ensures forall j :: j in ends ==> i <= j <= |s|
    decreases p, 0
  {
    match p
    case Text(t) => if i + |t| <= |s| && s[i..i + |t|] == t then {i + |t|} else {}
    case Class(cls) => if i < |s| && InClass(s[i], cls) then {i + 1} else {}
    case Either(a, b) => Ends(a, s, i) + Ends(b, s, i)
    case Then(a, b) => set j, k | j in Ends(a, s, i) && k in Ends(b, s, j) :: k
    case Repeat(q, n) => RepeatEnds(q, n, s, i)
  }

  /** Where `n` back-to-back matches of `q` starting at `i` can end. */
  function RepeatEnds(q: Pattern, n: nat, s: string, i: nat): (ends: set<nat>)
    requires i <= |s|
    ensures forall j :: j in ends ==> i <= j <= |s|
    decreases q, n + 1
  {
    if n == 0 then {i}
    else
      var more := n - 1;
      set j, k | j in Ends(q, s, i) && k in RepeatEnds(q, more, s, j) :: k
  }

  /** `RegExp.prototype.test`. */
  predicate Test(re: Regex, s: string)
  {
    match re
    case Anchored(p) => |s| in Ends(p, s, 0)
    case Unanchored(p) => exists i :: 0 <= i <= |s| && Ends(p, s, i) != {}
  }

  lemma ThenEndsNone(a: Pattern, b: Pattern, s: string, i: nat)
    requires i <= |s| && Ends(a, s, i) == {}
    ensures Ends(Then(a, b), s, i) == {}
  {
  }

  lemma ThenEndsOne(a: Pattern, b: Pattern, s: string, i: nat, j: nat)
    requires i <= j <= |s| && Ends(a, s, i) == {j}
    ensures Ends(Then(a, b), s, i) == Ends(b, s, j)
  {
  }

  lemma RepeatEndsOne(q: Pattern, n: nat, s: string, i: nat, j: nat)
    requires 0 < n && i <= j <= |s| && Ends(q, s, i) == {j}
    ensures RepeatEnds(q, n, s, i) == RepeatEnds(q, n - 1, s, j)
  {
  }

  lemma RepeatEndsNone(q: Pattern, n: nat, s: string, i: nat)
    requires 0 < n && i <= |s| && Ends(q, s, i) == {}
    ensures RepeatEnds(q, n, s, i) == {}
  {
  }

  /** All of `s[lo..hi]` is in the class. */
  predicate AllInClass(s: string, lo: nat, hi: nat, cls: CharClass)
    requires lo <= hi <= |s|
  {
    forall m :: lo <= m < hi ==> InClass(s[m], cls)
  }

  /** A class repeated `n` times matches exactly the next `n` characters when they all belong to it. */
  lemma {:induction false} RepeatClassEnds(cls: CharClass, n: nat, s: string, i: nat)
    requires i <= |s|
    ensures RepeatEnds(Class(cls), n, s, i)
            == if i + n <= |s| && AllInClass(s, i, i + n, cls) then {i + n} else {}
  {
    if n > 0 {
      if i < |s| && InClass(s[i], cls) {
        assert Ends(Class(cls), s, i) == {i + 1};
        RepeatEndsOne(Class(cls), n, s, i, i + 1);
        RepeatClassEnds(cls, n - 1, s, i + 1);
        if i + n <= |s| {
          assert AllInClass(s, i, i + n, cls) <==> AllInClass(s, i + 1, i + n, cls);
        }
      } else {
        assert Ends(Class(cls), s, i) == {};
        RepeatEndsNone(Class(cls), n, s, i);
        if i + n <= |s| {
          assert !AllInClass(s, i, i + n, cls);
        }
      }
    }
  }

  lemma ClassThenEndsHit(a: CharClass, q: Pattern, s: string, i: nat)
    requires i < |s| && InClass(s[i], a)
    ensures Ends(Then(Class(a), q), s, i) == Ends(q, s, i + 1)
  {
    assert Ends(Class(a), s, i) == {i + 1};
    ThenEndsOne(Class(a), q, s, i, i + 1);
  }

  lemma ClassThenEndsMiss(a: CharClass, q: Pattern, s: string, i: nat)
    requires i <= |s| && !(i < |s| && InClass(s[i], a))
    ensures Ends(Then(Class(a), q), s, i) == {}
  {
    assert Ends(Class(a), s, i) == {};
    ThenEndsNone(Class(a), q, s, i);
  }

  /** One character of class `a` followed by `n` characters of class `b`. */
  lemma ClassThenRepeatEnds(a: CharClass, b: CharClass, n: nat, s: string, i: nat)
    requires i <= |s|
    ensures Ends(Then(Class(a), Repeat(Class(b), n)), s, i)
         == if i + n < |s| && InClass(s[i], a) && AllInClass(s, i + 1, i + n + 1, b)
            then {i + n + 1} else {}
  {
    if i < |s| && InClass(s[i], a) {
      ClassThenEndsHit(a, Repeat(Class(b), n), s, i);
      RepeatClassEnds(b, n, s, i + 1);
    } else {
      ClassThenEndsMiss(a, Repeat(Class(b), n), s, i);
    }
  }

  /** Searching for a one-character class succeeds iff some character of the input is in the class. */
  lemma ClassSearch(cls: CharClass, s: string)
    ensures Test(Unanchored(Class(cls)), s) <==> exists c :: c in s && InClass(c, cls)
  {
    if exists c :: c in s && InClass(c, cls) {
      var c :| c in s && InClass(c, cls);
      var i :| 0 <= i < |s| && s[i] == c;
      assert i + 1 in Ends(Class(cls), s, i);
    }
  }
}
