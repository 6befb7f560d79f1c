/** Completing what was typed from a list of candidates
    (src/completion.c:242-315). A C string is a string without NULs. */
module Completion {
  import opened Basics

  /** Crash stands for a read past the terminator of a string, or from an
      empty list. */
  datatype Answer =
    | Crash
    | NotMatched
    | Matched(match': string, size: nat)
    | MatchedNonunique(match': string, size: nat)
    | Nonunique(match': string, size: nat)

  predicate IsCstr(s: string) { '\0' !in s }

  /** The j-th byte of a C string, or its terminator. */
  function ByteAt(s: string, j: nat): char {
    if j < |s| then s[j] else '\0'
  }

  /** strcmp (a, b) <= 0. */
  predicate StrLe(a: string, b: string) {
    a == "" || (b != "" && (a[0] < b[0] || (a[0] == b[0] && StrLe(a[1..], b[1..]))))
  }

  lemma {:induction false} StrLeTotal(a: string, b: string)
    ensures StrLe(a, b) || StrLe(b, a)
    ensures StrLe(a, b) && StrLe(b, a) ==> a == b
  {
    if a != "" && b != "" {
      StrLeTotal(a[1..], b[1..]);
      assert a == [a[0]] + a[1..] && b == [b[0]] + b[1..];
    }
  }

  lemma {:induction false} StrLeTransitive(a: string, b: string, c: string)
    requires StrLe(a, b) && StrLe(b, c)
    ensures StrLe(a, c)
  {
    if a != "" && a[0] == b[0] && b[0] == c[0] {
      StrLeTransitive(a[1..], b[1..], c[1..]);
    }
  }

  lemma {:induction false} PrefixIsLe(a: string, b: string)
    requires a <= b
    ensures StrLe(a, b)
  {
    if a != "" {
      PrefixIsLe(a[1..], b[1..]);
    }
  }

  predicate Sorted(ms: seq<string>) {
    forall i, j :: 0 <= i < j < |ms| ==> StrLe(ms[i], ms[j])
  }

  /** gl_sortedlist_add. */
  function SortedAdd(ms: seq<string>, s: string): seq<string> {
    if ms == [] || StrLe(s, ms[0]) then [s] + ms else [ms[0]] + SortedAdd(ms[1..], s)
  }

  lemma {:induction false} SortedAddMembers(ms: seq<string>, s: string)
    ensures multiset(SortedAdd(ms, s)) == multiset(ms) + multiset{s}
  {
    if ms != [] {
      SortedAddMembers(ms[1..], s);
      assert ms == [ms[0]] + ms[1..];
    }
  }

  lemma {:induction false} SortedAddKeeps(ms: seq<string>, s: string)
    requires Sorted(ms)
    ensures Sorted(SortedAdd(ms, s))
  {
    if ms != [] && StrLe(s, ms[0]) {
      forall i | 0 < i < |ms|
        ensures StrLe(s, ms[i])
      {
        StrLeTransitive(s, ms[0], ms[i]);
      }
    } else if ms != [] {
      var rest := SortedAdd(ms[1..], s);
      SortedAddKeeps(ms[1..], s);
      StrLeTotal(s, ms[0]);
      forall i | 0 <= i < |rest|
        ensures StrLe(ms[0], rest[i])
      {
        InSortedAdd(ms[1..], s, rest[i]);
      }
    }
  }

  lemma InSortedAdd(ms: seq<string>, s: string, x: string)
    requires x in SortedAdd(ms, s)
    ensures x == s || x in ms
  {
    SortedAddMembers(ms, s);
    assert x in multiset(SortedAdd(ms, s));
  }

  /** The candidates that start with what was typed. */
  function Matching(cands: seq<string>, search: string): seq<string> {
    if cands == [] then []
    else
      var front := Matching(cands[..|cands| - 1], search);
      if search <= cands[|cands| - 1] then front + [cands[|cands| - 1]] else front
  }

  /** p starts every match. */
  predicate Common(ms: seq<string>, p: string) {
    forall m :: m in ms ==> p <= m
  }

  /** p starts every match, and nothing longer does. */
  ghost predicate LongestCommon(ms: seq<string>, p: string) {
    Common(ms, p) && forall q :: Common(ms, q) ==> |q| <= |p|
  }

  /** m is the first match in order. */
  predicate Least(ms: seq<string>, m: string) {
    m in ms && forall x :: x in ms ==> StrLe(m, x)
  }

  predicate AllEqual(ms: seq<string>) {
    forall x, y :: x in ms && y in ms ==> x == y
  }

  /** What completion_try should answer. */
  ghost predicate IsAnswer(cands: seq<string>, search: string, r: Answer) {
    var ms := Matching(cands, search);
    if search == "" then
      r == if cands == [] then Crash
           else if |cands| > 1 then Nonunique(cands[0], 0)
           else Matched(cands[0], |cands[0]|)
    else if ms == [] then r == NotMatched
    else if |ms| == 1 then r == Matched(ms[0], |ms[0]|)
    else if multiset(ms)[search] == 1 then r == MatchedNonunique(search, |search|)
    else if AllEqual(ms) then r == Crash
    else
      && r.Nonunique? && Least(ms, r.match') && r.size <= |r.match'|
      && LongestCommon(ms, r.match'[..r.size])
  }

  lemma SameMembers(a: seq<string>, b: seq<string>)
    requires multiset(a) == multiset(b)
    ensures |a| == |b| && forall m :: m in a <==> m in b
  {
    assert |multiset(a)| == |a| && |multiset(b)| == |b|;
    assert forall m :: m in a <==> m in multiset(a);
    assert forall m :: m in b <==> m in multiset(b);
  }

  lemma {:induction false} MatchingIff(cands: seq<string>, search: string, m: string)
    ensures m in Matching(cands, search) <==> m in cands && search <= m
  {
    if cands != [] {
      MatchingIff(cands[..|cands| - 1], search, m);
      assert cands == cands[..|cands| - 1] + [cands[|cands| - 1]];
    }
  }

  /** The first loop: the matches in order, and how many are what was typed. */
  method Collect(cands: seq<string>, search: string) returns (matches: seq<string>, full: nat)
    ensures Sorted(matches) && multiset(matches) == multiset(Matching(cands, search))
    ensures full == multiset(matches)[search]
  {
    matches, full := [], 0;
    for i := 0 to |cands|
      invariant Sorted(matches) && multiset(matches) == multiset(Matching(cands[..i], search))
      invariant full == multiset(matches)[search]
    {
      var s := cands[i];
      assert cands[..i + 1][..i] == cands[..i];
      if search <= s {
        SortedAddKeeps(matches, s);
        SortedAddMembers(matches, s);
        matches := SortedAdd(matches, s);
        if s == search {
          full := full + 1;
        }
      }
    }
    assert cands[..|cands|] == cands;
  }

  /** Every match has the first j bytes of the first one. */
  predicate Agree(ms: seq<string>, j: nat)
    requires ms != []
  {
    j <= |ms[0]| && Common(ms, ms[0][..j])
  }

  /** The bytes at j of the matches from 1 to i are the first one's. */
  predicate SameByte(ms: seq<string>, j: nat, i: nat)
    requires ms != [] && Agree(ms, j) && i <= |ms|
  {
    forall k :: 1 <= k < i ==> ByteAt(ms[k], j) == ByteAt(ms[0], j)
  }

  /** Agreeing on one more byte, or on the terminator. */
  lemma AgreeMore(ms: seq<string>, j: nat)
    requires ms != [] && Agree(ms, j) && SameByte(ms, j, |ms|)
    requires forall m :: m in ms ==> IsCstr(m)
    ensures if j < |ms[0]| then Agree(ms, j + 1) else AllEqual(ms)
  {
    assert ms[0] in ms;
    forall m | m in ms
      ensures if j < |ms[0]| then ms[0][..j + 1] <= m else m == ms[0]
    {
      var k :| 0 <= k < |ms| && ms[k] == m;
      assert ByteAt(m, j) == ByteAt(ms[0], j);
      if j < |ms[0]| {
        assert ms[0][j] in ms[0];
        assert ms[0][..j + 1] == ms[0][..j] + [ms[0][j]];
      } else {
        EndsHere(m, j);
      }
    }
  }

  lemma EndsHere(m: string, j: nat)
    requires IsCstr(m)
    ensures ByteAt(m, j) == '\0' <==> j >= |m|
  {
    if j < |m| {
      assert m[j] in m;
    }
  }

  lemma ByteOfPrefix(q: string, m: string, j: nat)
    requires j < |q| && q <= m
    ensures ByteAt(m, j) == q[j]
  {
  }

  /** A byte that differs ends the common prefix. */
  lemma AgreeNoMore(ms: seq<string>, j: nat, i: nat)
    requires ms != [] && Agree(ms, j) && i < |ms| && ByteAt(ms[i], j) != ByteAt(ms[0], j)
    ensures LongestCommon(ms, ms[0][..j]) && !AllEqual(ms)
  {
    forall q | Common(ms, q)
      ensures |q| <= j
    {
      assert ms[0] in ms && ms[i] in ms;
      assert q <= ms[0] && q <= ms[i];
      if |q| > j {
        ByteOfPrefix(q, ms[0], j);
        ByteOfPrefix(q, ms[i], j);
      }
    }
    assert ms[0] in ms && ms[i] in ms;
  }

  /** The second loop: it stops at the first byte in which the matches do not
      all agree, and runs past their ends if there is none. */
  method CommonPrefix(ms: seq<string>, from: nat) returns (r: Answer)
    requires ms != [] && Agree(ms, from) && forall m :: m in ms ==> IsCstr(m)
    ensures if AllEqual(ms) then r == Crash
            else r.Nonunique? && r.match' == ms[0] && r.size <= |ms[0]| && LongestCommon(ms, ms[0][..r.size])
  {
    var j := from;
    while j <= |ms[0]|
      invariant if j <= |ms[0]| then Agree(ms, j) else AllEqual(ms)
      decreases |ms[0]| + 1 - j
    {
      var c := ByteAt(ms[0], j);
      for i := 1 to |ms|
        invariant SameByte(ms, j, i)
      {
        assert ms[i] in ms && j <= |ms[i]|;
        if ByteAt(ms[i], j) != c {
          AgreeNoMore(ms, j, i);
          return Nonunique(ms[0], j);
        }
      }
      AgreeMore(ms, j);
      j := j + 1;
    }
    return Crash;
  }

  /** completion_try. */
  method CompletionTry(cands: seq<string>, search: string) returns (r: Answer)
    requires IsCstr(search) && forall c :: c in cands ==> IsCstr(c)
    ensures IsAnswer(cands, search, r)
  {
    if search == "" {
      if cands == [] {
        return Crash;
      }
      return if |cands| > 1 then Nonunique(cands[0], 0) else Matched(cands[0], |cands[0]|);
    }
    var ms, full := Collect(cands, search);
    ghost var found := Matching(cands, search);
    SameMembers(ms, found);
    assert forall m :: m in ms ==> search <= m && m in cands by {
      forall m | m in ms { MatchingIff(cands, search, m); }
    }
    if |ms| == 0 {
      return NotMatched;
    } else if |ms| == 1 {
      assert found[0] in ms;
      return Matched(ms[0], |ms[0]|);
    } else if full == 1 {
      FirstIsSearch(ms, search);
      return MatchedNonunique(ms[0], |ms[0]|);
    }
    FirstIsLeast(ms);
    assert ms[0][..|search|] == search;
    r := CommonPrefix(ms, |search|);
    assert AllEqual(ms) <==> AllEqual(found);
    assert forall p :: Common(ms, p) <==> Common(found, p);
  }

  /** When what was typed is itself a match, it is the first in order. */
  lemma FirstIsSearch(ms: seq<string>, search: string)
    requires Sorted(ms) && search in ms && forall m :: m in ms ==> search <= m
    ensures ms[0] == search
  {
    var i :| 0 <= i < |ms| && ms[i] == search;
    assert ms[0] in ms;
    PrefixIsLe(search, ms[0]);
    if i > 0 {
      StrLeTotal(search, ms[0]);
    }
  }

  lemma FirstIsLeast(ms: seq<string>)
    requires Sorted(ms) && ms != []
    ensures Least(ms, ms[0])
  {
    forall x | x in ms
      ensures StrLe(ms[0], x)
    {
      var i :| 0 <= i < |ms| && ms[i] == x;
      StrLeTotal(ms[0], ms[0]);
    }
  }

  predicate Distinct(cands: seq<string>) {
    forall i, j :: 0 <= i < j < |cands| ==> cands[i] != cands[j]
  }

  lemma {:induction false} MatchingDistinct(cands: seq<string>, search: string)
    requires Distinct(cands)
    ensures Distinct(Matching(cands, search))
  {
    if cands != [] {
      var front, c := cands[..|cands| - 1], cands[|cands| - 1];
      MatchingDistinct(front, search);
      MatchingIff(front, search, c);
      assert c !in front;
    }
  }

  /** With candidates that are all different, completion never runs off the
      end of one; it can only find the list empty. */
  lemma NeverOverruns(cands: seq<string>, search: string, r: Answer)
    requires Distinct(cands) && IsAnswer(cands, search, r)
    ensures r == Crash <==> search == "" && cands == []
  {
    MatchingDistinct(cands, search);
    var ms := Matching(cands, search);
    if |ms| >= 2 {
      assert ms[0] in ms && ms[1] in ms && ms[0] != ms[1];
    }
  }
}
