/** End-of-line conventions, the line index over a plain string, and the
    translation of a string from one convention to another (src/estr.c,
    src/estr.h, src/memrmem.c). */
module Eol {
  import opened Basics

  datatype Eol = LF | CRLF | CR

  /** A string with its end-of-line convention. */
  datatype Estr = Estr(text: string, eol: Eol)

  /** One more than the largest size_t. */
  const SIZE_MODULUS: nat := 0x1_0000_0000_0000_0000

  const ESTR_EMPTY: Estr := Estr("", LF)

  function First(e: Eol): char { if e.LF? then '\n' else '\r' }

  function EolStr(e: Eol): string { if e.CRLF? then ['\r', '\n'] else [First(e)] }

  function EolLen(e: Eol): nat { if e.CRLF? then 2 else 1 }

  /** An end-of-line of kind e starts at index i of s. */
  predicate EolAt(s: string, e: Eol, i: int) {
    && 0 <= i <= |s| - EolLen(e)
    && s[i] == First(e)
    && (e.CRLF? ==> s[i + 1] == '\n')
  }

  /** The bytes t occur in s at index i. */
  predicate OccursAt(s: string, t: string, i: int) {
    0 <= i <= |s| - |t| && s[i..i + |t|] == t
  }

  lemma EolAtIsOccurrence(s: string, e: Eol, i: int)
    ensures EolAt(s, e, i) <==> OccursAt(s, EolStr(e), i)
  {
    if e == CRLF && 0 <= i < |s| - 1 {
      assert s[i..i + 2] == [s[i], s[i + 1]];
    } else if e != CRLF && 0 <= i < |s| {
      assert s[i..i + 1] == [s[i]];
    }
  }

  // ---------------------------------------------------------------------
  // The line index
  // ---------------------------------------------------------------------

  /** Offset of the first end-of-line at or after o, or the length of s. */
  function EndOfLine(s: string, e: Eol, o: nat): (r: nat)
    requires o <= |s|
    ensures o <= r <= |s|
    ensures r < |s| ==> EolAt(s, e, r)
    ensures forall k :: o <= k < r ==> !EolAt(s, e, k)
    decreases |s| - o
  {
    if o == |s| || EolAt(s, e, o) then o else EndOfLine(s, e, o + 1)
  }

  /** Offset just after the last end-of-line that lies wholly before o, or 0. */
  function StartOfLine(s: string, e: Eol, o: nat): (r: nat)
    requires o <= |s|
    ensures r <= o
    ensures r > 0 ==> EolLen(e) <= r && EolAt(s, e, r - EolLen(e))
    ensures forall k :: r - EolLen(e) < k <= o - EolLen(e) ==> !EolAt(s, e, k)
    decreases o
  {
    if o == 0 then 0
    else if EolAt(s, e, o - EolLen(e)) then o
    else StartOfLine(s, e, o - 1)
  }

  function PrevLine(s: string, e: Eol, o: nat): Option<nat>
    requires o <= |s|
  {
    var so := StartOfLine(s, e, o);
    if so == 0 then None else Some(StartOfLine(s, e, so - EolLen(e)))
  }

  function NextLine(s: string, e: Eol, o: nat): Option<nat>
    requires o <= |s|
  {
    var eo := EndOfLine(s, e, o);
    if eo == |s| then None else Some(eo + EolLen(e))
  }

  lemma EndOfLineUnique(s: string, e: Eol, o: nat, r: nat)
    requires o <= r <= |s|
    requires r == |s| || EolAt(s, e, r)
    requires forall k :: o <= k < r ==> !EolAt(s, e, k)
    ensures EndOfLine(s, e, o) == r
  {
    var x := EndOfLine(s, e, o);
    assert x < r ==> EolAt(s, e, x);
    assert r < x ==> EolAt(s, e, r);
  }

  lemma StartOfLineUnique(s: string, e: Eol, o: nat, r: nat)
    requires r <= o <= |s|
    requires r == 0 || (EolLen(e) <= r && EolAt(s, e, r - EolLen(e)))
    requires forall k :: r - EolLen(e) < k <= o - EolLen(e) ==> !EolAt(s, e, k)
    ensures StartOfLine(s, e, o) == r
  {
    var x := StartOfLine(s, e, o);
    assert x < r ==> EolAt(s, e, r - EolLen(e));
    assert r < x ==> EolAt(s, e, x - EolLen(e));
  }

  /** Index of the last occurrence of t in s, searching from the end. */
  method Memrmem(s: string, t: string) returns (r: Option<nat>)
    ensures r.None? ==> forall i :: !OccursAt(s, t, i)
    ensures r.Some? ==> OccursAt(s, t, r.value) && forall i :: r.value < i ==> !OccursAt(s, t, i)
  {
    if |s| >= |t| {
      var i: int := |s| - |t|;
      while i >= 0
        invariant -1 <= i <= |s| - |t|
        invariant forall k :: i < k ==> !OccursAt(s, t, k)
      {
        if s[i..i + |t|] == t {
          return Some(i);
        }
        i := i - 1;
      }
    }
    return None;
  }

  /** The search estr_start_of_line makes: it is StartOfLine. */
  method FindStartOfLine(s: string, e: Eol, o: nat) returns (r: nat)
    requires o <= |s|
    ensures r == StartOfLine(s, e, o)
  {
    var p := Memrmem(s[..o], EolStr(e));
    r := if p.Some? then p.value + EolLen(e) else 0;
    forall k | 0 <= k <= o - EolLen(e)
      ensures EolAt(s, e, k) <==> OccursAt(s[..o], EolStr(e), k)
    {
      EolAtIsOccurrence(s[..o], e, k);
    }
    StartOfLineUnique(s, e, o, r);
  }

  // ---------------------------------------------------------------------
  // Translation between conventions
  // ---------------------------------------------------------------------

  /** Bytes taken off the front of s in one step of a left-to-right scan. */
  function Step(s: string, e: Eol): (n: nat)
    requires s != ""
    ensures 1 <= n <= |s|
  {
    if EolAt(s, e, 0) then EolLen(e) else 1
  }

  /** What that step writes. */
  function Emit(s: string, from: Eol, to: Eol): string
    requires s != ""
  {
    if EolAt(s, from, 0) then EolStr(to) else [s[0]]
  }

  /** s with each leftmost non-overlapping end-of-line of kind `from`
      replaced by one of kind `to`. */
  function Translate(s: string, from: Eol, to: Eol): string {
    if s == "" then "" else Emit(s, from, to) + Translate(s[Step(s, from)..], from, to)
  }

  /** Number of leftmost non-overlapping ends-of-line in s (estr_lines). */
  function Lines(s: string, e: Eol): nat {
    if s == "" then 0
    else (if EolAt(s, e, 0) then 1 else 0) + Lines(s[Step(s, e)..], e)
  }

  /** a + n * d in size_t arithmetic, where d may be a wrapped difference. */
  function WrappedSum(a: nat, n: nat, d: int): nat {
    (a + n * (d % SIZE_MODULUS)) % SIZE_MODULUS
  }

  /** The estr_len macro: the difference of the two lengths is an unsigned
      number, so it is reduced before it is multiplied. */
  function EstrLenMacro(s: string, from: Eol, to: Eol): nat {
    WrappedSum(|s|, Lines(s, from), EolLen(to) - EolLen(from))
  }

  lemma {:induction false} TranslateLength(s: string, from: Eol, to: Eol, d: int)
    requires d == EolLen(to) - EolLen(from)
    ensures |Translate(s, from, to)| == |s| + Lines(s, from) * d
  {
    if s != "" {
      var u := s[Step(s, from)..];
      TranslateLength(u, from, to, d);
      var n, m := Lines(u, from), Lines(s, from);
      assert |Translate(s, from, to)| == |Emit(s, from, to)| + |Translate(u, from, to)|;
      if EolAt(s, from, 0) {
        assert m == n + 1;
        assert m * d == n * d + d;
      } else {
        assert m == n;
      }
    }
  }

  lemma {:induction false} ModMultiple(a: int, n: int)
    ensures (a + n * SIZE_MODULUS) % SIZE_MODULUS == a % SIZE_MODULUS
    decreases if n < 0 then -n else n
  {
    if n > 0 {
      ModMultiple(a, n - 1);
      assert a + n * SIZE_MODULUS == (a + (n - 1) * SIZE_MODULUS) + SIZE_MODULUS;
    } else if n < 0 {
      ModMultiple(a, n + 1);
      assert a + n * SIZE_MODULUS == (a + (n + 1) * SIZE_MODULUS) - SIZE_MODULUS;
    }
  }

  lemma WrappedSumIsExact(a: nat, n: nat, d: int, t: nat)
    requires t == a + n * d && t < SIZE_MODULUS && -2 <= d <= 2
    ensures WrappedSum(a, n, d) == t
  {
    if d < 0 {
      assert d % SIZE_MODULUS == d + SIZE_MODULUS;
      assert n * (d + SIZE_MODULUS) == n * d + n * SIZE_MODULUS;
      ModMultiple(t, n);
    }
  }

  /** The macro counts exactly the bytes of the translation, wrapped
      difference included, whenever that count is a size_t. */
  lemma EstrLenIsExact(s: string, from: Eol, to: Eol)
    requires |Translate(s, from, to)| < SIZE_MODULUS
    ensures EstrLenMacro(s, from, to) == |Translate(s, from, to)|
  {
    var d, n, t := EolLen(to) - EolLen(from), Lines(s, from), |Translate(s, from, to)|;
    TranslateLength(s, from, to, d);
    WrappedSumIsExact(|s|, n, d, t);
  }

  lemma {:induction false} TranslateSame(s: string, e: Eol)
    ensures Translate(s, e, e) == s
  {
    if s != "" {
      var n := Step(s, e);
      TranslateSame(s[n..], e);
      EolAtIsOccurrence(s, e, 0);
      assert s[..n] == Emit(s, e, e);
      assert s == s[..n] + s[n..];
    }
  }

  /** A line-feed at index i of s would be part of an end-of-line of kind e. */
  predicate EndsEol(s: string, e: Eol, i: nat)
    requires i < |s|
  {
    e == LF || (e == CRLF && i > 0 && s[i - 1] == '\r')
  }

  /** No line-feed of s lies outside an end-of-line of kind e. */
  predicate NoStrayLf(s: string, e: Eol) {
    forall i :: 0 <= i < |s| && s[i] == '\n' ==> EndsEol(s, e, i)
  }

  /** A string in convention e survives a stay in an LF string, such as the
      kill ring, exactly when it has no stray line-feed. */
  lemma {:induction false} ToLfAndBackIff(s: string, e: Eol)
    ensures Translate(Translate(s, e, LF), LF, e) == s <==> NoStrayLf(s, e)
  {
    if e == LF {
      TranslateSame(s, LF);
    } else if s != "" {
      var n := Step(s, e);
      var u := s[n..];
      ToLfAndBackIff(u, e);
      BackStep(s, e);
      var back := Translate(Translate(u, e, LF), LF, e);
      if s[0] == '\n' {
        assert (EolStr(e) + back)[0] != s[0];
        assert !EndsEol(s, e, 0);
      } else {
        NoStrayTail(s, e, n);
        assert s == s[..n] + u;
        assert (s[..n] + back)[n..] == back;
      }
    }
  }

  /** The round trip copies everything but a stray line-feed. */
  lemma BackStep(s: string, e: Eol)
    requires e != LF && s != ""
    ensures var n := Step(s, e);
            var back := Translate(Translate(s[n..], e, LF), LF, e);
            Translate(Translate(s, e, LF), LF, e)
            == (if s[0] == '\n' then EolStr(e) else s[..n]) + back
  {
    var n := Step(s, e);
    var t := Translate(s, e, LF);
    assert t == Emit(s, e, LF) + Translate(s[n..], e, LF);
    assert t[1..] == Translate(s[n..], e, LF);
    assert s[0] != '\n' ==> Emit(t, LF, e) == s[..n];
  }

  /** Cutting off a leading end-of-line, or a leading other character. */
  lemma NoStrayTail(s: string, e: Eol, n: nat)
    requires e != LF && s != ""
    requires if EolAt(s, e, 0) then n == EolLen(e) else n == 1 && s[0] != '\n'
    ensures NoStrayLf(s, e) <==> NoStrayLf(s[n..], e)
  {
    var u := s[n..];
    if NoStrayLf(u, e) {
      forall i | 0 <= i < |s| && s[i] == '\n'
        ensures EndsEol(s, e, i)
      {
        assert i >= n ==> u[i - n] == '\n' && EndsEol(u, e, i - n);
      }
    }
    if NoStrayLf(s, e) {
      forall i | 0 <= i < |u| && u[i] == '\n'
        ensures EndsEol(u, e, i)
      {
        assert s[i + n] == '\n' && EndsEol(s, e, i + n);
      }
    }
  }

  /** Writing line-feeds as CRLF and reading them back loses nothing,
      whatever carriage-returns the text already held. */
  lemma {:induction false} LfToCrlfAndBack(s: string)
    ensures Translate(Translate(s, LF, CRLF), CRLF, LF) == s
  {
    if s != "" {
      hide Lines;
      var t, u := Translate(s, LF, CRLF), Translate(s[1..], LF, CRLF);
      LfToCrlfAndBack(s[1..]);
      var c := Emit(s, LF, CRLF);
      assert t == c + u;
      assert s[0] == '\r' && u != "" ==> u[0] != '\n';
      assert Step(t, CRLF) == |c| && Emit(t, CRLF, LF) == [s[0]];
      assert t[|c|..] == u;
      assert s == [s[0]] + s[1..];
    }
  }

  /** Translation is compositional unless a CRLF straddles the seam. */
  predicate Straddles(a: string, b: string, e: Eol) {
    e == CRLF && a != "" && b != "" && a[|a| - 1] == '\r' && b[0] == '\n'
  }

  lemma {:induction false} TranslateConcat(a: string, b: string, from: Eol, to: Eol)
    requires !Straddles(a, b, from)
    ensures Translate(a + b, from, to) == Translate(a, from, to) + Translate(b, from, to)
    ensures Lines(a + b, from) == Lines(a, from) + Lines(b, from)
  {
    if a == "" {
      assert a + b == b;
    } else {
      var a' := a[Step(a, from)..];
      StepConcat(a, b, from, to);
      TranslateConcat(a', b, from, to);
      Assoc(Emit(a, from, to), Translate(a', from, to), Translate(b, from, to));
    }
  }

  lemma Assoc(x: string, y: string, z: string)
    ensures x + (y + z) == (x + y) + z
  {
  }

  /** The first step on a + b is the first step on a. */
  lemma StepConcat(a: string, b: string, from: Eol, to: Eol)
    requires a != "" && !Straddles(a, b, from)
    ensures var a' := a[Step(a, from)..];
            && !Straddles(a', b, from)
            && Translate(a + b, from, to) == Emit(a, from, to) + Translate(a' + b, from, to)
            && Lines(a + b, from) == Lines(a, from) - Lines(a', from) + Lines(a' + b, from)
  {
    var s, n := a + b, Step(a, from);
    assert EolAt(s, from, 0) <==> EolAt(a, from, 0);
    assert s[n..] == a[n..] + b;
  }

  lemma {:induction false} TranslatePlain(s: string, from: Eol, to: Eol)
    requires forall i :: 0 <= i < |s| ==> !EolAt(s, from, i)
    ensures Translate(s, from, to) == s && Lines(s, from) == 0
  {
    if s != "" {
      var u := s[1..];
      assert forall i :: 0 <= i < |u| ==> (EolAt(u, from, i) <==> EolAt(s, from, i + 1));
      assert !EolAt(s, from, 0);
      TranslatePlain(u, from, to);
      assert s == [s[0]] + u;
    }
  }

  /** What comes before the first end-of-line is copied as it stands. */
  lemma TranslateChunk(s: string, from: Eol, to: Eol, k: nat)
    requires k <= |s| && forall i :: 0 <= i < k ==> !EolAt(s, from, i)
    ensures Translate(s, from, to) == s[..k] + Translate(s[k..], from, to)
    ensures Lines(s, from) == Lines(s[k..], from)
  {
    var a, b := s[..k], s[k..];
    assert s == a + b;
    assert forall i :: 0 <= i < k ==> (EolAt(a, from, i) ==> EolAt(s, from, i));
    assert Straddles(a, b, from) ==> EolAt(s, from, k - 1);
    TranslatePlain(a, from, to);
    TranslateConcat(a, b, from, to);
  }

  /** One round of the loops below: the text before the first end-of-line,
      the end-of-line, and the rest translated by itself. */
  lemma TranslateRound(s: string, from: Eol, to: Eol, k: nat)
    requires k == EndOfLine(s, from, 0) && k < |s|
    ensures var rest := s[k + EolLen(from)..];
            && Translate(s, from, to) == s[..k] + EolStr(to) + Translate(rest, from, to)
            && Lines(s, from) == 1 + Lines(rest, from)
  {
    TranslateChunk(s, from, to, k);
    FrontEol(s[k..], from, to);
    var rest := s[k + EolLen(from)..];
    assert s[k..][EolLen(from)..] == rest;
    Assoc(s[..k], EolStr(to), Translate(rest, from, to));
  }

  lemma FrontEol(s: string, from: Eol, to: Eol)
    requires EolAt(s, from, 0)
    ensures Translate(s, from, to) == EolStr(to) + Translate(s[EolLen(from)..], from, to)
    ensures Lines(s, from) == 1 + Lines(s[EolLen(from)..], from)
  {
  }

  /** estr_lines: hop from one end-of-line to the next, counting. */
  method EstrLines(s: string, e: Eol) returns (lines: nat)
    ensures lines == Lines(s, e)
  {
    lines := 0;
    var rest := s;
    var next := EndOfLine(rest, e, 0);
    while next != |rest|
      invariant next == EndOfLine(rest, e, 0)
      invariant Lines(s, e) == lines + Lines(rest, e)
      decreases |rest|
    {
      TranslateRound(rest, e, e, next);
      lines := lines + 1;
      rest := rest[next + EolLen(e)..];
      next := EndOfLine(rest, e, 0);
    }
    TranslatePlain(rest, e, e);
  }

  /** estr_len, as the editor uses it: the size of the translation. */
  method EstrLen(es: Estr, to: Eol) returns (n: nat)
    ensures n == |Translate(es.text, es.eol, to)|
  {
    var lines := EstrLines(es.text, es.eol);
    TranslateLength(es.text, es.eol, to, EolLen(to) - EolLen(es.eol));
    n := |es.text| + lines * (EolLen(to) - EolLen(es.eol));
  }
}
