/** Which end-of-line convention a file is taken to use (estr_new_astr in
    src/estr.c:48-86). */
module Detect {
  import opened Basics
  import opened Eol

  const MAX_EOL_CHECK_COUNT: nat := 3

  predicate IsBreak(c: char) { c == '\n' || c == '\r' }

  /** The kind of end-of-line that s starts with. */
  function KindAt(s: string): Eol
    requires s != "" && IsBreak(s[0])
  {
    if s[0] == '\n' then LF else if |s| == 1 || s[1] != '\n' then CR else CRLF
  }

  /** The kinds of all the ends-of-line of s, in order. */
  function Kinds(s: string): seq<Eol> {
    if s == "" then []
    else if !IsBreak(s[0]) then Kinds(s[1..])
    else [KindAt(s)] + Kinds(s[EolLen(KindAt(s))..])
  }

  /** What is decided from a list of kinds: the one they all are among the
      first few, or else LF. */
  function Decide(ks: seq<Eol>): Eol {
    if ks != [] && forall i :: 0 <= i < |ks| && i < MAX_EOL_CHECK_COUNT ==> ks[i] == ks[0] then ks[0] else LF
  }

  /** estr_new_astr. */
  method NewAstr(s: string) returns (es: Estr)
    ensures es == Estr(s, Decide(Kinds(s)))
  {
    var firstEol, totalEols, eol := true, 0, LF;
    ghost var seen: seq<Eol> := [];
    var i := 0;
    assert s[0..] == s;
    while i < |s| && totalEols < MAX_EOL_CHECK_COUNT
      invariant 0 <= i <= |s| && Kinds(s) == seen + Kinds(s[i..])
      invariant totalEols == |seen| <= MAX_EOL_CHECK_COUNT && firstEol == (seen == [])
      invariant (seen == [] ==> eol == LF) && forall k :: 0 <= k < |seen| ==> seen[k] == eol
    {
      var c := s[i];
      KindsStep(s, i, seen);
      if c == '\n' || c == '\r' {
        var thisEolType;
        totalEols := totalEols + 1;
        if c == '\n' {
          thisEolType := LF;
        } else if i == |s| - 1 || s[i + 1] != '\n' {
          thisEolType := CR;
        } else {
          thisEolType := CRLF;
          i := i + 1;
        }
        seen := seen + [thisEolType];
        if firstEol {
          eol := thisEolType;
          firstEol := false;
        } else if eol != thisEolType {
          Mixed(Kinds(s), seen);
          return Estr(s, LF);
        }
      }
      i := i + 1;
    }
    assert i == |s| ==> s[i..] == "";
    es := Estr(s, eol);
  }

  lemma KindsStep(s: string, i: nat, seen: seq<Eol>)
    requires i < |s| && Kinds(s) == seen + Kinds(s[i..])
    ensures if !IsBreak(s[i]) then Kinds(s) == seen + Kinds(s[i + 1..])
            else var k := KindAt(s[i..]);
                 i + EolLen(k) <= |s| && Kinds(s) == (seen + [k]) + Kinds(s[i + EolLen(k)..])
  {
    var u := s[i..];
    if !IsBreak(s[i]) {
      assert u[1..] == s[i + 1..];
    } else {
      var k := KindAt(u);
      assert u[EolLen(k)..] == s[i + EolLen(k)..];
    }
  }

  lemma Mixed(ks: seq<Eol>, seen: seq<Eol>)
    requires 2 <= |seen| <= MAX_EOL_CHECK_COUNT && seen <= ks
    requires seen[|seen| - 1] != seen[0]
    ensures Decide(ks) == LF
  {
    assert ks[|seen| - 1] == seen[|seen| - 1] && ks[0] == seen[0];
  }

  /** A text of lines, written out in convention e, has only ends-of-line of
      that kind, as many as it has lines to end. */
  lemma {:induction false} KindsOfTranslated(s: string, e: Eol)
    requires '\r' !in s
    ensures var ks := Kinds(Translate(s, LF, e));
            |ks| == Lines(s, LF) && forall i :: 0 <= i < |ks| ==> ks[i] == e
  {
    if s != "" {
      var t, u := Translate(s, LF, e), Translate(s[1..], LF, e);
      KindsOfTranslated(s[1..], e);
      assert s[0] in s;
      if s[0] == '\n' {
        NoLeadingLf(s[1..], e);
        assert t == EolStr(e) + u && t[EolLen(e)..] == u;
        assert KindAt(t) == e;
      } else {
        assert t == [s[0]] + u && t[1..] == u;
      }
    }
  }

  lemma NoLeadingLf(s: string, e: Eol)
    requires '\r' !in s
    ensures var u := Translate(s, LF, e); e == CR && u != "" ==> u[0] != '\n'
  {
    if s != "" {
      assert s[0] in s;
    }
  }

  /** A file written in a convention is read back in that convention, as long
      as it has a line end to tell by. */
  lemma DetectedAsWritten(s: string, e: Eol)
    requires '\r' !in s
    ensures Decide(Kinds(Translate(s, LF, e))) == if Lines(s, LF) > 0 then e else LF
  {
    KindsOfTranslated(s, e);
  }
}
