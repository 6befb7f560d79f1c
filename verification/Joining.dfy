/** Joining the lines of a paragraph, over the plain text of a buffer and the
    offsets of its markers (src/funcs.c:797-802). */
module Joining {
  import opened Basics
  import opened Eol
  import opened Spacing
  import opened Cuts

  // ---------------------------------------------------------------------
  // Marks
  // ---------------------------------------------------------------------

  /** Every mark has the same before it as it had, white space apart. */
  ghost predicate KeepsMarks(d: Doc, r: Doc) {
    && Proper(d) && Proper(r) && |r.marks| == |d.marks|
    && forall i :: 0 <= i < |d.marks| ==> KeepsMark(d.text, d.marks[i], r.text, r.marks[i])
  }

  predicate KeepsMark(t: string, m: nat, t': string, m': nat)
    requires m <= |t| && m' <= |t'|
  {
    NonSpace(t'[..m']) == NonSpace(t[..m])
  }

  lemma KeepsMarksTwice(d: Doc, q: Doc, r: Doc)
    requires KeepsMarks(d, q) && KeepsMarks(q, r)
    ensures KeepsMarks(d, r)
  {
    forall i | 0 <= i < |d.marks|
      ensures KeepsMark(d.text, d.marks[i], r.text, r.marks[i])
    {
      assert KeepsMark(d.text, d.marks[i], q.text, q.marks[i]);
      assert KeepsMark(q.text, q.marks[i], r.text, r.marks[i]);
    }
  }

  /** Trading white space for white space does so. */
  lemma BlankEditKeeps(d: Doc, o: nat, del: nat, put: string)
    requires Proper(d) && o + del <= |d.text| && Blank(d.text[o..o + del]) && Blank(put)
    ensures KeepsMarks(d, EditAt(d, o, del, put))
  {
    hide Blank, NonSpace, Splice;
    var r := EditAt(d, o, del, put);
    forall i | 0 <= i < |d.marks|
      ensures KeepsMark(d.text, d.marks[i], r.text, r.marks[i])
    {
      MarkKept(d.text, o, del, put, d.marks[i]);
    }
  }

  lemma MarkKept(t: string, o: nat, del: nat, put: string, m: nat)
    requires o + del <= |t| && m <= |t| && Blank(t[o..o + del]) && Blank(put)
    ensures var r, m' := Splice(t, o, del, put), Shift(m, o, |put|, del);
            m' <= |r| && KeepsMark(t, m, r, m')
  {
    hide NonSpace;
    var r, m' := Splice(t, o, del, put), Shift(m, o, |put|, del);
    if m <= o {
      assert r[..m] == t[..m];
    } else if m < o + del {
      assert t[..m] == t[..o] + t[o..m] && r[..m'] == t[..o] + put[..m' - o];
      assert t[o..m] == t[o..o + del][..m - o];
      BlankTail(t[..o], t[o..m]);
      BlankTail(t[..o], put[..m' - o]);
    } else {
      var rest := t[o + del..m];
      assert t[..m] == t[..o] + t[o..o + del] + rest;
      assert r[..m'] == t[..o] + put + rest;
      BlankBetween(t[..o], t[o..o + del], rest);
      BlankBetween(t[..o], put, rest);
    }
  }

  lemma BlankTail(a: string, b: string)
    requires Blank(b)
    ensures NonSpace(a + b) == NonSpace(a)
  {
    NonSpaceConcat(a, b);
    NonSpaceBlank(b);
  }

  lemma BlankBetween(a: string, b: string, c: string)
    requires Blank(b)
    ensures NonSpace(a + b + c) == NonSpace(a) + NonSpace(c)
  {
    NonSpaceConcat(a + b, c);
    BlankTail(a, b);
  }

  /** How often c occurs in s. */
  function Occurrences(s: string, c: char): nat {
    if s == "" then 0 else Occurrences(s[..|s| - 1], c) + if s[|s| - 1] == c then 1 else 0
  }

  lemma {:induction false} OccurrencesConcat(a: string, b: string, c: char)
    ensures Occurrences(a + b, c) == Occurrences(a, c) + Occurrences(b, c)
  {
    if b == "" {
      assert a + b == a;
    } else {
      OccurrencesConcat(a, b[..|b| - 1], c);
      assert (a + b)[..|a + b| - 1] == a + b[..|b| - 1];
    }
  }

  /** How often it occurs before a mark. */
  function Before(t: string, m: nat, c: char): nat
    requires m <= |t|
  {
    Occurrences(t[..m], c)
  }

  /** An edit that puts in no c does not put any before a mark, and takes one
      away if it deletes one there. */
  lemma EditTakes(d: Doc, o: nat, del: nat, put: string, i: nat, c: char)
    requires Proper(d) && o + del <= |d.text| && i < |d.marks| && c !in put
    ensures var r, m := EditAt(d, o, del, put), d.marks[i];
            && Before(r.text, r.marks[i], c) <= Before(d.text, m, c)
            && (m > o && del > 0 && d.text[o] == c ==> Before(r.text, r.marks[i], c) < Before(d.text, m, c))
  {
    var r, m := EditAt(d, o, del, put), d.marks[i];
    if m <= o {
      assert r.text[..m] == d.text[..m];
    } else if m <= o + del {
      TakenWithin(d.text, o, del, put, m, r.marks[i], c);
    } else {
      TakenBefore(d.text, o, del, put, m, c);
    }
  }

  lemma TakenWithin(t: string, o: nat, del: nat, put: string, m: nat, m': nat, c: char)
    requires o < m <= o + del <= |t| && o <= m' <= o + |put| && c !in put
    ensures Before(Splice(t, o, del, put), m', c) <= Before(t, m, c)
    ensures t[o] == c ==> Before(Splice(t, o, del, put), m', c) < Before(t, m, c)
  {
    assert t[..m] == t[..o] + t[o..m];
    assert Splice(t, o, del, put)[..m'] == t[..o] + put[..m' - o];
    OccurrencesConcat(t[..o], t[o..m], c);
    OccurrencesConcat(t[..o], put[..m' - o], c);
    NoOccurrence(put[..m' - o], c);
    if t[o] == c { OneOccurrence(t[o..m], c); }
  }

  lemma TakenBefore(t: string, o: nat, del: nat, put: string, m: nat, c: char)
    requires o + del < m <= |t| && c !in put
    ensures Before(Splice(t, o, del, put), m + |put| - del, c) <= Before(t, m, c)
    ensures del > 0 && t[o] == c ==> Before(Splice(t, o, del, put), m + |put| - del, c) < Before(t, m, c)
  {
    var rest := t[o + del..m];
    assert Splice(t, o, del, put)[..m + |put| - del] == t[..o] + (put + rest);
    assert t[..m] == t[..o] + (t[o..o + del] + rest);
    OccurrencesConcat(t[..o], put + rest, c);
    OccurrencesConcat(put, rest, c);
    OccurrencesConcat(t[..o], t[o..o + del] + rest, c);
    OccurrencesConcat(t[o..o + del], rest, c);
    NoOccurrence(put, c);
    if del > 0 && t[o] == c { OneOccurrence(t[o..o + del], c); }
  }

  lemma {:induction false} NoOccurrence(s: string, c: char)
    requires c !in s
    ensures Occurrences(s, c) == 0
  {
    if s != "" { NoOccurrence(s[..|s| - 1], c); }
  }

  lemma OneOccurrence(s: string, c: char)
    requires s != "" && s[0] == c
    ensures Occurrences(s, c) > 0
  {
    assert s == [c] + s[1..];
    OccurrencesConcat([c], s[1..], c);
    assert Occurrences([c], c) == Occurrences([c][..0], c) + 1;
  }

  // ---------------------------------------------------------------------
  // One round
  // ---------------------------------------------------------------------

  /** The n blanks at a, all those about the end-of-line at eo and it among
      them, became one space. */
  predicate Joined(d: Doc, e: Eol, eo: nat, a: nat, n: nat, r: Doc) {
    && Proper(d) && Proper(r) && |r.marks| == |d.marks| && r.pt == a + 1 && r.readonly == d.readonly
    && JoinedText(d.text, e, eo, a, n, r.text)
  }

  predicate JoinedText(t: string, e: Eol, eo: nat, a: nat, n: nat, t': string) {
    && a <= eo && eo + EolLen(e) <= a + n <= |t| && Blank(t[a..a + n])
    && t' == Splice(t, a, n, " ")
    && StartOfLine(t, e, eo) <= a && (a == StartOfLine(t, e, eo) || !IsSpace(t[a - 1]))
    && a + n <= EndOfLine(t, e, eo + EolLen(e)) && (a + n == EndOfLine(t, e, eo + EolLen(e)) || !IsSpace(t[a + n]))
  }

  /** Marks among them come before the space. */
  predicate MarksJoined(d: Doc, a: nat, n: nat, r: Doc) {
    && |r.marks| == |d.marks|
    && forall i :: 0 <= i < |d.marks| ==>
         r.marks[i] == if d.marks[i] <= a then d.marks[i] else if d.marks[i] <= a + n then a else d.marks[i] - n + 1
  }

  /** One round of the joining loop. */
  method JoinLine(d: Doc, e: Eol) returns (r: Doc, a: nat, n: nat)
    requires Proper(d) && EndOfLine(d.text, e, d.pt) < |d.text|
    requires d.readonly || NoWrap(d.marks, EndOfLine(d.text, e, d.pt), 0, EolLen(e))
    ensures d.readonly ==> r == d.(pt := BackOver(d.text, e, EndOfLine(d.text, e, d.pt)))
    ensures !d.readonly ==> Joined(d, e, EndOfLine(d.text, e, d.pt), a, n, r)
                            && MarksJoined(d, a, n, r) && KeepsMarks(d, r)
                            && TakesOne(d, e, EndOfLine(d.text, e, d.pt), r)
  {
    hide EolAt, StartOfLine, EndOfLine, Before, TakesOne, Joined, Splice, Shifted, Blank, NonSpace, IsSpace, EditAt;
    hide MarksJoined, KeepsMarks, Maximal;
    var eo := EndOfLine(d.text, e, d.pt);
    EndOfEnd(d.text, e, d.pt);
    var q := DeleteChar(d.(pt := eo), e);
    var del;
    r, a, del := JustOneSpace(q, e);
    n := del + EolLen(e);
    if !d.readonly {
      MaximalAround(q.text, e, eo, a, del);
      JoinIs(d, e, eo, q, a, del, r);
      JoinMarks(d, e, eo, q, a, del, r);
      JoinTakes(d, e, eo, q, a, del, r);
    }
  }

  lemma MaximalAround(t: string, e: Eol, o: nat, a: nat, del: nat)
    requires Maximal(t, e, o, a, del)
    ensures StartOfLine(t, e, o) <= a <= o <= a + del <= EndOfLine(t, e, o) <= |t|
  {
  }

  predicate EndsAt(t: string, e: Eol, eo: nat) { eo <= |t| && EndOfLine(t, e, eo) == eo }

  lemma EndOfEnd(t: string, e: Eol, o: nat)
    requires o <= |t|
    ensures EndsAt(t, e, EndOfLine(t, e, o))
    ensures EndOfLine(t, e, o) < |t| ==> EolAt(t, e, EndOfLine(t, e, o))
  {
  }

  /** With an end-of-line taken out, its line starts where it did and goes on
      to the end of the next one. */
  lemma AroundJoint(t: string, e: Eol, eo: nat, t': string)
    requires EolAt(t, e, eo) && t' == Splice(t, eo, EolLen(e), "")
    ensures eo <= |t'| && StartOfLine(t', e, eo) == StartOfLine(t, e, eo)
    ensures EndOfLine(t', e, eo) + EolLen(e) == EndOfLine(t, e, eo + EolLen(e))
  {
    assert t'[..eo] == t[..eo];
    StartByPrefix(t', t, e, eo);
    assert t'[eo..] == t[eo + EolLen(e)..];
    EndBySuffix(t', t, e, eo, eo + EolLen(e));
  }

  /** The end of a line depends on what is after it. */
  lemma EndBySuffix(t: string, t': string, e: Eol, o: nat, o': nat)
    requires o <= |t| && o' <= |t'| && t[o..] == t'[o'..]
    ensures EndOfLine(t, e, o) - o == EndOfLine(t', e, o') - o'
  {
    var r := EndOfLine(t, e, o);
    var r' := o' + (r - o);
    assert |t| - o == |t'| - o';
    assert forall k :: o <= k < |t| ==> t[k] == t[o..][k - o] && t'[o' + (k - o)] == t'[o'..][k - o];
    forall k | o' <= k < r'
      ensures !EolAt(t', e, k)
    {
      assert !EolAt(t, e, o + (k - o'));
    }
    EndOfLineUnique(t', e, o', r');
  }

  /** Every mark behind eo has fewer line ends before it. */
  ghost predicate TakesOne(d: Doc, e: Eol, eo: nat, r: Doc)
    requires Proper(d) && Proper(r) && |r.marks| == |d.marks|
  {
    forall i :: 0 <= i < |d.marks| && d.marks[i] > eo ==>
      Before(r.text, r.marks[i], First(e)) < Before(d.text, d.marks[i], First(e))
  }

  lemma JoinIs(d: Doc, e: Eol, eo: nat, q: Doc, a: nat, del: nat, r: Doc)
    requires Proper(d) && EolAt(d.text, e, eo) && q == EditAt(d.(pt := eo), eo, EolLen(e), "")
    requires OneSpaced(q, e, a, del, r)
    ensures Joined(d, e, eo, a, del + EolLen(e), r)
  {
    hide EolAt, StartOfLine, EndOfLine, Blank, Shifted, IsSpace;
    AroundJoint(d.text, e, eo, q.text);
    SplicedTwice(d.text, eo, EolLen(e), a, del, " ");
    JointBlank(d.text, e, eo, q.text, a, del);
    JointEnds(d.text, eo, EolLen(e), q.text, a, del);
  }

  lemma SplicedTwice(t: string, o: nat, n: nat, a: nat, del: nat, put: string)
    requires a <= o <= a + del && o + n <= |t| && a + del + n <= |t|
    ensures Splice(Splice(t, o, n, ""), a, del, put) == Splice(t, a, del + n, put)
  {
  }

  lemma JointEnds(t: string, eo: nat, n: nat, t': string, a: nat, del: nat)
    requires eo + n <= |t| && t' == Splice(t, eo, n, "") && a <= eo <= a + del <= |t'|
    ensures a > 0 ==> t'[a - 1] == t[a - 1]
    ensures a + del < |t'| ==> t'[a + del] == t[a + del + n]
  {
  }

  lemma JointBlank(t: string, e: Eol, eo: nat, t': string, a: nat, del: nat)
    requires EolAt(t, e, eo) && t' == Splice(t, eo, EolLen(e), "")
    requires a <= eo <= a + del <= |t'| && Blank(t'[a..a + del])
    ensures Blank(t[a..a + del + EolLen(e)])
  {
    var n := EolLen(e);
    forall i | a <= i < a + del + n
      ensures IsSpace(t[i])
    {
      if i < eo {
        assert t'[a..a + del][i - a] == t[i];
      } else if i >= eo + n {
        assert t'[a..a + del][i - n - a] == t[i];
      }
    }
  }

  lemma JoinMarks(d: Doc, e: Eol, eo: nat, q: Doc, a: nat, del: nat, r: Doc)
    requires Proper(d) && EolAt(d.text, e, eo) && q == EditAt(d.(pt := eo), eo, EolLen(e), "")
    requires OneSpaced(q, e, a, del, r)
    ensures MarksJoined(d, a, del + EolLen(e), r) && KeepsMarks(d, r)
  {
    hide Splice, NonSpace, StartOfLine, EndOfLine, KeepsMark;
    var d' := d.(pt := eo);
    EolBlank(d.text, e, eo);
    BlankEditKeeps(d', eo, EolLen(e), "");
    var q' := EditAt(q, a, del, "");
    BlankEditKeeps(q, a, del, "");
    BlankEditKeeps(q', a, 0, " ");
    KeepsMarksTwice(d', q, q');
    KeepsMarksTwice(d', q', r);
  }

  lemma EolBlank(t: string, e: Eol, eo: nat)
    requires EolAt(t, e, eo)
    ensures Blank(t[eo..eo + EolLen(e)])
  {
  }

  lemma JoinTakes(d: Doc, e: Eol, eo: nat, q: Doc, a: nat, del: nat, r: Doc)
    requires Proper(d) && EolAt(d.text, e, eo) && q == EditAt(d.(pt := eo), eo, EolLen(e), "")
    requires a + del <= |q.text| && r == EditAt(EditAt(q, a, del, ""), a, 0, " ")
    ensures TakesOne(d, e, eo, r)
  {
    hide Before, Splice;
    forall i | 0 <= i < |d.marks| && d.marks[i] > eo
      ensures Before(r.text, r.marks[i], First(e)) < Before(d.text, d.marks[i], First(e))
    {
      EditTakes(d.(pt := eo), eo, EolLen(e), "", i, First(e));
      EditTakes(q, a, del, "", i, First(e));
      EditTakes(EditAt(q, a, del, ""), a, 0, " ", i, First(e));
    }
  }

  lemma JoinedKeeps(d: Doc, e: Eol, eo: nat, a: nat, n: nat, r: Doc)
    requires Joined(d, e, eo, a, n, r)
    ensures NonSpace(r.text) == NonSpace(d.text)
  {
    BlankSplice(d.text, a, n, " ");
  }

  /** The start of the line that point is on, or comes to at its end. */
  function LineStart(d: Doc, e: Eol): nat
    requires Proper(d)
  {
    StartOfLine(d.text, e, EndOfLine(d.text, e, d.pt))
  }

  /** What was joined is still on the line, and nothing before it changed. */
  lemma JoinedStart(d: Doc, e: Eol, a: nat, n: nat, r: Doc)
    requires Proper(d) && Joined(d, e, EndOfLine(d.text, e, d.pt), a, n, r) && LineStart(d, e) <= a
    ensures LineStart(r, e) == LineStart(d, e) && r.text[..a] == d.text[..a]
  {
    hide Blank;
    var so := LineStart(d, e);
    assert r.text[..a] == d.text[..a];
    StartSame(d.text, r.text, e, EndOfLine(d.text, e, d.pt), a);
    StartPast(r.text, e, a, so);
  }

  lemma StartPast(t: string, e: Eol, a: nat, so: nat)
    requires a < |t| && t[a] == ' ' && StartOfLine(t, e, a) == so
    ensures StartOfLine(t, e, EndOfLine(t, e, a + 1)) == so
  {
    var eo := EndOfLine(t, e, a + 1);
    forall k | so - EolLen(e) < k <= eo - EolLen(e)
      ensures !EolAt(t, e, k)
    {
    }
    StartOfLineUnique(t, e, eo, so);
  }

  // ---------------------------------------------------------------------
  // The loop
  // ---------------------------------------------------------------------

  /** The joining loop meets a mark inside the very first end-of-line of the
      buffer, which would wrap. */
  predicate MarkWraps(d: Doc, e: Eol, j: nat)
    requires Proper(d) && j < |d.marks|
  {
    e.CRLF? && EndOfLine(d.text, e, d.pt) == 0 < d.marks[j] && 1 in d.marks
  }

  /** What the joining loop keeps. */
  ghost predicate Joining(d: Doc, e: Eol, r: Doc) {
    && Proper(d) && Proper(r) && |r.marks| == |d.marks| && r.readonly == d.readonly
    && NonSpace(r.text) == NonSpace(d.text)
    && LineStart(r, e) == LineStart(d, e)
    && LineStart(d, e) <= |r.text| && r.text[..LineStart(d, e)] == d.text[..LineStart(d, e)]
  }

  /** A cut takes all the blanks around some end-of-line, up to the next one,
      and that end-of-line with them. */
  ghost predicate IsJoint(t: string, e: Eol, s: nat, c: Cut) {
    && c.at + c.del <= |t| && Blank(t[c.at..c.at + c.del])
    && (exists k :: c.at <= k && k + EolLen(e) <= c.at + c.del && EolAt(t, e, k))
    && (c.at == s || (c.at > 0 && !IsSpace(t[c.at - 1])))
    && (EndOfLine(t, e, c.at + c.del) == c.at + c.del || !IsSpace(t[c.at + c.del]))
  }

  ghost predicate Joints(t: string, e: Eol, s: nat, cuts: seq<Cut>) {
    Ordered(t, s, cuts) && forall i :: 0 <= i < |cuts| ==> IsJoint(t, e, s, cuts[i])
  }

  /** The place in the text as it was that point has come to. */
  function Place(o: nat, s: nat, cuts: seq<Cut>): nat {
    if cuts == [] then o else From(s, cuts)
  }

  /** Where the mark m is that was at `to`: still ahead of point, at the same
      distance; or no longer, and then the line that `to` was on ends where the
      one from x on does. */
  predicate MarkAhead(t: string, e: Eol, o: nat, to: nat, x: nat, pt: nat, m: nat) {
    && o <= x <= |t| && to <= |t|
    && if to > x then m == pt + (to - x)
       else m <= pt && EndOfLine(t, e, Max(o, to)) == EndOfLine(t, e, x)
  }

  /** What the loop has made of the text t: each cut is a space now, and point
      is after the last of them. */
  ghost predicate CutsAre(t: string, e: Eol, s: nat, o: nat, cuts: seq<Cut>, q: string, pt: nat) {
    && Joints(t, e, s, cuts) && q == Edited(t, s, cuts, " ") && pt <= |q|
    && if cuts == [] then pt == o
       else s < pt == |Built(t, s, cuts, " ")| && (pt - 1 == s || !IsSpace(q[pt - 2]))
  }

  /** And of the marks and the rest. */
  ghost predicate JoinedBy(d: Doc, e: Eol, cuts: seq<Cut>, r: Doc) {
    Joining(d, e, r) && KeepsMarks(d, r) && CutsAre(d.text, e, LineStart(d, e), d.pt, cuts, r.text, r.pt)
  }

  lemma NoneJoined(d: Doc, e: Eol)
    requires Proper(d)
    ensures JoinedBy(d, e, [], d)
    ensures forall j :: 0 <= j < |d.marks| ==> MarkAhead(d.text, e, d.pt, d.marks[j], d.pt, d.pt, d.marks[j])
  {
    NoCuts(d.text, LineStart(d, e), " ");
  }

  /** The rest of the text, from point on. */
  lemma SameRest(t: string, e: Eol, s: nat, o: nat, cuts: seq<Cut>, q: string, pt: nat)
    requires CutsAre(t, e, s, o, cuts, q, pt) && o <= |t|
    ensures Place(o, s, cuts) <= |t| && q[pt..] == t[Place(o, s, cuts)..]
    ensures |q| - pt == |t| - Place(o, s, cuts)
  {
    hide IsJoint, Built;
    NoCuts(t, s, " ");
  }

  lemma StillJoining(d: Doc, e: Eol, q: Doc, a: nat, n: nat, r: Doc)
    requires Joining(d, e, q) && Joined(q, e, EndOfLine(q.text, e, q.pt), a, n, r)
    ensures Joining(d, e, r)
  {
    hide EolAt, EndOfLine, StartOfLine, Blank, Splice, NonSpace, IsSpace;
    JoinedKeeps(q, e, EndOfLine(q.text, e, q.pt), a, n, r);
    JoinedStart(q, e, a, n, r);
    var so := LineStart(d, e);
    assert r.text[..so] == r.text[..a][..so] == q.text[..a][..so] == q.text[..so];
  }

  lemma AfterSpace(q: string, e: Eol, eo: nat, a: nat, n: nat, r: string)
    requires JoinedText(q, e, eo, a, n, r)
    ensures a + 1 <= |r| && (a == StartOfLine(q, e, eo) || !IsSpace(r[a - 1]))
  {
    hide EolAt, EndOfLine, StartOfLine, Blank, IsSpace;
  }

  /** The end-of-line and the blanks after it, seen in a text t that goes on
      from x as q does from point. */
  ghost predicate JointAt(t: string, e: Eol, x: nat, b: nat, y: nat) {
    && x <= b <= y <= |t| && Blank(t[b..y]) && (EndOfLine(t, e, y) == y || !IsSpace(t[y]))
    && var eo := EndOfLine(t, e, x);
       b <= eo && EolAt(t, e, eo) && eo + EolLen(e) <= y <= EndOfLine(t, e, eo + EolLen(e))
  }

  lemma JointSeen(q: string, e: Eol, o: nat, eo: nat, a: nat, z: nat, t: string, x: nat)
    requires o <= |q| && eo == EndOfLine(q, e, o) && EolAt(q, e, eo) && a <= eo && eo + EolLen(e) <= z <= |q|
    requires Blank(q[a..z]) && z <= EndOfLine(q, e, eo + EolLen(e))
    requires z == EndOfLine(q, e, eo + EolLen(e)) || !IsSpace(q[z])
    requires x <= |t| && t[x..] == q[o..]
    ensures JointAt(t, e, x, x + (Max(a, o) - o), x + (z - o))
  {
    hide EndOfLine, EolAt, Blank, IsSpace, JointAt;
    EolSeen(q, e, o, t, x);
    StopSeen(q, e, z, eo + EolLen(e), t, x + (z - o), x + (eo - o) + EolLen(e));
    BlankSeen(q, a, z - a, o, t, x);
    MakeJoint(t, e, x, x + (eo - o), x + (Max(a, o) - o), x + (z - o));
  }

  lemma MakeJoint(t: string, e: Eol, x: nat, eo: nat, b: nat, y: nat)
    requires x <= b <= eo && eo + EolLen(e) <= y <= |t| && eo == EndOfLine(t, e, x) && EolAt(t, e, eo)
    requires Blank(t[b..y]) && (EndOfLine(t, e, y) == y || !IsSpace(t[y]))
    requires y <= EndOfLine(t, e, eo + EolLen(e))
    ensures JointAt(t, e, x, b, y)
  {
    hide EndOfLine, EolAt, Blank, IsSpace;
  }

  lemma EolSeen(t: string, e: Eol, o: nat, t': string, o': nat)
    requires o <= |t| && o' <= |t'| && t[o..] == t'[o'..] && EolAt(t, e, EndOfLine(t, e, o))
    ensures var eo, eo' := EndOfLine(t, e, o), EndOfLine(t', e, o');
            eo - o == eo' - o' && EolAt(t', e, eo') && t[eo + EolLen(e)..] == t'[eo' + EolLen(e)..]
  {
    var eo := EndOfLine(t, e, o);
    var eo' := o' + (eo - o);
    RestAt(t, o, t', o');
    EndBySuffix(t, t', e, o, o');
    assert t[eo + EolLen(e)..] == t[o..][eo + EolLen(e) - o..];
    assert t'[eo' + EolLen(e)..] == t'[o'..][eo + EolLen(e) - o..];
  }

  lemma StopSeen(t: string, e: Eol, z: nat, o: nat, t': string, z': nat, o': nat)
    requires o <= |t| && o <= z <= EndOfLine(t, e, o) && (z == EndOfLine(t, e, o) || !IsSpace(t[z]))
    requires o' <= |t'| && t[o..] == t'[o'..] && z' == o' + (z - o)
    ensures z' <= EndOfLine(t', e, o') && (EndOfLine(t', e, z') == z' || !IsSpace(t'[z']))
  {
    hide IsSpace;
    RestAt(t, o, t', o');
    EndBySuffix(t, t', e, o, o');
    assert EndOfLine(t', e, o') == z' ==> EndOfLine(t', e, z') == z';
  }

  lemma RestAt(t: string, o: nat, t': string, o': nat)
    requires o <= |t| && o' <= |t'| && t[o..] == t'[o'..]
    ensures |t| - o == |t'| - o' && forall k :: o <= k < |t| ==> t'[o' + (k - o)] == t[k]
  {
    assert forall k :: o <= k < |t| ==> t[k] == t[o..][k - o] && t'[o' + (k - o)] == t'[o'..][k - o];
  }

  lemma BlankSeen(t: string, a: nat, n: nat, o: nat, t': string, o': nat)
    requires a + n <= |t| && Blank(t[a..a + n]) && o <= a + n && o' <= |t'| && t[o..] == t'[o'..]
    ensures o' + (a + n - o) <= |t'| && Blank(t'[o' + (Max(a, o) - o)..o' + (a + n - o)])
  {
    RestAt(t, o, t', o');
    var b, y := o' + (Max(a, o) - o), o' + (a + n - o);
    forall i | b <= i < y
      ensures IsSpace(t'[i])
    {
      var k := Max(a, o) + (i - b);
      assert t'[i] == t[k] == t[a..a + n][k - a];
    }
  }

  /** The cut that starts at b, which no blank comes before. */
  lemma NewJoint(t: string, e: Eol, s: nat, x: nat, b: nat, y: nat)
    requires JointAt(t, e, x, b, y) && (b == s || (b > 0 && !IsSpace(t[b - 1])))
    ensures IsJoint(t, e, s, Cut(b, y - b))
  {
    hide EndOfLine, EolAt, Blank, IsSpace;
  }

  /** The last cut goes on over blanks that follow it. */
  lemma LongerJoint(t: string, e: Eol, s: nat, c: Cut, x: nat, y: nat)
    requires IsJoint(t, e, s, c) && x == c.at + c.del && JointAt(t, e, x, x, y)
    ensures IsJoint(t, e, s, Cut(c.at, y - c.at))
  {
    hide EndOfLine, EolAt, IsSpace;
    forall i | c.at <= i < y
      ensures IsSpace(t[i])
    {
      if i < x {
        assert t[c.at..x][i - c.at] == t[i];
      } else {
        assert t[x..y][i - x] == t[i];
      }
    }
  }

  lemma JointsMore(t: string, e: Eol, s: nat, cuts: seq<Cut>, c: Cut)
    requires Joints(t, e, s, cuts) && Ordered(t, s, cuts + [c]) && IsJoint(t, e, s, c)
    ensures Joints(t, e, s, cuts + [c])
  {
    hide IsJoint, Ordered;
  }

  lemma JointsFront(t: string, e: Eol, s: nat, cuts: seq<Cut>)
    requires Joints(t, e, s, cuts) && cuts != []
    ensures Joints(t, e, s, cuts[..|cuts| - 1]) && IsJoint(t, e, s, cuts[|cuts| - 1])
  {
    hide IsJoint;
  }

  /** What is built ends in the space put in last. */
  lemma EndsInSpace(t: string, s: nat, cuts: seq<Cut>)
    requires Ordered(t, s, cuts) && cuts != []
    ensures var b := Built(t, s, cuts, " "); b[|b| - 1] == ' '
  {
  }

  /** The three kinds of round. */
  lemma FirstCut(t: string, e: Eol, s: nat, o: nat, a: nat, n: nat, t': string)
    requires s <= a <= a + n <= |t| && t' == Splice(t, a, n, " ")
    requires JointAt(t, e, o, Max(a, o), a + n) && Blank(t[a..a + n]) && o <= a + n
    requires a == s || !IsSpace(t[a - 1])
    ensures Joints(t, e, s, [Cut(a, n)]) && t' == Edited(t, s, [Cut(a, n)], " ")
    ensures |Built(t, s, [Cut(a, n)], " ")| == a + 1
  {
    hide EndOfLine, EolAt, Blank, IsSpace, Splice;
    NoCuts(t, s, " ");
    CutMore(t, s, [], " ", a, n);
    EditedMore(t, s, [], " ", a, n);
    assert [] + [Cut(a, n)] == [Cut(a, n)];
  }

  lemma FurtherCut(t: string, e: Eol, s: nat, cuts: seq<Cut>, o: nat, a: nat, n: nat, t': string)
    requires cuts != [] && Joints(t, e, s, cuts) && o == |Built(t, s, cuts, " ")| && o <= a
    requires var x, q := From(s, cuts), Edited(t, s, cuts, " ");
             && a + n <= |q| && t' == Splice(q, a, n, " ")
             && JointAt(t, e, x, x + (a - o), x + (a + n - o))
             && a > 0 && !IsSpace(q[a - 1])
    ensures var c := Cut(From(s, cuts) + (a - o), n);
            && Joints(t, e, s, cuts + [c]) && t' == Edited(t, s, cuts + [c], " ")
            && |Built(t, s, cuts + [c], " ")| == a + 1 && From(s, cuts + [c]) == From(s, cuts) + (a + n - o)
  {
    hide EndOfLine, EolAt, Blank, Splice, Joints, Ordered;
    var x, at := From(s, cuts), From(s, cuts) + (a - o);
    JointsOrdered(t, e, s, cuts);
    EndsInSpace(t, s, cuts);
    CutMore(t, s, cuts, " ", at, n);
    EditedMore(t, s, cuts, " ", at, n);
    assert a > o && t[at - 1] == Edited(t, s, cuts, " ")[a - 1];
    NewJoint(t, e, s, x, at, at + n);
    JointsMore(t, e, s, cuts, Cut(at, n));
  }

  lemma JointsOrdered(t: string, e: Eol, s: nat, cuts: seq<Cut>)
    requires Joints(t, e, s, cuts)
    ensures Ordered(t, s, cuts) && s <= From(s, cuts) <= |t|
  {
  }

  lemma LongerCut(t: string, e: Eol, s: nat, cuts: seq<Cut>, o: nat, n: nat, t': string)
    requires cuts != [] && Joints(t, e, s, cuts) && o == |Built(t, s, cuts, " ")| && n > 0
    requires var x, q := From(s, cuts), Edited(t, s, cuts, " ");
             o - 1 + n <= |q| && t' == Splice(q, o - 1, n, " ") && JointAt(t, e, x, x, x + (n - 1))
    ensures var c := cuts[|cuts| - 1];
            var cuts' := cuts[..|cuts| - 1] + [Cut(c.at, c.del + (n - 1))];
            && Joints(t, e, s, cuts') && t' == Edited(t, s, cuts', " ")
            && |Built(t, s, cuts', " ")| == o && From(s, cuts') == From(s, cuts) + (n - 1)
  {
    hide EndOfLine, EolAt, Blank, Splice, IsSpace, IsJoint, Ordered;
    var x, c := From(s, cuts), cuts[|cuts| - 1];
    JointsFront(t, e, s, cuts);
    CutLonger(t, s, cuts, " ", n - 1);
    LongerJoint(t, e, s, c, x, x + (n - 1));
    JointsMore(t, e, s, cuts[..|cuts| - 1], Cut(c.at, c.del + (n - 1)));
  }

  /** One more round, which starts looking at pt: a cut more, or the last one
      longer. */
  lemma CutsGoOn(t: string, e: Eol, s: nat, o: nat, cuts: seq<Cut>, q: string, pt: nat, a: nat, n: nat, r: string)
    returns (cuts': seq<Cut>)
    requires o <= |t| && CutsAre(t, e, s, o, cuts, q, pt)
    requires var eo := EndOfLine(q, e, pt); eo < |q| && JoinedText(q, e, eo, a, n, r) && StartOfLine(q, e, eo) == s
    ensures CutsAre(t, e, s, o, cuts', r, a + 1) && RoundIs(t, e, Place(o, s, cuts), pt, a, n, Place(o, s, cuts'))
  {
    hide EolAt, EndOfLine, StartOfLine, Splice, Blank, IsSpace, Joints, Built, Edited, Ordered, JointAt;
    var x, eo := Place(o, s, cuts), EndOfLine(q, e, pt);
    SameRest(t, e, s, o, cuts, q, pt);
    JointOf(q, e, pt, a, n, r, t, x);
    AfterSpace(q, e, eo, a, n, r);
    if cuts == [] {
      NoCutsYet(t, s, q);
      FirstCut(t, e, s, pt, a, n, r);
      cuts' := [Cut(a, n)];
    } else if a >= pt {
      FurtherCut(t, e, s, cuts, pt, a, n, r);
      cuts' := cuts + [Cut(x + (a - pt), n)];
    } else {
      AtSpace(q, e, eo, a, n, r, pt);
      LongerCut(t, e, s, cuts, pt, n, r);
      cuts' := cuts[..|cuts| - 1] + [Cut(cuts[|cuts| - 1].at, cuts[|cuts| - 1].del + (n - 1))];
    }
  }

  lemma JointOf(q: string, e: Eol, pt: nat, a: nat, n: nat, r: string, t: string, x: nat)
    requires pt <= |q| && EndOfLine(q, e, pt) < |q| && JoinedText(q, e, EndOfLine(q, e, pt), a, n, r)
    requires x <= |t| && t[x..] == q[pt..]
    ensures a <= EndOfLine(q, e, pt) < a + n && JointAt(t, e, x, x + (Max(a, pt) - pt), x + (a + n - pt))
  {
    hide EolAt, EndOfLine, StartOfLine, Splice, Blank, IsSpace, JointAt;
    EndOfEnd(q, e, pt);
    JointSeen(q, e, pt, EndOfLine(q, e, pt), a, a + n, t, x);
  }

  lemma NoCutsYet(t: string, s: nat, q: string)
    requires Ordered(t, s, []) && q == Edited(t, s, [], " ")
    ensures q == t
  {
    NoCuts(t, s, " ");
  }

  /** The place that point has come to moves on past the blanks. */
  ghost predicate RoundIs(t: string, e: Eol, x: nat, pt: nat, a: nat, n: nat, x': nat) {
    a + n > pt && x' == x + (a + n - pt) && JointAt(t, e, x, x + (Max(a, pt) - pt), x')
  }

  /** Blanks before point are the one space that was put there. */
  lemma AtSpace(q: string, e: Eol, eo: nat, a: nat, n: nat, r: string, pt: nat)
    requires JoinedText(q, e, eo, a, n, r) && a < pt <= a + n
    requires var s := StartOfLine(q, e, eo); s < pt && (pt - 1 == s || !IsSpace(q[pt - 2]))
    ensures a == pt - 1
  {
    hide EolAt, EndOfLine, StartOfLine, IsSpace, Splice;
    assert forall i :: a <= i < a + n ==> q[a..a + n][i - a] == q[i];
  }

  /** The mark stays ahead, or the line it was on has been reached. */
  lemma MarkGoesOn(t: string, e: Eol, o: nat, to: nat, x: nat, pt: nat, m: nat, eo: nat, a: nat, n: nat, x': nat,
      m': nat)
    requires MarkAhead(t, e, o, to, x, pt, m) && pt <= eo < m && a <= eo && eo < a + n
    requires eo - pt == EndOfLine(t, e, x) - x
    requires RoundIs(t, e, x, pt, a, n, x')
    requires m' == if m <= a then m else if m <= a + n then a else m - n + 1
    ensures MarkAhead(t, e, o, to, x', a + 1, m')
  {
    hide Blank, IsSpace;
    if to <= x' {
      SameEnd(t, e, x, to, x');
    }
  }

  lemma SameEnd(t: string, e: Eol, x: nat, to: nat, y: nat)
    requires x <= |t| && EndOfLine(t, e, x) < to <= y <= |t| && EolAt(t, e, EndOfLine(t, e, x))
    requires var eo := EndOfLine(t, e, x); eo + EolLen(e) <= y <= EndOfLine(t, e, eo + EolLen(e))
    ensures EndOfLine(t, e, to) == EndOfLine(t, e, y)
  {
    var eo := EndOfLine(t, e, x);
    forall k | to <= k < EndOfLine(t, e, y)
      ensures !EolAt(t, e, k)
    {
      assert k < eo + EolLen(e) ==> !EolAt(t, e, k);
    }
    EndOfLineUnique(t, e, to, EndOfLine(t, e, y));
  }

  /** At the end of the loop. */
  lemma MarkReached(t: string, e: Eol, o: nat, to: nat, x: nat, q: string, pt: nat, m: nat)
    requires MarkAhead(t, e, o, to, x, pt, m) && pt <= |q| && q[pt..] == t[x..] && EndOfLine(q, e, pt) >= m
    ensures q[EndOfLine(q, e, pt)..] == t[EndOfLine(t, e, Max(o, to))..]
  {
    hide EolAt;
    EndBySuffix(q, t, e, pt, x);
    if to > x {
      EndFrom(t, e, x, to);
    }
    var k := EndOfLine(q, e, pt) - pt;
    assert q[pt..][k..] == q[pt + k..] && t[x..][k..] == t[x + k..];
  }

  lemma EndFrom(t: string, e: Eol, x: nat, o: nat)
    requires x <= |t| && x <= o <= EndOfLine(t, e, x)
    ensures EndOfLine(t, e, o) == EndOfLine(t, e, x)
  {
    EndOfLineUnique(t, e, o, EndOfLine(t, e, x));
  }

  /** The loop as it goes. */
  ghost predicate JoinState(d: Doc, e: Eol, j: nat, cuts: seq<Cut>, r: Doc)
    requires Proper(d) && j < |d.marks|
  {
    && JoinedBy(d, e, cuts, r) && (r == d || (!d.readonly && r.pt > 0))
    && MarkAhead(d.text, e, d.pt, d.marks[j], Place(d.pt, LineStart(d, e), cuts), r.pt, r.marks[j])
  }

  lemma JoinStarts(d: Doc, e: Eol, j: nat)
    requires Proper(d) && j < |d.marks|
    ensures JoinState(d, e, j, [], d)
  {
    hide EolAt, EndOfLine, StartOfLine, NonSpace, MarkAhead, JoinedBy;
    NoneJoined(d, e);
  }

  lemma JoinGoesOn(d: Doc, e: Eol, j: nat, cuts: seq<Cut>, q: Doc, a: nat, n: nat, r: Doc) returns (cuts': seq<Cut>)
    requires Proper(d) && j < |d.marks| && !d.readonly && JoinState(d, e, j, cuts, q)
    requires EndOfLine(q.text, e, q.pt) < q.marks[j] && Joined(q, e, EndOfLine(q.text, e, q.pt), a, n, r)
    requires KeepsMarks(q, r) && MarksJoined(q, a, n, r)
    ensures JoinState(d, e, j, cuts', r)
  {
    hide EolAt, EndOfLine, StartOfLine, NonSpace, MarkAhead, CutsAre, KeepsMarks, JoinedText, RoundIs;
    var s, eo := LineStart(d, e), EndOfLine(q.text, e, q.pt);
    KeepsMarksTwice(d, q, r);
    StillJoining(d, e, q, a, n, r);
    SameRest(d.text, e, s, d.pt, cuts, q.text, q.pt);
    EndBySuffix(q.text, d.text, e, q.pt, Place(d.pt, s, cuts));
    JointOf(q.text, e, q.pt, a, n, r.text, d.text, Place(d.pt, s, cuts));
    cuts' := CutsGoOn(d.text, e, s, d.pt, cuts, q.text, q.pt, a, n, r.text);
    MarkGoesOn(d.text, e, d.pt, d.marks[j], Place(d.pt, s, cuts), q.pt, q.marks[j], eo, a, n, Place(d.pt, s, cuts'),
               r.marks[j]);
  }

  /** The joining loop: up to the j-th mark, every end-of-line on the way and
      the blanks about it become a space; what was to come after is still
      there. */
  method JoinLines(d: Doc, e: Eol, j: nat) returns (r: Doc, ghost cuts: seq<Cut>)
    requires Proper(d) && j < |d.marks|
    requires if d.readonly then EndOfLine(d.text, e, d.pt) >= d.marks[j] else !MarkWraps(d, e, j)
    ensures JoinedBy(d, e, cuts, r) && (d.readonly ==> r == d)
    ensures EndOfLine(r.text, e, r.pt) >= r.marks[j]
    ensures r.text[EndOfLine(r.text, e, r.pt)..] == d.text[EndOfLine(d.text, e, Max(d.pt, d.marks[j]))..]
  {
    hide EolAt, EndOfLine, StartOfLine, NonSpace, Before, MarkWraps, CutsAre, KeepsMarks, MarkAhead, JoinedText;
    r, cuts := d, [];
    JoinStarts(d, e, j);
    while EndOfLine(r.text, e, r.pt) < r.marks[j]
      invariant JoinState(d, e, j, cuts, r)
      decreases Before(r.text, r.marks[j], First(e))
    {
      ghost var was := r;
      var a, n;
      NoneWraps(d, e, j, r);
      r, a, n := JoinLine(r, e);
      cuts := JoinGoesOn(d, e, j, cuts, was, a, n, r);
    }
    SameRest(d.text, e, LineStart(d, e), d.pt, cuts, r.text, r.pt);
    MarkReached(d.text, e, d.pt, d.marks[j], Place(d.pt, LineStart(d, e), cuts), r.text, r.pt, r.marks[j]);
  }

  lemma NoneWraps(d: Doc, e: Eol, j: nat, r: Doc)
    requires Proper(d) && j < |d.marks| && !MarkWraps(d, e, j) && Proper(r) && (r == d || r.pt > 0)
    requires |r.marks| == |d.marks| && EndOfLine(r.text, e, r.pt) < r.marks[j]
    ensures NoWrap(r.marks, EndOfLine(r.text, e, r.pt), 0, EolLen(e))
  {
    hide EolAt;
  }
}
