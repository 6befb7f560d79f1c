/** Breaking the lines of a paragraph, and filling it, over the plain text of a
    buffer and the offsets of its markers (src/funcs.c:779-815). */
module Paragraphs {
  import opened Basics
  import opened Eol
  import opened Loops
  import opened Spacing
  import opened Fill
  import opened Cuts
  import opened Joining
  import Columns

  // ---------------------------------------------------------------------
  // Breaks
  // ---------------------------------------------------------------------

  /** No break is called for at the end of the line. */
  predicate Narrow(t: string, e: Eol, tabs: nat, fillcol: nat, o: nat)
    requires o <= |t| && tabs >= 1
  {
    GoalAt(t, e, tabs, o) <= fillcol + 1 || BreakPoint(t, e, tabs, fillcol, o).None?
  }

  /** The del bytes at a are a whole stretch of blanks. */
  predicate IsStretch(line: string, a: nat, del: nat) {
    && 0 < del && a + del <= |line| && Blank(line[a..a + del])
    && (a == 0 || !IsSpace(line[a - 1])) && (a + del == |line| || !IsSpace(line[a + del]))
  }

  /** They are where a line is broken that is too wide: what comes before them
      is no wider than the fill column or has no blank, and would be wider with
      the next word, unless that is followed by a tab. */
  ghost predicate IsBreak(line: string, tabs: nat, fillcol: nat, a: nat, del: nat)
    requires tabs >= 1
  {
    && IsStretch(line, a, del) && Columns.Goalc(line, tabs) > fillcol + 1
    && (Columns.Goalc(line[..a], tabs) <= fillcol || NoBlank(line, 0, a))
    && NextWordIsLate(line, tabs, fillcol, a + del)
  }

  /** The word at i goes beyond the fill column, or a tab follows it. */
  ghost predicate NextWordIsLate(line: string, tabs: nat, fillcol: nat, i: nat)
    requires tabs >= 1
  {
    forall w: nat :: WordEnd(line, i, w) ==>
      Columns.Goalc(line[..w], tabs) > fillcol || (w < |line| && line[w] == '\t')
  }

  /** The word that starts at i ends at w. */
  predicate WordEnd(line: string, i: nat, w: nat) {
    i < w <= |line| && NoBlank(line, i, w) && (w == |line| || IsSpace(line[w]))
  }

  /** The line from s to m of t is broken at these places, from left to right. */
  ghost predicate AreBreaks(t: string, tabs: nat, fillcol: nat, s: nat, m: nat, cuts: seq<Cut>)
    requires tabs >= 1
    decreases |cuts|
  {
    && Ordered(t, s, cuts) && From(s, cuts) <= m <= |t|
    && (cuts == [] ||
        var front, c := cuts[..|cuts| - 1], cuts[|cuts| - 1];
        && AreBreaks(t, tabs, fillcol, s, m, front) && From(s, front) <= c.at
        && IsBreak(t[From(s, front)..m], tabs, fillcol, c.at - From(s, front), c.del))
  }

  /** The choice fill_break_line makes is such a place. */
  lemma ChoiceIsBreak(t: string, e: Eol, tabs: nat, fillcol: nat, o: nat, k: nat, a: nat, del: nat)
    requires tabs >= 1 && AroundBlank(t, e, o, k, a, del) && Blank(t[a..a + del]) && EndsAt(t, e, o)
    requires GoalAt(t, e, tabs, o) > fillcol + 1 && BreakPoint(t, e, tabs, fillcol, o) == Some(k)
    ensures var so := StartOfLine(t, e, o);
            so <= a && a + del <= o && IsBreak(t[so..o], tabs, fillcol, a - so, del)
  {
    hide GoalAt, EolAt, IsSpace, EndOfLine, StartOfLine, Blank, BreakPoint, AroundBlank, LineFits, NextWordIsLate,
         IsStretch, NoBlank;
    BreakOnLine(t, e, tabs, fillcol, o);
    ChoiceInLine(t, e, o, k, a, del);
    FirstPartFits(t, e, tabs, fillcol, o, k, a, del);
    LineFitsInLine(t, e, tabs, fillcol, o, a);
    NextWordInLine(t, e, tabs, fillcol, o, k, a + del);
    var so := StartOfLine(t, e, o);
    GoalInLine(t, e, tabs, o, o);
    assert t[so..o][..o - so] == t[so..o];
  }

  lemma NextWordInLine(t: string, e: Eol, tabs: nat, fillcol: nat, o: nat, k: nat, z: nat)
    requires tabs >= 1 && EndsAt(t, e, o) && BreakPoint(t, e, tabs, fillcol, o) == Some(k)
    requires GoalAt(t, e, tabs, o) > fillcol + 1 && StartOfLine(t, e, o) <= k < z <= o
    ensures var so := StartOfLine(t, e, o); NextWordIsLate(t[so..o], tabs, fillcol, z - so)
  {
    hide GoalAt, EolAt, IsSpace, EndOfLine, StartOfLine, BreakPoint;
    var so := StartOfLine(t, e, o);
    forall w: nat | WordEnd(t[so..o], z - so, w)
      ensures Columns.Goalc(t[so..o][..w], tabs) > fillcol || (w < o - so && t[so..o][w] == '\t')
    {
      WordInLine(t, so, o, z - so, w);
      WordIsLate(t, e, tabs, fillcol, o, k, z, so + w);
      GoalInLine(t, e, tabs, o, so + w);
    }
  }

  lemma ChoiceInLine(t: string, e: Eol, o: nat, k: nat, a: nat, del: nat)
    requires AroundBlank(t, e, o, k, a, del) && Blank(t[a..a + del]) && EndsAt(t, e, o) && k < o
    ensures var so := StartOfLine(t, e, o);
            so <= a <= k < a + del <= o && IsStretch(t[so..o], a - so, del)
  {
    hide EolAt, IsSpace, EndOfLine, StartOfLine, Blank, IsStretch;
    BreakInside(t, e, o, k, a, del);
    EndOfOwn(t, e, o, k + 1);
    StretchSeen(t, StartOfLine(t, e, o), o, a, del);
  }

  lemma StretchSeen(t: string, so: nat, o: nat, a: nat, del: nat)
    requires so <= a && 0 < del && a + del <= o <= |t| && Blank(t[a..a + del])
    requires (a == so || !IsSpace(t[a - 1])) && (a + del == o || !IsSpace(t[a + del]))
    ensures IsStretch(t[so..o], a - so, del)
  {
    hide IsSpace;
    var line, b := t[so..o], a - so;
    assert forall i :: 0 <= i < |line| ==> line[i] == t[so + i];
    var here, there := line[b..b + del], t[a..a + del];
    assert forall i :: 0 <= i < del ==> here[i] == there[i];
  }

  /** A line that ends at o ends there from each of its places. */
  lemma EndOfOwn(t: string, e: Eol, o: nat, x: nat)
    requires EndsAt(t, e, o) && StartOfLine(t, e, o) <= x <= o
    ensures EndOfLine(t, e, x) == o
  {
    EndOfLineUnique(t, e, x, o);
  }

  /** Columns, widths and words, seen along the line itself. */
  lemma GoalInLine(t: string, e: Eol, tabs: nat, o: nat, x: nat)
    requires tabs >= 1 && o <= |t| && StartOfLine(t, e, o) <= x <= o
    ensures StartOfLine(t, e, x) == StartOfLine(t, e, o)
    ensures var so := StartOfLine(t, e, o); GoalAt(t, e, tabs, x) == Columns.Goalc(t[so..o][..x - so], tabs)
  {
    var so := StartOfLine(t, e, o);
    StartSame(t, t, e, o, x);
    assert t[so..o][..x - so] == t[so..x];
  }

  lemma LineFitsInLine(t: string, e: Eol, tabs: nat, fillcol: nat, o: nat, a: nat)
    requires tabs >= 1 && o <= |t| && StartOfLine(t, e, o) <= a <= o && LineFits(t, e, tabs, fillcol, a)
    ensures var so := StartOfLine(t, e, o);
            Columns.Goalc(t[so..o][..a - so], tabs) <= fillcol || NoBlank(t[so..o], 0, a - so)
  {
    hide GoalAt, EolAt, StartOfLine, IsSpace;
    GoalInLine(t, e, tabs, o, a);
    var so := StartOfLine(t, e, o);
    assert forall i :: so <= i < a ==> t[so..o][i - so] == t[i];
    assert forall i :: 0 <= i < a - so ==> t[so..o][i] == t[so + i];
  }

  lemma WordInLine(t: string, so: nat, o: nat, i: nat, w: nat)
    requires so <= o <= |t| && WordEnd(t[so..o], i, w)
    ensures i < w && so + w <= o && NoBlank(t, so + i, so + w) && (so + w == o || IsSpace(t[so + w]))
    ensures w < o - so ==> t[so..o][w] == t[so + w]
  {
    hide IsSpace;
    assert forall x :: so <= x < o ==> t[so..o][x - so] == t[x];
  }

  /** The word after the blanks goes beyond the fill column. */
  lemma WordIsLate(t: string, e: Eol, tabs: nat, fillcol: nat, o: nat, k: nat, z: nat, w: nat)
    requires tabs >= 1 && EndsAt(t, e, o) && BreakPoint(t, e, tabs, fillcol, o) == Some(k)
    requires GoalAt(t, e, tabs, o) > fillcol + 1 && k < z < w <= o && NoBlank(t, z, w) && (w == o || IsSpace(t[w]))
    ensures GoalAt(t, e, tabs, w) > fillcol || (w < o && t[w] == '\t')
  {
    hide GoalAt, EolAt, StartOfLine, EndOfLine, IsSpace;
    var so, p := StartOfLine(t, e, o), FillPoint(t, e, tabs, fillcol, o);
    EndOfOwn(t, e, o, so);
    if w <= p {
      assert k < p ==> NoBlank(t, k + 1, p);
      assert w == p < o;
      ColumnsAround(t, e, tabs, fillcol, o, p);
    }
  }

  // ---------------------------------------------------------------------
  // The loop
  // ---------------------------------------------------------------------

  /** What the breaking loop keeps: point ends a line, and all lines from s to
      it fit. */
  ghost predicate Breaking(d: Doc, e: Eol, tabs: nat, fillcol: nat, s: nat, r: Doc)
    requires tabs >= 1
  {
    && Proper(d) && Proper(r) && |r.marks| == |d.marks| && r.readonly == d.readonly
    && NonSpace(r.text) == NonSpace(d.text)
    && EndsAt(r.text, e, r.pt) && s <= StartOfLine(r.text, e, r.pt)
    && s <= |d.text| && r.text[..s] == d.text[..s]
    && LinesFit(r.text, e, tabs, fillcol, s, r.pt)
  }

  /** The line ended in blanks, and they gave way too. */
  predicate AtBlankEnd(s: nat, m: nat, cuts: seq<Cut>) { cuts != [] && From(s, cuts) == m }

  /** Where point is on the line that is still to be broken: at its end, which
      the rest of the text before m comes to, or before the last end-of-line
      put in. */
  ghost predicate PointAt(t: string, e: Eol, s: nat, m: nat, cuts: seq<Cut>, q: string, pt: nat)
    requires Ordered(t, s, cuts)
  {
    var b := |Built(t, s, cuts, EolStr(e))|;
    pt <= |q| &&
    if AtBlankEnd(s, m, cuts) then pt + EolLen(e) == b
    else pt - b == m - From(s, cuts) && StartOfLine(q, e, pt) == b
  }

  /** The loop as it goes: each cut is an end-of-line now. */
  ghost predicate BrokenBy(d: Doc, e: Eol, tabs: nat, fillcol: nat, s: nat, cuts: seq<Cut>, r: Doc)
    requires tabs >= 1
    ensures BrokenBy(d, e, tabs, fillcol, s, cuts, r) ==> Proper(d) && Proper(r) && r.readonly == d.readonly
  {
    && Breaking(d, e, tabs, fillcol, s, r) && KeepsMarks(d, r)
    && AreBreaks(d.text, tabs, fillcol, s, d.pt, cuts) && r.text == Edited(d.text, s, cuts, EolStr(e))
    && PointAt(d.text, e, s, d.pt, cuts, r.text, r.pt)
    && (AtBlankEnd(s, d.pt, cuts) ==> LineFits(r.text, e, tabs, fillcol, r.pt))
  }

  /** The breaking loop, from the end of a line on. Each break leaves point
      nearer to the start of its line. */
  method BreakLines(d: Doc, e: Eol, tabs: nat, fillcol: nat) returns (r: Doc, ghost cuts: seq<Cut>)
    requires Proper(d) && tabs >= 1 && EndsAt(d.text, e, d.pt)
    requires d.readonly ==> Narrow(d.text, e, tabs, fillcol, d.pt)
    ensures BrokenBy(d, e, tabs, fillcol, StartOfLine(d.text, e, d.pt), cuts, r) && (d.readonly ==> r == d)
    ensures Narrow(r.text, e, tabs, fillcol, r.pt)
  {
    hide EolAt, EndOfLine, StartOfLine, EndsAt, GoalAt, BreakPoint, LinesFit, NonSpace, Broken, AroundBlank, BrokenBy;
    ghost var s := StartOfLine(d.text, e, d.pt);
    r, cuts := d, [];
    NoneBroken(d, e, tabs, fillcol);
    var made := true;
    while made && GoalAt(r.text, e, tabs, r.pt) > fillcol + 1
      invariant BrokenBy(d, e, tabs, fillcol, s, cuts, r) && Proper(r)
      invariant r.readonly == d.readonly && (d.readonly ==> r == d)
      invariant made || Narrow(r.text, e, tabs, fillcol, r.pt)
      decreases made, r.pt - StartOfLine(r.text, e, r.pt)
    {
      ghost var was := r;
      var a, del;
      made, r, a, del := FillBreakLine(r, e, tabs, fillcol);
      if made {
        cuts := BreakGoesOn(d, e, tabs, fillcol, s, cuts, was, a, del, r);
      }
    }
  }

  lemma NoneBroken(d: Doc, e: Eol, tabs: nat, fillcol: nat)
    requires Proper(d) && tabs >= 1 && EndsAt(d.text, e, d.pt)
    ensures BrokenBy(d, e, tabs, fillcol, StartOfLine(d.text, e, d.pt), [], d)
  {
    hide LineFits, LinesFit, NonSpace, EolAt, StartOfLine, EndOfLine, EndsAt, IsBreak;
    NoLinesYet(d.text, e, tabs, fillcol, d.pt);
    NoCuts(d.text, StartOfLine(d.text, e, d.pt), EolStr(e));
  }

  lemma BreakGoesOn(d: Doc, e: Eol, tabs: nat, fillcol: nat, s: nat, cuts: seq<Cut>, q: Doc, a: nat, del: nat, r: Doc)
    returns (cuts': seq<Cut>)
    requires tabs >= 1 && BrokenBy(d, e, tabs, fillcol, s, cuts, q) && Proper(r) && NonSpace(r.text) == NonSpace(q.text)
    requires GoalAt(q.text, e, tabs, q.pt) > fillcol + 1 && BreakPoint(q.text, e, tabs, fillcol, q.pt).Some?
    requires Broken(q, e, a, del, r)
    requires AroundBlank(q.text, e, q.pt, BreakPoint(q.text, e, tabs, fillcol, q.pt).value, a, del)
    ensures BrokenBy(d, e, tabs, fillcol, s, cuts', r)
    ensures r.pt - StartOfLine(r.text, e, r.pt) < q.pt - StartOfLine(q.text, e, q.pt)
  {
    hide EolAt, EndOfLine, StartOfLine, BreakPoint, LinesFit, NonSpace, Broken, AroundBlank, GoalAt, LineFits,
         AreBreaks, KeepsMarks, PointAt, AtBlankEnd;
    var k := BreakPoint(q.text, e, tabs, fillcol, q.pt).value;
    BreakingGoesOn(d, e, tabs, fillcol, s, q, a, del, r);
    BreakMarks(q, e, a, del, r);
    KeepsMarksTwice(d, q, r);
    cuts' := BreakCut(d.text, e, tabs, fillcol, s, d.pt, cuts, q, a, del, r);
  }
  lemma NoLinesYet(t: string, e: Eol, tabs: nat, fillcol: nat, o: nat)
    requires tabs >= 1 && EndsAt(t, e, o)
    ensures LinesFit(t, e, tabs, fillcol, StartOfLine(t, e, o), o)
  {
    hide LineFits;
  }

  lemma BreakingGoesOn(d: Doc, e: Eol, tabs: nat, fillcol: nat, s: nat, q: Doc, a: nat, del: nat, r: Doc)
    requires tabs >= 1 && Breaking(d, e, tabs, fillcol, s, q) && Proper(r) && NonSpace(r.text) == NonSpace(q.text)
    requires BreakPoint(q.text, e, tabs, fillcol, q.pt).Some? && Broken(q, e, a, del, r)
    requires AroundBlank(q.text, e, q.pt, BreakPoint(q.text, e, tabs, fillcol, q.pt).value, a, del)
    ensures Breaking(d, e, tabs, fillcol, s, r)
    ensures r.pt - StartOfLine(r.text, e, r.pt) < q.pt - StartOfLine(q.text, e, q.pt)
  {
    hide EolAt, EndOfLine, StartOfLine, BreakPoint, LinesFit, NonSpace, Broken, AroundBlank;
    var k := BreakPoint(q.text, e, tabs, fillcol, q.pt).value;
    BreakOnLine(q.text, e, tabs, fillcol, q.pt);
    BreakInside(q.text, e, q.pt, k, a, del);
    BreakProgress(q, e, r, a, del);
    BreakKeepsFit(q, e, tabs, fillcol, s, k, r, a, del);
    BrokenShape(q, e, a, del, r);
    assert r.text[..s] == r.text[..a][..s] == q.text[..a][..s] == q.text[..s];
    LaterStart(q.text, r.text, e, q.pt, a, r.pt);
  }

  lemma BrokenShape(d: Doc, e: Eol, a: nat, del: nat, r: Doc)
    requires Broken(d, e, a, del, r) && a + del <= d.pt
    ensures |r.marks| == |d.marks| && r.readonly == d.readonly && a <= r.pt && a <= |r.text|
  {
    hide Blank;
  }

  /** A line of r that ends at or after a starts no earlier than the line of q
      that a is on. */
  lemma LaterStart(t: string, t': string, e: Eol, o: nat, a: nat, o': nat)
    requires o <= |t| && StartOfLine(t, e, o) <= a <= o && a <= o' <= |t'| && a <= |t'| && t'[..a] == t[..a]
    ensures StartOfLine(t, e, o) <= StartOfLine(t', e, o')
  {
    hide EolAt;
    StartSame(t, t', e, o, a);
    StartMonotone(t', e, a, o');
  }

  lemma StartMonotone(t: string, e: Eol, a: nat, o: nat)
    requires a <= o <= |t|
    ensures StartOfLine(t, e, a) <= StartOfLine(t, e, o)
  {
    var so := StartOfLine(t, e, a);
    assert so > 0 ==> EolAt(t, e, so - EolLen(e));
  }


  lemma BreakMarks(d: Doc, e: Eol, a: nat, del: nat, r: Doc)
    requires Broken(d, e, a, del, r) && Proper(r)
    ensures KeepsMarks(d, r)
  {
    hide Splice, NonSpace, KeepsMark, EolStr, IsSpace;
    BlankEol(e);
    var q := EditAt(d, a, del, "");
    BlankEditKeeps(d, a, del, "");
    BlankEditKeeps(q, a, 0, EolStr(e));
    KeepsMarksTwice(d, q, EditAt(q, a, 0, EolStr(e)));
    PutBack(d.text, a, del, EolStr(e));
  }

  lemma PutBack(t: string, a: nat, del: nat, put: string)
    requires a + del <= |t|
    ensures Splice(Splice(t, a, del, ""), a, 0, put) == Splice(t, a, del, put)
  {
  }

  /** One more cut: the line from the last one to m is broken. */
  lemma BreakCut(t: string, e: Eol, tabs: nat, fillcol: nat, s: nat, m: nat, cuts: seq<Cut>, q: Doc, a: nat, del: nat,
      r: Doc)
    returns (cuts': seq<Cut>)
    requires tabs >= 1 && Proper(q) && EndsAt(q.text, e, q.pt)
    requires AreBreaks(t, tabs, fillcol, s, m, cuts) && q.text == Edited(t, s, cuts, EolStr(e))
    requires PointAt(t, e, s, m, cuts, q.text, q.pt)
    requires AtBlankEnd(s, m, cuts) ==> LineFits(q.text, e, tabs, fillcol, q.pt)
    requires GoalAt(q.text, e, tabs, q.pt) > fillcol + 1 && BreakPoint(q.text, e, tabs, fillcol, q.pt).Some?
    requires Broken(q, e, a, del, r)
    requires AroundBlank(q.text, e, q.pt, BreakPoint(q.text, e, tabs, fillcol, q.pt).value, a, del)
    ensures AreBreaks(t, tabs, fillcol, s, m, cuts') && r.text == Edited(t, s, cuts', EolStr(e))
    ensures PointAt(t, e, s, m, cuts', r.text, r.pt)
    ensures AtBlankEnd(s, m, cuts') ==> LineFits(r.text, e, tabs, fillcol, r.pt)
  {
    hide EolAt, EndOfLine, StartOfLine, BreakPoint, AroundBlank, GoalAt, LineFits, AreBreaks, Edited, EndsAt, Built,
         Ordered, Splice, IsBreak, Blank, Shifted, Shift;
    var so, x, put := StartOfLine(q.text, e, q.pt), From(s, cuts), EolStr(e);
    BreaksAreOrdered(t, tabs, fillcol, s, m, cuts);
    if AtBlankEnd(s, m, cuts) { NothingToBreak(q.text, e, tabs, fillcol, q.pt); }
    RestOfLine(t, s, m, cuts, put, q.text, q.pt);
    var k := BreakPoint(q.text, e, tabs, fillcol, q.pt).value;
    ChoiceIsBreak(q.text, e, tabs, fillcol, q.pt, k, a, del);
    CutMore(t, s, cuts, put, x + (a - so), del);
    EditedMore(t, s, cuts, put, x + (a - so), del);
    BreaksMore(t, tabs, fillcol, s, m, cuts, x + (a - so), del);
    cuts' := cuts + [Cut(x + (a - so), del)];
    BrokenPoint(q, e, tabs, fillcol, k, a, del, r);
  }

  lemma BreaksAreOrdered(t: string, tabs: nat, fillcol: nat, s: nat, m: nat, cuts: seq<Cut>)
    requires tabs >= 1 && AreBreaks(t, tabs, fillcol, s, m, cuts)
    ensures Ordered(t, s, cuts) && s <= From(s, cuts) <= m <= |t|
  {
  }

  lemma BreaksMore(t: string, tabs: nat, fillcol: nat, s: nat, m: nat, cuts: seq<Cut>, at: nat, del: nat)
    requires tabs >= 1 && AreBreaks(t, tabs, fillcol, s, m, cuts) && From(s, cuts) <= at && at + del <= m
    requires IsBreak(t[From(s, cuts)..m], tabs, fillcol, at - From(s, cuts), del)
    ensures AreBreaks(t, tabs, fillcol, s, m, cuts + [Cut(at, del)])
  {
    hide IsBreak;
    assert (cuts + [Cut(at, del)])[..|cuts|] == cuts;
  }

  /** A line that fits is left alone. */
  lemma NothingToBreak(t: string, e: Eol, tabs: nat, fillcol: nat, o: nat)
    requires tabs >= 1 && EndsAt(t, e, o) && LineFits(t, e, tabs, fillcol, o) && GoalAt(t, e, tabs, o) > fillcol
    ensures BreakPoint(t, e, tabs, fillcol, o).None?
  {
    hide EolAt, GoalAt, IsSpace;
    EndOfOwn(t, e, o, StartOfLine(t, e, o));
  }

  lemma RestOfLine(t: string, s: nat, m: nat, cuts: seq<Cut>, put: string, q: string, pt: nat)
    requires Ordered(t, s, cuts) && q == Edited(t, s, cuts, put) && From(s, cuts) <= m <= |t|
    requires pt <= |q| && pt - |Built(t, s, cuts, put)| == m - From(s, cuts)
    ensures q[|Built(t, s, cuts, put)|..pt] == t[From(s, cuts)..m]
  {
  }

  /** Where point is after the break, and the line before it. */
  lemma BrokenPoint(q: Doc, e: Eol, tabs: nat, fillcol: nat, k: nat, a: nat, del: nat, r: Doc)
    requires tabs >= 1 && Proper(q) && EndsAt(q.text, e, q.pt) && Broken(q, e, a, del, r)
    requires BreakPoint(q.text, e, tabs, fillcol, q.pt) == Some(k) && AroundBlank(q.text, e, q.pt, k, a, del)
    ensures StartOfLine(q.text, e, q.pt) <= a && a + del <= q.pt && r.pt <= |r.text|
    ensures a + del < q.pt ==> r.pt == q.pt - del + EolLen(e) && StartOfLine(r.text, e, r.pt) == a + EolLen(e)
    ensures a + del == q.pt ==> r.pt == a && LineFits(r.text, e, tabs, fillcol, a)
  {
    hide EolAt, EndOfLine, StartOfLine, BreakPoint, AroundBlank, GoalAt, LineFits, Splice, Blank, Shifted, Broken;
    BreakOnLine(q.text, e, tabs, fillcol, q.pt);
    BreakInside(q.text, e, q.pt, k, a, del);
    SamePrefix(q, e, a, del, r);
    if a + del < q.pt {
      BrokenBefore(q, e, a, del, r);
      LineAfterBreak(q, e, a, del, r);
    } else {
      BrokenAtEnd(q, e, a, del, r);
      BlanksThere(q, e, a, del, r);
      FirstPartFits(q.text, e, tabs, fillcol, q.pt, k, a, del);
      FitsByPrefix(q.text, r.text, e, tabs, fillcol, a);
    }
  }

  lemma BlanksThere(d: Doc, e: Eol, a: nat, del: nat, r: Doc)
    requires Broken(d, e, a, del, r)
    ensures a + del <= |d.text| && Blank(d.text[a..a + del])
  {
  }

  lemma LineAfterBreak(q: Doc, e: Eol, a: nat, del: nat, r: Doc)
    requires Broken(q, e, a, del, r) && EndsAt(q.text, e, q.pt) && a + EolLen(e) <= r.pt <= |r.text|
    requires StartOfLine(q.text, e, q.pt) <= a < a + del <= q.pt
    ensures StartOfLine(r.text, e, r.pt) == a + EolLen(e)
  {
    hide Blank;
    forall i | a < i <= r.pt - EolLen(e)
      ensures !EolAt(r.text, e, i)
    {
      NoEolAfter(q, e, a, del, r, i);
    }
    StartOfLineUnique(r.text, e, r.pt, a + EolLen(e));
  }

  // ---------------------------------------------------------------------
  // Filling
  // ---------------------------------------------------------------------

  /** The paragraph from the line of `from` to that of `to` is one line now,
      which ends at m; the joints took all its line ends. */
  ghost predicate IsJoined(t: string, e: Eol, from: nat, to: nat, joints: seq<Cut>, joined: string, m: nat)
    requires from <= |t| && to <= |t|
  {
    var s, eo := StartOfLine(t, e, EndOfLine(t, e, from)), EndOfLine(t, e, Max(from, to));
    && Joints(t, e, s, joints) && joined == Edited(t, s, joints, " ")
    && s <= m <= |joined| && EndOfLine(joined, e, s) == m && joined[m..] == t[eo..]
  }

  /** The line from s to m was broken; the last line that came of it ends at
      `last`, and is too narrow to break. When blanks at the end of the line
      gave way, an empty line follows. */
  ghost predicate IsBroken(t: string, e: Eol, tabs: nat, fillcol: nat, s: nat, m: nat, cuts: seq<Cut>,
      t': string, last: nat)
    requires tabs >= 1
  {
    && AreBreaks(t, tabs, fillcol, s, m, cuts) && t' == Edited(t, s, cuts, EolStr(e))
    && s <= last <= |t'| && t'[last..] == (if AtBlankEnd(s, m, cuts) then EolStr(e) else "") + t[m..]
    && EndsAt(t', e, last) && LinesFit(t', e, tabs, fillcol, s, last) && Narrow(t', e, tabs, fillcol, last)
  }

  lemma RestKept(d: Doc, e: Eol, tabs: nat, fillcol: nat, s: nat, cuts: seq<Cut>, r: Doc)
    requires tabs >= 1 && BrokenBy(d, e, tabs, fillcol, s, cuts, r) && Narrow(r.text, e, tabs, fillcol, r.pt)
    ensures IsBroken(d.text, e, tabs, fillcol, s, d.pt, cuts, r.text, r.pt)
  {
    hide EolAt, EndOfLine, StartOfLine, Narrow, LinesFit, NonSpace, LineFits, KeepsMarks, IsBreak;
    var t, q, put, m := d.text, r.text, EolStr(e), d.pt;
    RestAfter(t, s, m, cuts, put, q, r.pt);
    StartBefore(q, e, r.pt);
  }

  lemma StartBefore(t: string, e: Eol, o: nat)
    requires o <= |t|
    ensures StartOfLine(t, e, o) <= o
  {
  }

  lemma RestAfter(t: string, s: nat, m: nat, cuts: seq<Cut>, put: string, q: string, pt: nat)
    requires Ordered(t, s, cuts) && q == Edited(t, s, cuts, put) && From(s, cuts) <= m <= |t| && pt <= |q|
    requires var b := |Built(t, s, cuts, put)|;
             if AtBlankEnd(s, m, cuts) then pt + |put| == b else pt - b == m - From(s, cuts)
    ensures q[pt..] == (if AtBlankEnd(s, m, cuts) then put else "") + t[m..]
  {
    var b := Built(t, s, cuts, put);
    if AtBlankEnd(s, m, cuts) {
      assert b[pt..] == put;
    }
  }

  /** fill-paragraph, on the paragraph that starts on the line of `from` and
      ends at `to`. It ends, aborts nowhere, and keeps all that is not white
      space, before point and before every mark too. It joins the lines of the
      paragraph and breaks the line they make; what comes after is as it was. */
  method FillParagraph(d: Doc, e: Eol, tabs: nat, fillcol: nat, from: nat, to: nat)
    returns (r: Doc, ghost joints: seq<Cut>, ghost joined: string, ghost m: nat, ghost cuts: seq<Cut>, ghost last: nat)
    requires Proper(d) && tabs >= 1 && from <= |d.text| && to <= |d.text|
    requires if d.readonly
             then EndOfLine(d.text, e, from) >= to &&
                  Narrow(d.text, e, tabs, fillcol, EndOfLine(d.text, e, from))
             else !MarkWraps(d.(pt := from, marks := d.marks + [d.pt, to]), e, |d.marks| + 1)
    ensures d.readonly ==> r == d
    ensures KeepsMarks(d, r) && KeepsMark(d.text, d.pt, r.text, r.pt) && NonSpace(r.text) == NonSpace(d.text)
    ensures IsJoined(d.text, e, from, to, joints, joined, m)
    ensures var s := StartOfLine(d.text, e, EndOfLine(d.text, e, from));
            IsBroken(joined, e, tabs, fillcol, s, m, cuts, r.text, last)
            && s <= |r.text| && r.text[..s] == d.text[..s]
  {
    hide EolAt, EndOfLine, StartOfLine, LinesFit, NonSpace, Narrow, MarkWraps, LineFits, AreBreaks, Joints, PointAt,
         Edited, KeepsMark;
    var k := |d.marks|;
    ghost var d' := Doc(d.text, from, d.marks + [d.pt, to], d.readonly);
    ghost var s := StartOfLine(d.text, e, EndOfLine(d.text, e, from));
    r, joints := JoinLines(Doc(d.text, from, d.marks + [d.pt, to], d.readonly), e, k + 1);
    EndOfEnd(r.text, e, r.pt);
    ghost var q := r;
    joined, m := r.text, EndOfLine(r.text, e, r.pt);
    EndOfOwn(joined, e, m, s);
    r := Doc(r.text, EndOfLine(r.text, e, r.pt), r.marks[..k + 1], r.readonly);
    ghost var q' := r;
    r, cuts := BreakLines(r, e, tabs, fillcol);
    last := r.pt;
    RestKept(q', e, tabs, fillcol, s, cuts, r);
    MarksKept(d, d', q, q', r);
    assert r.text[..s] == q'.text[..s] == d.text[..s];
    r := Doc(r.text, r.marks[k], r.marks[..k], r.readonly);
  }

  lemma MarksKept(d: Doc, d': Doc, q: Doc, q': Doc, r: Doc)
    requires Proper(d) && d'.text == d.text && |d'.marks| == |d.marks| + 2
    requires d'.marks[..|d.marks| + 1] == d.marks + [d.pt]
    requires KeepsMarks(d', q) && q'.text == q.text && q'.marks == q.marks[..|d.marks| + 1] && KeepsMarks(q', r)
    ensures var k := |d.marks|;
            && KeepsMark(d.text, d.pt, r.text, r.marks[k])
            && KeepsMarks(d, Doc(r.text, r.marks[k], r.marks[..k], r.readonly))
  {
    hide NonSpace;
    forall i | 0 <= i <= |d.marks|
      ensures KeepsMark(d.text, (d.marks + [d.pt])[i], r.text, r.marks[i])
    {
      assert KeepsMark(d'.text, d'.marks[..|d.marks| + 1][i], q.text, q.marks[i]);
      assert KeepsMark(q'.text, q'.marks[i], r.text, r.marks[i]);
    }
  }

  /** A paragraph that fits becomes one line. */
  lemma FilledToOneLine(t: string, e: Eol, tabs: nat, fillcol: nat, s: nat, m: nat, cuts: seq<Cut>, t': string,
      last: nat)
    requires tabs >= 1 && s <= m <= |t| && IsBroken(t, e, tabs, fillcol, s, m, cuts, t', last)
    requires Columns.Goalc(t[s..m], tabs) <= fillcol + 1
    ensures cuts == [] && t' == t && last == m
  {
    hide EndsAt, LinesFit, Narrow;
    OnlyWideBreak(t, tabs, fillcol, s, m, cuts);
    NoCuts(t, s, EolStr(e));
    assert |t'[last..]| == |t[m..]|;
  }

  /** What comes after the paragraph is as it was exactly when no blanks at the
      end of the line gave way; without blanks there it always is. */
  lemma RestUnchangedIff(t: string, e: Eol, tabs: nat, fillcol: nat, s: nat, m: nat, cuts: seq<Cut>, t': string,
      last: nat)
    requires tabs >= 1 && IsBroken(t, e, tabs, fillcol, s, m, cuts, t', last)
    ensures t'[last..] == t[m..] <==> !AtBlankEnd(s, m, cuts)
    ensures AtBlankEnd(s, m, cuts) ==> s < m && IsSpace(t[m - 1]) && Columns.Goalc(t[s..m], tabs) > fillcol + 1
  {
    hide EndsAt, LinesFit, Narrow, NextWordIsLate, IsSpace;
    if AtBlankEnd(s, m, cuts) {
      OnlyWideBreak(t, tabs, fillcol, s, m, cuts);
      var front, c := cuts[..|cuts| - 1], cuts[|cuts| - 1];
      var x := From(s, front);
      assert IsStretch(t[x..m], c.at - x, c.del);
      LastOf(t, x, m, c.at, c.del);
    }
  }

  lemma LastOf(t: string, x: nat, m: nat, a: nat, del: nat)
    requires x <= a && a + del == m <= |t| && 0 < del && Blank(t[x..m][a - x..a - x + del])
    ensures IsSpace(t[m - 1])
  {
    hide IsSpace;
    assert t[x..m][a - x..a - x + del][del - 1] == t[m - 1];
  }

  /** The blanks of "ab  " give way to an end-of-line with a fill column of 1,
      however it is filled. */
  lemma BlankEndAt1(cuts: seq<Cut>, t': string, last: nat)
    requires IsBroken("ab  ", LF, 8, 1, 0, 4, cuts, t', last)
    ensures t' == "ab\n" && last == 2
  {
    hide EndsAt, LinesFit, Narrow, Ordered, AreBreaks, Edited;
    OneStretch(cuts);
    assert |t'[last..]| == |t'| - last;
    CutAt2();
    if cuts == [] {
      WideAt1();
    }
  }

  lemma CutAt2()
    ensures Ordered("ab  ", 0, []) && Edited("ab  ", 0, [], "\n") == "ab  "
    ensures Ordered("ab  ", 0, [Cut(2, 2)]) && Edited("ab  ", 0, [Cut(2, 2)], "\n") == "ab\n"
  {
    hide Ordered;
    NoCuts("ab  ", 0, "\n");
    CutMore("ab  ", 0, [], "\n", 2, 2);
    assert [] + [Cut(2, 2)] == [Cut(2, 2)];
  }

  lemma WideAt1()
    ensures !Narrow("ab  ", LF, 8, 1, 4)
  {
    var t := "ab  ";
    GoalOf(t, 8, 1);
    GoalOf(t, 8, 2);
    GoalOf(t, 8, 3);
    GoalOf(t, 8, 4);
    FillPointOf(t, 8, 1, 4, 2);
    EndOfLineUnique(t, LF, 0, 4);
    ChosenFrom(t, 4, 2);
  }

  lemma ChosenFrom(t: string, eo: nat, p: nat)
    requires p + 1 < eo <= |t| && NoBlank(t, 0, p) && IsSpace(t[p])
    ensures Chosen(t, 0, eo, p) == Some(p)
  {
  }

  lemma {:induction false} OneStretch(cuts: seq<Cut>)
    requires AreBreaks("ab  ", 8, 1, 0, 4, cuts)
    ensures cuts == [] || cuts == [Cut(2, 2)]
  {
    hide NextWordIsLate, IsStretch;
    if cuts != [] {
      var front, c := cuts[..|cuts| - 1], cuts[|cuts| - 1];
      OneStretch(front);
      OnlyStretch("ab  "[From(0, front)..4], c.at - From(0, front), c.del);
      assert cuts == front + [c];
    }
  }

  lemma OnlyStretch(line: string, a: nat, del: nat)
    requires IsStretch(line, a, del)
    ensures line == "ab  " ==> a == 2 && del == 2
    ensures line != ""
  {
    assert line == "ab  " ==> !IsSpace(line[0]) && !IsSpace(line[1]) && IsSpace(line[2]) && IsSpace(line[3]);
    assert IsSpace(line[a..a + del][0]);
    assert a <= 2 < a + del ==> IsSpace(line[a..a + del][2 - a]);
  }

  lemma {:induction false} OnlyWideBreak(t: string, tabs: nat, fillcol: nat, s: nat, m: nat, cuts: seq<Cut>)
    requires tabs >= 1 && s <= m <= |t| && AreBreaks(t, tabs, fillcol, s, m, cuts)
    ensures cuts != [] ==> Columns.Goalc(t[s..m], tabs) > fillcol + 1
  {
    if |cuts| > 1 {
      OnlyWideBreak(t, tabs, fillcol, s, m, cuts[..|cuts| - 1]);
    }
  }

  // ---------------------------------------------------------------------
  // In a read-only buffer
  // ---------------------------------------------------------------------

  /** The joining loop when nothing is deleted: point goes to the end of the
      line and back over the blanks there. */
  function JoinMore(t: string, e: Eol, to: nat): nat -> bool {
    (o: nat) => o <= |t| && EndOfLine(t, e, o) < to
  }

  function JoinRound(t: string, e: Eol): nat -> Option<nat> {
    (o: nat) => if o <= |t| then Some(BackOver(t, e, EndOfLine(t, e, o))) else Some(o)
  }

  /** The breaking loop at the end o of a line. The state is whether the last
      round reported a break; a round does not end if the deletion of blanks
      in it does not. */
  ghost function BreakMore(t: string, e: Eol, tabs: nat, fillcol: nat, o: nat): bool -> bool
    requires o <= |t| && tabs >= 1
  {
    (made: bool) => made && GoalAt(t, e, tabs, o) > fillcol + 1
  }

  ghost function BreakRound(t: string, e: Eol, tabs: nat, fillcol: nat, o: nat): bool -> Option<bool>
    requires o <= |t| && tabs >= 1
  {
    (made: bool) =>
      if !Breaks(t, e, tabs, fillcol, o) then Some(false)
      else if SpaceEnds(Doc(t, BreakPoint(t, e, tabs, fillcol, o).value + 1, [], true), e) then Some(true)
      else None
  }

  ghost predicate ReadOnlyFillEnds(t: string, e: Eol, tabs: nat, fillcol: nat, from: nat, to: nat)
    requires tabs >= 1
  {
    exists o: nat :: EndsIn(JoinMore(t, e, to), JoinRound(t, e), from, o) && o <= |t| &&
      var eo := EndOfLine(t, e, o);
      Ends(BreakMore(t, e, tabs, fillcol, eo), BreakRound(t, e, tabs, fillcol, eo), true)
  }

  /** fill-paragraph ends in a read-only buffer exactly when the paragraph is
      one line and that line needs no break. */
  lemma ReadOnlyFillEndsIff(t: string, e: Eol, tabs: nat, fillcol: nat, from: nat, to: nat)
    requires tabs >= 1 && from <= |t|
    ensures ReadOnlyFillEnds(t, e, tabs, fillcol, from, to) <==>
            EndOfLine(t, e, from) >= to && Narrow(t, e, tabs, fillcol, EndOfLine(t, e, from))
  {
    hide EolAt, EndOfLine, BackOver, Narrow, Ends, EndsIn, BreakMore, BreakRound, JoinMore, JoinRound;
    JoinEndsIff(t, e, from, to);
    BreakEndsIff(t, e, tabs, fillcol, EndOfLine(t, e, from));
  }

  lemma JoinEndsIff(t: string, e: Eol, from: nat, to: nat)
    requires from <= |t|
    ensures forall o: nat :: EndsIn(JoinMore(t, e, to), JoinRound(t, e), from, o) <==>
                             EndOfLine(t, e, from) >= to && o == from
  {
    hide EndOfLine;
    var guard, round := JoinMore(t, e, to), JoinRound(t, e);
    if EndOfLine(t, e, from) >= to {
      assert Rounds(guard, round, from, 0) == Some(from);
    } else {
      var here := (o: nat) => o <= |t| && EndOfLine(t, e, o) == EndOfLine(t, e, from);
      forall o: nat | here(o)
        ensures here(round(o).value)
      {
        SameEndBack(t, e, o);
      }
      NeverEnds(guard, round, from, here);
    }
  }

  lemma SameEndBack(t: string, e: Eol, o: nat)
    requires o <= |t|
    ensures EndOfLine(t, e, BackOver(t, e, EndOfLine(t, e, o))) == EndOfLine(t, e, o)
  {
    var eo := EndOfLine(t, e, o);
    var b := BackOver(t, e, eo);
    StartSame(t, t, e, eo, b);
    forall k | b <= k < eo
      ensures !EolAt(t, e, k)
    {
    }
    EndOfLineUnique(t, e, b, eo);
  }

  lemma BreakEndsIff(t: string, e: Eol, tabs: nat, fillcol: nat, o: nat)
    requires tabs >= 1 && o <= |t|
    ensures Ends(BreakMore(t, e, tabs, fillcol, o), BreakRound(t, e, tabs, fillcol, o), true) <==>
            Narrow(t, e, tabs, fillcol, o)
  {
    hide GoalAt, BreakPoint, SpaceEnds;
    var guard, round := BreakMore(t, e, tabs, fillcol, o), BreakRound(t, e, tabs, fillcol, o);
    if GoalAt(t, e, tabs, o) <= fillcol + 1 {
      assert Rounds(guard, round, true, 0) == Some(true);
      assert EndsIn(guard, round, true, true);
    } else if !Breaks(t, e, tabs, fillcol, o) {
      assert Rounds(guard, round, false, 0) == Some(false);
      assert Rounds(guard, round, true, 1) == Some(false);
      assert EndsIn(guard, round, true, false);
    } else {
      NeverEnds(guard, round, true, (made: bool) => made);
    }
  }

  /** Two lines in a read-only buffer are enough. */
  lemma ReadOnlyFillHangs()
    ensures !ReadOnlyFillEnds("a\nb", LF, 8, 70, 0, 3)
  {
    ReadOnlyFillEndsIff("a\nb", LF, 8, 70, 0, 3);
    EndOfLineUnique("a\nb", LF, 0, 1);
  }
}
