/** Breaking and filling lines, over the plain text of a buffer and the offsets
    of its markers (src/line.c:81-137, src/funcs.c:779-815). */
module Fill {
  import opened Basics
  import opened Eol
  import opened Loops
  import opened Spacing
  import Columns
  import M = Motion

  // ---------------------------------------------------------------------
  // Columns along a line
  // ---------------------------------------------------------------------

  /** get_goalc at o. */
  function GoalAt(t: string, e: Eol, tabs: nat, o: nat): nat
    requires o <= |t| && tabs >= 1
  {
    Columns.Goalc(t[StartOfLine(t, e, o)..o], tabs)
  }

  lemma {:induction false} OrGrows(a: nat, b: nat)
    ensures Columns.BitOr(a, b) >= a
  {
    if a > 0 && b > 0 {
      OrGrows(a / 2, b / 2);
    }
  }

  /** A blank takes one column, a tab at least one. */
  lemma GoalStep(t: string, e: Eol, tabs: nat, o: nat)
    requires o < |t| && tabs >= 1 && StartOfLine(t, e, o + 1) == StartOfLine(t, e, o)
    ensures GoalAt(t, e, tabs, o + 1) >= GoalAt(t, e, tabs, o) + 1
    ensures t[o] != '\t' ==> GoalAt(t, e, tabs, o + 1) == GoalAt(t, e, tabs, o) + 1
  {
    var so := StartOfLine(t, e, o);
    var line := t[so..o + 1];
    assert line[..|line| - 1] == t[so..o];
    OrGrows(Columns.Goalc(t[so..o], tabs), tabs - 1);
  }

  /** Every place of the line has the same start, and columns grow along it. */
  lemma {:induction false} GoalGrows(t: string, e: Eol, tabs: nat, i: nat, o: nat)
    requires tabs >= 1 && o <= |t| && StartOfLine(t, e, o) <= i <= o
    ensures StartOfLine(t, e, i) == StartOfLine(t, e, o)
    ensures GoalAt(t, e, tabs, i) + (o - i) <= GoalAt(t, e, tabs, o)
    decreases o - i
  {
    hide GoalAt, EolAt, StartOfLine;
    if i < o {
      StartSame(t, t, e, o, o - 1);
      GoalGrows(t, e, tabs, i, o - 1);
      GoalStep(t, e, tabs, o - 1);
    }
  }

  lemma BeforeStart(t: string, e: Eol, o: nat, k: int)
    requires o <= |t| && StartOfLine(t, e, o) - EolLen(e) < k < StartOfLine(t, e, o)
    ensures !EolAt(t, e, k)
  {
  }

  /** Up to the end of the line, too. */
  lemma StartAlong(t: string, e: Eol, o: nat, i: nat)
    requires o <= |t| && StartOfLine(t, e, o) <= i <= EndOfLine(t, e, StartOfLine(t, e, o))
    ensures StartOfLine(t, e, i) == StartOfLine(t, e, o)
  {
    hide EolAt;
    var so := StartOfLine(t, e, o);
    forall k | so - EolLen(e) < k <= i - EolLen(e)
      ensures !EolAt(t, e, k)
    {
      if k < so {
        BeforeStart(t, e, o, k);
      }
    }
    StartOfLineUnique(t, e, i, so);
  }

  // ---------------------------------------------------------------------
  // Where a line is broken
  // ---------------------------------------------------------------------

  /** Back from o to the last place on its line that is no further right than
      one past the fill column. */
  function FillPoint(t: string, e: Eol, tabs: nat, fillcol: nat, o: nat): (p: nat)
    requires o <= |t| && tabs >= 1
    ensures StartOfLine(t, e, o) <= p <= o && StartOfLine(t, e, p) == StartOfLine(t, e, o)
    ensures GoalAt(t, e, tabs, p) <= fillcol + 1
    ensures forall q: nat :: p < q <= o ==> GoalAt(t, e, tabs, q) > fillcol + 1
  {
    if GoalAt(t, e, tabs, o) <= fillcol + 1 then o
    else
      StartSame(t, t, e, o, o - 1);
      FillPoint(t, e, tabs, fillcol, o - 1)
  }

  method BackToFill(t: string, e: Eol, tabs: nat, fillcol: nat, o: nat) returns (p: nat)
    requires o <= |t| && tabs >= 1
    ensures p == FillPoint(t, e, tabs, fillcol, o)
  {
    hide EolAt, StartOfLine;
    p := o;
    while GoalAt(t, e, tabs, p) > fillcol + 1
      invariant p <= o && FillPoint(t, e, tabs, fillcol, p) == FillPoint(t, e, tabs, fillcol, o)
      decreases p
    {
      assert StartOfLine(t, e, p) != p;
      p := M.Backward(t, e, p).value;
    }
  }

  predicate NoBlank(t: string, i: nat, j: int) {
    j <= |t| && forall k :: i <= k < j ==> !IsSpace(t[k])
  }

  function LastBlank(t: string, i: nat, j: nat): (r: Option<nat>)
    requires i <= j <= |t|
    ensures r.Some? ==> i <= r.value < j && IsSpace(t[r.value]) && NoBlank(t, r.value + 1, j)
    ensures r.None? ==> NoBlank(t, i, j)
    decreases j
  {
    if i == j then None else if IsSpace(t[j - 1]) then Some(j - 1) else LastBlank(t, i, j - 1)
  }

  function FirstBlank(t: string, i: nat, j: nat): (r: Option<nat>)
    requires i <= j <= |t|
    ensures r.Some? ==> i <= r.value < j && IsSpace(t[r.value]) && NoBlank(t, i, r.value)
    ensures r.None? ==> NoBlank(t, i, j)
    decreases j - i
  {
    if i == j then None else if IsSpace(t[i]) then Some(i) else FirstBlank(t, i + 1, j)
  }

  /** The blank chosen on the line from so to eo: the right-most one before p,
      or else the left-most one from there on, the last byte left out. */
  function Chosen(t: string, so: nat, eo: nat, p: nat): (r: Option<nat>)
    requires so <= p <= |t| && so <= eo <= |t|
    ensures r.Some? ==> so <= r.value < Max(p, eo - 1) && IsSpace(t[r.value])
    ensures r.Some? ==> if r.value < p then NoBlank(t, r.value + 1, p) else NoBlank(t, so, r.value)
    ensures r.None? ==> NoBlank(t, so, Max(p, eo - 1))
  {
    var k := LastBlank(t, so, p);
    if k.Some? then k else if p < eo then FirstBlank(t, p, eo - 1) else None
  }

  /** The two searches of fill_break_line. */
  method FindBreak(t: string, so: nat, eo: nat, p: nat) returns (k: Option<nat>)
    requires so <= p <= |t| && so <= eo <= |t|
    ensures k == Chosen(t, so, eo, p)
  {
    var i := p - so;
    while i > 0
      invariant 0 <= i <= p - so && LastBlank(t, so, so + i) == LastBlank(t, so, p)
    {
      if IsSpace(t[so + i - 1]) {
        return Some(so + i - 1);
      }
      i := i - 1;
    }
    i := p + 1;
    while i < eo
      invariant p + 1 <= i <= Max(p + 1, eo)
      invariant i <= eo ==> FirstBlank(t, i - 1, eo - 1) == FirstBlank(t, p, eo - 1)
      decreases eo - i
    {
      if IsSpace(t[i - 1]) {
        return Some(i - 1);
      }
      i := i + 1;
    }
    return None;
  }

  /** Where fill_break_line breaks the line of o, if it does. */
  function BreakPoint(t: string, e: Eol, tabs: nat, fillcol: nat, o: nat): Option<nat>
    requires o <= |t| && tabs >= 1
  {
    var so := StartOfLine(t, e, o);
    Chosen(t, so, EndOfLine(t, e, so), FillPoint(t, e, tabs, fillcol, o))
  }

  /** Both from the fill point of o. */
  method FindBreakPoint(t: string, e: Eol, tabs: nat, fillcol: nat, o: nat) returns (k: Option<nat>)
    requires o <= |t| && tabs >= 1
    ensures k == BreakPoint(t, e, tabs, fillcol, o)
  {
    hide EolAt, StartOfLine, EndOfLine, GoalAt, FillPoint, Chosen;
    var p := BackToFill(t, e, tabs, fillcol, o);
    var so := StartOfLine(t, e, p);
    k := FindBreak(t, so, EndOfLine(t, e, so), p);
  }

  /** The choice its comment describes, on the line from so to eo: the
      right-most blank at or before the fill column, or if there is none the
      left-most after it. */
  ghost predicate IsDocumented(t: string, e: Eol, tabs: nat, fillcol: nat, so: nat, eo: nat, k: Option<nat>)
    requires so <= eo <= |t| && tabs >= 1
  {
    if k.None? then NoBlank(t, so, eo)
    else
      && so <= k.value < eo && IsSpace(t[k.value])
      && if GoalAt(t, e, tabs, k.value) <= fillcol
         then forall j: nat :: k.value < j < eo && IsSpace(t[j]) ==> GoalAt(t, e, tabs, j) > fillcol
         else NoBlank(t, so, k.value)
  }

  /** A tab starts at or before the fill column and ends to the right of the
      place after it, and there is a blank before the tab. */
  predicate TabAcross(t: string, e: Eol, tabs: nat, fillcol: nat, o: nat)
    requires o <= |t| && tabs >= 1
  {
    var p := FillPoint(t, e, tabs, fillcol, o);
    p < o && t[p] == '\t' && GoalAt(t, e, tabs, p) <= fillcol && !NoBlank(t, StartOfLine(t, e, o), p)
  }

  /** The only blank is the last byte of the line, and point is not after it
      at the place just past the fill column. */
  predicate BlankLast(t: string, e: Eol, tabs: nat, fillcol: nat, o: nat)
    requires o <= |t| && tabs >= 1
  {
    var so := StartOfLine(t, e, o);
    var eo := EndOfLine(t, e, so);
    && so < eo && IsSpace(t[eo - 1]) && NoBlank(t, so, eo - 1)
    && (o < eo || GoalAt(t, e, tabs, o) > fillcol + 1)
  }

  /** fill_break_line chooses as documented except in these two cases. */
  lemma ChoiceIsDocumentedIff(t: string, e: Eol, tabs: nat, fillcol: nat, o: nat)
    requires o <= |t| && tabs >= 1 && GoalAt(t, e, tabs, o) > fillcol
    requires o <= EndOfLine(t, e, StartOfLine(t, e, o))
    ensures var so := StartOfLine(t, e, o);
            IsDocumented(t, e, tabs, fillcol, so, EndOfLine(t, e, so), BreakPoint(t, e, tabs, fillcol, o))
            <==> !TabAcross(t, e, tabs, fillcol, o) && !BlankLast(t, e, tabs, fillcol, o)
  {
    hide EolAt, StartOfLine, EndOfLine, GoalAt, FillPoint, Chosen, IsDocumented, TabAcross, BlankLast, NoBlank, IsSpace;
    var so, p := StartOfLine(t, e, o), FillPoint(t, e, tabs, fillcol, o);
    var eo := EndOfLine(t, e, so);
    var k := Chosen(t, so, eo, p);
    if k.None? {
      NoneIsDocumentedIff(t, e, tabs, fillcol, o);
    } else if k.value < p {
      BeforeIsDocumentedIff(t, e, tabs, fillcol, o, k.value);
    } else {
      AfterIsDocumented(t, e, tabs, fillcol, o, k.value);
    }
  }

  lemma NoneIsDocumentedIff(t: string, e: Eol, tabs: nat, fillcol: nat, o: nat)
    requires o <= |t| && tabs >= 1 && GoalAt(t, e, tabs, o) > fillcol
    requires var so := StartOfLine(t, e, o);
             var eo, p := EndOfLine(t, e, so), FillPoint(t, e, tabs, fillcol, o);
             o <= eo && NoBlank(t, so, Max(p, eo - 1))
    ensures var so := StartOfLine(t, e, o);
            IsDocumented(t, e, tabs, fillcol, so, EndOfLine(t, e, so), None) <==>
            !TabAcross(t, e, tabs, fillcol, o) && !BlankLast(t, e, tabs, fillcol, o)
  {
    hide EolAt, StartOfLine, EndOfLine, GoalAt, FillPoint, TabAcross, BlankLast, NoBlank, IsSpace;
    var so := StartOfLine(t, e, o);
    NoBlankBut(t, so, EndOfLine(t, e, so), FillPoint(t, e, tabs, fillcol, o));
    NoTabAcross(t, e, tabs, fillcol, o);
    LastBlankIff(t, e, tabs, fillcol, o);
  }

  lemma LastBlankIff(t: string, e: Eol, tabs: nat, fillcol: nat, o: nat)
    requires o <= |t| && tabs >= 1
    requires var so := StartOfLine(t, e, o);
             var eo, p := EndOfLine(t, e, so), FillPoint(t, e, tabs, fillcol, o);
             o <= eo && (p < eo ==> NoBlank(t, so, eo - 1))
    ensures var eo, p := EndOfLine(t, e, StartOfLine(t, e, o)), FillPoint(t, e, tabs, fillcol, o);
            BlankLast(t, e, tabs, fillcol, o) <==> p < eo && IsSpace(t[eo - 1])
  {
    hide EolAt, StartOfLine, EndOfLine, GoalAt, FillPoint, NoBlank, IsSpace;
  }

  lemma NoTabAcross(t: string, e: Eol, tabs: nat, fillcol: nat, o: nat)
    requires o <= |t| && tabs >= 1
    requires NoBlank(t, StartOfLine(t, e, o), FillPoint(t, e, tabs, fillcol, o))
    ensures !TabAcross(t, e, tabs, fillcol, o)
  {
    hide EolAt, StartOfLine, GoalAt, FillPoint, NoBlank, IsSpace;
  }

  lemma NoBlankBut(t: string, so: nat, eo: nat, p: nat)
    requires so <= p <= eo <= |t| && NoBlank(t, so, Max(p, eo - 1))
    ensures NoBlank(t, so, p) && (p < eo ==> NoBlank(t, so, eo - 1))
    ensures NoBlank(t, so, eo) <==> p == eo || !IsSpace(t[eo - 1])
  {
    hide IsSpace;
  }

  lemma BeforeIsDocumentedIff(t: string, e: Eol, tabs: nat, fillcol: nat, o: nat, k: nat)
    requires o <= |t| && tabs >= 1 && GoalAt(t, e, tabs, o) > fillcol
    requires var so := StartOfLine(t, e, o);
             var eo, p := EndOfLine(t, e, so), FillPoint(t, e, tabs, fillcol, o);
             o <= eo && so <= k < p && IsSpace(t[k]) && NoBlank(t, k + 1, p)
    ensures var so := StartOfLine(t, e, o);
            IsDocumented(t, e, tabs, fillcol, so, EndOfLine(t, e, so), Some(k)) <==>
            !TabAcross(t, e, tabs, fillcol, o) && !BlankLast(t, e, tabs, fillcol, o)
  {
    hide EolAt, StartOfLine, EndOfLine, GoalAt, FillPoint, IsDocumented, TabAcross, BlankLast, IsSpace;
    var so, p := StartOfLine(t, e, o), FillPoint(t, e, tabs, fillcol, o);
    var eo := EndOfLine(t, e, so);
    ColumnsAround(t, e, tabs, fillcol, o, k);
    forall j: nat | k < j < eo && j != p
      ensures IsSpace(t[j]) ==> GoalAt(t, e, tabs, j) > fillcol
    {
      ColumnsAround(t, e, tabs, fillcol, o, j);
    }
    if p < eo {
      ColumnsAround(t, e, tabs, fillcol, o, p);
    }
    OnlyAtFillPoint(t, e, tabs, fillcol, so, eo, p, k);
    BlankInside(t, e, tabs, fillcol, o, k);
  }

  lemma OnlyAtFillPoint(t: string, e: Eol, tabs: nat, fillcol: nat, so: nat, eo: nat, p: nat, k: nat)
    requires tabs >= 1 && so <= k < p <= eo <= |t| && IsSpace(t[k]) && GoalAt(t, e, tabs, k) <= fillcol
    requires forall j: nat :: k < j < eo && j != p && IsSpace(t[j]) ==> GoalAt(t, e, tabs, j) > fillcol
    ensures IsDocumented(t, e, tabs, fillcol, so, eo, Some(k)) <==>
            (p < eo && IsSpace(t[p]) ==> GoalAt(t, e, tabs, p) > fillcol)
  {
    hide EolAt, StartOfLine, GoalAt, NoBlank, IsSpace;
  }

  /** With a blank before the fill point only a tab can be in the way. */
  lemma BlankInside(t: string, e: Eol, tabs: nat, fillcol: nat, o: nat, k: nat)
    requires o <= |t| && tabs >= 1 && StartOfLine(t, e, o) <= k < FillPoint(t, e, tabs, fillcol, o) && IsSpace(t[k])
    requires o <= EndOfLine(t, e, StartOfLine(t, e, o))
    ensures var p := FillPoint(t, e, tabs, fillcol, o);
            && (TabAcross(t, e, tabs, fillcol, o) <==>
                p < o && t[p] == '\t' && IsSpace(t[p]) && GoalAt(t, e, tabs, p) <= fillcol)
            && !BlankLast(t, e, tabs, fillcol, o)
  {
    hide EolAt, StartOfLine, EndOfLine, GoalAt, FillPoint;
  }

  lemma AfterIsDocumented(t: string, e: Eol, tabs: nat, fillcol: nat, o: nat, k: nat)
    requires o <= |t| && tabs >= 1 && GoalAt(t, e, tabs, o) > fillcol
    requires var so := StartOfLine(t, e, o);
             var eo, p := EndOfLine(t, e, so), FillPoint(t, e, tabs, fillcol, o);
             o <= eo && p <= k < eo - 1 && IsSpace(t[k]) && NoBlank(t, so, k)
    ensures var so := StartOfLine(t, e, o);
            IsDocumented(t, e, tabs, fillcol, so, EndOfLine(t, e, so), Some(k))
    ensures !TabAcross(t, e, tabs, fillcol, o) && !BlankLast(t, e, tabs, fillcol, o)
  {
    hide GoalAt, StartOfLine, EndOfLine, FillPoint;
    var so, p := StartOfLine(t, e, o), FillPoint(t, e, tabs, fillcol, o);
    var eo := EndOfLine(t, e, so);
    forall j: nat | k < j < eo
      ensures GoalAt(t, e, tabs, j) > fillcol
    {
      ColumnsAround(t, e, tabs, fillcol, o, j);
    }
  }

  /** Which places are at or before the fill column. */
  lemma ColumnsAround(t: string, e: Eol, tabs: nat, fillcol: nat, o: nat, j: nat)
    requires o <= |t| && tabs >= 1 && GoalAt(t, e, tabs, o) > fillcol
    requires StartOfLine(t, e, o) <= j < EndOfLine(t, e, StartOfLine(t, e, o))
    ensures var p := FillPoint(t, e, tabs, fillcol, o);
            && (j < p ==> GoalAt(t, e, tabs, j) <= fillcol)
            && (j > p ==> GoalAt(t, e, tabs, j) > fillcol)
            && (j == p && (p == o || t[j] != '\t') ==> GoalAt(t, e, tabs, j) > fillcol)
  {
    hide GoalAt;
    var p := FillPoint(t, e, tabs, fillcol, o);
    if j < p {
      GoalGrows(t, e, tabs, j, p);
    } else if j == p < o {
      StartSame(t, t, e, o, j + 1);
      GoalStep(t, e, tabs, j);
    } else if j > o {
      StartAlong(t, e, o, j);
      GoalGrows(t, e, tabs, o, j);
    }
  }

  /** "a b<tab>c", tabs every 8 and a fill column of 3: the tab starts there,
      and the blank before it is chosen. */
  lemma TabAcrossAt3()
    ensures TabAcross("a b\tc", LF, 8, 3, 5) && BreakPoint("a b\tc", LF, 8, 3, 5) == Some(1)
  {
    var t := "a b\tc";
    GoalOf(t, 8, 1);
    GoalOf(t, 8, 2);
    GoalOf(t, 8, 3);
    GoalOf(t, 8, 4);
    GoalOf(t, 8, 5);
    ThreeOrSeven();
    FillPointOf(t, 8, 3, 5, 3);
    ChosenBefore(t, EndOfLine(t, LF, 0), 3, 1);
  }

  lemma ThreeOrSeven()
    ensures Columns.BitOr(3, 7) == 7
  {
    assert Columns.BitOr(1, 3) == 3;
  }

  lemma FillPointOf(t: string, tabs: nat, fillcol: nat, o: nat, p: nat)
    requires tabs >= 1 && p <= o <= |t| && GoalAt(t, LF, tabs, p) <= fillcol + 1
    requires forall q: nat :: p < q <= o ==> GoalAt(t, LF, tabs, q) > fillcol + 1
    requires StartOfLine(t, LF, o) <= p
    ensures FillPoint(t, LF, tabs, fillcol, o) == p
  {
  }

  lemma ChosenBefore(t: string, eo: nat, p: nat, k: nat)
    requires k < p <= |t| && eo <= |t| && IsSpace(t[k]) && NoBlank(t, k + 1, p)
    ensures Chosen(t, 0, eo, p) == Some(k)
  {
  }

  lemma GoalOf(t: string, tabs: nat, o: nat)
    requires tabs >= 1 && '\n' !in t && 0 < o <= |t|
    ensures StartOfLine(t, LF, o) == StartOfLine(t, LF, o - 1) == 0
    ensures GoalAt(t, LF, tabs, o) == Columns.GoalcStep(GoalAt(t, LF, tabs, o - 1), t[o - 1], tabs)
  {
    StartOfLineUnique(t, LF, o, 0);
    StartOfLineUnique(t, LF, o - 1, 0);
    assert t[0..o][..o - 1] == t[0..o - 1];
  }

  /** The blank that ends "ab " is not seen with a fill column of 1. */
  lemma BlankLastAt1()
    ensures BlankLast("ab ", LF, 8, 1, 3) && BreakPoint("ab ", LF, 8, 1, 3) == None
  {
    GoalOf("ab ", 8, 1);
    GoalOf("ab ", 8, 2);
    GoalOf("ab ", 8, 3);
  }

  // ---------------------------------------------------------------------
  // Breaking a line
  // ---------------------------------------------------------------------

  /** The del blanks at a give way to an end-of-line, and point goes with the
      text before or after it. */
  predicate Broken(d: Doc, e: Eol, a: nat, del: nat, r: Doc) {
    && Proper(d) && a + del <= |d.text| && Blank(d.text[a..a + del])
    && r.text == Splice(d.text, a, del, EolStr(e))
    && r.pt == Shift(Shift(d.pt, a, 0, del), a, EolLen(e), 0)
    && r.marks == Shifted(Shifted(d.marks, a, 0, del), a, EolLen(e), 0)
    && r.readonly == d.readonly
  }

  /** They are all the blanks around the one at k, on the line of o. */
  predicate AroundBlank(t: string, e: Eol, o: nat, k: nat, a: nat, del: nat) {
    && o <= |t| && k < |t| && IsSpace(t[k])
    && StartOfLine(t, e, o) <= a <= k < a + del <= EndOfLine(t, e, k + 1)
    && (a == StartOfLine(t, e, o) || !IsSpace(t[a - 1]))
    && (a + del == EndOfLine(t, e, k + 1) || !IsSpace(t[a + del]))
  }

  /** The break made at x, with point kept on a marker. */
  method BreakLine(d: Doc, e: Eol, x: nat) returns (r: Doc, a: nat, del: nat)
    requires Proper(d) && 0 < x <= |d.text| && BlankBefore(d.text, e, x) && (d.readonly ==> NoneAfter(d.text, e, x))
    ensures Proper(r) && NonSpace(r.text) == NonSpace(d.text)
    ensures if d.readonly then r == d
            else Broken(d, e, a, del, r) && AroundBlank(d.text, e, x, x - 1, a, del)
  {
    hide EolAt, StartOfLine, EndOfLine, Splice, Shift, Blank, IsSpace, NonSpace, NoneAfter, EolStr, BackOver;
    BlankEol(e);
    var m := d.(pt := x, marks := d.marks + [d.pt]);
    r, del := DeleteHorizontalSpace(m, e);
    a := r.pt;
    if !d.readonly {
      PutWhereDeleted(m, a, del, r, EolStr(e));
    }
    r := ReplaceEstr(r, 0, EolStr(e));
    var n := |d.marks|;
    if !d.readonly {
      assert r.marks[..n] == Shifted(Shifted(d.marks, a, 0, del), a, EolLen(e), 0);
    }
    r := r.(pt := r.marks[n], marks := r.marks[..n]);
  }

  lemma BlankEol(e: Eol)
    ensures Blank(EolStr(e)) && |EolStr(e)| == EolLen(e)
  {
  }

  /** Whether fill_break_line makes a break. */
  predicate Breaks(t: string, e: Eol, tabs: nat, fillcol: nat, o: nat)
    requires o <= |t| && tabs >= 1
  {
    GoalAt(t, e, tabs, o) > fillcol && BreakPoint(t, e, tabs, fillcol, o).Some?
  }

  /** fill_break_line. In a read-only buffer, if it ends, nothing changes, but
      it reports a break all the same. */
  method FillBreakLine(d: Doc, e: Eol, tabs: nat, fillcol: nat) returns (made: bool, r: Doc, a: nat, del: nat)
    requires Proper(d) && tabs >= 1
    requires d.readonly && Breaks(d.text, e, tabs, fillcol, d.pt) ==>
             NoneAfter(d.text, e, BreakPoint(d.text, e, tabs, fillcol, d.pt).value + 1)
    ensures Proper(r) && NonSpace(r.text) == NonSpace(d.text)
    ensures made <==> Breaks(d.text, e, tabs, fillcol, d.pt)
    ensures if d.readonly || !made then r == d
            else Broken(d, e, a, del, r)
                 && AroundBlank(d.text, e, d.pt, BreakPoint(d.text, e, tabs, fillcol, d.pt).value, a, del)
  {
    hide EolAt, StartOfLine, EndOfLine, GoalAt, BreakPoint, Broken, IsSpace, NonSpace, NoneAfter, BlankBefore;
    made, r, a, del := false, d, 0, 0;
    if GoalAt(d.text, e, tabs, d.pt) > fillcol {
      var k := FindBreakPoint(d.text, e, tabs, fillcol, d.pt);
      if k.Some? {
        BlankBeforeBreak(d.text, e, tabs, fillcol, d.pt);
        r, a, del := BreakLine(d, e, k.value + 1);
        made := true;
      }
    }
  }

  /** The place after the blank chosen lies on the line. */
  lemma BlankBeforeBreak(t: string, e: Eol, tabs: nat, fillcol: nat, o: nat)
    requires o <= |t| && tabs >= 1 && BreakPoint(t, e, tabs, fillcol, o).Some?
    ensures var x := BreakPoint(t, e, tabs, fillcol, o).value + 1;
            x <= |t| && StartOfLine(t, e, x) == StartOfLine(t, e, o) && BlankBefore(t, e, x)
  {
    hide EolAt, StartOfLine, EndOfLine, GoalAt, FillPoint, Chosen, NoBlank, IsSpace;
    var k := BreakPoint(t, e, tabs, fillcol, o).value;
    if k < FillPoint(t, e, tabs, fillcol, o) {
      StartSame(t, t, e, o, k + 1);
    } else {
      StartAlong(t, e, o, k + 1);
    }
  }

  /** Breaking the line that point ends leaves point at the end of a line,
      nearer to its start. */
  lemma BreakProgress(d: Doc, e: Eol, r: Doc, a: nat, del: nat)
    requires Proper(d) && EndOfLine(d.text, e, d.pt) == d.pt
    requires Broken(d, e, a, del, r) && StartOfLine(d.text, e, d.pt) <= a < a + del <= d.pt
    ensures Proper(r) && EndOfLine(r.text, e, r.pt) == r.pt
    ensures r.pt - StartOfLine(r.text, e, r.pt) < d.pt - StartOfLine(d.text, e, d.pt)
  {
    hide Blank;
    assert EolAt(r.text, e, a);
    if a + del == d.pt {
      BrokenAtEnd(d, e, a, del, r);
    } else {
      BrokenBefore(d, e, a, del, r);
    }
  }

  lemma BrokenAtEnd(d: Doc, e: Eol, a: nat, del: nat, r: Doc)
    requires Broken(d, e, a, del, r) && StartOfLine(d.text, e, d.pt) <= a < a + del == d.pt
    ensures r.pt == a && StartOfLine(r.text, e, a) == StartOfLine(d.text, e, d.pt)
  {
    assert r.text[..a] == d.text[..a];
    StartSame(d.text, r.text, e, d.pt, a);
  }

  lemma BrokenBefore(d: Doc, e: Eol, a: nat, del: nat, r: Doc)
    requires Broken(d, e, a, del, r) && a < a + del < d.pt && EndOfLine(d.text, e, d.pt) == d.pt
    ensures r.pt == d.pt - del + EolLen(e) <= |r.text| && EndOfLine(r.text, e, r.pt) == r.pt
  {
    assert r.text[r.pt..] == d.text[d.pt..];
    assert EolAt(d.text, e, d.pt) ==> EolAt(r.text, e, r.pt);
  }

  lemma BreakInside(t: string, e: Eol, o: nat, k: nat, a: nat, del: nat)
    requires AroundBlank(t, e, o, k, a, del) && EndOfLine(t, e, o) == o && k < o
    ensures StartOfLine(t, e, o) <= a < a + del <= o
  {
    EndNotPast(t, e, k + 1, o);
  }

  lemma BreakOnLine(t: string, e: Eol, tabs: nat, fillcol: nat, o: nat)
    requires o <= |t| && tabs >= 1 && EndOfLine(t, e, o) == o && BreakPoint(t, e, tabs, fillcol, o).Some?
    ensures BreakPoint(t, e, tabs, fillcol, o).value < o
  {
    EndNotPast(t, e, StartOfLine(t, e, o), o);
  }

  lemma EndNotPast(t: string, e: Eol, i: nat, o: nat)
    requires i <= o <= |t| && EndOfLine(t, e, o) == o
    ensures EndOfLine(t, e, i) <= o
  {
    if o < |t| {
      assert EolAt(t, e, o);
    }
  }

  // ---------------------------------------------------------------------
  // The lines left behind
  // ---------------------------------------------------------------------

  /** The line that ends at q is no wider than the fill column, or has no blank
      to break it at. */
  predicate LineFits(t: string, e: Eol, tabs: nat, fillcol: nat, q: nat)
    requires q <= |t| && tabs >= 1
  {
    GoalAt(t, e, tabs, q) <= fillcol || NoBlank(t, StartOfLine(t, e, q), q)
  }

  /** So are all the lines that end from s on and before o. */
  ghost predicate LinesFit(t: string, e: Eol, tabs: nat, fillcol: nat, s: nat, o: nat)
    requires o <= |t| && tabs >= 1
  {
    forall q: nat :: s <= q < o && EolAt(t, e, q) ==> LineFits(t, e, tabs, fillcol, q)
  }

  lemma FitsByPrefix(t: string, t': string, e: Eol, tabs: nat, fillcol: nat, q: nat)
    requires tabs >= 1 && q <= |t| && q <= |t'| && t[..q] == t'[..q]
    ensures LineFits(t, e, tabs, fillcol, q) == LineFits(t', e, tabs, fillcol, q)
  {
    StartByPrefix(t, t', e, q);
    var so := StartOfLine(t, e, q);
    assert t[so..q] == t[..q][so..] && t'[so..q] == t'[..q][so..];
    assert forall k :: so <= k < q ==> t[k] == t[..q][k] && t'[k] == t'[..q][k];
  }

  /** The part of a line before the break. */
  lemma FirstPartFits(t: string, e: Eol, tabs: nat, fillcol: nat, o: nat, k: nat, a: nat, del: nat)
    requires tabs >= 1 && AroundBlank(t, e, o, k, a, del) && Blank(t[a..a + del])
    requires BreakPoint(t, e, tabs, fillcol, o) == Some(k)
    ensures LineFits(t, e, tabs, fillcol, a)
  {
    hide GoalAt, EolAt, StartOfLine, EndOfLine, IsSpace, FillPoint;
    var p := FillPoint(t, e, tabs, fillcol, o);
    if k < p {
      GoalGrows(t, e, tabs, k, p);
      GoalGrows(t, e, tabs, a, k);
    } else {
      assert a < k ==> IsSpace(t[a..a + del][0]);
      BlankBeforeBreak(t, e, tabs, fillcol, o);
      StartSame(t, t, e, k + 1, a);
    }
  }

  /** Before the break nothing changes, and no other end-of-line comes up to
      point. */
  lemma BreakKeepsFit(d: Doc, e: Eol, tabs: nat, fillcol: nat, s: nat, k: nat, r: Doc, a: nat, del: nat)
    requires Proper(d) && tabs >= 1 && EndOfLine(d.text, e, d.pt) == d.pt
    requires LinesFit(d.text, e, tabs, fillcol, s, d.pt)
    requires Broken(d, e, a, del, r) && AroundBlank(d.text, e, d.pt, k, a, del)
    requires BreakPoint(d.text, e, tabs, fillcol, d.pt) == Some(k) && k < d.pt
    ensures r.pt <= |r.text| && r.text[..a] == d.text[..a] && LinesFit(r.text, e, tabs, fillcol, s, r.pt)
  {
    hide EolAt, StartOfLine, EndOfLine, BreakPoint, Blank, Splice, Shifted, Shift, IsSpace, LineFits, Proper, EolStr;
    BreakInside(d.text, e, d.pt, k, a, del);
    SamePrefix(d, e, a, del, r);
    FirstPartFits(d.text, e, tabs, fillcol, d.pt, k, a, del);
    forall q: nat | s <= q < r.pt && EolAt(r.text, e, q)
      ensures LineFits(r.text, e, tabs, fillcol, q)
    {
      if q > a {
        NoEolAfter(d, e, a, del, r, q);
      } else {
        FitsByPrefix(d.text, r.text, e, tabs, fillcol, q);
      }
    }
  }

  lemma SamePrefix(d: Doc, e: Eol, a: nat, del: nat, r: Doc)
    requires Broken(d, e, a, del, r)
    ensures r.pt <= |r.text| && a <= |d.text| && r.text[..a] == d.text[..a]
    ensures forall q: nat :: q < a && EolAt(r.text, e, q) ==> EolAt(d.text, e, q)
    ensures forall q: nat :: q <= a ==> r.text[..q] == d.text[..q]
  {
    hide Blank;
  }

  lemma NoEolAfter(d: Doc, e: Eol, a: nat, del: nat, r: Doc, q: nat)
    requires Broken(d, e, a, del, r) && EndOfLine(d.text, e, d.pt) == d.pt
    requires StartOfLine(d.text, e, d.pt) <= a < a + del <= d.pt && a < q < r.pt
    ensures !EolAt(r.text, e, q)
  {
    hide Blank;
    assert EolAt(r.text, e, q) ==> q >= a + EolLen(e) && EolAt(d.text, e, q - EolLen(e) + del);
  }
}
