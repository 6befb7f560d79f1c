/** Motion commands on the buffer itself, gap and all (src/buffer.c:723-804,
    src/basic.c:54-65, 131-150). Each is proved against Motion. */
module Moves {
  import opened Basics
  import opened Eol
  import opened LineIndex
  import opened Gap
  import opened Buffers
  import opened KillRings
  import Columns
  import M = Motion

  /** Moving a quiet gap to a whole offset keeps the buffer clear. */
  method SetPoint(bp: Buffer, o: nat)
    requires bp.Valid() && Clear(bp) && M.Whole(bp.text, bp.eol, o)
    modifies bp`pt, bp`hole, bp.astr`contents, bp.astr.text
    ensures bp.Valid() && Clear(bp) && bp.pt == o
  {
    MoveKeepsQuiet(bp.hole, bp.pt, o);
    bp.SetBufferPt(o);
  }

  method Bolp(bp: Buffer) returns (b: bool)
    requires bp.Valid() && Clear(bp)
    ensures b == (StartOfLine(bp.text, bp.eol, bp.pt) == bp.pt)
  {
    ClearIsTransparent(bp);
    var so := bp.BufferStartOfLine(bp.pt);
    b := bp.pt == so;
  }

  method Eolp(bp: Buffer) returns (b: bool)
    requires bp.Valid() && Clear(bp)
    ensures b == (EndOfLine(bp.text, bp.eol, bp.pt) == bp.pt)
  {
    ClearIsTransparent(bp);
    var so := bp.BufferStartOfLine(bp.pt);
    var eo := bp.BufferEndOfLine(bp.pt);
    b := bp.pt - so == eo - so;
  }

  /** beginning-of-line and end-of-line. */
  method BeginningOfLine(bp: Buffer)
    requires bp.Valid() && Clear(bp)
    modifies bp`pt, bp`hole, bp`goalc, bp.astr`contents, bp.astr.text
    ensures bp.Valid() && Clear(bp) && bp.pt == StartOfLine(bp.text, bp.eol, old(bp.pt)) && bp.goalc == 0
  {
    ClearIsTransparent(bp);
    M.StartIsWhole(bp.text, bp.eol, bp.pt);
    var so := bp.BufferStartOfLine(bp.pt);
    GoTo(bp, so);
    bp.goalc := 0;
  }

  method EndOfLineCommand(bp: Buffer)
    requires bp.Valid() && Clear(bp)
    modifies bp`pt, bp`hole, bp`goalc, bp.astr`contents, bp.astr.text
    ensures bp.Valid() && Clear(bp) && bp.pt == EndOfLine(bp.text, bp.eol, old(bp.pt))
    ensures bp.goalc == SIZE_MODULUS - 1
  {
    ClearIsTransparent(bp);
    M.EndIsWhole(bp.text, bp.eol, bp.pt);
    var eo := bp.BufferEndOfLine(bp.pt);
    GoTo(bp, eo);
    bp.goalc := SIZE_MODULUS - 1;
  }

  /** Step over the end-of-line after point, or the one before it. */
  method StepOverEol(bp: Buffer)
    requires bp.Valid() && Clear(bp) && bp.pt < |bp.text| && EndOfLine(bp.text, bp.eol, bp.pt) == bp.pt
    modifies bp`pt, bp`hole, bp`goalc, bp.astr`contents, bp.astr.text
    ensures bp.Valid() && Clear(bp) && M.Forward(bp.text, bp.eol, old(bp.pt)) == Some(bp.pt)
  {
    M.ForwardIs(bp.text, bp.eol, bp.pt);
    SetPoint(bp, bp.pt + EolLen(bp.eol));
    BeginningOfLine(bp);
  }

  method StepBackOverEol(bp: Buffer)
    requires bp.Valid() && Clear(bp) && 0 < bp.pt && StartOfLine(bp.text, bp.eol, bp.pt) == bp.pt
    modifies bp`pt, bp`hole, bp`goalc, bp.astr`contents, bp.astr.text
    ensures bp.Valid() && Clear(bp) && M.Backward(bp.text, bp.eol, old(bp.pt)) == Some(bp.pt)
  {
    M.BackwardIs(bp.text, bp.eol, bp.pt);
    SetPoint(bp, bp.pt - EolLen(bp.eol));
    EndOfLineCommand(bp);
  }

  /** One round of move_char, each way. */
  method StepForward(bp: Buffer) returns (ok: bool)
    requires bp.Valid() && Clear(bp)
    modifies bp`pt, bp`hole, bp`goalc, bp.astr`contents, bp.astr.text
    ensures bp.Valid() && Clear(bp)
    ensures M.Forward(bp.text, bp.eol, old(bp.pt)) == if ok then Some(bp.pt) else None
    ensures !ok ==> bp.pt == old(bp.pt)
  {
    hide Bytes, Quiet, SplitsEol, Nth, Distinct;
    if bp.pt < |bp.text| { M.ForwardIs(bp.text, bp.eol, bp.pt); }
    var eol := Eolp(bp);
    if !eol {
      SetPoint(bp, bp.pt + 1);
      return true;
    }
    var eob := AtEnd(bp);
    if !eob {
      StepOverEol(bp);
    }
    return !eob;
  }

  method StepBackward(bp: Buffer) returns (ok: bool)
    requires bp.Valid() && Clear(bp)
    modifies bp`pt, bp`hole, bp`goalc, bp.astr`contents, bp.astr.text
    ensures bp.Valid() && Clear(bp)
    ensures M.Backward(bp.text, bp.eol, old(bp.pt)) == if ok then Some(bp.pt) else None
    ensures !ok ==> bp.pt == old(bp.pt)
  {
    hide Bytes, Quiet, SplitsEol, Nth, Distinct;
    if bp.pt > 0 { M.BackwardIs(bp.text, bp.eol, bp.pt); }
    var bol := Bolp(bp);
    if !bol {
      SetPoint(bp, bp.pt - 1);
      return true;
    }
    if bp.pt == 0 {
      return false;
    }
    StepBackOverEol(bp);
    return true;
  }

  /** One round of move_char, either way. */
  method StepEither(bp: Buffer, forward: bool) returns (ok: bool)
    requires bp.Valid() && Clear(bp)
    modifies bp`pt, bp`hole, bp`goalc, bp.astr`contents, bp.astr.text
    ensures bp.Valid() && Clear(bp)
    ensures M.Step(bp.text, bp.eol, old(bp.pt), forward) == if ok then Some(bp.pt) else None
    ensures !ok ==> bp.pt == old(bp.pt)
  {
    if forward {
      ok := StepForward(bp);
    } else {
      ok := StepBackward(bp);
    }
  }

  /** eolp or bolp, and the character on the side point is moving to. */
  method LookAhead(bp: Buffer, forward: bool) returns (edge: bool, c: char)
    requires bp.Valid() && Clear(bp)
    ensures edge == M.AtEdge(bp.text, bp.eol, bp.pt, forward)
    ensures !edge ==> (forward || bp.pt > 0) && c == bp.text[if forward then bp.pt else bp.pt - 1]
  {
    c := '\0';
    if forward {
      edge := Eolp(bp);
    } else {
      edge := Bolp(bp);
    }
    if !edge {
      c := bp.GetBufferChar(if forward then bp.pt else bp.pt - 1);
    }
  }

  /** The inner loop of move_word: to the end of a word that lies ahead on the
      line, or to the edge of the line. */
  method ScanLine(bp: Buffer, forward: bool, ghost o: nat) returns (got: bool, ghost a: nat)
    requires bp.Valid() && Clear(bp) && M.Scanned(bp.text, o, bp.pt, forward, false, 0)
    modifies bp`pt, bp`hole, bp`goalc, bp.astr`contents, bp.astr.text
    ensures bp.Valid() && Clear(bp) && M.Scanned(bp.text, o, bp.pt, forward, got, a)
    ensures got ==> M.WordEnds(bp.text, bp.eol, o, bp.pt, forward)
    ensures !got ==> M.AtEdge(bp.text, bp.eol, bp.pt, forward)
    ensures if forward then bp.pt >= old(bp.pt) else bp.pt <= old(bp.pt)
  {
    hide Bytes, Quiet, SplitsEol;
    got, a := false, 0;
    while true
      invariant bp.Valid() && Clear(bp) && M.Scanned(bp.text, o, bp.pt, forward, got, a)
      invariant if forward then bp.pt >= old(bp.pt) else bp.pt <= old(bp.pt)
      decreases if forward then |bp.text| - bp.pt else bp.pt
    {
      var edge, c := LookAhead(bp, forward);
      if edge || (!M.IsWordChar(c) && got) {
        return;
      }
      M.ScanOn(bp.text, bp.eol, o, bp.pt, forward, got, a);
      if M.IsWordChar(c) && !got {
        got, a := true, bp.pt;
      }
      var ok := StepEither(bp, forward);
    }
  }

  /** move_word: over the next word, to its far end. Without one point is left
      at that end of the buffer. */
  method MoveWord(bp: Buffer, forward: bool) returns (got: bool)
    requires bp.Valid() && Clear(bp)
    modifies bp`pt, bp`hole, bp`goalc, bp.astr`contents, bp.astr.text
    ensures bp.Valid() && Clear(bp)
    ensures got ==> M.WordEnds(bp.text, bp.eol, old(bp.pt), bp.pt, forward)
    ensures !got ==> bp.pt == (if forward then |bp.text| else 0)
                     && M.Scanned(bp.text, old(bp.pt), bp.pt, forward, false, 0)
  {
    hide Bytes, Quiet, SplitsEol;
    ghost var o := bp.pt;
    while true
      invariant bp.Valid() && Clear(bp) && M.Scanned(bp.text, o, bp.pt, forward, false, 0)
      decreases if forward then |bp.text| - bp.pt else bp.pt
    {
      ghost var a;
      got, a := ScanLine(bp, forward, o);
      if got {
        return;
      }
      M.ScanOver(bp.text, bp.eol, o, bp.pt, forward, 0);
      var ok := StepEither(bp, forward);
      if !ok {
        return;
      }
    }
  }

  /** move_char. */
  method MoveChar(bp: Buffer, offset: int) returns (ok: bool)
    requires bp.Valid() && Clear(bp)
    modifies bp`pt, bp`hole, bp`goalc, bp.astr`contents, bp.astr.text
    ensures bp.Valid() && Clear(bp)
    ensures M.Moved(ok, bp.pt) == M.MoveChar(bp.text, bp.eol, old(bp.pt), offset)
  {
    var n := if offset >= 0 then offset else -offset;
    var i := 0;
    while i < n
      invariant 0 <= i <= n && bp.Valid() && Clear(bp)
      invariant M.Steps(bp.text, bp.eol, bp.pt, n - i, offset >= 0) == M.MoveChar(bp.text, bp.eol, old(bp.pt), offset)
    {
      ok := StepEither(bp, offset >= 0);
      if !ok {
        return false;
      }
      i := i + 1;
    }
    return true;
  }

  /** offset_to_line: the number of ends-of-line that start before offset. */
  method OffsetToLine(bp: Buffer, offset: nat) returns (n: nat)
    requires bp.Valid() && Clear(bp) && offset <= |bp.text|
    ensures n == M.Count(bp.text, bp.eol, offset)
  {
    ghost var t, e := bp.text, bp.eol;
    ClearIsTransparent(bp);
    n := 0;
    var o := 0;
    var eo := bp.BufferEndOfLine(o);
    while eo < offset
      invariant M.HopTo(t, e, o, offset, n) && eo == EndOfLine(t, e, o)
      decreases |t| - o
    {
      M.HopOn(t, e, o, offset, n);
      var next := bp.BufferNextLine(o);
      n, o := n + 1, next.value;
      eo := bp.BufferEndOfLine(o);
    }
    M.HopDone(t, e, o, offset, n);
  }

  /** goto_goalc: to the goal column on the line of point, or its end. */
  method GotoGoalc(bp: Buffer)
    requires bp.Valid() && Clear(bp)
    modifies bp`pt, bp`hole, bp.astr`contents, bp.astr.text
    ensures bp.Valid() && Clear(bp)
    ensures AtGoal(bp.text, bp.eol, bp.tabWidth, old(bp.pt), bp.goalc, bp.pt)
  {
    hide Bytes, Quiet, SplitsEol, EndOfLine, StartOfLine;
    ClearIsTransparent(bp);
    var so := bp.BufferStartOfLine(bp.pt);
    var eo := bp.BufferEndOfLine(bp.pt);
    var line := bp.GetBufferRegion(so, eo);
    var i := Columns.FindGoalc(line.text, bp.goalc, bp.tabWidth);
    M.LineIsWhole(bp.text, bp.eol, bp.pt, so + i);
    SetPoint(bp, so + i);
  }

  /** p is where the goal column lies on the line of o. */
  ghost predicate AtGoal(t: string, e: Eol, tabs: nat, o: nat, goal: nat, p: nat)
    requires o <= |t| && tabs >= 1
  {
    var so, eo := StartOfLine(t, e, o), EndOfLine(t, e, o);
    so <= p <= eo && Columns.Lands(t[so..eo], goal, tabs, p - so)
  }

  /** The loop of move_line. */
  method Hop(bp: Buffer, n: nat, down: bool) returns (left: nat)
    requires bp.Valid() && Clear(bp)
    modifies bp`pt, bp`hole, bp.astr`contents, bp.astr.text
    ensures bp.Valid() && Clear(bp)
    ensures M.Hopped(left, bp.pt) == M.Hop(bp.text, bp.eol, old(bp.pt), n, down)
  {
    hide Bytes, Quiet, SplitsEol, NextLine, PrevLine;
    left := n;
    while left > 0
      invariant left <= n && bp.Valid() && Clear(bp)
      invariant M.Hop(bp.text, bp.eol, bp.pt, left, down) == M.Hop(bp.text, bp.eol, old(bp.pt), n, down)
    {
      ClearIsTransparent(bp);
      M.NextIsNext(bp.text, bp.eol, bp.pt);
      M.PrevIsPrevious(bp.text, bp.eol, bp.pt);
      var o := NextOrPrev(bp, down);
      if o.None? {
        break;
      }
      SetPoint(bp, o.value);
      left := left - 1;
    }
  }

  method NextOrPrev(bp: Buffer, down: bool) returns (o: Option<nat>)
    requires bp.Valid() && Clear(bp)
    ensures o == if down then NextLine(bp.text, bp.eol, bp.pt) else PrevLine(bp.text, bp.eol, bp.pt)
  {
    ClearIsTransparent(bp);
    if down {
      o := bp.BufferNextLine(bp.pt);
    } else {
      o := bp.BufferPrevLine(bp.pt);
    }
  }

  /** move_line. It keeps the goal column during a run of line motions. */
  method MoveLine(bp: Buffer, n: int, keepGoal: bool) returns (ok: bool)
    requires bp.Valid() && Clear(bp)
    modifies bp`pt, bp`hole, bp`goalc, bp.astr`contents, bp.astr.text
    ensures bp.Valid() && Clear(bp)
    ensures var line := M.Count(bp.text, bp.eol, old(bp.pt)) + n;
            && M.Count(bp.text, bp.eol, bp.pt) == M.Clamp(bp.text, bp.eol, line)
            && (ok <==> 0 <= line <= M.Count(bp.text, bp.eol, |bp.text|))
    ensures bp.goalc == if keepGoal then old(bp.goalc)
                        else Columns.Goalc(bp.text[StartOfLine(bp.text, bp.eol, old(bp.pt))..old(bp.pt)], bp.tabWidth)
    ensures AtGoal(bp.text, bp.eol, bp.tabWidth, bp.pt, bp.goalc, bp.pt)
  {
    hide Bytes, Quiet, SplitsEol, M.Count, M.Clamp, Columns.Goalc, Columns.Lands, EolAt;
    if !keepGoal {
      TakeGoal(bp);
    }
    var left := HopLines(bp, n);
    ghost var o := bp.pt;
    GotoGoalc(bp);
    M.SameLine(bp.text, bp.eol, o, bp.pt);
    SameGoal(bp.text, bp.eol, bp.tabWidth, o, bp.goalc, bp.pt);
    ok := left == 0;
  }

  /** Make the column of point the goal column. */
  method TakeGoal(bp: Buffer)
    requires bp.Valid() && Clear(bp)
    modifies bp`goalc
    ensures bp.Valid() && Clear(bp)
    ensures bp.goalc == Columns.Goalc(bp.text[StartOfLine(bp.text, bp.eol, bp.pt)..bp.pt], bp.tabWidth)
  {
    ClearIsTransparent(bp);
    TransparentAgrees(bp.text, bp.eol, bp.pt, bp.hole, bp.pt);
    bp.goalc := bp.GetGoalc();
  }

  method HopLines(bp: Buffer, n: int) returns (left: nat)
    requires bp.Valid() && Clear(bp)
    modifies bp`pt, bp`hole, bp.astr`contents, bp.astr.text
    ensures bp.Valid() && Clear(bp)
    ensures var line := M.Count(bp.text, bp.eol, old(bp.pt)) + n;
            && M.Count(bp.text, bp.eol, bp.pt) == M.Clamp(bp.text, bp.eol, line)
            && (left == 0 <==> 0 <= line <= M.Count(bp.text, bp.eol, |bp.text|))
  {
    M.HopLands(bp.text, bp.eol, bp.pt, if n >= 0 then n else -n, n >= 0);
    left := Hop(bp, if n >= 0 then n else -n, n >= 0);
  }

  lemma SameGoal(t: string, e: Eol, tabs: nat, o: nat, goal: nat, p: nat)
    requires M.Whole(t, e, o) && tabs >= 1 && AtGoal(t, e, tabs, o, goal, p)
    ensures AtGoal(t, e, tabs, p, goal, p)
  {
    M.SameEnds(t, e, o, p);
  }

  /** goto-line: to the start of that line, or of the nearest there is. */
  method GotoLine(bp: Buffer, n: int)
    requires bp.Valid() && Clear(bp)
    modifies bp`pt, bp`hole, bp`goalc, bp.astr`contents, bp.astr.text
    ensures bp.Valid() && Clear(bp)
    ensures M.Count(bp.text, bp.eol, bp.pt) == M.Clamp(bp.text, bp.eol, Max(n, 1) - 1)
    ensures StartOfLine(bp.text, bp.eol, bp.pt) == bp.pt
  {
    hide Bytes, Quiet, SplitsEol, M.Count;
    var line := OffsetToLine(bp, bp.pt);
    var ok := MoveLine(bp, Max(n, 1) - 1 - line, false);
    ghost var o := bp.pt;
    BeginningOfLine(bp);
    M.SameLine(bp.text, bp.eol, o, bp.pt);
    M.SameEnds(bp.text, bp.eol, o, bp.pt);
  }
}
