/** Killing and yanking, over the plain text of the buffer (src/killring.c,
    and delete_region and delete_char in src/buffer.c). */
module Kill {
  import opened Basics
  import opened Eol
  import opened Gap
  import opened UndoLog

  /** delete_region: point rides on a marker while the region is deleted. */
  function DeleteRegion(s: State, start: nat, end: nat): Outcome
    requires start <= end
  {
    if s.readonly then Done(s)
    else
      var g := GotoOffset(s, start);
      if g.Crash? then Crash
      else
        var r := ReplaceEstr(g.s, end - start, ESTR_EMPTY);
        if r.Crash? then Crash else GotoOffset(r.s, AdjustOffset(s.pt, start, 0, end - start))
  }

  /** delete_char: the whole end-of-line at the end of a line. */
  function DeleteChar(s: State): Outcome
    requires s.pt <= |s.text|
  {
    if s.pt == |s.text| then Done(s)
    else ReplaceEstr(s, if EndOfLine(s.text, s.eol, s.pt) == s.pt then EolLen(s.eol) else 1, ESTR_EMPTY)
  }

  /** Outcome of a kill: whether it succeeded, the buffer and the kill ring. */
  datatype Killed = Failed | Killed(ok: bool, s: State, ring: string)

  /** copy_or_kill_region. The ring is an LF string. */
  function CopyOrKill(s: State, ring: string, kill: bool, start: nat, end: nat): Killed
    requires start <= end <= |s.text|
  {
    var ring' := ring + Translate(s.text[start..end], s.eol, LF);
    if !kill then Killed(true, s, ring')
    else
      var d := DeleteRegion(s, start, end);
      if d.Crash? then Failed else Killed(true, d.s, ring')
  }

  /** yank: insert the ring at point. */
  function Yank(s: State, ring: string): Outcome {
    ReplaceEstr(s, 0, Estr(ring, LF))
  }

  /** kill_line; blank tells whether only blanks follow point on the line. */
  function KillLine(s: State, ring: string, whole: bool): Killed
    requires s.pt <= |s.text|
  {
    if s.pt == |s.text| then Killed(false, s, ring)
    else
      var e := EndOfLine(s.text, s.eol, s.pt);
      KillLineEnd(KillRest(StartSequence(s), ring, e), whole || OnlyBlanks(s.text[s.pt..e]))
  }

  /** The middle of kill_line: kill up to the end of the line at e. */
  function KillRest(s: State, ring: string, e: nat): Killed
    requires s.pt <= e <= |s.text|
  {
    if e == s.pt then Killed(true, s, ring) else CopyOrKill(s, ring, true, s.pt, e)
  }

  /** kill_line once the rest of the line is gone. */
  function KillLineEnd(k: Killed, eolToo: bool): Killed {
    if k.Failed? then Failed
    else if eolToo && k.s.pt != |k.s.text| then KillEol(k.s, k.ring)
    else Killed(true, EndSequence(k.s), k.ring)
  }

  predicate OnlyBlanks(t: string) {
    forall i :: 0 <= i < |t| ==> t[i] == ' ' || t[i] == '\t'
  }

  /** The tail of kill_line: delete one character as a command would, and
      append a line-feed to the ring. On failure the sequence stays open. */
  function KillEol(s: State, ring: string): Killed {
    if s.pt > |s.text| then Failed
    else
      var d := DeleteChar(StartSequence(s));
      if d.Crash? then Failed
      else
        var s' := EndSequence(d.s);
        if s.readonly then Killed(false, s', ring)
        else Killed(true, EndSequence(s'), ring + "\n")
  }

  // ---------------------------------------------------------------------
  // Deleting a region
  // ---------------------------------------------------------------------

  /** Where point is once a region has been deleted. */
  function CutPoint(pt: nat, start: nat, end: nat): nat
    requires start <= end
  {
    if pt <= start then pt else if pt <= end then start else pt - (end - start)
  }

  /** A deletion that does not abort takes exactly the region, and point stays
      with the text it was at. */
  lemma DeleteRegionText(s: State, start: nat, end: nat)
    requires s.pt <= |s.text| && start <= end <= |s.text| < SIZE_MODULUS && !s.readonly
    requires DeleteRegion(s, start, end).Done?
    ensures var d := DeleteRegion(s, start, end).s;
            && d.text == Splice(s.text, start, end - start, "") && d.pt == CutPoint(s.pt, start, end)
            && d.eol == s.eol && d.readonly == s.readonly
  {
    assert Translate("", LF, s.eol) == "";
    DeleteRegionIff(s, start, end);
    MarkerMoves(s.pt, start, 0, end - start);
  }

  /** Inside a region that is longer than what is before point, the marker's
      offset wraps and the editor aborts. */
  lemma DeleteRegionIff(s: State, start: nat, end: nat)
    requires s.pt <= |s.text| && start <= end <= |s.text| < SIZE_MODULUS && !s.readonly
    ensures DeleteRegion(s, start, end).Done? <==> (s.pt > start ==> s.pt >= end - start)
  {
    assert Translate("", LF, s.eol) == "";
    var g := s.(pt := start);
    var r := ReplaceEstr(g, end - start, ESTR_EMPTY).s;
    MarkerInsideIff(s.pt, start, 0, end - start, |s.text|);
    assert |r.text| == |s.text| - (end - start);
  }

  /** So does the deletion of three of four line-feeds, after the first one. */
  lemma DeleteRegionAborts()
    ensures DeleteRegion(State("\n\n\n\n", LF, 1, false, false, false, [], 0), 0, 3).Crash?
  {
    DeleteRegionIff(State("\n\n\n\n", LF, 1, false, false, false, [], 0), 0, 3);
  }

  /** Killing the rest of a line never aborts, because point is at the start
      of what is killed. */
  lemma RestIsKilled(s: State, ring: string)
    requires s.pt <= |s.text|
    ensures var e := EndOfLine(s.text, s.eol, s.pt);
            var k := KillRest(s, ring, e);
            && CopyOrKill(s, ring, true, s.pt, e).Killed? && k.Killed? && k.s.pt == s.pt
            && k.s.text == if s.readonly then s.text else Splice(s.text, s.pt, e - s.pt, "")
  {
    var e := EndOfLine(s.text, s.eol, s.pt);
    assert Translate("", LF, s.eol) == "";
    assert Splice(s.text, s.pt, 0, "") == s.text;
  }

  /** Away from the end of the buffer a deletion takes something away if and
      only if the buffer may be written. */
  lemma DeleteCharMovesIff(s: State)
    requires s.pt < |s.text|
    ensures DeleteChar(s).Done? && (|DeleteChar(s).s.text| < |s.text| <==> !s.readonly)
  {
    assert Translate("", LF, s.eol) == "";
  }

  /** What the text and point are after a deletion: the byte after point goes,
      or all of an end-of-line there. */
  lemma DeleteCharIs(s: State)
    requires s.pt < |s.text| && !s.readonly
    ensures var n := if EolAt(s.text, s.eol, s.pt) then EolLen(s.eol) else 1;
            var d := DeleteChar(s).s;
            d.text == s.text[..s.pt] + s.text[s.pt + n..] && d.pt == s.pt
  {
    assert Translate("", LF, s.eol) == "";
    SpliceIs(s.text, s.pt, if EolAt(s.text, s.eol, s.pt) then EolLen(s.eol) else 1, "");
  }

  /** The ring gains the region as an LF string, whether it is deleted or not;
      only a kill in a buffer that may be written changes the text. */
  lemma CopyOrKillIs(s: State, ring: string, kill: bool, start: nat, end: nat)
    requires start <= end <= |s.text| < SIZE_MODULUS && s.pt <= |s.text|
    ensures var k := CopyOrKill(s, ring, kill, start, end);
            k.Killed? ==>
              && k.ok && ring <= k.ring && k.ring[|ring|..] == Translate(s.text[start..end], s.eol, LF)
              && (!kill || s.readonly ==> k.s == s)
              && (kill && !s.readonly ==>
                    k.s.text == s.text[..start] + s.text[end..] && k.s.pt == CutPoint(s.pt, start, end))
    ensures CopyOrKill(s, ring, kill, start, end).Failed? <==>
            kill && !s.readonly && s.pt > start && s.pt < end - start
  {
    if kill && !s.readonly {
      DeleteRegionIff(s, start, end);
      if DeleteRegion(s, start, end).Done? {
        DeleteRegionText(s, start, end);
        SpliceIs(s.text, start, end - start, "");
      }
    }
  }

  /** Yanking puts the ring, in the buffer's convention, before point. */
  lemma YankIs(s: State, ring: string)
    requires s.pt <= |s.text| && !s.readonly
    ensures var put := Translate(ring, LF, s.eol);
            var y := Yank(s, ring).s;
            && y.text[..y.pt] == s.text[..s.pt] + put && y.text[y.pt..] == s.text[s.pt..]
            && y.pt == s.pt + |put| <= |y.text|
  {
    SpliceIs(s.text, s.pt, 0, Translate(ring, LF, s.eol));
  }

  // ---------------------------------------------------------------------
  // Kill, then yank
  // ---------------------------------------------------------------------

  lemma SpliceOut(t: string, o: nat, del: nat, put: string)
    requires o + del <= |t|
    ensures Splice(Splice(t, o, del, ""), o, 0, put) == Splice(t, o, del, put)
  {
  }

  lemma SpliceSameIff(t: string, o: nat, del: nat, put: string)
    requires o + del <= |t|
    ensures Splice(t, o, del, put) == t <==> put == t[o..o + del]
  {
    var q := Splice(t, o, del, put);
    if q == t {
      assert |put| == del;
      assert forall i :: 0 <= i < del ==> put[i] == q[o + i];
    }
    if put == t[o..o + del] {
      assert forall i :: 0 <= i < |t| ==> q[i] == t[i];
    }
  }

  /** Killing a region to an empty ring and yanking where point is left
      restores the text if and only if the region has no line-feed outside
      the buffer's own ends-of-line. */
  lemma KillThenYankIff(s: State, start: nat, end: nat)
    requires start <= s.pt <= end <= |s.text| < SIZE_MODULUS && !s.readonly
    requires s.pt > start ==> s.pt >= end - start
    ensures var k := CopyOrKill(s, "", true, start, end);
            k.Killed? &&
            var y := Yank(k.s, k.ring);
            y.Done? && (y.s.text == s.text <==> NoStrayLf(s.text[start..end], s.eol))
  {
    hide DeleteRegion, Yank, Translate, NoStrayLf;
    DeleteRegionIff(s, start, end);
    DeleteRegionText(s, start, end);
    var x := s.text[start..end];
    var k := CopyOrKill(s, "", true, start, end);
    assert k.ring == Translate(x, s.eol, LF);
    var back := Translate(k.ring, LF, s.eol);
    YankText(k.s, k.ring);
    SpliceOut(s.text, start, end - start, back);
    BackIff(s, start, end);
  }

  lemma YankText(s: State, ring: string)
    requires s.pt <= |s.text| && !s.readonly
    ensures Yank(s, ring).Done? && Yank(s, ring).s.text == Splice(s.text, s.pt, 0, Translate(ring, LF, s.eol))
  {
  }

  lemma BackIff(s: State, start: nat, end: nat)
    requires start <= end <= |s.text|
    ensures var x := s.text[start..end];
            Splice(s.text, start, end - start, Translate(Translate(x, s.eol, LF), LF, s.eol)) == s.text
            <==> NoStrayLf(x, s.eol)
  {
    var x := s.text[start..end];
    SpliceSameIff(s.text, start, end - start, Translate(Translate(x, s.eol, LF), LF, s.eol));
    ToLfAndBackIff(x, s.eol);
  }

  /** In an LF buffer it always does. */
  lemma KillThenYankLf(s: State, start: nat, end: nat)
    requires start <= s.pt <= end <= |s.text| < SIZE_MODULUS && !s.readonly && s.eol == LF
    requires s.pt > start ==> s.pt >= end - start
    ensures var k := CopyOrKill(s, "", true, start, end);
            k.Killed? && Yank(k.s, k.ring).Done? && Yank(k.s, k.ring).s.text == s.text
  {
    KillThenYankIff(s, start, end);
  }

  /** The line-feed of "a\nb" in a CR buffer does not survive. */
  lemma KillThenYankFails()
    ensures var k := CopyOrKill(State("a\nb", CR, 0, false, false, false, [], 0), "", true, 0, 3);
            k.Killed? && Yank(k.s, k.ring).Done? && Yank(k.s, k.ring).s.text != "a\nb"
  {
    var s := State("a\nb", CR, 0, false, false, false, [], 0);
    KillThenYankIff(s, 0, 3);
    assert s.text[0..3] == "a\nb";
    assert "a\nb"[1] == '\n' && !NoStrayLf("a\nb", CR);
  }

  // ---------------------------------------------------------------------
  // Killing lines
  // ---------------------------------------------------------------------

  /** How many bytes kill_line(true) removes after point: the rest of the line
      and its end-of-line. */
  function LineSpan(t: string, e: Eol, o: nat): (n: nat)
    requires o <= |t|
    ensures o + n <= |t|
  {
    var eo := EndOfLine(t, e, o);
    if eo == |t| then eo - o else eo + EolLen(e) - o
  }

  /** k is the outcome of a kill that removed n bytes after point and appended
      `more` to the ring. */
  predicate Removed(s: State, ring: string, k: Killed, n: nat, more: string) {
    match k
    case Failed => false
    case Killed(ok, s', ring') =>
      && s.pt + n <= |s.text| && s'.pt == s.pt && s'.eol == s.eol && !s'.readonly
      && s'.text == Splice(s.text, s.pt, n, "") && ring' == ring + more
  }

  /** The n bytes of t from o on, as the ring holds them. */
  function LfText(t: string, e: Eol, o: nat, n: nat): string
    requires o + n <= |t|
  {
    Translate(t[o..o + n], e, LF)
  }

  /** k is the outcome of a kill that removed n bytes after point and appended
      exactly their LF translation to the ring. */
  predicate KilledText(s: State, ring: string, k: Killed, n: nat) {
    s.pt + n <= |s.text| && Removed(s, ring, k, n, LfText(s.text, s.eol, s.pt, n))
  }

  lemma RemoveRest(s: State, ring: string, a: nat, x: string) returns (k: Killed)
    requires s.pt < |s.text| < SIZE_MODULUS && !s.readonly && SpanIs(s.text, s.eol, s.pt)
    requires a == EndOfLine(s.text, s.eol, s.pt) - s.pt > 0 && x == s.text[s.pt..s.pt + a]
    ensures k == CopyOrKill(s, ring, true, s.pt, s.pt + a) && Removed(s, ring, k, a, x)
    ensures EndOfLine(k.s.text, s.eol, s.pt) == s.pt
  {
    hide DeleteRegion, EndOfLine, Translate;
    DeleteRegionIff(s, s.pt, s.pt + a);
    DeleteRegionText(s, s.pt, s.pt + a);
    RestOfLine(s.text, s.eol, s.pt);
    k := CopyOrKill(s, ring, true, s.pt, s.pt + a);
  }

  lemma RemoveEol(s: State, ring: string)
    requires s.pt < |s.text| && !s.readonly && EndOfLine(s.text, s.eol, s.pt) == s.pt
    ensures Removed(s, ring, KillEol(s, ring), EolLen(s.eol), "\n")
  {
    assert Translate("", LF, s.eol) == "";
  }

  lemma RemoveBoth(s: State, ring: string, k: Killed, k': Killed, a: nat, x: string, b: nat, y: string)
    requires Removed(s, ring, k, a, x) && Removed(k.s, k.ring, k', b, y)
    ensures Removed(s, ring, k', a + b, x + y)
  {
    SpliceTwice(s.text, s.pt, a, b);
    Assoc(ring, x, y);
  }

  /** One kill_line(true) that is not at the end of the buffer removes one
      line span and appends exactly its LF translation to the ring. */
  lemma KillWholeLine(s: State, ring: string)
    requires s.pt < |s.text| < SIZE_MODULUS && !s.readonly
    ensures KilledSpan(s, ring, KillLine(s, ring, true)) && KillLine(s, ring, true).ok
  {
    hide KillLine, KilledSpan;
    SpanTranslates(s.text, s.eol, s.pt);
    if EndOfLine(s.text, s.eol, s.pt) == s.pt {
      KillAtEol(s, ring);
    } else {
      KillBeforeEol(s, ring);
    }
  }

  /** k removed one line span and appended its LF translation to the ring. */
  predicate KilledSpan(s: State, ring: string, k: Killed)
    requires s.pt <= |s.text|
  {
    KilledText(s, ring, k, LineSpan(s.text, s.eol, s.pt))
  }

  lemma KillAtEol(s: State, ring: string)
    requires s.pt < |s.text| && !s.readonly && EndOfLine(s.text, s.eol, s.pt) == s.pt
    requires SpanIs(s.text, s.eol, s.pt)
    ensures KilledSpan(s, ring, KillLine(s, ring, true)) && KillLine(s, ring, true).ok
  {
    RemoveEol(StartSequence(s), ring);
    assert s.text[s.pt..s.pt] + "\n" == "\n";
  }

  lemma KillBeforeEol(s: State, ring: string)
    requires s.pt < |s.text| < SIZE_MODULUS && !s.readonly && EndOfLine(s.text, s.eol, s.pt) > s.pt
    requires SpanIs(s.text, s.eol, s.pt)
    ensures KilledSpan(s, ring, KillLine(s, ring, true)) && KillLine(s, ring, true).ok
  {
    hide CopyOrKill, KillLineEnd, Translate, EndOfLine, OnlyBlanks, DeleteRegion, KillEol, EolStr, Splice;
    var a := EndOfLine(s.text, s.eol, s.pt) - s.pt;
    var x := s.text[s.pt..s.pt + a];
    var k := RemoveRest(StartSequence(s), ring, a, x);
    SpliceLength(s.text, s.pt, a);
    RestThenEol(s, ring, k, a, x);
  }

  lemma SpliceLength(t: string, o: nat, del: nat)
    requires o + del <= |t|
    ensures |Splice(t, o, del, "")| == |t| - del
  {
  }

  lemma RestThenEol(s: State, ring: string, k: Killed, a: nat, x: string)
    requires Removed(s, ring, k, a, x) && s.pt <= |k.s.text| && EndOfLine(k.s.text, k.s.eol, k.s.pt) == s.pt
    ensures if s.pt == |k.s.text| then Removed(s, ring, KillLineEnd(k, true), a, x)
            else Removed(s, ring, KillLineEnd(k, true), a + EolLen(s.eol), x + "\n")
    ensures KillLineEnd(k, true).Killed? && KillLineEnd(k, true).ok
  {
    if s.pt < |k.s.text| {
      RemoveEol(k.s, k.ring);
      RemoveBoth(s, ring, k, KillEol(k.s, k.ring), a, x, EolLen(s.eol), "\n");
    }
  }

  lemma SpliceTwice(t: string, o: nat, a: nat, b: nat)
    requires o + a + b <= |t|
    ensures Splice(Splice(t, o, a, ""), o, b, "") == Splice(t, o, a + b, "")
  {
  }

  /** With the rest of a line gone, point is at the end of its line. */
  lemma RestOfLine(t: string, e: Eol, o: nat)
    requires o <= |t|
    ensures var eo := EndOfLine(t, e, o);
            var t' := Splice(t, o, eo - o, "");
            o <= |t'| && EndOfLine(t', e, o) == o
  {
    var eo := EndOfLine(t, e, o);
    var t' := Splice(t, o, eo - o, "");
    if eo < |t| {
      assert EolAt(t', e, o);
    }
  }

  /** A line translates to itself, and a line span to that and a line-feed. */
  predicate SpanIs(t: string, e: Eol, o: nat)
    requires o <= |t|
  {
    var eo := EndOfLine(t, e, o);
    && Translate(t[o..eo], e, LF) == t[o..eo]
    && Translate(t[o..o + LineSpan(t, e, o)], e, LF) == if eo == |t| then t[o..eo] else t[o..eo] + "\n"
  }

  lemma SpanTranslates(t: string, e: Eol, o: nat)
    requires o <= |t|
    ensures SpanIs(t, e, o)
  {
    hide EndOfLine, Translate;
    LineTranslates(t, e, o);
    if EndOfLine(t, e, o) < |t| {
      SpanBytes(t, e, o);
      LineWithEol(t[o..EndOfLine(t, e, o)], e);
    }
  }

  lemma LineTranslates(t: string, e: Eol, o: nat)
    requires o <= |t|
    ensures var line := t[o..EndOfLine(t, e, o)]; Translate(line, e, LF) == line
  {
    var line := t[o..EndOfLine(t, e, o)];
    assert forall i :: 0 <= i < |line| ==> (EolAt(line, e, i) ==> EolAt(t, e, o + i));
    TranslatePlain(line, e, LF);
  }

  lemma SpanBytes(t: string, e: Eol, o: nat)
    requires o <= |t| && EndOfLine(t, e, o) < |t|
    ensures t[o..o + LineSpan(t, e, o)] == t[o..EndOfLine(t, e, o)] + EolStr(e)
  {
    EolAtIsOccurrence(t, e, EndOfLine(t, e, o));
  }

  lemma LineWithEol(line: string, e: Eol)
    requires Translate(line, e, LF) == line
    ensures Translate(line + EolStr(e), e, LF) == line + "\n"
  {
    EolTranslates(e);
    TranslateConcat(line, EolStr(e), e, LF);
  }

  lemma EolTranslates(e: Eol)
    ensures Translate(EolStr(e), e, LF) == "\n"
  {
    assert EolStr(e)[EolLen(e)..] == "";
  }

  /** n kills of a line in a row. */
  function KillLines(s: State, ring: string, n: nat): Killed
    requires s.pt <= |s.text|
    decreases n
  {
    if n == 0 then Killed(true, s, ring)
    else
      var k := KillLine(s, ring, true);
      if k.Failed? || !k.ok || k.s.pt > |k.s.text| then k else KillLines(k.s, k.ring, n - 1)
  }

  /** n kills append exactly the LF translation of the one stretch of text
      after point that they removed; when they fail, nothing is left there. */
  lemma {:induction false} KillLinesAppend(s: State, ring: string, n: nat) returns (span: nat)
    requires s.pt <= |s.text| < SIZE_MODULUS && !s.readonly
    ensures var k := KillLines(s, ring, n);
            KilledText(s, ring, k, span) && (!k.ok ==> s.pt + span == |s.text|)
    decreases n
  {
    hide KillLine;
    if n == 0 || s.pt == |s.text| {
      span := 0;
      NoKills(s, ring, n);
    } else {
      var k := FirstKill(s, ring, n);
      var b := KillLinesAppend(k.s, k.ring, n - 1);
      span := JoinKills(s, ring, k, KillLines(s, ring, n), b);
    }
  }

  lemma NoKills(s: State, ring: string, n: nat)
    requires s.pt <= |s.text| && !s.readonly && (n == 0 || s.pt == |s.text|)
    ensures KilledText(s, ring, KillLines(s, ring, n), 0)
  {
    assert Splice(s.text, s.pt, 0, "") == s.text && ring + "" == ring;
    assert s.text[s.pt..s.pt] == "";
  }

  lemma FirstKill(s: State, ring: string, n: nat) returns (k: Killed)
    requires s.pt < |s.text| < SIZE_MODULUS && !s.readonly && n > 0
    ensures KilledSpan(s, ring, k) && KillLines(s, ring, n) == KillLines(k.s, k.ring, n - 1)
  {
    KillWholeLine(s, ring);
    k := KillLine(s, ring, true);
  }

  lemma SpanFits(s: State, ring: string, k: Killed, b: nat)
    requires s.pt <= |s.text| && KilledSpan(s, ring, k) && k.s.pt + b <= |k.s.text|
    ensures s.pt + LineSpan(s.text, s.eol, s.pt) + b <= |s.text|
  {
  }

  /** A span killed, then b bytes more. */
  lemma JoinKills(s: State, ring: string, k: Killed, k': Killed, b: nat) returns (span: nat)
    requires s.pt < |s.text| && KilledSpan(s, ring, k) && KilledText(k.s, k.ring, k', b)
    ensures KilledText(s, ring, k', span) && span == LineSpan(s.text, s.eol, s.pt) + b
  {
    hide Translate, EndOfLine;
    SpanFits(s, ring, k, b);
    var a := LineSpan(s.text, s.eol, s.pt);
    span := a + b;
    RestMoves(s.text, s.eol, s.pt, a, b);
    RemoveBoth(s, ring, k, k', a, LfText(s.text, s.eol, s.pt, a), b, LfText(s.text, s.eol, s.pt + a, b));
    SpansJoin(s.text, s.eol, s.pt, b);
  }

  lemma RestMoves(t: string, e: Eol, o: nat, a: nat, b: nat)
    requires o + a + b <= |t|
    ensures LfText(Splice(t, o, a, ""), e, o, b) == LfText(t, e, o + a, b)
  {
    assert Splice(t, o, a, "")[o..o + b] == t[o + a..o + a + b];
  }

  /** Killing any number of lines to an empty ring and yanking them restores
      the text if and only if the lines held no stray line-feed. */
  lemma KillLinesThenYankIff(s: State, n: nat) returns (span: nat)
    requires s.pt <= |s.text| < SIZE_MODULUS && !s.readonly
    ensures KilledText(s, "", KillLines(s, "", n), span) && s.pt + span <= |s.text|
    ensures var k := KillLines(s, "", n);
            k.Killed? && Yank(k.s, k.ring).Done? &&
            (Yank(k.s, k.ring).s.text == s.text <==> NoStrayLf(s.text[s.pt..s.pt + span], s.eol))
  {
    hide KillLines, Yank, KilledText;
    span := KillLinesAppend(s, "", n);
    YankBackIff(s, KillLines(s, "", n), span);
  }

  lemma YankBackIff(s: State, k: Killed, span: nat)
    requires s.pt <= |s.text| && KilledText(s, "", k, span)
    ensures k.Killed? && Yank(k.s, k.ring).Done? && s.pt + span <= |s.text|
    ensures Yank(k.s, k.ring).s.text == s.text <==> NoStrayLf(s.text[s.pt..s.pt + span], s.eol)
  {
    hide Yank, Translate, NoStrayLf;
    assert k.ring == LfText(s.text, s.eol, s.pt, span);
    YankText(k.s, k.ring);
    SpliceOut(s.text, s.pt, span, Translate(k.ring, LF, s.eol));
    BackIff(s, s.pt, s.pt + span);
  }

  lemma SpansJoin(t: string, e: Eol, o: nat, b: nat)
    requires o < |t| && o + LineSpan(t, e, o) + b <= |t|
    ensures var a := LineSpan(t, e, o);
            LfText(t, e, o, a) + LfText(t, e, o + a, b) == LfText(t, e, o, a + b)
  {
    hide EndOfLine, EolAt, Translate, Straddles, LineSpan, Lines;
    var a := LineSpan(t, e, o);
    NoStraddle(t, e, o, b);
    assert t[o..o + a + b] == t[o..o + a] + t[o + a..o + a + b];
    TranslateConcat(t[o..o + a], t[o + a..o + a + b], e, LF);
  }

  lemma NoStraddle(t: string, e: Eol, o: nat, b: nat)
    requires o < |t| && o + LineSpan(t, e, o) + b <= |t|
    ensures var a := LineSpan(t, e, o);
            !Straddles(t[o..o + a], t[o + a..o + a + b], e)
  {
  }
}
