/** What one kill_line does, with all its branches, and what undoing it puts
    back (src/killring.c:69-112). */
module KillUndo {
  import opened Basics
  import opened Eol
  import opened UndoLog
  import opened Reverting
  import opened Undoing
  import opened Grouping
  import opened Kill

  /** From o to the end of its line there are only spaces and tabs. */
  predicate BlankToEnd(t: string, e: Eol, o: nat)
    requires o <= |t|
  {
    forall i :: o <= i < EndOfLine(t, e, o) ==> t[i] == ' ' || t[i] == '\t'
  }

  lemma BlankToEndIff(t: string, e: Eol, o: nat)
    requires o <= |t|
    ensures OnlyBlanks(t[o..EndOfLine(t, e, o)]) <==> BlankToEnd(t, e, o)
  {
    var line := t[o..EndOfLine(t, e, o)];
    assert forall i :: o <= i < EndOfLine(t, e, o) ==> t[i] == line[i - o];
  }

  /** How many bytes go: the rest of the line, and its end-of-line when whole
      lines are asked for or the rest is blank. */
  function KillSpan(t: string, e: Eol, o: nat, whole: bool): (n: nat)
    requires o <= |t|
    ensures o + n <= |t|
  {
    var eo := EndOfLine(t, e, o);
    if (whole || BlankToEnd(t, e, o)) && eo < |t| then eo + EolLen(e) - o else eo - o
  }

  /** In a buffer that may be written a kill that is not at its end succeeds,
      takes exactly that, and adds its LF translation to the ring. */
  lemma KillLineIs(s: State, ring: string, whole: bool)
    requires s.pt < |s.text| < SIZE_MODULUS && !s.readonly
    ensures var k, n := KillLine(s, ring, whole), KillSpan(s.text, s.eol, s.pt, whole);
            && k.Killed? && k.ok && k.s.pt == s.pt
            && k.s.text == s.text[..s.pt] + s.text[s.pt + n..]
            && k.ring == ring + Translate(s.text[s.pt..s.pt + n], s.eol, LF)
  {
    hide KillLine, KillSpan, Translate;
    var n := KillSpan(s.text, s.eol, s.pt, whole);
    KillLineTakes(s, ring, whole);
    SpliceIs(s.text, s.pt, n, "");
  }

  lemma KillLineTakes(s: State, ring: string, whole: bool)
    requires s.pt < |s.text| < SIZE_MODULUS && !s.readonly
    ensures KilledText(s, ring, KillLine(s, ring, whole), KillSpan(s.text, s.eol, s.pt, whole))
    ensures KillLine(s, ring, whole).ok
  {
    hide EndOfLine, Translate, KillLine, OnlyBlanks, BlankToEnd;
    BlankToEndIff(s.text, s.eol, s.pt);
    if whole || BlankToEnd(s.text, s.eol, s.pt) {
      KillWholeLine(s, ring);
      SameKill(s, ring, whole);
    } else {
      KillRestOnly(s, ring, EndOfLine(s.text, s.eol, s.pt) - s.pt);
    }
  }

  lemma SameKill(s: State, ring: string, whole: bool)
    requires s.pt < |s.text|
    requires whole || OnlyBlanks(s.text[s.pt..EndOfLine(s.text, s.eol, s.pt)])
    ensures KillLine(s, ring, whole) == KillLine(s, ring, true)
  {
  }

  lemma KillRestOnly(s: State, ring: string, n: nat)
    requires s.pt < |s.text| < SIZE_MODULUS && !s.readonly && n == EndOfLine(s.text, s.eol, s.pt) - s.pt
    requires !OnlyBlanks(s.text[s.pt..s.pt + n])
    ensures KilledText(s, ring, KillLine(s, ring, false), n) && KillLine(s, ring, false).ok
  {
    hide EndOfLine, Translate, CopyOrKill;
    SpanTranslates(s.text, s.eol, s.pt);
    var k := RemoveRest(StartSequence(s), ring, n, s.text[s.pt..s.pt + n]);
  }

  /** In a read-only buffer the rest of the line is only copied; when its end
      should go too the kill fails, and leaves its sequence open. */
  lemma ReadOnlyKillIs(s: State, ring: string, whole: bool)
    requires s.pt < |s.text| && s.readonly
    ensures var k, eo := KillLine(s, ring, whole), EndOfLine(s.text, s.eol, s.pt);
            && k.Killed? && k.s.text == s.text && k.s.pt == s.pt
            && k.ring == ring + Translate(s.text[s.pt..eo], s.eol, LF)
            && (k.ok <==> !whole && !BlankToEnd(s.text, s.eol, s.pt))
            && (!s.noundo ==> k.s.undos == s.undos + [Start(s.pt)] + if k.ok then [End] else [Start(s.pt), End])
  {
    var eo := EndOfLine(s.text, s.eol, s.pt);
    BlankToEndIff(s.text, s.eol, s.pt);
    assert s.text[s.pt..s.pt] == "";
    var k := KillRest(StartSequence(s), ring, eo);
    assert k == Killed(true, StartSequence(s), ring + Translate(s.text[s.pt..eo], s.eol, LF));
  }

  /** At the end of the buffer it fails and changes nothing. */
  lemma KillAtEndFails(s: State, ring: string, whole: bool)
    requires s.pt == |s.text|
    ensures KillLine(s, ring, whole) == Killed(false, s, ring)
  {
  }

  // ---------------------------------------------------------------------
  // Undoing it
  // ---------------------------------------------------------------------

  /** Deleting the rest of the line pushes one record. */
  lemma RestGrew(s: State, ring: string, e: nat, ts: seq<string>) returns (ts': seq<string>)
    requires History(s, ts) && Writable(s) && s.pt <= e <= |s.text| && e == EndOfLine(s.text, s.eol, s.pt)
    ensures var k := KillRest(s, ring, e);
            k.Killed? && k.s.pt == s.pt <= |k.s.text| && Grew(s, ts, k.s, ts')
  {
    hide Translate, Splice, History, EndOfLine;
    ts' := ts;
    GrewNothing(s, ts);
    RestIsKilled(s, ring);
    if e > s.pt {
      HistoryPoint(s, ts);
      ts' := ReplaceGrew(s, e - s.pt, ESTR_EMPTY, ts);
      var r := ReplaceEstr(s, e - s.pt, ESTR_EMPTY).s;
      GrewMoved(s, ts, r, ts', s.pt);
    }
  }

  lemma HistoryPoint(s: State, ts: seq<string>)
    requires History(s, ts)
    ensures s.(pt := s.pt) == s && s.pt <= |s.text|
  {
  }

  /** Deleting the end-of-line is a group of its own. */
  lemma EolGrew(s: State, ring: string, ts: seq<string>) returns (ts': seq<string>)
    requires History(s, ts) && Writable(s) && s.pt < |s.text|
    ensures var d := DeleteChar(StartSequence(s));
            d.Done? && Grew(s, ts, EndSequence(d.s), ts')
  {
    hide Translate, Splice;
    var s1, ts1 := MarkPushed(s, Start(s.pt), ts, "");
    var n := if EndOfLine(s1.text, s1.eol, s1.pt) == s1.pt then EolLen(s1.eol) else 1;
    var ts2 := ReplaceGrew(s1, n, ESTR_EMPTY, ts1);
    ts' := GroupUndone(s, ts, ReplaceEstr(s1, n, ESTR_EMPTY).s, ts2);
  }

  /** A kill that is not at the end of the buffer leaves exactly one item on
      the list, and one undo from there puts text and point back. */
  lemma KillLineUndone(s: State, ring: string, whole: bool, ts: seq<string>) returns (ts': seq<string>)
    requires History(s, ts) && Writable(s) && s.pt < |s.text| < SIZE_MODULUS
    ensures var k := KillLine(s, ring, whole);
            && k.Killed? && k.ok && Grew(s, ts, k.s, ts') && TopItem(k.s.undos, |s.undos|)
            && var r := UndoCommand(Rewound(k.s));
               r.Done? && r.s.text == s.text && r.s.pt == s.pt && r.s.next == |s.undos|
  {
    hide History, DeleteChar, CopyOrKill, OnlyBlanks, EndOfLine, UndoCommand, WholeItems, KillRest;
    KillLineIs(s, ring, whole);
    var s1, ts1 := MarkPushed(s, Start(s.pt), ts, "");
    var e := EndOfLine(s.text, s.eol, s.pt);
    var ts2 := RestGrew(s1, ring, e, ts1);
    var k := KillRest(s1, ring, e);
    if (whole || OnlyBlanks(s.text[s.pt..e])) && k.s.pt != |k.s.text| {
      GrewHistory(s1, ts1, k.s, ts2);
      var ts3 := EolGrew(k.s, k.ring, ts2);
      var d := EndSequence(DeleteChar(StartSequence(k.s)).s);
      GrewTwice(s1, ts1, k.s, ts2, d, ts3);
      ts' := GroupUndone(s, ts, d, ts3);
    } else {
      ts' := GroupUndone(s, ts, k.s, ts2);
    }
  }

  lemma GrewHistory(s: State, ts: seq<string>, s1: State, ts1: seq<string>)
    requires Grew(s, ts, s1, ts1) && Writable(s)
    ensures History(s1, ts1) && Writable(s1)
  {
  }
}
