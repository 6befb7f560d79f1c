/** What a command leaves on the undo list: whole items, and what undoing a
    group, or an edit, that has just been made puts back (src/undo.c:55-120). */
module Grouping {
  import opened Basics
  import opened Eol
  import opened UndoLog
  import opened Reverting
  import opened Unwinding
  import opened Undoing

  /** From s to s' only whole items were pushed. */
  ghost predicate Grew(s: State, ts: seq<string>, s': State, ts': seq<string>) {
    && s.undos <= s'.undos && ts <= ts' && History(s', ts') && WholeItems(s'.undos, |s.undos|)
    && s'.eol == s.eol && s'.readonly == s.readonly && s'.noundo == s.noundo
  }

  lemma GrewNothing(s: State, ts: seq<string>)
    requires History(s, ts)
    ensures Grew(s, ts, s, ts)
  {
  }

  lemma GrewTwice(s: State, ts: seq<string>, s1: State, ts1: seq<string>, s2: State, ts2: seq<string>)
    requires Grew(s, ts, s1, ts1) && Grew(s1, ts1, s2, ts2)
    ensures Grew(s, ts, s2, ts2)
  {
    hide History;
    PrefixItems(s1.undos, s2.undos, |s1.undos|);
    PrefixItems(s1.undos, s2.undos, |s.undos|);
  }

  lemma GrewMoved(s: State, ts: seq<string>, s1: State, ts1: seq<string>, o: nat)
    requires Grew(s, ts, s1, ts1) && o <= |s1.text|
    ensures Grew(s, ts, s1.(pt := o), ts1)
  {
  }

  lemma ReplaceGrew(s: State, del: nat, es: Estr, ts: seq<string>) returns (ts': seq<string>)
    requires History(s, ts) && Writable(s) && s.pt + del <= |s.text|
    ensures ReplaceEstr(s, del, es).Done? && Grew(s, ts, ReplaceEstr(s, del, es).s, ts')
  {
    hide Translate, Splice;
    var s' := ReplaceEstr(s, del, es).s;
    ReplaceKeepsHistory(s, del, es, ts, "");
    ts' := ts + [s'.text];
    PrefixItems(s.undos, s'.undos, |s.undos|);
    assert ItemStart(s'.undos, |s'.undos|) == Some(|s.undos|);
  }

  /** A start record, whole items and an end record are one item, and undoing
      it puts text and point back where they were when it was started. */
  lemma GroupUndone(s: State, ts: seq<string>, s1: State, ts1: seq<string>) returns (ts': seq<string>)
    requires History(s, ts) && Writable(s) && Grew(StartSequence(s), ts + [s.text], s1, ts1)
    ensures var s' := EndSequence(s1);
            && Grew(s, ts, s', ts') && TopItem(s'.undos, |s.undos|)
            && var r := UndoCommand(Rewound(s'));
               r.Done? && r.s.text == s.text && r.s.pt == s.pt && r.s.next == |s.undos|
  {
    hide History, ReplaceEstr;
    var s2;
    s2, ts' := MarkPushed(s1, End, ts1, "");
    GroupPushed(StartSequence(s).undos, s1.undos);
    PrefixItems(s.undos, s2.undos, |s.undos|);
    RewoundInStep(s2, ts');
    OneAtTop(s2, ts', |s.undos|);
    assert ts'[|s.undos|] == s.text by { SameEntry(s, ts, s1, ts1, ts'); }
  }

  lemma SameEntry(s: State, ts: seq<string>, s1: State, ts1: seq<string>, ts': seq<string>)
    requires History(s, ts) && Writable(s) && Grew(StartSequence(s), ts + [s.text], s1, ts1) && ts1 <= ts'
    ensures ts <= ts' && ts'[|s.undos|] == s.text
  {
  }

  /** Undoing the group on top. */
  lemma OneAtTop(s: State, ts: seq<string>, j: nat)
    requires History(s, ts) && Writable(s) && TopItem(s.undos, j) && s.undos[|s.undos| - 1].End?
    ensures var r := UndoCommand(Rewound(s));
            && r.Done? && r.s.text == ts[j] && r.s.next == j
            && s.undos[j].Start? && r.s.pt == s.undos[j].o
  {
    RewoundInStep(s, ts);
    var s', ts', p := UndoOnce(Rewound(s), ts, j, "");
    MovedPointer(s, |s.undos|, ts, "");
    var t := RevertActionIs(Rewound(s), |s.undos|, ts, "");
  }

  /** Undoing the newest record, when it is a replace. */
  lemma LoneUndone(s: State, u: Undo)
    requires Writable(s) && s.undos != [] && s.undos[|s.undos| - 1] == u
    requires u.Replace? && u.o + u.size <= |s.text|
    ensures var r, put := UndoCommand(Rewound(s)), Translate(u.was.text, u.was.eol, s.eol);
            && r.Done? && r.s.text == Splice(s.text, u.o, u.size, put) && r.s.modified == !u.clean
            && r.s.pt == u.o + |put| && r.s.next == |s.undos| - 1
  {
    hide Splice, Translate;
  }

  /** Undoing an edit that has just been made puts back the text and the
      modified flag, and leaves point after the text it had deleted. */
  lemma EditUndone(s: State, del: nat, es: Estr)
    requires Writable(s) && s.pt + del <= |s.text|
    ensures var s' := ReplaceEstr(s, del, es).s;
            var r := UndoCommand(Rewound(s'));
            && r.Done? && r.s.text == s.text && r.s.modified == s.modified
            && r.s.pt == s.pt + del && r.s.next == |s.undos|
  {
    hide UndoCommand, Translate, Rewound;
    var put, was := Translate(es.text, es.eol, s.eol), s.text[s.pt..s.pt + del];
    SpliceBack(s.text, s.pt, del, put);
    TranslateSame(was, s.eol);
    LoneUndone(ReplaceEstr(s, del, es).s, Replace(s.pt, |put|, Estr(was, s.eol), !s.modified));
  }

  /** Where undo is turned off nothing is recorded, and the command does
      nothing. */
  lemma NothingRecorded(s: State, del: nat, es: Estr)
    requires s.noundo && s.next <= |s.undos|
    ensures StartSequence(s) == EndSequence(s) == s && UndoCommand(s) == Done(s)
    ensures ReplaceEstr(s, del, es).Done? ==> ReplaceEstr(s, del, es).s.undos == s.undos
  {
  }
}
