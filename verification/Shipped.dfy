/** The rule call_command implements, and a macro that changes buffers: runs on
    which undo does not do what it is meant to (src/bind.c:292-293,
    src/macro.c:128-140). */
module Shipped {
  import opened Basics
  import opened Eol
  import opened UndoLog
  import opened Reverting
  import opened Unwinding
  import opened Undoing
  import opened Session
  import opened Runs

  /** Under the shipped rule a second undo in a row puts back what the first
      one took away, so repeating the command never reaches further changes. */
  lemma UndoTwice(s: Session, ts: seq<string>, loaded: string)
    requires Sound(s, ts, loaded, Shipped) && s.st.next == |s.st.undos|
    ensures var r := Run(s, [UndoOp, UndoOp], Shipped);
            if s.st.readonly || s.st.next == 0 || ItemStart(s.st.undos, s.st.next).Some?
            then r.Some? && r.value.st.text == s.st.text else r.None?
  {
    var s1 := Obey(s, UndoOp, Shipped);
    assert [UndoOp, UndoOp][1..] == [UndoOp];
    if !s.st.readonly && s.st.next > 0 {
      InStepRevertsIff(s.st, s.st.next, ts);
      if ItemStart(s.st.undos, s.st.next).Some? {
        var st1, ts1, p := UndoOnce(s.st, ts, ItemStart(s.st.undos, s.st.next).value, s.saved);
        var st2, ts2, q := WalkBack(Rewound(st1), ts1, p, |s.st.undos|, s.saved);
        assert Undos(Rewound(st1), 0) == Done(Rewound(st1));
        if p == 1 {
          OneUndo(Rewound(st1));
        } else {
          LoneStart(s.st, st1);
        }
      }
    }
  }

  lemma OneUndo(s: State)
    requires s.next <= |s.undos|
    ensures Undos(s, 1) == UndoCommand(s)
  {
    var r := UndoCommand(s);
    if r.Done? {
      assert Undos(r.s, 0) == r;
    }
  }

  /** If undoing pushed nothing, it met a start record, and meets it again. */
  lemma LoneStart(s: State, s1: State)
    requires s.next == |s.undos| && 0 < s.next && !s.readonly && !s.noundo
    requires UndoCommand(s) == Done(s1) && IsBoundary(s1.undos, |s1.undos|, 0, |s.undos|)
    ensures UndoCommand(Rewound(s1)).Done?
    ensures UndoCommand(Rewound(s1)).s.text == s.text == s1.text
  {
    assert |s1.undos| == |s.undos| && s1.undos == s.undos;
    assert s.undos[|s.undos| - 1].Start?;
  }

  /** The outcome of a replacement that needs no translation. */
  lemma PlainEdit(s: State, del: nat, t: string, text': string) returns (s': State)
    requires !s.readonly && !s.noundo && s.pt + del <= |s.text|
    requires text' == Splice(s.text, s.pt, del, t)
    ensures s' == s.(text := text', pt := s.pt + |t|, modified := true,
            undos := s.undos + [Replace(s.pt, |t|, Estr(s.text[s.pt..s.pt + del], s.eol), !s.modified)])
    ensures ReplaceEstr(s, del, Estr(t, s.eol)) == Done(s')
  {
    TranslateSame(t, s.eol);
    s' := ReplaceEstr(s, del, Estr(t, s.eol)).s;
  }

  /** Under the shipped rule a stale pointer makes the modified flag lie: yank
      x, undo (which finds no pointer and only sets it), yank y, undo. */
  lemma FlagLies()
    ensures var ops := [Edit(0, Estr("x", LF)), UndoOp, Edit(0, Estr("y", LF)), UndoOp];
            var r := Run(Load("", LF, false), ops, Shipped);
            r.Some? && !r.value.st.modified && r.value.st.text == "y" && r.value.saved == ""
  {
    var ops := [Edit(0, Estr("x", LF)), UndoOp, Edit(0, Estr("y", LF)), UndoOp];
    var s0 := Load("", LF, false).st;
    var s1 := PlainEdit(s0, 0, "x", "x");
    var s2 := s1.(next := 1);
    var s3 := PlainEdit(s2, 0, "y", "xy");
    var s4 := PlainEdit(s3.(pt := 0), 1, "", "y");
    assert s3.undos[0] == Replace(0, 1, Estr("", LF), true);
    assert RevertAction(s3, 1) == Reverted(s4.(modified := false), 0);
    var s5 := s4.(modified := false, next := |s4.undos|);
    assert Obey(Session(s0, ""), ops[0], Shipped) == Some(Session(s1, ""));
    assert Obey(Session(s1, ""), ops[1], Shipped) == Some(Session(s2, ""));
    assert Obey(Session(s2, ""), ops[2], Shipped) == Some(Session(s3, ""));
    assert Obey(Session(s3, ""), ops[3], Shipped) == Some(Session(s5, ""));
    RunFour(Session(s0, ""), ops, Shipped);
  }

  lemma RunTail(s: Session, ops: seq<Op>, i: nat, policy: Policy)
    requires s.st.next <= |s.st.undos| && i < |ops|
    ensures var r := Obey(s, ops[i], policy);
            Run(s, ops[i..], policy) == if r.Some? then Run(r.value, ops[i + 1..], policy) else None
  {
    assert ops[i..][1..] == ops[i + 1..];
  }

  lemma RunFour(s: Session, ops: seq<Op>, policy: Policy)
    requires s.st.next <= |s.st.undos| && |ops| >= 4
    ensures var r1 := Obey(s, ops[0], policy);
            r1.Some? ==>
              var r2 := Obey(r1.value, ops[1], policy);
              r2.Some? ==>
                var r3 := Obey(r2.value, ops[2], policy);
                r3.Some? ==>
                  var r4 := Obey(r3.value, ops[3], policy);
                  Run(s, ops, policy) == if r4.Some? then Run(r4.value, ops[4..], policy) else None
  {
    var r1 := Obey(s, ops[0], policy);
    if r1.Some? {
      RunTail(r1.value, ops, 1, policy);
      var r2 := Obey(r1.value, ops[1], policy);
      if r2.Some? {
        RunTail(r2.value, ops, 2, policy);
        var r3 := Obey(r2.value, ops[2], policy);
        if r3.Some? {
          RunTail(r3.value, ops, 3, policy);
        }
      }
    }
  }

  /** With an edit in between, the undo may also address text that is gone. */
  lemma UndoCrashes()
    ensures var ops := [Edit(0, Estr("xy", LF)), UndoOp, Goto(0), Edit(1, ESTR_EMPTY), UndoOp];
            Run(Load("", LF, false), ops, Shipped).None?
  {
    var ops := [Edit(0, Estr("xy", LF)), UndoOp, Goto(0), Edit(1, ESTR_EMPTY), UndoOp];
    var s0 := Load("", LF, false).st;
    var s1 := PlainEdit(s0, 0, "xy", "xy");
    var s2 := s1.(next := 1);
    var s3 := s2.(pt := 0);
    var s4 := PlainEdit(s3, 1, "", "y");
    assert s4.undos[0] == Replace(0, 2, Estr("", LF), true);
    assert RevertAction(s4, 1) == Stuck;
    assert Obey(Session(s0, ""), ops[0], Shipped) == Some(Session(s1, ""));
    assert Obey(Session(s1, ""), ops[1], Shipped) == Some(Session(s2, ""));
    assert Obey(Session(s2, ""), ops[2], Shipped) == Some(Session(s3, ""));
    assert Obey(Session(s3, ""), ops[3], Shipped) == Some(Session(s4, ""));
    RunFour(Session(s0, ""), ops, Shipped);
    assert ops[4..] == [UndoOp];
  }

  /** A macro that goes to another buffer leaves there the end record of its
      sequence, without a start. Two undos there crash, and under the
      documented rule already one does. */
  lemma UnmatchedEndCrashes(text: string, eol: Eol)
    ensures Run(Load(text, eol, false), [EndSeq, UndoOp, UndoOp], Shipped).None?
    ensures Run(Load(text, eol, false), [EndSeq, UndoOp], Documented).None?
  {
    var s := Load(text, eol, false);
    var ended := EndSequence(s.st);
    assert ended.undos == [End];
    assert RevertRun(StartSequence(ended), 0) == Stuck;
    assert RevertAction(ended, 1) == Stuck;
    assert Obey(s, EndSeq, Shipped) == Some(s.(st := ended));
    assert Obey(s.(st := ended), UndoOp, Shipped) == Some(s.(st := Rewound(ended)));
    assert Obey(s, EndSeq, Documented) == Some(s.(st := Rewound(ended)));
    RunTail(s.(st := Rewound(ended)), [EndSeq, UndoOp], 1, Documented);
    RunTail(s.(st := ended), [EndSeq, UndoOp, UndoOp], 1, Shipped);
    RunTail(s.(st := Rewound(ended)), [EndSeq, UndoOp, UndoOp], 2, Shipped);
  }
}
