/** Which runs leave every end record with its start, and what that is worth to
    undo (src/undo.c:79-145, src/macro.c:128-140). */
module Nesting {
  import opened Basics
  import opened Eol
  import opened UndoLog
  import opened Reverting
  import opened Unwinding
  import opened Undoing
  import opened Session
  import opened Runs

  lemma NestingPrefix(us: seq<Undo>, vs: seq<Undo>)
    requires us <= vs && WellNested(vs)
    ensures WellNested(us)
  {
    forall i | 0 <= i <= |us|
      ensures Depth(us, i) >= 0
    {
      DepthPrefix(us, vs, i);
    }
  }

  /** vs is well nested if us is and a condition holds, and then it has d more
      open sequences. */
  ghost predicate Nests(us: seq<Undo>, vs: seq<Undo>, condition: bool, d: int) {
    && (WellNested(vs) <==> WellNested(us) && condition)
    && (WellNested(vs) ==> Depth(vs, |vs|) == Depth(us, |us|) + d)
  }

  lemma PushNests(us: seq<Undo>, u: Undo)
    ensures Nests(us, us + [u], u.End? ==> Depth(us, |us|) > 0,
                  if u.Start? then 1 else if u.End? then -1 else 0)
  {
    var vs := us + [u];
    DepthPrefix(us, vs, |us|);
    if WellNested(vs) {
      NestingPrefix(us, vs);
    } else if WellNested(us) && (u.End? ==> Depth(us, |us|) > 0) {
      PushKeepsNesting(us, u);
    }
  }

  /** An item on top leaves the open sequences as they were. */
  lemma ItemNests(us: seq<Undo>, vs: seq<Undo>)
    requires us <= vs && TopItem(vs, |us|) && !vs[|vs| - 1].Start?
    ensures Nests(us, vs, true, 0)
  {
    WellNestedIffWalked(us);
    WellNestedIffWalked(vs);
    BottomPrefix(us, vs, |us|);
    if WellNested(vs) {
      ItemDepth(vs, |vs|);
      DepthPrefix(us, vs, |us|);
    }
  }

  lemma {:induction false} BottomPrefix(us: seq<Undo>, vs: seq<Undo>, i: nat)
    requires us <= vs && i <= |us|
    ensures Bottom(us, i) == Bottom(vs, i)
    decreases i
  {
    PrefixItems(us, vs, i);
    var j := ItemStart(us, i);
    if j.Some? {
      BottomPrefix(us, vs, j.value);
    }
  }

  lemma {:induction false} SetUnchangedDepth(us: seq<Undo>, i: nat)
    requires i <= |us|
    ensures Depth(SetUnchanged(us), i) == Depth(us, i)
  {
    if i > 0 {
      SetUnchangedDepth(us, i - 1);
    }
  }

  lemma SetUnchangedNests(us: seq<Undo>)
    ensures Nests(us, SetUnchanged(us), true, 0)
  {
    forall i | 0 <= i <= |us|
      ensures Depth(SetUnchanged(us), i) == Depth(us, i)
    {
      SetUnchangedDepth(us, i);
    }
  }

  lemma StepNests(s: Session, op: Op, ts: seq<string>, loaded: string, policy: Policy)
    requires Sound(s, ts, loaded, policy) && Obey(s, op, policy).Some?
    ensures Nests(s.st.undos, Obey(s, op, policy).value.st.undos,
                  op.EndSeq? ==> Depth(s.st.undos, |s.st.undos|) > 0, Opens(op))
  {
    hide WellNested, Depth;
    var us := s.st.undos;
    match op
    case Edit(del, es) =>
      if !s.st.readonly {
        PushNests(us, ReplaceEstr(s.st, del, es).s.undos[|us|]);
      }
    case Goto(o) =>
    case StartSeq => PushNests(us, Start(s.st.pt));
    case EndSeq => PushNests(us, End);
    case Save => SetUnchangedNests(us);
    case UndoOp =>
      if !s.st.readonly && s.st.next > 0 {
        UndoNests(s.st, ts);
      }
  }

  lemma UndoNests(s: State, ts: seq<string>)
    requires History(s, ts) && Writable(s) && 0 < s.next <= |s.undos| && RevertAction(s, s.next).Reverted?
    ensures Nests(s.undos, RevertAction(s, s.next).s.undos, true, 0)
  {
    hide WellNested, Depth, RevertSpec;
    var t := RevertActionIs(s, s.next, ts, "");
    if !s.undos[s.next - 1].Start? {
      ItemNests(s.undos, RevertAction(s, s.next).s.undos);
    }
  }

  /** After a run the list is well nested exactly when it was and the run
      closed no sequence that was not open; undos in between do not count. */
  lemma {:induction false} RunNestsIff(s: Session, ops: seq<Op>, ts: seq<string>, loaded: string, policy: Policy)
    requires Sound(s, ts, loaded, policy) && Run(s, ops, policy).Some?
    ensures WellNested(Run(s, ops, policy).value.st.undos) <==>
            WellNested(s.st.undos) && ClosesOpen(ops, Depth(s.st.undos, |s.st.undos|))
    decreases |ops|
  {
    hide History, Safe, Obey, StaysTrue, WellNested, Depth;
    if ops != [] {
      var t := StepIs(s, ops[0], ts, loaded, policy);
      StepNests(s, ops[0], ts, loaded, policy);
      RunNestsIff(Obey(s, ops[0], policy).value, ops[1..], t, loaded, policy);
    }
  }

  /** From the state a run leads to, undoing item by item from the newest
      record arrives at the text that was loaded, if the run closed no sequence
      that was not open; if it did, undoing comes to a crash before that. */
  lemma UndoReachesLoadedTextIff(text: string, eol: Eol, ops: seq<Op>, policy: Policy)
    requires Run(Load(text, eol, false), ops, policy).Some?
    ensures var st := Run(Load(text, eol, false), ops, policy).value.st;
            var n := ItemCount(st.undos, |st.undos|);
            && Undos(Rewound(st), n).Done?
            && (if ClosesOpen(ops, 0)
                then Undos(Rewound(st), n).s.next == 0 && Undos(Rewound(st), n).s.text == text
                else Undos(Rewound(st), n + 1) == Crash)
  {
    hide Undos, ItemCount, Run, WellNested;
    var s := Load(text, eol, false);
    LoadIsSound(text, eol, false, policy);
    var ts := Runs.RunIs(s, ops, [text], text, policy);
    RunNestsIff(s, ops, [text], text, policy);
    UndoneToBottomIff(Run(s, ops, policy).value.st, ts);
  }

  /** Under the documented rule a run that closes only open sequences comes
      through whenever its edits and motions keep to the buffer. */
  lemma {:induction false} DocumentedComesThroughIff(s: Session, ops: seq<Op>, ts: seq<string>, loaded: string)
    requires Sound(s, ts, loaded, Documented) && WellNested(s.st.undos)
    requires ClosesOpen(ops, Depth(s.st.undos, |s.st.undos|))
    ensures Run(s, ops, Documented).Some? <==> InBoundsRun(s, ops, Documented)
    decreases |ops|
  {
    hide History, Obey, StaysTrue, Depth;
    if ops != [] {
      var t := StepIs(s, ops[0], ts, loaded, Documented);
      if s.st.next > 0 {
        ItemDepth(s.st.undos, s.st.next);
      }
      var r := Obey(s, ops[0], Documented);
      if r.Some? {
        StepNests(s, ops[0], ts, loaded, Documented);
        DocumentedComesThroughIff(r.value, ops[1..], t, loaded);
      }
    }
  }
}
