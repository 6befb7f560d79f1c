/** What every operation keeps, and exactly which runs come through and leave
    the flags true (src/undo.c:55-145). */
module Runs {
  import opened Basics
  import opened Eol
  import opened UndoLog
  import opened Reverting
  import opened Unwinding
  import opened Undoing
  import opened Session

  /** What holds of a session between commands. */
  ghost predicate Sound(s: Session, ts: seq<string>, loaded: string, policy: Policy) {
    && History(s.st, ts) && ts[0] == loaded
    && !s.st.noundo
    && s.st.next <= |s.st.undos|
    && (policy.Documented? ==> InStep(s.st, ts))
  }

  /** After an operation the session is sound, and its flags are true exactly
      if they were and the operation kept them so. */
  ghost predicate Kept(s: Session, op: Op, ts: seq<string>, loaded: string, policy: Policy, s': Session, ts': seq<string>)
    requires s.st.next <= |s.st.undos|
  {
    && Sound(s', ts', loaded, policy)
    && (Honest(s'.st, ts', s'.saved) <==> op.Save? || (Honest(s.st, ts, s.saved) && StaysTrue(s, op, policy)))
  }

  /** A save keeps the history, and whatever the flags claimed before it they
      are true after it. */
  lemma WriteKeepsSound(s: Session, ts: seq<string>)
    requires History(s.st, ts)
    ensures History(Write(s).st, ts) && Honest(Write(s).st, ts, Write(s).saved)
    ensures !Write(s).st.modified && Write(s).saved == Write(s).st.text == s.st.text && Write(s).st.pt == s.st.pt
  {
    var us, vs := s.st.undos, Write(s).st.undos;
    forall i | 0 <= i < |us|
      ensures StepBack(vs, s.st.eol, ts, i)
    {
      assert StepBack(us, s.st.eol, ts, i);
    }
  }

  /** One operation comes through exactly when it is safe. */
  lemma StepIs(s: Session, op: Op, ts: seq<string>, loaded: string, policy: Policy)
    returns (ts': seq<string>)
    requires Sound(s, ts, loaded, policy)
    ensures var r := Obey(s, op, policy);
            && (r.Some? <==> Safe(s.st, op, policy))
            && (r.Some? ==> Kept(s, op, ts, loaded, policy, r.value, ts'))
  {
    match op
    case Edit(del, es) => ts' := EditIs(s, del, es, ts, loaded, policy);
    case Goto(o) =>
      ts' := ts;
      if o <= |s.st.text| {
        MovedPoint(s.st, o, ts, s.saved);
        Rewinding(s.st.(pt := o), ts, s.saved);
      }
    case StartSeq =>
      var s1;
      s1, ts' := MarkPushed(s.st, Start(s.st.pt), ts, s.saved);
      Rewinding(s1, ts', s.saved);
    case EndSeq =>
      var s1;
      s1, ts' := MarkPushed(s.st, End, ts, s.saved);
      Rewinding(s1, ts', s.saved);
    case Save =>
      ts' := ts;
      WriteKeepsSound(s, ts);
      Rewinding(Write(s).st, ts, s.st.text);
    case UndoOp => ts' := UndoIs(s, ts, loaded, policy);
  }

  lemma Rewinding(st: State, ts: seq<string>, saved: string)
    requires History(st, ts)
    ensures InStep(Rewound(st), ts) && (Honest(Rewound(st), ts, saved) <==> Honest(st, ts, saved))
  {
  }

  lemma MovedPoint(st: State, o: nat, ts: seq<string>, saved: string)
    requires History(st, ts) && o <= |st.text|
    ensures History(st.(pt := o), ts) && (Honest(st.(pt := o), ts, saved) <==> Honest(st, ts, saved))
  {
  }

  lemma EditIs(s: Session, del: nat, es: Estr, ts: seq<string>, loaded: string, policy: Policy)
    returns (ts': seq<string>)
    requires Sound(s, ts, loaded, policy)
    ensures var r := Obey(s, Edit(del, es), policy);
            && (r.Some? <==> s.st.readonly || s.st.pt + del <= |s.st.text|)
            && (r.Some? ==> Kept(s, Edit(del, es), ts, loaded, policy, r.value, ts'))
  {
    ts' := ts;
    if s.st.readonly {
      Rewinding(s.st, ts, s.saved);
    } else if s.st.pt + del <= |s.st.text| {
      var st' := ReplaceEstr(s.st, del, es).s;
      ReplaceKeepsHistory(s.st, del, es, ts, s.saved);
      ts' := ts + [st'.text];
      EditClaims(s.st, st', ts, s.saved);
      Rewinding(st', ts', s.saved);
    }
  }

  lemma EditClaims(st: State, st': State, ts: seq<string>, saved: string)
    requires |ts| == |st.undos| + 1 && |st'.undos| == |st.undos| + 1 && st.undos <= st'.undos && st'.modified
    requires st'.undos[|st.undos|].Replace? && st'.undos[|st.undos|].clean == !st.modified
    requires ts[|st.undos|] == st.text
    ensures Honest(st', ts + [st'.text], saved) <==> Honest(st, ts, saved)
  {
    var ts', n := ts + [st'.text], |st.undos|;
    assert forall k :: 0 <= k < n ==> (TrueFlag(st'.undos, ts', saved, k) <==> TrueFlag(st.undos, ts, saved, k));
    assert TrueFlag(st'.undos, ts', saved, n) <==> (!st.modified ==> st.text == saved);
  }

  lemma UndoIs(s: Session, ts: seq<string>, loaded: string, policy: Policy) returns (ts': seq<string>)
    requires Sound(s, ts, loaded, policy)
    ensures var r := Obey(s, UndoOp, policy);
            && (r.Some? <==> Safe(s.st, UndoOp, policy))
            && (r.Some? ==> Kept(s, UndoOp, ts, loaded, policy, r.value, ts'))
  {
    ts' := ts;
    if s.st.readonly || s.st.next == 0 {
      Rewinding(s.st, ts, s.saved);
    } else if policy.Documented? {
      ts' := DocumentedUndoIs(s, ts, loaded);
    } else {
      ts' := ShippedUndoIs(s, ts, loaded);
    }
  }

  lemma DocumentedUndoIs(s: Session, ts: seq<string>, loaded: string) returns (ts': seq<string>)
    requires Sound(s, ts, loaded, Documented) && !s.st.readonly && s.st.next > 0
    ensures var r := Obey(s, UndoOp, Documented);
            && (r.Some? <==> ItemStart(s.st.undos, s.st.next).Some?)
            && (r.Some? ==> Kept(s, UndoOp, ts, loaded, Documented, r.value, ts'))
  {
    hide StepBack, Honest;
    ts' := ts;
    InStepRevertsIff(s.st, s.st.next, ts);
    var j := ItemStart(s.st.undos, s.st.next);
    if j.Some? {
      var s1, t, p := UndoOnce(s.st, ts, j.value, s.saved);
      ts' := t;
    }
  }

  lemma ShippedUndoIs(s: Session, ts: seq<string>, loaded: string) returns (ts': seq<string>)
    requires Sound(s, ts, loaded, Shipped) && !s.st.readonly && s.st.next > 0
    ensures var r := Obey(s, UndoOp, Shipped);
            && (r.Some? <==> CanRevert(s.st, s.st.next))
            && (r.Some? ==> Kept(s, UndoOp, ts, loaded, Shipped, r.value, ts'))
  {
    hide History, Honest, CanRevert, ClaimsSafe, ClaimsHold;
    ts' := ts;
    RevertsIff(s.st, s.st.next, ts);
    if CanRevert(s.st, s.st.next) {
      ts' := ShippedUndoKeeps(s, ts, loaded);
    }
  }

  lemma ShippedUndoKeeps(s: Session, ts: seq<string>, loaded: string) returns (ts': seq<string>)
    requires Sound(s, ts, loaded, Shipped) && !s.st.readonly && CanRevert(s.st, s.st.next)
    requires RevertAction(s.st, s.st.next).Reverted?
    ensures Kept(s, UndoOp, ts, loaded, Shipped,
                 Session(Rewound(RevertAction(s.st, s.st.next).s), s.saved), ts')
  {
    hide StepBack, Honest, ClaimsSafe, ClaimsHold;
    var i := s.st.next;
    ts' := RevertActionIs(s.st, i, ts, s.saved);
    if Honest(s.st, ts, s.saved) {
      StaleClaimsIff(s.st, ts, i, s.saved);
    }
    Rewinding(RevertAction(s.st, i).s, ts', s.saved);
  }

  /** After a run that came through the session is sound, and its flags are
      true exactly if it was a true run. It comes through exactly when every
      operation is safe where it stands. */
  lemma {:induction false} RunIs(s: Session, ops: seq<Op>, ts: seq<string>, loaded: string, policy: Policy)
    returns (ts': seq<string>)
    requires Sound(s, ts, loaded, policy)
    ensures var r := Run(s, ops, policy);
            && (r.Some? <==> SafeRun(s, ops, policy))
            && (r.Some? ==> Sound(r.value, ts', loaded, policy))
            && (r.Some? ==> (Honest(r.value.st, ts', r.value.saved) <==>
                             TrueRun(s, ops, policy, Honest(s.st, ts, s.saved))))
    decreases |ops|
  {
    hide History, Honest, Safe, Obey, StaysTrue;
    ts' := ts;
    if ops != [] {
      var t := StepIs(s, ops[0], ts, loaded, policy);
      var r := Obey(s, ops[0], policy);
      if r.Some? {
        ts' := RunIs(r.value, ops[1..], t, loaded, policy);
      }
    }
  }

  lemma LoadIsSound(text: string, eol: Eol, readonly: bool, policy: Policy)
    ensures Sound(Load(text, eol, readonly), [text], text, policy)
    ensures Honest(Load(text, eol, readonly).st, [text], text)
    ensures WellNested(Load(text, eol, readonly).st.undos)
  {
  }

  /** Exactly when a run on a loaded buffer comes through. */
  lemma RunComesThroughIff(text: string, eol: Eol, readonly: bool, ops: seq<Op>, policy: Policy)
    ensures Run(Load(text, eol, readonly), ops, policy).Some? <==>
            SafeRun(Load(text, eol, readonly), ops, policy)
  {
    LoadIsSound(text, eol, readonly, policy);
    var ts := RunIs(Load(text, eol, readonly), ops, [text], text, policy);
  }

  /** At the end of a true run, an unset modified flag means that the text is
      the text last loaded or saved. */
  lemma ModifiedFlagSound(text: string, eol: Eol, readonly: bool, ops: seq<Op>, policy: Policy)
    ensures var r := Run(Load(text, eol, readonly), ops, policy);
            r.Some? && TrueRun(Load(text, eol, readonly), ops, policy, true) ==>
            (!r.value.st.modified ==> r.value.st.text == r.value.saved)
  {
    LoadIsSound(text, eol, readonly, policy);
    var ts := RunIs(Load(text, eol, readonly), ops, [text], text, policy);
  }

  /** Under the documented rule every run that comes through is one. */
  lemma {:induction false} DocumentedRunIsTrue(s: Session, ops: seq<Op>)
    requires s.st.next <= |s.st.undos| && Run(s, ops, Documented).Some?
    ensures TrueRun(s, ops, Documented, true)
    decreases |ops|
  {
    if ops != [] {
      DocumentedRunIsTrue(Obey(s, ops[0], Documented).value, ops[1..]);
    }
  }
}
