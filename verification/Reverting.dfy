/** What revert_action does from any state, in step with the undo pointer or
    not (src/undo.c:100-120). */
module Reverting {
  import opened Basics
  import opened Eol
  import opened UndoLog

  /** Every replace leaves behind the recipe that undoes it. */
  lemma ReplaceKeepsHistory(s: State, del: nat, es: Estr, ts: seq<string>, saved: string)
    requires History(s, ts) && !s.readonly && !s.noundo && s.pt + del <= |s.text|
    ensures ReplaceEstr(s, del, es).Done?
    ensures History(ReplaceEstr(s, del, es).s, ts + [ReplaceEstr(s, del, es).s.text])
    ensures Honest(s, ts, saved) ==>
            Honest(ReplaceEstr(s, del, es).s, ts + [ReplaceEstr(s, del, es).s.text], saved)
  {
    var s' := ReplaceEstr(s, del, es).s;
    var put := Translate(es.text, es.eol, s.eol);
    SpliceBack(s.text, s.pt, del, put);
    PushHistory(s, s'.undos[|s.undos|], s', ts);
    if Honest(s, ts, saved) {
      PushHonest(s, s'.undos[|s.undos|], s', ts, saved);
    }
  }

  predicate Writable(s: State) { !s.readonly && !s.noundo }

  predicate SameBuffer(s: State, s': State) {
    s'.eol == s.eol && s'.readonly == s.readonly && s'.noundo == s.noundo && s'.next == s.next
  }

  /** The records from pointer i down to pointer j have been reverted: the
      text and the flag are what unwinding gives, the history ts' goes on from
      ts with the records that were pushed, and every claim to be the saved
      text is true exactly if all were and the ones reverted hold. */
  ghost predicate RevertSpec(s: State, ts: seq<string>, i: nat, s': State, j: nat, ts': seq<string>, saved: string) {
    && j <= i <= |s.undos|
    && s.undos <= s'.undos && ts <= ts' && History(s', ts') && SameBuffer(s, s')
    && Unwind(s.undos, j, i, s.text) == Some(s'.text)
    && s'.modified == FlagAfter(s.undos, j, i, s.modified)
    && (Honest(s', ts', saved) <==> Honest(s, ts, saved) && ClaimsHold(s.undos, j, i, s.text, saved))
  }

  lemma SpecJoin(s: State, ts: seq<string>, i: nat, s1: State, m: nat, ts1: seq<string>,
      s2: State, j: nat, ts2: seq<string>, saved: string)
    requires RevertSpec(s, ts, i, s1, m, ts1, saved) && RevertSpec(s1, ts1, m, s2, j, ts2, saved)
    ensures RevertSpec(s, ts, i, s2, j, ts2, saved)
  {
    UnwindJoin(s.undos, j, m, i, s.text);
    UnwindPrefix(s.undos, s1.undos, j, m, s1.text);
    FlagJoin(s.undos, j, m, i, s.modified);
    FlagPrefix(s.undos, s1.undos, j, m, s1.modified);
    ClaimsJoin(s.undos, j, m, i, s.text, s1.text, saved);
    ClaimsPrefix(s.undos, s1.undos, j, m, s1.text, saved);
  }

  /** One record that is not an end: reverted, or stuck. */
  lemma RecordReverted(s: State, i: nat, ts: seq<string>, saved: string) returns (ts': seq<string>)
    requires History(s, ts) && Writable(s) && 0 < i <= |s.undos| && !s.undos[i - 1].End?
    ensures var u, g := s.undos[i - 1], RevertRecord(s, s.undos[i - 1]);
            && (g.Crash? <==> Extent(u) > |s.text|)
            && (g.Done? ==> RevertSpec(s, ts, i, g.s, i - 1, ts', saved))
            && (g.Done? && u.Start? ==> g.s.undos == s.undos && g.s.pt == u.o)
            && (g.Done? && u.Replace? ==> |g.s.undos| == |s.undos| + 1 && g.s.undos[|s.undos|].Replace?)
  {
    var u := s.undos[i - 1];
    ts' := ts;
    if Extent(u) <= |s.text| {
      if u.Start? {
        StartReverted(s, i, ts, saved);
      } else {
        ts' := ReplaceReverted(s, i, ts, saved);
      }
    } else if u.Replace? && u.o <= |s.text| {
      assert ReplaceEstr(s.(pt := u.o), u.size, u.was).Crash?;
    }
  }

  lemma StartReverted(s: State, i: nat, ts: seq<string>, saved: string)
    requires History(s, ts) && 0 < i <= |s.undos| && s.undos[i - 1].Start? && s.undos[i - 1].o <= |s.text|
    ensures RevertSpec(s, ts, i, s.(pt := s.undos[i - 1].o), i - 1, ts, saved)
  {
    var s' := s.(pt := s.undos[i - 1].o);
    forall k | 0 <= k < |s.undos|
      ensures StepBack(s'.undos, s'.eol, ts, k)
    {
      assert StepBack(s.undos, s.eol, ts, k);
    }
  }

  lemma ReplaceReverted(s: State, i: nat, ts: seq<string>, saved: string) returns (ts': seq<string>)
    requires History(s, ts) && Writable(s)
    requires 0 < i <= |s.undos| && s.undos[i - 1].Replace? && Extent(s.undos[i - 1]) <= |s.text|
    ensures var g := RevertRecord(s, s.undos[i - 1]);
            && g.Done? && RevertSpec(s, ts, i, g.s, i - 1, ts', saved)
            && |g.s.undos| == |s.undos| + 1 && g.s.undos[|s.undos|].Replace?
  {
    hide Translate;
    var u := s.undos[i - 1];
    assert StepBack(s.undos, s.eol, ts, i - 1);
    var g := s.(pt := u.o);
    ReplaceKeepsHistory(g, u.size, u.was, ts, saved);
    TranslateSame(u.was.text, s.eol);
    var r := RevertRecord(s, u).s;
    ts' := ts + [r.text];
    assert Unwind(s.undos, i, i, s.text) == Some(s.text);
    assert Unwind(s.undos, i - 1, i, s.text) == Some(r.text);
    HonestAfter(s, u, r, ts, saved);
    assert ClaimsHold(s.undos, i - 1, i, s.text, saved) <==> ClaimHolds(s.undos, i - 1, i, s.text, saved);
  }

  /** A replace pushes a record that claims what the modified flag said. */
  lemma HonestAfter(s: State, u: Undo, r: State, ts: seq<string>, saved: string)
    requires History(s, ts) && u.Replace? && r.modified == !u.clean
    requires |r.undos| == |s.undos| + 1 && s.undos <= r.undos
    requires r.undos[|s.undos|].Replace? && r.undos[|s.undos|].clean == !s.modified
    ensures Honest(r, ts + [r.text], saved) <==> Honest(s, ts, saved) && (u.clean ==> r.text == saved)
  {
    var ts', n := ts + [r.text], |s.undos|;
    assert forall k :: 0 <= k < n ==> (TrueFlag(r.undos, ts', saved, k) <==> TrueFlag(s.undos, ts, saved, k));
    assert TrueFlag(r.undos, ts', saved, n) <==> (!s.modified ==> s.text == saved);
  }

  /** A start or end record claims nothing. */
  lemma MarkPushed(s: State, u: Undo, ts: seq<string>, saved: string) returns (s1: State, ts1: seq<string>)
    requires History(s, ts) && !s.noundo && (u == Start(s.pt) || u == End)
    ensures s1 == Push(s, u) && ts1 == ts + [s.text] && History(s1, ts1)
    ensures Honest(s1, ts1, saved) <==> Honest(s, ts, saved)
  {
    s1, ts1 := Push(s, u), ts + [s.text];
    PushHistory(s, u, s1, ts);
    var n := |s.undos|;
    assert forall k :: 0 <= k < n ==> (TrueFlag(s1.undos, ts1, saved, k) <==> TrueFlag(s.undos, ts, saved, k));
    assert TrueFlag(s1.undos, ts1, saved, n);
  }

  /** The item or run that starts at pointer j can be unwound. */
  predicate Unwinds(us: seq<Undo>, j: Option<nat>, i: nat, t: string) {
    i <= |us| && j.Some? && j.value <= i && Unwind(us, j.value, i, t).Some?
  }

  /** What reverting an item pushes: one item, or nothing for a lone start. */
  predicate Pushed(s: State, i: nat, s': State) {
    && 0 < i <= |s.undos|
    && if s.undos[i - 1].Start? then s'.undos == s.undos
       else TopItem(s'.undos, |s.undos|) && !s'.undos[|s'.undos| - 1].Start?
  }

  /** Where point is once a group has been reverted: where it began. */
  predicate BackAtStart(s: State, i: nat, s': State, j: nat) {
    0 < i <= |s.undos| && j < |s.undos| && (s.undos[i - 1].End? ==> s.undos[j].Start? && s'.pt == s.undos[j].o)
  }

  /** What is promised of revert_action on the item under pointer i. */
  ghost predicate ActionSpec(s: State, ts: seq<string>, i: nat, r: Reverted, ts': seq<string>, saved: string)
    requires i <= |s.undos|
  {
    if r.Stuck? then !Unwinds(s.undos, ItemStart(s.undos, i), i, s.text)
    else ItemIs(s.undos, i, r.next) && RevertSpec(s, ts, i, r.s, r.next, ts', saved)
         && Pushed(s, i, r.s) && BackAtStart(s, i, r.s, r.next)
  }

  /** And of the loop inside it. */
  ghost predicate RunSpec(s: State, ts: seq<string>, i: nat, r: Reverted, ts': seq<string>, saved: string)
    requires i <= |s.undos|
  {
    if r.Stuck? then !Unwinds(s.undos, RunStart(s.undos, i), i, s.text)
    else RunIs(s.undos, i, r.next) && RevertSpec(s, ts, i, r.s, r.next, ts', saved)
         && WholeItems(r.s.undos, |s.undos|)
  }

  /** From any state with a history, in step with the pointer or not,
      revert_action works the item off exactly as unwinding does, and gets
      stuck exactly when the item has no start or does not unwind. */
  lemma {:induction false} RevertActionIs(s: State, i: nat, ts: seq<string>, saved: string)
    returns (ts': seq<string>)
    requires History(s, ts) && Writable(s) && i <= |s.undos|
    ensures ActionSpec(s, ts, i, RevertAction(s, i), ts', saved)
    decreases i, 1
  {
    ts' := ts;
    if i > 0 && s.undos[i - 1].End? {
      ts' := RevertGroupIs(s, i, ts, saved);
    } else if i > 0 {
      ts' := RecordReverted(s, i, ts, saved);
      assert Unwind(s.undos, i, i, s.text) == Some(s.text);
    }
  }

  /** An end record: the group's own start record goes on the list. */
  lemma GroupOpened(s: State, i: nat, ts: seq<string>, saved: string) returns (s1: State, ts1: seq<string>)
    requires History(s, ts) && Writable(s) && 0 < i <= |s.undos| && s.undos[i - 1].End?
    ensures s1 == StartSequence(s) && RevertSpec(s, ts, i, s1, i - 1, ts1, saved)
  {
    s1, ts1 := MarkPushed(s, Start(s.pt), ts, saved);
    assert Unwind(s.undos, i, i, s.text) == Some(s.text);
    assert FlagAfter(s.undos, i, i, s.modified) == s.modified;
  }

  lemma GroupClosed(s: State, i: nat, ts: seq<string>, saved: string) returns (s1: State, ts1: seq<string>)
    requires History(s, ts) && Writable(s) && i <= |s.undos|
    ensures s1 == EndSequence(s) && RevertSpec(s, ts, i, s1, i, ts1, saved)
  {
    s1, ts1 := MarkPushed(s, End, ts, saved);
  }

  lemma {:induction false} RevertGroupIs(s: State, i: nat, ts: seq<string>, saved: string)
    returns (ts': seq<string>)
    requires History(s, ts) && Writable(s) && 0 < i <= |s.undos| && s.undos[i - 1].End?
    ensures ActionSpec(s, ts, i, RevertAction(s, i), ts', saved)
    decreases i, 0
  {
    hide History, Honest, Unwind, ClaimsHold, FlagAfter, RevertAction, RevertRun, RevertRecord, ItemStart, RunStart;
    hide ActionSpec, RunSpec;
    var s1, ts1 := GroupOpened(s, i, ts, saved);
    var ts2 := RevertRunIs(s1, i - 1, ts1, saved);
    PrefixItems(s.undos, s1.undos, i - 1);
    ts' := GroupGoesOn(s, i, ts, s1, RevertRun(s1, i - 1), ts1, ts2, saved);
  }

  /** The loop inside the group has ended, or is stuck. */
  lemma GroupGoesOn(s: State, i: nat, ts: seq<string>, s1: State, r: Reverted, ts1: seq<string>, ts2: seq<string>,
      saved: string) returns (ts': seq<string>)
    requires History(s, ts) && Writable(s) && 0 < i <= |s.undos| && s.undos[i - 1].End?
    requires s1 == StartSequence(s) && RevertSpec(s, ts, i, s1, i - 1, ts1, saved)
    requires RunStart(s1.undos, i - 1) == RunStart(s.undos, i - 1)
    requires r == RevertRun(s1, i - 1) && RunSpec(s1, ts1, i - 1, r, ts2, saved)
    ensures ActionSpec(s, ts, i, RevertAction(s, i), ts', saved)
  {
    hide History, Honest, ClaimsHold, FlagAfter, Unwind, RevertRecord, ReplaceEstr, Unwinds;
    if r.Stuck? {
      ts' := ts;
      GroupStuck(s, i, s1);
    } else {
      ts' := GroupDone(s, i, ts, s1, r.s, r.next, ts1, ts2, saved);
    }
  }

  lemma GroupDone(s: State, i: nat, ts: seq<string>, s1: State, s2: State, k: nat, ts1: seq<string>,
      ts2: seq<string>, saved: string) returns (ts': seq<string>)
    requires History(s, ts) && Writable(s) && 0 < i <= |s.undos| && s.undos[i - 1].End?
    requires s1 == StartSequence(s) && RevertSpec(s, ts, i, s1, i - 1, ts1, saved)
    requires RunIs(s.undos, i - 1, k) && k < i && s.undos[k - 1].Start?
    requires RevertSpec(s1, ts1, i - 1, s2, k, ts2, saved) && WholeItems(s2.undos, |s1.undos|)
    ensures var g := RevertRecord(EndSequence(s2), s2.undos[k - 1]);
            if g.Crash? then !Unwinds(s.undos, ItemStart(s.undos, i), i, s.text)
            else ActionSpec(s, ts, i, Reverted(g.s, k - 1), ts', saved)
  {
    hide History, Honest, Unwind, ClaimsHold, FlagAfter;
    SpecJoin(s, ts, i, s1, i - 1, ts1, s2, k, ts2, saved);
    ts' := GroupEnds(s, i, ts, s2, k, ts2, saved);
    GroupPushed(s1.undos, s2.undos);
  }

  /** The loop inside the group is stuck, and so is unwinding. */
  lemma GroupStuck(s: State, i: nat, s1: State)
    requires 0 < i <= |s.undos| && s.undos[i - 1].End? && s.undos <= s1.undos && s1.text == s.text
    requires RunStart(s1.undos, i - 1) == RunStart(s.undos, i - 1)
    requires !Unwinds(s1.undos, RunStart(s1.undos, i - 1), i - 1, s.text)
    ensures !Unwinds(s.undos, ItemStart(s.undos, i), i, s.text)
  {
    var k := RunStart(s.undos, i - 1);
    if k.Some? {
      UnwindPrefix(s.undos, s1.undos, k.value, i - 1, s.text);
      UnwindJoin(s.undos, k.value - 1, k.value, i, s.text);
      UnwindJoin(s.undos, k.value, i - 1, i, s.text);
      assert Unwind(s.undos, i, i, s.text) == Some(s.text);
    }
  }

  /** The loop is done: an end record, and then the start record. */
  lemma GroupEnds(s: State, i: nat, ts: seq<string>, s2: State, k: nat, ts2: seq<string>, saved: string)
    returns (ts': seq<string>)
    requires History(s, ts) && Writable(s) && 0 < k < i <= |s.undos| && s.undos[k - 1].Start?
    requires RevertSpec(s, ts, i, s2, k, ts2, saved)
    ensures var g := RevertRecord(EndSequence(s2), s2.undos[k - 1]);
            if g.Crash? then Unwind(s.undos, k - 1, i, s.text).None?
            else RevertSpec(s, ts, i, g.s, k - 1, ts', saved)
                 && g.s.undos == EndSequence(s2).undos && g.s.pt == s.undos[k - 1].o
  {
    assert s2.undos[k - 1] == s.undos[k - 1];
    var s3, ts3 := GroupClosed(s2, k, ts2, saved);
    SpecJoin(s, ts, i, s2, k, ts2, s3, k, ts3, saved);
    ts' := RecordReverted(s3, k, ts3, saved);
    var g := RevertRecord(s3, s3.undos[k - 1]);
    if g.Done? {
      SpecJoin(s, ts, i, s3, k, ts3, g.s, k - 1, ts', saved);
    }
  }

  lemma {:induction false} RevertRunIs(s: State, i: nat, ts: seq<string>, saved: string)
    returns (ts': seq<string>)
    requires History(s, ts) && Writable(s) && i <= |s.undos|
    ensures RunSpec(s, ts, i, RevertRun(s, i), ts', saved)
    decreases i, 2
  {
    ts' := ts;
    if i > 0 && !s.undos[i - 1].Start? {
      var ts1 := RevertActionIs(s, i, ts, saved);
      var r := RevertAction(s, i);
      if r.Stuck? {
        RunStuck(s.undos, i, s.text);
      } else {
        ts' := RevertRunIs(r.s, r.next, ts1, saved);
        PrefixItems(s.undos, r.s.undos, r.next);
        RunGoesOn(s, i, ts, r.s, r.next, ts1, RevertRun(r.s, r.next), ts', saved);
      }
    }
  }

  lemma RunStuck(us: seq<Undo>, i: nat, t: string)
    requires 0 < i <= |us| && !us[i - 1].Start? && !Unwinds(us, ItemStart(us, i), i, t)
    ensures !Unwinds(us, RunStart(us, i), i, t)
  {
    var m, k := ItemStart(us, i), RunStart(us, i);
    if m.Some? && k.Some? {
      UnwindJoin(us, k.value, m.value, i, t);
    }
  }

  /** The first item of the run has been reverted. */
  lemma RunGoesOn(s: State, i: nat, ts: seq<string>, s1: State, m: nat, ts1: seq<string>, r: Reverted,
      ts2: seq<string>, saved: string)
    requires 0 < i <= |s.undos| && !s.undos[i - 1].Start? && ItemIs(s.undos, i, m)
    requires RevertSpec(s, ts, i, s1, m, ts1, saved) && Pushed(s, i, s1)
    requires RunStart(s1.undos, m) == RunStart(s.undos, m)
    requires m <= |s1.undos| && RunSpec(s1, ts1, m, r, ts2, saved)
    ensures RunSpec(s, ts, i, r, ts2, saved)
  {
    if r.Stuck? {
      var k := RunStart(s.undos, m);
      if k.Some? {
        UnwindPrefix(s.undos, s1.undos, k.value, m, s1.text);
        UnwindJoin(s.undos, k.value, m, i, s.text);
      }
    } else {
      SpecJoin(s, ts, i, s1, m, ts1, r.s, r.next, ts2, saved);
      PrefixItems(s1.undos, r.s.undos, |s1.undos|);
      PrefixItems(s1.undos, r.s.undos, |s.undos|);
    }
  }

  /** A start record, whole items, and an end record make one item. */
  lemma GroupPushed(us: seq<Undo>, vs: seq<Undo>)
    requires us != [] && us[|us| - 1].Start? && us <= vs
    requires WholeItems(vs, |us|)
    ensures TopItem(vs + [End], |us| - 1)
  {
    PrefixItems(vs, vs + [End], |vs|);
    assert vs[|us| - 1] == us[|us| - 1];
  }
}
