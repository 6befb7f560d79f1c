/** Undo commands in a row, from a pointer that is in step with the text
    (src/undo.c:100-145). */
module Undoing {
  import opened Basics
  import opened UndoLog
  import opened Reverting
  import opened Unwinding

  // ---------------------------------------------------------------------
  // Well nested lists
  // ---------------------------------------------------------------------

  /** Counting starts and ends decides whether every end has its start. */
  lemma WellNestedIffMatched(us: seq<Undo>)
    ensures WellNested(us) <==> forall i :: 0 < i <= |us| ==> ItemStart(us, i).Some?
  {
    if WellNested(us) {
      forall i | 0 < i <= |us|
        ensures ItemStart(us, i).Some?
      {
        ItemDepth(us, i);
      }
    } else {
      var i :| 0 <= i <= |us| && Depth(us, i) < 0;
      var k := FirstOverrun(us, i);
      UnmatchedEnd(us, k);
    }
  }

  lemma {:induction false} FirstOverrun(us: seq<Undo>, i: nat) returns (k: nat)
    requires i <= |us| && Depth(us, i) < 0
    ensures 0 < k <= i && Depth(us, k) < 0 && forall j :: 0 <= j < k ==> Depth(us, j) >= 0
  {
    if j :| 0 <= j < i && Depth(us, j) < 0 {
      k := FirstOverrun(us, j);
    } else {
      k := i;
    }
  }

  lemma UnmatchedEnd(us: seq<Undo>, k: nat)
    requires 0 < k <= |us| && Depth(us, k) < 0
    requires forall j :: 0 <= j < k ==> Depth(us, j) >= 0
    ensures ItemStart(us, k).None?
  {
    assert Depth(us, k - 1) >= 0;
    var v := us[..k - 1];
    forall j | 0 <= j <= |v|
      ensures Depth(v, j) == Depth(us, j)
    {
      DepthPrefix(v, us, j);
    }
    RunDepth(v, k - 1);
    PrefixItems(v, us, k - 1);
  }

  lemma PushKeepsNesting(us: seq<Undo>, u: Undo)
    requires WellNested(us)
    requires u.End? ==> Depth(us, |us|) > 0
    ensures WellNested(us + [u])
  {
    var vs := us + [u];
    forall i | 0 <= i <= |vs|
      ensures Depth(vs, i) >= 0
    {
      DepthPrefix(us, vs, |us|);
      if i <= |us| {
        DepthPrefix(us, vs, i);
      }
    }
  }

  /** Where walking down from pointer i item by item ends. */
  function Bottom(us: seq<Undo>, i: nat): (r: nat)
    requires i <= |us|
    ensures r <= i && ItemStart(us, r).None?
    decreases i
  {
    var j := ItemStart(us, i);
    if j.None? then i else Bottom(us, j.value)
  }

  /** An end record without its start stops every walk from above it. */
  lemma {:induction false} NoWayPast(us: seq<Undo>, i: nat, k: nat)
    requires k <= i <= |us| && k > 0 && ItemStart(us, k).None?
    ensures ItemStart(us, i).Some? ==> ItemStart(us, i).value >= k
    ensures RunStart(us, i).Some? ==> RunStart(us, i).value > k
  {
    if i > k {
      NoWayPast(us, i - 1, k);
      var j := ItemStart(us, i);
      if j.Some? {
        NoWayPast(us, j.value, k);
      }
    }
  }

  /** The walk reaches the end of the list exactly when the list is well
      nested. */
  lemma {:induction false} BottomIff(us: seq<Undo>, i: nat)
    requires i <= |us|
    ensures WellNested(us) ==> Bottom(us, i) == 0
    ensures (exists k :: 0 < k <= i && ItemStart(us, k).None?) ==> Bottom(us, i) > 0
    decreases i
  {
    if WellNested(us) && i > 0 {
      ItemDepth(us, i);
    }
    if k :| 0 < k <= i && ItemStart(us, k).None? {
      NoWayPast(us, i, k);
    }
    var j := ItemStart(us, i);
    if j.Some? {
      BottomIff(us, j.value);
    }
  }

  lemma WellNestedIffWalked(us: seq<Undo>)
    ensures WellNested(us) <==> Bottom(us, |us|) == 0
  {
    WellNestedIffMatched(us);
    BottomIff(us, |us|);
  }

  // ---------------------------------------------------------------------
  // Repeated undo
  // ---------------------------------------------------------------------

  /** k undo commands in a row. */
  function Undos(s: State, k: nat): Outcome
    requires s.next <= |s.undos|
    decreases k
  {
    if k == 0 then Done(s)
    else
      var r := UndoCommand(s);
      if r.Crash? then Crash else Undos(r.s, k - 1)
  }

  lemma {:induction false} UndosAdd(s: State, k: nat, n: nat)
    requires s.next <= |s.undos|
    ensures var r := Undos(s, k);
            if r.Crash? then Undos(s, k + n).Crash?
            else r.s.next <= |r.s.undos| && Undos(s, k + n) == Undos(r.s, n)
    decreases k
  {
    hide UndoCommand;
    if k > 0 {
      var r := UndoCommand(s);
      if r.Done? {
        UndosAdd(r.s, k - 1, n);
      }
    }
  }

  /** Pointer k items below pointer i. */
  function Boundary(us: seq<Undo>, i: nat, k: nat): (r: Option<nat>)
    requires i <= |us|
    ensures r.Some? ==> r.value <= i
    decreases k
  {
    if k == 0 then Some(i)
    else
      var j := ItemStart(us, i);
      if j.None? then None else Boundary(us, j.value, k - 1)
  }

  /** Pointer j is k items below pointer i. */
  predicate IsBoundary(us: seq<Undo>, i: nat, k: nat, j: nat) {
    i <= |us| && Boundary(us, i, k) == Some(j)
  }

  lemma {:induction false} BoundaryPrefix(us: seq<Undo>, vs: seq<Undo>, i: nat, k: nat, j: nat)
    requires us <= vs && IsBoundary(us, i, k, j)
    ensures IsBoundary(vs, i, k, j)
    decreases k
  {
    if k > 0 {
      PrefixItems(us, vs, i);
      BoundaryPrefix(us, vs, ItemStart(us, i).value, k - 1, j);
    }
  }

  lemma {:induction false} BoundaryAdds(us: seq<Undo>, i: nat, a: nat, j: nat, b: nat, k: nat, n: nat)
    requires n == a + b
    requires IsBoundary(us, i, a, j) && IsBoundary(us, j, b, k)
    ensures IsBoundary(us, i, n, k)
    decreases a
  {
    if a > 0 {
      BoundaryAdds(us, ItemStart(us, i).value, a - 1, j, b, k, n - 1);
    }
  }

  /** The text is the one from when the records under the undo pointer were
      the whole list. */
  ghost predicate InStep(s: State, ts: seq<string>) {
    History(s, ts) && s.next <= |s.undos| && ts[s.next] == s.text
  }

  /** Then no claim of the records under it can fail. */
  lemma InStepClaims(s: State, ts: seq<string>, j: nat, saved: string)
    requires InStep(s, ts) && Honest(s, ts, saved) && j <= s.next
    ensures ClaimsHold(s.undos, j, s.next, s.text, saved)
  {
    forall r | j <= r < s.next
      ensures ClaimHolds(s.undos, r, s.next, s.text, saved)
    {
      HistoryUnwinds(s, ts, r, s.next);
      assert TrueFlag(s.undos, ts, saved, r);
    }
  }

  /** One undo command from a state whose undo pointer is in step with the
      text: everything above the pointer cancels out. */
  lemma UndoOnce(s: State, ts: seq<string>, j: nat, saved: string)
    returns (s': State, ts': seq<string>, pushed: nat)
    requires InStep(s, ts) && Writable(s) && ItemIs(s.undos, s.next, j)
    ensures UndoCommand(s) == Done(s') && s'.next == j && s'.text == ts[j]
    ensures InStep(s', ts') && Writable(s') && s.undos <= s'.undos && ts <= ts'
    ensures Honest(s, ts, saved) <==> Honest(s', ts', saved)
    ensures pushed <= 1 && IsBoundary(s'.undos, |s'.undos|, pushed, |s.undos|)
  {
    hide Unwind, Honest, ClaimsHold, FlagAfter;
    InStepRevertsIff(s, s.next, ts);
    var t := RevertActionIs(s, s.next, ts, saved);
    HistoryUnwinds(s, ts, j, s.next);
    var r := RevertAction(s, s.next);
    if Honest(s, ts, saved) {
      InStepClaims(s, ts, j, saved);
    }
    s', ts' := r.s.(next := j), t;
    MovedPointer(r.s, j, t, saved);
    pushed := if s.undos[s.next - 1].Start? then 0 else 1;
  }

  /** The history and the flags do not depend on the undo pointer. */
  lemma MovedPointer(s: State, j: nat, ts: seq<string>, saved: string)
    requires History(s, ts)
    ensures History(s.(next := j), ts)
    ensures Honest(s, ts, saved) <==> Honest(s.(next := j), ts, saved)
  {
  }

  /** Walk-back. From a state whose pointer is in step, the k-th undo in a row
      restores exactly the text from before the k-th item below the pointer.
      It never crashes, although every undo pushes new records; and what the
      k undos pushed is itself at most k items, so they can be undone. */
  lemma {:induction false} WalkBack(s: State, ts: seq<string>, k: nat, j: nat, saved: string)
    returns (s': State, ts': seq<string>, pushed: nat)
    requires InStep(s, ts) && Writable(s) && IsBoundary(s.undos, s.next, k, j)
    ensures Undos(s, k) == Done(s') && s'.next == j && s'.text == ts[j]
    ensures InStep(s', ts') && Writable(s') && s.undos <= s'.undos && ts <= ts'
    ensures Honest(s, ts, saved) ==> Honest(s', ts', saved)
    ensures pushed <= k && IsBoundary(s'.undos, |s'.undos|, pushed, |s.undos|)
    decreases k
  {
    hide StepBack, Honest, ItemStart, UndoCommand;
    if k == 0 {
      s', ts', pushed := s, ts, 0;
    } else {
      var s1, ts1, p := UndoOnce(s, ts, ItemStart(s.undos, s.next).value, saved);
      BoundaryPrefix(s.undos, s1.undos, s1.next, k - 1, j);
      var q;
      s', ts', q := WalkBack(s1, ts1, k - 1, j, saved);
      pushed := q + p;
      BoundaryPrefix(s1.undos, s'.undos, |s1.undos|, p, |s.undos|);
      BoundaryAdds(s'.undos, |s'.undos|, q, |s1.undos|, p, |s.undos|, pushed);
    }
  }

  /** With no record under the pointer, the first undo only sets it to the
      newest one, and the second reverts the newest item. */
  lemma SecondUndoReverts(s: State, ts: seq<string>, j: nat)
    requires History(s, ts) && Writable(s) && s.next == 0
    ensures Undos(s, 1) == Done(s.(next := |s.undos|))
    ensures ItemIs(s.undos, |s.undos|, j) ==>
            var r := Undos(s, 2); r.Done? && r.s.text == ts[j] && r.s.next == j
    ensures s.undos == [] ==> Undos(s, 2) == Done(s)
  {
    assert UndoCommand(s) == Done(Rewound(s));
    UndosAdd(s, 1, 1);
    assert Undos(Rewound(s), 0) == Done(Rewound(s));
    RewoundInStep(s, ts);
    if ItemIs(s.undos, |s.undos|, j) {
      var s', ts', p := UndoOnce(Rewound(s), ts, j, "");
      assert Undos(s', 0) == Done(s');
    }
  }

  /** The pointer set to the newest record is in step. */
  function Rewound(s: State): State { s.(next := |s.undos|) }

  /** Undo is undoable: after k undos, starting again from the newest record
      and undoing what they pushed brings the text back. */
  lemma UndosUndone(s: State, ts: seq<string>, k: nat) returns (m: nat)
    requires InStep(s, ts) && Writable(s) && Boundary(s.undos, s.next, k).Some?
    ensures m <= k && Undos(s, k).Done?
    ensures var r := Undos(Rewound(Undos(s, k).s), m);
            r.Done? && r.s.text == s.text && r.s.next == |s.undos|
  {
    var s1, ts1, p := WalkBack(s, ts, k, Boundary(s.undos, s.next, k).value, "");
    assert InStep(Rewound(s1), ts1);
    var s2, ts2, q := WalkBack(Rewound(s1), ts1, p, |s.undos|, "");
    m := p;
  }

  /** Number of items on the way down from pointer i. */
  function ItemCount(us: seq<Undo>, i: nat): nat
    requires i <= |us|
    decreases i
  {
    var j := ItemStart(us, i);
    if j.None? then 0 else 1 + ItemCount(us, j.value)
  }

  lemma {:induction false} CountReachesBottom(us: seq<Undo>, i: nat)
    requires i <= |us|
    ensures IsBoundary(us, i, ItemCount(us, i), Bottom(us, i))
    decreases i
  {
    var j := ItemStart(us, i);
    if j.Some? {
      CountReachesBottom(us, j.value);
    }
  }

  /** Undoing item by item from the newest record comes to the oldest text
      if the list is well nested. If it is not, it comes to an end record
      without a start, and the next undo crashes. */
  lemma UndoneToBottomIff(s: State, ts: seq<string>)
    requires History(s, ts) && Writable(s)
    ensures var n := ItemCount(s.undos, |s.undos|);
            && Undos(Rewound(s), n).Done?
            && (if WellNested(s.undos)
                then Undos(Rewound(s), n).s.next == 0 && Undos(Rewound(s), n).s.text == ts[0]
                else Undos(Rewound(s), n + 1) == Crash)
  {
    hide History, WellNested;
    var us, n := s.undos, ItemCount(s.undos, |s.undos|);
    RewoundInStep(s, ts);
    CountReachesBottom(us, |us|);
    WellNestedIffWalked(us);
    var s', ts', p := WalkBack(Rewound(s), ts, n, Bottom(us, |us|), "");
    if !WellNested(us) {
      PrefixItems(us, s'.undos, s'.next);
      InStepRevertsIff(s', s'.next, ts');
      UndosAdd(Rewound(s), n, 1);
    }
  }

  lemma RewoundInStep(s: State, ts: seq<string>)
    requires History(s, ts)
    ensures InStep(Rewound(s), ts)
  {
  }
}
