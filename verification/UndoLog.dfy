/** The undo list of a buffer and the machine that walks it (src/undo.c),
    over the plain text of the buffer. Records are kept oldest first; a
    pointer into the C list is the number of records at or below it, so the
    null pointer is 0 and the record under pointer i is undos[i - 1]. */
module UndoLog {
  import opened Basics
  import opened Eol

  datatype Undo =
    | Replace(o: nat, size: nat, was: Estr, clean: bool)
    | Start(o: nat)
    | End

  datatype State = State(
    text: string,
    eol: Eol,
    pt: nat,
    modified: bool,
    readonly: bool,
    noundo: bool,
    undos: seq<Undo>,
    next: nat)

  /** Crash stands for a failed assertion or a null dereference in C. */
  datatype Outcome = Crash | Done(s: State)

  datatype Reverted = Stuck | Reverted(s: State, next: nat)

  // ---------------------------------------------------------------------
  // Editing
  // ---------------------------------------------------------------------

  function Push(s: State, u: Undo): State {
    if s.noundo then s else s.(undos := s.undos + [u])
  }

  function StartSequence(s: State): State { Push(s, Start(s.pt)) }

  function EndSequence(s: State): State { Push(s, End) }

  function SaveBlock(s: State, o: nat, osize: nat, size: nat): State
    requires o + osize <= |s.text|
  {
    Push(s, Replace(o, size, Estr(s.text[o..o + osize], s.eol), !s.modified))
  }

  /** replace_estr: put es, translated to the buffer's convention, in place
      of the del bytes after point. A read-only buffer is left alone. */
  function ReplaceEstr(s: State, del: nat, es: Estr): Outcome {
    if s.readonly then Done(s)
    else if s.pt + del > |s.text| then Crash
    else
      var put := Translate(es.text, es.eol, s.eol);
      Done(SaveBlock(s, s.pt, del, |put|).(
           text := Splice(s.text, s.pt, del, put),
           pt := s.pt + |put|,
           modified := true))
  }

  /** The new bytes end up before point, and everything else stays. */
  lemma ReplaceIs(s: State, del: nat, es: Estr)
    requires !s.readonly && s.pt + del <= |s.text|
    ensures var r, put := ReplaceEstr(s, del, es), Translate(es.text, es.eol, s.eol);
            && r.Done? && r.s.modified && r.s.pt == s.pt + |put| <= |r.s.text|
            && r.s.text[..r.s.pt] == s.text[..s.pt] + put && r.s.text[r.s.pt..] == s.text[s.pt + del..]
  {
    SpliceIs(s.text, s.pt, del, Translate(es.text, es.eol, s.eol));
  }

  function GotoOffset(s: State, o: nat): Outcome {
    if o > |s.text| then Crash else Done(s.(pt := o))
  }

  // ---------------------------------------------------------------------
  // Reverting
  // ---------------------------------------------------------------------

  /** The part of revert_action that treats one record other than an end. */
  function RevertRecord(s: State, u: Undo): Outcome
    requires !u.End?
  {
    var g := GotoOffset(s, u.o);
    if g.Crash? || u.Start? then g
    else
      var r := ReplaceEstr(g.s, u.size, u.was);
      if r.Crash? then Crash
      else Done(if u.clean then r.s.(modified := false) else r.s)
  }

  /** revert_action on the record under pointer i. An end record first has
      everything down to its start record reverted, between a start and an
      end record of its own. */
  function RevertAction(s: State, i: nat): (r: Reverted)
    requires i <= |s.undos|
    ensures r.Reverted? ==> r.next < i && s.undos <= r.s.undos && r.s.noundo == s.noundo && r.s.readonly == s.readonly
    decreases i, 0
  {
    if i == 0 then Stuck
    else if s.undos[i - 1].End? then
      var r := RevertRun(StartSequence(s), i - 1);
      if r.Stuck? then Stuck
      else
        var g := RevertRecord(EndSequence(r.s), s.undos[r.next - 1]);
        if g.Crash? then Stuck else Reverted(g.s, r.next - 1)
    else
      var g := RevertRecord(s, s.undos[i - 1]);
      if g.Crash? then Stuck else Reverted(g.s, i - 1)
  }

  /** The loop inside revert_action: revert until a start record shows. */
  function RevertRun(s: State, i: nat): (r: Reverted)
    requires i <= |s.undos|
    ensures r.Reverted? ==> 0 < r.next <= i && s.undos <= r.s.undos && s.undos[r.next - 1].Start?
    ensures r.Reverted? ==> r.s.noundo == s.noundo && r.s.readonly == s.readonly
    decreases i, 1
  {
    if i == 0 then Stuck
    else if s.undos[i - 1].Start? then Reverted(s, i)
    else
      var r := RevertAction(s, i);
      if r.Stuck? then Stuck
      else
        assert forall k :: 0 <= k < i ==> s.undos[k] == r.s.undos[k];
        RevertRun(r.s, r.next)
  }

  /** Reverting from pointer i, without a crash, stops in s' at pointer j. */
  predicate ActionTo(s: State, i: nat, s': State, j: nat) {
    i <= |s.undos| && RevertAction(s, i) == Reverted(s', j)
  }

  /** The group whose end record is under pointer i has been reverted down to
      its start record under pointer j, and closed. */
  predicate GroupTo(s: State, i: nat, s': State, j: nat) {
    && 0 < i <= |s.undos|
    && var r := RevertRun(StartSequence(s), i - 1);
       r.Reverted? && s' == EndSequence(r.s) && j == r.next
  }

  predicate RunTo(s: State, i: nat, s': State, j: nat) {
    i <= |s.undos| && RevertRun(s, i) == Reverted(s', j)
  }

  /** The undo command. */
  function UndoCommand(s: State): (r: Outcome)
    requires s.next <= |s.undos|
    ensures r.Done? ==> s.undos <= r.s.undos && r.s.next <= |r.s.undos| && r.s.readonly == s.readonly
  {
    if s.noundo || s.readonly then Done(s)
    else if s.next == 0 then Done(s.(next := |s.undos|))
    else
      var r := RevertAction(s, s.next);
      if r.Stuck? then Crash else Done(r.s.(next := r.next))
  }

  /** undo_set_unchanged: no record may claim to lead to a saved text. */
  function SetUnchanged(us: seq<Undo>): (r: seq<Undo>)
    ensures |r| == |us|
    ensures forall i :: 0 <= i < |us| ==> r[i] == if us[i].Replace? then us[i].(clean := false) else us[i]
  {
    seq(|us|, i requires 0 <= i < |us| => if us[i].Replace? then us[i].(clean := false) else us[i])
  }

  // ---------------------------------------------------------------------
  // Items: a lone record, or a start..end group
  // ---------------------------------------------------------------------

  /** Pointer just below the item whose newest record is under pointer i. */
  function ItemStart(us: seq<Undo>, i: nat): (r: Option<nat>)
    requires i <= |us|
    ensures r.Some? ==> r.value < i
    decreases i, 0
  {
    if i == 0 then None
    else if us[i - 1].End? then
      var j := RunStart(us, i - 1);
      if j.None? then None else Some(j.value - 1)
    else Some(i - 1)
  }

  /** Pointer to the start record that encloses everything under pointer i. */
  function RunStart(us: seq<Undo>, i: nat): (r: Option<nat>)
    requires i <= |us|
    ensures r.Some? ==> 0 < r.value <= i && us[r.value - 1].Start?
    decreases i, 1
  {
    if i == 0 then None
    else if us[i - 1].Start? then Some(i)
    else
      var j := ItemStart(us, i);
      if j.None? then None else RunStart(us, j.value)
  }

  /** The item under pointer i starts just above pointer j. */
  predicate ItemIs(us: seq<Undo>, i: nat, j: nat) {
    i <= |us| && ItemStart(us, i) == Some(j)
  }

  /** The start record enclosing what is under pointer i is under pointer j. */
  predicate RunIs(us: seq<Undo>, i: nat, j: nat) {
    i <= |us| && RunStart(us, i) == Some(j)
  }

  /** The records above pointer n form exactly one item. */
  predicate TopItem(us: seq<Undo>, n: nat) {
    n < |us| && ItemStart(us, |us|) == Some(n)
  }

  /** The records above pointer n are whole items, none a lone start. */
  predicate WholeItems(us: seq<Undo>, n: nat) {
    n <= |us| && RunStart(us, |us|) == RunStart(us, n)
  }

  /** Starts minus ends among the i oldest records. */
  function Depth(us: seq<Undo>, i: nat): int
    requires i <= |us|
  {
    if i == 0 then 0
    else Depth(us, i - 1) + (if us[i - 1].Start? then 1 else if us[i - 1].End? then -1 else 0)
  }

  /** No prefix of the list closes more sequences than it opened. */
  ghost predicate WellNested(us: seq<Undo>) {
    forall i :: 0 <= i <= |us| ==> Depth(us, i) >= 0
  }

  lemma {:induction false} ItemDepth(us: seq<Undo>, i: nat)
    requires 0 < i <= |us| && WellNested(us)
    ensures ItemStart(us, i).Some?
    ensures !us[i - 1].Start? ==> Depth(us, ItemStart(us, i).value) == Depth(us, i)
    decreases i, 0
  {
    if us[i - 1].End? {
      assert Depth(us, i - 1) == Depth(us, i) + 1;
      RunDepth(us, i - 1);
      var j := RunStart(us, i - 1).value;
      assert Depth(us, j) == Depth(us, j - 1) + 1;
    }
  }

  lemma {:induction false} RunDepth(us: seq<Undo>, i: nat)
    requires i <= |us| && WellNested(us)
    ensures RunStart(us, i).Some? <==> Depth(us, i) > 0
    ensures RunStart(us, i).Some? ==> Depth(us, RunStart(us, i).value) == Depth(us, i)
    decreases i, 1
  {
    if i > 0 {
      if us[i - 1].Start? {
        assert Depth(us, i - 1) >= 0;
      } else {
        ItemDepth(us, i);
        RunDepth(us, ItemStart(us, i).value);
      }
    }
  }

  lemma {:induction false} DepthPrefix(us: seq<Undo>, vs: seq<Undo>, i: nat)
    requires us <= vs && i <= |us|
    ensures Depth(us, i) == Depth(vs, i)
  {
    if i > 0 {
      DepthPrefix(us, vs, i - 1);
      assert us[i - 1] == vs[i - 1];
    }
  }

  /** Pushing more records does not disturb the items below. */
  lemma {:induction false} PrefixItems(us: seq<Undo>, vs: seq<Undo>, i: nat)
    requires us <= vs && i <= |us|
    ensures ItemStart(us, i) == ItemStart(vs, i)
    ensures RunStart(us, i) == RunStart(vs, i)
  {
    if i > 0 {
      assert us[i - 1] == vs[i - 1];
      PrefixItems(us, vs, i - 1);
      var j := ItemStart(us, i);
      if j.Some? {
        PrefixItems(us, vs, j.value);
      }
    }
  }

  // ---------------------------------------------------------------------
  // What the records mean
  // ---------------------------------------------------------------------

  /** Record i, pushed when the text was ts[i], is the recipe that takes the
      text after it, ts[i + 1], back to that. */
  predicate StepBack(us: seq<Undo>, eol: Eol, ts: seq<string>, i: nat)
    requires i < |us| && i + 1 < |ts|
  {
    match us[i]
    case Replace(o, size, was, _) =>
      o + size <= |ts[i + 1]| && was.eol == eol &&
      ts[i] == Splice(ts[i + 1], o, size, was.text)
    case Start(o) => o <= |ts[i + 1]| && ts[i] == ts[i + 1]
    case End => ts[i] == ts[i + 1]
  }

  /** ts[i] is the text the buffer had when record i was pushed, and the last
      entry is the text now. */
  ghost predicate History(s: State, ts: seq<string>) {
    && |ts| == |s.undos| + 1
    && ts[|s.undos|] == s.text
    && s.pt <= |s.text|
    && forall i :: 0 <= i < |s.undos| ==> StepBack(s.undos, s.eol, ts, i)
  }

  /** A record's clean flag is set only if the text before it was `saved`. */
  predicate TrueFlag(us: seq<Undo>, ts: seq<string>, saved: string, i: nat)
    requires i < |us| && i < |ts|
  {
    us[i].Replace? && us[i].clean ==> ts[i] == saved
  }

  /** The modified flag and the records' clean flags tell the truth about the
      text last loaded or saved. */
  ghost predicate Honest(s: State, ts: seq<string>, saved: string) {
    && |ts| == |s.undos| + 1
    && (!s.modified ==> s.text == saved)
    && forall i :: 0 <= i < |s.undos| ==> TrueFlag(s.undos, ts, saved, i)
  }

  lemma PushHistory(s: State, u: Undo, s': State, ts: seq<string>)
    requires History(s, ts)
    requires s'.undos == s.undos + [u] && s'.eol == s.eol && s'.pt <= |s'.text|
    requires StepBack([u], s.eol, [s.text, s'.text], 0)
    ensures History(s', ts + [s'.text])
  {
    var ts' := ts + [s'.text];
    forall i | 0 <= i < |s'.undos|
      ensures StepBack(s'.undos, s'.eol, ts', i)
    {
      if i < |s.undos| {
        assert StepBack(s.undos, s.eol, ts, i);
      }
    }
  }

  lemma PushHonest(s: State, u: Undo, s': State, ts: seq<string>, saved: string)
    requires Honest(s, ts, saved)
    requires s'.undos == s.undos + [u]
    requires u.Replace? && u.clean ==> ts[|s.undos|] == saved
    requires !s'.modified ==> s'.text == saved
    ensures Honest(s', ts + [s'.text], saved)
  {
    var ts' := ts + [s'.text];
    forall i | 0 <= i < |s'.undos|
      ensures TrueFlag(s'.undos, ts', saved, i)
    {
      if i < |s.undos| {
        assert TrueFlag(s.undos, ts, saved, i);
      }
    }
  }

  // ---------------------------------------------------------------------
  // Unwinding
  // ---------------------------------------------------------------------

  /** How far into the text reverting a record reaches. */
  function Extent(u: Undo): nat {
    if u.Replace? then u.o + u.size else if u.Start? then u.o else 0
  }

  /** What reverting a record does to a text it fits. */
  function Apply(u: Undo, t: string): string
    requires Extent(u) <= |t|
  {
    if u.Replace? then Splice(t, u.o, u.size, u.was.text) else t
  }

  /** The text t with the records from pointer i down to pointer j applied to
      it, newest first, whatever groups they form; or None as soon as one does
      not fit. */
  function Unwind(us: seq<Undo>, j: nat, i: nat, t: string): Option<string>
    requires j <= i <= |us|
    decreases i - j
  {
    if j == i then Some(t)
    else
      var r := Unwind(us, j + 1, i, t);
      if r.None? || Extent(us[j]) > |r.value| then None else Some(Apply(us[j], r.value))
  }

  /** In two stages. */
  lemma {:induction false} UnwindJoin(us: seq<Undo>, j: nat, m: nat, i: nat, t: string)
    requires j <= m <= i <= |us|
    ensures var r := Unwind(us, m, i, t);
            Unwind(us, j, i, t) == if r.None? then None else Unwind(us, j, m, r.value)
    decreases m - j
  {
    if j < m {
      UnwindJoin(us, j + 1, m, i, t);
    }
  }

  lemma {:induction false} UnwindPrefix(us: seq<Undo>, vs: seq<Undo>, j: nat, i: nat, t: string)
    requires us <= vs && j <= i <= |us|
    ensures Unwind(us, j, i, t) == Unwind(vs, j, i, t)
    decreases i - j
  {
    if j < i {
      UnwindPrefix(us, vs, j + 1, i, t);
      assert us[j] == vs[j];
    }
  }

  /** From the text a record was pushed at, unwinding gives every earlier
      text. */
  lemma {:induction false} HistoryUnwinds(s: State, ts: seq<string>, j: nat, i: nat)
    requires History(s, ts) && j <= i <= |s.undos|
    ensures Unwind(s.undos, j, i, ts[i]) == Some(ts[j])
    decreases i - j
  {
    if j < i {
      HistoryUnwinds(s, ts, j + 1, i);
      assert StepBack(s.undos, s.eol, ts, j);
    }
  }

  /** The modified flag after these records have been reverted. */
  function FlagAfter(us: seq<Undo>, j: nat, i: nat, modified: bool): bool
    requires j <= i <= |us|
    decreases i - j
  {
    if j == i then modified
    else if us[j].Replace? then !us[j].clean
    else FlagAfter(us, j + 1, i, modified)
  }

  lemma {:induction false} FlagJoin(us: seq<Undo>, j: nat, m: nat, i: nat, modified: bool)
    requires j <= m <= i <= |us|
    ensures FlagAfter(us, j, i, modified) == FlagAfter(us, j, m, FlagAfter(us, m, i, modified))
    decreases m - j
  {
    if j < m {
      FlagJoin(us, j + 1, m, i, modified);
    }
  }

  lemma {:induction false} FlagPrefix(us: seq<Undo>, vs: seq<Undo>, j: nat, i: nat, modified: bool)
    requires us <= vs && j <= i <= |us|
    ensures FlagAfter(us, j, i, modified) == FlagAfter(vs, j, i, modified)
    decreases i - j
  {
    if j < i {
      FlagPrefix(us, vs, j + 1, i, modified);
      assert us[j] == vs[j];
    }
  }

  /** Each of these records that claims to lead to the saved text does. */
  ghost predicate ClaimsHold(us: seq<Undo>, j: nat, i: nat, t: string, saved: string)
    requires j <= i <= |us|
  {
    forall r :: j <= r < i ==> ClaimHolds(us, r, i, t, saved)
  }

  predicate ClaimHolds(us: seq<Undo>, r: nat, i: nat, t: string, saved: string)
    requires r < i <= |us|
  {
    us[r].Replace? && us[r].clean ==> Unwind(us, r, i, t) == Some(saved)
  }

  lemma ClaimsJoin(us: seq<Undo>, j: nat, m: nat, i: nat, t: string, t1: string, saved: string)
    requires j <= m <= i <= |us| && Unwind(us, m, i, t) == Some(t1)
    ensures ClaimsHold(us, j, i, t, saved) <==> ClaimsHold(us, m, i, t, saved) && ClaimsHold(us, j, m, t1, saved)
  {
    forall r | j <= r < m
      ensures ClaimHolds(us, r, i, t, saved) <==> ClaimHolds(us, r, m, t1, saved)
    {
      UnwindJoin(us, r, m, i, t);
    }
  }

  lemma ClaimsPrefix(us: seq<Undo>, vs: seq<Undo>, j: nat, i: nat, t: string, saved: string)
    requires us <= vs && j <= i <= |us|
    ensures ClaimsHold(us, j, i, t, saved) <==> ClaimsHold(vs, j, i, t, saved)
  {
    forall r | j <= r < i
      ensures ClaimHolds(us, r, i, t, saved) <==> ClaimHolds(vs, r, i, t, saved)
    {
      UnwindPrefix(us, vs, r, i, t);
      assert us[r] == vs[r];
    }
  }
}
