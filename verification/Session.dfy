/** Editing, moving, saving and undoing on one buffer, under the two rules for
    when the undo command starts again from the newest record: the one its
    documentation promises and the one call_command implements
    (src/undo.c:122-145, src/bind.c:292-293, src/file.c:227-237, 626-630). */
module Session {
  import opened Basics
  import opened Eol
  import opened UndoLog
  import opened Reverting
  import opened Unwinding
  import opened Undoing

  // ---------------------------------------------------------------------
  // Commands and runs
  // ---------------------------------------------------------------------

  datatype Op =
    | Edit(del: nat, es: Estr)
    | Goto(o: nat)
    | StartSeq
    | EndSeq
    | Save
    | UndoOp

  /** A buffer visiting a file that now holds `saved`. */
  datatype Session = Session(st: State, saved: string)

  /** Documented: after a command other than undo, the next undo starts from
      the newest record. Shipped: after an undo it does. */
  datatype Policy = Documented | Shipped

  function Load(text: string, eol: Eol, readonly: bool): Session {
    Session(State(text, eol, 0, false, readonly, false, [], 0), text)
  }

  function Write(s: Session): Session {
    Session(s.st.(modified := false, undos := SetUnchanged(s.st.undos)), s.st.text)
  }

  function Perform(s: Session, op: Op): Outcome
    requires s.st.next <= |s.st.undos|
  {
    match op
    case Edit(del, es) => ReplaceEstr(s.st, del, es)
    case Goto(o) => GotoOffset(s.st, o)
    case StartSeq => Done(StartSequence(s.st))
    case EndSeq => Done(EndSequence(s.st))
    case Save => Done(Write(s).st)
    case UndoOp => UndoCommand(s.st)
  }

  function Dispatch(op: Op, st: State, policy: Policy): State {
    if op.UndoOp? == policy.Shipped? then Rewound(st) else st
  }

  function Obey(s: Session, op: Op, policy: Policy): (r: Option<Session>)
    requires s.st.next <= |s.st.undos|
    ensures r.Some? ==> r.value.st.next <= |r.value.st.undos| && r.value.st.readonly == s.st.readonly
  {
    var r := Perform(s, op);
    if r.Crash? then None
    else Some(Session(Dispatch(op, r.s, policy), if op.Save? then s.st.text else s.saved))
  }

  function Run(s: Session, ops: seq<Op>, policy: Policy): (r: Option<Session>)
    requires s.st.next <= |s.st.undos|
    ensures r.Some? ==> r.value.st.next <= |r.value.st.undos| && r.value.st.readonly == s.st.readonly
    decreases |ops|
  {
    if ops == [] then Some(s)
    else
      var r := Obey(s, ops[0], policy);
      if r.None? then None else Run(r.value, ops[1..], policy)
  }

  /** Edits and motions keep to the buffer. */
  predicate InBounds(st: State, op: Op) {
    match op
    case Edit(del, _) => st.readonly || st.pt + del <= |st.text|
    case Goto(o) => o <= |st.text|
    case _ => true
  }

  /** And an undo finds an item that it can revert: under the documented rule
      one with a start is enough, under the other its records must also fit
      the text. */
  ghost predicate Safe(st: State, op: Op, policy: Policy)
    requires st.next <= |st.undos|
  {
    && InBounds(st, op)
    && (op.UndoOp? && !st.readonly && st.next > 0 ==>
          if policy.Documented? then ItemStart(st.undos, st.next).Some? else CanRevert(st, st.next))
  }

  ghost predicate SafeRun(s: Session, ops: seq<Op>, policy: Policy)
    requires s.st.next <= |s.st.undos|
    decreases |ops|
  {
    ops == [] ||
    (&& Safe(s.st, ops[0], policy)
     && var r := Obey(s, ops[0], policy);
        r.Some? ==> SafeRun(r.value, ops[1..], policy))
  }

  ghost predicate InBoundsRun(s: Session, ops: seq<Op>, policy: Policy)
    requires s.st.next <= |s.st.undos|
    decreases |ops|
  {
    ops == [] ||
    (&& InBounds(s.st, ops[0])
     && var r := Obey(s, ops[0], policy);
        r.Some? ==> InBoundsRun(r.value, ops[1..], policy))
  }

  /** A save makes every flag true. Of the other operations only an undo from
      a stale pointer can make one false that was true: if the text around a
      block that it reverts is not what the saved text shows. */
  ghost predicate StaysTrue(s: Session, op: Op, policy: Policy)
    requires s.st.next <= |s.st.undos|
  {
    op.UndoOp? && policy.Shipped? && CanRevert(s.st, s.st.next) && !s.st.readonly ==>
      ClaimsSafe(s.st.undos, ItemStart(s.st.undos, s.st.next).value, s.st.next, s.st.text, s.saved)
  }

  /** Every undo since the last save was of the other kind. */
  ghost predicate TrueRun(s: Session, ops: seq<Op>, policy: Policy, sofar: bool)
    requires s.st.next <= |s.st.undos|
    decreases |ops|
  {
    if ops == [] then sofar
    else
      var r := Obey(s, ops[0], policy);
      r.Some? && TrueRun(r.value, ops[1..], policy, ops[0].Save? || (sofar && StaysTrue(s, ops[0], policy)))
  }

  /** How many more sequences are open after an operation. */
  function Opens(op: Op): int { if op.StartSeq? then 1 else if op.EndSeq? then -1 else 0 }

  /** With d sequences open, none of these closes one that is not. */
  predicate ClosesOpen(ops: seq<Op>, d: int)
    decreases |ops|
  {
    ops == [] || ((ops[0].EndSeq? ==> d > 0) && ClosesOpen(ops[1..], d + Opens(ops[0])))
  }
}
