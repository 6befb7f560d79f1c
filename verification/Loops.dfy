/** Loops that may go on for ever. */
module Loops {
  import opened Basics

  /** The state after n rounds of a loop, or as many as the guard allows; None
      if a round itself does not end. */
  function Rounds<S>(guard: S -> bool, round: S -> Option<S>, s: S, n: nat): Option<S>
    decreases n
  {
    if n == 0 || !guard(s) then Some(s)
    else
      var r := round(s);
      if r.None? then None else Rounds(guard, round, r.value, n - 1)
  }

  /** The loop stops in r. */
  ghost predicate EndsIn<S>(guard: S -> bool, round: S -> Option<S>, s: S, r: S) {
    !guard(r) && exists n: nat :: Rounds(guard, round, s, n) == Some(r)
  }

  ghost predicate Ends<S(!new)>(guard: S -> bool, round: S -> Option<S>, s: S) {
    exists r :: EndsIn(guard, round, s, r)
  }

  /** It does not stop where something that implies the guard always holds. */
  lemma NeverEnds<S(!new)>(guard: S -> bool, round: S -> Option<S>, s: S, always: S -> bool)
    requires always(s)
    requires forall x :: always(x) ==> guard(x) && (round(x).None? || always(round(x).value))
    ensures !Ends(guard, round, s)
  {
    forall n: nat
      ensures var r := Rounds(guard, round, s, n); r.None? || guard(r.value)
    {
      AlwaysGuarded(guard, round, s, always, n);
    }
  }

  lemma {:induction false} AlwaysGuarded<S(!new)>(guard: S -> bool, round: S -> Option<S>, s: S, always: S -> bool, n: nat)
    requires always(s)
    requires forall x :: always(x) ==> guard(x) && (round(x).None? || always(round(x).value))
    ensures var r := Rounds(guard, round, s, n); r.None? || guard(r.value)
    decreases n
  {
    if n > 0 && round(s).Some? {
      AlwaysGuarded(guard, round, round(s).value, always, n - 1);
    }
  }

  /** It does where every round makes something smaller. */
  lemma {:induction false} EndsByMeasure<S(!new)>(guard: S -> bool, round: S -> Option<S>, s: S, always: S -> bool, size: S -> nat)
    returns (r: S)
    requires always(s)
    requires forall x :: always(x) && guard(x) ==>
               round(x).Some? && always(round(x).value) && size(round(x).value) < size(x)
    ensures EndsIn(guard, round, s, r) && always(r)
    decreases size(s)
  {
    if guard(s) {
      r := EndsByMeasure(guard, round, round(s).value, always, size);
      var n: nat :| Rounds(guard, round, round(s).value, n) == Some(r);
      assert Rounds(guard, round, s, n + 1) == Some(r);
    } else {
      r := s;
      assert Rounds(guard, round, s, 0) == Some(r);
    }
  }
}
