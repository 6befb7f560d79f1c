/** When an undo works, in terms a caller can check before it: the sizes in the
    records, the text as it is, and the saved text (src/undo.c:100-145). */
module Unwinding {
  import opened Basics
  import opened Eol
  import opened UndoLog
  import opened Reverting

  /** By how much reverting a record lengthens the text. */
  function Gain(u: Undo): int {
    if u.Replace? then |u.was.text| - u.size else 0
  }

  function Gains(us: seq<Undo>, j: nat, i: nat): int
    requires j <= i <= |us|
    decreases i - j
  {
    if j == i then 0 else Gain(us[j]) + Gains(us, j + 1, i)
  }

  /** Every record from pointer i down to pointer j fits a text of n bytes by
      the time it is its turn. */
  ghost predicate Fits(us: seq<Undo>, j: nat, i: nat, n: nat)
    requires j <= i <= |us|
  {
    forall r :: j <= r < i ==> Extent(us[r]) <= n + Gains(us, r + 1, i)
  }

  lemma {:induction false} FitsIff(us: seq<Undo>, j: nat, i: nat, t: string)
    requires j <= i <= |us|
    ensures var x := Unwind(us, j, i, t);
            (x.Some? <==> Fits(us, j, i, |t|)) && (x.Some? ==> |x.value| == |t| + Gains(us, j, i))
    decreases i - j
  {
    if j < i {
      FitsIff(us, j + 1, i, t);
      var x := Unwind(us, j + 1, i, t);
      assert Fits(us, j, i, |t|) <==> Fits(us, j + 1, i, |t|) && Extent(us[j]) <= |t| + Gains(us, j + 1, i);
    }
  }

  /** The item under pointer i has a start, and its records fit the text. */
  ghost predicate CanRevert(s: State, i: nat) {
    i <= |s.undos| && var j := ItemStart(s.undos, i); j.Some? && Fits(s.undos, j.value, i, |s.text|)
  }

  /** Exactly when revert_action comes through, whether or not the pointer is
      in step with the text. */
  lemma RevertsIff(s: State, i: nat, ts: seq<string>)
    requires History(s, ts) && Writable(s) && i <= |s.undos|
    ensures RevertAction(s, i).Reverted? <==> CanRevert(s, i)
  {
    var ts' := RevertActionIs(s, i, ts, "");
    var j := ItemStart(s.undos, i);
    if j.Some? {
      FitsIff(s.undos, j.value, i, s.text);
    }
  }

  /** When it is in step, only an end record without a start is in the way. */
  lemma InStepRevertsIff(s: State, i: nat, ts: seq<string>)
    requires History(s, ts) && Writable(s) && i <= |s.undos| && ts[i] == s.text
    ensures RevertAction(s, i).Reverted? <==> ItemStart(s.undos, i).Some?
  {
    var ts' := RevertActionIs(s, i, ts, "");
    var j := ItemStart(s.undos, i);
    if j.Some? {
      HistoryUnwinds(s, ts, j.value, i);
    }
  }

  // ---------------------------------------------------------------------
  // Where the bytes come from
  // ---------------------------------------------------------------------

  /** A byte of the unwound text is one of the text, or one of a record. */
  datatype Source = Kept(p: nat) | Given(c: char)

  function Origin(us: seq<Undo>, j: nat, i: nat, k: nat): Source
    requires j <= i <= |us|
    decreases i - j
  {
    if j == i then Kept(k)
    else if !us[j].Replace? || k < us[j].o then Origin(us, j + 1, i, k)
    else if k < us[j].o + |us[j].was.text| then Given(us[j].was.text[k - us[j].o])
    else Origin(us, j + 1, i, k - |us[j].was.text| + us[j].size)
  }

  /** The byte comes from there. */
  predicate ComesFrom(t: string, c: char, from: Source) {
    if from.Given? then c == from.c else from.p < |t| && c == t[from.p]
  }

  lemma {:induction false} UnwindBytes(us: seq<Undo>, j: nat, i: nat, t: string, x: string, k: nat)
    requires j <= i <= |us| && Unwind(us, j, i, t) == Some(x) && k < |x|
    ensures ComesFrom(t, x[k], Origin(us, j, i, k))
    decreases i - j
  {
    if j < i {
      var u, y := us[j], Unwind(us, j + 1, i, t).value;
      if !u.Replace? || k < u.o {
        UnwindBytes(us, j + 1, i, t, y, k);
      } else if k >= u.o + |u.was.text| {
        UnwindBytes(us, j + 1, i, t, y, k - |u.was.text| + u.size);
      }
    }
  }

  /** The bytes of t that survive the records from i down to j are the bytes
      that y has in their places, and the lengths agree. */
  ghost predicate Surroundings(us: seq<Undo>, j: nat, i: nat, t: string, y: string)
    requires j <= i <= |us|
  {
    && |y| == |t| + Gains(us, j, i)
    && forall k :: 0 <= k < |y| && Origin(us, j, i, k).Kept? ==> ComesFrom(t, y[k], Origin(us, j, i, k))
  }

  /** What unwinding t gives is shown by its bytes. */
  lemma UnwoundShows(us: seq<Undo>, j: nat, i: nat, t: string, x: string)
    requires j <= i <= |us| && Unwind(us, j, i, t) == Some(x)
    ensures Surroundings(us, j, i, t, x)
  {
    hide Unwind, Origin, Gains;
    FitsIff(us, j, i, t);
    forall k | 0 <= k < |x|
      ensures ComesFrom(t, x[k], Origin(us, j, i, k))
    {
      UnwindBytes(us, j, i, t, x, k);
    }
  }

  /** Two texts of the same surroundings, unwound from anything, are equal. */
  lemma SameSurroundings(us: seq<Undo>, j: nat, i: nat, t: string, x: string, t': string, y: string)
    requires j <= i <= |us| && Unwind(us, j, i, t) == Some(x) && Unwind(us, j, i, t') == Some(y)
    requires Surroundings(us, j, i, t, y)
    ensures x == y
  {
    hide Unwind, Origin, Gains;
    FitsIff(us, j, i, t);
    forall k | 0 <= k < |y|
      ensures x[k] == y[k]
    {
      UnwindBytes(us, j, i, t, x, k);
      UnwindBytes(us, j, i, t', y, k);
    }
  }

  /** Unwinding from a text t gives the text y that unwinding from t' gives if
      and only if t has the surroundings that y shows. */
  lemma UnwindsToIff(us: seq<Undo>, j: nat, i: nat, t: string, t': string, y: string)
    requires j <= i <= |us| && Fits(us, j, i, |t|) && Unwind(us, j, i, t') == Some(y)
    ensures Unwind(us, j, i, t) == Some(y) <==> Surroundings(us, j, i, t, y)
  {
    hide Unwind, Surroundings;
    FitsIff(us, j, i, t);
    var x := Unwind(us, j, i, t).value;
    UnwoundShows(us, j, i, t, x);
    if Surroundings(us, j, i, t, y) {
      SameSurroundings(us, j, i, t, x, t', y);
    }
  }

  // ---------------------------------------------------------------------
  // An undo through a stale pointer
  // ---------------------------------------------------------------------

  /** It restores the text from before the item if and only if everything
      around the item's blocks is as it was before. */
  lemma StaleTextIff(s: State, ts: seq<string>, i: nat)
    requires History(s, ts) && Writable(s) && i <= |s.undos| && CanRevert(s, i)
    ensures var r, j := RevertAction(s, i), ItemStart(s.undos, i).value;
            r.Reverted? && (r.s.text == ts[j] <==> Surroundings(s.undos, j, i, s.text, ts[j]))
  {
    RevertsIff(s, i, ts);
    var ts' := RevertActionIs(s, i, ts, "");
    var j := ItemStart(s.undos, i).value;
    HistoryUnwinds(s, ts, j, i);
    UnwindsToIff(s.undos, j, i, s.text, ts[i], ts[j]);
  }

  /** A record's claim to lead to the saved text comes true if and only if
      the text has the surroundings that the saved text shows. */
  lemma ClaimHoldsIff(s: State, ts: seq<string>, r: nat, i: nat, saved: string)
    requires History(s, ts) && Honest(s, ts, saved) && r < i <= |s.undos| && Fits(s.undos, r, i, |s.text|)
    ensures ClaimHolds(s.undos, r, i, s.text, saved) <==>
            (s.undos[r].Replace? && s.undos[r].clean ==> Surroundings(s.undos, r, i, s.text, saved))
  {
    HistoryUnwinds(s, ts, r, i);
    assert TrueFlag(s.undos, ts, saved, r);
    UnwindsToIff(s.undos, r, i, s.text, ts[i], ts[r]);
  }

  /** The oldest replace record among these, if any, is the last to be
      reverted and decides the modified flag. */
  function Oldest(us: seq<Undo>, j: nat, i: nat): (r: Option<nat>)
    requires j <= i <= |us|
    ensures r.Some? ==> j <= r.value < i && us[r.value].Replace?
    ensures forall k :: j <= k < (if r.Some? then r.value else i) ==> !us[k].Replace?
    decreases i - j
  {
    if j == i then None else if us[j].Replace? then Some(j) else Oldest(us, j + 1, i)
  }

  lemma {:induction false} OldestDecides(us: seq<Undo>, j: nat, i: nat, t: string, modified: bool)
    requires j <= i <= |us| && Unwind(us, j, i, t).Some?
    ensures var r := Oldest(us, j, i);
            if r.None? then FlagAfter(us, j, i, modified) == modified && Unwind(us, j, i, t) == Some(t)
            else FlagAfter(us, j, i, modified) == !us[r.value].clean && Unwind(us, j, i, t) == Unwind(us, r.value, i, t)
    decreases i - j
  {
    if j < i && !us[j].Replace? {
      OldestDecides(us, j + 1, i, t, modified);
    }
  }

  /** After an undo through any pointer the modified flag tells the truth if
      and only if the item's oldest record makes no claim, or the text has the
      surroundings that the saved text shows. */
  lemma StaleFlagIff(s: State, ts: seq<string>, i: nat, saved: string)
    requires History(s, ts) && Honest(s, ts, saved) && Writable(s) && i <= |s.undos| && CanRevert(s, i)
    ensures var r, o := RevertAction(s, i), Oldest(s.undos, ItemStart(s.undos, i).value, i);
            && r.Reverted?
            && ((!r.s.modified ==> r.s.text == saved) <==>
                (o.Some? && s.undos[o.value].clean ==> Surroundings(s.undos, o.value, i, s.text, saved)))
  {
    RevertsIff(s, i, ts);
    var ts' := RevertActionIs(s, i, ts, saved);
    var j := ItemStart(s.undos, i).value;
    OldestDecides(s.undos, j, i, s.text, s.modified);
    var o := Oldest(s.undos, j, i);
    if o.Some? {
      ClaimHoldsIff(s, ts, o.value, i, saved);
    }
  }

  /** Every claim of every record, old and new, is true after it if and only
      if the text has the right surroundings for each record of the item that
      makes one. */
  ghost predicate ClaimsSafe(us: seq<Undo>, j: nat, i: nat, t: string, saved: string)
    requires j <= i <= |us|
  {
    forall r :: j <= r < i && us[r].Replace? && us[r].clean ==> Surroundings(us, r, i, t, saved)
  }

  lemma StaleClaimsIff(s: State, ts: seq<string>, i: nat, saved: string)
    requires History(s, ts) && Honest(s, ts, saved) && CanRevert(s, i)
    ensures var j := ItemStart(s.undos, i).value;
            ClaimsHold(s.undos, j, i, s.text, saved) <==> ClaimsSafe(s.undos, j, i, s.text, saved)
  {
    hide Surroundings;
    var j := ItemStart(s.undos, i).value;
    forall r | j <= r < i
      ensures ClaimHolds(s.undos, r, i, s.text, saved) <==>
              (s.undos[r].Replace? && s.undos[r].clean ==> Surroundings(s.undos, r, i, s.text, saved))
    {
      ClaimHoldsIff(s, ts, r, i, saved);
    }
  }

  /** Exactly when the flags are all still true after an undo through any
      pointer. */
  lemma StaleHonestIff(s: State, ts: seq<string>, i: nat, saved: string) returns (ts': seq<string>)
    requires History(s, ts) && Honest(s, ts, saved) && Writable(s) && i <= |s.undos| && CanRevert(s, i)
    ensures var r, j := RevertAction(s, i), ItemStart(s.undos, i).value;
            && r.Reverted? && RevertSpec(s, ts, i, r.s, j, ts', saved)
            && (Honest(r.s, ts', saved) <==> ClaimsSafe(s.undos, j, i, s.text, saved))
  {
    RevertsIff(s, i, ts);
    ts' := RevertActionIs(s, i, ts, saved);
    StaleClaimsIff(s, ts, i, saved);
  }
}
