/** How the windows share the lines of the screen, as a value: the heights
    from top to bottom and which window is selected (src/window.c). */
module Tiling {
  import opened Basics

  datatype Tiling = Tiling(hs: seq<nat>, cur: nat)

  /** Every window has room for a line of text and a status line. */
  predicate Proper(t: Tiling) {
    t.cur < |t.hs| && forall i :: 0 <= i < |t.hs| ==> t.hs[i] >= 2
  }

  function Sum(hs: seq<nat>): nat {
    if hs == [] then 0 else hs[0] + Sum(hs[1..])
  }

  lemma {:induction false} SumConcat(a: seq<nat>, b: seq<nat>)
    ensures Sum(a + b) == Sum(a) + Sum(b)
  {
    if a == [] {
      assert a + b == b;
    } else {
      SumConcat(a[1..], b);
      assert (a + b)[1..] == a[1..] + b;
    }
  }

  /** The n windows from i on replaced by others. */
  function Change(hs: seq<nat>, i: nat, n: nat, put: seq<nat>): seq<nat>
    requires i + n <= |hs|
  {
    hs[..i] + put + hs[i + n..]
  }

  lemma SumChange(hs: seq<nat>, i: nat, n: nat, put: seq<nat>)
    requires i + n <= |hs|
    ensures Sum(Change(hs, i, n, put)) + Sum(hs[i..i + n]) == Sum(hs) + Sum(put)
  {
    SumConcat(hs[..i] + put, hs[i + n..]);
    SumConcat(hs[..i], put);
    assert hs == hs[..i] + hs[i..i + n] + hs[i + n..];
    SumConcat(hs[..i] + hs[i..i + n], hs[i + n..]);
    SumConcat(hs[..i], hs[i..i + n]);
  }

  // ---------------------------------------------------------------------
  // The commands
  // ---------------------------------------------------------------------

  /** split-window: the selected window keeps the smaller half. */
  function Split(t: Tiling): Tiling
    requires t.cur < |t.hs|
  {
    var h := t.hs[t.cur];
    if h < 4 then t else t.(hs := Change(t.hs, t.cur, 1, [h / 2, h / 2 + h % 2]))
  }

  /** delete_window: the window before takes the lines, or the one after when
      there is none before; and it is selected. */
  function Delete(t: Tiling, d: nat): Tiling
    requires d < |t.hs| && |t.hs| > 1
  {
    var heir := if d == 0 then 0 else d - 1;
    Tiling(Change(t.hs, heir, 2, [t.hs[heir] + t.hs[heir + 1]]), heir)
  }

  lemma DeleteAt(t: Tiling, d: nat, i: nat)
    requires d < |t.hs| && |t.hs| > 1 && i < |t.hs| - 1
    ensures var hs, hs', heir := t.hs, Delete(t, d).hs, if d == 0 then 0 else d - 1;
            |hs'| == |hs| - 1 && Delete(t, d).cur == heir
            && hs'[i] == if i == heir then hs[heir] + hs[heir + 1] else if i < d then hs[i] else hs[i + 1]
  {
  }

  /** delete-window. */
  function DeleteSelected(t: Tiling): Tiling
    requires t.cur < |t.hs|
  {
    if |t.hs| == 1 then t else Delete(t, t.cur)
  }

  /** The window that enlarge-window takes a line from. */
  function Donor(t: Tiling): (d: Option<nat>)
    requires t.cur < |t.hs|
    ensures d.Some? ==> d.value < |t.hs| && (d.value == t.cur + 1 || d.value + 1 == t.cur) && t.hs[d.value] >= 3
  {
    if t.cur + 1 < |t.hs| && t.hs[t.cur + 1] >= 3 then Some(t.cur + 1)
    else if t.cur > 0 && t.hs[t.cur - 1] >= 3 then Some(t.cur - 1)
    else None
  }

  /** enlarge-window. */
  function Enlarge(t: Tiling): Tiling
    requires t.cur < |t.hs|
  {
    var d := Donor(t);
    if d.None? then t else t.(hs := MoveLine(t.hs, d.value, t.cur))
  }

  /** shrink-window: the next window gets the line, or the one before. */
  function Shrink(t: Tiling): Tiling
    requires t.cur < |t.hs|
  {
    if |t.hs| == 1 || t.hs[t.cur] < 3 then t
    else t.(hs := MoveLine(t.hs, t.cur, if t.cur + 1 < |t.hs| then t.cur + 1 else t.cur - 1))
  }

  function MoveLine(hs: seq<nat>, from: nat, to: nat): seq<nat>
    requires from < |hs| && to < |hs| && from != to && hs[from] > 0
  {
    hs[from := hs[from] - 1][to := hs[to] + 1]
  }

  /** other-window. */
  function Other(t: Tiling): Tiling {
    t.(cur := if t.cur + 1 < |t.hs| then t.cur + 1 else 0)
  }

  /** delete-other-windows. */
  function DeleteOthers(t: Tiling): Tiling { Tiling([Sum(t.hs)], 0) }

  // ---------------------------------------------------------------------
  // What every command keeps
  // ---------------------------------------------------------------------

  predicate Keeps(t: Tiling, t': Tiling) {
    Proper(t') && Sum(t'.hs) == Sum(t.hs)
  }

  lemma SumTwo(a: nat, b: nat)
    ensures Sum([a]) == a && Sum([a, b]) == a + b
  {
    assert [a, b][1..] == [b] && [b][1..] == [] && [a][1..] == [];
  }

  lemma SplitKeeps(t: Tiling)
    requires Proper(t)
    ensures Keeps(t, Split(t))
  {
    hide Sum;
    var h := t.hs[t.cur];
    SumChange(t.hs, t.cur, 1, [h / 2, h / 2 + h % 2]);
    SumTwo(h / 2, h / 2 + h % 2);
    assert t.hs[t.cur..t.cur + 1] == [h];
    SumTwo(h, 0);
  }

  lemma DeleteKeeps(t: Tiling, d: nat)
    requires Proper(t) && d < |t.hs| && |t.hs| > 1
    ensures Keeps(t, Delete(t, d))
  {
    hide Sum;
    var heir := if d == 0 then 0 else d - 1;
    var a, b := t.hs[heir], t.hs[heir + 1];
    SumChange(t.hs, heir, 2, [a + b]);
    assert t.hs[heir..heir + 2] == [a, b];
    SumTwo(a, b);
    SumTwo(a + b, 0);
  }

  lemma {:induction false} SumUpdate(hs: seq<nat>, i: nat, h: nat)
    requires i < |hs|
    ensures Sum(hs[i := h]) + hs[i] == Sum(hs) + h
  {
    if i > 0 {
      SumUpdate(hs[1..], i - 1, h);
      assert hs[i := h][1..] == hs[1..][i - 1 := h];
    } else {
      assert hs[0 := h][1..] == hs[1..];
    }
  }

  lemma MoveLineSum(hs: seq<nat>, from: nat, to: nat)
    requires from < |hs| && to < |hs| && from != to && hs[from] > 0
    ensures Sum(MoveLine(hs, from, to)) == Sum(hs)
  {
    SumUpdate(hs, from, hs[from] - 1);
    SumUpdate(hs[from := hs[from] - 1], to, hs[to] + 1);
  }

  lemma EnlargeKeeps(t: Tiling)
    requires Proper(t)
    ensures Keeps(t, Enlarge(t))
  {
    var d := Donor(t);
    if d.Some? { MoveLineSum(t.hs, d.value, t.cur); }
  }

  lemma ShrinkKeeps(t: Tiling)
    requires Proper(t)
    ensures Keeps(t, Shrink(t))
  {
    if |t.hs| > 1 && t.hs[t.cur] >= 3 {
      MoveLineSum(t.hs, t.cur, if t.cur + 1 < |t.hs| then t.cur + 1 else t.cur - 1);
    }
  }

  lemma DeleteOthersKeeps(t: Tiling)
    requires Proper(t)
    ensures Keeps(t, DeleteOthers(t))
  {
    SumTwo(Sum(t.hs), 0);
    assert Sum(t.hs) >= t.hs[0];
  }

  datatype Command = SplitWindow | DeleteWindow | EnlargeWindow | ShrinkWindow | OtherWindow | DeleteOtherWindows

  function Do(t: Tiling, c: Command): Tiling
    requires t.cur < |t.hs|
  {
    match c
    case SplitWindow => Split(t)
    case DeleteWindow => DeleteSelected(t)
    case EnlargeWindow => Enlarge(t)
    case ShrinkWindow => Shrink(t)
    case OtherWindow => Other(t)
    case DeleteOtherWindows => DeleteOthers(t)
  }

  lemma DoKeeps(t: Tiling, c: Command)
    requires Proper(t)
    ensures Keeps(t, Do(t, c))
  {
    match c
    case SplitWindow => SplitKeeps(t);
    case DeleteWindow => if |t.hs| > 1 { DeleteKeeps(t, t.cur); }
    case EnlargeWindow => EnlargeKeeps(t);
    case ShrinkWindow => ShrinkKeeps(t);
    case OtherWindow =>
    case DeleteOtherWindows => DeleteOthersKeeps(t);
  }

  function Run(t: Tiling, cs: seq<Command>): Tiling
    requires Proper(t)
    decreases |cs|
  {
    if cs == [] then t
    else
      DoKeeps(t, cs[0]);
      Run(Do(t, cs[0]), cs[1..])
  }

  /** However the windows are rearranged, they fill the screen exactly, and
      each keeps at least its two lines. */
  lemma {:induction false} RunKeeps(t: Tiling, cs: seq<Command>)
    requires Proper(t)
    ensures Keeps(t, Run(t, cs))
    decreases |cs|
  {
    if cs != [] {
      DoKeeps(t, cs[0]);
      RunKeeps(Do(t, cs[0]), cs[1..]);
    }
  }

  /** other-window, n times. */
  function Others(t: Tiling, n: nat): Tiling {
    if n == 0 then t else Other(Others(t, n - 1))
  }

  /** It goes on from window to window, past the last one to the first, and
      changes no height: as many steps as there are windows visit each of them
      once and come back. */
  lemma {:induction false} OthersGoRound(t: Tiling, n: nat)
    requires t.cur < |t.hs| && n <= |t.hs|
    ensures var i := t.cur + n; Others(t, n) == t.(cur := if i < |t.hs| then i else i - |t.hs|)
  {
    if n > 0 {
      OthersGoRound(t, n - 1);
    }
  }

  lemma OthersVisitAll(t: Tiling, i: nat)
    requires t.cur < |t.hs| && i < |t.hs|
    ensures Others(t, |t.hs|) == t
    ensures exists n :: 0 <= n < |t.hs| && Others(t, n).cur == i &&
              forall m: nat :: m < |t.hs| && m != n ==> Others(t, m).cur != i
  {
    OthersGoRound(t, |t.hs|);
    var n := if i >= t.cur then i - t.cur else i + |t.hs| - t.cur;
    OthersGoRound(t, n);
    forall m: nat | m < |t.hs| && m != n
      ensures Others(t, m).cur != i
    {
      OthersGoRound(t, m);
    }
  }

  /** Shrinking gives one line to the next window, or to the one before when
      there is no next, and does nothing to the only window or one that has no
      line to spare. */
  lemma ShrinkGives(t: Tiling)
    requires Proper(t)
    ensures var t', c, h := Shrink(t), t.cur, t.hs[t.cur];
            && (t' == t <==> |t.hs| == 1 || h == 2)
            && (h > 2 && c + 1 < |t.hs| ==> t'.hs == t.hs[c := h - 1][c + 1 := t.hs[c + 1] + 1])
            && (h > 2 && 0 < c == |t.hs| - 1 ==> t'.hs == t.hs[c := h - 1][c - 1 := t.hs[c - 1] + 1])
            && t'.cur == c
  {
    if |t.hs| > 1 && t.hs[t.cur] > 2 {
      assert Shrink(t).hs[t.cur] == t.hs[t.cur] - 1;
    }
  }

  /** Enlarging a window and shrinking it again puts every line back, unless
      the line came from the window before and there is one after. */
  lemma EnlargeThenShrinkIff(t: Tiling)
    requires Proper(t) && Donor(t).Some?
    ensures Shrink(Enlarge(t)) == t <==> Donor(t).value == t.cur + 1 || t.cur + 1 == |t.hs|
  {
    var d := Donor(t).value;
    var back := Shrink(Enlarge(t));
    if d == t.cur + 1 || t.cur + 1 == |t.hs| {
      assert back.hs == t.hs;
    } else {
      assert back.hs[d] != t.hs[d];
    }
  }

  /** A window can be split and the new one deleted without trace. */
  lemma SplitThenDelete(t: Tiling)
    requires Proper(t) && t.hs[t.cur] >= 4
    ensures Delete(Split(t), t.cur + 1) == t
  {
    var h := t.hs[t.cur];
    assert h / 2 + (h / 2 + h % 2) == h;
    assert Delete(Split(t), t.cur + 1).hs == t.hs;
  }

  /** Splitting shares the lines out evenly, the odd one to the new window
      below, and moves no other window. */
  lemma SplitShares(t: Tiling)
    requires Proper(t) && t.hs[t.cur] >= 4
    ensures var t', c := Split(t), t.cur;
            && |t'.hs| == |t.hs| + 1 && t'.cur == c
            && t'.hs[c] + t'.hs[c + 1] == t.hs[c] && t'.hs[c] <= t'.hs[c + 1] <= t'.hs[c] + 1
            && t'.hs[..c] == t.hs[..c] && t'.hs[c + 2..] == t.hs[c + 1..]
  {
    var h, t', c := t.hs[t.cur], Split(t), t.cur;
    assert t'.hs[c] == h / 2 && t'.hs[c + 1] == h / 2 + h % 2;
  }

  /** Enlarging takes one line from the next window, or from the one before
      when the next has none to spare, and fails when neither has. */
  lemma EnlargeTakes(t: Tiling)
    requires Proper(t)
    ensures var t', c := Enlarge(t), t.cur;
            var below, above := c + 1 < |t.hs| && t.hs[c + 1] >= 3, c > 0 && t.hs[c - 1] >= 3;
            && (t' == t <==> !below && !above)
            && (below ==> t'.hs == t.hs[c := t.hs[c] + 1][c + 1 := t.hs[c + 1] - 1])
            && (!below && above ==> t'.hs == t.hs[c := t.hs[c] + 1][c - 1 := t.hs[c - 1] - 1])
  {
    var d := Donor(t);
    if d.Some? {
      assert Enlarge(t).hs[t.cur] == t.hs[t.cur] + 1;
    }
  }
}
