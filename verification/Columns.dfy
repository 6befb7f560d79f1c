/** Screen columns: the goal column of a position (src/basic.c:54-65) and the
    position of a goal column (src/buffer.c:750-767). */
module Columns {
  import opened Basics

  /** Bitwise or of two sizes. */
  function BitOr(a: nat, b: nat): nat {
    if a == 0 then b
    else if b == 0 then a
    else 2 * BitOr(a / 2, b / 2) + Max(a % 2, b % 2)
  }

  /** Column after character c at column col, as get_goalc_bp advances it. */
  function GoalcStep(col: nat, c: char, t: nat): nat
    requires t >= 1
  {
    (if c == '\t' then BitOr(col, t - 1) else col) + 1
  }

  /** get_goalc_bp for the text between the start of the line and point. */
  function Goalc(line: string, t: nat): nat
    requires t >= 1
  {
    if line == "" then 0 else GoalcStep(Goalc(line[..|line| - 1], t), line[|line| - 1], t)
  }

  /** Column after character c at column col, with tab stops every t columns. */
  function Advance(col: nat, c: char, t: nat): nat
    requires t >= 1
  {
    if c == '\t' then col + (t - col % t) else col + 1
  }

  function Column(line: string, t: nat): nat
    requires t >= 1
  {
    if line == "" then 0 else Advance(Column(line[..|line| - 1], t), line[|line| - 1], t)
  }

  predicate IsPow2(t: nat) {
    t == 1 || (t > 0 && t % 2 == 0 && IsPow2(t / 2))
  }

  // ---------------------------------------------------------------------
  // The bit trick
  // ---------------------------------------------------------------------

  lemma {:induction false} OrLowBits(q: nat, r: nat, t: nat, p: nat)
    requires IsPow2(t) && r < t && p == q * t
    ensures BitOr(p + r, t - 1) == p + t - 1
    decreases t
  {
    if t > 1 && p + r > 0 {
      var h := t / 2;
      assert t == 2 * h;
      HalfProduct(q, h, p);
      OrLowBits(q, r / 2, h, q * h);
      OrHalves(p + r, t);
      assert (p + r) / 2 == q * h + r / 2;
    }
  }

  lemma HalfProduct(q: nat, h: nat, p: nat)
    requires p == q * (2 * h)
    ensures p == 2 * (q * h)
  {
  }

  lemma OrHalves(col: nat, t: nat)
    requires col > 0 && t > 1 && t % 2 == 0
    ensures BitOr(col, t - 1) == 2 * BitOr(col / 2, t / 2 - 1) + 1
  {
    assert (t - 1) / 2 == t / 2 - 1 && (t - 1) % 2 == 1;
  }

  lemma ModUnique(a: int, t: nat, q: int, r: nat)
    requires t > 0 && r < t && a == q * t + r
    ensures a % t == r
  {
    var d := a / t - q;
    assert a == (a / t) * t + a % t;
    assert d * t == (a / t) * t - q * t == r - a % t;
    assert d >= 1 ==> d * t >= t;
    assert d <= -1 ==> d * t <= -1 * t;
  }

  lemma {:induction false} OrSame(a: nat)
    ensures BitOr(a, a) == a
  {
    if a > 0 {
      OrSame(a / 2);
    }
  }

  /** At column t the trick reaches the stop 2t only for a power of two. */
  lemma {:induction false} OrAtTabStop(t: nat)
    requires t >= 1
    ensures BitOr(t, t - 1) == 2 * t - 1 <==> IsPow2(t)
    ensures BitOr(t, t - 1) <= 2 * t - 1
  {
    if t > 1 {
      if t % 2 == 0 {
        OrAtTabStop(t / 2);
        assert (t - 1) / 2 == t / 2 - 1 && (t - 1) % 2 == 1;
      } else {
        OrSame(t / 2);
        assert (t - 1) / 2 == t / 2;
      }
    }
  }

  lemma PowerStep(col: nat, t: nat)
    requires IsPow2(t)
    ensures GoalcStep(col, '\t', t) == Advance(col, '\t', t)
  {
    var q, p := DivMod(col, t);
    OrLowBits(q, col % t, t, p);
  }

  lemma DivMod(a: nat, t: nat) returns (q: nat, p: nat)
    requires t > 0
    ensures p == q * t && a == p + a % t
  {
    q := a / t;
    p := q * t;
  }

  /** col |= t - 1 moves to the last column before the next tab stop, at
      every column, if and only if t is a power of two. */
  lemma TabTrickIff(t: nat)
    requires t >= 1
    ensures IsPow2(t) <==> forall col: nat :: GoalcStep(col, '\t', t) == Advance(col, '\t', t)
  {
    if IsPow2(t) {
      forall col: nat
        ensures GoalcStep(col, '\t', t) == Advance(col, '\t', t)
      {
        PowerStep(col, t);
      }
    } else {
      OrAtTabStop(t);
      ModUnique(t, t, 1, 0);
      assert GoalcStep(t, '\t', t) != Advance(t, '\t', t);
    }
  }

  lemma {:induction false} GoalcIsColumn(line: string, t: nat)
    requires IsPow2(t)
    ensures Goalc(line, t) == Column(line, t)
  {
    if line != "" {
      GoalcIsColumn(line[..|line| - 1], t);
      TabTrickIff(t);
    }
  }

  // ---------------------------------------------------------------------
  // Going to a goal column
  // ---------------------------------------------------------------------

  /** i is where goal lies on the line: the first offset at or past it, or
      the end of the line. */
  ghost predicate Lands(line: string, goal: nat, t: nat, i: nat)
    requires t >= 1
  {
    && i <= |line|
    && (i < |line| ==> Column(line[..i], t) >= goal)
    && forall k :: 0 <= k < i ==> Column(line[..k], t) < goal
  }

  lemma {:induction false} ColumnGrows(line: string, t: nat, i: nat, j: nat)
    requires t >= 1 && i < j <= |line|
    ensures Column(line[..i], t) < Column(line[..j], t)
    decreases j
  {
    assert line[..j][..j - 1] == line[..j - 1];
    if i < j - 1 {
      ColumnGrows(line, t, i, j - 1);
    }
  }

  /** The loops of goto_goalc. */
  method FindGoalc(line: string, goal: nat, t: nat) returns (i: nat)
    requires t >= 1
    ensures Lands(line, goal, t, i)
  {
    i := 0;
    var col := 0;
    while i < |line|
      invariant i <= |line|
      invariant col == Min(Column(line[..i], t), goal)
      invariant forall k :: 0 <= k < i ==> Column(line[..k], t) < goal
    {
      if col == goal {
        break;
      }
      assert line[..i + 1][..i] == line[..i];
      if line[i] == '\t' {
        ghost var start := col;
        var w := t - col % t;
        ghost var stop := col + w;
        while w > 0
          invariant 0 <= w && start <= col < goal && col + w == stop
        {
          col := col + 1;
          if col >= goal {
            break;
          }
          w := w - 1;
        }
      } else {
        col := col + 1;
      }
      i := i + 1;
    }
  }

  lemma LandsOnce(line: string, goal: nat, t: nat, i: nat, j: nat)
    requires t >= 1 && Lands(line, goal, t, i) && Lands(line, goal, t, j)
    ensures i == j
  {
  }

  /** Going back to the goal column of any position on a line ends at that
      position, for every line, if and only if the tab width is a power of
      two. */
  lemma GoalRoundTripIff(t: nat)
    requires t >= 1
    ensures IsPow2(t) <==>
            forall line: string, o: nat :: o <= |line| ==> Lands(line, Goalc(line[..o], t), t, o)
  {
    if IsPow2(t) {
      forall line: string, o: nat | o <= |line|
        ensures Lands(line, Goalc(line[..o], t), t, o)
      {
        GoalcIsColumn(line[..o], t);
        forall k | 0 <= k < o
          ensures Column(line[..k], t) < Column(line[..o], t)
        {
          ColumnGrows(line, t, k, o);
        }
      }
    } else {
      var line := ShortTab(t);
      assert !Lands(line, Goalc(line[..t + 2], t), t, t + 2);
    }
  }

  lemma {:induction false} PlainColumn(n: nat, t: nat)
    requires t >= 1
    ensures Column(seq(n, _ => 'x'), t) == n && Goalc(seq(n, _ => 'x'), t) == n
  {
    if n > 0 {
      PlainColumn(n - 1, t);
      assert seq(n, _ => 'x')[..n - 1] == seq(n - 1, _ => 'x');
    }
  }

  /** For any other width: t plain characters, a tab, and one more. */
  lemma ShortTab(t: nat) returns (line: string)
    requires t >= 1 && !IsPow2(t)
    ensures |line| == t + 2
    ensures !Lands(line, Goalc(line[..t + 2], t), t, t + 2)
  {
    var xs := seq(t, _ => 'x');
    line := xs + ['\t', 'x'];
    PlainColumn(t, t);
    assert line[..t + 1] == xs + ['\t'] && (xs + ['\t'])[..t] == xs;
    assert line[..t + 2] == line && line[..t + 1] == line[..|line| - 1];
    OrAtTabStop(t);
    ModUnique(t, t, 1, 0);
    assert Column(line[..t + 1], t) == 2 * t;
    assert Goalc(line, t) <= 2 * t;
  }
}
