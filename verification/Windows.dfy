/** The windows themselves: a linked list, changed in place, of which one is
    selected (src/window.c). Every command is tied to its value in Tiling. */
module Windows {
  import opened Basics
  import T = Tiling

  class Window {
    var next: Window?
    var fheight: nat
    var eheight: nat
    var topdelta: nat

    constructor (lines: nat)
      requires lines >= 2
      ensures next == null && fheight == lines && eheight == lines - 1 && topdelta == 0
    {
      next, fheight, eheight, topdelta := null, lines, lines - 1, 0;
    }

    /** recenter; line is the line of the window's point. */
    method Recenter(line: nat)
      modifies this`topdelta
      ensures topdelta == Min(line, eheight / 2)
    {
      topdelta := if line > eheight / 2 then eheight / 2 else line;
    }

    /** Take the lines of another window. */
    method Absorb(delWp: Window)
      requires Fits() && delWp.Fits() && delWp != this
      modifies this`fheight, this`eheight
      ensures Fits() && fheight == old(fheight) + delWp.fheight
    {
      fheight := fheight + delWp.fheight;
      eheight := eheight + delWp.eheight + 1;
    }

    method Gain()
      requires Fits()
      modifies this`fheight, this`eheight
      ensures Fits() && fheight == old(fheight) + 1
    {
      fheight := fheight + 1;
      eheight := eheight + 1;
    }

    method Lose(line: nat)
      requires Fits() && fheight >= 3
      modifies this`fheight, this`eheight, this`topdelta
      ensures Fits() && fheight == old(fheight) - 1
      ensures old(topdelta < eheight) ==> topdelta < eheight
    {
      fheight := fheight - 1;
      eheight := eheight - 1;
      if topdelta >= eheight {
        Recenter(line);
      }
    }

    /** Keep the smaller half of the lines. */
    method Halve(line: nat)
      requires fheight >= 4
      modifies this`fheight, this`eheight, this`topdelta
      ensures Fits() && fheight == old(fheight) / 2
      ensures old(topdelta < eheight) ==> topdelta < eheight
    {
      fheight := fheight / 2;
      eheight := fheight - 1;
      if topdelta >= eheight {
        Recenter(line);
      }
    }

    /** A text line and a status line at least, and all but the last line for
        the text. */
    ghost predicate Fits()
      reads this`fheight, this`eheight
    {
      fheight >= 2 && eheight == fheight - 1
    }
  }

  function Nth(ws: seq<Window>, i: nat): Window? {
    if i < |ws| then ws[i] else null
  }

  /** The list with w after its i-th window, and without its i-th window. */
  function With(ws: seq<Window>, i: nat, w: Window): seq<Window>
    requires i < |ws|
  {
    seq(|ws| + 1, k requires 0 <= k < |ws| + 1 => if k <= i then ws[k] else if k == i + 1 then w else ws[k - 1])
  }

  lemma NthWith(ws: seq<Window>, i: nat, w: Window, k: nat)
    requires i < |ws|
    ensures Nth(With(ws, i, w), k) == if k == i + 1 then w else Nth(ws, if k <= i then k else k - 1)
  {
  }

  lemma NthWithout(ws: seq<Window>, d: nat, k: nat)
    requires d < |ws| && |ws| > 1
    ensures Nth(Without(ws, d), k) == Nth(ws, if k < d then k else k + 1)
    ensures Nth(ws, 0) == ws[0] && Nth(ws, 1) == ws[1]
  {
  }

  /** The window that takes over the lines of the i-th. */
  function Heir(ws: seq<Window>, i: nat): Window
    requires i < |ws| && |ws| > 1
  {
    if i == 0 then ws[1] else ws[i - 1]
  }

  /** The windows have these heights. */
  ghost predicate Sized(ws: seq<Window>, hs: seq<nat>)
    reads ws
  {
    |ws| == |hs| && forall i :: 0 <= i < |ws| ==> ws[i].Fits() && ws[i].fheight == hs[i]
  }

  lemma SizedWith(ws: seq<Window>, t: T.Tiling, w: Window)
    requires |ws| == |t.hs| && t.cur < |ws| && t.hs[t.cur] >= 4
    requires forall j :: 0 <= j < |ws| ==>
               ws[j].Fits() && ws[j].fheight == if j == t.cur then t.hs[t.cur] / 2 else t.hs[j]
    requires w.Fits() && w.fheight == t.hs[t.cur] / 2 + t.hs[t.cur] % 2
    ensures Sized(With(ws, t.cur, w), T.Split(t).hs)
  {
  }

  /** What the i-th window has once the d-th is gone: its own lines, and for
      the heir those of the lost one too. */
  function Inherited(hs: seq<nat>, d: nat, i: nat): nat
    requires d < |hs| && |hs| > 1 && i < |hs| - 1
  {
    if i == (if d == 0 then 0 else d - 1) then hs[i] + hs[i + 1] else if i < d then hs[i] else hs[i + 1]
  }

  lemma SizedWithout(ws: seq<Window>, t: T.Tiling, d: nat)
    requires |ws| == |t.hs| > 1 && d < |ws|
    requires forall i :: 0 <= i < |ws| - 1 ==>
               Without(ws, d)[i].Fits() && Without(ws, d)[i].fheight == Inherited(t.hs, d, i)
    ensures Sized(Without(ws, d), T.Delete(t, d).hs)
  {
    var ws', hs' := Without(ws, d), T.Delete(t, d).hs;
    forall i | 0 <= i < |ws'|
      ensures ws'[i].Fits() && ws'[i].fheight == hs'[i]
    {
      assert Without(ws, d)[i].fheight == Inherited(t.hs, d, i);
      T.DeleteAt(t, d, i);
    }
  }

  class Screen {
    var headWp: Window?
    var curWp: Window
    ghost var wins: seq<Window>
    ghost var tiles: T.Tiling

    /** The list from headWp on is wins; it has no cycle and no repetition. */
    ghost predicate Linked()
      reads this`headWp, this`wins, wins`next
    {
      && headWp == Nth(wins, 0)
      && (forall i :: 0 <= i < |wins| ==> wins[i].next == Nth(wins, i + 1))
      && Distinct(wins)
    }

    ghost predicate Valid()
      reads this, wins
    {
      Linked() && tiles.cur < |wins| && curWp == wins[tiles.cur] && Sized(wins, tiles.hs)
    }

    /** A screen with one window. */
    constructor (lines: nat)
      requires lines >= 2
      ensures Valid() && tiles == T.Tiling([lines], 0)
    {
      var w := new Window(lines);
      headWp, curWp, wins, tiles := w, w, [w], T.Tiling([lines], 0);
    }

    method LinkAfter(w: Window, newwp: Window, ghost i: nat)
      requires Linked() && i < |wins| && w == wins[i] && newwp !in wins && newwp.next == w.next
      modifies w`next, this`wins
      ensures Linked() && wins == With(old(wins), i, newwp) && w.next == newwp
      ensures i < |wins| && wins[i] == w
    {
      hide Nth;
      ghost var was := wins;
      w.next := newwp;
      wins := With(wins, i, newwp);
      NthWith(was, i, newwp, 0);
      forall k | 0 <= k < |wins|
        ensures wins[k].next == Nth(wins, k + 1)
      {
        assert wins[k] == if k <= i then was[k] else if k == i + 1 then newwp else was[k - 1];
        NthWith(was, i, newwp, k + 1);
      }
    }

    /** Give a new window below the selected one the larger half. */
    method AddBelow(line: nat) returns (newwp: Window)
      requires Valid() && curWp.fheight >= 4
      modifies this`wins, curWp
      ensures Linked() && fresh(newwp) && curWp.next == newwp && Sized(wins, T.Split(tiles).hs)
      ensures wins == With(old(wins), tiles.cur, newwp) && newwp.topdelta == old(curWp.topdelta)
      ensures old(curWp.topdelta < curWp.eheight) ==> curWp.topdelta < curWp.eheight
      ensures tiles.cur < |wins| && wins[tiles.cur] == curWp
    {
      hide Nth, T.Split;
      var h := curWp.fheight;
      newwp := new Window(h / 2 + h % 2);
      newwp.next, newwp.topdelta := curWp.next, curWp.topdelta;
      curWp.Halve(line);
      SizedWith(wins, tiles, newwp);
      LinkAfter(curWp, newwp, tiles.cur);
    }

    /** split-window. The new window is not recentred. */
    method SplitWindow(line: nat) returns (ok: bool)
      requires Valid()
      modifies this`wins, this`tiles, curWp
      ensures Valid() && ok == (old(curWp.fheight) >= 4) && tiles == T.Split(old(tiles))
      ensures if ok then wins == With(old(wins), tiles.cur, curWp.next) && fresh(curWp.next) else wins == old(wins)
      ensures old(curWp.topdelta < curWp.eheight) ==> curWp.topdelta < curWp.eheight
      ensures ok ==> curWp.next.topdelta == old(curWp.topdelta)
    {
      if curWp.fheight < 4 {
        return false;
      }
      hide Nth;
      var newwp := AddBelow(line);
      tiles := T.Split(tiles);
      return true;
    }

    /** The window whose next one is the d-th. */
    method Before(w: Window, ghost d: nat) returns (wp: Window)
      requires Linked() && 0 < d < |wins| && w == wins[d]
      ensures wp == wins[d - 1]
    {
      wp := headWp;
      ghost var i := 0;
      while wp.next != w
        invariant i < d && wp == wins[i]
        decreases d - i
      {
        assert wp.next == wins[i + 1];
        wp, i := wp.next, i + 1;
      }
      assert wp.next == wins[i + 1];
    }

    /** Take the d-th window out of the list, and find its heir. */
    method Unlink(delWp: Window, ghost d: nat) returns (wp: Window)
      requires Linked() && d < |wins| && |wins| > 1 && delWp == wins[d]
      modifies this`headWp, this`wins, Heir(wins, d)`next
      ensures Linked() && wins == Without(old(wins), d)
      ensures wp == Heir(old(wins), d) && wp == wins[if d == 0 then 0 else d - 1]
    {
      hide Sized, Without;
      if delWp == headWp {
        assert d == 0 && headWp.next == wins[1];
        headWp := headWp.next;
        wp := headWp;
      } else {
        wp := Before(delWp, d);
        assert wp.next == wins[d] && wins[d].next == Nth(wins, d + 1);
        wp.next := wp.next.next;
      }
      Forget(d);
    }

    /** The links already skip the d-th window; let the list say so. */
    ghost method Forget(d: nat)
      requires d < |wins| && |wins| > 1 && Distinct(wins)
      requires headWp == if d == 0 then wins[1] else wins[0]
      requires forall k :: 0 <= k < |wins| && k != d ==>
                 wins[k].next == if k + 1 == d then Nth(wins, d + 1) else Nth(wins, k + 1)
      modifies this`wins
      ensures Linked() && wins == Without(old(wins), d)
      ensures wins[if d == 0 then 0 else d - 1] == Heir(old(wins), d)
    {
      hide Nth;
      ghost var was := wins;
      NthWithout(wins, d, 0);
      DistinctWithout(wins, d);
      wins := Without(wins, d);
      forall k | 0 <= k < |wins|
        ensures wins[k].next == Nth(wins, k + 1)
      {
        assert wins[k] == if k < d then was[k] else was[k + 1];
        NthWithout(was, d, k + 1);
      }
    }

    /** Take the d-th window out of the list and give its lines to its heir. */
    method Bequeath(delWp: Window, ghost d: nat) returns (wp: Window)
      requires Valid() && d < |wins| && |wins| > 1 && delWp == wins[d]
      modifies this`headWp, this`wins, Heir(wins, d)
      ensures Linked() && wins == Without(old(wins), d) && Sized(wins, T.Delete(tiles, d).hs)
      ensures wp == Heir(old(wins), d) && wp == wins[if d == 0 then 0 else d - 1]
    {
      hide Nth, T.Delete;
      wp := Unlink(delWp, d);
      wp.Absorb(delWp);
      SizedWithout(old(wins), tiles, d);
    }

    /** delete_window, when it is not the only one. */
    method DeleteWindow(delWp: Window, ghost d: nat)
      requires Valid() && d < |wins| && |wins| > 1 && delWp == wins[d]
      modifies this, Heir(wins, d)
      ensures Valid() && wins == Without(old(wins), d) && tiles == T.Delete(old(tiles), d)
    {
      hide Nth;
      curWp := Bequeath(delWp, d);
      tiles := T.Delete(tiles, d);
    }

    /** delete-window. */
    method DeleteSelected() returns (ok: bool)
      requires Valid()
      modifies this, wins
      ensures Valid() && tiles == T.DeleteSelected(old(tiles)) && ok == (|old(wins)| > 1)
      ensures wins == if ok then Without(old(wins), old(tiles.cur)) else old(wins)
    {
      if curWp == headWp && curWp.next == null {
        return false;
      }
      hide Without, T.Delete;
      DeleteWindow(curWp, tiles.cur);
      return true;
    }

    /** Move a line from one window to another. */
    method MoveLine(from: Window, to: Window, ghost i: nat, ghost j: nat, line: nat)
      requires Valid() && i < |wins| && j < |wins| && i != j && from == wins[i] && to == wins[j] && from.fheight >= 3
      modifies this`tiles, from`fheight, from`eheight, from`topdelta, to`fheight, to`eheight
      ensures Valid() && tiles == old(tiles).(hs := T.MoveLine(old(tiles).hs, i, j))
      ensures old(from.topdelta < from.eheight) ==> from.topdelta < from.eheight
    {
      hide Nth;
      from.Lose(line);
      to.Gain();
      tiles := tiles.(hs := T.MoveLine(tiles.hs, i, j));
    }

    /** enlarge-window. */
    method EnlargeWindow(line: nat) returns (ok: bool)
      requires Valid()
      modifies this`tiles, wins
      ensures Valid() && wins == old(wins) && tiles == T.Enlarge(old(tiles)) && ok == T.Donor(old(tiles)).Some?
    {
      ghost var c := tiles.cur;
      if curWp == headWp && (curWp.next == null || curWp.next.fheight < 3) {
        return false;
      }
      var wp := curWp.next;
      if wp == null || wp.fheight < 3 {
        wp := Before(curWp, c);
        if wp.fheight < 3 {
          return false;
        }
        MoveLine(wp, curWp, c - 1, c, line);
      } else {
        MoveLine(wp, curWp, c + 1, c, line);
      }
      return true;
    }

    /** shrink-window. */
    method ShrinkWindow(line: nat) returns (ok: bool)
      requires Valid()
      modifies this`tiles, wins
      ensures Valid() && wins == old(wins) && tiles == T.Shrink(old(tiles))
      ensures ok == (|wins| > 1 && old(curWp.fheight) >= 3)
    {
      ghost var c := tiles.cur;
      if (curWp == headWp && curWp.next == null) || curWp.fheight < 3 {
        return false;
      }
      var wp := curWp.next;
      if wp == null {
        wp := Before(curWp, c);
        MoveLine(curWp, wp, c, c - 1, line);
      } else {
        MoveLine(curWp, wp, c, c + 1, line);
      }
      return true;
    }

    /** other-window. */
    method OtherWindow()
      requires Valid()
      modifies this`curWp, this`tiles
      ensures Valid() && tiles == T.Other(old(tiles))
    {
      curWp := if curWp.next != null then curWp.next else headWp;
      tiles := T.Other(tiles);
    }

    /** delete-other-windows. One window is left, with every line; but it is
        the selected one only if that was one of the first two. */
    method DeleteOtherWindows()
      requires Valid()
      modifies this, wins[if tiles.cur == 0 then 0 else 1]
      ensures Valid() && tiles == T.DeleteOthers(old(tiles))
      ensures wins == [old(wins)[if old(tiles.cur) == 0 then 0 else 1]]
      ensures curWp == old(curWp) <==> old(tiles.cur) <= 1
    {
      hide Nth;
      ghost var all, c := wins, tiles.cur;
      var wp := headWp;
      ghost var k := 0;
      while wp != null
        invariant k <= |all| && wp == Nth(all, k) && Valid()
        invariant wins == Left(all, c, k) && tiles.cur == if k == 0 then c else 0
        invariant T.Sum(tiles.hs) == T.Sum(old(tiles.hs))
        decreases |all| - k
      {
        NthIff(all, k);
        wp := Visit(wp, all, c, k);
        k := k + 1;
      }
      NthIff(all, k);
      OneLeft(tiles.hs);
    }

    /** One round of the loop above, on the k-th of all the windows. */
    method Visit(wp: Window, ghost all: seq<Window>, ghost c: nat, ghost k: nat) returns (nextwp: Window?)
      requires Valid() && c < |all| && k < |all| && wp == all[k]
      requires wins == Left(all, c, k) && tiles.cur == if k == 0 then c else 0
      modifies this, all[if c == 0 then 0 else 1]
      ensures nextwp == Nth(all, k + 1) && Valid()
      ensures wins == Left(all, c, k + 1) && tiles.cur == 0 && T.Sum(tiles.hs) == T.Sum(old(tiles.hs))
    {
      hide Left;
      ghost var p := if k == 0 || (k == 1 && c > 0) then 0 else 1;
      LeftStep(all, c, k, p);
      nextwp := wp.next;
      if wp != curWp {
        hide Nth;
        SizedIsProper(wins, tiles);
        T.DeleteKeeps(tiles, p);
        DeleteWindow(wp, p);
      }
    }
  }

  lemma NthIff(ws: seq<Window>, i: nat)
    ensures Nth(ws, i) == null <==> i >= |ws|
    ensures i < |ws| ==> Nth(ws, i) == ws[i]
  {
  }

  lemma OneLeft(hs: seq<nat>)
    requires |hs| == 1
    ensures hs == [T.Sum(hs)]
  {
    assert hs == [hs[0]];
    T.SumTwo(hs[0], 0);
  }

  lemma SizedIsProper(ws: seq<Window>, t: T.Tiling)
    requires Sized(ws, t.hs) && t.cur < |ws|
    ensures T.Proper(t)
  {
    forall i | 0 <= i < |t.hs|
      ensures t.hs[i] >= 2
    {
      assert ws[i].Fits();
    }
  }

  /** What is left of the windows once the first k have been visited, when the
      c-th was selected. */
  ghost function Left(all: seq<Window>, c: nat, k: nat): seq<Window>
    requires c < |all|
  {
    if k == 0 then all
    else if c == 0 then [all[0]] + all[Min(k, |all|)..]
    else [all[1]] + all[Min(Max(k, 2), |all|)..]
  }

  lemma LeftStep(all: seq<Window>, c: nat, k: nat, p: nat)
    requires c < |all| && k < |all| && p == if k == 0 || (k == 1 && c > 0) then 0 else 1
    ensures var ws := Left(all, c, k);
            && p < |ws| && ws[p] == all[k] && Nth(ws, p + 1) == Nth(all, k + 1)
            && Left(all, c, k + 1) == (if p == (if k == 0 then c else 0) then ws else Without(ws, p))
            && (p != (if k == 0 then c else 0) ==>
                |ws| > 1 && Heir(ws, p) == all[if c == 0 then 0 else 1])
    ensures |all| == k + 1 ==> |Left(all, c, k + 1)| == 1
    ensures Left(all, c, k + 1)[0] == all[if c == 0 then 0 else 1]
  {
    if k == 0 {
    } else if c == 0 {
      LaterStep(all, 0, k);
    } else if k > 1 {
      LaterStep(all, 1, k);
    }
  }

  /** A window after the survivor goes. */
  lemma LaterStep(all: seq<Window>, s: nat, k: nat)
    requires s < k < |all|
    ensures Without([all[s]] + all[k..], 1) == [all[s]] + all[k + 1..]
  {
  }
}
