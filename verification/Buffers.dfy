/** The buffer: a byte array with a gap after point, its undo list, and the
    chain of markers that point into it (src/buffer.c, src/undo.c,
    src/marker.c). Every method is tied to the plain-text state of UndoLog. */
module Buffers {
  import opened Basics
  import opened Eol
  import opened Astrs
  import opened LineIndex
  import opened Gap
  import Columns
  import U = UndoLog

  class Marker {
    var o: nat
    var next: Marker?
    var bp: Buffer?

    constructor ()
      ensures o == 0 && next == null && bp == null
    {
      o, next, bp := 0, null, null;
    }
  }

  function Nth(ms: seq<Marker>, i: nat): Marker? {
    if i < |ms| then ms[i] else null
  }

  class Buffer {
    const astr: Astr
    const eol: Eol
    const tabWidth: nat
    var pt: nat
    var gap: nat
    var goalc: nat
    var modified: bool
    var readonly: bool
    var noundo: bool
    var undos: seq<U.Undo>
    var next: nat
    var markers: Marker?
    var mark: Marker?
    ghost var chain: seq<Marker>

    ghost var text: string
    ghost var hole: string

    // -------------------------------------------------------------------
    // The text and the gap
    // -------------------------------------------------------------------

    /** The bytes are the text with the gap after point. */
    ghost predicate ValidText()
      reads this`pt, this`gap, this`text, this`hole, astr, astr.text
    {
      && astr.Valid() && pt <= |text| && |hole| == gap <= MAX_GAP && tabWidth >= 1
      && astr.contents == Bytes(text, pt, hole)
    }

    /** The del bytes after point. */
    ghost function Deleted(del: nat): string
      requires pt + del <= |text|
      reads this`pt, this`text
    {
      text[pt..pt + del]
    }

    /** The buffer as the undo machine sees it. */
    ghost function Abs(): U.State
      reads this
    {
      U.State(text, eol, pt, modified, readonly, noundo, undos, next)
    }

    /** Take over the bytes of a file that may or may not be written. */
    constructor (bytes: string, e: Eol, tabs: nat, ro: bool)
      requires tabs >= 1
      ensures ValidText() && ValidChain() && chain == [] && mark == null
      ensures Abs() == U.State(bytes, e, 0, false, ro, false, [], 0) && hole == ""
      ensures fresh(astr) && fresh(astr.text)
    {
      var as' := new Astr();
      as'.CatNstr(bytes);
      astr, eol, tabWidth := as', e, tabs;
      pt, gap, goalc := 0, 0, 0;
      modified, readonly, noundo := false, ro, false;
      undos, next := [], 0;
      markers, mark, chain, text, hole := null, null, [], bytes, "";
      new;
      assert "" + bytes == bytes;
    }

    /** set_buffer_pt: carry the gap to o. */
    method SetBufferPt(o: nat)
      requires ValidText() && o <= |text|
      modifies this`pt, this`hole, astr`contents, astr.text
      ensures ValidText() && pt == o
      ensures hole == HoleAfterMove(old(hole), old(pt), o)
    {
      if o < pt {
        MoveLeft(text, hole, pt, o);
        CarryLeft(o);
      } else if o > pt {
        MoveRight(text, hole, pt, o);
        CarryRight(o);
      } else {
        assert HoleAfterMove(hole, pt, o) == hole;
      }
      hole := HoleAfterMove(hole, pt, o);
      pt := o;
    }

    method CarryLeft(o: nat)
      requires astr.Valid() && o < pt && pt + gap <= astr.len
      modifies astr`contents, astr.text
      ensures astr.Valid() && astr.contents == MovedLeft(old(astr.contents), gap, pt, o)
    {
      astr.Move(o + gap, o, pt - o);
      astr.Set(o, '\0', Min(pt - o, gap));
    }

    method CarryRight(o: nat)
      requires astr.Valid() && o > pt && o + gap <= astr.len
      modifies astr`contents, astr.text
      ensures astr.Valid() && astr.contents == MovedRight(old(astr.contents), gap, pt, o)
    {
      astr.Move(pt, pt + gap, o - pt);
      astr.Set(o + gap - Min(o - pt, gap), '\0', Min(o - pt, gap));
    }

    /** get_buffer_region: the bytes from start to end, skipping the gap. */
    method GetBufferRegion(start: nat, end: nat) returns (es: Estr)
      requires ValidText() && start <= end <= |text|
      ensures es == Estr(text[start..end], eol)
    {
      RegionOfBytes(text, hole, pt, start, end);
      assert astr.text[..astr.len] == astr.contents;
      var pre, post := "", "";
      if start < pt {
        pre := astr.text[..astr.len][start..Min(end, pt)];
      }
      if end > pt {
        post := astr.text[..astr.len][Max(start, pt) + gap..end + gap];
      }
      es := Estr(pre + post, eol);
    }

    // -------------------------------------------------------------------
    // Lines
    // -------------------------------------------------------------------

    method BufferStartOfLine(o: nat) returns (r: nat)
      requires ValidText() && o <= |text|
      ensures r == StartInBytes(astr.contents, eol, pt, gap, o)
      ensures Transparent(text, eol, pt, hole) ==> r == StartOfLine(text, eol, o)
    {
      assert astr.text[..astr.len] == astr.contents;
      r := FindStartOfLine(astr.text[..astr.len], eol, OToRealo(pt, gap, o));
      r := RealoToO(pt, gap, r);
      if Transparent(text, eol, pt, hole) { TransparentAgrees(text, eol, pt, hole, o); }
    }

    method BufferEndOfLine(o: nat) returns (r: nat)
      requires ValidText() && o <= |text|
      ensures r == EndInBytes(astr.contents, eol, pt, gap, o)
      ensures Transparent(text, eol, pt, hole) ==> r == EndOfLine(text, eol, o)
    {
      assert astr.text[..astr.len] == astr.contents;
      r := RealoToO(pt, gap, EndOfLine(astr.text[..astr.len], eol, OToRealo(pt, gap, o)));
      if Transparent(text, eol, pt, hole) { TransparentAgrees(text, eol, pt, hole, o); }
    }

    method BufferPrevLine(o: nat) returns (r: Option<nat>)
      requires ValidText() && o <= |text|
      ensures r == PrevInBytes(astr.contents, eol, pt, gap, o)
      ensures Transparent(text, eol, pt, hole) ==> r == PrevLine(text, eol, o)
    {
      assert astr.text[..astr.len] == astr.contents;
      r := PrevLine(astr.text[..astr.len], eol, OToRealo(pt, gap, o));
      if r.Some? {
        r := Some(RealoToO(pt, gap, r.value));
      }
      if Transparent(text, eol, pt, hole) { TransparentAgrees(text, eol, pt, hole, o); }
    }

    method BufferNextLine(o: nat) returns (r: Option<nat>)
      requires ValidText() && o <= |text|
      ensures r == NextInBytes(astr.contents, eol, pt, gap, o)
      ensures Transparent(text, eol, pt, hole) ==> r == NextLine(text, eol, o)
    {
      assert astr.text[..astr.len] == astr.contents;
      r := NextLine(astr.text[..astr.len], eol, OToRealo(pt, gap, o));
      if r.Some? {
        r := Some(RealoToO(pt, gap, r.value));
      }
      if Transparent(text, eol, pt, hole) { TransparentAgrees(text, eol, pt, hole, o); }
    }

    /** Where the line of point starts, as the buffer sees it. */
    ghost function LineO(): nat
      requires ValidText()
      reads this, astr, astr.text
    {
      StartInBytes(astr.contents, eol, pt, gap, pt)
    }

    method GetBufferChar(o: nat) returns (c: char)
      requires ValidText() && o < |text|
      ensures c == text[o]
    {
      c := astr.text[OToRealo(pt, gap, o)];
    }

    /** get_goalc: the goal column of point. */
    method GetGoalc() returns (col: nat)
      requires ValidText()
      ensures LineO() <= pt && col == Columns.Goalc(text[LineO()..pt], tabWidth)
    {
      hide Bytes;
      var start := BufferStartOfLine(pt);
      col := 0;
      for i := 0 to pt - start
        invariant col == Columns.Goalc(text[start..start + i], tabWidth)
      {
        var c := GetBufferChar(start + i);
        assert text[start..start + (i + 1)][..i] == text[start..start + i];
        col := Columns.GoalcStep(col, c, tabWidth);
      }
    }

    /** goto_offset: move point; on a new line, take a new goal column. */
    method GotoOffset(o: nat)
      requires ValidText() && o <= |text|
      modifies this`pt, this`hole, this`goalc, astr`contents, astr.text
      ensures ValidText() && Abs() == U.GotoOffset(old(Abs()), o).s
      ensures hole == HoleAfterMove(old(hole), old(pt), o)
      ensures goalc == if LineO() == old(LineO()) then old(goalc)
                       else Columns.Goalc(text[LineO()..pt], tabWidth)
    {
      var oldLineO := BufferStartOfLine(pt);
      SetBufferPt(o);
      var lineO := BufferStartOfLine(pt);
      if lineO != oldLineO {
        goalc := GetGoalc();
      }
    }

    // -------------------------------------------------------------------
    // Saving undo records
    // -------------------------------------------------------------------

    method PushUndo(u: U.Undo)
      modifies this`undos
      ensures Abs() == U.Push(old(Abs()), u)
    {
      if !noundo {
        undos := undos + [u];
      }
    }

    method UndoStartSequence()
      modifies this`undos
      ensures Abs() == U.StartSequence(old(Abs()))
    {
      PushUndo(U.Start(pt));
    }

    method UndoEndSequence()
      modifies this`undos
      ensures Abs() == U.EndSequence(old(Abs()))
    {
      PushUndo(U.End);
    }

    method UndoSaveBlock(o: nat, osize: nat, size: nat)
      requires ValidText() && o + osize <= |text|
      modifies this`undos
      ensures Abs() == U.SaveBlock(old(Abs()), o, osize, size)
    {
      var was := GetBufferRegion(o, o + osize);
      PushUndo(U.Replace(o, size, was, !modified));
    }

    // -------------------------------------------------------------------
    // Replacing text
    // -------------------------------------------------------------------

    /** The three branches that resize the gap. */
    method ResizeGap(del: nat, newlen: nat)
      requires astr.Valid() && pt + gap + del <= astr.len
      modifies this`gap, astr, astr.text
      ensures astr.Valid() && (astr.text == old(astr.text) || fresh(astr.text))
      ensures gap == GapAfterReplace(old(gap), del, newlen)
      ensures astr.contents == if old(gap) + del < newlen
                               then Inserted(old(astr.contents), pt, newlen + MIN_GAP - (old(gap) + del))
                               else Cut(old(astr.contents), pt, old(gap), del, newlen)
    {
      if gap + del < newlen {
        astr.Insert(pt, newlen + MIN_GAP - (gap + del));
        gap := MIN_GAP;
      } else if gap + del > MAX_GAP + newlen {
        astr.Remove(pt + newlen + MAX_GAP, (gap + del) - (MAX_GAP + newlen));
        gap := MAX_GAP;
      } else {
        gap := gap + del - newlen;
      }
    }

    /** Clear what was not gap before, and was not inserted as NULs. */
    method ClearGap(oldgap: nat, addedGap: nat, newlen: nat)
      requires astr.Valid() && pt + newlen + gap <= astr.len
      modifies astr`contents, astr.text
      ensures astr.Valid()
      ensures astr.contents == if Max(oldgap, newlen) + addedGap < gap + newlen
                               then Overlay(old(astr.contents), pt + Max(oldgap, newlen) + addedGap,
                                            Fill(newlen + gap - Max(oldgap, newlen) - addedGap, '\0'))
                               else old(astr.contents)
    {
      if Max(oldgap, newlen) + addedGap < gap + newlen {
        astr.Set(pt + Max(oldgap, newlen) + addedGap, '\0', newlen + gap - Max(oldgap, newlen) - addedGap);
      }
    }

    /** Make the gap fit, ready for newlen bytes at point. */
    method MakeRoom(del: nat, newlen: nat)
      requires astr.Valid() && pt + gap + del <= astr.len
      modifies this`gap, astr, astr.text
      ensures astr.Valid() && (astr.text == old(astr.text) || fresh(astr.text))
      ensures gap == GapAfterReplace(old(gap), del, newlen)
      ensures astr.contents == Resized(old(astr.contents), pt, old(gap), del, newlen)
    {
      var oldgap := gap;
      if oldgap + del >= newlen { CutAt(astr.contents, pt, gap, del, newlen); }
      ResizeGap(del, newlen);
      ClearGap(oldgap, if oldgap + del < newlen then MIN_GAP else 0, newlen);
    }

    /** The byte work of replace_estr, before point moves. */
    method Overwrite(del: nat, es: Estr, newlen: nat)
      requires ValidText() && pt + del <= |text| && newlen == |Translate(es.text, es.eol, eol)|
      modifies this`gap, astr, astr.text
      ensures astr.Valid() && (astr.text == old(astr.text) || fresh(astr.text))
      ensures gap == GapAfterReplace(old(gap), del, newlen)
      ensures IsReplacement(astr.contents, text, hole, pt, del, Translate(es.text, es.eol, eol), newlen)
    {
      ReplaceBytes(text, hole, pt, del, Translate(es.text, es.eol, eol));
      MakeRoom(del, newlen);
      astr.ReplaceEstr(eol, pt, es);
    }

    method ReplaceInBytes(del: nat, es: Estr, newlen: nat)
      requires ValidText() && pt + del <= |text| && newlen == |Translate(es.text, es.eol, eol)|
      modifies this`gap, this`hole, this`text, this`pt, astr, astr.text
      ensures ValidText() && (astr.text == old(astr.text) || fresh(astr.text))
      ensures text == Splice(old(text), old(pt), del, Translate(es.text, es.eol, eol))
      ensures pt == old(pt) + newlen
      ensures hole == HoleAfterReplace(old(hole), old(Deleted(del)), newlen)
    {
      Overwrite(del, es, newlen);
      StepOver(del, Translate(es.text, es.eol, eol), newlen);
    }

    /** Move point past the bytes just written. */
    method StepOver(del: nat, ghost put: string, newlen: nat)
      requires astr.Valid() && pt + del <= |text| && tabWidth >= 1 && |hole| <= MAX_GAP
      requires gap == GapAfterReplace(|hole|, del, newlen)
      requires IsReplacement(astr.contents, text, hole, pt, del, put, newlen)
      modifies this`hole, this`text, this`pt
      ensures ValidText() && text == Splice(old(text), old(pt), del, put) && pt == old(pt) + newlen
      ensures hole == HoleAfterReplace(old(hole), old(Deleted(del)), newlen)
    {
      hide Bytes;
      hole, text, pt := HoleAfterReplace(hole, Deleted(del), newlen), Splice(text, pt, del, put), pt + newlen;
    }

    // -------------------------------------------------------------------
    // Markers
    // -------------------------------------------------------------------

    /** The markers chained to this buffer, in order and without repetition. */
    ghost predicate ValidChain()
      reads this`markers, this`chain, chain`next, chain`bp
    {
      && markers == Nth(chain, 0)
      && (forall i :: 0 <= i < |chain| ==> chain[i].bp == this && chain[i].next == Nth(chain, i + 1))
      && Distinct(chain)
    }

    ghost predicate Valid()
      reads this, astr, astr.text, chain
    {
      ValidText() && ValidChain()
    }

    /** The marker loop of replace_estr. */
    method AdjustMarkers(start: nat, newlen: nat, del: nat)
      requires ValidChain()
      modifies chain`o
      ensures ValidChain()
      ensures forall m :: m in chain ==> m.o == AdjustOffset(old(m.o), start, newlen, del)
    {
      var m := markers;
      ghost var i := 0;
      while m != null
        invariant i <= |chain| && m == Nth(chain, i)
        invariant forall k :: 0 <= k < i ==> chain[k].o == AdjustOffset(old(chain[k].o), start, newlen, del)
        invariant forall k :: i <= k < |chain| ==> chain[k].o == old(chain[k].o)
        decreases |chain| - i
      {
        assert m == chain[i] && m.next == Nth(chain, i + 1);
        if m.o > start {
          m.o := Max(start, (m.o + newlen - del) % SIZE_MODULUS);
        }
        m, i := m.next, i + 1;
      }
    }

    /** replace_estr, once the buffer is known to be writable. */
    method ReplaceWritable(del: nat, es: Estr)
      requires Valid() && !readonly && pt + del <= |text|
      modifies this`undos, this`gap, this`hole, this`text, this`pt, this`modified, astr, astr.text, chain`o
      ensures Valid() && (astr.text == old(astr.text) || fresh(astr.text))
      ensures Abs() == U.ReplaceEstr(old(Abs()), del, es).s
      ensures hole == HoleAfterReplace(old(hole), old(Deleted(del)), |Translate(es.text, es.eol, eol)|)
      ensures forall m :: m in chain ==>
                m.o == AdjustOffset(old(m.o), old(pt), |Translate(es.text, es.eol, eol)|, del)
    {
      hide Bytes, Nth, Distinct, Translate, HoleAfterReplace, AdjustOffset, Splice;
      var newlen := SaveAndReplace(del, es);
      AdjustMarkers(pt - newlen, newlen, del);
      modified := true;
    }

    /** The undo record, then the bytes. */
    method SaveAndReplace(del: nat, es: Estr) returns (newlen: nat)
      requires ValidText() && !readonly && pt + del <= |text|
      modifies this`undos, this`gap, this`hole, this`text, this`pt, astr, astr.text
      ensures ValidText() && (astr.text == old(astr.text) || fresh(astr.text))
      ensures newlen == |Translate(es.text, es.eol, eol)| && pt == old(pt) + newlen
      ensures Abs().(modified := true) == U.ReplaceEstr(old(Abs()), del, es).s
      ensures hole == HoleAfterReplace(old(hole), old(Deleted(del)), newlen)
    {
      newlen := EstrLen(es, eol);
      UndoSaveBlock(pt, del, newlen);
      ReplaceInBytes(del, es, newlen);
    }

    /** replace_estr. */
    method ReplaceEstr(del: nat, es: Estr) returns (ok: bool)
      requires Valid() && (!readonly ==> pt + del <= |text|)
      modifies this`undos, this`gap, this`hole, this`text, this`pt, this`modified, astr, astr.text, chain`o
      ensures Valid() && (astr.text == old(astr.text) || fresh(astr.text))
      ensures ok == !readonly && Abs() == U.ReplaceEstr(old(Abs()), del, es).s
      ensures hole == if ok then HoleAfterReplace(old(hole), old(Deleted(del)), |Translate(es.text, es.eol, eol)|)
                      else old(hole)
      ensures forall m :: m in chain ==>
                m.o == if ok then AdjustOffset(old(m.o), old(pt), |Translate(es.text, es.eol, eol)|, del) else old(m.o)
    {
      ok := !readonly;
      if ok {
        ReplaceWritable(del, es);
      }
    }

    // -------------------------------------------------------------------
    // Undo
    // -------------------------------------------------------------------

    /** What revert_action does with one record: move, replace, and restore
        the modified flag. */
    method RevertRecord(u: U.Undo)
      requires Valid() && !u.End? && U.RevertRecord(Abs(), u).Done?
      modifies this`undos, this`gap, this`hole, this`text, this`pt, this`modified, this`goalc
      modifies astr, astr.text, chain`o
      ensures Valid() && (astr.text == old(astr.text) || fresh(astr.text))
      ensures Abs() == U.RevertRecord(old(Abs()), u).s
    {
      hide Bytes, Nth, Distinct, Translate, HoleAfterReplace, ValidText;
      GotoOffset(u.o);
      if u.Replace? {
        var ok := ReplaceEstr(u.size, u.was);
        if u.clean {
          modified := false;
        }
      }
    }

    /** revert_action on the record under pointer up. */
    method RevertAction(up: nat) returns (j: nat)
      requires Valid() && up <= |undos| && U.RevertAction(Abs(), up).Reverted?
      modifies this`undos, this`gap, this`hole, this`text, this`pt, this`modified, this`goalc
      modifies astr, astr.text, chain`o
      ensures Valid() && (astr.text == old(astr.text) || fresh(astr.text))
      ensures U.ActionTo(old(Abs()), up, Abs(), j)
      decreases up, 1
    {
      j := up;
      if undos[j - 1].End? {
        j := RevertGroup(j);
      }
      RevertRecord(undos[j - 1]);
      j := j - 1;
    }

    /** The loop of revert_action, with the records it pushes around it. */
    method RevertGroup(up: nat) returns (j: nat)
      requires Valid() && 0 < up <= |undos| && undos[up - 1].End?
      requires U.RevertRun(U.StartSequence(Abs()), up - 1).Reverted?
      modifies this`undos, this`gap, this`hole, this`text, this`pt, this`modified, this`goalc
      modifies astr, astr.text, chain`o
      ensures Valid() && (astr.text == old(astr.text) || fresh(astr.text))
      ensures U.GroupTo(old(Abs()), up, Abs(), j)
      decreases up, 0
    {
      hide Bytes, Nth, Distinct, U.RevertRun;
      UndoStartSequence();
      j := RevertWhile(up - 1);
      UndoEndSequence();
    }

    method RevertWhile(up: nat) returns (j: nat)
      requires Valid() && up <= |undos| && U.RevertRun(Abs(), up).Reverted?
      modifies this`undos, this`gap, this`hole, this`text, this`pt, this`modified, this`goalc
      modifies astr, astr.text, chain`o
      ensures Valid() && (astr.text == old(astr.text) || fresh(astr.text))
      ensures U.RunTo(old(Abs()), up, Abs(), j)
      decreases up, 2
    {
      j := up;
      while !undos[j - 1].Start?
        invariant Valid() && (astr.text == old(astr.text) || fresh(astr.text))
        invariant 0 < j <= up && j <= |undos|
        invariant U.RevertRun(Abs(), j) == U.RevertRun(old(Abs()), up)
        decreases j
      {
        j := RevertAction(j);
      }
    }

    /** The undo command. It fails when there is nothing to revert, and then
        only makes the newest record the next one. */
    method Undo() returns (ok: bool)
      requires Valid() && next <= |undos| && U.UndoCommand(Abs()).Done?
      modifies this`undos, this`gap, this`hole, this`text, this`pt, this`modified, this`goalc, this`next
      modifies astr, astr.text, chain`o
      ensures Valid() && (astr.text == old(astr.text) || fresh(astr.text))
      ensures Abs() == U.UndoCommand(old(Abs())).s
      ensures ok == old(!noundo && !readonly && next != 0)
      ensures old(noundo || readonly) ==> Abs() == old(Abs())
      ensures old(!noundo && !readonly && next == 0) ==>
                next == |undos| && Abs().(next := 0) == old(Abs())
    {
      if noundo || readonly {
        return false;
      }
      if next == 0 {
        next := |undos|;
        return false;
      }
      var j := RevertAction(next);
      next := j;
      return true;
    }

    /** undo_set_unchanged, and the flag write_buffer clears with it. */
    method MarkSaved()
      modifies this`undos, this`modified
      ensures Abs() == old(Abs()).(modified := false, undos := U.SetUnchanged(old(undos)))
    {
      modified := false;
      ghost var was := undos;
      var i := |undos|;
      while i > 0
        invariant 0 <= i <= |undos| == |was| && !modified
        invariant forall k :: i <= k < |was| ==> undos[k] == U.SetUnchanged(was)[k]
        invariant forall k :: 0 <= k < i ==> undos[k] == was[k]
      {
        i := i - 1;
        if undos[i].Replace? {
          undos := undos[i := undos[i].(clean := false)];
        }
      }
      assert undos == U.SetUnchanged(was);
    }

    // -------------------------------------------------------------------
    // The marker chain
    // -------------------------------------------------------------------

    /** Put a marker that points nowhere at the head of the chain. */
    method Chain(m: Marker, o: nat)
      requires ValidChain() && m.bp == null
      modifies m, this`markers, this`chain
      ensures ValidChain() && chain == [m] + old(chain) && m.o == o
    {
      m.bp := this;
      m.next := markers;
      markers := m;
      chain := [m] + chain;
      m.o := o;
    }

    /** unchain_marker, for a marker of this buffer. */
    method Unchain(m: Marker) returns (ghost i: nat)
      requires ValidChain() && m in chain
      modifies chain`next, m`bp, this`markers, this`chain
      ensures ValidChain() && m.bp == null && m !in chain
      ensures i < |old(chain)| && old(chain)[i] == m && chain == Without(old(chain), i)
    {
      var prev: Marker? := null;
      var it := markers;
      i := 0;
      while it != m
        invariant i < |chain| && it == chain[i] && m !in chain[..i]
        invariant prev == if i == 0 then null else chain[i - 1]
        decreases |chain| - i
      {
        assert it.next == Nth(chain, i + 1);
        prev, it, i := it, it.next, i + 1;
      }
      Unlink(prev, it, i);
    }

    method Unlink(prev: Marker?, it: Marker, ghost i: nat)
      requires ValidChain() && i < |chain| && it == chain[i]
      requires prev == if i == 0 then null else chain[i - 1]
      modifies chain`next, it`bp, this`markers, this`chain
      ensures ValidChain() && it.bp == null && chain == Without(old(chain), i) && it !in chain
    {
      assert it.next == Nth(chain, i + 1);
      DistinctWithout(chain, i);
      if prev != null {
        prev.next := it.next;
      } else {
        markers := it.next;
      }
      it.bp := null;
      DropFromChain(i);
    }

    /** The links already skip the i-th marker; let the chain say so. */
    ghost method DropFromChain(i: nat)
      requires i < |chain| && Distinct(chain)
      requires markers == if i == 0 then Nth(chain, 1) else chain[0]
      requires forall k :: 0 <= k < |chain| && k != i ==>
                 chain[k].bp == this && chain[k].next == if k + 1 == i then Nth(chain, i + 1) else Nth(chain, k + 1)
      modifies this`chain
      ensures ValidChain() && chain == Without(old(chain), i)
    {
      DistinctWithout(chain, i);
      ghost var was := chain;
      chain := Without(chain, i);
      forall k | 0 <= k < |chain|
        ensures chain[k].bp == this && chain[k].next == Nth(chain, k + 1)
      {
        assert chain[k] == if k < i then was[k] else was[k + 1];
      }
    }
  }
}
