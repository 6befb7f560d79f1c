/** The kill ring and the commands that fill and empty it, working on the
    buffer itself (src/killring.c; delete_region and delete_char in
    src/buffer.c). Each is proved against its counterpart in Kill. */
module KillRings {
  import opened Basics
  import opened Eol
  import opened Astrs
  import opened LineIndex
  import opened Gap
  import opened Buffers
  import U = UndoLog
  import K = Kill

  /** The line functions see the text of this buffer as it is. */
  ghost predicate Clear(bp: Buffer)
    reads bp`text, bp`pt, bp`hole
  {
    bp.pt <= |bp.text| && Quiet(bp.hole) && !SplitsEol(bp.text, bp.eol, bp.pt)
  }

  lemma ClearIsTransparent(bp: Buffer)
    requires Clear(bp)
    ensures Transparent(bp.text, bp.eol, bp.pt, bp.hole)
  {
    QuietGapIff(bp.text, bp.eol, bp.pt, bp.hole);
  }

  /** point_marker: a new marker at point. */
  method PointMarker(bp: Buffer) returns (m: Marker)
    requires bp.ValidChain()
    modifies bp`markers, bp`chain
    ensures fresh(m) && bp.ValidChain() && bp.chain == [m] + old(bp.chain) && m.o == bp.pt
  {
    m := new Marker();
    bp.Chain(m, bp.pt);
  }

  /** goto_offset; a quiet gap stays quiet. */
  method GoTo(bp: Buffer, o: nat)
    requires bp.Valid() && o <= |bp.text|
    modifies bp`pt, bp`hole, bp`goalc, bp.astr`contents, bp.astr.text
    ensures bp.Valid() && bp.Abs() == old(bp.Abs()).(pt := o)
    ensures old(Quiet(bp.hole)) ==> Quiet(bp.hole)
  {
    if Quiet(bp.hole) { MoveKeepsQuiet(bp.hole, bp.pt, o); }
    bp.GotoOffset(o);
  }

  /** Delete n bytes from start on; a quiet gap stays quiet, because it need
      not be opened. */
  method DeleteAt(bp: Buffer, start: nat, n: nat)
    requires bp.Valid() && !bp.readonly && start + n <= |bp.text|
    modifies bp`undos, bp`gap, bp`hole, bp`text, bp`pt, bp`modified, bp`goalc
    modifies bp.astr, bp.astr.text, bp.chain`o
    ensures bp.Valid() && (bp.astr.text == old(bp.astr.text) || fresh(bp.astr.text))
    ensures bp.Abs() == U.ReplaceEstr(old(bp.Abs()).(pt := start), n, ESTR_EMPTY).s
    ensures forall m :: m in bp.chain ==> m.o == AdjustOffset(old(m.o), start, 0, n)
    ensures old(Quiet(bp.hole)) ==> Quiet(bp.hole)
  {
    GoTo(bp, start);
    if Quiet(bp.hole) { StaysQuietIff(bp.hole, bp.Deleted(n), 0); }
    var ok := bp.ReplaceEstr(n, ESTR_EMPTY);
  }

  /** delete_region, for a buffer that is not read-only: the deletion, with
      point carried by the marker m. */
  method DeleteAround(bp: Buffer, m: Marker, start: nat, end: nat)
    requires bp.Valid() && !bp.readonly && start <= end <= |bp.text|
    requires m in bp.chain && m.o == bp.pt && K.DeleteRegion(bp.Abs(), start, end).Done?
    modifies bp`undos, bp`gap, bp`hole, bp`text, bp`pt, bp`modified, bp`goalc
    modifies bp.astr, bp.astr.text, bp.chain`o
    ensures bp.Valid() && (bp.astr.text == old(bp.astr.text) || fresh(bp.astr.text))
    ensures bp.Abs() == K.DeleteRegion(old(bp.Abs()), start, end).s
    ensures forall m :: m in bp.chain ==> m.o == AdjustOffset(old(m.o), start, 0, end - start)
    ensures old(Quiet(bp.hole)) ==> Quiet(bp.hole)
  {
    hide U.ReplaceEstr, AdjustOffset, Quiet, Bytes, Distinct, Nth;
    DeleteAt(bp, start, end - start);
    GoTo(bp, m.o);
  }

  /** delete_region. */
  method DeleteRegion(bp: Buffer, start: nat, end: nat) returns (ok: bool)
    requires bp.Valid() && start <= end && K.DeleteRegion(bp.Abs(), start, end).Done?
    requires !bp.readonly ==> end <= |bp.text|
    modifies bp, bp.astr, bp.astr.text, bp.chain
    ensures bp.Valid() && (bp.astr.text == old(bp.astr.text) || fresh(bp.astr.text))
    ensures ok == !old(bp.readonly) && bp.Abs() == K.DeleteRegion(old(bp.Abs()), start, end).s
    ensures bp.chain == old(bp.chain)
    ensures forall m :: m in bp.chain ==> m.o == if ok then AdjustOffset(old(m.o), start, 0, end - start) else old(m.o)
    ensures old(Quiet(bp.hole)) ==> Quiet(bp.hole)
  {
    if bp.readonly {
      return false;
    }
    hide K.DeleteRegion, AdjustOffset, Quiet, Bytes, Nth, Distinct, Buffer.ValidText;
    ghost var others := bp.chain;
    var m := PointMarker(bp);
    DeleteAround(bp, m, start, end);
    UnchainFirst(bp, m, others);
    return true;
  }

  /** unchain_marker, for the marker at the head of the chain. */
  method UnchainFirst(bp: Buffer, m: Marker, ghost others: seq<Marker>)
    requires bp.Valid() && bp.chain == [m] + others
    modifies bp.chain`next, m`bp, bp`markers, bp`chain
    ensures bp.Valid() && bp.chain == others
  {
    hide Nth, Bytes;
    ghost var was := bp.chain;
    assert Distinct(was) && was[0] == m;
    var i := bp.Unchain(m);
    assert was[i] == was[0];
  }

  /** The kill ring: no string until something is killed, then an LF string. */
  class KillRing {
    var ring: Astr?

    ghost function Repr(): set<object?>
      reads this, ring
    {
      if ring == null then {this} else {this, ring, ring.text}
    }

    /** The ring is a string of its own, apart from the buffer. */
    ghost predicate Valid(bp: Buffer)
      reads this, ring, if ring == null then {} else {ring.text}, bp.astr`text
    {
      ring != null ==> ring.Valid() && ring != bp.astr && ring.text != bp.astr.text
    }

    ghost function Text(): string
      reads this, ring
    {
      if ring == null then "" else ring.contents
    }

    constructor ()
      ensures ring == null
    {
      ring := null;
    }

    /** kill_ring_push. */
    method Push(es: Estr, ghost bp: Buffer)
      requires Valid(bp)
      modifies Repr()
      ensures Valid(bp) && fresh(Repr() - old(Repr()))
      ensures Text() == old(Text()) + Translate(es.text, es.eol, LF)
    {
      if ring == null {
        ring := new Astr();
      }
      ring.CatEstr(LF, es);
    }
  }

  /** Add a region of the buffer to the ring. */
  method CopyRegion(bp: Buffer, kr: KillRing, start: nat, end: nat)
    requires bp.Valid() && kr.Valid(bp) && start <= end <= |bp.text|
    modifies kr.Repr()
    ensures bp.Valid() && kr.Valid(bp) && fresh(kr.Repr() - old(kr.Repr()))
    ensures kr.Text() == old(kr.Text()) + Translate(bp.text[start..end], bp.eol, LF)
  {
    hide Translate, Bytes, Distinct;
    var es := bp.GetBufferRegion(start, end);
    kr.Push(es, bp);
  }

  /** copy_or_kill_region. */
  method CopyOrKill(bp: Buffer, kr: KillRing, kill: bool, start: nat, end: nat)
    requires bp.Valid() && kr.Valid(bp) && start <= end <= |bp.text|
    requires K.CopyOrKill(bp.Abs(), kr.Text(), kill, start, end).Killed?
    modifies bp, bp.astr, bp.astr.text, bp.chain, kr.Repr()
    ensures bp.Valid() && (bp.astr.text == old(bp.astr.text) || fresh(bp.astr.text)) && bp.chain == old(bp.chain)
    ensures kr.Valid(bp) && fresh(kr.Repr() - old(kr.Repr()))
    ensures K.CopyOrKill(old(bp.Abs()), old(kr.Text()), kill, start, end) == K.Killed(true, bp.Abs(), kr.Text())
    ensures old(Quiet(bp.hole)) ==> Quiet(bp.hole)
  {
    hide K.DeleteRegion, Translate, AdjustOffset, Quiet, Bytes, Distinct;
    CopyRegion(bp, kr, start, end);
    if kill {
      var ok := DeleteRegion(bp, start, end);
    }
  }

  /** yank: insert the ring at point; false when nothing was ever killed. */
  method Yank(bp: Buffer, kr: KillRing) returns (ok: bool)
    requires bp.Valid() && kr.Valid(bp)
    modifies bp, bp.astr, bp.astr.text, bp.chain
    ensures bp.Valid() && ok == (kr.ring != null)
    ensures bp.Abs() == if ok then K.Yank(old(bp.Abs()), kr.Text()).s else old(bp.Abs())
  {
    hide Bytes, Distinct;
    if kr.ring == null {
      return false;
    }
    assert kr.ring.text[..kr.ring.len] == kr.ring.contents;
    var done := bp.ReplaceEstr(0, Estr(kr.ring.text[..kr.ring.len], LF));
    return true;
  }

  /** eobp. */
  method AtEnd(bp: Buffer) returns (b: bool)
    requires bp.Valid()
    ensures b == (bp.pt == |bp.text|)
  {
    b := bp.pt == bp.astr.len - bp.gap;
  }

  /** delete_char. */
  method DeleteChar(bp: Buffer) returns (ok: bool)
    requires bp.Valid() && Clear(bp)
    modifies bp, bp.astr, bp.astr.text, bp.chain`o
    ensures bp.Valid() && (bp.astr.text == old(bp.astr.text) || fresh(bp.astr.text)) && bp.chain == old(bp.chain)
    ensures K.DeleteChar(old(bp.Abs())) == U.Done(bp.Abs()) && ok == (old(bp.pt) < |old(bp.text)| && !old(bp.readonly))
  {
    hide Bytes, Distinct, Quiet, SplitsEol;
    var eob := AtEnd(bp);
    if eob || bp.readonly {
      return false;
    }
    ClearIsTransparent(bp);
    var eo := bp.BufferEndOfLine(bp.pt);
    ok := bp.ReplaceEstr(if eo == bp.pt then EolLen(bp.eol) else 1, ESTR_EMPTY);
  }

  /** The delete-char command: the deletion in a sequence of its own. */
  method DeleteCharCommand(bp: Buffer) returns (ok: bool)
    requires bp.Valid() && Clear(bp)
    modifies bp, bp.astr, bp.astr.text, bp.chain`o
    ensures bp.Valid() && (bp.astr.text == old(bp.astr.text) || fresh(bp.astr.text)) && bp.chain == old(bp.chain)
    ensures var d := K.DeleteChar(U.StartSequence(old(bp.Abs()))); d.Done? && bp.Abs() == U.EndSequence(d.s)
    ensures ok == (old(bp.pt) < |old(bp.text)| && !old(bp.readonly))
  {
    hide Bytes, Distinct, Quiet, SplitsEol, K.DeleteChar;
    bp.UndoStartSequence();
    ok := DeleteChar(bp);
    bp.UndoEndSequence();
  }

  /** Add a line-feed to the ring and close the sequence. */
  method PushEol(bp: Buffer, kr: KillRing)
    requires bp.Valid() && kr.Valid(bp)
    modifies bp`undos, kr.Repr()
    ensures bp.Valid() && bp.Abs() == U.EndSequence(old(bp.Abs()))
    ensures kr.Valid(bp) && fresh(kr.Repr() - old(kr.Repr())) && kr.Text() == old(kr.Text()) + "\n"
  {
    hide Bytes, Distinct, Translate, Quiet;
    K.EolTranslates(LF);
    kr.Push(Estr("\n", LF), bp);
    bp.UndoEndSequence();
  }

  /** The tail of kill_line. */
  method KillEol(bp: Buffer, kr: KillRing) returns (ok: bool)
    requires bp.Valid() && Clear(bp) && kr.Valid(bp) && bp.pt < |bp.text|
    modifies bp, bp.astr, bp.astr.text, bp.chain`o, kr.Repr()
    ensures bp.Valid() && (bp.astr.text == old(bp.astr.text) || fresh(bp.astr.text)) && bp.chain == old(bp.chain)
    ensures kr.Valid(bp) && fresh(kr.Repr() - old(kr.Repr()))
    ensures K.KillEol(old(bp.Abs()), old(kr.Text())) == K.Killed(ok, bp.Abs(), kr.Text())
  {
    hide Bytes, Nth, Distinct, Quiet, SplitsEol, K.DeleteChar;
    ok := DeleteCharCommand(bp);
    if !ok {
      return false;
    }
    PushEol(bp, kr);
    return true;
  }

  /** Whether the rest of the line of point is blank. */
  method BlanksToEnd(bp: Buffer, lineO: nat, lineLen: nat) returns (b: bool)
    requires bp.Valid() && lineO <= bp.pt <= lineO + lineLen <= |bp.text|
    ensures b == K.OnlyBlanks(bp.text[bp.pt..lineO + lineLen])
  {
    var i := bp.pt - lineO;
    while i < lineLen
      invariant bp.pt - lineO <= i <= lineLen
      invariant forall k :: bp.pt <= k < lineO + i ==> bp.text[k] == ' ' || bp.text[k] == '\t'
    {
      var c := bp.GetBufferChar(lineO + i);
      if !(c == ' ' || c == '\t') {
        assert bp.text[bp.pt..lineO + lineLen][lineO + i - bp.pt] == c;
        return false;
      }
      i := i + 1;
    }
    return true;
  }

  /** With the rest of its line gone, point still splits no end-of-line. */
  lemma RestKeepsWhole(t: string, e: Eol, o: nat)
    requires o <= |t| && !SplitsEol(t, e, o)
    ensures !SplitsEol(Splice(t, o, EndOfLine(t, e, o) - o, ""), e, o)
  {
  }

  /** Kill from point to the end of its line, if that is further on. */
  method KillRest(bp: Buffer, kr: KillRing, end: nat)
    requires bp.Valid() && kr.Valid(bp) && Clear(bp) && end == EndOfLine(bp.text, bp.eol, bp.pt)
    modifies bp, bp.astr, bp.astr.text, bp.chain, kr.Repr()
    ensures bp.Valid() && (bp.astr.text == old(bp.astr.text) || fresh(bp.astr.text)) && bp.chain == old(bp.chain)
    ensures kr.Valid(bp) && fresh(kr.Repr() - old(kr.Repr())) && Clear(bp)
    ensures K.KillRest(old(bp.Abs()), old(kr.Text()), end) == K.Killed(true, bp.Abs(), kr.Text())
  {
    hide Bytes, Distinct, Translate, Splice, K.CopyOrKill;
    K.RestIsKilled(bp.Abs(), kr.Text());
    RestKeepsWhole(bp.text, bp.eol, bp.pt);
    if bp.pt < end {
      CopyOrKill(bp, kr, true, bp.pt, end);
    }
  }

  /** Where the line of point ends, and whether kill_line takes its end too. */
  method KillExtent(bp: Buffer, whole: bool) returns (eo: nat, eolToo: bool)
    requires bp.Valid() && Clear(bp)
    ensures eo == EndOfLine(bp.text, bp.eol, bp.pt)
    ensures eolToo == (whole || K.OnlyBlanks(bp.text[bp.pt..eo]))
  {
    hide Bytes, Distinct, Quiet, SplitsEol, K.OnlyBlanks;
    ClearIsTransparent(bp);
    var lineO := bp.BufferStartOfLine(bp.pt);
    eo := bp.BufferEndOfLine(bp.pt);
    eolToo := whole;
    if !whole {
      eolToo := BlanksToEnd(bp, lineO, eo - lineO);
    }
  }

  /** kill_line. */
  method KillLine(bp: Buffer, kr: KillRing, whole: bool) returns (ok: bool)
    requires bp.Valid() && kr.Valid(bp) && Clear(bp)
    modifies bp, bp.astr, bp.astr.text, bp.chain, kr.Repr()
    ensures bp.Valid() && kr.Valid(bp)
    ensures K.KillLine(old(bp.Abs()), old(kr.Text()), whole) == K.Killed(ok, bp.Abs(), kr.Text())
  {
    hide Bytes, Distinct, Quiet, SplitsEol, K.KillRest, K.KillLineEnd, K.OnlyBlanks;
    var eo, eolToo := KillExtent(bp, whole);
    var eob := AtEnd(bp);
    if eob {
      return false;
    }
    bp.UndoStartSequence();
    KillRest(bp, kr, eo);
    ok := KillLineEnd(bp, kr, eolToo);
  }

  method KillLineEnd(bp: Buffer, kr: KillRing, eolToo: bool) returns (ok: bool)
    requires bp.Valid() && kr.Valid(bp) && Clear(bp)
    modifies bp, bp.astr, bp.astr.text, bp.chain`o, kr.Repr()
    ensures bp.Valid() && kr.Valid(bp)
    ensures K.KillLineEnd(K.Killed(true, old(bp.Abs()), old(kr.Text())), eolToo) == K.Killed(ok, bp.Abs(), kr.Text())
  {
    hide Bytes, Distinct, Quiet, SplitsEol, K.KillEol;
    var eob := AtEnd(bp);
    if eolToo && !eob {
      ok := KillEol(bp, kr);
      return ok;
    }
    bp.UndoEndSequence();
    return true;
  }
}
