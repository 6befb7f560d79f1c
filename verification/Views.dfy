/** What selecting a window does to points: every window but the selected one
    keeps its own point on a marker (set_current_window in src/window.c). */
module Views {
  import opened Basics
  import opened Buffers
  import opened LineIndex
  import opened Markers

  /** A window, as far as its buffer and point go. */
  class View {
    const bp: Buffer
    var savedPt: Marker?

    constructor (b: Buffer)
      ensures bp == b && savedPt == null
    {
      bp, savedPt := b, null;
    }

    /** The point saved for a window is a place in its buffer. */
    ghost predicate Valid(ms: set<Marker>)
      reads this, bp, ms
    {
      savedPt != null ==> savedPt in ms && savedPt.bp == bp && savedPt.o <= |bp.text|
    }
  }

  /** The selected window, and the current buffer that goes with it. */
  class Selection {
    var curWp: View
    var curBp: Buffer

    constructor (wp: View)
      ensures curWp == wp && curBp == wp.bp
    {
      curWp, curBp := wp, wp.bp;
    }

    /** Leave the point of the selected window on a marker. */
    method LeavePoint(ghost ms: set<Marker>, ghost bps: set<Buffer>) returns (ghost ms': set<Marker>)
      requires World(ms, bps) && curBp == curWp.bp && curBp in bps && curBp.ValidText() && curWp.Valid(ms)
      modifies curWp`savedPt, ms`next, bps`markers, bps`chain
      modifies if curWp.savedPt == null then {} else {curWp.savedPt}
      ensures World(ms', bps) && ms <= ms' && fresh(ms' - ms) && curWp.Valid(ms')
      ensures curWp.savedPt != null && fresh(curWp.savedPt) && curWp.savedPt.o == curBp.pt
    {
      hide Nth, Distinct;
      if curWp.savedPt != null {
        UnchainMarker(curWp.savedPt, ms, bps);
      }
      var m := NewMarker(curBp, curBp.pt, ms, bps);
      ms' := ms + {m};
      curWp.savedPt := m;
    }

    /** Take up the point that was left in the selected window. */
    method TakeUpPoint(ghost ms: set<Marker>, ghost bps: set<Buffer>)
      requires World(ms, bps) && curBp == curWp.bp && curBp in bps && curBp.ValidText() && curWp.Valid(ms)
      modifies curWp`savedPt, ms`next, bps`markers, bps`chain
      modifies if curWp.savedPt == null then {} else {curWp.savedPt}
      modifies curBp`pt, curBp`hole, curBp`goalc, curBp.astr`contents, curBp.astr.text
      ensures World(ms, bps) && curWp.savedPt == null && curBp.ValidText()
      ensures curBp.pt == if old(curWp.savedPt) == null then old(curBp.pt) else old(curWp.savedPt.o)
    {
      hide Nth, Distinct, Bytes;
      if curWp.savedPt != null {
        curBp.GotoOffset(curWp.savedPt.o);
        UnchainMarker(curWp.savedPt, ms, bps);
        curWp.savedPt := null;
      }
    }

    /** set_current_window. The window left keeps its point, and the one
        selected has the point it was left with. */
    method SetCurrentWindow(wp: View, ghost ms: set<Marker>, ghost bps: set<Buffer>) returns (ghost ms': set<Marker>)
      requires World(ms, bps) && curBp == curWp.bp && curBp in bps && curBp.ValidText() && curWp.Valid(ms)
      requires wp.bp in bps && wp.bp.ValidText() && wp.Valid(ms)
      requires wp != curWp && wp.savedPt != null ==> wp.savedPt != curWp.savedPt
      modifies this, curWp`savedPt, wp`savedPt, ms, bps`markers, bps`chain
      modifies wp.bp`pt, wp.bp`hole, wp.bp`goalc, wp.bp.astr`contents, wp.bp.astr.text
      ensures World(ms', bps) && ms <= ms' && fresh(ms' - ms)
      ensures curWp == wp && curBp == wp.bp && wp.savedPt == null && wp.bp.ValidText()
      ensures wp.bp.pt == if old(wp.savedPt) == null || wp == old(curWp) then old(wp.bp.pt) else old(wp.savedPt.o)
      ensures old(curWp) != wp ==>
                old(curWp).Valid(ms') && old(curWp).savedPt != null && old(curWp).savedPt.o == old(curBp.pt)
    {
      hide World, Buffer.ValidText;
      ms' := LeavePoint(ms, bps);
      curWp, curBp := wp, wp.bp;
      TakeUpPoint(ms', bps);
    }

    /** Selecting another window and then this one again puts point back where
        it was, even when both windows show the same buffer. */
    method SelectAndReturn(wp: View, ghost ms: set<Marker>, ghost bps: set<Buffer>) returns (ghost ms': set<Marker>)
      requires World(ms, bps) && curBp == curWp.bp && curBp in bps && curBp.ValidText() && curWp.Valid(ms)
      requires wp.bp in bps && wp.bp.ValidText() && wp.Valid(ms) && wp != curWp
      requires wp.savedPt != null ==> wp.savedPt != curWp.savedPt
      requires wp.bp != curBp ==> wp.bp.astr != curBp.astr && wp.bp.astr.text != curBp.astr.text
      modifies this, curWp`savedPt, wp`savedPt, ms, bps`markers, bps`chain
      modifies {wp.bp, curBp}`pt, {wp.bp, curBp}`hole, {wp.bp, curBp}`goalc
      modifies wp.bp.astr`contents, wp.bp.astr.text, curBp.astr`contents, curBp.astr.text
      ensures World(ms', bps) && curWp == old(curWp) && curBp == old(curBp) && curBp.ValidText()
      ensures curBp.pt == old(curBp.pt)
    {
      hide World, Buffer.ValidText;
      var back := curWp;
      ms' := SetCurrentWindow(wp, ms, bps);
      ms' := SetCurrentWindow(back, ms', bps);
    }
  }
}
