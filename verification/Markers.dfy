/** Markers among all the buffers, the mark of each buffer, and the mark ring
    (src/marker.c). */
module Markers {
  import opened Basics
  import opened Buffers

  /** The chain of each buffer has no cycle and no repetition, and holds
      exactly the markers that point into it. */
  ghost predicate World(ms: set<Marker>, bps: set<Buffer>)
    reads ms`bp, ms`next, bps`chain, bps`markers
  {
    && (forall b :: b in bps ==> (forall m :: m in b.chain ==> m in ms) && b.ValidChain())
    && (forall m :: m in ms && m.bp != null ==> m.bp in bps && m in m.bp.chain)
  }

  /** The markers that point into a buffer. */
  ghost function PointingTo(ms: set<Marker>, b: Buffer): set<Marker>
    reads ms`bp
  {
    set m | m in ms && m.bp == b
  }

  /** A walk down the chain of a buffer comes by each marker that points into
      it, by each only once, and by no other. */
  lemma ChainCounts(ms: set<Marker>, bps: set<Buffer>, b: Buffer)
    requires World(ms, bps) && b in bps
    ensures |b.chain| == |PointingTo(ms, b)| && forall m :: m in b.chain <==> m in PointingTo(ms, b)
  {
    DistinctCount(b.chain, PointingTo(ms, b));
  }

  lemma {:induction false} DistinctCount(s: seq<Marker>, all: set<Marker>)
    requires Distinct(s) && forall m :: m in s <==> m in all
    ensures |s| == |all|
    decreases |s|
  {
    if s != [] {
      var rest := s[1..];
      forall m
        ensures m in rest <==> m in all - {s[0]}
      {
        if m in s && m != s[0] {
          var i :| 0 <= i < |s| && s[i] == m;
          assert rest[i - 1] == m;
        }
      }
      DistinctCount(rest, all - {s[0]});
    } else {
      assert all == {};
    }
  }

  /** unchain_marker. */
  method UnchainMarker(m: Marker, ghost ms: set<Marker>, ghost bps: set<Buffer>)
    requires World(ms, bps) && m in ms
    modifies m`bp, ms`next, bps`markers, bps`chain
    ensures World(ms, bps) && m.bp == null
    ensures forall b :: b in bps && b != old(m.bp) ==> b.chain == old(b.chain)
  {
    hide Nth, Distinct;
    if m.bp == null {
      return;
    }
    ghost var was := m.bp.chain;
    ghost var b := m.bp;
    var i := m.bp.Unchain(m);
    assert forall x :: x in b.chain ==> x in was;
    assert forall x :: x in was && x != m ==> x in b.chain by { OthersStay(was, i, m); }
  }

  lemma OthersStay(ms: seq<Marker>, i: nat, m: Marker)
    requires i < |ms| && ms[i] == m
    ensures forall x :: x in ms && x != m ==> x in Without(ms, i)
  {
    forall x | x in ms && x != m
      ensures x in Without(ms, i)
    {
      var k :| 0 <= k < |ms| && ms[k] == x;
      assert Without(ms, i)[if k < i then k else k - 1] == x;
    }
  }

  method ChainMarker(m: Marker, bp: Buffer, ghost ms: set<Marker>, ghost bps: set<Buffer>)
    requires World(ms, bps) && m in ms && m.bp == null && bp in bps
    modifies m, bp`markers, bp`chain
    ensures World(ms, bps) && m.bp == bp && bp.chain == [m] + old(bp.chain)
  {
    bp.Chain(m, m.o);
  }

  /** move_marker: point a marker at offset o of buffer bp. */
  method MoveMarker(m: Marker, bp: Buffer, o: nat, ghost ms: set<Marker>, ghost bps: set<Buffer>)
    requires World(ms, bps) && m in ms && bp in bps
    modifies m, ms`next, bps`markers, bps`chain
    ensures World(ms, bps) && m.bp == bp && m.o == o
    ensures bp.chain == if old(m.bp) == bp then old(bp.chain) else [m] + old(bp.chain)
  {
    hide World;
    if bp != m.bp {
      UnchainMarker(m, ms, bps);
      ChainMarker(m, bp, ms, bps);
    }
    m.o := o;
  }

  /** The buffer that a marker points into, if any. */
  ghost function Target(m: Marker): set<Buffer>
    reads m`bp
  {
    if m.bp == null then {} else {m.bp}
  }

  /** copy_marker. The copy of a marker that points nowhere points nowhere. */
  method CopyMarker(m: Marker, ghost ms: set<Marker>, ghost bps: set<Buffer>) returns (c: Marker)
    requires World(ms, bps) && m in ms
    modifies Target(m)`markers, Target(m)`chain
    ensures fresh(c) && World(ms + {c}, bps) && c.bp == m.bp && c.o == m.o
    ensures m.bp != null ==> m.bp.chain == [c] + old(m.bp.chain)
  {
    hide Nth, Distinct;
    if m.bp == null {
      c := new Marker();
      c.o := m.o;
    } else {
      c := NewMarker(m.bp, m.o, ms, bps);
    }
  }

  /** A new marker at offset o of bp. */
  method NewMarker(bp: Buffer, o: nat, ghost ms: set<Marker>, ghost bps: set<Buffer>) returns (c: Marker)
    requires World(ms, bps) && bp in bps
    modifies bp`markers, bp`chain
    ensures fresh(c) && World(ms + {c}, bps) && c.bp == bp && c.o == o && bp.chain == [c] + old(bp.chain)
  {
    c := new Marker();
    bp.Chain(c, o);
  }

  /** The mark of each buffer is a marker into it. */
  ghost predicate Marked(ms: set<Marker>, bps: set<Buffer>)
    reads ms, bps
  {
    forall b :: b in bps && b.mark != null ==> b.mark in ms && b.mark.bp == b
  }

  /** set_mark: the mark goes to point. */
  method SetMark(bp: Buffer, ghost ms: set<Marker>, ghost bps: set<Buffer>) returns (ghost ms': set<Marker>)
    requires World(ms, bps) && Marked(ms, bps) && bp in bps
    modifies bp`mark, bp`markers, bp`chain, if bp.mark == null then {} else {bp.mark}
    ensures World(ms', bps) && Marked(ms', bps) && ms <= ms' && fresh(ms' - ms)
    ensures bp.mark != null && bp.mark.o == bp.pt
    ensures if old(bp.mark) == null then fresh(bp.mark) else bp.mark == old(bp.mark)
  {
    hide Nth, Distinct;
    ms' := ms;
    if bp.mark == null {
      var m := NewMarker(bp, bp.pt, ms, bps);
      bp.mark := m;
      ms' := ms + {m};
    } else {
      bp.mark.o := bp.pt;
    }
  }

  /** The mark ring: markers of their own, the last one pushed at the end. */
  class MarkRing {
    var ring: seq<Marker>

    constructor ()
      ensures ring == []
    {
      ring := [];
    }

    ghost predicate Valid(ms: set<Marker>, bps: set<Buffer>)
      reads this, ms, bps
    {
      && (forall i :: 0 <= i < |ring| ==> ring[i] in ms)
      && (forall i, b :: 0 <= i < |ring| && b in bps ==> b.mark != ring[i])
      && (forall i, j :: 0 <= i < j < |ring| ==> ring[i] != ring[j])
    }

    /** push_mark: save the mark, or else a marker at the start of the buffer,
        and set the mark to point. */
    method PushMark(bp: Buffer, ghost ms: set<Marker>, ghost bps: set<Buffer>) returns (ghost ms': set<Marker>)
      requires World(ms, bps) && Marked(ms, bps) && Valid(ms, bps) && bp in bps
      modifies this, bp`mark, bp`markers, bp`chain, if bp.mark == null then {} else {bp.mark}
      ensures World(ms', bps) && Marked(ms', bps) && Valid(ms', bps) && ms <= ms' && fresh(ms' - ms)
      ensures |ring| == |old(ring)| + 1 && ring[..|ring| - 1] == old(ring)
      ensures var s := ring[|ring| - 1];
              s.bp == bp && s.o == if old(bp.mark) == null then 0 else old(bp.mark.o)
      ensures bp.mark != null && bp.mark.o == bp.pt
    {
      hide Nth, Distinct;
      var s := NewMarker(bp, if bp.mark == null then 0 else bp.mark.o, ms, bps);
      ring := ring + [s];
      ms' := SetMark(bp, ms + {s}, bps);
    }

    /** pop_mark: the mark becomes a copy of the last marker saved, whose buffer
        must not have been killed since. */
    method PopMark(ghost ms: set<Marker>, ghost bps: set<Buffer>) returns (ghost ms': set<Marker>)
      requires World(ms, bps) && Marked(ms, bps) && Valid(ms, bps)
      requires ring != [] && ring[|ring| - 1].bp != null
      modifies this, bps, ms
      ensures World(ms', bps) && Marked(ms', bps) && Valid(ms', bps) && ms <= ms' && fresh(ms' - ms)
      ensures ring == old(ring)[..|old(ring)| - 1]
      ensures var s := old(ring)[|old(ring)| - 1];
              s.bp == null && old(s.bp).mark != null && old(s.bp).mark.o == old(s.o)
    {
      hide Nth, Distinct;
      var m := ring[|ring| - 1];
      ms' := CopyToMark(m, ms, bps);
      UnchainMarker(m, ms', bps);
      ring := ring[..|ring| - 1];
    }

    /** Pushing and popping leaves the mark where it was if and only if there
        was one; a buffer without a mark gets one at its start. */
    method PushThenPop(bp: Buffer, ghost ms: set<Marker>, ghost bps: set<Buffer>) returns (ghost ms': set<Marker>)
      requires World(ms, bps) && Marked(ms, bps) && Valid(ms, bps) && bp in bps
      modifies this, bps, ms
      ensures World(ms', bps) && Marked(ms', bps) && Valid(ms', bps) && ring == old(ring)
      ensures MarkAt(bp) == old(MarkAt(bp)) <==> old(MarkAt(bp)).Some?
      ensures MarkAt(bp) == Some(if old(MarkAt(bp)).Some? then old(MarkAt(bp)).value else 0)
    {
      ms' := PushMark(bp, ms, bps);
      ms' := PopMark(ms', bps);
    }
  }

  /** Where the mark of a buffer is. */
  function MarkAt(bp: Buffer): Option<nat>
    reads bp, bp.mark
  {
    if bp.mark == null then None else Some(bp.mark.o)
  }

  /** Make a copy of m the mark of its buffer. */
  method CopyToMark(m: Marker, ghost ms: set<Marker>, ghost bps: set<Buffer>) returns (ghost ms': set<Marker>)
    requires World(ms, bps) && Marked(ms, bps) && m in ms && m.bp != null && m.bp.mark != m
    modifies bps`mark, bps`markers, bps`chain, ms`next, if m.bp.mark == null then {} else {m.bp.mark}
    ensures World(ms', bps) && Marked(ms', bps) && ms <= ms' && fresh(ms' - ms)
    ensures fresh(m.bp.mark) && m.bp.mark in ms' && m.bp.mark.o == m.o
    ensures forall b :: b in bps && b != m.bp ==> b.mark == old(b.mark)
  {
    hide Nth, Distinct;
    var b := m.bp;
    if b.mark != null {
      UnchainMarker(b.mark, ms, bps);
      b.mark := null;
    }
    var c := CopyMarker(m, ms, bps);
    b.mark := c;
    ms' := ms + {c};
  }
}
