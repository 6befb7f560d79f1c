/** What becomes of the bytes in the gap (src/buffer.c:94-108, 143-176), and
    of the offsets of markers (src/buffer.c:178-181). */
module Gap {
  import opened Basics
  import opened Eol
  import opened Astrs
  import opened LineIndex

  const MIN_GAP: nat := 1024
  const MAX_GAP: nat := 4096

  predicate AllNul(s: string) {
    forall i :: 0 <= i < |s| ==> s[i] == '\0'
  }

  /** Contents of the gap after point moves from pt to o: the bytes farthest
      from the new side survive, and the rest of the gap is cleared. */
  function HoleAfterMove(hole: string, pt: nat, o: nat): (h: string)
    ensures |h| == |hole|
  {
    seq(|hole|, i requires 0 <= i < |hole| =>
      if 0 <= i + (o - pt) < |hole| then hole[i + (o - pt)] else '\0')
  }

  function GapAfterReplace(gap: nat, del: nat, n: nat): nat {
    if gap + del < n then MIN_GAP else Min(gap + del - n, MAX_GAP)
  }

  /** Contents of the gap after n bytes replace the deleted ones. */
  function HoleAfterReplace(hole: string, deleted: string, n: nat): (h: string)
    ensures |h| == GapAfterReplace(|hole|, |deleted|, n)
  {
    if |hole| + |deleted| < n then
      seq(MIN_GAP, i requires 0 <= i < MIN_GAP =>
        var k := i - MIN_GAP + |deleted|;
        if k >= 0 then deleted[k] else if k + |hole| >= 0 then hole[k + |hole|] else '\0')
    else
      var gap := Min(|hole| + |deleted| - n, MAX_GAP);
      seq(gap, i requires 0 <= i < gap => if n + i < |hole| then hole[n + i] else '\0')
  }

  lemma MoveKeepsQuiet(hole: string, pt: nat, o: nat)
    requires Quiet(hole)
    ensures Quiet(HoleAfterMove(hole, pt, o))
  {
  }

  lemma MoveKeepsNul(hole: string, pt: nat, o: nat)
    requires AllNul(hole)
    ensures AllNul(HoleAfterMove(hole, pt, o))
  {
  }

  /** The last n bytes of s, or all of it. */
  function Tail(s: string, n: nat): string {
    s[|s| - Min(|s|, n)..]
  }

  /** A cleared gap stays cleared unless the gap had to be opened while bytes
      were being deleted; then exactly its last bytes are the end of the
      deleted text. */
  lemma StaleBytes(hole: string, deleted: string, n: nat)
    requires AllNul(hole)
    ensures var h := HoleAfterReplace(hole, deleted, n);
            if |hole| + |deleted| >= n then AllNul(h)
            else h == Fill(MIN_GAP - |Tail(deleted, MIN_GAP)|, '\0') + Tail(deleted, MIN_GAP)
  {
  }

  /** The condition under which a replace leaves stale bytes in the gap. */
  lemma StaysNulIff(hole: string, deleted: string, n: nat)
    requires AllNul(hole)
    ensures AllNul(HoleAfterReplace(hole, deleted, n)) <==>
            |hole| + |deleted| >= n || AllNul(Tail(deleted, MIN_GAP))
  {
    var h, t := HoleAfterReplace(hole, deleted, n), Tail(deleted, MIN_GAP);
    if |hole| + |deleted| < n {
      assert forall i :: 0 <= i < |t| ==> t[i] == h[MIN_GAP - |t| + i];
      assert forall i :: MIN_GAP - |t| <= i < MIN_GAP ==> h[i] == t[i - (MIN_GAP - |t|)];
    }
  }

  /** And the condition under which an end-of-line byte may be among them. */
  lemma StaysQuietIff(hole: string, deleted: string, n: nat)
    requires Quiet(hole)
    ensures Quiet(HoleAfterReplace(hole, deleted, n)) <==>
            |hole| + |deleted| >= n || Quiet(Tail(deleted, MIN_GAP))
  {
    var h, t := HoleAfterReplace(hole, deleted, n), Tail(deleted, MIN_GAP);
    if |hole| + |deleted| < n {
      assert forall i :: 0 <= i < |t| ==> t[i] == h[MIN_GAP - |t| + i];
      assert forall i :: MIN_GAP - |t| <= i < MIN_GAP ==> h[i] == t[i - (MIN_GAP - |t|)];
    }
  }

  /** "ab" written over a line-feed, when there is no gap yet: the line-feed is
      in the gap, and the previous line of point is wrong. */
  lemma StaleLineFeed()
    ensures var g := HoleAfterReplace("", "\n", 2);
            && !Transparent("ab", LF, 2, g)
            && PrevInBytes(Bytes("ab", 2, g), LF, 2, |g|, 2) != PrevLine("ab", LF, 2)
  {
    var g := HoleAfterReplace("", "\n", 2);
    assert g[MIN_GAP - 1] == '\n';
    assert EolAt(Bytes("ab", 2, g), LF, 2 + MIN_GAP - 1);
    SpuriousInGap("ab", LF, 2, g);
  }

  // ---------------------------------------------------------------------
  // Moving bytes
  // ---------------------------------------------------------------------

  /** The memmove and memset of set_buffer_pt when point moves left. */
  function MovedLeft(r: string, gap: nat, pt: nat, o: nat): string
    requires o < pt && pt + gap <= |r|
  {
    Overlay(Moved(r, o + gap, o, pt - o), o, Fill(Min(pt - o, gap), '\0'))
  }

  /** And when it moves right. */
  function MovedRight(r: string, gap: nat, pt: nat, o: nat): string
    requires pt < o && o + gap <= |r|
  {
    var k := Min(o - pt, gap);
    Overlay(Moved(r, pt, pt + gap, o - pt), o + gap - k, Fill(k, '\0'))
  }

  /** Moving point does not change the text. */
  lemma MoveLeft(text: string, hole: string, pt: nat, o: nat)
    requires o < pt <= |text|
    ensures MovedLeft(Bytes(text, pt, hole), |hole|, pt, o) == Bytes(text, o, HoleAfterMove(hole, pt, o))
  {
  }

  lemma MoveRight(text: string, hole: string, pt: nat, o: nat)
    requires pt < o <= |text|
    ensures MovedRight(Bytes(text, pt, hole), |hole|, pt, o) == Bytes(text, o, HoleAfterMove(hole, pt, o))
  {
  }

  /** The bytes once a gap that need not grow has been cut to its new size. */
  function Cut(r: string, pt: nat, gap: nat, del: nat, n: nat): string
    requires pt + gap + del <= |r| && gap + del >= n
  {
    if gap + del > MAX_GAP + n then Removed(r, pt + n + MAX_GAP, (gap + del) - (MAX_GAP + n)) else r
  }

  /** And then cleared where it was not gap before. */
  function Cleared(r: string, pt: nat, gap: nat, n: nat, gap': nat): string {
    if Max(gap, n) < n + gap' <= |r| - pt then Overlay(r, pt + Max(gap, n), Fill(n + gap' - Max(gap, n), '\0')) else r
  }

  /** q is r without the `skip` bytes from `at` on. */
  predicate IsCut(q: string, r: string, at: nat, skip: nat) {
    && at <= |q| && |q| + skip == |r|
    && (forall i :: 0 <= i < at ==> q[i] == r[i])
    && (forall i :: at <= i < |q| ==> q[i] == r[i + skip])
  }

  lemma CutAt(r: string, pt: nat, gap: nat, del: nat, n: nat)
    requires pt + gap + del <= |r| && gap + del >= n
    ensures var gap' := GapAfterReplace(gap, del, n);
            IsCut(Cut(r, pt, gap, del, n), r, pt + n + gap', (gap + del) - (n + gap'))
  {
  }

  /** The bytes around point after the gap has been resized, in each of the
      three branches of replace_estr. */
  function Resized(r: string, pt: nat, gap: nat, del: nat, n: nat): string
    requires pt + gap + del <= |r|
  {
    if gap + del < n then Inserted(r, pt, n + MIN_GAP - (gap + del))
    else Cleared(Cut(r, pt, gap, del, n), pt, gap, n, GapAfterReplace(gap, del, n))
  }

  /** The bytes c hold the text after a replace, with the new gap after the
      new point. */
  predicate IsReplacement(c: string, text: string, hole: string, pt: nat, del: nat, put: string, n: nat) {
    && pt + del <= |text| && n == |put|
    && c == Bytes(Splice(text, pt, del, put), pt + n, HoleAfterReplace(hole, text[pt..pt + del], n))
  }

  /** Writing put over w at pt makes such bytes. */
  predicate Replaced(w: string, text: string, hole: string, pt: nat, del: nat, put: string) {
    pt + |put| <= |w| && IsReplacement(Overlay(w, pt, put), text, hole, pt, del, put, |put|)
  }

  /** Writing the new bytes over the resized ones gives the new text, with a
      gap of the new size after the new point. */
  lemma ReplaceBytes(text: string, hole: string, pt: nat, del: nat, put: string)
    requires pt + del <= |text|
    ensures Replaced(Resized(Bytes(text, pt, hole), pt, |hole|, del, |put|), text, hole, pt, del, put)
  {
    hide Replaced, Inserted, Cut, Cleared;
    var r := Bytes(text, pt, hole);
    var w := Resized(r, pt, |hole|, del, |put|);
    if |hole| + del < |put| {
      OpenedBytes(w, text, hole, pt, del, put);
    } else {
      CutAt(r, pt, |hole|, del, |put|);
      ClearedBytes(w, Cut(r, pt, |hole|, del, |put|), text, hole, pt, del, put);
    }
  }

  lemma OpenedBytes(w: string, text: string, hole: string, pt: nat, del: nat, put: string)
    requires pt + del <= |text| && |hole| + del < |put|
    requires w == Inserted(Bytes(text, pt, hole), pt, |put| + MIN_GAP - (|hole| + del))
    ensures Replaced(w, text, hole, pt, del, put)
  {
  }

  lemma ClearedBytes(w: string, q: string, text: string, hole: string, pt: nat, del: nat, put: string)
    requires pt + del <= |text| && |hole| + del >= |put|
    requires var gap' := GapAfterReplace(|hole|, del, |put|);
             && IsCut(q, Bytes(text, pt, hole), pt + |put| + gap', (|hole| + del) - (|put| + gap'))
             && w == Cleared(q, pt, |hole|, |put|, gap')
    ensures Replaced(w, text, hole, pt, del, put)
  {
    var n, gap' := |put|, GapAfterReplace(|hole|, del, |put|);
    var v := Overlay(w, pt, put);
    var b := Bytes(Splice(text, pt, del, put), pt + n, HoleAfterReplace(hole, text[pt..pt + del], n));
    forall i | 0 <= i < |v|
      ensures v[i] == b[i]
    {
      if i < pt || pt + n <= i < pt + n + gap' {
        assert q[i] == Bytes(text, pt, hole)[i];
      } else if i >= pt + n + gap' {
        assert q[i] == Bytes(text, pt, hole)[i + ((|hole| + del) - (n + gap'))];
      }
    }
  }

  /** What get_buffer_region cuts out of the bytes either side of the gap. */
  function Region(r: string, pt: nat, gap: nat, start: nat, end: nat): string
    requires pt + gap <= |r| && start <= end && end + gap <= |r|
  {
    (if start < pt then r[start..Min(end, pt)] else "")
    + (if end > pt then r[Max(start, pt) + gap..end + gap] else "")
  }

  lemma RegionOfBytes(text: string, hole: string, pt: nat, start: nat, end: nat)
    requires pt <= |text| && start <= end <= |text|
    ensures Region(Bytes(text, pt, hole), pt, |hole|, start, end) == text[start..end]
  {
    var r, mid := Bytes(text, pt, hole), Max(start, pt);
    if start < pt {
      assert r[start..Min(end, pt)] == text[start..Min(end, pt)];
    }
    if end > pt {
      var a, b := r[mid + |hole|..end + |hole|], text[mid..end];
      forall i | 0 <= i < |b|
        ensures a[i] == b[i]
      {
        assert a[i] == r[mid + |hole| + i];
      }
      assert a == b;
    }
  }

  // ---------------------------------------------------------------------
  // Markers
  // ---------------------------------------------------------------------

  /** The marker loop of replace_estr, in size_t arithmetic. */
  function AdjustOffset(o: nat, start: nat, newlen: nat, del: nat): nat {
    if o > start then Max(start, (o + newlen - del) % SIZE_MODULUS) else o
  }

  /** A marker at or before the start of the replaced text stays, one after it
      moves with the text, one inside keeps its distance from the end, as far
      as the new text reaches; but if the sum wraps it goes far beyond. */
  lemma MarkerMoves(o: nat, start: nat, newlen: nat, del: nat)
    requires start < SIZE_MODULUS && o + newlen < SIZE_MODULUS && del < SIZE_MODULUS
    ensures var o' := AdjustOffset(o, start, newlen, del);
            && (o <= start ==> o' == o)
            && (o > start && o >= start + del ==> o' == o + newlen - del)
            && (start < o < start + del && o + newlen >= del ==>
                  o' <= start + newlen && start + newlen - o' == Min(newlen, start + del - o))
            && (start < o && o + newlen < del ==> o' == Max(start, SIZE_MODULUS - (del - o - newlen)))
  {
    if o > start && o + newlen < del {
      assert (o + newlen - del) % SIZE_MODULUS == o + newlen - del + SIZE_MODULUS;
    }
  }

  /** As long as neither sum wraps, markers keep their order. */
  lemma MarkerOrder(o: nat, p: nat, start: nat, newlen: nat, del: nat)
    requires o <= p && start < SIZE_MODULUS && p + newlen < SIZE_MODULUS && del < SIZE_MODULUS
    requires o > start ==> o + newlen >= del
    requires p > start ==> p + newlen >= del
    ensures AdjustOffset(o, start, newlen, del) <= AdjustOffset(p, start, newlen, del)
  {
    MarkerMoves(o, start, newlen, del);
    MarkerMoves(p, start, newlen, del);
  }

  /** A marker of a buffer of `size` bytes is still inside the buffer after
      the replace if and only if its sum does not wrap. */
  lemma MarkerInsideIff(o: nat, start: nat, newlen: nat, del: nat, size: nat)
    requires o <= size && start + del <= size && size + newlen < SIZE_MODULUS
    ensures AdjustOffset(o, start, newlen, del) <= size - del + newlen
            <==> (o > start ==> o + newlen >= del)
  {
    if o > start && o + newlen < del {
      assert (o + newlen - del) % SIZE_MODULUS == o + newlen - del + SIZE_MODULUS;
    }
  }
}
