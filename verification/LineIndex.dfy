/** Line search through the gap. The bytes of a buffer are its text with a
    gap of g bytes after point, and the line functions search those bytes as
    if the gap were not there (src/buffer.c:110-138, 201-229). */
module LineIndex {
  import opened Basics
  import opened Eol

  /** The bytes held by a buffer whose text is text and whose gap is g. */
  function Bytes(text: string, pt: nat, g: string): string
    requires pt <= |text|
  {
    seq(|text| + |g|, i requires 0 <= i < |text| + |g| =>
      if i < pt then text[i] else if i < pt + |g| then g[i - pt] else text[i - |g|])
  }

  function RealoToO(pt: nat, gap: nat, o: nat): nat {
    if o < pt + gap then Min(o, pt) else o - gap
  }

  function OToRealo(pt: nat, gap: nat, o: nat): nat {
    if o < pt then o else o + gap
  }

  /** The four line queries, made on the bytes. */
  function StartInBytes(raw: string, e: Eol, pt: nat, gap: nat, o: nat): nat
    requires OToRealo(pt, gap, o) <= |raw|
  {
    RealoToO(pt, gap, StartOfLine(raw, e, OToRealo(pt, gap, o)))
  }

  function EndInBytes(raw: string, e: Eol, pt: nat, gap: nat, o: nat): nat
    requires OToRealo(pt, gap, o) <= |raw|
  {
    RealoToO(pt, gap, EndOfLine(raw, e, OToRealo(pt, gap, o)))
  }

  function PrevInBytes(raw: string, e: Eol, pt: nat, gap: nat, o: nat): Option<nat>
    requires OToRealo(pt, gap, o) <= |raw|
  {
    var p := PrevLine(raw, e, OToRealo(pt, gap, o));
    if p.None? then None else Some(RealoToO(pt, gap, p.value))
  }

  function NextInBytes(raw: string, e: Eol, pt: nat, gap: nat, o: nat): Option<nat>
    requires OToRealo(pt, gap, o) <= |raw|
  {
    var n := NextLine(raw, e, OToRealo(pt, gap, o));
    if n.None? then None else Some(RealoToO(pt, gap, n.value))
  }

  /** All four queries at o give what they give on the text itself. */
  predicate Agree(text: string, e: Eol, pt: nat, g: string, o: nat)
    requires pt <= |text| && o <= |text|
  {
    var raw := Bytes(text, pt, g);
    && StartInBytes(raw, e, pt, |g|, o) == StartOfLine(text, e, o)
    && EndInBytes(raw, e, pt, |g|, o) == EndOfLine(text, e, o)
    && PrevInBytes(raw, e, pt, |g|, o) == PrevLine(text, e, o)
    && NextInBytes(raw, e, pt, |g|, o) == NextLine(text, e, o)
  }

  /** Point lies between the two bytes of a CRLF. */
  predicate SplitsEol(text: string, e: Eol, pt: nat) {
    e.CRLF? && EolAt(text, e, pt - 1)
  }

  /** The gap is harmless: it splits no end-of-line of the text, and no
      end-of-line shows up in the bytes that touches the gap. */
  ghost predicate Transparent(text: string, e: Eol, pt: nat, g: string)
    requires pt <= |text|
  {
    g != "" ==>
      && !SplitsEol(text, e, pt)
      && forall j :: pt - EolLen(e) < j < pt + |g| ==> !EolAt(Bytes(text, pt, g), e, j)
  }

  lemma EolBefore(text: string, e: Eol, pt: nat, g: string, j: int)
    requires pt <= |text| && j + EolLen(e) <= pt
    ensures EolAt(Bytes(text, pt, g), e, j) <==> EolAt(text, e, j)
  {
  }

  lemma EolAfter(text: string, e: Eol, pt: nat, g: string, j: nat)
    requires pt <= |text| && pt <= j
    ensures EolAt(Bytes(text, pt, g), e, j + |g|) <==> EolAt(text, e, j)
  {
    assert forall k :: pt <= k < |text| ==> Bytes(text, pt, g)[k + |g|] == text[k];
  }

  // ---------------------------------------------------------------------
  // Harmless gaps
  // ---------------------------------------------------------------------

  /** Where an offset that is not inside an end-of-line ends up. */
  function Image(pt: nat, gap: nat, o: nat): nat {
    if o <= pt then o else o + gap
  }

  lemma EndAgrees(text: string, e: Eol, pt: nat, g: string, o: nat)
    requires pt <= |text| && o <= |text| && g != "" && Transparent(text, e, pt, g)
    ensures var raw := Bytes(text, pt, g);
            var r := EndOfLine(text, e, o);
            EndOfLine(raw, e, OToRealo(pt, |g|, o)) == if r == |text| then |raw| else OToRealo(pt, |g|, r)
  {
    var raw := Bytes(text, pt, g);
    var r := EndOfLine(text, e, o);
    var img := if r == |text| then |raw| else OToRealo(pt, |g|, r);
    forall k | OToRealo(pt, |g|, o) <= k < img
      ensures !EolAt(raw, e, k)
    {
      NoNewEol(text, e, pt, g, k);
      assert o <= k < r ==> !EolAt(text, e, k);
      assert o <= k - |g| < r ==> !EolAt(text, e, k - |g|);
    }
    if r < |text| {
      OldEol(text, e, pt, g, r);
    }
    EndOfLineUnique(raw, e, OToRealo(pt, |g|, o), img);
  }

  /** An end-of-line in the bytes is one of the text, before or after. */
  lemma NoNewEol(text: string, e: Eol, pt: nat, g: string, k: nat)
    requires pt <= |text| && g != "" && Transparent(text, e, pt, g)
    ensures EolAt(Bytes(text, pt, g), e, k) ==>
              if k < pt then k + EolLen(e) <= pt && EolAt(text, e, k)
              else k >= pt + |g| && EolAt(text, e, k - |g|)
  {
    if k + EolLen(e) <= pt {
      EolBefore(text, e, pt, g, k);
    } else if k >= pt + |g| {
      EolAfter(text, e, pt, g, k - |g|);
    }
  }

  /** An end-of-line of the text is one in the bytes. */
  lemma OldEol(text: string, e: Eol, pt: nat, g: string, r: nat)
    requires pt <= |text| && g != "" && Transparent(text, e, pt, g)
    requires EolAt(text, e, r)
    ensures r < pt ==> r + EolLen(e) <= pt
    ensures EolAt(Bytes(text, pt, g), e, OToRealo(pt, |g|, r))
  {
    assert r < pt < r + EolLen(e) ==> r == pt - 1 && SplitsEol(text, e, pt);
    if r + EolLen(e) <= pt {
      EolBefore(text, e, pt, g, r);
    } else {
      EolAfter(text, e, pt, g, r);
    }
  }

  predicate StartIs(s: string, e: Eol, o: nat, r: nat) {
    o <= |s| && StartOfLine(s, e, o) == r
  }

  lemma NoneSinceStart(text: string, e: Eol, pt: nat, g: string, o: nat, k: int)
    requires pt <= |text| && o <= |text| && g != "" && Transparent(text, e, pt, g)
    requires Image(pt, |g|, StartOfLine(text, e, o)) - EolLen(e) < k <= OToRealo(pt, |g|, o) - EolLen(e)
    ensures !EolAt(Bytes(text, pt, g), e, k)
  {
    hide Transparent, StartOfLine, Bytes;
    var s, m := StartOfLine(text, e, o), EolLen(e);
    if k >= 0 {
      NoNewEol(text, e, pt, g, k);
      assert s - m < k <= o - m ==> !EolAt(text, e, k);
      assert s - m < k - |g| <= o - m ==> !EolAt(text, e, k - |g|);
    }
  }

  lemma StartAgrees(text: string, e: Eol, pt: nat, g: string, o: nat)
    requires pt <= |text| && o <= |text| && g != "" && Transparent(text, e, pt, g)
    ensures StartIs(Bytes(text, pt, g), e, OToRealo(pt, |g|, o), Image(pt, |g|, StartOfLine(text, e, o)))
  {
    hide Transparent, StartOfLine;
    var raw := Bytes(text, pt, g);
    var s, m := StartOfLine(text, e, o), EolLen(e);
    var img := Image(pt, |g|, s);
    if s > 0 {
      OldEol(text, e, pt, g, s - m);
      assert OToRealo(pt, |g|, s - m) == img - m;
    }
    forall k | img - m < k <= OToRealo(pt, |g|, o) - m
      ensures !EolAt(raw, e, k)
    {
      NoneSinceStart(text, e, pt, g, o, k);
    }
    StartOfLineUnique(raw, e, OToRealo(pt, |g|, o), img);
  }

  /** Through a harmless gap, all four queries refine those on the text. */
  lemma TransparentAgrees(text: string, e: Eol, pt: nat, g: string, o: nat)
    requires pt <= |text| && o <= |text| && Transparent(text, e, pt, g)
    ensures Agree(text, e, pt, g, o)
  {
    if g == "" {
      NoGapAgrees(text, e, pt, o);
    } else {
      StartAgrees(text, e, pt, g, o);
      EndAgrees(text, e, pt, g, o);
      PrevAgrees(text, e, pt, g, o);
      NextAgrees(text, e, pt, g, o);
    }
  }

  lemma NoGapAgrees(text: string, e: Eol, pt: nat, o: nat)
    requires pt <= |text| && o <= |text|
    ensures Agree(text, e, pt, "", o)
  {
    assert Bytes(text, pt, "") == text;
    assert OToRealo(pt, 0, o) == o;
    assert forall x: nat {:trigger RealoToO(pt, 0, x)} :: RealoToO(pt, 0, x) == x;
  }

  lemma PrevAgrees(text: string, e: Eol, pt: nat, g: string, o: nat)
    requires pt <= |text| && o <= |text| && g != "" && Transparent(text, e, pt, g)
    ensures PrevInBytes(Bytes(text, pt, g), e, pt, |g|, o) == PrevLine(text, e, o)
  {
    hide EolAt, StartOfLine, Transparent, Bytes;
    var raw, a := Bytes(text, pt, g), OToRealo(pt, |g|, o);
    StartAgrees(text, e, pt, g, o);
    var s := StartOfLine(text, e, o);
    if s > 0 {
      var p := s - EolLen(e);
      var q := StartOfLine(text, e, p);
      OldEol(text, e, pt, g, p);
      StartAgrees(text, e, pt, g, p);
      PrevByStart(text, e, o, s, p, q);
      PrevByStart(raw, e, a, Image(pt, |g|, s), OToRealo(pt, |g|, p), Image(pt, |g|, q));
      ImageBack(raw, e, pt, |g|, o, q);
    }
  }

  lemma ImageBack(raw: string, e: Eol, pt: nat, gap: nat, o: nat, q: nat)
    requires gap > 0 && OToRealo(pt, gap, o) <= |raw|
    requires PrevLine(raw, e, OToRealo(pt, gap, o)) == Some(Image(pt, gap, q))
    ensures PrevInBytes(raw, e, pt, gap, o) == Some(q)
  {
  }

  /** The previous line is two line starts, one after the other. */
  lemma PrevByStart(s: string, e: Eol, o: nat, so: nat, p: nat, q: nat)
    requires StartIs(s, e, o, so) && so > 0 && p == so - EolLen(e) && StartIs(s, e, p, q)
    ensures PrevLine(s, e, o) == Some(q)
  {
  }

  lemma NextAgrees(text: string, e: Eol, pt: nat, g: string, o: nat)
    requires pt <= |text| && o <= |text| && g != "" && Transparent(text, e, pt, g)
    ensures NextInBytes(Bytes(text, pt, g), e, pt, |g|, o) == NextLine(text, e, o)
  {
    EndAgrees(text, e, pt, g, o);
    var r := EndOfLine(text, e, o);
    if r < |text| {
      OldEol(text, e, pt, g, r);
    }
  }

  // ---------------------------------------------------------------------
  // Harmful gaps
  // ---------------------------------------------------------------------

  /** A line that starts in the bytes no earlier than s, seen from outside. */
  lemma StartAtLeast(text: string, e: Eol, pt: nat, g: string, j: nat, s: nat)
    requires pt <= |text| && s <= pt && s <= j <= |text| + |g|
    requires s > 0 ==> EolLen(e) <= s && EolAt(text, e, s - EolLen(e))
    ensures RealoToO(pt, |g|, StartOfLine(Bytes(text, pt, g), e, j)) >= s
  {
    if s > 0 {
      EolBefore(text, e, pt, g, s - EolLen(e));
      assert EolAt(Bytes(text, pt, g), e, s - EolLen(e));
    }
  }

  /** The last end-of-line of s that starts in lo..hi, if there is one. */
  lemma {:induction false} LastEol(s: string, e: Eol, lo: int, hi: int) returns (j: int)
    requires exists k :: lo <= k <= hi && EolAt(s, e, k)
    ensures lo <= j <= hi && EolAt(s, e, j)
    ensures forall k :: j < k <= hi ==> !EolAt(s, e, k)
    decreases hi - lo
  {
    if EolAt(s, e, hi) {
      j := hi;
    } else {
      var k :| lo <= k <= hi && EolAt(s, e, k);
      j := LastEol(s, e, lo, hi - 1);
    }
  }

  /** An end-of-line that lies in the gap, or runs into it, makes the previous
      line of point wrong. */
  lemma SpuriousInGap(text: string, e: Eol, pt: nat, g: string)
    requires pt <= |text| && g != ""
    requires exists j :: pt - EolLen(e) < j <= pt + |g| - EolLen(e) && EolAt(Bytes(text, pt, g), e, j)
    ensures PrevInBytes(Bytes(text, pt, g), e, pt, |g|, pt) != PrevLine(text, e, pt)
  {
    hide EolAt, StartOfLine, PrevInBytes;
    var raw, m := Bytes(text, pt, g), EolLen(e);
    var j := LastEol(raw, e, pt - m + 1, pt + |g| - m);
    StartOfLineUnique(raw, e, pt + |g|, j + m);
    var s := StartOfLine(text, e, pt);
    StartBeforeSpurious(text, e, pt, g, j);
    StartAtLeast(text, e, pt, g, j, s);
    LatePrev(text, raw, e, pt, |g|, pt, j, s);
  }

  /** A previous line that starts no earlier than this one is wrong. */
  lemma LatePrev(text: string, raw: string, e: Eol, pt: nat, gap: nat, o: nat, j: nat, s: nat)
    requires o <= |text| && s == StartOfLine(text, e, o) && j <= |raw|
    requires StartIs(raw, e, OToRealo(pt, gap, o), j + EolLen(e))
    requires RealoToO(pt, gap, StartOfLine(raw, e, j)) >= s
    ensures PrevInBytes(raw, e, pt, gap, o) != PrevLine(text, e, o)
  {
    hide StartOfLine, EolAt;
  }

  lemma StartBeforeSpurious(text: string, e: Eol, pt: nat, g: string, j: nat)
    requires pt <= |text| && pt - EolLen(e) < j && EolAt(Bytes(text, pt, g), e, j)
    ensures StartOfLine(text, e, pt) <= j
  {
    assert j < pt ==> Bytes(text, pt, g)[j] == text[j];
  }

  /** A CRLF made of the last gap byte and the byte after it, when the text
      has no CRLF there, makes the previous line of the next offset wrong. */
  lemma SpuriousAfterGap(text: string, e: Eol, pt: nat, g: string)
    requires pt < |text| && g != "" && e.CRLF? && !SplitsEol(text, e, pt)
    requires EolAt(Bytes(text, pt, g), e, pt + |g| - 1)
    ensures PrevInBytes(Bytes(text, pt, g), e, pt, |g|, pt + 1) != PrevLine(text, e, pt + 1)
  {
    var raw, j := Bytes(text, pt, g), pt + |g| - 1;
    assert StartOfLine(raw, e, pt + 1 + |g|) == j + 2;
    var s := StartOfLine(text, e, pt + 1);
    StartAtLeast(text, e, pt, g, j, s);
    LatePrev(text, raw, e, pt, |g|, pt + 1, j, s);
  }

  /** A CRLF of the text that point splits hides the end of its line. */
  lemma SplitHidesEnd(text: string, e: Eol, pt: nat, g: string)
    requires pt <= |text| && g != "" && SplitsEol(text, e, pt)
    requires forall j :: pt - 1 <= j < pt + |g| - 1 ==> !EolAt(Bytes(text, pt, g), e, j)
    ensures EndInBytes(Bytes(text, pt, g), e, pt, |g|, pt - 1) != EndOfLine(text, e, pt - 1)
  {
  }

  /** The line functions see the text through the gap, at every offset, if
      and only if the gap is harmless. */
  lemma LineIndexIff(text: string, e: Eol, pt: nat, g: string)
    requires pt <= |text|
    ensures Transparent(text, e, pt, g) <==> forall o :: 0 <= o <= |text| ==> Agree(text, e, pt, g, o)
  {
    var raw, m := Bytes(text, pt, g), EolLen(e);
    if Transparent(text, e, pt, g) {
      forall o | 0 <= o <= |text|
        ensures Agree(text, e, pt, g, o)
      {
        TransparentAgrees(text, e, pt, g, o);
      }
    } else if exists j :: pt - m < j <= pt + |g| - m && EolAt(raw, e, j) {
      SpuriousInGap(text, e, pt, g);
      assert !Agree(text, e, pt, g, pt);
    } else if SplitsEol(text, e, pt) {
      SplitHidesEnd(text, e, pt, g);
      assert !Agree(text, e, pt, g, pt - 1);
    } else {
      SpuriousAfterGap(text, e, pt, g);
      assert !Agree(text, e, pt, g, pt + 1);
    }
  }

  /** No byte of s can be part of an end-of-line. */
  predicate Quiet(s: string) {
    forall i :: 0 <= i < |s| ==> s[i] != '\r' && s[i] != '\n'
  }

  /** A gap of such bytes, cleared or not, is harmless unless point splits a
      CRLF. */
  lemma QuietGapIff(text: string, e: Eol, pt: nat, g: string)
    requires pt <= |text| && Quiet(g)
    ensures Transparent(text, e, pt, g) <==> g == "" || !SplitsEol(text, e, pt)
  {
    var raw := Bytes(text, pt, g);
    assert forall j :: pt <= j < pt + |g| ==> raw[j] == g[j - pt];
  }

  /** With point between the bytes of a CRLF, its line seems not to end there. */
  lemma SplitCrlfFails()
    ensures !Transparent("\r\n", CRLF, 1, "\0") && EndInBytes(Bytes("\r\n", 1, "\0"), CRLF, 1, 1, 0) == 2
  {
    QuietGapIff("\r\n", CRLF, 1, "\0");
    EndOfLineUnique(Bytes("\r\n", 1, "\0"), CRLF, 0, 3);
  }
}
