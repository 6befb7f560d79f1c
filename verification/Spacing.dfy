/** White space around point, over the plain text of a buffer and the offsets
    of its markers (src/line.c:177-240). */
module Spacing {
  import opened Basics
  import opened Eol
  import opened Gap
  import opened Loops

  /** The text, point, the markers, and whether edits are refused. */
  datatype Doc = Doc(text: string, pt: nat, marks: seq<nat>, readonly: bool)

  predicate Proper(d: Doc) {
    d.pt <= |d.text| && forall i :: 0 <= i < |d.marks| ==> d.marks[i] <= |d.text|
  }

  /** isspace in the C locale. */
  predicate IsSpace(c: char) { c == ' ' || 9 <= c as int <= 13 }

  predicate Blank(s: string) {
    forall i :: 0 <= i < |s| ==> IsSpace(s[i])
  }

  /** What is left of a string without its white space. */
  function NonSpace(s: string): string {
    if s == "" then ""
    else
      var front := NonSpace(s[..|s| - 1]);
      if IsSpace(s[|s| - 1]) then front else front + [s[|s| - 1]]
  }

  lemma {:induction false} NonSpaceConcat(a: string, b: string)
    ensures NonSpace(a + b) == NonSpace(a) + NonSpace(b)
  {
    if b == "" {
      assert a + b == a;
    } else {
      NonSpaceConcat(a, b[..|b| - 1]);
      assert (a + b)[..|a + b| - 1] == a + b[..|b| - 1];
    }
  }

  lemma {:induction false} NonSpaceBlank(s: string)
    requires Blank(s)
    ensures NonSpace(s) == ""
  {
    if s != "" {
      NonSpaceBlank(s[..|s| - 1]);
    }
  }

  /** Trading white space for white space keeps everything else, in order. */
  lemma BlankSplice(t: string, o: nat, del: nat, put: string)
    requires o + del <= |t| && Blank(t[o..o + del]) && Blank(put)
    ensures NonSpace(Splice(t, o, del, put)) == NonSpace(t)
  {
    SpliceIs(t, o, del, put);
    SpliceIs(t, o, del, t[o..o + del]);
    assert Splice(t, o, del, t[o..o + del]) == t;
    NonSpaceBlank(put);
    NonSpaceBlank(t[o..o + del]);
    NonSpaceConcat(t[..o], put);
    NonSpaceConcat(t[..o] + put, t[o + del..]);
    NonSpaceConcat(t[..o], t[o..o + del]);
    NonSpaceConcat(t[..o] + t[o..o + del], t[o + del..]);
  }

  // ---------------------------------------------------------------------
  // Editing with markers
  // ---------------------------------------------------------------------

  /** Where a mark goes when n bytes replace del bytes at o. */
  function Shift(m: nat, o: nat, n: nat, del: nat): (r: nat)
    ensures m <= o ==> r == m
    ensures m >= o + del && m > o ==> r == m + n - del
    ensures o < m < o + del ==> o <= r <= o + n
  {
    if m > o then Max(o, m + n - del) else m
  }

  /** No mark is so near the start of the buffer that its offset would wrap. */
  predicate NoWrap(marks: seq<nat>, o: nat, n: nat, del: nat) {
    forall i :: 0 <= i < |marks| && marks[i] > o ==> marks[i] + n >= del
  }

  /** Then Shift is what the marker loop of the buffer computes. */
  lemma ShiftIsAdjust(m: nat, o: nat, n: nat, del: nat)
    requires m + n < SIZE_MODULUS && (m > o ==> m + n >= del)
    ensures Shift(m, o, n, del) == AdjustOffset(m, o, n, del)
  {
  }

  function Shifted(marks: seq<nat>, o: nat, n: nat, del: nat): seq<nat> {
    seq(|marks|, i requires 0 <= i < |marks| => Shift(marks[i], o, n, del))
  }

  /** The text and the marks with other bytes in place of those from o on,
      and point after them. */
  function EditAt(d: Doc, o: nat, del: nat, put: string): (r: Doc)
    requires Proper(d) && o + del <= |d.text|
    ensures Proper(r) && r.pt == o + |put| && |r.marks| == |d.marks| && r.readonly == d.readonly
  {
    Doc(Splice(d.text, o, del, put), o + |put|, Shifted(d.marks, o, |put|, del), d.readonly)
  }

  /** replace_estr, when no mark would wrap. */
  function ReplaceEstr(d: Doc, del: nat, put: string): (r: Doc)
    requires Proper(d) && d.pt + del <= |d.text| && (d.readonly || NoWrap(d.marks, d.pt, |put|, del))
    ensures Proper(r)
  {
    if d.readonly then d else EditAt(d, d.pt, del, put)
  }

  /** A blank stretch of d was replaced by blanks. */
  predicate Respaced(d: Doc, o: nat, del: nat, put: string, r: Doc) {
    && Proper(d) && o + del <= |d.text|
    && Blank(d.text[o..o + del]) && Blank(put) && r == EditAt(d, o, del, put)
  }

  /** One more byte deleted, after the stretch or before it. */
  lemma DeleteAfter(d: Doc, o: nat, k: nat, r: Doc)
    requires Respaced(d, o, k, "", r) && o + k < |d.text| && IsSpace(d.text[o + k])
    ensures Respaced(d, o, k + 1, "", EditAt(r, o, 1, ""))
  {
    var q := EditAt(r, o, 1, "");
    assert q.text == Splice(d.text, o, k + 1, "");
    assert q.marks == Shifted(d.marks, o, 0, k + 1);
    assert d.text[o..o + k + 1] == d.text[o..o + k] + [d.text[o + k]];
  }

  lemma DeleteBefore(d: Doc, o: nat, k: nat, r: Doc)
    requires Respaced(d, o, k, "", r) && o > 0 && IsSpace(r.text[o - 1])
    ensures Respaced(d, o - 1, k + 1, "", EditAt(r, o - 1, 1, ""))
  {
    var q := EditAt(r, o - 1, 1, "");
    assert q.text == Splice(d.text, o - 1, k + 1, "");
    assert q.marks == Shifted(d.marks, o - 1, 0, k + 1);
    FirstOf(d.text, o - 1, o + k);
    assert r.text[o - 1] == d.text[o - 1];
  }

  lemma FirstOf(t: string, i: nat, j: nat)
    requires i < j <= |t|
    ensures t[i..j] == [t[i]] + t[i + 1..j]
  {
  }

  lemma PutWhereDeleted(d: Doc, o: nat, k: nat, r: Doc, put: string)
    requires Respaced(d, o, k, "", r) && Blank(put)
    ensures EditAt(r, o, 0, put).text == Splice(d.text, o, k, put)
    ensures NonSpace(EditAt(r, o, 0, put).text) == NonSpace(d.text)
  {
    assert EditAt(r, o, 0, put).text == Splice(d.text, o, k, put);
    BlankSplice(d.text, o, k, put);
  }

  // ---------------------------------------------------------------------
  // Horizontal space
  // ---------------------------------------------------------------------

  /** delete_char on a blank, or at the end of a line. */
  method DeleteChar(d: Doc, e: Eol) returns (r: Doc)
    requires Proper(d) && d.pt < |d.text|
    requires var n := if EndOfLine(d.text, e, d.pt) == d.pt then EolLen(e) else 1;
             d.readonly || NoWrap(d.marks, d.pt, 0, n)
    ensures var n := if EndOfLine(d.text, e, d.pt) == d.pt then EolLen(e) else 1;
            d.pt + n <= |d.text| && r == if d.readonly then d else EditAt(d, d.pt, n, "")
  {
    if EndOfLine(d.text, e, d.pt) == d.pt {
      r := ReplaceEstr(d, EolLen(e), "");
    } else {
      r := ReplaceEstr(d, 1, "");
    }
  }

  /** The start of a line depends on what is before it, and so on. */
  lemma StartByPrefix(t: string, t': string, e: Eol, o: nat)
    requires o <= |t| && o <= |t'| && t[..o] == t'[..o]
    ensures StartOfLine(t, e, o) == StartOfLine(t', e, o)
  {
    forall k | 0 <= k <= o - EolLen(e)
      ensures EolAt(t, e, k) == EolAt(t', e, k)
    {
      assert forall i :: 0 <= i < o ==> t[i] == t[..o][i] && t'[i] == t'[..o][i];
    }
    StartOfLineUnique(t, e, o, StartOfLine(t', e, o));
  }

  lemma StartSame(t: string, t': string, e: Eol, o: nat, p: nat)
    requires o <= |t| && StartOfLine(t, e, o) <= p <= o && p <= |t'| && t[..p] == t'[..p]
    ensures StartOfLine(t', e, p) == StartOfLine(t, e, o)
  {
    StartOfLineUnique(t, e, p, StartOfLine(t, e, o));
    StartByPrefix(t, t', e, p);
  }

  /** The next thing after point is the end of the line, or not a blank. */
  predicate NoneAfter(t: string, e: Eol, o: nat)
    requires o <= |t|
  {
    EndOfLine(t, e, o) == o || !IsSpace(t[o])
  }

  /** The blank before point, on the same line. */
  predicate BlankBefore(t: string, e: Eol, o: nat)
    requires o <= |t|
  {
    StartOfLine(t, e, o) != o && IsSpace(t[o - 1])
  }

  /** backward_delete_char on such a blank takes one byte, or only moves. */
  method BackwardDelete(d: Doc, e: Eol) returns (r: Doc)
    requires Proper(d) && BlankBefore(d.text, e, d.pt) && (d.readonly || NoneAfter(d.text, e, d.pt))
    ensures r == Cut(d, d.pt - 1) && (d.readonly || NoneAfter(r.text, e, r.pt))
  {
    hide EolAt, StartOfLine, EndOfLine, IsSpace, NoneAfter, Splice, Shifted, EolLen;
    if !d.readonly {
      BlankCut(d, e);
    }
    r := DeleteChar(d.(pt := d.pt - 1), e);
  }

  lemma BlankCut(d: Doc, e: Eol)
    requires Proper(d) && BlankBefore(d.text, e, d.pt) && NoneAfter(d.text, e, d.pt)
    ensures EndOfLine(d.text, e, d.pt - 1) != d.pt - 1
    ensures var r := EditAt(d, d.pt - 1, 1, ""); NoneAfter(r.text, e, r.pt)
  {
    hide Shifted;
    var r := EditAt(d, d.pt - 1, 1, "");
    assert !EolAt(d.text, e, d.pt - 1);
    assert r.text[r.pt..] == d.text[d.pt..];
    assert EolAt(d.text, e, d.pt) ==> EolAt(r.text, e, r.pt);
  }

  /** One byte deleted at o, if that is allowed, with point there. */
  function Cut(d: Doc, o: nat): (r: Doc)
    requires Proper(d) && o < |d.text|
    ensures Proper(r)
  {
    if d.readonly then d.(pt := o) else EditAt(d, o, 1, "")
  }

  /** r is d without one blank stretch of the line around point, and with no
      blank after point. */
  predicate Trimmed(d: Doc, e: Eol, r: Doc, del: nat) {
    && Proper(d) && r.pt <= d.pt <= r.pt + del && Respaced(d, r.pt, del, "", r)
    && StartOfLine(d.text, e, d.pt) <= r.pt && r.pt + del <= EndOfLine(d.text, e, d.pt)
    && NoneAfter(r.text, e, r.pt)
    && (r.pt == d.pt && BlankBefore(d.text, e, d.pt) ==> BlankBefore(r.text, e, r.pt))
  }

  lemma TrimMore(d: Doc, e: Eol, r: Doc, del: nat, r': Doc)
    requires Trimmed(d, e, r, del) && BlankBefore(r.text, e, r.pt)
    requires r' == EditAt(r, r.pt - 1, 1, "") && NoneAfter(r'.text, e, r'.pt)
    ensures Trimmed(d, e, r', del + 1)
  {
    hide Blank, Splice, Shifted, IsSpace, EolAt, StartOfLine, EndOfLine, EditAt, NoneAfter;
    PrefixKept(d, r.pt, del, r);
    StartSame(d.text, r.text, e, d.pt, r.pt);
    DeleteBefore(d, r.pt, del, r);
  }

  lemma PrefixKept(d: Doc, o: nat, del: nat, r: Doc)
    requires Respaced(d, o, del, "", r)
    ensures r.text[..o] == d.text[..o]
  {
  }

  /** The del blanks at a are all there are around o on its line. */
  predicate Maximal(t: string, e: Eol, o: nat, a: nat, del: nat) {
    && o <= |t| && StartOfLine(t, e, o) <= a <= o <= a + del <= EndOfLine(t, e, o)
    && (a == StartOfLine(t, e, o) || !IsSpace(t[a - 1]))
    && (a + del == EndOfLine(t, e, o) || !IsSpace(t[a + del]))
  }

  lemma TrimmedIsMaximal(d: Doc, e: Eol, r: Doc, del: nat)
    requires Trimmed(d, e, r, del) && !BlankBefore(r.text, e, r.pt)
    ensures Maximal(d.text, e, d.pt, r.pt, del)
  {
    hide Blank, Shifted;
    PrefixKept(d, r.pt, del, r);
    StartSame(d.text, r.text, e, d.pt, r.pt);
    assert r.pt > 0 ==> r.text[r.pt - 1] == r.text[..r.pt][r.pt - 1] && d.text[r.pt - 1] == d.text[..r.pt][r.pt - 1];
    SameAfter(d, del, r, e);
    assert EolAt(d.text, e, r.pt + del) ==> EndOfLine(d.text, e, d.pt) <= r.pt + del;
  }

  /** Back over the blanks before o on its line. */
  function BackOver(t: string, e: Eol, o: nat): (r: nat)
    requires o <= |t|
    ensures StartOfLine(t, e, o) <= r <= o && !BlankBefore(t, e, r)
    ensures forall k :: r <= k < o ==> IsSpace(t[k])
  {
    if BlankBefore(t, e, o) then
      StartSame(t, t, e, o, o - 1);
      BackOver(t, e, o - 1)
    else o
  }

  /** delete-horizontal-space. It takes out one blank stretch around point.
      In a read-only buffer, where it ends, it only moves point back. */
  method DeleteHorizontalSpace(d: Doc, e: Eol) returns (r: Doc, del: nat)
    requires Proper(d) && (d.readonly ==> NoneAfter(d.text, e, d.pt))
    ensures !d.readonly ==> Trimmed(d, e, r, del) && !BlankBefore(r.text, e, r.pt)
                            && Maximal(d.text, e, d.pt, r.pt, del)
    ensures d.readonly ==> r == d.(pt := BackOver(d.text, e, d.pt))
  {
    hide NoneAfter, EndOfLine, StartOfLine, EolAt, BlankBefore, Respaced, Trimmed, EditAt, BackOver, IsSpace;
    r, del := DeleteFollowing(d, e);
    TrimStarts(d, e, r, del);
    while BlankBefore(r.text, e, r.pt)
      invariant Trimming(d, e, r, del)
      decreases r.pt
    {
      ghost var was := r;
      OneBefore(r.text, e, r.pt);
      NoneAfterYet(d, e, r, del);
      r := BackwardDelete(r, e);
      if !d.readonly {
        TrimMore(d, e, was, del, r);
        del := del + 1;
      }
    }
    NothingBefore(r.text, e, r.pt);
    if !d.readonly {
      TrimmedIsMaximal(d, e, r, del);
    }
  }

  lemma NoneAfterYet(d: Doc, e: Eol, r: Doc, del: nat)
    requires Trimming(d, e, r, del)
    ensures r.readonly || NoneAfter(r.text, e, r.pt)
  {
  }

  lemma NothingBefore(t: string, e: Eol, o: nat)
    requires o <= |t| && !BlankBefore(t, e, o)
    ensures BackOver(t, e, o) == o
  {
  }

  /** While the second loop runs. */
  predicate Trimming(d: Doc, e: Eol, r: Doc, del: nat) {
    && Proper(d) && Proper(r) && r.readonly == d.readonly
    && if d.readonly then r == d.(pt := r.pt) && BackOver(d.text, e, d.pt) == BackOver(d.text, e, r.pt)
       else Trimmed(d, e, r, del)
  }

  lemma TrimStarts(d: Doc, e: Eol, r: Doc, del: nat)
    requires Respaced(d, d.pt, del, "", r) && NoneAfter(r.text, e, r.pt)
    requires d.pt + del <= EndOfLine(d.text, e, d.pt) && (d.readonly ==> r == d)
    ensures Trimming(d, e, r, del)
  {
    SameBefore(d, del, r, e);
  }

  lemma OneBefore(t: string, e: Eol, o: nat)
    requires o <= |t| && BlankBefore(t, e, o)
    ensures o > 0 && BackOver(t, e, o) == BackOver(t, e, o - 1)
  {
  }

  lemma SameBefore(d: Doc, del: nat, r: Doc, e: Eol)
    requires Respaced(d, d.pt, del, "", r)
    ensures BlankBefore(r.text, e, r.pt) <==> BlankBefore(d.text, e, d.pt)
  {
    PrefixKept(d, d.pt, del, r);
    StartByPrefix(r.text, d.text, e, d.pt);
    assert d.pt > 0 ==> r.text[d.pt - 1] == r.text[..d.pt][d.pt - 1] && d.text[d.pt - 1] == d.text[..d.pt][d.pt - 1];
  }

  lemma SameAfter(d: Doc, del: nat, r: Doc, e: Eol)
    requires Respaced(d, r.pt, del, "", r)
    ensures NoneAfter(r.text, e, r.pt) ==
            (r.pt + del == |d.text| || EolAt(d.text, e, r.pt + del) || !IsSpace(d.text[r.pt + del]))
  {
    assert forall i :: r.pt <= i < |r.text| ==> r.text[i] == d.text[i + del];
    assert EolAt(r.text, e, r.pt) <==> EolAt(d.text, e, r.pt + del);
  }

  method DeleteFollowing(d: Doc, e: Eol) returns (r: Doc, del: nat)
    requires Proper(d) && (d.readonly ==> NoneAfter(d.text, e, d.pt))
    ensures Respaced(d, d.pt, del, "", r) && NoneAfter(r.text, e, r.pt)
    ensures d.pt + del <= EndOfLine(d.text, e, d.pt) && (d.readonly ==> r == d)
  {
    hide IsSpace, EolAt, NoneAfter;
    r, del := d, 0;
    assert Splice(d.text, d.pt, 0, "") == d.text && Shifted(d.marks, d.pt, 0, 0) == d.marks;
    while !NoneAfter(r.text, e, r.pt)
      invariant Respaced(d, d.pt, del, "", r) && d.pt + del <= EndOfLine(d.text, e, d.pt)
      invariant d.readonly ==> r == d
      decreases |r.text|
    {
      OneMoreAfter(d, e, del, r);
      r := DeleteChar(r, e);
      del := del + 1;
    }
  }

  lemma OneMoreAfter(d: Doc, e: Eol, del: nat, r: Doc)
    requires Respaced(d, d.pt, del, "", r) && d.pt + del <= EndOfLine(d.text, e, d.pt)
    requires !NoneAfter(r.text, e, r.pt)
    ensures Respaced(d, d.pt, del + 1, "", EditAt(r, r.pt, 1, ""))
    ensures d.pt + del + 1 <= EndOfLine(d.text, e, d.pt) && EndOfLine(r.text, e, r.pt) != r.pt
  {
    hide Blank, Splice, Shifted, IsSpace;
    SameAfter(d, del, r, e);
    DeleteAfter(d, d.pt, del, r);
  }

  /** just-one-space. */
  method JustOneSpace(d: Doc, e: Eol) returns (r: Doc, a: nat, del: nat)
    requires Proper(d) && (d.readonly ==> NoneAfter(d.text, e, d.pt))
    ensures d.readonly ==> r == d.(pt := BackOver(d.text, e, d.pt))
    ensures !d.readonly ==> OneSpaced(d, e, a, del, r) && NonSpace(r.text) == NonSpace(d.text)
  {
    r, del := DeleteHorizontalSpace(d, e);
    a := r.pt;
    if !d.readonly {
      PutWhereDeleted(d, a, del, r, " ");
    }
    r := ReplaceEstr(r, 0, " ");
  }

  /** The del blanks at a, all those around point on its line, became one
      space. */
  predicate OneSpaced(d: Doc, e: Eol, a: nat, del: nat, r: Doc) {
    && Proper(d) && Maximal(d.text, e, d.pt, a, del) && Blank(d.text[a..a + del])
    && r == EditAt(EditAt(d, a, del, ""), a, 0, " ") && r.text == Splice(d.text, a, del, " ")
  }

  // ---------------------------------------------------------------------
  // When it ends
  // ---------------------------------------------------------------------

  /** The two loops of delete-horizontal-space. */
  function MoreAfter(e: Eol): Doc -> bool {
    (d: Doc) => Proper(d) && !NoneAfter(d.text, e, d.pt)
  }

  function CutAfter(): Doc -> Option<Doc> {
    (d: Doc) => if Proper(d) && d.pt < |d.text| then Some(Cut(d, d.pt)) else Some(d)
  }

  function MoreBefore(e: Eol): Doc -> bool {
    (d: Doc) => Proper(d) && BlankBefore(d.text, e, d.pt)
  }

  function CutBefore(): Doc -> Option<Doc> {
    (d: Doc) => if Proper(d) && d.pt > 0 then Some(Cut(d, d.pt - 1)) else Some(d)
  }

  ghost predicate SpaceEnds(d: Doc, e: Eol) {
    exists r :: EndsIn(MoreAfter(e), CutAfter(), d, r) && Ends(MoreBefore(e), CutBefore(), r)
  }

  lemma BeforeEnds(d: Doc, e: Eol)
    requires Proper(d)
    ensures Ends(MoreBefore(e), CutBefore(), d)
  {
    var r := EndsByMeasure(MoreBefore(e), CutBefore(), d, Proper, (x: Doc) => x.pt);
  }

  /** delete-horizontal-space ends exactly when the buffer may be written or
      no blank follows point on its line. */
  lemma SpaceEndsIff(d: Doc, e: Eol)
    requires Proper(d)
    ensures SpaceEnds(d, e) <==> !d.readonly || NoneAfter(d.text, e, d.pt)
  {
    if !d.readonly || NoneAfter(d.text, e, d.pt) {
      var writable := (x: Doc) => Proper(x) && (x.readonly ==> NoneAfter(x.text, e, x.pt));
      var r := EndsByMeasure(MoreAfter(e), CutAfter(), d, writable, (x: Doc) => |x.text|);
      BeforeEnds(r, e);
    } else {
      NeverEnds(MoreAfter(e), CutAfter(), d, (x: Doc) => x == d);
    }
  }

  /** It hangs with point before the blank of a read-only "a b". */
  lemma ReadOnlyBlankHangs()
    ensures Proper(Doc("a b", 1, [], true)) && !SpaceEnds(Doc("a b", 1, [], true), LF)
  {
    SpaceEndsIff(Doc("a b", 1, [], true), LF);
  }
}
