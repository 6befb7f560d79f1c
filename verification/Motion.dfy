/** Moving point by characters and by lines, over the plain text of a buffer
    (src/buffer.c:723-804, src/editfns.c:69-96). */
module Motion {
  import opened Basics
  import opened Eol
  import opened LineIndex

  /** o is an offset of t that is not inside an end-of-line. */
  predicate Whole(t: string, e: Eol, o: int) {
    0 <= o <= |t| && !SplitsEol(t, e, o)
  }

  // ---------------------------------------------------------------------
  // By characters
  // ---------------------------------------------------------------------

  /** One round of move_char: within a line by a byte, at its end by an
      end-of-line. */
  function Forward(t: string, e: Eol, o: nat): Option<nat>
    requires o <= |t|
  {
    if EndOfLine(t, e, o) != o then Some(o + 1)
    else if o != |t| then Some(StartOfLine(t, e, o + EolLen(e)))
    else None
  }

  function Backward(t: string, e: Eol, o: nat): Option<nat>
    requires o <= |t|
  {
    if StartOfLine(t, e, o) != o then Some(o - 1)
    else if o != 0 then Some(EndOfLine(t, e, o - EolLen(e)))
    else None
  }

  function Step(t: string, e: Eol, o: nat, forward: bool): (r: Option<nat>)
    requires o <= |t|
    ensures r.Some? ==> r.value <= |t|
  {
    if forward then Forward(t, e, o) else Backward(t, e, o)
  }

  /** An end-of-line counts as one step, and nothing is stepped into. */
  lemma ForwardIs(t: string, e: Eol, o: nat)
    requires Whole(t, e, o) && o < |t|
    ensures var p := o + if EolAt(t, e, o) then EolLen(e) else 1;
            Forward(t, e, o) == Some(p) && Whole(t, e, p) && Backward(t, e, p) == Some(o)
  {
  }

  lemma BackwardIs(t: string, e: Eol, o: nat)
    requires Whole(t, e, o) && o > 0
    ensures var p := o - if EolAt(t, e, o - EolLen(e)) then EolLen(e) else 1;
            Backward(t, e, o) == Some(p) && Whole(t, e, p) && Forward(t, e, p) == Some(o)
  {
    if !EolAt(t, e, o - EolLen(e)) {
      assert !EolAt(t, e, o - 1);
    }
  }

  lemma StepBackIs(t: string, e: Eol, o: nat, forward: bool)
    requires Whole(t, e, o) && Step(t, e, o, forward).Some?
    ensures var p := Step(t, e, o, forward).value;
            Whole(t, e, p) && Step(t, e, p, !forward) == Some(o)
  {
    if forward { ForwardIs(t, e, o); } else { BackwardIs(t, e, o); }
  }

  /** move_char: whether it could move all the way, and where it got to. */
  datatype Moved = Moved(ok: bool, o: nat)

  function Steps(t: string, e: Eol, o: nat, n: nat, forward: bool): (r: Moved)
    requires o <= |t|
    ensures r.o <= |t|
    decreases n
  {
    if n == 0 then Moved(true, o)
    else
      var p := Step(t, e, o, forward);
      if p.None? then Moved(false, o) else Steps(t, e, p.value, n - 1, forward)
  }

  function MoveChar(t: string, e: Eol, o: nat, offset: int): (r: Moved)
    requires o <= |t|
    ensures r.o <= |t|
  {
    Steps(t, e, o, if offset >= 0 then offset else -offset, offset >= 0)
  }

  lemma {:induction false} StepsThenStep(t: string, e: Eol, o: nat, n: nat, forward: bool)
    requires o <= |t| && Steps(t, e, o, n, forward).ok
    ensures var p := Steps(t, e, o, n, forward).o;
            Steps(t, e, o, n + 1, forward) == if Step(t, e, p, forward).None? then Moved(false, p)
                                              else Moved(true, Step(t, e, p, forward).value)
    decreases n
  {
    if n > 0 {
      StepsThenStep(t, e, Step(t, e, o, forward).value, n - 1, forward);
    }
  }

  lemma {:induction false} StepsBack(t: string, e: Eol, o: nat, n: nat, forward: bool)
    requires Whole(t, e, o) && Steps(t, e, o, n, forward).ok
    ensures var p := Steps(t, e, o, n, forward).o;
            Whole(t, e, p) && Steps(t, e, p, n, !forward) == Moved(true, o)
    decreases n
  {
    if n > 0 {
      var o1 := Step(t, e, o, forward).value;
      StepBackIs(t, e, o, forward);
      StepsBack(t, e, o1, n - 1, forward);
      StepsThenStep(t, e, Steps(t, e, o, n, forward).o, n - 1, !forward);
    }
  }

  /** Moving by any number of characters and back again is the identity on
      point, when the first move gets all the way. */
  lemma MoveCharBack(t: string, e: Eol, o: nat, offset: int)
    requires Whole(t, e, o) && MoveChar(t, e, o, offset).ok
    ensures MoveChar(t, e, MoveChar(t, e, o, offset).o, -offset) == Moved(true, o)
  {
    StepsBack(t, e, o, if offset >= 0 then offset else -offset, offset >= 0);
  }

  /** And when it does not, it stops at that end of the buffer. */
  lemma {:induction false} StepsStopAtEnd(t: string, e: Eol, o: nat, n: nat, forward: bool)
    requires Whole(t, e, o)
    ensures !Steps(t, e, o, n, forward).ok ==> Steps(t, e, o, n, forward).o == if forward then |t| else 0
    decreases n
  {
    if n > 0 {
      if Step(t, e, o, forward).Some? {
        StepBackIs(t, e, o, forward);
        StepsStopAtEnd(t, e, Step(t, e, o, forward).value, n - 1, forward);
      } else if forward {
        if o < |t| { ForwardIs(t, e, o); }
      } else if o > 0 {
        BackwardIs(t, e, o);
      }
    }
  }

  /** Steps go the way they are meant to, and do not stay where they are. */
  lemma {:induction false} StepsGo(t: string, e: Eol, o: nat, n: nat, forward: bool)
    requires Whole(t, e, o)
    ensures var p := Steps(t, e, o, n, forward).o;
            && (if forward then p >= o else p <= o)
            && (n > 0 && o != (if forward then |t| else 0) ==> p != o)
    decreases n
  {
    if n > 0 && Step(t, e, o, forward).Some? {
      StepBackIs(t, e, o, forward);
      StepsGo(t, e, Step(t, e, o, forward).value, n - 1, forward);
    }
    if forward {
      if o < |t| { ForwardIs(t, e, o); }
    } else if o > 0 {
      BackwardIs(t, e, o);
    }
  }

  /** A positive number of characters moves point forward, a negative one back,
      unless it is at that end of the buffer already; when the move does not
      get all the way it stops at that end. One character is a byte, or a whole
      end-of-line. */
  lemma MoveCharIs(t: string, e: Eol, o: nat, offset: int)
    requires Whole(t, e, o)
    ensures var r := MoveChar(t, e, o, offset);
            && (offset == 0 ==> r == Moved(true, o))
            && (offset > 0 ==> r.o >= o && (o < |t| ==> r.o > o) && (!r.ok ==> r.o == |t|))
            && (offset < 0 ==> r.o <= o && (o > 0 ==> r.o < o) && (!r.ok ==> r.o == 0))
    ensures o < |t| ==> MoveChar(t, e, o, 1) == Moved(true, o + if EolAt(t, e, o) then EolLen(e) else 1)
    ensures o > 0 ==> MoveChar(t, e, o, -1) == Moved(true, o - if EolAt(t, e, o - EolLen(e)) then EolLen(e) else 1)
  {
    var n := if offset >= 0 then offset else -offset;
    StepsGo(t, e, o, n, offset >= 0);
    StepsStopAtEnd(t, e, o, n, offset >= 0);
    if o < |t| {
      ForwardIs(t, e, o);
      StepsThenStep(t, e, o, 0, true);
    }
    if o > 0 {
      BackwardIs(t, e, o);
      StepsThenStep(t, e, o, 0, false);
    }
  }

  // ---------------------------------------------------------------------
  // By lines
  // ---------------------------------------------------------------------

  /** The number of ends-of-line that start before k: the line k is on. */
  function Count(t: string, e: Eol, k: nat): nat {
    if k == 0 then 0 else Count(t, e, k - 1) + if EolAt(t, e, k - 1) then 1 else 0
  }

  lemma {:induction false} CountPlain(t: string, e: Eol, a: nat, b: nat)
    requires a <= b && forall k :: a <= k < b ==> !EolAt(t, e, k)
    ensures Count(t, e, b) == Count(t, e, a)
    decreases b
  {
    if a < b { CountPlain(t, e, a, b - 1); }
  }

  lemma {:induction false} CountMonotone(t: string, e: Eol, a: nat, b: nat)
    requires a <= b
    ensures Count(t, e, a) <= Count(t, e, b)
    decreases b
  {
    if a < b { CountMonotone(t, e, a, b - 1); }
  }

  lemma CountEol(t: string, e: Eol, k: nat)
    requires EolAt(t, e, k)
    ensures Count(t, e, k + EolLen(e)) == Count(t, e, k) + 1
  {
    if e.CRLF? { assert !EolAt(t, e, k + 1); }
  }

  lemma NoEolInside(t: string, e: Eol, o: nat)
    requires Whole(t, e, o)
    ensures forall k :: StartOfLine(t, e, o) <= k < EndOfLine(t, e, o) ==> !EolAt(t, e, k)
  {
    forall k | StartOfLine(t, e, o) <= k < EndOfLine(t, e, o)
      ensures !EolAt(t, e, k)
    {
      assert k == o - 1 && e.CRLF? ==> !EolAt(t, e, k);
    }
  }

  /** Everything on the line of o has the same number. */
  lemma SameLine(t: string, e: Eol, o: nat, x: nat)
    requires Whole(t, e, o) && StartOfLine(t, e, o) <= x <= EndOfLine(t, e, o)
    ensures Count(t, e, x) == Count(t, e, o)
  {
    var so := StartOfLine(t, e, o);
    NoEolInside(t, e, o);
    CountPlain(t, e, so, x);
    CountPlain(t, e, so, o);
  }

  lemma LineIsWhole(t: string, e: Eol, o: nat, x: nat)
    requires Whole(t, e, o) && StartOfLine(t, e, o) <= x <= EndOfLine(t, e, o)
    ensures Whole(t, e, x)
  {
    if x <= o {
      StartIsWhole(t, e, o);
    }
  }

  lemma SameEnds(t: string, e: Eol, o: nat, x: nat)
    requires Whole(t, e, o) && StartOfLine(t, e, o) <= x <= EndOfLine(t, e, o)
    ensures StartOfLine(t, e, x) == StartOfLine(t, e, o) && EndOfLine(t, e, x) == EndOfLine(t, e, o)
  {
    NoEolInside(t, e, o);
    EndOfLineUnique(t, e, x, EndOfLine(t, e, o));
    SameStart(t, e, o, x);
  }

  lemma SameStart(t: string, e: Eol, o: nat, x: nat)
    requires Whole(t, e, o) && StartOfLine(t, e, o) <= x <= EndOfLine(t, e, o)
    requires forall k :: StartOfLine(t, e, o) <= k < EndOfLine(t, e, o) ==> !EolAt(t, e, k)
    ensures StartOfLine(t, e, x) == StartOfLine(t, e, o)
  {
    hide EolAt, StartOfLine, EndOfLine;
    var so := StartOfLine(t, e, o);
    StartIsWhole(t, e, o);
    assert forall k :: so - EolLen(e) < k < so ==> !EolAt(t, e, k);
    StartOfLineUnique(t, e, x, so);
  }

  lemma NextIsNext(t: string, e: Eol, o: nat)
    requires Whole(t, e, o)
    ensures NextLine(t, e, o).Some? <==> Count(t, e, o) < Count(t, e, |t|)
    ensures NextLine(t, e, o).Some? ==>
              var p := NextLine(t, e, o).value; Whole(t, e, p) && Count(t, e, p) == Count(t, e, o) + 1
  {
    var eo := EndOfLine(t, e, o);
    SameLine(t, e, o, eo);
    if eo < |t| {
      CountEol(t, e, eo);
      CountMonotone(t, e, eo + EolLen(e), |t|);
    }
  }

  lemma NoneBefore(t: string, e: Eol)
    ensures Count(t, e, 0) == 0
  {
  }

  lemma CountAtStart(t: string, e: Eol, o: nat)
    requires Whole(t, e, o)
    ensures var so := StartOfLine(t, e, o);
            Whole(t, e, so) && Count(t, e, so) == Count(t, e, o)
  {
    hide Count;
    SameLine(t, e, o, StartOfLine(t, e, o));
    StartIsWhole(t, e, o);
  }

  /** The end-of-line before the start of a line. */
  lemma CountAtPrevEnd(t: string, e: Eol, o: nat)
    requires o <= |t| && StartOfLine(t, e, o) > 0
    ensures var q := StartOfLine(t, e, o) - EolLen(e);
            q >= 0 && Whole(t, e, q) && Count(t, e, q + EolLen(e)) == Count(t, e, q) + 1
  {
    hide Count;
    CountEol(t, e, StartOfLine(t, e, o) - EolLen(e));
  }

  lemma PrevIsPrevious(t: string, e: Eol, o: nat)
    requires Whole(t, e, o)
    ensures PrevLine(t, e, o).Some? <==> Count(t, e, o) > 0
    ensures PrevLine(t, e, o).Some? ==>
              var p := PrevLine(t, e, o).value; Whole(t, e, p) && Count(t, e, p) == Count(t, e, o) - 1
  {
    hide Count, EolAt, StartOfLine;
    var so := StartOfLine(t, e, o);
    CountAtStart(t, e, o);
    NoneBefore(t, e);
    if so > 0 {
      CountAtPrevEnd(t, e, o);
      CountAtStart(t, e, so - EolLen(e));
    }
  }

  lemma StartIsWhole(t: string, e: Eol, o: nat)
    requires o <= |t|
    ensures Whole(t, e, StartOfLine(t, e, o))
  {
  }

  lemma EndIsWhole(t: string, e: Eol, o: nat)
    requires Whole(t, e, o)
    ensures Whole(t, e, EndOfLine(t, e, o))
  {
  }

  /** The loop of offset_to_line: n ends-of-line have been counted up to the
      line start o, which can pass offset only inside an end-of-line. */
  predicate HopTo(t: string, e: Eol, o: nat, offset: nat, n: nat) {
    && Whole(t, e, o) && offset <= |t| && n == Count(t, e, o)
    && (o <= offset || (o == offset + 1 && !EolAt(t, e, offset)))
  }

  lemma HopOn(t: string, e: Eol, o: nat, offset: nat, n: nat)
    requires HopTo(t, e, o, offset, n) && EndOfLine(t, e, o) < offset
    ensures NextLine(t, e, o).Some? && HopTo(t, e, NextLine(t, e, o).value, offset, n + 1)
  {
    NextIsNext(t, e, o);
  }

  lemma HopDone(t: string, e: Eol, o: nat, offset: nat, n: nat)
    requires HopTo(t, e, o, offset, n) && EndOfLine(t, e, o) >= offset
    ensures n == Count(t, e, offset)
  {
    if o <= offset {
      CountPlain(t, e, o, offset);
    }
  }

  /** The loop of move_line: n lines down or up, as far as there are any;
      left is how many could not be moved. */
  datatype Hopped = Hopped(left: nat, o: nat)

  function Hop(t: string, e: Eol, o: nat, n: nat, down: bool): (r: Hopped)
    requires o <= |t|
    ensures r.o <= |t|
    decreases n
  {
    if n == 0 then Hopped(0, o)
    else
      var p := if down then NextLine(t, e, o) else PrevLine(t, e, o);
      if p.None? then Hopped(n, o) else Hop(t, e, p.value, n - 1, down)
  }

  /** The line n lines from line `line`, or the nearest there is. */
  function Clamp(t: string, e: Eol, line: int): nat {
    Max(0, Min(line, Count(t, e, |t|)))
  }

  /** The number of the line n lines down or up from that of o. */
  function Target(t: string, e: Eol, o: nat, n: nat, down: bool): int {
    if down then Count(t, e, o) + n else Count(t, e, o) - n
  }

  /** It ends on the nearest line there is to the one asked for, and gets
      there exactly when there is such a line. */
  lemma {:induction false} HopLands(t: string, e: Eol, o: nat, n: nat, down: bool)
    requires Whole(t, e, o)
    ensures var h, line := Hop(t, e, o, n, down), Target(t, e, o, n, down);
            && Whole(t, e, h.o) && Count(t, e, h.o) == Clamp(t, e, line)
            && (h.left == 0 <==> 0 <= line <= Count(t, e, |t|))
    decreases n
  {
    hide NextLine, PrevLine, Count;
    CountMonotone(t, e, o, |t|);
    NextIsNext(t, e, o);
    PrevIsPrevious(t, e, o);
    var p := if down then NextLine(t, e, o) else PrevLine(t, e, o);
    if n > 0 && p.Some? {
      HopLands(t, e, p.value, n - 1, down);
    }
  }

  // ---------------------------------------------------------------------
  // By words
  // ---------------------------------------------------------------------

  /** iswordchar in the C locale. */
  predicate IsWordChar(c: char) {
    'a' <= c <= 'z' || 'A' <= c <= 'Z' || '0' <= c <= '9' || c == '$'
  }

  predicate NoWord(t: string, i: nat, j: nat) {
    i <= j <= |t| && forall k :: i <= k < j ==> !IsWordChar(t[k])
  }

  predicate AllWord(t: string, i: nat, j: nat) {
    i <= j <= |t| && forall k :: i <= k < j ==> IsWordChar(t[k])
  }

  /** Between o and p there is nothing of a word; or, when got, nothing of one
      up to a, and then nothing else. */
  predicate Scanned(t: string, o: nat, p: nat, forward: bool, got: bool, a: nat) {
    if forward then if got then a < p && NoWord(t, o, a) && AllWord(t, a, p) else NoWord(t, o, p)
    else if got then p < a && NoWord(t, a, o) && AllWord(t, p, a) else NoWord(t, p, o)
  }

  /** p is at the edge of its line that lies ahead. */
  predicate AtEdge(t: string, e: Eol, p: nat, forward: bool)
    requires p <= |t|
  {
    p == if forward then EndOfLine(t, e, p) else StartOfLine(t, e, p)
  }

  /** The next word from o on is the one that ends at p. */
  ghost predicate WordEnds(t: string, e: Eol, o: nat, p: nat, forward: bool)
    requires p <= |t|
  {
    && (exists a: nat :: Scanned(t, o, p, forward, true, a))
    && (AtEdge(t, e, p, forward) || !IsWordChar(t[if forward then p else p - 1]))
  }

  /** One character further within a line. */
  lemma ScanOn(t: string, e: Eol, o: nat, p: nat, forward: bool, got: bool, a: nat)
    requires Whole(t, e, p) && Scanned(t, o, p, forward, got, a) && !AtEdge(t, e, p, forward)
    ensures forward || p > 0
    ensures var p', c := Step(t, e, p, forward), t[if forward then p else p - 1];
            && p' == Some(if forward then p + 1 else p - 1) && Whole(t, e, p'.value)
            && (IsWordChar(c) ==> Scanned(t, o, p'.value, forward, true, if got then a else p))
            && (!IsWordChar(c) && !got ==> Scanned(t, o, p'.value, forward, false, a))
  {
    if forward { ForwardIs(t, e, p); } else { BackwardIs(t, e, p); }
  }

  /** Over an end-of-line, before any word. */
  lemma ScanOver(t: string, e: Eol, o: nat, p: nat, forward: bool, a: nat)
    requires Whole(t, e, p) && Scanned(t, o, p, forward, false, a) && AtEdge(t, e, p, forward)
    ensures var p' := Step(t, e, p, forward);
            if p'.Some? then Whole(t, e, p'.value) && Scanned(t, o, p'.value, forward, false, a)
            else p == if forward then |t| else 0
  {
    if forward {
      if p < |t| { ForwardIs(t, e, p); }
    } else if p > 0 {
      BackwardIs(t, e, p);
    }
  }
}
