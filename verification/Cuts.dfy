/** A text edited from left to right, each edit putting the same bytes in place
    of others. */
module Cuts {
  import opened Basics

  /** The del bytes at `at`, counted in the text before any edit. */
  datatype Cut = Cut(at: nat, del: nat)

  /** Where the text goes on after the cuts, the first of which comes at s or
      later. */
  function From(s: nat, cuts: seq<Cut>): nat {
    if cuts == [] then s else cuts[|cuts| - 1].at + cuts[|cuts| - 1].del
  }

  /** The cuts lie in t, one after the other. */
  predicate Ordered(t: string, s: nat, cuts: seq<Cut>)
    ensures Ordered(t, s, cuts) ==> s <= From(s, cuts) <= |t|
  {
    if cuts == [] then s <= |t|
    else
      var front, c := cuts[..|cuts| - 1], cuts[|cuts| - 1];
      Ordered(t, s, front) && From(s, front) <= c.at && c.at + c.del <= |t|
  }

  /** What comes of the text up to the end of the last cut. */
  function Built(t: string, s: nat, cuts: seq<Cut>, put: string): (r: string)
    requires Ordered(t, s, cuts)
    ensures |r| >= s && (cuts != [] ==> |r| >= s + |put|)
  {
    if cuts == [] then t[..s]
    else
      var front, c := cuts[..|cuts| - 1], cuts[|cuts| - 1];
      Built(t, s, front, put) + t[From(s, front)..c.at] + put
  }

  /** And of all of it. */
  function Edited(t: string, s: nat, cuts: seq<Cut>, put: string): string
    requires Ordered(t, s, cuts)
  {
    Built(t, s, cuts, put) + t[From(s, cuts)..]
  }

  lemma NoCuts(t: string, s: nat, put: string)
    requires s <= |t|
    ensures Ordered(t, s, []) && Edited(t, s, [], put) == t
  {
  }

  /** One more cut. */
  lemma CutMore(t: string, s: nat, cuts: seq<Cut>, put: string, at: nat, del: nat)
    requires Ordered(t, s, cuts) && From(s, cuts) <= at && at + del <= |t|
    ensures var cuts' := cuts + [Cut(at, del)];
            && Ordered(t, s, cuts') && From(s, cuts') == at + del
            && Built(t, s, cuts', put) == Built(t, s, cuts, put) + t[From(s, cuts)..at] + put
  {
    assert (cuts + [Cut(at, del)])[..|cuts|] == cuts;
  }

  lemma EditedMore(t: string, s: nat, cuts: seq<Cut>, put: string, at: nat, del: nat)
    requires Ordered(t, s, cuts) && From(s, cuts) <= at && at + del <= |t|
    ensures Ordered(t, s, cuts + [Cut(at, del)])
    ensures var q, o := Edited(t, s, cuts, put), |Built(t, s, cuts, put)| + (at - From(s, cuts));
            o + del <= |q| && Edited(t, s, cuts + [Cut(at, del)], put) == Splice(q, o, del, put)
  {
    hide Splice, Built, From, Ordered;
    var x := From(s, cuts);
    CutMore(t, s, cuts, put, at, del);
    SpliceAfter(Built(t, s, cuts, put), t[x..], at - x, del, put);
    assert t[x..][..at - x] == t[x..at] && t[x..][at - x + del..] == t[at + del..];
  }

  lemma SpliceAfter(b: string, rest: string, k: nat, del: nat, put: string)
    requires k + del <= |rest|
    ensures Splice(b + rest, |b| + k, del, put) == b + rest[..k] + put + rest[k + del..]
  {
  }

  /** The last cut made longer, over what it had put. */
  lemma CutLonger(t: string, s: nat, cuts: seq<Cut>, put: string, more: nat)
    requires Ordered(t, s, cuts) && cuts != [] && From(s, cuts) + more <= |t|
    ensures var c, n := cuts[|cuts| - 1], |cuts| - 1;
            var cuts' := cuts[..n] + [Cut(c.at, c.del + more)];
            && Ordered(t, s, cuts') && From(s, cuts') == From(s, cuts) + more
            && Built(t, s, cuts', put) == Built(t, s, cuts, put)
            && var q, o := Edited(t, s, cuts, put), |Built(t, s, cuts, put)| - |put|;
               o + |put| + more <= |q| && Edited(t, s, cuts', put) == Splice(q, o, |put| + more, put)
  {
    var c, n := cuts[|cuts| - 1], |cuts| - 1;
    var cuts' := cuts[..n] + [Cut(c.at, c.del + more)];
    assert cuts'[..n] == cuts[..n];
    var b := Built(t, s, cuts, put);
    var q, o := Edited(t, s, cuts, put), |b| - |put|;
    SpliceIs(q, o, |put| + more, put);
    assert q[..o] + put == b;
    assert q[o + |put| + more..] == t[From(s, cuts) + more..];
  }
}
