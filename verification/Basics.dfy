/** Small definitions shared by every module. */
module Basics {
  datatype Option<+T> = None | Some(value: T)

  function Min(a: int, b: int): int { if a <= b then a else b }

  function Max(a: int, b: int): int { if a >= b then a else b }

  /** t with the del bytes from o on replaced by put. */
  function Splice(t: string, o: nat, del: nat, put: string): string
    requires o + del <= |t|
  {
    seq(|t| - del + |put|, i requires 0 <= i < |t| - del + |put| =>
      if i < o then t[i] else if i < o + |put| then put[i - o] else t[i - |put| + del])
  }

  lemma SpliceIs(t: string, o: nat, del: nat, put: string)
    requires o + del <= |t|
    ensures Splice(t, o, del, put) == t[..o] + put + t[o + del..]
  {
  }

  /** Putting back what was taken out. */
  lemma SpliceBack(t: string, o: nat, del: nat, put: string)
    requires o + del <= |t|
    ensures Splice(Splice(t, o, del, put), o, |put|, t[o..o + del]) == t
  {
  }

  // ---------------------------------------------------------------------
  // Lists of objects
  // ---------------------------------------------------------------------

  ghost predicate Distinct<T>(s: seq<T>) {
    forall i, j :: 0 <= i < j < |s| ==> s[i] != s[j]
  }

  /** s without its i-th element. */
  function Without<T>(s: seq<T>, i: nat): seq<T>
    requires i < |s|
  {
    seq(|s| - 1, k requires 0 <= k < |s| - 1 => if k < i then s[k] else s[k + 1])
  }

  lemma DistinctWithout<T>(s: seq<T>, i: nat)
    requires i < |s| && Distinct(s)
    ensures Distinct(Without(s, i)) && s[i] !in Without(s, i)
  {
    var w := Without(s, i);
    forall k | 0 <= k < |w|
      ensures w[k] != s[i]
    {
      assert w[k] == if k < i then s[k] else s[k + 1];
    }
  }
}
