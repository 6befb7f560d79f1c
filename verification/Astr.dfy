/** Growable byte strings, changed in place (src/astr.c), and the encoded
    copy that writes one string into another (src/estr.c:122-165). */
module Astrs {
  import opened Basics
  import opened Eol

  const ALLOCATION_CHUNK_SIZE: nat := 16

  // ---------------------------------------------------------------------
  // Byte moves, as functions
  // ---------------------------------------------------------------------

  function Fill(n: nat, c: char): (z: string)
    ensures |z| == n && forall i :: 0 <= i < n ==> z[i] == c
  {
    seq(n, _ => c)
  }

  /** r with the bytes from pos on replaced by s. */
  function Overlay(r: string, pos: nat, s: string): string
    requires pos + |s| <= |r|
  {
    seq(|r|, i requires 0 <= i < |r| => if pos <= i < pos + |s| then s[i - pos] else r[i])
  }

  /** memmove within r. */
  function Moved(r: string, to: nat, from: nat, n: nat): string
    requires Max(to, from) + n <= |r|
  {
    seq(|r|, i requires 0 <= i < |r| => if to <= i < to + n then r[from + (i - to)] else r[i])
  }

  /** s with a hole of size NULs opened at pos. */
  function Inserted(s: string, pos: nat, size: nat): string
    requires pos <= |s|
  {
    seq(|s| + size, i requires 0 <= i < |s| + size =>
      if i < pos then s[i] else if i < pos + size then '\0' else s[i - size])
  }

  /** s without the size bytes from pos on. */
  function Removed(s: string, pos: nat, size: nat): string
    requires pos + size <= |s|
  {
    seq(|s| - size, i requires 0 <= i < |s| - size => if i < pos then s[i] else s[i + size])
  }

  /** Writing c just after out. */
  lemma OverlayMore(was: string, pos: nat, out: string, c: string)
    requires pos + |out| + |c| <= |was|
    ensures Overlay(Overlay(was, pos, out), pos + |out|, c) == Overlay(was, pos, out + c)
  {
  }

  /** s begins with the string p. */
  predicate Keeps(p: string, s: string, n: nat) {
    n <= |p| && n <= |s| && forall i :: 0 <= i < n ==> s[i] == p[i]
  }

  /** Growing a string, then moving its tail up and clearing the hole. */
  lemma OpenedUp(s: string, pos: nat, size: nat, grown: string)
    requires pos <= |s| && |grown| == |s| + size && Keeps(s, grown, |s|)
    ensures Overlay(Moved(grown, pos + size, pos, |s| - pos), pos, Fill(size, '\0')) == Inserted(s, pos, size)
  {
  }

  /** Moving the tail down, then shrinking. */
  lemma ClosedUp(s: string, pos: nat, size: nat, t: string)
    requires pos + size <= |s| && |t| == |s| - size
    requires Keeps(Moved(s, pos, pos + size, |s| - (pos + size)), t, |t|)
    ensures t == Removed(s, pos, size)
  {
  }

  lemma AppendOver(s: string, t: string)
    ensures Overlay(Inserted(s, |s|, |t|), |s|, t) == s + t
  {
  }

  lemma Appended(s: string, t: string, grown: string)
    requires |grown| == |s| + |t| && Keeps(s, grown, |s|)
    ensures Overlay(grown, |s|, t) == s + t
  {
  }

  // ---------------------------------------------------------------------
  // The loop of estr_replace_estr
  // ---------------------------------------------------------------------

  /** Having written out of t, what is left is the translation of s. */
  ghost predicate Todo(t: string, out: string, s: string, from: Eol, to: Eol) {
    t == out + Translate(s, from, to)
  }

  lemma TodoRound(t: string, out: string, s: string, from: Eol, to: Eol, k: nat)
    requires Todo(t, out, s, from, to) && k == EndOfLine(s, from, 0) && k < |s|
    ensures Todo(t, out + s[..k] + EolStr(to), s[k + EolLen(from)..], from, to)
    ensures |out + s[..k] + EolStr(to)| <= |t|
  {
    hide EolStr;
    TranslateRound(s, from, to, k);
    var rest := Translate(s[k + EolLen(from)..], from, to);
    assert out + (s[..k] + EolStr(to) + rest) == (out + s[..k] + EolStr(to)) + rest;
  }

  lemma TodoLast(t: string, out: string, s: string, from: Eol, to: Eol)
    requires Todo(t, out, s, from, to) && EndOfLine(s, from, 0) == |s|
    ensures Todo(t, out + s, "", from, to) && |out + s| <= |t|
  {
    TranslatePlain(s, from, to);
  }

  // ---------------------------------------------------------------------
  // The string object
  // ---------------------------------------------------------------------

  class Astr {
    var text: array<char>
    var len: nat
    var maxlen: nat
    ghost var contents: string

    /** The allocation holds the string and a final NUL, and is at most 16
        bytes or about twice the length of the string. */
    ghost predicate Valid()
      reads this, text
    {
      && text.Length == maxlen + 1
      && len <= maxlen <= Max(len + ALLOCATION_CHUNK_SIZE, 2 * len + 1)
      && |contents| == len && text[len] == '\0'
      && forall i :: 0 <= i < len ==> contents[i] == text[i]
    }

    constructor ()
      ensures Valid() && contents == "" && fresh(text)
    {
      text := new char[ALLOCATION_CHUNK_SIZE + 1](_ => '\0');
      len, maxlen, contents := 0, ALLOCATION_CHUNK_SIZE, "";
    }

    /** astr_set_len: the kept bytes stay; bytes gained are unspecified. */
    method SetLen(n: nat)
      requires Valid()
      modifies this, text
      ensures Valid() && len == n
      ensures text == old(text) || fresh(text)
      ensures Keeps(old(contents), contents, Min(n, old(len)))
    {
      if n > maxlen || n < maxlen / 2 {
        maxlen := n + ALLOCATION_CHUNK_SIZE;
        var grown := new char[maxlen + 1];
        forall i | 0 <= i < Min(maxlen + 1, text.Length) {
          grown[i] := text[i];
        }
        text := grown;
      }
      len := n;
      text[len] := '\0';
      contents := text[..len];
    }

    method Insert(pos: nat, size: nat)
      requires Valid() && pos <= len
      modifies this, text
      ensures Valid() && (text == old(text) || fresh(text))
      ensures contents == Inserted(old(contents), pos, size)
    {
      hide Moved, Overlay, Inserted;
      ghost var s := contents;
      SetLen(len + size);
      OpenedUp(s, pos, size, contents);
      Move(pos + size, pos, len - (pos + size));
      Set(pos, '\0', size);
    }

    method Remove(pos: nat, size: nat)
      requires Valid() && pos + size <= len
      modifies this, text
      ensures Valid() && (text == old(text) || fresh(text))
      ensures contents == Removed(old(contents), pos, size)
    {
      ghost var s := contents;
      Move(pos, pos + size, len - (pos + size));
      SetLen(len - size);
      ClosedUp(s, pos, size, contents);
    }

    /** memmove inside the string. */
    method Move(to: nat, from: nat, n: nat)
      requires Valid() && Max(to, from) + n <= len
      modifies text, `contents
      ensures Valid() && contents == Moved(old(contents), to, from, n)
    {
      forall i | 0 <= i < n {
        text[to + i] := text[from + i];
      }
      contents := Moved(contents, to, from, n);
    }

    method Set(pos: nat, c: char, n: nat)
      requires Valid() && pos + n <= len
      modifies text, `contents
      ensures Valid() && contents == Overlay(old(contents), pos, Fill(n, c))
    {
      forall i | pos <= i < pos + n {
        text[i] := c;
      }
      contents := Overlay(contents, pos, Fill(n, c));
    }

    method ReplaceNstr(pos: nat, s: string)
      requires Valid() && pos + |s| <= len
      modifies text, `contents
      ensures Valid() && contents == Overlay(old(contents), pos, s)
    {
      forall i | 0 <= i < |s| {
        text[pos + i] := s[i];
      }
      contents := Overlay(contents, pos, s);
    }

    method CatNstr(s: string)
      requires Valid()
      modifies this, text
      ensures Valid() && (text == old(text) || fresh(text))
      ensures contents == old(contents) + s
    {
      ghost var was := contents;
      var oldlen := len;
      SetLen(len + |s|);
      Appended(was, s, contents);
      ReplaceNstr(oldlen, s);
    }

    /** estr_replace_estr: write src, with its ends-of-line turned into those
        of this string, over what is at pos. It writes exactly the bytes of
        the translation. */
    method ReplaceEstr(eol: Eol, pos: nat, src: Estr)
      requires Valid() && pos + |Translate(src.text, src.eol, eol)| <= len
      modifies text, `contents
      ensures Valid() && contents == Overlay(old(contents), pos, Translate(src.text, src.eol, eol))
    {
      ghost var was, t, out := contents, Translate(src.text, src.eol, eol), "";
      var s, p := src.text, pos;
      assert Overlay(was, pos, "") == was;
      while |s| > 0
        invariant Valid() && p == pos + |out| && len == |was|
        invariant Todo(t, out, s, src.eol, eol) && pos + |t| <= |was|
        invariant contents == Overlay(was, pos, out)
        decreases |s|
      {
        var next := EndOfLine(s, src.eol, 0);
        if next < |s| {
          TodoRound(t, out, s, src.eol, eol, next);
          p := PutNstr(p, s[..next], was, pos, out);
          p := PutNstr(p, EolStr(eol), was, pos, out + s[..next]);
          out := out + s[..next] + EolStr(eol);
          s := s[next + EolLen(src.eol)..];
        } else {
          TodoLast(t, out, s, src.eol, eol);
          p := PutNstr(p, s, was, pos, out);
          out, s := out + s, "";
        }
      }
      assert t == out;
    }

    /** Write c at p and step past it; out is what was written before. */
    method PutNstr(p: nat, c: string, ghost was: string, ghost pos: nat, ghost out: string)
      returns (q: nat)
      requires Valid() && p == pos + |out| && |was| == len && p + |c| <= len
      requires contents == Overlay(was, pos, out)
      modifies text, `contents
      ensures Valid() && q == p + |c| && contents == Overlay(was, pos, out + c)
    {
      OverlayMore(was, pos, out, c);
      ReplaceNstr(p, c);
      q := p + |c|;
    }

    /** estr_cat: make room at the end, then write. */
    method CatEstr(eol: Eol, src: Estr)
      requires Valid()
      modifies this, text
      ensures Valid() && (text == old(text) || fresh(text))
      ensures contents == old(contents) + Translate(src.text, src.eol, eol)
    {
      AppendOver(contents, Translate(src.text, src.eol, eol));
      var oldlen := len;
      var newlen := EstrLen(src, eol);
      Insert(oldlen, newlen);
      ReplaceEstr(eol, oldlen, src);
    }
  }
}
