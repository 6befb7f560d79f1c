/** The key buffer and the macro recorder as the editor keeps them
    (src/term_curses.c:350-425, src/getkey.c, src/macro.c). */
module Terminals {
  import opened Basics
  import opened Keys

  class Terminal {
    const backspace: CharCode
    /** What getch will return, call after call. */
    const input: nat -> Code
    var taken: nat
    var keyBuf: seq<Code>

    constructor (bs: CharCode, codes: nat -> Code)
      ensures keyBuf == [] && taken == 0 && backspace == bs && input == codes
    {
      backspace, input, taken, keyBuf := bs, codes, 0, [];
    }

    ghost function Codes(): Source
      reads this
    {
      Source(keyBuf, taken)
    }

    /** get_char. */
    method GetChar() returns (c: Code)
      modifies this
      ensures c == NextCode(input, old(Codes())) && Codes() == Advance(old(Codes()))
    {
      if |keyBuf| > 0 {
        c := keyBuf[|keyBuf| - 1];
        keyBuf := keyBuf[..|keyBuf| - 1];
      } else {
        c := input(taken);
        taken := taken + 1;
      }
    }

    /** term_getkey. The terminal must not send escapes for ever. */
    method TermGetkey(ghost escapes: nat) returns (key: nat)
      requires Escapes(backspace, input, Codes(), escapes)
      modifies this
      ensures Reads(backspace, input, old(Codes()), escapes, false, key, Codes())
    {
      ghost var from, left, meta := Codes(), escapes, false;
      var c := GetChar();
      key := CodeToKey(backspace, c);
      while key == KBD_META
        invariant Escapes(backspace, input, from, left) && Codes() == Advance(from)
        invariant key == var k := CodeToKey(backspace, NextCode(input, from)); if meta then SetMeta(k) else k
        invariant forall k, s ::
                    Reads(backspace, input, from, left, meta, k, s) ==>
                    Reads(backspace, input, old(Codes()), escapes, false, k, s)
        decreases left
      {
        PlainRange(backspace, NextCode(input, from));
        from, left, meta := Codes(), left - 1, true;
        c := GetChar();
        key := SetMeta(CodeToKey(backspace, c));
      }
      PlainRange(backspace, NextCode(input, from));
    }

    /** term_ungetkey. */
    method TermUngetkey(key: nat)
      modifies this`keyBuf
      ensures keyBuf == Unget(old(keyBuf), key)
    {
      var codes := KeyToCodes(key);
      var i := |codes|;
      while i > 0
        invariant 0 <= i <= |codes|
        invariant keyBuf == old(keyBuf) + Backwards(codes, i)
      {
        keyBuf := keyBuf + [codes[i - 1]];
        i := i - 1;
      }
    }

    /** process_keys: push the keys of a macro, last one first, and read until
        the buffer is back at its old height. The strokes say how each key is
        read when the macro runs. */
    method ProcessKeys(keys: seq<nat>, strokes: seq<Stroke>) returns (got: seq<nat>)
      requires |keys| == |strokes| && forall i :: 0 <= i < |keys| ==> keys[i] == Recorded(strokes[i])
      requires AllProducible(backspace, strokes)
      modifies this
      ensures got == keys && keyBuf == old(keyBuf) && taken == old(taken)
    {
      hide Replays, Recorded, AllProducible;
      var cur := |keyBuf|;
      PushKeys(keys, strokes);
      ReplayIsExact(backspace, old(keyBuf), strokes);
      got := [];
      ReplaysTakes(backspace, keyBuf, strokes, old(keyBuf));
      while |keyBuf| > cur
        invariant |got| <= |keys| && got == keys[..|got|] && taken == old(taken)
        invariant Replays(backspace, keyBuf, strokes[|got|..], old(keyBuf))
        invariant |keyBuf| > cur || (|got| == |keys| && keyBuf == old(keyBuf))
        decreases |keys| - |got|
      {
        ReplaysTakes(backspace, keyBuf, strokes[|got|..], old(keyBuf));
        assert |got| < |keys|;
        assert strokes[|got|..][1..] == strokes[|got| + 1..];
        var key := ReadStroke(strokes[|got|..], old(keyBuf));
        got := got + [key];
        ReplaysTakes(backspace, keyBuf, strokes[|got|..], old(keyBuf));
      }
    }

    /** Read one stroke, the way it is meant to be read. */
    method ReadStroke(strokes: seq<Stroke>, ghost rest: seq<Code>) returns (key: nat)
      requires strokes != [] && Replays(backspace, keyBuf, strokes, rest)
      modifies this
      ensures key == Recorded(strokes[0]) && Replays(backspace, keyBuf, strokes[1..], rest)
      ensures taken == old(taken)
    {
      if strokes[0].Key? {
        ghost var from := Codes();
        ghost var n := ReadsFromStack(backspace, input, from, false);
        key := TermGetkey(n);
        ghost var r := ReadKey(backspace, from.buf);
        ReadsOnce(backspace, input, from, n, false, key, Codes(), r.key, Source(r.rest, from.taken));
      } else {
        var c := GetChar();
        key := c.c;
      }
    }

    method PushKeys(keys: seq<nat>, ghost strokes: seq<Stroke>)
      requires |keys| == |strokes| && forall i :: 0 <= i < |keys| ==> keys[i] == Recorded(strokes[i])
      modifies this`keyBuf
      ensures keyBuf == PushAll(old(keyBuf), strokes)
    {
      for i := 0 to |keys|
        invariant keyBuf == PushAll(old(keyBuf), strokes[|keys| - i..])
      {
        assert strokes[|keys| - i - 1..][1..] == strokes[|keys| - i..];
        TermUngetkey(keys[|keys| - i - 1]);
      }
      assert strokes[0..] == strokes;
    }
  }

  /** The macro being recorded: the keys of the commands done, and those of
      the command being read. */
  class Recorder {
    var cur: seq<nat>
    var cmd: Option<seq<nat>>

    constructor ()
      ensures cur == [] && cmd == None
    {
      cur, cmd := [], None;
    }

    ghost function CmdKeys(): seq<nat>
      reads this
    {
      if cmd.None? then [] else cmd.value
    }

    /** The part of getkeystroke that records. */
    method AddKey(key: nat)
      modifies this`cmd
      ensures CmdKeys() == Record(old(CmdKeys()), key)
      ensures cmd.None? <==> old(cmd).None? && key == KBD_NOKEY
    {
      if key != KBD_NOKEY {
        if cmd.None? {
          cmd := Some([]);
        }
        cmd := Some(cmd.value + [key]);
      }
    }

    /** remove_key_from_cmd. */
    method RemoveKey()
      requires Unrecord(CmdKeys()).Some?
      modifies this`cmd
      ensures cmd == Unrecord(old(CmdKeys()))
    {
      cmd := Some(cmd.value[..|cmd.value| - 1]);
    }

    /** add_cmd_to_macro: key by key, so nothing recorded is lost. */
    method AddCmd()
      requires cmd.Some?
      modifies this
      ensures cur == old(cur) + old(CmdKeys()) && cmd.None?
    {
      for i := 0 to |cmd.value|
        invariant cmd == old(cmd) && cur == old(cur) + cmd.value[..i]
      {
        assert cmd.value[..i + 1] == cmd.value[..i] + [cmd.value[i]];
        cur := cur + [cmd.value[i]];
      }
      assert cmd.value[..|cmd.value|] == cmd.value;
      cmd := None;
    }
  }

  /** The codes from i on down, as the loop of term_ungetkey pushes them. */
  function Backwards(codes: seq<Code>, i: nat): seq<Code>
    requires i <= |codes|
    decreases |codes| - i
  {
    if i == |codes| then [] else Backwards(codes, i + 1) + [codes[i]]
  }
}
