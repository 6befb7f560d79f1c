/** Terminal codes, editor keys, and the stack of codes through which keys
    are put back and macros are replayed (src/term_curses.c:135-425,
    src/main.h:127-159, src/macro.c:128-134). */
module Keys {
  import opened Basics

  const KBD_CTRL: nat := 0x200
  const KBD_META: nat := 0x400
  const KBD_NOKEY: nat := 0xffff_ffff_ffff_ffff

  const KBD_TAB: nat := 258
  const KBD_RET: nat := 259
  const KBD_PGUP: nat := 260
  const KBD_PGDN: nat := 261
  const KBD_HOME: nat := 262
  const KBD_END: nat := 263
  const KBD_DEL: nat := 264
  const KBD_BS: nat := 265
  const KBD_INS: nat := 266
  const KBD_LEFT: nat := 267
  const KBD_RIGHT: nat := 268
  const KBD_UP: nat := 269
  const KBD_DOWN: nat := 270
  const KBD_F1: nat := 272
  const KBD_F12: nat := 283

  type Byte = c: nat | c < 0x100

  type FunctionNumber = n: nat | 1 <= n <= 12 witness 1

  /** The codes curses gives to the keys that are not characters. */
  datatype CursesKey =
    | PPage | NPage | Home | EndKey | Dc | Ic | Left | Right | Up | Down
    | F(n: FunctionNumber) | Backspace | Suspend | Other

  /** What getch returns: a character, a curses key, or an error. */
  datatype Code = Char(c: Byte) | Curses(k: CursesKey) | Err

  /** The code that the terminal's backspace key stands for: a C char, which
      is an error when it is negative. */
  type CharCode = c: Code | !c.Curses? witness Err

  function HasMeta(key: nat): bool { (key / KBD_META) % 2 == 1 }

  function SetMeta(key: nat): nat { if HasMeta(key) then key else key + KBD_META }

  function ClearMeta(key: nat): nat {
    if HasMeta(key) then key - KBD_META else key
  }

  function CharToKey(c: Byte): nat {
    if c == 0 then KBD_CTRL + '@' as nat
    else if c == 9 then KBD_TAB
    else if c == 13 then KBD_RET
    else if 1 <= c <= 26 then KBD_CTRL + ('a' as nat + c - 1)
    else if c == 27 then KBD_META
    else if c == 31 then KBD_CTRL + '_' as nat
    else if c == 127 then KBD_BS
    else c
  }

  /** codetokey. */
  function CodeToKey(bs: CharCode, c: Code): nat {
    match c
    case Char(b) => CharToKey(b)
    case Err => KBD_NOKEY
    case Curses(k) =>
      match k
      case PPage => KBD_PGUP
      case NPage => KBD_PGDN
      case Home => KBD_HOME
      case EndKey => KBD_END
      case Dc => KBD_DEL
      case Ic => KBD_INS
      case Left => KBD_LEFT
      case Right => KBD_RIGHT
      case Up => KBD_UP
      case Down => KBD_DOWN
      case F(n) => KBD_F1 + n - 1
      case Backspace => if bs.Err? then KBD_NOKEY else CharToKey(bs.c)
      case Suspend => KBD_CTRL + 'z' as nat
      case Other => KBD_NOKEY
  }

  /** The part of keytocodes after the escape: at most one code. */
  function BaseCodes(key: nat): (cs: seq<Code>)
    ensures |cs| <= 1
  {
    if key == KBD_CTRL + '@' as nat then [Char(0)]
    else if KBD_CTRL + 'a' as nat <= key <= KBD_CTRL + 'z' as nat
            && key != KBD_CTRL + 'i' as nat && key != KBD_CTRL + 'm' as nat then
      [Char(key - KBD_CTRL + 1 - 'a' as nat)]
    else if key == KBD_TAB then [Char(9)]
    else if key == KBD_RET then [Char(13)]
    else if key == KBD_CTRL + '_' as nat then [Char(31)]
    else if key == KBD_PGUP then [Curses(PPage)]
    else if key == KBD_PGDN then [Curses(NPage)]
    else if key == KBD_HOME then [Curses(Home)]
    else if key == KBD_END then [Curses(EndKey)]
    else if key == KBD_DEL then [Curses(Dc)]
    else if key == KBD_BS then [Char(127)]
    else if key == KBD_INS then [Curses(Ic)]
    else if key == KBD_LEFT then [Curses(Left)]
    else if key == KBD_RIGHT then [Curses(Right)]
    else if key == KBD_UP then [Curses(Up)]
    else if key == KBD_DOWN then [Curses(Down)]
    else if KBD_F1 <= key <= KBD_F12 then [Curses(F(key - KBD_F1 + 1))]
    else if key < 0x100 then [Char(key)]
    else []
  }

  /** keytocodes. */
  function KeyToCodes(key: nat): seq<Code> {
    if key == KBD_NOKEY then []
    else (if HasMeta(key) then [Char(27)] else []) + BaseCodes(ClearMeta(key))
  }

  // ---------------------------------------------------------------------
  // Reading from the stack, whose top is its last code
  // ---------------------------------------------------------------------

  datatype Read = Starved | Read(key: nat, rest: seq<Code>)

  function Top(buf: seq<Code>): Code
    requires buf != []
  {
    buf[|buf| - 1]
  }

  function Pop(buf: seq<Code>): seq<Code>
    requires buf != []
  {
    buf[..|buf| - 1]
  }

  /** The loop of term_getkey after an escape. */
  function ReadMeta(bs: CharCode, buf: seq<Code>): (r: Read)
    ensures r.Read? ==> |r.rest| < |buf|
    decreases |buf|
  {
    if buf == [] then Starved
    else
      var key := SetMeta(CodeToKey(bs, Top(buf)));
      if key == KBD_META then ReadMeta(bs, Pop(buf)) else Read(key, Pop(buf))
  }

  /** term_getkey, as long as it need not wait for the terminal. */
  function ReadKey(bs: CharCode, buf: seq<Code>): (r: Read)
    ensures r.Read? ==> |r.rest| < |buf|
  {
    if buf == [] then Starved
    else
      var key := CodeToKey(bs, Top(buf));
      if key == KBD_META then ReadMeta(bs, Pop(buf)) else Read(key, Pop(buf))
  }

  /** term_ungetkey: the last code goes on first. */
  function Unget(buf: seq<Code>, key: nat): seq<Code> {
    var codes := KeyToCodes(key);
    if |codes| == 2 then buf + [codes[1], codes[0]]
    else if |codes| == 1 then buf + [codes[0]]
    else buf
  }

  /** A key that some code stands for by itself. */
  ghost predicate Plain(bs: CharCode, key: nat) {
    key != KBD_META && key != KBD_NOKEY && exists c :: CodeToKey(bs, c) == key
  }

  /** A key that term_getkey can produce. */
  ghost predicate Producible(bs: CharCode, key: nat) {
    Plain(bs, ClearMeta(key))
  }

  lemma PlainRange(bs: CharCode, c: Code)
    ensures var k := CodeToKey(bs, c);
            k == KBD_NOKEY || k == KBD_META || (0 < k < KBD_META && !HasMeta(k) && SetMeta(k) == k + KBD_META)
  {
  }

  /** Reading gives a producible key, or none. */
  lemma {:induction false} ReadIsProducible(bs: CharCode, buf: seq<Code>)
    ensures ReadKey(bs, buf).Read? ==> ReadKey(bs, buf).key == KBD_NOKEY || Producible(bs, ReadKey(bs, buf).key)
  {
    if buf != [] {
      PlainRange(bs, Top(buf));
      ReadMetaIsProducible(bs, Pop(buf));
    }
  }

  lemma {:induction false} ReadMetaIsProducible(bs: CharCode, buf: seq<Code>)
    ensures ReadMeta(bs, buf).Read? ==> ReadMeta(bs, buf).key == KBD_NOKEY || Producible(bs, ReadMeta(bs, buf).key)
    decreases |buf|
  {
    if buf != [] {
      PlainRange(bs, Top(buf));
      ReadMetaIsProducible(bs, Pop(buf));
    }
  }

  /** What a code decodes to is encoded by one code that decodes to it. */
  lemma CodeRoundTrip(bs: CharCode, c: Code)
    requires CodeToKey(bs, c) != KBD_META && CodeToKey(bs, c) != KBD_NOKEY
    ensures Encodes(bs, CodeToKey(bs, c))
  {
  }

  /** A code that stands for a key of its own: not the backspace or suspend
      key, which stand for characters, nor for none. */
  predicate OwnKey(c: Code) {
    match c
    case Char(_) => true
    case Curses(k) => !k.Backspace? && !k.Suspend? && !k.Other?
    case Err => false
  }

  /** No two of these read as the same key, and all but the escape are what
      their key is encoded by. */
  lemma CodesAreDistinct(bs: CharCode, c: Code, d: Code)
    requires OwnKey(c) && OwnKey(d)
    ensures CodeToKey(bs, c) == CodeToKey(bs, d) ==> c == d
    ensures c != Char(27) ==> BaseCodes(CodeToKey(bs, c)) == [c]
  {
  }

  /** What the characters read as. */
  lemma CharactersRead(bs: CharCode, b: Byte)
    ensures 28 <= b <= 30 || 32 <= b <= 126 || 128 <= b ==> CodeToKey(bs, Char(b)) == b
    ensures 1 <= b <= 26 && b != 9 && b != 13 ==>
            var k := CodeToKey(bs, Char(b)); k >= KBD_CTRL && k - KBD_CTRL == "abcdefghijklmnopqrstuvwxyz"[b - 1] as nat
    ensures CodeToKey(bs, Char(0)) == KBD_CTRL + '@' as nat && CodeToKey(bs, Char(31)) == KBD_CTRL + '_' as nat
    ensures CodeToKey(bs, Char('\t' as nat)) == KBD_TAB && CodeToKey(bs, Char('\r' as nat)) == KBD_RET
    ensures CodeToKey(bs, Char(27)) == KBD_META && CodeToKey(bs, Char(127)) == KBD_BS
  {
  }

  /** What the function and arrow keys read as: keys numbered one after the
      other, in this order. */
  lemma CursesKeysRead(bs: CharCode)
    ensures forall n: FunctionNumber :: CodeToKey(bs, Curses(F(n))) == KBD_F1 + n - 1
    ensures var ks := [PPage, NPage, Home, EndKey, Dc];
            forall i :: 0 <= i < |ks| ==> CodeToKey(bs, Curses(ks[i])) == KBD_PGUP + i
    ensures var ks := [Ic, Left, Right, Up, Down];
            forall i :: 0 <= i < |ks| ==> CodeToKey(bs, Curses(ks[i])) == KBD_INS + i
    ensures CodeToKey(bs, Curses(Suspend)) == CodeToKey(bs, Char(26))
    ensures CodeToKey(bs, Curses(Backspace)) == CodeToKey(bs, bs)
    ensures CodeToKey(bs, Curses(Other)) == CodeToKey(bs, Err) == KBD_NOKEY
  {
  }

  /** key is encoded by one code, which decodes to it. */
  predicate Encodes(bs: CharCode, key: nat) {
    |BaseCodes(key)| == 1 && CodeToKey(bs, BaseCodes(key)[0]) == key
  }

  lemma PlainIff(bs: CharCode, key: nat)
    ensures Plain(bs, key) <==> Encodes(bs, key) && key != KBD_META && key != KBD_NOKEY
  {
    if Plain(bs, key) {
      var c :| CodeToKey(bs, c) == key;
      CodeRoundTrip(bs, c);
    }
  }

  /** Putting a key back and reading again gives that key, and leaves the
      stack as it was, exactly when the key is one that can be read. */
  lemma UngetThenReadIff(bs: CharCode, buf: seq<Code>, key: nat)
    requires key <= KBD_NOKEY
    ensures ReadKey(bs, Unget(buf, key)) == Read(key, buf) <==> Producible(bs, key)
  {
    var base := ClearMeta(key);
    var cs := BaseCodes(base);
    PlainIff(bs, base);
    if key == KBD_NOKEY || |cs| == 0 {
      UnfinishedKey(bs, buf, key);
    } else {
      FinishedKey(bs, buf, key, cs[0]);
    }
  }

  lemma UnfinishedKey(bs: CharCode, buf: seq<Code>, key: nat)
    requires key == KBD_NOKEY || BaseCodes(ClearMeta(key)) == []
    ensures ReadKey(bs, Unget(buf, key)) != Read(key, buf)
  {
    var b := Unget(buf, key);
    assert b != buf ==> b == buf + [Char(27)] && Pop(b) == buf;
  }

  lemma FinishedKey(bs: CharCode, buf: seq<Code>, key: nat, c: Code)
    requires key != KBD_NOKEY && BaseCodes(ClearMeta(key)) == [c]
    ensures ReadKey(bs, Unget(buf, key)) == Read(key, buf) <==>
            CodeToKey(bs, c) == ClearMeta(key) && CodeToKey(bs, c) != KBD_META
  {
    var b := Unget(buf, key);
    var k := CodeToKey(bs, c);
    PlainRange(bs, c);
    if HasMeta(key) {
      assert b == buf + [c, Char(27)];
      assert Pop(b) == buf + [c] && Pop(Pop(b)) == buf;
      assert Top(b) == Char(27) && Top(Pop(b)) == c;
    } else {
      assert b == buf + [c] && Pop(b) == buf;
    }
  }

  // ---------------------------------------------------------------------
  // Replaying
  // ---------------------------------------------------------------------

  /** A recorded stroke: a key, or a character read without decoding. */
  datatype Stroke = Key(key: nat) | Raw(c: Byte)

  /** The number a macro keeps for a stroke. */
  function Recorded(s: Stroke): nat {
    match s
    case Key(key) => key
    case Raw(c) => c
  }

  /** The stack once process_keys has pushed the strokes, last one first. */
  function PushAll(buf: seq<Code>, strokes: seq<Stroke>): seq<Code> {
    if strokes == [] then buf else Unget(PushAll(buf, strokes[1..]), Recorded(strokes[0]))
  }

  /** Reading strokes of the same kinds from buf gives exactly these, and
      leaves rest. */
  predicate Replays(bs: CharCode, buf: seq<Code>, strokes: seq<Stroke>, rest: seq<Code>)
    decreases |strokes|
  {
    if strokes == [] then buf == rest
    else
      match strokes[0]
      case Key(key) =>
        var r := ReadKey(bs, buf);
        r.Read? && r.key == key && Replays(bs, r.rest, strokes[1..], rest)
      case Raw(c) =>
        buf != [] && Top(buf) == Char(c) && Replays(bs, Pop(buf), strokes[1..], rest)
  }

  ghost predicate AllProducible(bs: CharCode, strokes: seq<Stroke>) {
    forall i :: 0 <= i < |strokes| && strokes[i].Key? ==>
      strokes[i].key <= KBD_NOKEY && Producible(bs, strokes[i].key)
  }

  /** A macro of keys that can be typed, and of any characters read raw,
      replays as it was recorded, and then the stack is at its old height. */
  lemma {:induction false} ReplayIsExact(bs: CharCode, buf: seq<Code>, strokes: seq<Stroke>)
    requires AllProducible(bs, strokes)
    ensures Replays(bs, PushAll(buf, strokes), strokes, buf)
  {
    if strokes != [] {
      var below := PushAll(buf, strokes[1..]);
      ReplayIsExact(bs, buf, strokes[1..]);
      if strokes[0].Key? {
        UngetThenReadIff(bs, below, strokes[0].key);
      } else {
        RawOnTop(below, strokes[0].c);
      }
    }
  }

  lemma RawOnTop(buf: seq<Code>, c: Byte)
    ensures var b := Unget(buf, c); b != [] && Top(b) == Char(c) && Pop(b) == buf
  {
    assert BaseCodes(c) == [Char(c)];
  }

  /** There is something left to read as long as strokes are left. */
  lemma {:induction false} ReplaysTakes(bs: CharCode, buf: seq<Code>, strokes: seq<Stroke>, rest: seq<Code>)
    requires Replays(bs, buf, strokes, rest)
    ensures strokes == [] ==> buf == rest
    ensures strokes != [] ==> |buf| > |rest|
    decreases |strokes|
  {
    if strokes != [] {
      if strokes[0].Key? {
        ReplaysTakes(bs, ReadKey(bs, buf).rest, strokes[1..], rest);
      } else {
        ReplaysTakes(bs, Pop(buf), strokes[1..], rest);
      }
    }
  }

  // ---------------------------------------------------------------------
  // Reading from the stack and then from the terminal
  // ---------------------------------------------------------------------

  /** The codes to come: those on the stack, then what the terminal sends,
      of which some have been taken. */
  datatype Source = Source(buf: seq<Code>, taken: nat)

  function NextCode(input: nat -> Code, s: Source): Code {
    if s.buf == [] then input(s.taken) else Top(s.buf)
  }

  function Advance(s: Source): Source {
    if s.buf == [] then Source([], s.taken + 1) else Source(Pop(s.buf), s.taken)
  }

  /** The codes to come start with this many escapes, and then another. */
  ghost predicate Escapes(bs: CharCode, input: nat -> Code, s: Source, n: nat)
    decreases n
  {
    if n == 0 then CodeToKey(bs, NextCode(input, s)) != KBD_META
    else CodeToKey(bs, NextCode(input, s)) == KBD_META && Escapes(bs, input, Advance(s), n - 1)
  }

  /** A key read from s leaves s': the first code that is no escape, with the
      meta bit when there was an escape before it. */
  ghost predicate Reads(bs: CharCode, input: nat -> Code, s: Source, n: nat, meta: bool, key: nat, s': Source)
    decreases n
  {
    var k := CodeToKey(bs, NextCode(input, s));
    if n == 0 then key == (if meta then SetMeta(k) else k) && s' == Advance(s)
    else Reads(bs, input, Advance(s), n - 1, true, key, s')
  }

  /** When the stack holds a whole key, that is the key that is read. */
  lemma {:induction false} ReadsFromStack(bs: CharCode, input: nat -> Code, s: Source, meta: bool)
      returns (n: nat)
    requires (if meta then ReadMeta(bs, s.buf) else ReadKey(bs, s.buf)).Read?
    ensures var r := if meta then ReadMeta(bs, s.buf) else ReadKey(bs, s.buf);
            Escapes(bs, input, s, n) && Reads(bs, input, s, n, meta, r.key, Source(r.rest, s.taken))
    decreases |s.buf|
  {
    PlainRange(bs, Top(s.buf));
    if CodeToKey(bs, Top(s.buf)) == KBD_META {
      var m := ReadsFromStack(bs, input, Advance(s), true);
      n := m + 1;
    } else {
      n := 0;
    }
  }

  lemma {:induction false} ReadsOnce(bs: CharCode, input: nat -> Code, s: Source, n: nat, meta: bool,
      key: nat, s': Source, key': nat, s'': Source)
    requires Reads(bs, input, s, n, meta, key, s') && Reads(bs, input, s, n, meta, key', s'')
    ensures key == key' && s' == s''
    decreases n
  {
    if n > 0 {
      ReadsOnce(bs, input, Advance(s), n - 1, true, key, s', key', s'');
    }
  }

  // ---------------------------------------------------------------------
  // Recording
  // ---------------------------------------------------------------------

  /** What a macro being defined holds after getkeystroke has read a key. */
  function Record(cmd: seq<nat>, key: nat): seq<nat> {
    if key == KBD_NOKEY then cmd else cmd + [key]
  }

  /** And after ungetkey: the last key goes, whatever was put back; None
      stands for the failed assertion when there is none. */
  function Unrecord(cmd: seq<nat>): Option<seq<nat>> {
    if cmd == [] then None else Some(cmd[..|cmd| - 1])
  }

  /** Reading a key and putting it back, as waitkey does, leaves the keys
      recorded so far alone if and only if there was a key; without one it
      aborts if nothing was recorded. */
  lemma WaitkeyRecordsIff(cmd: seq<nat>, key: nat)
    ensures key != KBD_NOKEY ==> var r := Record(cmd, key); cmd < r && r[|cmd|] == key && |r| == |cmd| + 1
    ensures Unrecord(Record(cmd, key)) == Some(cmd) <==> key != KBD_NOKEY
    ensures Unrecord(Record(cmd, key)).None? <==> key == KBD_NOKEY && cmd == []
  {
    assert key == KBD_NOKEY && cmd != [] ==> |Unrecord(cmd).value| < |cmd|;
  }
}
