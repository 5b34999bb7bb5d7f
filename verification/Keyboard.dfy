/**
 The keyboard decoder: scancodes in, characters out.  The polling loop may read one
 scancode many times, so what matters is the whole trace.
 */
module Keyboard {
  import opened CStrings

  const CHAR_UP: char := '\U{0001}'
  const CHAR_DOWN: char := '\U{0002}'
  const CHAR_LEFT: char := '\U{0003}'
  const CHAR_RIGHT: char := '\U{0004}'
  const CHAR_DEL: char := '\U{0005}'

  type Scancode = n: nat | n < 256

  const KEY_LSHIFT: Scancode := 0x2A
  const KEY_RSHIFT: Scancode := 0x36
  const KEY_UP: Scancode := 0x48
  const KEY_DOWN: Scancode := 0x50
  const KEY_LEFT: Scancode := 0x4B
  const KEY_RIGHT: Scancode := 0x4D
  const KEY_DELETE: Scancode := 0x53

  const PLAIN: string :=
    "\0\0" + "1234567890-=" + [BACKSPACE] + "\tqwertyuiop[]\n" + "\0asdfghjkl;'`" + "\0\\zxcvbnm,./\0" + "*\0 "
  const SHIFTED: string :=
    "\0\0" + "!@#$%^&*()_+" + [BACKSPACE] + "\tQWERTYUIOP{}\n" + "\0ASDFGHJKL:\"~" + "\0|ZXCVBNM<>?\0" + "*\0 "

  predicate ShiftPress(code: Scancode) {
    code == KEY_LSHIFT || code == KEY_RSHIFT
  }

  predicate ShiftRelease(code: Scancode) {
    code == KEY_LSHIFT + 0x80 || code == KEY_RSHIFT + 0x80
  }

  /** A key other than shift going down. */
  predicate Press(code: Scancode) {
    code < 0x80 && !ShiftPress(code)
  }

  /** The character of a key, before repeats are suppressed. */
  function Character(code: Scancode, shift: bool): char {
    if code == KEY_UP then CHAR_UP
    else if code == KEY_DOWN then CHAR_DOWN
    else if code == KEY_LEFT then CHAR_LEFT
    else if code == KEY_RIGHT then CHAR_RIGHT
    else if code == KEY_DELETE then CHAR_DEL
    else if code < |PLAIN| && code < |SHIFTED| then (if shift then SHIFTED[code] else PLAIN[code])
    else NUL
  }

  // ---------------------------------------------------------------- the key map

  // Four rows of keys, each by the distance `k` from its first scancode.

  lemma NumberRow(k: nat, shift: bool)
    requires k < 12
    ensures Character(0x02 + k, shift) == if shift then "!@#$%^&*()_+"[k] else "1234567890-="[k]
  {
  }

  lemma TopRow(k: nat, shift: bool)
    requires k < 12
    ensures Character(0x10 + k, shift) == if shift then "QWERTYUIOP{}"[k] else "qwertyuiop[]"[k]
  {
  }

  lemma HomeRow(k: nat, shift: bool)
    requires k < 12
    ensures Character(0x1E + k, shift) == if shift then "ASDFGHJKL:\"~"[k] else "asdfghjkl;'`"[k]
  {
  }

  lemma BottomRow(k: nat, shift: bool)
    requires k < 11
    ensures Character(0x2B + k, shift) == if shift then "|ZXCVBNM<>?"[k] else "\\zxcvbnm,./"[k]
  {
  }

  /** The keys outside the rows, with or without shift; every code not on any of them gives nothing. */
  lemma OtherKeys(code: Scancode, shift: bool)
    requires !(0x02 <= code < 0x0E || 0x10 <= code < 0x1C || 0x1E <= code < 0x2A || 0x2B <= code < 0x36)
    ensures Character(code, shift) ==
            if code == 0x0E then '\U{0008}' else if code == 0x0F then '\t' else if code == 0x1C then '\n'
            else if code == 0x37 then '*' else if code == 0x39 then ' '
            else if code == 0x48 then '\U{0001}' else if code == 0x50 then '\U{0002}'
            else if code == 0x4B then '\U{0003}' else if code == 0x4D then '\U{0004}'
            else if code == 0x53 then '\U{0005}' else '\0'
  {
  }

  // ---------------------------------------------------------------- the state machine

  datatype Keys = Keys(shift: bool, last: Scancode, held: bool)

  const IDLE := Keys(false, 0, false)

  datatype Reaction = Reaction(keys: Keys, output: char)

  /** `keyboard_read` on one scancode. */
  function React(keys: Keys, code: Scancode): Reaction {
    if ShiftPress(code) then Reaction(keys.(shift := true), NUL)
    else if ShiftRelease(code) then Reaction(keys.(shift := false), NUL)
    else if code >= 0x80 then
      Reaction(if code - 0x80 == keys.last then keys.(last := 0, held := false) else keys, NUL)
    else if code == keys.last && keys.held then Reaction(keys, NUL)
    else Reaction(keys.(last := code, held := true), Character(code, keys.shift))
  }

  function StateAfter(keys: Keys, trace: seq<Scancode>): Keys {
    if trace == [] then keys
    else React(StateAfter(keys, trace[..|trace| - 1]), trace[|trace| - 1]).keys
  }

  /** The characters the terminal gets to see: NUL outputs are skipped. */
  function Typed(keys: Keys, trace: seq<Scancode>): string {
    if trace == [] then ""
    else
      var last := |trace| - 1;
      var output := React(StateAfter(keys, trace[..last]), trace[last]).output;
      Typed(keys, trace[..last]) + (if output == NUL then "" else [output])
  }

  class Keyboard {
    var shiftPressed: bool
    var lastScancode: Scancode
    var keyHeld: bool

    constructor ()
      ensures Value() == IDLE
    {
      shiftPressed, lastScancode, keyHeld := false, 0, false;
    }

    ghost function Value(): Keys
      reads this
    {
      Keys(shiftPressed, lastScancode, keyHeld)
    }

    /** `keyboard_read`, given the scancode the port delivers. */
    method Read(code: Scancode) returns (c: char)
      modifies this
      ensures Reaction(Value(), c) == React(old(Value()), code)
    {
      c := NUL;
      if code == KEY_LSHIFT || code == KEY_RSHIFT {
        shiftPressed := true;
        return NUL;
      }
      if code == KEY_LSHIFT + 0x80 || code == KEY_RSHIFT + 0x80 {
        shiftPressed := false;
        return NUL;
      }
      if code >= 0x80 {
        if code - 0x80 == lastScancode {
          lastScancode := 0;
          keyHeld := false;
        }
        return NUL;
      }
      c := Character(code, shiftPressed);
      if code == lastScancode && keyHeld {
        return NUL;
      }
      lastScancode := code;
      keyHeld := true;
    }
  }

  // ---------------------------------------------------------------- meaning of a trace

  /** Some shift key went down and no shift key has come up since. */
  ghost predicate ShiftDown(trace: seq<Scancode>) {
    exists j :: 0 <= j < |trace| && ShiftPress(trace[j]) &&
      forall k :: j < k < |trace| ==> !ShiftRelease(trace[k])
  }

  /** The key went down, and since then neither it came up nor any other key went down. */
  ghost predicate StillHeld(trace: seq<Scancode>, code: Scancode) {
    exists j :: 0 <= j < |trace| && trace[j] == code && UndisturbedFrom(trace, code, j)
  }

  ghost predicate UndisturbedFrom(trace: seq<Scancode>, code: Scancode, j: nat) {
    forall k :: j < k < |trace| ==> trace[k] != code + 0x80 && !(Press(trace[k]) && trace[k] != code)
  }

  lemma ShiftDownStep(trace: seq<Scancode>, code: Scancode)
    ensures ShiftDown(trace + [code]) <==> ShiftPress(code) || (!ShiftRelease(code) && ShiftDown(trace))
  {
    var all := trace + [code];
    if ShiftDown(all) {
      var j :| 0 <= j < |all| && ShiftPress(all[j]) && forall k :: j < k < |all| ==> !ShiftRelease(all[k]);
      if j < |trace| {
        assert !ShiftRelease(all[|trace|]);
        assert ShiftPress(trace[j]) && forall k :: j < k < |trace| ==> !ShiftRelease(trace[k]) by {
          assert forall k :: 0 <= k < |trace| ==> all[k] == trace[k];
        }
      }
    }
    if ShiftPress(code) {
      assert ShiftPress(all[|trace|]);
    } else if !ShiftRelease(code) && ShiftDown(trace) {
      var j :| 0 <= j < |trace| && ShiftPress(trace[j]) && forall k :: j < k < |trace| ==> !ShiftRelease(trace[k]);
      assert ShiftPress(all[j]);
    }
  }

  lemma StillHeldStep(trace: seq<Scancode>, code: Scancode, key: Scancode)
    requires Press(key)
    ensures StillHeld(trace + [code], key) <==>
            code == key || (code != key + 0x80 && !Press(code) && StillHeld(trace, key))
  {
    var all := trace + [code];
    if StillHeld(all, key) && code != key {
      var j :| 0 <= j < |all| && all[j] == key && UndisturbedFrom(all, key, j);
      assert j < |trace| && trace[j] == key;
      assert all[|trace|] == code;
      assert UndisturbedFrom(trace, key, j) by {
        assert forall k :: 0 <= k < |trace| ==> all[k] == trace[k];
      }
    }
    if code == key {
      assert all[|trace|] == key && UndisturbedFrom(all, key, |trace|);
    } else if code != key + 0x80 && !Press(code) && StillHeld(trace, key) {
      var j :| 0 <= j < |trace| && trace[j] == key && UndisturbedFrom(trace, key, j);
      assert all[j] == key && UndisturbedFrom(all, key, j);
    }
  }

  /** The three state variables remember exactly what the trace says about shift and held keys. */
  lemma {:induction false} StateMeansTrace(trace: seq<Scancode>, key: Scancode)
    requires Press(key)
    ensures StateAfter(IDLE, trace).shift <==> ShiftDown(trace)
    ensures StateAfter(IDLE, trace).held && StateAfter(IDLE, trace).last == key <==> StillHeld(trace, key)
    decreases |trace|
  {
    if trace != [] {
      var init, code := trace[..|trace| - 1], trace[|trace| - 1];
      assert trace == init + [code];
      StateMeansTrace(init, key);
      ShiftDownStep(init, code);
      StillHeldStep(init, code, key);
    }
  }

  /**
   What any scancode produces after any trace: a key that is still held produces nothing,
   a key going down its character under the current shift, and anything else nothing.
   */
  lemma OutputMeansTrace(trace: seq<Scancode>, code: Scancode)
    ensures React(StateAfter(IDLE, trace), code).output ==
            if Press(code) && !StillHeld(trace, code) then Character(code, ShiftDown(trace)) else NUL
  {
    if Press(code) { StateMeansTrace(trace, code); }
  }

  /** The scancodes of the keys a to z. */
  const LETTER_KEYS: seq<Scancode> := [
    0x1E, 0x30, 0x2E, 0x20, 0x12, 0x21, 0x22, 0x23, 0x17, 0x24, 0x25, 0x26, 0x32,
    0x31, 0x18, 0x19, 0x10, 0x13, 0x1F, 0x14, 0x16, 0x2F, 0x11, 0x2D, 0x15, 0x2C]

  lemma LetterKey(k: nat, shift: bool)
    requires k < 26
    ensures Press(LETTER_KEYS[k])
    ensures Character(LETTER_KEYS[k], shift) as int == (if shift then 'A' else 'a') as int + k
  {
  }

  /** A letter key that is not still held gives its letter, a capital exactly while a shift key is down. */
  lemma LetterMeansTrace(trace: seq<Scancode>, k: nat)
    requires k < 26 && !StillHeld(trace, LETTER_KEYS[k])
    ensures React(StateAfter(IDLE, trace), LETTER_KEYS[k]).output as int ==
            (if ShiftDown(trace) then 'A' else 'a') as int + k
  {
    LetterKey(k, ShiftDown(trace));
    OutputMeansTrace(trace, LETTER_KEYS[k]);
  }

  // ---------------------------------------------------------------- repeated reads

  /** Reading the same scancode again changes nothing and produces nothing. */
  lemma RepeatIsSilent(keys: Keys, code: Scancode)
    ensures var once := React(keys, code).keys;
            React(once, code) == Reaction(once, NUL)
  {
  }

  function Repeated(code: Scancode, times: nat): seq<Scancode> {
    seq(times, i => code)
  }

  /** Every scancode of the trace read as often as `times` says. */
  function Stretched(trace: seq<Scancode>, times: seq<nat>): seq<Scancode>
    requires |trace| == |times|
  {
    if trace == [] then []
    else
      var last := |trace| - 1;
      Stretched(trace[..last], times[..last]) + Repeated(trace[last], times[last])
  }

  lemma TraceSnoc(keys: Keys, trace: seq<Scancode>, code: Scancode)
    ensures StateAfter(keys, trace + [code]) == React(StateAfter(keys, trace), code).keys
    ensures var output := React(StateAfter(keys, trace), code).output;
            Typed(keys, trace + [code]) == Typed(keys, trace) + (if output == NUL then "" else [output])
  {
  }

  lemma {:induction false} RepeatsAreSilent(keys: Keys, trace: seq<Scancode>, code: Scancode, times: nat)
    requires times >= 1
    ensures StateAfter(keys, trace + Repeated(code, times)) == StateAfter(keys, trace + [code])
    ensures Typed(keys, trace + Repeated(code, times)) == Typed(keys, trace + [code])
    decreases times
  {
    if times == 1 {
      assert Repeated(code, 1) == [code];
    } else {
      RepeatsAreSilent(keys, trace, code, times - 1);
      var shorter := trace + Repeated(code, times - 1);
      assert trace + Repeated(code, times) == shorter + [code];
      TraceSnoc(keys, shorter, code);
      TraceSnoc(keys, trace, code);
      RepeatIsSilent(StateAfter(keys, trace), code);
      assert Typed(keys, shorter) + "" == Typed(keys, shorter);
    }
  }

  /** Same state, same text, for every trace that only differs in the last code's prefix. */
  lemma SnocDependsOnState(keys: Keys, a: seq<Scancode>, b: seq<Scancode>, code: Scancode)
    requires StateAfter(keys, a) == StateAfter(keys, b) && Typed(keys, a) == Typed(keys, b)
    ensures StateAfter(keys, a + [code]) == StateAfter(keys, b + [code])
    ensures Typed(keys, a + [code]) == Typed(keys, b + [code])
  {
  }

  lemma StretchLast(keys: Keys, trace: seq<Scancode>, stretched: seq<Scancode>, code: Scancode, times: nat)
    requires StateAfter(keys, stretched) == StateAfter(keys, trace) && Typed(keys, stretched) == Typed(keys, trace)
    requires times >= 1
    ensures StateAfter(keys, stretched + Repeated(code, times)) == StateAfter(keys, trace + [code])
    ensures Typed(keys, stretched + Repeated(code, times)) == Typed(keys, trace + [code])
  {
    RepeatsAreSilent(keys, stretched, code, times);
    SnocDependsOnState(keys, stretched, trace, code);
  }

  /** However often each scancode is read, the typed characters and the final state are the same. */
  lemma {:induction false} StretchingTypesTheSame(keys: Keys, trace: seq<Scancode>, times: seq<nat>)
    requires |trace| == |times| && forall k :: 0 <= k < |times| ==> times[k] >= 1
    ensures StateAfter(keys, Stretched(trace, times)) == StateAfter(keys, trace)
    ensures Typed(keys, Stretched(trace, times)) == Typed(keys, trace)
    decreases |trace|
  {
    if trace != [] {
      var last := |trace| - 1;
      var shorter := Stretched(trace[..last], times[..last]);
      StretchingTypesTheSame(keys, trace[..last], times[..last]);
      assert trace == trace[..last] + [trace[last]];
      StretchLast(keys, trace[..last], shorter, trace[last], times[last]);
    }
  }

  // ---------------------------------------------------------------- alphabet

  /** What the terminal can receive: printable characters, the editing keys, tab and newline. */
  predicate Typeable(c: char) {
    ' ' <= c <= '~' || c in {NUL, CHAR_UP, CHAR_DOWN, CHAR_LEFT, CHAR_RIGHT, CHAR_DEL, BACKSPACE, '\t', '\n'}
  }

  lemma PlainIsTypeable(k: nat)
    requires k < |PLAIN|
    ensures Typeable(PLAIN[k])
  {
  }

  lemma ShiftedIsTypeable(k: nat)
    requires k < |SHIFTED|
    ensures Typeable(SHIFTED[k])
  {
  }

  lemma CharactersAreTypeable(code: Scancode, shift: bool)
    ensures Typeable(Character(code, shift))
  {
    if code < |PLAIN| { PlainIsTypeable(code); }
    if code < |SHIFTED| { ShiftedIsTypeable(code); }
  }
}
