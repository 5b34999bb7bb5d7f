/**
 From characters back to scancodes: every character the terminal can receive is typed by
 some key, with or without shift, so every text can be typed.
 */
module Typing {
  import opened CStrings
  import opened Keyboard

  type KeyCode = n: Scancode | n < 0x80

  datatype Stroke = Stroke(code: KeyCode, shift: bool)

  /** The keys of the characters that are no letters and no digits. */
  function SymbolKey(c: char): Stroke {
    match c
    case '!' => Stroke(0x02, true)
    case '@' => Stroke(0x03, true)
    case '#' => Stroke(0x04, true)
    case '$' => Stroke(0x05, true)
    case '%' => Stroke(0x06, true)
    case '^' => Stroke(0x07, true)
    case '&' => Stroke(0x08, true)
    case '*' => Stroke(0x09, true)
    case '(' => Stroke(0x0A, true)
    case ')' => Stroke(0x0B, true)
    case '-' => Stroke(0x0C, false)
    case '_' => Stroke(0x0C, true)
    case '=' => Stroke(0x0D, false)
    case '+' => Stroke(0x0D, true)
    case '[' => Stroke(0x1A, false)
    case '{' => Stroke(0x1A, true)
    case ']' => Stroke(0x1B, false)
    case '}' => Stroke(0x1B, true)
    case ';' => Stroke(0x27, false)
    case ':' => Stroke(0x27, true)
    case '\'' => Stroke(0x28, false)
    case '"' => Stroke(0x28, true)
    case '`' => Stroke(0x29, false)
    case '~' => Stroke(0x29, true)
    case '\\' => Stroke(0x2B, false)
    case '|' => Stroke(0x2B, true)
    case ',' => Stroke(0x33, false)
    case '<' => Stroke(0x33, true)
    case '.' => Stroke(0x34, false)
    case '>' => Stroke(0x34, true)
    case '/' => Stroke(0x35, false)
    case '?' => Stroke(0x35, true)
    case '\n' => Stroke(0x1C, false)
    case '\t' => Stroke(0x0F, false)
    case _ => if c == BACKSPACE then Stroke(0x0E, false) else CursorKey(c)
  }

  function CursorKey(c: char): Stroke {
    if c == CHAR_UP then Stroke(0x48, false)
    else if c == CHAR_DOWN then Stroke(0x50, false)
    else if c == CHAR_LEFT then Stroke(0x4B, false)
    else if c == CHAR_RIGHT then Stroke(0x4D, false)
    else if c == CHAR_DEL then Stroke(0x53, false)
    else Stroke(0x39, false)
  }

  /** The key that types a character. */
  function KeyFor(c: char): Stroke {
    if 'a' <= c <= 'z' then Stroke(LETTER_KEYS[c as int - 'a' as int], false)
    else if 'A' <= c <= 'Z' then Stroke(LETTER_KEYS[c as int - 'A' as int], true)
    else if '1' <= c <= '9' then Stroke(c as int - '1' as int + 2, false)
    else if c == '0' then Stroke(0x0B, false)
    else SymbolKey(c)
  }

  lemma LetterTypes(c: char)
    requires 'a' <= c <= 'z' || 'A' <= c <= 'Z'
    ensures var key := KeyFor(c); Press(key.code) && Character(key.code, key.shift) == c
  {
    LetterKey(c as int - (if c >= 'a' then 'a' else 'A') as int, c < 'a');
  }

  lemma DigitTypes(c: char)
    requires '0' <= c <= '9'
    ensures var key := KeyFor(c); Press(key.code) && Character(key.code, key.shift) == c
  {
    NumberRow(KeyFor(c).code - 2, false);
  }

  lemma EarlySymbolTypes(c: char)
    requires Typeable(c) && c != NUL && c < '0'
    ensures var key := SymbolKey(c); Press(key.code) && Character(key.code, key.shift) == c
  {
  }

  lemma LateSymbolTypes(c: char)
    requires Typeable(c) && c > '9' && !('a' <= c <= 'z' || 'A' <= c <= 'Z')
    ensures var key := SymbolKey(c); Press(key.code) && Character(key.code, key.shift) == c
  {
  }

  lemma SymbolTypes(c: char)
    requires Typeable(c) && c != NUL && !('a' <= c <= 'z' || 'A' <= c <= 'Z' || '0' <= c <= '9')
    ensures var key := SymbolKey(c); Press(key.code) && Character(key.code, key.shift) == c
  {
    if c < '0' {
      EarlySymbolTypes(c);
    } else {
      LateSymbolTypes(c);
    }
  }

  lemma KeyTypes(c: char)
    requires Typeable(c) && c != NUL
    ensures var key := KeyFor(c); Press(key.code) && Character(key.code, key.shift) == c
  {
    if 'a' <= c <= 'z' || 'A' <= c <= 'Z' {
      LetterTypes(c);
    } else if '0' <= c <= '9' {
      DigitTypes(c);
    } else {
      SymbolTypes(c);
    }
  }

  /** The characters that come out are exactly those the terminal is written for. */
  lemma AlphabetIff(c: char)
    requires c != NUL
    ensures Typeable(c) <==> exists code: Scancode, shift: bool :: Press(code) && Character(code, shift) == c
  {
    if Typeable(c) {
      KeyTypes(c);
      assert Press(KeyFor(c).code) && Character(KeyFor(c).code, KeyFor(c).shift) == c;
    }
    if code: Scancode, shift: bool :| Press(code) && Character(code, shift) == c {
      CharactersAreTypeable(code, shift);
    }
  }

  // ---------------------------------------------------------------- typing a text

  ghost predicate IsShift(code: Scancode) {
    code == 0x2A || code == 0x36
  }

  /** The stroke is a key going down that gives the character. */
  ghost predicate Gives(key: Stroke, c: char) {
    Press(key.code) && Character(key.code, key.shift) == c
  }

  /** Press and release the key, between pressing and releasing shift if it is needed. */
  function Codes(key: Stroke, shiftKey: KeyCode): seq<Scancode> {
    if key.shift then [shiftKey] + [key.code] + [key.code + 0x80] + [shiftKey + 0x80]
    else [key.code] + [key.code + 0x80]
  }

  /** The trace of a sequence of strokes, with the left or the right shift key. */
  function Scancodes(keys: seq<Stroke>, shiftKey: KeyCode): seq<Scancode> {
    if keys == [] then []
    else Scancodes(keys[..|keys| - 1], shiftKey) + Codes(keys[|keys| - 1], shiftKey)
  }

  /** A key pressed and released while no other is held. */
  lemma TapTypes(keys: Keys, trace: seq<Scancode>, code: Scancode)
    requires Press(code) && StateAfter(keys, trace) == IDLE.(shift := StateAfter(keys, trace).shift)
    ensures var shift := StateAfter(keys, trace).shift;
            var after := trace + [code] + [code + 0x80];
            && StateAfter(keys, after) == StateAfter(keys, trace)
            && Typed(keys, after) ==
               Typed(keys, trace) + (if Character(code, shift) == NUL then "" else [Character(code, shift)])
  {
    TraceSnoc(keys, trace, code);
    TraceSnoc(keys, trace + [code], code + 0x80);
  }

  lemma ShiftedTapTypes(trace: seq<Scancode>, code: KeyCode, shiftKey: KeyCode)
    requires IsShift(shiftKey) && Press(code) && Character(code, true) != NUL && StateAfter(IDLE, trace) == IDLE
    ensures var after := trace + [shiftKey] + [code] + [code + 0x80] + [shiftKey + 0x80];
            StateAfter(IDLE, after) == IDLE && Typed(IDLE, after) == Typed(IDLE, trace) + [Character(code, true)]
  {
    var down := trace + [shiftKey];
    TraceSnoc(IDLE, trace, shiftKey);
    TapTypes(IDLE, down, code);
    TraceSnoc(IDLE, down + [code] + [code + 0x80], shiftKey + 0x80);
  }

  lemma CodesType(trace: seq<Scancode>, key: Stroke, c: char, shiftKey: KeyCode)
    requires IsShift(shiftKey) && Gives(key, c) && c != NUL && StateAfter(IDLE, trace) == IDLE
    ensures var after := trace + Codes(key, shiftKey);
            StateAfter(IDLE, after) == IDLE && Typed(IDLE, after) == Typed(IDLE, trace) + [c]
  {
    if key.shift {
      ShiftedTapTypes(trace, key.code, shiftKey);
      assert trace + Codes(key, shiftKey) == trace + [shiftKey] + [key.code] + [key.code + 0x80] + [shiftKey + 0x80];
    } else {
      TapTypes(IDLE, trace, key.code);
      assert trace + Codes(key, shiftKey) == trace + [key.code] + [key.code + 0x80];
    }
  }

  /** The strokes give the text, character by character. */
  ghost predicate GiveText(keys: seq<Stroke>, text: string) {
    if keys == [] || text == "" then keys == [] && text == ""
    else
      var k, n := |keys| - 1, |text| - 1;
      text[n] != NUL && Gives(keys[k], text[n]) && GiveText(keys[..k], text[..n])
  }

  /** Read from an idle keyboard, the trace types the text and leaves the keyboard idle. */
  ghost predicate Types(trace: seq<Scancode>, text: string) {
    StateAfter(IDLE, trace) == IDLE && Typed(IDLE, trace) == text
  }

  lemma OneMore(trace: seq<Scancode>, text: string, key: Stroke, c: char, shiftKey: KeyCode)
    returns (after: seq<Scancode>)
    requires Types(trace, text) && IsShift(shiftKey) && Gives(key, c) && c != NUL
    ensures after == trace + Codes(key, shiftKey) && Types(after, text + [c])
  {
    CodesType(trace, key, c, shiftKey);
    after := trace + Codes(key, shiftKey);
  }

  /** Strokes that give a text type it, with either shift key. */
  lemma {:induction false} StrokesTypeText(keys: seq<Stroke>, text: string, shiftKey: KeyCode)
    returns (trace: seq<Scancode>)
    requires IsShift(shiftKey) && GiveText(keys, text)
    ensures trace == Scancodes(keys, shiftKey) && Types(trace, text)
    decreases |keys|
  {
    if keys == [] {
      trace := [];
    } else {
      var k, n := |keys| - 1, |text| - 1;
      var before := StrokesTypeText(keys[..k], text[..n], shiftKey);
      trace := OneMore(before, text[..n], keys[k], text[n], shiftKey);
      assert text == text[..n] + [text[n]];
    }
  }

  lemma KeyOf(c: char) returns (key: Stroke)
    requires Typeable(c) && c != NUL
    ensures Gives(key, c)
  {
    KeyTypes(c);
    key := KeyFor(c);
  }

  /** Every text of characters the terminal can receive can be typed. */
  lemma {:induction false} TextCanBeTyped(text: string) returns (keys: seq<Stroke>)
    requires forall k :: 0 <= k < |text| ==> Typeable(text[k]) && text[k] != NUL
    ensures GiveText(keys, text)
    decreases |text|
  {
    if text == "" {
      keys := [];
    } else {
      var last := |text| - 1;
      var init := TextCanBeTyped(text[..last]);
      var key := KeyOf(text[last]);
      keys := init + [key];
      assert keys[..|keys| - 1] == init;
    }
  }
}
