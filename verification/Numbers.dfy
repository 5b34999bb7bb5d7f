/**
 The number printers: digits are collected last to first in a fixed buffer and then
 written out backwards.
 */
module Numbers {
  import opened Screen

  const INT64_MIN := -0x8000_0000_0000_0000
  const INT64_MAX := 0x7FFF_FFFF_FFFF_FFFF
  const UINT64_MAX := 0xFFFF_FFFF_FFFF_FFFF

  const HEX_DIGITS := "0123456789ABCDEF"

  predicate Base(b: nat) {
    b == 2 || b == 10 || b == 16
  }

  /** The numeral of `n`, most significant digit first. */
  function Digits(n: nat, base: nat): (text: string)
    requires Base(base)
    ensures |text| >= 1
    decreases n
  {
    if n < base then [HEX_DIGITS[n]] else Digits(n / base, base) + [HEX_DIGITS[n % base]]
  }

  /** `vga_put_dec`'s text: a minus sign for negative numbers. */
  function Decimal(num: int): string {
    if num < 0 then "-" + Digits(-num, 10) else Digits(num, 10)
  }

  // ---------------------------------------------------------------- reading numerals

  function DigitValue(c: char): nat {
    if '0' <= c <= '9' then c as int - '0' as int
    else if 'A' <= c <= 'F' then c as int - 'A' as int + 10
    else 0
  }

  function ReadDigits(text: string, base: nat): nat {
    if text == "" then 0
    else
      var last := |text| - 1;
      base * ReadDigits(text[..last], base) + DigitValue(text[last])
  }

  function ReadDecimal(text: string): int {
    if text != "" && text[0] == '-' then -(ReadDigits(text[1..], 10) as int) else ReadDigits(text, 10)
  }

  lemma DigitReads(d: nat)
    requires d < 16
    ensures DigitValue(HEX_DIGITS[d]) == d && HEX_DIGITS[d] != '-'
    ensures HEX_DIGITS[d] == '0' <==> d == 0
  {
  }

  lemma DivMod(n: nat, base: nat)
    requires Base(base)
    ensures n == base * (n / base) + n % base && n % base < base
    ensures if n < base then n / base == 0 && n % base == n else 0 < n / base < n
  {
  }

  /** A numeral reads back as its number, and starts with '0' only if it is "0". */
  lemma {:induction false} DigitsReadBack(n: nat, base: nat)
    requires Base(base)
    ensures ReadDigits(Digits(n, base), base) == n
    ensures Digits(n, base)[0] == '0' <==> n == 0
    ensures Digits(n, base)[0] != '-'
    decreases n
  {
    DivMod(n, base);
    DigitReads(n % base);
    if n < base {
      assert [HEX_DIGITS[n]][..0] == "";
    } else {
      DigitsReadBack(n / base, base);
      var init := Digits(n / base, base);
      assert (init + [HEX_DIGITS[n % base]])[..|init|] == init;
    }
  }

  function Power(base: nat, k: nat): nat {
    if k == 0 then 1 else base * Power(base, k - 1)
  }

  lemma {:induction false} DigitsBound(n: nat, base: nat, k: nat)
    requires Base(base) && k >= 1 && n < Power(base, k)
    ensures |Digits(n, base)| <= k
    decreases n
  {
    if n >= base {
      DivMod(n, base);
      assert Power(base, 1) == base * Power(base, 0) == base;
      QuotientBound(n, base, Power(base, k - 1));
      DigitsBound(n / base, base, k - 1);
    }
  }

  lemma QuotientBound(n: nat, base: nat, p: nat)
    requires Base(base) && n < base * p
    ensures n / base < p
  {
  }

  lemma {:induction false} PowerAdd(base: nat, i: nat, j: nat)
    ensures Power(base, i + j) == Power(base, i) * Power(base, j)
  {
    if i > 0 {
      PowerAdd(base, i - 1, j);
      var p, q := Power(base, i - 1), Power(base, j);
      assert Power(base, i + j) == base * Power(base, i - 1 + j) && Power(base, i) == base * p;
      assert base * (p * q) == base * p * q;
    }
  }

  // The powers and numerals below take their constants as parameters pinned by `requires`:
  // written as literals, the recursive functions would be unrolled digit by digit.

  lemma PowerOfTen(k: nat)
    requires k == 19
    ensures Power(10, k) == 10_000_000_000_000_000_000
  {
    PowerAdd(10, 10, 9);
  }

  lemma PowerOfSixteen(k: nat)
    requires k == 16
    ensures Power(16, k) == UINT64_MAX + 1
  {
    PowerAdd(16, 8, 8);
  }

  lemma PowerOfTwoHalf(k: nat)
    requires k == 32
    ensures Power(2, k) == 0x1_0000_0000
  {
    PowerAdd(2, 8, 8);
    PowerAdd(2, 16, 16);
  }

  lemma PowerOfTwo(k: nat)
    requires k == 64
    ensures Power(2, k) == UINT64_MAX + 1
  {
    PowerOfTwoHalf(k - 32);
    PowerAdd(2, k - 32, k - 32);
  }

  /** Every 64-bit number prints as a numeral that reads back, without superfluous zeros, within 19 digits. */
  lemma DecimalReadsBack(num: int)
    requires INT64_MIN <= num <= INT64_MAX
    ensures ReadDecimal(Decimal(num)) == num
    ensures var digits := if num < 0 then Decimal(num)[1..] else Decimal(num);
            1 <= |digits| <= 19 && (digits[0] == '0' ==> digits == "0" && num == 0)
  {
    var n: nat := if num < 0 then -num else num;
    DigitsReadBack(n, 10);
    PowerOfTen(19);
    DigitsBound(n, 10, 19);
    assert num < 0 ==> Decimal(num)[1..] == Digits(n, 10);
  }

  /** The same for the hexadecimal and binary printers: at most 16 and 64 digits. */
  lemma UnsignedReadsBack(num: nat)
    requires num <= UINT64_MAX
    ensures ReadDigits(Digits(num, 16), 16) == num && |Digits(num, 16)| <= 16
    ensures ReadDigits(Digits(num, 2), 2) == num && |Digits(num, 2)| <= 64
    ensures Digits(num, 16)[0] == '0' ==> Digits(num, 16) == "0"
    ensures Digits(num, 2)[0] == '0' ==> Digits(num, 2) == "0"
  {
    PowerOfSixteen(16);
    PowerOfTwo(64);
    DigitsReadBack(num, 16);
    DigitsReadBack(num, 2);
    DigitsBound(num, 16, 16);
    DigitsBound(num, 2, 64);
  }

  // ---------------------------------------------------------------- the printers

  function Reversed(s: string): string {
    if s == "" then "" else [s[|s| - 1]] + Reversed(s[..|s| - 1])
  }

  lemma ReversedSnoc(s: string, c: char)
    ensures Reversed(s + [c]) == [c] + Reversed(s)
  {
  }

  lemma {:induction false} ReversedLength(s: string)
    ensures |Reversed(s)| == |s|
  {
    if s != "" { ReversedLength(s[..|s| - 1]); }
  }

  /** The digits still to come when `rest` is what is left of the number. */
  function Pending(rest: nat, base: nat): string
    requires Base(base)
  {
    if rest == 0 then "" else Digits(rest, base)
  }

  lemma DigitsStep(n: nat, base: nat)
    requires Base(base)
    ensures n / base < n || n == 0
    ensures Digits(n, base) == Pending(n / base, base) + [HEX_DIGITS[n % base]]
  {
    DivMod(n, base);
  }

  lemma Regroup(a: string, c: char, b: string)
    ensures a + [c] + b == a + ([c] + b)
  {
  }

  /** Taking one more digit off `rest` and putting it behind the ones already taken. */
  lemma TakeDigit(rest: nat, base: nat, taken: string, whole: string) returns (pending: string)
    requires Base(base) && whole == Digits(rest, base) + Reversed(taken)
    ensures rest / base < rest || rest == 0
    ensures |taken| < |whole| && pending == Pending(rest / base, base)
    ensures whole == pending + Reversed(taken + [HEX_DIGITS[rest % base]])
  {
    DigitsStep(rest, base);
    ReversedLength(taken);
    ReversedSnoc(taken, HEX_DIGITS[rest % base]);
    pending := Pending(rest / base, base);
    Regroup(pending, HEX_DIGITS[rest % base], Reversed(taken));
  }

  /** The hexadecimal digit loop, which runs at least once. */
  method CollectHex(num: nat, buf: array<char>) returns (i: nat)
    requires |Digits(num, 16)| <= buf.Length
    modifies buf
    ensures i <= buf.Length && Reversed(buf[..i]) == Digits(num, 16)
  {
    ghost var whole, pending, taken := Digits(num, 16), Digits(num, 16), "";
    i := 0;
    var rest: nat := num;
    var more := true;
    while more
      invariant i == |taken| <= buf.Length && buf[..i] == taken
      invariant whole == pending + Reversed(taken)
      invariant pending == if more then Digits(rest, 16) else ""
      decreases more, rest
    {
      pending := TakeDigit(rest, 16, taken, whole);
      buf[i] := HEX_DIGITS[rest % 16];
      taken := taken + [HEX_DIGITS[rest % 16]];
      i := i + 1;
      rest := rest / 16;
      more := rest > 0;
    }
  }

  /** The binary digit loop, which runs at least once. */
  method CollectBinary(num: nat, buf: array<char>) returns (i: nat)
    requires |Digits(num, 2)| <= buf.Length
    modifies buf
    ensures i <= buf.Length && Reversed(buf[..i]) == Digits(num, 2)
  {
    ghost var whole, pending, taken := Digits(num, 2), Digits(num, 2), "";
    i := 0;
    var rest: nat := num;
    var more := true;
    while more
      invariant i == |taken| <= buf.Length && buf[..i] == taken
      invariant whole == pending + Reversed(taken)
      invariant pending == if more then Digits(rest, 2) else ""
      decreases more, rest
    {
      pending := TakeDigit(rest, 2, taken, whole);
      DecimalDigit(rest % 2);
      assert |whole| > i;
      buf[i] := ('0' as int + rest % 2) as char;
      taken := taken + [HEX_DIGITS[rest % 2]];
      i := i + 1;
      rest := rest / 2;
      more := rest > 0;
    }
  }

  /** The decimal digit loop, which runs while anything is left. */
  method CollectDecimal(num: nat, buf: array<char>) returns (i: nat)
    requires num > 0 && |Digits(num, 10)| <= buf.Length
    modifies buf
    ensures i <= buf.Length && Reversed(buf[..i]) == Digits(num, 10)
  {
    ghost var whole, pending, taken := Digits(num, 10), Digits(num, 10), "";
    i := 0;
    var rest: nat := num;
    while rest > 0
      invariant i == |taken| <= buf.Length && buf[..i] == taken
      invariant whole == pending + Reversed(taken)
      invariant pending == Pending(rest, 10)
      decreases rest
    {
      pending := TakeDigit(rest, 10, taken, whole);
      var digit := rest % 10;
      DecimalDigit(digit);
      buf[i] := ('0' as int + digit) as char;
      taken := taken + [HEX_DIGITS[digit]];
      i := i + 1;
      rest := rest / 10;
    }
  }

  /** Writes the first `n` characters of the buffer, last one first. */
  method WriteReversed(screen: Screen, buf: array<char>, n: nat)
    requires screen.Valid() && n <= buf.Length && screen.buffer as object != buf as object
    modifies screen`cursorX, screen`cursorY, screen.buffer
    ensures screen.Valid() && screen.Value() == PutAll(old(screen.Value()), Reversed(buf[..n]))
  {
    var i: nat := n;
    while i > 0
      invariant i <= n && screen.Valid()
      invariant PutAll(screen.Value(), Reversed(buf[..i])) == PutAll(old(screen.Value()), Reversed(buf[..n]))
    {
      i := i - 1;
      assert buf[..i + 1][..i] == buf[..i];
      assert Reversed(buf[..i + 1])[1..] == Reversed(buf[..i]);
      screen.PutChar(buf[i]);
    }
  }

  /** `vga_put_hex` */
  method PutHex(screen: Screen, num: nat)
    requires screen.Valid() && num <= UINT64_MAX
    modifies screen`cursorX, screen`cursorY, screen.buffer
    ensures screen.Valid() && screen.Value() == PutAll(old(screen.Value()), "0x" + Digits(num, 16))
  {
    UnsignedReadsBack(num);
    var buf := new char[32];
    var i := CollectHex(num, buf);
    screen.Write("0x");
    WriteReversed(screen, buf, i);
    PutAllConcat(old(screen.Value()), "0x", Digits(num, 16));
  }

  /** `vga_put_bin` */
  method PutBin(screen: Screen, num: nat)
    requires screen.Valid() && num <= UINT64_MAX
    modifies screen`cursorX, screen`cursorY, screen.buffer
    ensures screen.Valid() && screen.Value() == PutAll(old(screen.Value()), "0b" + Digits(num, 2))
  {
    UnsignedReadsBack(num);
    var buf := new char[65];
    var i := CollectBinary(num, buf);
    screen.Write("0b");
    WriteReversed(screen, buf, i);
    PutAllConcat(old(screen.Value()), "0b", Digits(num, 2));
  }

  /** `vga_put_dec`, with its special cases for zero and for the least number. */
  method PutDec(screen: Screen, num: int)
    requires screen.Valid() && INT64_MIN <= num <= INT64_MAX
    modifies screen`cursorX, screen`cursorY, screen.buffer
    ensures screen.Valid() && screen.Value() == PutAll(old(screen.Value()), Decimal(num))
  {
    if num == INT64_MIN {
      LeastNumeral(9, 9223, 9223372, 9223372036, 9223372036854, 9223372036854775, -num);
      screen.Write("-9223372036854775808");
      return;
    }
    var buf := new char[32];
    var n: nat := if num < 0 then -num else num;
    DecimalReadsBack(num);
    assert num < 0 ==> Decimal(num)[1..] == Digits(n, 10);
    var i := CollectMagnitude(n, buf);
    if num < 0 {
      screen.PutChar('-');
      assert "-"[1..] == "";
      PutAllConcat(old(screen.Value()), "-", Digits(n, 10));
    }
    WriteReversed(screen, buf, i);
  }

  /** The digits of a non-negative number; zero is a case of its own. */
  method CollectMagnitude(n: nat, buf: array<char>) returns (i: nat)
    requires |Digits(n, 10)| <= buf.Length
    modifies buf
    ensures i <= buf.Length && Reversed(buf[..i]) == Digits(n, 10)
  {
    if n == 0 {
      buf[0] := '0';
      i := 1;
      assert buf[..1] == "" + ['0'];
      ReversedSnoc("", '0');
    } else {
      i := CollectDecimal(n, buf);
    }
  }

  lemma DecimalDigit(d: nat)
    requires d < 10
    ensures ('0' as int + d) as char == HEX_DIGITS[d]
  {
  }

  /** Reading on from `n`: every further digit multiplies by ten and adds. */
  function ReadOn(n: nat, more: string): nat
    decreases |more|
  {
    if more == "" then n else ReadOn(10 * n + DigitValue(more[0]), more[1..])
  }

  lemma AppendDigit(n: nat, c: char)
    requires n > 0 && '0' <= c <= '9'
    ensures Digits(10 * n + DigitValue(c), 10) == Digits(n, 10) + [c]
  {
    var d := DigitValue(c);
    assert HEX_DIGITS[d] == c;
    assert (10 * n + d) / 10 == n && (10 * n + d) % 10 == d;
  }

  lemma DigitMovesOver(digits: string, more: string)
    requires more != ""
    ensures digits + [more[0]] + more[1..] == digits + more
  {
  }

  lemma {:induction false} AppendDigits(n: nat, more: string)
    requires n > 0 && forall k :: 0 <= k < |more| ==> '0' <= more[k] <= '9'
    ensures Digits(ReadOn(n, more), 10) == Digits(n, 10) + more
    decreases |more|
  {
    if more == "" {
      assert Digits(n, 10) + more == Digits(n, 10);
    } else {
      AppendDigit(n, more[0]);
      AppendDigits(10 * n + DigitValue(more[0]), more[1..]);
      DigitMovesOver(Digits(n, 10), more);
    }
  }

  lemma ReadThree(n: nat, a: char, b: char, c: char)
    ensures ReadOn(n, [a, b, c]) == 1000 * n + 100 * DigitValue(a) + 10 * DigitValue(b) + DigitValue(c)
  {
    var n1 := 10 * n + DigitValue(a);
    var n2 := 10 * n1 + DigitValue(b);
    assert [a, b, c][1..] == [b, c] && [b, c][1..] == [c] && [c][1..] == "";
    assert ReadOn(n2, [c]) == ReadOn(10 * n2 + DigitValue(c), "");
    assert ReadOn(n1, [b, c]) == ReadOn(n2, [c]);
  }

  lemma ThreeMore(n: nat, a: char, b: char, c: char, m: nat)
    requires n > 0 && '0' <= a <= '9' && '0' <= b <= '9' && '0' <= c <= '9'
    requires m == 1000 * n + 100 * DigitValue(a) + 10 * DigitValue(b) + DigitValue(c)
    ensures Digits(m, 10) == Digits(n, 10) + [a, b, c]
  {
    ReadThree(n, a, b, c);
    AppendDigits(n, [a, b, c]);
  }

  /**
   The literal the kernel prints for the least number is that number's numeral.  The
   parameters are its leading 1, 4, 7, ... digits, named so that none is unrolled.
   */
  lemma LeastNumeral(n1: nat, n4: nat, n7: nat, n10: nat, n13: nat, n16: nat, n19: nat)
    requires n1 == 9 && n4 == 9223 && n7 == 9223372 && n10 == 9223372036 && n13 == 9223372036854
    requires n16 == 9223372036854775 && n19 == 9223372036854775808
    ensures Digits(n19, 10) == "9223372036854775808"
  {
    ThreeMore(n1, '2', '2', '3', n4);
    ThreeMore(n4, '3', '7', '2', n7);
    ThreeMore(n7, '0', '3', '6', n10);
    ThreeMore(n10, '8', '5', '4', n13);
    ThreeMore(n13, '7', '7', '5', n16);
    ThreeMore(n16, '8', '0', '8', n19);
    assert Digits(n1, 10) == "9";
    assert "9" + "223" + "372" + "036" + "854" + "775" + "808" == "9223372036854775808";
  }
}
