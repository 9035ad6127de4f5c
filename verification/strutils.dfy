/** Conversion between machine integers and text. A text is what comes before its terminating
    NUL; `raw` is the content of the 4- or 8-byte variable, whatever its signedness.
 */
module StrUtils {
  import opened Arithmetic
  import opened Memory

  const QWORD_RANGE := 0x1_0000_0000_0000_0000
  const DWORD_RANGE := 0x1_0000_0000
  const MAX_DWORD := 0xFFFF_FFFF
  const MAX_BYTE := 0xFF

  const DIGIT_0: Byte := 0x30
  const UPPER_A: Byte := 0x41
  const LOWER_A: Byte := 0x61
  const MINUS: Byte := 0x2D
  const NUL: Byte := 0
  const VSNPRINTF_BUFFER_SIZE := 65

  datatype Outcome = Ok(value: nat) | Panic

  function Range(is64: bool): nat {
    if is64 then QWORD_RANGE else DWORD_RANGE
  }

  predicate IsNegative(raw: nat, signed: bool, is64: bool) {
    signed && raw >= Range(is64) / 2
  }

  /** The integer that the variable stands for. */
  function Meaning(raw: nat, signed: bool, is64: bool): int {
    if IsNegative(raw, signed, is64) then raw - Range(is64) else raw
  }

  /** The 64-bit number whose digits are written. A negative value is negated in its own
      width; the 32-bit minimum stays negative by that, and is then sign-extended. */
  function Magnitude(raw: nat, signed: bool, is64: bool): nat
    requires raw < Range(is64)
  {
    if IsNegative(raw, signed, is64) then
      var negated := (Range(is64) - raw) % Range(is64);
      if !is64 && negated >= DWORD_RANGE / 2 then negated + (QWORD_RANGE - DWORD_RANGE) else negated
    else raw
  }

  // ---------------------------------------------------------------- digits

  /** The character written for a digit; the digit passes through a signed 32-bit variable. */
  function DigitChar(d: nat): Byte {
    var digit := if d < DWORD_RANGE / 2 then d else d - DWORD_RANGE;
    if digit > 9 then (digit - 10 + UPPER_A as int) % 0x100 else (digit + DIGIT_0 as int) % 0x100
  }

  /** Least significant digit first; zero has one digit. */
  function LowDigits(value: nat, base: nat): (r: seq<Byte>)
    requires base >= 2
    ensures value > 0 ==> |r| > 0
    decreases value
  {
    if value == 0 then [] else [DigitChar(value % base)] + LowDigits(value / base, base)
  }

  lemma QuotientAtMost(value: nat, base: nat, divisor: nat)
    requires base >= divisor > 0
    ensures value / base * divisor <= value
  {
    var q := value / base;
    assert value == q * base + value % base;
    assert q * base >= q * divisor;
  }

  lemma DigitStep(value: nat, base: nat)
    requires value > 0 && base >= 2
    ensures value / base <= value / 2 < value
    ensures LowDigits(value, base) == [DigitChar(value % base)] + LowDigits(value / base, base)
  {
    QuotientAtMost(value, base, 2);
  }

  lemma NoLowDigits(base: nat)
    requires base >= 2
    ensures LowDigits(0, base) == []
  {
  }

  function Reversed(s: seq<Byte>): (r: seq<Byte>)
    ensures |r| == |s|
    ensures forall i :: 0 <= i < |s| ==> r[i] == s[|s| - 1 - i]
  {
    seq(|s|, i requires 0 <= i < |s| => s[|s| - 1 - i])
  }

  /** The digits, and the sign behind them, as they are before the reversal. */
  function LowText(raw: nat, signed: bool, base: nat, is64: bool): (r: seq<Byte>)
    requires raw < Range(is64) && base >= 2
  {
    var value := Magnitude(raw, signed, is64);
    UnsignedDigits(value, base) + (if IsNegative(raw, signed, is64) then [MINUS] else [])
  }

  function Text(raw: nat, signed: bool, base: nat, is64: bool): (r: seq<Byte>)
    requires raw < Range(is64) && base >= 2
    ensures |r| == |LowText(raw, signed, base, is64)|
  {
    Reversed(LowText(raw, signed, base, is64))
  }

  // ---------------------------------------------------------------- reading digits

  predicate IsAscii(c: Byte) { 0x1F < c < 0x80 }

  /** c | 0x20 */
  function ToLower(c: Byte): Byte {
    if c / 0x20 % 2 == 1 then c else c + 0x20
  }

  function CharValue(c: Byte): nat {
    var lower := ToLower(c);
    if DIGIT_0 <= lower <= DIGIT_0 + 9 then lower - DIGIT_0
    else if LOWER_A <= lower <= LOWER_A + 25 then lower - LOWER_A + 10
    else MAX_BYTE
  }

  predicate IsDigit(c: Byte, base: nat) {
    IsAscii(c) && CharValue(c) < base
  }

  /** The number a string of digits denotes, without any bound on its size. */
  function Denotes(digits: seq<Byte>, base: nat): nat {
    if digits == [] then 0 else Denotes(digits[..|digits| - 1], base) * base + CharValue(digits[|digits| - 1])
  }

  predicate AllDigits(digits: seq<Byte>, base: nat) {
    forall c :: c in digits ==> IsDigit(c, base)
  }

  function TextSign(text: seq<Byte>): bool { text != [] && text[0] == MINUS }

  function TextDigits(text: seq<Byte>): seq<Byte> {
    if TextSign(text) then text[1..] else text
  }

  /** The integer a whole text denotes. */
  function TextMeaning(text: seq<Byte>, base: nat): int {
    var n: int := Denotes(TextDigits(text), base);
    if TextSign(text) then -n else n
  }

  /** What atoi stores: the denoted number modulo the width, unless an ASSERT fails. */
  function ReadText(text: seq<Byte>, base: nat, is64: bool): Outcome {
    var value := Denotes(TextDigits(text), base) % QWORD_RANGE;
    if !AllDigits(TextDigits(text), base) then Panic
    else if is64 then Ok(TextMeaning(text, base) % QWORD_RANGE)
    else if TextSign(text) || value <= MAX_DWORD then Ok(TextMeaning(text, base) % QWORD_RANGE % DWORD_RANGE)
    else Panic
  }

  /** The characters themselves: digits are written '0' to '9' and 'A' to 'Z', and read in either case;
      the sign is '-'. */
  lemma Alphabet(d: nat, c: Byte)
    ensures d < 10 ==> DigitChar(d) == 0x30 + d
    ensures 10 <= d < 36 ==> DigitChar(d) == 0x41 + d - 10
    ensures 0x30 <= c <= 0x39 ==> CharValue(c) == c - 0x30
    ensures 0x41 <= c <= 0x5A ==> CharValue(c) == c - 0x41 + 10
    ensures 0x61 <= c <= 0x7A ==> CharValue(c) == c - 0x61 + 10
    ensures TextSign([c]) <==> c == 0x2D
  {
  }

  /** What is a digit, and nothing else is: no more characters in bases above 36, but every printable one
      in bases above 255. */
  lemma IsDigitIff(c: Byte, base: nat)
    ensures base <= 36 ==>
      (IsDigit(c, base) <==>
        || 0x30 <= c < 0x30 + base <= 0x3A || (base > 10 && 0x30 <= c <= 0x39)
        || 0x41 <= c < 0x41 + base - 10 || 0x61 <= c < 0x61 + base - 10)
    ensures 36 < base <= 0xFF ==> (IsDigit(c, base) <==> IsDigit(c, 36))
    ensures base > 0xFF ==> (IsDigit(c, base) <==> 0x20 <= c <= 0x7F)
  {
  }

  /** When a text is refused, and what is stored otherwise: the number it denotes, in the width of the
      variable. In 32 bits a text without a sign may not denote more than fits, but what is looked at is
      the number in 64 bits. */
  lemma ReadTextIs(text: seq<Byte>, base: nat, is64: bool)
    ensures var minus := text != [] && text[0] == 0x2D;
            var digits := if minus then text[1..] else text;
            var n: int, r := Denotes(digits, base), ReadText(text, base, is64);
      && (r == Panic <==>
            || (exists i :: 0 <= i < |digits| && !IsDigit(digits[i], base))
            || (!is64 && !minus && n % 0x1_0000_0000_0000_0000 > 0xFFFF_FFFF))
      && (r.Ok? ==> r.value == (if minus then -n else n) % if is64 then 0x1_0000_0000_0000_0000 else 0x1_0000_0000)
  {
    hide Denotes, IsDigit;
    InLowHalf(TextMeaning(text, base));
  }

  lemma InLowHalf(x: int)
    ensures x % 0x1_0000_0000_0000_0000 % 0x1_0000_0000 == x % 0x1_0000_0000
  {
    var low := x % 0x1_0000_0000_0000_0000;
    DivUnique(x, 0x1_0000_0000, x / 0x1_0000_0000_0000_0000 * 0x1_0000_0000 + low / 0x1_0000_0000, low % 0x1_0000_0000);
  }

  // ---------------------------------------------------------------- round trip

  lemma DigitIsRead(d: nat, base: nat)
    requires d < base <= 36
    ensures IsDigit(DigitChar(d), base) && CharValue(DigitChar(d)) == d && DigitChar(d) != MINUS
  {
  }

  lemma AppendDigit(digits: seq<Byte>, base: nat, d: nat)
    requires d < base <= 36 && AllDigits(digits, base) && MINUS !in digits
    ensures var text := digits + [DigitChar(d)];
      && AllDigits(text, base) && MINUS !in text
      && Denotes(text, base) == Denotes(digits, base) * base + d
  {
    DigitIsRead(d, base);
    hide DigitChar, CharValue, IsDigit;
    var text := digits + [DigitChar(d)];
    assert text[..|text| - 1] == digits;
  }

  lemma {:induction false} DigitsAreRead(value: nat, base: nat)
    requires 2 <= base <= 36
    ensures var text := Reversed(LowDigits(value, base));
      AllDigits(text, base) && Denotes(text, base) == value && MINUS !in text
    decreases value
  {
    hide DigitChar, CharValue, IsDigit, AllDigits, Denotes, LowDigits;
    if value > 0 {
      DigitStep(value, base);
      var rest, digit := value / base, value % base;
      DigitsAreRead(rest, base);
      AppendDigit(Reversed(LowDigits(rest, base)), base, digit);
      assert Reversed(LowDigits(value, base)) == Reversed(LowDigits(rest, base)) + [DigitChar(digit)];
      assert rest * base + digit == value;
    } else {
      NoLowDigits(base);
      assert Reversed([]) == [];
      NoDigits(base);
    }
  }

  lemma NoDigits(base: nat)
    ensures AllDigits([], base) && Denotes([], base) == 0
  {
  }

  /** The digits before the reversal, without the sign. */
  function UnsignedDigits(value: nat, base: nat): (r: seq<Byte>)
    requires base >= 2
    ensures |r| > 0
  {
    if value == 0 then [DIGIT_0] else LowDigits(value, base)
  }

  lemma UnsignedAreRead(value: nat, base: nat)
    requires 2 <= base <= 36
    ensures var text := Reversed(UnsignedDigits(value, base));
      AllDigits(text, base) && Denotes(text, base) == value && MINUS !in text
  {
    hide DigitChar, CharValue, IsDigit, AllDigits, Denotes;
    DigitsAreRead(value, base);
    if value == 0 {
      NoDigits(base);
      AppendDigit([], base, 0);
      assert DigitChar(0) == DIGIT_0 by { ZeroChar(); }
      assert Reversed([DIGIT_0]) == [] + [DIGIT_0];
    }
  }

  lemma ZeroChar()
    ensures DigitChar(0) == DIGIT_0
  {
  }

  lemma SignAndDigits(raw: nat, signed: bool, base: nat, is64: bool)
    requires raw < Range(is64) && base >= 2
    ensures Text(raw, signed, base, is64) == (if IsNegative(raw, signed, is64) then [MINUS] else [])
                                           + Reversed(UnsignedDigits(Magnitude(raw, signed, is64), base))
  {
    hide IsNegative, Magnitude, LowDigits;
  }

  lemma WrittenParts(raw: nat, signed: bool, base: nat, is64: bool)
    requires raw < Range(is64) && 2 <= base <= 36
    ensures var text := Text(raw, signed, base, is64);
      && TextSign(text) == IsNegative(raw, signed, is64)
      && AllDigits(TextDigits(text), base)
      && Denotes(TextDigits(text), base) == Magnitude(raw, signed, is64)
  {
    hide AllDigits, Denotes, IsNegative, Magnitude, UnsignedDigits, Text;
    var digits := Reversed(UnsignedDigits(Magnitude(raw, signed, is64), base));
    UnsignedAreRead(Magnitude(raw, signed, is64), base);
    SignAndDigits(raw, signed, base, is64);
    var text := Text(raw, signed, base, is64);
    assert digits[0] in digits;
    assert text == (if IsNegative(raw, signed, is64) then [MINUS] + digits else digits);
    assert TextDigits(text) == digits;
  }

  /** The text itself denotes the value in all cases but one: the 32-bit minimum. */
  lemma TextIsRight(raw: nat, signed: bool, base: nat, is64: bool)
    requires raw < Range(is64) && 2 <= base <= 36
    ensures TextMeaning(Text(raw, signed, base, is64), base) == Meaning(raw, signed, is64)
       <==> !(signed && !is64 && raw == DWORD_RANGE / 2)
  {
    hide AllDigits, Denotes, Text, TextSign, TextDigits;
    WrittenParts(raw, signed, base, is64);
    MagnitudeIsRight(raw, signed, is64);
  }

  lemma MagnitudeIsRight(raw: nat, signed: bool, is64: bool)
    requires raw < Range(is64)
    ensures var n: int := Magnitude(raw, signed, is64);
      ((if IsNegative(raw, signed, is64) then -n else n) == Meaning(raw, signed, is64))
      <==> !(signed && !is64 && raw == DWORD_RANGE / 2)
  {
  }

  /** Reading back what was written restores the variable, for every value of either width and
      signedness, that one included. */
  lemma RoundTrip(raw: nat, signed: bool, base: nat, is64: bool)
    requires raw < Range(is64) && 2 <= base <= 36
    ensures ReadText(Text(raw, signed, base, is64), base, is64) == Ok(raw)
  {
    hide AllDigits, Denotes, Text, TextSign, TextDigits, Magnitude, IsNegative;
    WrittenParts(raw, signed, base, is64);
    NegatesBack(raw, signed, is64);
  }

  lemma NegatesBack(raw: nat, signed: bool, is64: bool)
    requires raw < Range(is64)
    ensures Magnitude(raw, signed, is64) < QWORD_RANGE
    ensures var n: int := Magnitude(raw, signed, is64);
      (if IsNegative(raw, signed, is64) then -n else n) % QWORD_RANGE % Range(is64) == raw
    ensures is64 ==> var n: int := Magnitude(raw, signed, is64);
      (if IsNegative(raw, signed, is64) then -n else n) % QWORD_RANGE == raw
    ensures !is64 && !IsNegative(raw, signed, is64) ==> Magnitude(raw, signed, is64) <= MAX_DWORD
  {
    var n: int := Magnitude(raw, signed, is64);
    if IsNegative(raw, signed, is64) {
      if is64 {
        WrapNegative(n, QWORD_RANGE - n);
      } else if raw == DWORD_RANGE / 2 {
        assert n == QWORD_RANGE - raw;
        WrapNegative(n, raw);
      } else {
        assert n == DWORD_RANGE - raw;
        WrapNegative(n, raw + DWORD_RANGE * (DWORD_RANGE - 1));
        LowHalf(raw);
      }
    }
  }

  lemma WrapNegative(n: int, m: int)
    requires 0 < n < QWORD_RANGE && m == QWORD_RANGE - n
    ensures -n % QWORD_RANGE == m
  {
  }

  lemma LowHalf(raw: nat)
    requires raw < DWORD_RANGE
    ensures (raw + DWORD_RANGE * (DWORD_RANGE - 1)) % DWORD_RANGE == raw
  {
  }

  /** Larger bases do not survive: already the digit 36 is read as something else. */
  lemma RoundTripExactlyUpTo36(base: nat, is64: bool)
    requires 2 <= base < DWORD_RANGE
    ensures (forall raw: nat :: raw < Range(is64) ==> ReadText(Text(raw, false, base, is64), base, is64) == Ok(raw))
       <==> base <= 36
  {
    if base <= 36 {
      forall raw: nat | raw < Range(is64)
        ensures ReadText(Text(raw, false, base, is64), base, is64) == Ok(raw)
      {
        RoundTrip(raw, false, base, is64);
      }
    } else {
      Digit36(base);
      hide AllDigits, Denotes, DigitChar, CharValue;
      SignAndDigits(36, false, base, is64);
      assert Reversed([DigitChar(36)]) == [DigitChar(36)];
      assert Text(36, false, base, is64) == [DigitChar(36)];
      assert ReadText(Text(36, false, base, is64), base, is64) != Ok(36);
    }
  }

  lemma Digit36(base: nat)
    requires base > 36
    ensures UnsignedDigits(36, base) == [DigitChar(36)] && DigitChar(36) != MINUS
    ensures Denotes([DigitChar(36)], base) == MAX_BYTE
  {
    Char36();
    hide DigitChar, CharValue, LowDigits;
    DigitStep(36, base);
    NoLowDigits(base);
    assert 36 % base == 36 && 36 / base == 0;
    OneDigit(DigitChar(36), base);
  }

  lemma OneDigit(c: Byte, base: nat)
    ensures Denotes([c], base) == CharValue(c)
  {
    hide CharValue;
    assert [c][..0] == [] && Denotes([], base) == 0;
  }

  lemma Char36()
    ensures DigitChar(36) != MINUS && CharValue(DigitChar(36)) == MAX_BYTE
  {
  }

  // ---------------------------------------------------------------- length

  function Pow2(n: nat): nat {
    if n == 0 then 1 else 2 * Pow2(n - 1)
  }

  lemma {:induction false} BinaryLength(value: nat, base: nat, n: nat)
    requires base >= 2 && value < Pow2(n)
    ensures |LowDigits(value, base)| <= n
    decreases n
  {
    hide LowDigits, DigitChar;
    if value > 0 {
      DigitStep(value, base);
      var rest := value / base;
      assert n > 0 && rest <= value / 2 < Pow2(n - 1);
      BinaryLength(rest, base, n - 1);
    } else {
      NoLowDigits(base);
    }
  }

  /** Numbers below `limit` have at most `n` digits. */
  ghost predicate Short(base: nat, limit: nat, n: nat)
    requires base >= 2
  {
    forall value: nat :: value < limit ==> |LowDigits(value, base)| <= n
  }

  lemma OneMoreDigit(base: nat, limit: nat, n: nat)
    requires base >= 3 && Short(base, limit, n)
    ensures Short(base, 3 * limit, n + 1)
  {
    hide LowDigits, DigitChar;
    forall value: nat | value < 3 * limit
      ensures |LowDigits(value, base)| <= n + 1
    {
      if value > 0 {
        DigitStep(value, base);
        QuotientAtMost(value, base, 3);
      } else {
        NoLowDigits(base);
      }
    }
  }

  /** In bases above 2, 63 digits are enough for 64 bits. */
  lemma LargerBasesAreShorter(value: nat, base: nat)
    requires base >= 3 && value < QWORD_RANGE
    ensures |LowDigits(value, base)| <= 63
  {
    Pow2Values();
    forall v: nat | v < Pow2(61)
      ensures |LowDigits(v, base)| <= 61
    {
      BinaryLength(v, base, 61);
    }
    hide LowDigits;
    OneMoreDigit(base, Pow2(61), 61);
    OneMoreDigit(base, 3 * Pow2(61), 62);
  }

  lemma {:induction false} BinaryExact(value: nat, n: nat)
    requires Pow2(n) <= value < Pow2(n + 1)
    ensures |LowDigits(value, 2)| == n + 1
    decreases n
  {
    hide LowDigits, DigitChar;
    DigitStep(value, 2);
    if n > 0 {
      BinaryExact(value / 2, n - 1);
    } else {
      NoLowDigits(2);
    }
  }

  lemma Pow2Values()
    ensures Pow2(61) == 0x2000_0000_0000_0000 && Pow2(63) == QWORD_RANGE / 2 && Pow2(64) == QWORD_RANGE
  {
    assert Pow2(8) == 0x100;
    assert Pow2(16) == 0x1_0000;
    assert Pow2(24) == 0x100_0000;
    assert Pow2(32) == 0x1_0000_0000;
    assert Pow2(40) == 0x100_0000_0000;
    assert Pow2(48) == 0x1_0000_0000_0000;
    assert Pow2(56) == 0x100_0000_0000_0000;
    assert Pow2(61) == 0x2000_0000_0000_0000;
  }

  /** The formatting buffer of 65 bytes is large enough for every number in every base, NUL
      included, but for the two signed minima in base 2. */
  lemma TextFits(raw: nat, signed: bool, base: nat, is64: bool)
    requires raw < Range(is64) && base >= 2
    ensures |Text(raw, signed, base, is64)| + 1 <= VSNPRINTF_BUFFER_SIZE
       <==> !(base == 2 && signed && raw == Range(is64) / 2)
    ensures !signed ==> |Text(raw, signed, base, is64)| <= 64
  {
    var value, negative := Magnitude(raw, signed, is64), IsNegative(raw, signed, is64);
    MagnitudeBounds(raw, signed, is64);
    Pow2Values();
    UnsignedLength(value, base);
    assert |Text(raw, signed, base, is64)| == |UnsignedDigits(value, base)| + if negative then 1 else 0;
    hide Magnitude, IsNegative, LowDigits, UnsignedDigits, Text;
    BinaryLength(value, base, 64);
    if negative {
      if base >= 3 {
        LargerBasesAreShorter(value, base);
      } else if value >= QWORD_RANGE / 2 {
        BinaryExact(value, 63);
      } else {
        BinaryLength(value, base, 63);
      }
    }
  }

  lemma UnsignedLength(value: nat, base: nat)
    requires base >= 2
    ensures |UnsignedDigits(value, base)| == if value == 0 then 1 else |LowDigits(value, base)|
  {
    hide LowDigits;
  }

  lemma MagnitudeBounds(raw: nat, signed: bool, is64: bool)
    requires raw < Range(is64)
    ensures Magnitude(raw, signed, is64) < QWORD_RANGE
    ensures IsNegative(raw, signed, is64) ==> signed && Magnitude(raw, signed, is64) > 0
    ensures signed && raw == Range(is64) / 2 ==> IsNegative(raw, signed, is64)
    ensures IsNegative(raw, signed, is64) ==>
      (Magnitude(raw, signed, is64) >= QWORD_RANGE / 2 <==> raw == Range(is64) / 2)
  {
  }

  // ---------------------------------------------------------------- the methods

  /** Exclusive or of the low `n` bits. */
  function XorBits(a: nat, b: nat, n: nat): (r: nat)
    ensures r < Pow2(n)
  {
    if n == 0 then 0 else (a + b) % 2 + 2 * XorBits(a / 2, b / 2, n - 1)
  }

  lemma XorParts(a: nat, b: nat, n: nat)
    requires n > 0
    ensures XorBits(a, b, n) % 2 == (a + b) % 2
    ensures XorBits(a, b, n) / 2 == XorBits(a / 2, b / 2, n - 1)
  {
    hide XorBits;
    XorUnfold(a, b, n);
  }

  lemma XorUnfold(a: nat, b: nat, n: nat)
    requires n > 0
    ensures XorBits(a, b, n) == (a + b) % 2 + 2 * XorBits(a / 2, b / 2, n - 1)
  {
  }

  lemma Parity(a: nat, b: nat, x: nat)
    requires x % 2 == (a + b) % 2
    ensures (b + x) % 2 == a % 2 && (x + a) % 2 == b % 2
  {
  }

  lemma {:induction false} XorCancels(a: nat, b: nat, n: nat)
    requires a < Pow2(n) && b < Pow2(n)
    ensures XorBits(b, XorBits(a, b, n), n) == a
    ensures XorBits(XorBits(a, b, n), a, n) == b
  {
    if n > 0 {
      var x := XorBits(a, b, n);
      XorCancels(a / 2, b / 2, n - 1);
      hide XorBits;
      XorParts(a, b, n);
      XorUnfold(b, x, n);
      XorUnfold(x, a, n);
      Parity(a, b, x);
      assert XorBits(b, x, n) == (b + x) % 2 + 2 * (a / 2);
      assert XorBits(x, a, n) == (x + a) % 2 + 2 * (b / 2);
    }
  }

  function Xor(a: Byte, b: Byte): Byte {
    assert Pow2(8) == 0x100;
    XorBits(a, b, 8)
  }

  lemma XorSwaps(a: Byte, b: Byte)
    ensures Xor(b, Xor(a, b)) == a
    ensures Xor(Xor(a, b), a) == b
  {
    assert Pow2(8) == 0x100;
    XorCancels(a, b, 8);
  }

  /** Swaps two bytes by three exclusive-ors; they must be different bytes. */
  method Swap(buffer: array<Byte>, a: nat, b: nat)
    requires a < buffer.Length && b < buffer.Length && a != b
    modifies buffer
    ensures buffer[..] == old(buffer[..])[a := old(buffer[b])][b := old(buffer[a])]
  {
    hide Xor;
    XorSwaps(buffer[a], buffer[b]);
    buffer[a] := Xor(buffer[a], buffer[b]);
    buffer[b] := Xor(buffer[b], buffer[a]);
    buffer[a] := Xor(buffer[a], buffer[b]);
  }

  /** The reversal loop of itoa. */
  method ReverseInPlace(buffer: array<Byte>, n: nat)
    requires n <= buffer.Length
    modifies buffer
    ensures buffer[..] == Reversed(old(buffer[..n])) + old(buffer[n..])
  {
    var i := 0;
    while i < n / 2
      invariant i <= n / 2
      invariant forall k :: 0 <= k < buffer.Length ==>
        buffer[k] == if k < i || n - i <= k < n then old(buffer[n - 1 - k]) else old(buffer[k])
    {
      Swap(buffer, i, n - i - 1);
      i := i + 1;
    }
  }

  /** The digit loop of itoa. */
  method WriteDigits(number: nat, buffer: array<Byte>, base: nat) returns (index: nat)
    requires 2 <= base < DWORD_RANGE && |UnsignedDigits(number, base)| <= buffer.Length
    modifies buffer
    ensures index == |UnsignedDigits(number, base)|
    ensures buffer[..index] == UnsignedDigits(number, base)
    ensures buffer[index..] == old(buffer[|UnsignedDigits(number, base)|..])
  {
    hide DigitChar, LowDigits;
    NoLowDigits(base);
    var value: nat := number;
    index := 0;
    if 0 == value {
      buffer[index] := DIGIT_0;
      index := index + 1;
    }
    ghost var digits := UnsignedDigits(number, base);
    while 0 != value
      invariant index + |LowDigits(value, base)| == |digits|
      invariant buffer[..index] + LowDigits(value, base) == digits
      invariant buffer[index..] == old(buffer[index..])
      decreases value
    {
      DigitStep(value, base);
      var digit, rest := value % base, value / base;
      StepThrough(buffer[..index], DigitChar(digit), LowDigits(rest, base));
      ghost var before := buffer[..index];
      buffer[index] := DigitChar(digit);
      assert buffer[..index + 1] == before + [DigitChar(digit)];
      value := rest;
      index := index + 1;
    }
  }

  lemma StepThrough(a: seq<Byte>, c: Byte, b: seq<Byte>)
    ensures a + ([c] + b) == a + [c] + b
  {
  }

  /** The digits from the lowest on, the sign and the NUL. */
  method WriteLowText(raw: nat, signed: bool, buffer: array<Byte>, base: nat, is64: bool) returns (index: nat)
    requires raw < Range(is64) && 2 <= base < DWORD_RANGE
    requires |LowText(raw, signed, base, is64)| + 1 <= buffer.Length
    modifies buffer
    ensures index == |LowText(raw, signed, base, is64)|
    ensures buffer[..index] == LowText(raw, signed, base, is64)
    ensures buffer[index..] == [NUL] + old(buffer[|LowText(raw, signed, base, is64)| + 1..])
  {
    hide UnsignedDigits, Magnitude, IsNegative, DigitChar, LowDigits;
    var negative := IsNegative(raw, signed, is64);
    var value := Magnitude(raw, signed, is64);
    index := WriteDigits(value, buffer, base);
    if negative {
      buffer[index] := MINUS;
      index := index + 1;
    }
    assert buffer[..index] == LowText(raw, signed, base, is64);
    buffer[index] := NUL;
    assert buffer[..index] == LowText(raw, signed, base, is64);
  }

  method Itoa(raw: nat, signed: bool, buffer: array<Byte>, base: nat, is64: bool)
    requires raw < Range(is64) && 2 <= base < DWORD_RANGE
    requires |Text(raw, signed, base, is64)| + 1 <= buffer.Length
    modifies buffer
    ensures var text := Text(raw, signed, base, is64);
      buffer[..] == text + [0] + old(buffer[|text| + 1..])
  {
    hide LowText, Reversed;
    ghost var low := LowText(raw, signed, base, is64);
    var index := WriteLowText(raw, signed, buffer, base, is64);
    ghost var rest := buffer[index..];
    ReverseInPlace(buffer, index);
    assert buffer[..] == Reversed(low) + rest;
  }

  /** The text before the first NUL. */
  function Terminated(bytes: seq<Byte>): (r: seq<Byte>)
    requires NUL in bytes
    ensures |r| < |bytes| && r == bytes[..|r|] && bytes[|r|] == 0 && forall i :: 0 <= i < |r| ==> bytes[i] != 0
  {
    if bytes[0] == NUL then [] else [bytes[0]] + Terminated(bytes[1..])
  }

  method Atoi(buffer: array<Byte>, base: nat, is64: bool) returns (r: Outcome)
    requires NUL in buffer[..] && 0 < base < DWORD_RANGE
    ensures r == ReadText(Terminated(buffer[..]), base, is64)
  {
    hide Denotes, AllDigits, IsDigit, CharValue, Accumulated;
    ghost var text := Terminated(buffer[..]);
    NoDigits(base);
    var i := 0;
    var value := 0;
    var negative := false;
    if buffer[0] == MINUS {
      negative := true;
      i := 1;
    }
    ghost var first := i;
    assert text[first..i] == [];
    while buffer[i] != NUL
      invariant first <= i <= |text|
      invariant AllDigits(text[first..i], base)
      invariant value == Denotes(text[first..i], base) % QWORD_RANGE
      decreases |text| - i
    {
      if !IsDigit(buffer[i], base) {
        NotAllDigits(TextDigits(text), i - first, base);
        return Panic;
      }
      assert text[first..i + 1] == text[first..i] + [text[i]];
      ReadDigit(text[first..i], buffer[i], base);
      value := Accumulated(value, base, CharValue(buffer[i]));
      i := i + 1;
    }
    assert text[first..i] == TextDigits(text);
    Negate(Denotes(TextDigits(text), base));
    var result := if negative then (QWORD_RANGE - value) % QWORD_RANGE else value;
    if is64 {
      return Ok(result);
    }
    if !(negative || result <= MAX_DWORD) {
      return Panic;
    }
    r := Ok(result % DWORD_RANGE);
  }

  lemma NotAllDigits(digits: seq<Byte>, i: nat, base: nat)
    requires i < |digits| && !IsDigit(digits[i], base)
    ensures !AllDigits(digits, base)
  {
  }

  lemma ReadDigit(digits: seq<Byte>, c: Byte, base: nat)
    ensures Denotes(digits + [c], base) % QWORD_RANGE == Accumulated(Denotes(digits, base) % QWORD_RANGE, base, CharValue(c))
    ensures AllDigits(digits, base) && IsDigit(c, base) ==> AllDigits(digits + [c], base)
  {
    hide CharValue, IsDigit;
    assert (digits + [c])[..|digits|] == digits;
    Accumulate(Denotes(digits, base), base, CharValue(c));
  }

  /** value * base + currentCharValue in 64-bit arithmetic. */
  function Accumulated(value: nat, base: nat, d: nat): nat {
    (value * base + d) % QWORD_RANGE
  }

  lemma Accumulate(n: nat, base: nat, d: nat)
    ensures (n % QWORD_RANGE * base + d) % QWORD_RANGE == (n * base + d) % QWORD_RANGE
  {
    var q := n / QWORD_RANGE;
    assert n * base + d == n % QWORD_RANGE * base + d + QWORD_RANGE * (q * base);
  }

  lemma Negate(n: nat)
    ensures (QWORD_RANGE - n % QWORD_RANGE) % QWORD_RANGE == -(n as int) % QWORD_RANGE
  {
  }
}
