/** The number printer of lib/printf.c against the number parser of lib/string.c. */
module RoundTrip {
  import opened Basics
  import opened Bits
  import opened CString
  import opened Printf

  // ----- Digits -----

  predicate AllDigits(s: string, base: nat)
    requires 2 <= base <= 36
  {
    forall k :: 0 <= k < |s| ==> DigitOf(s[k], base).Some?
  }

  lemma DigitChar(d: nat, base: nat)
    requires d < base && (base == 10 || base == 16)
    ensures DigitOf(DIGITS[d], base) == Some(d)
  {
    assert DIGITS[0] == '0' && DIGITS[1] == '1' && DIGITS[2] == '2' && DIGITS[3] == '3' && DIGITS[4] == '4';
    assert DIGITS[5] == '5' && DIGITS[6] == '6' && DIGITS[7] == '7' && DIGITS[8] == '8' && DIGITS[9] == '9';
    assert DIGITS[10] == 'a' && DIGITS[11] == 'b' && DIGITS[12] == 'c' && DIGITS[13] == 'd';
    assert DIGITS[14] == 'e' && DIGITS[15] == 'f';
  }

  /** Leading zeros count for nothing. */
  lemma {:induction false} ZerosValue(z: nat, base: nat)
    requires 2 <= base <= 36
    ensures AllDigits(Repeat('0', z), base) && Value(Repeat('0', z), base) == 0
  {
    if z > 0 {
      assert Repeat('0', z)[..z - 1] == Repeat('0', z - 1);
      ZerosValue(z - 1, base);
    }
  }

  /** The digits of n, after any number of zeros, write n. */
  lemma {:induction false} DigitsValue(z: nat, n: nat, base: nat)
    requires base == 10 || base == 16
    ensures AllDigits(Repeat('0', z) + Digits(n, base), base)
    ensures Value(Repeat('0', z) + Digits(n, base), base) == n
    decreases n
  {
    var s := Repeat('0', z) + Digits(n, base);
    if n == 0 {
      assert s == Repeat('0', z);
      ZerosValue(z, base);
    } else {
      DigitStep(n, base);
      DigitsValue(z, n / base, base);
      DigitChar(n % base, base);
      assert s[..|s| - 1] == Repeat('0', z) + Digits(n / base, base);
      assert s[|s| - 1] == DIGITS[n % base];
    }
  }

  // ----- Finding the parts of a text -----

  lemma {:induction false} SkipSpaceIs(s: string, from: nat, i: nat)
    requires from <= i <= |s| && (forall k :: from <= k < i ==> IsSpace(s[k])) && (i < |s| ==> !IsSpace(s[i]))
    ensures SkipSpace(s, from) == i
    decreases i - from
  {
    if from < i { SkipSpaceIs(s, from + 1, i); }
  }

  lemma {:induction false} DigitsEndIs(s: string, k: nat, e: nat, base: nat)
    requires k <= e <= |s| && 2 <= base <= 36
    requires AllDigits(s[k..e], base) && (e < |s| ==> DigitOf(s[e], base).None?)
    ensures DigitsEnd(s, k, base) == e
    decreases e - k
  {
    if k < e {
      assert s[k] == s[k..e][0] && s[k + 1..e] == s[k..e][1..];
      DigitsEndIs(s, k + 1, e, base);
    }
  }

  /** A text that a number starts: spaces, a sign, a prefix, digits, and then something else. */
  lemma ParseParts(s: string, i: nat, j: nat, k: nat, e: nat, base: nat, b: nat, isSigned: bool)
    requires (base == 0 || 2 <= base <= 36) && 2 <= b <= 36
    requires i <= j <= k <= e <= |s| && (forall l :: 0 <= l < i ==> IsSpace(s[l])) && (i < |s| ==> !IsSpace(s[i]))
    requires j == if At(s, i, '-') || At(s, i, '+') then i + 1 else i
    requires BasePrefix(s, j, base) == (b, k)
    requires AllDigits(s[k..e], b) && (e < |s| ==> DigitOf(s[e], b).None?)
    ensures var v := Value(s[k..e], b);
      Parse(s, base, isSigned) ==
      if v > Limit(isSigned) then None else Some(Parsed(if At(s, i, '-') then (WORD - v) % WORD else v, e))
  {
    hide Value, DigitOf, BasePrefix;
    SkipSpaceIs(s, 0, i);
    DigitsEndIs(s, k, e, b);
  }

  // ----- The shape of a printed number -----

  /** Blanks, a mark, the zeros and digits, blanks. */
  function Shape(a: nat, mark: string, core: string, t: nat): (s: string)
    ensures |s| == a + |mark| + |core| + t
  {
    Repeat(' ', a) + mark + core + Repeat(' ', t)
  }

  function Core(z: nat, n: nat, base: nat): (core: string)
    requires 2 <= base <= 16
  {
    Repeat('0', z) + Digits(n, base)
  }

  lemma ShapeParts(a: nat, mark: string, core: string, t: nat)
    ensures var s := Shape(a, mark, core, t); var c := a + |mark|; var e := c + |core|;
      && (forall l :: 0 <= l < a ==> s[l] == ' ') && s[a..c] == mark && s[c..e] == core
      && (e < |s| ==> s[e] == ' ')
  {
  }

  /** The blanks on either side of a text printed with some width. */
  function Leading(len: nat, npad: int): (t: nat) {
    if npad > len then npad - len else 0
  }

  function Trailing(len: nat, npad: int): (t: nat) {
    if npad < 0 && -npad > len then -npad - len else 0
  }

  lemma PaddedIs(body: string, p: Props)
    requires p.precision < 0
    ensures Padded(body, p) == Repeat(p.pad, Leading(|body|, p.npad)) + body + Repeat(' ', Trailing(|body|, p.npad))
  {
  }

  lemma ZerosJoin(m: nat, z: nat, n: nat, base: nat)
    requires 2 <= base <= 16
    ensures Repeat('0', m) + Core(z, n, base) == Core(m + z, n, base)
  {
    hide Digits;
    assert Repeat('0', m) + Repeat('0', z) == Repeat('0', m + z);
    assert Repeat('0', m) + Core(z, n, base) == Repeat('0', m) + Repeat('0', z) + Digits(n, base);
  }

  predicate BlankOrZero(p: Props) {
    p.pad == ' ' || p.pad == '0'
  }

  /** A padded number has that shape unless zeros go before a mark. */
  lemma PaddedShape(mark: string, z: nat, n: nat, base: nat, p: Props) returns (a: nat, z': nat)
    requires 2 <= base <= 16 && BlankOrZero(p) && p.precision < 0
    requires p.pad == '0' && p.npad > |mark| + |Core(z, n, base)| ==> mark == ""
    ensures var body := mark + Core(z, n, base);
      && Padded(body, p) == Shape(a, mark, Core(z', n, base), Trailing(|body|, p.npad))
      && a == (if p.pad == ' ' then Leading(|body|, p.npad) else 0) && a + z' == Leading(|body|, p.npad) + z
  {
    hide Repeat, Digits, Core, Padded;
    var core := Core(z, n, base);
    var body := mark + core;
    var left := Leading(|body|, p.npad);
    var tail := Repeat(' ', Trailing(|body|, p.npad));
    PaddedIs(body, p);
    if p.pad == ' ' || left == 0 {
      a, z' := left, z;
      assert Repeat(p.pad, left) == Repeat(' ', a);
      assert Repeat(' ', a) + (mark + core) + tail == Repeat(' ', a) + mark + core + tail;
    } else {
      a, z' := 0, left + z;
      ZerosJoin(left, z, n, base);
      assert body == core && Repeat(' ', 0) + mark == "";
    }
  }

  lemma ZeroFilledIs(n: nat, base: nat, precision: int) returns (z: nat)
    requires 2 <= base <= 16
    ensures ZeroFilled(Digits(n, base), precision) == Core(z, n, base)
    ensures z + |Digits(n, base)| == FilledLength(|Digits(n, base)|, precision)
  {
    var ds := Digits(n, base);
    var m := if ds == "" && precision < 1 then 1 else precision - |ds|;
    z := if m > 0 then m else 0;
    assert Repeat('0', m) == Repeat('0', z);
  }

  // ----- Reading it -----

  /** The first digit is not a zero. */
  lemma {:induction false} FirstDigit(n: nat, base: nat)
    requires n > 0 && (base == 10 || base == 16)
    ensures |Digits(n, base)| > 0 && Digits(n, base)[0] != '0'
  {
    DigitStep(n, base);
    if n / base > 0 {
      FirstDigit(n / base, base);
    } else {
      DigitChar(n % base, base);
    }
  }

  /** No digit is a space, a sign or an x, and a blank is no digit. */
  lemma DigitIsPlain(c: char, base: nat)
    requires 2 <= base <= 16 && DigitOf(c, base).Some?
    ensures !IsSpace(c) && c != '-' && c != '+' && c != 'x' && c != 'X'
  {
  }

  function Negated(v: nat, mark: string): (u: int) {
    if mark == "-" then (WORD - v) % WORD else v
  }

  /** What reading the shape must give. */
  ghost predicate ReadsAs(s: string, parseBase: nat, isSigned: bool, n: nat, mark: string, end: nat)
    requires parseBase == 0 || 2 <= parseBase <= 36
  {
    Parse(s, parseBase, isSigned) ==
    if n > Limit(isSigned) then None else Some(Parsed(Negated(n, mark), end))
  }

  /** A decimal number, signed or not. */
  lemma ParseDecimal(a: nat, mark: string, z: nat, n: nat, t: nat, isSigned: bool)
    requires (mark == "" || mark == "-") && |Core(z, n, 10)| >= 1
    ensures var s := Shape(a, mark, Core(z, n, 10), t); ReadsAs(s, 10, isSigned, n, mark, |s| - t)
  {
    hide Value, Digits, Repeat, Shape, Core, Parse;
    var core := Core(z, n, 10);
    var s := Shape(a, mark, core, t);
    var c := a + |mark|;
    CoreValue(z, n, 10);
    ShapeParts(a, mark, core, t);
    assert s[c] == s[c..c + |core|][0];
    DigitIsPlain(core[0], 10);
    assert mark == "-" ==> s[a] == s[a..c][0];
    ParseParts(s, a, c, c, c + |core|, 10, 10, isSigned);
  }

  lemma CoreValue(z: nat, n: nat, base: nat)
    requires base == 10 || base == 16
    ensures AllDigits(Core(z, n, base), base) && Value(Core(z, n, base), base) == n
  {
    DigitsValue(z, n, base);
  }

  /** A hexadecimal number with its prefix, read in base 16 or with the base left open. */
  lemma ParsePrefixed(a: nat, z: nat, n: nat, t: nat, parseBase: nat, isSigned: bool)
    requires parseBase == 0 || parseBase == 16
    ensures var s := Shape(a, "0x", Core(z, n, 16), t); ReadsAs(s, parseBase, isSigned, n, "0x", |s| - t)
  {
    hide Value, Digits, Repeat, Shape, Core, Parse;
    var core := Core(z, n, 16);
    var s := Shape(a, "0x", core, t);
    CoreValue(z, n, 16);
    ShapeParts(a, "0x", core, t);
    assert s[a] == s[a..a + 2][0] && s[a + 1] == s[a..a + 2][1];
    ParseParts(s, a, a, a + 2, a + 2 + |core|, parseBase, 16, isSigned);
  }

  /** A hexadecimal number without prefix, read in base 16. */
  lemma ParseBare(a: nat, z: nat, n: nat, t: nat, isSigned: bool)
    requires |Core(z, n, 16)| >= 1
    ensures var s := Shape(a, "", Core(z, n, 16), t); ReadsAs(s, 16, isSigned, n, "", |s| - t)
  {
    hide Value, Digits, Repeat, Shape, Core, Parse;
    var core := Core(z, n, 16);
    var s := Shape(a, "", core, t);
    var e := a + |core|;
    CoreValue(z, n, 16);
    ShapeParts(a, "", core, t);
    assert s[a] == s[a..e][0] == core[0];
    DigitIsPlain(core[0], 16);
    if z == 0 {
      CoreNoZeros(n, 16);
      ParseParts(s, a, a, a, e, 16, 16, isSigned);
    } else {
      AfterZero(s, a, core, z, n, 16);
      CoreValue(z - 1, n, 16);
      ParseParts(s, a, a, a + 1, e, 16, 16, isSigned);
    }
  }

  lemma CoreNoZeros(n: nat, base: nat)
    requires base == 10 || base == 16
    ensures if n == 0 then Core(0, n, base) == "" else |Core(0, n, base)| >= 1 && Core(0, n, base)[0] != '0'
  {
    if n > 0 { FirstDigit(n, base); }
  }

  /** Behind the first of some zeros comes a zero, a digit, a blank or the end: never an x. */
  lemma AfterZero(s: string, a: nat, core: string, z: nat, n: nat, base: nat)
    requires (base == 10 || base == 16) && z > 0 && core == Core(z, n, base)
    requires a + |core| <= |s| && s[a..a + |core|] == core && (a + |core| < |s| ==> s[a + |core|] == ' ')
    ensures s[a] == '0' && !At(s, a + 1, 'x') && !At(s, a + 1, 'X')
    ensures s[a + 1..a + |core|] == Core(z - 1, n, base)
  {
    assert core[0] == '0' && core[1..] == Core(z - 1, n, base);
    assert s[a + 1..a + |core|] == core[1..] && s[a] == core[0];
    CoreValue(z - 1, n, base);
    if a + 1 < |s| && |core| > 1 {
      assert s[a + 1] == core[1..][0];
      DigitIsPlain(core[1..][0], base);
    }
  }

  /** A zero, read with the base left open: the first digit is taken for an octal prefix. */
  lemma ParseZero(a: nat, z: nat, t: nat, base: nat, isSigned: bool)
    requires z > 0 && (base == 10 || base == 16)
    ensures var s := Shape(a, "", Core(z, 0, base), t); ReadsAs(s, 0, isSigned, 0, "", |s| - t)
  {
    hide Value, Shape, Parse;
    var core := Core(z, 0, base);
    assert Digits(0, base) == "" && core == Repeat('0', z);
    var s := Shape(a, "", core, t);
    ShapeParts(a, "", core, t);
    AfterZero(s, a, core, z, 0, base);
    assert Core(z - 1, 0, base) == Repeat('0', z - 1);
    ZerosValue(z - 1, 8);
    ParseParts(s, a, a, a + 1, a + z, 0, 8, isSigned);
  }

  // ----- Printing, then parsing -----

  /** Where the blanks that follow an unsigned number begin. */
  function UnsignedEnd(n: nat, base: nat, p: Props): (e: int)
    requires 2 <= base <= 16
  {
    var body := |ZeroFilled(Digits(n, base), p.precision)|;
    var text := |FormatUnsigned(n, base, p)|;
    text - (if Prefixed(n, base, p) && p.pad == ' ' then Trailing(body + 2, p.npad) else Trailing(body, p.npad))
  }

  /** Every unsigned number, in either base and with any width, precision and prefix, is read back in full by
      strtoull: in its own base, or with the base left open when it was printed in the alternate form. A signed
      parse reads it back exactly when it does not exceed LONG_MAX, and otherwise trips the overflow assert. */
  lemma UnsignedRoundTrip(n: nat, base: nat, p: Props, parseBase: nat, isSigned: bool)
    requires n < WORD && (base == 10 || base == 16) && BlankOrZero(p)
    requires parseBase == base || (parseBase == 0 && base == 16 && p.alternate)
    ensures Parse(FormatUnsigned(n, base, p), parseBase, isSigned) ==
            if n > Limit(isSigned) then None else Some(Parsed(n, UnsignedEnd(n, base, p)))
  {
    hide Value, Digits, Shape, Parse, Padded, ZeroFilled, Core;
    var z := ZeroFilledIs(n, base, p.precision);
    var core := Core(z, n, base);
    CoreLength(z, n, base);
    var q := p.(precision := -1);
    if !Prefixed(n, base, p) {
      assert "" + core == core;
      var a, z' := PaddedShape("", z, n, base, q);
      CoreLength(z', n, base);
      var t := Trailing(|core|, p.npad);
      if parseBase == 10 {
        ParseDecimal(a, "", z', n, t, isSigned);
      } else if parseBase == 16 {
        ParseBare(a, z', n, t, isSigned);
      } else {
        assert Digits(0, base) == "" by { NoDigits(base); }
        ParseZero(a, z', t, base, isSigned);
      }
    } else if p.pad == '0' {
      var r := if p.npad <= 0 then q else q.(npad := if p.npad < 2 then 0 else p.npad - 2);
      var t := Trailing(|core|, r.npad);
      ZeroPadded(core, z, n, base, r);
      var w := Leading(|core|, r.npad);
      assert Shape(0, "0x", Core(w + z, n, base), t) == "0x" + Padded(core, r) by {
        PrefixShape(w + z, n, base, t);
      }
      ParsePrefixed(0, w + z, n, t, parseBase, isSigned);
    } else {
      var a, z' := PaddedShape("0x", z, n, base, q);
      ParsePrefixed(a, z', n, Trailing(2 + |core|, p.npad), parseBase, isSigned);
    }
  }

  lemma CoreLength(z: nat, n: nat, base: nat)
    requires 2 <= base <= 16
    ensures |Core(z, n, base)| == z + |Digits(n, base)|
  {
  }

  lemma NoDigits(base: nat)
    requires 2 <= base <= 16
    ensures Digits(0, base) == ""
  {
  }

  lemma ZeroPadded(core: string, z: nat, n: nat, base: nat, p: Props)
    requires 2 <= base <= 16 && core == Core(z, n, base) && p.pad == '0' && p.precision < 0
    ensures Padded(core, p) ==
            Core(Leading(|core|, p.npad) + z, n, base) + Repeat(' ', Trailing(|core|, p.npad))
  {
    PaddedIs(core, p);
    ZerosJoin(Leading(|core|, p.npad), z, n, base);
  }

  lemma PrefixShape(z: nat, n: nat, base: nat, t: nat)
    requires 2 <= base <= 16
    ensures Shape(0, "0x", Core(z, n, base), t) == "0x" + (Core(z, n, base) + Repeat(' ', t))
  {
    assert Repeat(' ', 0) + "0x" == "0x";
  }

  /** The low 64 bits that the parser returns, as the long that strtol makes of them. */
  function AsLong(v: nat): (n: int) {
    if v <= MAX_LL then v else v - WORD
  }

  /** The sign is printed behind padding zeros: a width that zeros fill and a negative number. */
  predicate SignBuried(n: int, p: Props) {
    n < 0 && p.pad == '0' && p.npad > 1 + |ZeroFilled(Digits(-n, 10), p.precision)|
  }

  function IntEnd(n: int, p: Props): (e: int) {
    var m := if n < 0 then -n else n;
    var sign := if n < 0 then 1 else 0;
    |FormatInt(n, p)| - Trailing(sign + |ZeroFilled(Digits(m, 10), p.precision)|, p.npad)
  }

  /** Every number of magnitude at most LONG_MAX is read back in full by strtol, exactly when its sign is not
      behind padding zeros; then the zeros are read alone. */
  lemma IntRoundTrip(n: int, p: Props, isSigned: bool)
    requires -MAX_LL <= n <= MAX_LL && BlankOrZero(p)
    ensures var r := Parse(FormatInt(n, p), 10, isSigned);
      && r.Some?
      && (!SignBuried(n, p) ==> AsLong(r.value.value) == n && r.value.end == IntEnd(n, p))
      && (SignBuried(n, p) ==> AsLong(r.value.value) == 0 != n && r.value.end < IntEnd(n, p))
  {
    hide Value, Digits, Shape, Parse, Padded, ZeroFilled, Core;
    var m := if n < 0 then -n else n;
    var mark := if n < 0 then "-" else "";
    var z := ZeroFilledIs(m, 10, p.precision);
    CoreLength(z, m, 10);
    var core := Core(z, m, 10);
    assert "" + core == core;
    var q := p.(precision := -1);
    if SignBuried(n, p) {
      ParseBuried(z, m, q, isSigned);
    } else {
      var a, z' := PaddedShape(mark, z, m, 10, q);
      CoreLength(z', m, 10);
      ParseDecimal(a, mark, z', m, Trailing(|mark| + |core|, p.npad), isSigned);
    }
  }

  /** With the sign behind them, only the padding zeros are read. */
  lemma ParseBuried(z: nat, m: nat, p: Props, isSigned: bool)
    requires p.pad == '0' && p.precision < 0 && p.npad > 1 + |Core(z, m, 10)|
    ensures var s := Padded("-" + Core(z, m, 10), p);
      Parse(s, 10, isSigned) == Some(Parsed(0, p.npad - 1 - |Core(z, m, 10)|)) && |s| == p.npad
  {
    hide Value, Digits, Core, Parse;
    var body := "-" + Core(z, m, 10);
    var s := Padded(body, p);
    var w := Leading(|body|, p.npad);
    PaddedIs(body, p);
    assert s[..w] == Repeat('0', w) && s[0..w] == s[..w] && s[w] == '-';
    ZerosValue(w, 10);
    ParseParts(s, 0, 0, 0, w, 10, 10, isSigned);
  }

  /** Such a number: -5 in a zero-filled width of four reads back as 0. */
  lemma BuriedSign()
    ensures FormatInt(-5, Props('0', 4, false, -1)) == "00-5"
    ensures Parse("00-5", 10, true) == Some(Parsed(0, 2))
  {
    var p := Props('0', 4, false, -1);
    assert Digits(5, 10) == "5" by { assert Digits(0, 10) == ""; }
    assert ZeroFilled("5", -1) == "5";
    assert FormatInt(-5, p) == "00-5";
    IntRoundTrip(-5, p, true);
  }
}
