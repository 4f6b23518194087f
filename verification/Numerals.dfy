/** What exactly a printed number looks like, and which number a text of digits is. */
module Numerals {
  import opened Basics
  import opened Bits
  import opened CString
  import opened Printf
  import opened RoundTrip

  // ----- Digits -----

  function Power(base: nat, k: nat): (r: nat)
    requires base >= 1
    ensures r >= 1
  {
    if k == 0 then 1 else
      MulLeft(base, 1, Power(base, k - 1));
      base * Power(base, k - 1)
  }

  /** The digits of a positive number: as many as its magnitude takes, in lower case, none of them a leading zero;
      zero has none. */
  lemma {:induction false} DigitsAre(n: nat, base: nat)
    requires base == 10 || base == 16
    ensures var ds := Digits(n, base);
      && n < Power(base, |ds|) && (n > 0 ==> |ds| > 0 && ds[0] != '0' && Power(base, |ds| - 1) <= n)
      && (n == 0 ==> ds == "")
      && (forall i :: 0 <= i < |ds| ==> '0' <= ds[i] <= '9' || (base == 16 && 'a' <= ds[i] <= 'f'))
    decreases n
  {
    if n > 0 {
      DigitStep(n, base);
      DigitsAre(n / base, base);
      FirstDigit(n, base);
      DigitCase(n % base, base);
      var ds, k := Digits(n, base), |Digits(n / base, base)|;
      assert |ds| == k + 1 && ds[k] == DIGITS[n % base] && ds[..k] == Digits(n / base, base);
      LengthStep(n, base, k);
      forall i | 0 <= i < |ds| ensures '0' <= ds[i] <= '9' || (base == 16 && 'a' <= ds[i] <= 'f') {
        if i < k { assert ds[i] == ds[..k][i]; }
      }
    }
  }

  lemma DigitCase(d: nat, base: nat)
    requires d < base && (base == 10 || base == 16)
    ensures '0' <= DIGITS[d] <= '9' || (base == 16 && 'a' <= DIGITS[d] <= 'f')
  {
    assert d >= 10 ==> DIGITS[d] in "abcdef";
  }

  lemma LengthStep(n: nat, base: nat, k: nat)
    requires n > 0 && (base == 10 || base == 16) && n / base < Power(base, k)
    requires if n / base == 0 then k == 0 else k > 0 && Power(base, k - 1) <= n / base
    ensures Power(base, k) <= n < Power(base, k + 1)
  {
    if base == 10 {
      assert Power(10, k + 1) == 10 * Power(10, k);
    } else {
      assert Power(16, k + 1) == 16 * Power(16, k);
    }
  }

  // ----- Fields -----

  function Max(a: int, b: int): (m: int)
    ensures m >= a && m >= b && (m == a || m == b)
  {
    if a > b then a else b
  }

  function Mark(n: nat, base: nat, alternate: bool): (s: string) {
    if alternate && n != 0 && base == 16 then "0x" else ""
  }

  /** How many digits a number is printed with, padding zeros aside. */
  function Body(n: nat, base: nat, precision: int): (len: int)
    requires 2 <= base <= 16
    ensures len >= 1 && len >= |Digits(n, base)| && len >= precision
  {
    Max(1, Max(|Digits(n, base)|, precision))
  }

  lemma BodyFilled(n: nat, base: nat, precision: int) returns (z: nat)
    requires 2 <= base <= 16
    ensures z == Body(n, base, precision) - |Digits(n, base)|
    ensures ZeroFilled(Digits(n, base), precision) == Core(z, n, base) && |Core(z, n, base)| == Body(n, base, precision)
  {
    hide Digits, ZeroFilled, Core;
    z := ZeroFilledIs(n, base, precision);
    CoreLength(z, n, base);
  }

  /** What print_unsigned puts out: blanks, the prefix of a hexadecimal number in the alternate form unless it is
      zero, zeros, the digits, blanks. The precision and the width say how many digits there are: at least one, at
      least the precision, and with zero padding as many as fill the width. With zero padding and a negative width
      the prefix does not count towards the width. */
  lemma UnsignedField(n: nat, base: nat, p: Props)
    requires (base == 10 || base == 16) && BlankOrZero(p)
    ensures var count, mark, body := |Digits(n, base)|, Mark(n, base, p.alternate), Body(n, base, p.precision);
      var fill := Max(0, p.npad - |mark| - body);
      FormatUnsigned(n, base, p) ==
      if p.pad == ' ' then Shape(fill, mark, Core(body - count, n, base), Max(0, -p.npad - |mark| - body))
      else Shape(0, mark, Core(fill + body - count, n, base), Max(0, -p.npad - body))
  {
    hide Digits, ZeroFilled, Padded, Core, Shape, Body;
    var mark := Mark(n, base, p.alternate);
    var q := p.(precision := -1);
    var z := BodyFilled(n, base, p.precision);
    var core := Core(z, n, base);
    assert "" + core == core;
    if mark == "" || p.pad == ' ' {
      var a, z' := PaddedShape(mark, z, n, base, q);
    } else {
      var r := if p.npad <= 0 then q else q.(npad := if p.npad < 2 then 0 else p.npad - 2);
      ZeroPadded(core, z, n, base, r);
      PrefixShape(Leading(|core|, r.npad) + z, n, base, Trailing(|core|, r.npad));
    }
  }

  /** What print_int puts out: the same with a sign for a prefix, except that padding zeros go before the sign. */
  lemma IntField(n: int, p: Props)
    ensures var m, mark := if n < 0 then -n else n, if n < 0 then "-" else "";
      var count, body := |Digits(m, 10)|, Body(m, 10, p.precision);
      FormatInt(n, p) ==
      Repeat(p.pad, Max(0, p.npad - |mark| - body)) + (mark + Core(body - count, m, 10))
      + Repeat(' ', Max(0, -p.npad - |mark| - body))
  {
    hide Digits, ZeroFilled, Padded, Core, Body;
    var m, mark := if n < 0 then -n else n, if n < 0 then "-" else "";
    var z := BodyFilled(m, 10, p.precision);
    assert "" + Core(z, m, 10) == Core(z, m, 10);
    PaddedIs(mark + Core(z, m, 10), p.(precision := -1));
  }

  function Width(npad: int): (w: int) {
    if npad < 0 then -npad else npad
  }

  /** A signed number fills the width it is given, and overruns it only when it has to. */
  lemma IntWidth(n: int, p: Props)
    ensures var m, sign := if n < 0 then -n else n, if n < 0 then 1 else 0;
      |FormatInt(n, p)| == Max(Width(p.npad), sign + Body(m, 10, p.precision))
  {
    hide Digits, FormatInt, Body, Core;
    var z := BodyFilled(if n < 0 then -n else n, 10, p.precision);
    IntField(n, p);
  }

  /** So does an unsigned number, exactly unless its prefix stands before a field of zeros and a negative width. */
  lemma UnsignedWidth(n: nat, base: nat, p: Props)
    requires (base == 10 || base == 16) && BlankOrZero(p)
    ensures var mark, body := Mark(n, base, p.alternate), Body(n, base, p.precision);
      |FormatUnsigned(n, base, p)| == Max(Width(p.npad), |mark| + body)
      <==> !(mark != "" && p.pad == '0' && -p.npad > body)
  {
    hide Digits, FormatUnsigned, Body, Shape, Core;
    var count, mark, body := |Digits(n, base)|, Mark(n, base, p.alternate), Body(n, base, p.precision);
    UnsignedField(n, base, p);
    CoreLength(body - count, n, base);
    CoreLength(Max(0, p.npad - |mark| - body) + body - count, n, base);
  }

  /** Such a number: the five of "%#0-8x" is ten characters wide. */
  lemma WidePrefix()
    ensures |FormatUnsigned(5, 16, Props('0', -8, true, -1))| == 10
  {
    var p := Props('0', -8, true, -1);
    assert Digits(5, 16) == "5" by { assert Digits(0, 16) == ""; }
    UnsignedField(5, 16, p);
  }

  // ----- Reading a numeral -----

  lemma {:induction false} LeadingZero(ds: string, base: nat)
    requires 2 <= base <= 36 && AllDigits(ds, base) && |ds| > 0 && ds[0] == '0'
    ensures AllDigits(ds[1..], base) && Value(ds[1..], base) == Value(ds, base)
    decreases |ds|
  {
    var rest := ds[1..];
    if |ds| == 1 {
      assert ds[..0] == "" && rest == "";
    } else {
      var front := ds[..|ds| - 1];
      assert front[1..] == rest[..|rest| - 1];
      LeadingZero(front, base);
    }
  }

  /** The prefix before the digits and the base they are in, for the base that was asked for: none and that base;
      or 0x where base 16 or any base will do; or, for any base, 0 for octal and a first digit other than zero for
      decimal. */
  predicate Prefix(prefix: string, ds: string, base: nat, b: nat) {
    || (base == b && prefix == "")
    || ((base == 0 || base == 16) && b == 16 && (prefix == "0x" || prefix == "0X"))
    || (base == 0 && b == 8 && prefix == "0")
    || (base == 0 && b == 10 && prefix == "" && !At(ds, 0, '0'))
  }

  /** What follows the digits neither goes on with them nor makes a prefix of a lone zero. */
  predicate Stops(numeral: string, tail: string, b: nat)
    requires 2 <= b <= 36
  {
    && (tail != "" ==> DigitOf(tail[0], b).None?)
    && (numeral == "0" ==> !At(tail, 0, 'x') && !At(tail, 0, 'X'))
  }

  /** Every numeral is read as the number its digits write in its base: after any white space and sign, with any
      prefix, whatever follows; negated modulo 2^64 after a minus; and an overflow assert exactly beyond the limit. */
  lemma NumeralRead(space: string, sign: string, prefix: string, ds: string, tail: string, base: nat, b: nat,
                    isSigned: bool)
    requires (base == 0 || 2 <= base <= 36) && 2 <= b <= 36 && AllDigits(ds, b) && prefix + ds != ""
    requires (forall l :: 0 <= l < |space| ==> IsSpace(space[l])) && (sign == "" || sign == "-" || sign == "+")
    requires Prefix(prefix, ds, base, b) && Stops(prefix + ds, tail, b)
    ensures var s, v := space + sign + prefix + ds + tail, Value(ds, b);
      Parse(s, base, isSigned) ==
      if v > Limit(isSigned) then None
      else Some(Parsed(if sign == "-" then (WORD - v) % WORD else v, |s| - |tail|))
  {
    hide Value, Parse, DigitOf, AllDigits, Prefix, Stops;
    NumeralParts(space, sign, prefix, ds, tail);
    NumeralStarts(prefix, ds, base, b);
    PartsRead(space + sign + prefix + ds + tail, |space|, sign, prefix, ds, tail, base, b, isSigned);
  }

  lemma PartsRead(s: string, i: nat, sign: string, prefix: string, ds: string, tail: string, base: nat, b: nat,
                  isSigned: bool)
    requires (base == 0 || 2 <= base <= 36) && 2 <= b <= 36 && AllDigits(ds, b) && prefix + ds != ""
    requires sign == "" || sign == "-" || sign == "+"
    requires Prefix(prefix, ds, base, b) && Stops(prefix + ds, tail, b)
    requires i <= |s| && s[i..] == sign + (prefix + ds + tail) && forall l :: 0 <= l < i ==> IsSpace(s[l])
    requires var c := (prefix + ds)[0]; !IsSpace(c) && c != '-' && c != '+'
    ensures var v := Value(ds, b);
      Parse(s, base, isSigned) ==
      if v > Limit(isSigned) then None
      else Some(Parsed(if sign == "-" then (WORD - v) % WORD else v, |s| - |tail|))
  {
    hide Value, Parse, DigitOf, BasePrefix, AllDigits, Prefix, Stops, IsSpace;
    var j := i + |sign|;
    SignPart(s, i, sign, prefix + ds, tail);
    var k, run := DigitsPart(s, j, prefix, ds, tail, base, b);
    ParseParts(s, i, j, k, |s| - |tail|, base, b, isSigned);
  }

  lemma SignPart(s: string, i: nat, sign: string, numeral: string, tail: string)
    requires (sign == "" || sign == "-" || sign == "+") && i <= |s| && s[i..] == sign + (numeral + tail)
    requires numeral != "" && !IsSpace(numeral[0]) && numeral[0] != '-' && numeral[0] != '+'
    ensures var j := i + |sign|;
      && i < |s| && j < |s| && s[j..] == numeral + tail && !IsSpace(s[i])
      && (At(s, i, '-') <==> sign == "-") && (At(s, i, '+') <==> sign == "+")
  {
    var text := numeral + tail;
    assert s[i] == s[i..][0] && text[0] == numeral[0];
    assert s[i + |sign|..] == s[i..][|sign|..];
  }

  lemma Sliced(s: string, j: nat, prefix: string, ds: string, tail: string)
    requires j <= |s| && s[j..] == prefix + ds + tail
    ensures var e := |s| - |tail|; s[j + |prefix|..e] == ds && (tail != "" ==> s[e] == tail[0])
  {
    var text := prefix + ds + tail;
    assert s[j + |prefix|..|s| - |tail|] == s[j..][|prefix|..|prefix| + |ds|];
    assert tail != "" ==> s[|s| - |tail|] == text[|prefix| + |ds|];
  }

  /** Where the digits begin: in base 16 a leading zero is taken for half a prefix. */
  lemma DigitsPart(s: string, j: nat, prefix: string, ds: string, tail: string, base: nat, b: nat)
    returns (k: nat, run: string)
    requires (base == 0 || 2 <= base <= 36) && 2 <= b <= 36 && AllDigits(ds, b) && prefix + ds != ""
    requires Prefix(prefix, ds, base, b) && Stops(prefix + ds, tail, b)
    requires j < |s| && s[j..] == prefix + ds + tail
    ensures var e := |s| - |tail|;
      && j <= k <= e && BasePrefix(s, j, base) == (b, k) && (e < |s| ==> DigitOf(s[e], b).None?)
      && s[k..e] == run && AllDigits(run, b) && Value(run, b) == Value(ds, b)
  {
    hide Value, DigitOf, BasePrefix;
    var e := |s| - |tail|;
    k, run := j + |prefix|, ds;
    Sliced(s, j, prefix, ds, tail);
    NumeralBase(s, j, prefix, ds, tail, base, b);
    if base == 16 && prefix == "" && ds[0] == '0' {
      LeadingZero(ds, b);
      k, run := k + 1, ds[1..];
    }
  }

  lemma NumeralParts(space: string, sign: string, prefix: string, ds: string, tail: string)
    ensures var s := space + sign + prefix + ds + tail;
      s[|space|..] == sign + (prefix + ds + tail) && forall l :: 0 <= l < |space| ==> s[l] == space[l]
  {
  }

  lemma NumeralStarts(prefix: string, ds: string, base: nat, b: nat)
    requires 2 <= b <= 36 && AllDigits(ds, b) && prefix + ds != "" && Prefix(prefix, ds, base, b)
    ensures var c := (prefix + ds)[0]; !IsSpace(c) && c != '-' && c != '+'
  {
    if prefix == "" {
      assert (prefix + ds)[0] == ds[0];
    }
  }

  lemma NumeralBase(s: string, j: nat, prefix: string, ds: string, tail: string, base: nat, b: nat)
    requires (base == 0 || 2 <= base <= 36) && 2 <= b <= 36 && AllDigits(ds, b) && prefix + ds != ""
    requires Prefix(prefix, ds, base, b) && Stops(prefix + ds, tail, b)
    requires j < |s| && s[j..] == prefix + ds + tail
    ensures BasePrefix(s, j, base) ==
      (b, j + |prefix| + if base == 16 && prefix == "" && ds[0] == '0' then 1 else 0)
  {
    var t := prefix + ds + tail;
    assert s[j] == t[0] && (j + 1 < |s| ==> s[j + 1] == t[1]);
    if prefix == "0" || (prefix == "" && |ds| > 1) {
      var d := if prefix == "0" then ds else ds[1..];
      assert |t| > 1 ==> t[1] == (d + tail)[0];
      if d != "" && b <= 16 { DigitNoX(d[0], b); }
    }
  }

  lemma DigitNoX(c: char, base: nat)
    requires 2 <= base <= 16 && DigitOf(c, base).Some?
    ensures c != 'x' && c != 'X'
  {
  }

  /** Capital letters are the same digits. */
  predicate SameLetters(s: string, t: string) {
    |s| == |t| && forall k :: 0 <= k < |s| ==> s[k] == t[k] || ('a' <= t[k] <= 'z' && s[k] as int == t[k] as int - 32)
  }

  lemma {:induction false} CaseBlind(s: string, t: string, base: nat)
    requires 2 <= base <= 36 && AllDigits(t, base) && SameLetters(s, t)
    ensures AllDigits(s, base) && Value(s, base) == Value(t, base)
    decreases |s|
  {
    if s != "" {
      CaseBlind(s[..|s| - 1], t[..|t| - 1], base);
    }
  }
}
