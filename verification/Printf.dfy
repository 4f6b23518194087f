/** The bounded formatter of lib/printf.c against the text an unbounded one would produce. */
module Printf {
  import opened Bits
  import opened CString

  // ----- Pieces of text -----

  datatype Props = Props(pad: char, npad: int, alternate: bool, precision: int)

  const PLAIN := Props(' ', 0, false, -1)

  function Repeat(c: char, n: int): (s: string)
    ensures |s| == if n > 0 then n else 0
    ensures forall i :: 0 <= i < |s| ==> s[i] == c
    decreases n
  {
    if n <= 0 then "" else [c] + Repeat(c, n - 1)
  }

  /** The characters of s that a precision lets through; a negative precision lets all through. */
  function Truncate(s: string, precision: int): (t: string) {
    if 0 <= precision < |s| then s[..precision] else s
  }

  /** print_str: padding on the left for a positive width, blanks on the right for a negative one. */
  function Padded(s: string, p: Props): (t: string) {
    (if p.npad > 0 then Repeat(p.pad, p.npad - |s|) else "")
    + Truncate(s, p.precision)
    + (if p.npad < 0 then Repeat(' ', -p.npad - |s|) else "")
  }

  /** A string that the precision does not cut fills its field: on the right of the padding, or on the left of
      blanks for a negative width. One that is cut leaves room for all of its characters all the same. */
  lemma PaddedWidth(s: string, p: Props)
    ensures var t, cut := Padded(s, p), Truncate(s, p.precision);
      var width := if p.npad < 0 then -p.npad else p.npad;
      && |t| == (if width > |s| then width else |s|) - (|s| - |cut|)
      && (p.npad >= 0 ==> t[|t| - |cut|..] == cut && forall i :: 0 <= i < |t| - |cut| ==> t[i] == p.pad)
      && (p.npad < 0 ==> t[..|cut|] == cut && forall i :: |cut| <= i < |t| ==> t[i] == ' ')
  {
  }

  const DIGITS: string := "0123456789abcdef"

  /** The digits of n, most significant first; none for zero. */
  function Digits(n: nat, base: nat): (s: string)
    requires 2 <= base <= 16
    decreases n
  {
    if n == 0 then ""
    else
      assert n / base < n && 0 <= n / base && 0 <= n % base < 16 by { DigitStep(n, base); }
      Digits(n / base, base) + [DIGITS[n % base]]
  }

  lemma DigitStep(n: nat, base: nat)
    requires n > 0 && 2 <= base <= 16
    ensures 0 <= n / base < n && 0 <= n % base < base
  {
    ModBounds(n, base);
    if n / base >= n {
      MulLeft(n / base, 2, base);
    }
  }

  /** At least one digit, and at least as many as the precision asks for. */
  function ZeroFilled(ds: string, precision: int): (s: string) {
    Repeat('0', if ds == "" && precision < 1 then 1 else precision - |ds|) + ds
  }

  /** print_int. */
  function FormatInt(n: int, p: Props): (s: string) {
    var body := ZeroFilled(Digits(if n < 0 then -n else n, 10), p.precision);
    Padded(if n < 0 then "-" + body else body, p.(precision := -1))
  }

  /** Only a non-zero hexadecimal number gets the 0x of the alternate form. */
  predicate Prefixed(n: nat, base: nat, p: Props) {
    p.alternate && n != 0 && base == 16
  }

  /** print_unsigned. */
  function FormatUnsigned(n: nat, base: nat, p: Props): (s: string)
    requires 2 <= base <= 16
  {
    var body := ZeroFilled(Digits(n, base), p.precision);
    var q := p.(precision := -1);
    if !Prefixed(n, base, p) then Padded(body, q)
    else if p.pad == '0' then
      "0x" + Padded(body, if p.npad <= 0 then q else q.(npad := if p.npad < 2 then 0 else p.npad - 2))
    else Padded("0x" + body, q)
  }

  // ----- Digit buffers -----

  const MAX_LL: int := 0x7fff_ffff_ffff_ffff

  function Rev(s: string): (r: string)
    ensures |r| == |s|
  {
    if s == "" then "" else Rev(s[1..]) + [s[0]]
  }

  lemma {:induction false} RevAt(s: string, k: nat)
    requires k < |s|
    ensures Rev(s)[k] == s[|s| - 1 - k]
  {
    if k < |s| - 1 { RevAt(s[1..], k); }
  }

  lemma {:induction false} RevSplit(s: string, t: string)
    ensures Rev(s + t) == Rev(t) + Rev(s)
  {
    if s == "" {
      assert s + t == t;
    } else {
      assert (s + t)[1..] == s[1..] + t;
      RevSplit(s[1..], t);
    }
  }

  lemma {:induction false} RevSnoc(s: string, c: char)
    ensures Rev(s + [c]) == [c] + Rev(s)
  {
    RevSplit(s, [c]);
  }

  function Pow10(k: nat): (r: nat)
    ensures r >= 1
  {
    if k == 0 then 1 else 10 * Pow10(k - 1)
  }

  lemma {:induction false} DigitsLength(n: nat, base: nat, k: nat)
    requires 10 <= base <= 16 && n < Pow10(k)
    ensures |Digits(n, base)| <= k
    decreases k
  {
    if n > 0 {
      DigitStep(n, base);
      if n / base >= Pow10(k - 1) {
        MulLeft(n / base, 10, base);
      }
      DigitsLength(n / base, base, k - 1);
    }
  }

  lemma RevMarks()
    ensures Rev("-") == "-" && Rev("x0") == "0x" && Rev("") == ""
  {
    assert "x0"[1..] == "0" && "0"[1..] == "" && "-"[1..] == "";
    assert Rev("0") == "0";
  }

  /** The buffer of print_int has 26 characters, that of print_unsigned 27; a longer precision overruns them. */
  predicate IntFits(n: int, p: Props) {
    -MAX_LL <= n <= MAX_LL && p.precision + (if n < 0 then 1 else 0) < 26
  }

  predicate UnsignedFits(n: nat, base: nat, p: Props) {
    p.precision + (if Prefixed(n, base, p) && p.pad != '0' then 2 else 0) < 27
  }

  /** A 63-bit number has at most 19 digits, a 64-bit one at most 20. */
  lemma DigitsFit(n: nat, base: nat, k: nat)
    requires 10 <= base <= 16 && ((k == 19 && n <= MAX_LL) || (k == 20 && n < WORD))
    ensures |Digits(n, base)| <= k
  {
    assert Pow10(5) == 100000;
    assert Pow10(10) == 10000000000;
    assert Pow10(15) == 1000000000000000;
    assert Pow10(19) == 10000000000000000000;
    assert Pow10(20) == 100000000000000000000;
    DigitsLength(n, base, k);
  }

  /** The digit loop: least significant first. */
  method WriteDigits(buf: array<char>, n0: nat, base: nat) returns (len: nat)
    requires 2 <= base <= 16 && |Digits(n0, base)| <= buf.Length
    modifies buf
    ensures len == |Digits(n0, base)| && Rev(buf[..len]) == Digits(n0, base)
  {
    var n := n0;
    len := 0;
    while n != 0
      invariant n >= 0 && len + |Digits(n, base)| == |Digits(n0, base)| && len <= buf.Length
      invariant Digits(n, base) + Rev(buf[..len]) == Digits(n0, base)
      decreases n
    {
      DigitStep(n, base);
      var c := DIGITS[n % base];
      ghost var was := buf[..len];
      RevSnoc(was, c);
      buf[len] := c;
      assert buf[..len + 1] == was + [c];
      assert Digits(n, base) + Rev(was) == Digits(n / base, base) + ([c] + Rev(was));
      len := len + 1;
      n := n / base;
    }
  }

  function FilledLength(len: nat, precision: int): (n: nat)
    ensures n >= len && n >= precision && n >= 1
  {
    if len == 0 && precision < 1 then 1 else if precision > len then precision else len
  }

  /** The zero-filling loop. */
  method FillZeros(buf: array<char>, len0: nat, precision: int) returns (len: nat)
    requires FilledLength(len0, precision) <= buf.Length
    modifies buf
    ensures len == FilledLength(len0, precision)
    ensures Rev(buf[..len]) == ZeroFilled(Rev(old(buf[..len0])), precision)
  {
    hide Rev, Repeat;
    ghost var ds := Rev(buf[..len0]);
    len := len0;
    assert Repeat('0', 0) + ds == ds;
    while len == 0 || len < precision
      invariant len0 <= len <= FilledLength(len0, precision) && Rev(buf[..len]) == Repeat('0', len - len0) + ds
      decreases FilledLength(len0, precision) - len
    {
      ghost var was := buf[..len];
      RevSnoc(was, '0');
      buf[len] := '0';
      assert buf[..len + 1] == was + ['0'];
      assert Repeat('0', len + 1 - len0) == ['0'] + Repeat('0', len - len0);
      len := len + 1;
    }
    assert Repeat('0', len - len0) == Repeat('0', if ds == "" && precision < 1 then 1 else precision - |ds|);
  }

  /** Swapping from both ends. */
  method ReverseInPlace(buf: array<char>, p: nat)
    requires p <= buf.Length
    modifies buf
    ensures buf[..p] == Rev(old(buf[..p]))
  {
    var i := 0;
    while i < p / 2
      invariant 0 <= i <= p / 2
      invariant forall k :: 0 <= k < i ==> buf[k] == old(buf[p - 1 - k]) && buf[p - 1 - k] == old(buf[k])
      invariant forall k :: i <= k < p - i ==> buf[k] == old(buf[k])
    {
      var tmp := buf[i];
      buf[i] := buf[p - 1 - i];
      buf[p - 1 - i] := tmp;
      i := i + 1;
    }
    ghost var was := old(buf[..p]);
    forall k: nat | k < p ensures buf[k] == Rev(was)[k] {
      RevAt(was, k);
    }
  }

  /** The text print_int and print_unsigned build in a local buffer: digits, zeros and marks are stored
      backwards, then the buffer is reversed and terminated. */
  method NumberText(size: nat, n: nat, base: nat, precision: int, marks: string) returns (s: string)
    requires 2 <= base <= 16
    requires FilledLength(|Digits(n, base)|, precision) + |marks| < size
    ensures s == Rev(marks) + ZeroFilled(Digits(n, base), precision)
  {
    hide Rev, Digits, ZeroFilled;
    var buf := new char[size];
    var len := WriteDigits(buf, n, base);
    len := FillZeros(buf, len, precision);
    ghost var body := buf[..len];
    var end := StoreMarks(buf, len, marks);
    assert buf[..end] == body + marks;
    RevSplit(body, marks);
    ReverseInPlace(buf, end);
    buf[end] := 0 as char;
    s := buf[..end];
  }

  /** Storing the sign, or the prefix, after the digits. */
  method StoreMarks(buf: array<char>, len: nat, marks: string) returns (end: nat)
    requires len + |marks| <= buf.Length
    modifies buf
    ensures end == len + |marks| && buf[..end] == old(buf[..len]) + marks
  {
    end := len;
    while end < len + |marks|
      invariant len <= end <= len + |marks| && buf[..end] == old(buf[..len]) + marks[..end - len]
    {
      buf[end] := marks[end - len];
      end := end + 1;
    }
  }

  // ----- The output stream -----

  /** How much of the text a buffer of this size holds before its NUL. */
  function Stored(text: string, size: nat): (k: nat)
    requires size >= 1
    ensures k <= |text| && k < size && (k == |text| || k == size - 1)
  {
    if |text| < size - 1 then |text| else size - 1
  }

  /** pstream: characters beyond the capacity are counted but not stored. */
  class Stream {
    const buffer: array<char>
    const from: nat
    const cap: nat
    var pos: nat
    var remain: nat
    var added: nat
    ghost var out: string
    ghost const orig: string

    /** The buffer holds the longest prefix of the output that fits, and is unchanged elsewhere. */
    ghost predicate Valid()
      reads this, buffer
    {
      && from + cap < buffer.Length && |orig| == buffer.Length
      && added == |out| && from <= pos && pos == from + (if |out| < cap then |out| else cap)
      && remain == cap - (pos - from)
      && buffer[from..pos] == out[..pos - from]
      && buffer[..from] == orig[..from] && buffer[pos..] == orig[pos..]
    }

    constructor (b: array<char>, start: nat, size: nat)
      requires 1 <= size && start + size <= b.Length
      ensures Valid() && buffer == b && from == start && cap == size - 1 && out == "" && orig == b[..]
    {
      buffer, from, cap, pos, remain, added := b, start, size - 1, start, size - 1, 0;
      out, orig := "", b[..];
    }

    /** addchar. */
    method AddChar(c: char)
      requires Valid()
      modifies this`pos, this`remain, this`added, this`out, buffer
      ensures Valid() && out == old(out) + [c]
    {
      if remain != 0 {
        buffer[pos] := c;
        pos := pos + 1;
        remain := remain - 1;
      }
      added := added + 1;
      out := out + [c];
    }

    /** The NUL that ends vsnprintf. */
    method Terminate()
      requires Valid()
      modifies buffer
      ensures added == |out| && from + Stored(out, cap + 1) + 1 <= |orig|
      ensures var k := Stored(out, cap + 1);
        buffer[..] == orig[..from] + out[..k] + [NUL] + orig[from + k + 1..]
    {
      ghost var was := buffer[..];
      buffer[pos] := NUL;
      assert was[..from] == orig[..from] && was[pos..] == orig[pos..] && was[from..pos] == out[..pos - from];
      assert was[pos..][1..] == was[pos + 1..] && orig[pos..][1..] == orig[pos + 1..];
      assert buffer[..] == was[..from] + was[from..pos] + [NUL] + was[pos + 1..];
    }

    /** One of the padding loops. */
    method AddRepeat(c: char, n: int)
      requires Valid()
      modifies this`pos, this`remain, this`added, this`out, buffer
      ensures Valid() && out == old(out) + Repeat(c, n)
    {
      var k := n;
      while k > 0
        invariant Valid() && k <= n && (n > 0 ==> k >= 0) && out + Repeat(c, k) == old(out) + Repeat(c, n)
        decreases k
      {
        ghost var o := out;
        AddChar(c);
        assert o + Repeat(c, k) == out + Repeat(c, k - 1);
        k := k - 1;
      }
    }

    /** print_str. */
    method PrintStr(s: string, p: Props)
      requires Valid()
      modifies this`pos, this`remain, this`added, this`out, buffer
      ensures Valid() && out == old(out) + Padded(s, p)
    {
      hide Repeat, Truncate, Stream.Valid;
      var npad := p.npad;
      ghost var left := if npad > 0 then Repeat(p.pad, npad - |s|) else "";
      ghost var right := if npad < 0 then Repeat(' ', -npad - |s|) else "";
      if npad > 0 {
        npad := npad - |s|;
        AddRepeat(p.pad, npad);
        npad := if npad > 0 then 0 else npad;
      }
      assert out == old(out) + left;
      AddText(s, p.precision);
      if npad < 0 {
        AddRepeat(' ', -(npad + |s|));
        assert Repeat(' ', -(npad + |s|)) == right;
      }
      assert old(out) + left + Truncate(s, p.precision) + right == old(out) + Padded(s, p);
    }

    method AddText(s: string, prec: int)
      requires Valid()
      modifies this`pos, this`remain, this`added, this`out, buffer
      ensures Valid() && out == old(out) + Truncate(s, prec)
    {
      var i, precision := 0, prec;
      while i < |s| && precision != 0
        invariant Valid() && 0 <= i <= |s| && out == old(out) + s[..i] && precision == prec - i
        invariant prec >= 0 ==> precision >= 0
        decreases |s| - i
      {
        AddChar(s[i]);
        assert s[..i + 1] == s[..i] + [s[i]];
        precision := precision - 1;
        i := i + 1;
      }
      assert s[..i] == Truncate(s, prec);
    }

    /** print_int, where its buffer and the negation do not overflow. */
    method PrintInt(n: int, p: Props)
      requires Valid() && IntFits(n, p)
      modifies this`pos, this`remain, this`added, this`out, buffer
      ensures Valid() && out == old(out) + FormatInt(n, p)
    {
      hide Padded, Digits, ZeroFilled, Stream.Valid, Rev;
      var m := if n < 0 then -n else n;
      DigitsFit(m, 10, 19);
      var text := NumberText(26, m, 10, p.precision, if n < 0 then "-" else "");
      RevMarks();
      ghost var body := ZeroFilled(Digits(m, 10), p.precision);
      assert text == if n < 0 then "-" + body else body;
      PrintStr(text, p.(precision := -1));
    }

    /** print_unsigned. */
    method PrintUnsigned(n: nat, base: nat, p: Props)
      requires Valid() && n < WORD && (base == 10 || base == 16) && UnsignedFits(n, base, p)
      modifies this`pos, this`remain, this`added, this`out, buffer
      ensures Valid() && out == old(out) + FormatUnsigned(n, base, p)
    {
      hide Padded, Digits, ZeroFilled, Stream.Valid, Rev;
      DigitsFit(n, base, 20);
      RevMarks();
      if Prefixed(n, base, p) {
        if p.pad == '0' {
          ghost var was := out;
          AddChar('0');
          AddChar('x');
          assert out == was + "0x";
          var npad := p.npad;
          if npad > 0 {
            npad := if npad - 2 > 0 then npad - 2 else 0;
          }
          var body := NumberText(27, n, base, p.precision, "");
          assert body == ZeroFilled(Digits(n, base), p.precision);
          PrintStr(body, p.(precision := -1, npad := npad));
        } else {
          var body := NumberText(27, n, base, p.precision, "x0");
          PrintStr(body, p.(precision := -1));
        }
      } else {
        var body := NumberText(27, n, base, p.precision, "");
        assert body == ZeroFilled(Digits(n, base), p.precision);
        PrintStr(body, p.(precision := -1));
      }
    }
  }
}
