/** The format cursor of lib/printf.c: what a format and its arguments mean, and vsnprintf. */
module Format {
  import opened Basics
  import opened Bits
  import opened CString
  import opened Printf

  /** A variable argument: an integer of any width, a character or an address; or a string. */
  datatype Arg = Int(v: int) | Str(s: Text)

  const HALF_WORD: int := 0x1_0000_0000
  const MAX_INT: int := 0x7fff_ffff

  /** The argument as va_arg reads it: 32 bits without an l, 64 with. */
  function Unsigned(v: int, nlong: nat): (u: nat)
    ensures u < WORD
  {
    v % (if nlong == 0 then HALF_WORD else WORD)
  }

  function Signed(v: int, nlong: nat): (n: int) {
    var m := if nlong == 0 then HALF_WORD else WORD;
    if v % m < m / 2 then v % m else v % m - m
  }

  // ----- Numbers inside a format -----

  /** A number read from the format (or the arguments), and where the format goes on. */
  datatype Number = Number(value: int, at: nat, args: seq<Arg>)

  /** fmtnum: atol, then past a sign and the digits. None when the overflow assert of atol fires. */
  function FmtNum(fmt: string, i: nat, args: seq<Arg>): (r: Option<Number>)
    requires i <= |fmt|
    ensures r.Some? ==> i <= r.value.at <= |fmt|
    ensures r.Some? && i < |fmt| && (fmt[i] == '-' || '1' <= fmt[i] <= '9') ==> i < r.value.at
  {
    var j := if At(fmt, i, '-') then i + 1 else i;
    match Parse(fmt[i..], 10, true)
    case None => None
    case Some(n) => Some(Number(Signed(n.value, 0), DigitsEnd(fmt, j, 10), args))
  }

  /** get_int: digits, or a star for the next argument, or nothing for zero. None when the digits overflow
      an int on the way or the argument is not an integer. */
  function GetInt(fmt: string, i: nat, args: seq<Arg>): (r: Option<Number>)
    requires i <= |fmt|
    ensures r.Some? ==> i <= r.value.at <= |fmt|
  {
    if i < |fmt| && '0' <= fmt[i] <= '9' then
      var e := DigitsEnd(fmt, i, 10);
      var v := Value(fmt[i..e], 10);
      if v > MAX_INT - 48 then None else Some(Number(v, e, args))
    else if At(fmt, i, '*') then
      if args == [] || args[0].Str? then None else Some(Number(Signed(args[0].v, 0), i + 1, args[1..]))
    else Some(Number(0, i, args))
  }

  // ----- One conversion -----

  /** What one character after the percent sign does: goes on with other properties, or ends the conversion
      with some text, or has no defined behaviour (a missing or mistyped argument, a wide string, a number
      that overflows, a precision beyond the digit buffer). */
  datatype Next =
    | Undefined
    | More(at: nat, args: seq<Arg>, p: Props, nlong: nat)
    | Done(text: string, at: nat, args: seq<Arg>)

  function Resume(r: Option<Number>, p: Props, nlong: nat): (n: Next) {
    match r
    case None => Undefined
    case Some(num) => More(num.at, num.args, p.(npad := num.value), nlong)
  }

  function Act(fmt: string, i: nat, args: seq<Arg>, p: Props, nlong: nat): (n: Next)
    requires i <= |fmt|
    ensures n.More? ==> i < n.at <= |fmt|
    ensures n.Done? ==> i <= n.at <= |fmt|
  {
    if i == |fmt| then Done("", i, args)
    else
      var c := fmt[i];
      if c == '.' then
        match GetInt(fmt, i + 1, args)
        case None => Undefined
        case Some(num) => More(num.at, num.args, p.(pad := ' ', precision := num.value), nlong)
      else if c == '#' then More(i + 1, args, p.(alternate := true), nlong)
      else if c == '0' then Resume(FmtNum(fmt, i + 1, args), p.(pad := '0'), nlong)
      else if '1' <= c <= '9' || c == '-' then Resume(FmtNum(fmt, i, args), p, nlong)
      else if c == 'l' then More(i + 1, args, p, nlong + 1)
      else if c == 't' || c == 'z' then More(i + 1, args, p, 1)
      else if c in "cduxps" then
        match ArgText(c, args, p, nlong)
        case None => Undefined
        case Some(text) => Done(text, i + 1, args[1..])
      else Done([c], i + 1, args)
  }

  /** The text of a conversion that takes an argument. */
  function ArgText(c: char, args: seq<Arg>, p: Props, nlong: nat): (r: Option<string>)
    ensures r.Some? ==> args != []
  {
    if args == [] then None
    else match args[0]
      case Str(s) => if c == 's' && nlong == 0 then Some(Padded(s, p)) else None
      case Int(v) =>
        if c == 'c' then Some([(v % 256) as char])
        else if c == 'd' then
          if IntFits(Signed(v, nlong), p) then Some(FormatInt(Signed(v, nlong), p)) else None
        else if c == 'u' then UnsignedText(Unsigned(v, nlong), 10, p)
        else if c == 'x' then UnsignedText(Unsigned(v, nlong), 16, p)
        else if c == 'p' then UnsignedText(Unsigned(v, 1), 16, p.(alternate := true))
        else None
  }

  function UnsignedText(n: nat, base: nat, p: Props): (r: Option<string>)
    requires base == 10 || base == 16
  {
    if UnsignedFits(n, base, p) then Some(FormatUnsigned(n, base, p)) else None
  }

  // ----- A whole format -----

  /** The text of the conversion that starts at i, and what is left of the format and the arguments. */
  function Convert(fmt: string, i: nat, args: seq<Arg>, p: Props, nlong: nat): (n: Next)
    requires i <= |fmt|
    ensures !n.More?
    ensures n.Done? ==> i <= n.at <= |fmt|
    decreases |fmt| - i
  {
    var n := Act(fmt, i, args, p, nlong);
    if n.More? then Convert(fmt, n.at, n.args, n.p, n.nlong) else n
  }

  /** One turn of the outer loop: a plain character, or a conversion. */
  function Item(fmt: string, i: nat, args: seq<Arg>): (n: Next)
    requires i < |fmt|
    ensures !n.More?
    ensures n.Done? ==> i < n.at <= |fmt|
  {
    if fmt[i] == '%' then Convert(fmt, i + 1, args, PLAIN, 0) else Done([fmt[i]], i + 1, args)
  }

  /** The unbounded output, where the format is defined. */
  function Render(fmt: Text, i: nat, args: seq<Arg>): (r: Option<string>)
    requires i <= |fmt|
    decreases |fmt| - i
  {
    if i == |fmt| then Some("")
    else
      var n := Item(fmt, i, args);
      if n.Undefined? then None
      else
        match Render(fmt, n.at, n.args)
        case None => None
        case Some(rest) => Some(n.text + rest)
  }

  /** A format without conversions is its own output. */
  lemma {:induction false} PlainText(fmt: Text, i: nat, args: seq<Arg>)
    requires i <= |fmt| && forall k :: i <= k < |fmt| ==> fmt[k] != '%'
    ensures Render(fmt, i, args) == Some(fmt[i..])
    decreases |fmt| - i
  {
    if i < |fmt| {
      PlainText(fmt, i + 1, args);
      assert fmt[i..] == [fmt[i]] + fmt[i + 1..];
    }
  }

  /** A format that is one conversion without flags prints just its argument. */
  lemma OneConversion(c: char, arg: Arg, text: string)
    requires c in "cduxps" && ArgText(c, [arg], PLAIN, 0) == Some(text)
    ensures Render(['%', c], 0, [arg]) == Some(text)
  {
    var fmt: Text := ['%', c];
    assert Act(fmt, 1, [arg], PLAIN, 0) == Done(text, 2, [arg][1..]);
    assert Item(fmt, 0, [arg]) == Done(text, 2, [arg][1..]);
    assert Render(fmt, 2, [arg][1..]) == Some("") && text + "" == text;
  }

  // ----- Where a NUL in the output comes from -----

  /** The conversion that goes on at i is a %c of an argument that is zero as a character. */
  ghost predicate ConvertsNul(fmt: string, i: nat, args: seq<Arg>, p: Props, nlong: nat)
    requires i <= |fmt|
    decreases |fmt| - i
  {
    && i < |fmt|
    && var n := Act(fmt, i, args, p, nlong);
       if n.More? then ConvertsNul(fmt, n.at, n.args, n.p, n.nlong)
       else fmt[i] == 'c' && args != [] && args[0].Int? && args[0].v % 256 == 0
  }

  /** Some %c in the format takes such an argument. */
  ghost predicate TakesNul(fmt: Text, i: nat, args: seq<Arg>)
    requires i <= |fmt|
    decreases |fmt| - i
  {
    && i < |fmt|
    && var n := Item(fmt, i, args);
       && n.Done?
       && ((fmt[i] == '%' && ConvertsNul(fmt, i + 1, args, PLAIN, 0)) || TakesNul(fmt, n.at, n.args))
  }

  lemma {:induction false} DigitsNoNul(n: nat, base: nat)
    requires 2 <= base <= 16
    ensures NoNul(Digits(n, base))
    decreases n
  {
    if n > 0 {
      DigitStep(n, base);
      DigitsNoNul(n / base, base);
      assert forall d :: 0 <= d < 16 ==> DIGITS[d] != NUL;
    }
  }

  lemma PaddedNoNul(s: string, p: Props)
    requires NoNul(s) && p.pad != NUL
    ensures NoNul(Padded(s, p))
  {
  }

  lemma NumbersNoNul(n: nat, base: nat, mark: string, p: Props)
    requires 2 <= base <= 16 && NoNul(mark) && p.pad != NUL
    ensures NoNul(Padded(mark + ZeroFilled(Digits(n, base), p.precision), p.(precision := -1)))
    ensures NoNul(mark + Padded(ZeroFilled(Digits(n, base), p.precision), p.(precision := -1)))
  {
    hide Padded, Digits;
    DigitsNoNul(n, base);
    var body := ZeroFilled(Digits(n, base), p.precision);
    assert NoNul(body) && NoNul(mark + body);
    PaddedNoNul(body, p.(precision := -1));
    PaddedNoNul(mark + body, p.(precision := -1));
  }

  lemma UnsignedNoNul(n: nat, base: nat, p: Props)
    requires 2 <= base <= 16 && p.pad != NUL
    ensures NoNul(FormatUnsigned(n, base, p))
  {
    hide Padded, Digits, ZeroFilled;
    var body := ZeroFilled(Digits(n, base), p.precision);
    assert "" + body == body;
    NumbersNoNul(n, base, "", p);
    NumbersNoNul(n, base, "0x", p);
    NumbersNoNul(n, base, "0x", p.(npad := if p.npad < 2 then 0 else p.npad - 2));
  }

  lemma IntNoNul(n: int, p: Props)
    requires p.pad != NUL
    ensures NoNul(FormatInt(n, p))
  {
    hide Padded, Digits, ZeroFilled;
    var m := if n < 0 then -n else n;
    assert "" + ZeroFilled(Digits(m, 10), p.precision) == ZeroFilled(Digits(m, 10), p.precision);
    NumbersNoNul(m, 10, "", p);
    NumbersNoNul(m, 10, "-", p);
  }

  /** Of all conversions with an argument, only %c can put a NUL out. */
  lemma ArgTextNul(c: char, args: seq<Arg>, p: Props, nlong: nat)
    requires ArgText(c, args, p, nlong).Some? && p.pad != NUL
    ensures NoNul(ArgText(c, args, p, nlong).value) <==> !(c == 'c' && args[0].v % 256 == 0)
  {
    hide Padded, FormatInt, FormatUnsigned;
    match args[0]
    case Str(s) => PaddedNoNul(s, p);
    case Int(v) =>
      if c == 'd' {
        IntNoNul(Signed(v, nlong), p);
      } else if c == 'u' {
        UnsignedNoNul(Unsigned(v, nlong), 10, p);
      } else if c == 'x' {
        UnsignedNoNul(Unsigned(v, nlong), 16, p);
      } else if c == 'p' {
        UnsignedNoNul(Unsigned(v, 1), 16, p.(alternate := true));
      } else {
        assert [(v % 256) as char][0] == (v % 256) as char;
      }
  }

  lemma {:induction false} ConvertNul(fmt: Text, i: nat, args: seq<Arg>, p: Props, nlong: nat)
    requires i <= |fmt| && p.pad != NUL && Convert(fmt, i, args, p, nlong).Done?
    ensures NoNul(Convert(fmt, i, args, p, nlong).text) <==> !ConvertsNul(fmt, i, args, p, nlong)
    decreases |fmt| - i
  {
    hide ArgText, FmtNum, GetInt;
    var n := Act(fmt, i, args, p, nlong);
    if n.More? {
      ConvertNul(fmt, n.at, n.args, n.p, n.nlong);
    } else if i < |fmt| && fmt[i] in "cduxps" {
      ArgTextNul(fmt[i], args, p, nlong);
      ArgTextInt(fmt[i], args, p, nlong);
    }
  }

  lemma ArgTextInt(c: char, args: seq<Arg>, p: Props, nlong: nat)
    requires ArgText(c, args, p, nlong).Some?
    ensures args != [] && (c == 'c' ==> args[0].Int?)
  {
  }

  /** The output holds a NUL exactly when some %c takes an argument that is zero as a character. */
  lemma {:induction false} NulExactly(fmt: Text, i: nat, args: seq<Arg>)
    requires i <= |fmt| && Render(fmt, i, args).Some?
    ensures NoNul(Render(fmt, i, args).value) <==> !TakesNul(fmt, i, args)
    decreases |fmt| - i
  {
    hide Convert, ConvertsNul;
    if i < |fmt| {
      var n := Item(fmt, i, args);
      if fmt[i] == '%' { ConvertNul(fmt, i + 1, args, PLAIN, 0); }
      NulExactly(fmt, n.at, n.args);
      var rest := Render(fmt, n.at, n.args).value;
      JoinNoNul(n.text, rest);
    }
  }

  lemma JoinNoNul(s: string, t: string)
    ensures NoNul(s + t) <==> NoNul(s) && NoNul(t)
  {
    forall k | 0 <= k < |s| ensures s[k] == (s + t)[k] {
    }
    forall k | 0 <= k < |t| ensures t[k] == (s + t)[|s| + k] {
    }
  }

  // ----- The methods -----

  method ReadFmtNum(fmt: string, i: nat, args: seq<Arg>) returns (r: Option<Number>)
    requires i <= |fmt|
    ensures r == FmtNum(fmt, i, args)
  {
    hide Parse, Signed;
    var f := i;
    if At(fmt, f, '-') {
      f := f + 1;
    }
    ghost var start := f;
    while f < |fmt| && '0' <= fmt[f] <= '9'
      invariant start <= f <= |fmt| && DigitsEnd(fmt, f, 10) == DigitsEnd(fmt, start, 10)
    {
      f := f + 1;
    }
    var num := Strtoll(fmt[i..], 10, true);
    if num.None? {
      return None;
    }
    return Some(Number(Signed(num.value.value, 0), f, args));
  }

  method ReadInt(fmt: string, i: nat, args: seq<Arg>) returns (r: Option<Number>)
    requires i <= |fmt|
    ensures r == GetInt(fmt, i, args)
  {
    hide Value, Signed, DigitsEnd;
    if i < |fmt| && '0' <= fmt[i] <= '9' {
      var fits, v, e := ReadDigits(fmt, i, 10, MAX_INT - 48);
      return if fits then Some(Number(v, e, args)) else None;
    } else if At(fmt, i, '*') {
      if args == [] || args[0].Str? {
        return None;
      }
      return Some(Number(Signed(args[0].v, 0), i + 1, args[1..]));
    }
    return Some(Number(0, i, args));
  }

  /** Printing the argument of a conversion. */
  method PrintArg(s: Stream, c: char, arg: Arg, ghost rest: seq<Arg>, p: Props, nlong: nat)
    requires s.Valid() && ArgText(c, [arg] + rest, p, nlong).Some?
    modifies s`pos, s`remain, s`added, s`out, s.buffer
    ensures s.Valid() && s.out == old(s.out) + ArgText(c, [arg] + rest, p, nlong).value
  {
    hide FormatInt, FormatUnsigned, Padded, Stream.Valid, Signed, Unsigned, IntFits, UnsignedFits;
    match arg
    case Str(text) => s.PrintStr(text, p);
    case Int(v) =>
      if c == 'c' {
        s.AddChar((v % 256) as char);
      } else if c == 'd' {
        s.PrintInt(Signed(v, nlong), p);
      } else if c == 'u' {
        s.PrintUnsigned(Unsigned(v, nlong), 10, p);
      } else if c == 'x' {
        s.PrintUnsigned(Unsigned(v, nlong), 16, p);
      } else {
        s.PrintUnsigned(Unsigned(v, 1), 16, p.(alternate := true));
      }
  }

  /** One turn of the switch after a percent sign. */
  method Switch(s: Stream, fmt: string, i0: nat, args0: seq<Arg>, p0: Props, nlong0: nat)
    returns (done: bool, i: nat, args: seq<Arg>, p: Props, nlong: nat)
    requires s.Valid() && i0 <= |fmt| && !Act(fmt, i0, args0, p0, nlong0).Undefined?
    modifies s`pos, s`remain, s`added, s`out, s.buffer
    ensures var n := Act(fmt, i0, args0, p0, nlong0);
      && done == n.Done? && i == n.at && args == n.args && (n.More? ==> p == n.p && nlong == n.nlong)
      && s.Valid() && s.out == old(s.out) + (if n.Done? then n.text else "")
  {
    hide ArgText, Stream.Valid, FmtNum, GetInt;
    done, i, args, p, nlong := false, i0 + 1, args0, p0, nlong0;
    if i0 == |fmt| {
      done, i := true, i0;
      return;
    }
    var c := fmt[i0];
    if c == '.' {
      var num := ReadInt(fmt, i0 + 1, args);
      i, args, p := num.value.at, num.value.args, p.(pad := ' ', precision := num.value.value);
    } else if c == '#' {
      p := p.(alternate := true);
    } else if c == '0' {
      var num := ReadFmtNum(fmt, i0 + 1, args);
      i, args, p := num.value.at, num.value.args, p.(pad := '0', npad := num.value.value);
    } else if '1' <= c <= '9' || c == '-' {
      var num := ReadFmtNum(fmt, i0, args);
      i, args, p := num.value.at, num.value.args, p.(npad := num.value.value);
    } else if c == 'l' {
      nlong := nlong + 1;
    } else if c == 't' || c == 'z' {
      nlong := 1;
    } else if c in "cduxps" {
      assert args == [args[0]] + args[1..];
      PrintArg(s, c, args[0], args[1..], p, nlong);
      done, args := true, args[1..];
    } else {
      s.AddChar(c);
      done := true;
    }
  }

  /** From a percent sign to the end of its conversion. */
  method PrintConversion(s: Stream, fmt: string, i0: nat, args0: seq<Arg>) returns (i: nat, args: seq<Arg>)
    requires s.Valid() && i0 <= |fmt| && Convert(fmt, i0, args0, PLAIN, 0).Done?
    modifies s`pos, s`remain, s`added, s`out, s.buffer
    ensures var n := Convert(fmt, i0, args0, PLAIN, 0);
      s.Valid() && s.out == old(s.out) + n.text && i == n.at && args == n.args
  {
    hide Act, Stream.Valid;
    var done, p, nlong := false, PLAIN, 0;
    i, args := i0, args0;
    while true
      invariant s.Valid() && i <= |fmt| && s.out == old(s.out)
      invariant Convert(fmt, i, args, p, nlong) == Convert(fmt, i0, args0, PLAIN, 0)
      decreases |fmt| - i
    {
      done, i, args, p, nlong := Switch(s, fmt, i, args, p, nlong);
      if done {
        return;
      }
    }
  }

  method PrintItem(s: Stream, fmt: string, i0: nat, args0: seq<Arg>) returns (i: nat, args: seq<Arg>)
    requires s.Valid() && i0 < |fmt| && Item(fmt, i0, args0).Done?
    modifies s`pos, s`remain, s`added, s`out, s.buffer
    ensures var n := Item(fmt, i0, args0);
      s.Valid() && s.out == old(s.out) + n.text && i == n.at && args == n.args
  {
    if fmt[i0] == '%' {
      i, args := PrintConversion(s, fmt, i0 + 1, args0);
    } else {
      s.AddChar(fmt[i0]);
      i, args := i0 + 1, args0;
    }
  }

  method PrintAll(s: Stream, fmt: Text, args0: seq<Arg>)
    requires s.Valid() && Render(fmt, 0, args0).Some?
    modifies s`pos, s`remain, s`added, s`out, s.buffer
    ensures s.Valid() && s.out == old(s.out) + Render(fmt, 0, args0).value
  {
    hide Item, Stream.Valid;
    var i, args := 0, args0;
    while i < |fmt|
      invariant s.Valid() && 0 <= i <= |fmt| && Render(fmt, i, args).Some?
      invariant s.out + Render(fmt, i, args).value == old(s.out) + Render(fmt, 0, args0).value
    {
      i, args := PrintItem(s, fmt, i, args);
    }
  }

  /** vsnprintf on the size characters of buf from start on: the longest prefix of the unbounded output that
      fits, a NUL after it, nothing else changed, and the length of the unbounded output returned. */
  method Vsnprintf(buf: array<char>, start: nat, size: nat, fmt: Text, args0: seq<Arg>) returns (total: nat)
    requires 1 <= size && start + size <= buf.Length && Render(fmt, 0, args0).Some?
    modifies buf
    ensures var text := Render(fmt, 0, args0).value; var k := Stored(text, size);
      total == |text| && buf[..] == old(buf[..start]) + text[..k] + [NUL] + old(buf[start + k + 1..])
  {
    hide Item, Render, Stream.Valid;
    var s := new Stream(buf, start, size);
    PrintAll(s, fmt, args0);
    assert s.out == Render(fmt, 0, args0).value;
    s.Terminate();
    total := s.added;
  }
}
