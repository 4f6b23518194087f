/** What a conversion with flags, width, precision and length prints, and reading it back. */
module FormatLaw {
  import opened Basics
  import opened Bits
  import opened CString
  import opened Format
  import opened FormatShift
  import opened Numerals
  import opened Printf
  import opened RoundTrip

  /** No precision, one written out, or a star that takes the next argument for it. */
  datatype Precision = Absent | Given(n: nat) | Star(v: int) {
    /** Digits that get_int reads without overflow, or an int. */
    predicate Ok() {
      match this
      case Absent => true
      case Given(n) => n <= MAX_INT - 48
      case Star(v) => -MAX_INT - 1 <= v <= MAX_INT
    }

    function Text(): (s: string) {
      match this
      case Absent => ""
      case Given(n) => "." + NumberDigits(n)
      case Star(_) => ".*"
    }
  }

  /** Some "l", or a "z" or a "t", which stand for one. */
  datatype Length = Longs(n: nat) | Size | Difference {
    function Text(): (s: string) {
      match this
      case Longs(n) => Repeat('l', n)
      case Size => "z"
      case Difference => "t"
    }

    predicate Wide() {
      this != Longs(0)
    }

    function Count(): (n: nat) {
      if Longs? then n else 1
    }
  }

  /** A conversion as it is written: "%", an optional "#", an optional "0", a width, a precision, a length and the
      conversion character. */
  datatype Spec = Spec(alternate: bool, zero: bool, width: int, precision: Precision, length: Length, conv: char) {
    predicate Ok() {
      conv in "cduxps" && -MAX_INT <= width <= MAX_INT && precision.Ok()
    }

    /** The properties it stands for. A precision cancels the zero padding. */
    function Meaning(): (p: Props) {
      Props(if zero && precision.Absent? then '0' else ' ', width, alternate,
            match precision case Absent => -1 case Given(n) => n case Star(v) => v)
    }

    /** The arguments it takes. */
    function Args(arg: Arg): (args: seq<Arg>) {
      Stars() + [arg]
    }

    function Stars(): (args: seq<Arg>) {
      if precision.Star? then [Int(precision.v)] else []
    }

    function Written(): (t: Text)
      requires Ok()
    {
      RawIsText(this);
      Raw()
    }

    function Raw(): (s: string) {
      "%" + Hash(alternate) + Zero(zero) + WidthText(width) + precision.Text() + length.Text() + [conv]
    }
  }

  function Hash(b: bool): (s: string) {
    if b then "#" else ""
  }

  function Zero(b: bool): (s: string) {
    if b then "0" else ""
  }

  function WidthText(w: int): (s: string) {
    if w < 0 then "-" + Digits(-w, 10) else Digits(w, 10)
  }

  function NumberDigits(n: nat): (s: string) {
    if n == 0 then "0" else Digits(n, 10)
  }

  // ----- Numbers in the format -----

  /** The format goes on at i with s, and then with something that continues no number. */
  ghost predicate Reads(fmt: string, i: nat, s: string) {
    && i + |s| < |fmt| && fmt[i..i + |s|] == s
    && var c := fmt[i + |s|];
       DigitOf(c, 10).None? && !IsSpace(c) && c != '-' && c != '+'
  }

  /** Digits in the middle of a format. */
  lemma DigitsRead(fmt: string, j: nat, z: nat, n: nat)
    requires Reads(fmt, j, Core(z, n, 10))
    ensures var e := j + |Core(z, n, 10)|; DigitsEnd(fmt, j, 10) == e && Value(fmt[j..e], 10) == n
  {
    hide Value, DigitOf, Core;
    CoreValue(z, n, 10);
    DigitsEndIs(fmt, j, j + |Core(z, n, 10)|, 10);
  }

  lemma DigitsAreCore(n: nat)
    ensures Digits(n, 10) == Core(0, n, 10)
  {
  }

  lemma SignBack(w: int)
    requires -MAX_INT <= w < 0
    ensures Signed((WORD + w) % WORD, 0) == w
  {
    DivUnique(WORD + w, WORD, 0, WORD + w);
    DivUnique(WORD + w, HALF_WORD, HALF_WORD - 1, HALF_WORD + w);
  }

  /** fmtnum reads the width that was written. */
  lemma WidthRead(fmt: string, i: nat, w: int, args: seq<Arg>)
    requires -MAX_INT <= w <= MAX_INT && Reads(fmt, i, WidthText(w))
    ensures FmtNum(fmt, i, args) == Some(Number(w, i + |WidthText(w)|, args))
  {
    hide Value, DigitOf, Parse, Digits, Core, DigitsEnd;
    var m := if w < 0 then -w else w;
    var sign := if w < 0 then 1 else 0;
    var core := Core(0, m, 10);
    DigitsAreCore(m);
    var j := i + sign;
    var e := j + |core|;
    assert WidthText(w)[sign..] == core;
    assert fmt[j..e] == fmt[i..i + |WidthText(w)|][sign..];
    DigitsRead(fmt, j, 0, m);
    CoreValue(0, m, 10);
    var s := fmt[i..];
    assert s[sign..e - i] == fmt[j..e];
    if w < 0 {
      assert s[0] == fmt[i..i + |WidthText(w)|][0] == '-';
    } else {
      NoSign(core, s, fmt[e]);
    }
    ParseParts(s, 0, sign, sign, e - i, 10, 10, true);
    if w < 0 { SignBack(w); }
  }

  lemma NoSign(core: string, s: string, next: char)
    requires AllDigits(core, 10) && |core| < |s| && s[..|core|] == core && s[|core|] == next
    requires !IsSpace(next) && next != '-' && next != '+'
    ensures !IsSpace(s[0]) && s[0] != '-' && s[0] != '+'
  {
    if core != "" {
      assert s[0] == core[0];
      DigitIsPlain(core[0], 10);
    }
  }

  /** get_int reads the precision that was written. */
  lemma PrecisionRead(fmt: string, i: nat, n: nat, args: seq<Arg>)
    requires n <= MAX_INT - 48 && Reads(fmt, i, NumberDigits(n))
    ensures GetInt(fmt, i, args) == Some(Number(n, i + |NumberDigits(n)|, args))
  {
    hide Value, DigitOf, Digits, Core, DigitsEnd;
    var z := if n == 0 then 1 else 0;
    assert NumberDigits(n) == Core(z, n, 10) by { OneZero(); DigitsAreCore(n); }
    DigitsRead(fmt, i, z, n);
    assert fmt[i] == NumberDigits(n)[0] by {
      NumberStarts(n);
      assert fmt[i] == fmt[i..i + |NumberDigits(n)|][0];
    }
    NumberStarts(n);
  }

  lemma OneZero()
    ensures Core(1, 0, 10) == "0"
  {
    assert Repeat('0', 1) == "0" && Digits(0, 10) == "";
  }

  lemma NumberStarts(n: nat)
    ensures |NumberDigits(n)| > 0 && '0' <= NumberDigits(n)[0] <= '9'
  {
    if n > 0 {
      hide Digits, Value;
      FirstDigit(n, 10);
      DigitsAreCore(n);
      CoreValue(0, n, 10);
      assert DigitOf(Digits(n, 10)[0], 10).Some?;
    }
  }

  // ----- From one part to the next -----

  /** Where the parts of a written conversion begin. */
  datatype Places = Places(zero: nat, width: nat, precision: nat, length: nat, conv: nat)

  function PlacesOf(d: Spec): (x: Places) {
    var zero := 1 + |Hash(d.alternate)|;
    var width := zero + |Zero(d.zero)|;
    var precision := width + |WidthText(d.width)|;
    var length := precision + |d.precision.Text()|;
    Places(zero, width, precision, length, length + |d.length.Text()|)
  }

  /** A character that ends a number in a format. */
  predicate EndsNumber(c: char) {
    c in ".lztcduxps"
  }

  /** A format that starts with the conversion has its parts. */
  lemma Parts(d: Spec, t: string)
    requires d.Raw() <= t
    ensures var x := PlacesOf(d);
      && |d.Raw()| == x.conv + 1 && t[0] == '%' && t[x.conv] == d.conv
      && t[1..x.zero] == Hash(d.alternate) && t[x.zero..x.width] == Zero(d.zero)
      && t[x.width..x.precision] == WidthText(d.width)
      && t[x.precision..x.length] == d.precision.Text() && t[x.length..x.conv] == d.length.Text()
  {
    hide Repeat, WidthText, Precision.Text, Length.Text, Hash, Zero;
    var x := PlacesOf(d);
    var a, b, c := Hash(d.alternate), Zero(d.zero), WidthText(d.width);
    var e, f := d.precision.Text(), d.length.Text();
    assert t == d.Raw() + t[|d.Raw()|..];
    JoinedParts("%", a, b, c, e, f, [d.conv], t[|d.Raw()|..]);
    assert t[0] == t[0..1][0] && t[x.conv] == t[x.conv..x.conv + 1][0];
  }

  lemma JoinedParts(s: string, a: string, b: string, c: string, e: string, f: string, g: string, h: string)
    ensures var t := s + a + b + c + e + f + g + h;
      var i, j := |s|, |s| + |a|; var k := j + |b|; var l := k + |c|; var m := l + |e|; var n := m + |f|;
      && t[0..i] == s && t[i..j] == a && t[j..k] == b && t[k..l] == c && t[l..m] == e && t[m..n] == f
      && t[n..n + |g|] == g
  {
  }

  lemma AfterParts(d: Spec, t: string)
    requires d.Ok() && d.Raw() <= t
    ensures var x := PlacesOf(d); x.conv < |t| && EndsNumber(t[x.precision]) && EndsNumber(t[x.length])
  {
    hide WidthText, Digits, Spec.Raw;
    Parts(d, t);
    var x := PlacesOf(d);
    assert x.length < x.conv ==> t[x.length] == d.length.Text()[0];
    assert x.precision < x.length ==> t[x.precision] == d.precision.Text()[0];
  }

  lemma EndReads(fmt: string, i: nat, s: string)
    requires i + |s| < |fmt| && fmt[i..i + |s|] == s && EndsNumber(fmt[i + |s|])
    ensures Reads(fmt, i, s)
  {
  }

  lemma HashStep(d: Spec, t: string, args: seq<Arg>)
    requires d.Raw() <= t
    ensures var x := PlacesOf(d);
      && x.zero <= |t|
      && Convert(t, 1, args, PLAIN, 0) == Convert(t, x.zero, args, PLAIN.(alternate := d.alternate), 0)
  {
    hide Spec.Raw, FmtNum, GetInt, ArgText;
    Parts(d, t);
    var x := PlacesOf(d);
    if d.alternate {
      assert t[1] == t[1..x.zero][0] == '#';
      assert Act(t, 1, args, PLAIN, 0) == More(2, args, PLAIN.(alternate := true), 0);
    }
  }

  lemma WidthStarts(w: int)
    requires w != 0
    ensures |WidthText(w)| > 0 && (WidthText(w)[0] == '-' || '1' <= WidthText(w)[0] <= '9')
  {
    if w > 0 {
      hide Digits;
      FirstDigit(w, 10);
      NumberStarts(w);
    }
  }

  lemma WidthStep(d: Spec, t: string, args: seq<Arg>, p: Props)
    requires d.Ok() && d.Raw() <= t && p.pad == ' ' && p.npad == 0
    ensures var x := PlacesOf(d);
      && x.precision <= |t|
      && Convert(t, x.zero, args, p, 0) ==
         Convert(t, x.precision, args, p.(pad := if d.zero then '0' else ' ', npad := d.width), 0)
  {
    hide Spec.Raw, FmtNum, GetInt, ArgText, WidthText, Reads, EndsNumber, Precision.Text, Length.Text;
    Parts(d, t);
    AfterParts(d, t);
    var x := PlacesOf(d);
    EndReads(t, x.width, WidthText(d.width));
    WidthRead(t, x.width, d.width, args);
    if d.zero {
      assert t[x.zero] == t[x.zero..x.width][0] == '0';
      assert Act(t, x.zero, args, p, 0) == More(x.precision, args, p.(pad := '0', npad := d.width), 0);
    } else if d.width != 0 {
      WidthStarts(d.width);
      assert t[x.zero] == t[x.width..x.precision][0];
      assert Act(t, x.zero, args, p, 0) == More(x.precision, args, p.(npad := d.width), 0);
    } else {
      EmptyWidth();
    }
  }

  lemma EmptyWidth()
    ensures WidthText(0) == ""
  {
  }

  /** A star takes an int argument as it is. */
  lemma StarRead(fmt: string, i: nat, v: int, args: seq<Arg>)
    requires At(fmt, i, '*') && -MAX_INT - 1 <= v <= MAX_INT
    ensures GetInt(fmt, i, [Int(v)] + args) == Some(Number(v, i + 1, args))
  {
    hide DigitsEnd, Value;
    assert ([Int(v)] + args)[1..] == args;
    DivUnique(v, HALF_WORD, if v < 0 then -1 else 0, if v < 0 then v + HALF_WORD else v);
  }

  lemma PrecisionStep(d: Spec, t: string, args: seq<Arg>, p: Props)
    requires d.Ok() && d.Raw() <= t
    ensures var x, q := PlacesOf(d), p.(pad := ' ', precision := d.Meaning().precision);
      && x.precision <= x.length <= |t|
      && Convert(t, x.precision, d.Stars() + args, p, 0) ==
         Convert(t, x.length, args, if d.precision.Absent? then p else q, 0)
  {
    hide Spec.Raw, Act, WidthText, Length.Text, EndsNumber;
    Parts(d, t);
    AfterParts(d, t);
    var x := PlacesOf(d);
    if d.precision.Absent? {
      assert d.Stars() + args == args;
    } else {
      PrecisionAct(t, x.precision, x.length, d.precision, args, p);
      assert d.precision.Given? ==> d.Stars() + args == args;
    }
  }

  /** A point and what follows it, read in one go. */
  lemma PrecisionAct(t: string, i: nat, e: nat, x: Precision, args: seq<Arg>, p: Props)
    requires i <= e < |t| && t[i..e] == x.Text() && EndsNumber(t[e]) && x.Ok() && !x.Absent?
    ensures match x
      case Absent => true
      case Given(n) => Act(t, i, args, p, 0) == More(e, args, p.(pad := ' ', precision := n), 0)
      case Star(v) => Act(t, i, [Int(v)] + args, p, 0) == More(e, args, p.(pad := ' ', precision := v), 0)
  {
    hide FmtNum, GetInt, ArgText, NumberDigits, Reads;
    assert t[i] == t[i..e][0] == '.';
    assert t[i + 1..e] == t[i..e][1..];
    match x
    case Given(n) =>
      EndReads(t, i + 1, NumberDigits(n));
      PrecisionRead(t, i + 1, n, args);
    case Star(v) =>
      assert t[i + 1] == t[i + 1..e][0] == '*';
      StarRead(t, i + 1, v, args);
  }

  lemma LengthAct(t: string, i: nat, args: seq<Arg>, p: Props, nlong: nat)
    requires i < |t|
    ensures t[i] == 'l' ==> Act(t, i, args, p, nlong) == More(i + 1, args, p, nlong + 1)
    ensures t[i] == 'z' || t[i] == 't' ==> Act(t, i, args, p, nlong) == More(i + 1, args, p, 1)
  {
  }

  lemma {:induction false} LongStep(fmt: string, i: nat, k: nat, args: seq<Arg>, p: Props, nlong: nat)
    requires i + k <= |fmt| && forall j :: i <= j < i + k ==> fmt[j] == 'l'
    ensures Convert(fmt, i, args, p, nlong) == Convert(fmt, i + k, args, p, nlong + k)
    decreases k
  {
    hide Act;
    if k > 0 {
      LengthAct(fmt, i, args, p, nlong);
      LongStep(fmt, i + 1, k - 1, args, p, nlong + 1);
    }
  }

  lemma LengthStep(d: Spec, t: string, args: seq<Arg>, p: Props)
    requires d.Raw() <= t
    ensures var x := PlacesOf(d);
      x.length <= x.conv <= |t| && Convert(t, x.length, args, p, 0) == Convert(t, x.conv, args, p, d.length.Count())
  {
    hide Spec.Raw, Act, WidthText, Precision.Text;
    Parts(d, t);
    var x := PlacesOf(d);
    forall j | x.length <= j < x.conv ensures t[j] == d.length.Text()[j - x.length] {
      assert t[j] == t[x.length..x.conv][j - x.length];
    }
    if d.length.Longs? {
      LongStep(t, x.length, d.length.n, args, p, 0);
    } else {
      LengthAct(t, x.length, args, p, 0);
    }
  }

  // ----- The law -----

  lemma PartsChain(d: Spec, t: string, args: seq<Arg>)
    requires d.Ok() && d.Raw() <= t
    ensures var x := PlacesOf(d);
      && |d.Raw()| == x.conv + 1
      && Convert(t, 1, d.Stars() + args, PLAIN, 0) == Convert(t, x.conv, args, d.Meaning(), d.length.Count())
  {
    hide Spec.Raw, Convert, WidthText, Precision.Text, Length.Text, Spec.Stars;
    Parts(d, t);
    HashStep(d, t, d.Stars() + args);
    var p1 := PLAIN.(alternate := d.alternate);
    WidthStep(d, t, d.Stars() + args, p1);
    var p2 := p1.(pad := if d.zero then '0' else ' ', npad := d.width);
    PrecisionStep(d, t, args, p2);
    LengthStep(d, t, args, d.Meaning());
  }

  /** What a conversion makes of its argument alone. */
  function Text(d: Spec, arg: Arg): (r: Option<string>) {
    ArgText(d.conv, [arg], d.Meaning(), d.length.Count())
  }

  lemma ConvAct(t: string, i: nat, arg: Arg, more: seq<Arg>, p: Props, nlong: nat)
    requires i < |t| && t[i] in "cduxps"
    ensures var r := ArgText(t[i], [arg], p, nlong);
      Act(t, i, [arg] + more, p, nlong) == if r.None? then Undefined else Done(r.value, i + 1, more)
  {
    hide FormatInt, FormatUnsigned, Padded, IntFits, UnsignedFits, FmtNum, GetInt;
    var args := [arg] + more;
    assert args[1..] == more && args[0] == arg;
  }

  /** At the start of a format, it is converted, and the rest of the format and of the arguments is left. */
  lemma SpecConverts(d: Spec, t: string, arg: Arg, more: seq<Arg>)
    requires d.Ok() && d.Raw() <= t
    ensures |d.Raw()| > 1 && t[0] == '%'
    ensures Convert(t, 1, d.Args(arg) + more, PLAIN, 0) ==
            if Text(d, arg).None? then Undefined else Done(Text(d, arg).value, |d.Raw()|, more)
  {
    hide Spec.Raw, Act, ArgText, WidthText, Precision.Text, Length.Text, PlacesOf, Spec.Stars;
    var args := [arg] + more;
    assert d.Args(arg) + more == d.Stars() + args;
    PartsChain(d, t, args);
    var x := PlacesOf(d);
    Parts(d, t);
    ConvAct(t, x.conv, arg, more, d.Meaning(), d.length.Count());
  }

  lemma RawIsText(d: Spec)
    requires d.Ok()
    ensures NoNul(d.Raw())
  {
    hide Digits, Repeat;
    DigitsNoNul(if d.width < 0 then -d.width else d.width, 10);
    if d.precision.Given? { DigitsNoNul(d.precision.n, 10); }
    assert NoNul(d.length.Text()) && NoNul(d.precision.Text()) && NoNul(WidthText(d.width));
  }

  lemma SpecRenders(d: Spec, arg: Arg, rest: Text, more: seq<Arg>)
    requires d.Ok()
    ensures Render(Then(d.Written(), rest), 0, d.Args(arg) + more) == Joined(Text(d, arg), Render(rest, 0, more))
  {
    hide Spec.Raw, Text, Convert, NoNul;
    var fmt := Then(d.Written(), rest);
    SpecConverts(d, fmt, arg, more);
    ShiftRender(d.Written(), rest, 0, more);
  }

  lemma Alone(d: Spec, arg: Arg)
    requires d.Ok()
    ensures Render(d.Written(), 0, d.Args(arg)) == Text(d, arg)
  {
    hide Spec.Raw, Text, Convert;
    SpecRenders(d, arg, "", []);
    assert d.Args(arg) + [] == d.Args(arg) && Then(d.Written(), "") == d.Written();
    if Text(d, arg).Some? { assert Text(d, arg).value + "" == Text(d, arg).value; }
  }

  /** A conversion before the rest of a format takes its arguments from the front, and its output comes before
      that of the rest on the arguments left over; and one without a defined output leaves the whole without. */
  lemma ConversionThen(d: Spec, arg: Arg, rest: Text, more: seq<Arg>)
    requires d.Ok()
    ensures Render(Then(d.Written(), rest), 0, d.Args(arg) + more) ==
            Joined(Render(d.Written(), 0, d.Args(arg)), Render(rest, 0, more))
  {
    hide Spec.Written, Text, Render;
    SpecRenders(d, arg, rest, more);
    Alone(d, arg);
  }

  // ----- What each conversion prints -----

  /** %c is the one character, whatever the flags, width and precision. */
  lemma CharRenders(d: Spec, v: int)
    requires d.Ok() && d.conv == 'c'
    ensures Render(d.Written(), 0, d.Args(Int(v))) == Some([(v % 256) as char])
  {
    hide Spec.Written, Render;
    Alone(d, Int(v));
  }

  /** %s is the first characters of the string, as many as the precision lets through, in a field of the width: on
      the right of blanks or zeros, or on the left of blanks. The room is counted for the whole string. */
  lemma StringRenders(d: Spec, s: Text)
    requires d.Ok() && d.conv == 's' && !d.length.Wide()
    ensures var p, r := d.Meaning(), Render(d.Written(), 0, d.Args(Str(s)));
      && r.Some?
      && var t, n := r.value, if 0 <= p.precision < |s| then p.precision else |s|;
         && |t| == Max(Width(d.width), |s|) - (|s| - n)
         && (d.width >= 0 ==> t[|t| - n..] == s[..n] && forall i :: 0 <= i < |t| - n ==> t[i] == p.pad)
         && (d.width < 0 ==> t[..n] == s[..n] && forall i :: n <= i < |t| ==> t[i] == ' ')
  {
    hide Spec.Written, Render, Padded;
    Alone(d, Str(s));
    PaddedWidth(s, d.Meaning());
    assert s[..|s|] == s;
  }

  /** The number a conversion of an unsigned argument prints, its base, and whether it is in the alternate form. */
  predicate IsUnsigned(d: Spec) {
    d.conv in "uxp"
  }

  function BaseOf(d: Spec): (base: nat)
    ensures base == 10 || base == 16
  {
    if d.conv == 'u' then 10 else 16
  }

  function UnsignedMeaning(d: Spec): (p: Props) {
    d.Meaning().(alternate := d.alternate || d.conv == 'p')
  }

  /** An address, and any argument with a length, has 64 bits; otherwise it has 32. */
  function Modulus(d: Spec): (m: int) {
    if d.conv == 'p' || d.length.Wide() then WORD else HALF_WORD
  }

  /** %u, %x and %p are the field of the argument modulo its width, exactly when the digit buffer holds it. */
  lemma UnsignedRenders(d: Spec, v: int)
    requires d.Ok() && IsUnsigned(d)
    ensures var p, n := UnsignedMeaning(d), v % Modulus(d);
      Render(d.Written(), 0, d.Args(Int(v))) ==
      if UnsignedFits(n, BaseOf(d), p) then Some(FormatUnsigned(n, BaseOf(d), p)) else None
  {
    hide Spec.Written, Render, FormatUnsigned;
    Alone(d, Int(v));
    assert d.conv == 'p' ==> d.Meaning().(alternate := true) == UnsignedMeaning(d);
    assert d.conv != 'p' ==> d.Meaning() == UnsignedMeaning(d);
  }

  /** %d is likewise the field of the signed number of that width that the argument is congruent to. */
  lemma IntRenders(d: Spec, v: int, n: int)
    requires d.Ok() && d.conv == 'd'
    requires var m := Modulus(d); (v - n) % m == 0 && n + m / 2 >= 0 && n < m / 2
    ensures Render(d.Written(), 0, d.Args(Int(v))) ==
            if IntFits(n, d.Meaning()) then Some(FormatInt(n, d.Meaning())) else None
  {
    hide Spec.Written, Render, FormatInt;
    Alone(d, Int(v));
    var m := Modulus(d);
    var q := (v - n) / m;
    DivUnique(v, m, if n < 0 then q - 1 else q, if n < 0 then n + m else n);
  }

  /** Formatting an unsigned number or an address and parsing the result: the number comes back, whatever the
      width, flags, precision and base; a signed parse asserts exactly above LONG_MAX. */
  lemma UnsignedReadBack(d: Spec, v: nat, parseBase: nat, isSigned: bool)
    requires d.Ok() && IsUnsigned(d) && v < Modulus(d) && UnsignedFits(v, BaseOf(d), UnsignedMeaning(d))
    requires parseBase == BaseOf(d) || (parseBase == 0 && BaseOf(d) == 16 && UnsignedMeaning(d).alternate)
    ensures var r := Render(d.Written(), 0, d.Args(Int(v)));
      && r.Some?
      && Parse(r.value, parseBase, isSigned) ==
         if v > Limit(isSigned) then None else Some(Parsed(v, UnsignedEnd(v, BaseOf(d), UnsignedMeaning(d))))
  {
    hide Spec.Written, Render, Parse, FormatUnsigned, UnsignedEnd;
    DivUnique(v, Modulus(d), 0, v);
    UnsignedRenders(d, v);
    UnsignedRoundTrip(v, BaseOf(d), UnsignedMeaning(d), parseBase, isSigned);
  }

  /** Formatting a signed number and parsing the result: the number comes back exactly when its sign is not
      printed behind padding zeros. */
  lemma IntReadBack(d: Spec, v: int, isSigned: bool)
    requires d.Ok() && d.conv == 'd' && IntFits(v, d.Meaning())
    requires d.length.Wide() || -HALF_WORD / 2 <= v < HALF_WORD / 2
    ensures var r := Render(d.Written(), 0, d.Args(Int(v)));
      && r.Some?
      && var q := Parse(r.value, 10, isSigned);
         q.Some? && (AsLong(q.value.value) == v <==> !SignBuried(v, d.Meaning()))
  {
    hide Spec.Written, Render, Parse, FormatInt, SignBuried;
    IntRenders(d, v, v);
    IntRoundTrip(v, d.Meaning(), isSigned);
  }
}
