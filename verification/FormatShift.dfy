/** A format means the same wherever it stands: what comes before the cursor plays no part. */
module FormatShift {
  import opened Basics
  import opened CString
  import opened Format
  import opened Printf
  import opened RoundTrip

  function Shifted(n: Next, k: nat): (m: Next) {
    match n
    case Undefined => Undefined
    case More(at, args, p, nlong) => More(at + k, args, p, nlong)
    case Done(text, at, args) => Done(text, at + k, args)
  }

  lemma ShiftDigits(a: string, b: string, i: nat)
    requires i <= |b|
    ensures DigitsEnd(a + b, |a| + i, 10) == |a| + DigitsEnd(b, i, 10)
    ensures var e := DigitsEnd(b, i, 10); (a + b)[|a| + i..|a| + e] == b[i..e]
  {
    hide DigitOf;
    var e := DigitsEnd(b, i, 10);
    assert (a + b)[|a| + i..|a| + e] == b[i..e];
    DigitsEndIs(a + b, |a| + i, |a| + e, 10);
  }

  lemma ShiftNumbers(a: string, b: string, i: nat, args: seq<Arg>)
    requires i <= |b|
    ensures match FmtNum(b, i, args)
      case None => FmtNum(a + b, |a| + i, args) == None
      case Some(n) => FmtNum(a + b, |a| + i, args) == Some(n.(at := |a| + n.at))
    ensures match GetInt(b, i, args)
      case None => GetInt(a + b, |a| + i, args) == None
      case Some(n) => GetInt(a + b, |a| + i, args) == Some(n.(at := |a| + n.at))
  {
    hide DigitOf, DigitsEnd, Value, Parse;
    ShiftDigits(a, b, i);
    if At(b, i, '-') { ShiftDigits(a, b, i + 1); }
    assert (a + b)[|a| + i..] == b[i..];
    assert i < |b| ==> (a + b)[|a| + i] == b[i];
  }

  lemma ShiftAct(a: string, b: string, i: nat, args: seq<Arg>, p: Props, nlong: nat)
    requires i <= |b|
    ensures Act(a + b, |a| + i, args, p, nlong) == Shifted(Act(b, i, args, p, nlong), |a|)
  {
    hide FmtNum, GetInt, ArgText;
    if i < |b| {
      assert (a + b)[|a| + i] == b[i];
      ShiftNumbers(a, b, i, args);
      ShiftNumbers(a, b, i + 1, args);
    }
  }

  lemma {:induction false} ShiftConvert(a: string, b: string, i: nat, args: seq<Arg>, p: Props, nlong: nat)
    requires i <= |b|
    ensures Convert(a + b, |a| + i, args, p, nlong) == Shifted(Convert(b, i, args, p, nlong), |a|)
    decreases |b| - i
  {
    hide Act;
    ShiftAct(a, b, i, args, p, nlong);
    var n := Act(b, i, args, p, nlong);
    if n.More? {
      ShiftConvert(a, b, n.at, n.args, n.p, n.nlong);
    }
  }

  /** One format after another. */
  function Then(a: Text, b: Text): (t: Text) {
    a + b
  }

  /** Once the cursor has passed the first of two formats, the second is all that counts. */
  lemma {:induction false} ShiftRender(a: Text, b: Text, i: nat, args: seq<Arg>)
    requires i <= |b|
    ensures Render(Then(a, b), |a| + i, args) == Render(b, i, args)
    decreases |b| - i
  {
    hide Convert;
    if i < |b| {
      assert (a + b)[|a| + i] == b[i];
      if b[i] == '%' { ShiftConvert(a, b, i + 1, args, PLAIN, 0); }
      var n := Item(b, i, args);
      assert Item(Then(a, b), |a| + i, args) == Shifted(n, |a|);
      if n.Done? { ShiftRender(a, b, n.at, n.args); }
    }
  }

  /** The output of a format of two parts. */
  function Joined(a: Option<string>, b: Option<string>): (r: Option<string>) {
    if a.Some? && b.Some? then Some(a.value + b.value) else None
  }

  lemma HeadFirst(s: string, t: string)
    requires s != ""
    ensures s + t == [s[0]] + (s[1..] + t)
  {
  }

  /** Text before the rest of a format comes out as it is, before the output of the rest. */
  lemma {:induction false} TextThen(text: Text, rest: Text, i: nat, args: seq<Arg>)
    requires i <= |text| && forall k :: 0 <= k < |text| ==> text[k] != '%'
    ensures Render(Then(text, rest), i, args) == Joined(Some(text[i..]), Render(rest, 0, args))
    decreases |text| - i
  {
    hide Convert;
    var fmt, r := Then(text, rest), Render(rest, 0, args);
    if i == |text| {
      ShiftRender(text, rest, 0, args);
      assert text[i..] == "" && (r.Some? ==> "" + r.value == r.value);
    } else {
      TextThen(text, rest, i + 1, args);
      assert fmt[i] == text[i] && Item(fmt, i, args) == Done([text[i]], i + 1, args);
      if r.Some? { HeadFirst(text[i..], r.value); }
      assert text[i..][1..] == text[i + 1..];
    }
  }

  /** A percent sign before a character without a meaning there puts that character out: "%%" is "%". */
  lemma OtherThen(c: char, rest: Text, args: seq<Arg>)
    requires c != NUL && c !in ".#-ltzcduxps" && !('0' <= c <= '9')
    ensures Render(Then(['%', c], rest), 0, args) == Joined(Some([c]), Render(rest, 0, args))
  {
    var head: Text := ['%', c];
    var fmt := Then(head, rest);
    assert fmt[0] == '%' && fmt[1] == c;
    assert Act(fmt, 1, args, PLAIN, 0) == Done([c], 2, args);
    assert Item(fmt, 0, args) == Done([c], 2, args);
    ShiftRender(head, rest, 0, args);
  }
}
