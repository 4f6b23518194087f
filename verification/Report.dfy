/** The prefix stack of lib/report.c, kept in one flat buffer, against a stack of strings. */
module Report {
  import opened Basics
  import opened CString
  import opened Format
  import opened Printf

  const SIZE: nat := 256
  const DELIMITER: Text := ": "

  /** The text of a stack: each prefix followed by the delimiter. */
  function Flat(stack: seq<string>): (s: string) {
    if stack == [] then "" else stack[0] + DELIMITER + Flat(stack[1..])
  }

  ghost predicate NoDelimiter(p: string) {
    forall k :: !OccursAt(p, DELIMITER, k)
  }

  ghost predicate Prefix(p: string) {
    NoDelimiter(p) && NoNul(p)
  }

  ghost predicate Stack(stack: seq<string>) {
    forall k :: 0 <= k < |stack| ==> Prefix(stack[k])
  }

  lemma {:induction false} FlatPush(stack: seq<string>, p: string)
    ensures Flat(stack + [p]) == Flat(stack) + p + DELIMITER
  {
    if stack == [] {
      assert stack + [p] == [p] && Flat([p]) == p + DELIMITER + Flat([]);
    } else {
      assert (stack + [p])[1..] == stack[1..] + [p];
      FlatPush(stack[1..], p);
    }
  }

  /** The delimiter that ends a prefix is the first one, also when the prefix ends in a colon, is empty, or
      is followed by one that starts with a blank. */
  lemma FirstDelimiter(p: string, rest: string, k: int)
    requires NoDelimiter(p)
    ensures OccursAt(p + DELIMITER + rest, DELIMITER, |p|)
    ensures 0 <= k < |p| ==> !OccursAt(p + DELIMITER + rest, DELIMITER, k)
  {
    var s := p + DELIMITER + rest;
    assert s[|p|..|p| + 2] == DELIMITER;
    if 0 <= k < |p| {
      if k == |p| - 1 {
        assert s[k..k + 2][1] == ':';
      } else {
        assert s[k..k + 2] == p[k..k + 2];
        assert !OccursAt(p, DELIMITER, k);
      }
    }
  }

  lemma {:induction false} FlatNoNul(stack: seq<string>)
    requires Stack(stack)
    ensures NoNul(Flat(stack))
  {
    if stack != [] {
      FlatNoNul(stack[1..]);
    }
  }

  /** The flat form loses nothing: no other stack has the same text, and a text that ends in anything but a
      delimiter is no stack's. */
  lemma {:induction false} FlatUnique(a: seq<string>, t: string, b: seq<string>)
    requires Stack(a) && Stack(b) && NoDelimiter(t) && Flat(a) + t == Flat(b)
    ensures a == b && t == ""
  {
    if b == [] {
      assert Flat(a) == "";
    } else if a == [] {
      assert t == b[0] + DELIMITER + Flat(b[1..]);
      FirstDelimiter(b[0], Flat(b[1..]), 0);
      assert false;
    } else {
      var s := Flat(b);
      var p, q := a[0], b[0];
      assert s == p + DELIMITER + (Flat(a[1..]) + t);
      FirstDelimiter(p, Flat(a[1..]) + t, |q|);
      FirstDelimiter(q, Flat(b[1..]), |p|);
      assert |p| == |q|;
      assert p == s[..|p|] && q == s[..|q|];
      assert Flat(a[1..]) + t == s[|p| + 2..] && Flat(b[1..]) == s[|q| + 2..];
      FlatUnique(a[1..], t, b[1..]);
      assert a == [p] + a[1..] && b == [q] + b[1..];
    }
  }

  lemma {:induction false} FlatSplit(stack: seq<string>, i: nat)
    requires i <= |stack|
    ensures Flat(stack) == Flat(stack[..i]) + Flat(stack[i..])
  {
    if i == 0 {
      assert stack[0..] == stack;
    } else {
      FlatSplit(stack[1..], i - 1);
      assert stack[..i][1..] == stack[1..][..i - 1] && stack[1..][i - 1..] == stack[i..];
    }
  }

  /** What a C string function sees of a text: everything before the first NUL. */
  function Seen(t: string): (s: string)
    ensures s <= t && NoNul(s) && (|s| < |t| ==> t[|s|] == NUL) && (NoNul(t) ==> s == t)
  {
    if t == "" || t[0] == NUL then ""
    else
      assert NoNul(t) ==> NoNul(t[1..]);
      [t[0]] + Seen(t[1..])
  }

  lemma {:induction false} SeenIs(t: string, n: nat)
    requires n < |t| && t[n] == NUL && NoNul(t[..n])
    ensures Seen(t) == t[..n]
  {
    if n > 0 {
      assert t[..n][0] == t[0] && t[1..][..n - 1] == t[..n][1..];
      SeenIs(t[1..], n - 1);
    }
  }

  /** What follows a NUL is not seen, and what comes before is seen first. */
  lemma {:induction false} SeenStops(t: string, r: string)
    requires !NoNul(t)
    ensures Seen(t + r) == Seen(t)
  {
    if t[0] != NUL {
      assert !NoNul(t[1..]) && (t + r)[1..] == t[1..] + r;
      SeenStops(t[1..], r);
    }
  }

  lemma {:induction false} SeenAfter(a: string, t: string)
    requires NoNul(a)
    ensures Seen(a + t) == a + Seen(t)
  {
    if a == "" {
      assert a + t == t;
    } else {
      assert NoNul(a[1..]) && (a + t)[1..] == a[1..] + t;
      SeenAfter(a[1..], t);
    }
  }

  lemma SeenTerminated(t: string, r: string)
    ensures Seen(t + [NUL] + r) == Seen(t)
  {
    var u := t + [NUL];
    assert u[|t|] == NUL;
    SeenStops(u, r);
    if NoNul(t) {
      SeenAfter(t, [NUL]);
    } else {
      SeenStops(t, [NUL]);
    }
  }

  /** strlen from an index on. */
  method Strlen(a: array<char>, from: nat) returns (n: nat)
    requires from < a.Length && exists k :: from <= k < a.Length && a[k] == NUL
    ensures from + n < a.Length && a[from + n] == NUL && NoNul(a[from..from + n])
  {
    n := 0;
    while a[from + n] != NUL
      invariant from + n < a.Length && NoNul(a[from..from + n])
      decreases a.Length - n
    {
      n := n + 1;
    }
  }

  /** What a push leaves behind: one more prefix, or, with a NUL in its text, no prefix at all. */
  lemma Recorded(stack: seq<string>, text: string)
    requires Stack(stack) && NoDelimiter(Seen(text)) && NoNul(text)
    ensures Stack(stack + [text]) && Flat(stack + [text]) == Flat(stack) + text + DELIMITER
  {
    hide OccursAt, Seen, Flat;
    FlatPush(stack, text);
    assert Seen(text) == text && Prefix(text);
  }

  lemma Lost(buf: string, stack: seq<string>, text: string)
    requires Stack(stack) && !NoNul(text) && Flat(stack) + text <= buf
    ensures Seen(buf) == Flat(stack) + Seen(text)
  {
    hide OccursAt, Seen, Flat;
    FlatNoNul(stack);
    var rest := buf[|Flat(stack)| + |text|..];
    assert buf == Flat(stack) + (text + rest);
    SeenAfter(Flat(stack), text + rest);
    SeenStops(text, rest);
  }

  /** A push that passed its asserts adds a prefix to what the buffer shows exactly when none of its %c takes a
      zero; otherwise the buffer shows no stack with one more prefix. */
  lemma RecordedExactly(buf: string, stack: seq<string>, fmt: Text, args: seq<Arg>, x: string)
    requires Render(fmt, 0, args).Some? && Stack(stack) && Prefix(x)
    requires var text := Render(fmt, 0, args).value; var all := Flat(stack) + text + DELIMITER;
      NoDelimiter(Seen(text)) && |all| < |buf| && buf[..|all|] == all && buf[|all|] == NUL
    ensures Seen(buf) == Flat(stack + [x]) <==> !TakesNul(fmt, 0, args) && x == Render(fmt, 0, args).value
  {
    hide OccursAt, Seen, Flat, Render, TakesNul, NoNul, Stack;
    NulExactly(fmt, 0, args);
    ShownExactly(buf, stack, Render(fmt, 0, args).value, x);
  }

  lemma ShownExactly(buf: string, stack: seq<string>, text: string, x: string)
    requires Stack(stack) && NoDelimiter(Seen(text)) && Prefix(x)
    requires var all := Flat(stack) + text + DELIMITER; |all| < |buf| && buf[..|all|] == all && buf[|all|] == NUL
    ensures Seen(buf) == Flat(stack + [x]) <==> NoNul(text) && x == text
  {
    hide OccursAt, Seen, Flat;
    var all := Flat(stack) + text + DELIMITER;
    if NoNul(text) {
      Recorded(stack, text);
      FlatNoNul(stack + [text]);
      SeenIs(buf, |all|);
      if Flat(stack + [x]) == all {
        SameStack(stack + [text], stack + [x]);
        assert (stack + [x])[|stack|] == x && (stack + [text])[|stack|] == text;
      }
    } else {
      assert Flat(stack) + text <= buf;
      Lost(buf, stack, text);
      if Flat(stack) + Seen(text) == Flat(stack + [x]) {
        FlatUnique(stack, Seen(text), stack + [x]);
        assert false;
      }
    }
  }

  lemma SameStack(a: seq<string>, b: seq<string>)
    requires Stack(a) && Stack(b) && Flat(a) == Flat(b)
    ensures a == b
  {
    hide Flat;
    assert Flat(a) + "" == Flat(b);
    FlatUnique(a, "", b);
  }

  /** The buffer holds the text of the stack. */
  ghost predicate Holds(buf: string, stack: seq<string>) {
    |Flat(stack)| < |buf| && buf[..|Flat(stack)|] == Flat(stack) && buf[|Flat(stack)|] == NUL
  }

  lemma EmptyText(buf: string, stack: seq<string>)
    requires Stack(stack) && Holds(buf, stack)
    ensures buf[0] == NUL <==> stack == []
    ensures Flat([]) == ""
  {
    FlatNoNul(stack);
    if stack != [] {
      assert buf[0] == Flat(stack)[0];
    }
  }

  lemma FlatStep(stack: seq<string>)
    requires stack != []
    ensures Flat(stack) == stack[0] + DELIMITER + Flat(stack[1..])
  {
  }

  lemma TailStep(stack: seq<string>, i: nat)
    requires i < |stack|
    ensures Flat(stack[i..]) == stack[i] + DELIMITER + Flat(stack[i + 1..])
  {
    hide Flat;
    var tail := stack[i..];
    FlatStep(tail);
    assert tail[1..] == stack[i + 1..];
  }

  lemma HeadStep(stack: seq<string>, i: nat)
    requires i < |stack|
    ensures Flat(stack[..i + 1]) == Flat(stack[..i]) + stack[i] + DELIMITER
  {
    hide Flat;
    var head := stack[..i];
    assert stack[..i + 1] == head + [stack[i]];
    FlatPush(head, stack[i]);
  }

  lemma StackStep(stack: seq<string>, i: nat)
    requires i < |stack|
    ensures Flat(stack) == Flat(stack[..i]) + (stack[i] + DELIMITER + Flat(stack[i + 1..]))
    ensures Flat(stack[..i + 1]) == Flat(stack[..i]) + stack[i] + DELIMITER
  {
    hide Flat;
    FlatSplit(stack, i);
    TailStep(stack, i);
    HeadStep(stack, i);
  }

  /** The buffer from the i-th prefix on, and whether another one follows. */
  lemma NextPrefix(buf: string, stack: seq<string>, i: nat)
    requires Stack(stack) && Holds(buf, stack) && i < |stack|
    ensures var p := |Flat(stack[..i])|; var q := |Flat(stack[..i + 1])|; var rest := Flat(stack[i + 1..]);
      && p < q == p + |stack[i]| + 2 < |buf| && buf[|Flat(stack)|] == NUL && p <= |Flat(stack)|
      && Seen(buf[p..]) == stack[i] + DELIMITER + rest && (buf[q] == NUL <==> i + 1 == |stack|)
  {
    hide Flat, Seen;
    var p, q, rest := |Flat(stack[..i])|, |Flat(stack[..i + 1])|, Flat(stack[i + 1..]);
    var s := stack[i] + DELIMITER + rest;
    StackStep(stack, i);
    FlatNoNul(stack);
    assert buf[p..][..|s|] == s && buf[p..][|s|] == NUL && NoNul(s);
    SeenIs(buf[p..], |s|);
    assert buf[q] == if rest == "" then NUL else rest[0];
    RestText(stack[i + 1..]);
  }

  lemma RestText(stack: seq<string>)
    requires Stack(stack)
    ensures Flat(stack) == "" <==> stack == []
    ensures NoNul(Flat(stack))
  {
    FlatNoNul(stack);
  }

  lemma Remaining(buf: string, stack: seq<string>, i: nat)
    requires Stack(stack) && Holds(buf, stack) && i < |stack|
    ensures |Flat(stack[..i])| < |buf| && buf[..|Flat(stack[..i])|] == Flat(stack[..i]) && Stack(stack[..i])
  {
    hide Flat;
    StackStep(stack, i);
  }

  class Prefixes {
    const prefixes: array<char>
    ghost var stack: seq<string>

    /** The text of the stack, a NUL, and whatever was left behind it. */
    ghost predicate Valid()
      reads this, prefixes
    {
      prefixes.Length == SIZE && Stack(stack) && Holds(prefixes[..], stack)
    }

    constructor ()
      ensures Valid() && stack == [] && fresh(prefixes)
    {
      prefixes := new char[SIZE](_ => NUL);
      stack := [];
    }

    /** strstr from an index on, up to the NUL. */
    method Find(from: nat) returns (r: Option<nat>)
      requires prefixes.Length == SIZE && from < SIZE && exists k :: from <= k < SIZE && prefixes[k] == NUL
      ensures var s := Seen(prefixes[from..]);
        && (r.Some? ==> OccursAt(s, DELIMITER, r.value) && forall j :: 0 <= j < r.value ==> !OccursAt(s, DELIMITER, j))
        && (r.None? ==> NoDelimiter(s))
    {
      var n := Strlen(prefixes, from);
      assert prefixes[from..][..n] == prefixes[from..from + n];
      SeenIs(prefixes[from..], n);
      r := Strstr(prefixes[from..from + n], DELIMITER);
    }

    method TextLength() returns (len: nat)
      requires Valid()
      ensures len == |Flat(stack)| < SIZE
    {
      hide Flat, Seen;
      ghost var n := |Flat(stack)|;
      FlatNoNul(stack);
      SeenIs(prefixes[..], n);
      len := Strlen(prefixes, 0);
      assert prefixes[0..len] == prefixes[..][..len];
      SeenIs(prefixes[..], len);
    }

    /** report_prefix_pushf; not ok when one of its asserts fires. A prefix is recorded exactly when no %c of
        the format takes a zero: otherwise the delimiter goes behind a NUL. */
    method Push(fmt: Text, args: seq<Arg>) returns (ok: bool)
      requires Valid() && Render(fmt, 0, args).Some?
      modifies this, prefixes
      ensures var text := Render(fmt, 0, args).value; var base := old(Flat(stack));
        && ok == (|base| + |text| + 2 < SIZE && NoDelimiter(Seen(text)))
        && (ok && !TakesNul(fmt, 0, args) ==> Valid() && stack == old(stack) + [text])
        && (ok && TakesNul(fmt, 0, args) ==> Seen(prefixes[..]) == base + Seen(text))
    {
      hide Render, Seen, Flat, OccursAt, NoNul, Stored, TakesNul;
      ghost var text := Render(fmt, 0, args).value;
      NulExactly(fmt, 0, args);
      ghost var base := Flat(stack);
      var len := TextLength();
      var start := len;
      var more := Vsnprintf(prefixes, len, SIZE - len, fmt, args);
      len := len + more;
      if len >= SIZE {
        return false;
      }
      assert prefixes[len] == NUL && prefixes[..len] == base + text;
      assert Seen(prefixes[start..]) == Seen(text) by {
        assert prefixes[start..] == text + [NUL] + prefixes[len + 1..];
        SeenTerminated(text, prefixes[len + 1..]);
      }
      var found := Find(start);
      if found.Some? {
        return false;
      }
      PlainText(DELIMITER, 0, []);
      more := Vsnprintf(prefixes, len, SIZE - len, DELIMITER, []);
      len := len + more;
      ok := len < SIZE;
      if ok {
        assert prefixes[..len] == base + text + DELIMITER && prefixes[len] == NUL;
        if NoNul(text) {
          Recorded(stack, text);
        } else {
          assert base + text <= prefixes[..];
          Lost(prefixes[..], stack, text);
        }
        stack := stack + [text];
      }
    }

    /** __report_prefix_pop. */
    method Pop()
      requires Valid()
      modifies this, prefixes
      ensures Valid() && stack == if old(stack) == [] then [] else old(stack)[..|old(stack)| - 1]
    {
      hide Flat, Stack, NoNul, Seen;
      ghost var buf := prefixes[..];
      EmptyText(buf, stack);
      if prefixes[0] == NUL {
        return;
      }
      ghost var i := 0;
      var p := 0;
      assert stack[..0] == [];
      var q := After(p, i);
      while prefixes[q] != NUL
        invariant Valid() && stack == old(stack) && prefixes[..] == buf
        invariant i < |stack| && p == |Flat(stack[..i])| && q == |Flat(stack[..i + 1])| < SIZE
        invariant buf[q] == NUL <==> i + 1 == |stack|
        decreases |stack| - i
      {
        p := q;
        i := i + 1;
        q := After(p, i);
      }
      NextPrefix(buf, stack, i);
      assert buf[..p] == Flat(stack[..i]) && Stack(stack[..i]) by { Remaining(buf, stack, i); }
      prefixes[p] := NUL;
      assert prefixes[..p] == buf[..p];
      stack := stack[..i];
    }

    /** The place behind the delimiter that ends the i-th prefix. */
    method After(p: nat, ghost i: nat) returns (q: nat)
      requires Valid() && i < |stack| && p == |Flat(stack[..i])|
      ensures q == |Flat(stack[..i + 1])| < SIZE && (prefixes[q] == NUL <==> i + 1 == |stack|)
    {
      hide Flat, NoNul, Seen, OccursAt;
      NextPrefix(prefixes[..], stack, i);
      assert prefixes[..][p..] == prefixes[p..];
      var r := Find(p);
      FirstDelimiter(stack[i], Flat(stack[i + 1..]), if r.Some? then r.value else 0);
      q := p + r.value + 2;
    }

    /** report_prefix_popn. */
    method PopN(n: nat)
      requires Valid()
      modifies this, prefixes
      ensures Valid() && stack == old(stack)[..if n < |old(stack)| then |old(stack)| - n else 0]
    {
      var k := n;
      while k != 0
        invariant 0 <= k <= n && Valid()
        invariant stack == old(stack)[..if n - k < |old(stack)| then |old(stack)| - (n - k) else 0]
        decreases k
      {
        k := k - 1;
        Pop();
      }
    }
  }

  /** report_prefix_push formats with "%s": the text pushed is the prefix itself, and it is always recorded. */
  lemma PushedText(p: Text)
    ensures Render("%s", 0, [Str(p)]) == Some(p) && !TakesNul("%s", 0, [Str(p)])
  {
    assert "%s" == ['%', 's'];
    assert Padded(p, PLAIN) == p;
    OneConversion('s', Str(p), p);
    NulExactly("%s", 0, [Str(p)]);
  }

  /** "%c" with a zero is such a format; the push passes its asserts and leaves no trace. */
  lemma NulPrefix()
    ensures Render("%c", 0, [Int(0)]) == Some([NUL]) && TakesNul("%c", 0, [Int(0)]) && Seen([NUL]) == ""
  {
    assert [NUL][0] == NUL;
    assert "%c" == ['%', 'c'];
    OneConversion('c', Int(0), [NUL]);
    NulExactly("%c", 0, [Int(0)]);
  }
}
