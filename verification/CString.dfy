/** String functions of lib/string.c on strings without their terminating NUL. */
module CString {
  import opened Basics
  import opened Bits

  // ----- C strings -----

  const NUL: char := 0 as char

  predicate NoNul(s: string) {
    forall k :: 0 <= k < |s| ==> s[k] != NUL
  }

  /** What a char pointer can name: the characters before a NUL. */
  type Text = s: string | NoNul(s)

  // ----- memcmp and strstr -----

  /** memcmp: zero exactly on equal bytes, otherwise the difference at the first place they differ. */
  method Memcmp(a: string, b: string, n: nat) returns (r: int)
    requires n <= |a| && n <= |b|
    ensures r == 0 <==> a[..n] == b[..n]
    ensures r != 0 ==> exists i :: 0 <= i < n && a[..i] == b[..i] && a[i] != b[i] && r == a[i] as int - b[i] as int
  {
    r := 0;
    var i := 0;
    while i < n
      invariant 0 <= i <= n && r == 0 && a[..i] == b[..i]
    {
      r := a[i] as int - b[i] as int;
      if r != 0 {
        assert a[..n][i] != b[..n][i];
        break;
      }
      assert a[..i + 1] == a[..i] + [a[i]] && b[..i + 1] == b[..i] + [b[i]];
      i := i + 1;
    }
  }

  ghost predicate OccursAt(s: string, t: string, k: int) {
    0 <= k <= |s| - |t| && s[k..k + |t|] == t
  }

  /** strstr: the first occurrence of s2 in s1. */
  method Strstr(s1: string, s2: string) returns (r: Option<nat>)
    ensures r.Some? ==> OccursAt(s1, s2, r.value) && forall j :: 0 <= j < r.value ==> !OccursAt(s1, s2, j)
    ensures r.None? ==> forall j :: !OccursAt(s1, s2, j)
  {
    var l2 := |s2|;
    if l2 == 0 {
      return Some(0);
    }
    var l1, k := |s1|, 0;
    while l1 >= l2
      invariant 0 <= k <= |s1| && l1 == |s1| - k
      invariant forall j :: 0 <= j < k ==> !OccursAt(s1, s2, j)
    {
      l1 := l1 - 1;
      var c := Memcmp(s1[k..], s2, l2);
      assert s1[k..][..l2] == s1[k..k + l2] && s2[..l2] == s2;
      if c == 0 {
        return Some(k);
      }
      k := k + 1;
    }
    return None;
  }

  // ----- Numbers: what a text means -----

  predicate IsSpace(c: char) {
    c == ' ' || c == '\t' || c == '\r' || c == '\n' || c as int == 11 || c as int == 12
  }

  /** The digit value of c in the given base, as __strtoll recognises it. */
  function DigitOf(c: char, base: nat): (d: Option<nat>)
    requires 2 <= base <= 36
    ensures d.Some? ==> d.value < base
  {
    if '0' <= c <= '9' && (c as int) < 48 + base then Some(c as int - 48)
    else if 'a' <= c && (c as int) < 97 + base - 10 then Some(c as int - 97 + 10)
    else if 'A' <= c && (c as int) < 65 + base - 10 then Some(c as int - 65 + 10)
    else None
  }

  function SkipSpace(s: string, i: nat): (j: nat)
    requires i <= |s|
    ensures i <= j <= |s| && (j < |s| ==> !IsSpace(s[j])) && forall k :: i <= k < j ==> IsSpace(s[k])
    decreases |s| - i
  {
    if i < |s| && IsSpace(s[i]) then SkipSpace(s, i + 1) else i
  }

  predicate At(s: string, i: nat, c: char) {
    i < |s| && s[i] == c
  }

  /** The base that the digits are in, and where they start, after a 0x or 0 prefix. */
  function BasePrefix(s: string, i: nat, base: nat): (r: (nat, nat))
    requires i <= |s| && (base == 0 || 2 <= base <= 36)
    ensures 2 <= r.0 <= 36 && i <= r.1 <= |s|
  {
    if base != 0 && base != 16 then (base, i)
    else if At(s, i, '0') then
      if At(s, i + 1, 'x') || At(s, i + 1, 'X') then (16, i + 2)
      else (if base == 0 then 8 else 16, i + 1)
    else (if base == 0 then 10 else 16, i)
  }

  function DigitsEnd(s: string, i: nat, base: nat): (j: nat)
    requires i <= |s| && 2 <= base <= 36
    ensures i <= j <= |s|
    ensures forall k :: i <= k < j ==> DigitOf(s[k], base).Some?
    ensures j < |s| ==> DigitOf(s[j], base).None?
    decreases |s| - i
  {
    if i < |s| && DigitOf(s[i], base).Some? then DigitsEnd(s, i + 1, base) else i
  }

  /** The number written by a string of digits. */
  function Value(s: string, base: nat): (v: nat)
    requires 2 <= base <= 36 && forall k :: 0 <= k < |s| ==> DigitOf(s[k], base).Some?
  {
    if s == [] then 0
    else
      MulLeft(Value(s[..|s| - 1], base), 1, base);
      Value(s[..|s| - 1], base) * base + DigitOf(s[|s| - 1], base).value
  }

  /** More digits never make the number smaller. */
  lemma {:induction false} ValueGrows(s: string, n: nat, base: nat)
    requires 2 <= base <= 36 && n <= |s| && forall k :: 0 <= k < |s| ==> DigitOf(s[k], base).Some?
    ensures Value(s[..n], base) <= Value(s, base)
    decreases |s|
  {
    if n == |s| {
      assert s[..n] == s;
    } else {
      var t := s[..|s| - 1];
      assert t[..n] == s[..n];
      ValueGrows(t, n, base);
      MulLeft(Value(t, base), 1, base);
    }
  }

  /** strtol and strtoll are signed, strtoul and strtoull unsigned; long has 64 bits. */
  function Limit(isSigned: bool): (m: nat) {
    if isSigned then 0x7fff_ffff_ffff_ffff else WORD - 1
  }

  datatype Parsed = Parsed(value: nat, end: nat)

  /** What __strtoll means: optional space, sign and prefix, then the longest run of digits. None exactly
      when the digits write a number beyond the limit. */
  function Parse(s: string, base: nat, isSigned: bool): (r: Option<Parsed>)
    requires base == 0 || 2 <= base <= 36
  {
    var i := SkipSpace(s, 0);
    var neg := At(s, i, '-');
    var j := if neg || At(s, i, '+') then i + 1 else i;
    var (b, k) := BasePrefix(s, j, base);
    var e := DigitsEnd(s, k, b);
    var v := Value(s[k..e], b);
    if v > Limit(isSigned) then None else Some(Parsed(if neg then (WORD - v) % WORD else v, e))
  }

  /** __strtoll; None when one of its overflow asserts fires. */
  method Strtoll(s: string, base0: nat, isSigned: bool) returns (r: Option<Parsed>)
    requires base0 == 0 || 2 <= base0 <= 36
    ensures r == Parse(s, base0, isSigned)
  {
    hide Value, DigitOf, DigitsEnd;
    var i := 0;
    while i < |s| && IsSpace(s[i])
      invariant 0 <= i <= |s| && SkipSpace(s, i) == SkipSpace(s, 0)
    {
      i := i + 1;
    }
    var neg := false;
    if At(s, i, '-') {
      neg := true;
      i := i + 1;
    } else if At(s, i, '+') {
      i := i + 1;
    }
    var base := base0;
    ghost var (b, k) := BasePrefix(s, i, base0);
    if base == 0 || base == 16 {
      if At(s, i, '0') {
        i := i + 1;
        if At(s, i, 'x') || At(s, i, 'X') {
          i := i + 1;
          base := 16;
        } else if base == 0 {
          base := 8;
        }
      } else if base == 0 {
        base := 10;
      }
    }
    assert base == b && i == k;
    var ull, fits;
    fits, ull, i := ReadDigits(s, i, base, Limit(isSigned));
    if !fits {
      return None;
    }
    if neg {
      ull := (WORD - ull) % WORD;
    }
    return Some(Parsed(ull, i));
  }

  /** The digit loop: multiply and add, asserting after each step that nothing overflowed. */
  method ReadDigits(s: string, k: nat, base: nat, limit: nat) returns (fits: bool, v: nat, end: nat)
    requires k <= |s| && 2 <= base <= 36
    ensures var e := DigitsEnd(s, k, base); var w := Value(s[k..e], base);
      fits == (w <= limit) && (fits ==> v == w && end == e)
  {
    v, end := 0, k;
    ghost var e := DigitsEnd(s, k, base);
    assert s[k..k] == [];
    while end < |s| && DigitOf(s[end], base).Some?
      invariant k <= end <= e && DigitsEnd(s, end, base) == e
      invariant v == Value(s[k..end], base) && v <= limit
      decreases |s| - end
    {
      var c := DigitOf(s[end], base).value;
      assert s[k..end + 1][..end - k] == s[k..end] && s[k..end + 1][end - k] == s[end];
      if v * base > limit || v * base + c > limit {
        assert s[k..e][..end + 1 - k] == s[k..end + 1];
        ValueGrows(s[k..e], end + 1 - k, base);
        return false, v, end;
      }
      v := v * base + c;
      end := end + 1;
    }
    return true, v, end;
  }
}
