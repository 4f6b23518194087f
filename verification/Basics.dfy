/** Notions that several modules share. */
module Basics {
  datatype Option<+T> = None | Some(value: T)

  /** No value occurs twice. */
  ghost predicate Distinct<T>(s: seq<T>) {
    forall i, j :: 0 <= i < j < |s| ==> s[i] != s[j]
  }

  /** The numbers below n. */
  ghost function UpTo(n: nat): (s: set<nat>)
    ensures forall c :: c in s <==> 0 <= c < n
  {
    if n == 0 then {} else UpTo(n - 1) + {n - 1}
  }
}
