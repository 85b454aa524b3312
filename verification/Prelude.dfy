/** What several modules use. */
module Prelude {
  datatype Option<+T> = None | Some(value: T)

  function Min(a: nat, b: nat): nat { if a < b then a else b }

  function Max(a: nat, b: nat): nat { if a < b then b else a }

  function Pow2(n: nat): nat { if n == 0 then 1 else 2 * Pow2(n - 1) }

  lemma {:induction false} NatProduct(a: nat, b: nat)
    ensures a * b >= 0
  {
  }

  ghost predicate Distinct(s: seq<nat>) {
    forall i, j :: 0 <= i < j < |s| ==> s[i] != s[j]
  }

  ghost function Elems<T>(s: seq<T>): set<T> { set x | x in s }

  lemma {:induction false} ElemsPush<T>(s: seq<T>, x: T)
    ensures Elems(s + [x]) == Elems(s) + {x}
  {
  }

  /** Where x occurs last, or -1. */
  ghost function LastAt(s: seq<nat>, x: nat): (i: int)
    ensures -1 <= i < |s| && (i >= 0 ==> s[i] == x) && (x in s ==> i >= 0)
  {
    if s == [] then -1 else if s[|s| - 1] == x then |s| - 1 else LastAt(s[..|s| - 1], x)
  }

  lemma {:induction false} LastAtPush(s: seq<nat>, y: nat, x: nat)
    ensures LastAt(s + [y], x) == if x == y then |s| else LastAt(s, x)
  {
    assert (s + [y])[..|s|] == s;
  }

  /** 0, 1, ..., n - 1 */
  ghost function Iota(n: nat): (s: seq<nat>)
    ensures |s| == n && forall i :: 0 <= i < n ==> s[i] == i
  {
    seq(n, i => i)
  }

  lemma {:induction false} IotaHas(n: nat)
    ensures forall i: nat :: i < n ==> i in Iota(n)
  {
    forall i: nat | i < n ensures i in Iota(n) {
      assert Iota(n)[i] == i;
    }
  }

  lemma {:induction false} DistinctCount(s: seq<nat>)
    requires Distinct(s)
    ensures |Elems(s)| == |s|
  {
    if s != [] {
      var t := s[..|s| - 1];
      DistinctCount(t);
      assert s == t + [s[|s| - 1]];
      assert Elems(s) == Elems(t) + {s[|s| - 1]};
    }
  }
}
