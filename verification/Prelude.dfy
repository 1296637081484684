/** Small datatypes and sequence facts shared by the whole project. */
module Prelude {

  datatype Option<+T> = None | Some(value: T)

  /** No element occurs twice. */
  ghost predicate Distinct<T>(s: seq<T>) {
    forall i, j :: 0 <= i < j < |s| ==> s[i] != s[j]
  }

  /** `s` without the first occurrence of `x`. */
  function Without<T(==)>(s: seq<T>, x: T): (r: seq<T>)
    ensures |r| <= |s|
  {
    if s == [] then []
    else if s[0] == x then s[1..]
    else [s[0]] + Without(s[1..], x)
  }

  lemma {:induction false} WithoutAbsent<T>(s: seq<T>, x: T)
    requires x !in s
    ensures Without(s, x) == s
  {
    if s != [] {
      WithoutAbsent(s[1..], x);
    }
  }

  lemma {:induction false} WithoutAt<T>(s: seq<T>, k: nat)
    requires Distinct(s) && k < |s|
    ensures Without(s, s[k]) == s[..k] + s[k + 1..]
  {
    if k > 0 {
      WithoutAt(s[1..], k - 1);
      assert s[..k] + s[k + 1..] == [s[0]] + (s[1..][..k - 1] + s[1..][k..]);
    }
  }

  /** Removing an element of a sequence without repetitions removes it altogether
      and leaves the order of the others alone. */
  lemma WithoutFacts<T>(s: seq<T>, x: T)
    requires Distinct(s)
    ensures Distinct(Without(s, x))
    ensures forall y <- Without(s, x) :: y in s && y != x
    ensures forall y <- s :: y != x ==> y in Without(s, x)
  {
    if x in s {
      var k :| 0 <= k < |s| && s[k] == x;
      WithoutAt(s, k);
      assert s == s[..k] + [x] + s[k + 1..];
      forall y | y in s && y != x ensures y in Without(s, x) {
        assert y in s[..k] || y in s[k + 1..];
      }
    } else {
      WithoutAbsent(s, x);
    }
  }

  function Elems<T(==)>(s: seq<T>): set<T> { set x | x in s }

  lemma WithoutElems<T>(s: seq<T>, x: T)
    requires Distinct(s)
    ensures Elems(Without(s, x)) == Elems(s) - {x}
  {
    WithoutFacts(s, x);
  }

  lemma ToFrontElems<T>(s: seq<T>, x: T)
    requires Distinct(s) && x in s
    ensures Elems([x] + Without(s, x)) == Elems(s)
  {
    WithoutElems(s, x);
    assert Elems([x] + Without(s, x)) == {x} + Elems(Without(s, x));
  }

  /** C's conversion of a double to an int: truncation toward zero. */
  function Trunc(r: real): (n: int)
    ensures r >= 0.0 ==> n as real <= r < n as real + 1.0
    ensures r <= 0.0 ==> n as real - 1.0 < r <= n as real
  {
    if r >= 0.0 then r.Floor else -((-r).Floor)
  }
}
