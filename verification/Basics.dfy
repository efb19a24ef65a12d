/** What several of the other modules need: bytes and where they stand, sequences without doubles, division. */
module Basics {

  type byte = b: int | 0 <= b < 256

  ghost predicate Distinct<T>(s: seq<T>) {
    forall i, j | 0 <= i < j < |s| :: s[i] != s[j]
  }

  /** The sequence less its element at `i`. */
  function Erase<T>(s: seq<T>, i: nat): (r: seq<T>)
    requires i < |s|
    ensures |r| == |s| - 1
    ensures forall y | y in r :: y in s
    ensures forall j | 0 <= j < |r| :: r[j] == s[if j < i then j else j + 1]
  {
    s[..i] + s[i + 1..]
  }

  /** The sequence less the first occurrence of `x`, if there is one. */
  function Without<T(==)>(s: seq<T>, x: T): seq<T> {
    if s == [] then [] else if s[0] == x then s[1..] else [s[0]] + Without(s[1..], x)
  }

  /** The bytes `x` stand at offset `i`. */
  ghost predicate At(s: seq<byte>, i: nat, x: seq<byte>) {
    i + |x| <= |s| && forall k | 0 <= k < |x| :: s[i + k] == x[k]
  }

  lemma {:induction false} AtSplit(s: seq<byte>, i: nat, x: seq<byte>, y: seq<byte>)
    requires At(s, i, x + y)
    ensures At(s, i, x) && At(s, i + |x|, y)
  {
    forall k | 0 <= k < |x| ensures s[i + k] == x[k] {
      assert x[k] == (x + y)[k];
    }
    forall k | 0 <= k < |y| ensures s[i + |x| + k] == y[k] {
      assert y[k] == (x + y)[|x| + k];
    }
  }

  lemma {:induction false} AtLeastOnce(k: int, d: int)
    requires d >= 0
    ensures k >= 1 ==> k * d >= d
    ensures k <= -1 ==> k * d <= -d
  {
    if k >= 1 {
      assert k * d == d + (k - 1) * d;
    } else if k <= -1 {
      assert k * d == -d + (k + 1) * d;
    }
  }

  /** Quotient and remainder are the only numbers of their kind. */
  lemma {:induction false} Divides(n: int, d: int, q: int, r: int)
    requires n == q * d + r && 0 <= r < d
    ensures n / d == q && n % d == r
  {
    var k := q - n / d;
    assert k * d == n % d - r;
    AtLeastOnce(k, d);
  }
}
