/** The `min` helper shared by the builder and the tree (Utils.java). */
module Utils {

  /** The smaller of two values; on a tie the second one, as `compareTo(...) < 0 ? value1 : value2`. */
  function Min(value1: int, value2: int): (r: int)
    ensures r <= value1 && r <= value2
    ensures r == value1 || r == value2
  {
    if value1 < value2 then value1 else value2
  }

  lemma MinIdempotent(x: int)
    ensures Min(x, x) == x
  {
  }

  lemma MinCommutative(x: int, y: int)
    ensures Min(x, y) == Min(y, x)
  {
  }

  lemma MinAssociative(x: int, y: int, z: int)
    ensures Min(Min(x, y), z) == Min(x, Min(y, z))
  {
  }

  /** The least element of a non-empty sequence. */
  function MinOf(s: seq<int>): (m: int)
    requires |s| > 0
    ensures exists i :: 0 <= i < |s| && m == s[i]
    ensures forall i :: 0 <= i < |s| ==> m <= s[i]
    decreases |s|
  {
    if |s| == 1 then s[0]
    else
      var rest := MinOf(s[1..]);
      assert forall i :: 1 <= i < |s| ==> s[1..][i - 1] == s[i];
      Min(s[0], rest)
  }

  /** A value of `s` that is at most every element is the least element. */
  lemma MinOfUnique(s: seq<int>, m: int)
    requires exists i :: 0 <= i < |s| && m == s[i]
    requires forall i :: 0 <= i < |s| ==> m <= s[i]
    ensures m == MinOf(s)
  {
  }
}
