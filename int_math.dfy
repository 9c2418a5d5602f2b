/** Exact integer arithmetic the filter needs in place of the host's double-precision sqrt. */
module IntMath {

  /** Floor of the square root of n: the largest r with r * r <= n. */
  function ISqrt(n: nat): (r: nat)
    ensures r * r <= n < (r + 1) * (r + 1)
  {
    if n == 0 then 0
    else
      var s := ISqrt(n / 4);
      DoubleRoot(n, s);
      var t := 2 * s;
      assert t * t <= n < (t + 2) * (t + 2);
      if (t + 1) * (t + 1) <= n then
        assert (t + 1 + 1) * (t + 1 + 1) == (t + 2) * (t + 2);
        t + 1
      else t
  }

  /** If s is the floor root of n / 4, then 2 * s is within one of the floor root of n. */
  lemma DoubleRoot(n: nat, s: nat)
    requires s * s <= n / 4 < (s + 1) * (s + 1)
    ensures (2 * s) * (2 * s) <= n < (2 * s + 2) * (2 * s + 2)
  {
    var q := n / 4;
    assert 4 * q <= n < 4 * q + 4;
    assert (2 * s) * (2 * s) == 4 * (s * s);
    assert (2 * s + 2) * (2 * s + 2) == 4 * ((s + 1) * (s + 1));
    assert (s + 1) * (s + 1) >= q + 1;
  }

  lemma SquareMonotone(a: nat, b: nat)
    requires a <= b
    ensures a * a <= b * b
  {
    assert a * a <= a * b;
    assert a * b <= b * b;
  }

  /** The floor square root is the only r with r * r <= n < (r + 1) * (r + 1). */
  lemma ISqrtUnique(n: nat, r: nat)
    requires r * r <= n < (r + 1) * (r + 1)
    ensures ISqrt(n) == r
  {
    var s := ISqrt(n);
    if s < r {
      SquareMonotone(s + 1, r);
    } else if r < s {
      SquareMonotone(r + 1, s);
    }
  }
}
