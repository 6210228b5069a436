// Values of `Math.random()`, supplied from outside, and the
// `Math.floor(Math.random() * n)` idiom built on them.

module RandomDraws {
  /** `Math.random()` returns a double in [0, 1); a draw u stands for the
      value u / 2^53. */
  predicate IsDraw(u: nat) {
    u < 0x20_0000_0000_0000
  }

  /** `Math.floor(Math.random() * n)`. */
  function Pick(u: nat, n: nat): (r: nat)
    requires IsDraw(u) && n > 0
    ensures r < n
  {
    PickBound(u, n);
    u * n / 0x20_0000_0000_0000
  }

  lemma PickBound(u: nat, n: nat)
    requires u < 0x20_0000_0000_0000 && n > 0
    ensures u * n / 0x20_0000_0000_0000 < n
  {
    var s := 0x20_0000_0000_0000;
    assert u * n <= (s - 1) * n by {
      MulMono(u, s - 1, n);
    }
    assert (s - 1) * n == s * n - n;
    DivBelow(u * n, s, n);
  }

  lemma MulMono(a: nat, b: nat, n: nat)
    requires a <= b
    ensures a * n <= b * n
  {
  }

  lemma DivBelow(x: nat, s: nat, n: nat)
    requires s > 0 && n > 0 && x < s * n
    ensures x / s < n
  {
  }
}
