/**
 * The integer arithmetic of `stagpy/commands.py`: `min`/`max`, floor division `//`
 * and `math.ceil` of a quotient of naturals.
 */
module Arith {

  function Min(a: int, b: int): int { if a <= b then a else b }

  function Max(a: int, b: int): int { if a >= b then a else b }

  /** Python's `a // b`: the quotient rounded towards negative infinity. */
  function FloorDiv(a: int, b: int): (q: int)
    requires b != 0
    ensures b > 0 ==> q * b <= a < q * b + b
    ensures b < 0 ==> q * b + b < a <= q * b
  {
    if b > 0 then a / b else (-a) / (-b)
  }

  /** `FloorDiv` is zero exactly when `a` lies between zero and `b` (zero included, `b` excluded). */
  lemma FloorDivIsZero(a: int, b: int)
    requires b != 0
    ensures FloorDiv(a, b) == 0 <==> (b > 0 && 0 <= a < b) || (b < 0 && b < a <= 0)
  {
    var q := FloorDiv(a, b);
    if b > 0 {
      if q >= 1 { MulMono(1, q, b); } else if q <= -1 { MulMono(q + 1, 0, b); }
    } else {
      if q >= 1 { MulMono(1, q, -b); } else if q <= -1 { MulMono(q + 1, 0, -b); }
    }
  }

  /** Multiplying by a non-negative factor keeps the order. */
  lemma MulMono(a: int, b: int, c: int)
    requires a <= b && 0 <= c
    ensures a * c <= b * c
  {
  }

  /**
   * `math.ceil(n / d)` for a natural `n` and a positive `d`, computed exactly.
   * Its bounds are stated apart, in `CeilDivBounds`, so that the multiplications
   * in them are only in scope where a proof needs them.
   */
  function CeilDiv(n: nat, d: int): (q: nat)
    requires d >= 1
    ensures q <= n
  {
    CeilDivBounds(n, d);
    (n + d - 1) / d
  }

  /** The ceiling is the least `q` with `n <= q * d`. */
  lemma CeilDivIsCeiling(n: nat, d: int)
    requires d >= 1
    ensures n <= CeilDiv(n, d) * d && (CeilDiv(n, d) - 1) * d < n
  {
    CeilDivBounds(n, d);
  }

  lemma CeilDivBounds(n: nat, d: int)
    requires d >= 1
    ensures var q := (n + d - 1) / d; n <= q * d && (q - 1) * d < n && 0 <= q <= n
  {
    var q := (n + d - 1) / d;
    var r := (n + d - 1) % d;
    assert q * d + r == n + d - 1 && 0 <= r < d;
    assert (q - 1) * d == q * d - d;
    MulMono(1, d, n);
    assert (n + 1) * d == n * d + d;
    if q > n {
      MulMono(n + 1, q, d);
      assert false;
    }
  }
}
