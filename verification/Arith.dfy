/** Divisibility and powers of two. */
module Arith {
  lemma Farther(a: int, b: int, n: nat)
    requires a < b
    ensures a * n + n <= b * n
  {
    var d := b - a - 1;
    assert d * n >= 0;
    assert b * n == a * n + n + d * n;
  }

  /** A quotient and a remainder in range are the ones. */
  lemma Remainder(x: int, n: nat, q: int, r: int)
    requires n > 0 && x == q * n + r && 0 <= r < n
    ensures x % n == r
  {
    var q' := x / n;
    if q < q' { Farther(q, q', n); } else if q' < q { Farther(q', q, n); }
  }

  lemma ModOf(q: nat, r: nat, n: nat)
    requires n > 0
    ensures (q * n + r) % n == r % n
  {
    var p := r / n;
    assert (q + p) * n == q * n + p * n;
    Remainder(q * n + r, n, q + p, r % n);
  }

  lemma ModInjective(h: nat, j: nat, k: nat, n: nat)
    requires j < n && k < n && (h + j) % n == (h + k) % n
    ensures j == k
  {
    var a, b := (h + j) / n, (h + k) / n;
    assert k - j == b * n - a * n;
    if a < b { Farther(a, b, n); } else if b < a { Farther(b, a, n); }
  }

  lemma Divides(x: nat, a: nat, b: nat)
    requires a > 0 && b > 0 && x % a == 0 && a % b == 0
    ensures x % b == 0
  {
    var q, p := x / a, a / b;
    assert x == q * a && a == p * b;
    assert x == (q * p) * b + 0;
    ModOf(q * p, 0, b);
  }

  predicate PowerOfTwo(n: nat) { n == 1 || (n > 1 && n % 2 == 0 && PowerOfTwo(n / 2)) }

  lemma {:induction false} PowersDivide(a: nat, b: nat)
    requires PowerOfTwo(a) && PowerOfTwo(b) && a <= b
    ensures b % a == 0
  {
    if a > 1 {
      PowersDivide(a / 2, b / 2);
      var q := (b / 2) / (a / 2);
      assert b / 2 == q * (a / 2);
      assert b == q * a + 0 by {
        assert b == 2 * (b / 2) && a == 2 * (a / 2);
        assert 2 * (q * (a / 2)) == q * (2 * (a / 2));
      }
      ModOf(q, 0, a);
    }
  }

  /** bit_ceil(): the least power of two that is not below val. */
  function BitCeil(val: nat): (p: nat)
    ensures PowerOfTwo(p) && val <= p && (p == 1 || p < 2 * val)
  {
    BitCeilFrom(1, val)
  }

  function BitCeilFrom(p: nat, val: nat): (r: nat)
    requires PowerOfTwo(p)
    ensures PowerOfTwo(r) && val <= r && (r == p || p < r < 2 * val)
    decreases val - p
  {
    if val <= p then p else BitCeilFrom(2 * p, val)
  }

  /** align_to(), for a power of two or zero. */
  function AlignTo(val: nat, align: nat): (r: nat)
    ensures align == 0 ==> r == val
    ensures align > 0 ==> r % align == 0 && val <= r < val + align
  {
    if align == 0 then val else
      ModOf((val + align - 1) / align, 0, align);
      (val + align - 1) / align * align
  }

  /** No smaller multiple will do. */
  lemma LeastMultiple(val: nat, align: nat, x: nat)
    requires align > 0 && x % align == 0 && val <= x
    ensures AlignTo(val, align) <= x
  {
    Quotient(x, align);
    Quotient(AlignTo(val, align), align);
    NoneBetween(x / align, AlignTo(val, align) / align, align, val);
  }

  lemma Quotient(x: nat, n: nat)
    requires n > 0 && x % n == 0
    ensures x == x / n * n
  {
  }

  lemma NoneBetween(p: nat, q: nat, n: nat, val: int)
    requires val <= p * n && q * n < val + n
    ensures q * n <= p * n
  {
    if p < q { Farther(p, q, n); } else if q < p { Farther(q, p, n); }
  }
}
