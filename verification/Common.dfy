/** Types and small facts shared by the component models. */
module Common {

  type Byte = bv8

  datatype Option<+T> = None | Some(value: T)

  datatype Result<+T, +E> = Ok(value: T) | Err(error: E) {
    predicate IsFailure() { Err? }
    function PropagateFailure<U>(): Result<U, E> requires Err? { Err(error) }
    function Extract(): T requires Ok? { value }
  }

  function Min(a: int, b: int): (r: int)
    ensures r <= a && r <= b && (r == a || r == b)
  {
    if a < b then a else b
  }

  function Max(a: int, b: int): (r: int)
    ensures r >= a && r >= b && (r == a || r == b)
  {
    if a > b then a else b
  }

  lemma MulMonotone(n: int, a: int, b: int)
    requires 0 <= n && a <= b
    ensures n * a <= n * b
  {
    assert 0 <= n * (b - a);
  }

  lemma MulSmall(n: int, d: int)
    requires 0 < n
    requires -n < n * d < n
    ensures d == 0
  {
    if d >= 1 { MulMonotone(n, 1, d); }
    if d <= -1 { MulMonotone(n, d, -1); }
  }

  /** The quotient and remainder of a division are the only pair that fits it. */
  lemma DivModUnique(a: int, n: int, q: int, r: int)
    requires 0 < n
    requires a == n * q + r
    requires 0 <= r < n
    ensures a / n == q && a % n == r
  {
    var d := a / n - q;
    assert n * (a / n) + a % n == a;
    assert -n < n * d < n;
    MulSmall(n, d);
  }

  /** Advancing a wrapped position wraps the advanced position. */
  lemma ModStep(k: nat, n: nat)
    requires 0 < n
    ensures (k % n + 1) % n == (k + 1) % n
    ensures k % n + 1 < n ==> (k + 1) % n == k % n + 1
    ensures k % n + 1 == n ==> (k + 1) % n == 0
  {
    var q, r := k / n, k % n;
    assert k == n * q + r;
    if r + 1 < n {
      DivModUnique(k + 1, n, q, r + 1);
      DivModUnique(r + 1, n, 0, r + 1);
    } else {
      assert k + 1 == n * (q + 1) + 0;
      DivModUnique(k + 1, n, q + 1, 0);
      DivModUnique(r + 1, n, 1, 0);
    }
  }

  /** The distance between two wrapped positions less than one lap apart. */
  lemma ModDistance(a: nat, b: nat, n: nat)
    requires 0 < n
    requires a <= b < a + n
    ensures (b % n - a % n + n) % n == b - a
    ensures a < b ==> a % n != b % n
  {
    var qa, ra := a / n, a % n;
    var d := b - a;
    assert a == n * qa + ra;
    if ra + d < n {
      DivModUnique(b, n, qa, ra + d);
      DivModUnique(d + n, n, 1, d);
    } else {
      assert b == n * (qa + 1) + (ra + d - n);
      DivModUnique(b, n, qa + 1, ra + d - n);
      DivModUnique(d, n, 0, d);
    }
  }
}
