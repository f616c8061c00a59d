/** The scalar field of the proof system: integers modulo an arbitrary prime `P`.
    Nothing is known about `P` except that it is prime, so everything proved here
    holds for every prime field. */
module Field {

  predicate IsPrime(p: int) {
    p >= 2 && forall d | 2 <= d < p :: p % d != 0
  }

  type Prime = p: int | IsPrime(p) witness 2

  /** The field's modulus. It has no defining value: it stands for any prime. */
  const P: Prime

  type F = x: int | 0 <= x < P

  function Red(x: int): F { x % P }

  function Add(a: F, b: F): F { (a + b) % P }

  function Sub(a: F, b: F): F { (a - b) % P }

  function Mul(a: F, b: F): F { (a * b) % P }

  // ---------------------------------------------------------------- congruences

  predicate Cong(a: int, b: int) { a % P == b % P }

  lemma CongOfMultiple(a: int, b: int, k: int)
    requires a == b + k * P
    ensures Cong(a, b)
  {
    var q, r := b / P, b % P;
    assert b == q * P + r;
    assert a == (q + k) * P + r;
    DivisionUnique(a, q + k, r);
  }

  lemma MultipleBounds(k: int, m: int)
    requires m > 0
    ensures k >= 1 ==> k * m >= m
    ensures k <= -1 ==> k * m <= -m
    ensures k == 0 ==> k * m == 0
  {}

  lemma DivisionUnique(x: int, q: int, r: int)
    requires 0 <= r < P && x == q * P + r
    ensures x / P == q && x % P == r
  {
    var q', r' := x / P, x % P;
    assert x == q' * P + r';
    assert (q - q') * P == r' - r;
    MultipleBounds(q - q', P);
  }

  lemma MultipleOfCong(a: int, b: int) returns (k: int)
    requires Cong(a, b)
    ensures a == b + k * P
  {
    k := a / P - b / P;
    assert a == (a / P) * P + a % P;
    assert b == (b / P) * P + b % P;
    assert a - b == (a / P) * P - (b / P) * P == k * P;
  }

  lemma CongRed(a: int)
    ensures Cong(Red(a), a)
  {
    assert a == a / P * P + a % P;
    CongOfMultiple(a, a % P, a / P);
  }

  lemma CongAdd(a: int, a': int, b: int, b': int)
    requires Cong(a, a') && Cong(b, b')
    ensures Cong(a + b, a' + b') && Cong(a - b, a' - b')
  {
    var j := MultipleOfCong(a, a');
    var k := MultipleOfCong(b, b');
    assert j * P + k * P == (j + k) * P;
    assert j * P - k * P == (j - k) * P;
    CongOfMultiple(a + b, a' + b', j + k);
    CongOfMultiple(a - b, a' - b', j - k);
  }

  lemma CongMul(a: int, a': int, b: int, b': int)
    requires Cong(a, a') && Cong(b, b')
    ensures Cong(a * b, a' * b')
  {
    var j := MultipleOfCong(a, a');
    var k := MultipleOfCong(b, b');
    ExpandProduct(a', j, b', k, P);
    CongOfMultiple(a * b, a' * b', a' * k + j * b' + j * k * P);
  }

  lemma ExpandProduct(a: int, j: int, b: int, k: int, p: int)
    ensures (a + j * p) * (b + k * p) == a * b + (a * k + j * b + j * k * p) * p
  {
    var x, y := j * p, k * p;
    assert (a + x) * (b + y) == a * b + a * y + x * b + x * y;
    assert a * y == (a * k) * p;
    assert x * b == (j * b) * p;
    assert x * y == (j * k * p) * p;
    assert (a * k) * p + (j * b) * p + (j * k * p) * p == (a * k + j * b + j * k * p) * p;
  }

  lemma CongIsEqual(a: F, b: F)
    requires Cong(a, b)
    ensures a == b
  {
    DivisionUnique(a, 0, a);
    DivisionUnique(b, 0, b);
  }

  // Field operations computed on representatives.

  lemma LiftAdd(a: F, x: int, b: F, y: int)
    requires Cong(a, x) && Cong(b, y)
    ensures Cong(Add(a, b), x + y)
  {
    CongAdd(a, x, b, y);
    CongRed(a + b);
  }

  lemma LiftSub(a: F, x: int, b: F, y: int)
    requires Cong(a, x) && Cong(b, y)
    ensures Cong(Sub(a, b), x - y)
  {
    CongAdd(a, x, b, y);
    CongRed(a - b);
  }

  lemma LiftMul(a: F, x: int, b: F, y: int)
    requires Cong(a, x) && Cong(b, y)
    ensures Cong(Mul(a, b), x * y)
  {
    CongMul(a, x, b, y);
    CongRed(a * b);
  }

  // ------------------------------------------------------------------ ring laws

  lemma MulComm(a: F, b: F)
    ensures Mul(a, b) == Mul(b, a)
  {}

  lemma MulAssoc(a: F, b: F, c: F)
    ensures Mul(Mul(a, b), c) == Mul(a, Mul(b, c))
  {
    CongRed(a * b);
    CongMul(Mul(a, b), a * b, c, c);
    CongRed(b * c);
    CongMul(a, a, Mul(b, c), b * c);
    assert (a * b) * c == a * (b * c);
  }

  /** Products can be regrouped so that any factor comes last. */
  lemma MulSwap(a: F, b: F, c: F)
    ensures Mul(Mul(a, b), c) == Mul(Mul(a, c), b)
  {
    MulAssoc(a, b, c);
    MulAssoc(a, c, b);
    MulComm(b, c);
  }

  lemma MulOne(a: F)
    ensures Mul(a, 1) == a && Mul(1, a) == a
  {
    DivisionUnique(a, 0, a);
  }

  lemma SubZero(a: F, b: F)
    ensures Sub(a, b) == 0 <==> a == b
  {
    if Sub(a, b) == 0 {
      var q := (a - b) / P;
      assert a - b == q * P;
      MultipleBounds(q, P);
    } else if a == b {
      DivisionUnique(0, 0, 0);
    }
  }

  // ------------------------------------------------- inverses and zero divisors

  /** Bezout coefficients together with the common divisor they reach. */
  lemma Bezout(a: nat, b: nat) returns (x: int, y: int, g: nat, ka: int, kb: int)
    requires a > 0 || b > 0
    ensures g > 0 && a * x + b * y == g && a == ka * g && b == kb * g
    decreases b
  {
    if b == 0 {
      x, y, g, ka, kb := 1, 0, a, 1, 0;
    } else {
      var q, r := a / b, a % b;
      assert a == q * b + r;
      var x', y', g', kb', kr := Bezout(b, r);
      x, y, g, ka, kb := y', x' - q * y', g', q * kb' + kr, kb';
      calc {
        a * x + b * y;
        (q * b + r) * y' + b * (x' - q * y');
        b * x' + r * y';
      }
      calc {
        a;
        q * (kb' * g) + kr * g;
        (q * kb' + kr) * g;
      }
    }
  }

  lemma InverseExists(a: F)
    requires a != 0
    ensures exists x: F :: Mul(a, x) == 1
  {
    var x, y, g, ka, kp := Bezout(a, P);
    MultipleBounds(ka, g);
    ExactMultiple(P, kp, g);
    assert g == 1;
    assert a * x == 1 + (-y) * P by { assert P * y == -((-y) * P); }
    CongOfMultiple(a * x, 1, -y);
    CongRed(x);
    CongMul(a, a, Red(x), x);
    DivisionUnique(1, 0, 1);
    assert Mul(a, Red(x)) == 1;
  }

  lemma ExactMultiple(n: nat, k: int, g: nat)
    requires g > 0 && n == k * g
    ensures n % g == 0
  {
    var q, r := n / g, n % g;
    assert n == q * g + r;
    assert (k - q) * g == r;
    MultipleBounds(k - q, g);
  }

  /** The multiplicative inverse of a non-zero element. */
  ghost function Inv(a: F): (r: F)
    requires a != 0
    ensures Mul(a, r) == 1
  {
    InverseExists(a);
    var x: F :| Mul(a, x) == 1;
    x
  }

  /** The field has no zero divisors. */
  lemma NoZeroDivisors(a: F, b: F)
    requires Mul(a, b) == 0
    ensures a == 0 || b == 0
  {
    if a != 0 {
      var x := Inv(a);
      MulComm(a, x);
      MulAssoc(x, a, b);
      MulOne(b);
      assert Mul(x, 0) == 0 by { DivisionUnique(0, 0, 0); }
    }
  }
}
