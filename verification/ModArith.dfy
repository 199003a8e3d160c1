/** Congruences modulo a positive integer, and powers. */
module ModArith {
  import opened Limbs

  ghost predicate Cong(m: int, a: int, b: int)
    requires 0 < m
  {
    a % m == b % m
  }

  lemma CongIntro(m: int, a: int, b: int, k: int)
    requires 0 < m && a - b == m * k
    ensures Cong(m, a, b)
  {
    var q, r := b / m, b % m;
    assert b == m * q + r;
    assert m * (q + k) == m * q + m * k;
    RemainderUnique(a, m, q + k, r);
  }

  lemma CongElim(m: int, a: int, b: int) returns (k: int)
    requires 0 < m && Cong(m, a, b)
    ensures a - b == m * k
  {
    k := a / m - b / m;
    assert a == m * (a / m) + a % m && b == m * (b / m) + b % m;
  }

  lemma CongMod(m: int, a: int)
    requires 0 < m
    ensures Cong(m, a % m, a) && 0 <= a % m < m
  {
    RemainderUnique(a % m, m, 0, a % m);
  }

  /** Congruent numbers in canonical range are equal. */
  lemma CongEqual(m: int, a: int, b: int)
    requires 0 < m && Cong(m, a, b) && 0 <= a < m && 0 <= b < m
    ensures a == b
  {
    RemainderUnique(a, m, 0, a);
    RemainderUnique(b, m, 0, b);
  }

  lemma CongAdd(m: int, a: int, a': int, b: int, b': int)
    requires 0 < m && Cong(m, a, a') && Cong(m, b, b')
    ensures Cong(m, a + b, a' + b')
    ensures Cong(m, a - b, a' - b')
  {
    var j := CongElim(m, a, a');
    var k := CongElim(m, b, b');
    assert m * j + m * k == m * (j + k);
    assert m * j - m * k == m * (j - k);
    CongIntro(m, a + b, a' + b', j + k);
    CongIntro(m, a - b, a' - b', j - k);
  }

  lemma CongAxpy(m: int, s: int, t: int, x: int, w: int, v: int)
    requires 0 < m && Cong(m, s, t) && Cong(m, x, w)
    ensures Cong(m, s + x * v, t + w * v)
  {
    CongMul(m, x, w, v, v);
    CongAdd(m, s, t, x * v, w * v);
  }

  lemma CongMul(m: int, a: int, a': int, b: int, b': int)
    requires 0 < m && Cong(m, a, a') && Cong(m, b, b')
    ensures Cong(m, a * b, a' * b')
  {
    var j := CongElim(m, a, a');
    var k := CongElim(m, b, b');
    MulDifference(m, a, a', b, b', j, k);
    CongIntro(m, a * b, a' * b', j * b + a' * k);
  }

  lemma MulDifference(m: int, a: int, a': int, b: int, b': int, j: int, k: int)
    requires a - a' == m * j && b - b' == m * k
    ensures a * b - a' * b' == m * (j * b + a' * k)
  {
    assert a * b - a' * b == (m * j) * b by { Expand2(a, a', b); }
    assert a' * b - a' * b' == a' * (m * k);
    assert a' * (m * k) == m * (a' * k);
    assert (m * j) * b == m * (j * b);
  }

  /** A factor with an inverse can be cancelled. */
  lemma CongCancel(m: int, a: int, b: int, c: int, inv: int)
    requires 0 < m && Cong(m, a * c, b * c) && Cong(m, c * inv, 1)
    ensures Cong(m, a, b)
  {
    CongMul(m, a * c, b * c, inv, inv);
    MulAssoc(a, c, inv);
    MulAssoc(b, c, inv);
    CongMul(m, a, a, c * inv, 1);
    CongMul(m, b, b, c * inv, 1);
  }

  lemma Interchange(a: int, b: int, x: int, y: int)
    ensures (a * b) * (x * y) == (a * x) * (b * y)
  {
  }

  lemma {:induction false} PowPow(a: int, j: nat, k: nat)
    ensures Pow(a, j * k) == Pow(Pow(a, j), k)
  {
    if k > 0 {
      PowPow(a, j, k - 1);
      assert j * k == j + j * (k - 1);
      PowAdd(a, j, j * (k - 1));
    } else {
      assert j * k == 0;
    }
  }

  /** Fermat's property of a modulus, which holds exactly of the primes. */
  ghost predicate Fermat(m: int)
    requires 1 < m
  {
    forall a {:trigger Cong(m, a, 0)} :: !Cong(m, a, 0) ==> Cong(m, Pow(a, m - 1), 1)
  }

  lemma PowLast(x: int, e: nat)
    requires 1 <= e
    ensures Pow(x, e) == Pow(x, e - 1) * x
  {
  }

  /** The (m - 2)-nd power inverts every unit and sends 0 to 0. */
  lemma FermatInverse(m: int, a: int)
    requires 2 < m && Fermat(m)
    ensures var inv := Pow(a % m, m - 2) % m;
      if Cong(m, a, 0) then inv == 0 else Cong(m, inv * a, 1)
  {
    var x := a % m;
    var p := Pow(x, m - 2);
    CongMod(m, a);
    CongMod(m, p);
    if Cong(m, a, 0) {
      PowLast(x, m - 2);
      CongMul(m, Pow(x, m - 3), Pow(x, m - 3), x, 0);
      CongEqual(m, p % m, 0);
    } else {
      PowLast(x, m - 1);
      assert !Cong(m, x, 0);
      CongMul(m, p % m, p, a, x);
    }
  }
}
