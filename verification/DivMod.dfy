/** Facts about quotients and remainders that are not linear. */
module DivMod {

  lemma RemainderStep(n: nat, p: nat)
    requires n > 0 && p >= 1
    ensures n % p == if (n - 1) % p + 1 == p then 0 else (n - 1) % p + 1
  {
    var q := (n - 1) / p;
    var r := (n - 1) % p;
    assert n - 1 == p * q + r;
    if r + 1 == p {
      assert n == p * (q + 1);
      MultipleHasNoRemainder(q + 1, p);
    } else {
      RemainderIs(n, p, q, r + 1);
    }
  }

  lemma MultipleHasNoRemainder(q: int, p: int)
    requires p > 0
    ensures (p * q) % p == 0
  {
    RemainderIs(p * q, p, q, 0);
  }

  lemma RemainderIs(n: int, p: int, q: int, r: int)
    requires 0 <= r < p && n == p * q + r
    ensures n % p == r
  {
    var d := q - n / p;
    assert p * d == n % p - r by {
      assert n == p * (n / p) + n % p;
      assert p * d == p * q - p * (n / p);
    }
    assert p * d == -(p * -d);
    if d >= 1 {
      TimesRises(p, 1, d);
    } else if d <= -1 {
      TimesRises(p, 1, -d);
    }
  }

  lemma DivideRises(a: int, b: int, d: int)
    requires a <= b && d > 0
    ensures a / d <= b / d
  {
    var q, r := a / d, b / d;
    assert a == d * q + a % d && b == d * r + b % d;
    assert d * (r - q) == d * r - d * q;
    if r - q <= -1 {
      TimesRises(d, r - q, -1);
    }
  }

  lemma DivideTimes(a: int, d: int)
    requires d > 0
    ensures a * d / d == a
  {
    var q := a * d / d;
    assert a * d == d * q + a * d % d;
    assert d * (a - q) == a * d - d * q;
    if a - q >= 1 {
      TimesRises(d, 1, a - q);
    } else if a - q <= -1 {
      TimesRises(d, a - q, -1);
    }
  }

  lemma TimesRises(a: nat, x: int, y: int)
    requires x <= y
    ensures a * x <= a * y
  {
  }
}
