/**
 Unsigned machine words as natural numbers that wrap around. `Wrap` subtracts the
 modulus until the number fits; WrapIsMod says that this is the remainder.
 */
module Words {
  const MOD32: nat := 0x1_0000_0000
  const MOD64: nat := 0x1_0000_0000_0000_0000

  function Wrap(n: nat, m: nat): (r: nat)
    requires m > 0
    decreases n
  {
    if n < m then n else Wrap(n - m, m)
  }

  lemma WrapIsMod(n: nat, m: nat)
    requires m > 0
    ensures Wrap(n, m) == n % m
  {
    var q := WrapDivides(n, m);
    Quotient(n, m, q, Wrap(n, m));
  }

  lemma {:induction false} WrapDivides(n: nat, m: nat) returns (q: nat)
    requires m > 0
    ensures n == m * q + Wrap(n, m) && Wrap(n, m) < m
    decreases n
  {
    if n < m {
      q := 0;
    } else {
      var p := WrapDivides(n - m, m);
      q := p + 1;
      assert m * q == m * p + m;
    }
  }

  lemma Quotient(n: int, m: int, q: int, r: int)
    requires m > 0 && 0 <= r < m && n == m * q + r
    ensures n / m == q && n % m == r
  {
    var d := q - n / m;
    assert m * d == n % m - r by { assert m * q == m * d + m * (n / m); }
    if d >= 1 { AtLeastOnce(m, d); }
    if d <= -1 { AtLeastOnce(m, -d); }
  }

  lemma AtLeastOnce(m: int, d: int)
    requires m > 0 && d >= 1
    ensures m * d >= m && m * -d <= -m
  {
    assert m * d == m * (d - 1) + m;
  }

  lemma {:induction false} WrapAdd(a: nat, b: nat, m: nat)
    requires m > 0
    ensures Wrap(Wrap(a, m) + b, m) == Wrap(a + b, m)
    decreases a
  {
    if a >= m { WrapAdd(a - m, b, m); }
  }

  function Wrap32(n: nat): nat { Wrap(n, MOD32) }

  function Wrap64(n: nat): nat { Wrap(n, MOD64) }

  function Add32(a: nat, b: nat): nat { Wrap32(a + b) }

  function Add64(a: nat, b: nat): nat { Wrap64(a + b) }

  lemma Add32Wrapped(a: nat, b: nat)
    ensures Add32(Wrap32(a), b) == Add32(Wrap32(a), Wrap32(b)) == Wrap32(a + b)
  {
    WrapAdd(a, b, MOD32);
    WrapAdd(b, Wrap32(a), MOD32);
  }

  lemma Add64Wrapped(a: nat, b: nat)
    ensures Add64(Wrap64(a), b) == Add64(Wrap64(a), Wrap64(b)) == Wrap64(a + b)
  {
    WrapAdd(a, b, MOD64);
    WrapAdd(b, Wrap64(a), MOD64);
  }
}
