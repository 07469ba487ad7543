/**
 The real arithmetic behind the admission test of kernel/core/scheduler.c: the rate-monotonic
 bound n * (2^(1/n) - 1) in a form without roots, and the inequality that carries it from `n` tasks
 to `n + 1`.
 */
module RateMonotonic {
  function Pow(x: real, n: nat): real {
    if n == 0 then 1.0 else x * Pow(x, n - 1)
  }

  function Sum(us: seq<real>): real {
    if |us| == 0 then 0.0 else Sum(us[..|us| - 1]) + us[|us| - 1]
  }

  /** The hyperbolic product over the utilizations. */
  function Product(us: seq<real>): real {
    if |us| == 0 then 1.0 else Product(us[..|us| - 1]) * (1.0 + us[|us| - 1])
  }

  /** `load` plus nothing else stays within the bound for `n` tasks. */
  predicate WithinBound(load: real, n: nat)
    requires n > 0
  {
    Pow(1.0 + load / (n as real), n) <= 2.0
  }

  ghost predicate NonNegative(us: seq<real>) {
    forall i | 0 <= i < |us| :: us[i] >= 0.0
  }

  // ---------- powers ----------

  lemma MulMono(a: real, b: real, c: real)
    requires a <= b && 0.0 <= c
    ensures a * c <= b * c && c * a <= c * b
  {
  }

  lemma MulStrict(a: real, b: real, c: real)
    requires a < b && 0.0 < c
    ensures c * a < c * b
  {
  }

  lemma {:induction false} PowNonNegative(x: real, n: nat)
    requires x >= 0.0
    ensures Pow(x, n) >= 0.0
  {
    if n > 0 { PowNonNegative(x, n - 1); }
  }

  lemma {:induction false} PowMono(x: real, y: real, n: nat)
    requires 0.0 <= x <= y
    ensures Pow(x, n) <= Pow(y, n)
  {
    if n > 0 {
      PowMono(x, y, n - 1);
      PowNonNegative(x, n - 1);
      MulMono(x, y, Pow(x, n - 1));
      MulMono(Pow(x, n - 1), Pow(y, n - 1), y);
    }
  }

  lemma {:induction false} PowStrict(x: real, y: real, n: nat)
    requires 0.0 <= x < y && n > 0
    ensures Pow(x, n) < Pow(y, n)
  {
    var p, q := Pow(x, n - 1), Pow(y, n - 1);
    assert Pow(x, n) == x * p && Pow(y, n) == y * q;
    if n == 1 {
      assert p == 1.0 && q == 1.0;
    } else {
      hide Pow;
      PowStrict(x, y, n - 1);
      PowNonNegative(x, n - 1);
      MulMono(x, y, p);
      MulStrict(p, q, y);
    }
  }

  /**
   The test as the source writes it, with `root` for powf(2, 1/n), and the test without roots
   are the same test.
   */
  lemma RootFreeBound(load: real, n: nat, root: real)
    requires load >= 0.0 && n > 0 && root > 0.0 && Pow(root, n) == 2.0
    ensures load <= (n as real) * (root - 1.0) <==> WithinBound(load, n)
  {
    var x := 1.0 + load / (n as real);
    assert load <= (n as real) * (root - 1.0) <==> x <= root by {
      assert load == (n as real) * (x - 1.0);
      if x <= root {
        MulMono(x - 1.0, root - 1.0, n as real);
      } else {
        assert (n as real) * (x - root) > 0.0;
      }
    }
    if x <= root { PowMono(x, root, n); } else { PowStrict(root, x, n); }
  }

  // ---------- the Bernoulli step ----------

  lemma PowStep(x: real, n: nat)
    ensures Pow(x, n + 1) == x * Pow(x, n)
  {
  }

  lemma NonNegativeSquare(d: real)
    ensures d * d >= 0.0
  {
  }

  lemma BernoulliStep(a: real, d: real, p: real, q: real, r: real)
    requires a + d >= 0.0 && p >= 0.0 && q >= 0.0
    requires r >= a * p + q * p * d
    ensures (a + d) * r >= a * (a * p) + (q + 1.0) * (a * p) * d
  {
    MulMono(a * p + q * p * d, r, a + d);
    calc {
      (a + d) * (a * p + q * p * d);
      a * (a * p) + (q + 1.0) * (a * p) * d + (q * p) * (d * d);
    }
    MulMono(0.0, q, p);
    NonNegativeSquare(d);
    MulMono(0.0, d * d, q * p);
  }

  /** Bernoulli's inequality between powers of `a` and `a + d`, free of division. */
  lemma {:induction false} Bernoulli(a: real, d: real, k: nat)
    requires a >= 0.0 && a + d >= 0.0
    ensures Pow(a + d, k + 1) >= Pow(a, k + 1) + ((k + 1) as real) * Pow(a, k) * d
  {
    PowStep(a + d, k);
    PowStep(a, k);
    if k == 0 {
      assert Pow(a + d, 0) == 1.0 && Pow(a, 0) == 1.0;
    } else {
      hide Pow;
      Bernoulli(a, d, k - 1);
      PowNonNegative(a, k - 1);
      PowStep(a, k - 1);
      assert (k + 1) as real == (k as real) + 1.0;
      BernoulliStep(a, d, Pow(a, k - 1), k as real, Pow(a + d, k));
    }
  }

  /**
   One more task of utilization `u` next to `m` tasks of average utilization `s / m`: the product
   of all factors is at most that of `m + 1` equal ones.
   */
  lemma SpreadStep(s: real, u: real, m: nat)
    requires m > 0 && s >= 0.0 && u >= 0.0
    ensures Pow(1.0 + s / (m as real), m) * (1.0 + u) <= Pow(1.0 + (s + u) / ((m + 1) as real), m + 1)
  {
    var a := 1.0 + s / (m as real);
    var b := 1.0 + (s + u) / ((m + 1) as real);
    var n := (m + 1) as real;
    var d := b - a;
    assert n * d == 1.0 + u - a by {
      assert (m as real) * (s / (m as real)) == s;
      assert n * ((s + u) / n) == s + u;
      assert n * (b - a) == n * b - n * a;
      assert n * a == (m as real) * a + a;
    }
    Bernoulli(a, d, m);
    var p := Pow(a, m);
    assert Pow(a, m + 1) == a * p;
    assert n * p * d == p * (n * d);
    assert a * p + p * (1.0 + u - a) == p * (1.0 + u);
  }

  // ---------- consequences ----------

  lemma {:induction false} SumNonNegative(us: seq<real>)
    requires NonNegative(us)
    ensures Sum(us) >= 0.0
  {
    if |us| > 0 { SumNonNegative(us[..|us| - 1]); }
  }

  /** Arithmetic against geometric mean: spreading the load evenly maximises the product. */
  lemma {:induction false} ProductAtMostSpread(us: seq<real>)
    requires |us| > 0 && NonNegative(us)
    ensures Product(us) <= Pow(1.0 + Sum(us) / (|us| as real), |us|)
  {
    var m := |us| - 1;
    var rest, u := us[..m], us[m];
    assert Sum(us) == Sum(rest) + u && Product(us) == Product(rest) * (1.0 + u);
    if m == 0 {
      assert Product(rest) == 1.0 && Sum(rest) == 0.0;
      assert Pow(1.0 + u, 1) == (1.0 + u) * Pow(1.0 + u, 0);
    } else {
      hide Pow;
      ProductAtMostSpread(rest);
      SumNonNegative(rest);
      MulMono(Product(rest), Pow(1.0 + Sum(rest) / (m as real), m), 1.0 + u);
      SpreadStep(Sum(rest), u, m);
    }
  }

  /** The root-free left-hand side grows with the number of tasks, so the bound itself falls. */
  lemma {:induction false} SpreadGrows(load: real, m: nat, n: nat)
    requires 0 < m <= n && load >= 0.0
    ensures Pow(1.0 + load / (m as real), m) <= Pow(1.0 + load / (n as real), n)
    decreases n - m
  {
    if m < n {
      SpreadStep(load, 0.0, m);
      SpreadGrows(load, m + 1, n);
    }
  }

  lemma BoundMonotone(load: real, more: real, m: nat, n: nat)
    requires 0 < m <= n && 0.0 <= load <= more
    requires WithinBound(more, n)
    ensures WithinBound(load, m)
  {
    SpreadGrows(load, m, n);
    assert load / (n as real) <= more / (n as real);
    PowMono(1.0 + load / (n as real), 1.0 + more / (n as real), n);
  }

  /** Tasks within the bound satisfy the hyperbolic condition. */
  lemma BoundImpliesHyperbolic(us: seq<real>, load: real)
    requires |us| > 0 && NonNegative(us)
    requires Sum(us) <= load && WithinBound(load, |us|)
    ensures Product(us) <= 2.0
  {
    ProductAtMostSpread(us);
    SumNonNegative(us);
    BoundMonotone(Sum(us), load, |us|, |us|);
  }
}
