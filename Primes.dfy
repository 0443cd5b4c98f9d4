/** The prime sieve, trial-division factorisation and least common multiple of aoc_lib/aoc.h. */
module Primes {
  import opened Common

  ghost predicate IsPrime(n: nat) {
    n >= 2 && forall d :: 2 <= d < n ==> n % d != 0
  }

  function Pow(b: nat, e: nat): (r: nat)
    ensures b >= 1 ==> r >= 1
  {
    if e == 0 then 1 else b * Pow(b, e - 1)
  }

  // ---------------------------------------------------------------------------
  // Divisibility facts used by the proofs below.

  lemma DivTransitive(k: nat, r: nat, e: nat)
    requires r >= 1 && e >= 1 && k % r == 0 && r % e == 0
    ensures k % e == 0
  {
    var a := k / r;
    var b := r / e;
    assert k == r * a;
    assert r == e * b;
    assert k == e * (b * a);
    MulMod(e, b * a);
  }

  lemma MulMono(a: nat, b: nat, c: nat)
    requires b <= c
    ensures a * b <= a * c
  {
    if b < c {
      MulAtLeast(a, c - b);
      assert a * c == a * b + a * (c - b);
    }
  }

  /** The least divisor of k that is at least d, when none in [2, d) divides k. */
  ghost function LeastDivisorFrom(k: nat, d: nat): (q: nat)
    requires 2 <= d <= k
    requires forall e :: 2 <= e < d ==> k % e != 0
    ensures d <= q <= k && k % q == 0
    ensures forall e :: 2 <= e < q ==> k % e != 0
    decreases k - d
  {
    if k % d == 0 then d
    else
      SelfDivides(k);
      LeastDivisorFrom(k, d + 1)
  }

  lemma SelfDivides(k: nat)
    requires k >= 1
    ensures k % k == 0
  {
    MulMod(k, 1);
  }

  lemma LeastDivisorIsPrime(k: nat) returns (q: nat)
    requires k >= 2
    ensures 2 <= q <= k && k % q == 0 && IsPrime(q)
    ensures !IsPrime(k) ==> q < k && q * q <= k
  {
    q := LeastDivisorFrom(k, 2);
    forall e | 2 <= e < q
      ensures q % e != 0
    {
      if q % e == 0 { DivTransitive(k, q, e); }
    }
    if !IsPrime(k) {
      var e :| 2 <= e < k && k % e == 0;
      assert q <= e;
      var r := k / q;
      DivExact(k, q);
      assert k == q * r;
      assert r != 1 && r != 0;
      assert k % r == 0 by {
        assert k == r * q;
        MulMod(r, q);
      }
      assert q <= r;
      assert q * q <= q * r by { MulMono(q, q, r); }
    }
  }

  // ---------------------------------------------------------------------------
  // PrimeSieve

  /** k has been struck out of the sieve once every number below m has been
      considered: some prime q < m divides k and q * q <= k. */
  ghost predicate Struck(k: nat, m: nat)
    decreases m
  {
    m > 2 && (Struck(k, m - 1) || (IsPrime(m - 1) && k % (m - 1) == 0 && (m - 1) * (m - 1) <= k))
  }

  lemma {:induction false} StruckIsComposite(k: nat, m: nat)
    requires Struck(k, m)
    ensures !IsPrime(k)
    decreases m
  {
    if Struck(k, m - 1) {
      StruckIsComposite(k, m - 1);
    } else {
      var q := m - 1;
      assert 2 <= q;
      assert q < q * q <= k;
    }
  }

  lemma {:induction false} StruckGrows(k: nat, m: nat, n: nat)
    requires m <= n && Struck(k, m)
    ensures Struck(k, n)
    decreases n - m
  {
    if m < n { StruckGrows(k, m, n - 1); }
  }

  lemma CompositeIsStruck(k: nat, m: nat)
    requires 2 <= k <= m && !IsPrime(k)
    ensures Struck(k, m)
  {
    var q := LeastDivisorIsPrime(k);
    assert Struck(k, q + 1);
    StruckGrows(k, q + 1, m);
  }

  /** k lies strictly between two consecutive multiples of step. */
  lemma BetweenMultiples(step: nat, c: nat, k: int)
    requires step >= 1 && step * c < k < step * c + step
    ensures k % step != 0
  {
    DivModUnique(k, step, c, k - step * c);
  }

  /** The inner loop of PrimeSieve: every multiple of step from step * step on is
      marked, and nothing else changes. */
  method StrikeMultiples(sieve: array<bool>, step: nat)
    requires step >= 2
    modifies sieve
    ensures forall k :: 0 <= k < sieve.Length ==>
      (sieve[k] <==> old(sieve[k]) || (step * step <= k && k % step == 0))
  {
    var j := step * step;
    ghost var c := step;
    while j < sieve.Length
      invariant j == step * c && c >= step
      invariant forall k :: 0 <= k < sieve.Length ==>
        (sieve[k] <==> old(sieve[k]) || (step * step <= k < j && k % step == 0))
    {
      MulMod(step, c);
      sieve[j] := true;
      forall k | j < k < j + step
        ensures k % step != 0
      {
        BetweenMultiples(step, c, k);
      }
      j := j + step;
      c := c + 1;
    }
  }

  /** PrimeSieve: exactly the primes below limit, in ascending order. */
  method PrimeSieve(limit: nat) returns (primes: seq<nat>)
    ensures forall t :: 0 <= t < |primes| - 1 ==> primes[t] < primes[t + 1]
    ensures forall p: nat :: p in primes <==> p < limit && IsPrime(p)
    ensures limit < 2 ==> primes == []
  {
    if limit < 2 {
      return [];
    }
    var sieve := new bool[limit](_ => false);
    sieve[0] := true;
    sieve[1] := true;
    primes := [];
    var loop := 0;
    while loop < limit
      invariant 0 <= loop <= limit
      invariant forall k :: 0 <= k < limit ==> (sieve[k] <==> k < 2 || Struck(k, loop))
      invariant forall p: nat :: p in primes <==> p < loop && IsPrime(p)
      invariant forall t :: 0 <= t < |primes| ==> primes[t] < loop
      invariant forall t :: 0 <= t < |primes| - 1 ==> primes[t] < primes[t + 1]
    {
      if !sieve[loop] {
        assert IsPrime(loop) by {
          if !IsPrime(loop) { CompositeIsStruck(loop, loop); }
        }
        primes := primes + [loop];
        StrikeMultiples(sieve, loop);
        assert forall k :: 0 <= k < limit ==> (sieve[k] <==> k < 2 || Struck(k, loop + 1));
      } else {
        assert !IsPrime(loop) by {
          if loop >= 2 { StruckIsComposite(loop, loop); }
        }
      }
      loop := loop + 1;
    }
  }

  // ---------------------------------------------------------------------------
  // Products over a map of prime powers.

  /** The product of p^e over the entries (p, e) of m, in no particular order. */
  ghost function MapProduct(m: map<nat, nat>): nat
    decreases |m|
  {
    if |m| == 0 then 1
    else
      var p :| p in m;
      Pow(p, m[p]) * MapProduct(m - {p})
  }

  /** Any entry may be taken out first. */
  lemma {:induction false} MapProductPick(m: map<nat, nat>, p: nat)
    requires p in m
    ensures MapProduct(m) == Pow(p, m[p]) * MapProduct(m - {p})
    decreases |m|
  {
    var q :| q in m && MapProduct(m) == Pow(q, m[q]) * MapProduct(m - {q});
    if q != p {
      var mq := m - {q};
      var mp := m - {p};
      assert |mq| == |m| - 1 && |mp| == |m| - 1;
      MapProductPick(mq, p);
      MapProductPick(mp, q);
      assert mq - {p} == mp - {q};
      SwapFactors(MapProduct(m), Pow(q, m[q]), Pow(p, m[p]), MapProduct(mq - {p}),
                  MapProduct(mq), MapProduct(mp));
    }
  }

  lemma SwapFactors(x: int, a: int, b: int, r: int, y: int, z: int)
    requires x == a * y && y == b * r && z == a * r
    ensures x == b * z
  {
    MulAssoc(a, b, r);
    MulAssoc(b, a, r);
  }

  function Get(m: map<nat, nat>, p: nat): nat {
    if p in m then m[p] else 0
  }

  lemma MulAssoc(a: int, b: int, c: int)
    ensures (a * b) * c == a * (b * c)
  {
  }

  lemma MulSwap4(a: int, b: int, c: int, d: int)
    ensures (a * b) * (c * d) == (a * c) * (d * b)
  {
  }

  lemma ScaleProduct(x: int, y: int, a': int, a: int, b: int, p: int)
    requires x == a' * b && y == a * b && a' == p * a
    ensures x == p * y
  {
    MulAssoc(p, a, b);
  }

  /** Raising the exponent of p by one multiplies the product by p. */
  lemma MapProductBump(m: map<nat, nat>, p: nat)
    ensures MapProduct(m[p := Get(m, p) + 1]) == p * MapProduct(m)
  {
    if p in m {
      MapProductBumpOld(m, p);
    } else {
      MapProductBumpNew(m, p);
    }
  }

  lemma MapProductBumpOld(m: map<nat, nat>, p: nat)
    requires p in m
    ensures MapProduct(m[p := m[p] + 1]) == p * MapProduct(m)
  {
    var m' := m[p := m[p] + 1];
    var rest := m - {p};
    assert m' - {p} == rest;
    MapProductPick(m', p);
    MapProductPick(m, p);
    var e := m[p];
    assert Pow(p, e + 1) == p * Pow(p, e);
    ScaleProduct(MapProduct(m'), MapProduct(m), Pow(p, e + 1), Pow(p, e), MapProduct(rest), p);
  }

  lemma MapProductBumpNew(m: map<nat, nat>, p: nat)
    requires p !in m
    ensures MapProduct(m[p := 1]) == p * MapProduct(m)
  {
    var m' := m[p := 1];
    MapProductPick(m', p);
    assert m' - {p} == m;
    assert Pow(p, 1) == p;
  }

  lemma PowDivides(p: nat, a: nat, b: nat) returns (k: nat)
    requires a <= b
    ensures Pow(p, b) == Pow(p, a) * k
    decreases b
  {
    if a == b {
      k := 1;
    } else {
      var k' := PowDivides(p, a, b - 1);
      k := p * k';
    }
  }

  lemma CombineShared(x: int, a2: int, r2: int, y: int, a1: int, r1: int, k1: int, k2: int)
    requires x == a2 * r2 && y == a1 * r1 && a2 == a1 * k2 && r2 == r1 * k1
    ensures x == y * (k1 * k2)
  {
    MulSwap4(a1, k2, r1, k1);
  }

  lemma CombineExtra(x: int, a: int, r: int, y: int, k1: int)
    requires x == a * r && r == y * k1
    ensures x == y * (a * k1)
  {
    MulAssoc(y, k1, a);
  }

  /** A map of exponents bounded pointwise by another gives a divisor of its product. */
  lemma {:induction false} MapProductDivides(m1: map<nat, nat>, m2: map<nat, nat>) returns (k: nat)
    requires forall p :: p in m1 ==> p in m2 && m1[p] <= m2[p]
    ensures MapProduct(m2) == MapProduct(m1) * k
    decreases |m2|, 1
  {
    if |m2| == 0 {
      assert m1 == map[];
      k := 1;
    } else {
      var p :| p in m2;
      if p in m1 {
        k := MapProductDividesShared(m1, m2, p);
      } else {
        k := MapProductDividesExtra(m1, m2, p);
      }
    }
  }

  /** Step of MapProductDivides for a prime present in both maps. */
  lemma {:induction false} MapProductDividesShared(m1: map<nat, nat>, m2: map<nat, nat>, p: nat) returns (k: nat)
    requires forall q :: q in m1 ==> q in m2 && m1[q] <= m2[q]
    requires p in m1
    ensures MapProduct(m2) == MapProduct(m1) * k
    decreases |m2|, 0
  {
    MapProductPick(m2, p);
    MapProductPick(m1, p);
    var rest := m2 - {p};
    assert |rest| == |m2| - 1;
    var k1 := MapProductDivides(m1 - {p}, rest);
    var k2 := PowDivides(p, m1[p], m2[p]);
    MulNonnegative(k1, k2);
    k := k1 * k2;
    CombineShared(MapProduct(m2), Pow(p, m2[p]), MapProduct(rest), MapProduct(m1),
                  Pow(p, m1[p]), MapProduct(m1 - {p}), k1, k2);
  }

  /** Step of MapProductDivides for a prime present only in the larger map. */
  lemma {:induction false} MapProductDividesExtra(m1: map<nat, nat>, m2: map<nat, nat>, p: nat) returns (k: nat)
    requires forall q :: q in m1 ==> q in m2 && m1[q] <= m2[q]
    requires p in m2 && p !in m1
    ensures MapProduct(m2) == MapProduct(m1) * k
    decreases |m2|, 0
  {
    MapProductPick(m2, p);
    var rest := m2 - {p};
    assert |rest| == |m2| - 1;
    var k1 := MapProductDivides(m1, rest);
    MulNonnegative(Pow(p, m2[p]), k1);
    k := Pow(p, m2[p]) * k1;
    CombineExtra(MapProduct(m2), Pow(p, m2[p]), MapProduct(rest), MapProduct(m1), k1);
  }

  // ---------------------------------------------------------------------------
  // Factorize

  /** The cofactor of a factor of at least 2 is a smaller divisor. */
  lemma CofactorDivides(k: int, p: nat, c: nat)
    requires k == p * c && p >= 2 && c >= 1
    ensures k % c == 0 && c < k
  {
    MulMod(c, p);
    MulAtLeast(c, p - 1);
    assert k == c * (p - 1) + c;
  }

  /** Dividing rem by prime while bumping prime's exponent keeps rem * product fixed. */
  lemma FactorStep(x: int, rem: int, next: int, prime: int, mp: int, mp': int)
    requires rem == prime * next && rem * mp == x && mp' == prime * mp
    ensures next * mp' == x
  {
    MulAssoc(next, prime, mp);
  }

  /** The inner loop of Factorize as written, on any remainder, run for at most fuel
      iterations: the remainder it stops at, or None while prime still divides it. */
  function DivideOutRuns(rem: nat, prime: nat, fuel: nat): Option<nat>
    requires prime >= 2
    decreases fuel
  {
    if rem % prime != 0 then Some(rem)
    else if fuel == 0 then None
    else DivideOutRuns(rem / prime, prime, fuel - 1)
  }

  /** Every prime divides 0 and 0 / prime is 0, so on a remainder of 0 the loop
      never stops, however many iterations it is given. */
  lemma {:induction false} DivideOutZeroNeverEnds(prime: nat, fuel: nat)
    requires prime >= 2
    ensures DivideOutRuns(0, prime, fuel) == None
    decreases fuel
  {
    if fuel > 0 {
      DivideOutZeroNeverEnds(prime, fuel - 1);
    }
  }

  /** On a positive remainder the loop stops within rem iterations, at a positive
      remainder that prime no longer divides. */
  lemma {:induction false} DivideOutEnds(rem: nat, prime: nat, fuel: nat)
    requires rem >= 1 && prime >= 2 && fuel >= rem
    ensures DivideOutRuns(rem, prime, fuel).Some?
    ensures DivideOutRuns(rem, prime, fuel).value >= 1
    ensures DivideOutRuns(rem, prime, fuel).value % prime != 0
    decreases rem
  {
    if rem % prime == 0 {
      DivExact(rem, prime);
      CofactorDivides(rem, prime, rem / prime);
      DivideOutEnds(rem / prime, prime, fuel - 1);
    }
  }

  /** The inner loop of Factorize: divides prime out of rem as often as it goes,
      counting the divisions in prime's exponent. */
  method DivideOut(rem0: nat, prime: nat, factors0: map<nat, nat>) returns (rem: nat, factors: map<nat, nat>)
    requires rem0 >= 1 && prime >= 2
    requires forall p :: p in factors0 ==> factors0[p] >= 1
    ensures rem >= 1 && rem % prime != 0 && rem0 % rem == 0
    ensures rem * MapProduct(factors) == rem0 * MapProduct(factors0)
    ensures forall p :: p in factors <==> p in factors0 || (p == prime && rem < rem0)
    ensures forall p :: p in factors ==> factors[p] >= Get(factors0, p) && factors[p] >= 1
  {
    rem, factors := rem0, factors0;
    while rem % prime == 0
      invariant rem >= 1 && rem0 % rem == 0
      invariant rem * MapProduct(factors) == rem0 * MapProduct(factors0)
      invariant forall p :: p in factors <==> p in factors0 || (p == prime && rem < rem0)
      invariant forall p :: p in factors ==> factors[p] >= Get(factors0, p) && factors[p] >= 1
      decreases rem
    {
      var next := rem / prime;
      DivExact(rem, prime);
      assert next >= 1;
      CofactorDivides(rem, prime, next);
      DivTransitive(rem0, rem, next);
      MapProductBump(factors, prime);
      FactorStep(rem0 * MapProduct(factors0), rem, next, prime,
                 MapProduct(factors), MapProduct(factors[prime := Get(factors, prime) + 1]));
      factors := factors[prime := Get(factors, prime) + 1];
      rem := next;
    }
  }

  /** Factorize: trial division by the given primes, in order. ok is false exactly
      where the source's CHECK(rem == 1) fails; otherwise the map sends each prime
      to its exponent and its product is x. */
  method Factorize(x: nat, primes: seq<nat>) returns (ok: bool, factors: map<nat, nat>)
    requires x >= 1
    requires forall t :: 0 <= t < |primes| ==> primes[t] >= 2
    ensures ok ==> MapProduct(factors) == x
    ensures forall p :: p in factors ==> p in primes && factors[p] >= 1
    ensures (forall q: nat :: IsPrime(q) && q <= x ==> q in primes) ==> ok
  {
    factors := map[];
    var rem := x;
    var pi := 0;
    while rem != 1 && pi < |primes|
      invariant 0 <= pi <= |primes|
      invariant rem >= 1 && rem * MapProduct(factors) == x
      invariant forall p :: p in factors ==> p in primes[..pi] && factors[p] >= 1
      invariant forall t :: 0 <= t < pi ==> rem % primes[t] != 0 || rem == 1
      decreases |primes| - pi
    {
      var prime := primes[pi];
      var rem', factors' := DivideOut(rem, prime, factors);
      forall t | 0 <= t < pi
        ensures rem' % primes[t] != 0
      {
        if rem' % primes[t] == 0 {
          DivTransitive(rem, rem', primes[t]);
        }
      }
      rem, factors := rem', factors';
      pi := pi + 1;
    }
    ok := rem == 1;
    if !ok {
      var q := MissingPrime(x, rem, factors, primes);
    }
  }

  /** What is left over after trial division by every prime in the list has a
      prime factor missing from the list. */
  lemma MissingPrime(x: nat, rem: nat, factors: map<nat, nat>, primes: seq<nat>) returns (q: nat)
    requires rem >= 2 && rem * MapProduct(factors) == x
    requires forall p :: p in factors ==> p >= 1
    requires forall t :: 0 <= t < |primes| ==> primes[t] >= 2 && rem % primes[t] != 0
    ensures IsPrime(q) && q <= x && q !in primes
  {
    q := LeastDivisorIsPrime(rem);
    MapProductPositive(factors);
    MulAtLeast(rem, MapProduct(factors));
  }

  lemma {:induction false} MapProductPositive(m: map<nat, nat>)
    requires forall p :: p in m ==> p >= 1
    ensures MapProduct(m) >= 1
    decreases |m|
  {
    if |m| > 0 {
      var p :| p in m;
      MapProductPick(m, p);
      MapProductPositive(m - {p});
    }
  }

  // ---------------------------------------------------------------------------
  // LCM

  /** Every entry of m1 is in m2 with at least the same exponent. */
  ghost predicate Bounded(m1: map<nat, nat>, m2: map<nat, nat>) {
    forall p :: p in m1 ==> p in m2 && m1[p] <= m2[p]
  }

  /** The second loop of LCM: raise each prime's exponent in common to at least
      its exponent in factors. */
  method MergeMax(common0: map<nat, nat>, factors: map<nat, nat>) returns (common: map<nat, nat>)
    ensures forall p :: p in common <==> p in common0 || p in factors
    ensures forall p :: p in common ==> common[p] == Max(Get(common0, p), Get(factors, p))
  {
    common := common0;
    var todo := factors.Keys;
    while todo != {}
      invariant forall p :: p in todo ==> p in factors
      invariant forall p :: p in common <==> p in common0 || (p in factors && p !in todo)
      invariant forall p :: p in common && p !in todo ==> common[p] == Max(Get(common0, p), Get(factors, p))
      invariant forall p :: p in common && p in todo ==> common[p] == common0[p]
      decreases |todo|
    {
      var prime :| prime in todo;
      var power := factors[prime];
      if Get(common, prime) < power {
        common := common[prime := power];
      } else {
        common := common[prime := Get(common, prime)];
      }
      todo := todo - {prime};
    }
  }

  function Max(a: nat, b: nat): nat {
    if a < b then b else a
  }

  lemma PowStep(a: nat, p: nat, i: nat)
    ensures (a * Pow(p, i)) * p == a * Pow(p, i + 1) >= 0
  {
    MulAssoc(a, Pow(p, i), p);
    MulNonnegative(a, Pow(p, i + 1));
  }

  /** The innermost loop of LCM: multiply by prime, power times. */
  method MultiplyPower(lcm0: nat, prime: nat, power: nat) returns (lcm: nat)
    ensures lcm == lcm0 * Pow(prime, power)
  {
    lcm := lcm0;
    var i := 0;
    while i < power
      invariant 0 <= i <= power
      invariant lcm == lcm0 * Pow(prime, i)
    {
      PowStep(lcm0, prime, i);
      lcm := lcm * prime;
      i := i + 1;
    }
  }

  lemma PeelFactor(x: int, before: int, a: int, r: int, t: int)
    requires t == a * r && before * t == x
    ensures (before * a) * r == x
  {
    MulAssoc(before, a, r);
  }

  /** The last loop of LCM: multiply prime into the result power times for every
      entry of common. */
  method PowerProduct(common: map<nat, nat>) returns (lcm: nat)
    ensures lcm == MapProduct(common)
  {
    lcm := 1;
    var todo := common;
    while todo != map[]
      invariant lcm * MapProduct(todo) == MapProduct(common)
      decreases |todo|
    {
      var prime :| prime in todo;
      var power := todo[prime];
      MapProductPick(todo, prime);
      var before := lcm;
      lcm := MultiplyPower(lcm, prime, power);
      PeelFactor(MapProduct(common), before, Pow(prime, power), MapProduct(todo - {prime}), MapProduct(todo));
      assert |todo - {prime}| == |todo| - 1;
      todo := todo - {prime};
    }
    MulByOne(lcm, MapProduct(todo));
  }

  lemma MulByOne(a: int, b: int)
    requires b == 1
    ensures a * b == a
  {
  }

  /** LCM: a common multiple of all values, from the highest power of each prime
      over their factorisations. */
  method LCM(values: set<nat>) returns (lcm: nat)
    requires values != {}
    requires forall v :: v in values ==> v >= 1
    ensures lcm >= 1
    ensures forall v :: v in values ==> lcm % v == 0
  {
    var maxValue := MaxElement(values);
    var primes := PrimeSieve(maxValue + 1);
    var common, facts := CommonFactors(values, maxValue, primes);
    lcm := PowerProduct(common);
    MapProductPositive(common);
    forall v | v in values
      ensures lcm % v == 0
    {
      FactorsDivide(v, facts[v], common);
    }
  }

  /** The first loop of LCM: factorise every value and keep, per prime, the highest
      exponent seen. facts records each value's factorisation for the proof. */
  method CommonFactors(values: set<nat>, maxValue: nat, primes: seq<nat>)
    returns (common: map<nat, nat>, ghost facts: map<nat, map<nat, nat>>)
    requires forall v :: v in values ==> 1 <= v <= maxValue
    requires forall q: nat :: q in primes <==> q < maxValue + 1 && IsPrime(q)
    ensures forall p :: p in common ==> p >= 2
    ensures forall v :: v in values ==> v in facts && MapProduct(facts[v]) == v && Bounded(facts[v], common)
  {
    assert forall t :: 0 <= t < |primes| ==> primes[t] in primes;
    common := map[];
    facts := map[];
    var todo := values;
    while todo != {}
      invariant forall v :: v in todo ==> v in values
      invariant forall v :: v in values ==> v in todo || v in facts
      invariant forall v :: v in facts ==> MapProduct(facts[v]) == v && Bounded(facts[v], common)
      invariant forall p :: p in common ==> p in primes
      decreases |todo|
    {
      var value :| value in todo;
      var ok, factors := Factorize(value, primes);
      assert ok by {
        assert forall q: nat :: IsPrime(q) && q <= value ==> q in primes;
      }
      var common' := MergeMax(common, factors);
      BoundedMax(facts, common, common');
      facts := facts[value := factors];
      common := common';
      todo := todo - {value};
    }
  }

  /** A number whose factorisation is bounded by common divides common's product. */
  lemma FactorsDivide(v: nat, factors: map<nat, nat>, common: map<nat, nat>)
    requires v >= 1 && MapProduct(factors) == v && Bounded(factors, common)
    ensures MapProduct(common) % v == 0
  {
    var k := MapProductDivides(factors, common);
    MulMod(v, k);
  }

  /** Raising exponents keeps every earlier bound. */
  lemma BoundedMax(facts: map<nat, map<nat, nat>>, common: map<nat, nat>, common': map<nat, nat>)
    requires common.Keys <= common'.Keys
    requires forall p :: p in common ==> common[p] <= common'[p]
    ensures forall v :: v in facts && Bounded(facts[v], common) ==> Bounded(facts[v], common')
  {
  }

  /** The largest element of a non-empty set. */
  method MaxElement(values: set<nat>) returns (m: nat)
    requires values != {}
    ensures m in values && forall v :: v in values ==> v <= m
  {
    var todo := values;
    m :| m in todo;
    while todo != {}
      invariant todo <= values && m in values
      invariant forall v :: v in values - todo ==> v <= m
      invariant forall v :: v in values && m < v ==> v in todo
      decreases |todo|
    {
      var v :| v in todo;
      if m < v { m := v; }
      todo := todo - {v};
    }
  }
}
