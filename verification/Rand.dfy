/** The 48-bit linear congruential generator of lab8/libs/rand.c, and its full period. */
module Rand {
  import opened CInts

  const MULTIPLIER: nat := 0x5DEECE66D
  const INCREMENT: nat := 0xB
  const MODULUS: nat := 0x1_0000_0000_0000
  const RAND_MAX: nat := 2147483647

  /** One step: a 64-bit product and sum, of which the low 48 bits are kept. */
  function Step(x: nat): (y: nat)
    ensures y < MODULUS
  {
    (x * MULTIPLIER + INCREMENT) % TWO64 % MODULUS
  }

  /** The state after k steps. */
  function State(x: nat, k: nat): nat {
    if k == 0 then x else Step(State(x, k - 1))
  }

  /** do_div(result, RAND_MAX + 1) divides by RAND_MAX and adds 1 afterwards, as its argument is not parenthesised. */
  function Output(state: nat): (r: nat)
    ensures 1 <= r <= RAND_MAX
  {
    state / 4096 % RAND_MAX + 1
  }

  class Generator {
    var next: nat

    constructor ()
      ensures next == 1
    {
      next := 1;
    }

    method Srand(seed: nat)
      requires seed < 0x1_0000_0000
      modifies this
      ensures next == seed
    {
      next := seed;
    }

    method Next() returns (r: nat)
      modifies this
      ensures next == State(old(next), 1) && next < MODULUS
      ensures r == Output(next)
    {
      var product := next * MULTIPLIER % TWO64;
      var sum := (product + INCREMENT) % TWO64;
      WrapSum(next * MULTIPLIER);
      next := sum % MODULUS;
      var result := next / 4096;
      r := result % RAND_MAX + 1;
    }

    /** k calls advance the state by k steps. */
    method Skip(k: nat)
      modifies this
      ensures next == State(old(next), k)
    {
      for i := 0 to k
        invariant next == State(old(next), i)
      {
        var r := Next();
      }
    }
  }

  lemma WrapSum(p: nat)
    ensures (p % TWO64 + INCREMENT) % TWO64 == (p + INCREMENT) % TWO64
  {
  }

  // ---------- divisibility by powers of two ----------

  /** 2^e divides n. */
  predicate PowerDivides(e: nat, n: nat) {
    e == 0 || (n % 2 == 0 && PowerDivides(e - 1, n / 2))
  }

  lemma MulAtLeast(p: int, d: int)
    requires p > 0
    ensures d >= 1 ==> p * d >= p
    ensures d <= -1 ==> p * d <= -p
  {
    if d >= 1 {
      assert p * d == p + p * (d - 1);
      assert p * (d - 1) >= 0;
    } else if d <= -1 {
      assert p * d == -p + p * (d + 1);
      assert p * (-(d + 1)) >= 0;
    }
  }

  lemma MultipleModIsZero(n: nat, p: nat, q: int)
    requires p > 0 && n == p * q
    ensures n % p == 0
  {
    var d := q - n / p;
    assert p * d == n % p by {
      assert n == p * (n / p) + n % p;
      assert p * d == p * q - p * (n / p);
    }
    MulAtLeast(p, d);
  }

  lemma HalfModIsZero(n: nat, p: nat)
    requires p > 0
    ensures n % (2 * p) == 0 <==> n % 2 == 0 && n / 2 % p == 0
  {
    if n % (2 * p) == 0 {
      var q := n / (2 * p);
      assert n == 2 * p * q;
      assert n == 2 * (p * q);
      MultipleModIsZero(n / 2, p, q);
    }
    if n % 2 == 0 && n / 2 % p == 0 {
      var q := n / 2 / p;
      assert n / 2 == p * q;
      assert n == 2 * p * q;
      MultipleModIsZero(n, 2 * p, q);
    }
  }

  lemma {:induction false} PowerDividesIsMod(e: nat, n: nat)
    ensures PowerDivides(e, n) <==> n % Pow2(e) == 0
  {
    if e != 0 {
      PowerDividesIsMod(e - 1, n / 2);
      HalfModIsZero(n, Pow2(e - 1));
    }
  }

  lemma Pow2Of48()
    ensures Pow2(48) == MODULUS
  {
    assert Pow2(12) == 4096;
    Pow2Sum(12, 12);
    Pow2Sum(24, 24);
  }

  /** An odd factor makes no difference. */
  lemma {:induction false} OddFactor(e: nat, x: nat, u: nat)
    requires u % 2 == 1
    ensures PowerDivides(e, x * u) <==> PowerDivides(e, x)
  {
    if e != 0 {
      ParityOfProduct(x, u);
      if x % 2 == 0 {
        assert x * u == 2 * (x / 2 * u) by {
          assert x == 2 * (x / 2);
        }
        OddFactor(e - 1, x / 2, u);
      }
    }
  }

  lemma ParityOfProduct(x: nat, u: nat)
    requires u % 2 == 1
    ensures x * u % 2 == x % 2
  {
    var h := u / 2;
    assert x * u == 2 * (x * h) + x by {
      assert u == 2 * h + 1;
    }
  }

  // ---------- geometric sums ----------

  function Power(k: nat): nat {
    if k == 0 then 1 else MULTIPLIER * Power(k - 1)
  }

  /** 1 + a + ... + a^(k-1) */
  function Sum(k: nat): nat {
    if k == 0 then 0 else 1 + MULTIPLIER * Sum(k - 1)
  }

  /** The multiplier is 1 modulo 4, and so are its powers. */
  lemma {:induction false} PowerModFour(k: nat)
    ensures Power(k) % 4 == 1
  {
    if k != 0 {
      PowerModFour(k - 1);
      TimesMultiplier(Power(k - 1), Power(k - 1) / 4);
    }
  }

  lemma TimesMultiplier(p: nat, q: nat)
    requires p == 4 * q + 1
    ensures MULTIPLIER * p % 4 == 1
  {
    assert MULTIPLIER * p == 4 * (MULTIPLIER * q + MULTIPLIER / 4) + 1;
  }

  lemma SumStep(k: nat)
    requires k > 0
    ensures Sum(k) == 1 + MULTIPLIER * Sum(k - 1)
  {
  }

  lemma OddTimes(s: nat)
    ensures (1 + MULTIPLIER * s) % 2 == (1 + s) % 2
  {
    ghost var h := MULTIPLIER / 2 * s;
    assert MULTIPLIER * s == 2 * h + s;
    Parity(h, 1 + s);
  }

  lemma Parity(h: nat, n: nat)
    ensures (2 * h + n) % 2 == n % 2
  {
  }

  lemma NextParity(s: nat, t: nat, j: nat)
    requires t == 1 + MULTIPLIER * s && s % 2 == j % 2
    ensures t % 2 == (j + 1) % 2
  {
    OddTimes(s);
  }

  lemma {:induction false} SumParity(k: nat)
    ensures Sum(k) % 2 == k % 2
  {
    if k != 0 {
      SumParity(k - 1);
      hide Sum;
      SumStep(k);
      NextParity(Sum(k - 1), Sum(k), k - 1);
    }
  }

  lemma TimesProduct(x: nat, y: nat)
    ensures MULTIPLIER * x * y == MULTIPLIER * (x * y)
  {
  }

  lemma {:induction false} SumSplit(m: nat, n: nat)
    ensures Sum(m + n) == Sum(m) + Power(m) * Sum(n)
  {
    if m != 0 {
      SumSplit(m - 1, n);
      assert Power(m) == MULTIPLIER * Power(m - 1);
      SumStep(m + n);
      SumStep(m);
      hide Sum, Power;
      TimesProduct(Power(m - 1), Sum(n));
    }
  }

  /** The sum of 2j terms is twice an odd multiple of the sum of j terms. */
  lemma SumDouble(j: nat) returns (u: nat)
    ensures u % 2 == 1 && Sum(2 * j) == 2 * (Sum(j) * u)
  {
    PowerModFour(j);
    SumSplit(j, j);
    u := HalfOfSuccessor(Power(j));
    hide Sum, Power;
    Regroup(Sum(j), Power(j), u);
  }

  lemma HalfOfSuccessor(p: nat) returns (u: nat)
    requires p % 4 == 1
    ensures u % 2 == 1 && 2 * u == 1 + p
  {
    u := 2 * (p / 4) + 1;
  }

  lemma Regroup(s: nat, p: nat, u: nat)
    requires 2 * u == 1 + p
    ensures s + p * s == 2 * (s * u)
  {
    assert p == 2 * u - 1;
    assert p * s == 2 * u * s - s;
  }

  /** A power of two divides the sum of k terms exactly if it divides k. */
  lemma {:induction false} SumDivisibility(e: nat, k: nat)
    ensures PowerDivides(e, Sum(k)) <==> PowerDivides(e, k)
  {
    if e != 0 {
      SumParity(k);
      if k % 2 == 0 {
        var j := k / 2;
        var u := SumDouble(j);
        assert k == 2 * j;
        OddFactor(e - 1, Sum(j), u);
        SumDivisibility(e - 1, j);
      }
    }
  }

  // ---------- the period ----------

  /** The state without reduction. */
  function Unreduced(x: nat, k: nat): nat {
    if k == 0 then x else MULTIPLIER * Unreduced(x, k - 1) + INCREMENT
  }

  lemma LowBits(p: nat)
    ensures p % TWO64 % MODULUS == p % MODULUS
  {
  }

  lemma AddMultiple(q: nat, r: nat)
    ensures (MODULUS * q + r) % MODULUS == r % MODULUS
  {
  }

  lemma StepOfMod(n: nat)
    ensures Step(n % MODULUS) == (MULTIPLIER * n + INCREMENT) % MODULUS
  {
    var q, r := n / MODULUS, n % MODULUS;
    LowBits(r * MULTIPLIER + INCREMENT);
    AddMultiple(MULTIPLIER * q, MULTIPLIER * r + INCREMENT);
    assert MULTIPLIER * n + INCREMENT == MODULUS * (MULTIPLIER * q) + (MULTIPLIER * r + INCREMENT);
  }

  lemma {:induction false} StateIsUnreduced(x: nat, k: nat)
    requires x < MODULUS
    ensures State(x, k) == Unreduced(x, k) % MODULUS
  {
    if k != 0 {
      StateIsUnreduced(x, k - 1);
      StepOfMod(Unreduced(x, k - 1));
    }
  }

  lemma {:induction false} UnreducedIsSum(x: nat, k: nat)
    ensures Unreduced(x, k) == x + Sum(k) * ((MULTIPLIER - 1) * x + INCREMENT)
  {
    if k != 0 {
      UnreducedIsSum(x, k - 1);
      var d := (MULTIPLIER - 1) * x + INCREMENT;
      assert Sum(k) * d == d + MULTIPLIER * (Sum(k - 1) * d);
    }
  }

  lemma BackAtStart(x: nat, n: nat)
    requires x < MODULUS
    ensures (x + n) % MODULUS == x <==> n % MODULUS == 0
  {
  }

  lemma ChangeIsOdd(x: nat)
    ensures ((MULTIPLIER - 1) * x + INCREMENT) % 2 == 1
  {
    ghost var h := (MULTIPLIER - 1) / 2 * x;
    assert (MULTIPLIER - 1) * x == 2 * h;
    Parity(h, INCREMENT);
  }

  /** From any state, the sequence is back at its start after k steps exactly if 2^48 divides k. */
  lemma FullPeriod(x: nat, k: nat)
    requires x < MODULUS
    ensures State(x, k) == x <==> k % MODULUS == 0
  {
    hide State, Unreduced, Sum, PowerDivides, Pow2;
    var d := (MULTIPLIER - 1) * x + INCREMENT;
    ChangeIsOdd(x);
    StateIsUnreduced(x, k);
    UnreducedIsSum(x, k);
    Chain(State(x, k), x, k, Sum(k), d);
  }

  lemma Chain(y: nat, x: nat, k: nat, s: nat, d: nat)
    requires x < MODULUS && y == (x + s * d) % MODULUS && s == Sum(k) && d % 2 == 1
    ensures y == x <==> k % MODULUS == 0
  {
    hide Sum, PowerDivides, Pow2;
    var n := s * d;
    BackAtStart(x, n);
    Pow2Of48();
    PowerDividesIsMod(48, n);
    PowerDividesIsMod(48, k);
    OddFactor(48, s, d);
    SumDivisibility(48, k);
  }

  lemma {:induction false} StateBound(x: nat, k: nat)
    requires x < MODULUS
    ensures State(x, k) < MODULUS
  {
  }

  lemma {:induction false} StateSplit(x: nat, j: nat, k: nat)
    ensures State(x, j + k) == State(State(x, j), k)
  {
    if k != 0 {
      StateSplit(x, j, k - 1);
    }
  }

  lemma SmallRemainder(n: nat)
    requires n < MODULUS
    ensures n % MODULUS == n
  {
  }

  /** Within one period no state occurs twice. */
  lemma NoRepeats(x: nat, i: nat, j: nat)
    requires x < MODULUS && i < j && j - i < MODULUS
    ensures State(x, i) != State(x, j)
  {
    hide State;
    StateBound(x, i);
    StateSplit(x, i, j - i);
    assert i + (j - i) == j;
    FullPeriod(State(x, i), j - i);
    SmallRemainder(j - i);
  }

  /** The sequence from x is at y after i steps. */
  ghost predicate At(x: nat, i: nat, y: nat) {
    State(x, i) == y
  }

  /** The first n states. */
  ghost function Visited(x: nat, n: nat): set<nat> {
    if n == 0 then {} else Visited(x, n - 1) + {State(x, n - 1)}
  }

  lemma {:induction false} VisitedIndex(x: nat, n: nat, y: nat)
    ensures y in Visited(x, n) <==> exists i: nat :: i < n && At(x, i, y)
  {
    hide State;
    if n != 0 {
      VisitedIndex(x, n - 1, y);
      if y in Visited(x, n - 1) {
        var i: nat :| i < n - 1 && At(x, i, y);
        assert i < n && At(x, i, y);
      } else if At(x, n - 1, y) {
        assert y in Visited(x, n);
      }
    }
  }

  lemma {:induction false} VisitedCount(x: nat, n: nat)
    requires x < MODULUS && n <= MODULUS
    ensures |Visited(x, n)| == n
    ensures forall y | y in Visited(x, n) :: y < MODULUS
  {
    if n != 0 {
      VisitedCount(x, n - 1);
      StateBound(x, n - 1);
      VisitedIndex(x, n - 1, State(x, n - 1));
      if State(x, n - 1) in Visited(x, n - 1) {
        var i: nat :| i < n - 1 && At(x, i, State(x, n - 1));
        NoRepeats(x, i, n - 1);
      }
    }
  }

  /** Pigeonhole: n different numbers below n are all of them. */
  lemma {:induction false} AllBelow(s: set<nat>, n: nat)
    requires forall z | z in s :: z < n
    ensures |s| <= n
    ensures |s| == n ==> forall y: nat | y < n :: y in s
  {
    if n == 0 {
      assert s == {};
    } else {
      var s' := s - {n - 1};
      AllBelow(s', n - 1);
      assert |s| <= |s'| + 1;
      if n - 1 !in s {
        assert s' == s;
      }
    }
  }

  lemma VisitsAll(x: nat, y: nat, n: nat)
    requires x < MODULUS && y < n && n == MODULUS
    ensures exists i: nat :: i < n && At(x, i, y)
  {
    hide State, Visited;
    VisitedCount(x, n);
    AllBelow(Visited(x, n), n);
    VisitedIndex(x, n, y);
  }

  /** Every 48-bit state is visited within one period, from any start. */
  lemma EveryStateIsVisited(x: nat, y: nat)
    requires x < MODULUS && y < MODULUS
    ensures exists i: nat :: i < MODULUS && At(x, i, y)
  {
    hide State;
    VisitsAll(x, y, MODULUS);
  }

  /** One step is the product and the sum, of which multiples of 2^48 are dropped. */
  lemma StepExact(x: nat) returns (k: nat)
    requires x < 0x1_0000_0000_0000
    ensures x * 25214903917 + 11 == 0x1_0000_0000_0000 * k + State(x, 1) && State(x, 1) < 0x1_0000_0000_0000
  {
    var sum := x * MULTIPLIER + INCREMENT;
    assert State(x, 0) == x;
    WordAndModulus(sum);
    k := sum / MODULUS;
  }

  lemma WordAndModulus(sum: nat)
    ensures sum % TWO64 % MODULUS == sum % MODULUS
  {
    assert sum == TWO64 * (sum / TWO64) + sum % TWO64;
    assert TWO64 == 65536 * MODULUS;
  }

  /** The low twelve bits of a state are dropped; the value returned is one more than the remainder of the rest
      in a division by 2147483647. */
  lemma OutputExact(x: nat) returns (q: nat, t: nat)
    ensures x == 4096 * (2147483647 * q + Output(x) - 1) + t && t < 4096
  {
    t := x % 4096;
    q := x / 4096 / 2147483647;
  }

  /** The first call from the initial state. */
  lemma FirstValue()
    ensures State(1, 1) == 25214903928 && Output(State(1, 1)) == 6155983
  {
    assert State(1, 0) == 1;
  }

  /** The documented range is [0, RAND_MAX]; what is returned is exactly [1, RAND_MAX]. */
  lemma OutputRange(x: nat, v: nat)
    requires x < MODULUS
    ensures (exists i: nat :: i < MODULUS && Output(State(x, i)) == v) <==> 1 <= v <= RAND_MAX
  {
    hide State;
    if 1 <= v <= RAND_MAX {
      EveryStateIsVisited(x, (v - 1) * 4096);
      var i: nat :| i < MODULUS && At(x, i, (v - 1) * 4096);
      assert Output(State(x, i)) == v;
    }
  }
}
