/** Powers of two, and the signed integers of C on the target: 32 and 64 bits, in two's complement. */
module CInts {

  const INT_MAX: int := 0x7fff_ffff
  const INT_MIN: int := -0x8000_0000
  const LONG_MAX: int := 0x7fff_ffff_ffff_ffff
  const LONG_MIN: int := -0x8000_0000_0000_0000
  const TWO32: int := 0x1_0000_0000
  const TWO64: int := 0x1_0000_0000_0000_0000

  function Pow2(e: nat): (p: nat)
    ensures p > 0
  {
    if e == 0 then 1 else 2 * Pow2(e - 1)
  }

  lemma TwiceProduct(x: nat, y: nat)
    ensures 2 * x * y == 2 * (x * y)
  {
  }

  lemma {:induction false} Pow2Sum(a: nat, b: nat)
    ensures Pow2(a + b) == Pow2(a) * Pow2(b)
  {
    if a != 0 {
      Pow2Sum(a - 1, b);
      assert Pow2(a + b) == 2 * Pow2(a - 1 + b) && Pow2(a) == 2 * Pow2(a - 1);
      hide Pow2;
      TwiceProduct(Pow2(a - 1), Pow2(b));
    }
  }

  lemma Pow2Of64()
    ensures Pow2(64) == TWO64
  {
    assert Pow2(4) == 16;
    Pow2Sum(4, 4);
    Pow2Sum(8, 8);
    Pow2Sum(16, 16);
    Pow2Sum(32, 32);
  }

  type cint = x: int | INT_MIN <= x <= INT_MAX

  /** What an int holds after x was computed: the low 32 bits, the highest being the sign. */
  function Int32(x: int): cint {
    var low := x % TWO32;
    if low <= INT_MAX then low else low - TWO32
  }

  /** The same for a long or a long long. */
  function Int64(x: int): (r: int)
    ensures LONG_MIN <= r <= LONG_MAX
  {
    var low := x % TWO64;
    if low <= LONG_MAX then low else low - TWO64
  }

  /** Numbers in range stay, and no others do. */
  lemma InRange(x: int)
    ensures Int32(x) == x <==> INT_MIN <= x <= INT_MAX
    ensures Int64(x) == x <==> LONG_MIN <= x <= LONG_MAX
  {
  }

  lemma Wraps32(x: int) returns (k: int)
    ensures x == Int32(x) + k * TWO32
  {
    k := (x - Int32(x)) / TWO32;
  }

  lemma Wraps64(x: int) returns (k: int)
    ensures x == Int64(x) + k * TWO64
  {
    k := (x - Int64(x)) / TWO64;
  }

  lemma Same32(x: int, y: int, k: int)
    requires x == y + k * TWO32
    ensures Int32(x) == Int32(y)
  {
  }

  lemma Same64(x: int, y: int, k: int)
    requires x == y + k * TWO64
    ensures Int64(x) == Int64(y)
  {
  }

  /** Wrapping before an addition makes no difference to what is left after it. */
  lemma Sum32(x: int, d: int)
    ensures Int32(Int32(x) + d) == Int32(x + d)
  {
    var k := Wraps32(x);
    Same32(x + d, Int32(x) + d, k);
  }

  /** Nor does wrapping at every step of Horner's rule. */
  lemma Horner32(v: int, base: int, d: int)
    ensures Int32(Int32(Int32(v) * base) + d) == Int32(v * base + d)
  {
    var k := Wraps32(v);
    Distribute(Int32(v), k, TWO32, base);
    Same32(v * base, Int32(v) * base, k * base);
    Sum32(Int32(v) * base, d);
    Same32(v * base + d, Int32(v) * base + d, k * base);
  }

  lemma Horner64(v: int, base: int, d: int)
    ensures Int64(Int64(Int64(v) * base) + d) == Int64(v * base + d)
  {
    var k := Wraps64(v);
    Distribute(Int64(v), k, TWO64, base);
    var j := Wraps64(Int64(v) * base);
    Same64(v * base + d, Int64(Int64(v) * base) + d, j + k * base);
  }

  lemma Negated64(v: int)
    ensures Int64(-Int64(v)) == Int64(-v)
  {
    var k := Wraps64(v);
    Same64(-v, -Int64(v), -k);
  }

  /** The magnitude of a negative number, which is an unsigned one even for the least of them. */
  lemma Magnitude64(v: int)
    requires LONG_MIN <= v < 0
    ensures Int64(-v) % TWO64 == -v
  {
    var m: nat := -v;
    assert m % TWO64 == m;
  }

  lemma Distribute(x: int, k: int, m: int, base: int)
    ensures (x + k * m) * base == x * base + k * base * m
  {
  }

  /** A number without a sign is recovered from what a long holds of it. */
  lemma Unsigned64(n: nat)
    ensures n < TWO64 ==> Int64(n) % TWO64 == n
  {
  }
}
