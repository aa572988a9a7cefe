/**
 * Java's fixed-width integer types and the operators of the core that depend on them:
 * 32- and 64-bit ranges, 64-bit wrap-around of `long` arithmetic, and `long` division,
 * which truncates toward zero (Dafny's `/` is Euclidean).
 */
module JavaArith {

  const MinInt: int := -0x8000_0000
  const MaxInt: int := 0x7FFF_FFFF
  const MinLong: int := -0x8000_0000_0000_0000
  const MaxLong: int := 0x7FFF_FFFF_FFFF_FFFF
  const TwoTo64: int := 0x1_0000_0000_0000_0000

  /** A value of Java's `int`. */
  type Int32 = x: int | MinInt <= x <= MaxInt

  /** A value of Java's `long`. */
  type Int64 = x: int | MinLong <= x <= MaxLong

  predicate IsInt32(x: int) { MinInt <= x <= MaxInt }

  /** Two's-complement reduction of an exact result to a `long`, as Java's `+`, `-`, `*` on `long` do. */
  function Wrap64(x: int): (r: Int64)
    ensures (r - x) % TwoTo64 == 0
    ensures MinLong <= x <= MaxLong ==> r == x
  {
    var m := (x - MinLong) % TwoTo64;
    m + MinLong
  }

  /** Java's `a * b` on `long` operands. */
  function Mul(a: Int64, b: Int64): (r: Int64)
    ensures MinLong <= a * b <= MaxLong ==> r == a * b
  {
    Wrap64(a * b)
  }

  /** Java's `a - b` on `long` operands. */
  function Sub(a: Int64, b: Int64): (r: Int64)
    ensures MinLong <= a - b <= MaxLong ==> r == a - b
  {
    Wrap64(a - b)
  }

  /** Java's `a / b` on `long` operands for a positive divisor: the quotient truncated toward zero. */
  function Div(a: Int64, b: int): (r: Int64)
    requires b > 0
    ensures a >= 0 ==> 0 <= r <= a && r * b <= a < r * b + b
    ensures a < 0 ==> a <= r <= 0 && r * b - b < a <= r * b
  {
    if a >= 0 then
      NatDivFacts(a, b);
      a / b
    else
      var n: int := 0 - a as int;
      NatDivFacts(n, b);
      assert (-(n / b)) * b == -((n / b) * b);
      -(n / b)
  }

  /** Java's `Math.min` on `long`. */
  function Min(a: Int64, b: Int64): (r: Int64)
    ensures r <= a && r <= b && (r == a || r == b)
  {
    if a <= b then a else b
  }

  /** A larger dividend never gives a smaller truncated quotient. */
  lemma DivMonotone(a: Int64, a': Int64, b: int)
    requires b > 0 && a <= a'
    ensures Div(a, b) <= Div(a', b)
  {
    var q, q' := Div(a, b), Div(a', b);
    if a < 0 <= a' {
      assert q <= 0 <= q';
    } else {
      assert q * b < q' * b + b;
      MulLtCancel(q, q' + 1, b);
    }
  }

  lemma MulLtCancel(x: int, y: int, k: int)
    requires k > 0 && x * k < y * k
    ensures x < y
  {
    if x >= y {
      MulLe(y, x, k);
    }
  }

  lemma NatDivFacts(n: int, b: int)
    requires n >= 0 && b > 0
    ensures 0 <= n / b <= n
    ensures (n / b) * b <= n < (n / b) * b + b
  {
    MulLe(1, b, n / b);
  }

  lemma MulLe(x: int, y: int, k: int)
    requires x <= y && k >= 0
    ensures x * k <= y * k
  {
  }
}
