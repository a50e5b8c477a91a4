/** The C++ integer vocabulary the demos rely on: the 32-bit `int` that the
    vectors hold, and the `%` operator, which truncates toward zero in C++
    where Dafny's `%` is Euclidean. */
module CppInt {

  /** A C++ `int` on the usual 32-bit two's-complement targets. */
  newtype int32 = x: int | -0x8000_0000 <= x < 0x8000_0000

  /** C++ `a % b` for a positive divisor: the remainder of division truncated
      toward zero, so it takes the sign of the dividend. It differs from the
      Euclidean remainder exactly when it is negative, by one divisor. */
  function Rem(a: int, b: int): (r: int)
    requires b > 0
    ensures -b < r < b
    ensures a >= 0 ==> r >= 0
    ensures a < 0 ==> r <= 0
    ensures a % b == if r < 0 then r + b else r
  {
    if a >= 0 then a % b
    else
      var m := (-a) % b;
      NegatedRemainder(a, b);
      -m
  }

  /** The Euclidean remainder of a negative number, read off the remainder of
      its negation. */
  lemma NegatedRemainder(a: int, b: int)
    requires a < 0 < b
    ensures a % b == if (-a) % b == 0 then 0 else b - (-a) % b
  {
    var q, m := (-a) / b, (-a) % b;
    assert -a == q * b + m;
    if m == 0 {
      assert a == (-q) * b + 0;
      RemainderUnique(a, b, -q, 0);
    } else {
      assert a == (-q - 1) * b + (b - m);
      RemainderUnique(a, b, -q - 1, b - m);
    }
  }

  /** Any decomposition `a == q * b + r` with `0 <= r < b` is the Euclidean one. */
  lemma RemainderUnique(a: int, b: int, q: int, r: int)
    requires b > 0 && 0 <= r < b && a == q * b + r
    ensures a % b == r
  {
    var q', r' := a / b, a % b;
    assert (q - q') * b == r' - r;
    if q > q' {
      MulAtLeast(q - q', b);
    } else if q < q' {
      MulAtLeast(q' - q, b);
    }
  }

  lemma MulAtLeast(x: int, b: int)
    requires x >= 1 && b > 0
    ensures x * b >= b
  {
  }

  /** The test `n % 2 == 0` written in C++. Evenness does not depend on the
      rounding direction of `%`: the C++ test agrees with the Euclidean one
      for negative numbers too. */
  predicate IsEven(n: int32)
    ensures IsEven(n) <==> (n as int) % 2 == 0
  {
    Rem(n as int, 2) == 0
  }
}
