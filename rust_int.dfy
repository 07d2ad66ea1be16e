/**
 * The machine integers the calendar code works with, and the Rust operators on them
 * whose meaning differs from Dafny's: `/` and `%` on signed integers truncate toward
 * zero, and `as u8` keeps the low eight bits.
 */
module RustInt {

  /** Rust's `i128`. */
  type I128 = x: int | -0x8000_0000_0000_0000_0000_0000_0000_0000 <= x < 0x8000_0000_0000_0000_0000_0000_0000_0000

  /** Rust's `u8`. */
  type U8 = x: int | 0 <= x < 256

  /** Whether an intermediate result of `i128` arithmetic stays in range (a debug build panics otherwise). */
  predicate InI128(x: int)
  {
    -0x8000_0000_0000_0000_0000_0000_0000_0000 <= x < 0x8000_0000_0000_0000_0000_0000_0000_0000
  }

  /** `a / b` on signed integers: the exact quotient rounded toward zero. */
  function Quot(a: int, b: int): (q: int)
    requires b > 0
    ensures a >= 0 ==> b * q <= a < b * q + b
    ensures a < 0 ==> b * q - b < a <= b * q
    ensures a >= 0 ==> 0 <= q <= a
    ensures a < 0 ==> a <= q <= 0
  {
    if a >= 0 then
      NonNegativeDivision(a, b);
      a / b
    else
      NonNegativeDivision(-a, b);
      -((-a) / b)
  }

  /** `a % b` on signed integers: the remainder of the truncating quotient, carrying the sign of `a`. */
  function Rem(a: int, b: int): (r: int)
    requires b > 0
    ensures a == b * Quot(a, b) + r
    ensures a >= 0 ==> 0 <= r < b
    ensures a < 0 ==> -b < r <= 0
    ensures a >= 0 ==> r == a % b
    ensures r == 0 <==> a % b == 0
  {
    if a >= 0 then
      NonNegativeDivision(a, b);
      a - b * Quot(a, b)
    else
      NonNegativeDivision(-a, b);
      ZeroRemainderIsSymmetric(a, b);
      a - b * Quot(a, b)
  }

  /** `x as u8`: the unique value in 0..=255 congruent to `x` modulo 256. */
  function AsU8(x: int): (r: U8)
    ensures (x - r) % 256 == 0
    ensures 0 <= x < 256 ==> r == x
  {
    x % 256
  }

  /** `as u8` of a negative value down to -512 adds 256 once or twice. */
  lemma AsU8OfNegative(x: int)
    requires -512 <= x
    ensures -256 <= x < 0 ==> AsU8(x) == x + 256
    ensures x < -256 ==> AsU8(x) == x + 512
  {
    if -256 <= x < 0 {
      DivModUnique(x, 256, -1, x + 256);
    } else if x < -256 {
      DivModUnique(x, 256, -2, x + 512);
    }
  }

  /** A remainder that is already within one step of zero is its own remainder. */
  lemma {:induction false} RemOfSmall(a: int, b: int)
    requires b > 0 && -b < a < b
    ensures Quot(a, b) == 0 && Rem(a, b) == a
  {
    var q := Quot(a, b);
    if q >= 1 {
      MulMonotone(b, 1, q);
      assert false;
    } else if q <= -1 {
      MulMonotone(b, q, -1);
      assert false;
    }
  }

  /** Truncating division is odd in the dividend. */
  lemma {:induction false} QuotOfNegation(a: int, b: int)
    requires b > 0
    ensures Quot(-a, b) == -Quot(a, b) && Rem(-a, b) == -Rem(a, b)
  {
  }

  /** Adding whole multiples of `b` to a non-negative number shifts the quotient and keeps the remainder. */
  lemma {:induction false} QuotRemOfMultiplePlus(k: int, b: int, r: int)
    requires b > 0 && k >= 0 && 0 <= r < b
    ensures Quot(k * b + r, b) == k && Rem(k * b + r, b) == r
  {
    var a := k * b + r;
    assert a >= 0;
    var q := Quot(a, b);
    assert b * q <= a < b * q + b;
    if q < k {
      assert b * q <= b * (k - 1) by { MulMonotone(b, q, k - 1); }
      assert false;
    } else if q > k {
      assert b * (k + 1) <= b * q by { MulMonotone(b, k + 1, q); }
      assert false;
    }
  }

  /** Dafny's `/` and `%` on a non-negative dividend, with the quotient bounded by the dividend. */
  lemma NonNegativeDivision(a: int, b: int)
    requires a >= 0 && b > 0
    ensures a == b * (a / b) + a % b && 0 <= a % b < b
    ensures 0 <= a / b <= a
  {
    var q, r := a / b, a % b;
    assert a == b * q + r && 0 <= r < b;
    if q > 0 {
      assert q <= b * q by { MulMonotone(q, 1, b); }
    }
  }

  /** Dafny's Euclidean `/` and `%` are the only quotient and remainder with the remainder in 0..b. */
  lemma DivModUnique(a: int, b: int, q: int, r: int)
    requires b > 0 && 0 <= r < b && a == b * q + r
    ensures a / b == q && a % b == r
  {
    var q', r' := a / b, a % b;
    assert a == b * q' + r' && 0 <= r' < b;
    assert b * (q - q') == r' - r;
    if q - q' >= 1 {
      MulMonotone(b, 1, q - q');
      assert false;
    } else if q - q' <= -1 {
      MulMonotone(b, q - q', -1);
      assert false;
    }
  }

  /** A multiple of `b` leaves no Euclidean remainder. */
  lemma MultipleHasNoRemainder(k: int, b: int)
    requires b > 0
    ensures (b * k) % b == 0
  {
    DivModUnique(b * k, b, k, 0);
  }

  /** Adding a multiple of `b` does not change the Euclidean remainder. */
  lemma RemainderOfShift(a: int, b: int, k: int)
    requires b > 0
    ensures (a + b * k) % b == a % b
  {
    assert a == b * (a / b) + a % b && 0 <= a % b < b;
    assert a + b * k == b * (a / b + k) + a % b;
    DivModUnique(a + b * k, b, a / b + k, a % b);
  }

  /** `b` divides `a` exactly when it divides `-a`. */
  lemma ZeroRemainderIsSymmetric(a: int, b: int)
    requires b > 0
    ensures a % b == 0 <==> (-a) % b == 0
  {
    if a % b == 0 {
      assert a == b * (a / b);
      MultipleHasNoRemainder(-(a / b), b);
      assert -a == b * (-(a / b));
    }
    if (-a) % b == 0 {
      assert -a == b * ((-a) / b);
      MultipleHasNoRemainder(-((-a) / b), b);
      assert a == b * (-((-a) / b));
    }
  }

  lemma MulMonotone(b: int, x: int, y: int)
    requires b > 0 && x <= y
    ensures b * x <= b * y
  {
  }
}
