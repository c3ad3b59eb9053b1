/**
 * Rounding half to even after eight decimals, in exact arithmetic: numbers are reals, eight-decimal numbers are
 * integers.
 */
module EvenRounding {
  import opened Decimal

  /** One, in units of 1e-8. */
  const ONE := 100_000_000

  /** Half a unit of the last digit kept, and half of 1e-8. */
  const BOUND: real := 0.5 + 0.000000005

  function Pow10(d: int): (m: real)
    ensures m > 0.0
    decreases if d < 0 then -d else d
  {
    if d == 0 then 1.0 else if d > 0 then 10.0 * Pow10(d - 1) else Pow10(d + 1) / 10.0
  }

  /** `toFixed(8)`, in units of 1e-8: the nearest number of eight decimals, of two the one further from zero. */
  function ToFixed8(x: real): int {
    if x < 0.0 then -(-x * ONE as real + 0.5).Floor else (x * ONE as real + 0.5).Floor
  }

  /**
   * The integer that the number n * 1e-8 is rounded to. The window around one half is open, and 1e-8 wide on
   * each side.
   */
  function RoundUnits(n: int): int {
    var i := n / ONE;
    var f := n - i * ONE;
    if f > ONE / 2 - 1 && f < ONE / 2 + 1 then (if i % 2 == 0 then i else i + 1)
    else (n + ONE / 2) / ONE
  }

  /** The input moved to the digit that is rounded. */
  function Shifted(num: real, d: int): real {
    if d != 0 then num * Pow10(d) else num
  }

  function EvenRound(num: real, d: int): real {
    var r := RoundUnits(ToFixed8(Shifted(num, d)));
    if d != 0 then r as real / Pow10(d) else r as real
  }

  /** r is an integer nearest to n * 1e-8, and the even one when two are equally near. */
  predicate RoundsTiesToEven(n: int, r: int) {
    var distance := if n < r * ONE then r * ONE - n else n - r * ONE;
    2 * distance <= ONE && (2 * distance == ONE ==> r % 2 == 0)
  }

  /** The open window holds only the exact tie, so the result is roundTiesToEven, for negative numbers too. */
  lemma RoundUnitsExactly(n: int, r: int)
    ensures RoundUnits(n) == r <==> RoundsTiesToEven(n, r)
  {
    var i := n / ONE;
    var f := n % ONE;
    assert n == i * ONE + f;
    if f < ONE / 2 {
      assert (n + ONE / 2) / ONE == i;
    } else {
      assert (n + ONE / 2) / ONE == i + 1;
    }
    assert RoundUnits(n) in {i, i + 1};
    assert r <= i - 1 || r == i || r == i + 1 || r >= i + 2;
  }

  /** The nearest number of eight decimals, ties going away from zero. */
  lemma ToFixed8Exactly(x: real, n: int)
    ensures ToFixed8(x) == n <==>
            if x < 0.0 then n as real - 0.5 < x * ONE as real <= n as real + 0.5
            else n as real - 0.5 <= x * ONE as real < n as real + 0.5
  {
  }

  lemma ProductOrder(a: real, b: real, m: real)
    requires m > 0.0
    ensures a <= b <==> a * m <= b * m
    ensures (a * m) / m == a && (a / m) * m == a
    ensures -a * m == -(a * m) && -a / m == -(a / m)
  {
  }

  lemma UnitsMonotone(n: int, k: int)
    requires n <= k
    ensures RoundUnits(n) <= RoundUnits(k)
  {
    RoundUnitsExactly(n, RoundUnits(n));
    RoundUnitsExactly(k, RoundUnits(k));
  }

  lemma UnitsOdd(n: int)
    ensures RoundUnits(-n) == -RoundUnits(n)
  {
    RoundUnitsExactly(n, RoundUnits(n));
    RoundUnitsExactly(-n, -RoundUnits(n));
  }

  lemma Fixed8Monotone(x: real, y: real)
    requires x <= y
    ensures ToFixed8(x) <= ToFixed8(y)
  {
    ToFixed8Exactly(x, ToFixed8(x));
    ToFixed8Exactly(y, ToFixed8(y));
  }

  lemma QuotientOrder(a: int, b: int, m: real)
    requires a <= b && m > 0.0
    ensures a as real / m <= b as real / m
  {
    ProductOrder(a as real / m, b as real / m, m);
    ProductOrder(a as real, b as real, m);
    ProductOrder(b as real, a as real, m);
  }

  lemma InverseOfTenTimes(n: int)
    requires n > 0
    ensures (1.0 / n as real) / 10.0 == 1.0 / (10 * n) as real
  {
    ProductOrder(1.0, 1.0, n as real);
    ProductOrder(1.0, 1.0, (10 * n) as real);
  }

  /** `Pow10` is the power of ten, for negative exponents too, and one exponent more is ten times as much. */
  lemma {:induction false} Pow10IsPower(d: int)
    requires d >= 0
    ensures Pow10(d) == TenTo(d) as real && Pow10(-d) == 1.0 / TenTo(d) as real
    ensures Pow10(d + 1) == 10.0 * Pow10(d) && Pow10(-d) == 10.0 * Pow10(-d - 1)
  {
    if d > 0 {
      Pow10IsPower(d - 1);
      InverseOfTenTimes(TenTo(d - 1));
    }
  }

  lemma {:induction false} ShiftIsTimesPower(x: real, d: int)
    ensures Shifted(x, d) == x * Pow10(d)
  {
  }

  lemma {:induction false} BackToInteger(r: real, m: real)
    requires m > 0.0
    ensures (r / m) * m == r
  {
    ProductOrder(r, 0.0, m);
  }

  /** The result has no more than d decimals: times 10^d it is the integer that the shifted input is rounded to. */
  lemma {:induction false} KeepsDecimals(x: real, d: int)
    ensures var n := ToFixed8(x * Pow10(d));
            exists r: int :: EvenRound(x, d) * Pow10(d) == r as real && RoundsTiesToEven(n, r)
  {
    ShiftIsTimesPower(x, d);
    var n := ToFixed8(Shifted(x, d));
    RoundUnitsExactly(n, RoundUnits(n));
    BackToInteger(RoundUnits(n) as real, Pow10(d));
    assert EvenRound(x, d) * Pow10(d) == RoundUnits(n) as real;
  }

  /** A larger input never gives a smaller result. */
  lemma Monotone(x: real, y: real, d: int)
    requires x <= y
    ensures EvenRound(x, d) <= EvenRound(y, d)
  {
    ProductOrder(x, y, Pow10(d));
    var a, b := ToFixed8(Shifted(x, d)), ToFixed8(Shifted(y, d));
    Fixed8Monotone(Shifted(x, d), Shifted(y, d));
    UnitsMonotone(a, b);
    QuotientOrder(RoundUnits(a), RoundUnits(b), Pow10(d));
  }

  /** Negating the input negates the result. */
  lemma Odd(x: real, d: int)
    ensures EvenRound(-x, d) == -EvenRound(x, d)
  {
    ProductOrder(x, x, Pow10(d));
    var a := Shifted(x, d);
    assert Shifted(-x, d) == -a;
    assert ToFixed8(-a) == -ToFixed8(a);
    UnitsOdd(ToFixed8(a));
    ProductOrder(RoundUnits(ToFixed8(a)) as real, 0.0, Pow10(d));
  }

  /** Rounding a result again changes nothing. */
  lemma Idempotent(x: real, d: int)
    ensures EvenRound(EvenRound(x, d), d) == EvenRound(x, d)
  {
    var r := RoundUnits(ToFixed8(Shifted(x, d)));
    ProductOrder(r as real, r as real, Pow10(d));
    assert Shifted(EvenRound(x, d), d) == r as real;
    ToFixed8Exactly(r as real, r * ONE);
    RoundUnitsExactly(r * ONE, r);
  }

  lemma UnitsErrorBound(y: real)
    ensures y - BOUND <= RoundUnits(ToFixed8(y)) as real <= y + BOUND
  {
    var n := ToFixed8(y);
    ToFixed8Exactly(y, n);
    RoundUnitsExactly(n, RoundUnits(n));
  }

  lemma ScaledBound(x: real, m: real, e: real, r: real)
    requires m > 0.0 && e * m == BOUND && x * m - BOUND <= r <= x * m + BOUND
    ensures x - e <= r / m <= x + e
  {
    var result := r / m;
    ProductOrder(r, r, m);
    assert (x - e) * m == x * m - e * m && (x + e) * m == x * m + e * m;
    ProductOrder(x - e, result, m);
    ProductOrder(result, x + e, m);
  }

  /** The result is within e = (0.5 + 0.5e-8) / 10^d of the input. */
  lemma {:induction false} ErrorBound(x: real, d: int, e: real)
    requires e * Pow10(d) == BOUND
    ensures x - e <= EvenRound(x, d) <= x + e
  {
    var m, y := Pow10(d), Shifted(x, d);
    UnitsErrorBound(y);
    if d != 0 {
      ScaledBound(x, m, e, RoundUnits(ToFixed8(y)) as real);
    }
  }

  /** r is an integer nearest to y. */
  predicate Nearest(y: real, r: int) {
    r as real - 0.5 <= y <= r as real + 0.5
  }

  /**
   * The eight decimals decide: the result is nearest to the shifted input itself exactly when that does not
   * become a tie in its eighth decimal while lying beyond one half, on the side away from the even neighbour.
   */
  lemma NearestToInputExactly(x: real, d: int)
    ensures var y := Shifted(x, d);
            var n := ToFixed8(y);
            var i := n / ONE;
            Nearest(y, RoundUnits(n)) <==>
            !(n == i * ONE + ONE / 2 && (if i % 2 == 0 then y > i as real + 0.5 else y < i as real + 0.5))
  {
    var y := Shifted(x, d);
    var n := ToFixed8(y);
    var i := n / ONE;
    ToFixed8Exactly(y, n);
    RoundUnitsExactly(n, RoundUnits(n));
    assert n == i * ONE + n % ONE;
    if n != i * ONE + ONE / 2 {
      var r := RoundUnits(n);
      assert r == i || r == i + 1;
      assert r * ONE - ONE / 2 + 1 <= n <= r * ONE + ONE / 2 - 1;
    }
  }

  /** 0.5000000001 is nearer to 1, but eight decimals make it a tie, and it goes to 0. */
  lemma NearestIsMissed()
    ensures var x := 0.5000000001;
            ToFixed8(x) == ONE / 2 && EvenRound(x, 0) == 0.0 && !Nearest(x, 0) && Nearest(x, 1)
  {
    ToFixed8Exactly(0.5000000001, ONE / 2);
  }
}
