/** Helpers the core relies on: error values, C++ numeric conversions and
    the degrees/minutes/seconds conversion of utils.h. */
module Utils {

  datatype Option<+T> = None | Some(value: T)

  /** The two exception types the core raises: Coords::Error with its message,
      and Coords::DivideByZeroError, whose message is fixed. */
  datatype Error = Error(message: string) | DivideByZeroError
  {
    function Message(): string
    {
      match this
      case Error(m) => m
      case DivideByZeroError => "division by zero is undefined"
    }
  }

  datatype Result<+T> = Success(value: T) | Failure(error: Error)

  function Abs(x: real): real
  {
    if x < 0.0 then -x else x
  }

  /** A C++ cast of a double to an integer type: truncation toward zero. */
  function Trunc(x: real): (r: int)
    ensures 0.0 <= x ==> r as real <= x < r as real + 1.0
    ensures x < 0.0 ==> r as real - 1.0 < x <= r as real
  {
    if x >= 0.0 then x.Floor else -((-x).Floor)
  }

  /** C++ integer division `a / b`, which truncates toward zero. */
  function TruncDiv(a: int, b: int): (q: int)
    requires b != 0
    ensures 0 <= a && 0 < b ==> q == a / b
    ensures b > 0 ==> -b < a - b * q < b
    ensures b > 0 && a >= 0 ==> a - b * q >= 0
    ensures b > 0 && a < 0 ==> a - b * q <= 0
  {
    var n := if a < 0 then -a else a;
    var d := if b < 0 then -b else b;
    if (a < 0) == (b < 0) then n / d else -(n / d)
  }

  /** C++ integer remainder `a % b`: it has the sign of `a`. */
  function TruncMod(a: int, b: int): (r: int)
    requires b != 0
  {
    a - b * TruncDiv(a, b)
  }

  /** The C++ remainder and Dafny's Euclidean remainder agree on being zero,
      so a divisibility test written with either means the same. */
  lemma TruncModZeroIff(a: int, b: int)
    requires b > 0
    ensures TruncMod(a, b) == 0 <==> a % b == 0
  {
    if a < 0 {
      var n := -a;
      var q, r := n / b, n % b;
      assert n == b * q + r && 0 <= r < b;
      assert TruncMod(a, b) == -r;
      if r == 0 {
        assert a == b * (-q) + 0;
        EuclideanUnique(a, b, -q, 0);
      } else {
        assert a == b * (-q - 1) + (b - r);
        EuclideanUnique(a, b, -q - 1, b - r);
      }
    }
  }

  /** Dafny's `%` is determined by any quotient/remainder pair in range. */
  lemma EuclideanUnique(a: int, b: int, q: int, r: int)
    requires b > 0 && 0 <= r < b && a == b * q + r
    ensures a % b == r
  {
    var q', r' := a / b, a % b;
    assert a == b * q' + r' && 0 <= r' < b;
    var k := q - q';
    assert b * k == r' - r;
    if k >= 1 {
      MulNonNeg(b, k - 1);
    } else if k <= -1 {
      MulNonNeg(b, -k - 1);
    }
  }

  lemma MulNonNeg(x: int, y: int)
    requires x >= 0 && y >= 0
    ensures x * y >= 0
  {
  }

  /** degrees2seconds of utils.h: the magnitudes of the three components are
      added, and the sign is that of the first non-zero component. */
  function Degrees2Seconds(deg: real, min: real, sec: real): (r: real)
    ensures Abs(r) == Abs(deg) * 3600.0 + Abs(min) * 60.0 + Abs(sec)
    ensures deg > 0.0 || (deg == 0.0 && (min > 0.0 || (min == 0.0 && sec >= 0.0))) ==> r >= 0.0
  {
    var magnitude := Abs(deg) * 3600.0 + Abs(min) * 60.0 + Abs(sec);
    var negative := if deg != 0.0 then deg < 0.0 else if min != 0.0 then min < 0.0 else sec < 0.0;
    if negative then -magnitude else magnitude
  }

  /** Once an earlier component is non-zero, the signs of the later ones do
      not change the result. */
  lemma Degrees2SecondsIgnoresLaterSigns(deg: real, min: real, sec: real)
    ensures deg != 0.0 ==> Degrees2Seconds(deg, min, sec) == Degrees2Seconds(deg, -min, sec) == Degrees2Seconds(deg, min, -sec)
    ensures min != 0.0 ==> Degrees2Seconds(0.0, min, sec) == Degrees2Seconds(0.0, min, -sec)
    ensures Degrees2Seconds(-deg, min, sec) == -Degrees2Seconds(deg, min, sec) || deg == 0.0
  {
  }

  /** For non-negative components the result is the plain sum. */
  lemma Degrees2SecondsOfNonNegative(deg: real, min: real, sec: real)
    requires deg >= 0.0 && min >= 0.0 && sec >= 0.0
    ensures Degrees2Seconds(deg, min, sec) == deg * 3600.0 + min * 60.0 + sec
  {
  }
}
