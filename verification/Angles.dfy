/**
 Autopilot angles: commands carry hundredths of a degree, the Raymarine messages
 ten-thousandths of a radian. Floating-point values are reals, and `pi` is any
 number close enough to the constant.
 */
module Angles {
  import opened Bytes
  import opened Wrappers

  ghost predicate IsPi(pi: real) {
    3.14159 < pi < 3.1416
  }

  /** The conversion to an unsigned integer, toward zero. */
  function Truncate(x: real): int {
    if x >= 0.0 then x.Floor else -((-x).Floor)
  }

  /** The floating-point remainder of a non-negative number. */
  function Fmod(x: real, m: real): real
    requires x >= 0.0 && m > 0.0
  {
    x - m * (x / m).Floor as real
  }

  /** `encodeAngle`: degrees to the 16-bit number sent. */
  function EncodeAngle(degrees: real, pi: real): u16 {
    Truncate(degrees * pi / 180.0 * 10000.0) % 0x1_0000
  }

  /** The degrees a received number stands for. */
  function Degrees(raw: u16, pi: real): real
    requires pi > 0.0
  {
    raw as real / 10000.0 * 180.0 / pi
  }

  /** PGN 65360: the target heading, in hundredths. */
  function DecodeHeading(raw: u16, pi: real): (r: Option<int>)
    requires pi > 0.0
    ensures r.None? <==> raw == 0xFFFF
  {
    if raw == 0xFFFF then None
    else
      NonNegative(raw, pi);
      Some(Truncate(Fmod(Degrees(raw, pi), 360.0) * 100.0) % 0x1_0000)
  }

  /** PGN 65345: the wind datum, in hundredths, from -180 to 180 degrees. */
  function DecodeWind(raw: u16, pi: real): (r: Option<int>)
    requires pi > 0.0
    ensures r.None? <==> raw == 0xFFFF
  {
    if raw == 0xFFFF then None
    else
      var deg := Degrees(raw, pi);
      Some(Truncate((if deg > 180.0 then deg - 360.0 else deg) * 100.0))
  }

  lemma NonNegative(raw: u16, pi: real)
    requires pi > 0.0
    ensures Degrees(raw, pi) >= 0.0
  {
  }

  /** Whatever was received, the target heading is in one turn, and less than a hundredth below the angle it stands
      for, taken into that turn. */
  lemma HeadingDecoded(raw: u16, pi: real)
    requires IsPi(pi) && raw != 0xFFFF
    ensures DecodeHeading(raw, pi).Some?
    ensures var d, n := Degrees(raw, pi), DecodeHeading(raw, pi).value;
      var angle := if d >= 360.0 then d - 360.0 else d;
      0 <= n < 36000 && n as real <= angle * 100.0 < n as real + 1.0
  {
    NonNegative(raw, pi);
    DegreesBelow(raw, pi);
    var d := Degrees(raw, pi);
    OneTurn(d);
    var x := Fmod(d, 360.0) * 100.0;
    assert x.Floor as real <= x < x.Floor as real + 1.0;
  }

  lemma OneTurn(d: real)
    requires 0.0 <= d < 720.0
    ensures Fmod(d, 360.0) == if d >= 360.0 then d - 360.0 else d
  {
    assert (d / 360.0).Floor == if d >= 360.0 then 1 else 0;
  }

  lemma DegreesBelow(raw: u16, pi: real)
    requires IsPi(pi)
    ensures Degrees(raw, pi) < 376.0
  {
    var x := raw as real / 10000.0 * 180.0;
    assert x < 1180.0;
    if x / pi >= 376.0 {
      assert x / pi * pi == x;
      ProductMonotone(376.0, x / pi, pi);
      assert false;
    }
  }

  /** The wind angle is within half a turn, and within a hundredth, toward the bow, of the angle it stands for. */
  lemma WindDecoded(raw: u16, pi: real)
    requires IsPi(pi) && raw != 0xFFFF
    ensures DecodeWind(raw, pi).Some?
    ensures var d, n := Degrees(raw, pi), DecodeWind(raw, pi).value;
      var angle := if d > 180.0 then d - 360.0 else d;
      && -18000 <= n <= 18000
      && (angle >= 0.0 ==> n as real <= angle * 100.0 < n as real + 1.0)
      && (angle < 0.0 ==> n as real - 1.0 < angle * 100.0 <= n as real)
  {
    NonNegative(raw, pi);
    DegreesBelow(raw, pi);
  }

  /** Units sent per hundredth of a degree. */
  function Scale(pi: real): real {
    pi / 1.8
  }

  /** The angle is a whole number of units, so that nothing is cut off. */
  ghost predicate WholeUnits(n: int, pi: real) {
    (n as real * Scale(pi)).Floor as real == n as real * Scale(pi)
  }

  /** An angle of `n` hundredths is sent as the whole part of `n` times the scale. */
  lemma SentUnits(n: nat, pi: real)
    requires IsPi(pi) && n <= 36000
    ensures EncodeAngle(n as real * 0.01, pi) == (n as real * Scale(pi)).Floor <= 62832
  {
    hide *;
    EncodeForm(n, pi);
    ScaleBounds(pi);
    Bounded(n, Scale(pi));
    TruncateSmall(n as real * Scale(pi));
  }

  lemma EncodeForm(n: nat, pi: real)
    ensures EncodeAngle(n as real * 0.01, pi) == Truncate(n as real * Scale(pi)) % 0x1_0000
  {
    hide *;
    UnitsForm(n as real, pi);
    EncodeUnits(n as real * 0.01, n as real * Scale(pi), pi);
  }

  lemma EncodeUnits(degrees: real, units: real, pi: real)
    requires degrees * pi / 180.0 * 10000.0 == units
    ensures EncodeAngle(degrees, pi) == Truncate(units) % 0x1_0000
  {
    hide Truncate;
  }

  lemma Bounded(n: nat, k: real)
    requires n <= 36000 && 0.0 <= k <= 1.74534
    ensures 0.0 <= n as real * k
    ensures n as real * k < 62833.0
  {
    hide *;
    ProductMonotone(n as real, 36000.0, k);
    Tens(k);
  }

  lemma Tens(k: real)
    requires k <= 1.74534
    ensures 36000.0 * k < 62833.0
  {
  }

  lemma TruncateSmall(x: real)
    requires 0.0 <= x < 62833.0
    ensures Truncate(x) % 0x1_0000 == x.Floor <= 62832
  {
    assert x.Floor as real <= x < x.Floor as real + 1.0;
  }

  lemma UnitsForm(a: real, pi: real)
    ensures a * 0.01 * pi / 180.0 * 10000.0 == a * Scale(pi)
  {
  }

  lemma ScaleBounds(pi: real)
    requires IsPi(pi)
    ensures 1.7 < Scale(pi) < 1.74534
  {
  }

  lemma ProductMonotone(a: real, b: real, k: real)
    requires 0.0 <= a <= b && k >= 0.0
    ensures 0.0 <= a * k
    ensures a * k <= b * k
  {
  }

  /** A received number, as hundredths of a degree. */
  lemma ReceivedUnits(raw: u16, pi: real)
    requires IsPi(pi)
    ensures Degrees(raw, pi) * 100.0 == raw as real / Scale(pi)
  {
  }

  /** The whole part of `n` units, taken back, is less than a hundredth below `n`. */
  lemma BackAgain(n: nat, pi: real)
    requires IsPi(pi)
    ensures var q := (n as real * Scale(pi)).Floor as real / Scale(pi);
      n as real - 0.6 < q <= n as real
    ensures var q := (n as real * Scale(pi)).Floor as real / Scale(pi);
      q == n as real <==> WholeUnits(n, pi)
  {
    hide Scale;
    ScaleBounds(pi);
    var x := n as real * Scale(pi);
    BackFrom(n as real, x.Floor as real / Scale(pi), Scale(pi), x, x.Floor as real);
  }

  lemma BackFrom(a: real, q: real, k: real, x: real, f: real)
    requires k > 1.7 && x == a * k && q == f / k && f <= x < f + 1.0
    ensures a - 0.6 < q <= a
    ensures q == a <==> f == x
  {
    Quotient(f, k);
    Distribute(a, q, k);
    Shortfall(a - q, k, x - f);
  }

  lemma Quotient(f: real, k: real)
    requires k > 0.0
    ensures f / k * k == f
  {
  }

  /** Less than one unit is less than six tenths of a hundredth. */
  lemma Shortfall(e: real, k: real, d: real)
    requires e * k == d && 0.0 <= d < 1.0 && k > 1.7
    ensures 0.0 <= e < 0.6
    ensures e == 0.0 <==> d == 0.0
  {
    if e < 0.0 {
      ProductPositive(-e, k);
      assert false;
    } else if e > 0.0 {
      ProductPositive(e, k);
    }
    if e >= 0.6 {
      ProductMonotone(0.6, e, k);
      assert false;
    }
  }

  lemma ProductPositive(a: real, k: real)
    requires a > 0.0 && k > 0.0
    ensures a * k > 0.0
  {
  }

  lemma Distribute(a: real, b: real, k: real)
    ensures (a - b) * k == a * k - b * k
  {
  }

  /** A heading set and read back is the same, when it is a whole number of units, or one hundredth less. */
  lemma HeadingRoundTrip(n: nat, pi: real)
    requires IsPi(pi) && n < 36000
    ensures DecodeHeading(EncodeAngle(n as real * 0.01, pi), pi) == (if WholeUnits(n, pi) then Some(n) else Some(n - 1))
  {
    hide EncodeAngle, Scale, WholeUnits, Fmod, Degrees;
    var raw := EncodeAngle(n as real * 0.01, pi);
    SentUnits(n, pi);
    ReceivedUnits(raw, pi);
    BackAgain(n, pi);
    var deg := Degrees(raw, pi);
    NonNegative(raw, pi);
    assert 0.0 <= deg < 360.0;
    FmodBelow(deg, 360.0);
    var q := deg * 100.0;
    assert n as real - 0.6 < q <= n as real;
    FloorBetween(q, n);
  }

  lemma FmodBelow(x: real, m: real)
    requires 0.0 <= x < m
    ensures Fmod(x, m) == x
  {
    assert 0.0 <= x / m < 1.0;
    assert (x / m).Floor == 0;
  }

  lemma FloorBetween(q: real, n: int)
    requires n as real - 0.6 < q <= n as real
    ensures q.Floor == (if q == n as real then n else n - 1)
  {
    assert q.Floor as real <= q < q.Floor as real + 1.0;
    if q == n as real {
    } else {
      assert q.Floor < n by { assert (q.Floor) as real < n as real; }
      assert n - 2 < q.Floor by { assert (n - 2) as real < q.Floor as real; }
    }
  }

  /** A wind angle to port comes back exactly; one to starboard, or dead ahead, is the same or one hundredth less. */
  lemma WindRoundTrip(n: int, pi: real)
    requires IsPi(pi) && -18000 <= n <= 18000
    ensures var sent := EncodeAngle((if n < 0 then n + 36000 else n) as real * 0.01, pi);
      var r := DecodeWind(sent, pi);
      if -18000 < n < 0 then r == Some(n)
      else if n >= 0 then r == (if WholeUnits(n, pi) then Some(n) else Some(n - 1))
      else r == (if WholeUnits(18000, pi) then Some(18000) else Some(17999))
  {
    hide EncodeAngle, Scale, WholeUnits, Degrees;
    var m := if n < 0 then n + 36000 else n;
    var raw := EncodeAngle(m as real * 0.01, pi);
    SentUnits(m, pi);
    ReceivedUnits(raw, pi);
    BackAgain(m, pi);
    var deg := Degrees(raw, pi);
    NonNegative(raw, pi);
    var q := deg * 100.0;
    assert m as real - 0.6 < q <= m as real;
    FloorBetween(q, m);
    if deg > 180.0 {
      assert (deg - 360.0) * 100.0 == q - 36000.0;
      CeilingBetween(q - 36000.0, n);
    }
  }

  lemma CeilingBetween(q: real, n: int)
    requires n as real - 0.6 < q <= n as real <= 0.0
    ensures Truncate(q) == n
  {
    var f := (-q).Floor;
    assert f as real <= -q < f as real + 1.0;
    if q == 0.0 {
      assert q.Floor == 0;
    } else {
      assert f < -n + 1 by { assert f as real < (-n + 1) as real; }
      assert -n - 1 < f by { assert (-n - 1) as real < f as real; }
    }
  }

  // ---------------------------------------------------------------------------
  // Relative adjustments

  /** A signed 16-bit number. */
  type s16 = x: int | -0x8000 <= x < 0x8000

  /** An angle in degrees that is a whole number of hundredths. */
  predicate Hundredths(degrees: real, n: int) {
    degrees == n as real * 0.01
  }

  /** Adjusting the heading: the sum, made positive, and its remainder. */
  function AdjustHeading(heading: u16, raw: s16): (degrees: real) {
    Fmod(heading as real * 0.01 + raw as real * 0.01 + 360.0, 360.0)
  }

  /** It is the heading a full turn below 360 degrees that is congruent to the sum. */
  lemma AdjustedHeading(heading: u16, raw: s16)
    ensures var d := AdjustHeading(heading, raw);
      Hundredths(d, (heading + raw) % 36000) && 0.0 <= d < 360.0
  {
    hide Fmod;
    var n := heading + raw + 36000;
    assert heading as real * 0.01 + raw as real * 0.01 + 360.0 == n as real * 0.01;
    FmodHundredths(n);
    TurnTwice(heading + raw);
  }

  lemma TurnTwice(n: int)
    ensures (n + 36000) % 36000 == n % 36000
  {
  }

  lemma FmodHundredths(n: nat)
    ensures Fmod(n as real * 0.01, 360.0) == (n % 36000) as real * 0.01
  {
    var x, q, m := n as real * 0.01, n / 36000, n % 36000;
    assert n == 36000 * q + m;
    assert n as real == 36000.0 * q as real + m as real;
    assert x / 360.0 == q as real + m as real / 36000.0;
    FloorOf(x / 360.0, q);
  }

  lemma FloorOf(x: real, q: int)
    requires q as real <= x < q as real + 1.0
    ensures x.Floor == q
  {
  }

  /** Adjusting the wind angle: the sum is brought between -180 and 180 degrees a turn at a time, and
      then made positive. For every pair of 16-bit inputs this ends, with the angle of a full turn
      from zero that is congruent to the sum. */
  method AdjustWind(targetWind: s16, raw: s16) returns (newWind: real)
    ensures Hundredths(newWind, (targetWind + raw) % 36000) && 0.0 <= newWind < 360.0
  {
    newWind := targetWind as real * 0.01 + raw as real * 0.01;
    ghost var n := targetWind + raw;
    while newWind > 180.0
      invariant Hundredths(newWind, n) && n % 36000 == (targetWind + raw) % 36000
      invariant n <= 18000 ==> n == targetWind + raw || n > -18000
      decreases n
    {
      newWind := newWind - 360.0;
      n := n - 36000;
      TurnTwice(n);
    }
    while newWind < -180.0
      invariant Hundredths(newWind, n) && n % 36000 == (targetWind + raw) % 36000 && n <= 18000
      decreases -n
    {
      TurnTwice(n);
      newWind := newWind + 360.0;
      n := n + 36000;
    }
    if newWind < 0.0 {
      TurnTwice(n);
      newWind := newWind + 360.0;
      n := n + 36000;
    }
    assert 0 <= n < 36000;
  }

  // ---------------------------------------------------------------------------
  // The state the messages update

  class AutopilotBleState {
    var heading: u16
    var targetHeading: u16
    var targetWind: int
    var dirty: bool

    method HandlePGN65360(data: seq<u8>, pi: real)
      requires IsPi(pi)
      modifies this
      ensures heading == old(heading) && targetWind == old(targetWind)
      ensures |data| >= 7 && LittleEndian(data[5], data[6]) != 0xFFFF ==>
        dirty && DecodeHeading(LittleEndian(data[5], data[6]), pi) == Some(targetHeading as int)
      ensures |data| < 7 || LittleEndian(data[5], data[6]) == 0xFFFF ==>
        dirty == old(dirty) && targetHeading == old(targetHeading)
    {
      hide Truncate, Fmod;
      if |data| < 7 {
        return;
      }
      var raw: u16 := LittleEndian(data[5], data[6]);
      if raw != 0xFFFF {
        var deg := raw as real / 10000.0 * 180.0 / pi;
        NonNegative(raw, pi);
        targetHeading := Truncate(Fmod(deg, 360.0) * 100.0) % 0x1_0000;
        dirty := true;
      }
    }

    method HandlePGN65345(data: seq<u8>, pi: real)
      requires IsPi(pi)
      modifies this
      ensures heading == old(heading) && targetHeading == old(targetHeading)
      ensures |data| >= 4 && LittleEndian(data[2], data[3]) != 0xFFFF ==>
        dirty && DecodeWind(LittleEndian(data[2], data[3]), pi) == Some(targetWind)
      ensures |data| < 4 || LittleEndian(data[2], data[3]) == 0xFFFF ==>
        dirty == old(dirty) && targetWind == old(targetWind)
    {
      if |data| < 4 {
        return;
      }
      var raw: u16 := LittleEndian(data[2], data[3]);
      if raw != 0xFFFF {
        var deg := raw as real / 10000.0 * 180.0 / pi;
        if deg > 180.0 {
          deg := deg - 360.0;
        }
        targetWind := Truncate(deg * 100.0);
        dirty := true;
      }
    }
  }
}
