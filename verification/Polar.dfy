/**
 The polar speed lookup (`Performance::calcPolarSpeed`): bilinear interpolation
 in a table of boat speeds, with the bracketing indices of the last wind speed
 and angle remembered. Floating-point values are reals.
 */
module Polar {
  import opened Bytes

  /** Wind speeds in knots, wind angles in degrees, and boat speeds in tenths of a knot, a row per angle. */
  datatype Table = Table(tws: seq<u8>, twa: seq<u8>, speeds: seq<u8>) {
    ghost predicate Valid() {
      Increasing(tws) && Increasing(twa) && |speeds| == |tws| * |twa|
    }
  }

  ghost predicate Increasing(a: seq<u8>) {
    |a| > 0 && a[0] == 0 && Ascends(a)
  }

  ghost predicate Ascends(a: seq<u8>) {
    forall i, j :: 0 <= i < j < |a| ==> a[i] < a[j]
  }

  // ---------------------------------------------------------------------------
  // Bracketing a value on one axis

  /** The two indices `findIndexes` sets. */
  datatype Bracket = Bracket(lo: nat, hi: nat)

  ghost predicate Brackets(a: seq<u8>, x: real, b: Bracket) {
    && b.lo <= b.hi < |a|
    && (b.hi == b.lo + 1 || b.lo == b.hi == |a| - 1)
    && a[b.lo] as real <= x
    && (b.lo < b.hi ==> x < a[b.hi] as real)
  }

  lemma BracketUnique(a: seq<u8>, x: real, b: Bracket, c: Bracket)
    requires Increasing(a) && Brackets(a, x, b) && Brackets(a, x, c)
    ensures b == c
  {
    Ascending(a, b.hi, c.lo);
    Ascending(a, c.hi, b.lo);
  }

  lemma Ascending(a: seq<u8>, i: nat, j: nat)
    requires Increasing(a) && i < |a| && j < |a|
    ensures i <= j ==> a[i] <= a[j]
    ensures i < j ==> a[i] < a[j]
  {
  }

  /** A value below the whole axis gets its first index twice. */
  method FindIndexes(v: u8, a: seq<u8>) returns (idx: Bracket)
    requires |a| > 0 && Ascends(a)
    ensures if a[0] <= v then Brackets(a, v as real, idx) else idx == Bracket(0, 0)
  {
    for i := 0 to |a|
      invariant i > 0 ==> a[i - 1] <= v
      invariant i > 0 ==> a[0] <= v
    {
      if a[i] > v {
        if i == 0 {
          return Bracket(0, 0);
        }
        return Bracket(i - 1, i);
      }
    }
    return Bracket(|a| - 1, |a| - 1);
  }

  /** The axis values are whole numbers, so the whole part of a value is bracketed as the value is. */
  lemma WholePartBrackets(a: seq<u8>, x: real, b: Bracket)
    requires x >= 0.0
    ensures Brackets(a, x.Floor as real, b) <==> Brackets(a, x, b)
  {
    if b.lo < |a| && b.hi < |a| {
      FloorCompare(a[b.lo], x);
      FloorCompare(a[b.hi], x);
    }
  }

  lemma FloorCompare(n: int, x: real)
    ensures n as real <= x <==> n as real <= x.Floor as real
  {
    assert x.Floor as real <= x < x.Floor as real + 1.0;
    if n as real <= x {
      assert n < x.Floor + 1 by { assert n as real < (x.Floor + 1) as real; }
    }
  }

  // ---------------------------------------------------------------------------
  // Interpolation

  function Interpolate(x: real, xl: real, xh: real, yl: real, yh: real): real {
    if x >= xh then yh
    else if x <= xl then yl
    else if xh - xl < 0.0001 then (yl + yh) / 2.0
    else yl + (yh - yl) * ((x - xl) / (xh - xl))
  }

  /** How far along a bracket a value lies. */
  function Fraction(x: real, xl: real, xh: real): real {
    if x >= xh then 1.0 else if x <= xl then 0.0 else (x - xl) / (xh - xl)
  }

  lemma FractionBounds(x: real, xl: real, xh: real)
    ensures 0.0 <= Fraction(x, xl, xh) <= 1.0
  {
    if xl < x < xh {
      assert x - xl == Fraction(x, xl, xh) * (xh - xl);
    }
  }

  /** Away from degenerate brackets, interpolation is the weighted mean of the ends. */
  lemma InterpolateIsMean(x: real, xl: real, xh: real, yl: real, yh: real)
    requires xh - xl >= 0.0001 || xh <= xl
    ensures var f := Fraction(x, xl, xh); Interpolate(x, xl, xh, yl, yh) == (1.0 - f) * yl + f * yh
  {
    var f := Fraction(x, xl, xh);
    MeanForm(yl, yh, f);
  }

  lemma MeanForm(yl: real, yh: real, f: real)
    ensures (1.0 - f) * yl + f * yh == yl + (yh - yl) * f
  {
  }

  // ---------------------------------------------------------------------------
  // The lookup

  function Speed(t: Table, i: nat, j: nat): real
    requires i < |t.tws| && j < |t.twa| && |t.speeds| == |t.tws| * |t.twa|
  {
    SpeedIndex(t, i, j);
    0.1 * t.speeds[j * |t.tws| + i] as real
  }

  lemma SpeedIndex(t: Table, i: nat, j: nat)
    requires i < |t.tws| && j < |t.twa| && |t.speeds| == |t.tws| * |t.twa|
    ensures j * |t.tws| + i < |t.speeds|
  {
    assert (j + 1) * |t.tws| <= |t.twa| * |t.tws|;
  }

  const METRES_PER_SECOND := 0.514444257 // per knot

  ghost predicate OnTable(t: Table, s: Bracket, a: Bracket) {
    && t.Valid()
    && s.lo <= s.hi < |t.tws| && a.lo <= a.hi < |t.twa|
  }

  /** The interpolated speed in metres per second for given brackets: first along the angle at both wind
      speeds, then along the wind speed. */
  ghost function Lookup(t: Table, s: Bracket, a: Bracket, tws: real, twa: real): real
    requires OnTable(t, s, a)
  {
    var al, ah := t.twa[a.lo] as real, t.twa[a.hi] as real;
    var low := Interpolate(twa, al, ah, Speed(t, s.lo, a.lo), Speed(t, s.lo, a.hi));
    var high := Interpolate(twa, al, ah, Speed(t, s.hi, a.lo), Speed(t, s.hi, a.hi));
    METRES_PER_SECOND * Interpolate(tws, t.tws[s.lo] as real, t.tws[s.hi] as real, low, high)
  }

  /** The bilinear blend of the four corners of a cell. */
  function Blend(y00: real, y10: real, y01: real, y11: real, f: real, g: real): real {
    (1.0 - f) * ((1.0 - g) * y00 + g * y01) + f * ((1.0 - g) * y10 + g * y11)
  }

  /** Adjacent axis values differ by at least one. */
  lemma WholeSteps(a: seq<u8>, b: Bracket)
    requires Increasing(a) && b.lo <= b.hi < |a|
    ensures a[b.hi] as real - a[b.lo] as real >= 0.0001 || a[b.hi] <= a[b.lo]
  {
  }

  lemma LookupIsBilinear(t: Table, s: Bracket, a: Bracket, tws: real, twa: real)
    requires OnTable(t, s, a)
    ensures Lookup(t, s, a, tws, twa) == METRES_PER_SECOND *
      Blend(Speed(t, s.lo, a.lo), Speed(t, s.hi, a.lo), Speed(t, s.lo, a.hi), Speed(t, s.hi, a.hi),
            Fraction(tws, t.tws[s.lo] as real, t.tws[s.hi] as real),
            Fraction(twa, t.twa[a.lo] as real, t.twa[a.hi] as real))
  {
    hide Interpolate, Fraction, Speed;
    var al, ah := t.twa[a.lo] as real, t.twa[a.hi] as real;
    var sl, sh := t.tws[s.lo] as real, t.tws[s.hi] as real;
    WholeSteps(t.tws, s);
    WholeSteps(t.twa, a);
    InterpolateIsMean(twa, al, ah, Speed(t, s.lo, a.lo), Speed(t, s.lo, a.hi));
    InterpolateIsMean(twa, al, ah, Speed(t, s.hi, a.lo), Speed(t, s.hi, a.hi));
    var low := Interpolate(twa, al, ah, Speed(t, s.lo, a.lo), Speed(t, s.lo, a.hi));
    var high := Interpolate(twa, al, ah, Speed(t, s.hi, a.lo), Speed(t, s.hi, a.hi));
    InterpolateIsMean(tws, sl, sh, low, high);
  }

  lemma MeanBetween(y: real, z: real, f: real, m: real, n: real)
    requires 0.0 <= f <= 1.0 && m <= y <= n && m <= z <= n
    ensures m <= (1.0 - f) * y + f * z <= n
  {
    MeanForm(y, z, f);
    StepBelow(y, z - y, f, n);
    StepAbove(y, z - y, f, m);
  }

  lemma StepBelow(y: real, d: real, f: real, n: real)
    requires 0.0 <= f <= 1.0 && y <= n && y + d <= n
    ensures y + d * f <= n
  {
    if d >= 0.0 {
      assert d * f <= d;
    } else {
      assert d * f <= 0.0;
    }
  }

  lemma StepAbove(y: real, d: real, f: real, m: real)
    requires 0.0 <= f <= 1.0 && m <= y && m <= y + d
    ensures m <= y + d * f
  {
    StepBelow(-y, -d, f, -m);
    assert (-d) * f == -(d * f);
  }

  /** The result lies between any bounds of the four corner speeds. */
  lemma LookupBetween(t: Table, s: Bracket, a: Bracket, tws: real, twa: real, m: real, n: real)
    requires OnTable(t, s, a)
    requires m <= Speed(t, s.lo, a.lo) <= n && m <= Speed(t, s.hi, a.lo) <= n
    requires m <= Speed(t, s.lo, a.hi) <= n && m <= Speed(t, s.hi, a.hi) <= n
    ensures METRES_PER_SECOND * m <= Lookup(t, s, a, tws, twa) <= METRES_PER_SECOND * n
  {
    hide Fraction, Speed, Lookup, Blend;
    LookupIsBilinear(t, s, a, tws, twa);
    var f := Fraction(tws, t.tws[s.lo] as real, t.tws[s.hi] as real);
    var g := Fraction(twa, t.twa[a.lo] as real, t.twa[a.hi] as real);
    FractionBounds(tws, t.tws[s.lo] as real, t.tws[s.hi] as real);
    FractionBounds(twa, t.twa[a.lo] as real, t.twa[a.hi] as real);
    BlendBetween(Speed(t, s.lo, a.lo), Speed(t, s.hi, a.lo), Speed(t, s.lo, a.hi), Speed(t, s.hi, a.hi), f, g, m, n);
  }

  lemma BlendBetween(y00: real, y10: real, y01: real, y11: real, f: real, g: real, m: real, n: real)
    requires 0.0 <= f <= 1.0 && 0.0 <= g <= 1.0
    requires m <= y00 <= n && m <= y10 <= n && m <= y01 <= n && m <= y11 <= n
    ensures m <= Blend(y00, y10, y01, y11, f, g) <= n
  {
    MeanBetween(y00, y01, g, m, n);
    MeanBetween(y10, y11, g, m, n);
    MeanBetween((1.0 - g) * y00 + g * y01, (1.0 - g) * y10 + g * y11, f, m, n);
  }

  /** The speed for a wind, by a fresh search on both axes. */
  ghost predicate PolarSpeed(t: Table, tws: real, twa: real, r: real) {
    exists s, a :: OnTable(t, s, a) && Brackets(t.tws, tws, s) && Brackets(t.twa, twa, a)
      && r == Lookup(t, s, a, tws, twa)
  }

  lemma FreshSpeed(t: Table, s: Bracket, a: Bracket, tws: real, twa: real, r: real)
    requires OnTable(t, s, a) && r == Lookup(t, s, a, tws, twa)
    ensures Brackets(t.tws, tws, s) && Brackets(t.twa, twa, a) ==> PolarSpeed(t, tws, twa, r)
  {
  }

  /** At a grid point it is the tabulated speed. */
  lemma ExactAtGridPoints(t: Table, i: nat, j: nat, r: real)
    requires t.Valid() && i < |t.tws| && j < |t.twa|
    requires PolarSpeed(t, t.tws[i] as real, t.twa[j] as real, r)
    ensures j * |t.tws| + i < |t.speeds| && r == 0.514444257 * (0.1 * t.speeds[j * |t.tws| + i] as real)
  {
    var tws, twa := t.tws[i] as real, t.twa[j] as real;
    var s, a :| OnTable(t, s, a) && Brackets(t.tws, tws, s) && Brackets(t.twa, twa, a)
      && r == Lookup(t, s, a, tws, twa);
    BracketAtPoint(t.tws, i, s);
    BracketAtPoint(t.twa, j, a);
    SpeedIndex(t, i, j);
  }

  lemma BracketAtPoint(a: seq<u8>, i: nat, b: Bracket)
    requires Increasing(a) && i < |a| && Brackets(a, a[i] as real, b)
    ensures b.lo == i
  {
    Ascending(a, b.hi, i);
    Ascending(a, i, b.lo);
  }

  /** Two cells that share an edge agree along it, on either axis. */
  lemma CellsAgree(t: Table, i: nat, a: Bracket, twa: real)
    requires t.Valid() && 0 < i < |t.tws| - 1 && OnTable(t, Bracket(i, i + 1), a)
    ensures var tws := t.tws[i] as real;
      Lookup(t, Bracket(i - 1, i), a, tws, twa) == Lookup(t, Bracket(i, i + 1), a, tws, twa)
  {
    hide Speed;
  }

  lemma CellsAgreeInAngle(t: Table, s: Bracket, j: nat, tws: real)
    requires t.Valid() && 0 < j < |t.twa| - 1 && OnTable(t, s, Bracket(j, j + 1))
    ensures var twa := t.twa[j] as real;
      Lookup(t, s, Bracket(j - 1, j), tws, twa) == Lookup(t, s, Bracket(j, j + 1), tws, twa)
  {
    hide Speed;
  }

  // ---------------------------------------------------------------------------
  // Remembered indices

  /** The last whole wind value looked up, and the indices found for it. */
  datatype Memory = Memory(key: u8, idx: Bracket)

  /** The indices were found by a search for the key. */
  ghost predicate Searched(a: seq<u8>, m: Memory) {
    Brackets(a, m.key as real, m.idx)
  }

  /** A new object: key zero and indices (0, 0), for which no search was made. */
  const UNSEARCHED := Memory(0, Bracket(0, 0))

  class Performance {
    const table: Table
    var tws: Memory
    var twa: Memory

    ghost predicate Valid()
      reads this
    {
      OnTable(table, tws.idx, twa.idx)
    }

    constructor (table: Table)
      requires table.Valid()
      ensures Valid() && this.table == table && tws == UNSEARCHED && twa == UNSEARCHED
    {
      this.table := table;
      tws, twa := UNSEARCHED, UNSEARCHED;
    }

    method UpdateTWSIdx(x: real)
      requires Valid() && 0.0 <= x < 256.0
      modifies this`tws
      ensures Valid() && tws.key == x.Floor
      ensures x.Floor == old(tws.key) ==> tws == old(tws)
      ensures x.Floor != old(tws.key) || Searched(table.tws, old(tws)) ==> Searched(table.tws, tws)
    {
      var v: u8 := x.Floor;
      if v != tws.key {
        var idx := FindIndexes(v, table.tws);
        tws := Memory(v, idx);
      }
    }

    method UpdateTWAIdx(x: real)
      requires Valid() && 0.0 <= x < 256.0
      modifies this`twa
      ensures Valid() && twa.key == x.Floor
      ensures x.Floor == old(twa.key) ==> twa == old(twa)
      ensures x.Floor != old(twa.key) || Searched(table.twa, old(twa)) ==> Searched(table.twa, twa)
    {
      var v: u8 := x.Floor;
      if v != twa.key {
        var idx := FindIndexes(v, table.twa);
        twa := Memory(v, idx);
      }
    }

    /** `calcPolarSpeed` in knots and degrees. Once the indices in use come from searches, the result is
        that of a fresh search. */
    method CalcPolarSpeed(twsv: real, twav: real) returns (stw: real)
      requires Valid() && 0.0 <= twsv < 256.0 && 0.0 <= twav < 256.0
      modifies this
      ensures Valid() && tws.key == twsv.Floor && twa.key == twav.Floor
      ensures stw == Lookup(table, tws.idx, twa.idx, twsv, twav)
      ensures twsv.Floor == old(tws.key) ==> tws == old(tws)
      ensures twav.Floor == old(twa.key) ==> twa == old(twa)
      ensures twsv.Floor != old(tws.key) || Searched(table.tws, old(tws)) ==> Searched(table.tws, tws)
      ensures twav.Floor != old(twa.key) || Searched(table.twa, old(twa)) ==> Searched(table.twa, twa)
      ensures Searched(table.tws, tws) && Searched(table.twa, twa) ==> PolarSpeed(table, twsv, twav, stw)
      ensures Known(table.tws, old(tws)) && Known(table.twa, old(twa)) ==>
        Known(table.tws, tws) && Known(table.twa, twa)
        && (PolarSpeed(table, twsv, twav, stw) <==> AgreesWith(table, old(tws), old(twa), twsv, twav))
    {
      hide Brackets, Agrees, PolarSpeed;
      UpdateTWSIdx(twsv);
      UpdateTWAIdx(twav);
      var al, ah := table.twa[twa.idx.lo] as real, table.twa[twa.idx.hi] as real;
      var sl, sh := table.tws[tws.idx.lo] as real, table.tws[tws.idx.hi] as real;
      var stwl := Interpolate(twav, al, ah, Speed(table, tws.idx.lo, twa.idx.lo), Speed(table, tws.idx.lo, twa.idx.hi));
      var stwh := Interpolate(twav, al, ah, Speed(table, tws.idx.hi, twa.idx.lo), Speed(table, tws.idx.hi, twa.idx.hi));
      stw := METRES_PER_SECOND * Interpolate(twsv, sl, sh, stwl, stwh);
      WholePartBrackets(table.tws, twsv, tws.idx);
      WholePartBrackets(table.twa, twav, twa.idx);
      FreshSpeed(table, tws.idx, twa.idx, twsv, twav, stw);
      if Known(table.tws, old(tws)) && Known(table.twa, old(twa)) {
        UnsearchedIff(table, old(tws), old(twa), tws.idx, twa.idx, twsv, twav, stw);
      }
    }
  }

  /** The speed in knots along one wind-speed column, and along one row. */
  ghost function Column(t: Table, i: nat, a: Bracket, twa: real): real
    requires t.Valid() && i < |t.tws| && a.lo <= a.hi < |t.twa|
  {
    Interpolate(twa, t.twa[a.lo] as real, t.twa[a.hi] as real, Speed(t, i, a.lo), Speed(t, i, a.hi))
  }

  ghost function Row(t: Table, j: nat, s: Bracket, tws: real): real
    requires t.Valid() && j < |t.twa| && s.lo <= s.hi < |t.tws|
  {
    Interpolate(tws, t.tws[s.lo] as real, t.tws[s.hi] as real, Speed(t, s.lo, j), Speed(t, s.hi, j))
  }

  /** In the cell of the wind, looking up with indices (0, 0) on an axis changes nothing: on the speed axis if the
      wind is on the cell's first column or the two columns agree at its angle; on the angle axis if it is on the
      first row or the two rows agree at its speed; on both, if the corners differ from the first by a mean of zero. */
  ghost predicate Agrees(t: Table, s: Bracket, a: Bracket, tws: real, twa: real, keptS: bool, keptA: bool)
    requires OnTable(t, s, a)
  {
    var f := Fraction(tws, t.tws[s.lo] as real, t.tws[s.hi] as real);
    var g := Fraction(twa, t.twa[a.lo] as real, t.twa[a.hi] as real);
    if keptS && keptA then
      (1.0 - f) * g * (Speed(t, s.lo, a.hi) - Speed(t, s.lo, a.lo))
      + f * (1.0 - g) * (Speed(t, s.hi, a.lo) - Speed(t, s.lo, a.lo))
      + f * g * (Speed(t, s.hi, a.hi) - Speed(t, s.lo, a.lo)) == 0.0
    else if keptS then f == 0.0 || Column(t, s.lo, a, twa) == Column(t, s.hi, a, twa)
    else if keptA then g == 0.0 || Row(t, a.lo, s, tws) == Row(t, a.hi, s, tws)
    else true
  }

  /** The remembered indices are kept, and no search found them. */
  ghost predicate KeptUnsearched(axis: seq<u8>, m: Memory, x: real) {
    m == UNSEARCHED && x.Floor == 0 && !Searched(axis, m)
  }

  /** The bracket an axis is looked up with. */
  function Used(kept: bool, b: Bracket): Bracket {
    if kept then UNSEARCHED.idx else b
  }

  lemma KeptAtZero(axis: seq<u8>, m: Memory, x: real, b: Bracket)
    requires Increasing(axis) && Brackets(axis, x, b) && KeptUnsearched(axis, m, x) && 0.0 <= x
    ensures b.lo == 0
  {
    assert forall i :: 0 < i < |axis| ==> axis[i] >= 1;
  }

  lemma MeansEqual(y: real, z: real, f: real)
    ensures (1.0 - f) * y + f * z == y <==> f == 0.0 || y == z
  {
    MeanForm(y, z, f);
    if (z - y) * f == 0.0 && f != 0.0 {
      ZeroFactor(z - y, f);
    }
  }

  lemma ZeroFactor(d: real, f: real)
    requires d * f == 0.0 && f != 0.0
    ensures d == 0.0
  {
  }

  lemma ScaledEqual(x: real, y: real)
    ensures METRES_PER_SECOND * x == METRES_PER_SECOND * y <==> x == y
  {
  }

  lemma AddedNothing(y: real, d: real)
    ensures METRES_PER_SECOND * y == METRES_PER_SECOND * (y + d) <==> d == 0.0
  {
  }

  /** The blend with its columns first, or its rows. */
  lemma BlendOfMeans(y00: real, y10: real, y01: real, y11: real, f: real, g: real)
    ensures Blend(y00, y10, y01, y11, f, g) == (1.0 - f) * ((1.0 - g) * y00 + g * y01) + f * ((1.0 - g) * y10 + g * y11)
    ensures Blend(y00, y10, y01, y11, f, g) == (1.0 - g) * ((1.0 - f) * y00 + f * y10) + g * ((1.0 - f) * y01 + f * y11)
    ensures Blend(y00, y10, y01, y11, f, g) ==
      y00 + ((1.0 - f) * g * (y01 - y00) + f * (1.0 - g) * (y10 - y00) + f * g * (y11 - y00))
  {
  }

  /** The lookup as a blend, with the corner speeds and the columns and rows of the cell named. */
  lemma CellSpeeds(t: Table, s: Bracket, a: Bracket, tws: real, twa: real)
    requires OnTable(t, s, a)
    ensures var f := Fraction(tws, t.tws[s.lo] as real, t.tws[s.hi] as real);
      var g := Fraction(twa, t.twa[a.lo] as real, t.twa[a.hi] as real);
      && Lookup(t, s, a, tws, twa) ==
           METRES_PER_SECOND * ((1.0 - f) * Column(t, s.lo, a, twa) + f * Column(t, s.hi, a, twa))
      && Lookup(t, s, a, tws, twa) == METRES_PER_SECOND * ((1.0 - g) * Row(t, a.lo, s, tws) + g * Row(t, a.hi, s, tws))
      && Lookup(t, s, a, tws, twa) == METRES_PER_SECOND * (Speed(t, s.lo, a.lo)
           + ((1.0 - f) * g * (Speed(t, s.lo, a.hi) - Speed(t, s.lo, a.lo))
              + f * (1.0 - g) * (Speed(t, s.hi, a.lo) - Speed(t, s.lo, a.lo))
              + f * g * (Speed(t, s.hi, a.hi) - Speed(t, s.lo, a.lo))))
  {
    hide Interpolate, Fraction, Speed, Lookup, Blend;
    var al, ah := t.twa[a.lo] as real, t.twa[a.hi] as real;
    var sl, sh := t.tws[s.lo] as real, t.tws[s.hi] as real;
    WholeSteps(t.tws, s);
    WholeSteps(t.twa, a);
    InterpolateIsMean(twa, al, ah, Speed(t, s.lo, a.lo), Speed(t, s.lo, a.hi));
    InterpolateIsMean(twa, al, ah, Speed(t, s.hi, a.lo), Speed(t, s.hi, a.hi));
    InterpolateIsMean(tws, sl, sh, Speed(t, s.lo, a.lo), Speed(t, s.hi, a.lo));
    InterpolateIsMean(tws, sl, sh, Speed(t, s.lo, a.hi), Speed(t, s.hi, a.hi));
    LookupIsBilinear(t, s, a, tws, twa);
    BlendOfMeans(Speed(t, s.lo, a.lo), Speed(t, s.hi, a.lo), Speed(t, s.lo, a.hi), Speed(t, s.hi, a.hi),
                 Fraction(tws, sl, sh), Fraction(twa, al, ah));
  }

  /** What the lookup gives on the first column, the first row, and their corner. */
  lemma KeptSpeeds(t: Table, s: Bracket, a: Bracket, tws: real, twa: real)
    requires OnTable(t, s, a) && tws >= 0.0 && twa >= 0.0
    ensures Lookup(t, Bracket(0, 0), a, tws, twa) == METRES_PER_SECOND * Column(t, 0, a, twa)
    ensures Lookup(t, s, Bracket(0, 0), tws, twa) == METRES_PER_SECOND * Row(t, 0, s, tws)
    ensures Lookup(t, Bracket(0, 0), Bracket(0, 0), tws, twa) == METRES_PER_SECOND * Speed(t, 0, 0)
  {
    hide Speed;
  }

  /** Looking up with kept, unsearched indices gives what a fresh search gives exactly when they agree. */
  lemma KeptAgreesIff(t: Table, s: Bracket, a: Bracket, tws: real, twa: real, keptS: bool, keptA: bool)
    requires OnTable(t, s, a) && tws >= 0.0 && twa >= 0.0 && (keptS ==> s.lo == 0) && (keptA ==> a.lo == 0)
    ensures Lookup(t, Used(keptS, s), Used(keptA, a), tws, twa) == Lookup(t, s, a, tws, twa)
      <==> Agrees(t, s, a, tws, twa, keptS, keptA)
  {
    hide Speed, Lookup, Column, Row, Fraction, Blend, Interpolate;
    KeptSpeeds(t, s, a, tws, twa);
    CellSpeeds(t, s, a, tws, twa);
    var f := Fraction(tws, t.tws[s.lo] as real, t.tws[s.hi] as real);
    var g := Fraction(twa, t.twa[a.lo] as real, t.twa[a.hi] as real);
    if keptS && keptA {
      var d := (1.0 - f) * g * (Speed(t, s.lo, a.hi) - Speed(t, s.lo, a.lo))
        + f * (1.0 - g) * (Speed(t, s.hi, a.lo) - Speed(t, s.lo, a.lo))
        + f * g * (Speed(t, s.hi, a.hi) - Speed(t, s.lo, a.lo));
      AddedNothing(Speed(t, 0, 0), d);
    } else if keptS {
      MeansEqual(Column(t, 0, a, twa), Column(t, s.hi, a, twa), f);
      ScaledEqual(Column(t, 0, a, twa), (1.0 - f) * Column(t, 0, a, twa) + f * Column(t, s.hi, a, twa));
    } else if keptA {
      MeansEqual(Row(t, 0, s, tws), Row(t, a.hi, s, tws), g);
      ScaledEqual(Row(t, 0, s, tws), (1.0 - g) * Row(t, 0, s, tws) + g * Row(t, a.hi, s, tws));
    }
  }

  /** In the cell of the wind, the indices kept for it agree with it. */
  ghost predicate AgreesWith(t: Table, ms: Memory, ma: Memory, tws: real, twa: real) {
    exists s, a :: OnTable(t, s, a) && Brackets(t.tws, tws, s) && Brackets(t.twa, twa, a)
      && Agrees(t, s, a, tws, twa, KeptUnsearched(t.tws, ms, tws), KeptUnsearched(t.twa, ma, twa))
  }

  /** The axis is remembered from a search, or not remembered at all. */
  ghost predicate Known(axis: seq<u8>, m: Memory) {
    m == UNSEARCHED || Searched(axis, m)
  }

  /** Whatever has been searched for so far on either axis, a lookup is right exactly when the indices it keeps
      agree. */
  lemma UnsearchedIff(t: Table, ms: Memory, ma: Memory, s: Bracket, a: Bracket, tws: real, twa: real, r: real)
    requires t.Valid() && tws >= 0.0 && twa >= 0.0 && OnTable(t, s, a)
    requires if KeptUnsearched(t.tws, ms, tws) then s == UNSEARCHED.idx else Brackets(t.tws, tws, s)
    requires if KeptUnsearched(t.twa, ma, twa) then a == UNSEARCHED.idx else Brackets(t.twa, twa, a)
    requires r == Lookup(t, s, a, tws, twa)
    ensures PolarSpeed(t, tws, twa, r) <==> AgreesWith(t, ms, ma, tws, twa)
  {
    hide Lookup, Agrees, Brackets, KeptUnsearched;
    forall s', a' | OnTable(t, s', a') && Brackets(t.tws, tws, s') && Brackets(t.twa, twa, a')
      ensures r == Lookup(t, s', a', tws, twa)
        <==> Agrees(t, s', a', tws, twa, KeptUnsearched(t.tws, ms, tws), KeptUnsearched(t.twa, ma, twa))
    {
      AxisUsed(t.tws, ms, tws, s, s');
      AxisUsed(t.twa, ma, twa, a, a');
      KeptAgreesIff(t, s', a', tws, twa, KeptUnsearched(t.tws, ms, tws), KeptUnsearched(t.twa, ma, twa));
    }
  }

  lemma AxisUsed(axis: seq<u8>, m: Memory, x: real, b: Bracket, found: Bracket)
    requires Increasing(axis) && x >= 0.0 && Brackets(axis, x, found)
    requires if KeptUnsearched(axis, m, x) then b == UNSEARCHED.idx else Brackets(axis, x, b)
    ensures b == Used(KeptUnsearched(axis, m, x), found)
    ensures KeptUnsearched(axis, m, x) ==> found.lo == 0
  {
    if KeptUnsearched(axis, m, x) {
      KeptAtZero(axis, m, x, found);
    } else {
      BracketUnique(axis, x, b, found);
    }
  }
}
