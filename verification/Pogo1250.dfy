/** The table the firmware carries: the polar of a Pogo 1250. */
module Pogo1250 {
  import opened Bytes
  import opened Polar

  const TWS: seq<u8> := [0, 4, 6, 8, 10, 12, 14, 16, 20, 25, 30, 35, 40, 45, 50, 55, 60]

  const TWA: seq<u8> := [
    0, 5, 10, 15, 20, 25, 32, 36, 40, 45, 52, 60, 70, 80, 90, 100, 110, 120, 130, 140, 150, 160, 170, 180
  ]

  const ROWS: seq<seq<u8>> := [
    [0, 0, 0, 0, 0, 0, 0, 0, 0, 0, 0, 0, 0, 0, 0, 0, 0],
    [0, 4, 6, 8, 9, 10, 10, 10, 11, 11, 11, 11, 1, 1, 1, 0, 0],
    [0, 8, 12, 16, 18, 20, 20, 21, 21, 22, 22, 22, 5, 2, 2, 0, 0],
    [0, 12, 18, 24, 27, 29, 30, 31, 32, 33, 33, 33, 12, 5, 3, 0, 0],
    [0, 14, 21, 27, 31, 34, 35, 36, 36, 37, 38, 37, 17, 7, 4, 0, 0],
    [0, 17, 25, 32, 37, 40, 41, 43, 43, 44, 45, 44, 26, 11, 4, 0, 0],
    [0, 28, 42, 54, 62, 67, 69, 71, 72, 74, 75, 74, 56, 22, 7, 0, 0],
    [0, 31, 47, 59, 67, 70, 72, 74, 76, 78, 79, 79, 65, 26, 8, 0, 0],
    [0, 35, 51, 63, 70, 73, 75, 77, 79, 81, 82, 83, 74, 29, 12, 0, 0],
    [0, 38, 56, 67, 73, 76, 78, 80, 82, 84, 85, 86, 82, 30, 13, 0, 0],
    [0, 42, 60, 70, 77, 80, 82, 83, 86, 89, 90, 91, 89, 32, 14, 0, 0],
    [0, 46, 63, 73, 80, 83, 85, 87, 90, 93, 95, 96, 96, 38, 19, 0, 0],
    [0, 48, 66, 75, 82, 86, 89, 91, 95, 98, 101, 104, 104, 42, 21, 0, 0],
    [0, 50, 69, 79, 83, 88, 92, 94, 99, 104, 109, 113, 113, 45, 23, 0, 0],
    [0, 53, 71, 81, 86, 89, 93, 97, 104, 111, 118, 125, 125, 56, 31, 6, 6],
    [0, 54, 71, 82, 88, 92, 95, 99, 109, 119, 128, 141, 141, 71, 42, 7, 7],
    [0, 53, 70, 81, 88, 94, 98, 103, 112, 127, 143, 150, 150, 83, 53, 15, 15],
    [0, 50, 68, 78, 86, 94, 100, 106, 118, 132, 149, 157, 157, 94, 63, 16, 16],
    [0, 45, 63, 74, 83, 90, 98, 106, 123, 144, 156, 166, 166, 108, 75, 25, 25],
    [0, 38, 56, 69, 78, 85, 92, 100, 122, 150, 163, 176, 176, 132, 97, 35, 26],
    [0, 32, 48, 61, 71, 79, 86, 93, 109, 144, 168, 186, 186, 149, 112, 37, 37],
    [0, 27, 41, 53, 64, 73, 80, 87, 100, 124, 154, 179, 179, 152, 116, 45, 36],
    [0, 24, 36, 48, 59, 68, 76, 82, 94, 114, 143, 166, 166, 158, 125, 50, 42],
    [0, 22, 33, 44, 55, 64, 72, 79, 90, 106, 128, 154, 154, 154, 123, 46, 39]
  ]

  /** The rows as the source stores them, one after the other. */
  function Flatten(rows: seq<seq<u8>>): seq<u8> {
    if rows == [] then [] else rows[0] + Flatten(rows[1..])
  }

  lemma {:induction false} FlattenSize(rows: seq<seq<u8>>)
    requires forall j :: 0 <= j < |rows| ==> |rows[j]| == 17
    ensures |Flatten(rows)| == 17 * |rows|
  {
    if rows != [] {
      FlattenSize(rows[1..]);
    }
  }

  lemma {:induction false} FlattenAt(rows: seq<seq<u8>>, j: nat, i: nat)
    requires forall j :: 0 <= j < |rows| ==> |rows[j]| == 17
    requires j < |rows| && i < 17
    ensures |Flatten(rows)| == 17 * |rows| && Flatten(rows)[j * 17 + i] == rows[j][i]
  {
    FlattenSize(rows);
    FlattenSize(rows[1..]);
    if j > 0 {
      FlattenAt(rows[1..], j - 1, i);
      assert Flatten(rows)[j * 17 + i] == Flatten(rows[1..])[(j - 1) * 17 + i];
    }
  }

  const POGO := Table(TWS, TWA, Flatten(ROWS))

  lemma {:induction false} StepsAscend(a: seq<u8>, i: nat, j: nat)
    requires forall k :: 0 <= k < |a| - 1 ==> a[k] < a[k + 1]
    requires i < j < |a|
    ensures a[i] < a[j]
    decreases j
  {
    if i + 1 < j {
      StepsAscend(a, i, j - 1);
    }
    assert a[j - 1] < a[j - 1 + 1];
  }

  lemma AllStepsAscend(a: seq<u8>)
    requires forall k :: 0 <= k < |a| - 1 ==> a[k] < a[k + 1]
    ensures Ascends(a)
  {
    forall i, j | 0 <= i < j < |a|
      ensures a[i] < a[j]
    {
      StepsAscend(a, i, j);
    }
  }

  /** It meets what the lookup needs of a table. */
  lemma PogoValid()
    ensures POGO.Valid()
  {
    hide Ascends, Flatten;
    AllStepsAscend(TWS);
    AllStepsAscend(TWA);
    FlattenSize(ROWS);
  }

  // ---------------------------------------------------------------------------
  // A new object on this table, whose indices (0, 0) no search has found

  lemma RowsWhole()
    ensures |ROWS| == 24 && forall j :: 0 <= j < 24 ==> |ROWS[j]| == 17
  {
  }

  lemma FirstRow(i: nat)
    requires i < 17
    ensures ROWS[0][i] == 0
  {
  }

  lemma SecondRow(i: nat)
    requires i < 17
    ensures ROWS[1][i] == 0 <==> i == 0 || i >= 15
  {
  }

  lemma FirstColumn(j: nat)
    requires j < 24
    ensures |ROWS[j]| == 17 && ROWS[j][0] == 0
  {
  }

  lemma SecondColumn(j: nat)
    requires j < 24
    ensures |ROWS[j]| == 17 && (ROWS[j][1] == 0 <==> j == 0)
  {
  }

  /** The speed of an entry is zero exactly when the entry is. */
  lemma SpeedZeroIff(i: nat, j: nat)
    requires i < 17 && j < 24
    ensures POGO.Valid() && |POGO.tws| == 17 && |POGO.twa| == 24
    ensures |ROWS[j]| == 17 && Speed(POGO, i, j) == 0.1 * ROWS[j][i] as real
  {
    hide Flatten, Ascends;
    PogoValid();
    RowsWhole();
    FlattenAt(ROWS, j, i);
  }

  lemma InterpolateZeroIff(x: real, xl: real, xh: real, yl: real, yh: real)
    requires yl >= 0.0 && yh >= 0.0 && xl <= x && (xh - xl >= 0.0001 || xh <= xl)
    ensures Interpolate(x, xl, xh, yl, yh) == 0.0 <==>
      if x >= xh then yh == 0.0 else if x == xl then yl == 0.0 else yl == 0.0 && yh == 0.0
  {
    if xl < x < xh {
      var f := (x - xl) / (xh - xl);
      assert x - xl == f * (xh - xl);
      FractionInside(x - xl, xh - xl, f);
      PositiveMean(yl, yh, f);
    }
  }

  lemma FractionInside(d: real, w: real, f: real)
    requires 0.0 < d < w && d == f * w
    ensures 0.0 < f < 1.0
  {
    if f <= 0.0 {
      NotMore(-f, w);
    }
    if f >= 1.0 {
      NotMore(f - 1.0, w);
    }
  }

  lemma NotMore(e: real, w: real)
    requires e >= 0.0 && w > 0.0
    ensures e * w >= 0.0
  {
  }

  lemma PositiveMean(yl: real, yh: real, f: real)
    requires yl >= 0.0 && yh >= 0.0 && 0.0 < f < 1.0
    ensures yl + (yh - yl) * f == 0.0 <==> yl == 0.0 && yh == 0.0
  {
    MeanForm(yl, yh, f);
    ProductSign(yl, 1.0 - f);
    ProductSign(yh, f);
  }

  lemma ProductSign(y: real, f: real)
    requires y >= 0.0 && f > 0.0
    ensures f * y >= 0.0 && (f * y == 0.0 <==> y == 0.0)
  {
  }

  /** The wind speed and angle of a wind with which a new object looks up the right speed. */
  predicate RightAtFirst(tws: real, twa: real) {
    if tws < 1.0 then tws == 0.0 || twa == 0.0
    else twa == 0.0 || twa >= 1.0 || tws >= 55.0
  }

  lemma FirstCellOfSpeed(tws: real, s: Bracket)
    requires 0.0 <= tws && Brackets(TWS, tws, s)
    ensures tws < 1.0 ==> s == Bracket(0, 1)
    ensures KeptUnsearched(TWS, UNSEARCHED, tws) <==> tws < 1.0
    ensures tws >= 55.0 <==> s.lo >= 15
    ensures s.hi == s.lo + 1 || s.lo == s.hi == 16
  {
    hide Ascends, Brackets, KeptUnsearched, Flatten;
    PogoValid();
    SpeedAxis(1, 15);
    FirstCell(TWS, tws, s);
    CellFrom(TWS, tws, s, 15);
  }

  lemma FirstCell(axis: seq<u8>, x: real, b: Bracket)
    requires Increasing(axis) && |axis| > 1 && 0.0 <= x && Brackets(axis, x, b)
    ensures x < 1.0 ==> b == Bracket(0, 1)
    ensures KeptUnsearched(axis, UNSEARCHED, x) <==> x < 1.0
    ensures b.hi == b.lo + 1 || b.lo == b.hi == |axis| - 1
  {
    CellFrom(axis, x, b, 1);
  }

  lemma SpeedAxis(i: nat, j: nat)
    requires i == 1 && j == 15
    ensures |TWS| == 17 && TWS[i] == 4 && TWS[j] == 55
  {
  }

  /** A value is at or above an axis value exactly when its cell is. */
  lemma CellFrom(axis: seq<u8>, x: real, b: Bracket, k: nat)
    requires Increasing(axis) && k < |axis|
    ensures Brackets(axis, x, b) ==> (x >= axis[k] as real <==> b.lo >= k)
    ensures Brackets(axis, x, b) ==> b.hi < |axis| && (b.hi == b.lo + 1 || b.lo == b.hi == |axis| - 1)
  {
    if Brackets(axis, x, b) {
      if b.lo >= k {
        Ascending(axis, k, b.lo);
      } else {
        Ascending(axis, b.hi, k);
      }
    }
  }

  lemma FirstCellOfAngle(twa: real, a: Bracket)
    requires 0.0 <= twa && Brackets(TWA, twa, a)
    ensures twa < 1.0 ==> a == Bracket(0, 1)
    ensures KeptUnsearched(TWA, UNSEARCHED, twa) <==> twa < 1.0
    ensures a.hi == a.lo + 1 || a.lo == a.hi == 23
  {
  }

  /** With the wind-speed indices kept, the first column's zero speed is right only in no wind. */
  lemma ColumnsDiffer(a: Bracket, twa: real)
    requires twa >= 1.0 && Brackets(TWA, twa, a)
    ensures POGO.Valid() && a.lo <= a.hi < 24 && Column(POGO, 0, a, twa) == 0.0 < Column(POGO, 1, a, twa)
  {
    hide Flatten, Speed, Interpolate, Ascends;
    PogoValid();
    FirstCellOfAngle(twa, a);
    SpeedZeroIff(0, a.lo);
    SpeedZeroIff(0, a.hi);
    SpeedZeroIff(1, a.lo);
    SpeedZeroIff(1, a.hi);
    FirstColumn(a.lo);
    FirstColumn(a.hi);
    SecondColumn(a.lo);
    SecondColumn(a.hi);
    WholeSteps(TWA, a);
    InterpolateZeroIff(twa, TWA[a.lo] as real, TWA[a.hi] as real, Speed(POGO, 0, a.lo), Speed(POGO, 0, a.hi));
    InterpolateZeroIff(twa, TWA[a.lo] as real, TWA[a.hi] as real, Speed(POGO, 1, a.lo), Speed(POGO, 1, a.hi));
    InterpolateNotNegative(twa, TWA[a.lo] as real, TWA[a.hi] as real, Speed(POGO, 1, a.lo), Speed(POGO, 1, a.hi));
  }

  lemma InterpolateNotNegative(x: real, xl: real, xh: real, yl: real, yh: real)
    requires yl >= 0.0 && yh >= 0.0 && (xh - xl >= 0.0001 || xh <= xl)
    ensures Interpolate(x, xl, xh, yl, yh) >= 0.0
  {
    hide Interpolate, Fraction;
    InterpolateIsMean(x, xl, xh, yl, yh);
    FractionBounds(x, xl, xh);
    MeanBetween(yl, yh, Fraction(x, xl, xh), 0.0, if yl <= yh then yh else yl);
  }

  /** With the angle indices kept, the first row's zero speed is right only where the next row is zero too. */
  lemma RowsDiffer(s: Bracket, tws: real)
    requires tws >= 1.0 && Brackets(TWS, tws, s)
    ensures POGO.Valid() && s.lo <= s.hi < 17 && Row(POGO, 0, s, tws) == 0.0
    ensures Row(POGO, 1, s, tws) == 0.0 <==> tws >= 55.0
  {
    hide Flatten, Speed, Interpolate, Ascends;
    PogoValid();
    FirstCellOfSpeed(tws, s);
    SpeedZeroIff(s.lo, 0);
    SpeedZeroIff(s.hi, 0);
    SpeedZeroIff(s.lo, 1);
    SpeedZeroIff(s.hi, 1);
    FirstRow(s.lo);
    FirstRow(s.hi);
    SecondRow(s.lo);
    SecondRow(s.hi);
    WholeSteps(TWS, s);
    InterpolateZeroIff(tws, TWS[s.lo] as real, TWS[s.hi] as real, Speed(POGO, s.lo, 0), Speed(POGO, s.hi, 0));
    InterpolateZeroIff(tws, TWS[s.lo] as real, TWS[s.hi] as real, Speed(POGO, s.lo, 1), Speed(POGO, s.hi, 1));
  }

  lemma ProductsZero(f: real, g: real, y: real)
    requires y > 0.0
    ensures (1.0 - f) * g * (0.0 - 0.0) + f * (1.0 - g) * (0.0 - 0.0) + f * g * (y - 0.0) == 0.0
      <==> f == 0.0 || g == 0.0
  {
    if f != 0.0 && g != 0.0 && f * g * y == 0.0 {
      ZeroFactor(f * g, y);
      ZeroFactor(f, g);
    }
  }

  lemma NewObjectAgreesIff(s: Bracket, a: Bracket, tws: real, twa: real)
    requires tws >= 0.0 && twa >= 0.0 && OnTable(POGO, s, a) && Brackets(TWS, tws, s) && Brackets(TWA, twa, a)
    ensures Agrees(POGO, s, a, tws, twa, KeptUnsearched(TWS, UNSEARCHED, tws), KeptUnsearched(TWA, UNSEARCHED, twa))
      <==> RightAtFirst(tws, twa)
  {
    hide Flatten, Speed, Column, Row, Brackets, KeptUnsearched;
    FirstCellOfSpeed(tws, s);
    FirstCellOfAngle(twa, a);
    if tws < 1.0 && twa < 1.0 {
      SpeedZeroIff(0, 0);
      SpeedZeroIff(1, 0);
      SpeedZeroIff(0, 1);
      SpeedZeroIff(1, 1);
      ProductsZero(Fraction(tws, 0.0, 4.0), Fraction(twa, 0.0, 5.0), Speed(POGO, 1, 1));
    } else if tws < 1.0 {
      ColumnsDiffer(a, twa);
    } else if twa < 1.0 {
      RowsDiffer(s, tws);
    }
  }

  /** A new object looks up the speed of a wind rightly exactly in no wind, dead into it, or from one knot on at one
      degree or more, or in 55 knots or more. */
  lemma NewObjectRightIff(s: Bracket, a: Bracket, tws: real, twa: real)
    requires tws >= 0.0 && twa >= 0.0 && Brackets(TWS, tws, s) && Brackets(TWA, twa, a)
    ensures AgreesWith(POGO, UNSEARCHED, UNSEARCHED, tws, twa) <==> RightAtFirst(tws, twa)
  {
    hide Flatten, Agrees, KeptUnsearched, Increasing;
    PogoValid();
    assert OnTable(POGO, s, a);
    forall s', a' | OnTable(POGO, s', a') && Brackets(TWS, tws, s') && Brackets(TWA, twa, a')
      ensures Agrees(POGO, s', a', tws, twa, KeptUnsearched(TWS, UNSEARCHED, tws), KeptUnsearched(TWA, UNSEARCHED, twa))
        <==> RightAtFirst(tws, twa)
    {
      NewObjectAgreesIff(s', a', tws, twa);
    }
  }

  ghost predicate LooksUp(s: Bracket, a: Bracket, tws: real, twa: real, r: real) {
    OnTable(POGO, s, a) && r == Lookup(POGO, s, a, tws, twa)
  }

  /** It happens: in four knots and half a degree off the wind the first lookup gives no speed, where a search gives
      four hundredths of a knot. */
  lemma HalfADegreeOff()
    ensures !AgreesWith(POGO, UNSEARCHED, UNSEARCHED, 4.0, 0.5)
    ensures Brackets(TWS, 4.0, Bracket(1, 2)) && Brackets(TWA, 0.5, Bracket(0, 1))
    ensures LooksUp(Bracket(1, 2), UNSEARCHED.idx, 4.0, 0.5, 0.0)
    ensures LooksUp(Bracket(1, 2), Bracket(0, 1), 4.0, 0.5, METRES_PER_SECOND * 0.04)
  {
    hide Flatten, Speed, Ascends;
    PogoValid();
    assert TWS[1] == 4 && TWS[2] == 6 && TWA[0] == 0 && TWA[1] == 5;
    NewObjectRightIff(Bracket(1, 2), Bracket(0, 1), 4.0, 0.5);
    SpeedZeroIff(1, 0);
    SpeedZeroIff(2, 0);
    SpeedZeroIff(1, 1);
    SpeedZeroIff(2, 1);
  }
}
