// What the point functions are, without their own terms: the lattice's values at its points, straight
// lines between them, an ease curve, and octaves that repeat the first one on a finer lattice
// (src/noise.cpp:39, 190-363, 677-680).

module NoiseLaws {
  import opened NoisePoints

  // ---- between lattice points

  lemma AtPoint2(l: Lattice, i: int, j: int, seed: int, eased: bool)
    ensures Noise2dValue(l, i as real, j as real, seed, eased) == l.at2(i, j, seed)
  {
    hide EaseCurve;
    EaseEnds();
    Noise2dAtFloor(l, i as real, j as real, seed, eased);
  }

  lemma AtPoint3(l: Lattice, i: int, j: int, k: int, seed: int, eased: bool)
    ensures Noise3dValue(l, i as real, j as real, k as real, seed, eased) == l.at3(i, j, k, seed)
  {
    hide EaseCurve;
    EaseEnds();
    Noise3dAtFloor(l, i as real, j as real, k as real, seed, eased);
  }

  // The part t of the way from a to b.
  function Along(a: real, b: real, t: real): real {
    a * (1.0 - t) + b * t
  }

  lemma LinearAlong(v0: real, v1: real, t: real)
    ensures Linear(v0, v1, t) == Along(v0, v1, t)
  {
  }

  lemma AlongEnds(a: real, b: real, u: real, w: real, t: real)
    ensures Along(a, b, Along(u, w, t)) == Along(Along(a, b, u), Along(a, b, w), t)
  {
  }

  lemma AlongSides(a: real, b: real, c: real, d: real, v: real, t: real)
    ensures Along(Along(a, b, t), Along(c, d, t), v) == Along(Along(a, c, v), Along(b, d, v), t)
  {
  }

  lemma NotNegative(a: real, b: real)
    requires a >= 0.0 && b >= 0.0
    ensures a * b >= 0.0
  {
  }

  lemma AlongInside(i: real, a: real, b: real, t: real)
    requires i <= a <= i + 1.0 && i <= b <= i + 1.0 && 0.0 <= t <= 1.0
    ensures i <= Along(a, b, t) <= i + 1.0 && Along(a, b, t) - i == Along(a - i, b - i, t)
  {
    NotNegative(a - i, 1.0 - t);
    NotNegative(b - i, t);
    NotNegative(i + 1.0 - a, 1.0 - t);
    NotNegative(i + 1.0 - b, t);
    assert Along(a, b, t) - i == Along(a - i, b - i, t);
    assert i + 1.0 - Along(a, b, t) == (i + 1.0 - a) * (1.0 - t) + (i + 1.0 - b) * t;
  }

  // The square with straight lines between its sides.
  lemma CellIsAlong2(l: Lattice, i: int, j: int, u: real, v: real, seed: int)
    ensures Cell2(l, i, j, u, v, seed, false)
      == Along(Along(l.at2(i, j, seed), l.at2(i + 1, j, seed), u),
               Along(l.at2(i, j + 1, seed), l.at2(i + 1, j + 1, seed), u), v)
  {
    hide Linear, Along;
    forall a, b, t
      ensures Linear(a, b, t) == Along(a, b, t)
    {
      LinearAlong(a, b, t);
    }
  }

  lemma CellStraight2(l: Lattice, i: int, j: int, u: real, w: real, v: real, t: real, seed: int)
    ensures Cell2(l, i, j, Along(u, w, t), v, seed, false)
      == Along(Cell2(l, i, j, u, v, seed, false), Cell2(l, i, j, w, v, seed, false), t)
    ensures Cell2(l, i, j, v, Along(u, w, t), seed, false)
      == Along(Cell2(l, i, j, v, u, seed, false), Cell2(l, i, j, v, w, seed, false), t)
  {
    hide Along, Cell2;
    var a, b, c, d := l.at2(i, j, seed), l.at2(i + 1, j, seed), l.at2(i, j + 1, seed), l.at2(i + 1, j + 1, seed);
    CellIsAlong2(l, i, j, Along(u, w, t), v, seed);
    CellIsAlong2(l, i, j, u, v, seed);
    CellIsAlong2(l, i, j, w, v, seed);
    AlongEnds(a, b, u, w, t);
    AlongEnds(c, d, u, w, t);
    AlongSides(Along(a, b, u), Along(a, b, w), Along(c, d, u), Along(c, d, w), v, t);
    CellIsAlong2(l, i, j, v, Along(u, w, t), seed);
    CellIsAlong2(l, i, j, v, u, seed);
    CellIsAlong2(l, i, j, v, w, seed);
    AlongEnds(Along(a, b, v), Along(c, d, v), u, w, t);
  }

  lemma FloorBetween(i: int, x: real)
    requires i as real <= x <= i as real + 1.0
    ensures x < i as real + 1.0 ==> x.Floor == i
    ensures x == i as real + 1.0 ==> x.Floor == i + 1
  {
  }

  // The value in the cell of the floor, or in the one before on its upper edge.
  lemma InCell2(l: Lattice, i: int, j: int, x: real, y: real, seed: int)
    requires i as real <= x <= i as real + 1.0 && j as real <= y <= j as real + 1.0
    ensures Noise2dValue(l, x, y, seed, false) == Cell2(l, i, j, x - i as real, y - j as real, seed, false)
  {
    hide Cell2, Noise2dValue;
    Noise2dAtFloor(l, x, y, seed, false);
    FloorBetween(i, x);
    FloorBetween(j, y);
    if x == i as real + 1.0 {
      Cell2Edge(l, i + 1, y.Floor, y - y.Floor as real, seed, false);
    }
    if y == j as real + 1.0 {
      Cell2Edge(l, i, j + 1, x - i as real, seed, false);
    }
  }

  // Without easing the values along a line in one coordinate, inside a cell, are those between its
  // ends; with t = 1/2 the mean.
  lemma StraightX2(l: Lattice, i: int, j: int, a: real, b: real, y: real, t: real, seed: int)
    requires i as real <= a <= i as real + 1.0 && i as real <= b <= i as real + 1.0
    requires j as real <= y <= j as real + 1.0 && 0.0 <= t <= 1.0
    ensures Noise2dValue(l, a * (1.0 - t) + b * t, y, seed, false)
      == Noise2dValue(l, a, y, seed, false) * (1.0 - t) + Noise2dValue(l, b, y, seed, false) * t
  {
    hide Noise2dValue, Cell2;
    var x := i as real;
    assert a * (1.0 - t) + b * t == Along(a, b, t);
    AlongInside(x, a, b, t);
    InCell2(l, i, j, a, y, seed);
    InCell2(l, i, j, b, y, seed);
    InCell2(l, i, j, Along(a, b, t), y, seed);
    CellStraight2(l, i, j, a - x, b - x, y - j as real, t, seed);
  }

  lemma StraightY2(l: Lattice, i: int, j: int, x: real, a: real, b: real, t: real, seed: int)
    requires j as real <= a <= j as real + 1.0 && j as real <= b <= j as real + 1.0
    requires i as real <= x <= i as real + 1.0 && 0.0 <= t <= 1.0
    ensures Noise2dValue(l, x, a * (1.0 - t) + b * t, seed, false)
      == Noise2dValue(l, x, a, seed, false) * (1.0 - t) + Noise2dValue(l, x, b, seed, false) * t
  {
    hide Noise2dValue, Cell2;
    var y := j as real;
    assert a * (1.0 - t) + b * t == Along(a, b, t);
    AlongInside(y, a, b, t);
    InCell2(l, i, j, x, a, seed);
    InCell2(l, i, j, x, b, seed);
    InCell2(l, i, j, x, Along(a, b, t), seed);
    CellStraight2(l, i, j, a - y, b - y, x - i as real, t, seed);
  }

  // ---- the same in three dimensions

  // One side of a cube, without easing.
  function Side3(l: Lattice, i: int, j: int, k: int, u: real, v: real, seed: int): real {
    Along(Along(l.at3(i, j, k, seed), l.at3(i + 1, j, k, seed), u),
          Along(l.at3(i, j + 1, k, seed), l.at3(i + 1, j + 1, k, seed), u), v)
  }

  lemma CellIsAlong3(l: Lattice, i: int, j: int, k: int, u: real, v: real, w: real, seed: int)
    ensures Cell3(l, i, j, k, u, v, w, seed, false)
      == Along(Side3(l, i, j, k, u, v, seed), Side3(l, i, j, k + 1, u, v, seed), w)
  {
    hide Linear, Along;
    forall a, b, t
      ensures Linear(a, b, t) == Along(a, b, t)
    {
      LinearAlong(a, b, t);
    }
  }

  lemma SideStraight3(l: Lattice, i: int, j: int, k: int, a: real, b: real, v: real, t: real, seed: int)
    ensures Side3(l, i, j, k, Along(a, b, t), v, seed)
      == Along(Side3(l, i, j, k, a, v, seed), Side3(l, i, j, k, b, v, seed), t)
    ensures Side3(l, i, j, k, v, Along(a, b, t), seed)
      == Along(Side3(l, i, j, k, v, a, seed), Side3(l, i, j, k, v, b, seed), t)
  {
    hide Along;
    var p, q := l.at3(i, j, k, seed), l.at3(i + 1, j, k, seed);
    var r, s := l.at3(i, j + 1, k, seed), l.at3(i + 1, j + 1, k, seed);
    AlongEnds(p, q, a, b, t);
    AlongEnds(r, s, a, b, t);
    AlongSides(Along(p, q, a), Along(p, q, b), Along(r, s, a), Along(r, s, b), v, t);
    AlongEnds(Along(p, q, v), Along(r, s, v), a, b, t);
  }

  // Along each of the three edges of a cube.
  lemma CellStraight3(l: Lattice, i: int, j: int, k: int, a: real, b: real, v: real, w: real, t: real, seed: int)
    ensures Cell3(l, i, j, k, Along(a, b, t), v, w, seed, false)
      == Along(Cell3(l, i, j, k, a, v, w, seed, false), Cell3(l, i, j, k, b, v, w, seed, false), t)
    ensures Cell3(l, i, j, k, v, Along(a, b, t), w, seed, false)
      == Along(Cell3(l, i, j, k, v, a, w, seed, false), Cell3(l, i, j, k, v, b, w, seed, false), t)
    ensures Cell3(l, i, j, k, v, w, Along(a, b, t), seed, false)
      == Along(Cell3(l, i, j, k, v, w, a, seed, false), Cell3(l, i, j, k, v, w, b, seed, false), t)
  {
    hide Along, Cell3, Side3;
    forall x, y, z
      ensures Cell3(l, i, j, k, x, y, z, seed, false)
        == Along(Side3(l, i, j, k, x, y, seed), Side3(l, i, j, k + 1, x, y, seed), z)
    {
      CellIsAlong3(l, i, j, k, x, y, z, seed);
    }
    SideStraight3(l, i, j, k, a, b, v, t, seed);
    SideStraight3(l, i, j, k + 1, a, b, v, t, seed);
    AlongSides(Side3(l, i, j, k, a, v, seed), Side3(l, i, j, k, b, v, seed), Side3(l, i, j, k + 1, a, v, seed),
               Side3(l, i, j, k + 1, b, v, seed), w, t);
    AlongSides(Side3(l, i, j, k, v, a, seed), Side3(l, i, j, k, v, b, seed), Side3(l, i, j, k + 1, v, a, seed),
               Side3(l, i, j, k + 1, v, b, seed), w, t);
    AlongEnds(Side3(l, i, j, k, v, w, seed), Side3(l, i, j, k + 1, v, w, seed), a, b, t);
  }

  predicate Inside(i: int, x: real) {
    i as real <= x <= i as real + 1.0
  }

  lemma InCell3(l: Lattice, i: int, j: int, k: int, x: real, y: real, z: real, seed: int)
    requires Inside(i, x) && Inside(j, y) && Inside(k, z)
    ensures Noise3dValue(l, x, y, z, seed, false)
      == Cell3(l, i, j, k, x - i as real, y - j as real, z - k as real, seed, false)
  {
    hide Cell3, Noise3dValue;
    Noise3dAtFloor(l, x, y, z, seed, false);
    FloorBetween(i, x);
    FloorBetween(j, y);
    FloorBetween(k, z);
    if x == i as real + 1.0 {
      Cell3Edge(l, i + 1, y.Floor, z.Floor, y - y.Floor as real, z - z.Floor as real, seed, false);
    }
    if y == j as real + 1.0 {
      Cell3Edge(l, i, j + 1, z.Floor, x - i as real, z - z.Floor as real, seed, false);
    }
    if z == k as real + 1.0 {
      Cell3Edge(l, i, j, k + 1, x - i as real, y - j as real, seed, false);
    }
  }

  lemma StraightX3(l: Lattice, i: int, j: int, k: int, a: real, b: real, y: real, z: real, t: real, seed: int)
    requires Inside(i, a) && Inside(i, b) && Inside(j, y) && Inside(k, z) && 0.0 <= t <= 1.0
    ensures Noise3dValue(l, a * (1.0 - t) + b * t, y, z, seed, false)
      == Noise3dValue(l, a, y, z, seed, false) * (1.0 - t) + Noise3dValue(l, b, y, z, seed, false) * t
  {
    hide Noise3dValue, Cell3;
    var x := i as real;
    assert a * (1.0 - t) + b * t == Along(a, b, t);
    AlongInside(x, a, b, t);
    InCell3(l, i, j, k, a, y, z, seed);
    InCell3(l, i, j, k, b, y, z, seed);
    InCell3(l, i, j, k, Along(a, b, t), y, z, seed);
    CellStraight3(l, i, j, k, a - x, b - x, y - j as real, z - k as real, t, seed);
  }

  lemma StraightY3(l: Lattice, i: int, j: int, k: int, x: real, a: real, b: real, z: real, t: real, seed: int)
    requires Inside(i, x) && Inside(j, a) && Inside(j, b) && Inside(k, z) && 0.0 <= t <= 1.0
    ensures Noise3dValue(l, x, a * (1.0 - t) + b * t, z, seed, false)
      == Noise3dValue(l, x, a, z, seed, false) * (1.0 - t) + Noise3dValue(l, x, b, z, seed, false) * t
  {
    hide Noise3dValue, Cell3;
    var y := j as real;
    assert a * (1.0 - t) + b * t == Along(a, b, t);
    AlongInside(y, a, b, t);
    InCell3(l, i, j, k, x, a, z, seed);
    InCell3(l, i, j, k, x, b, z, seed);
    InCell3(l, i, j, k, x, Along(a, b, t), z, seed);
    CellStraight3(l, i, j, k, a - y, b - y, x - i as real, z - k as real, t, seed);
  }

  lemma StraightZ3(l: Lattice, i: int, j: int, k: int, x: real, y: real, a: real, b: real, t: real, seed: int)
    requires Inside(i, x) && Inside(j, y) && Inside(k, a) && Inside(k, b) && 0.0 <= t <= 1.0
    ensures Noise3dValue(l, x, y, a * (1.0 - t) + b * t, seed, false)
      == Noise3dValue(l, x, y, a, seed, false) * (1.0 - t) + Noise3dValue(l, x, y, b, seed, false) * t
  {
    hide Noise3dValue, Cell3;
    var z := k as real;
    assert a * (1.0 - t) + b * t == Along(a, b, t);
    AlongInside(z, a, b, t);
    InCell3(l, i, j, k, x, y, a, seed);
    InCell3(l, i, j, k, x, y, b, seed);
    InCell3(l, i, j, k, x, y, Along(a, b, t), seed);
    CellStraight3(l, i, j, k, a - z, b - z, x - i as real, y - j as real, t, seed);
  }

  // ---- the ease curve

  // It rises from 0 to 1, the same way from both ends, and flat at them: like 10 t^3, and no steeper.
  lemma EaseSymmetric(t: real)
    ensures EaseCurve(1.0 - t) == 1.0 - EaseCurve(t)
  {
  }

  lemma EaseFlat(t: real)
    requires 0.0 <= t <= 1.0
    ensures 10.0 * t * t * t - 15.0 * t * t * t * t <= EaseCurve(t) <= 10.0 * t * t * t
  {
    var cube := t * t * t;
    NotNegative(t, t);
    NotNegative(t * t, t);
    NotNegative(cube, t * t);
    NotNegative(t, 15.0 - 6.0 * t);
    NotNegative(cube, t * (15.0 - 6.0 * t));
    assert EaseCurve(t) == 10.0 * cube - cube * (t * (15.0 - 6.0 * t));
    assert EaseCurve(t) == 10.0 * cube - 15.0 * cube * t + 6.0 * (cube * (t * t));
  }

  function Square(a: real): real {
    Mul(a, a)
  }

  // The rise from t to t + h is h times this for u = t (1 - t) and v = 1 - 2 t.
  function Rise(u: real, v: real, h: real): real {
    30.0 * u * u + 30.0 * u * v * h + (10.0 - 60.0 * u) * h * h - 15.0 * v * h * h * h + 6.0 * h * h * h * h
  }

  lemma EaseRise(t: real, h: real)
    ensures EaseCurve(t + h) - EaseCurve(t) == Mul(h, Rise(t * (1.0 - t), 1.0 - 2.0 * t, h))
  {
    hide EaseCurve, Rise, Mul;
    var cube, bend := 3.0 * t * t + 3.0 * t * h + h * h, 6.0 * (2.0 * t + h) - 15.0;
    EaseFactors(t);
    EaseFactors(t + h);
    FactorsRise(t, h);
    ProductRise(Cube(t), Cube(t + h), Bend(t), Bend(t + h), cube, bend, h);
    RiseIs(t, h);
  }

  function Cube(t: real): real {
    t * t * t
  }

  function Bend(t: real): real {
    t * (6.0 * t - 15.0) + 10.0
  }

  lemma EaseFactors(t: real)
    ensures EaseCurve(t) == Mul(Cube(t), Bend(t))
  {
  }

  lemma FactorsRise(t: real, h: real)
    ensures Cube(t + h) == Cube(t) + Mul(h, 3.0 * t * t + 3.0 * t * h + h * h)
    ensures Bend(t + h) == Bend(t) + Mul(h, 6.0 * (2.0 * t + h) - 15.0)
  {
  }

  lemma ProductRise(c: real, c': real, g: real, g': real, p: real, q: real, h: real)
    requires c' == c + Mul(h, p) && g' == g + Mul(h, q)
    ensures Mul(c', g') - Mul(c, g) == Mul(h, Mul(p, g') + Mul(c, q))
  {
    assert c' * g' == c * g' + h * p * g' && c * g' == c * g + c * (h * q);
  }

  lemma RiseIs(t: real, h: real)
    ensures Rise(t * (1.0 - t), 1.0 - 2.0 * t, h) ==
      Mul(3.0 * t * t + 3.0 * t * h + h * h, Bend(t + h)) + Mul(Cube(t), 6.0 * (2.0 * t + h) - 15.0)
  {
  }

  function Squares(u: real, v: real, h: real): real {
    Square(u + h * v / 2.0 - h * h / 3.0) + Square(h * v - h * h) / 12.0 + Square(Square(h)) / 180.0
  }

  // Which is a sum of squares.
  lemma RiseIsSquares(u: real, v: real, h: real)
    requires v * v == 1.0 - 4.0 * u
    ensures Rise(u, v, h) == 30.0 * Squares(u, v, h)
  {
    assert h * h * (v * v) == h * h * (1.0 - 4.0 * u);
  }

  lemma SquareSign(a: real)
    ensures Square(a) >= 0.0 && (a != 0.0 ==> Square(a) > 0.0)
  {
    if a < 0.0 {
      Positive(0.0 - a, 0.0 - a);
      assert Mul(0.0 - a, 0.0 - a) == Mul(a, a);
    } else if a > 0.0 {
      Positive(a, a);
    }
  }

  lemma Positive(a: real, b: real)
    requires a > 0.0 && b > 0.0
    ensures Mul(a, b) > 0.0
  {
  }

  lemma SquaresPositive(u: real, v: real, h: real)
    requires h != 0.0
    ensures Squares(u, v, h) > 0.0
  {
    hide Square;
    SquareSign(u + h * v / 2.0 - h * h / 3.0);
    SquareSign(h * v - h * h);
    SquareSign(h);
    SquareSign(Square(h));
  }

  lemma EaseMonotone(s: real, t: real)
    requires s < t
    ensures EaseCurve(s) < EaseCurve(t)
  {
    hide EaseCurve, Rise, Squares, Mul;
    var u, v, h := s * (1.0 - s), 1.0 - 2.0 * s, t - s;
    EaseRise(s, h);
    RiseIsSquares(u, v, h);
    SquaresPositive(u, v, h);
    Positive(h, Rise(u, v, h));
  }

  // Easing moves a point inside its cell, each coordinate for itself.
  function Eased(x: real): real {
    x.Floor as real + EaseCurve(x - x.Floor as real)
  }

  lemma EasedInside(x: real)
    ensures Inside(x.Floor, Eased(x)) && Eased(x).Floor == x.Floor
  {
    hide EaseCurve;
    var u := x - x.Floor as real;
    EaseEnds();
    if u > 0.0 {
      EaseMonotone(0.0, u);
    }
    EaseMonotone(u, 1.0);
    FloorBetween(x.Floor, Eased(x));
  }

  lemma EasedValue2(l: Lattice, x: real, y: real, seed: int)
    ensures Noise2dValue(l, x, y, seed, true) == Noise2dValue(l, Eased(x), Eased(y), seed, false)
  {
    hide EaseCurve, Linear, Noise2dValue;
    EasedInside(x);
    EasedInside(y);
    Noise2dAtFloor(l, x, y, seed, true);
    Noise2dAtFloor(l, Eased(x), Eased(y), seed, false);
  }

  lemma EasedValue3(l: Lattice, x: real, y: real, z: real, seed: int)
    ensures Noise3dValue(l, x, y, z, seed, true) == Noise3dValue(l, Eased(x), Eased(y), Eased(z), seed, false)
  {
    hide EaseCurve, Linear, Noise3dValue;
    EasedInside(x);
    EasedInside(y);
    EasedInside(z);
    Noise3dAtFloor(l, x, y, z, seed, true);
    Noise3dAtFloor(l, Eased(x), Eased(y), Eased(z), seed, false);
  }

  // ---- octaves

  function Size(x: real): real {
    if x < 0.0 then 0.0 - x else x
  }

  function Sized(np: NoiseParams, value: real): real {
    if np.absValue then Size(value) else value
  }

  lemma {:induction false} PowerFront(b: real, n: nat)
    ensures Power(b, n + 1) == Mul(b, Power(b, n))
  {
    hide Mul;
    MulCommutes(b, 1.0);
    if n > 0 {
      PowerFront(b, n - 1);
      MulAssociates(b, Power(b, n - 1), b);
    }
  }

  lemma MulCommutes(a: real, b: real)
    ensures Mul(a, b) == Mul(b, a)
  {
  }

  lemma MulAssociates(a: real, b: real, c: real)
    ensures Mul(Mul(a, b), c) == Mul(a, Mul(b, c))
  {
  }

  lemma DivScaled(x: real, s: real, b: real)
    requires s > 0.0
    ensures Div(Mul(b, x), s) == Mul(b, Div(x, s))
  {
    var q := x / s;
    assert x == q * s;
    assert b * x == (b * q) * s;
    assert (b * q) * s / s == b * q;
  }

  // The place of the next octave is the place of this one for the point scaled by the lacunarity.
  lemma PlaceScaled(x: real, s: real, b: real, p: real)
    requires s > 0.0
    ensures Mul(Div(x, s), Mul(b, p)) == Mul(Div(Mul(b, x), s), p)
  {
    hide Mul, Div;
    DivScaled(x, s, b);
    MulAssociates(b, Div(x, s), p);
    MulCommutes(b, Div(x, s));
    MulAssociates(Div(x, s), b, p);
  }

  lemma MulDistributes(a: real, b: real, c: real)
    ensures Mul(a, b + c) == Mul(a, b) + Mul(a, c)
    ensures Mul(1.0, a) == a == Mul(a, 1.0) && Mul(a, 0.0) == 0.0
  {
  }

  lemma MulMeans(a: real, b: real)
    ensures Mul(a, b) == a * b
  {
  }

  // The first octave is the noise itself, with the spread as its unit.
  lemma FirstOctave2(l: Lattice, np: NoiseParams, x: real, y: real, seed: int)
    requires PositiveSpread(np)
    ensures Octave2(l, np, x, y, seed, 0)
      == Sized(np, Noise2dValue(l, x / np.spreadX, y / np.spreadY, seed + np.seed, np.defaults || np.eased))
  {
    hide Noise2dValue, Mul;
    MulDistributes(Div(x, np.spreadX), 0.0, 0.0);
    MulDistributes(Div(y, np.spreadY), 0.0, 0.0);
    MulDistributes(Octave2(l, np, x, y, seed, 0), 0.0, 0.0);
    var v := Noise2dValue(l, Mul(Div(x, np.spreadX), 1.0), Mul(Div(y, np.spreadY), 1.0), seed + np.seed + 0,
                          np.defaults || np.eased);
    MulDistributes(Absolute(np, v), 0.0, 0.0);
  }

  // Each further one is the one before on the finer lattice of the next seed, with its weight.
  lemma FinerOctave2(l: Lattice, np: NoiseParams, x: real, y: real, seed: int, i: nat)
    requires PositiveSpread(np)
    ensures Octave2(l, np, x, y, seed, i + 1)
      == Mul(np.persist, Octave2(l, np, Mul(np.lacunarity, x), Mul(np.lacunarity, y), seed + 1, i))
  {
    hide Noise2dValue, Power, Absolute, Mul, Div;
    var p := Power(np.lacunarity, i);
    PowerFront(np.lacunarity, i);
    PowerFront(np.persist, i);
    PlaceScaled(x, np.spreadX, np.lacunarity, p);
    PlaceScaled(y, np.spreadY, np.lacunarity, p);
    var v := Noise2dValue(l, Mul(Div(x, np.spreadX), Power(np.lacunarity, i + 1)),
                          Mul(Div(y, np.spreadY), Power(np.lacunarity, i + 1)), seed + np.seed + (i + 1),
                          np.defaults || np.eased);
    MulAssociates(np.persist, Power(np.persist, i), Absolute(np, v));
    assert seed + np.seed + (i + 1) == (seed + 1) + np.seed + i;
  }

  lemma {:induction false} SumFront2(l: Lattice, np: NoiseParams, x: real, y: real, seed: int, n: nat)
    requires PositiveSpread(np)
    ensures Sum2(l, np, x, y, seed, n + 1) == Octave2(l, np, x, y, seed, 0)
      + Mul(np.persist, Sum2(l, np, Mul(np.lacunarity, x), Mul(np.lacunarity, y), seed + 1, n))
  {
    hide Octave2, Mul;
    var x', y' := Mul(np.lacunarity, x), Mul(np.lacunarity, y);
    if n == 0 {
      MulDistributes(np.persist, 0.0, 0.0);
    } else {
      SumFront2(l, np, x, y, seed, n - 1);
      FinerOctave2(l, np, x, y, seed, n - 1);
      MulDistributes(np.persist, Sum2(l, np, x', y', seed + 1, n - 1), Octave2(l, np, x', y', seed + 1, n - 1));
    }
  }

  lemma SumStays2(l: Lattice, np: NoiseParams, m: nat, x: real, y: real, seed: int, n: nat)
    requires PositiveSpread(np)
    ensures Sum2(l, np.(octaves := m), x, y, seed, n) == Sum2(l, np, x, y, seed, n)
  {
    hide Noise2dValue, Mul, Div;
  }

  // Without octaves the noise is the offset; each one more puts the noise at the point in front of the
  // weighted fractal on the finer lattice.
  lemma FractalOctaves2(l: Lattice, np: NoiseParams, x: real, y: real, x': real, y': real, seed: int)
    requires PositiveSpread(np) && x' == np.lacunarity * x && y' == np.lacunarity * y
    ensures np.octaves == 0 ==> Fractal2(l, np, x, y, seed) == np.offset
    ensures np.octaves > 0 ==>
      var v := Noise2dValue(l, x / np.spreadX, y / np.spreadY, seed + np.seed, np.defaults || np.eased);
      var finer := Fractal2(l, np.(octaves := np.octaves - 1), x', y', seed + 1);
      Fractal2(l, np, x, y, seed) == np.offset + Sized(np, v) * np.scale + np.persist * (finer - np.offset)
  {
    hide Noise2dValue, Octave2, Mul, Div, Sum2, Sized;
    if np.octaves == 0 {
      SumStart2(l, np, x, y, seed);
      MulCommutes(np.scale, 0.0);
      MulDistributes(np.scale, 0.0, 0.0);
    } else {
      var n := np.octaves - 1;
      MulMeans(np.lacunarity, x);
      MulMeans(np.lacunarity, y);
      SumFront2(l, np, x, y, seed, n);
      FirstOctave2(l, np, x, y, seed);
      SumStays2(l, np, n, x', y', seed + 1, n);
      var v := Noise2dValue(l, x / np.spreadX, y / np.spreadY, seed + np.seed, np.defaults || np.eased);
      var finer := Fractal2(l, np.(octaves := n), x', y', seed + 1);
      Rescaling(np.offset, np.scale, np.persist, Sized(np, v), Sum2(l, np, x', y', seed + 1, n), finer);
      assert x' == Mul(np.lacunarity, x) && y' == Mul(np.lacunarity, y);
      assert np.octaves == n + 1;
    }
  }

  lemma Rescaling(offset: real, scale: real, persist: real, first: real, rest: real, finer: real)
    requires finer == offset + Mul(rest, scale)
    ensures offset + Mul(first + Mul(persist, rest), scale) == offset + first * scale + persist * (finer - offset)
  {
  }

  // ---- in three dimensions

  lemma FirstOctave3(l: Lattice, np: NoiseParams, x: real, y: real, z: real, seed: int)
    requires PositiveSpread(np)
    ensures Octave3(l, np, x, y, z, seed, 0)
      == Sized(np, Noise3dValue(l, x / np.spreadX, y / np.spreadY, z / np.spreadZ, seed + np.seed, np.eased))
  {
    hide Noise3dValue, Mul;
    MulDistributes(Div(x, np.spreadX), 0.0, 0.0);
    MulDistributes(Div(y, np.spreadY), 0.0, 0.0);
    MulDistributes(Div(z, np.spreadZ), 0.0, 0.0);
    var v := Noise3dValue(l, Mul(Div(x, np.spreadX), 1.0), Mul(Div(y, np.spreadY), 1.0),
                          Mul(Div(z, np.spreadZ), 1.0), seed + np.seed + 0, np.eased);
    MulDistributes(Absolute(np, v), 0.0, 0.0);
  }

  lemma FinerOctave3(l: Lattice, np: NoiseParams, x: real, y: real, z: real, seed: int, i: nat)
    requires PositiveSpread(np)
    ensures Octave3(l, np, x, y, z, seed, i + 1) == Mul(np.persist,
      Octave3(l, np, Mul(np.lacunarity, x), Mul(np.lacunarity, y), Mul(np.lacunarity, z), seed + 1, i))
  {
    hide Noise3dValue, Power, Absolute, Mul, Div;
    var p := Power(np.lacunarity, i);
    PowerFront(np.lacunarity, i);
    PowerFront(np.persist, i);
    PlaceScaled(x, np.spreadX, np.lacunarity, p);
    PlaceScaled(y, np.spreadY, np.lacunarity, p);
    PlaceScaled(z, np.spreadZ, np.lacunarity, p);
    var q := Power(np.lacunarity, i + 1);
    var v := Noise3dValue(l, Mul(Div(x, np.spreadX), q), Mul(Div(y, np.spreadY), q), Mul(Div(z, np.spreadZ), q),
                          seed + np.seed + (i + 1), np.eased);
    MulAssociates(np.persist, Power(np.persist, i), Absolute(np, v));
    assert seed + np.seed + (i + 1) == (seed + 1) + np.seed + i;
  }

  lemma {:induction false} SumFront3(l: Lattice, np: NoiseParams, x: real, y: real, z: real, seed: int, n: nat)
    requires PositiveSpread(np)
    ensures Sum3(l, np, x, y, z, seed, n + 1) == Octave3(l, np, x, y, z, seed, 0) + Mul(np.persist,
      Sum3(l, np, Mul(np.lacunarity, x), Mul(np.lacunarity, y), Mul(np.lacunarity, z), seed + 1, n))
  {
    hide Octave3, Mul;
    var x', y', z' := Mul(np.lacunarity, x), Mul(np.lacunarity, y), Mul(np.lacunarity, z);
    if n == 0 {
      MulDistributes(np.persist, 0.0, 0.0);
    } else {
      SumFront3(l, np, x, y, z, seed, n - 1);
      FinerOctave3(l, np, x, y, z, seed, n - 1);
      MulDistributes(np.persist, Sum3(l, np, x', y', z', seed + 1, n - 1),
                     Octave3(l, np, x', y', z', seed + 1, n - 1));
    }
  }

  lemma SumStays3(l: Lattice, np: NoiseParams, m: nat, x: real, y: real, z: real, seed: int, n: nat)
    requires PositiveSpread(np)
    ensures Sum3(l, np.(octaves := m), x, y, z, seed, n) == Sum3(l, np, x, y, z, seed, n)
  {
    hide Noise3dValue, Mul, Div;
  }

  lemma FractalOctaves3(l: Lattice, np: NoiseParams, x: real, y: real, z: real, x': real, y': real, z': real,
                        seed: int)
    requires PositiveSpread(np)
    requires x' == np.lacunarity * x && y' == np.lacunarity * y && z' == np.lacunarity * z
    ensures np.octaves == 0 ==> Fractal3(l, np, x, y, z, seed) == np.offset
    ensures np.octaves > 0 ==>
      var v := Noise3dValue(l, x / np.spreadX, y / np.spreadY, z / np.spreadZ, seed + np.seed, np.eased);
      var finer := Fractal3(l, np.(octaves := np.octaves - 1), x', y', z', seed + 1);
      Fractal3(l, np, x, y, z, seed) == np.offset + Sized(np, v) * np.scale + np.persist * (finer - np.offset)
  {
    hide Noise3dValue, Octave3, Mul, Div, Sum3, Sized;
    if np.octaves == 0 {
      SumStart3(l, np, x, y, z, seed);
      MulCommutes(np.scale, 0.0);
      MulDistributes(np.scale, 0.0, 0.0);
    } else {
      var n := np.octaves - 1;
      MulMeans(np.lacunarity, x);
      MulMeans(np.lacunarity, y);
      MulMeans(np.lacunarity, z);
      SumFront3(l, np, x, y, z, seed, n);
      FirstOctave3(l, np, x, y, z, seed);
      SumStays3(l, np, n, x', y', z', seed + 1, n);
      var v := Noise3dValue(l, x / np.spreadX, y / np.spreadY, z / np.spreadZ, seed + np.seed, np.eased);
      var finer := Fractal3(l, np.(octaves := n), x', y', z', seed + 1);
      Rescaling(np.offset, np.scale, np.persist, Sized(np, v), Sum3(l, np, x', y', z', seed + 1, n), finer);
      assert x' == Mul(np.lacunarity, x) && y' == Mul(np.lacunarity, y) && z' == Mul(np.lacunarity, z);
      assert np.octaves == n + 1;
    }
  }

  // ---- the scaling that noise maps leave out

  // What is left out is never more than the tolerance makes of it.
  lemma RescaledWithin(np: NoiseParams, a: real)
    ensures Size(Rescaled(np, a) - (np.offset + a * np.scale)) <= 0.00001 * (1.0 + Size(a))
    ensures Size(np.offset) > 0.00001 || Size(np.scale - 1.0) > 0.00001 ==> Rescaled(np, a) == np.offset + a * np.scale
    ensures Size(np.offset) <= 0.00001 && Size(np.scale - 1.0) <= 0.00001 ==> Rescaled(np, a) == a
  {
    MulMeans(a, np.scale);
    if Size(np.offset) <= 0.00001 && Size(np.scale - 1.0) <= 0.00001 {
      hide Mul;
      var d := np.scale - 1.0;
      MulDistributes(a, 1.0, d);
      assert 1.0 + d == np.scale;
      WithinTolerance(a, d);
      Differs(a, np.offset, Mul(a, d), 0.00001 * Size(a));
    }
  }

  lemma Differs(a: real, offset: real, d: real, bound: real)
    requires Size(offset) <= 0.00001 && Size(d) <= bound
    ensures Size(a - (offset + (a + d))) <= 0.00001 + bound
  {
  }

  lemma WithinTolerance(a: real, d: real)
    requires Size(d) <= 0.00001
    ensures Size(Mul(a, d)) <= 0.00001 * Size(a)
  {
    NotNegative(Size(a), 0.00001 - d);
    NotNegative(Size(a), 0.00001 + d);
    assert a * d == if a < 0.0 then 0.0 - Size(a) * d else Size(a) * d;
  }
}
