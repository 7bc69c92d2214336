// Value noise (src/noise.cpp:39, 173-283, 314-363, 386-481, 496-751, src/noise.h:168-170, 240-243).
// Floating point is taken as exact real arithmetic.

module NoisePoints {
  // The two seeded lattices; any functions of the integer coordinates and the seed.
  datatype Lattice = Lattice(at2: (int, int, int) -> real, at3: (int, int, int, int) -> real)

  datatype NoiseParams = NoiseParams(
    offset: real, scale: real, spreadX: real, spreadY: real, spreadZ: real, seed: int,
    octaves: nat, persist: real, lacunarity: real, defaults: bool, eased: bool, absValue: bool)

  function Abs(x: real): real {
    if x < 0.0 then -x else x
  }

  function EaseCurve(t: real): real {
    t * t * t * (t * (6.0 * t - 15.0) + 10.0)
  }

  function Linear(v0: real, v1: real, t: real): real {
    v0 + (v1 - v0) * t
  }

  function BiLinear(v00: real, v10: real, v01: real, v11: real, x: real, y: real, eased: bool): real {
    var x', y' := if eased then EaseCurve(x) else x, if eased then EaseCurve(y) else y;
    Linear(Linear(v00, v10, x'), Linear(v01, v11, x'), y')
  }

  function TriLinear(v000: real, v100: real, v010: real, v110: real, v001: real, v101: real, v011: real, v111: real,
                     x: real, y: real, z: real, eased: bool): real
  {
    var x', y', z' := if eased then EaseCurve(x) else x, if eased then EaseCurve(y) else y, if eased
      then EaseCurve(z) else z;
    Linear(BiLinear(v000, v100, v010, v110, x', y', false), BiLinear(v001, v101, v011, v111, x', y', false), z')
  }

  // The macro myfloor: truncation towards zero, less one for every negative argument.
  function MyFloor(x: real): int {
    if x < 0.0 then -((-x).Floor) - 1 else x.Floor
  }

  function Noise2dValue(l: Lattice, x: real, y: real, seed: int, eased: bool): real {
    var x0, y0 := MyFloor(x), MyFloor(y);
    BiLinear(l.at2(x0, y0, seed), l.at2(x0 + 1, y0, seed), l.at2(x0, y0 + 1, seed), l.at2(x0 + 1, y0 + 1, seed),
             x - x0 as real, y - y0 as real, eased)
  }

  function Noise3dValue(l: Lattice, x: real, y: real, z: real, seed: int, eased: bool): real {
    var x0, y0, z0 := MyFloor(x), MyFloor(y), MyFloor(z);
    TriLinear(l.at3(x0, y0, z0, seed), l.at3(x0 + 1, y0, z0, seed), l.at3(x0, y0 + 1, z0, seed),
              l.at3(x0 + 1, y0 + 1, z0, seed),
              l.at3(x0, y0, z0 + 1, seed), l.at3(x0 + 1, y0, z0 + 1, seed), l.at3(x0, y0 + 1, z0 + 1, seed),
              l.at3(x0 + 1, y0 + 1, z0 + 1, seed),
              x - x0 as real, y - y0 as real, z - z0 as real, eased)
  }

  // Interpolation inside the lattice cell whose corner is (x0, y0).
  function Cell2(l: Lattice, x0: int, y0: int, u: real, v: real, seed: int, eased: bool): real {
    BiLinear(l.at2(x0, y0, seed), l.at2(x0 + 1, y0, seed), l.at2(x0, y0 + 1, seed), l.at2(x0 + 1, y0 + 1, seed), u, v,
             eased)
  }

  function Cell3(l: Lattice, x0: int, y0: int, z0: int, u: real, v: real, w: real, seed: int, eased: bool): real {
    TriLinear(l.at3(x0, y0, z0, seed), l.at3(x0 + 1, y0, z0, seed), l.at3(x0, y0 + 1, z0, seed),
              l.at3(x0 + 1, y0 + 1, z0, seed),
              l.at3(x0, y0, z0 + 1, seed), l.at3(x0 + 1, y0, z0 + 1, seed), l.at3(x0, y0 + 1, z0 + 1, seed),
              l.at3(x0 + 1, y0 + 1, z0 + 1, seed), u, v, w, eased)
  }

  // myfloor differs from the floor exactly at negative integers, where it is one too low.
  lemma MyFloorIsFloor(x: real)
    ensures MyFloor(x) == x.Floor || (MyFloor(x) == x.Floor - 1 && x == x.Floor as real)
    ensures MyFloor(x) == x.Floor - 1 <==> x < 0.0 && x == x.Floor as real
  {
  }

  lemma EaseEnds()
    ensures EaseCurve(0.0) == 0.0 && EaseCurve(1.0) == 1.0
  {
  }

  // Seen from the cell below, a lattice line has the same value.
  lemma Cell2Edge(l: Lattice, x0: int, y0: int, t: real, seed: int, eased: bool)
    ensures Cell2(l, x0 - 1, y0, 1.0, t, seed, eased) == Cell2(l, x0, y0, 0.0, t, seed, eased)
    ensures Cell2(l, x0, y0 - 1, t, 1.0, seed, eased) == Cell2(l, x0, y0, t, 0.0, seed, eased)
  {
    EaseEnds();
    hide EaseCurve;
  }

  lemma Cell3Edge(l: Lattice, x0: int, y0: int, z0: int, s: real, t: real, seed: int, eased: bool)
    ensures Cell3(l, x0 - 1, y0, z0, 1.0, s, t, seed, eased) == Cell3(l, x0, y0, z0, 0.0, s, t, seed, eased)
    ensures Cell3(l, x0, y0 - 1, z0, s, 1.0, t, seed, eased) == Cell3(l, x0, y0, z0, s, 0.0, t, seed, eased)
    ensures Cell3(l, x0, y0, z0 - 1, s, t, 1.0, seed, eased) == Cell3(l, x0, y0, z0, s, t, 0.0, seed, eased)
  {
    EaseEnds();
    hide EaseCurve;
  }

  // The point functions interpolate in the cell of the true floor, whatever myfloor says.
  lemma Noise2dAtFloor(l: Lattice, x: real, y: real, seed: int, eased: bool)
    ensures Noise2dValue(l, x, y, seed, eased)
      == Cell2(l, x.Floor, y.Floor, x - x.Floor as real, y - y.Floor as real, seed, eased)
  {
    hide BiLinear, MyFloor;
    MyFloorIsFloor(x);
    MyFloorIsFloor(y);
    var u, v := x - MyFloor(x) as real, y - MyFloor(y) as real;
    if MyFloor(x) != x.Floor {
      Cell2Edge(l, x.Floor, MyFloor(y), v, seed, eased);
    }
    if MyFloor(y) != y.Floor {
      Cell2Edge(l, x.Floor, y.Floor, x - x.Floor as real, seed, eased);
    }
  }

  lemma Noise3dAtFloor(l: Lattice, x: real, y: real, z: real, seed: int, eased: bool)
    ensures Noise3dValue(l, x, y, z, seed, eased)
      == Cell3(l, x.Floor, y.Floor, z.Floor, x - x.Floor as real, y - y.Floor as real, z - z.Floor as real, seed, eased)
  {
    hide TriLinear, MyFloor;
    MyFloorIsFloor(x);
    MyFloorIsFloor(y);
    MyFloorIsFloor(z);
    var u, v, w := x - MyFloor(x) as real, y - MyFloor(y) as real, z - MyFloor(z) as real;
    var u0, v0 := x - x.Floor as real, y - y.Floor as real;
    if MyFloor(x) != x.Floor {
      Cell3Edge(l, x.Floor, MyFloor(y), MyFloor(z), v, w, seed, eased);
    }
    if MyFloor(y) != y.Floor {
      Cell3Edge(l, x.Floor, y.Floor, MyFloor(z), u0, w, seed, eased);
    }
    if MyFloor(z) != z.Floor {
      Cell3Edge(l, x.Floor, y.Floor, z.Floor, u0, v0, seed, eased);
    }
  }

  function Power(b: real, n: nat): real {
    if n == 0 then 1.0 else Mul(Power(b, n - 1), b)
  }

  predicate PositiveSpread(np: NoiseParams) {
    np.spreadX > 0.0 && np.spreadY > 0.0 && np.spreadZ > 0.0
  }

  function Absolute(np: NoiseParams, value: real): real {
    if np.absValue then Abs(value) else value
  }

  // Products and quotients as the source computes them, one operation at a time.
  function Mul(a: real, b: real): real {
    a * b
  }

  function Div(a: real, b: real): real
    requires b != 0.0
  {
    a / b
  }

  // Octave i of the fractal at a point: its frequency is lacunarity^i, its weight persist^i.
  function Octave2(l: Lattice, np: NoiseParams, x: real, y: real, seed: int, i: nat): real
    requires PositiveSpread(np)
  {
    var f := Power(np.lacunarity, i);
    var value := Noise2dValue(l, Mul(Div(x, np.spreadX), f), Mul(Div(y, np.spreadY), f), seed + np.seed + i,
                              np.defaults || np.eased);
    Mul(Power(np.persist, i), Absolute(np, value))
  }

  function Octave3(l: Lattice, np: NoiseParams, x: real, y: real, z: real, seed: int, i: nat): real
    requires PositiveSpread(np)
  {
    var f := Power(np.lacunarity, i);
    var value := Noise3dValue(l, Mul(Div(x, np.spreadX), f), Mul(Div(y, np.spreadY), f), Mul(Div(z, np.spreadZ), f),
                              seed + np.seed + i, np.eased);
    Mul(Power(np.persist, i), Absolute(np, value))
  }

  // The sum of the first n octaves.
  function Sum2(l: Lattice, np: NoiseParams, x: real, y: real, seed: int, n: nat): real
    requires PositiveSpread(np)
  {
    if n == 0 then 0.0 else Sum2(l, np, x, y, seed, n - 1) + Octave2(l, np, x, y, seed, n - 1)
  }

  function Sum3(l: Lattice, np: NoiseParams, x: real, y: real, z: real, seed: int, n: nat): real
    requires PositiveSpread(np)
  {
    if n == 0 then 0.0 else Sum3(l, np, x, y, z, seed, n - 1) + Octave3(l, np, x, y, z, seed, n - 1)
  }

  function Fractal2(l: Lattice, np: NoiseParams, x: real, y: real, seed: int): real
    requires PositiveSpread(np)
  {
    np.offset + Mul(Sum2(l, np, x, y, seed, np.octaves), np.scale)
  }

  function Fractal3(l: Lattice, np: NoiseParams, x: real, y: real, z: real, seed: int): real
    requires PositiveSpread(np)
  {
    np.offset + Mul(Sum3(l, np, x, y, z, seed, np.octaves), np.scale)
  }

  lemma SumStart2(l: Lattice, np: NoiseParams, x: real, y: real, seed: int)
    requires PositiveSpread(np)
    ensures Sum2(l, np, x, y, seed, 0) == 0.0 && Power(np.lacunarity, 0) == 1.0 && Power(np.persist, 0) == 1.0
  {
  }

  lemma SumNext2(l: Lattice, np: NoiseParams, x: real, y: real, seed: int, i: nat)
    requires PositiveSpread(np)
    ensures Power(np.lacunarity, i + 1) == Mul(Power(np.lacunarity, i), np.lacunarity)
    ensures Power(np.persist, i + 1) == Mul(Power(np.persist, i), np.persist)
    ensures var f := Power(np.lacunarity, i);
      var value := Noise2dValue(l, Mul(Div(x, np.spreadX), f), Mul(Div(y, np.spreadY), f), seed + np.seed + i,
                                np.defaults || np.eased);
      Sum2(l, np, x, y, seed, i + 1) == Sum2(l, np, x, y, seed, i) + Mul(Power(np.persist, i), Absolute(np, value))
  {
    hide Noise2dValue, Mul, Div, Absolute;
  }

  method NoiseFractal2D(l: Lattice, np: NoiseParams, x: real, y: real, seed: int) returns (r: real)
    requires PositiveSpread(np)
    ensures r == Fractal2(l, np, x, y, seed)
  {
    hide Noise2dValue, Mul, Div, Power, Octave2, Sum2;
    SumStart2(l, np, x, y, seed);
    var a, f, g := 0.0, 1.0, 1.0;
    var x', y', seed' := Div(x, np.spreadX), Div(y, np.spreadY), seed + np.seed;
    for i := 0 to np.octaves
      invariant f == Power(np.lacunarity, i) && g == Power(np.persist, i)
      invariant a == Sum2(l, np, x, y, seed, i)
    {
      SumNext2(l, np, x, y, seed, i);
      var noiseval := Noise2dValue(l, Mul(x', f), Mul(y', f), seed' + i, np.defaults || np.eased);
      if np.absValue {
        noiseval := Abs(noiseval);
      }
      a := a + Mul(g, noiseval);
      f := Mul(f, np.lacunarity);
      g := Mul(g, np.persist);
    }
    r := np.offset + Mul(a, np.scale);
  }

  lemma SumStart3(l: Lattice, np: NoiseParams, x: real, y: real, z: real, seed: int)
    requires PositiveSpread(np)
    ensures Sum3(l, np, x, y, z, seed, 0) == 0.0 && Power(np.lacunarity, 0) == 1.0 && Power(np.persist, 0) == 1.0
  {
  }

  lemma SumNext3(l: Lattice, np: NoiseParams, x: real, y: real, z: real, seed: int, i: nat)
    requires PositiveSpread(np)
    ensures Power(np.lacunarity, i + 1) == Mul(Power(np.lacunarity, i), np.lacunarity)
    ensures Power(np.persist, i + 1) == Mul(Power(np.persist, i), np.persist)
    ensures var f := Power(np.lacunarity, i);
      var value := Noise3dValue(l, Mul(Div(x, np.spreadX), f), Mul(Div(y, np.spreadY), f), Mul(Div(z, np.spreadZ), f),
                                seed + np.seed + i, np.eased);
      Sum3(l, np, x, y, z, seed, i + 1) ==
        Sum3(l, np, x, y, z, seed, i) + Mul(Power(np.persist, i), Absolute(np, value))
  {
    hide Noise3dValue, Mul, Div, Absolute;
  }

  method NoiseFractal3D(l: Lattice, np: NoiseParams, x: real, y: real, z: real, seed: int) returns (r: real)
    requires PositiveSpread(np)
    ensures r == Fractal3(l, np, x, y, z, seed)
  {
    hide Noise3dValue, Mul, Div, Power, Octave3, Sum3;
    SumStart3(l, np, x, y, z, seed);
    var a, f, g := 0.0, 1.0, 1.0;
    var x', y', z', seed' := Div(x, np.spreadX), Div(y, np.spreadY), Div(z, np.spreadZ), seed + np.seed;
    for i := 0 to np.octaves
      invariant f == Power(np.lacunarity, i) && g == Power(np.persist, i)
      invariant a == Sum3(l, np, x, y, z, seed, i)
    {
      SumNext3(l, np, x, y, z, seed, i);
      var noiseval := Noise3dValue(l, Mul(x', f), Mul(y', f), Mul(z', f), seed' + i, np.eased);
      if np.absValue {
        noiseval := Abs(noiseval);
      }
      a := a + Mul(g, noiseval);
      f := Mul(f, np.lacunarity);
      g := Mul(g, np.persist);
    }
    r := np.offset + Mul(a, np.scale);
  }

  // The noise maps skip the final scaling when offset and scale are within tolerance of 0 and 1.
  predicate Rescales(np: NoiseParams) {
    Abs(np.offset) > 0.00001 || Abs(np.scale - 1.0) > 0.00001
  }

  function Rescaled(np: NoiseParams, a: real): real {
    if Rescales(np) then Mul(a, np.scale) + np.offset else a
  }

  // Offset and scale are exactly those the skipped scaling assumes, or far enough from them.
  predicate ExactParameters(np: NoiseParams) {
    Rescales(np) || (np.offset == 0.0 && np.scale == 1.0)
  }

  // Skipping is harmless exactly when the parameters are 0 and 1, not merely close to them.
  lemma SkipIsExact(np: NoiseParams)
    ensures (forall a :: Rescaled(np, a) == np.offset + Mul(a, np.scale)) <==> ExactParameters(np)
  {
    if forall a :: Rescaled(np, a) == np.offset + Mul(a, np.scale) {
      assert Rescaled(np, 0.0) == np.offset + Mul(0.0, np.scale);
      assert Rescaled(np, 1.0) == np.offset + Mul(1.0, np.scale);
    }
  }
}

// Walking the lattice in steps: whole part and fraction of a coordinate, kept apart.
module LatticeWalk {
  import opened Arithmetic

  // After i steps from start, the walk is in lattice interval base + cell, at fraction frac of it.
  ghost predicate Walk(start: real, base: int, step: real, i: nat, cell: nat, frac: real) {
    && 0.0 <= frac < 1.0
    && (base + cell) as real + frac == start + i as real * step
  }

  lemma WalkStart(start: real, step: real)
    ensures Walk(start, start.Floor, step, 0, 0, start - start.Floor as real)
  {
  }

  lemma WalkNext(start: real, base: int, step: real, i: nat, cell: nat, frac: real)
    requires Walk(start, base, step, i, cell, frac) && 0.0 <= step <= 1.0
    ensures if frac + step >= 1.0 then Walk(start, base, step, i + 1, cell + 1, frac + step - 1.0)
            else Walk(start, base, step, i + 1, cell, frac + step)
  {
    assert (i + 1) as real * step == i as real * step + step;
  }

  // Where the walk is: cell and fraction are the floor and the rest of the coordinate.
  lemma WalkFloor(start: real, base: int, step: real, i: nat, cell: nat, frac: real)
    requires Walk(start, base, step, i, cell, frac)
    ensures (start + i as real * step).Floor == base + cell
    ensures start + i as real * step - (base + cell) as real == frac
  {
  }

  // The number of lattice points a walk of n steps needs.
  function Points(start: real, step: real, n: nat): int {
    (start - start.Floor as real + n as real * step).Floor + 2
  }

  // A walk of at most n steps, and the point after it, stay within that number.
  lemma WalkInside(start: real, step: real, n: nat, i: nat, cell: nat, frac: real)
    requires Walk(start, start.Floor, step, i, cell, frac) && i <= n && step >= 0.0
    ensures cell + 1 < Points(start, step, n)
  {
    StepsMonotone(i, n, step);
  }

  lemma StepsMonotone(i: nat, n: nat, step: real)
    requires i <= n && step >= 0.0
    ensures i as real * step <= n as real * step
  {
  }
}
