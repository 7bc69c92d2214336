// The size of the lattice buffer of a noise map, and the walks that fit it (src/noise.cpp:441-481,
// 514-518, 582-586, 666-675).

module NoiseRoom {
  import opened Arithmetic
  import opened NoisePoints
  import opened LatticeWalk

  // Rounding up.
  function Ceil(x: real): int {
    -((-x).Floor)
  }

  // lacunarity to the power octaves - 1, as the buffer size is computed.
  function PowerBefore(b: real, n: nat): real
    requires b > 0.0
  {
    if n == 0 then Div(1.0, b) else Power(b, n - 1)
  }

  function OctaveFactor(np: NoiseParams): real {
    if np.lacunarity > 1.0 then PowerBefore(np.lacunarity, np.octaves) else np.lacunarity
  }

  // The factor leaves room for the spread; a factor of 0 makes the quotient infinite.
  predicate Spreads(spread: real, factor: real) {
    factor == 0.0 || (factor > 0.0 && Div(spread, factor) >= 1.0)
  }

  // The parameters resizeNoiseBuf does not reject.
  predicate Accepted(np: NoiseParams, sx: nat, sy: nat, sz: nat)
    requires PositiveSpread(np)
  {
    var o := OctaveFactor(np);
    && Div(Mul(sx as real, o), np.spreadX) <= 1000000000.0
    && Div(Mul(sy as real, o), np.spreadY) <= 1000000000.0
    && Div(Mul(sz as real, o), np.spreadZ) <= 1000000000.0
    && Spreads(np.spreadX, o) && Spreads(np.spreadY, o) && Spreads(np.spreadZ, o)
  }

  // The two tests on an axis, cleared of the quotients.
  predicate AxisAccepted(n: nat, factor: real, spread: real) {
    n as real * factor <= 1000000000.0 * spread && (factor == 0.0 || 0.0 < factor <= spread)
  }

  lemma QuotientAtMost(a: real, b: real, c: real)
    requires b > 0.0
    ensures Div(a, b) <= c <==> a <= c * b
    ensures Div(a, b) >= c <==> a >= c * b
  {
    assert a == Mul(Div(a, b), b);
    if Div(a, b) <= c {
      assert Mul(c - Div(a, b), b) >= 0.0;
    } else {
      assert Mul(Div(a, b) - c, b) > 0.0;
    }
    if Div(a, b) == c {
      assert a == c * b;
    }
  }

  lemma AcceptedOnAxes(np: NoiseParams, sx: nat, sy: nat, sz: nat)
    requires PositiveSpread(np)
    ensures var o := OctaveFactor(np);
      Accepted(np, sx, sy, sz) <==>
        AxisAccepted(sx, o, np.spreadX) && AxisAccepted(sy, o, np.spreadY) && AxisAccepted(sz, o, np.spreadZ)
  {
    hide PowerBefore;
    var o := OctaveFactor(np);
    QuotientAtMost(Mul(sx as real, o), np.spreadX, 1000000000.0);
    QuotientAtMost(Mul(sy as real, o), np.spreadY, 1000000000.0);
    QuotientAtMost(Mul(sz as real, o), np.spreadZ, 1000000000.0);
    if o > 0.0 {
      QuotientAtMost(np.spreadX, o, 1.0);
      QuotientAtMost(np.spreadY, o, 1.0);
      QuotientAtMost(np.spreadZ, o, 1.0);
    }
  }

  // Lattice points allocated along an axis.
  function Span(n: nat, factor: real, spread: real): int
    requires spread > 0.0
  {
    Ceil(Div(Mul(n as real, factor), spread)) + 3
  }

  // Entries allocated for the lattice buffer; a map of depth 1 gets a flat one.
  function Capacity(np: NoiseParams, sx: nat, sy: nat, sz: nat): int
    requires PositiveSpread(np)
  {
    var o := OctaveFactor(np);
    (if sz > 1 then Span(sz, o, np.spreadZ) else 1) * Span(sy, o, np.spreadY) * Span(sx, o, np.spreadX)
  }

  lemma SpanPositive(n: nat, o: real, spread: real)
    requires spread > 0.0 && o >= 0.0
    ensures Span(n, o, spread) >= 3
  {
    assert n as real * o >= 0.0;
    assert n as real * o / spread >= 0.0;
  }

  lemma CapacityPositive(np: NoiseParams, sx: nat, sy: nat, sz: nat)
    requires PositiveSpread(np) && Accepted(np, sx, sy, sz)
    ensures Capacity(np, sx, sy, sz) >= 0
  {
    hide Accepted, Span;
    var o := OctaveFactor(np);
    assert o >= 0.0 by {
      AcceptedFactor(np, sx, sy, sz);
    }
    SpanPositive(sx, o, np.spreadX);
    SpanPositive(sy, o, np.spreadY);
    SpanPositive(sz, o, np.spreadZ);
    var c := (if sz > 1 then Span(sz, o, np.spreadZ) else 1) * Span(sy, o, np.spreadY);
    assert c >= 0;
  }

  // No negative lacunarity is accepted.
  lemma AcceptedFactor(np: NoiseParams, sx: nat, sy: nat, sz: nat)
    requires PositiveSpread(np) && Accepted(np, sx, sy, sz)
    ensures OctaveFactor(np) >= 0.0 && np.lacunarity >= 0.0
  {
  }

  // ---- the octave that needs most

  // The greatest factor an octave uses: the last octave's, or the first one's if they get coarser.
  function Finest(np: NoiseParams): real {
    if np.lacunarity >= 1.0 && np.octaves > 0 then Power(np.lacunarity, np.octaves - 1) else 1.0
  }

  lemma {:induction false} PowerGrows(b: real, i: nat, n: nat)
    requires b >= 1.0 && i <= n
    ensures 1.0 <= Power(b, i) <= Power(b, n)
    decreases n
  {
    if i < n {
      PowerGrows(b, i, n - 1);
      assert Mul(Power(b, n - 1), b) >= Power(b, n - 1);
    } else if n > 0 {
      PowerGrows(b, n - 1, n - 1);
      assert Mul(Power(b, n - 1), b) >= Power(b, n - 1);
    }
  }

  lemma {:induction false} PowerShrinks(b: real, n: nat)
    requires 0.0 <= b <= 1.0
    ensures 0.0 <= Power(b, n) <= 1.0
  {
    if n > 0 {
      PowerShrinks(b, n - 1);
      MulShrinks(Power(b, n - 1), b);
    }
  }

  lemma MulShrinks(p: real, b: real)
    requires 0.0 <= p && 0.0 <= b <= 1.0
    ensures 0.0 <= Mul(p, b) <= p
  {
    assert p - Mul(p, b) == Mul(p, 1.0 - b);
  }

  lemma FinestIsGreatest(np: NoiseParams, n: nat)
    requires np.lacunarity >= 0.0 && n < np.octaves
    ensures 0.0 <= Power(np.lacunarity, n) <= Finest(np)
  {
    if np.lacunarity >= 1.0 {
      PowerGrows(np.lacunarity, n, np.octaves - 1);
    } else {
      PowerShrinks(np.lacunarity, n);
    }
  }

  lemma FinestIsOctave(np: NoiseParams) returns (n: nat)
    requires np.lacunarity >= 0.0 && np.octaves > 0
    ensures n < np.octaves && Power(np.lacunarity, n) == Finest(np) >= 1.0
  {
    if np.lacunarity >= 1.0 {
      n := np.octaves - 1;
      PowerGrows(np.lacunarity, n, n);
    } else {
      n := 0;
    }
  }

  // The most lattice points a walk of n steps can need, wherever it starts.
  function MostPoints(n: nat, factor: real, spread: real): int
    requires spread > 0.0
  {
    Ceil(Div(Mul(n as real, factor), spread)) + 2
  }

  lemma CeilCovers(frac: real, w: real, t: real)
    requires 0.0 <= frac < 1.0 && 0.0 <= w <= t
    ensures 0 <= (frac + w).Floor <= Ceil(t)
  {
    assert frac + w < Ceil(t) as real + 1.0;
  }

  lemma StepsOf(n: nat, f: real, spread: real)
    requires spread > 0.0
    ensures n as real * Div(f, spread) == Div(Mul(n as real, f), spread)
  {
    var r := f / spread;
    assert n as real * f == n as real * (r * spread) == (n as real * r) * spread;
  }

  lemma DivOrdered(a: real, b: real, spread: real)
    requires a <= b && spread > 0.0
    ensures Div(a, spread) <= Div(b, spread)
  {
    assert Div(a, spread) * spread == a && Div(b, spread) * spread == b;
  }

  lemma MulOrdered(n: real, a: real, b: real)
    requires 0.0 <= a <= b && n >= 0.0
    ensures 0.0 <= Mul(n, a) <= Mul(n, b)
  {
  }

  lemma DivZero(spread: real)
    requires spread > 0.0
    ensures Div(0.0, spread) == 0.0
  {
  }

  lemma MostPointsSuffice(start: real, f: real, o: real, spread: real, n: nat)
    requires 0.0 <= f <= o && spread > 0.0
    ensures 2 <= Points(start, Div(f, spread), n) <= MostPoints(n, o, spread)
  {
    hide Mul, Div, Ceil;
    StepsOf(n, f, spread);
    MulOrdered(n as real, f, o);
    DivOrdered(Mul(n as real, f), Mul(n as real, o), spread);
    DivOrdered(0.0, Mul(n as real, f), spread);
    DivZero(spread);
    CeilCovers(start - start.Floor as real, Div(Mul(n as real, f), spread), Div(Mul(n as real, o), spread));
  }

  // Some start needs them all.
  lemma MostPointsReached(f: real, spread: real, n: nat) returns (start: real)
    requires f >= 0.0 && spread > 0.0
    ensures Points(start, Div(f, spread), n) == MostPoints(n, f, spread)
  {
    StepsOf(n, f, spread);
    var w := Div(Mul(n as real, f), spread);
    start := Ceil(w) as real - w;
    assert 0.0 <= start < 1.0;
    assert start.Floor == 0;
    assert start - start.Floor as real + w == Ceil(w) as real;
  }

  // Every start is that of some position of the map.
  lemma StartAt(start: real, spread: real, f: real) returns (x: real)
    requires spread > 0.0 && f > 0.0
    ensures Mul(Div(x, spread), f) == start
  {
    x := start / f * spread;
    assert x / spread == start / f;
  }

  // ---- the walks of a map

  // Octave oct of a 2D map at (x, y) steps at most one cell at a time, within a buffer of that size.
  predicate OctaveFits2(np: NoiseParams, sx: nat, sy: nat, capacity: int, oct: nat, x: real, y: real)
    requires PositiveSpread(np)
  {
    var f := Power(np.lacunarity, oct);
    var stepX, stepY := Div(f, np.spreadX), Div(f, np.spreadY);
    && 0.0 <= stepX <= 1.0 && 0.0 <= stepY <= 1.0
    && Points(Mul(Div(y, np.spreadY), f), stepY, sy) * Points(Mul(Div(x, np.spreadX), f), stepX, sx) <= capacity
  }

  predicate OctaveFits3(np: NoiseParams, sx: nat, sy: nat, sz: nat, capacity: int, oct: nat, x: real, y: real, z: real)
    requires PositiveSpread(np)
  {
    var f := Power(np.lacunarity, oct);
    var stepX, stepY, stepZ := Div(f, np.spreadX), Div(f, np.spreadY), Div(f, np.spreadZ);
    && 0.0 <= stepX <= 1.0 && 0.0 <= stepY <= 1.0 && 0.0 <= stepZ <= 1.0
    && Points(Mul(Div(z, np.spreadZ), f), stepZ, sz) * Points(Mul(Div(y, np.spreadY), f), stepY, sy)
      * Points(Mul(Div(x, np.spreadX), f), stepX, sx) <= capacity
  }

  // All octaves at all positions do.
  ghost predicate MapFits2(np: NoiseParams, sx: nat, sy: nat, capacity: int)
    requires PositiveSpread(np)
  {
    forall oct: nat, x, y :: oct < np.octaves ==> OctaveFits2(np, sx, sy, capacity, oct, x, y)
  }

  ghost predicate MapFits3(np: NoiseParams, sx: nat, sy: nat, sz: nat, capacity: int)
    requires PositiveSpread(np)
  {
    forall oct: nat, x, y, z :: oct < np.octaves ==> OctaveFits3(np, sx, sy, sz, capacity, oct, x, y, z)
  }

  // What a caller can check beforehand: no spread is exceeded, and the most points that the finest
  // octave can need are there.
  predicate Room2(np: NoiseParams, sx: nat, sy: nat, capacity: int)
    requires PositiveSpread(np)
  {
    np.octaves == 0 ||
    (var f := Finest(np);
     && f <= np.spreadX && f <= np.spreadY
     && MostPoints(sy, f, np.spreadY) * MostPoints(sx, f, np.spreadX) <= capacity)
  }

  predicate Room3(np: NoiseParams, sx: nat, sy: nat, sz: nat, capacity: int)
    requires PositiveSpread(np)
  {
    np.octaves == 0 ||
    (var f := Finest(np);
     && f <= np.spreadX && f <= np.spreadY && f <= np.spreadZ
     && MostPoints(sz, f, np.spreadZ) * MostPoints(sy, f, np.spreadY) * MostPoints(sx, f, np.spreadX) <= capacity)
  }

  lemma StepAtMostOne(f: real, spread: real)
    requires f >= 0.0 && spread > 0.0
    ensures 0.0 <= Div(f, spread)
    ensures Div(f, spread) <= 1.0 <==> f <= spread
  {
    assert Div(f, spread) * spread == f;
  }

  lemma ProductOfTwo(pa: nat, a: nat, pb: nat, b: nat)
    requires pa <= a && pb <= b
    ensures pa * pb <= a * b
  {
    MulMonotone(pa, a, pb);
    MulMonotone(pb, b, a);
  }

  lemma ProductOfThree(pz: nat, sz: nat, py: nat, sy: nat, px: nat, sx: nat)
    requires pz <= sz && py <= sy && px <= sx
    ensures pz * py * px <= sz * sy * sx
  {
    ProductOfTwo(pz, sz, py, sy);
    ProductOfTwo(pz * py, sz * sy, px, sx);
  }

  lemma RoomSuffices2(np: NoiseParams, sx: nat, sy: nat, capacity: int, oct: nat, x: real, y: real)
    requires PositiveSpread(np) && np.lacunarity >= 0.0 && oct < np.octaves && Room2(np, sx, sy, capacity)
    ensures OctaveFits2(np, sx, sy, capacity, oct, x, y)
  {
    hide Power, Finest, Points, Mul, Div, MostPoints;
    FinestIsGreatest(np, oct);
    var f, o := Power(np.lacunarity, oct), Finest(np);
    StepAtMostOne(f, np.spreadX);
    StepAtMostOne(f, np.spreadY);
    MostPointsSuffice(Mul(Div(x, np.spreadX), f), f, o, np.spreadX, sx);
    MostPointsSuffice(Mul(Div(y, np.spreadY), f), f, o, np.spreadY, sy);
    ProductOfTwo(Points(Mul(Div(y, np.spreadY), f), Div(f, np.spreadY), sy), MostPoints(sy, o, np.spreadY),
                 Points(Mul(Div(x, np.spreadX), f), Div(f, np.spreadX), sx), MostPoints(sx, o, np.spreadX));
  }

  lemma RoomSuffices3(np: NoiseParams, sx: nat, sy: nat, sz: nat, capacity: int, oct: nat, x: real, y: real, z: real)
    requires PositiveSpread(np) && np.lacunarity >= 0.0 && oct < np.octaves && Room3(np, sx, sy, sz, capacity)
    ensures OctaveFits3(np, sx, sy, sz, capacity, oct, x, y, z)
  {
    hide Power, Finest, Points, Mul, Div, MostPoints;
    FinestIsGreatest(np, oct);
    var f, o := Power(np.lacunarity, oct), Finest(np);
    StepAtMostOne(f, np.spreadX);
    StepAtMostOne(f, np.spreadY);
    StepAtMostOne(f, np.spreadZ);
    MostPointsSuffice(Mul(Div(x, np.spreadX), f), f, o, np.spreadX, sx);
    MostPointsSuffice(Mul(Div(y, np.spreadY), f), f, o, np.spreadY, sy);
    MostPointsSuffice(Mul(Div(z, np.spreadZ), f), f, o, np.spreadZ, sz);
    ProductOfThree(Points(Mul(Div(z, np.spreadZ), f), Div(f, np.spreadZ), sz), MostPoints(sz, o, np.spreadZ),
                   Points(Mul(Div(y, np.spreadY), f), Div(f, np.spreadY), sy), MostPoints(sy, o, np.spreadY),
                   Points(Mul(Div(x, np.spreadX), f), Div(f, np.spreadX), sx), MostPoints(sx, o, np.spreadX));
  }

  // A position where the finest octave needs the most points.
  lemma WorstStart(np: NoiseParams, oct: nat, spread: real, n: nat) returns (x: real)
    requires spread > 0.0 && Power(np.lacunarity, oct) == Finest(np) >= 1.0
    ensures var f := Power(np.lacunarity, oct);
      Points(Mul(Div(x, spread), f), Div(f, spread), n) == MostPoints(n, Finest(np), spread)
  {
    hide Power, Finest, Points, Mul, Div, MostPoints;
    var start := MostPointsReached(Finest(np), spread, n);
    x := StartAt(start, spread, Finest(np));
  }

  // All walks of a 2D map fit the buffer exactly when there is room for the finest octave.
  lemma RoomIsExact2(np: NoiseParams, sx: nat, sy: nat, capacity: int)
    requires PositiveSpread(np) && np.lacunarity >= 0.0
    ensures MapFits2(np, sx, sy, capacity) <==> Room2(np, sx, sy, capacity)
  {
    hide Power, Finest, Points, Mul, Div, MostPoints;
    if Room2(np, sx, sy, capacity) {
      forall oct: nat, x, y | oct < np.octaves
        ensures OctaveFits2(np, sx, sy, capacity, oct, x, y)
      {
        RoomSuffices2(np, sx, sy, capacity, oct, x, y);
      }
    } else {
      var oct := FinestIsOctave(np);
      var x := WorstStart(np, oct, np.spreadX, sx);
      var y := WorstStart(np, oct, np.spreadY, sy);
      StepAtMostOne(Finest(np), np.spreadX);
      StepAtMostOne(Finest(np), np.spreadY);
      assert !OctaveFits2(np, sx, sy, capacity, oct, x, y);
    }
  }

  lemma RoomIsExact3(np: NoiseParams, sx: nat, sy: nat, sz: nat, capacity: int)
    requires PositiveSpread(np) && np.lacunarity >= 0.0
    ensures MapFits3(np, sx, sy, sz, capacity) <==> Room3(np, sx, sy, sz, capacity)
  {
    hide Power, Finest, Points, Mul, Div, MostPoints;
    if Room3(np, sx, sy, sz, capacity) {
      forall oct: nat, x, y, z | oct < np.octaves
        ensures OctaveFits3(np, sx, sy, sz, capacity, oct, x, y, z)
      {
        RoomSuffices3(np, sx, sy, sz, capacity, oct, x, y, z);
      }
    } else {
      var oct := FinestIsOctave(np);
      var x := WorstStart(np, oct, np.spreadX, sx);
      var y := WorstStart(np, oct, np.spreadY, sy);
      var z := WorstStart(np, oct, np.spreadZ, sz);
      StepAtMostOne(Finest(np), np.spreadX);
      StepAtMostOne(Finest(np), np.spreadY);
      StepAtMostOne(Finest(np), np.spreadZ);
      assert !OctaveFits3(np, sx, sy, sz, capacity, oct, x, y, z);
    }
  }

  // ---- what the allocated capacity has room for

  // With a lacunarity of at least 1 the buffer is sized for the finest octave, with a point to spare.
  lemma FactorIsFinest(np: NoiseParams)
    requires np.lacunarity >= 1.0 && np.octaves > 0
    ensures OctaveFactor(np) == Finest(np) >= 1.0
  {
    PowerGrows(np.lacunarity, np.octaves - 1, np.octaves - 1);
    if np.lacunarity == 1.0 {
      PowerShrinks(np.lacunarity, np.octaves - 1);
    }
  }

  lemma SpreadExceeds(spread: real, o: real)
    requires spread > 0.0 && o > 0.0
    ensures Spreads(spread, o) <==> o <= spread
  {
    assert spread == Div(spread, o) * o;
  }

  lemma SpanOfFine(n: nat, o: real, spread: real)
    requires spread > 0.0 && o >= 1.0 && n >= 1
    ensures Span(n, o, spread) >= 4 && MostPoints(n, o, spread) == Span(n, o, spread) - 1
  {
    hide Mul;
    assert Mul(n as real, o) > 0.0 by {
      MulOrdered(o, 1.0, n as real);
      ProductPositive(n as real, o);
    }
    assert Mul(n as real, o) / spread > 0.0;
  }

  lemma ProductPositive(a: real, b: real)
    requires a > 0.0 && b > 0.0
    ensures Mul(a, b) > 0.0
  {
  }

  // A 2D map with a lacunarity of at least 1 always has room.
  lemma FineRoom2(np: NoiseParams, sx: nat, sy: nat, sz: nat)
    requires PositiveSpread(np) && np.lacunarity >= 1.0 && sx >= 1 && sy >= 1 && sz >= 1 && Accepted(np, sx, sy, sz)
    ensures Room2(np, sx, sy, Capacity(np, sx, sy, sz))
  {
    hide Power, Finest, Span, MostPoints, OctaveFactor;
    if np.octaves > 0 {
      FactorIsFinest(np);
      var o := Finest(np);
      SpreadExceeds(np.spreadX, o);
      SpreadExceeds(np.spreadY, o);
      SpanOfFine(sx, o, np.spreadX);
      SpanOfFine(sy, o, np.spreadY);
      SpanOfFine(sz, o, np.spreadZ);
      var a, b, c := Span(sx, o, np.spreadX), Span(sy, o, np.spreadY), if sz > 1 then Span(sz, o, np.spreadZ) else 1;
      assert (b - 1) * (a - 1) == 1 * (b - 1) * (a - 1);
      ProductOfThree(1, c, b - 1, b, a - 1, a);
    }
  }

  // A 3D map has room exactly when it is deeper than 1.
  lemma FineRoom3(np: NoiseParams, sx: nat, sy: nat, sz: nat)
    requires PositiveSpread(np) && np.lacunarity >= 1.0 && sx >= 1 && sy >= 1 && sz >= 1 && Accepted(np, sx, sy, sz)
    ensures Room3(np, sx, sy, sz, Capacity(np, sx, sy, sz)) <==> np.octaves == 0 || sz > 1
  {
    hide Power, Finest, Span, MostPoints, OctaveFactor;
    if np.octaves > 0 {
      FactorIsFinest(np);
      var o := Finest(np);
      SpreadExceeds(np.spreadX, o);
      SpreadExceeds(np.spreadY, o);
      SpreadExceeds(np.spreadZ, o);
      SpanOfFine(sx, o, np.spreadX);
      SpanOfFine(sy, o, np.spreadY);
      SpanOfFine(sz, o, np.spreadZ);
      var a, b, c := Span(sx, o, np.spreadX), Span(sy, o, np.spreadY), Span(sz, o, np.spreadZ);
      if sz > 1 {
        ProductOfThree(c - 1, c, b - 1, b, a - 1, a);
      } else {
        FlatTooSmall(a, b, c);
        assert 1 * b * a == b * a;
      }
    }
  }

  lemma FlatTooSmall(a: nat, b: nat, c: nat)
    requires a >= 4 && b >= 4 && c >= 4
    ensures (c - 1) * (b - 1) * (a - 1) > b * a
  {
    ProductOfThree(3, c - 1, b - 1, b - 1, a - 1, a - 1);
    assert 3 * (b - 1) * (a - 1) == 3 * (b * a) - 3 * b - 3 * a + 3;
    assert b * a >= 4 * a && b * a >= 4 * b by {
      MulMonotone(4, b, a);
      MulMonotone(4, a, b);
    }
  }

  // One such map of depth 1: 16 entries for 27 points.
  lemma FlatBufferTooSmall()
    ensures var np := NoiseParams(0.0, 1.0, 1.0, 1.0, 1.0, 0, 1, 1.0, 1.0, false, false, false);
      && Accepted(np, 1, 1, 1) && Capacity(np, 1, 1, 1) == 16
      && Points(0.0, 1.0, 1) * Points(0.0, 1.0, 1) * Points(0.0, 1.0, 1) == 27
  {
    assert Span(1, 1.0, 1.0) == 4;
    assert Points(0.0, 1.0, 1) == 3;
  }

  // With a lacunarity below 1 the buffer is sized for a coarser octave than the first one, so
  // neither the sizes nor the spreads need to suffice: here 212 entries for 306 points.
  lemma LowLacunarityTooSmall()
    ensures var np := NoiseParams(0.0, 1.0, 1.0, 1.0, 1.0, 0, 1, 1.0, 0.5, false, false, false);
      && Accepted(np, 100, 1, 1) && Capacity(np, 100, 1, 1) == 212
      && Points(0.0, 1.0, 1) * Points(0.0, 1.0, 100) == 306
  {
    assert Span(1, 0.5, 1.0) == 4 && Span(100, 0.5, 1.0) == 53;
    assert Points(0.0, 1.0, 1) == 3 && Points(0.0, 1.0, 100) == 102;
  }

  // The check of the spreads finds every octave that steps over more than one cell exactly when the
  // octaves do not get coarser, or the spreads are at least 1 anyway.
  lemma SpreadCheckIsRight(np: NoiseParams, spread: real)
    requires spread > 0.0 && np.lacunarity >= 0.0 && np.octaves > 0 && Spreads(spread, OctaveFactor(np))
    ensures (forall oct: nat :: oct < np.octaves ==> Div(Power(np.lacunarity, oct), spread) <= 1.0)
      <==> (np.lacunarity >= 1.0 || spread >= 1.0)
  {
    hide Power, Finest, OctaveFactor, Div;
    var finest := FinestIsOctave(np);
    StepAtMostOne(Finest(np), spread);
    if np.lacunarity >= 1.0 {
      FactorIsFinest(np);
      SpreadExceeds(spread, Finest(np));
    } else {
      CoarseFinest(np);
    }
    if Finest(np) <= spread {
      forall oct: nat | oct < np.octaves
        ensures Div(Power(np.lacunarity, oct), spread) <= 1.0
      {
        FinestIsGreatest(np, oct);
        StepAtMostOne(Power(np.lacunarity, oct), spread);
      }
    }
  }

  lemma CoarseFinest(np: NoiseParams)
    requires np.lacunarity < 1.0
    ensures Finest(np) == 1.0
  {
  }
}
