// Noise maps: filling a lattice buffer once per octave and walking over it with carried corner
// values (src/noise.cpp:366-481, 496-751).

module NoiseBuffers {
  import opened Arithmetic
  import opened NoisePoints
  import opened LatticeWalk

  // The place of (x, y) in a buffer of nlx columns, and of (x, y, z) in one of nlx by nly.
  function Idx2(nlx: nat, x: nat, y: nat): nat {
    y * nlx + x
  }

  function Idx3(nlx: nat, nly: nat, x: nat, y: nat, z: nat): nat {
    z * nly * nlx + y * nlx + x
  }

  lemma Idx2Parts(nlx: nat, i: nat, j: nat)
    requires i < nlx
    ensures var n := Idx2(nlx, i, j); n % nlx == i && n / nlx == j
  {
    DivMod(nlx, i, j);
  }

  lemma Idx2Inside(nlx: nat, nly: nat, i: nat, j: nat)
    requires i < nlx && j < nly
    ensures Idx2(nlx, i, j) < nly * nlx
  {
    PlaceInside(nlx, nly, i, j);
  }

  // Counting through a row and on to the next.
  lemma Idx2Next(nlx: nat, i: nat, j: nat)
    ensures Idx2(nlx, i + 1, j) == Idx2(nlx, i, j) + 1
    ensures Idx2(nlx, nlx, j) == Idx2(nlx, 0, j + 1)
    ensures Idx2(nlx, 0, j) == j * nlx
  {
    assert (j + 1) * nlx == j * nlx + nlx;
  }

  // The first upto entries of buf are lattice values, row by row from corner (x0, y0).
  ghost predicate Filled2(buf: seq<real>, l: Lattice, x0: int, y0: int, nlx: nat, seed: int, upto: nat) {
    && nlx > 0 && upto <= |buf|
    && forall k: nat :: k < upto ==> buf[k] == l.at2(x0 + k % nlx, y0 + k / nlx, seed)
  }

  lemma FillNext2(buf: seq<real>, l: Lattice, x0: int, y0: int, nlx: nat, seed: int, i: nat, j: nat)
    requires i < nlx && Idx2(nlx, i, j) < |buf|
    requires Filled2(buf, l, x0, y0, nlx, seed, Idx2(nlx, i, j))
    ensures Filled2(buf[Idx2(nlx, i, j) := l.at2(x0 + i, y0 + j, seed)], l, x0, y0, nlx, seed, Idx2(nlx, i, j) + 1)
  {
    Idx2Parts(nlx, i, j);
    hide Idx2;
  }

  lemma ReadFilled2(buf: seq<real>, l: Lattice, x0: int, y0: int, nlx: nat, nly: nat, seed: int, i: nat, j: nat)
    requires Filled2(buf, l, x0, y0, nlx, seed, nly * nlx) && i < nlx && j < nly
    ensures Idx2(nlx, i, j) < |buf| && buf[Idx2(nlx, i, j)] == l.at2(x0 + i, y0 + j, seed)
  {
    Idx2Parts(nlx, i, j);
    Idx2Inside(nlx, nly, i, j);
    hide Idx2;
  }

  // The four corners of a cell are inside the buffer.
  lemma ReadCell2(buf: seq<real>, l: Lattice, x0: int, y0: int, nlx: nat, nly: nat, seed: int, i: nat, j: nat)
    requires Filled2(buf, l, x0, y0, nlx, seed, nly * nlx) && i + 1 < nlx && j + 1 < nly
    ensures 0 <= Idx2(nlx, i, j) < |buf| && buf[Idx2(nlx, i, j)] == l.at2(x0 + i, y0 + j, seed)
    ensures 0 <= Idx2(nlx, i + 1, j) < |buf| && buf[Idx2(nlx, i + 1, j)] == l.at2(x0 + i + 1, y0 + j, seed)
    ensures 0 <= Idx2(nlx, i, j + 1) < |buf| && buf[Idx2(nlx, i, j + 1)] == l.at2(x0 + i, y0 + j + 1, seed)
    ensures 0 <= Idx2(nlx, i + 1, j + 1) < |buf| && buf[Idx2(nlx, i + 1, j + 1)] == l.at2(x0 + i + 1, y0 + j + 1, seed)
  {
    hide Filled2, Idx2;
    ReadFilled2(buf, l, x0, y0, nlx, nly, seed, i, j);
    ReadFilled2(buf, l, x0, y0, nlx, nly, seed, i + 1, j);
    ReadFilled2(buf, l, x0, y0, nlx, nly, seed, i, j + 1);
    ReadFilled2(buf, l, x0, y0, nlx, nly, seed, i + 1, j + 1);
  }

  // The first upto entries are the noise at the points of a grid, row by row.
  ghost predicate Values2(buf: seq<real>, l: Lattice, x: real, y: real, stepX: real, stepY: real, sx: nat,
                          seed: int, eased: bool, upto: nat)
  {
    && sx > 0 && upto <= |buf|
    && forall k: nat :: k < upto ==> buf[k] == Grid2(l, x, y, stepX, stepY, k % sx, k / sx, seed, eased)
  }

  function Grid2(l: Lattice, x: real, y: real, stepX: real, stepY: real, i: nat, j: nat, seed: int, eased: bool): real {
    Noise2dValue(l, x + Mul(i as real, stepX), y + Mul(j as real, stepY), seed, eased)
  }

  lemma ValueNext2(buf: seq<real>, l: Lattice, x: real, y: real, stepX: real, stepY: real, sx: nat, seed: int,
                   eased: bool,
                   i: nat, j: nat, cx: nat, cy: nat, u: real, v: real)
    requires i < sx && Idx2(sx, i, j) < |buf|
    requires Values2(buf, l, x, y, stepX, stepY, sx, seed, eased, Idx2(sx, i, j))
    requires Walk(x, x.Floor, stepX, i, cx, u) && Walk(y, y.Floor, stepY, j, cy, v)
    ensures Values2(buf[Idx2(sx, i, j) := Cell2(l, x.Floor + cx, y.Floor + cy, u, v, seed, eased)],
                    l, x, y, stepX, stepY, sx, seed, eased, Idx2(sx, i, j) + 1)
  {
    Idx2Parts(sx, i, j);
    GridCell2(l, x, y, stepX, stepY, i, j, cx, cy, u, v, seed, eased);
    hide Grid2, Cell2, Walk, Idx2;
  }

  // The walk's cell and fractions are those of the grid point.
  lemma GridCell2(l: Lattice, x: real, y: real, stepX: real, stepY: real, i: nat, j: nat, cx: nat, cy: nat, u: real,
                  v: real,
                  seed: int, eased: bool)
    requires Walk(x, x.Floor, stepX, i, cx, u) && Walk(y, y.Floor, stepY, j, cy, v)
    ensures Grid2(l, x, y, stepX, stepY, i, j, seed, eased) == Cell2(l, x.Floor + cx, y.Floor + cy, u, v, seed, eased)
  {
    hide Noise2dValue, Cell2, Walk;
    WalkFloor(x, x.Floor, stepX, i, cx, u);
    WalkFloor(y, y.Floor, stepY, j, cy, v);
    Noise2dAtFloor(l, x + Mul(i as real, stepX), y + Mul(j as real, stepY), seed, eased);
  }

  // The first upto entries hold the sum of n octaves at the integer points from (x, y) on.
  ghost predicate Sums2(buf: seq<real>, l: Lattice, np: NoiseParams, x: real, y: real, sx: nat, seed: int, n: nat,
                        size: nat)
    requires PositiveSpread(np)
  {
    && sx > 0 && size <= |buf|
    && forall k: nat :: k < size ==> buf[k] == Sum2(l, np, x + (k % sx) as real, y + (k / sx) as real, seed, n)
  }

  // A grid whose step is the reciprocal of the octave's wavelength samples that octave at the
  // integer points.
  lemma GridIsOctave2(l: Lattice, np: NoiseParams, x: real, y: real, seed: int, n: nat, i: nat, j: nat)
    requires PositiveSpread(np)
    ensures var f := Power(np.lacunarity, n);
      Octave2(l, np, x + i as real, y + j as real, seed, n) == Mul(Power(np.persist, n),
        Absolute(np, Grid2(l, Mul(Div(x, np.spreadX), f), Mul(Div(y, np.spreadY), f), Div(f, np.spreadX),
                           Div(f, np.spreadY),
                           i, j, seed + np.seed + n, np.defaults || np.eased)))
  {
    hide Noise2dValue, Power, Absolute;
    var f := Power(np.lacunarity, n);
    ShiftedCoordinate(x, i as real, np.spreadX, f);
    ShiftedCoordinate(y, j as real, np.spreadY, f);
  }

  lemma ShiftedCoordinate(x: real, i: real, spread: real, f: real)
    requires spread > 0.0
    ensures Mul(Div(x + i, spread), f) == Mul(Div(x, spread), f) + Mul(i, Div(f, spread))
  {
    assert (x + i) / spread == x / spread + i / spread;
    assert (x / spread + i / spread) * f == x / spread * f + i / spread * f;
    assert i / spread * f == i * (f / spread);
  }

  // ---- the same in three dimensions

  ghost predicate Filled3(buf: seq<real>, l: Lattice, x0: int, y0: int, z0: int, nlx: nat, nly: nat, seed: int,
                          upto: nat)
  {
    && nlx > 0 && nly > 0 && upto <= |buf|
    && forall k: nat :: k < upto ==>
      buf[k] == l.at3(x0 + ColumnOf(k, nlx), y0 + RowOf(k, nlx, nly), z0 + PlaneOf(k, nlx, nly), seed)
  }

  // The coordinates of place n in such a buffer.
  function ColumnOf(n: nat, nlx: nat): nat
    requires nlx > 0
  {
    n % nlx
  }

  function RowOf(n: nat, nlx: nat, nly: nat): nat
    requires nlx > 0 && nly > 0
  {
    n / nlx % nly
  }

  function PlaneOf(n: nat, nlx: nat, nly: nat): nat
    requires nlx > 0 && nly > 0
  {
    n / nlx / nly
  }

  lemma IndexParts(nlx: nat, nly: nat, i: nat, j: nat, k: nat)
    requires i < nlx && j < nly
    ensures var n := Idx3(nlx, nly, i, j, k);
      ColumnOf(n, nlx) == i && RowOf(n, nlx, nly) == j && PlaneOf(n, nlx, nly) == k
  {
    assert Idx3(nlx, nly, i, j, k) == (k * nly + j) * nlx + i;
    DivMod(nlx, i, k * nly + j);
    DivMod(nly, j, k);
  }

  lemma IndexInside(nlx: nat, nly: nat, nlz: nat, i: nat, j: nat, k: nat)
    requires i < nlx && j < nly && k < nlz
    ensures Idx3(nlx, nly, i, j, k) < nlz * nly * nlx
  {
    assert Idx3(nlx, nly, i, j, k) == (k * nly + j) * nlx + i;
    PlaceInside(nly, nlz, j, k);
    PlaceInside(nlx, nlz * nly, i, k * nly + j);
  }

  lemma FillNext3(buf: seq<real>, l: Lattice, x0: int, y0: int, z0: int, nlx: nat, nly: nat, seed: int, i: nat,
                  j: nat, k: nat)
    requires i < nlx && j < nly && Idx3(nlx, nly, i, j, k) < |buf|
    requires Filled3(buf, l, x0, y0, z0, nlx, nly, seed, Idx3(nlx, nly, i, j, k))
    ensures var n := Idx3(nlx, nly, i, j, k);
      Filled3(buf[n := l.at3(x0 + i, y0 + j, z0 + k, seed)], l, x0, y0, z0, nlx, nly, seed, n + 1)
  {
    IndexParts(nlx, nly, i, j, k);
    hide Idx3, ColumnOf, RowOf, PlaneOf;
  }

  lemma ReadFilled3(buf: seq<real>, l: Lattice, x0: int, y0: int, z0: int, nlx: nat, nly: nat, nlz: nat, seed: int,
                    i: nat, j: nat, k: nat)
    requires Filled3(buf, l, x0, y0, z0, nlx, nly, seed, nlz * nly * nlx) && i < nlx && j < nly && k < nlz
    ensures Idx3(nlx, nly, i, j, k) < |buf|
    ensures buf[Idx3(nlx, nly, i, j, k)] == l.at3(x0 + i, y0 + j, z0 + k, seed)
  {
    IndexParts(nlx, nly, i, j, k);
    IndexInside(nlx, nly, nlz, i, j, k);
    hide Idx3, ColumnOf, RowOf, PlaneOf;
  }

  function Grid3(l: Lattice, x: real, y: real, z: real, stepX: real, stepY: real, stepZ: real, i: nat, j: nat, k: nat,
                 seed: int, eased: bool): real
  {
    Noise3dValue(l, x + Mul(i as real, stepX), y + Mul(j as real, stepY), z + Mul(k as real, stepZ), seed, eased)
  }

  ghost predicate Values3(buf: seq<real>, l: Lattice, x: real, y: real, z: real, stepX: real, stepY: real, stepZ: real,
                          sx: nat, sy: nat, seed: int, eased: bool, upto: nat)
  {
    && sx > 0 && sy > 0 && upto <= |buf|
    && forall n: nat :: n < upto ==>
         buf[n] == Grid3(l, x, y, z, stepX, stepY, stepZ, ColumnOf(n, sx), RowOf(n, sx, sy), PlaneOf(n, sx, sy), seed,
                         eased)
  }

  lemma GridCell3(l: Lattice, x: real, y: real, z: real, stepX: real, stepY: real, stepZ: real, i: nat, j: nat, k: nat,
                  cx: nat, cy: nat, cz: nat, u: real, v: real, w: real, seed: int, eased: bool)
    requires Walk(x, x.Floor, stepX, i, cx, u) && Walk(y, y.Floor, stepY, j, cy, v) && Walk(z, z.Floor, stepZ, k, cz, w)
    ensures Grid3(l, x, y, z, stepX, stepY, stepZ, i, j, k, seed, eased)
      == Cell3(l, x.Floor + cx, y.Floor + cy, z.Floor + cz, u, v, w, seed, eased)
  {
    hide Noise3dValue, Cell3, Walk;
    WalkFloor(x, x.Floor, stepX, i, cx, u);
    WalkFloor(y, y.Floor, stepY, j, cy, v);
    WalkFloor(z, z.Floor, stepZ, k, cz, w);
    Noise3dAtFloor(l, x + Mul(i as real, stepX), y + Mul(j as real, stepY), z + Mul(k as real, stepZ), seed, eased);
  }

  lemma ValueNext3(buf: seq<real>, l: Lattice, x: real, y: real, z: real, stepX: real, stepY: real, stepZ: real,
                   sx: nat, sy: nat, seed: int, eased: bool, i: nat, j: nat, k: nat,
                   cx: nat, cy: nat, cz: nat, u: real, v: real, w: real)
    requires i < sx && j < sy && Idx3(sx, sy, i, j, k) < |buf|
    requires Values3(buf, l, x, y, z, stepX, stepY, stepZ, sx, sy, seed, eased, Idx3(sx, sy, i, j, k))
    requires Walk(x, x.Floor, stepX, i, cx, u) && Walk(y, y.Floor, stepY, j, cy, v) && Walk(z, z.Floor, stepZ, k, cz, w)
    ensures var n := Idx3(sx, sy, i, j, k);
      Values3(buf[n := Cell3(l, x.Floor + cx, y.Floor + cy, z.Floor + cz, u, v, w, seed, eased)],
              l, x, y, z, stepX, stepY, stepZ, sx, sy, seed, eased, n + 1)
  {
    IndexParts(sx, sy, i, j, k);
    GridCell3(l, x, y, z, stepX, stepY, stepZ, i, j, k, cx, cy, cz, u, v, w, seed, eased);
    hide Grid3, Cell3, Walk, Idx3, ColumnOf, RowOf, PlaneOf;
  }

  ghost predicate Sums3(buf: seq<real>, l: Lattice, np: NoiseParams, x: real, y: real, z: real, sx: nat, sy: nat,
                        seed: int, n: nat, size: nat)
    requires PositiveSpread(np)
  {
    && sx > 0 && sy > 0 && size <= |buf|
    && forall k: nat :: k < size ==>
         buf[k] == Sum3(l, np, x + ColumnOf(k, sx) as real, y + RowOf(k, sx, sy) as real,
                        z + PlaneOf(k, sx, sy) as real, seed, n)
  }

  lemma GridIsOctave3(l: Lattice, np: NoiseParams, x: real, y: real, z: real, seed: int, n: nat, i: nat, j: nat, k: nat)
    requires PositiveSpread(np)
    ensures var f := Power(np.lacunarity, n);
      Octave3(l, np, x + i as real, y + j as real, z + k as real, seed, n) == Mul(Power(np.persist, n),
        Absolute(np, Grid3(l, Mul(Div(x, np.spreadX), f), Mul(Div(y, np.spreadY), f), Mul(Div(z, np.spreadZ), f),
                           Div(f, np.spreadX), Div(f, np.spreadY), Div(f, np.spreadZ), i, j, k, seed + np.seed + n,
                           np.eased)))
  {
    hide Noise3dValue, Power, Absolute;
    var f := Power(np.lacunarity, n);
    ShiftedCoordinate(x, i as real, np.spreadX, f);
    ShiftedCoordinate(y, j as real, np.spreadY, f);
    ShiftedCoordinate(z, k as real, np.spreadZ, f);
  }

  lemma IndexNext(nlx: nat, nly: nat, i: nat, j: nat, k: nat)
    ensures Idx3(nlx, nly, i + 1, j, k) == Idx3(nlx, nly, i, j, k) + 1
  {
  }

  lemma IndexRow(nlx: nat, nly: nat, j: nat, k: nat)
    ensures Idx3(nlx, nly, nlx, j, k) == Idx3(nlx, nly, 0, j + 1, k)
  {
    assert (j + 1) * nlx == j * nlx + nlx;
  }

  lemma IndexPlane(nlx: nat, nly: nat, k: nat)
    ensures Idx3(nlx, nly, 0, nly, k) == Idx3(nlx, nly, 0, 0, k + 1)
  {
    assert (k + 1) * nly * nlx == k * nly * nlx + nly * nlx;
  }

  lemma IndexStart(nlx: nat, nly: nat, k: nat)
    ensures Idx3(nlx, nly, 0, 0, k) == k * nly * nlx
  {
  }

  lemma FilledStart2(buf: seq<real>, l: Lattice, x0: int, y0: int, nlx: nat, seed: int)
    requires nlx > 0
    ensures Filled2(buf, l, x0, y0, nlx, seed, 0)
  {
  }

  lemma FilledStart3(buf: seq<real>, l: Lattice, x0: int, y0: int, z0: int, nlx: nat, nly: nat, seed: int)
    requires nlx > 0 && nly > 0
    ensures Filled3(buf, l, x0, y0, z0, nlx, nly, seed, 0)
  {
  }

  lemma ValuesStart3(buf: seq<real>, l: Lattice, x: real, y: real, z: real, stepX: real, stepY: real, stepZ: real,
                     sx: nat, sy: nat, seed: int, eased: bool)
    requires sx > 0 && sy > 0
    ensures Values3(buf, l, x, y, z, stepX, stepY, stepZ, sx, sy, seed, eased, 0)
  {
  }

  // The eight corners of a cell, named by their offsets in x, y and z.
  ghost predicate Corners3(l: Lattice, x: int, y: int, z: int, seed: int, v000: real, v100: real, v010: real,
                           v110: real,
                           v001: real, v101: real, v011: real, v111: real)
  {
    && v000 == l.at3(x, y, z, seed) && v100 == l.at3(x + 1, y, z, seed)
    && v010 == l.at3(x, y + 1, z, seed) && v110 == l.at3(x + 1, y + 1, z, seed)
    && v001 == l.at3(x, y, z + 1, seed) && v101 == l.at3(x + 1, y, z + 1, seed)
    && v011 == l.at3(x, y + 1, z + 1, seed) && v111 == l.at3(x + 1, y + 1, z + 1, seed)
  }

  lemma CornersGiveCell(l: Lattice, x: int, y: int, z: int, seed: int, v000: real, v100: real, v010: real, v110: real,
                        v001: real, v101: real, v011: real, v111: real, u: real, v: real, w: real, eased: bool)
    requires Corners3(l, x, y, z, seed, v000, v100, v010, v110, v001, v101, v011, v111)
    ensures TriLinear(v000, v100, v010, v110, v001, v101, v011, v111, u, v, w, eased) ==
      Cell3(l, x, y, z, u, v, w, seed, eased)
  {
    hide TriLinear;
  }

  // The buffer holds the lattice value of one point at its place.
  ghost predicate Holds3(buf: seq<real>, l: Lattice, x0: int, y0: int, z0: int, nlx: nat, nly: nat, seed: int, i: nat,
                         j: nat, k: nat)
  {
    var n := Idx3(nlx, nly, i, j, k);
    n < |buf| && buf[n] == l.at3(x0 + i, y0 + j, z0 + k, seed)
  }

  // The eight corners of a cell are inside the buffer.
  lemma ReadCell3(buf: seq<real>, l: Lattice, x0: int, y0: int, z0: int, nlx: nat, nly: nat, nlz: nat, seed: int,
                  i: nat, j: nat, k: nat)
    requires Filled3(buf, l, x0, y0, z0, nlx, nly, seed, nlz * nly * nlx) && i + 1 < nlx && j + 1 < nly && k + 1 < nlz
    ensures Holds3(buf, l, x0, y0, z0, nlx, nly, seed, i, j, k)
    ensures Holds3(buf, l, x0, y0, z0, nlx, nly, seed, i + 1, j, k)
    ensures Holds3(buf, l, x0, y0, z0, nlx, nly, seed, i, j + 1, k)
    ensures Holds3(buf, l, x0, y0, z0, nlx, nly, seed, i + 1, j + 1, k)
    ensures Holds3(buf, l, x0, y0, z0, nlx, nly, seed, i, j, k + 1)
    ensures Holds3(buf, l, x0, y0, z0, nlx, nly, seed, i + 1, j, k + 1)
    ensures Holds3(buf, l, x0, y0, z0, nlx, nly, seed, i, j + 1, k + 1)
    ensures Holds3(buf, l, x0, y0, z0, nlx, nly, seed, i + 1, j + 1, k + 1)
  {
    hide Filled3, Idx3;
    ReadFilled3(buf, l, x0, y0, z0, nlx, nly, nlz, seed, i, j, k);
    ReadFilled3(buf, l, x0, y0, z0, nlx, nly, nlz, seed, i + 1, j, k);
    ReadFilled3(buf, l, x0, y0, z0, nlx, nly, nlz, seed, i, j + 1, k);
    ReadFilled3(buf, l, x0, y0, z0, nlx, nly, nlz, seed, i + 1, j + 1, k);
    ReadFilled3(buf, l, x0, y0, z0, nlx, nly, nlz, seed, i, j, k + 1);
    ReadFilled3(buf, l, x0, y0, z0, nlx, nly, nlz, seed, i + 1, j, k + 1);
    ReadFilled3(buf, l, x0, y0, z0, nlx, nly, nlz, seed, i, j + 1, k + 1);
    ReadFilled3(buf, l, x0, y0, z0, nlx, nly, nlz, seed, i + 1, j + 1, k + 1);
  }

  // Corners read from the buffer are the corners of the cell.
  lemma CornersRead(buf: seq<real>, l: Lattice, x0: int, y0: int, z0: int, nlx: nat, nly: nat, nlz: nat, seed: int,
                    i: nat, j: nat, k: nat, v000: real, v100: real, v010: real, v110: real, v001: real, v101: real,
                    v011: real, v111: real)
    requires Filled3(buf, l, x0, y0, z0, nlx, nly, seed, nlz * nly * nlx) && i + 1 < nlx && j + 1 < nly && k + 1 < nlz
    requires Stored3(buf, nlx, nly, i, j, k, v000) && Stored3(buf, nlx, nly, i + 1, j, k, v100)
    requires Stored3(buf, nlx, nly, i, j + 1, k, v010) && Stored3(buf, nlx, nly, i + 1, j + 1, k, v110)
    requires Stored3(buf, nlx, nly, i, j, k + 1, v001) && Stored3(buf, nlx, nly, i + 1, j, k + 1, v101)
    requires Stored3(buf, nlx, nly, i, j + 1, k + 1, v011) && Stored3(buf, nlx, nly, i + 1, j + 1, k + 1, v111)
    ensures Corners3(l, x0 + i, y0 + j, z0 + k, seed, v000, v100, v010, v110, v001, v101, v011, v111)
  {
    hide Filled3, Idx3;
    ReadCell3(buf, l, x0, y0, z0, nlx, nly, nlz, seed, i, j, k);
  }

  ghost predicate Stored3(buf: seq<real>, nlx: nat, nly: nat, i: nat, j: nat, k: nat, v: real) {
    Idx3(nlx, nly, i, j, k) < |buf| && v == buf[Idx3(nlx, nly, i, j, k)]
  }

  ghost predicate CornerPlaces(nlx: nat, nly: nat, i: nat, j: nat, k: nat, size: nat) {
    && Idx3(nlx, nly, i, j, k) < size && Idx3(nlx, nly, i + 1, j, k) < size
    && Idx3(nlx, nly, i, j + 1, k) < size && Idx3(nlx, nly, i + 1, j + 1, k) < size
    && Idx3(nlx, nly, i, j, k + 1) < size && Idx3(nlx, nly, i + 1, j, k + 1) < size
    && Idx3(nlx, nly, i, j + 1, k + 1) < size && Idx3(nlx, nly, i + 1, j + 1, k + 1) < size
  }

  // All eight places of a cell are inside the buffer.
  lemma CornersInside(buf: seq<real>, l: Lattice, x0: int, y0: int, z0: int, nlx: nat, nly: nat, nlz: nat, seed: int,
                      i: nat, j: nat, k: nat)
    requires Filled3(buf, l, x0, y0, z0, nlx, nly, seed, nlz * nly * nlx) && i + 1 < nlx && j + 1 < nly && k + 1 < nlz
    ensures CornerPlaces(nlx, nly, i, j, k, |buf|)
  {
    hide Idx3;
    IndexInside(nlx, nly, nlz, i, j, k);
    IndexInside(nlx, nly, nlz, i + 1, j, k);
    IndexInside(nlx, nly, nlz, i, j + 1, k);
    IndexInside(nlx, nly, nlz, i + 1, j + 1, k);
    IndexInside(nlx, nly, nlz, i, j, k + 1);
    IndexInside(nlx, nly, nlz, i + 1, j, k + 1);
    IndexInside(nlx, nly, nlz, i, j + 1, k + 1);
    IndexInside(nlx, nly, nlz, i + 1, j + 1, k + 1);
  }

  // The corners on the far side in x are the near ones of the next cell; only four are read anew.
  lemma CornersNext(buf: seq<real>, l: Lattice, x0: int, y0: int, z0: int, nlx: nat, nly: nat, nlz: nat, seed: int,
                    i: nat, j: nat, k: nat, v000: real, v100: real, v010: real, v110: real, v001: real, v101: real,
                    v011: real, v111: real,
                    w100: real, w110: real, w101: real, w111: real)
    requires Filled3(buf, l, x0, y0, z0, nlx, nly, seed, nlz * nly * nlx) && i + 2 < nlx && j + 1 < nly && k + 1 < nlz
    requires Corners3(l, x0 + i, y0 + j, z0 + k, seed, v000, v100, v010, v110, v001, v101, v011, v111)
    requires CornerPlaces(nlx, nly, i + 1, j, k, |buf|)
    requires w100 == buf[Idx3(nlx, nly, i + 2, j, k)] && w110 == buf[Idx3(nlx, nly, i + 2, j + 1, k)]
    requires w101 == buf[Idx3(nlx, nly, i + 2, j, k + 1)] && w111 == buf[Idx3(nlx, nly, i + 2, j + 1, k + 1)]
    ensures Corners3(l, x0 + i + 1, y0 + j, z0 + k, seed, v100, w100, v110, w110, v101, w101, v111, w111)
  {
    hide Filled3, Idx3;
    ReadCell3(buf, l, x0, y0, z0, nlx, nly, nlz, seed, i + 1, j, k);
  }

  lemma SumsStart3(buf: seq<real>, l: Lattice, np: NoiseParams, x: real, y: real, z: real, sx: nat, sy: nat,
                   seed: int, size: nat)
    requires PositiveSpread(np) && sx > 0 && sy > 0 && size <= |buf|
    requires forall k :: 0 <= k < size ==> buf[k] == 0.0
    ensures Sums3(buf, l, np, x, y, z, sx, sy, seed, 0, size)
  {
  }

  lemma SumsNext3(sums: seq<real>, values: seq<real>, sums': seq<real>, l: Lattice, np: NoiseParams, x: real, y: real,
                  z: real,
                  sx: nat, sy: nat, seed: int, n: nat, size: nat)
    requires PositiveSpread(np) && |sums| == |sums'| && size <= |values|
    requires Sums3(sums, l, np, x, y, z, sx, sy, seed, n, size)
    requires var f := Power(np.lacunarity, n);
      Values3(values, l, Mul(Div(x, np.spreadX), f), Mul(Div(y, np.spreadY), f), Mul(Div(z, np.spreadZ), f),
              Div(f, np.spreadX), Div(f, np.spreadY), Div(f, np.spreadZ), sx, sy, seed + np.seed + n, np.eased, size)
    requires forall k :: 0 <= k < size ==> sums'[k] == sums[k] + Mul(Power(np.persist, n), Absolute(np, values[k]))
    ensures Sums3(sums', l, np, x, y, z, sx, sy, seed, n + 1, size)
  {
    hide ColumnOf, RowOf, PlaneOf, Grid3, Octave3, Power, Mul, Div, Absolute;
    forall k: nat | k < size
      ensures sums'[k] ==
        Sum3(l, np, x + ColumnOf(k, sx) as real, y + RowOf(k, sx, sy) as real, z + PlaneOf(k, sx, sy) as real, seed,
             n + 1)
    {
      GridIsOctave3(l, np, x, y, z, seed, n, ColumnOf(k, sx), RowOf(k, sx, sy), PlaneOf(k, sx, sy));
    }
  }
}

module NoiseMaps {
  import opened Arithmetic
  import opened NoisePoints
  import opened LatticeWalk
  import opened NoiseRoom
  import opened NoiseBuffers

  class Noise {
    const lattice: Lattice
    const np: NoiseParams
    const seed: int
    const sx: nat
    const sy: nat
    const sz: nat
    const noiseBuf: array<real>
    const valueBuf: array<real>
    const result: array<real>

    // The sizes the constructor allocates, for parameters that are not rejected.
    ghost predicate Valid() {
      && PositiveSpread(np) && sx >= 1 && sy >= 1 && sz >= 1
      && Accepted(np, sx, sy, sz)
      && noiseBuf != valueBuf && noiseBuf != result && valueBuf != result
      && valueBuf.Length == result.Length == sz * sy * sx >= sy * sx
      && noiseBuf.Length == Capacity(np, sx, sy, sz)
    }

    // Sizes below 1 are raised to 1.
    constructor (lattice: Lattice, np: NoiseParams, seed: int, sx: nat, sy: nat, sz: nat)
      requires PositiveSpread(np)
      requires Accepted(np, if sx < 1 then 1 else sx, if sy < 1 then 1 else sy, if sz < 1 then 1 else sz)
      ensures Valid() && this.lattice == lattice && this.np == np && this.seed == seed
      ensures this.sx == (if sx < 1 then 1 else sx) && this.sy == (if sy < 1 then 1 else sy)
        && this.sz == (if sz < 1 then 1 else sz)
      ensures fresh(noiseBuf) && fresh(valueBuf) && fresh(result)
    {
      hide Accepted, Capacity;
      var x: nat, y: nat, z: nat := if sx < 1 then 1 else sx, if sy < 1 then 1 else sy, if sz < 1 then 1 else sz;
      CapacityPositive(np, x, y, z);
      PlaneFits(x, y, z);
      var size := z * y * x;
      this.lattice, this.np, this.seed := lattice, np, seed;
      this.sx, this.sy, this.sz := x, y, z;
      noiseBuf := new real[Capacity(np, x, y, z)];
      valueBuf := new real[size];
      result := new real[size];
    }

    // One octave on a grid of sx by sy points: each value is that of the point function.
    method ValueMap2D(x: real, y: real, stepX: real, stepY: real, seed: int)
      requires Valid() && 0.0 <= stepX <= 1.0 && 0.0 <= stepY <= 1.0
      requires Points(y, stepY, sy) * Points(x, stepX, sx) <= noiseBuf.Length
      modifies noiseBuf, valueBuf
      ensures Values2(valueBuf[..], lattice, x, y, stepX, stepY, sx, seed, np.defaults || np.eased, sy * sx)
    {
      hide Filled2, Values2, Walk, Points, Accepted, Capacity, BiLinear, Idx2;
      var eased := np.defaults || np.eased;
      var x0, y0 := x.Floor, y.Floor;
      var u, v := x - x0 as real, y - y0 as real;
      var origU := u;
      PointsAtLeastTwo(x, stepX, sx);
      PointsAtLeastTwo(y, stepY, sy);
      var nlx: nat, nly: nat := Points(x, stepX, sx), Points(y, stepY, sy);
      FillLattice2(x0, y0, nlx, nly, seed);

      Idx2Next(sx, 0, 0);
      var index, noiseY := 0, 0;
      WalkStart(y, stepY);
      ValuesStart2(valueBuf[..], lattice, x, y, stepX, stepY, sx, seed, eased);
      for j := 0 to sy
        invariant index == Idx2(sx, 0, j)
        invariant Filled2(noiseBuf[..], lattice, x0, y0, nlx, seed, nly * nlx)
        invariant Walk(y, y0, stepY, j, noiseY, v)
        invariant Values2(valueBuf[..], lattice, x, y, stepX, stepY, sx, seed, eased, index)
      {
        WalkInside(y, stepY, sy, j, noiseY, v);
        WalkStart(x, stepX);
        WalkInside(x, stepX, sx, 0, 0, origU);
        ReadCell2(noiseBuf[..], lattice, x0, y0, nlx, nly, seed, 0, noiseY);
        var v00 := noiseBuf[Idx2(nlx, 0, noiseY)];
        var v10 := noiseBuf[Idx2(nlx, 1, noiseY)];
        var v01 := noiseBuf[Idx2(nlx, 0, noiseY + 1)];
        var v11 := noiseBuf[Idx2(nlx, 1, noiseY + 1)];
        u := origU;
        var noiseX := 0;
        for i := 0 to sx
          invariant index == Idx2(sx, i, j)
          invariant Filled2(noiseBuf[..], lattice, x0, y0, nlx, seed, nly * nlx)
          invariant Walk(x, x0, stepX, i, noiseX, u)
          invariant v00 == lattice.at2(x0 + noiseX, y0 + noiseY, seed)
            && v10 == lattice.at2(x0 + noiseX + 1, y0 + noiseY, seed)
          invariant v01 == lattice.at2(x0 + noiseX, y0 + noiseY + 1, seed)
          invariant v11 == lattice.at2(x0 + noiseX + 1, y0 + noiseY + 1, seed)
          invariant Values2(valueBuf[..], lattice, x, y, stepX, stepY, sx, seed, eased, index)
        {
          Idx2Inside(sx, sy, i, j);
          ghost var before := valueBuf[..];
          ValueNext2(before, lattice, x, y, stepX, stepY, sx, seed, eased, i, j, noiseX, noiseY, u, v);
          valueBuf[index] := BiLinear(v00, v10, v01, v11, u, v, eased);
          assert valueBuf[..] == before[index := Cell2(lattice, x0 + noiseX, y0 + noiseY, u, v, seed, eased)];
          Idx2Next(sx, i, j);
          index := index + 1;

          WalkNext(x, x0, stepX, i, noiseX, u);
          u := u + stepX;
          if u >= 1.0 {
            u := u - 1.0;
            noiseX := noiseX + 1;
            v00 := v10;
            v01 := v11;
            WalkInside(x, stepX, sx, i + 1, noiseX, u);
            ReadCell2(noiseBuf[..], lattice, x0, y0, nlx, nly, seed, noiseX, noiseY);
            v10 := noiseBuf[Idx2(nlx, noiseX + 1, noiseY)];
            v11 := noiseBuf[Idx2(nlx, noiseX + 1, noiseY + 1)];
          }
        }
        Idx2Next(sx, sx, j);
        WalkNext(y, y0, stepY, j, noiseY, v);
        v := v + stepY;
        if v >= 1.0 {
          v := v - 1.0;
          noiseY := noiseY + 1;
        }
      }
      Idx2Next(sx, 0, sy);
    }

    // 2D map: every entry is the rescaled octave sum at its integer offset from (x, y).
    method NoiseMap2D(x: real, y: real)
      requires Valid() && Room2(np, sx, sy, noiseBuf.Length)
      modifies noiseBuf, valueBuf, result
      ensures forall k: nat :: k < sy * sx ==>
        result[k] == Rescaled(np, Sum2(lattice, np, x + (k % sx) as real, y + (k / sx) as real, seed, np.octaves))
      // which is the point function's value unless the parameters are close to 0 and 1 without being that
      ensures ExactParameters(np) ==>
        forall k: nat :: k < sy * sx ==>
          result[k] == Fractal2(lattice, np, x + (k % sx) as real, y + (k / sx) as real, seed)
    {
      hide Values2, Accepted, Capacity, Rescaled, ExactParameters, Fractal2, Mul, Div;
      var f, g := 1.0, 1.0;
      var x', y' := Div(x, np.spreadX), Div(y, np.spreadY);
      var bufsize := sy * sx;
      for i := 0 to bufsize
        invariant forall k :: 0 <= k < i ==> result[k] == 0.0
      {
        result[i] := 0.0;
      }
      SumsStart2(result[..], lattice, np, x, y, sx, seed, bufsize);
      for oct := 0 to np.octaves
        invariant f == Power(np.lacunarity, oct) && g == Power(np.persist, oct)
        invariant Sums2(result[..], lattice, np, x, y, sx, seed, oct, bufsize)
      {
        hide Sums2, Power, Mul, Div, Points;
        Fits2(oct, x, y);
        ValueMap2D(Mul(x', f), Mul(y', f), Div(f, np.spreadX), Div(f, np.spreadY), seed + np.seed + oct);
        ghost var sums := result[..];
        UpdateResults(g, bufsize);
        SumsNext2(sums, valueBuf[..], result[..], lattice, np, x, y, sx, seed, oct, bufsize);
        PowerNext(np.lacunarity, oct);
        PowerNext(np.persist, oct);
        f := Mul(f, np.lacunarity);
        g := Mul(g, np.persist);
      }
      Rescale(bufsize);
      if ExactParameters(np) {
        forall k: nat | k < sy * sx
          ensures result[k] == Fractal2(lattice, np, x + (k % sx) as real, y + (k / sx) as real, seed)
        {
          RescaledIsFractal2(lattice, np, x + (k % sx) as real, y + (k / sx) as real, seed);
        }
      }
    }

    // One octave on a grid of sx by sy by sz points.
    method ValueMap3D(x: real, y: real, z: real, stepX: real, stepY: real, stepZ: real, seed: int)
      requires Valid() && 0.0 <= stepX <= 1.0 && 0.0 <= stepY <= 1.0 && 0.0 <= stepZ <= 1.0
      requires Points(z, stepZ, sz) * Points(y, stepY, sy) * Points(x, stepX, sx) <= noiseBuf.Length
      modifies noiseBuf, valueBuf
      ensures Values3(valueBuf[..], lattice, x, y, z, stepX, stepY, stepZ, sx, sy, seed, np.eased, sz * sy * sx)
    {
      hide Filled3, Values3, Walk, Points, Accepted, Capacity, TriLinear, Idx3, Corners3;
      var eased := np.eased;
      var x0, y0, z0 := x.Floor, y.Floor, z.Floor;
      var u, v, w := x - x0 as real, y - y0 as real, z - z0 as real;
      var origU, origV := u, v;
      PointsAtLeastTwo(x, stepX, sx);
      PointsAtLeastTwo(y, stepY, sy);
      PointsAtLeastTwo(z, stepZ, sz);
      var nlx: nat, nly: nat, nlz: nat := Points(x, stepX, sx), Points(y, stepY, sy), Points(z, stepZ, sz);
      FillLattice3(x0, y0, z0, nlx, nly, nlz, seed);

      var index, noiseZ := 0, 0;
      WalkStart(z, stepZ);
      ValuesStart3(valueBuf[..], lattice, x, y, z, stepX, stepY, stepZ, sx, sy, seed, eased);
      IndexStart(sx, sy, 0);
      for k := 0 to sz
        invariant index == Idx3(sx, sy, 0, 0, k)
        invariant Filled3(noiseBuf[..], lattice, x0, y0, z0, nlx, nly, seed, nlz * nly * nlx)
        invariant Walk(z, z0, stepZ, k, noiseZ, w)
        invariant Values3(valueBuf[..], lattice, x, y, z, stepX, stepY, stepZ, sx, sy, seed, eased, index)
      {
        WalkInside(z, stepZ, sz, k, noiseZ, w);
        WalkStart(y, stepY);
        v := origV;
        var noiseY := 0;
        for j := 0 to sy
          invariant index == Idx3(sx, sy, 0, j, k)
          invariant Filled3(noiseBuf[..], lattice, x0, y0, z0, nlx, nly, seed, nlz * nly * nlx)
          invariant Walk(y, y0, stepY, j, noiseY, v)
          invariant Values3(valueBuf[..], lattice, x, y, z, stepX, stepY, stepZ, sx, sy, seed, eased, index)
        {
          WalkInside(y, stepY, sy, j, noiseY, v);
          index := ValueRow3(x, y, z, stepX, stepY, stepZ, seed, nlx, nly, nlz, j, k, noiseY, noiseZ, origU, v, w,
                             index,
            nlz * nly * nlx);
          IndexRow(sx, sy, j, k);
          WalkNext(y, y0, stepY, j, noiseY, v);
          v := v + stepY;
          if v >= 1.0 {
            v := v - 1.0;
            noiseY := noiseY + 1;
          }
        }
        IndexPlane(sx, sy, k);
        WalkNext(z, z0, stepZ, k, noiseZ, w);
        w := w + stepZ;
        if w >= 1.0 {
          w := w - 1.0;
          noiseZ := noiseZ + 1;
        }
      }
      IndexStart(sx, sy, sz);
    }

    // The innermost loop: one row of values, carrying the four corners shared by neighbouring cells.
    method ValueRow3(x: real, y: real, z: real, stepX: real, stepY: real, stepZ: real, seed: int,
                     nlx: nat, nly: nat, nlz: nat, j: nat, k: nat, noiseY: nat, noiseZ: nat, origU: real, v: real,
                     w: real, start: nat,
                     ghost size: nat)
      returns (index: nat)
      requires Valid() && 0.0 <= stepX <= 1.0 && j < sy && k < sz && start == Idx3(sx, sy, 0, j, k)
      requires nlx == Points(x, stepX, sx) && origU == x - x.Floor as real && noiseY + 1 < nly && noiseZ + 1 < nlz
      requires size == nlz * nly * nlx
      requires Filled3(noiseBuf[..], lattice, x.Floor, y.Floor, z.Floor, nlx, nly, seed, size)
      requires Walk(y, y.Floor, stepY, j, noiseY, v) && Walk(z, z.Floor, stepZ, k, noiseZ, w)
      requires Values3(valueBuf[..], lattice, x, y, z, stepX, stepY, stepZ, sx, sy, seed, np.eased, start)
      modifies valueBuf
      ensures index == Idx3(sx, sy, sx, j, k)
      ensures Values3(valueBuf[..], lattice, x, y, z, stepX, stepY, stepZ, sx, sy, seed, np.eased, index)
    {
      hide Filled3, Values3, Walk, Points, Accepted, Capacity, TriLinear, Idx3, Corners3;
      var x0, y0, z0 := x.Floor, y.Floor, z.Floor;
      index := start;
      WalkStart(x, stepX);
      WalkInside(x, stepX, sx, 0, 0, origU);
      CornersInside(noiseBuf[..], lattice, x0, y0, z0, nlx, nly, nlz, seed, 0, noiseY, noiseZ);
      var v000 := noiseBuf[Idx3(nlx, nly, 0, noiseY, noiseZ)];
      var v100 := noiseBuf[Idx3(nlx, nly, 1, noiseY, noiseZ)];
      var v010 := noiseBuf[Idx3(nlx, nly, 0, noiseY + 1, noiseZ)];
      var v110 := noiseBuf[Idx3(nlx, nly, 1, noiseY + 1, noiseZ)];
      var v001 := noiseBuf[Idx3(nlx, nly, 0, noiseY, noiseZ + 1)];
      var v101 := noiseBuf[Idx3(nlx, nly, 1, noiseY, noiseZ + 1)];
      var v011 := noiseBuf[Idx3(nlx, nly, 0, noiseY + 1, noiseZ + 1)];
      var v111 := noiseBuf[Idx3(nlx, nly, 1, noiseY + 1, noiseZ + 1)];
      CornersRead(noiseBuf[..], lattice, x0, y0, z0, nlx, nly, nlz, seed, 0, noiseY, noiseZ, v000, v100, v010, v110,
                  v001, v101, v011, v111);
      var u, noiseX := origU, 0;
      for i := 0 to sx
        invariant index == Idx3(sx, sy, i, j, k)
        invariant Walk(x, x0, stepX, i, noiseX, u)
        invariant Corners3(lattice, x0 + noiseX, y0 + noiseY, z0 + noiseZ, seed, v000, v100, v010, v110, v001, v101,
                           v011, v111)
        invariant Values3(valueBuf[..], lattice, x, y, z, stepX, stepY, stepZ, sx, sy, seed, np.eased, index)
      {
        IndexInside(sx, sy, sz, i, j, k);
        ghost var before := valueBuf[..];
        ValueNext3(before, lattice, x, y, z, stepX, stepY, stepZ, sx, sy, seed, np.eased, i, j, k, noiseX, noiseY,
                   noiseZ, u, v, w);
        CornersGiveCell(lattice, x0 + noiseX, y0 + noiseY, z0 + noiseZ, seed,
                        v000, v100, v010, v110, v001, v101, v011, v111, u, v, w, np.eased);
        valueBuf[index] := TriLinear(v000, v100, v010, v110, v001, v101, v011, v111, u, v, w, np.eased);
        assert valueBuf[..] ==
          before[index := Cell3(lattice, x0 + noiseX, y0 + noiseY, z0 + noiseZ, u, v, w, seed, np.eased)];
        IndexNext(sx, sy, i, j, k);
        index := index + 1;

        WalkNext(x, x0, stepX, i, noiseX, u);
        u := u + stepX;
        if u >= 1.0 {
          u := u - 1.0;
          WalkInside(x, stepX, sx, i + 1, noiseX + 1, u);
          CornersInside(noiseBuf[..], lattice, x0, y0, z0, nlx, nly, nlz, seed, noiseX + 1, noiseY, noiseZ);
          var w100 := noiseBuf[Idx3(nlx, nly, noiseX + 2, noiseY, noiseZ)];
          var w110 := noiseBuf[Idx3(nlx, nly, noiseX + 2, noiseY + 1, noiseZ)];
          var w101 := noiseBuf[Idx3(nlx, nly, noiseX + 2, noiseY, noiseZ + 1)];
          var w111 := noiseBuf[Idx3(nlx, nly, noiseX + 2, noiseY + 1, noiseZ + 1)];
          CornersNext(noiseBuf[..], lattice, x0, y0, z0, nlx, nly, nlz, seed, noiseX, noiseY, noiseZ,
            v000, v100, v010, v110, v001, v101, v011, v111, w100, w110, w101, w111);
          noiseX := noiseX + 1;
          v000, v010, v100, v110 := v100, v110, w100, w110;
          v001, v011, v101, v111 := v101, v111, w101, w111;
        }
      }
    }

    method FillLattice3(x0: int, y0: int, z0: int, nlx: nat, nly: nat, nlz: nat, seed: int)
      requires Valid() && nlx > 0 && nly > 0 && nlz * nly * nlx <= noiseBuf.Length
      modifies noiseBuf
      ensures Filled3(noiseBuf[..], lattice, x0, y0, z0, nlx, nly, seed, nlz * nly * nlx)
    {
      hide Accepted, Capacity, Idx3, Filled3;
      FilledStart3(noiseBuf[..], lattice, x0, y0, z0, nlx, nly, seed);
      IndexStart(nlx, nly, 0);
      var index := 0;
      for k := 0 to nlz
        invariant index == Idx3(nlx, nly, 0, 0, k)
        invariant Filled3(noiseBuf[..], lattice, x0, y0, z0, nlx, nly, seed, index)
      {
        for j := 0 to nly
          invariant index == Idx3(nlx, nly, 0, j, k)
          invariant Filled3(noiseBuf[..], lattice, x0, y0, z0, nlx, nly, seed, index)
        {
          for i := 0 to nlx
            invariant index == Idx3(nlx, nly, i, j, k)
            invariant Filled3(noiseBuf[..], lattice, x0, y0, z0, nlx, nly, seed, index)
          {
            IndexInside(nlx, nly, nlz, i, j, k);
            ghost var before := noiseBuf[..];
            FillNext3(before, lattice, x0, y0, z0, nlx, nly, seed, i, j, k);
            noiseBuf[index] := lattice.at3(x0 + i, y0 + j, z0 + k, seed);
            assert noiseBuf[..] == before[index := lattice.at3(x0 + i, y0 + j, z0 + k, seed)];
            IndexNext(nlx, nly, i, j, k);
            index := index + 1;
          }
          IndexRow(nlx, nly, j, k);
        }
        IndexPlane(nlx, nly, k);
      }
      IndexStart(nlx, nly, nlz);
    }

    // 3D map.
    method NoiseMap3D(x: real, y: real, z: real)
      requires Valid() && Room3(np, sx, sy, sz, noiseBuf.Length)
      modifies noiseBuf, valueBuf, result
      ensures forall k: nat :: k < sz * sy * sx ==> result[k] == Rescaled(np,
        Sum3(lattice, np, x + ColumnOf(k, sx) as real, y + RowOf(k, sx, sy) as real, z + PlaneOf(k, sx, sy) as real,
             seed, np.octaves))
      ensures ExactParameters(np) ==>
        forall k: nat :: k < sz * sy * sx ==>
          result[k] == Fractal3(lattice, np, x + ColumnOf(k, sx) as real, y + RowOf(k, sx, sy) as real,
                                z + PlaneOf(k, sx, sy) as real, seed)
    {
      hide Values3, Accepted, Capacity, Rescaled, ExactParameters, Fractal3, Mul, Div;
      var f, g := 1.0, 1.0;
      var x', y', z' := Div(x, np.spreadX), Div(y, np.spreadY), Div(z, np.spreadZ);
      var bufsize := sz * sy * sx;
      for i := 0 to bufsize
        invariant forall k :: 0 <= k < i ==> result[k] == 0.0
      {
        result[i] := 0.0;
      }
      SumsStart3(result[..], lattice, np, x, y, z, sx, sy, seed, bufsize);
      for oct := 0 to np.octaves
        invariant f == Power(np.lacunarity, oct) && g == Power(np.persist, oct)
        invariant Sums3(result[..], lattice, np, x, y, z, sx, sy, seed, oct, bufsize)
      {
        hide Sums3, Power, Mul, Div, Points;
        Fits3(oct, x, y, z);
        ValueMap3D(Mul(x', f), Mul(y', f), Mul(z', f), Div(f, np.spreadX), Div(f, np.spreadY), Div(f, np.spreadZ),
                   seed + np.seed + oct);
        ghost var sums := result[..];
        UpdateResults(g, bufsize);
        SumsNext3(sums, valueBuf[..], result[..], lattice, np, x, y, z, sx, sy, seed, oct, bufsize);
        PowerNext(np.lacunarity, oct);
        PowerNext(np.persist, oct);
        f := Mul(f, np.lacunarity);
        g := Mul(g, np.persist);
      }
      Rescale(bufsize);
      if ExactParameters(np) {
        forall k: nat | k < sz * sy * sx
          ensures result[k] ==
            Fractal3(lattice, np, x + ColumnOf(k, sx) as real, y + RowOf(k, sx, sy) as real,
                     z + PlaneOf(k, sx, sy) as real, seed)
        {
          RescaledIsFractal3(lattice, np, x + ColumnOf(k, sx) as real, y + RowOf(k, sx, sy) as real,
                             z + PlaneOf(k, sx, sy) as real, seed);
        }
      }
    }

    lemma Fits2(oct: nat, x: real, y: real)
      requires Valid() && Room2(np, sx, sy, noiseBuf.Length) && oct < np.octaves
      ensures OctaveFits2(np, sx, sy, noiseBuf.Length, oct, x, y)
    {
      hide Room2, OctaveFits2, Capacity;
      AcceptedFactor(np, sx, sy, sz);
      RoomSuffices2(np, sx, sy, noiseBuf.Length, oct, x, y);
    }

    lemma Fits3(oct: nat, x: real, y: real, z: real)
      requires Valid() && Room3(np, sx, sy, sz, noiseBuf.Length) && oct < np.octaves
      ensures OctaveFits3(np, sx, sy, sz, noiseBuf.Length, oct, x, y, z)
    {
      hide Room3, OctaveFits3, Capacity;
      AcceptedFactor(np, sx, sy, sz);
      RoomSuffices3(np, sx, sy, sz, noiseBuf.Length, oct, x, y, z);
    }

    // Every walk of a 2D map stays in the buffer exactly when it has room; with a lacunarity of at
    // least 1 it always has.
    lemma Fits2Exactly()
      requires Valid()
      ensures MapFits2(np, sx, sy, noiseBuf.Length) <==> Room2(np, sx, sy, noiseBuf.Length)
      ensures np.lacunarity >= 1.0 ==> Room2(np, sx, sy, noiseBuf.Length)
    {
      hide MapFits2, Room2, Accepted, Capacity;
      AcceptedFactor(np, sx, sy, sz);
      RoomIsExact2(np, sx, sy, noiseBuf.Length);
      if np.lacunarity >= 1.0 {
        FineRoom2(np, sx, sy, sz);
      }
    }

    // The same for a 3D map; with a lacunarity of at least 1 it has room exactly if it is deeper
    // than 1 or has no octaves.
    lemma Fits3Exactly()
      requires Valid()
      ensures MapFits3(np, sx, sy, sz, noiseBuf.Length) <==> Room3(np, sx, sy, sz, noiseBuf.Length)
      ensures np.lacunarity >= 1.0 ==> (Room3(np, sx, sy, sz, noiseBuf.Length) <==> np.octaves == 0 || sz > 1)
    {
      hide MapFits3, Room3, Accepted, Capacity;
      AcceptedFactor(np, sx, sy, sz);
      RoomIsExact3(np, sx, sy, sz, noiseBuf.Length);
      if np.lacunarity >= 1.0 {
        FineRoom3(np, sx, sy, sz);
      }
    }

    // Adds one weighted octave to the results.
    method UpdateResults(g: real, bufsize: nat)
      requires result != valueBuf && bufsize <= result.Length && bufsize <= valueBuf.Length
      modifies result
      ensures forall k :: 0 <= k < bufsize ==> result[k] == old(result[k]) + Mul(g, Absolute(np, valueBuf[k]))
      ensures forall k :: bufsize <= k < result.Length ==> result[k] == old(result[k])
    {
      hide Mul;
      if np.absValue {
        for i := 0 to bufsize
          invariant forall k :: 0 <= k < i ==> result[k] == old(result[k]) + Mul(g, Absolute(np, valueBuf[k]))
          invariant forall k :: i <= k < result.Length ==> result[k] == old(result[k])
        {
          result[i] := result[i] + Mul(g, Abs(valueBuf[i]));
        }
      } else {
        for i := 0 to bufsize
          invariant forall k :: 0 <= k < i ==> result[k] == old(result[k]) + Mul(g, Absolute(np, valueBuf[k]))
          invariant forall k :: i <= k < result.Length ==> result[k] == old(result[k])
        {
          result[i] := result[i] + Mul(g, valueBuf[i]);
        }
      }
    }

    method Rescale(bufsize: nat)
      requires bufsize <= result.Length
      modifies result
      ensures forall k :: 0 <= k < bufsize ==> result[k] == Rescaled(np, old(result[k]))
    {
      if Rescales(np) {
        for i := 0 to bufsize
          invariant forall k :: 0 <= k < i ==> result[k] == Rescaled(np, old(result[k]))
          invariant forall k :: i <= k < result.Length ==> result[k] == old(result[k])
        {
          result[i] := Mul(result[i], np.scale) + np.offset;
        }
      }
    }

    method FillLattice2(x0: int, y0: int, nlx: nat, nly: nat, seed: int)
      requires Valid() && nlx > 0 && nly * nlx <= noiseBuf.Length
      modifies noiseBuf
      ensures Filled2(noiseBuf[..], lattice, x0, y0, nlx, seed, nly * nlx)
    {
      hide Accepted, Capacity, Filled2, Idx2;
      FilledStart2(noiseBuf[..], lattice, x0, y0, nlx, seed);
      Idx2Next(nlx, 0, 0);
      var index := 0;
      for j := 0 to nly
        invariant index == Idx2(nlx, 0, j)
        invariant Filled2(noiseBuf[..], lattice, x0, y0, nlx, seed, index)
      {
        for i := 0 to nlx
          invariant index == Idx2(nlx, i, j)
          invariant Filled2(noiseBuf[..], lattice, x0, y0, nlx, seed, index)
        {
          Idx2Inside(nlx, nly, i, j);
          ghost var before := noiseBuf[..];
          FillNext2(before, lattice, x0, y0, nlx, seed, i, j);
          noiseBuf[index] := lattice.at2(x0 + i, y0 + j, seed);
          assert noiseBuf[..] == before[index := lattice.at2(x0 + i, y0 + j, seed)];
          Idx2Next(nlx, i, j);
          index := index + 1;
        }
        Idx2Next(nlx, nlx, j);
      }
      Idx2Next(nlx, 0, nly);
    }
  }

  lemma RescaledIsFractal2(l: Lattice, np: NoiseParams, x: real, y: real, seed: int)
    requires PositiveSpread(np) && ExactParameters(np)
    ensures Rescaled(np, Sum2(l, np, x, y, seed, np.octaves)) == Fractal2(l, np, x, y, seed)
  {
    hide Sum2;
    SkipIsExact(np);
    var a := Sum2(l, np, x, y, seed, np.octaves);
    assert Rescaled(np, a) == np.offset + Mul(a, np.scale);
  }

  lemma RescaledIsFractal3(l: Lattice, np: NoiseParams, x: real, y: real, z: real, seed: int)
    requires PositiveSpread(np) && ExactParameters(np)
    ensures Rescaled(np, Sum3(l, np, x, y, z, seed, np.octaves)) == Fractal3(l, np, x, y, z, seed)
  {
    hide Sum3;
    SkipIsExact(np);
    var a := Sum3(l, np, x, y, z, seed, np.octaves);
    assert Rescaled(np, a) == np.offset + Mul(a, np.scale);
  }

  lemma AtLeastOnce(times: nat, n: nat)
    requires times >= 1
    ensures n <= times * n
  {
  }

  lemma PlaneFits(sx: nat, sy: nat, sz: nat)
    requires sz >= 1
    ensures sz * sy * sx >= sy * sx >= 0
  {
    AtLeastOnce(sz, sy * sx);
    assert sz * sy * sx == sz * (sy * sx);
  }

  lemma SumsStart2(buf: seq<real>, l: Lattice, np: NoiseParams, x: real, y: real, sx: nat, seed: int, size: nat)
    requires PositiveSpread(np) && sx > 0 && size <= |buf|
    requires forall k :: 0 <= k < size ==> buf[k] == 0.0
    ensures Sums2(buf, l, np, x, y, sx, seed, 0, size)
  {
  }

  lemma PowerNext(b: real, n: nat)
    ensures Power(b, n + 1) == Mul(Power(b, n), b)
  {
  }

  // Adding the grid of octave n to the sums of n octaves gives those of n + 1.
  lemma SumsNext2(sums: seq<real>, values: seq<real>, sums': seq<real>, l: Lattice, np: NoiseParams, x: real, y: real,
                  sx: nat, seed: int, n: nat, size: nat)
    requires PositiveSpread(np) && |sums| == |sums'| && size <= |values|
    requires Sums2(sums, l, np, x, y, sx, seed, n, size)
    requires var f := Power(np.lacunarity, n);
      Values2(values, l, Mul(Div(x, np.spreadX), f), Mul(Div(y, np.spreadY), f), Div(f, np.spreadX), Div(f, np.spreadY),
              sx, seed + np.seed + n, np.defaults || np.eased, size)
    requires forall k :: 0 <= k < size ==> sums'[k] == sums[k] + Mul(Power(np.persist, n), Absolute(np, values[k]))
    ensures Sums2(sums', l, np, x, y, sx, seed, n + 1, size)
  {
    hide Grid2, Octave2, Power, Mul, Div, Absolute;
    forall k: nat | k < size
      ensures sums'[k] == Sum2(l, np, x + (k % sx) as real, y + (k / sx) as real, seed, n + 1)
    {
      GridIsOctave2(l, np, x, y, seed, n, k % sx, k / sx);
    }
  }

  lemma PointsAtLeastTwo(start: real, step: real, n: nat)
    requires step >= 0.0
    ensures Points(start, step, n) >= 2
  {
    StepsMonotone(0, n, step);
  }

  lemma ValuesStart2(buf: seq<real>, l: Lattice, x: real, y: real, stepX: real, stepY: real, sx: nat, seed: int,
                     eased: bool)
    requires sx > 0
    ensures Values2(buf, l, x, y, stepX, stepY, sx, seed, eased, 0)
  {
  }
}
