/**
  Value noise at a point: random values at the integer lattice, interpolated in
  between, and sums of octaves of it. Numbers are reals; the lattice noise is a
  parameter.
 */
module NoiseField {
  type Lattice2D = (int, int, int) -> real
  type Lattice3D = (int, int, int, int) -> real

  function EaseCurve(t: real): real {
    t * t * t * (t * (6.0 * t - 15.0) + 10.0)
  }

  function Eased(t: real, eased: bool): real {
    if eased then EaseCurve(t) else t
  }

  function LinearInterpolation(v0: real, v1: real, t: real): real {
    v0 + (v1 - v0) * t
  }

  function BiLinearInterpolation(v00: real, v10: real, v01: real, v11: real, x: real, y: real, eased: bool): real {
    var u := LinearInterpolation(v00, v10, Eased(x, eased));
    var v := LinearInterpolation(v01, v11, Eased(x, eased));
    LinearInterpolation(u, v, Eased(y, eased))
  }

  function TriLinearInterpolation(v000: real, v100: real, v010: real, v110: real,
                                  v001: real, v101: real, v011: real, v111: real,
                                  x: real, y: real, z: real, eased: bool): real {
    var u := BiLinearInterpolation(v000, v100, v010, v110, Eased(x, eased), Eased(y, eased), false);
    var v := BiLinearInterpolation(v001, v101, v011, v111, Eased(x, eased), Eased(y, eased), false);
    LinearInterpolation(u, v, Eased(z, eased))
  }

  /** The conversion of a real to an integer in the source language: towards zero. */
  function Truncate(x: real): int {
    if x >= 0.0 then x.Floor else -(-x).Floor
  }

  /** The floor of the pointwise functions; one too low at negative integers. */
  function MyFloor(x: real): int {
    if x < 0.0 then Truncate(x) - 1 else Truncate(x)
  }

  /** Interpolation in the cell of corner (x0, y0), at the distance (u, v) from it. */
  function Cell2D(noise: Lattice2D, x0: int, y0: int, u: real, v: real, seed: int, eased: bool): real {
    BiLinearInterpolation(noise(x0, y0, seed), noise(x0 + 1, y0, seed), noise(x0, y0 + 1, seed),
                          noise(x0 + 1, y0 + 1, seed), u, v, eased)
  }

  function Cell3D(noise: Lattice3D, x0: int, y0: int, z0: int, u: real, v: real, w: real, seed: int,
                  eased: bool): real {
    TriLinearInterpolation(
      noise(x0, y0, z0, seed), noise(x0 + 1, y0, z0, seed), noise(x0, y0 + 1, z0, seed),
          noise(x0 + 1, y0 + 1, z0, seed),
      noise(x0, y0, z0 + 1, seed), noise(x0 + 1, y0, z0 + 1, seed), noise(x0, y0 + 1, z0 + 1, seed),
          noise(x0 + 1, y0 + 1, z0 + 1, seed),
      u, v, w, eased)
  }

  function Noise2DValue(noise: Lattice2D, x: real, y: real, seed: int, eased: bool): real {
    Cell2D(noise, MyFloor(x), MyFloor(y), x - MyFloor(x) as real, y - MyFloor(y) as real, seed, eased)
  }

  function Noise3DValue(noise: Lattice3D, x: real, y: real, z: real, seed: int, eased: bool): real {
    Cell3D(noise, MyFloor(x), MyFloor(y), MyFloor(z), x - MyFloor(x) as real, y - MyFloor(y) as real,
           z - MyFloor(z) as real, seed, eased)
  }

  // ---------------------------------------------------------------------------
  // The two floors agree on the value
  // ---------------------------------------------------------------------------

  /** `x` lies in the cell `n`, at the distance `u` from its lower end. */
  ghost predicate InCell(x: real, n: int, u: real) {
    x == n as real + u && 0.0 <= u < 1.0
  }

  lemma FloorIs(x: real, n: int, u: real)
    requires InCell(x, n, u)
    ensures x.Floor == n
  {
  }

  lemma MyFloorIs(x: real, n: int, u: real)
    requires InCell(x, n, u)
    ensures MyFloor(x) == if x < 0.0 && u == 0.0 then n - 1 else n
  {
    FloorIs(x, n, u);
    if x < 0.0 {
      if u == 0.0 {
        FloorIs(-x, -n, 0.0);
      } else {
        FloorIs(-x, -n - 1, 1.0 - u);
      }
    }
  }

  lemma EndsOfInterpolation(v0: real, v1: real, eased: bool)
    ensures LinearInterpolation(v0, v1, Eased(0.0, eased)) == v0
    ensures LinearInterpolation(v0, v1, Eased(1.0, eased)) == v1
  {
    assert EaseCurve(0.0) == 0.0;
    assert EaseCurve(1.0) == 1.0;
  }

  /** The far end of one cell is the near end of the next. */
  lemma CellEdge2D(noise: Lattice2D, x0: int, y0: int, u: real, v: real, seed: int, eased: bool)
    ensures Cell2D(noise, x0, y0, 1.0, v, seed, eased) == Cell2D(noise, x0 + 1, y0, 0.0, v, seed, eased)
    ensures Cell2D(noise, x0, y0, u, 1.0, seed, eased) == Cell2D(noise, x0, y0 + 1, u, 0.0, seed, eased)
  {
    EndsOfInterpolation(noise(x0, y0, seed), noise(x0 + 1, y0, seed), eased);
    EndsOfInterpolation(noise(x0, y0 + 1, seed), noise(x0 + 1, y0 + 1, seed), eased);
    EndsOfInterpolation(noise(x0 + 1, y0, seed), noise(x0 + 2, y0, seed), eased);
    EndsOfInterpolation(noise(x0 + 1, y0 + 1, seed), noise(x0 + 2, y0 + 1, seed), eased);
    var t := Eased(u, eased);
    EndsOfInterpolation(LinearInterpolation(noise(x0, y0, seed), noise(x0 + 1, y0, seed), t),
                        LinearInterpolation(noise(x0, y0 + 1, seed), noise(x0 + 1, y0 + 1, seed), t), eased);
    EndsOfInterpolation(LinearInterpolation(noise(x0, y0 + 1, seed), noise(x0 + 1, y0 + 1, seed), t),
                        LinearInterpolation(noise(x0, y0 + 2, seed), noise(x0 + 1, y0 + 2, seed), t), eased);
  }

  /** At negative integers the low floor picks the cell before and its far end, which is the same value. */
  lemma ValueInCell2D(noise: Lattice2D, x: real, y: real, seed: int, eased: bool, x0: int, y0: int, u: real, v: real)
    requires InCell(x, x0, u) && InCell(y, y0, v)
    ensures Noise2DValue(noise, x, y, seed, eased) == Cell2D(noise, x0, y0, u, v, seed, eased)
  {
    MyFloorIs(x, x0, u);
    MyFloorIs(y, y0, v);
    var lx, ly := MyFloor(x), MyFloor(y);
    if lx < x0 {
      CellEdge2D(noise, lx, ly, u, y - ly as real, seed, eased);
    }
    if ly < y0 {
      CellEdge2D(noise, x0, ly, u, v, seed, eased);
    }
  }

  /** The values of one plane of lattice points; the distances are already eased. */
  function Plane(noise: Lattice3D, x0: int, y0: int, z: int, u: real, v: real, seed: int): real {
    BiLinearInterpolation(noise(x0, y0, z, seed), noise(x0 + 1, y0, z, seed), noise(x0, y0 + 1, z, seed),
                          noise(x0 + 1, y0 + 1, z, seed), u, v, false)
  }

  lemma PlaneEdge(noise: Lattice3D, x0: int, y0: int, z: int, u: real, v: real, seed: int)
    ensures Plane(noise, x0, y0, z, 1.0, v, seed) == Plane(noise, x0 + 1, y0, z, 0.0, v, seed)
    ensures Plane(noise, x0, y0, z, u, 1.0, seed) == Plane(noise, x0, y0 + 1, z, u, 0.0, seed)
  {
    CellEdge2D((x: int, y: int, s: int) => noise(x, y, z, s), x0, y0, u, v, seed, false);
  }

  lemma CellEdge3D(noise: Lattice3D, x0: int, y0: int, z0: int, u: real, v: real, w: real, seed: int, eased: bool)
    ensures Cell3D(noise, x0, y0, z0, 1.0, v, w, seed, eased) == Cell3D(noise, x0 + 1, y0, z0, 0.0, v, w, seed, eased)
    ensures Cell3D(noise, x0, y0, z0, u, 1.0, w, seed, eased) == Cell3D(noise, x0, y0 + 1, z0, u, 0.0, w, seed, eased)
    ensures Cell3D(noise, x0, y0, z0, u, v, 1.0, seed, eased) == Cell3D(noise, x0, y0, z0 + 1, u, v, 0.0, seed, eased)
  {
    assert Eased(0.0, eased) == 0.0;
    assert Eased(1.0, eased) == 1.0;
    var eu, ev := Eased(u, eased), Eased(v, eased);
    PlaneEdge(noise, x0, y0, z0, eu, ev, seed);
    PlaneEdge(noise, x0, y0, z0 + 1, eu, ev, seed);
    EndsOfInterpolation(Plane(noise, x0, y0, z0, eu, ev, seed), Plane(noise, x0, y0, z0 + 1, eu, ev, seed), eased);
    EndsOfInterpolation(Plane(noise, x0, y0, z0 + 1, eu, ev, seed), Plane(noise, x0, y0, z0 + 2, eu, ev, seed), eased);
  }

  lemma ValueInCell3D(noise: Lattice3D, x: real, y: real, z: real, seed: int, eased: bool,
                      x0: int, y0: int, z0: int, u: real, v: real, w: real)
    requires InCell(x, x0, u) && InCell(y, y0, v) && InCell(z, z0, w)
    ensures Noise3DValue(noise, x, y, z, seed, eased) == Cell3D(noise, x0, y0, z0, u, v, w, seed, eased)
  {
    MyFloorIs(x, x0, u);
    MyFloorIs(y, y0, v);
    MyFloorIs(z, z0, w);
    var lx, ly, lz := MyFloor(x), MyFloor(y), MyFloor(z);
    if lx < x0 {
      CellEdge3D(noise, lx, ly, lz, u, y - ly as real, z - lz as real, seed, eased);
    }
    if ly < y0 {
      CellEdge3D(noise, x0, ly, lz, u, v, z - lz as real, seed, eased);
    }
    if lz < z0 {
      CellEdge3D(noise, x0, y0, lz, u, v, w, seed, eased);
    }
  }

  // ---------------------------------------------------------------------------
  // Octaves
  // ---------------------------------------------------------------------------

  datatype Vec3 = Vec3(X: real, Y: real, Z: real)

  /** The flags that matter: default, eased, absolute value. */
  datatype NoiseParams = NoiseParams(offset: real, scale: real, spread: Vec3, seed: int, octaves: nat, persist: real,
                                     lacunarity: real,
                                     defaults: bool, eased: bool, absvalue: bool)

  function Power(b: real, n: nat): real {
    if n == 0 then 1.0 else Power(b, n - 1) * b
  }

  function Abs(x: real): real {
    if x < 0.0 then -x else x
  }

  function Amplitude(np: NoiseParams, value: real): real {
    if np.absvalue then Abs(value) else value
  }

  predicate Spreads(np: NoiseParams) {
    np.spread.X != 0.0 && np.spread.Y != 0.0 && np.spread.Z != 0.0
  }

  /** A noise value for each point and seed. */
  type Field2D = (real, real, int) -> real
  type Field3D = (real, real, real, int) -> real

  function Value2D(noise: Lattice2D, eased: bool): Field2D {
    (x: real, y: real, seed: int) => Noise2DValue(noise, x, y, seed, eased)
  }

  function Value3D(noise: Lattice3D, eased: bool): Field3D {
    (x: real, y: real, z: real, seed: int) => Noise3DValue(noise, x, y, z, seed, eased)
  }

  function Scaled(g: real, v: real): real {
    g * v
  }

  /** A place at frequency `f`. */
  function Times(x: real, f: real): real {
    x * f
  }

  /** An octave of a field of frequency `f` and weight `g`; `x` and `y` are measured in spreads. */
  function Octave2D(value: Field2D, np: NoiseParams, x: real, y: real, seed: int, f: real, g: real): real {
    Scaled(g, At2D(value, np, x, y, seed, f))
  }

  function Octave3D(value: Field3D, np: NoiseParams, x: real, y: real, z: real, seed: int, f: real, g: real): real {
    Scaled(g, At3D(value, np, x, y, z, seed, f))
  }

  function At2D(value: Field2D, np: NoiseParams, x: real, y: real, seed: int, f: real): real {
    Amplitude(np, value(Times(x, f), Times(y, f), seed))
  }

  function At3D(value: Field3D, np: NoiseParams, x: real, y: real, z: real, seed: int, f: real): real {
    Amplitude(np, value(Times(x, f), Times(y, f), Times(z, f), seed))
  }

  /** The first `n` octaves, each weaker than the last by the factor `persist`. */
  function Sum2D(value: Field2D, np: NoiseParams, x: real, y: real, seed: int, persist: real, n: nat): real {
    if n == 0 then 0.0
    else Sum2D(value, np, x, y, seed, persist, n - 1) + Octave2D(value, np, x, y, seed + n - 1,
                                                                 Power(np.lacunarity, n - 1), Power(persist, n - 1))
  }

  function Sum3D(value: Field3D, np: NoiseParams, x: real, y: real, z: real, seed: int, persist: real, n: nat): real {
    if n == 0 then 0.0
    else Sum3D(value, np, x, y, z, seed, persist, n - 1) + Octave3D(value, np, x, y, z, seed + n - 1,
                                                                    Power(np.lacunarity, n - 1), Power(persist, n - 1))
  }

  /** The fractal noise at a point. */
  function Fractal2D(value: Field2D, np: NoiseParams, x: real, y: real, seed: int): real
    requires Spreads(np)
  {
    np.offset + Sum2D(value, np, x / np.spread.X, y / np.spread.Y, seed + np.seed, np.persist, np.octaves) * np.scale
  }

  function Fractal3D(value: Field3D, np: NoiseParams, x: real, y: real, z: real, seed: int): real
    requires Spreads(np)
  {
    np.offset +
    Sum3D(value, np, x / np.spread.X, y / np.spread.Y, z / np.spread.Z, seed + np.seed, np.persist,
          np.octaves) * np.scale
  }

  method NoiseValue2D(value: Field2D, np: NoiseParams, px: real, py: real, seed: int, f: real, g: real)
    returns (r: real)
    ensures r == Octave2D(value, np, px, py, seed, f, g)
  {
    var noiseval := value(px * f, py * f, seed);
    if np.absvalue {
      noiseval := Abs(noiseval);
    }
    r := g * noiseval;
  }

  method SumOctaves2D(value: Field2D, np: NoiseParams, x: real, y: real, seed: int) returns (a: real)
    ensures a == Sum2D(value, np, x, y, seed, np.persist, np.octaves)
  {
    a := 0.0;
    var f, g := 1.0, 1.0;
    for i := 0 to np.octaves
      invariant f == Power(np.lacunarity, i) && g == Power(np.persist, i)
      invariant a == Sum2D(value, np, x, y, seed, np.persist, i)
    {
      var noiseval := NoiseValue2D(value, np, x, y, seed + i, f, g);
      a := a + noiseval;
      f := f * np.lacunarity;
      g := g * np.persist;
    }
  }

  method NoiseFractal2D(value: Field2D, np: NoiseParams, x: real, y: real, seed: int) returns (r: real)
    requires Spreads(np)
    ensures r == Fractal2D(value, np, x, y, seed)
  {
    var a := SumOctaves2D(value, np, x / np.spread.X, y / np.spread.Y, seed + np.seed);
    r := np.offset + a * np.scale;
  }

  method NoiseValue3D(value: Field3D, np: NoiseParams, px: real, py: real, pz: real, seed: int, f: real, g: real)
    returns (r: real)
    ensures r == Octave3D(value, np, px, py, pz, seed, f, g)
  {
    var noiseval := value(px * f, py * f, pz * f, seed);
    if np.absvalue {
      noiseval := Abs(noiseval);
    }
    r := g * noiseval;
  }

  method SumOctaves3D(value: Field3D, np: NoiseParams, x: real, y: real, z: real, seed: int) returns (a: real)
    ensures a == Sum3D(value, np, x, y, z, seed, np.persist, np.octaves)
  {
    a := 0.0;
    var f, g := 1.0, 1.0;
    for i := 0 to np.octaves
      invariant f == Power(np.lacunarity, i) && g == Power(np.persist, i)
      invariant a == Sum3D(value, np, x, y, z, seed, np.persist, i)
    {
      var noiseval := NoiseValue3D(value, np, x, y, z, seed + i, f, g);
      a := a + noiseval;
      f := f * np.lacunarity;
      g := g * np.persist;
    }
  }

  method NoiseFractal3D(value: Field3D, np: NoiseParams, x: real, y: real, z: real, seed: int) returns (r: real)
    requires Spreads(np)
    ensures r == Fractal3D(value, np, x, y, z, seed)
  {
    var a := SumOctaves3D(value, np, x / np.spread.X, y / np.spread.Y, z / np.spread.Z, seed + np.seed);
    r := np.offset + a * np.scale;
  }
}
