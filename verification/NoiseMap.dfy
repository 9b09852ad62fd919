/** Noise maps: all values of a grid of points, octave by octave, from a buffered lattice. */
module NoiseMaps {
  import opened NoiseField
  import opened NoiseLattice

  /** A field whose values are the interpolations in the lattice cells. */
  ghost predicate Interpolates2D(field: Field2D, noise: Lattice2D, eased: bool) {
    forall x, y, seed, x0, y0, u, v {:trigger InCell(x, x0, u), InCell(y, y0, v), field(x, y, seed)} ::
      InCell(x, x0, u) && InCell(y, y0, v) ==> field(x, y, seed) == Cell2D(noise, x0, y0, u, v, seed, eased)
  }

  lemma ValueInterpolates2D(noise: Lattice2D, eased: bool)
    ensures Interpolates2D(Value2D(noise, eased), noise, eased)
  {
    forall x, y, seed, x0, y0, u, v | InCell(x, x0, u) && InCell(y, y0, v)
      ensures Value2D(noise, eased)(x, y, seed) == Cell2D(noise, x0, y0, u, v, seed, eased)
    {
      ValueInCell2D(noise, x, y, seed, eased, x0, y0, u, v);
    }
  }

  /** The values of a grid of points in equal steps. */
  function Grid2D(field: Field2D, x: real, y: real, stepX: real, stepY: real, seed: int): Table {
    (i: nat, j: nat) => field(Place(x, stepX, i), Place(y, stepY, j), seed)
  }

  ghost predicate Corners2D(noise: Lattice2D, x0: int, y0: int, seed: int, v00: real, v10: real, v01: real, v11: real) {
    && v00 == noise(x0, y0, seed) && v10 == noise(x0 + 1, y0, seed)
    && v01 == noise(x0, y0 + 1, seed) && v11 == noise(x0 + 1, y0 + 1, seed)
  }

  /** The interpolation between the corners of the cell that the walk has reached. */
  method CellValue2D(v00: real, v10: real, v01: real, v11: real, u: real, v: real, eased: bool,
                     ghost field: Field2D, ghost noise: Lattice2D, ghost x: real, ghost y: real, ghost stepX: real,
                         ghost stepY: real,
                     ghost seed: int, ghost i: nat, ghost j: nat, ghost noisex: nat, ghost noisey: nat)
    returns (value: real)
    requires Interpolates2D(field, noise, eased) && Walked(x, stepX, i, noisex, u) && Walked(y, stepY, j, noisey, v)
    requires Corners2D(noise, x.Floor + noisex, y.Floor + noisey, seed, v00, v10, v01, v11)
    ensures value == Grid2D(field, x, y, stepX, stepY, seed)(i, j)
  {
    value := BiLinearInterpolation(v00, v10, v01, v11, u, v, eased);
    assert value == Cell2D(noise, x.Floor + noisex, y.Floor + noisey, u, v, seed, eased);
  }

  method ReadPoint(buf: array<real>, ghost at: Table, nlx: nat, ghost nly: nat, x: nat, y: nat) returns (a: real)
    requires Filled(buf[..], at, nlx, nlx * nly) && x < nlx && y < nly
    ensures a == at(x, y)
  {
    ReadAt(buf[..], at, nlx, nly, x, y);
    a := buf[Idx(x, y, nlx)];
  }

  method StoreCell2D(valueBuf: array<real>, v00: real, v10: real, v01: real, v11: real, u: real, v: real, eased: bool,
                     start: nat, i: nat,
                     ghost field: Field2D, ghost noise: Lattice2D, ghost x: real, ghost y: real, ghost stepX: real,
                         ghost stepY: real,
                     ghost seed: int, ghost sx: nat, ghost j: nat, ghost noisex: nat, ghost noisey: nat)
    requires Interpolates2D(field, noise, eased) && Walked(x, stepX, i, noisex, u) && Walked(y, stepY, j, noisey, v)
    requires Corners2D(noise, x.Floor + noisex, y.Floor + noisey, seed, v00, v10, v01, v11)
    requires start == Idx(0, j, sx) && i < sx && start + sx <= valueBuf.Length
    requires Filled(valueBuf[..], Grid2D(field, x, y, stepX, stepY, seed), sx, start + i)
    modifies valueBuf
    ensures Filled(valueBuf[..], Grid2D(field, x, y, stepX, stepY, seed), sx, start + i + 1)
  {
    var value := CellValue2D(v00, v10, v01, v11, u, v, eased, field, noise, x, y, stepX, stepY, seed, i, j, noisex,
                             noisey);
    Store(valueBuf, Grid2D(field, x, y, stepX, stepY, seed), sx, i, j, start + i, value);
  }

  method InterpolateLine2D(noiseBuf: array<real>, valueBuf: array<real>, ghost noise: Lattice2D, ghost field: Field2D,
                           x: real, ghost y: real, stepX: real, ghost stepY: real, ghost seed: int, eased: bool,
                           sx: nat, ghost j: nat, nlx: nat, nly: nat, noisey: nat, v: real, start: nat)
    requires noiseBuf != valueBuf && Interpolates2D(field, noise, eased) && 0.0 < stepX <= 1.0
    requires nlx == PointCount(x - x.Floor as real, sx, stepX) && noisey + 1 < nly
    requires Filled(noiseBuf[..], Points2D(noise, x.Floor, y.Floor, seed), nlx, nlx * nly)
    requires Walked(y, stepY, j, noisey, v)
    requires start == Idx(0, j, sx) && start + sx <= valueBuf.Length
    requires Filled(valueBuf[..], Grid2D(field, x, y, stepX, stepY, seed), sx, start)
    modifies valueBuf
    ensures Filled(valueBuf[..], Grid2D(field, x, y, stepX, stepY, seed), sx, start + sx)
  {
    ghost var points := Points2D(noise, x.Floor, y.Floor, seed);
    ghost var lattice := noiseBuf[..];
    ghost var grid := Grid2D(field, x, y, stepX, stepY, seed);
    var u := x - x.Floor as real;
    var noisex: nat := 0;
    WalkStarts(x, stepX);
    WalkInside(x, stepX, 0, 0, u, sx);
    var v00 := ReadPoint(noiseBuf, points, nlx, nly, 0, noisey);
    var v10 := ReadPoint(noiseBuf, points, nlx, nly, 1, noisey);
    var v01 := ReadPoint(noiseBuf, points, nlx, nly, 0, noisey + 1);
    var v11 := ReadPoint(noiseBuf, points, nlx, nly, 1, noisey + 1);
    for i := 0 to sx
      invariant Walked(x, stepX, i, noisex, u)
      invariant Corners2D(noise, x.Floor + noisex, y.Floor + noisey, seed, v00, v10, v01, v11)
      invariant noiseBuf[..] == lattice
      invariant Filled(valueBuf[..], grid, sx, start + i)
    {
      StoreCell2D(valueBuf, v00, v10, v01, v11, u, v, eased, start, i, field, noise, x, y, stepX, stepY, seed, sx, j,
                  noisex, noisey);
      WalkStep(x, stepX, i, noisex, u);
      u := u + stepX;
      if u >= 1.0 {
        u := u - 1.0;
        noisex := noisex + 1;
        WalkInside(x, stepX, i + 1, noisex, u, sx);
        v00 := v10;
        v01 := v11;
        v10 := ReadPoint(noiseBuf, points, nlx, nly, noisex + 1, noisey);
        v11 := ReadPoint(noiseBuf, points, nlx, nly, noisex + 1, noisey + 1);
      }
    }
  }

  method InterpolateLines2D(noiseBuf: array<real>, valueBuf: array<real>, ghost noise: Lattice2D, ghost field: Field2D,
                            x: real, y: real, stepX: real, stepY: real, ghost seed: int, eased: bool, sx: nat, sy: nat,
                                nlx: nat, nly: nat)
    requires noiseBuf != valueBuf && Interpolates2D(field, noise, eased)
    requires 0.0 < stepX <= 1.0 && 0.0 < stepY <= 1.0 && sx > 0
    requires nlx == PointCount(x - x.Floor as real, sx, stepX) && nly == PointCount(y - y.Floor as real, sy, stepY)
    requires Filled(noiseBuf[..], Points2D(noise, x.Floor, y.Floor, seed), nlx, nlx * nly)
    requires sx * sy <= valueBuf.Length
    modifies valueBuf
    ensures Filled(valueBuf[..], Grid2D(field, x, y, stepX, stepY, seed), sx, sx * sy)
  {
    var v := y - y.Floor as real;
    ghost var points, grid := Points2D(noise, x.Floor, y.Floor, seed), Grid2D(field, x, y, stepX, stepY, seed);
    WalkStarts(y, stepY);
    var index, noisey: nat := 0, 0;
    for j := 0 to sy
      invariant Walked(y, stepY, j, noisey, v) && index == Idx(0, j, sx)
      invariant Filled(noiseBuf[..], points, nlx, nlx * nly)
      invariant Filled(valueBuf[..], grid, sx, index)
    {
      WalkInside(y, stepY, j, noisey, v, sy);
      LineEnds(j, sx, sy);
      InterpolateLine2D(noiseBuf, valueBuf, noise, field, x, y, stepX, stepY, seed, eased, sx, j, nlx, nly, noisey, v,
                        index);
      index := index + sx;
      noisey, v := Step(y, stepY, j, noisey, v);
    }
    LineEnds(sy, sx, sy);
  }

  /** One octave over a grid of `sx` by `sy` points. */
  method ValueMap2D(noiseBuf: array<real>, valueBuf: array<real>, noise: Lattice2D, ghost field: Field2D,
                    x: real, y: real, stepX: real, stepY: real, seed: int, eased: bool, sx: nat, sy: nat)
    requires noiseBuf != valueBuf && Interpolates2D(field, noise, eased)
    requires 0.0 < stepX <= 1.0 && 0.0 < stepY <= 1.0 && sx > 0
    requires PointCount(x - x.Floor as real, sx, stepX) * PointCount(y - y.Floor as real, sy, stepY) <= noiseBuf.Length
    requires sx * sy <= valueBuf.Length
    modifies noiseBuf, valueBuf
    ensures Filled(valueBuf[..], Grid2D(field, x, y, stepX, stepY, seed), sx, sx * sy)
  {
    WalkStarts(x, stepX);
    WalkStarts(y, stepY);
    WalkInside(x, stepX, 0, 0, x - x.Floor as real, sx);
    WalkInside(y, stepY, 0, 0, y - y.Floor as real, sy);
    var nlx: nat, nly: nat := PointCount(x - x.Floor as real, sx, stepX), PointCount(y - y.Floor as real, sy, stepY);
    FillLines(noiseBuf, Points2D(noise, x.Floor, y.Floor, seed), nlx, nly);
    InterpolateLines2D(noiseBuf, valueBuf, noise, field, x, y, stepX, stepY, seed, eased, sx, sy, nlx, nly);
  }

  // ---------------------------------------------------------------------------
  // Three dimensions
  // ---------------------------------------------------------------------------

  ghost predicate Interpolates3D(field: Field3D, noise: Lattice3D, eased: bool) {
    forall x, y, z, seed, x0, y0, z0, u, v,
        w {:trigger InCell(x, x0, u), InCell(y, y0, v), InCell(z, z0, w), field(x, y, z, seed)} ::
      InCell(x, x0, u) && InCell(y, y0, v) && InCell(z, z0, w) ==>
        field(x, y, z, seed) == Cell3D(noise, x0, y0, z0, u, v, w, seed, eased)
  }

  lemma ValueInterpolates3D(noise: Lattice3D, eased: bool)
    ensures Interpolates3D(Value3D(noise, eased), noise, eased)
  {
    forall x, y, z, seed, x0, y0, z0, u, v, w | InCell(x, x0, u) && InCell(y, y0, v) && InCell(z, z0, w)
      ensures Value3D(noise, eased)(x, y, z, seed) == Cell3D(noise, x0, y0, z0, u, v, w, seed, eased)
    {
      ValueInCell3D(noise, x, y, z, seed, eased, x0, y0, z0, u, v, w);
    }
  }

  /** The planes of the grid follow each other; line `l` is line `l % sy` of plane `l / sy`. */
  function Grid3D(field: Field3D, x: real, y: real, z: real, stepX: real, stepY: real, stepZ: real, seed: int,
                  sy: nat): Table
    requires sy > 0
  {
    (i: nat, l: nat) => field(Place(x, stepX, i), Place(y, stepY, l % sy), Place(z, stepZ, l / sy), seed)
  }

  ghost predicate Corners3D(noise: Lattice3D, x0: int, y0: int, z0: int, seed: int,
                            v000: real, v100: real, v010: real, v110: real, v001: real, v101: real, v011: real,
                                v111: real) {
    && v000 == noise(x0, y0, z0, seed) && v100 == noise(x0 + 1, y0, z0, seed)
    && v010 == noise(x0, y0 + 1, z0, seed) && v110 == noise(x0 + 1, y0 + 1, z0, seed)
    && v001 == noise(x0, y0, z0 + 1, seed) && v101 == noise(x0 + 1, y0, z0 + 1, seed)
    && v011 == noise(x0, y0 + 1, z0 + 1, seed) && v111 == noise(x0 + 1, y0 + 1, z0 + 1, seed)
  }

  /** The buffer holds the lattice points of a box. */
  ghost predicate Ready3D(buf: seq<real>, noise: Lattice3D, x0: int, y0: int, z0: int, seed: int, nlx: nat, nly: nat,
                          nlz: nat) {
    nly > 0 && Filled(buf, Points3D(noise, x0, y0, z0, seed, nly), nlx, Volume(nlx, nly, nlz))
  }

  method CellValue3D(v000: real, v100: real, v010: real, v110: real, v001: real, v101: real, v011: real, v111: real,
                     u: real, v: real, w: real, eased: bool,
                     ghost field: Field3D, ghost noise: Lattice3D, ghost x: real, ghost y: real, ghost z: real,
                     ghost stepX: real, ghost stepY: real, ghost stepZ: real, ghost seed: int, ghost sy: nat,
                     ghost i: nat, ghost j: nat, ghost k: nat, ghost noisex: nat, ghost noisey: nat, ghost noisez: nat)
    returns (value: real)
    requires Interpolates3D(field, noise, eased) && j < sy
    requires Walked(x, stepX, i, noisex, u) && Walked(y, stepY, j, noisey, v) && Walked(z, stepZ, k, noisez, w)
    requires Corners3D(noise, x.Floor + noisex, y.Floor + noisey, z.Floor + noisez, seed, v000, v100, v010, v110, v001,
                       v101, v011, v111)
    ensures value == Grid3D(field, x, y, z, stepX, stepY, stepZ, seed, sy)(i, Idx(j, k, sy))
  {
    value := TriLinearInterpolation(v000, v100, v010, v110, v001, v101, v011, v111, u, v, w, eased);
    assert value == Cell3D(noise, x.Floor + noisex, y.Floor + noisey, z.Floor + noisez, u, v, w, seed, eased);
    IdxDivides(j, k, sy);
  }

  method ReadPoint3D(buf: array<real>, ghost noise: Lattice3D, ghost x0: int, ghost y0: int, ghost z0: int,
                     ghost seed: int,
                     nlx: nat, nly: nat, ghost nlz: nat, x: nat, y: nat, z: nat)
    returns (a: real)
    requires Ready3D(buf[..], noise, x0, y0, z0, seed, nlx, nly, nlz)
    requires x < nlx && y < nly && z < nlz
    ensures a == noise(x0 + x, y0 + y, z0 + z, seed)
  {
    IdxInside(y, z, nly, nlz);
    IdxDivides(y, z, nly);
    a := ReadPoint(buf, Points3D(noise, x0, y0, z0, seed, nly), nlx, nly * nlz, x, Idx(y, z, nly));
  }

  /** The four values of the lattice at one x around a cell. */
  method ReadCorners(buf: array<real>, ghost noise: Lattice3D, ghost x0: int, ghost y0: int, ghost z0: int,
                     ghost seed: int,
                     nlx: nat, nly: nat, ghost nlz: nat, x: nat, y: nat, z: nat)
    returns (v00: real, v10: real, v01: real, v11: real)
    requires Ready3D(buf[..], noise, x0, y0, z0, seed, nlx, nly, nlz)
    requires x < nlx && y + 1 < nly && z + 1 < nlz
    ensures v00 == noise(x0 + x, y0 + y, z0 + z, seed) && v10 == noise(x0 + x, y0 + y + 1, z0 + z, seed)
    ensures v01 == noise(x0 + x, y0 + y, z0 + z + 1, seed) && v11 == noise(x0 + x, y0 + y + 1, z0 + z + 1, seed)
  {
    v00 := ReadPoint3D(buf, noise, x0, y0, z0, seed, nlx, nly, nlz, x, y, z);
    v10 := ReadPoint3D(buf, noise, x0, y0, z0, seed, nlx, nly, nlz, x, y + 1, z);
    v01 := ReadPoint3D(buf, noise, x0, y0, z0, seed, nlx, nly, nlz, x, y, z + 1);
    v11 := ReadPoint3D(buf, noise, x0, y0, z0, seed, nlx, nly, nlz, x, y + 1, z + 1);
  }

  method StoreCell3D(valueBuf: array<real>, v000: real, v100: real, v010: real, v110: real, v001: real, v101: real,
                     v011: real, v111: real,
                     u: real, v: real, w: real, eased: bool, start: nat, i: nat,
                     ghost field: Field3D, ghost noise: Lattice3D, ghost x: real, ghost y: real, ghost z: real,
                     ghost stepX: real, ghost stepY: real, ghost stepZ: real, ghost seed: int, ghost sx: nat,
                         ghost sy: nat,
                     ghost j: nat, ghost k: nat, ghost line: nat, ghost noisex: nat, ghost noisey: nat,
                         ghost noisez: nat)
    requires Interpolates3D(field, noise, eased) && j < sy
    requires Walked(x, stepX, i, noisex, u) && Walked(y, stepY, j, noisey, v) && Walked(z, stepZ, k, noisez, w)
    requires Corners3D(noise, x.Floor + noisex, y.Floor + noisey, z.Floor + noisez, seed, v000, v100, v010, v110, v001,
                       v101, v011, v111)
    requires line == Idx(j, k, sy) && start == Idx(0, line, sx) && i < sx && start + sx <= valueBuf.Length
    requires Filled(valueBuf[..], Grid3D(field, x, y, z, stepX, stepY, stepZ, seed, sy), sx, start + i)
    modifies valueBuf
    ensures Filled(valueBuf[..], Grid3D(field, x, y, z, stepX, stepY, stepZ, seed, sy), sx, start + i + 1)
  {
    var value := CellValue3D(v000, v100, v010, v110, v001, v101, v011, v111, u, v, w, eased,
                             field, noise, x, y, z, stepX, stepY, stepZ, seed, sy, i, j, k, noisex, noisey, noisez);
    Store(valueBuf, Grid3D(field, x, y, z, stepX, stepY, stepZ, seed, sy), sx, i, line, start + i, value);
  }

  /** One step along x, and the corners of the cell it leads to. */
  method NextCell3D(noiseBuf: array<real>, ghost noise: Lattice3D, x: real, ghost y0: int, ghost z0: int, stepX: real,
                    ghost seed: int, ghost sx: nat, ghost i: nat, nlx: nat, nly: nat, ghost nlz: nat,
                    noisey: nat, noisez: nat, u: real, noisex: nat,
                    v000: real, v100: real, v010: real, v110: real, v001: real, v101: real, v011: real, v111: real)
    returns (u': real, noisex': nat, w000: real, w100: real, w010: real, w110: real,
             w001: real, w101: real, w011: real, w111: real)
    requires 0.0 < stepX <= 1.0 && i < sx && Walked(x, stepX, i, noisex, u)
    requires nlx == PointCount(x - x.Floor as real, sx, stepX) && noisey + 1 < nly && noisez + 1 < nlz
    requires Ready3D(noiseBuf[..], noise, x.Floor, y0, z0, seed, nlx, nly, nlz)
    requires Corners3D(noise, x.Floor + noisex, y0 + noisey, z0 + noisez, seed,
                       v000, v100, v010, v110, v001, v101, v011, v111)
    ensures Walked(x, stepX, i + 1, noisex', u')
    ensures Corners3D(noise, x.Floor + noisex', y0 + noisey, z0 + noisez, seed,
                      w000, w100, w010, w110, w001, w101, w011, w111)
  {
    WalkStep(x, stepX, i, noisex, u);
    u', noisex' := u + stepX, noisex;
    w000, w100, w010, w110 := v000, v100, v010, v110;
    w001, w101, w011, w111 := v001, v101, v011, v111;
    if u' >= 1.0 {
      u' := u' - 1.0;
      noisex' := noisex + 1;
      WalkInside(x, stepX, i + 1, noisex', u', sx);
      w000, w010, w001, w011 := v100, v110, v101, v111;
      w100, w110, w101, w111 :=
        ReadCorners(noiseBuf, noise, x.Floor, y0, z0, seed, nlx, nly, nlz, noisex' + 1, noisey, noisez);
    }
  }

  method InterpolateLine3D(noiseBuf: array<real>, valueBuf: array<real>, ghost noise: Lattice3D, ghost field: Field3D,
                           x: real, ghost y: real, ghost z: real, stepX: real, ghost stepY: real, ghost stepZ: real,
                               ghost seed: int, eased: bool,
                           sx: nat, ghost sy: nat, ghost j: nat, ghost k: nat, ghost line: nat, nlx: nat, nly: nat,
                               ghost nlz: nat,
                           noisey: nat, v: real, noisez: nat, w: real, start: nat)
    requires noiseBuf != valueBuf && Interpolates3D(field, noise, eased) && 0.0 < stepX <= 1.0 && j < sy
    requires nlx == PointCount(x - x.Floor as real, sx, stepX) && noisey + 1 < nly && noisez + 1 < nlz
    requires Ready3D(noiseBuf[..], noise, x.Floor, y.Floor, z.Floor, seed, nlx, nly, nlz)
    requires Walked(y, stepY, j, noisey, v) && Walked(z, stepZ, k, noisez, w)
    requires line == Idx(j, k, sy) && start == Idx(0, line, sx) && start + sx <= valueBuf.Length
    requires Filled(valueBuf[..], Grid3D(field, x, y, z, stepX, stepY, stepZ, seed, sy), sx, start)
    modifies valueBuf
    ensures Filled(valueBuf[..], Grid3D(field, x, y, z, stepX, stepY, stepZ, seed, sy), sx, start + sx)
  {
    ghost var lattice := noiseBuf[..];
    ghost var grid := Grid3D(field, x, y, z, stepX, stepY, stepZ, seed, sy);
    var u := x - x.Floor as real;
    var noisex: nat := 0;
    WalkStarts(x, stepX);
    WalkInside(x, stepX, 0, 0, u, sx);
    var v000, v010, v001, v011 := ReadCorners(noiseBuf, noise, x.Floor, y.Floor, z.Floor, seed, nlx, nly, nlz, 0,
                                              noisey, noisez);
    var v100, v110, v101, v111 := ReadCorners(noiseBuf, noise, x.Floor, y.Floor, z.Floor, seed, nlx, nly, nlz, 1,
                                              noisey, noisez);
    for i := 0 to sx
      invariant Walked(x, stepX, i, noisex, u)
      invariant Corners3D(noise, x.Floor + noisex, y.Floor + noisey, z.Floor + noisez, seed, v000, v100, v010, v110,
                          v001, v101, v011, v111)
      invariant noiseBuf[..] == lattice
      invariant Filled(valueBuf[..], grid, sx, start + i)
    {
      StoreCell3D(valueBuf, v000, v100, v010, v110, v001, v101, v011, v111, u, v, w, eased, start, i,
                  field, noise, x, y, z, stepX, stepY, stepZ, seed, sx, sy, j, k, line, noisex, noisey, noisez);
      u, noisex, v000, v100, v010, v110, v001, v101, v011, v111 :=
        NextCell3D(noiseBuf, noise, x, y.Floor, z.Floor, stepX, seed, sx, i, nlx, nly, nlz, noisey, noisez,
                   u, noisex, v000, v100, v010, v110, v001, v101, v011, v111);
    }
  }

  method InterpolatePlane3D(noiseBuf: array<real>, valueBuf: array<real>, ghost noise: Lattice3D, ghost field: Field3D,
                            x: real, y: real, ghost z: real, stepX: real, stepY: real, ghost stepZ: real,
                                ghost seed: int, eased: bool,
                            sx: nat, sy: nat, ghost k: nat, nlx: nat, nly: nat, ghost nlz: nat, noisez: nat, w: real,
                                start: nat)
    requires noiseBuf != valueBuf && Interpolates3D(field, noise, eased) && 0.0 < stepX <= 1.0 && 0.0 < stepY <= 1.0 &&
             sx > 0 && sy > 0
    requires nlx == PointCount(x - x.Floor as real, sx, stepX) && nly == PointCount(y - y.Floor as real, sy, stepY) &&
             noisez + 1 < nlz
    requires Ready3D(noiseBuf[..], noise, x.Floor, y.Floor, z.Floor, seed, nlx, nly, nlz)
    requires Walked(z, stepZ, k, noisez, w)
    requires start == Idx(0, Idx(0, k, sy), sx) && start + sx * sy <= valueBuf.Length
    requires Filled(valueBuf[..], Grid3D(field, x, y, z, stepX, stepY, stepZ, seed, sy), sx, start)
    modifies valueBuf
    ensures Filled(valueBuf[..], Grid3D(field, x, y, z, stepX, stepY, stepZ, seed, sy), sx, start + sx * sy)
  {
    ghost var grid := Grid3D(field, x, y, z, stepX, stepY, stepZ, seed, sy);
    var v := y - y.Floor as real;
    var index, noisey: nat := start, 0;
    WalkStarts(y, stepY);
    for j := 0 to sy
      invariant Walked(y, stepY, j, noisey, v) && index == start + Idx(0, j, sx)
      invariant Ready3D(noiseBuf[..], noise, x.Floor, y.Floor, z.Floor, seed, nlx, nly, nlz)
      invariant Filled(valueBuf[..], grid, sx, index)
    {
      WalkInside(y, stepY, j, noisey, v, sy);
      LineEnds(j, sx, sy);
      LineOfPlane(j, k, sx, sy);
      InterpolateLine3D(noiseBuf, valueBuf, noise, field, x, y, z, stepX, stepY, stepZ, seed, eased,
                        sx, sy, j, k, Idx(j, k, sy), nlx, nly, nlz, noisey, v, noisez, w, index);
      index := index + sx;
      noisey, v := Step(y, stepY, j, noisey, v);
    }
    LineEnds(sy, sx, sy);
  }

  /** Line `j` of plane `k` starts `j` lines behind the plane. */
  lemma LineOfPlane(j: nat, k: nat, sx: nat, sy: nat)
    ensures Idx(0, Idx(j, k, sy), sx) == Idx(0, Idx(0, k, sy), sx) + Idx(0, j, sx)
  {
  }

  lemma PlaneEnds(k: nat, sx: nat, sy: nat, sz: nat)
    ensures Idx(0, Idx(0, k, sy), sx) + sx * sy == Idx(0, Idx(0, k + 1, sy), sx)
    ensures k < sz ==> Idx(0, Idx(0, k, sy), sx) + sx * sy <= Volume(sx, sy, sz)
    ensures k == sz ==> Idx(0, Idx(0, k, sy), sx) == Volume(sx, sy, sz)
  {
    LineEnds(k, sy, sz);
    var lines := Idx(0, k, sy);
    assert (lines + sy) * sx == lines * sx + sy * sx;
    if k < sz {
      AreaGrows(sx, lines + sy, sx, sy * sz);
    }
  }

  method InterpolatePlanes3D(noiseBuf: array<real>, valueBuf: array<real>, ghost noise: Lattice3D, ghost field: Field3D,
                             x: real, y: real, z: real, stepX: real, stepY: real, stepZ: real, ghost seed: int,
                                 eased: bool,
                             sx: nat, sy: nat, sz: nat, nlx: nat, nly: nat, ghost nlz: nat)
    requires noiseBuf != valueBuf && Interpolates3D(field, noise, eased) && sx > 0 && sy > 0
    requires 0.0 < stepX <= 1.0 && 0.0 < stepY <= 1.0 && 0.0 < stepZ <= 1.0
    requires nlx == PointCount(x - x.Floor as real, sx, stepX) && nly == PointCount(y - y.Floor as real, sy, stepY)
    requires nlz == PointCount(z - z.Floor as real, sz, stepZ)
    requires Ready3D(noiseBuf[..], noise, x.Floor, y.Floor, z.Floor, seed, nlx, nly, nlz)
    requires Volume(sx, sy, sz) <= valueBuf.Length
    modifies valueBuf
    ensures Filled(valueBuf[..], Grid3D(field, x, y, z, stepX, stepY, stepZ, seed, sy), sx, Volume(sx, sy, sz))
  {
    ghost var grid := Grid3D(field, x, y, z, stepX, stepY, stepZ, seed, sy);
    var w := z - z.Floor as real;
    var index, noisez: nat := 0, 0;
    WalkStarts(z, stepZ);
    for k := 0 to sz
      invariant Walked(z, stepZ, k, noisez, w) && index == Idx(0, Idx(0, k, sy), sx)
      invariant Ready3D(noiseBuf[..], noise, x.Floor, y.Floor, z.Floor, seed, nlx, nly, nlz)
      invariant Filled(valueBuf[..], grid, sx, index)
    {
      WalkInside(z, stepZ, k, noisez, w, sz);
      PlaneEnds(k, sx, sy, sz);
      InterpolatePlane3D(noiseBuf, valueBuf, noise, field, x, y, z, stepX, stepY, stepZ, seed, eased, sx, sy, k, nlx,
                         nly, nlz, noisez, w, index);
      index := index + sx * sy;
      noisez, w := Step(z, stepZ, k, noisez, w);
    }
    PlaneEnds(sz, sx, sy, sz);
  }

  /** One octave over a grid of `sx` by `sy` by `sz` points. */
  method ValueMap3D(noiseBuf: array<real>, valueBuf: array<real>, noise: Lattice3D, ghost field: Field3D,
                    x: real, y: real, z: real, stepX: real, stepY: real, stepZ: real, seed: int, eased: bool, sx: nat,
                        sy: nat, sz: nat)
    requires noiseBuf != valueBuf && Interpolates3D(field, noise, eased) && sx > 0 && sy > 0
    requires 0.0 < stepX <= 1.0 && 0.0 < stepY <= 1.0 && 0.0 < stepZ <= 1.0
    requires PointCount(x - x.Floor as real, sx, stepX) *
             (PointCount(y - y.Floor as real, sy, stepY) * PointCount(z - z.Floor as real, sz,
                                                                      stepZ)) <= noiseBuf.Length
    requires Volume(sx, sy, sz) <= valueBuf.Length
    modifies noiseBuf, valueBuf
    ensures Filled(valueBuf[..], Grid3D(field, x, y, z, stepX, stepY, stepZ, seed, sy), sx, Volume(sx, sy, sz))
  {
    WalkStarts(x, stepX);
    WalkStarts(y, stepY);
    WalkStarts(z, stepZ);
    WalkInside(x, stepX, 0, 0, x - x.Floor as real, sx);
    WalkInside(y, stepY, 0, 0, y - y.Floor as real, sy);
    WalkInside(z, stepZ, 0, 0, z - z.Floor as real, sz);
    var nlx: nat, nly: nat := PointCount(x - x.Floor as real, sx, stepX), PointCount(y - y.Floor as real, sy, stepY);
    var nlz: nat := PointCount(z - z.Floor as real, sz, stepZ);
    FillLines(noiseBuf, Points3D(noise, x.Floor, y.Floor, z.Floor, seed, nly), nlx, nly * nlz);
    InterpolatePlanes3D(noiseBuf, valueBuf, noise, field, x, y, z, stepX, stepY, stepZ, seed, eased, sx, sy, sz, nlx,
                        nly, nlz);
  }
}
