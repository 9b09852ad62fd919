/** The noise object: its buffers, and maps of whole grids that equal the pointwise noise. */
module Noises {
  import opened NoiseBuffers
  import opened NoiseField
  import opened NoiseLattice
  import opened NoiseMaps
  import opened NoiseSums
  import opened Options

  /** Offset and scale are applied only if they matter. */
  predicate Scales(np: NoiseParams) {
    Abs(np.offset - 0.0) > 0.00001 || Abs(np.scale - 1.0) > 0.00001
  }

  function Finished(np: NoiseParams, a: real): real {
    if Scales(np) then a * np.scale + np.offset else a
  }

  /** The map leaves the sum unscaled exactly when that changes nothing or the change is below the tolerance. */
  lemma FinishedIsFractal(np: NoiseParams, a: real)
    ensures Finished(np, a) == np.offset + a * np.scale <==> Scales(np) || np.offset + a * np.scale == a
  {
  }

  /** Whether applied or not, offset and scale are missed by no more than the tolerance. */
  lemma FinishedIsClose(np: NoiseParams, a: real)
    ensures Abs(Finished(np, a) - (np.offset + a * np.scale)) <= 0.00001 * (1.0 + Abs(a))
  {
    assert 0.00001 * (1.0 + Abs(a)) == 0.00001 + 0.00001 * Abs(a);
    if !Scales(np) {
      var d := np.scale - 1.0;
      SmallProduct(a, d, 0.00001);
      Gap(np.offset, np.scale, a, a * d);
      SmallSum(np.offset, a * d, 0.00001, 0.00001 * Abs(a));
    }
  }

  lemma Gap(offset: real, scale: real, a: real, p: real)
    requires p == a * (scale - 1.0)
    ensures a - (offset + a * scale) == -(offset + p)
  {
  }

  lemma SmallSum(x: real, y: real, d: real, e: real)
    requires Abs(x) <= d && Abs(y) <= e
    ensures Abs(-(x + y)) <= d + e
  {
  }

  lemma SmallProduct(a: real, d: real, e: real)
    requires Abs(d) <= e
    ensures Abs(a * d) <= e * Abs(a)
  {
    if a >= 0.0 {
      assert a * d <= a * e && a * -d <= a * e;
    } else {
      assert -a * d <= -a * e && -a * -d <= -a * e;
    }
  }

  /** Cell `k` is the pointwise noise at column `k % sx` of line `k / sx`, with the persistence of the cell. */
  ghost predicate IsMap2D(result: seq<real>, noise: Lattice2D, np: NoiseParams, x: real, y: real, seed: int, sx: nat,
                          map_: Option<seq<real>>, size: nat)
  {
    && Spreads(np) && sx > 0 && size <= |result|
    && forall k :: 0 <= k < size ==>
         result[k] == Finished(np, Sum2D(Value2D(noise, np.defaults || np.eased), np,
                                         Coordinate(x, np.spread.X, Column(k, sx)),
                                             Coordinate(y, np.spread.Y, Line(k, sx)),
                                         seed + np.seed, PersistAt(map_, np, k), np.octaves))
  }

  ghost predicate IsMap3D(result: seq<real>, noise: Lattice3D, np: NoiseParams, x: real, y: real, z: real, seed: int,
                          sx: nat, sy: nat, map_: Option<seq<real>>, size: nat)
  {
    && Spreads(np) && sx > 0 && sy > 0 && size <= |result|
    && forall k :: 0 <= k < size ==>
         result[k] == Finished(np, Sum3D(Value3D(noise, np.eased), np,
                                         Coordinate(x, np.spread.X, Column(k, sx)),
                                             Coordinate(y, np.spread.Y, Column(Line(k, sx), sy)),
                                         Coordinate(z, np.spread.Z, Line(Line(k, sx), sy)),
                                         seed + np.seed, PersistAt(map_, np, k), np.octaves))
  }

  /** Every cell has the value of the pointwise fractal noise at its own place. */
  ghost predicate IsFractal2D(result: seq<real>, noise: Lattice2D, np: NoiseParams, x: real, y: real, seed: int,
                              sx: nat, size: nat) {
    && Spreads(np) && sx > 0 && size <= |result|
    && forall k :: 0 <= k < size ==>
         result[k] == Fractal2D(Value2D(noise, np.defaults || np.eased), np, x + Column(k, sx) as real,
                                y + Line(k, sx) as real, seed)
  }

  ghost predicate IsFractal3D(result: seq<real>, noise: Lattice3D, np: NoiseParams, x: real, y: real, z: real,
                              seed: int,
                              sx: nat, sy: nat, size: nat)
  {
    && Spreads(np) && sx > 0 && sy > 0 && size <= |result|
    && forall k :: 0 <= k < size ==>
         result[k] == Fractal3D(Value3D(noise, np.eased), np, x + Column(k, sx) as real,
                                y + Column(Line(k, sx), sy) as real,
                                z + Line(Line(k, sx), sy) as real, seed)
  }

  /** Offset and scale are either applied or do nothing. */
  predicate ExactScale(np: NoiseParams) {
    Scales(np) || (np.offset == 0.0 && np.scale == 1.0)
  }

  /** With exact scale, the finished sum at the coordinates of a point is the fractal noise of the point. */
  lemma FinishedIsFractal2D(field: Field2D, np: NoiseParams, x: real, y: real, i: nat, j: nat, seed: int)
    requires Spreads(np) && ExactScale(np)
    ensures Finished(np, Sum2D(field, np, Coordinate(x, np.spread.X, i), Coordinate(y, np.spread.Y, j), seed + np.seed,
                               np.persist, np.octaves)) ==
            Fractal2D(field, np, x + i as real, y + j as real, seed)
  {
    FinishedIsFractal(np, Sum2D(field, np, Coordinate(x, np.spread.X, i), Coordinate(y, np.spread.Y, j), seed + np.seed,
                                np.persist, np.octaves));
  }

  lemma FinishedIsFractal3D(field: Field3D, np: NoiseParams, x: real, y: real, z: real, i: nat, j: nat, k: nat,
                            seed: int)
    requires Spreads(np) && ExactScale(np)
    ensures Finished(np, Sum3D(field, np, Coordinate(x, np.spread.X, i), Coordinate(y, np.spread.Y, j),
                               Coordinate(z, np.spread.Z, k), seed + np.seed, np.persist, np.octaves)) ==
            Fractal3D(field, np, x + i as real, y + j as real, z + k as real, seed)
  {
    FinishedIsFractal(np, Sum3D(field, np, Coordinate(x, np.spread.X, i), Coordinate(y, np.spread.Y, j),
                                Coordinate(z, np.spread.Z, k), seed + np.seed, np.persist, np.octaves));
  }

  lemma MapIsFractal2D(result: seq<real>, noise: Lattice2D, np: NoiseParams, x: real, y: real, seed: int, sx: nat,
                       size: nat)
    requires IsMap2D(result, noise, np, x, y, seed, sx, None, size) && ExactScale(np)
    ensures IsFractal2D(result, noise, np, x, y, seed, sx, size)
  {
    forall k | 0 <= k < size
      ensures result[k] == Fractal2D(Value2D(noise, np.defaults || np.eased), np, x + Column(k, sx) as real,
                                     y + Line(k, sx) as real, seed)
    {
      FinishedIsFractal2D(Value2D(noise, np.defaults || np.eased), np, x, y, Column(k, sx), Line(k, sx), seed);
    }
  }

  lemma MapIsFractal3D(result: seq<real>, noise: Lattice3D, np: NoiseParams, x: real, y: real, z: real, seed: int,
                       sx: nat, sy: nat, size: nat)
    requires IsMap3D(result, noise, np, x, y, z, seed, sx, sy, None, size) && ExactScale(np)
    ensures IsFractal3D(result, noise, np, x, y, z, seed, sx, sy, size)
  {
    forall k | 0 <= k < size
      ensures result[k] == Fractal3D(Value3D(noise, np.eased), np, x + Column(k, sx) as real,
                                     y + Column(Line(k, sx), sy) as real,
                                     z + Line(Line(k, sx), sy) as real, seed)
    {
      FinishedIsFractal3D(Value3D(noise, np.eased), np, x, y, z, Column(k, sx), Column(Line(k, sx), sy),
                          Line(Line(k, sx), sy), seed);
    }
  }

  lemma FinishedMap2D(sums: seq<real>, result: seq<real>, noise: Lattice2D, np: NoiseParams, x: real, y: real,
                      seed: int,
                      sx: nat, map_: Option<seq<real>>, size: nat)
    requires Spreads(np) && sx > 0 && size <= |result|
    requires Accumulated(sums, np, Octaves2D(Value2D(noise, np.defaults || np.eased), np, x, y, seed + np.seed, sx),
                         map_,
                         np.octaves, size)
    requires forall k :: 0 <= k < size ==> result[k] == Finished(np, sums[k])
    ensures IsMap2D(result, noise, np, x, y, seed, sx, map_, size)
  {
    var field := Value2D(noise, np.defaults || np.eased);
    forall k | 0 <= k < size
      ensures sums[k] == Sum2D(field, np, Coordinate(x, np.spread.X, Column(k, sx)),
                               Coordinate(y, np.spread.Y, Line(k, sx)),
                               seed + np.seed, PersistAt(map_, np, k), np.octaves)
    {
      SumIsSum2D(field, np, x, y, seed + np.seed, sx, PersistAt(map_, np, k), k, np.octaves);
    }
  }

  lemma FinishedMap3D(sums: seq<real>, result: seq<real>, noise: Lattice3D, np: NoiseParams, x: real, y: real, z: real,
                      seed: int, sx: nat, sy: nat, map_: Option<seq<real>>, size: nat)
    requires Spreads(np) && sx > 0 && sy > 0 && size <= |result|
    requires Accumulated(sums, np, Octaves3D(Value3D(noise, np.eased), np, x, y, z, seed + np.seed, sx, sy), map_,
                         np.octaves, size)
    requires forall k :: 0 <= k < size ==> result[k] == Finished(np, sums[k])
    ensures IsMap3D(result, noise, np, x, y, z, seed, sx, sy, map_, size)
  {
    var field := Value3D(noise, np.eased);
    forall k | 0 <= k < size
      ensures sums[k] == Sum3D(field, np, Coordinate(x, np.spread.X, Column(k, sx)),
                               Coordinate(y, np.spread.Y, Column(Line(k, sx), sy)),
                               Coordinate(z, np.spread.Z, Line(Line(k, sx), sy)), seed + np.seed,
                                   PersistAt(map_, np, k),
                                   np.octaves)
    {
      SumIsSum3D(field, np, x, y, z, seed + np.seed, sx, sy, PersistAt(map_, np, k), k, np.octaves);
    }
  }

  function MapOf(a: array?<real>): Option<seq<real>>
    reads a
  {
    if a == null then None else Some(a[..])
  }

  lemma FlatPart(sx: nat, sy: nat, sz: nat)
    requires sz > 0
    ensures sx * sy <= Volume(sx, sy, sz)
  {
    AreaGrows(sy, 1, sy, sz);
    AreaGrows(sx, sy, sx, sy * sz);
  }

  method NextPower(b: real, p: real, ghost n: nat) returns (p': real)
    requires p == Power(b, n)
    ensures p' == Power(b, n + 1)
  {
    p' := p * b;
  }

  class Noise {
    const noise2: Lattice2D
    const noise3: Lattice3D
    var np: NoiseParams
    var seed: int
    var sx: nat
    var sy: nat
    var sz: nat
    var noiseBuf: array<real>
    var valueBuf: array<real>
    var result: array<real>

    ghost predicate Valid()
      reads this
    {
      && sx > 0 && sy > 0 && sz > 0 && ParamsOk(np, sx, sy, sz)
      && noiseBuf != valueBuf && noiseBuf != result && valueBuf != result
      && valueBuf.Length == result.Length == Volume(sx, sy, sz)
      && noiseBuf.Length == BufSize(np, sx, sy, sz)
    }

    constructor (noise2: Lattice2D, noise3: Lattice3D, np: NoiseParams, seed: int)
      ensures this.noise2 == noise2 && this.noise3 == noise3 && this.np == np && this.seed == seed
      ensures fresh(noiseBuf) && fresh(valueBuf) && fresh(result)
    {
      this.noise2, this.noise3, this.np, this.seed := noise2, noise3, np, seed;
      sx, sy, sz := 1, 1, 1;
      noiseBuf, valueBuf, result := new real[0], new real[0], new real[0];
    }

    /** Fails on parameters that would break the noise or the memory, as far as the estimate tells. */
    method ResizeNoiseBuf() returns (ok: bool)
      requires np.lacunarity != 0.0
      modifies `noiseBuf
      ensures ok == ParamsOk(np, sx, sy, sz)
      ensures ok ==> fresh(noiseBuf) && noiseBuf.Length == BufSize(np, sx, sy, sz)
    {
      if !ParamsOk(np, sx, sy, sz) {
        return false;
      }
      var nlx, nly := BufPoints(np, sx, np.spread.X), BufPoints(np, sy, np.spread.Y);
      var nlz := if sz > 1 then BufPoints(np, sz, np.spread.Z) else 1;
      noiseBuf := new real[Volume(nlx, nly, nlz)];
      return true;
    }

    method SetSize(sx: nat, sy: nat, sz: nat) returns (ok: bool)
      requires np.lacunarity != 0.0
      modifies this
      ensures np == old(np) && seed == old(seed)
      ensures this.sx == if sx < 1 then 1 else sx
      ensures this.sy == if sy < 1 then 1 else sy
      ensures this.sz == if sz < 1 then 1 else sz
      ensures ok == ParamsOk(np, this.sx, this.sy, this.sz)
      ensures ok ==> Valid() && fresh(noiseBuf) && fresh(valueBuf) && fresh(result)
    {
      this.sx := if sx < 1 then 1 else sx;
      this.sy := if sy < 1 then 1 else sy;
      this.sz := if sz < 1 then 1 else sz;
      ok := ResizeNoiseBuf();
      if ok {
        var bufsize := Volume(this.sx, this.sy, this.sz);
        valueBuf := new real[bufsize];
        result := new real[bufsize];
      }
    }

    /** Fills the value buffer with octave `oct` of a flat map. */
    method Octave2D(x: real, y: real, f: real, oct: nat, ghost field: Field2D)
      requires Valid() && Enough2D(np, sx, sy, sz) && oct < np.octaves && f == Power(np.lacunarity, oct)
      requires field == Value2D(noise2, np.defaults || np.eased)
      modifies noiseBuf, valueBuf
      ensures HoldsOctave(valueBuf[..], np, Octaves2D(field, np, x, y, seed + np.seed, sx), oct, sx * sy)
    {
      var px, py := Times(x / np.spread.X, f), Times(y / np.spread.Y, f);
      assert StartFits2D(np, sx, sy, sz, Power(np.lacunarity, oct), px - px.Floor as real, py - py.Floor as real);
      ValueInterpolates2D(noise2, np.defaults || np.eased);
      FlatPart(sx, sy, sz);
      ValueMap2D(noiseBuf, valueBuf, noise2, field, px, py, f / np.spread.X, f / np.spread.Y, seed + np.seed + oct,
                 np.defaults || np.eased, sx, sy);
      GridIsOctave2D(valueBuf[..], field, np, x, y, seed + np.seed, sx, oct, f, sx * sy);
    }

    method Octave3D(x: real, y: real, z: real, f: real, oct: nat, ghost field: Field3D)
      requires Valid() && Enough3D(np, sx, sy, sz) && oct < np.octaves && f == Power(np.lacunarity, oct)
      requires field == Value3D(noise3, np.eased)
      modifies noiseBuf, valueBuf
      ensures HoldsOctave(valueBuf[..], np, Octaves3D(field, np, x, y, z, seed + np.seed, sx, sy), oct,
                          Volume(sx, sy, sz))
    {
      var px, py, pz := Times(x / np.spread.X, f), Times(y / np.spread.Y, f), Times(z / np.spread.Z, f);
      assert StartFits3D(np, sx, sy, sz, Power(np.lacunarity, oct), px - px.Floor as real, py - py.Floor as real,
                         pz - pz.Floor as real);
      ValueInterpolates3D(noise3, np.eased);
      ValueMap3D(noiseBuf, valueBuf, noise3, field, px, py, pz, f / np.spread.X, f / np.spread.Y, f / np.spread.Z,
                 seed + np.seed + oct, np.eased, sx, sy, sz);
      GridIsOctave3D(valueBuf[..], field, np, x, y, z, seed + np.seed, sx, sy, oct, f, Volume(sx, sy, sz));
    }

    ghost predicate Apart(persistBuf: array<real>, persistenceMap: array?<real>)
      reads this
    {
      && persistBuf !in {noiseBuf, valueBuf, result} && persistBuf != persistenceMap
      && (persistenceMap != null ==> persistenceMap !in {noiseBuf, valueBuf, result})
    }

    /** The frequency and the weight of octave `oct`, the weight for all cells or for each. */
    ghost predicate Weighs(f: real, g: real, persistBuf: array<real>, persistenceMap: array?<real>, oct: nat, size: nat)
      reads this, persistBuf, persistenceMap
    {
      && f == Power(np.lacunarity, oct) && g == Power(np.persist, oct)
      && (persistenceMap != null ==> HoldsPowers(persistBuf[..], persistenceMap[..], oct, size))
    }

    method ClearResult(size: nat)
      requires size <= result.Length
      modifies result
      ensures forall k :: 0 <= k < size ==> result[k] == 0.0
    {
      for k := 0 to size
        invariant forall i :: 0 <= i < k ==> result[i] == 0.0
      {
        result[k] := 0.0;
      }
    }

    /** Applies offset and scale to every cell. */
    method FinishResult(size: nat)
      requires size <= result.Length
      modifies result
      ensures forall k :: 0 <= k < size ==> result[k] == Finished(np, old(result[k]))
    {
      if Scales(np) {
        ghost var before := result[..];
        for k := 0 to size
          invariant forall i :: 0 <= i < size ==>
                      result[i] == if i < k then before[i] * np.scale + np.offset else before[i]
        {
          result[k] := result[k] * np.scale + np.offset;
        }
      }
    }

    /** Adds the octave in the value buffer to every cell. */
    method Accumulate(f: real, g: real, oct: nat, size: nat, persistBuf: array<real>, persistenceMap: array?<real>,
                      ghost v: Octaves)
      returns (f': real, g': real)
      requires noiseBuf != valueBuf && noiseBuf != result && valueBuf != result && Apart(persistBuf, persistenceMap)
      requires HoldsOctave(valueBuf[..], np, v, oct, size)
      requires Weighs(f, g, persistBuf, persistenceMap, oct, size)
      requires Accumulated(result[..], np, v, MapOf(persistenceMap), oct, size)
      modifies result, persistBuf
      ensures MapOf(persistenceMap) == old(MapOf(persistenceMap))
      ensures Accumulated(result[..], np, v, MapOf(persistenceMap), oct + 1, size)
      ensures Weighs(f', g', persistBuf, persistenceMap, oct + 1, size)
    {
      if persistenceMap == null {
        UpdateResults(np, result, valueBuf, g, size, v, oct);
      } else {
        UpdateResultsByMap(np, result, valueBuf, persistBuf, persistenceMap, size, v, oct);
      }
      f' := NextPower(np.lacunarity, f, oct);
      g' := NextPower(np.persist, g, oct);
    }

    /** Adds octave `oct` to every cell; the next octave has frequency `f'` and weight `g'`. */
    method AddOctave2D(x: real, y: real, f: real, g: real, oct: nat, size: nat, persistBuf: array<real>,
                       persistenceMap: array?<real>, ghost field: Field2D, ghost v: Octaves)
      returns (f': real, g': real)
      requires Valid() && Enough2D(np, sx, sy, sz) && oct < np.octaves && size == sx * sy
      requires field == Value2D(noise2, np.defaults || np.eased)
      requires v == Octaves2D(field, np, x, y, seed + np.seed, sx)
      requires Apart(persistBuf, persistenceMap) && Weighs(f, g, persistBuf, persistenceMap, oct, size)
      requires Accumulated(result[..], np, v, MapOf(persistenceMap), oct, size)
      modifies noiseBuf, valueBuf, result, persistBuf
      ensures MapOf(persistenceMap) == old(MapOf(persistenceMap))
      ensures Accumulated(result[..], np, v, MapOf(persistenceMap), oct + 1, size)
      ensures Weighs(f', g', persistBuf, persistenceMap, oct + 1, size)
    {
      Octave2D(x, y, f, oct, field);
      f', g' := Accumulate(f, g, oct, size, persistBuf, persistenceMap, v);
    }

    /** Sums the octaves, each cell with its own persistence if a map of them is given. */
    method SumOctaves2D(x: real, y: real, size: nat, persistenceMap: array?<real>, ghost field: Field2D,
                        ghost v: Octaves)
      requires Valid() && Enough2D(np, sx, sy, sz) && size == sx * sy <= result.Length
      requires field == Value2D(noise2, np.defaults || np.eased)
      requires v == Octaves2D(field, np, x, y, seed + np.seed, sx)
      requires persistenceMap != null ==>
                 persistenceMap.Length >= size && persistenceMap !in {noiseBuf, valueBuf, result}
      modifies noiseBuf, valueBuf, result
      ensures MapOf(persistenceMap) == old(MapOf(persistenceMap))
      ensures Accumulated(result[..], np, v, MapOf(persistenceMap), np.octaves, size)
    {
      ClearResult(size);
      var f, g := 1.0, 1.0;
      var persistBuf := new real[size](_ => 1.0);
      for oct := 0 to np.octaves
        invariant Weighs(f, g, persistBuf, persistenceMap, oct, size)
        invariant MapOf(persistenceMap) == old(MapOf(persistenceMap))
        invariant Accumulated(result[..], np, v, MapOf(persistenceMap), oct, size)
      {
        f, g := AddOctave2D(x, y, f, g, oct, size, persistBuf, persistenceMap, field, v);
      }
    }

    /**
      Every cell of the map has the value of the pointwise noise at its place,
      whatever the persistence; without a map of persistences and with offset
      and scale applied exactly, that is the value of NoiseFractal2D.
     */
    method NoiseMap2D(x: real, y: real, persistenceMap: array?<real>)
      requires Valid() && Enough2D(np, sx, sy, sz)
      requires persistenceMap != null ==>
                 persistenceMap.Length >= sx * sy && persistenceMap !in {noiseBuf, valueBuf, result}
      modifies noiseBuf, valueBuf, result
      ensures IsMap2D(result[..], noise2, np, x, y, seed, sx, old(MapOf(persistenceMap)), sx * sy)
      ensures persistenceMap == null && ExactScale(np) ==> IsFractal2D(result[..], noise2, np, x, y, seed, sx, sx * sy)
    {
      ghost var field := Value2D(noise2, np.defaults || np.eased);
      FlatPart(sx, sy, sz);
      SumOctaves2D(x, y, sx * sy, persistenceMap, field, Octaves2D(field, np, x, y, seed + np.seed, sx));
      ghost var sums := result[..];
      FinishResult(sx * sy);
      FinishedMap2D(sums, result[..], noise2, np, x, y, seed, sx, MapOf(persistenceMap), sx * sy);
      if persistenceMap == null && ExactScale(np) {
        MapIsFractal2D(result[..], noise2, np, x, y, seed, sx, sx * sy);
      }
    }

    method AddOctave3D(x: real, y: real, z: real, f: real, g: real, oct: nat, size: nat, persistBuf: array<real>,
                       persistenceMap: array?<real>, ghost field: Field3D, ghost v: Octaves)
      returns (f': real, g': real)
      requires Valid() && Enough3D(np, sx, sy, sz) && oct < np.octaves && size == Volume(sx, sy, sz)
      requires field == Value3D(noise3, np.eased)
      requires v == Octaves3D(field, np, x, y, z, seed + np.seed, sx, sy)
      requires Apart(persistBuf, persistenceMap) && Weighs(f, g, persistBuf, persistenceMap, oct, size)
      requires Accumulated(result[..], np, v, MapOf(persistenceMap), oct, size)
      modifies noiseBuf, valueBuf, result, persistBuf
      ensures MapOf(persistenceMap) == old(MapOf(persistenceMap))
      ensures Accumulated(result[..], np, v, MapOf(persistenceMap), oct + 1, size)
      ensures Weighs(f', g', persistBuf, persistenceMap, oct + 1, size)
    {
      Octave3D(x, y, z, f, oct, field);
      f', g' := Accumulate(f, g, oct, size, persistBuf, persistenceMap, v);
    }

    method SumOctaves3D(x: real, y: real, z: real, size: nat, persistenceMap: array?<real>,
                        ghost field: Field3D, ghost v: Octaves)
      requires Valid() && Enough3D(np, sx, sy, sz) && size == Volume(sx, sy, sz)
      requires field == Value3D(noise3, np.eased)
      requires v == Octaves3D(field, np, x, y, z, seed + np.seed, sx, sy)
      requires persistenceMap != null ==>
                 persistenceMap.Length >= size && persistenceMap !in {noiseBuf, valueBuf, result}
      modifies noiseBuf, valueBuf, result
      ensures MapOf(persistenceMap) == old(MapOf(persistenceMap))
      ensures Accumulated(result[..], np, v, MapOf(persistenceMap), np.octaves, size)
    {
      ClearResult(size);
      var f, g := 1.0, 1.0;
      var persistBuf := new real[size](_ => 1.0);
      for oct := 0 to np.octaves
        invariant Weighs(f, g, persistBuf, persistenceMap, oct, size)
        invariant MapOf(persistenceMap) == old(MapOf(persistenceMap))
        invariant Accumulated(result[..], np, v, MapOf(persistenceMap), oct, size)
      {
        f, g := AddOctave3D(x, y, z, f, g, oct, size, persistBuf, persistenceMap, field, v);
      }
    }

    /** The same for three dimensions; the planes of the map follow each other. */
    method NoiseMap3D(x: real, y: real, z: real, persistenceMap: array?<real>)
      requires Valid() && Enough3D(np, sx, sy, sz)
      requires persistenceMap != null ==>
                 persistenceMap.Length >= Volume(sx, sy, sz) && persistenceMap !in {noiseBuf, valueBuf, result}
      modifies noiseBuf, valueBuf, result
      ensures IsMap3D(result[..], noise3, np, x, y, z, seed, sx, sy, old(MapOf(persistenceMap)), Volume(sx, sy, sz))
      ensures persistenceMap == null && ExactScale(np) ==>
                IsFractal3D(result[..], noise3, np, x, y, z, seed, sx, sy, Volume(sx, sy, sz))
    {
      ghost var field := Value3D(noise3, np.eased);
      var size := Volume(sx, sy, sz);
      SumOctaves3D(x, y, z, size, persistenceMap, field, Octaves3D(field, np, x, y, z, seed + np.seed, sx, sy));
      ghost var sums := result[..];
      FinishResult(size);
      FinishedMap3D(sums, result[..], noise3, np, x, y, z, seed, sx, sy, MapOf(persistenceMap), size);
      if persistenceMap == null && ExactScale(np) {
        MapIsFractal3D(result[..], noise3, np, x, y, z, seed, sx, sy, size);
      }
    }
  }
}
