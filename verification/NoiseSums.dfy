/** Sums of octaves over the cells of a grid. */
module NoiseSums {
  import opened NoiseField
  import opened NoiseLattice
  import opened NoiseMaps
  import opened Options

  // ---------------------------------------------------------------------------
  // Sums of octaves over a grid
  // ---------------------------------------------------------------------------

  /** The value of octave `n` at cell `k`. */
  type Octaves = (nat, nat) -> real

  function Sum(v: Octaves, persist: real, k: nat, n: nat): real {
    if n == 0 then 0.0 else Sum(v, persist, k, n - 1) + Scaled(Power(persist, n - 1), v(n - 1, k))
  }

  /** The column of cell `k` in lines of `n`. */
  function Column(k: nat, n: nat): nat
    requires n > 0
  {
    k % n
  }

  /** The line of cell `k`. */
  function Line(k: nat, n: nat): nat
    requires n > 0
  {
    k / n
  }

  /** Coordinate `k` of a map that starts at `x`, in spreads. */
  function Coordinate(x: real, spread: real, i: nat): real
    requires spread != 0.0
  {
    (x + i as real) / spread
  }

  /** The place that an octave reaches after `i` steps is the coordinate of cell `i` at the frequency of the octave. */
  lemma PlaceIsCoordinate(x: real, spread: real, f: real, i: nat)
    requires spread != 0.0
    ensures Place(Times(x / spread, f), f / spread, i) == Times(Coordinate(x, spread, i), f)
  {
    PlaceIs(Times(x / spread, f), f / spread, i);
    DivideSum(x, i, spread);
    DivideTimes(i as real, f, spread);
    Distribute(x / spread, i as real / spread, f);
  }

  lemma DivideSum(a: real, i: nat, s: real)
    requires s != 0.0
    ensures Coordinate(a, s, i) == a / s + i as real / s
  {
  }

  lemma DivideTimes(a: real, f: real, s: real)
    requires s != 0.0
    ensures a * (f / s) == Times(a / s, f)
  {
  }

  lemma Distribute(a: real, b: real, f: real)
    ensures Times(a + b, f) == Times(a, f) + Times(b, f)
  {
  }

  function Octaves2D(field: Field2D, np: NoiseParams, x: real, y: real, seed: int, sx: nat): Octaves
    requires Spreads(np) && sx > 0
  {
    (n: nat, k: nat) =>
      At2D(field, np, Coordinate(x, np.spread.X, Column(k, sx)), Coordinate(y, np.spread.Y, Line(k, sx)), seed + n,
           Power(np.lacunarity, n))
  }

  /** The octaves of a cell are those at its place. */
  ghost predicate OctavesAt2D(v: Octaves, k: nat, field: Field2D, np: NoiseParams, x: real, y: real, seed: int) {
    forall n: nat :: v(n, k) == At2D(field, np, x, y, seed + n, Power(np.lacunarity, n))
  }

  lemma {:induction false} SumAt2D(v: Octaves, field: Field2D, np: NoiseParams, x: real, y: real, seed: int,
                                   persist: real, k: nat, n: nat)
    requires OctavesAt2D(v, k, field, np, x, y, seed)
    ensures Sum(v, persist, k, n) == Sum2D(field, np, x, y, seed, persist, n)
  {
    if n > 0 {
      SumAt2D(v, field, np, x, y, seed, persist, k, n - 1);
    }
  }

  lemma SumIsSum2D(field: Field2D, np: NoiseParams, x: real, y: real, seed: int, sx: nat, persist: real, k: nat,
                   n: nat)
    requires Spreads(np) && sx > 0
    ensures Sum(Octaves2D(field, np, x, y, seed, sx), persist, k, n) ==
            Sum2D(field, np, Coordinate(x, np.spread.X, Column(k, sx)), Coordinate(y, np.spread.Y, Line(k, sx)), seed,
                  persist, n)
  {
    var cx, cy := Coordinate(x, np.spread.X, Column(k, sx)), Coordinate(y, np.spread.Y, Line(k, sx));
    SumAt2D(Octaves2D(field, np, x, y, seed, sx), field, np, cx, cy, seed, persist, k, n);
  }

  function Octaves3D(field: Field3D, np: NoiseParams, x: real, y: real, z: real, seed: int, sx: nat, sy: nat): Octaves
    requires Spreads(np) && sx > 0 && sy > 0
  {
    (n: nat, k: nat) =>
      At3D(field, np, Coordinate(x, np.spread.X, Column(k, sx)), Coordinate(y, np.spread.Y, Column(Line(k, sx), sy)),
           Coordinate(z, np.spread.Z, Line(Line(k, sx), sy)), seed + n, Power(np.lacunarity, n))
  }

  ghost predicate OctavesAt3D(v: Octaves, k: nat, field: Field3D, np: NoiseParams, x: real, y: real, z: real,
                              seed: int) {
    forall n: nat :: v(n, k) == At3D(field, np, x, y, z, seed + n, Power(np.lacunarity, n))
  }

  lemma {:induction false} SumAt3D(v: Octaves, field: Field3D, np: NoiseParams, x: real, y: real, z: real, seed: int,
                                   persist: real, k: nat, n: nat)
    requires OctavesAt3D(v, k, field, np, x, y, z, seed)
    ensures Sum(v, persist, k, n) == Sum3D(field, np, x, y, z, seed, persist, n)
  {
    if n > 0 {
      SumAt3D(v, field, np, x, y, z, seed, persist, k, n - 1);
    }
  }

  lemma SumIsSum3D(field: Field3D, np: NoiseParams, x: real, y: real, z: real, seed: int, sx: nat, sy: nat,
                   persist: real, k: nat,
                   n: nat)
    requires Spreads(np) && sx > 0 && sy > 0
    ensures Sum(Octaves3D(field, np, x, y, z, seed, sx, sy), persist, k, n) ==
            Sum3D(field, np, Coordinate(x, np.spread.X, Column(k, sx)),
                  Coordinate(y, np.spread.Y, Column(Line(k, sx), sy)),
                  Coordinate(z, np.spread.Z, Line(Line(k, sx), sy)), seed, persist, n)
  {
    var cx, cy := Coordinate(x, np.spread.X, Column(k, sx)), Coordinate(y, np.spread.Y, Column(Line(k, sx), sy));
    var cz := Coordinate(z, np.spread.Z, Line(Line(k, sx), sy));
    SumAt3D(Octaves3D(field, np, x, y, z, seed, sx, sy), field, np, cx, cy, cz, seed, persist, k, n);
  }

  /** The buffer holds octave `n` of the grid, before the absolute value is taken. */
  ghost predicate HoldsOctave(buf: seq<real>, np: NoiseParams, v: Octaves, n: nat, size: nat) {
    size <= |buf| && forall k :: 0 <= k < size ==> Amplitude(np, buf[k]) == v(n, k)
  }

  lemma CellIsOctave2D(field: Field2D, np: NoiseParams, x: real, y: real, seed: int, i: nat, j: nat, f: real)
    requires Spreads(np)
    ensures Amplitude(np, Grid2D(field, Times(x / np.spread.X, f), Times(y / np.spread.Y, f),
                                 f / np.spread.X, f / np.spread.Y, seed)(i, j)) ==
            At2D(field, np, Coordinate(x, np.spread.X, i), Coordinate(y, np.spread.Y, j), seed, f)
  {
    PlaceIsCoordinate(x, np.spread.X, f, i);
    PlaceIsCoordinate(y, np.spread.Y, f, j);
  }

  lemma GridIsOctave2D(buf: seq<real>, field: Field2D, np: NoiseParams, x: real, y: real, seed: int, sx: nat,
                       n: nat, f: real, size: nat)
    requires Spreads(np) && sx > 0 && f == Power(np.lacunarity, n)
    requires Filled(buf, Grid2D(field, Times(x / np.spread.X, f), Times(y / np.spread.Y, f),
                                f / np.spread.X, f / np.spread.Y, seed + n), sx, size)
    ensures HoldsOctave(buf, np, Octaves2D(field, np, x, y, seed, sx), n, size)
  {
    forall k | 0 <= k < size
      ensures Amplitude(np, buf[k]) == Octaves2D(field, np, x, y, seed, sx)(n, k)
    {
      CellIsOctave2D(field, np, x, y, seed + n, Column(k, sx), Line(k, sx), f);
    }
  }

  lemma CellIsOctave3D(field: Field3D, np: NoiseParams, x: real, y: real, z: real, seed: int, sy: nat,
                       i: nat, l: nat, f: real)
    requires Spreads(np) && sy > 0
    ensures Amplitude(np, Grid3D(field, Times(x / np.spread.X, f), Times(y / np.spread.Y, f), Times(z / np.spread.Z, f),
                                 f / np.spread.X, f / np.spread.Y, f / np.spread.Z, seed, sy)(i, l)) ==
            At3D(field, np, Coordinate(x, np.spread.X, i), Coordinate(y, np.spread.Y, Column(l, sy)),
                 Coordinate(z, np.spread.Z, Line(l, sy)), seed, f)
  {
    PlaceIsCoordinate(x, np.spread.X, f, i);
    PlaceIsCoordinate(y, np.spread.Y, f, Column(l, sy));
    PlaceIsCoordinate(z, np.spread.Z, f, Line(l, sy));
  }

  lemma GridIsOctave3D(buf: seq<real>, field: Field3D, np: NoiseParams, x: real, y: real, z: real, seed: int,
                       sx: nat, sy: nat, n: nat, f: real, size: nat)
    requires Spreads(np) && sx > 0 && sy > 0 && f == Power(np.lacunarity, n)
    requires Filled(buf, Grid3D(field, Times(x / np.spread.X, f), Times(y / np.spread.Y, f), Times(z / np.spread.Z, f),
                                f / np.spread.X, f / np.spread.Y, f / np.spread.Z, seed + n, sy), sx, size)
    ensures HoldsOctave(buf, np, Octaves3D(field, np, x, y, z, seed, sx, sy), n, size)
  {
    forall k | 0 <= k < size
      ensures Amplitude(np, buf[k]) == Octaves3D(field, np, x, y, z, seed, sx, sy)(n, k)
    {
      CellIsOctave3D(field, np, x, y, z, seed + n, sy, Column(k, sx), Line(k, sx), f);
    }
  }

  // ---------------------------------------------------------------------------
  // Accumulating octaves
  // ---------------------------------------------------------------------------

  /** The persistence of a cell: its own if there is a map of them, else that of the parameters. */
  function PersistAt(map_: Option<seq<real>>, np: NoiseParams, k: nat): real {
    if map_.Some? && k < |map_.value| then map_.value[k] else np.persist
  }

  /** Each cell holds the sum of its first `n` octaves. */
  ghost predicate Accumulated(result: seq<real>, np: NoiseParams, v: Octaves, map_: Option<seq<real>>,
                              n: nat, size: nat)
  {
    size <= |result| && forall k :: 0 <= k < size ==> result[k] == Sum(v, PersistAt(map_, np, k), k, n)
  }

  lemma SumNext(v: Octaves, persist: real, k: nat, n: nat, weight: real, value: real)
    requires weight == Power(persist, n) && value == v(n, k)
    ensures Sum(v, persist, k, n) + weight * value == Sum(v, persist, k, n + 1)
  {
    assert Scaled(weight, value) == weight * value;
  }

  /** Adds one octave to every cell, with one weight for all or a weight for each. */
  method UpdateResults(np: NoiseParams, result: array<real>, valueBuf: array<real>, g: real, size: nat,
                       ghost v: Octaves, ghost n: nat)
    requires result != valueBuf && HoldsOctave(valueBuf[..], np, v, n, size)
    requires Accumulated(result[..], np, v, None, n, size) && g == Power(np.persist, n)
    modifies result
    ensures Accumulated(result[..], np, v, None, n + 1, size)
  {
    ghost var before := result[..];
    for k := 0 to size
      invariant forall i :: 0 <= i < size ==> result[i] == if i < k then Sum(v, np.persist, i, n + 1) else before[i]
    {
      SumNext(v, np.persist, k, n, g, Amplitude(np, valueBuf[k]));
      result[k] := result[k] + g * Amplitude(np, valueBuf[k]);
    }
  }

  method UpdateResultsByMap(np: NoiseParams, result: array<real>, valueBuf: array<real>, gmap: array<real>,
                            persistenceMap: array<real>, size: nat, ghost v: Octaves, ghost n: nat)
    requires result != valueBuf && gmap != result && gmap != valueBuf && persistenceMap != gmap &&
             persistenceMap != result
    requires HoldsOctave(valueBuf[..], np, v, n, size)
    requires Accumulated(result[..], np, v, Some(persistenceMap[..]), n, size)
    requires size <= persistenceMap.Length && HoldsPowers(gmap[..], persistenceMap[..], n, size)
    modifies result, gmap
    ensures Accumulated(result[..], np, v, Some(persistenceMap[..]), n + 1, size)
    ensures HoldsPowers(gmap[..], persistenceMap[..], n + 1, size)
  {
    ghost var before, weights, p := result[..], gmap[..], persistenceMap[..];
    for k := 0 to size
      invariant forall i :: 0 <= i < size ==> result[i] == if i < k then Sum(v, p[i], i, n + 1) else before[i]
      invariant forall i :: 0 <= i < size ==> gmap[i] == if i < k then Power(p[i], n + 1) else weights[i]
    {
      var next, weight := AddOctave(result[k], gmap[k], Amplitude(np, valueBuf[k]), persistenceMap[k], v, k, n);
      result[k] := next;
      gmap[k] := weight;
    }
  }

  method AddOctave(sum: real, weight: real, value: real, persist: real, ghost v: Octaves, ghost k: nat, ghost n: nat)
    returns (next: real, weight': real)
    requires weight == Power(persist, n) && value == v(n, k) && sum == Sum(v, persist, k, n)
    ensures next == Sum(v, persist, k, n + 1) && weight' == Power(persist, n + 1)
  {
    SumNext(v, persist, k, n, weight, value);
    next := sum + weight * value;
    weight' := weight * persist;
  }

  ghost predicate HoldsPowers(gmap: seq<real>, p: seq<real>, n: nat, size: nat) {
    size <= |gmap| && size <= |p| && forall k :: 0 <= k < size ==> gmap[k] == Power(p[k], n)
  }
}
