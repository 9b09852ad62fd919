/** How many lattice points a noise map needs, and how many are kept for it. */
module NoiseBuffers {
  import opened NoiseField
  import opened NoiseLattice

  /** The highest frequency of any octave, as it is estimated when buffers are made. */
  function OctaveFactor(np: NoiseParams): real {
    if np.lacunarity > 1.0 then
      if np.octaves == 0 then 1.0 / np.lacunarity else Power(np.lacunarity, np.octaves - 1)
    else np.lacunarity
  }

  function PointsCrossed(size: nat, factor: real, spread: real): real
    requires spread != 0.0
  {
    size as real * factor / spread
  }

  /** The points allocated along an axis. */
  function AllocatedPoints(size: nat, factor: real, spread: real): int
    requires spread != 0.0
  {
    Ceil(PointsCrossed(size, factor, spread)) + 3
  }

  /** The spread is not below the estimate, and the number of points is not absurd; both signs may be negative. */
  predicate AxisOk(np: NoiseParams, size: nat, spread: real) {
    && spread != 0.0 && OctaveFactor(np) != 0.0
    && PointsCrossed(size, OctaveFactor(np), spread) <= 1000000000.0 && spread / OctaveFactor(np) >= 1.0
  }

  predicate ParamsOk(np: NoiseParams, sx: nat, sy: nat, sz: nat) {
    AxisOk(np, sx, np.spread.X) && AxisOk(np, sy, np.spread.Y) && AxisOk(np, sz, np.spread.Z)
  }

  /** The number of lattice points kept along an axis. */
  function BufPoints(np: NoiseParams, size: nat, spread: real): nat
    requires AxisOk(np, size, spread)
  {
    BufPointsPositive(np, size, spread);
    AllocatedPoints(size, OctaveFactor(np), spread)
  }

  lemma BufPointsPositive(np: NoiseParams, size: nat, spread: real)
    requires AxisOk(np, size, spread)
    ensures AllocatedPoints(size, OctaveFactor(np), spread) >= 3
  {
    QuotientSigns(spread, OctaveFactor(np));
    CrossedSign(size, OctaveFactor(np), spread);
  }

  /** A quotient of at least one has numbers of one sign. */
  lemma QuotientSigns(a: real, b: real)
    requires b != 0.0 && a / b >= 1.0
    ensures (a > 0.0 && b > 0.0) || (a < 0.0 && b < 0.0)
  {
    assert a / b * b == a;
  }

  lemma CrossedSign(size: nat, factor: real, spread: real)
    requires (factor > 0.0 && spread > 0.0) || (factor < 0.0 && spread < 0.0)
    ensures PointsCrossed(size, factor, spread) >= 0.0
  {
    var crossed := size as real * factor;
    if factor > 0.0 {
      assert crossed >= 0.0;
    } else {
      assert crossed <= 0.0;
    }
    assert crossed / spread * spread == crossed;
  }

  /** A flat noise needs no points along the third axis. */
  function BufSize(np: NoiseParams, sx: nat, sy: nat, sz: nat): nat
    requires ParamsOk(np, sx, sy, sz)
  {
    Volume(BufPoints(np, sx, np.spread.X), BufPoints(np, sy, np.spread.Y), if sz > 1
           then BufPoints(np, sz, np.spread.Z) else 1)
  }

  // ---------------------------------------------------------------------------
  // Powers and quotients
  // ---------------------------------------------------------------------------

  lemma {:induction false} PowerGrows(b: real, m: nat, n: nat)
    requires b >= 1.0 && m <= n
    ensures 1.0 <= Power(b, m) <= Power(b, n)
  {
    if m < n {
      PowerGrows(b, m, n - 1);
      assert Power(b, n - 1) * b >= Power(b, n - 1);
    } else if n > 0 {
      PowerGrows(b, 0, n - 1);
      assert Power(b, n - 1) * b >= Power(b, n - 1);
    }
  }

  lemma {:induction false} PowerShrinks(b: real, n: nat)
    requires 0.0 < b <= 1.0
    ensures 0.0 < Power(b, n) <= 1.0
  {
    if n > 0 {
      PowerShrinks(b, n - 1);
      assert 0.0 < Power(b, n - 1) * b <= Power(b, n - 1);
    }
  }

  /** The estimate is the frequency of the finest octave when octaves get finer. */
  lemma {:induction false} FinestOctave(np: NoiseParams, oct: nat)
    requires np.lacunarity > 1.0 && oct < np.octaves
    ensures Power(np.lacunarity, oct) <= OctaveFactor(np) == Power(np.lacunarity, np.octaves - 1)
  {
    PowerGrows(np.lacunarity, oct, np.octaves - 1);
  }

  /** What the map crosses, counted in spacings. */
  lemma CrossedTimes(size: nat, f: real, spread: real, spacing: real, crossed: real)
    requires spread != 0.0 && f != 0.0 && spacing == spread / f && spacing >= 1.0
    requires crossed == PointsCrossed(size, f, spread)
    ensures crossed * spacing == size as real
  {
    assert spacing * f == spread;
    Cancels(size as real, spacing, f);
  }

  lemma SpacingTimes(crossed: real, spacing: real, product: real, points: real)
    requires spacing >= 1.0 && product == crossed * spacing
    ensures crossed <= points <==> product <= points * spacing
  {
    var limit, d := points * spacing, points - crossed;
    var gap := d * spacing;
    assert gap == limit - product;
    if d >= 0.0 {
      TimesKeeps(d, spacing);
    } else {
      TimesKeeps(-d, spacing);
      assert (-d) * spacing == -gap;
    }
  }

  lemma Cancels(a: real, spacing: real, f: real)
    requires spacing != 0.0 && f != 0.0
    ensures spacing * f != 0.0 && a * f / (spacing * f) * spacing == a
  {
    var q := a * f / (spacing * f);
    assert q * (spacing * f) == a * f;
    assert q * (spacing * f) == (q * spacing) * f;
    assert (q * spacing - a) * f == 0.0;
  }

  lemma TimesKeeps(d: real, spacing: real)
    requires d >= 0.0 && spacing >= 1.0
    ensures d * spacing >= 0.0 && (d > 0.0 ==> d * spacing > 0.0)
  {
  }

  lemma NonzeroQuotient(spread: real, f: real)
    requires f != 0.0 && spread / f >= 1.0
    ensures spread != 0.0
  {
  }

  lemma AxisCovers(np: NoiseParams, size: nat, spread: real, f: real, spacing: real)
    requires f == OctaveFactor(np) && f != 0.0 && spacing == spread / f
    ensures AxisOk(np, size, spread) <==> spacing >= 1.0 && size as real <= 1000000000.0 * spacing
  {
    if spacing >= 1.0 {
      NonzeroQuotient(spread, f);
      var crossed := PointsCrossed(size, f, spread);
      CrossedTimes(size, f, spread, spacing, crossed);
      SpacingTimes(crossed, spacing, size as real, 1000000000.0);
    }
  }

  lemma PointsCover(size: nat, spread: real, f: real, spacing: real, points: int)
    requires spread != 0.0 && f != 0.0 && spacing == spread / f && spacing >= 1.0
    requires points == AllocatedPoints(size, f, spread)
    ensures (points - 4) as real * spacing < size as real <= (points - 3) as real * spacing
  {
    var crossed := PointsCrossed(size, f, spread);
    CrossedTimes(size, f, spread, spacing, crossed);
    CeilCovers(crossed, spacing, size as real, points - 3);
  }

  lemma CeilCovers(crossed: real, spacing: real, product: real, n: int)
    requires spacing >= 1.0 && product == crossed * spacing && n == Ceil(crossed)
    ensures (n - 1) as real * spacing < product <= n as real * spacing
  {
    BelowCeil(crossed);
    SpacingTimes(crossed, spacing, product, n as real);
    SpacingTimes(crossed, spacing, product, (n - 1) as real);
  }

  /**
    In terms of the finest spacing of the lattice, the spread divided by the
    frequency: an axis is accepted exactly if the spacing is at least one node
    and the map is not longer than a thousand million of them. Then the points
    kept are three more than it takes to cover the map.
   */
  lemma BufferCovers(np: NoiseParams, size: nat, spread: real, f: real)
    requires f == if np.lacunarity <= 1.0 then np.lacunarity
                  else if np.octaves == 0 then 1.0 / np.lacunarity
                  else Power(np.lacunarity, np.octaves - 1)
    ensures AxisOk(np, size, spread) <==>
            f != 0.0 && spread / f >= 1.0 && size as real <= 1000000000.0 * (spread / f)
    ensures AxisOk(np, size, spread) ==>
              var points := BufPoints(np, size, spread);
              (points - 4) as real * (spread / f) < size as real <= (points - 3) as real * (spread / f)
  {
    if f != 0.0 {
      AxisCovers(np, size, spread, f, spread / f);
      if AxisOk(np, size, spread) {
        PointsCover(size, spread, f, spread / f, BufPoints(np, size, spread));
      }
    }
  }

  lemma DivideLe(a: real, b: real, s: real)
    requires a <= b && s > 0.0
    ensures a / s <= b / s
  {
  }

  lemma QuotientAtLeastOne(a: real, b: real)
    requires b > 0.0 && a / b >= 1.0
    ensures a >= b
  {
    assert a / b * b == a;
  }

  lemma DividePositive(a: real, s: real)
    requires a > 0.0 && s > 0.0
    ensures a / s > 0.0 && s / s == 1.0
  {
  }

  lemma TimesDivide(a: real, b: real, s: real)
    requires s > 0.0
    ensures a * (b / s) == a * b / s
  {
  }

  lemma StepAtMostOne(f: real, spread: real)
    requires 0.0 < f && spread != 0.0
    ensures 0.0 < f / spread <==> 0.0 < spread
    ensures 0.0 < f / spread <= 1.0 <==> f <= spread
  {
    assert f / spread * spread == f;
    if f <= spread {
      DivideLe(f, spread, spread);
      DividePositive(spread, spread);
    }
  }

  // ---------------------------------------------------------------------------
  // The points needed along an axis
  // ---------------------------------------------------------------------------

  /** The most points that any start needs. */
  function MostPoints(size: nat, step: real): int {
    Ceil(Length(size, step)) + 2
  }

  /** A start that needs them. */
  function WorstStart(size: nat, step: real): real {
    Ceil(Length(size, step)) as real - Length(size, step)
  }

  lemma MostPointsIs(size: nat, step: real, u: real)
    requires 0.0 < step && 0.0 <= u < 1.0
    ensures 2 <= PointCount(u, size, step) <= MostPoints(size, step)
    ensures 0.0 <= WorstStart(size, step) < 1.0
    ensures PointCount(WorstStart(size, step), size, step) == MostPoints(size, step)
  {
    var l := Length(size, step);
    assert l >= 0.0;
    BelowCeil(l);
    FloorBelow(u + l, Ceil(l));
    FloorOfInt(Ceil(l));
  }

  lemma FloorOfInt(n: int)
    ensures (n as real).Floor == n
  {
  }

  lemma MostPointsGrows(size: nat, step: real, factor: real)
    requires 0.0 < step <= factor
    ensures MostPoints(size, step) <= MostPoints(size, factor)
  {
    LongerSteps(size, step, factor);
    BelowCeil(Length(size, step));
    BelowCeil(Length(size, factor));
  }

  /** Along an axis, the points kept suffice for every start exactly if they suffice for the worst one. */
  lemma EveryStartFits(size: nat, step: real, points: int)
    requires 0.0 < step
    ensures (forall u :: 0.0 <= u < 1.0 ==> PointCount(u, size, step) <= points) <==>
            Ceil(Length(size, step)) + 2 <= points
  {
    MostPointsIs(size, step, 0.0);
    forall u | 0.0 <= u < 1.0
      ensures PointCount(u, size, step) <= MostPoints(size, step)
    {
      MostPointsIs(size, step, u);
    }
  }

  // ---------------------------------------------------------------------------
  // Octaves that fit
  // ---------------------------------------------------------------------------

  /** From this start an octave of frequency `f` takes steps of at most one cell and stays within the buffer. */
  ghost predicate StartFits2D(np: NoiseParams, sx: nat, sy: nat, sz: nat, f: real, u: real, v: real)
    requires ParamsOk(np, sx, sy, sz)
  {
    && 0.0 < f / np.spread.X <= 1.0 && 0.0 < f / np.spread.Y <= 1.0
    && PointCount(u, sx, f / np.spread.X) * PointCount(v, sy, f / np.spread.Y) <= BufSize(np, sx, sy, sz)
  }

  ghost predicate StartFits3D(np: NoiseParams, sx: nat, sy: nat, sz: nat, f: real, u: real, v: real, w: real)
    requires ParamsOk(np, sx, sy, sz)
  {
    && 0.0 < f / np.spread.X <= 1.0 && 0.0 < f / np.spread.Y <= 1.0 && 0.0 < f / np.spread.Z <= 1.0
    && PointCount(u, sx, f / np.spread.X) * (PointCount(v, sy, f / np.spread.Y) * PointCount(w, sz, f / np.spread.Z)) <=
       BufSize(np, sx, sy, sz)
  }

  /** Every octave fits from every start: what a flat map needs. */
  ghost predicate Enough2D(np: NoiseParams, sx: nat, sy: nat, sz: nat)
    requires ParamsOk(np, sx, sy, sz)
  {
    forall oct: nat, u, v :: oct < np.octaves && 0.0 <= u < 1.0 && 0.0 <= v < 1.0 ==>
      StartFits2D(np, sx, sy, sz, Power(np.lacunarity, oct), u, v)
  }

  ghost predicate Enough3D(np: NoiseParams, sx: nat, sy: nat, sz: nat)
    requires ParamsOk(np, sx, sy, sz)
  {
    forall oct: nat, u, v, w :: oct < np.octaves && 0.0 <= u < 1.0 && 0.0 <= v < 1.0 && 0.0 <= w < 1.0 ==>
      StartFits3D(np, sx, sy, sz, Power(np.lacunarity, oct), u, v, w)
  }

  lemma PositiveFits2D(np: NoiseParams, sx: nat, sy: nat, sz: nat, f: real)
    requires ParamsOk(np, sx, sy, sz) && 0.0 < f && 0.0 < np.spread.X && 0.0 < np.spread.Y
    ensures (forall u, v :: 0.0 <= u < 1.0 && 0.0 <= v < 1.0 ==> StartFits2D(np, sx, sy, sz, f, u, v)) <==>
            && f <= np.spread.X && f <= np.spread.Y
            && MostPoints(sx, f / np.spread.X) * MostPoints(sy, f / np.spread.Y) <= BufSize(np, sx, sy, sz)
  {
    StepAtMostOne(f, np.spread.X);
    StepAtMostOne(f, np.spread.Y);
    var stepX, stepY := f / np.spread.X, f / np.spread.Y;
    MostPointsIs(sx, stepX, 0.0);
    MostPointsIs(sy, stepY, 0.0);
    if forall u, v :: 0.0 <= u < 1.0 && 0.0 <= v < 1.0 ==> StartFits2D(np, sx, sy, sz, f, u, v) {
      assert StartFits2D(np, sx, sy, sz, f, WorstStart(sx, stepX), WorstStart(sy, stepY));
    }
    forall u, v | 0.0 <= u < 1.0 && 0.0 <= v < 1.0
      ensures PointCount(u, sx, stepX) * PointCount(v, sy, stepY) <= MostPoints(sx, stepX) * MostPoints(sy, stepY)
    {
      MostPointsIs(sx, stepX, u);
      MostPointsIs(sy, stepY, v);
      AreaGrows(PointCount(u, sx, stepX), PointCount(v, sy, stepY), MostPoints(sx, stepX), MostPoints(sy, stepY));
    }
  }

  /** An octave fits from every start exactly if it fits from the worst. */
  lemma OctaveFits2D(np: NoiseParams, sx: nat, sy: nat, sz: nat, f: real)
    requires ParamsOk(np, sx, sy, sz) && 0.0 < f
    ensures (forall u, v :: 0.0 <= u < 1.0 && 0.0 <= v < 1.0 ==> StartFits2D(np, sx, sy, sz, f, u, v)) <==>
            && f <= np.spread.X && f <= np.spread.Y
            && MostPoints(sx, f / np.spread.X) * MostPoints(sy, f / np.spread.Y) <= BufSize(np, sx, sy, sz)
  {
    StepAtMostOne(f, np.spread.X);
    StepAtMostOne(f, np.spread.Y);
    if 0.0 < np.spread.X && 0.0 < np.spread.Y {
      PositiveFits2D(np, sx, sy, sz, f);
    } else {
      assert !StartFits2D(np, sx, sy, sz, f, 0.0, 0.0);
    }
  }

  lemma VolumeGrows(a: nat, b: nat, c: nat, a': nat, b': nat, c': nat)
    requires a <= a' && b <= b' && c <= c'
    ensures a * (b * c) <= a' * (b' * c')
  {
    AreaGrows(b, c, b', c');
    AreaGrows(a, b * c, a', b' * c');
  }

  lemma PositiveFits3D(np: NoiseParams, sx: nat, sy: nat, sz: nat, f: real)
    requires ParamsOk(np, sx, sy, sz) && 0.0 < f && 0.0 < np.spread.X && 0.0 < np.spread.Y && 0.0 < np.spread.Z
    ensures (forall u, v, w :: 0.0 <= u < 1.0 && 0.0 <= v < 1.0 && 0.0 <= w < 1.0 ==>
             StartFits3D(np, sx, sy, sz, f, u, v, w)) <==>
            && f <= np.spread.X && f <= np.spread.Y && f <= np.spread.Z
            && MostPoints(sx, f / np.spread.X) * (MostPoints(sy, f / np.spread.Y) * MostPoints(sz, f / np.spread.Z)) <=
               BufSize(np, sx, sy, sz)
  {
    StepAtMostOne(f, np.spread.X);
    StepAtMostOne(f, np.spread.Y);
    StepAtMostOne(f, np.spread.Z);
    var stepX, stepY, stepZ := f / np.spread.X, f / np.spread.Y, f / np.spread.Z;
    MostPointsIs(sx, stepX, 0.0);
    MostPointsIs(sy, stepY, 0.0);
    MostPointsIs(sz, stepZ, 0.0);
    if forall u, v, w :: 0.0 <= u < 1.0 && 0.0 <= v < 1.0 && 0.0 <= w < 1.0 ==>
        StartFits3D(np, sx, sy, sz, f, u, v, w) {
      assert StartFits3D(np, sx, sy, sz, f, WorstStart(sx, stepX), WorstStart(sy, stepY), WorstStart(sz, stepZ));
    }
    forall u, v, w | 0.0 <= u < 1.0 && 0.0 <= v < 1.0 && 0.0 <= w < 1.0
      ensures PointCount(u, sx, stepX) * (PointCount(v, sy, stepY) * PointCount(w, sz, stepZ)) <=
              MostPoints(sx, stepX) * (MostPoints(sy, stepY) * MostPoints(sz, stepZ))
    {
      MostPointsIs(sx, stepX, u);
      MostPointsIs(sy, stepY, v);
      MostPointsIs(sz, stepZ, w);
      VolumeGrows(PointCount(u, sx, stepX), PointCount(v, sy, stepY), PointCount(w, sz, stepZ),
                  MostPoints(sx, stepX), MostPoints(sy, stepY), MostPoints(sz, stepZ));
    }
  }

  lemma OctaveFits3D(np: NoiseParams, sx: nat, sy: nat, sz: nat, f: real)
    requires ParamsOk(np, sx, sy, sz) && 0.0 < f
    ensures (forall u, v, w :: 0.0 <= u < 1.0 && 0.0 <= v < 1.0 && 0.0 <= w < 1.0 ==>
             StartFits3D(np, sx, sy, sz, f, u, v, w)) <==>
            && f <= np.spread.X && f <= np.spread.Y && f <= np.spread.Z
            && MostPoints(sx, f / np.spread.X) * (MostPoints(sy, f / np.spread.Y) * MostPoints(sz, f / np.spread.Z)) <=
               BufSize(np, sx, sy, sz)
  {
    StepAtMostOne(f, np.spread.X);
    StepAtMostOne(f, np.spread.Y);
    StepAtMostOne(f, np.spread.Z);
    if 0.0 < np.spread.X && 0.0 < np.spread.Y && 0.0 < np.spread.Z {
      PositiveFits3D(np, sx, sy, sz, f);
    } else {
      assert !StartFits3D(np, sx, sy, sz, f, 0.0, 0.0, 0.0);
    }
  }

  // ---------------------------------------------------------------------------
  // Which parameters fit
  // ---------------------------------------------------------------------------

  /** With a lacunarity of at least 1, no octave has a higher frequency than estimated. */
  lemma FrequencyBound(np: NoiseParams, oct: nat)
    requires np.lacunarity >= 1.0 && oct < np.octaves
    ensures 1.0 <= Power(np.lacunarity, oct) <= OctaveFactor(np)
  {
    PowerGrows(np.lacunarity, oct, np.octaves - 1);
    if np.lacunarity == 1.0 {
      PowerShrinks(1.0, oct);
    }
  }

  lemma CrossedIsLength(size: nat, factor: real, spread: real)
    requires spread > 0.0
    ensures PointsCrossed(size, factor, spread) == Length(size, factor / spread)
  {
    TimesDivide(size as real, factor, spread);
  }

  /** Then the points kept along an axis suffice, with one to spare. */
  lemma AxisFits(np: NoiseParams, size: nat, spread: real, f: real)
    requires AxisOk(np, size, spread) && 0.0 < f <= OctaveFactor(np)
    ensures f <= spread && 0 <= MostPoints(size, f / spread) < BufPoints(np, size, spread)
  {
    var factor := OctaveFactor(np);
    QuotientAtLeastOne(spread, factor);
    DividePositive(f, spread);
    DivideLe(f, factor, spread);
    MostPointsIs(size, f / spread, 0.0);
    MostPointsGrows(size, f / spread, factor / spread);
    CrossedIsLength(size, factor, spread);
  }

  lemma EnoughFromOne(np: NoiseParams, sx: nat, sy: nat, sz: nat)
    requires ParamsOk(np, sx, sy, sz) && np.lacunarity >= 1.0
    ensures Enough2D(np, sx, sy, sz) && (sz > 1 ==> Enough3D(np, sx, sy, sz))
  {
    forall oct: nat | oct < np.octaves
      ensures forall u, v :: 0.0 <= u < 1.0 && 0.0 <= v < 1.0 ==>
              StartFits2D(np, sx, sy, sz, Power(np.lacunarity, oct), u, v)
      ensures sz > 1 ==>
                forall u, v, w :: 0.0 <= u < 1.0 && 0.0 <= v < 1.0 && 0.0 <= w < 1.0 ==>
                  StartFits3D(np, sx, sy, sz, Power(np.lacunarity, oct), u, v, w)
    {
      FrequencyBound(np, oct);
      WithinEstimateFits(np, sx, sy, sz, Power(np.lacunarity, oct));
    }
  }

  /** The octave of the highest frequency leaves just one of the points kept along an axis. */
  lemma AxisTight(np: NoiseParams, size: nat, spread: real)
    requires AxisOk(np, size, spread) && OctaveFactor(np) > 0.0 && size > 0
    ensures MostPoints(size, OctaveFactor(np) / spread) == BufPoints(np, size, spread) - 1 >= 3
  {
    var factor := OctaveFactor(np);
    QuotientSigns(spread, factor);
    DividePositive(factor, spread);
    CrossedIsLength(size, factor, spread);
    LengthPositive(size, factor / spread);
    BelowCeil(Length(size, factor / spread));
  }

  lemma LengthPositive(size: nat, step: real)
    requires size > 0 && step > 0.0
    ensures Length(size, step) > 0.0
  {
  }

  lemma HighestFrequency(np: NoiseParams)
    requires np.lacunarity >= 1.0 && np.octaves > 0
    ensures Power(np.lacunarity, np.octaves - 1) == OctaveFactor(np) > 0.0
  {
    FrequencyBound(np, np.octaves - 1);
    if np.lacunarity == 1.0 {
      PowerShrinks(1.0, np.octaves - 1);
    }
  }

  /** Two layers of nearly all points are more than one layer of all. */
  lemma TwoLayers(a: nat, b: nat, layers: nat)
    requires a >= 4 && b >= 4 && layers >= 2
    ensures (a - 1) * ((b - 1) * layers) > a * (b * 1)
  {
    VolumeGrows(a - 1, b - 1, 2, a - 1, b - 1, layers);
    assert (a - 1) * ((b - 1) * 2) == 2 * a * b - 2 * a - 2 * b + 2;
    AreaGrows(2, 2, a - 2, b - 2);
    assert (a - 2) * (b - 2) == a * b - 2 * a - 2 * b + 4;
  }

  /**
    With a lacunarity of at least 1, the buffer is large enough for a map in
    three dimensions exactly if the third one has more than one point: a flat
    buffer keeps one layer of points, and any map needs more.
   */
  lemma EnoughFromOne3D(np: NoiseParams, sx: nat, sy: nat, sz: nat)
    requires ParamsOk(np, sx, sy, sz) && np.lacunarity >= 1.0 && np.octaves > 0 && sx > 0 && sy > 0 && sz > 0
    ensures Enough3D(np, sx, sy, sz) <==> sz > 1
  {
    EnoughFromOne(np, sx, sy, sz);
    if sz == 1 {
      HighestFrequency(np);
      var f := OctaveFactor(np);
      AxisTight(np, sx, np.spread.X);
      AxisTight(np, sy, np.spread.Y);
      AxisTight(np, sz, np.spread.Z);
      TwoLayers(BufPoints(np, sx, np.spread.X), BufPoints(np, sy, np.spread.Y), MostPoints(sz, f / np.spread.Z));
      OctaveFits3D(np, sx, sy, sz, f);
      var u, v, w :| 0.0 <= u < 1.0 && 0.0 <= v < 1.0 && 0.0 <= w < 1.0 && !StartFits3D(np, sx, sy, sz, f, u, v, w);
      assert !StartFits3D(np, sx, sy, sz, Power(np.lacunarity, np.octaves - 1), u, v, w);
    }
  }

  /** Negative spreads are accepted with a negative lacunarity, but the first octave then walks backwards. */
  lemma NeverBelowZero(np: NoiseParams, sx: nat, sy: nat, sz: nat)
    requires ParamsOk(np, sx, sy, sz) && np.lacunarity < 0.0 && np.octaves > 0
    ensures !Enough2D(np, sx, sy, sz) && !Enough3D(np, sx, sy, sz)
  {
    QuotientSigns(np.spread.X, np.lacunarity);
    StepAtMostOne(1.0, np.spread.X);
    assert Power(np.lacunarity, 0) == 1.0;
    assert !StartFits2D(np, sx, sy, sz, Power(np.lacunarity, 0), 0.0, 0.0);
    assert !StartFits3D(np, sx, sy, sz, Power(np.lacunarity, 0), 0.0, 0.0, 0.0);
  }

  lemma WithinEstimateFits(np: NoiseParams, sx: nat, sy: nat, sz: nat, f: real)
    requires ParamsOk(np, sx, sy, sz) && 0.0 < f <= OctaveFactor(np)
    ensures forall u, v :: 0.0 <= u < 1.0 && 0.0 <= v < 1.0 ==> StartFits2D(np, sx, sy, sz, f, u, v)
    ensures sz > 1 ==>
              forall u, v, w :: 0.0 <= u < 1.0 && 0.0 <= v < 1.0 && 0.0 <= w < 1.0 ==>
                  StartFits3D(np, sx, sy, sz, f, u, v, w)
  {
    AxisFits(np, sx, np.spread.X, f);
    AxisFits(np, sy, np.spread.Y, f);
    AxisFits(np, sz, np.spread.Z, f);
    var nx, ny, nz := MostPoints(sx, f / np.spread.X), MostPoints(sy, f / np.spread.Y), MostPoints(sz, f / np.spread.Z);
    var keptX, keptY := BufPoints(np, sx, np.spread.X), BufPoints(np, sy, np.spread.Y);
    OctaveFits2D(np, sx, sy, sz, f);
    if sz > 1 {
      OctaveFits3D(np, sx, sy, sz, f);
      VolumeGrows(nx, ny, nz, keptX, keptY, BufPoints(np, sz, np.spread.Z));
      VolumeGrows(nx, ny, 1, keptX, keptY, BufPoints(np, sz, np.spread.Z));
    } else {
      VolumeGrows(nx, ny, 1, keptX, keptY, 1);
    }
  }

  /** The points that the first octave needs along an axis, whose frequency is 1. */
  function FirstOctavePoints(size: nat, spread: real): int
    requires spread > 0.0
  {
    Ceil(Length(size, 1.0 / spread)) + 2
  }

  /**
    With a lacunarity below 1 the first octave has the highest frequency, which
    the estimate misses. A flat map then fits exactly if the spreads are at
    least 1 and the first octave fits.
   */
  lemma EnoughBelowOne2D(np: NoiseParams, sx: nat, sy: nat, sz: nat)
    requires ParamsOk(np, sx, sy, sz) && 0.0 < np.lacunarity < 1.0 && np.octaves > 0
    ensures Enough2D(np, sx, sy, sz) <==>
            && np.spread.X >= 1.0 && np.spread.Y >= 1.0
            && FirstOctavePoints(sx, np.spread.X) * FirstOctavePoints(sy, np.spread.Y) <= BufSize(np, sx, sy, sz)
  {
    OctaveFits2D(np, sx, sy, sz, 1.0);
    assert Power(np.lacunarity, 0) == 1.0;
    if Enough2D(np, sx, sy, sz) {
      forall u, v | 0.0 <= u < 1.0 && 0.0 <= v < 1.0
        ensures StartFits2D(np, sx, sy, sz, 1.0, u, v)
      {
        assert StartFits2D(np, sx, sy, sz, Power(np.lacunarity, 0), u, v);
      }
    }
    if forall u, v :: 0.0 <= u < 1.0 && 0.0 <= v < 1.0 ==> StartFits2D(np, sx, sy, sz, 1.0, u, v) {
      forall oct: nat, u, v | oct < np.octaves && 0.0 <= u < 1.0 && 0.0 <= v < 1.0
        ensures StartFits2D(np, sx, sy, sz, Power(np.lacunarity, oct), u, v)
      {
        PowerShrinks(np.lacunarity, oct);
        LowerFrequencyFits2D(np, sx, sy, sz, Power(np.lacunarity, oct));
      }
    }
  }

  lemma LowerFrequencyFits2D(np: NoiseParams, sx: nat, sy: nat, sz: nat, f: real)
    requires ParamsOk(np, sx, sy, sz) && 0.0 < f <= 1.0 <= np.spread.X && 1.0 <= np.spread.Y
    requires MostPoints(sx, 1.0 / np.spread.X) * MostPoints(sy, 1.0 / np.spread.Y) <= BufSize(np, sx, sy, sz)
    ensures forall u, v :: 0.0 <= u < 1.0 && 0.0 <= v < 1.0 ==> StartFits2D(np, sx, sy, sz, f, u, v)
  {
    LowerFrequency(sx, np.spread.X, f);
    LowerFrequency(sy, np.spread.Y, f);
    AreaGrows(MostPoints(sx, f / np.spread.X), MostPoints(sy, f / np.spread.Y),
              MostPoints(sx, 1.0 / np.spread.X), MostPoints(sy, 1.0 / np.spread.Y));
    OctaveFits2D(np, sx, sy, sz, f);
  }

  lemma LowerFrequency(size: nat, spread: real, f: real)
    requires 0.0 < f <= 1.0 && 0.0 < spread
    ensures 0 <= MostPoints(size, f / spread) <= MostPoints(size, 1.0 / spread)
  {
    DividePositive(f, spread);
    DivideLe(f, 1.0, spread);
    MostPointsIs(size, f / spread, 0.0);
    MostPointsGrows(size, f / spread, 1.0 / spread);
  }

  /** The same for three dimensions. */
  lemma EnoughBelowOne3D(np: NoiseParams, sx: nat, sy: nat, sz: nat)
    requires ParamsOk(np, sx, sy, sz) && 0.0 < np.lacunarity < 1.0 && np.octaves > 0
    ensures Enough3D(np, sx, sy, sz) <==>
            && np.spread.X >= 1.0 && np.spread.Y >= 1.0 && np.spread.Z >= 1.0
            && FirstOctavePoints(sx, np.spread.X) * (FirstOctavePoints(sy, np.spread.Y) * FirstOctavePoints(sz,
                np.spread.Z)) <=
               BufSize(np, sx, sy, sz)
  {
    OctaveFits3D(np, sx, sy, sz, 1.0);
    assert Power(np.lacunarity, 0) == 1.0;
    if Enough3D(np, sx, sy, sz) {
      forall u, v, w | 0.0 <= u < 1.0 && 0.0 <= v < 1.0 && 0.0 <= w < 1.0
        ensures StartFits3D(np, sx, sy, sz, 1.0, u, v, w)
      {
        assert StartFits3D(np, sx, sy, sz, Power(np.lacunarity, 0), u, v, w);
      }
    }
    if forall u, v, w :: 0.0 <= u < 1.0 && 0.0 <= v < 1.0 && 0.0 <= w < 1.0 ==>
        StartFits3D(np, sx, sy, sz, 1.0, u, v, w) {
      forall oct: nat, u, v, w | oct < np.octaves && 0.0 <= u < 1.0 && 0.0 <= v < 1.0 && 0.0 <= w < 1.0
        ensures StartFits3D(np, sx, sy, sz, Power(np.lacunarity, oct), u, v, w)
      {
        PowerShrinks(np.lacunarity, oct);
        LowerFrequencyFits3D(np, sx, sy, sz, Power(np.lacunarity, oct));
      }
    }
  }

  lemma LowerFrequencyFits3D(np: NoiseParams, sx: nat, sy: nat, sz: nat, f: real)
    requires ParamsOk(np, sx, sy, sz) && 0.0 < f <= 1.0 <= np.spread.X && 1.0 <= np.spread.Y && 1.0 <= np.spread.Z
    requires MostPoints(sx, 1.0 / np.spread.X) * (MostPoints(sy, 1.0 / np.spread.Y) * MostPoints(sz,
        1.0 / np.spread.Z)) <=
             BufSize(np, sx, sy, sz)
    ensures forall u, v, w :: 0.0 <= u < 1.0 && 0.0 <= v < 1.0 && 0.0 <= w < 1.0 ==>
            StartFits3D(np, sx, sy, sz, f, u, v, w)
  {
    LowerFrequency(sx, np.spread.X, f);
    LowerFrequency(sy, np.spread.Y, f);
    LowerFrequency(sz, np.spread.Z, f);
    VolumeGrows(MostPoints(sx, f / np.spread.X), MostPoints(sy, f / np.spread.Y), MostPoints(sz, f / np.spread.Z),
                MostPoints(sx, 1.0 / np.spread.X), MostPoints(sy, 1.0 / np.spread.Y),
                    MostPoints(sz, 1.0 / np.spread.Z));
    OctaveFits3D(np, sx, sy, sz, f);
  }

  /** A flat map of 100 by 100 points that is accepted but does not fit. */
  lemma LowLacunarityOverruns(np: NoiseParams)
    requires np.lacunarity == 0.5 && np.octaves == 1 && np.spread == Vec3(1.0, 1.0, 1.0)
    ensures ParamsOk(np, 100, 100, 1) && !Enough2D(np, 100, 100, 1)
  {
    CrossedIsLength(100, 0.5, 1.0);
    assert ParamsOk(np, 100, 100, 1);
    EnoughBelowOne2D(np, 100, 100, 1);
    assert FirstOctavePoints(100, 1.0) == 102;
    assert BufPoints(np, 100, 1.0) == 53;
  }
}
