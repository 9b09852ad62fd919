/**
  What the noise at a point is, as a law of the lattice around it: a mean of
  the corners of its cell with smooth weights, and octaves nested in each other.
 */
module NoiseMeaning {
  import opened NoiseField

  // ---------------------------------------------------------------------------
  // Easing
  // ---------------------------------------------------------------------------

  /** The weight of the far end at the distance `t`: the least polynomial that is flat to second order at both ends. */
  function Weight(t: real, eased: bool): real {
    if eased then 10.0 * Power(t, 3) - 15.0 * Power(t, 4) + 6.0 * Power(t, 5) else t
  }

  lemma Powers(t: real)
    ensures Power(t, 2) == t * t && Power(t, 3) == t * t * t && Power(t, 4) == t * t * t * t
    ensures Power(t, 5) == t * t * t * t * t
  {
    assert Power(t, 1) == t;
  }

  lemma EasedIsWeight(t: real, eased: bool)
    ensures Eased(t, eased) == Weight(t, eased)
  {
    Powers(t);
  }

  /** The curve as a mixture of powers of the distances `t` and `c` to the two ends. */
  lemma EaseMixes(t: real, c: real)
    requires t + c == 1.0
    ensures EaseCurve(t) == t * t * t * (10.0 * (c * c) + 5.0 * (t * c) + t * t)
  {
    assert c == 1.0 - t;
    assert c * c == 1.0 - 2.0 * t + t * t;
    assert t * c == t - t * t;
    Factor(t * t * t, t * (6.0 * t - 15.0) + 10.0, 10.0 * (c * c) + 5.0 * (t * c) + t * t);
  }

  lemma Factor(x: real, y: real, z: real)
    requires y == z
    ensures x * y == x * z
  {
  }

  /** Both ends are treated alike. */
  lemma EaseIsSymmetric(t: real)
    ensures EaseCurve(t) + EaseCurve(1.0 - t) == 1.0
  {
    var c := 1.0 - t;
    EaseMixes(t, c);
    EaseMixes(c, t);
    FifthPower(t, c);
  }

  lemma FifthPower(t: real, c: real)
    requires t + c == 1.0
    ensures t * t * t * (10.0 * (c * c) + 5.0 * (t * c) + t * t) +
            c * c * c * (10.0 * (t * t) + 5.0 * (c * t) + c * c) == 1.0
  {
    var p, q := t * t, c * c;
    var m := t * c;
    assert p + 2.0 * m + q == 1.0 by {
      assert (t + c) * (t + c) == p + 2.0 * m + q;
    }
    // cubes and fifth powers by what the sum of the two distances gives
    assert t * p + c * q == 1.0 - 3.0 * m by {
      assert (t + c) * (p - m + q) == t * p + c * q;
    }
    assert m * m == p * q;
    assert t * p * (10.0 * q + 5.0 * m + p) + c * q * (10.0 * p + 5.0 * m + q) ==
           10.0 * m * m * (t + c) + 5.0 * m * (t * p + c * q) + (t * p * p + c * q * q);
    assert t * p * p + c * q * q == (p + q) * (t * p + c * q) - m * m * (t + c);
  }

  /** It leaves 0 to third order only, and does not overshoot. */
  lemma EaseIsFlat(t: real)
    requires 0.0 <= t <= 1.0
    ensures 0.0 <= EaseCurve(t) <= 10.0 * t * t * t && EaseCurve(t) <= 1.0
  {
    var f := t * (6.0 * t - 15.0) + 10.0;
    assert t * t <= t;
    assert 0.0 <= f <= 10.0;
    assert 0.0 <= t * t * t;
    Between(t * t * t, f, 10.0);
    var s := 1.0 - t;
    assert 0.0 <= s <= 1.0 && s * s <= s;
    var g := s * (6.0 * s - 15.0) + 10.0;
    assert 0.0 <= g;
    assert 0.0 <= s * s * s;
    Between(s * s * s, g, g);
    EaseIsSymmetric(t);
  }

  lemma Between(x: real, y: real, z: real)
    requires 0.0 <= x && 0.0 <= y <= z
    ensures 0.0 <= x * y <= z * x
  {
  }

  /** What the curve gains from `a` to `a + b`: a sum of products of distances. */
  lemma EaseGains(a: real, b: real, c: real)
    requires a + b + c == 1.0
    ensures EaseCurve(a + b) - EaseCurve(a) == b * Gain(a, b, c)
  {
    EaseMixes(a + b, c);
    EaseMixes(a, b + c);
  }

  function Gain(a: real, b: real, c: real): real {
    b * (10.0 * (a * a * b) + 5.0 * (a * b * b) + b * b * b + 30.0 * (a * a * c) + 20.0 * (a * b * c) +
         5.0 * (b * b * c)) +
    c * c * (30.0 * (a * a) + 30.0 * (a * b) + 10.0 * (b * b))
  }

  lemma GainIsPositive(a: real, b: real, c: real)
    requires 0.0 <= a && 0.0 <= b && 0.0 <= c
    ensures 0.0 <= b * Gain(a, b, c)
  {
  }

  /** It never falls. */
  lemma EaseRises(s: real, t: real)
    requires 0.0 <= s <= t <= 1.0
    ensures EaseCurve(s) <= EaseCurve(t)
  {
    EaseGains(s, t - s, 1.0 - t);
    GainIsPositive(s, t - s, 1.0 - t);
  }

  lemma WeightIsPart(t: real, eased: bool)
    requires 0.0 <= t <= 1.0
    ensures 0.0 <= Weight(t, eased) <= 1.0
  {
    EasedIsWeight(t, eased);
    EaseIsFlat(t);
  }

  // ---------------------------------------------------------------------------
  // Interpolation
  // ---------------------------------------------------------------------------

  /** A mean of two values, with the weight `w` on the second. */
  function Mean(a: real, b: real, w: real): real {
    (1.0 - w) * a + w * b
  }

  lemma MeanBetween(a: real, b: real, w: real, lo: real, hi: real)
    requires 0.0 <= w <= 1.0 && lo <= a <= hi && lo <= b <= hi
    ensures lo <= Mean(a, b, w) <= hi
  {
    Positive(1.0 - w, a - lo);
    Positive(w, b - lo);
    Positive(1.0 - w, hi - a);
    Positive(w, hi - b);
    assert Mean(a, b, w) - lo == (1.0 - w) * (a - lo) + w * (b - lo);
    assert hi - Mean(a, b, w) == (1.0 - w) * (hi - a) + w * (hi - b);
  }

  lemma Positive(x: real, y: real)
    requires 0.0 <= x && 0.0 <= y
    ensures 0.0 <= x * y
  {
  }

  lemma InterpolationIsMean(a: real, b: real, w: real)
    ensures LinearInterpolation(a, b, w) == Mean(a, b, w)
  {
  }

  /** The noise at a point: the mean of the four corners of its cell by the weights of the distances. */
  function Corners2D(noise: Lattice2D, x0: int, y0: int, wx: real, wy: real, seed: int): real {
    Mean(Mean(noise(x0, y0, seed), noise(x0 + 1, y0, seed), wx),
         Mean(noise(x0, y0 + 1, seed), noise(x0 + 1, y0 + 1, seed), wx), wy)
  }

  function Corners3D(noise: Lattice3D, x0: int, y0: int, z0: int, wx: real, wy: real, wz: real, seed: int): real {
    Mean(Corners2D((x, y, s) => noise(x, y, z0, s), x0, y0, wx, wy, seed),
         Corners2D((x, y, s) => noise(x, y, z0 + 1, s), x0, y0, wx, wy, seed), wz)
  }

  lemma NoiseIsMean2D(noise: Lattice2D, x: real, y: real, seed: int, eased: bool, x0: int, y0: int, u: real, v: real)
    requires InCell(x, x0, u) && InCell(y, y0, v)
    ensures Noise2DValue(noise, x, y, seed, eased) ==
            Corners2D(noise, x0, y0, Weight(u, eased), Weight(v, eased), seed)
  {
    ValueInCell2D(noise, x, y, seed, eased, x0, y0, u, v);
    EasedIsWeight(u, eased);
    EasedIsWeight(v, eased);
    var wx, wy := Weight(u, eased), Weight(v, eased);
    var a, b := noise(x0, y0, seed), noise(x0 + 1, y0, seed);
    var c, d := noise(x0, y0 + 1, seed), noise(x0 + 1, y0 + 1, seed);
    InterpolationIsMean(a, b, wx);
    InterpolationIsMean(c, d, wx);
    InterpolationIsMean(Mean(a, b, wx), Mean(c, d, wx), wy);
  }

  lemma PlaneIsMean(noise: Lattice3D, x0: int, y0: int, z: int, wx: real, wy: real, seed: int)
    ensures Plane(noise, x0, y0, z, wx, wy, seed) ==
            Corners2D((x, y, s) => noise(x, y, z, s), x0, y0, wx, wy, seed)
  {
    var a, b := noise(x0, y0, z, seed), noise(x0 + 1, y0, z, seed);
    var c, d := noise(x0, y0 + 1, z, seed), noise(x0 + 1, y0 + 1, z, seed);
    InterpolationIsMean(a, b, wx);
    InterpolationIsMean(c, d, wx);
    InterpolationIsMean(Mean(a, b, wx), Mean(c, d, wx), wy);
  }

  lemma NoiseIsMean3D(noise: Lattice3D, x: real, y: real, z: real, seed: int, eased: bool,
                      x0: int, y0: int, z0: int, u: real, v: real, w: real)
    requires InCell(x, x0, u) && InCell(y, y0, v) && InCell(z, z0, w)
    ensures Noise3DValue(noise, x, y, z, seed, eased) ==
            Corners3D(noise, x0, y0, z0, Weight(u, eased), Weight(v, eased), Weight(w, eased), seed)
  {
    ValueInCell3D(noise, x, y, z, seed, eased, x0, y0, z0, u, v, w);
    EasedIsWeight(u, eased);
    EasedIsWeight(v, eased);
    EasedIsWeight(w, eased);
    var wx, wy, wz := Weight(u, eased), Weight(v, eased), Weight(w, eased);
    PlaneIsMean(noise, x0, y0, z0, wx, wy, seed);
    PlaneIsMean(noise, x0, y0, z0 + 1, wx, wy, seed);
    InterpolationIsMean(Plane(noise, x0, y0, z0, wx, wy, seed), Plane(noise, x0, y0, z0 + 1, wx, wy, seed), wz);
  }

  ghost predicate CornersWithin(noise: Lattice2D, x0: int, y0: int, seed: int, lo: real, hi: real) {
    && lo <= noise(x0, y0, seed) <= hi && lo <= noise(x0 + 1, y0, seed) <= hi
    && lo <= noise(x0, y0 + 1, seed) <= hi && lo <= noise(x0 + 1, y0 + 1, seed) <= hi
  }

  lemma CornersBetween(noise: Lattice2D, x0: int, y0: int, wx: real, wy: real, seed: int, lo: real, hi: real)
    requires 0.0 <= wx <= 1.0 && 0.0 <= wy <= 1.0 && CornersWithin(noise, x0, y0, seed, lo, hi)
    ensures lo <= Corners2D(noise, x0, y0, wx, wy, seed) <= hi
  {
    var a, b := noise(x0, y0, seed), noise(x0 + 1, y0, seed);
    var c, d := noise(x0, y0 + 1, seed), noise(x0 + 1, y0 + 1, seed);
    MeanBetween(a, b, wx, lo, hi);
    MeanBetween(c, d, wx, lo, hi);
    MeanBetween(Mean(a, b, wx), Mean(c, d, wx), wy, lo, hi);
  }

  /** The value at a point lies between the least and the greatest corner of its cell. */
  lemma NoiseWithinCorners2D(noise: Lattice2D, x: real, y: real, seed: int, eased: bool, x0: int, y0: int, u: real,
                             v: real, lo: real, hi: real)
    requires InCell(x, x0, u) && InCell(y, y0, v) && CornersWithin(noise, x0, y0, seed, lo, hi)
    ensures lo <= Noise2DValue(noise, x, y, seed, eased) <= hi
  {
    NoiseIsMean2D(noise, x, y, seed, eased, x0, y0, u, v);
    WeightIsPart(u, eased);
    WeightIsPart(v, eased);
    CornersBetween(noise, x0, y0, Weight(u, eased), Weight(v, eased), seed, lo, hi);
  }

  lemma NoiseWithinCorners3D(noise: Lattice3D, x: real, y: real, z: real, seed: int, eased: bool, x0: int, y0: int,
                             z0: int, u: real, v: real, w: real, lo: real, hi: real)
    requires InCell(x, x0, u) && InCell(y, y0, v) && InCell(z, z0, w)
    requires CornersWithin((x, y, s) => noise(x, y, z0, s), x0, y0, seed, lo, hi)
    requires CornersWithin((x, y, s) => noise(x, y, z0 + 1, s), x0, y0, seed, lo, hi)
    ensures lo <= Noise3DValue(noise, x, y, z, seed, eased) <= hi
  {
    NoiseIsMean3D(noise, x, y, z, seed, eased, x0, y0, z0, u, v, w);
    WeightIsPart(u, eased);
    WeightIsPart(v, eased);
    WeightIsPart(w, eased);
    var wx, wy, wz := Weight(u, eased), Weight(v, eased), Weight(w, eased);
    var low, high: Lattice2D := (x, y, s) => noise(x, y, z0, s), (x, y, s) => noise(x, y, z0 + 1, s);
    CornersBetween(low, x0, y0, wx, wy, seed, lo, hi);
    CornersBetween(high, x0, y0, wx, wy, seed, lo, hi);
    MeanBetween(Corners2D(low, x0, y0, wx, wy, seed), Corners2D(high, x0, y0, wx, wy, seed), wz, lo, hi);
  }

  // ---------------------------------------------------------------------------
  // Octaves
  // ---------------------------------------------------------------------------

  /** The value itself, or without its sign. */
  function Size(np: NoiseParams, v: real): real {
    if np.absvalue && v < 0.0 then -v else v
  }

  lemma PowerMoves(x: real, b: real, n: nat)
    ensures Times(x, Power(b, n + 1)) == Times(Times(x, b), Power(b, n))
  {
    TermMoves(b, Power(b, n), x);
  }

  lemma TermMoves(p: real, q: real, v: real)
    ensures Scaled(q * p, v) == Scaled(p, Scaled(q, v)) && v * (q * p) == v * p * q
  {
  }

  lemma Unscaled(x: real)
    ensures Times(x, 1.0) == x && Scaled(1.0, x) == x
  {
  }

  lemma FirstOctave2D(value: Field2D, np: NoiseParams, x: real, y: real, seed: int)
    ensures Octave2D(value, np, x, y, seed, 1.0, 1.0) == Size(np, value(x, y, seed))
  {
    Unscaled(x);
    Unscaled(y);
    Unscaled(Size(np, value(x, y, seed)));
  }

  lemma FirstOctave3D(value: Field3D, np: NoiseParams, x: real, y: real, z: real, seed: int)
    ensures Octave3D(value, np, x, y, z, seed, 1.0, 1.0) == Size(np, value(x, y, z, seed))
  {
    Unscaled(x);
    Unscaled(y);
    Unscaled(z);
    Unscaled(Size(np, value(x, y, z, seed)));
  }

  /**
    Octaves are nested: the field itself, and `persist` times what the other
    octaves sum to at a place scaled by the lacunarity, under the next seed.
   */
  lemma {:induction false} OctavesNest2D(value: Field2D, np: NoiseParams, x: real, y: real, seed: int, persist: real,
                                         n: nat)
    ensures Sum2D(value, np, x, y, seed, persist, 0) == 0.0
    ensures Sum2D(value, np, x, y, seed, persist, n + 1) ==
            Size(np, value(x, y, seed)) +
            Scaled(persist, Sum2D(value, np, Times(x, np.lacunarity), Times(y, np.lacunarity), seed + 1, persist, n))
  {
    var l := np.lacunarity;
    if n == 0 {
      FirstOctave2D(value, np, x, y, seed);
    } else {
      OctavesNest2D(value, np, x, y, seed, persist, n - 1);
      PowerMoves(x, l, n - 1);
      PowerMoves(y, l, n - 1);
      var v := At2D(value, np, x, y, seed + n, Power(l, n));
      assert v == At2D(value, np, Times(x, l), Times(y, l), seed + n, Power(l, n - 1));
      assert Octave2D(value, np, x, y, seed + n, Power(l, n), Power(persist, n)) == Scaled(Power(persist, n), v);
      TermMoves(persist, Power(persist, n - 1), v);
      Distributes(persist, Sum2D(value, np, Times(x, l), Times(y, l), seed + 1, persist, n - 1),
                  Scaled(Power(persist, n - 1), v));
    }
  }

  lemma Distributes(p: real, a: real, b: real)
    ensures Scaled(p, a + b) == Scaled(p, a) + Scaled(p, b)
  {
  }

  lemma {:induction false} OctavesNest3D(value: Field3D, np: NoiseParams, x: real, y: real, z: real, seed: int,
                                         persist: real, n: nat)
    ensures Sum3D(value, np, x, y, z, seed, persist, 0) == 0.0
    ensures Sum3D(value, np, x, y, z, seed, persist, n + 1) ==
            Size(np, value(x, y, z, seed)) +
            Scaled(persist, Sum3D(value, np, Times(x, np.lacunarity), Times(y, np.lacunarity), Times(z, np.lacunarity),
                                  seed + 1, persist, n))
  {
    var l := np.lacunarity;
    if n == 0 {
      FirstOctave3D(value, np, x, y, z, seed);
    } else {
      OctavesNest3D(value, np, x, y, z, seed, persist, n - 1);
      PowerMoves(x, l, n - 1);
      PowerMoves(y, l, n - 1);
      PowerMoves(z, l, n - 1);
      var v := At3D(value, np, x, y, z, seed + n, Power(l, n));
      assert v == At3D(value, np, Times(x, l), Times(y, l), Times(z, l), seed + n, Power(l, n - 1));
      assert Octave3D(value, np, x, y, z, seed + n, Power(l, n), Power(persist, n)) == Scaled(Power(persist, n), v);
      TermMoves(persist, Power(persist, n - 1), v);
      Distributes(persist, Sum3D(value, np, Times(x, l), Times(y, l), Times(z, l), seed + 1, persist, n - 1),
                  Scaled(Power(persist, n - 1), v));
    }
  }
}
