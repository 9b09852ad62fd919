/** Flat buffers of lattice values, and walking along one axis of the lattice in equal steps. */
module NoiseLattice {
  import opened NoiseField

  // ---------------------------------------------------------------------------
  // Flat indices
  // ---------------------------------------------------------------------------

  function Idx(x: nat, y: nat, nlx: nat): nat {
    y * nlx + x
  }

  lemma IdxDivides(x: nat, y: nat, nlx: nat)
    requires x < nlx
    ensures Idx(x, y, nlx) / nlx == y && Idx(x, y, nlx) % nlx == x
  {
    var k := y * nlx + x;
    var q, r := k / nlx, k % nlx;
    assert q * nlx + r == y * nlx + x;
    if q > y {
      AtLeastOnce(q - y, nlx);
    } else if q < y {
      AtLeastOnce(y - q, nlx);
    }
  }

  lemma AtLeastOnce(d: int, n: nat)
    requires d > 0
    ensures d * n >= n
  {
  }

  lemma IdxInside(x: nat, y: nat, nlx: nat, nly: nat)
    requires x < nlx && y < nly
    ensures Idx(x, y, nlx) < nlx * nly
  {
    assert (y + 1) * nlx <= nly * nlx;
  }

  /** A larger number of points per line and of lines needs a larger buffer. */
  lemma AreaGrows(a: nat, b: nat, c: nat, d: nat)
    requires a <= c && b <= d
    ensures a * b <= c * d
  {
    assert a * b <= c * b;
    assert c * b <= c * d;
  }

  function Volume(a: nat, b: nat, c: nat): nat {
    a * (b * c)
  }

  /** Where line `j` ends and the next begins. */
  lemma LineEnds(j: nat, nlx: nat, lines: nat)
    ensures Idx(0, j, nlx) + nlx == Idx(0, j + 1, nlx)
    ensures j < lines ==> Idx(0, j, nlx) + nlx <= nlx * lines
    ensures j == lines ==> Idx(0, j, nlx) == nlx * lines
  {
    if j < lines {
      AreaGrows(nlx, j + 1, nlx, lines);
    }
  }

  /** Values by column and line. */
  type Table = (nat, nat) -> real

  /** The first `n` numbers of the buffer are those of the table, line by line. */
  ghost predicate Filled(buf: seq<real>, at: Table, nlx: nat, n: nat) {
    && nlx > 0 && n <= |buf|
    && forall k :: 0 <= k < n ==> buf[k] == at(k % nlx, k / nlx)
  }

  lemma ReadAt(buf: seq<real>, at: Table, nlx: nat, nly: nat, x: nat, y: nat)
    requires Filled(buf, at, nlx, nlx * nly) && x < nlx && y < nly
    ensures Idx(x, y, nlx) < |buf| && buf[Idx(x, y, nlx)] == at(x, y)
  {
    IdxInside(x, y, nlx, nly);
    IdxDivides(x, y, nlx);
  }

  lemma FilledNext(buf: seq<real>, at: Table, nlx: nat, i: nat, j: nat, n: nat)
    requires Filled(buf, at, nlx, n) && n == Idx(i, j, nlx) && i < nlx && n < |buf|
    ensures Filled(buf[n := at(i, j)], at, nlx, n + 1)
  {
    IdxDivides(i, j, nlx);
  }

  /** Appends number `i` of line `j`. */
  method Store(buf: array<real>, ghost at: Table, ghost nlx: nat, ghost i: nat, ghost j: nat, index: nat, value: real)
    requires Filled(buf[..], at, nlx, index) && index == Idx(i, j, nlx) && i < nlx && index < buf.Length
    requires value == at(i, j)
    modifies buf
    ensures Filled(buf[..], at, nlx, index + 1)
  {
    FilledNext(buf[..], at, nlx, i, j, index);
    ghost var before := buf[..];
    buf[index] := value;
    assert buf[..] == before[index := value];
  }

  method FillLine(buf: array<real>, at: Table, nlx: nat, j: nat, start: nat)
    requires Filled(buf[..], at, nlx, start) && start == Idx(0, j, nlx) && start + nlx <= buf.Length
    modifies buf
    ensures Filled(buf[..], at, nlx, start + nlx)
  {
    for i := 0 to nlx
      invariant Filled(buf[..], at, nlx, start + i)
    {
      Store(buf, at, nlx, i, j, start + i, at(i, j));
    }
  }

  /** All lines of a lattice, one behind the other. */
  method FillLines(buf: array<real>, at: Table, nlx: nat, lines: nat)
    requires nlx > 0 && nlx * lines <= buf.Length
    modifies buf
    ensures Filled(buf[..], at, nlx, nlx * lines)
  {
    var index := 0;
    for j := 0 to lines
      invariant index == Idx(0, j, nlx)
      invariant Filled(buf[..], at, nlx, index)
    {
      LineEnds(j, nlx, lines);
      FillLine(buf, at, nlx, j, index);
      index := index + nlx;
    }
    LineEnds(lines, nlx, lines);
  }

  function Points2D(noise: Lattice2D, x0: int, y0: int, seed: int): Table {
    (i: nat, j: nat) => noise(x0 + i, y0 + j, seed)
  }

  /** The planes of a three-dimensional lattice follow each other; line `l` is line `l % nly` of plane `l / nly`. */
  function Points3D(noise: Lattice3D, x0: int, y0: int, z0: int, seed: int, nly: nat): Table
    requires nly > 0
  {
    (i: nat, l: nat) => noise(x0 + i, y0 + l % nly, z0 + l / nly, seed)
  }

  // ---------------------------------------------------------------------------
  // Steps along an axis
  // ---------------------------------------------------------------------------

  /** The number of lattice points needed for `count` steps from the distance `u` into a cell. */
  function PointCount(u: real, count: nat, step: real): int {
    (u + Length(count, step)).Floor + 2
  }

  /** The place after `i` steps. */
  function Place(x: real, step: real, i: nat): real {
    if i == 0 then x else Place(x, step, i - 1) + step
  }

  lemma {:induction false} PlaceIs(x: real, step: real, i: nat)
    ensures Place(x, step, i) == x + i as real * step
  {
    if i > 0 {
      PlaceIs(x, step, i - 1);
      assert i as real * step == (i - 1) as real * step + step;
    }
  }

  /** After `i` steps from `x`, the walk is `n` cells on and at the distance `u`. */
  ghost predicate Walked(x: real, step: real, i: nat, n: nat, u: real) {
    InCell(Place(x, step, i), x.Floor + n, u)
  }

  lemma WalkStarts(x: real, step: real)
    ensures Walked(x, step, 0, 0, x - x.Floor as real)
  {
  }

  lemma WalkStep(x: real, step: real, i: nat, n: nat, u: real)
    requires Walked(x, step, i, n, u) && 0.0 < step <= 1.0
    ensures u + step < 1.0 ==> Walked(x, step, i + 1, n, u + step)
    ensures u + step >= 1.0 ==> Walked(x, step, i + 1, n + 1, u + step - 1.0)
  {
    assert Place(x, step, i + 1) == Place(x, step, i) + step;
  }

  /** One step, carrying over into the next cell. */
  method Step(x: real, step: real, ghost i: nat, n: nat, u: real) returns (n': nat, u': real)
    requires Walked(x, step, i, n, u) && 0.0 < step <= 1.0
    ensures Walked(x, step, i + 1, n', u') && (n' == n || n' == n + 1)
  {
    WalkStep(x, step, i, n, u);
    n', u' := n, u + step;
    if u' >= 1.0 {
      n', u' := n + 1, u' - 1.0;
    }
  }

  /** The walk never leaves the points counted for it. */
  lemma WalkInside(x: real, step: real, i: nat, n: nat, u: real, count: nat)
    requires Walked(x, step, i, n, u) && 0.0 < step && i <= count
    ensures n + 1 < PointCount(x - x.Floor as real, count, step)
  {
    PlaceIs(x, step, i);
    assert i as real * step <= Length(count, step);
    assert n as real <= (x - x.Floor as real) + Length(count, step);
  }

  lemma BelowCeil(x: real)
    ensures Ceil(x) as real - 1.0 < x <= Ceil(x) as real
  {
  }

  lemma FloorBelow(x: real, n: int)
    requires x < n as real + 1.0
    ensures x.Floor <= n
  {
  }

  lemma LongerSteps(count: nat, step: real, factor: real)
    requires step <= factor
    ensures Length(count, step) <= Length(count, factor)
  {
    assert count as real * (factor - step) >= 0.0;
  }

  function Length(count: nat, step: real): real {
    count as real * step
  }

  function Ceil(x: real): int {
    -(-x).Floor
  }
}
