/** Grid helpers of the automaton: the centre of the bounds³ cube, the
    conversion between a position in the cube and its linear index, and the
    noise sampler that seeds a simulation around a centre. */
module Utils {
  import opened Vec3

  /** `bounds.pow(3)`: the number of cells in the cube. */
  function Cube(b: int): int {
    b * b * b
  }

  /** A larger edge holds more cells. */
  lemma CubeMono(a: int, b: int)
    requires 0 <= a < b
    ensures 0 <= Cube(a) < Cube(b)
  {
    MulMono(b, a, b);
    MulMono(b, a, a);
    MulMono(b * b, a * a, b);
    MulMono(b, a, a * a);
    MulMono(a * a, 0, a);
    assert a * a * b > a * a * a || a == 0;
  }

  /** Every component of `p` lies in `[0, b)`. */
  predicate InBounds(p: IVec3, b: int) {
    0 <= p.x < b && 0 <= p.y < b && 0 <= p.z < b
  }

  /** Every component of `p` lies within `radius` of the same component of `c`. */
  predicate Within(p: IVec3, c: IVec3, radius: int) {
    && c.x - radius <= p.x <= c.x + radius
    && c.y - radius <= p.y <= c.y + radius
    && c.z - radius <= p.z <= c.z + radius
  }

  /** Rust's `/` on `i32`: the quotient truncated toward zero, so the
      remainder `a - d * q` has the sign of `a` and is smaller than `d`. */
  function TruncDiv(a: int, d: int): (q: int)
    requires d > 0
    ensures a >= 0 ==> 0 <= a - d * q < d
    ensures a < 0 ==> -d < a - d * q <= 0
  {
    if a >= 0 then a / d else -((-a) / d)
  }

  /** The grid centre: `bounds / 2` on every axis, rounded toward zero. */
  function Center(b: int): (c: IVec3)
    ensures c.x == c.y == c.z
    ensures b >= 0 ==> 2 * c.x <= b <= 2 * c.x + 1
    ensures b < 0 ==> 2 * c.x - 1 <= b <= 2 * c.x
    ensures b > 0 ==> InBounds(c, b)
  {
    Splat(TruncDiv(b, 2))
  }

  /* ---------- linear indexing ---------- */

  /** Division with a remainder in `[0, d)` is unique. */
  lemma DivModUnique(i: int, d: int, q: int, r: int)
    requires d > 0 && 0 <= r < d && i == q * d + r
    ensures i / d == q && i % d == r
  {
    var q0, r0 := i / d, i % d;
    assert i == q0 * d + r0;
    if q > q0 {
      assert (q - q0) * d >= d by { MulMono(q - q0, 1, d); }
      assert false;
    } else if q < q0 {
      assert (q0 - q) * d >= d by { MulMono(q0 - q, 1, d); }
      assert false;
    }
  }

  lemma MulMono(a: int, b: int, d: int)
    requires a >= b && d >= 0
    ensures a * d >= b * d
  {
    assert a * d - b * d == (a - b) * d;
  }

  /** The part `x + y * b` of an index lies in `[0, b * b)`. */
  lemma LowPartBound(x: int, y: int, b: int)
    requires 0 <= x < b && 0 <= y < b
    ensures 0 <= x + y * b < b * b
  {
    MulMono(b - 1, y, b);
    assert (b - 1) * b == b * b - b;
  }

  /** `pos_to_idx`: `x + y * bounds + z * bounds²`. The source casts the i32
      sum to usize, so a negative sum wraps to a huge index; here such a sum
      stays negative, which every buffer access rejects just the same. */
  function PosToIdx(p: IVec3, b: int): (i: int)
    ensures InBounds(p, b) ==> 0 <= i < Cube(b)
  {
    PosToIdxBound(p, b);
    p.x + p.y * b + p.z * (b * b)
  }

  lemma PosToIdxBound(p: IVec3, b: int)
    ensures InBounds(p, b) ==> 0 <= p.x + p.y * b + p.z * (b * b) < Cube(b)
  {
    if !InBounds(p, b) { return; }
    LowPartBound(p.x, p.y, b);
    MulMono(b - 1, p.z, b * b);
    assert (b - 1) * (b * b) == b * b * b - b * b;
    MulMono(p.z, 0, b * b);
  }

  /** `idx_to_pos`: the components of a linear index. Dividing by a zero
      bound panics in the source, so the bound must be positive. */
  function IdxToPos(i: int, b: int): (p: IVec3)
    requires b > 0 && i >= 0
    ensures i < Cube(b) ==> InBounds(p, b)
  {
    IdxToPosBound(i, b);
    IVec3(i % b, i / b % b, i / (b * b))
  }

  lemma IdxToPosBound(i: int, b: int)
    requires b > 0 && 0 <= i
    ensures i < Cube(b) ==> 0 <= i / (b * b) < b
  {
    if i >= Cube(b) { return; }
    var z := i / (b * b);
    assert i == z * (b * b) + i % (b * b);
    if z >= b {
      MulMono(z, b, b * b);
      assert false;
    }
  }

  /** `x + y * b + z * b²` regrouped for division by `b` and by `b²`. */
  lemma IndexRegroup(x: int, y: int, z: int, b: int)
    ensures x + y * b + z * (b * b) == (y + z * b) * b + x
    ensures x + y * b + z * (b * b) == z * (b * b) + (x + y * b)
  {
    assert (y + z * b) * b == y * b + (z * b) * b;
    assert (z * b) * b == z * (b * b);
  }

  /** Decoding the index of an in-bounds position gives that position back. */
  lemma PosIdxRoundTrip(p: IVec3, b: int)
    requires InBounds(p, b)
    ensures IdxToPos(PosToIdx(p, b), b) == p
  {
    var i := PosToIdx(p, b);
    var q := p.y + p.z * b;
    var low := p.x + p.y * b;
    IndexRegroup(p.x, p.y, p.z, b);
    LowPartBound(p.x, p.y, b);
    DivModUnique(i, b, q, p.x);
    DivModUnique(q, b, p.z, p.y);
    DivModUnique(i, b * b, p.z, low);
  }

  /** Encoding the position of an index below b³ gives that index back. */
  lemma IdxPosRoundTrip(i: int, b: int)
    requires b > 0 && 0 <= i < Cube(b)
    ensures PosToIdx(IdxToPos(i, b), b) == i
  {
    var q := i / b;
    var x, y, z := i % b, q % b, q / b;
    assert i == q * b + x;
    assert q == z * b + y;
    LowPartBound(x, y, b);
    assert i == z * (b * b) + (x + y * b);
    DivModUnique(i, b * b, z, x + y * b);
    assert IdxToPos(i, b) == IVec3(x, y, z);
  }

  /** Distinct in-bounds positions have distinct indices. */
  lemma PosToIdxInjective(p: IVec3, q: IVec3, b: int)
    requires InBounds(p, b) && InBounds(q, b)
    ensures PosToIdx(p, b) == PosToIdx(q, b) <==> p == q
  {
    if PosToIdx(p, b) == PosToIdx(q, b) {
      PosIdxRoundTrip(p, b);
      PosIdxRoundTrip(q, b);
    }
  }

  /** For an index of the cube, it is the index of `p` exactly when `p` is its
      position. */
  lemma IndexOfPosition(i: int, p: IVec3, b: int)
    requires b > 0 && 0 <= i < Cube(b) && InBounds(p, b)
    ensures i == PosToIdx(p, b) <==> IdxToPos(i, b) == p
  {
    PosIdxRoundTrip(p, b);
    IdxPosRoundTrip(i, b);
  }

  /* ---------- noise ---------- */

  /** `make_some_noise_default`'s radius. */
  const NoiseRadius: int := 7
  /** `make_some_noise_default`'s amount, `12.pow(3)`. */
  const NoiseAmount: nat := 12 * 12 * 12

  /** Every draw is what `gen_range(-radius..=radius)` can return on each axis. */
  predicate DrawsWithin(draws: seq<IVec3>, radius: int) {
    forall k :: 0 <= k < |draws| ==> Within(draws[k], Zero, radius)
  }

  /** `make_some_noise`: the sequence of positions handed to the callback
      `f`, in call order. The random generator is replaced by `draws`, the
      offsets it produced, one per call. */
  function MakeSomeNoise(center: IVec3, radius: int, amount: nat, draws: seq<IVec3>): (calls: seq<IVec3>)
    requires radius >= 0 && |draws| == amount && DrawsWithin(draws, radius)
    ensures |calls| == amount
    ensures forall k :: 0 <= k < amount ==> Within(calls[k], center, radius)
    ensures forall k :: 0 <= k < amount ==> Sub(calls[k], center) == draws[k]
  {
    seq(amount, k requires 0 <= k < amount => Add(center, draws[k]))
  }

  /** `make_some_noise_default`: radius 7 and 1728 calls. */
  function MakeSomeNoiseDefault(center: IVec3, draws: seq<IVec3>): (calls: seq<IVec3>)
    requires |draws| == NoiseAmount && DrawsWithin(draws, NoiseRadius)
    ensures |calls| == 1728
    ensures forall k :: 0 <= k < |calls| ==> Within(calls[k], center, 7)
  {
    MakeSomeNoise(center, NoiseRadius, NoiseAmount, draws)
  }

  /** Noise around the centre of a grid of at least 15 cells per edge stays in
      the grid, whatever the draws; this covers the 32..=128 range the
      bounds slider allows. */
  lemma DefaultNoiseInBounds(b: int, draws: seq<IVec3>)
    requires b >= 15 && |draws| == NoiseAmount && DrawsWithin(draws, NoiseRadius)
    ensures forall k :: 0 <= k < NoiseAmount ==> InBounds(MakeSomeNoiseDefault(Center(b), draws)[k], b)
  {
    var calls := MakeSomeNoiseDefault(Center(b), draws);
    forall k | 0 <= k < NoiseAmount
      ensures InBounds(calls[k], b)
    {
      assert Within(calls[k], Center(b), 7);
    }
  }

  /** Below 15 cells per edge the bound is tight: the corner draw (7, 7, 7)
      lands outside the grid. */
  lemma DefaultNoiseLeavesSmallGrid(b: int)
    requires 0 <= b < 15
    ensures !InBounds(MakeSomeNoiseDefault(Center(b), seq(NoiseAmount, _ => Splat(7)))[0], b)
  {
    var draws := seq(NoiseAmount, _ => Splat(7));
    assert DrawsWithin(draws, NoiseRadius);
    assert MakeSomeNoiseDefault(Center(b), draws)[0] == Add(Center(b), Splat(7));
  }
}
