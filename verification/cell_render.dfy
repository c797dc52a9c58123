/** `CellRenderer`, the dense buffer the simulator renders into: the edge
    length of the cube and two byte vectors, one slot per cell, holding each
    cell's state value and neighbour count. */
module CellRender {
  import opened Base
  import opened Vec3
  import opened Utils

  datatype CellRenderer = CellRenderer(bounds: int, values: seq<U8>, neighbors: seq<U8>)

  /** The buffer invariant: both vectors hold exactly one byte per cell. */
  predicate Valid(r: CellRenderer) {
    r.bounds >= 0 && |r.values| == Cube(r.bounds) && |r.neighbors| == Cube(r.bounds)
  }

  /** `Vec::resize(n, 0)`: truncate to `n` or pad with zeros up to `n`. */
  function Resize(s: seq<U8>, n: nat): (t: seq<U8>)
    ensures |t| == n
    ensures forall i :: 0 <= i < n && i < |s| ==> t[i] == s[i]
    ensures forall i :: |s| <= i < n ==> t[i] == 0
  {
    if n <= |s| then s[..n] else s + seq(n - |s|, _ => 0)
  }

  /** `CellRenderer::new`: an empty cube of edge 0. */
  function New(): (r: CellRenderer)
    ensures Valid(r) && r.bounds == 0 && r.values == [] && r.neighbors == []
  {
    CellRenderer(0, [], [])
  }

  /** `cell_count`: `bounds.pow(3)`, which is the length of both vectors
      whenever the invariant holds. */
  function CellCount(r: CellRenderer): (n: int)
    requires r.bounds >= 0
    ensures n >= 0
    ensures Valid(r) ==> n == |r.values| == |r.neighbors|
  {
    Cube(r.bounds)
  }

  /** `clear`: truncate both vectors to nothing and zero-fill them to
      `cell_count`; the bounds stay. It establishes the invariant whatever the
      vectors held before. */
  function Clear(r: CellRenderer): (r': CellRenderer)
    requires r.bounds >= 0
    ensures Valid(r') && r'.bounds == r.bounds
    ensures forall i :: 0 <= i < |r'.values| ==> r'.values[i] == 0 && r'.neighbors[i] == 0
  {
    var n := CellCount(r);
    CellRenderer(r.bounds, Resize(r.values[..0], n), Resize(r.neighbors[..0], n))
  }

  /** `set_bounds`: a new edge resizes both vectors to the new cell count,
      keeping the common prefix and zero-filling any new tail; the current
      edge changes nothing. */
  function SetBounds(r: CellRenderer, nb: int): (r': CellRenderer)
    requires nb >= 0
    ensures nb == r.bounds ==> r' == r
    ensures nb != r.bounds ==> && r'.bounds == nb
                               && |r'.values| == Cube(nb) && |r'.neighbors| == Cube(nb)
                               && (forall i :: 0 <= i < Cube(nb) && i < |r.values| ==> r'.values[i] == r.values[i])
                               && (forall i :: 0 <= i < Cube(nb) && i < |r.neighbors| ==> r'.neighbors[i] == r.neighbors[i])
                               && (forall i :: |r.values| <= i < Cube(nb) ==> r'.values[i] == 0)
                               && (forall i :: |r.neighbors| <= i < Cube(nb) ==> r'.neighbors[i] == 0)
    ensures Valid(r) ==> Valid(r')
    ensures nb != r.bounds ==> Valid(r')
  {
    if nb != r.bounds then
      var n := Cube(nb);
      assert n >= 0 by { MulMono(nb * nb, 0, nb); }
      CellRenderer(nb, Resize(r.values, n), Resize(r.neighbors, n))
    else
      r
  }

  /** `set`: write one cell's value and neighbour count. An index past either
      vector panics. */
  function Set(r: CellRenderer, idx: int, value: U8, neighbors: U8): (res: Result<CellRenderer>)
    ensures res.Ok? <==> 0 <= idx < |r.values| && idx < |r.neighbors|
    ensures res.Ok? ==> && res.value.bounds == r.bounds
                        && |res.value.values| == |r.values| && |res.value.neighbors| == |r.neighbors|
                        && res.value.values[idx] == value && res.value.neighbors[idx] == neighbors
                        && (forall i :: 0 <= i < |r.values| && i != idx ==> res.value.values[i] == r.values[i])
                        && (forall i :: 0 <= i < |r.neighbors| && i != idx ==> res.value.neighbors[i] == r.neighbors[i])
    ensures res.Ok? && Valid(r) ==> Valid(res.value)
  {
    if !(0 <= idx < |r.values|) then Err(IndexOutOfBounds(idx, |r.values|))
    else if !(idx < |r.neighbors|) then Err(IndexOutOfBounds(idx, |r.neighbors|))
    else Ok(CellRenderer(r.bounds, r.values[idx := value], r.neighbors[idx := neighbors]))
  }

  /** `set_pos`: write the cell at position `p`. On a valid buffer it succeeds
      exactly when the linear index of `p` lies in the cube (a position outside
      the cube can still alias another cell's index); an in-bounds position
      writes its own cell and no other. */
  function SetPos(r: CellRenderer, p: IVec3, value: U8, neighbors: U8): (res: Result<CellRenderer>)
    ensures Valid(r) ==> (res.Ok? <==> 0 <= PosToIdx(p, r.bounds) < Cube(r.bounds))
    ensures Valid(r) && res.Ok? ==> Valid(res.value) && res.value.bounds == r.bounds
    ensures Valid(r) && InBounds(p, r.bounds) ==>
              && res.Ok? && Valid(res.value) && res.value.bounds == r.bounds
              && res.value.values[PosToIdx(p, r.bounds)] == value
              && res.value.neighbors[PosToIdx(p, r.bounds)] == neighbors
              && (forall q :: InBounds(q, r.bounds) && q != p ==>
                    && res.value.values[PosToIdx(q, r.bounds)] == r.values[PosToIdx(q, r.bounds)]
                    && res.value.neighbors[PosToIdx(q, r.bounds)] == r.neighbors[PosToIdx(q, r.bounds)])
  {
    var res := Set(r, PosToIdx(p, r.bounds), value, neighbors);
    if Valid(r) && InBounds(p, r.bounds) then
      assert forall q :: InBounds(q, r.bounds) && q != p ==> PosToIdx(q, r.bounds) != PosToIdx(p, r.bounds) by {
        forall q | InBounds(q, r.bounds) && q != p
          ensures PosToIdx(q, r.bounds) != PosToIdx(p, r.bounds)
        {
          PosToIdxInjective(p, q, r.bounds);
        }
      }
      res
    else
      res
  }

  /** Growing a valid buffer and shrinking it back to its old edge restores
      it: growth keeps every old entry and only appends. */
  lemma GrowShrinkRoundTrip(r: CellRenderer, nb: int)
    requires Valid(r) && nb > r.bounds
    ensures SetBounds(SetBounds(r, nb), r.bounds) == r
  {
    CubeMono(r.bounds, nb);
    var back := SetBounds(SetBounds(r, nb), r.bounds);
    assert back.values == r.values;
    assert back.neighbors == r.neighbors;
  }
}
