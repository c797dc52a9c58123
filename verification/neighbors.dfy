/** The two neighbour topologies of the automaton as constant offset tables:
    Von Neumann (the six face neighbours) and Moore (the 26 cells of the
    surrounding 3×3×3 cube). */
module Neighbors {
  import opened Vec3

  datatype NeighborMethod = Moore | VonNeumann

  /** `VONNEUMANN_NEIGHBORS`, in the source's order. */
  const VonNeumannNeighbors: seq<IVec3> := [
    IVec3(1, 0, 0),
    IVec3(-1, 0, 0),
    IVec3(0, 1, 0),
    IVec3(0, -1, 0),
    IVec3(0, 0, -1),
    IVec3(0, 0, 1)
  ]

  /** `MOORE_NEIGHBORS`, in the source's order: x fastest, then y, then z,
      skipping the origin. */
  const MooreNeighbors: seq<IVec3> := [
    IVec3(-1, -1, -1),
    IVec3(0, -1, -1),
    IVec3(1, -1, -1),
    IVec3(-1, 0, -1),
    IVec3(0, 0, -1),
    IVec3(1, 0, -1),
    IVec3(-1, 1, -1),
    IVec3(0, 1, -1),
    IVec3(1, 1, -1),
    IVec3(-1, -1, 0),
    IVec3(0, -1, 0),
    IVec3(1, -1, 0),
    IVec3(-1, 0, 0),
    IVec3(1, 0, 0),
    IVec3(-1, 1, 0),
    IVec3(0, 1, 0),
    IVec3(1, 1, 0),
    IVec3(-1, -1, 1),
    IVec3(0, -1, 1),
    IVec3(1, -1, 1),
    IVec3(-1, 0, 1),
    IVec3(0, 0, 1),
    IVec3(1, 0, 1),
    IVec3(-1, 1, 1),
    IVec3(0, 1, 1),
    IVec3(1, 1, 1)
  ]

  /** An offset to one of the 26 cells around the origin: every component in
      {-1, 0, 1}, not all zero. */
  predicate IsCubeOffset(d: IVec3) {
    -1 <= d.x <= 1 && -1 <= d.y <= 1 && -1 <= d.z <= 1 && d != Zero
  }

  /** An offset to one of the six face neighbours: exactly one nonzero
      component, and it is ±1. */
  predicate IsFaceOffset(d: IVec3) {
    IsCubeOffset(d) && (d.x != 0 ==> d.y == 0 && d.z == 0) && (d.y != 0 ==> d.z == 0)
  }

  predicate Distinct(s: seq<IVec3>) {
    forall i, j :: 0 <= i < j < |s| ==> s[i] != s[j]
  }

  /** Position of an offset in the 3×3×3 cube read x fastest, then y, then z:
      a base-3 numeral, 13 for the origin. */
  function CubeKey(d: IVec3): int {
    (d.x + 1) + 3 * (d.y + 1) + 9 * (d.z + 1)
  }

  /** Two offsets of the cube with the same key are equal. */
  lemma CubeKeyInjective(a: IVec3, b: IVec3)
    requires -1 <= a.x <= 1 && -1 <= a.y <= 1 && -1 <= a.z <= 1
    requires -1 <= b.x <= 1 && -1 <= b.y <= 1 && -1 <= b.z <= 1
    requires CubeKey(a) == CubeKey(b)
    ensures a == b
  {
  }

  /** The Moore table lists the cube in key order with the origin (key 13)
      left out. */
  lemma MooreKeys()
    ensures |MooreNeighbors| == 26
    ensures forall i :: 0 <= i < 26 ==> CubeKey(MooreNeighbors[i]) == (if i < 13 then i else i + 1)
  {
  }

  /** The Moore table is exactly the 3×3×3 cube minus the origin: 26 entries,
      pairwise distinct, and an offset occurs in it iff it is a cube offset. */
  lemma MooreTableShape()
    ensures |MooreNeighbors| == 26
    ensures Distinct(MooreNeighbors)
    ensures forall d :: d in MooreNeighbors <==> IsCubeOffset(d)
  {
    var m := MooreNeighbors;
    MooreKeys();
    forall i | 0 <= i < 26
      ensures IsCubeOffset(m[i])
    {
      assert CubeKey(m[i]) != 13;
    }
    forall i, j | 0 <= i < j < 26
      ensures m[i] != m[j]
    {
      assert CubeKey(m[i]) < CubeKey(m[j]);
    }
    forall d | IsCubeOffset(d)
      ensures d in m
    {
      var k := CubeKey(d);
      assert k != 13 by {
        if k == 13 { CubeKeyInjective(d, Zero); }
      }
      var i := if k < 13 then k else k - 1;
      assert 0 <= i < 26;
      assert CubeKey(m[i]) == k;
      CubeKeyInjective(m[i], d);
    }
  }

  /** The Von Neumann table is exactly the six face offsets: 6 entries,
      pairwise distinct, and an offset occurs in it iff it is a face offset. */
  lemma VonNeumannTableShape()
    ensures |VonNeumannNeighbors| == 6
    ensures Distinct(VonNeumannNeighbors)
    ensures forall d :: d in VonNeumannNeighbors <==> IsFaceOffset(d)
  {
    var v := VonNeumannNeighbors;
    forall i | 0 <= i < 6
      ensures IsFaceOffset(v[i])
    {
      assert i == 0 || i == 1 || i == 2 || i == 3 || i == 4 || i == 5;
    }
    forall d | IsFaceOffset(d)
      ensures d in v
    {
      if d.x == 1 { assert d == v[0]; }
      else if d.x == -1 { assert d == v[1]; }
      else if d.y == 1 { assert d == v[2]; }
      else if d.y == -1 { assert d == v[3]; }
      else if d.z == -1 { assert d == v[4]; }
      else { assert d == v[5]; }
    }
  }

  /** `get_neighbor_iter`: the offset table of a topology. */
  function NeighborIter(m: NeighborMethod): (r: seq<IVec3>)
    ensures Distinct(r)
    ensures m.VonNeumann? ==> |r| == 6 && forall d :: d in r <==> IsFaceOffset(d)
    ensures m.Moore? ==> |r| == 26 && forall d :: d in r <==> IsCubeOffset(d)
  {
    VonNeumannTableShape();
    MooreTableShape();
    match m
    case VonNeumann => VonNeumannNeighbors
    case Moore => MooreNeighbors
  }

  /** Every face neighbour is also a Moore neighbour. */
  lemma VonNeumannInMoore()
    ensures forall d :: d in VonNeumannNeighbors ==> d in MooreNeighbors
  {
    VonNeumannTableShape();
    MooreTableShape();
  }

  /** Both tables are symmetric: an offset occurs iff its negation does. */
  lemma NeighborsClosedUnderNegation(m: NeighborMethod)
    ensures forall d :: d in NeighborIter(m) <==> Neg(d) in NeighborIter(m)
  {
    var r := NeighborIter(m);
    forall d
      ensures d in r <==> Neg(d) in r
    {
      if m.Moore? {
        assert IsCubeOffset(d) <==> IsCubeOffset(Neg(d));
      } else {
        assert IsFaceOffset(d) <==> IsFaceOffset(Neg(d));
      }
    }
  }
}
