/** `CellsSingleThreaded`, the sparse simulator: a map from position to cell
    state plus the edge length of the cube. Its step (`tick`) has an empty
    body, so a generation leaves everything as it was; the three auxiliary
    tables it declares for a future step are never written and stay empty. */
module SingleThreaded {
  import opened Base
  import opened Vec3
  import opened Utils
  import opened Rules
  import CellRender

  /** `CellState`: a live cell's state value and neighbour count. */
  datatype CellState = CellState(value: U8, neighbors: U8)

  /** The value a dense buffer holds for an absent cell. */
  const Dead: CellState := CellState(0, 0)

  datatype CellsSingleThreaded = CellsSingleThreaded(
    states: map<IVec3, CellState>,
    boundingSize: int,
    neighbors: map<IVec3, U8>,
    changes: map<IVec3, int>,
    spawn: seq<(IVec3, U8)>)

  /** The tables reserved for the unimplemented step hold nothing. */
  predicate AuxEmpty(s: CellsSingleThreaded) {
    s.neighbors == map[] && s.changes == map[] && s.spawn == []
  }

  /** `cell_count`: the number of stored cells. */
  function CellCount(s: CellsSingleThreaded): (n: nat)
    ensures n == 0 <==> s.states == map[]
  {
    |s.states|
  }

  /** `bounds`: the edge length of the cube. */
  function Bounds(s: CellsSingleThreaded): int {
    s.boundingSize
  }

  /** `CellsSingleThreaded::new`: no cells, edge 0. */
  function New(): (s: CellsSingleThreaded)
    ensures CellCount(s) == 0 && Bounds(s) == 0 && AuxEmpty(s)
  {
    CellsSingleThreaded(map[], 0, map[], map[], [])
  }

  /** `tick`: its body is empty, so the simulator is left as it was. */
  function Tick(s: CellsSingleThreaded, rule: Rule): (s': CellsSingleThreaded)
    ensures s' == s
  {
    s
  }

  /** `Sim::update`: one tick; the task pool it is handed is unused. Nothing
      changes: neither the cells, the bounds, the count nor the auxiliary
      tables. */
  function Update(s: CellsSingleThreaded, rule: Rule): (s': CellsSingleThreaded)
    ensures s' == s
    ensures s'.states == s.states && Bounds(s') == Bounds(s) && CellCount(s') == CellCount(s)
    ensures AuxEmpty(s) ==> AuxEmpty(s')
  {
    Tick(s, rule)
  }

  /** `set_bounds`: a new edge replaces the simulator by a fresh one of that
      edge, forgetting every cell; the current edge keeps everything. Either
      way the new edge is returned. */
  function SetBounds(s: CellsSingleThreaded, nb: int): (r: (CellsSingleThreaded, int))
    ensures r.1 == nb && Bounds(r.0) == nb
    ensures nb != Bounds(s) ==> CellCount(r.0) == 0 && AuxEmpty(r.0)
    ensures nb == Bounds(s) ==> r.0 == s
  {
    var base := if nb != s.boundingSize then New() else s;
    (base.(boundingSize := nb), nb)
  }

  /** `bounds` reads back what `set_bounds` stored, and setting the current
      bounds again changes nothing. */
  lemma BoundsAfterSetBounds(s: CellsSingleThreaded, nb: int)
    ensures Bounds(SetBounds(s, nb).0) == nb
    ensures SetBounds(s, Bounds(s)) == (s, Bounds(s))
    ensures SetBounds(SetBounds(s, nb).0, nb) == SetBounds(s, nb)
  {
  }

  /** Inserting `c` at every position of `ps` in turn (`HashMap::insert`,
      which overwrites). */
  function InsertAll(m: map<IVec3, CellState>, ps: seq<IVec3>, c: CellState): (r: map<IVec3, CellState>)
    ensures forall p :: p in r <==> p in m || p in ps
    ensures forall p :: p in ps ==> r[p] == c
    ensures forall p :: p in m && p !in ps ==> r[p] == m[p]
    ensures |m| <= |r| <= |m| + |ps|
    decreases |ps|
  {
    if ps == [] then m
    else
      assert forall p :: p in ps <==> p == ps[0] || p in ps[1..];
      InsertAll(m[ps[0] := c], ps[1..], c)
  }

  /** `spawn_noise`: every position sampled around the centre becomes a cell
      at the rule's top state with no neighbours; no cell is removed, others
      keep their state, and at most 1728 cells are added. The random
      generator is the sequence `draws` of offsets it returned. */
  function SpawnNoise(s: CellsSingleThreaded, rule: Rule, draws: seq<IVec3>): (s': CellsSingleThreaded)
    requires |draws| == NoiseAmount && DrawsWithin(draws, NoiseRadius)
    ensures var sampled := MakeSomeNoiseDefault(Center(s.boundingSize), draws);
            && (forall p :: p in s'.states <==> p in s.states || p in sampled)
            && (forall p :: p in sampled ==> s'.states[p] == CellState(rule.states, 0))
            && (forall p :: p in s.states && p !in sampled ==> s'.states[p] == s.states[p])
    ensures CellCount(s) <= CellCount(s') <= CellCount(s) + 1728
    ensures CellCount(s') > 0
    ensures s'.boundingSize == s.boundingSize && s'.neighbors == s.neighbors
            && s'.changes == s.changes && s'.spawn == s.spawn
  {
    var sampled := MakeSomeNoiseDefault(Center(s.boundingSize), draws);
    assert sampled[0] in sampled;
    s.(states := InsertAll(s.states, sampled, CellState(rule.states, 0)))
  }

  /** Every stored cell lies in the cube of edge `b`. */
  predicate AllInBounds(states: map<IVec3, CellState>, b: int) {
    forall p :: p in states ==> InBounds(p, b)
  }

  /** The state stored at `p`, or a dead cell. */
  function Stored(states: map<IVec3, CellState>, p: IVec3): CellState {
    if p in states then states[p] else Dead
  }

  /** The dense buffer `out` shows exactly the cells of `states`: the slot of
      each position holds that position's value and neighbour count, and
      zero where no cell is stored. */
  ghost predicate Depicts(states: map<IVec3, CellState>, out: CellRender.CellRenderer) {
    && CellRender.Valid(out)
    && forall i :: 0 < out.bounds && 0 <= i < |out.values| ==>
         && out.values[i] == Stored(states, IdxToPos(i, out.bounds)).value
         && out.neighbors[i] == Stored(states, IdxToPos(i, out.bounds)).neighbors
  }

  /** What the buffer holds after the cells at `written` have been set. */
  ghost function Painted(states: map<IVec3, CellState>, written: seq<IVec3>, p: IVec3): CellState {
    if p in written then Stored(states, p) else Dead
  }

  /** `render`: clear the buffer, then set the slot of every stored cell, in
      the map's iteration order `order` (any sequence listing exactly the
      stored positions). When every cell lies in the buffer's cube the
      result depicts the cells; a cell outside it whose index falls outside
      the buffer panics. */
  method Render(s: CellsSingleThreaded, renderer: CellRender.CellRenderer, order: seq<IVec3>)
    returns (r: Result<CellRender.CellRenderer>)
    requires renderer.bounds >= 0
    requires forall p :: p in order <==> p in s.states
    ensures r.Ok? ==> CellRender.Valid(r.value) && r.value.bounds == renderer.bounds
    ensures AllInBounds(s.states, renderer.bounds) ==> r.Ok? && Depicts(s.states, r.value)
  {
    var b := renderer.bounds;
    ghost var inside := AllInBounds(s.states, b);
    var cur := CellRender.Clear(renderer);
    var k := 0;
    while k < |order|
      invariant 0 <= k <= |order|
      invariant CellRender.Valid(cur) && cur.bounds == b
      invariant inside ==> forall i :: 0 < b && 0 <= i < |cur.values| ==>
                  && cur.values[i] == Painted(s.states, order[..k], IdxToPos(i, b)).value
                  && cur.neighbors[i] == Painted(s.states, order[..k], IdxToPos(i, b)).neighbors
    {
      var p := order[k];
      var cell := s.states[p];
      var w := CellRender.SetPos(cur, p, cell.value, cell.neighbors);
      if w.Err? {
        return Err(w.error);
      }
      assert forall q :: q in order[..k + 1] <==> q in order[..k] || q == p by {
        assert order[..k + 1] == order[..k] + [p];
      }
      if inside {
        forall i | 0 < b && 0 <= i < |w.value.values|
          ensures && w.value.values[i] == Painted(s.states, order[..k + 1], IdxToPos(i, b)).value
                  && w.value.neighbors[i] == Painted(s.states, order[..k + 1], IdxToPos(i, b)).neighbors
        {
          var q := IdxToPos(i, b);
          IdxPosRoundTrip(i, b);
          if q == p {
            assert i == PosToIdx(p, b);
          } else {
            assert w.value.values[PosToIdx(q, b)] == cur.values[PosToIdx(q, b)];
          }
        }
      }
      cur := w.value;
      k := k + 1;
    }
    assert order[..k] == order;
    r := Ok(cur);
  }

  /** A depiction is unique: two buffers of the same edge that both depict
      the same cells are equal, so the result of `render` does not depend on
      the map's iteration order. */
  lemma DepictionUnique(states: map<IVec3, CellState>, a: CellRender.CellRenderer, b: CellRender.CellRenderer)
    requires Depicts(states, a) && Depicts(states, b) && a.bounds == b.bounds
    ensures a == b
  {
    assert a.values == b.values;
    assert a.neighbors == b.neighbors;
  }

  /** Read per position: in a depiction every stored cell sits at its own
      index, and every slot no stored cell maps to holds zero. */
  lemma DepictionByPosition(states: map<IVec3, CellState>, out: CellRender.CellRenderer)
    requires Depicts(states, out) && AllInBounds(states, out.bounds)
    ensures forall p :: p in states ==>
              && out.values[PosToIdx(p, out.bounds)] == states[p].value
              && out.neighbors[PosToIdx(p, out.bounds)] == states[p].neighbors
    ensures forall i :: 0 <= i < |out.values| && (forall p :: p in states ==> PosToIdx(p, out.bounds) != i) ==>
              out.values[i] == 0 && out.neighbors[i] == 0
  {
    var b := out.bounds;
    forall p | p in states
      ensures && out.values[PosToIdx(p, b)] == states[p].value
              && out.neighbors[PosToIdx(p, b)] == states[p].neighbors
    {
      PosIdxRoundTrip(p, b);
    }
    forall i | 0 <= i < |out.values| && (forall p :: p in states ==> PosToIdx(p, b) != i)
      ensures out.values[i] == 0 && out.neighbors[i] == 0
    {
      assert b > 0;
      var q := IdxToPos(i, b);
      IdxPosRoundTrip(i, b);
      assert q !in states;
    }
  }

  /** Seeding a simulator whose cells lie in its cube keeps them there when
      the edge is at least 15, so the next `render` succeeds; the bounds
      slider only offers 32..=128. */
  lemma NoiseKeepsCellsInBounds(s: CellsSingleThreaded, rule: Rule, draws: seq<IVec3>)
    requires s.boundingSize >= 15 && AllInBounds(s.states, s.boundingSize)
    requires |draws| == NoiseAmount && DrawsWithin(draws, NoiseRadius)
    ensures AllInBounds(SpawnNoise(s, rule, draws).states, s.boundingSize)
  {
    var b := s.boundingSize;
    var sampled := MakeSomeNoiseDefault(Center(b), draws);
    DefaultNoiseInBounds(b, draws);
    forall p | p in SpawnNoise(s, rule, draws).states
      ensures InBounds(p, b)
    {
      if p in sampled {
        var k :| 0 <= k < |sampled| && sampled[k] == p;
      }
    }
  }
}
