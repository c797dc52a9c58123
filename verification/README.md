# rs-automata core in Dafny

This is a model of the integer core of rs-automata, a 3-D cellular-automaton viewer. The model covers:

- **Grid helpers** (`Utils`). The grid is a cube with edge `bounds`. The helpers find the grid centre and convert between a position in the bounds³ cube and its linear index. They also scatter noise around a centre.
- **Rule masks** (`Rules`). A `Value` is a 27-slot boolean mask over neighbour counts 0..26. It is built from a list of counts or from an inclusive range. A `Rule` holds a survival mask, a birth mask, the number of states and a neighbour topology.
- **Neighbour topologies** (`Neighbors`). These are the Von Neumann table (6 face offsets) and the Moore table (26 cube offsets).
- **Dense render buffer** (`CellRender`). `CellRenderer` holds an edge length and two byte vectors, `values` and `neighbors`, with one slot per cell.
- **Sparse simulator** (`SingleThreaded`). `CellsSingleThreaded` maps positions to `CellState` values. It supports new, update/tick, render, spawn-noise, cell-count and set-bounds.

The simulator's `tick` has an empty body in the source, so one generation changes nothing. No Game-of-Life, birth or decay rule is modelled, because none exists in this code.

Modelling choices:

- A Rust panic on an out-of-range index becomes `Result.Err(IndexOutOfBounds(index, len))`.
- `rand::thread_rng` is replaced by `draws`, the sequence of offsets the generator returned. The requirement on `draws` is what `gen_range(-7..=7)` guarantees.
- `HashMap` iteration order in `render` is a parameter `order`, which may be any sequence listing exactly the stored positions. When every stored cell lies in the renderer's cube, the result is proved not to depend on it. A cell outside the cube can alias another cell's index, and then the last write in iteration order wins, as in the source.
- `pos_to_idx` returns a mathematical integer. When the source's sum is negative, `as usize` wraps it to a huge index. The model keeps it negative, and every buffer write rejects it just the same.
- Positions are Bevy's `IVec3`, modelled as an unbounded integer triple (`Vec3.IVec3`).

## Model

| member | source | states |
|---|---|---|
| Utils.TruncDiv | src/utils.rs:12-15 | the quotient is rounded toward zero: the remainder `a - d * q` lies in `[0, d)` for non-negative `a` and in `(-d, 0]` for negative `a` |
| Utils.Center | src/utils.rs:12-15 | all three components are `bounds / 2` rounded toward zero (`2c <= b <= 2c + 1` for non-negative bounds, `2c - 1 <= b <= 2c` for negative ones); the centre lies in the cube when the cube is non-empty |
| Utils.PosToIdx | src/utils.rs:39-42 | an in-bounds position has an index in `[0, bounds³)` |
| Utils.IdxToPos | src/utils.rs:44-50 | an index below `bounds³` decodes to a position with every component in `[0, bounds)`; a zero bound is excluded because the source divides by it |
| Utils.PosIdxRoundTrip | src/utils.rs:39-50 | `idx_to_pos(pos_to_idx(p)) == p` for every in-bounds p |
| Utils.IdxPosRoundTrip | src/utils.rs:39-50 | `pos_to_idx(idx_to_pos(i)) == i` for every i in `[0, bounds³)` |
| Utils.PosToIdxInjective | src/utils.rs:39-42 | two in-bounds positions share an index iff they are equal |
| Utils.IndexOfPosition | src/utils.rs:39-50 | for an index and a position of the cube, the index is the position's index iff the position is the index's position |
| Utils.MakeSomeNoise | src/utils.rs:27-37 | the callback is called exactly `amount` times; call k receives `center + draws[k]`, within `radius` of the centre on every axis |
| Utils.MakeSomeNoiseDefault | src/utils.rs:23-25 | the default sampler makes 12³ = 1728 calls, each within 7 of the centre on every axis |
| Utils.DefaultNoiseInBounds | src/utils.rs:23-37 | around `center(b)` with `b >= 15` (which includes the slider range 32..=128), every sampled position lies in `[0, b)³` for any draws |
| Utils.DefaultNoiseLeavesSmallGrid | src/utils.rs:23-37 | for `0 <= b < 15` the draw (7, 7, 7) lands outside the cube, so 15 is the least edge for which noise always stays inside |
| Neighbors.NeighborIter | src/neighbors.rs:11-16 | Von Neumann gives 6 distinct offsets that are exactly the face offsets; Moore gives 26 distinct offsets that are exactly the cube offsets |
| Neighbors.VonNeumannTableShape | src/neighbors.rs:19-26 | the table has 6 pairwise distinct entries; an offset occurs in it iff it has exactly one nonzero component and that component is ±1 |
| Neighbors.MooreKeys | src/neighbors.rs:28-55 | the table lists the 3×3×3 cube in x-then-y-then-z order with only the origin skipped |
| Neighbors.MooreTableShape | src/neighbors.rs:28-55 | the table has 26 pairwise distinct entries; an offset occurs in it iff its components are in {-1, 0, 1} and it is not the zero vector |
| Neighbors.VonNeumannInMoore | src/neighbors.rs:19-55 | every Von Neumann offset occurs in the Moore table |
| Neighbors.NeighborsClosedUnderNegation | src/neighbors.rs:19-55 | in both tables, d occurs iff -d occurs |
| Rules.MarkAll | src/rule.rs:16-22 | the loop succeeds iff every index is at most 26; then slot i is set iff it was set already or i is in the list; a failure reports the first index of the list that is not a slot |
| Rules.New | src/rule.rs:16-22 | `Value::new(xs)` succeeds iff every element is at most 26; then slot i is true iff i occurs in xs, and every other slot is false; a failure reports the first element above 26 |
| Rules.MarkRange | src/rule.rs:24-30 | the loop over `lo..=hi` succeeds iff the range is empty or within 0..=26; then it sets exactly slots lo..hi; a failure reports `lo` when `lo` is not a slot, otherwise 27 |
| Rules.FromRange | src/rule.rs:24-30 | `from_range(lo..=hi)` succeeds iff the range is empty or `0 <= lo` and `hi <= 26`; then slot i is true iff `lo <= i <= hi`, so an empty range gives the all-false mask |
| Rules.MarkRangeIsMarkAll | src/rule.rs:16-30 | the loop of `from_range` over `lo..=hi` and the loop of `new` over `[lo, ..., hi]` give the same mask or the same panic, for every range |
| Rules.FromRangeIsNew | src/rule.rs:16-30 | `from_range(lo..=hi) == new([lo, ..., hi])` for every range of bytes, empty or not, including the ones that panic |
| Rules.NewDependsOnlyOnElements | src/rule.rs:16-22 | two successful `new` calls give equal values iff their lists have the same elements, so order and duplicates do not matter |
| Rules.RuleEquality | src/rule.rs:5-11 | two rules are equal iff survival, birth, states and topology are all equal |
| CellRender.New | src/cell_renderer.rs:253-259 | a new buffer has edge 0 and two empty vectors, which satisfies the buffer invariant |
| CellRender.CellCount | src/cell_renderer.rs:268-270 | when the invariant holds, `cell_count` equals the length of both vectors |
| CellRender.Clear | src/cell_renderer.rs:261-266 | the edge is unchanged, both vectors have `bounds³` entries, all of them zero; the invariant holds afterwards whatever the buffer held before |
| CellRender.SetBounds | src/cell_renderer.rs:272-279 | the current edge changes nothing; a new edge resizes both vectors to `nb³`, keeps the common prefix, zero-fills the new tail, and preserves the invariant |
| CellRender.GrowShrinkRoundTrip | src/cell_renderer.rs:272-279 | growing a valid buffer and shrinking it back to its old edge gives the original buffer |
| CellRender.Set | src/cell_renderer.rs:281-284 | succeeds iff idx is below both lengths; writes slot idx of both vectors and leaves every other slot, the edge and the lengths unchanged |
| CellRender.SetPos | src/cell_renderer.rs:286-288 | on a valid buffer, succeeds iff the position's index is in `[0, bounds³)`; an in-bounds position writes its own cell and leaves every other in-bounds cell unchanged |
| SingleThreaded.New | src/cells/tantan/single_threaded.rs:18-26 | a new simulator has no cells, edge 0 and empty auxiliary tables |
| SingleThreaded.Tick | src/cells/tantan/single_threaded.rs:28-30 | one tick leaves the simulator exactly as it was |
| SingleThreaded.Update | src/cells/tantan/single_threaded.rs:33-36 | an update (one tick) leaves the whole simulator unchanged: cells, edge, cell count and auxiliary tables |
| SingleThreaded.CellCount | src/cells/tantan/single_threaded.rs:51-53 | the count is zero iff no cell is stored |
| SingleThreaded.SetBounds | src/cells/tantan/single_threaded.rs:59-65 | the edge and the return value are always nb; a different edge forgets every cell and empties the auxiliary tables; the same edge keeps everything |
| SingleThreaded.BoundsAfterSetBounds | src/cells/tantan/single_threaded.rs:55-65 | `bounds()` returns the edge `set_bounds(nb)` stored; setting the current edge again is a no-op; `set_bounds` is idempotent |
| SingleThreaded.InsertAll | src/cells/tantan/single_threaded.rs:45-49 | inserting at each listed position adds exactly those keys, gives them the inserted state, keeps every other cell, and grows the map by at most the list length |
| SingleThreaded.SpawnNoise | src/cells/tantan/single_threaded.rs:45-49 | every sampled position `center + d` holds `(rule.states, 0)`; other cells are kept and none removed; the count grows by at most 1728 and is afterwards positive; the edge and auxiliary tables are unchanged |
| SingleThreaded.Render | src/cells/tantan/single_threaded.rs:38-43 | for any iteration order, when every cell lies in the buffer's cube the result succeeds, has the same edge, and shows each cell's value and neighbour count in that cell's slot and zero in every other slot |
| SingleThreaded.DepictionUnique | src/cells/tantan/single_threaded.rs:38-43 | two buffers of the same edge that show the same cells are equal, so the rendered buffer does not depend on the iteration order |
| SingleThreaded.DepictionByPosition | src/cells/tantan/single_threaded.rs:38-43 | in a rendered buffer, `values[pos_to_idx(p)]` and `neighbors[pos_to_idx(p)]` are the stored cell's fields, and every slot no cell maps to is 0 |
| SingleThreaded.NoiseKeepsCellsInBounds | src/cells/tantan/single_threaded.rs:45-49 | with an edge of at least 15, spawning noise into a simulator whose cells lie in the cube keeps them all in the cube, so the next render succeeds |

## Left out

- The neighbour-counting, survival, birth and decay step is not modelled, because `tick` (src/cells/tantan/single_threaded.rs:28-30) has an empty body. The `neighbors`, `changes` and `spawn` tables (lines 12-14) are modelled only so that they can be shown to stay empty.
- `reset` is called on the simulator in src/cells/sims.rs, but it is a method of the `Sim` trait, and that trait's body is not part of this model.
- The task pool passed to `update` is dropped, because the update never uses it.
- The Bevy GPU pipeline in src/cell_renderer.rs:1-244 is left out. It consists of foreign library calls.
- src/cells/sims.rs is left out. It is egui UI, timing and instance extraction. The bound-range fact from its slider is used only as context for `Utils.DefaultNoiseInBounds`.
- src/main.rs is left out. It is app wiring and example rule fixtures.
- Floating-point code is left out: `utils::lerp`, `utils::dist_to_center`, src/color_method.rs and src/rotating_camera.rs.
- Randomness is replaced by an explicit `draws` parameter, so the uniform distribution of the draws is not modelled.
- Machine-width arithmetic is not modelled. The i32 and usize overflow of `pos_to_idx`, `pow(3)` and `as` casts is handled with mathematical integers. Byte fields such as `Rule.states` and the render buffer's entries use the subtype `U8`, which is exactly u8's range. A negative edge is excluded by `requires` wherever its cube would be taken.
