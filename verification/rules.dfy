/** Rule masks: a `Value` is a 27-slot boolean mask over the neighbour counts
    0..26, and a `Rule` groups the survival and birth masks, the number of
    states and the neighbour topology. */
module Rules {
  import opened Base
  import opened Neighbors

  /** The number of slots of a mask: neighbour counts 0 to 26. */
  const Slots: nat := 27

  type Mask = s: seq<bool> | |s| == Slots witness seq(Slots, _ => false)

  /** `Value([bool; 27])`; slot `i` says whether neighbour count `i` is accepted. */
  datatype Value = Value(slots: Mask)

  /** `[false; 27]`. */
  function Cleared(): Mask {
    seq(Slots, _ => false)
  }

  /** `Rule`. Its derived `PartialEq` is Dafny's structural datatype equality. */
  datatype Rule = Rule(survival: Value, birth: Value, states: U8, neighborMethod: NeighborMethod)

  /** Every index of `xs` before position `k` addresses a slot. */
  predicate AllSlots(xs: seq<int>, k: int)
    requires 0 <= k <= |xs|
  {
    forall j :: 0 <= j < k ==> 0 <= xs[j] < Slots
  }

  /** The loop of `Value::new` from a given mask: sets slot `xs[k]` for each
      `k` in order, panicking at the first index that is not a slot. */
  function MarkAll(slots: Mask, xs: seq<int>): (r: Result<Mask>)
    ensures r.Ok? <==> AllSlots(xs, |xs|)
    ensures r.Ok? ==> forall i :: 0 <= i < Slots ==> (r.value[i] <==> slots[i] || i in xs)
    ensures r.Err? ==> exists k :: 0 <= k < |xs| && AllSlots(xs, k) && !(0 <= xs[k] < Slots)
                                  && r.error == IndexOutOfBounds(xs[k], Slots)
    decreases |xs|
  {
    if xs == [] then Ok(slots)
    else if !(0 <= xs[0] < Slots) then Err(IndexOutOfBounds(xs[0], Slots))
    else
      assert forall v :: v in xs <==> v == xs[0] || v in xs[1..];
      var r := MarkAll(slots[xs[0] := true], xs[1..]);
      assert r.Err? ==> exists k :: 0 <= k < |xs| && AllSlots(xs, k) && !(0 <= xs[k] < Slots)
                                    && r.error == IndexOutOfBounds(xs[k], Slots) by {
        if r.Err? {
          var k :| 0 <= k < |xs[1..]| && AllSlots(xs[1..], k) && !(0 <= xs[1..][k] < Slots)
                   && r.error == IndexOutOfBounds(xs[1..][k], Slots);
          assert AllSlots(xs, k + 1);
        }
      }
      r
  }

  /** `Value::new(indices)`: slot `i` is set iff `i` occurs in `indices`. An
      index above 26 panics on the array access. */
  function New(indices: seq<U8>): (r: Result<Value>)
    ensures r.Ok? <==> forall k :: 0 <= k < |indices| ==> indices[k] < Slots
    ensures r.Ok? ==> forall i :: 0 <= i < Slots ==> (r.value.slots[i] <==> i in indices)
    ensures r.Err? ==> exists k :: 0 <= k < |indices| && AllSlots(indices, k) && indices[k] >= Slots
                                  && r.error == IndexOutOfBounds(indices[k], Slots)
  {
    var r := MarkAll(Cleared(), indices);
    if r.Ok? then Ok(Value(r.value)) else Err(r.error)
  }

  /** The loop of `Value::from_range` over `lo..=hi`. An `i32` index below
      zero becomes a huge `usize`, so it panics just like one above 26. */
  function MarkRange(slots: Mask, lo: int, hi: int): (r: Result<Mask>)
    ensures r.Ok? <==> lo > hi || (0 <= lo && hi < Slots)
    ensures r.Ok? ==> forall i :: 0 <= i < Slots ==> (r.value[i] <==> slots[i] || lo <= i <= hi)
    ensures r.Err? ==> r.error == IndexOutOfBounds(if 0 <= lo < Slots then Slots else lo, Slots)
    decreases hi - lo
  {
    if lo > hi then Ok(slots)
    else if !(0 <= lo < Slots) then Err(IndexOutOfBounds(lo, Slots))
    else MarkRange(slots[lo := true], lo + 1, hi)
  }

  /** `Value::from_range(lo..=hi)`: slot `i` is set iff `lo <= i <= hi`; an
      empty range gives the all-false mask. */
  function FromRange(lo: int, hi: int): (r: Result<Value>)
    ensures r.Ok? <==> lo > hi || (0 <= lo && hi <= 26)
    ensures r.Ok? ==> forall i :: 0 <= i < Slots ==> (r.value.slots[i] <==> lo <= i <= hi)
  {
    var r := MarkRange(Cleared(), lo, hi);
    if r.Ok? then Ok(Value(r.value)) else Err(r.error)
  }

  /** `[lo, lo + 1, ..., hi]`. */
  function Range(lo: int, hi: int): (r: seq<int>)
    ensures forall k :: 0 <= k < |r| ==> lo <= r[k] <= hi
    ensures forall v :: v in r <==> lo <= v <= hi
    decreases hi - lo
  {
    if lo > hi then [] else [lo] + Range(lo + 1, hi)
  }

  /** The two loops agree on every range, including where and how they
      panic: the range loop is the list loop over `[lo, ..., hi]`. */
  lemma {:induction false} MarkRangeIsMarkAll(slots: Mask, lo: int, hi: int)
    ensures MarkRange(slots, lo, hi) == MarkAll(slots, Range(lo, hi))
    decreases hi - lo
  {
    if lo <= hi {
      var xs := Range(lo, hi);
      assert xs[0] == lo && xs[1..] == Range(lo + 1, hi);
      if 0 <= lo < Slots {
        MarkRangeIsMarkAll(slots[lo := true], lo + 1, hi);
      }
    }
  }

  /** Building from an inclusive byte range is building from the list of its
      members, with the same panic when the range leaves the 27 slots. */
  lemma FromRangeIsNew(lo: int, hi: int)
    requires lo > hi || (0 <= lo && hi <= 255)
    ensures FromRange(lo, hi) == New(Range(lo, hi))
  {
    MarkRangeIsMarkAll(Cleared(), lo, hi);
  }

  /** Two successful `Value::new` calls agree iff their lists hold the same
      elements: order and repetition do not matter. */
  lemma NewDependsOnlyOnElements(xs: seq<U8>, ys: seq<U8>)
    requires New(xs).Ok? && New(ys).Ok?
    ensures New(xs) == New(ys) <==> (forall v :: v in xs <==> v in ys)
  {
    var a, b := New(xs).value, New(ys).value;
    if forall v :: v in xs <==> v in ys {
      assert a.slots == b.slots;
    } else {
      var v :| !(v in xs <==> v in ys);
      assert 0 <= v < Slots;
      assert a.slots[v] != b.slots[v];
    }
  }

  /** Rule equality, which decides whether a rule edit reseeds the
      simulation, compares all four components. */
  lemma RuleEquality(r1: Rule, r2: Rule)
    ensures r1 == r2 <==> && r1.survival.slots == r2.survival.slots
                          && r1.birth.slots == r2.birth.slots
                          && r1.states == r2.states
                          && r1.neighborMethod == r2.neighborMethod
  {
  }
}
