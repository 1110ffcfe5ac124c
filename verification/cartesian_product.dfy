/**
 * `Product`: a cartesian-product generator over a list of pools. It keeps one
 * index per pool and advances them like an odometer — the rightmost index
 * first, carrying into the index on its left when one runs past its pool.
 * Pools are modelled as sequences, whose indices are `0 ..< count`.
 */
module CartesianProduct {
  import opened Wrappers

  /** The generator's state: one index per pool, the pools, and whether generation has finished. */
  datatype Product<T> = Product(indices: seq<nat>, pools: seq<seq<T>>, done: bool)

  /** `pools.reduce(true, { $0 && $1.count == 0 })`. */
  function EveryPoolEmpty<T>(pools: seq<seq<T>>): (b: bool)
    ensures b <==> forall i :: 0 <= i < |pools| ==> |pools[i]| == 0
  {
    if |pools| == 0 then true
    else EveryPoolEmpty(pools[..|pools| - 1]) && |pools[|pools| - 1]| == 0
  }

  /** `init(_:)`: every index at the start of its pool; finished at once exactly when every pool is empty. */
  function Init<T>(pools: seq<seq<T>>): (p: Product<T>)
    ensures p.pools == pools && |p.indices| == |pools|
    ensures forall i :: 0 <= i < |pools| ==> p.indices[i] == 0
    ensures p.done <==> forall i :: 0 <= i < |pools| ==> |pools[i]| == 0
  {
    Product(seq(|pools|, _ => 0), pools, EveryPoolEmpty(pools))
  }

  /** `init(repeating:count:)`: the generator over `count` copies of one collection; a negative count is refused. */
  function InitRepeating<T>(collection: seq<T>, count: int): (p: Product<T>)
    requires count >= 0
    ensures |p.pools| == count && forall i :: 0 <= i < count ==> p.pools[i] == collection
    ensures |p.indices| == count && forall i :: 0 <= i < count ==> p.indices[i] == 0
    ensures p.done <==> count == 0 || |collection| == 0
  {
    Init(seq(count, _ => collection))
  }

  /**
   * `incrementLocationInPool(poolIndex:)`: advances the index at `poolIndex`;
   * one that reaches the end of its pool goes back to the start and the carry
   * moves to the pool on the left. A position outside the pools ends the
   * generation.
   */
  function IncrementLocation<T>(p: Product<T>, poolIndex: int): (q: Product<T>)
    requires |p.indices| == |p.pools|
    ensures q.pools == p.pools && |q.indices| == |p.indices|
    ensures forall i :: 0 <= i < |p.indices| && poolIndex < i ==> q.indices[i] == p.indices[i]
    ensures p.done ==> q.done
    decreases if poolIndex < 0 then 0 else poolIndex + 1
  {
    if !(0 <= poolIndex < |p.pools|) then p.(done := true)
    else
      var index := p.indices[poolIndex] + 1;
      if index == |p.pools[poolIndex]| then
        IncrementLocation(p.(indices := p.indices[poolIndex := 0]), poolIndex - 1)
      else
        p.(indices := p.indices[poolIndex := index])
  }

  /** What `next()` does: hand out an element and move on, report the end, or trap on an index outside its pool. */
  datatype Step<T> = Trap | Yield(element: Option<seq<T>>, state: Product<T>)

  /** Every index names an element of its pool. */
  predicate InPools<T>(indices: seq<nat>, pools: seq<seq<T>>) {
    |indices| == |pools| && forall i :: 0 <= i < |pools| ==> indices[i] < |pools[i]|
  }

  /** The element of each pool that `indices` points at. */
  function Tuple<T>(indices: seq<nat>, pools: seq<seq<T>>): (e: seq<T>)
    requires InPools(indices, pools)
    ensures |e| == |pools|
  {
    seq(|pools|, i requires 0 <= i < |pools| => pools[i][indices[i]])
  }

  /**
   * `next()`: nothing and no change once finished; otherwise the element of
   * each pool at its index, and the odometer moved on from the rightmost pool.
   */
  function Next<T>(p: Product<T>): (r: Step<T>)
    ensures p.done ==> r == Yield(None, p)
    ensures !p.done ==> (r.Trap? <==> !InPools(p.indices, p.pools))
    ensures r.Yield? && !p.done ==>
      && r.element == Some(Tuple(p.indices, p.pools))
      && r.state.pools == p.pools
  {
    if p.done then Yield(None, p)
    else if !InPools(p.indices, p.pools) then Trap
    else Yield(Some(Tuple(p.indices, p.pools)), IncrementLocation(p, |p.pools| - 1))
  }

  // The odometer as a number

  /** The pool sizes. */
  function Sizes<T>(pools: seq<seq<T>>): (s: seq<nat>)
    ensures |s| == |pools| && forall i :: 0 <= i < |pools| ==> s[i] == |pools[i]|
  {
    seq(|pools|, i requires 0 <= i < |pools| => |pools[i]|)
  }

  /** The first `m` indices read as a mixed-radix number, the leftmost digit most significant. */
  function RankTo(indices: seq<nat>, sizes: seq<nat>, m: nat): int
    requires m <= |indices| && m <= |sizes|
  {
    if m == 0 then 0 else RankTo(indices, sizes, m - 1) * sizes[m - 1] + indices[m - 1]
  }

  /** The product of the first `m` sizes. */
  function TotalTo(sizes: seq<nat>, m: nat): int
    requires m <= |sizes|
  {
    if m == 0 then 1 else TotalTo(sizes, m - 1) * sizes[m - 1]
  }

  lemma MulLe(a: int, b: int, s: int)
    requires a <= b && 0 <= s
    ensures a * s <= b * s
  {
    assert b * s - a * s == (b - a) * s;
  }

  /** The mixed-radix number of indices inside their pools lies in `0 ..< TotalTo`. */
  lemma {:induction false} RankInRange(indices: seq<nat>, sizes: seq<nat>, m: nat)
    requires m <= |indices| && m <= |sizes|
    requires forall i :: 0 <= i < m ==> indices[i] < sizes[i]
    ensures 0 <= RankTo(indices, sizes, m) < TotalTo(sizes, m)
  {
    if 0 < m {
      RankInRange(indices, sizes, m - 1);
      var r := RankTo(indices, sizes, m - 1);
      var t := TotalTo(sizes, m - 1);
      MulLe(r + 1, t, sizes[m - 1]);
      assert 0 <= r * sizes[m - 1];
    }
  }

  /** Only the first `m` indices count. */
  lemma {:induction false} RankPrefix(a: seq<nat>, b: seq<nat>, sizes: seq<nat>, m: nat)
    requires m <= |a| && m <= |b| && m <= |sizes|
    requires forall i :: 0 <= i < m ==> a[i] == b[i]
    ensures RankTo(a, sizes, m) == RankTo(b, sizes, m)
  {
    if 0 < m {
      RankPrefix(a, b, sizes, m - 1);
    }
  }

  /**
   * One increment at `pos` adds one to the number the indices up to `pos`
   * form — unless that number was already the largest, in which case every
   * one of those indices is back at the start and the generation is over.
   * Indices right of `pos` are left alone and every index stays in its pool.
   */
  lemma {:induction false} IncrementCounts<T>(p: Product<T>, pos: int, q: Product<T>)
    requires InPools(p.indices, p.pools) && -1 <= pos < |p.pools|
    requires q == IncrementLocation(p, pos)
    ensures InPools(q.indices, q.pools)
    ensures RankTo(p.indices, Sizes(p.pools), pos + 1) + 1 == TotalTo(Sizes(p.pools), pos + 1) ==>
      q.done && RankTo(q.indices, Sizes(p.pools), pos + 1) == 0
    ensures RankTo(p.indices, Sizes(p.pools), pos + 1) + 1 != TotalTo(Sizes(p.pools), pos + 1) ==>
      q.done == p.done && RankTo(q.indices, Sizes(p.pools), pos + 1) == RankTo(p.indices, Sizes(p.pools), pos + 1) + 1
    decreases pos + 1, 1
  {
    if 0 <= pos {
      RankInRange(p.indices, Sizes(p.pools), pos);
      if p.indices[pos] + 1 == |p.pools[pos]| {
        IncrementCarries(p, pos, q);
      } else {
        IncrementStays(p, pos, q);
      }
    }
  }

  /** `IncrementCounts` when the index at `pos` runs past its pool and carries to the left. */
  lemma {:induction false} IncrementCarries<T>(p: Product<T>, pos: nat, q: Product<T>)
    requires InPools(p.indices, p.pools) && pos < |p.pools|
    requires p.indices[pos] + 1 == |p.pools[pos]|
    requires 0 <= RankTo(p.indices, Sizes(p.pools), pos) < TotalTo(Sizes(p.pools), pos)
    requires q == IncrementLocation(p, pos)
    ensures InPools(q.indices, q.pools)
    ensures RankTo(p.indices, Sizes(p.pools), pos + 1) + 1 == TotalTo(Sizes(p.pools), pos + 1) ==>
      q.done && RankTo(q.indices, Sizes(p.pools), pos + 1) == 0
    ensures RankTo(p.indices, Sizes(p.pools), pos + 1) + 1 != TotalTo(Sizes(p.pools), pos + 1) ==>
      q.done == p.done && RankTo(q.indices, Sizes(p.pools), pos + 1) == RankTo(p.indices, Sizes(p.pools), pos + 1) + 1
    decreases pos + 1, 0
  {
    var sizes := Sizes(p.pools);
    var p1 := p.(indices := p.indices[pos := 0]);
    RankPrefix(p.indices, p1.indices, sizes, pos);
    IncrementCounts(p1, pos - 1, q);
    assert q.indices[pos] == 0;
    CarryArithmetic(RankTo(p.indices, sizes, pos), TotalTo(sizes, pos), sizes[pos],
      RankTo(q.indices, sizes, pos), q.done, p.done);
  }

  /** `IncrementCounts` when the index at `pos` stays inside its pool. */
  lemma IncrementStays<T>(p: Product<T>, pos: nat, q: Product<T>)
    requires InPools(p.indices, p.pools) && pos < |p.pools|
    requires p.indices[pos] + 1 != |p.pools[pos]|
    requires 0 <= RankTo(p.indices, Sizes(p.pools), pos) < TotalTo(Sizes(p.pools), pos)
    requires q == IncrementLocation(p, pos)
    ensures InPools(q.indices, q.pools)
    ensures RankTo(p.indices, Sizes(p.pools), pos + 1) + 1 != TotalTo(Sizes(p.pools), pos + 1)
    ensures q.done == p.done
    ensures RankTo(q.indices, Sizes(p.pools), pos + 1) == RankTo(p.indices, Sizes(p.pools), pos + 1) + 1
  {
    var sizes := Sizes(p.pools);
    var x := p.indices[pos];
    var s := sizes[pos];
    var r := RankTo(p.indices, sizes, pos);
    var t := TotalTo(sizes, pos);
    assert RankTo(p.indices, sizes, pos + 1) == r * s + x;
    assert TotalTo(sizes, pos + 1) == t * s;
    RankPrefix(p.indices, q.indices, sizes, pos);
    assert RankTo(q.indices, sizes, pos + 1) == r * s + x + 1;
    NoCarryArithmetic(r, t, s, x);
  }

  /** The carry case of `IncrementCounts`, on the numbers alone: `rq` is the rank left of `pos` after the carry. */
  lemma CarryArithmetic(r: int, t: int, s: int, rq: int, qDone: bool, pDone: bool)
    requires 0 <= r < t && 0 < s
    requires r + 1 == t ==> qDone && rq == 0
    requires r + 1 != t ==> qDone == pDone && rq == r + 1
    ensures r * s + (s - 1) + 1 == t * s ==> qDone && rq * s == 0
    ensures r * s + (s - 1) + 1 != t * s ==> qDone == pDone && rq * s == r * s + (s - 1) + 1
  {
    if r + 1 != t {
      MulLe(r + 2, t, s);
      assert (r + 1) * s == r * s + s;
    }
  }

  lemma NoCarryArithmetic(r: int, t: int, s: int, x: int)
    requires 0 <= r < t && 0 <= x && x + 1 < s
    ensures r * s + x + 1 != t * s
  {
    MulLe(r + 1, t, s);
  }

  /**
   * The odometer picture of one increment that does not end the generation:
   * some position `k` at or left of `pos` goes up by one, the positions
   * between it and `pos` go back to the start, and those left of it stay.
   */
  lemma {:induction false} IncrementOdometer<T>(p: Product<T>, pos: int, q: Product<T>)
    requires InPools(p.indices, p.pools) && -1 <= pos < |p.pools|
    requires q == IncrementLocation(p, pos) && !q.done
    ensures exists k :: 0 <= k <= pos && Advanced(p.indices, q.indices, k, pos)
    decreases pos + 1
  {
    if 0 <= pos {
      if p.indices[pos] + 1 == |p.pools[pos]| {
        var p1 := p.(indices := p.indices[pos := 0]);
        IncrementOdometer(p1, pos - 1, q);
        var k :| 0 <= k <= pos - 1 && Advanced(p1.indices, q.indices, k, pos - 1);
        assert Advanced(p.indices, q.indices, k, pos);
      } else {
        assert Advanced(p.indices, q.indices, pos, pos);
      }
    }
  }

  /** `after` is `before` with position `k` one up, positions `k+1 ..= pos` at the start, and the rest unchanged. */
  ghost predicate Advanced(before: seq<nat>, after: seq<nat>, k: int, pos: int) {
    && |after| == |before| && 0 <= k <= pos < |before|
    && after[k] == before[k] + 1
    && (forall i :: 0 <= i < k ==> after[i] == before[i])
    && (forall i :: k < i <= pos ==> after[i] == 0)
    && (forall i :: pos < i < |before| ==> after[i] == before[i])
  }

  /** Strict lexicographic order on index tuples of one length. */
  ghost predicate LexLess(a: seq<nat>, b: seq<nat>) {
    |a| == |b| && exists k :: 0 <= k < |a| && a[..k] == b[..k] && a[k] < b[k]
  }

  lemma AdvancedIsLexLess(a: seq<nat>, b: seq<nat>, k: int, pos: int)
    requires Advanced(a, b, k, pos)
    ensures LexLess(a, b)
  {
    assert a[..k] == b[..k];
  }

  // Whole runs

  /** The states `next()` can safely be called in: indices inside the pools until the generation is over. */
  ghost predicate Valid<T>(p: Product<T>) {
    |p.indices| == |p.pools| && (!p.done ==> InPools(p.indices, p.pools))
  }

  /** How many more elements the generator hands out. */
  function Remaining<T>(p: Product<T>): int
    requires |p.indices| == |p.pools|
  {
    if p.done then 0 else TotalTo(Sizes(p.pools), |p.pools|) - RankTo(p.indices, Sizes(p.pools), |p.pools|)
  }

  /**
   * One `next()` from a valid state that is not finished: it hands out the
   * element at the current indices and leaves a valid state with one element
   * fewer to go, whose indices come later in lexicographic order.
   */
  lemma NextAdvances<T>(p: Product<T>)
    requires Valid(p) && !p.done
    ensures Next(p).Yield? && Next(p).element.Some?
    ensures Valid(Next(p).state) && Next(p).state.pools == p.pools
    ensures 0 < Remaining(p) && Remaining(Next(p).state) == Remaining(p) - 1
    ensures !Next(p).state.done ==> LexLess(p.indices, Next(p).state.indices)
  {
    var q := IncrementLocation(p, |p.pools| - 1);
    assert Next(p) == Yield(Some(Tuple(p.indices, p.pools)), q);
    IncrementCounts(p, |p.pools| - 1, q);
    RankInRange(p.indices, Sizes(p.pools), |p.pools|);
    RemainingStep(TotalTo(Sizes(p.pools), |p.pools|), RankTo(p.indices, Sizes(p.pools), |p.pools|),
      RankTo(q.indices, Sizes(p.pools), |p.pools|), q.done, Remaining(q));
    if !q.done {
      IncrementOdometer(p, |p.pools| - 1, q);
      var k :| 0 <= k <= |p.pools| - 1 && Advanced(p.indices, q.indices, k, |p.pools| - 1);
      AdvancedIsLexLess(p.indices, q.indices, k, |p.pools| - 1);
    }
  }

  /** The count in `NextAdvances`, on the numbers alone. */
  lemma RemainingStep(total: int, rank: int, next: int, done: bool, remaining: int)
    requires 0 <= rank < total
    requires rank + 1 == total ==> done
    requires rank + 1 != total ==> !done && next == rank + 1
    requires remaining == if done then 0 else total - next
    ensures remaining == total - rank - 1
  {
  }

  /** One element handed out, with the indices it was read at. */
  datatype Output<T> = Output(at: seq<nat>, element: seq<T>)

  /**
   * Everything the generator hands out from `p` on, calling `next()` until it
   * reports the end: as many outputs as `Remaining` says, each the tuple its
   * indices point at, in strictly increasing lexicographic order of indices.
   */
  function Run<T>(p: Product<T>): (out: seq<Output<T>>)
    requires Valid(p)
    ensures |out| == Remaining(p)
    ensures forall k :: 0 <= k < |out| ==> InPools(out[k].at, p.pools) && out[k].element == Tuple(out[k].at, p.pools)
    ensures 0 < |out| ==> out[0].at == p.indices
    ensures forall k :: 0 <= k < |out| - 1 ==> LexLess(out[k].at, out[k + 1].at)
    decreases Remaining(p)
  {
    if p.done then []
    else
      NextAdvances(p);
      var step := Next(p);
      [Output(p.indices, step.element.value)] + Run(step.state)
  }

  /**
   * From `init`, pools that are all non-empty yield exactly the product of
   * their sizes many elements.
   */
  lemma RunLength<T>(pools: seq<seq<T>>)
    requires 0 < |pools| && forall i :: 0 <= i < |pools| ==> 0 < |pools[i]|
    ensures |Run(Init(pools))| == TotalTo(Sizes(pools), |pools|)
  {
    var p := Init(pools);
    RankPrefix(p.indices, seq(|pools|, _ => 0), Sizes(pools), |pools|);
    RankOfStart(|pools|, Sizes(pools));
  }

  lemma {:induction false} RankOfStart(m: nat, sizes: seq<nat>)
    requires m <= |sizes|
    ensures RankTo(seq(|sizes|, _ => 0), sizes, m) == 0
  {
    if 0 < m {
      RankOfStart(m - 1, sizes);
    }
  }

  // The corrected initialiser

  /**
   * `init` as evidently intended: the product is empty, so generation is
   * over at once, when there are no pools or any one pool is empty.
   */
  function InitGuarded<T>(pools: seq<seq<T>>): (p: Product<T>)
    ensures p.pools == pools && |p.indices| == |pools|
    ensures forall i :: 0 <= i < |pools| ==> p.indices[i] == 0
    ensures p.done <==> |pools| == 0 || exists i :: 0 <= i < |pools| && |pools[i]| == 0
    ensures Valid(p)
  {
    var done := |pools| == 0 || exists i :: 0 <= i < |pools| && |pools[i]| == 0;
    Product(seq(|pools|, _ => 0), pools, done)
  }

  /** The corrected initialiser never traps: its run has exactly the product of the pool sizes many elements. */
  lemma GuardedRunLength<T>(pools: seq<seq<T>>)
    ensures |Run(InitGuarded(pools))| == if |pools| == 0 then 0 else TotalTo(Sizes(pools), |pools|)
  {
    if 0 < |pools| {
      if exists i :: 0 <= i < |pools| && |pools[i]| == 0 {
        var i :| 0 <= i < |pools| && |pools[i]| == 0;
        ZeroSizeZeroTotal(Sizes(pools), |pools|, i);
      } else {
        assert InitGuarded(pools) == Init(pools);
        RunLength(pools);
      }
    }
  }

  lemma {:induction false} ZeroSizeZeroTotal(sizes: seq<nat>, m: nat, i: nat)
    requires i < m <= |sizes| && sizes[i] == 0
    ensures TotalTo(sizes, m) == 0
  {
    if i < m - 1 {
      ZeroSizeZeroTotal(sizes, m - 1, i);
    }
  }

  /**
   * The initialiser as written, with an empty pool beside a non-empty one:
   * it does not report the end, and the first `next()` reads the empty pool.
   */
  lemma MixedPoolsTrap<T>(pools: seq<seq<T>>, e: nat, f: nat)
    requires e < |pools| && f < |pools| && |pools[e]| == 0 && 0 < |pools[f]|
    ensures !Init(pools).done
    ensures Next(Init(pools)) == Trap
  {
  }
}
