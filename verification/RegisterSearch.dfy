/** The search for the most registers per thread that still allow a number of blocks per core. */
module RegisterSearch {
  import opened Varint
  import opened Occupancy

  // ----- The search -----

  /** What an int holds after it is given a 64-bit number. */
  function ToInt32(v: nat): (r: int)
    ensures -0x8000_0000 <= r < 0x8000_0000
    ensures v < 0x8000_0000 ==> r == v
  {
    var low := v % 0x1_0000_0000;
    if low < 0x8000_0000 then low else low - 0x1_0000_0000
  }

  /** The search from r down, in steps that skip to the next multiple of `step`. */
  function SearchFrom(dev: Device, smem: U64, dims: ThreadDim, target: U64, step: int, r: int): Outcome
    requires -0x8000_0000 <= step < 0x8000_0000 && r < 0x8000_0000
    decreases r
  {
    if r <= 0 then Number(0)
    else
      var occupancy := CalculateOccupancy(dev, r, smem, dims);
      if occupancy.DividesByZero? then occupancy
      else if occupancy.value >= target then Number(r)
      else if step == 0 then DividesByZero
      else SearchFrom(dev, smem, dims, target, step, RoundDown(r - 1, step % TWO64))
  }

  function RegisterLimit(dev: Device, smem: U64, dims: ThreadDim, target: U64): Outcome {
    if dev.threadsPerWarp == 0 then DividesByZero
    else SearchFrom(dev, smem, dims, target, ToInt32(dev.registerAllocGranularity / dev.threadsPerWarp),
                    ToInt32(dev.registersPerThreadLimit))
  }

  /** CalculateRegisterLimitForTargetOccupancy. */
  method CalculateRegisterLimit(dev: Device, smem: U64, dims: ThreadDim, target: U64) returns (res: Outcome)
    ensures res == RegisterLimit(dev, smem, dims, target)
  {
    if dev.threadsPerWarp == 0 {
      return DividesByZero;
    }
    var step := ToInt32(dev.registerAllocGranularity / dev.threadsPerWarp);
    var r := ToInt32(dev.registersPerThreadLimit);
    while r > 0
      invariant r < 0x8000_0000
      invariant SearchFrom(dev, smem, dims, target, step, r) == RegisterLimit(dev, smem, dims, target)
    {
      var occupancy := CalculateOccupancy(dev, r, smem, dims);
      if occupancy.DividesByZero? {
        return DividesByZero;
      }
      if occupancy.value >= target {
        return Number(r);
      }
      if step == 0 {
        return DividesByZero;
      }
      r := RoundDown(r - 1, step % TWO64);
    }
    res := Number(0);
  }

  // ----- What it is for -----

  predicate Meets(dev: Device, smem: U64, dims: ThreadDim, target: U64, r: U64) {
    var occupancy := CalculateOccupancy(dev, r, smem, dims);
    occupancy.Number? && occupancy.value >= target
  }

  /** The result is the greatest number of registers that meets the target, or 0 if none does. */
  ghost predicate Greatest(dev: Device, smem: U64, dims: ThreadDim, target: U64, res: Outcome) {
    && res.Number? && res.value <= dev.registersPerThreadLimit
    && (res.value > 0 ==> Meets(dev, smem, dims, target, res.value))
    && NoneAbove(dev, smem, dims, target, res.value)
  }

  ghost predicate NoneAbove(dev: Device, smem: U64, dims: ThreadDim, target: U64, r: nat) {
    forall s: U64 :: r < s <= dev.registersPerThreadLimit ==> !Meets(dev, smem, dims, target, s)
  }

  /** There is something to launch, the limit is an int, and no number of the calculation overflows, even at the limit. */
  predicate WellPosed(dev: Device, smem: U64, dims: ThreadDim) {
    && Initialized(dev) && 0 < dev.registersPerThreadLimit < 0x8000_0000 && Threads(dims) < TWO64
    && dev.threadsPerWarp * dev.registersPerThreadLimit < TWO64
    && InRange(dev, dev.threadsPerWarp * dev.registersPerThreadLimit, smem, Threads(dims))
  }

  lemma InRangeBelow(dev: Device, smem: U64, dims: ThreadDim, r: U64, wr: nat)
    requires WellPosed(dev, smem, dims) && 0 < r <= dev.registersPerThreadLimit && wr == dev.threadsPerWarp * r
    ensures 0 < wr < TWO64 && InRange(dev, wr, smem, Threads(dims))
  {
    TimesMono(dev.threadsPerWarp, r, dev.threadsPerWarp, dev.registersPerThreadLimit);
    MulPositive(dev.threadsPerWarp, r);
    DemandMono(dev, wr, smem, Threads(dims), dev.threadsPerWarp * dev.registersPerThreadLimit, smem, Threads(dims));
  }

  lemma OccupancyNumber(dev: Device, smem: U64, dims: ThreadDim, r: U64, wr: nat)
    requires WellPosed(dev, smem, dims) && 0 < r <= dev.registersPerThreadLimit && wr == dev.threadsPerWarp * r
    ensures 0 < wr < TWO64 && UpTo(wr, dev.registerAllocGranularity) < TWO64 && Granular(dev)
    ensures CalculateOccupancy(dev, r, smem, dims) == BlocksPerCore(dev, wr, smem, Threads(dims))
    ensures CalculateOccupancy(dev, r, smem, dims).Number?
  {
    InRangeBelow(dev, smem, dims, r, wr);
    OccupancyIs(dev, r, smem, dims, wr, Threads(dims));
    BlocksExact(dev, wr, smem, Threads(dims), 0);
  }

  /** The calculation depends on the registers of a warp only through the number that it is given. */
  lemma SameBlocks(dev: Device, wr: U64, ws: U64, smem: U64, threads: U64)
    requires Granular(dev) && UpTo(wr, dev.registerAllocGranularity) == UpTo(ws, dev.registerAllocGranularity) < TWO64
    ensures BlocksPerCore(dev, wr, smem, threads) == BlocksPerCore(dev, ws, smem, threads)
  {
    RoundUpInRange(wr, dev.registerAllocGranularity);
    RoundUpInRange(ws, dev.registerAllocGranularity);
  }

  /** Two numbers of registers for which a warp is given as many have the same occupancy. */
  lemma SameAllocation(dev: Device, smem: U64, dims: ThreadDim, r: U64, s: U64, wr: nat, ws: nat)
    requires WellPosed(dev, smem, dims) && 0 < r <= dev.registersPerThreadLimit && 0 < s <= dev.registersPerThreadLimit
    requires wr == dev.threadsPerWarp * r && ws == dev.threadsPerWarp * s
    requires UpTo(wr, dev.registerAllocGranularity) == UpTo(ws, dev.registerAllocGranularity)
    ensures CalculateOccupancy(dev, r, smem, dims) == CalculateOccupancy(dev, s, smem, dims)
  {
    OccupancyNumber(dev, smem, dims, r, wr);
    OccupancyNumber(dev, smem, dims, s, ws);
    SameBlocks(dev, wr, ws, smem, Threads(dims));
  }

  // ----- Which warps and granularities lose nothing -----

  /** Whether the search is exact, for a granularity of `step` registers for each thread of a warp and `rem` more. The
      step may be taken for zero, for a negative number or for a smaller one. If it is taken as it is, then
      CeilOfRatio(w, rem) is the number of steps that lose a whole register of each thread. */
  predicate Kept(w: nat, g: nat, step: nat, rem: nat)
    requires 0 < g
  {
    if step == 0 then UpTo(w, g) >= TWO64
    else if step >= 0x8000_0000 then step % 0x1_0000_0000 != 0
    else
      || rem == 0 || step == 1
      || CeilOfRatio(w, rem) * step + 2 >= 0x8000_0000
      || (CeilOfRatio(w, rem) + 1) * g >= TWO64
  }

  /** No search on such a device can be in range, or each is exact. */
  predicate Lossless(w: U64, g: U64) {
    w == 0 || g == 0 || w == UNINITIALIZED || g == UNINITIALIZED || Kept(w, g, g / w, g % w)
  }

  // ----- One test for each step is enough -----

  lemma ProductOrder(w: nat, a: nat, b: nat)
    requires w * a < w * b
    ensures a < b
  {
    assert a >= b ==> w * a >= w * b;
  }

  lemma Distribute(w: nat, g: nat, step: nat, rem: nat, j: nat)
    requires g == step * w + rem
    ensures j * g == w * (j * step) + j * rem
  {
    assert j * (step * w + rem) == j * (step * w) + j * rem;
    assert w * (j * step) == j * (step * w);
  }

  lemma CeilWithin(a: nat, n: nat, k: nat)
    requires n > 0 && a <= k * n
    ensures CeilOfRatio(a, n) <= k && UpTo(a, n) <= k * n
  {
    CeilTimes(a, n);
    MultipleOrder(CeilOfRatio(a, n), k, n);
  }

  lemma CeilBeyond(a: nat, n: nat, k: nat)
    requires n > 0 && k * n < a
    ensures k * n + n <= UpTo(a, n)
  {
    CeilTimes(a, n);
    var c := CeilOfRatio(a, n);
    assert c <= k ==> c * n <= k * n;
    TimesMono(k + 1, n, if c <= k then k + 1 else c, n);
    assert (k + 1) * n == k * n + n;
  }

  /** If a step separates s and r, with j granules enough for s, then the j steps to there have lost a warp. */
  lemma LossBefore(w: nat, g: nat, step: nat, rem: nat, q: nat, s: nat, r: nat, j: nat)
    requires g == step * w + rem && 0 < w && 1 < step && q * step < s <= r <= q * step + step
    requires w * s <= j * g < w * r
    ensures w <= j * rem && j * step + 2 <= r
  {
    var js, qs := j * step, q * step;
    Distribute(w, g, step, rem, j);
    assert j * rem >= 0;
    ProductOrder(w, js, r);
    MultipleOrder(j, q, step);
    TimesMono(w, js + 1, w, s);
    assert w * (js + 1) == w * js + w;
    ProductOrder(w, js + 1, r);
  }

  lemma LossReached(w: nat, step: nat, rem: nat, r: nat, j: nat, k: nat)
    requires 0 < rem && w <= j * rem && j * step + 2 <= r && k == CeilOfRatio(w, rem)
    ensures k <= j && k * step + 2 <= r
  {
    CeilWithin(w, rem, j);
    TimesMono(k, step, j, step);
  }

  lemma GranulesReached(g: nat, wr: nat, j: nat, k: nat)
    requires 0 < g && k <= j && j * g < wr
    ensures (k + 1) * g <= UpTo(wr, g)
  {
    CeilBeyond(wr, g, j);
    TimesMono(k, g, j, g);
    assert (k + 1) * g == k * g + g;
  }

  /** Within one step, a warp is given the same number of registers, or a warp was lost before. */
  lemma SameStep(w: nat, g: nat, step: nat, rem: nat, q: nat, s: nat, r: nat, ws: nat, wr: nat)
    requires g == step * w + rem && rem < w && 1 < step && q * step < s <= r <= q * step + step
    requires ws == w * s && wr == w * r && 0 < g
    ensures UpTo(ws, g) == UpTo(wr, g) ||
            (0 < rem && CeilOfRatio(w, rem) * step + 2 <= r && (CeilOfRatio(w, rem) + 1) * g <= UpTo(wr, g))
  {
    var j := CeilOfRatio(ws, g);
    CeilTimes(ws, g);
    TimesMono(w, s, w, r);
    CeilMono(ws, wr, g);
    if wr <= j * g {
      CeilWithin(wr, g, j);
    } else {
      LossBefore(w, g, step, rem, q, s, r, j);
      RemPositive(w, rem, j);
      LossReached(w, step, rem, r, j, CeilOfRatio(w, rem));
      GranulesReached(g, wr, j, CeilOfRatio(w, rem));
    }
  }

  lemma RemPositive(w: nat, rem: nat, j: nat)
    requires 0 < w <= j * rem
    ensures 0 < rem
  {
    assert rem == 0 ==> j * rem == 0;
  }

  lemma StepFacts(w: nat, g: nat)
    requires 0 < w
    ensures g == g / w * w + g % w && g % w < w
    ensures w <= g ==> 0 < g / w
  {
    DivideFacts(g, w);
  }

  /** The step and what it leaves out, for a device on which nothing is lost. */
  ghost predicate KeptOn(dev: Device, step: nat, rem: nat) {
    && 0 < dev.registerAllocGranularity == step * dev.threadsPerWarp + rem && rem < dev.threadsPerWarp
    && 0 < step < 0x8000_0000 && Kept(dev.threadsPerWarp, dev.registerAllocGranularity, step, rem)
  }

  /** One turn of the search rules out every number down to the next one it looks at. */
  lemma SkipIsSafe(dev: Device, smem: U64, dims: ThreadDim, target: U64, step: nat, rem: nat, r: nat, s: U64)
    requires WellPosed(dev, smem, dims) && 0 < r <= dev.registersPerThreadLimit && !Meets(dev, smem, dims, target, r)
    requires KeptOn(dev, step, rem) && RoundDown(r - 1, step) < s <= r
    ensures !Meets(dev, smem, dims, target, s)
  {
    if s < r {
      var q := StepOf(r, step, s);
      AlikeWithin(dev, smem, dims, step, rem, q, r, s, dev.threadsPerWarp * r, dev.threadsPerWarp * s);
    }
  }

  lemma StepOf(r: nat, step: nat, s: nat) returns (q: nat)
    requires 0 < r && 0 < step && RoundDown(r - 1, step) < s < r
    ensures 1 < step && q * step < s && r <= q * step + step
  {
    q := (r - 1) / step;
    FloorFacts(r - 1, step);
  }

  lemma AlikeWithin(dev: Device, smem: U64, dims: ThreadDim, step: nat, rem: nat, q: nat, r: U64, s: U64, wr: nat, ws: nat)
    requires WellPosed(dev, smem, dims) && 0 < s <= r <= dev.registersPerThreadLimit && KeptOn(dev, step, rem)
    requires 1 < step && q * step < s && r <= q * step + step
    requires wr == dev.threadsPerWarp * r && ws == dev.threadsPerWarp * s
    ensures CalculateOccupancy(dev, r, smem, dims) == CalculateOccupancy(dev, s, smem, dims)
  {
    AtMostLimit(dev, smem, dims, r, wr);
    SameGiven(dev.threadsPerWarp, dev.registerAllocGranularity, step, rem, q, s, r, ws, wr);
    SameAllocation(dev, smem, dims, r, s, wr, ws);
  }

  lemma SameGiven(w: nat, g: nat, step: nat, rem: nat, q: nat, s: nat, r: nat, ws: nat, wr: nat)
    requires g == step * w + rem && rem < w && 1 < step < 0x8000_0000 && q * step < s <= r <= q * step + step
    requires ws == w * s && wr == w * r && 0 < g && Kept(w, g, step, rem) && r < 0x8000_0000 && UpTo(wr, g) < TWO64
    ensures UpTo(ws, g) == UpTo(wr, g)
  {
    SameStep(w, g, step, rem, q, s, r, ws, wr);
    NothingLost(w, g, step, rem, r, wr, ws);
  }

  lemma AtMostLimit(dev: Device, smem: U64, dims: ThreadDim, r: nat, wr: nat)
    requires WellPosed(dev, smem, dims) && 0 < r <= dev.registersPerThreadLimit && wr == dev.threadsPerWarp * r
    ensures 0 < dev.threadsPerWarp && 0 < dev.registerAllocGranularity && UpTo(wr, dev.registerAllocGranularity) < TWO64
  {
    InRangeBelow(dev, smem, dims, r, wr);
  }

  lemma NothingLost(w: nat, g: nat, step: nat, rem: nat, r: nat, wr: nat, ws: nat)
    requires 0 < g && Kept(w, g, step, rem) && 1 < step < 0x8000_0000 && r < 0x8000_0000 && UpTo(wr, g) < TWO64
    requires UpTo(ws, g) == UpTo(wr, g) ||
             (0 < rem && CeilOfRatio(w, rem) * step + 2 <= r && (CeilOfRatio(w, rem) + 1) * g <= UpTo(wr, g))
    ensures UpTo(ws, g) == UpTo(wr, g)
  {
  }

  lemma NoneSkipped(dev: Device, smem: U64, dims: ThreadDim, target: U64, step: nat, rem: nat, r: nat)
    requires WellPosed(dev, smem, dims) && 0 < r <= dev.registersPerThreadLimit && !Meets(dev, smem, dims, target, r)
    requires KeptOn(dev, step, rem) && NoneAbove(dev, smem, dims, target, r)
    ensures NoneAbove(dev, smem, dims, target, RoundDown(r - 1, step))
  {
    var next := RoundDown(r - 1, step);
    forall s: U64 | next < s <= dev.registersPerThreadLimit ensures !Meets(dev, smem, dims, target, s) {
      if s <= r {
        SkipIsSafe(dev, smem, dims, target, step, rem, r, s);
      }
    }
  }

  lemma SearchTurn(dev: Device, smem: U64, dims: ThreadDim, target: U64, step: nat, r: U64)
    requires 0 < step < 0x8000_0000 && 0 < r < 0x8000_0000 && CalculateOccupancy(dev, r, smem, dims).Number?
    ensures SearchFrom(dev, smem, dims, target, step, r) ==
            if Meets(dev, smem, dims, target, r) then Number(r)
            else SearchFrom(dev, smem, dims, target, step, RoundDown(r - 1, step))
  {
    assert step % TWO64 == step;
  }

  lemma {:induction false} SearchFinds(dev: Device, smem: U64, dims: ThreadDim, target: U64, step: nat, rem: nat, r: nat)
    requires WellPosed(dev, smem, dims) && r <= dev.registersPerThreadLimit
    requires KeptOn(dev, step, rem) && NoneAbove(dev, smem, dims, target, r)
    ensures Greatest(dev, smem, dims, target, SearchFrom(dev, smem, dims, target, step, r))
    decreases r
  {
    if r > 0 {
      OccupancyNumber(dev, smem, dims, r, dev.threadsPerWarp * r);
      SearchTurn(dev, smem, dims, target, step, r);
      if !Meets(dev, smem, dims, target, r) {
        NoneSkipped(dev, smem, dims, target, step, rem, r);
        SearchFinds(dev, smem, dims, target, step, rem, RoundDown(r - 1, step));
      }
    }
  }

  // ----- A granularity too large for the step to be an int -----

  /** Where no number meets the target, every search with a step that is not zero ends. */
  lemma {:induction false} SearchNone(dev: Device, smem: U64, dims: ThreadDim, target: U64, step: int, r: nat)
    requires WellPosed(dev, smem, dims) && r <= dev.registersPerThreadLimit
    requires -0x8000_0000 <= step < 0x8000_0000 && step != 0 && NoneAbove(dev, smem, dims, target, 0)
    ensures SearchFrom(dev, smem, dims, target, step, r) == Number(0)
    decreases r
  {
    if r > 0 {
      OccupancyNumber(dev, smem, dims, r, dev.threadsPerWarp * r);
      assert !Meets(dev, smem, dims, target, r);
      SearchOn(dev, smem, dims, target, step, r);
      SearchNone(dev, smem, dims, target, step, RoundDown(r - 1, step % TWO64));
    }
  }

  lemma SearchOn(dev: Device, smem: U64, dims: ThreadDim, target: U64, step: int, r: U64)
    requires -0x8000_0000 <= step < 0x8000_0000 && step != 0 && 0 < r < 0x8000_0000
    requires CalculateOccupancy(dev, r, smem, dims).Number? && !Meets(dev, smem, dims, target, r)
    ensures 0 < step % TWO64
    ensures SearchFrom(dev, smem, dims, target, step, r) ==
            SearchFrom(dev, smem, dims, target, step, RoundDown(r - 1, step % TWO64))
  {
  }

  /** Then every number of registers that a thread may have is given the same. */
  lemma OneGranule(w: nat, g: nat, r: nat, wr: nat)
    requires 0 < w && 0x8000_0000 <= g / w && 0 < r < 0x8000_0000 && wr == w * r
    ensures 0 < wr <= g && UpTo(wr, g) == g
  {
    DivideFacts(g, w);
    MulPositive(w, r);
    TimesMono(w, r, w, g / w);
    CeilWithin(wr, g, 1);
    CeilBeyond(wr, g, 0);
  }

  lemma AllAlike(dev: Device, smem: U64, dims: ThreadDim, target: U64, r: U64, s: U64)
    requires WellPosed(dev, smem, dims) && 0 < r <= dev.registersPerThreadLimit && 0 < s <= dev.registersPerThreadLimit
    requires 0 < dev.threadsPerWarp && 0x8000_0000 <= dev.registerAllocGranularity / dev.threadsPerWarp
    ensures Meets(dev, smem, dims, target, r) <==> Meets(dev, smem, dims, target, s)
  {
    var w, g := dev.threadsPerWarp, dev.registerAllocGranularity;
    OneGranule(w, g, r, w * r);
    OneGranule(w, g, s, w * s);
    SameAllocation(dev, smem, dims, r, s, w * r, w * s);
  }

  lemma LargeStepExact(dev: Device, smem: U64, dims: ThreadDim, target: U64, step: int)
    requires WellPosed(dev, smem, dims) && 0 < dev.threadsPerWarp
    requires 0x8000_0000 <= dev.registerAllocGranularity / dev.threadsPerWarp
    requires -0x8000_0000 <= step < 0x8000_0000 && step != 0
    ensures Greatest(dev, smem, dims, target, SearchFrom(dev, smem, dims, target, step, dev.registersPerThreadLimit))
  {
    var limit := dev.registersPerThreadLimit;
    OccupancyNumber(dev, smem, dims, limit, dev.threadsPerWarp * limit);
    if !Meets(dev, smem, dims, target, limit) {
      forall s: U64 | 0 < s <= limit ensures !Meets(dev, smem, dims, target, s) {
        AllAlike(dev, smem, dims, target, limit, s);
      }
      SearchNone(dev, smem, dims, target, step, limit);
    }
  }

  /** Without losses the search returns the greatest number of registers that meets the target. */
  lemma SearchExact(dev: Device, smem: U64, dims: ThreadDim, target: U64)
    requires WellPosed(dev, smem, dims) && Lossless(dev.threadsPerWarp, dev.registerAllocGranularity)
    ensures Greatest(dev, smem, dims, target, RegisterLimit(dev, smem, dims, target))
  {
    var step, rem := Steps(dev.threadsPerWarp, dev.registerAllocGranularity);
    SearchExactFor(dev, smem, dims, target, step, rem);
  }

  lemma Steps(w: U64, g: U64) returns (step: nat, rem: nat)
    requires Lossless(w, g) && 0 < w != UNINITIALIZED && 0 < g != UNINITIALIZED
    ensures step == g / w && g == step * w + rem && rem < w && Kept(w, g, step, rem)
  {
    step, rem := Divide(g, w);
  }

  lemma Divide(g: nat, w: nat) returns (step: nat, rem: nat)
    requires 0 < w
    ensures step == g / w && rem == g % w && g == step * w + rem && rem < w
  {
    step, rem := g / w, g % w;
  }

  lemma SearchExactFor(dev: Device, smem: U64, dims: ThreadDim, target: U64, step: nat, rem: nat)
    requires WellPosed(dev, smem, dims) && 0 < dev.threadsPerWarp && 0 < dev.registerAllocGranularity
    requires Kept(dev.threadsPerWarp, dev.registerAllocGranularity, step, rem) && rem < dev.threadsPerWarp
    requires step == dev.registerAllocGranularity / dev.threadsPerWarp
    requires dev.registerAllocGranularity == step * dev.threadsPerWarp + rem
    ensures Greatest(dev, smem, dims, target, RegisterLimit(dev, smem, dims, target))
  {
    var limit := dev.registersPerThreadLimit;
    StepsAtAll(dev, smem, dims, step, dev.threadsPerWarp * limit);
    if step < 0x8000_0000 {
      SearchFinds(dev, smem, dims, target, step, rem, limit);
    } else {
      LargeStepExact(dev, smem, dims, target, ToInt32(step));
    }
  }

  /** A device that is in range and loses nothing has a step. */
  lemma StepsAtAll(dev: Device, smem: U64, dims: ThreadDim, step: nat, wl: nat)
    requires WellPosed(dev, smem, dims) && wl == dev.threadsPerWarp * dev.registersPerThreadLimit
    requires step == 0 ==> 0 < dev.registerAllocGranularity && UpTo(dev.threadsPerWarp, dev.registerAllocGranularity) >= TWO64
    ensures step > 0
  {
    AtMostLimit(dev, smem, dims, dev.registersPerThreadLimit, wl);
    NoneInRange(dev.threadsPerWarp, dev.registerAllocGranularity, dev.registersPerThreadLimit, wl);
  }

  /** Where a warp of one register per thread is given too much, so is every other. */
  lemma NoneInRange(w: nat, g: nat, limit: nat, wl: nat)
    requires 0 < g && 0 < limit && wl == w * limit
    ensures UpTo(w, g) <= UpTo(wl, g)
  {
    TimesMono(w, 1, w, limit);
    CeilMono(w, wl, g);
  }

  // ----- All others fail -----

  /** A device with one warp of w threads to a block, of which one block may run. */
  function Small(w: U64, g: U64, limit: U64, registers: U64): Device {
    Device(limit, w, 1, g, registers, 0, 1, 1, w)
  }

  const ONE := ThreadDim(1, 1, 1)

  /** On it, one block fits exactly when the registers given to its warp are within the budget. */
  lemma SmallMeets(w: U64, g: U64, limit: U64, registers: U64, r: U64, wl: nat, wr: nat)
    requires 0 < w != UNINITIALIZED && 0 < g != UNINITIALIZED && registers != UNINITIALIZED
    requires 0 < r <= limit < 0x8000_0000 && wl == w * limit && wr == w * r && UpTo(wl, g) < TWO64
    ensures WellPosed(Small(w, g, limit, registers), 0, ONE)
    ensures CalculateOccupancy(Small(w, g, limit, registers), r, 0, ONE).Number?
    ensures Meets(Small(w, g, limit, registers), 0, ONE, 1, r) <==> UpTo(wr, g) <= registers
  {
    var dev := Small(w, g, limit, registers);
    TimesMono(w, r, w, limit);
    MulPositive(w, r);
    CeilMono(wr, wl, g);
    SmallInRange(w, g, limit, registers, wl);
    SmallInRange(w, g, limit, registers, wr);
    OccupancyExact(dev, r, 0, ONE, wr, 1, 1);
  }

  lemma SmallInRange(w: U64, g: U64, limit: U64, registers: U64, wr: nat)
    requires 0 < w && 0 < g && 0 < wr && UpTo(wr, g) < TWO64
    ensures var dev := Small(w, g, limit, registers);
            && InRange(dev, wr, 0, 1)
            && BlockRegisters(dev, wr, 1) == UpTo(wr, g) && BlockMemory(dev, 0) == 0 && BlockThreads(dev, 1) == w
  {
    CeilWithin(1, w, 1);
    CeilBeyond(1, w, 0);
    CeilTimes(1, w);
    assert UpTo(1, 1) == 1;
  }

  /** A step that is taken for zero: the search divides by it. */
  lemma ZeroStepFails(w: U64, g: U64, dev: Device, step: nat)
    requires 0 < w != UNINITIALIZED && 0 < g != UNINITIALIZED && UpTo(w, g) < TWO64
    requires step == g / w && ToInt32(step) == 0 && dev == Small(w, g, 1, 0)
    ensures WellPosed(dev, 0, ONE) && RegisterLimit(dev, 0, ONE, 1) == DividesByZero
  {
    SmallMeets(w, g, 1, 0, 1, w, w);
  }

  lemma LostCount(w: nat, rem: nat, k: nat)
    requires 0 < rem < w && k == CeilOfRatio(w, rem)
    ensures 0 < k && w <= k * rem < w + rem
  {
    CeilTimes(w, rem);
  }

  /** Where a step loses a fraction of a warp, after k steps the last register but one needs no further granule. */
  lemma LostRegister(w: nat, g: nat, step: nat, rem: nat, k: nat, ks: nat, kg: nat)
    requires step > 1 && 0 < rem < w && g == step * w + rem && k == CeilOfRatio(w, rem) && ks == k * step && kg == k * g
    ensures 0 < ks && w <= g
    ensures w * ks <= kg && w * (ks + 1) <= kg < w * (ks + 2) <= kg + g
  {
    LostCount(w, rem, k);
    Distribute(w, g, step, rem, k);
    MulPositive(k, step);
    TimesMono(1, w, step, w);
    assert w * (ks + 1) == w * ks + w;
    assert w * (ks + 2) == w * ks + 2 * w;
  }

  /** There, the search stops one register short. */
  lemma LostRegisterFails(w: U64, g: U64, step: nat, rem: nat, k: nat, ks: nat, kg: nat)
    requires w != UNINITIALIZED && g != UNINITIALIZED && 1 < step < 0x8000_0000 && 0 < rem < w
    requires step == g / w && g == step * w + rem && k == CeilOfRatio(w, rem) && ks == k * step && kg == k * g
    requires ks + 2 < 0x8000_0000 && kg + g < TWO64
    ensures var dev := Small(w, g, ks + 2, kg);
            && WellPosed(dev, 0, ONE)
            && RegisterLimit(dev, 0, ONE, 1) == Number(ks)
            && Meets(dev, 0, ONE, 1, ks + 1)
  {
    LostRegister(w, g, step, rem, k, ks, kg);
    GranulesLost(w, g, k, ks, kg);
    var dev, wl := Small(w, g, ks + 2, kg), w * (ks + 2);
    SmallMeets(w, g, ks + 2, kg, ks, wl, w * ks);
    SmallMeets(w, g, ks + 2, kg, ks + 1, wl, w * (ks + 1));
    SmallMeets(w, g, ks + 2, kg, ks + 2, wl, wl);
    NextTested(k, step, ks);
    SearchTurn(dev, 0, ONE, 1, step, ks + 2);
    SearchTurn(dev, 0, ONE, 1, step, ks);
  }

  lemma GranulesLost(w: nat, g: nat, k: nat, ks: nat, kg: nat)
    requires 0 < g && kg == k * g && w * ks <= kg && w * (ks + 1) <= kg < w * (ks + 2) <= kg + g
    ensures 0 <= w * ks && 0 <= w * (ks + 1)
    ensures UpTo(w * ks, g) <= kg && UpTo(w * (ks + 1), g) <= kg < UpTo(w * (ks + 2), g) <= kg + g
  {
    assert (k + 1) * g == kg + g;
    CeilWithin(w * ks, g, k);
    CeilWithin(w * (ks + 1), g, k);
    CeilWithin(w * (ks + 2), g, k + 1);
  }

  lemma NextTested(k: nat, step: nat, ks: nat)
    requires step > 1 && ks == k * step
    ensures RoundDown(ks + 2 - 1, step) == ks
  {
    var a := ks + 1;
    FloorFacts(a, step);
    MultipleOrder(a / step, k, step);
    MultipleOrder(k, a / step, step);
  }

  /** For these warps and granularities every search is exact. */
  ghost predicate AlwaysGreatest(w: U64, g: U64) {
    forall dev: Device, smem: U64, dims: ThreadDim, target: U64 ::
      dev.threadsPerWarp == w && dev.registerAllocGranularity == g && WellPosed(dev, smem, dims) ==>
        Greatest(dev, smem, dims, target, RegisterLimit(dev, smem, dims, target))
  }

  lemma LossyFails(w: U64, g: U64)
    requires !Lossless(w, g)
    ensures !AlwaysGreatest(w, g)
  {
    StepFacts(w, g);
    NotKeptFails(w, g, g / w, g % w);
  }

  lemma NotKeptFails(w: U64, g: U64, step: nat, rem: nat)
    requires 0 < w != UNINITIALIZED && 0 < g != UNINITIALIZED && !Kept(w, g, step, rem)
    requires step == g / w && g == step * w + rem && rem < w
    ensures !AlwaysGreatest(w, g)
  {
    if step == 0 || step >= 0x8000_0000 {
      if step > 0 {
        TimesMono(1, w, step, w);
        CeilWithin(w, g, 1);
      }
      ZeroStepInexact(w, g, step);
    } else {
      LostRegisterInexact(w, g, step, rem, CeilOfRatio(w, rem));
    }
  }

  lemma ZeroStepInexact(w: U64, g: U64, step: nat)
    requires 0 < w != UNINITIALIZED && 0 < g != UNINITIALIZED && UpTo(w, g) < TWO64
    requires step == g / w && step % 0x1_0000_0000 == 0
    ensures !AlwaysGreatest(w, g)
  {
    var dev := Small(w, g, 1, 0);
    ZeroStepFails(w, g, dev, step);
    assert !Greatest(dev, 0, ONE, 1, RegisterLimit(dev, 0, ONE, 1));
  }

  lemma LostRegisterInexact(w: U64, g: U64, step: nat, rem: nat, k: nat)
    requires 0 < w != UNINITIALIZED && g != UNINITIALIZED && 1 < step < 0x8000_0000 && 0 < rem < w
    requires step == g / w && g == step * w + rem && k == CeilOfRatio(w, rem)
    requires k * step + 2 < 0x8000_0000 && (k + 1) * g < TWO64
    ensures !AlwaysGreatest(w, g)
  {
    var ks, kg := k * step, k * g;
    assert (k + 1) * g == kg + g;
    LostRegisterFails(w, g, step, rem, k, ks, kg);
    var dev := Small(w, g, ks + 2, kg);
    assert !NoneAbove(dev, 0, ONE, 1, ks);
    assert !Greatest(dev, 0, ONE, 1, RegisterLimit(dev, 0, ONE, 1));
  }

  /** The search is exact for all devices of a warp size and granularity if and only if nothing is lost. */
  lemma SearchExactIff(w: U64, g: U64)
    ensures AlwaysGreatest(w, g) <==> Lossless(w, g)
  {
    if Lossless(w, g) {
      forall dev: Device, smem: U64, dims: ThreadDim, target: U64 |
        dev.threadsPerWarp == w && dev.registerAllocGranularity == g && WellPosed(dev, smem, dims)
        ensures Greatest(dev, smem, dims, target, RegisterLimit(dev, smem, dims, target))
      {
        SearchExact(dev, smem, dims, target);
      }
    } else {
      LossyFails(w, g);
    }
  }
}
