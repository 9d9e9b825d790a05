/** How many blocks fit on a core, and how many registers a thread may use for a given number of blocks. */
module Occupancy {
  import opened Varint

  type U64 = x: nat | x < TWO64

  const UNINITIALIZED: U64 := 0xffff_ffff_ffff_ffff

  datatype Device = Device(
    registersPerThreadLimit: U64,
    threadsPerWarp: U64,
    warpAllocGranularity: U64,
    registerAllocGranularity: U64,
    registersPerBlockLimit: U64,
    sharedMemoryPerCore: U64,
    blocksPerCoreLimit: U64,
    sharedMemoryAllocGranularity: U64,
    threadsPerCoreLimit: U64)

  datatype ThreadDim = ThreadDim(x: U64, y: U64, z: U64)

  /** What a calculation comes to: a number, or a division by zero. */
  datatype Outcome = Number(value: nat) | DividesByZero

  // ----- Rounding -----

  function CeilOfRatio(a: nat, b: nat): nat
    requires b > 0
  {
    var down := a / b;
    if a > down * b then down + 1 else down
  }

  function RoundUp(value: nat, n: nat): U64
    requires n > 0
  {
    CeilOfRatio(value, n) * n % TWO64
  }

  /** The least multiple of n that is not below the value. */
  function UpTo(value: nat, n: nat): (r: nat)
    requires n > 0
    ensures value <= r < value + n
  {
    if value % n == 0 then value else value - value % n + n
  }

  lemma CeilTimes(value: nat, n: nat)
    requires n > 0
    ensures CeilOfRatio(value, n) * n == UpTo(value, n)
    ensures value > 0 ==> CeilOfRatio(value, n) > 0
  {
    var q := value / n;
    DivideFacts(value, n);
    assert (q + 1) * n == q * n + n;
  }

  lemma DivideFacts(a: nat, b: nat)
    requires b > 0
    ensures a / b * b + a % b == a && a % b < b
  {
  }

  function RoundDown(value: nat, n: nat): (r: nat)
    requires n > 0
    ensures r <= value < r + n
  {
    FloorFacts(value, n);
    value / n * n
  }

  lemma FloorFacts(a: nat, b: nat)
    requires b > 0
    ensures 0 <= a / b * b <= a < a / b * b + b
  {
  }

  function Min(a: nat, b: nat): nat {
    if a <= b then a else b
  }

  // ----- Occupancy -----

  predicate Initialized(dev: Device) {
    && dev.registersPerThreadLimit != UNINITIALIZED && dev.threadsPerWarp != UNINITIALIZED
    && dev.warpAllocGranularity != UNINITIALIZED && dev.registerAllocGranularity != UNINITIALIZED
    && dev.registersPerBlockLimit != UNINITIALIZED && dev.sharedMemoryPerCore != UNINITIALIZED
    && dev.blocksPerCoreLimit != UNINITIALIZED
  }

  /** CalculateOccupancy, in the arithmetic of uint64. */
  function CalculateOccupancy(dev: Device, registers: U64, sharedMemory: U64, dims: ThreadDim): Outcome {
    if !Initialized(dev) || registers > dev.registersPerThreadLimit then Number(0)
    else if !Granular(dev) then DividesByZero
    else BlocksPerCore(dev, dev.threadsPerWarp * registers % TWO64, sharedMemory, Threads(dims) % TWO64)
  }

  /** The granularities by which the calculation divides. */
  predicate Granular(dev: Device) {
    && dev.threadsPerWarp > 0 && dev.warpAllocGranularity > 0 && dev.registerAllocGranularity > 0
    && dev.sharedMemoryAllocGranularity > 0
  }

  function Threads(dims: ThreadDim): nat {
    dims.x * dims.y * dims.z
  }

  /** The calculation, for the registers of a warp and the threads of a block. */
  function BlocksPerCore(dev: Device, warpRegisters: U64, sharedMemory: U64, threads: U64): Outcome
    requires Granular(dev)
  {
    var warps := CeilOfRatio(threads, dev.threadsPerWarp);
    var allocWarps := RoundUp(warps, dev.warpAllocGranularity);
    var allocRegs := RoundUp(warpRegisters, dev.registerAllocGranularity);
    var allocSmem := RoundUp(sharedMemory, dev.sharedMemoryAllocGranularity);
    LeastLimit(dev, allocWarps * allocRegs % TWO64, allocSmem, warps * dev.threadsPerWarp % TWO64)
  }

  /** The least of the four limits, for the registers, the shared memory and the threads of one block. */
  function LeastLimit(dev: Device, registers: U64, sharedMemory: U64, threads: U64): Outcome {
    if registers == 0 || threads == 0 then DividesByZero
    else
      var regLimit := dev.registersPerBlockLimit / registers;
      var smemLimit := if sharedMemory > 0 then dev.sharedMemoryPerCore / sharedMemory else dev.blocksPerCoreLimit;
      var threadLimit := dev.threadsPerCoreLimit / threads;
      Number(Min(Min(dev.blocksPerCoreLimit, regLimit), Min(smemLimit, threadLimit)))
  }

  // ----- What a block takes, without a bound on numbers -----

  /** The warps that the registers of a block are given to. */
  function AllocWarps(dev: Device, threads: nat): nat
    requires Granular(dev)
  {
    UpTo(CeilOfRatio(threads, dev.threadsPerWarp), dev.warpAllocGranularity)
  }

  function Times(a: nat, b: nat): nat {
    a * b
  }

  function BlockRegisters(dev: Device, warpRegisters: nat, threads: nat): nat
    requires Granular(dev)
  {
    Times(AllocWarps(dev, threads), UpTo(warpRegisters, dev.registerAllocGranularity))
  }

  function BlockMemory(dev: Device, sharedMemory: nat): nat
    requires Granular(dev)
  {
    UpTo(sharedMemory, dev.sharedMemoryAllocGranularity)
  }

  function BlockThreads(dev: Device, threads: nat): nat
    requires Granular(dev)
  {
    UpTo(threads, dev.threadsPerWarp)
  }

  /** There is something to launch, and no number of the calculation overflows. */
  predicate InRange(dev: Device, warpRegisters: nat, sharedMemory: nat, threads: nat) {
    && Granular(dev) && warpRegisters > 0 && threads > 0
    && AllocWarps(dev, threads) < TWO64
    && UpTo(warpRegisters, dev.registerAllocGranularity) < TWO64
    && BlockRegisters(dev, warpRegisters, threads) < TWO64
    && BlockMemory(dev, sharedMemory) < TWO64
    && BlockThreads(dev, threads) < TWO64
  }

  /** The blocks are within every budget of the core. */
  predicate Fit(dev: Device, warpRegisters: nat, sharedMemory: nat, threads: nat, blocks: nat)
    requires Granular(dev)
  {
    && blocks <= dev.blocksPerCoreLimit
    && blocks * BlockRegisters(dev, warpRegisters, threads) <= dev.registersPerBlockLimit
    && blocks * BlockMemory(dev, sharedMemory) <= dev.sharedMemoryPerCore
    && blocks * BlockThreads(dev, threads) <= dev.threadsPerCoreLimit
  }

  lemma FitsIn(m: nat, size: nat, budget: nat)
    requires size > 0
    ensures m * size <= budget <==> m <= budget / size
  {
    DivideFacts(budget, size);
    var q := budget / size;
    assert m <= q ==> m * size <= q * size;
    assert m > q ==> m * size >= (q + 1) * size;
    assert (q + 1) * size == q * size + size;
  }

  lemma LeastLimitExact(dev: Device, registers: U64, sharedMemory: U64, threads: U64, m: nat)
    requires registers > 0 && threads > 0
    ensures LeastLimit(dev, registers, sharedMemory, threads).Number?
    ensures m <= LeastLimit(dev, registers, sharedMemory, threads).value <==>
            && m <= dev.blocksPerCoreLimit && m * registers <= dev.registersPerBlockLimit
            && m * sharedMemory <= dev.sharedMemoryPerCore && m * threads <= dev.threadsPerCoreLimit
  {
    FitsIn(m, registers, dev.registersPerBlockLimit);
    FitsIn(m, threads, dev.threadsPerCoreLimit);
    if sharedMemory > 0 {
      FitsIn(m, sharedMemory, dev.sharedMemoryPerCore);
    }
  }

  lemma MulPositive(a: nat, b: nat)
    requires a > 0 && b > 0
    ensures a * b > 0
  {
  }

  lemma RoundUpInRange(value: nat, n: nat)
    requires n > 0 && UpTo(value, n) < TWO64
    ensures RoundUp(value, n) == UpTo(value, n)
  {
    CeilTimes(value, n);
  }

  lemma ProductInRange(a: nat, b: nat)
    requires a > 0 && b > 0 && a * b < TWO64
    ensures a * b % TWO64 == a * b > 0
  {
    MulPositive(a, b);
  }

  /** RoundUp of a product's factors, for any positive factors. */
  lemma RegistersInRange(warps: nat, wg: nat, wr: nat, rg: nat)
    requires wg > 0 && rg > 0 && warps > 0 && wr > 0 && UpTo(warps, wg) < TWO64 && UpTo(wr, rg) < TWO64
    requires UpTo(warps, wg) * UpTo(wr, rg) < TWO64
    ensures RoundUp(warps, wg) * RoundUp(wr, rg) % TWO64 == UpTo(warps, wg) * UpTo(wr, rg) > 0
  {
    RoundUpInRange(warps, wg);
    RoundUpInRange(wr, rg);
    ProductInRange(UpTo(warps, wg), UpTo(wr, rg));
  }

  lemma ThreadsInRange(threads: nat, w: nat)
    requires w > 0 && threads > 0 && UpTo(threads, w) < TWO64
    ensures CeilOfRatio(threads, w) > 0 && CeilOfRatio(threads, w) * w % TWO64 == UpTo(threads, w)
  {
    CeilTimes(threads, w);
  }

  /** In range, the calculation is that of the unbounded numbers. */
  lemma BlocksInRange(dev: Device, warpRegisters: U64, sharedMemory: U64, threads: U64)
    requires InRange(dev, warpRegisters, sharedMemory, threads)
    ensures BlockRegisters(dev, warpRegisters, threads) > 0 && BlockThreads(dev, threads) > 0
    ensures BlocksPerCore(dev, warpRegisters, sharedMemory, threads) ==
            LeastLimit(dev, BlockRegisters(dev, warpRegisters, threads), BlockMemory(dev, sharedMemory), BlockThreads(dev, threads))
  {
    var warps := CeilOfRatio(threads, dev.threadsPerWarp);
    ThreadsInRange(threads, dev.threadsPerWarp);
    RegistersInRange(warps, dev.warpAllocGranularity, warpRegisters, dev.registerAllocGranularity);
    RoundUpInRange(sharedMemory, dev.sharedMemoryAllocGranularity);
  }

  lemma BlocksExact(dev: Device, warpRegisters: U64, sharedMemory: U64, threads: U64, m: nat)
    requires InRange(dev, warpRegisters, sharedMemory, threads)
    ensures BlocksPerCore(dev, warpRegisters, sharedMemory, threads).Number?
    ensures Fit(dev, warpRegisters, sharedMemory, threads, m) <==>
            m <= BlocksPerCore(dev, warpRegisters, sharedMemory, threads).value
  {
    BlocksInRange(dev, warpRegisters, sharedMemory, threads);
    LeastLimitExact(dev, BlockRegisters(dev, warpRegisters, threads), BlockMemory(dev, sharedMemory),
                    BlockThreads(dev, threads), m);
  }

  lemma OccupancyIs(dev: Device, registers: U64, sharedMemory: U64, dims: ThreadDim, warpRegisters: U64, threads: U64)
    requires Initialized(dev) && Granular(dev) && registers <= dev.registersPerThreadLimit
    requires warpRegisters == dev.threadsPerWarp * registers && threads == Threads(dims)
    ensures CalculateOccupancy(dev, registers, sharedMemory, dims) == BlocksPerCore(dev, warpRegisters, sharedMemory, threads)
  {
    assert warpRegisters % TWO64 == warpRegisters && threads % TWO64 == threads;
  }

  /** The occupancy is the greatest number of blocks that fit. */
  lemma OccupancyExact(dev: Device, registers: U64, sharedMemory: U64, dims: ThreadDim, warpRegisters: U64, threads: U64, m: nat)
    requires Initialized(dev) && registers <= dev.registersPerThreadLimit
    requires warpRegisters == dev.threadsPerWarp * registers && threads == Threads(dims)
    requires InRange(dev, warpRegisters, sharedMemory, threads)
    ensures CalculateOccupancy(dev, registers, sharedMemory, dims).Number?
    ensures Fit(dev, warpRegisters, sharedMemory, threads, m) <==>
            m <= CalculateOccupancy(dev, registers, sharedMemory, dims).value
  {
    OccupancyIs(dev, registers, sharedMemory, dims, warpRegisters, threads);
    BlocksExact(dev, warpRegisters, sharedMemory, threads, m);
  }

  // ----- More of anything never raises the occupancy -----

  lemma MultipleOrder(c: nat, d: nat, n: nat)
    requires c * n < d * n + n
    ensures c <= d && c * n <= d * n
  {
    assert c > d ==> c * n >= (d + 1) * n;
    assert (d + 1) * n == d * n + n;
    assert c <= d ==> c * n <= d * n;
  }

  lemma CeilMono(a: nat, b: nat, n: nat)
    requires n > 0 && a <= b
    ensures CeilOfRatio(a, n) <= CeilOfRatio(b, n) && UpTo(a, n) <= UpTo(b, n)
  {
    CeilTimes(a, n);
    CeilTimes(b, n);
    MultipleOrder(CeilOfRatio(a, n), CeilOfRatio(b, n), n);
  }

  lemma TimesMono(a: nat, b: nat, c: nat, d: nat)
    requires a <= c && b <= d
    ensures a * b <= c * d
  {
    assert a * b <= c * b <= c * d;
  }

  lemma DemandMono(dev: Device, wr: nat, smem: nat, threads: nat, wr': nat, smem': nat, threads': nat)
    requires Granular(dev) && wr <= wr' && smem <= smem' && threads <= threads'
    ensures BlockRegisters(dev, wr, threads) <= BlockRegisters(dev, wr', threads')
    ensures BlockMemory(dev, smem) <= BlockMemory(dev, smem') && BlockThreads(dev, threads) <= BlockThreads(dev, threads')
    ensures wr > 0 && threads > 0 && InRange(dev, wr', smem', threads') ==> InRange(dev, wr, smem, threads)
  {
    CeilMono(threads, threads', dev.threadsPerWarp);
    CeilMono(CeilOfRatio(threads, dev.threadsPerWarp), CeilOfRatio(threads', dev.threadsPerWarp), dev.warpAllocGranularity);
    CeilMono(wr, wr', dev.registerAllocGranularity);
    CeilMono(smem, smem', dev.sharedMemoryAllocGranularity);
    TimesMono(AllocWarps(dev, threads), UpTo(wr, dev.registerAllocGranularity),
              AllocWarps(dev, threads'), UpTo(wr', dev.registerAllocGranularity));
  }

  lemma BlocksMono(dev: Device, wr: U64, smem: U64, threads: U64, wr': U64, smem': U64, threads': U64)
    requires wr <= wr' && smem <= smem' && threads <= threads' && wr > 0 && threads > 0
    requires InRange(dev, wr', smem', threads')
    ensures BlocksPerCore(dev, wr, smem, threads).Number? && BlocksPerCore(dev, wr', smem', threads').Number?
    ensures BlocksPerCore(dev, wr', smem', threads').value <= BlocksPerCore(dev, wr, smem, threads).value
  {
    DemandMono(dev, wr, smem, threads, wr', smem', threads');
    BlocksExact(dev, wr', smem', threads', 0);
    var m := BlocksPerCore(dev, wr', smem', threads').value;
    BlocksExact(dev, wr', smem', threads', m);
    TimesMono(m, BlockRegisters(dev, wr, threads), m, BlockRegisters(dev, wr', threads'));
    TimesMono(m, BlockMemory(dev, smem), m, BlockMemory(dev, smem'));
    TimesMono(m, BlockThreads(dev, threads), m, BlockThreads(dev, threads'));
    BlocksExact(dev, wr, smem, threads, m);
  }

  /** The occupancy never rises with the registers, the shared memory or the threads. */
  lemma OccupancyMonotone(dev: Device, registers: U64, smem: U64, dims: ThreadDim, registers': U64, smem': U64, dims': ThreadDim)
    requires Initialized(dev) && 0 < registers <= registers' && smem <= smem' && 0 < Threads(dims) <= Threads(dims') < TWO64
    requires dev.threadsPerWarp * registers' < TWO64
    requires InRange(dev, dev.threadsPerWarp * registers', smem', Threads(dims'))
    ensures CalculateOccupancy(dev, registers, smem, dims).Number? && CalculateOccupancy(dev, registers', smem', dims').Number?
    ensures CalculateOccupancy(dev, registers', smem', dims').value <= CalculateOccupancy(dev, registers, smem, dims).value
  {
    var w := dev.threadsPerWarp;
    TimesMono(w, registers, w, registers');
    MulPositive(w, registers);
    if registers' <= dev.registersPerThreadLimit {
      OccupancyIs(dev, registers', smem', dims', w * registers', Threads(dims'));
    }
    if registers <= dev.registersPerThreadLimit {
      OccupancyIs(dev, registers, smem, dims, w * registers, Threads(dims));
    }
    BlocksMono(dev, w * registers, smem, Threads(dims), w * registers', smem', Threads(dims'));
  }
}
