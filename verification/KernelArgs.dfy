/** Arguments of a kernel, kept by kind, and replayed in the order in which they were added. */
module KernelArgs {
  import opened Base
  import opened Varint

  /** A call that adds an argument: its address and size, or the pointer of device memory, or a size alone. */
  datatype Arg = Plain(address: nat, size: nat) | DeviceMemory(opaquePointer: nat) | Shared(size: nat)

  /** A stored address: none, that of the caller's argument, or that of a place for a pointer. */
  datatype Address = Null | Of(address: nat) | Slot(index: nat)

  datatype KernelArg = KernelArg(isShared: bool, address: Address, size: nat)

  const POINTER_SIZE: nat := 8

  /** How many of the first j arguments are shared. */
  function NumShared(log: seq<Arg>, j: nat): (n: nat)
    requires j <= |log|
    ensures n <= j
  {
    if j == 0 then 0 else NumShared(log, j - 1) + if log[j - 1].Shared? then 1 else 0
  }

  function SharedSum(log: seq<Arg>, j: nat): nat
    requires j <= |log|
  {
    if j == 0 then 0 else SharedSum(log, j - 1) + if log[j - 1].Shared? then log[j - 1].size else 0
  }

  /** Argument j as a launch sees it. */
  function Replayed(log: seq<Arg>, j: nat): KernelArg
    requires j < |log|
  {
    match log[j]
    case Plain(a, size) => KernelArg(false, Of(a), size)
    case DeviceMemory(_) => KernelArg(false, Slot(j - NumShared(log, j)), POINTER_SIZE)
    case Shared(size) => KernelArg(true, Null, size)
  }

  lemma {:induction false} NumSharedMono(log: seq<Arg>, i: nat, j: nat)
    requires i <= j <= |log|
    ensures NumShared(log, i) <= NumShared(log, j) && i - NumShared(log, i) <= j - NumShared(log, j)
    decreases j
  {
    if i < j {
      NumSharedMono(log, i, j - 1);
    }
  }

  lemma {:induction false} CountsOfPrefix(log: seq<Arg>, more: seq<Arg>, j: nat)
    requires j <= |log| && log <= more
    ensures NumShared(more, j) == NumShared(log, j) && SharedSum(more, j) == SharedSum(log, j)
  {
    if j > 0 {
      CountsOfPrefix(log, more, j - 1);
    }
  }

  /** No two shared arguments have the same number of shared ones before them. */
  lemma SharedUnique(log: seq<Arg>, i: nat, j: nat)
    requires i < |log| && j < |log| && log[i].Shared? && log[j].Shared? && NumShared(log, i) == NumShared(log, j)
    ensures i == j
  {
    if i != j {
      var (lo: nat, hi: nat) := if i < j then (i, j) else (j, i);
      NumSharedMono(log, lo + 1, hi);
    }
  }

  // ----- The lists -----

  /** The significant entries of the five arrays. */
  datatype Lists = Lists(pointers: seq<nat>, addresses: seq<Address>, sizes: seq<nat>, bytes: seq<nat>, indices: seq<nat>)

  /** Shared argument k is the one with k shared ones before it. */
  ghost predicate HoldsShared(log: seq<Arg>, l: Lists, k: nat)
    requires k < |l.bytes| && k < |l.indices|
  {
    l.indices[k] < |log| && log[l.indices[k]] == Shared(l.bytes[k]) && NumShared(log, l.indices[k]) == k
  }

  /** An argument that is not shared is in the lists after the others of its kind. */
  ghost predicate HoldsPlain(log: seq<Arg>, l: Lists, j: nat)
    requires j < |log|
  {
    var k := j - NumShared(log, j);
    && k < |l.pointers| && k < |l.addresses| && k < |l.sizes|
    && KernelArg(false, l.addresses[k], l.sizes[k]) == Replayed(log, j)
    && (log[j].DeviceMemory? ==> l.pointers[k] == log[j].opaquePointer)
  }

  ghost predicate Holds(log: seq<Arg>, l: Lists) {
    && |l.bytes| == |l.indices| == NumShared(log, |log|)
    && |l.pointers| == |l.addresses| == |l.sizes| == |log| - NumShared(log, |log|)
    && (forall k: nat {:trigger HoldsShared(log, l, k)} :: k < |l.bytes| ==> HoldsShared(log, l, k))
    && (forall j: nat {:trigger HoldsPlain(log, l, j)} :: j < |log| && !log[j].Shared? ==> HoldsPlain(log, l, j))
  }

  /** The lists after an argument that is not shared. The place for a pointer is used only if there is one. */
  function AddPlain(l: Lists, address: Address, size: nat, pointer: nat): Lists {
    l.(pointers := l.pointers + [pointer], addresses := l.addresses + [address], sizes := l.sizes + [size])
  }

  /** The lists hold no less after they have grown. */
  ghost predicate Grown(l: Lists, l': Lists) {
    && l.pointers <= l'.pointers && l.addresses <= l'.addresses && l.sizes <= l'.sizes
    && l.bytes <= l'.bytes && l.indices <= l'.indices
  }

  lemma SharedKept(log: seq<Arg>, a: Arg, l: Lists, l': Lists, k: nat)
    requires Holds(log, l) && Grown(l, l') && k < |l.bytes|
    ensures HoldsShared(log + [a], l', k)
  {
    assert HoldsShared(log, l, k);
    CountsOfPrefix(log, log + [a], l.indices[k]);
  }

  lemma PlainKept(log: seq<Arg>, a: Arg, l: Lists, l': Lists, j: nat)
    requires Holds(log, l) && Grown(l, l') && j < |log| && !log[j].Shared?
    ensures HoldsPlain(log + [a], l', j)
  {
    assert HoldsPlain(log, l, j);
    CountsOfPrefix(log, log + [a], j);
  }

  lemma HoldsAfterPlain(log: seq<Arg>, a: Arg, l: Lists, pointer: nat)
    requires Holds(log, l) && !a.Shared? && (a.DeviceMemory? ==> pointer == a.opaquePointer)
    ensures var k := |l.addresses|;
            Holds(log + [a], if a.Plain? then AddPlain(l, Of(a.address), a.size, pointer)
                             else AddPlain(l, Slot(k), POINTER_SIZE, pointer))
  {
    var more, k := log + [a], |l.addresses|;
    var l' := if a.Plain? then AddPlain(l, Of(a.address), a.size, pointer)
              else AddPlain(l, Slot(k), POINTER_SIZE, pointer);
    CountsOfPrefix(log, more, |log|);
    forall k: nat | k < |l'.bytes| ensures HoldsShared(more, l', k) {
      SharedKept(log, a, l, l', k);
    }
    forall j: nat | j < |more| && !more[j].Shared? ensures HoldsPlain(more, l', j) {
      if j < |log| {
        PlainKept(log, a, l, l', j);
      }
    }
  }

  lemma HoldsAfterShared(log: seq<Arg>, size: nat, l: Lists)
    requires Holds(log, l)
    ensures Holds(log + [Shared(size)], l.(bytes := l.bytes + [size], indices := l.indices + [|log|]))
  {
    var more, l' := log + [Shared(size)], l.(bytes := l.bytes + [size], indices := l.indices + [|log|]);
    CountsOfPrefix(log, more, |log|);
    forall k: nat | k < |l'.bytes| ensures HoldsShared(more, l', k) {
      if k < |l.bytes| {
        SharedKept(log, Shared(size), l, l', k);
      }
    }
    forall j: nat | j < |more| && !more[j].Shared? ensures HoldsPlain(more, l', j) {
      PlainKept(log, Shared(size), l, l', j);
    }
  }

  /** The list of indices tells what argument j is, to one who knows how many shared ones came before. */
  lemma IndicesTell(log: seq<Arg>, l: Lists, j: nat, k: nat)
    requires Holds(log, l) && j < |log| && k == NumShared(log, j)
    ensures k <= |l.indices| == |l.bytes|
    ensures var shared := k != |l.indices| && j == l.indices[k];
            && NumShared(log, j + 1) == (if shared then k + 1 else k)
            && (!shared ==> j - k < |l.addresses| == |l.sizes|)
            && Replayed(log, j) == if shared then KernelArg(true, Null, l.bytes[k])
                                   else KernelArg(false, l.addresses[j - k], l.sizes[j - k])
  {
    NumSharedMono(log, j + 1, |log|);
    if log[j].Shared? {
      assert HoldsShared(log, l, k);
      SharedUnique(log, l.indices[k], j);
    } else {
      assert HoldsPlain(log, l, j);
      assert k < |l.indices| ==> HoldsShared(log, l, k);
    }
  }

  /** The pointer of a device memory argument is where its address says. */
  lemma PointerKept(log: seq<Arg>, l: Lists, j: nat)
    requires Holds(log, l) && j < |log| && log[j].DeviceMemory?
    ensures var a := Replayed(log, j).address; a.Slot? && a.index < |l.pointers| && l.pointers[a.index] == log[j].opaquePointer
  {
    assert HoldsPlain(log, l, j);
  }

  // ----- The class -----

  /** A list of arguments; `log` has the calls made so far. */
  class KernelArgsArray {
    const opaquePointers: array<nat>
    const addresses: array<Address>
    const sizes: array<nat>
    const sharedBytes: array<nat>
    const sharedIndices: array<nat>
    var totalSharedBytes: nat
    var numAddresses: nat
    var numShared: nat
    ghost var log: seq<Arg>

    ghost predicate Valid()
      reads this, opaquePointers, addresses, sizes, sharedBytes, sharedIndices
    {
      && opaquePointers != sizes && opaquePointers != sharedBytes && opaquePointers != sharedIndices
      && sizes != sharedBytes && sizes != sharedIndices && sharedBytes != sharedIndices
      && opaquePointers.Length == addresses.Length == sizes.Length == sharedBytes.Length == sharedIndices.Length
      && numAddresses <= addresses.Length && numShared <= sharedBytes.Length
      && Holds(log, Contents())
      && totalSharedBytes == SharedSum(log, |log|) % TWO64
    }

    ghost function Contents(): Lists
      requires opaquePointers.Length == addresses.Length == sizes.Length == sharedBytes.Length == sharedIndices.Length
      requires numAddresses <= addresses.Length && numShared <= sharedBytes.Length
      reads this, opaquePointers, addresses, sizes, sharedBytes, sharedIndices
    {
      Lists(opaquePointers[..numAddresses], addresses[..numAddresses], sizes[..numAddresses],
            sharedBytes[..numShared], sharedIndices[..numShared])
    }

    constructor (capacity: nat)
      ensures Valid() && log == [] && addresses.Length == capacity
      ensures fresh(opaquePointers) && fresh(addresses) && fresh(sizes) && fresh(sharedBytes) && fresh(sharedIndices)
    {
      opaquePointers := new nat[capacity];
      addresses := new Address[capacity];
      sizes := new nat[capacity];
      sharedBytes := new nat[capacity];
      sharedIndices := new nat[capacity];
      totalSharedBytes, numAddresses, numShared, log := 0, 0, 0, [];
    }

    method AddArgument(address: nat, size: nat)
      requires Valid() && numAddresses < addresses.Length
      modifies this, addresses, sizes
      ensures Valid() && log == old(log) + [Plain(address, size)]
      ensures numAddresses == old(numAddresses) + 1 && numShared == old(numShared)
    {
      HoldsAfterPlain(log, Plain(address, size), Contents(), opaquePointers[numAddresses]);
      CountsOfPrefix(log, log + [Plain(address, size)], |log|);
      ghost var l, pointer := Contents(), opaquePointers[numAddresses];
      addresses[numAddresses] := Of(address);
      sizes[numAddresses] := size;
      numAddresses := numAddresses + 1;
      log := log + [Plain(address, size)];
      assert Contents() == AddPlain(l, Of(address), size, pointer);
    }

    method AddDeviceMemoryArgument(opaquePointer: nat)
      requires Valid() && numAddresses < addresses.Length
      modifies this, opaquePointers, addresses, sizes
      ensures Valid() && log == old(log) + [DeviceMemory(opaquePointer)]
      ensures numAddresses == old(numAddresses) + 1 && numShared == old(numShared)
    {
      HoldsAfterPlain(log, DeviceMemory(opaquePointer), Contents(), opaquePointer);
      CountsOfPrefix(log, log + [DeviceMemory(opaquePointer)], |log|);
      ghost var l := Contents();
      opaquePointers[numAddresses] := opaquePointer;
      addresses[numAddresses] := Slot(numAddresses);
      sizes[numAddresses] := POINTER_SIZE;
      numAddresses := numAddresses + 1;
      log := log + [DeviceMemory(opaquePointer)];
      assert Contents() == AddPlain(l, Slot(numAddresses - 1), POINTER_SIZE, opaquePointer);
    }

    method AddSharedBytes(size: nat)
      requires Valid() && numShared < sharedBytes.Length
      modifies this, sharedBytes, sharedIndices
      ensures Valid() && log == old(log) + [Shared(size)]
      ensures numAddresses == old(numAddresses) && numShared == old(numShared) + 1
    {
      HoldsAfterShared(log, size, Contents());
      CountsOfPrefix(log, log + [Shared(size)], |log|);
      AddMod(SharedSum(log, |log|), size);
      ghost var l := Contents();
      sharedIndices[numShared] := numAddresses + numShared;
      sharedBytes[numShared] := size;
      numShared := numShared + 1;
      totalSharedBytes := (totalSharedBytes + size) % TWO64;
      log := log + [Shared(size)];
      assert Contents() == l.(bytes := l.bytes + [size], indices := l.indices + [|old(log)|]);
    }
  }

  /** KernelArgIterator, over a list that is not changed meanwhile. */
  class KernelArgIterator {
    const args: KernelArgsArray
    var argIndex: nat
    var addressPos: nat
    var sharedPos: nat
    const numArguments: nat
    const sharedEnd: nat

    ghost predicate Valid()
      reads this, args, args.opaquePointers, args.addresses, args.sizes, args.sharedBytes, args.sharedIndices
    {
      && args.Valid()
      && numArguments == |args.log| && sharedEnd == args.numShared
      && argIndex <= |args.log|
      && sharedPos == NumShared(args.log, argIndex)
      && addressPos == argIndex - sharedPos
    }

    constructor (args: KernelArgsArray)
      requires args.Valid()
      ensures Valid() && this.args == args && argIndex == 0
    {
      this.args := args;
      argIndex, addressPos, sharedPos := 0, 0, 0;
      numArguments := args.numAddresses + args.numShared;
      sharedEnd := args.numShared;
    }

    /** next; None is an object with no value given to its fields. */
    method Next() returns (r: Option<KernelArg>)
      requires Valid()
      modifies this
      ensures Valid()
      ensures r == if old(argIndex) < |args.log| then Some(Replayed(args.log, old(argIndex))) else None
      ensures argIndex == if r.Some? then old(argIndex) + 1 else old(argIndex)
    {
      if argIndex >= numArguments {
        return None;
      }
      IndicesTell(args.log, args.Contents(), argIndex, sharedPos);
      if sharedPos != sharedEnd && argIndex == args.sharedIndices[sharedPos] {
        r := Some(KernelArg(true, Null, args.sharedBytes[sharedPos]));
        sharedPos := sharedPos + 1;
      } else {
        r := Some(KernelArg(false, args.addresses[addressPos], args.sizes[addressPos]));
        addressPos := addressPos + 1;
      }
      argIndex := argIndex + 1;
    }
  }

  /** Draining an iterator gives the arguments in the order in which they were added. */
  method Drain(args: KernelArgsArray) returns (r: seq<KernelArg>)
    requires args.Valid()
    ensures |r| == |args.log| && forall j :: 0 <= j < |r| ==> r[j] == Replayed(args.log, j)
  {
    var it := new KernelArgIterator(args);
    r := [];
    while it.argIndex < it.numArguments
      invariant fresh(it) && it.Valid() && it.args == args && |r| == it.argIndex
      invariant forall j :: 0 <= j < |r| ==> r[j] == Replayed(args.log, j)
      decreases it.numArguments - it.argIndex
    {
      var arg := it.Next();
      r := r + [arg.value];
    }
  }
}
