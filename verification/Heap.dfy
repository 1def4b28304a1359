/** The kernel heap: first fit over the bitmap, a header before each block, and what holds over any sequence of
    allocations, frees and stores by the blocks' owners. */
module Heap {
  import opened Bytes
  import opened HeapBits

  // ----- The state of the heap

  /** Block i starts at granule i; live[i] is the size that was asked for.  Leaked granules belong to no block. */
  predicate InBlock(live: map<nat, nat>, i: nat, j: nat) {
    i in live && Within(i, Taken(live[i]), j)
  }

  /** Live blocks lie in the heap, apart from each other, with their sizes in their headers; and a bit is set
      exactly when its granule belongs to a live block or was leaked. */
  ghost predicate Good(bits: seq<bool>, mem: seq<byte>, live: map<nat, nat>, leaked: set<nat>) {
    && GRANULE * |bits| <= |mem|
    && (forall i: nat :: i in live ==> BlockFits(bits, mem, i, live[i]))
    && (forall i: nat, k: nat, j: nat :: InBlock(live, i, j) && i != k ==> !InBlock(live, k, j))
    && (forall i: nat, j: nat :: j in leaked ==> !InBlock(live, i, j))
    && (forall j: nat :: j < |bits| ==> (bits[j] <==> j in leaked || exists i: nat :: InBlock(live, i, j)))
    && (forall j :: j in leaked ==> j < |bits|)
  }

  ghost predicate BlockFits(bits: seq<bool>, mem: seq<byte>, i: nat, n: nat) {
    i + Taken(n) <= |bits| && n < WORD && GRANULE * i + GRANULE <= |mem| && Get32(mem, GRANULE * i) == n
  }

  lemma TakenCovers(n: nat)
    ensures Taken(n) >= 1 && Returned(n) <= Taken(n) <= Returned(n) + 1
    ensures GRANULE * Taken(n) >= HEADER + n
  {
  }

  /** A header is untouched by a store into another granule. */
  lemma HeaderKept(mem: seq<byte>, i: nat, k: nat, n: nat)
    requires i != k && GRANULE * i + GRANULE <= |mem| && GRANULE * k + GRANULE <= |mem| && n < WORD
    ensures Get32(Put32(mem, GRANULE * i, n), GRANULE * k) == Get32(mem, GRANULE * k)
    ensures Get32(Put32(mem, GRANULE * i, n), GRANULE * i) == n
  {
    hide Put32, Get32;
    Put32Get32(mem, GRANULE * i, n, GRANULE * k);
    Put32Get32(mem, GRANULE * i, n, GRANULE * i);
  }

  lemma StartIsSet(bits: seq<bool>, mem: seq<byte>, live: map<nat, nat>, leaked: set<nat>, i: nat)
    requires Good(bits, mem, live, leaked) && i in live
    ensures InBlock(live, i, i) && i < |bits| && bits[i]
  {
    TakenCovers(live[i]);
    assert BlockFits(bits, mem, i, live[i]);
  }

  lemma GoodAlloc(bits: seq<bool>, mem: seq<byte>, live: map<nat, nat>, leaked: set<nat>, i: nat, n: nat)
    requires Good(bits, mem, live, leaked) && Free(bits, i, Taken(n)) && n < WORD
    ensures i !in live && GRANULE * i + GRANULE <= |mem|
    ensures Good(Marked(bits, i, Taken(n), true), Put32(mem, GRANULE * i, n), live[i := n], leaked)
  {
    hide Taken, Returned, Put32, Get32, Marked;
    TakenCovers(n);
    if i in live {
      StartIsSet(bits, mem, live, leaked, i);
    }
    assert i !in live;
    var live', bits', mem' := live[i := n], Marked(bits, i, Taken(n), true), Put32(mem, GRANULE * i, n);
    forall k: nat | k in live' ensures BlockFits(bits', mem', k, live'[k]) {
      if k != i {
        assert BlockFits(bits, mem, k, live[k]);
        HeaderKept(mem, i, k, n);
      } else {
        Put32Get32(mem, GRANULE * i, n, GRANULE * i);
      }
    }
    forall j: nat | Within(i, Taken(n), j) ensures j !in leaked && forall k: nat :: !InBlock(live, k, j) {
      assert !bits[j];
    }
    forall k: nat, j: nat ensures InBlock(live', k, j) <==> if k == i then Within(i, Taken(n), j)
        else InBlock(live, k, j) {
    }
    forall j: nat | j < |bits| ensures bits'[j] <==> j in leaked || exists k: nat :: InBlock(live', k, j) {
      if Within(i, Taken(n), j) {
        assert InBlock(live', i, j);
      } else {
        assert forall k: nat :: InBlock(live, k, j) <==> InBlock(live', k, j);
      }
    }
  }

  lemma GoodFree(bits: seq<bool>, mem: seq<byte>, live: map<nat, nat>, leaked: set<nat>, i: nat)
    requires Good(bits, mem, live, leaked) && i in live
    ensures i + Returned(live[i]) <= |bits|
    ensures var rest := leaked + if live[i] % GRANULE == 0 then {} else {i + Taken(live[i]) - 1};
            Good(Marked(bits, i, Returned(live[i]), false), mem, live - {i}, rest)
  {
    hide Taken, Returned, Get32, Marked;
    var n := live[i];
    TakenCovers(n);
    TakenAndReturned(n);
    assert BlockFits(bits, mem, i, n);
    var live', bits' := live - {i}, Marked(bits, i, Returned(n), false);
    var rest: set<nat> := leaked + if n % GRANULE == 0 then {} else {i + Taken(n) - 1};
    forall k: nat | k in live' ensures BlockFits(bits', mem, k, live'[k]) {
      assert BlockFits(bits, mem, k, live[k]);
    }
    forall k: nat, j: nat | InBlock(live', k, j) ensures InBlock(live, k, j) && !InBlock(live, i, j) {
    }
    forall j: nat | j < |bits| ensures bits'[j] <==> j in rest || exists k: nat :: InBlock(live', k, j) {
      FreedBit(bits, mem, live, leaked, i, j);
    }
  }

  /** One bit when block i is given back. */
  lemma FreedBit(bits: seq<bool>, mem: seq<byte>, live: map<nat, nat>, leaked: set<nat>, i: nat, j: nat)
    requires Good(bits, mem, live, leaked) && i in live && i + Taken(live[i]) <= |bits| && j < |bits|
    ensures InBlock(live, i, j) ==> bits[j] && j !in leaked && forall k: nat :: !InBlock(live - {i}, k, j)
    ensures !InBlock(live, i, j) ==> forall k: nat :: InBlock(live - {i}, k, j) <==> InBlock(live, k, j)
  {
    hide Taken;
    assert forall k: nat :: InBlock(live - {i}, k, j) <==> k != i && InBlock(live, k, j);
  }

  lemma GoodStore(bits: seq<bool>, mem: seq<byte>, live: map<nat, nat>, leaked: set<nat>, i: nat, at: nat, b: byte)
    requires Good(bits, mem, live, leaked) && i in live && at < live[i]
    ensures GRANULE * i + HEADER + at < |mem|
    ensures Good(bits, mem[GRANULE * i + HEADER + at := b], live, leaked)
  {
    hide Taken, Get32;
    TakenCovers(live[i]);
    assert BlockFits(bits, mem, i, live[i]);
    var o := GRANULE * i + HEADER + at;
    forall k: nat | k in live ensures BlockFits(bits, mem[o := b], k, live[k]) {
      assert BlockFits(bits, mem, k, live[k]);
      StartIsSet(bits, mem, live, leaked, k);
      if k != i {
        assert !InBlock(live, i, k);
      }
      WordKept(mem, o, b, GRANULE * k);
    }
  }

  lemma WordKept(mem: seq<byte>, o: nat, b: byte, p: nat)
    requires o < |mem| && p + 4 <= |mem| && !(p <= o < p + 4)
    ensures Get32(mem[o := b], p) == Get32(mem, p)
  {
  }

  /** Live blocks, headers included, are apart in memory and inside the heap, and all their granules are marked. */
  lemma BlocksApart(bits: seq<bool>, mem: seq<byte>, live: map<nat, nat>, leaked: set<nat>, i: nat, k: nat)
    requires Good(bits, mem, live, leaked) && i in live && k in live && i != k
    ensures GRANULE * i + HEADER + live[i] <= GRANULE * k || GRANULE * k + HEADER + live[k] <= GRANULE * i
    ensures GRANULE * i + HEADER + live[i] <= GRANULE * |bits| <= |mem|
    ensures forall j: nat :: Within(i, Taken(live[i]), j) ==> j < |bits| && bits[j]
  {
    hide Taken;
    TakenCovers(live[i]);
    TakenCovers(live[k]);
    assert BlockFits(bits, mem, i, live[i]) && BlockFits(bits, mem, k, live[k]);
    if i < k {
      assert InBlock(live, k, k) && !InBlock(live, i, k);
    } else {
      assert InBlock(live, i, i) && !InBlock(live, k, i);
    }
    forall j: nat | Within(i, Taken(live[i]), j) ensures j < |bits| && bits[j] {
      assert InBlock(live, i, j);
    }
  }

  /** With no block live, exactly the leaked granules are lost. */
  lemma OnlyLeaksRemain(bits: seq<bool>, mem: seq<byte>, leaked: set<nat>)
    requires Good(bits, mem, map[], leaked)
    ensures forall j: nat :: j < |bits| ==> (bits[j] <==> j in leaked)
  {
    assert forall i: nat, j: nat :: !InBlock(map[], i, j);
  }

  // ----- The allocator

  /** What m_map hands out; size 0 stands for failure. */
  datatype Region = Region(ptr: nat, size: nat)

  const MAX_MEMORY := 0x8000_0000

  class KernelHeap {
    /** Where the heap starts, how long it is, and where its bitmap starts. */
    const raw: nat
    const heapSize: nat
    const mapStart: nat
    const bitmap: array<bv8>
    /** The heap's bytes. */
    const memory: array<byte>
    ghost var live: map<nat, nat>
    ghost var leaked: set<nat>

    /** memInit: the memory from the kernel's end on is the heap, less room for the bitmap at its end. */
    constructor (memorySize: nat, kernelEnd: nat)
      requires 0 < kernelEnd && memorySize < WORD
      requires var room := (if memorySize > MAX_MEMORY then MAX_MEMORY else memorySize) - kernelEnd;
               room >= 0 && (room / GRANULE + 7) / 8 <= room / GRANULE * GRANULE
      ensures Valid() && live == map[] && leaked == {} && raw == kernelEnd
      ensures raw + heapSize == mapStart && mapStart + bitmap.Length <= memorySize
      ensures fresh(bitmap) && fresh(memory)
    {
      var size := if memorySize > MAX_MEMORY then MAX_MEMORY else memorySize;
      var heapSpace := (size - kernelEnd) / GRANULE * GRANULE;
      var totalBits := heapSpace / GRANULE;
      var mapBytesNeeded := (totalBits + 7) / 8;
      raw := kernelEnd;
      heapSize := heapSpace - mapBytesNeeded;
      mapStart := kernelEnd + heapSpace - mapBytesNeeded;
      bitmap := new bv8[mapBytesNeeded];
      memory := new byte[heapSpace - mapBytesNeeded];
      live, leaked := map[], {};
      new;
      for i := 0 to bitmap.Length
        invariant forall j :: 0 <= j < i ==> bitmap[j] == 0
        invariant live == map[] && leaked == {}
      {
        bitmap[i] := 0;
      }
      AllClear(bitmap[..], Total());
      assert Shaped();
      Empty(Granules(), memory[..]);
    }

    function Total(): nat {
      heapSize / GRANULE
    }

    /** The bitmap covers the heap and lies outside it. */
    ghost predicate Shaped() {
      (bitmap as object) != (memory as object) && raw > 0 && raw + heapSize == mapStart && mapStart <= MAX_MEMORY &&
          memory.Length == heapSize && Total() <= 8 * bitmap.Length
    }

    ghost function Granules(): (b: seq<bool>)
      requires Shaped()
      reads bitmap
      ensures |b| == Total()
    {
      Bits(bitmap[..], Total())
    }

    ghost predicate Valid()
      reads this, bitmap, memory
    {
      Shaped() && Good(Granules(), memory[..], live, leaked)
    }

    /** The search's inner loop: are n granules from i on free? */
    method RunFree(i: nat, n: nat) returns (found: bool)
      requires Shaped() && n > 0
      ensures found <==> Free(Granules(), i, n)
    {
      found := true;
      var j := 0;
      while j < n
        invariant 0 <= j <= n && found && (j > 0 ==> i + j <= Total())
        invariant forall k :: i <= k < i + j ==> k < Total() && !Granules()[k]
      {
        var bitIndex := i + j;
        if bitIndex >= Total() {
          return false;
        }
        assert Granules()[bitIndex] == Bit(bitmap[..], bitIndex);
        if Has(bitmap[bitIndex / 8], bitIndex % 8) {
          assert Granules()[bitIndex];
          return false;
        }
        assert !Granules()[bitIndex];
        j := j + 1;
      }
    }

    method MarkBit(bitIndex: nat, v: bool)
      requires Shaped() && bitIndex < Total()
      modifies bitmap
      ensures Granules() == old(Granules())[bitIndex := v]
    {
      hide Bits, Bit, Has, Raised, Lowered;
      ghost var before := bitmap[..];
      SetBitBits(before, Total(), bitIndex);
      if v {
        bitmap[bitIndex / 8] := Raised(bitmap[bitIndex / 8], bitIndex % 8);
      } else {
        bitmap[bitIndex / 8] := Lowered(bitmap[bitIndex / 8], bitIndex % 8);
      }
      assert bitmap[..] == if v then SetBit(before, bitIndex) else ClearBit(before, bitIndex);
    }

    /** Set or clear n bits from i on. */
    method MarkRun(i: nat, n: nat, v: bool)
      requires Shaped() && i + n <= Total()
      modifies bitmap
      ensures Granules() == Marked(old(Granules()), i, n, v)
    {
      hide Marked, Bits, Granules, Shaped;
      ghost var bits := Granules();
      MarkedNone(bits, i, v);
      for j := 0 to n
        invariant Shaped() && Granules() == Marked(bits, i, j, v)
      {
        MarkedNext(bits, i, j, v);
        MarkBit(i + j, v);
      }
    }

    /** m_map: the lowest free run that is long enough, and failure only when there is none. */
    method MMap(size: nat) returns (region: Region)
      requires Shaped() && size + (GRANULE - 1) < WORD && Align(size) / GRANULE <= Total()
      modifies bitmap
      ensures region.size == 0 ==> Granules() == old(Granules())
      ensures region.size == 0 <==> size == 0 || forall i: nat :: !Free(old(Granules()), i, Align(size) / GRANULE)
      ensures region.size != 0 ==>
                && region.size == Align(size) && region.ptr >= raw && (region.ptr - raw) % GRANULE == 0
                && var i := (region.ptr - raw) / GRANULE;
                && Free(old(Granules()), i, Align(size) / GRANULE)
                && (forall k: nat :: k < i ==> !Free(old(Granules()), k, Align(size) / GRANULE))
                && Granules() == Marked(old(Granules()), i, Align(size) / GRANULE, true)
    {
      hide Bits, Marked;
      region := Region(0, 0);
      if size == 0 {
        return;
      }
      var aligned := Align(size);
      var numBits := aligned / GRANULE;
      var i := 0;
      while i <= Total() - numBits
        invariant i <= Total() - numBits + 1 && Granules() == old(Granules())
        invariant forall k: nat :: k < i ==> !Free(old(Granules()), k, numBits)
      {
        var found := RunFree(i, numBits);
        if found {
          MarkRun(i, numBits, true);
          assert (raw + i * GRANULE - raw) / GRANULE == i;
          return Region(raw + i * GRANULE, aligned);
        }
        i := i + 1;
      }
    }

    /** u_map: exactly the region's granules become free. */
    method UMap(region: Region)
      requires Shaped()
      requires region.ptr != 0 && region.size != 0 ==>
                 region.ptr >= raw && (region.ptr - raw) / GRANULE + region.size / GRANULE <= Total()
      modifies bitmap
      ensures Granules() == if region.ptr == 0 || region.size == 0 then old(Granules())
                            else Marked(old(Granules()), (region.ptr - raw) / GRANULE, region.size / GRANULE, false)
    {
      if region.ptr == 0 || region.size == 0 {
        return;
      }
      MarkRun((region.ptr - raw) / GRANULE, region.size / GRANULE, false);
    }

    /** Block i's address. */
    function Address(i: nat): nat {
      raw + GRANULE * i + HEADER
    }

    /** kmalloc: None where the original panics, which is when no free run is long enough. */
    method KMalloc(n: nat) returns (p: Option<nat>)
      requires Valid() && n + HEADER + (GRANULE - 1) < WORD && Taken(n) <= Total()
      modifies bitmap, memory, this`live
      ensures Valid() && leaked == old(leaked)
      ensures p.None? <==> forall i: nat :: !Free(old(Granules()), i, Taken(n))
      ensures p.None? ==> live == old(live) && Granules() == old(Granules()) && memory[..] == old(memory[..])
      ensures p.Some? ==> exists i: nat ::
                && i !in old(live) && p == Some(Address(i)) && live == old(live)[i := n]
                && Free(old(Granules()), i, Taken(n)) &&
                   (forall k: nat :: k < i ==> !Free(old(Granules()), k, Taken(n)))
                && Granules() == Marked(old(Granules()), i, Taken(n), true)
    {
      hide Good, Free, Bits, Marked;
      AlignTaken(n);
      var region := MMap(n + HEADER);
      if region.size == 0 {
        return None;
      }
      var i := (region.ptr - raw) / GRANULE;
      GoodAlloc(old(Granules()), memory[..], live, leaked, i, n);
      StoreWord(memory, region.ptr - raw, n);
      live := live[i := n];
      p := Some(region.ptr + HEADER);
    }

    /** kfree of a live block: the heap stays good, and all its granules but possibly the last are given back. */
    method KFree(p: nat, ghost i: nat)
      requires Valid() && i in live && p == Address(i)
      modifies bitmap, this`live, this`leaked
      ensures Valid() && live == old(live) - {i}
      ensures leaked == old(leaked) + if old(live)[i] % GRANULE == 0 then {} else {i + Taken(old(live)[i]) - 1}
      ensures i + Returned(old(live)[i]) <= Total() &&
              Granules() == Marked(old(Granules()), i, Returned(old(live)[i]), false)
    {
      hide Bits, Marked, Good, BlockFits, Taken, Returned, Granules, Get32;
      ghost var n := live[i];
      BlockOf(Granules(), memory[..], live, leaked, i);
      GoodFree(Granules(), memory[..], live, leaked, i);
      ReturnedIs(n);
      TakenCovers(n);
      var header := p - HEADER;
      var size := Get32(memory[..], header - raw) + HEADER;
      UMap(Region(header, size));
      live := live - {i};
      leaked := leaked + if n % GRANULE == 0 then {} else {i + Taken(n) - 1};
    }

    /** A block's owner stores a byte inside the block. */
    method Store(p: nat, at: nat, b: byte, ghost i: nat)
      requires Valid() && i in live && p == Address(i) && at < live[i]
      modifies memory
      ensures Valid()
      ensures p - raw + at < memory.Length && memory[..] == old(memory[..])[p - raw + at := b]
    {
      hide Bits, Good, Granules;
      GoodStore(Granules(), memory[..], live, leaked, i, at, b);
      memory[p - raw + at] := b;
    }
  }

  lemma BlockOf(bits: seq<bool>, mem: seq<byte>, live: map<nat, nat>, leaked: set<nat>, i: nat)
    requires Good(bits, mem, live, leaked) && i in live
    ensures GRANULE * i + GRANULE <= |mem| && Get32(mem, GRANULE * i) == live[i] && i + Returned(live[i]) <= |bits|
  {
    assert BlockFits(bits, mem, i, live[i]);
    TakenCovers(live[i]);
  }

  lemma ReturnedIs(n: nat)
    ensures (n + HEADER) / GRANULE == Returned(n)
  {
  }

  lemma Empty(bits: seq<bool>, mem: seq<byte>)
    requires GRANULE * |bits| <= |mem| && forall j :: 0 <= j < |bits| ==> !bits[j]
    ensures Good(bits, mem, map[], {})
  {
  }

  lemma AlignTaken(n: nat)
    requires n + HEADER + (GRANULE - 1) < WORD
    ensures Align(n + HEADER) / GRANULE == Taken(n) > 0
  {
  }

  lemma AllClear(bitmap: seq<bv8>, total: nat)
    requires total <= 8 * |bitmap| && forall j :: 0 <= j < |bitmap| ==> bitmap[j] == 0
    ensures forall j :: 0 <= j < total ==> !Bits(bitmap, total)[j]
  {
    forall j: nat | j < total ensures !Bit(bitmap, j) {
      assert bitmap[j / 8] & Mask(j % 8) == 0;
    }
  }

  // ----- Runs

  datatype Op = Alloc(n: nat) | Release(block: nat) | StoreByte(block: nat, at: nat, b: byte)

  /** Any sequence of requests that fit the heap, frees of live blocks, and stores inside live blocks, by callers
      who keep the addresses they were given. */
  method Run(heap: KernelHeap, ops: seq<Op>) returns (blocks: map<nat, nat>)
    requires heap.Valid() && heap.live == map[]
    modifies heap, heap.bitmap, heap.memory
    ensures heap.Valid() && blocks == heap.live
    ensures forall i: nat, k: nat :: i in blocks && k in blocks && i != k ==>
              GRANULE * i + HEADER + blocks[i] <= GRANULE * k || GRANULE * k + HEADER + blocks[k] <= GRANULE * i
  {
    hide Good, Bits, Marked, Taken;
    blocks := map[];
    for o := 0 to |ops|
      invariant heap.Valid() && blocks == heap.live
    {
      match ops[o] {
        case Alloc(n) =>
          if n + HEADER + (GRANULE - 1) < WORD && Taken(n) <= heap.Total() {
            var p := heap.KMalloc(n);
            if p.Some? {
              blocks := blocks[(p.value - HEADER - heap.raw) / GRANULE := n];
            }
          }
        case Release(i) =>
          if i in blocks {
            heap.KFree(heap.Address(i), i);
            blocks := blocks - {i};
          }
        case StoreByte(i, at, b) =>
          if i in blocks && at < blocks[i] {
            heap.Store(heap.Address(i), at, b, i);
          }
      }
    }
    forall i: nat, k: nat | i in blocks && k in blocks && i != k
      ensures GRANULE * i + HEADER + blocks[i] <= GRANULE * k || GRANULE * k + HEADER + blocks[k] <= GRANULE * i
    {
      BlocksApart(heap.Granules(), heap.memory[..], heap.live, heap.leaked, i, k);
    }
  }
}
