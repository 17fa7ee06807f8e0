/**
 The class itself: its fields, and each method proved against the step of the model it performs.
 */
module SerialArenas {
  import opened Bits
  import opened SerialArenaModel
  import opened SerialArenaProofs
  import opened SerialArenaRuns
  import opened SerialArenaCleanup
  import SerialArenaLaws

  /** The difference of two CleanupNode pointers, in nodes.  It is rounded towards zero here; C++ leaves
      it undefined when it is not a whole number of nodes. */
  function NodeDistance(hi: int, lo: int): int {
    if hi >= lo then (hi - lo) / CLEANUP_SIZE else -((lo - hi) / CLEANUP_SIZE)
  }

  /** The header words of the newest of the first i blocks. */
  lemma BlockWords(m: Memory, bs: seq<Block>, i: nat)
    requires BlocksOk(bs) && HeadersOk(m, bs) && 0 < i <= |bs|
    ensures bs[i - 1].addr > 0
    ensures Load(m, bs[i - 1].addr) == if i == 1 then 0 else bs[i - 2].addr
    ensures i < |bs| ==> Load(m, bs[i - 1].addr + 16) == Start(bs, i - 1)
  {
    assert BlockOk(bs, i - 1) && HeaderOk(m, bs, i - 1);
  }

  class SerialArena {
    var mem: Memory
    var head: int
    var ptr: int
    var limit: int
    var cachedBlocks: int
    var cachedBlockLength: nat
    var spaceUsed: int
    var spaceAllocated: int
    ghost var layout: Layout

    ghost function Fields(): Arena
      reads this
    {
      Arena(mem, head, ptr, limit, cachedBlocks, cachedBlockLength, spaceUsed, spaceAllocated)
    }

    ghost function Now(): State
      reads this
    {
      State(Fields(), layout)
    }

    ghost predicate Valid()
      reads this
    {
      Inv(Fields(), layout)
    }

    /** SerialArena::New. */
    constructor (memory: Memory, addr: int, size: int)
      requires GoodFirstBlock(addr, size)
      ensures Valid() && Now() == Init(memory, addr, size)
    {
      mem := memory[addr := 0][addr + 8 := size][addr + 16 := 0];
      head := addr;
      ptr := addr + BLOCK_HEADER_SIZE + SERIAL_ARENA_SIZE;
      limit := addr + (size - size % 8);
      cachedBlocks, cachedBlockLength := 0, 0;
      spaceUsed, spaceAllocated := 0, size;
      layout := Init(memory, addr, size).L;
      InitOk(memory, addr, size);
    }

    method TryAllocateFromCachedBlock(size: nat) returns (ret: int)
      requires Valid() && size % 8 == 0
      modifies this
      ensures Valid()
      ensures if CanPop(old(Fields()), size)
              then ret == old(Load(mem, cachedBlocks + WORD * RequestIndex(size))) != 0
                   && Now() == TakeCached(old(Now()), size)
              else ret == 0 && Now() == old(Now())
    {
      if size < 16 {
        return 0;
      }
      var index := RequestIndex(size);
      if index >= cachedBlockLength {
        return 0;
      }
      var slot := cachedBlocks + WORD * index;
      if Load(mem, slot) == 0 {
        return 0;
      }
      ghost var was := Now();
      TakeCachedKeepsInv(was, size);
      PopTakesHead(was.a, was.L, size);
      ret := Load(mem, slot);
      mem := mem[slot := Load(mem, ret)];
      layout := TakeCached(was, size).L;
    }

    method AllocateNewBlock(n: nat, policy: Policy, base: int)
      requires Valid() && !HasSpace(Fields(), n) && BaseFor(Now(), policy, n, base)
      modifies this
      ensures Valid() && Now() == Grow(old(Now()), policy, n, base) && HasSpace(Fields(), n)
    {
      ghost var was := Now();
      GrowKeepsInv(was, policy, n, base);
      assert HeaderOk(mem, layout.blocks, |layout.blocks| - 1);
      mem := mem[head + 16 := limit];
      var used := ptr - (head + BLOCK_HEADER_SIZE);
      spaceUsed := spaceUsed + used;
      var size := NextBlockSize(policy, Load(mem, head + 8), n);
      spaceAllocated := spaceAllocated + size;
      mem := mem[base := head][base + 8 := size][base + 16 := 0];
      head := base;
      ptr := head + BLOCK_HEADER_SIZE;
      limit := head + size;
      layout := Grow(was, policy, n, base).L;
    }

    method AllocateFromExisting(n: nat) returns (ret: int)
      requires Valid() && n % 8 == 0 && HasSpace(Fields(), n)
      modifies this
      ensures Valid() && Now() == Carve(old(Now()), n)
      ensures ret == old(ptr)
    {
      BumpKeepsCore(Fields(), layout, n);
      CarveKeepsAligned(Now(), n);
      ret := ptr;
      ghost var L := Carve(Now(), n).L;
      ptr := ptr + n;
      layout := L;
    }

    /** AllocateFromExistingWithCleanupFallback, with the node filled as every caller does at once. */
    method AllocateFromExistingWithCleanup(n: nat, elem: int, fn: int) returns (ret: int)
      requires Valid() && n % 8 == 0 && HasSpace(Fields(), n + CLEANUP_SIZE)
      modifies this
      ensures Valid() && Now() == Register(Carve(old(Now()), n), Cleanup(elem, fn))
      ensures ret == old(ptr)
    {
      ret := AllocateFromExisting(n);
      NodeKeepsCore(Fields(), layout, Cleanup(elem, fn));
      NodeKeepsAligned(Now(), Cleanup(elem, fn));
      ghost var L := Register(Now(), Cleanup(elem, fn)).L;
      limit := limit - CLEANUP_SIZE;
      mem := mem[limit := elem][limit + WORD := fn];
      layout := L;
    }

    method AllocateAligned(n: nat, forArray: bool, policy: Policy, base: int) returns (ret: int)
      requires Valid() && Legal(Now(), policy, Alloc(n, forArray, base))
      modifies this
      ensures Valid() && Now() == Step(old(Now()), policy, Alloc(n, forArray, base))
      ensures exists id: nat ::
                && Holds(layout, id) && !Holds(old(layout), id)
                && layout.cells[id].addr == ret && layout.cells[id].size == n
    {
      ghost var was := Now();
      if forArray {
        ret := TryAllocateFromCachedBlock(n);
        if ret != 0 {
          PopTakesHead(was.a, was.L, n);
          assert Holds(layout, was.L.lists[RequestIndex(n)][0]) && !Holds(was.L, was.L.lists[RequestIndex(n)][0]);
          return;
        }
      }
      if !(n <= limit - ptr) {
        AllocateNewBlock(n, policy, base);
      }
      ret := AllocateFromExisting(n);
      assert Holds(layout, |layout.cells| - 1) && !Holds(old(layout), |layout.cells| - 1);
    }

    /** AddCleanup is the case n == 0. */
    method AllocateAlignedWithCleanup(n: nat, elem: int, fn: int, policy: Policy, base: int) returns (ret: int)
      requires Valid() && Legal(Now(), policy, AllocWithCleanup(n, Cleanup(elem, fn), base))
      modifies this
      ensures Valid() && Now() == Step(old(Now()), policy, AllocWithCleanup(n, Cleanup(elem, fn), base))
      ensures exists id: nat ::
                && Holds(layout, id) && !Holds(old(layout), id)
                && layout.cells[id].addr == ret && layout.cells[id].size == n
    {
      if !(n + CLEANUP_SIZE <= limit - ptr) {
        AllocateNewBlock(n + CLEANUP_SIZE, policy, base);
      }
      ret := AllocateFromExistingWithCleanup(n, elem, fn);
      assert Holds(layout, |layout.cells| - 1) && !Holds(old(layout), |layout.cells| - 1);
    }

    method ReturnArrayMemory(p: int, size: nat, ghost id: nat)
      requires Valid() && Returnable(layout, id, size) && size < SIZE_LIMIT && layout.cells[id].addr == p
      modifies this
      ensures Valid() && Now() == GiveBack(old(Now()), id, size)
    {
      ghost var was := Now();
      GiveBackKeepsInv(was, id, size);
      var index := ReturnIndex(size);
      if index >= cachedBlockLength {
        WriteNewTable(p, size, id);
        cachedBlocks := p;
        cachedBlockLength := Min(64, size / WORD);
      } else {
        var slot := cachedBlocks + WORD * index;
        mem := mem[p := Load(mem, slot)];
        mem := mem[slot := p];
      }
      layout := GiveBack(was, id, size).L;
    }

    /** The std::copy and std::fill of ReturnArrayMemory, word by word. */
    method WriteNewTable(p: int, size: nat, ghost id: nat)
      requires Valid() && Returnable(layout, id, size) && size < SIZE_LIMIT && layout.cells[id].addr == p
      requires ReturnIndex(size) >= cachedBlockLength
      modifies this`mem
      ensures mem == WriteTable(old(mem), p, cachedBlocks, cachedBlockLength, size / WORD)
    {
      ghost var was := mem;
      TableGrows(cachedBlockLength, size);
      var i := 0;
      while i < cachedBlockLength
        invariant 0 <= i <= cachedBlockLength
        invariant mem == WriteTable(was, p, cachedBlocks, cachedBlockLength, i)
      {
        WriteTableWords(was, p, cachedBlocks, cachedBlockLength, i);
        assert CellsApart(layout.cells, id, layout.tableCell);
        mem := mem[p + WORD * i := Load(mem, cachedBlocks + WORD * i)];
        i := i + 1;
      }
      while i < size / WORD
        invariant cachedBlockLength <= i <= size / WORD
        invariant mem == WriteTable(was, p, cachedBlocks, cachedBlockLength, i)
      {
        mem := mem[p + WORD * i := 0];
        i := i + 1;
      }
    }

    method SpaceUsed() returns (bytes: int)
      ensures bytes == SerialArenaLaws.SpaceUsed(Fields())
    {
      bytes := ptr - (head + BLOCK_HEADER_SIZE);
      bytes := bytes + spaceUsed;
      bytes := bytes - SERIAL_ARENA_SIZE;
    }

    /** Runs the cleanups; `log` is what ran, in order. */
    method CleanupList() returns (log: seq<Cleanup>)
      requires Valid()
      modifies this
      ensures Valid() && layout == old(layout)
      ensures Fields() == old(Fields()).(mem := mem) && mem == old(mem)[head + 16 := limit]
      ensures log == CleanupOrder(layout.blocks, |layout.blocks|)
    {
      SyncStart();
      log := RunBlocks();
    }

    /** What the walk over the blocks relies on. */
    ghost predicate Walkable()
      reads this
    {
      var bs := layout.blocks;
      && BlocksOk(bs) && TopsOk(bs) && HeadersOk(mem, bs) && NodesOk(mem, bs)
      && head == bs[|bs| - 1].addr && Load(mem, head + 16) == Start(bs, |bs| - 1)
    }

    /** The walk itself, from the head block to the first. */
    method RunBlocks() returns (log: seq<Cleanup>)
      requires Walkable()
      ensures log == CleanupOrder(layout.blocks, |layout.blocks|)
    {
      ghost var bs := layout.blocks;
      ghost var i := |bs|;
      BlockWords(mem, bs, i);
      var b := head;
      log := [];
      while b != 0
        invariant 0 <= i <= |bs| && b == (if i == 0 then 0 else bs[i - 1].addr) && (i > 0 ==> b > 0)
        invariant log + CleanupOrder(bs, i) == CleanupOrder(bs, |bs|)
        decreases i
      {
        BlockWords(mem, bs, i);
        var ran := CleanupBlock(b, i - 1, Load(mem, b + 16));
        CleanupOrderStep(log, bs, i);
        log := log + ran;
        b := Load(mem, b);
        i := i - 1;
        if i > 0 {
          BlockWords(mem, bs, i);
        }
      }
    }

    /** The loop over one block; `start` is where its nodes begin. */
    method CleanupBlock(b: int, ghost i: nat, start: int) returns (ran: seq<Cleanup>)
      requires Walkable()
      requires i < |layout.blocks| && b == layout.blocks[i].addr && start == Start(layout.blocks, i)
      ensures ran == BlockOrder(layout.blocks, i)
    {
      ghost var bs, nodes := layout.blocks, layout.blocks[i].nodes;
      assert HeaderOk(mem, bs, i) && TopOk(bs, i);
      var size := Load(mem, b + 8);
      var end := b + (size - size % 8);
      var it := start;
      ran := [];
      if NodeDistance(end, it) > 0 {
        ghost var j := 0;
        while it < end
          invariant 0 <= j <= |nodes| && it == start + CLEANUP_SIZE * j
          invariant ran == Reverse(nodes)[..j]
          decreases |nodes| - j
        {
          assert NodeOk(mem, bs, i, |nodes| - 1 - j);
          ReverseAt(nodes, j);
          ran := ran + [Cleanup(Load(mem, it), Load(mem, it + WORD))];
          it := it + CLEANUP_SIZE;
          j := j + 1;
        }
      }
    }

    /** CleanupList first records in the head block where its nodes start. */
    method SyncStart()
      requires Valid()
      modifies this
      ensures Valid() && layout == old(layout)
      ensures Fields() == old(Fields()).(mem := mem) && mem == old(mem)[head + 16 := limit]
    {
      HeaderWordKeepsInv(Fields(), layout, limit);
      mem := mem[head + 16 := limit];
    }
  }

  lemma HeaderWordKeepsInv(a: Arena, L: Layout, v: int)
    requires Inv(a, L)
    ensures Inv(a.(mem := a.mem[a.head + 16 := v]), L)
  {
    var bs, m', last := L.blocks, a.mem[a.head + 16 := v], |L.blocks| - 1;
    assert AgreeOutside(a.mem, m', a.head + 16, a.head + 17);
    var lo, hi := a.head + 16, a.head + 17;
    assert BlockOk(bs, last);
    forall i | 0 <= i < |bs| ensures HeaderOk(m', bs, i) {
      assert HeaderOk(a.mem, bs, i) && BlockOk(bs, i);
      assert i != last ==> BlocksApart(bs, i, last);
    }
    forall i, k | 0 <= i < |bs| && 0 <= k < |bs[i].nodes| ensures NodeOk(m', bs, i, k) {
      assert NodeOk(a.mem, bs, i, k) && BlockOk(bs, i);
      assert i != last ==> BlocksApart(bs, i, last);
    }
    forall id | 0 <= id < |L.cells| ensures OffCell(L.cells, id, lo, hi) {
      assert CellOk(L.cells, id, bs, a.ptr) && BlockOk(bs, L.cells[id].blk);
      assert L.cells[id].blk != last ==> BlocksApart(bs, L.cells[id].blk, last);
    }
    FrameLists(a.mem, m', a.table, L, lo, hi);
  }
}
