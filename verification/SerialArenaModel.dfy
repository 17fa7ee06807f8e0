/**
 The state of one SerialArena as the allocator keeps it, word by word, and the layout of its
 blocks that the allocator's callers rely on.

 Addresses are integers and a pointer takes eight bytes.  `Memory` gives the word that starts at
 an address.  The block headers, the cleanup nodes, the free-list table and the links of the free
 lists are ordinary words of that memory, in the same blocks as the regions handed to callers.
 */
module SerialArenaModel {
  import opened Bits

  const BLOCK_HEADER_SIZE: int := 24
  const SERIAL_ARENA_SIZE: int := 80
  const CLEANUP_SIZE: int := 16
  const WORD: int := 8
  const MAX_TABLE: int := 64
  const SIZE_LIMIT: int := 0x1_0000_0000_0000_0000

  // ----- Memory ---------------------------------------------------------------------------------

  type Memory = map<int, int>

  function Load(m: Memory, a: int): int { if a in m then m[a] else 0 }

  ghost predicate AgreeOutside(m: Memory, m': Memory, lo: int, hi: int) {
    forall w {:trigger Load(m', w)} {:trigger Load(m, w)} :: w < lo || hi <= w ==> Load(m', w) == Load(m, w)
  }

  // ----- The fields of a SerialArena ------------------------------------------------------------

  datatype Policy = Policy(startBlockSize: nat, maxBlockSize: nat)

  const DEFAULT_POLICY := Policy(256, 8192)

  datatype Arena = Arena(mem: Memory, head: int, ptr: int, limit: int, table: int, tableLen: nat,
                         spaceUsed: int, spaceAllocated: int)

  /** AllocateMemory: the size of the next block. */
  function NextBlockSize(policy: Policy, lastSize: int, minBytes: int): int {
    var size := if lastSize != 0 then Min(2 * lastSize, policy.maxBlockSize) else policy.startBlockSize;
    Max(size, BLOCK_HEADER_SIZE + minBytes)
  }

  /** SerialArena::New on a block of the given address and size. */
  function NewArena(mem: Memory, addr: int, size: int): Arena {
    Arena(mem[addr := 0][addr + 8 := size][addr + 16 := 0],
          addr, addr + BLOCK_HEADER_SIZE + SERIAL_ARENA_SIZE, addr + (size - size % 8), 0, 0, 0, size)
  }

  function Bump(a: Arena, n: int): Arena { a.(ptr := a.ptr + n) }

  function PushNode(a: Arena, n: int, elem: int, fn: int): Arena {
    a.(ptr := a.ptr + n, limit := a.limit - CLEANUP_SIZE,
       mem := a.mem[a.limit - CLEANUP_SIZE := elem][a.limit - CLEANUP_SIZE + WORD := fn])
  }

  /** AllocateNewBlock, with `base` the address that the block allocator returned. */
  function NewBlock(a: Arena, policy: Policy, n: int, base: int): Arena {
    var size := NextBlockSize(policy, Load(a.mem, a.head + 8), n);
    a.(mem := a.mem[a.head + 16 := a.limit][base := a.head][base + 8 := size][base + 16 := 0],
       head := base, ptr := base + BLOCK_HEADER_SIZE, limit := base + size,
       spaceUsed := a.spaceUsed + (a.ptr - (a.head + BLOCK_HEADER_SIZE)),
       spaceAllocated := a.spaceAllocated + size)
  }

  predicate HasSpace(a: Arena, n: int) { n <= a.limit - a.ptr }

  /** The free list from which TryAllocateFromCachedBlock takes a block for a request of n bytes. */
  function RequestIndex(n: nat): nat
    requires n >= 16
  {
    Log2AtLeast3And4(n - 1);
    Log2Floor(n - 1) - 3
  }

  /** The free list to which ReturnArrayMemory adds a block of `size` bytes. */
  function ReturnIndex(size: nat): nat
    requires size >= 16
  {
    Log2AtLeast3And4(size);
    Log2Floor(size) - 4
  }

  lemma Log2AtLeast3And4(n: nat)
    requires n >= 15
    ensures Log2Floor(n) >= 3
    ensures n >= 16 ==> Log2Floor(n) >= 4
  {
    assert Pow2(0) == 1 && Pow2(1) == 2 && Pow2(2) == 4 && Pow2(3) == 8;
    if Log2Floor(n) < 3 {
      Pow2Monotone(Log2Floor(n), 2);
    } else if Log2Floor(n) < 4 {
      Pow2Monotone(Log2Floor(n), 3);
    }
  }

  predicate CanPop(a: Arena, n: nat) {
    n >= 16 && RequestIndex(n) < a.tableLen && Load(a.mem, a.table + WORD * RequestIndex(n)) != 0
  }

  function Pop(a: Arena, i: nat): Arena {
    var slot := a.table + WORD * i;
    a.(mem := a.mem[slot := Load(a.mem, Load(a.mem, slot))])
  }

  function PushCached(a: Arena, i: nat, p: int): Arena {
    var slot := a.table + WORD * i;
    a.(mem := a.mem[p := Load(a.mem, slot)][slot := p])
  }

  /** std::copy of the first `len` words from `src`, then std::fill with null, up to word n. */
  function WriteTable(m: Memory, dst: int, src: int, len: nat, n: nat): Memory {
    if n == 0 then m
    else
      WriteTable(m, dst, src, len, n - 1)
      [dst + WORD * (n - 1) := if n - 1 < len then Load(m, src + WORD * (n - 1)) else 0]
  }

  function ReplaceTable(a: Arena, p: int, size: nat): Arena {
    a.(mem := WriteTable(a.mem, p, a.table, a.tableLen, size / WORD),
       table := p, tableLen := Min(MAX_TABLE, size / WORD))
  }

  // ----- The layout: what the words above stand for ---------------------------------------------

  datatype Cleanup = Cleanup(elem: int, fn: int)

  /** A block, the address its cleanup nodes grow down from, and the cleanups registered in it,
      oldest first. */
  datatype Block = Block(addr: int, size: int, top: int, nodes: seq<Cleanup>)

  /** Live: with the caller.  Cached(i): on free list i.  Table: the current free-list table.
      Dead: a table that has been replaced. */
  datatype Kind = Live | Cached(index: nat) | Table | Dead

  /** A region carved from a block; `size` is what its present holder knows it to have. */
  datatype Cell = Cell(addr: int, size: int, blk: nat, kind: Kind)

  /** Blocks oldest first; the regions in the order they were carved; per free list the regions
      on it, next to be taken first; and the region that holds the table. */
  datatype Layout = Layout(blocks: seq<Block>, cells: seq<Cell>, lists: seq<seq<nat>>, tableCell: nat)

  predicate Disjoint(lo1: int, hi1: int, lo2: int, hi2: int) { hi1 <= lo2 || hi2 <= lo1 }

  /** Where the cleanup nodes of block i start. */
  function Start(bs: seq<Block>, i: nat): int
    requires i < |bs|
  {
    bs[i].top - CLEANUP_SIZE * |bs[i].nodes|
  }

  /** Where the data of block i starts; the first block also holds the SerialArena itself. */
  function Lo(bs: seq<Block>, i: nat): int
    requires i < |bs|
  {
    bs[i].addr + BLOCK_HEADER_SIZE + if i == 0 then SERIAL_ARENA_SIZE else 0
  }

  /** Where the data of block i ends. */
  function Hi(bs: seq<Block>, i: nat, ptr: int): int
    requires i < |bs|
  {
    if i == |bs| - 1 then ptr else Start(bs, i)
  }

  ghost predicate BlockOk(bs: seq<Block>, i: nat)
    requires i < |bs|
  {
    0 < bs[i].addr && Lo(bs, i) <= Start(bs, i) && bs[i].top <= bs[i].addr + bs[i].size
  }

  ghost predicate BlocksApart(bs: seq<Block>, i: nat, j: nat)
    requires i < |bs| && j < |bs|
  {
    Disjoint(bs[i].addr, bs[i].addr + bs[i].size, bs[j].addr, bs[j].addr + bs[j].size)
  }

  ghost predicate BlocksOk(bs: seq<Block>) {
    && |bs| > 0
    && (forall i | 0 <= i < |bs| :: BlockOk(bs, i))
    && (forall i, j | 0 <= i < |bs| && 0 <= j < |bs| && i != j :: BlocksApart(bs, i, j))
  }

  ghost predicate BumpOk(a: Arena, bs: seq<Block>)
    requires |bs| > 0
  {
    var last := |bs| - 1;
    && a.head == bs[last].addr
    && a.limit == Start(bs, last)
    && Lo(bs, last) <= a.ptr <= a.limit
  }

  /** The header of block i: the older block, the size and, once it is full, where its nodes start. */
  ghost predicate HeaderOk(m: Memory, bs: seq<Block>, i: nat)
    requires i < |bs|
  {
    && Load(m, bs[i].addr) == (if i == 0 then 0 else bs[i - 1].addr)
    && Load(m, bs[i].addr + 8) == bs[i].size
    && (i < |bs| - 1 ==> Load(m, bs[i].addr + 16) == Start(bs, i))
  }

  ghost predicate HeadersOk(m: Memory, bs: seq<Block>) {
    forall i | 0 <= i < |bs| :: HeaderOk(m, bs, i)
  }

  /** The k-th cleanup of block i sits in the k-th node slot below the top. */
  ghost predicate NodeOk(m: Memory, bs: seq<Block>, i: nat, k: nat)
    requires i < |bs| && k < |bs[i].nodes|
  {
    && Load(m, bs[i].top - CLEANUP_SIZE * (k + 1)) == bs[i].nodes[k].elem
    && Load(m, bs[i].top - CLEANUP_SIZE * (k + 1) + WORD) == bs[i].nodes[k].fn
  }

  ghost predicate NodesOk(m: Memory, bs: seq<Block>) {
    forall i, k | 0 <= i < |bs| && 0 <= k < |bs[i].nodes| :: NodeOk(m, bs, i, k)
  }

  ghost predicate CellOk(cells: seq<Cell>, id: nat, bs: seq<Block>, ptr: int)
    requires id < |cells|
  {
    var c := cells[id];
    c.blk < |bs| && c.size >= 0 && Lo(bs, c.blk) <= c.addr && c.addr + c.size <= Hi(bs, c.blk, ptr)
  }

  ghost predicate CellsApart(cells: seq<Cell>, i: nat, j: nat)
    requires i < |cells| && j < |cells|
  {
    Disjoint(cells[i].addr, cells[i].addr + cells[i].size, cells[j].addr, cells[j].addr + cells[j].size)
  }

  ghost predicate CellsOk(cells: seq<Cell>, bs: seq<Block>, ptr: int) {
    && (forall id | 0 <= id < |cells| :: CellOk(cells, id, bs, ptr))
    && (forall i, j | 0 <= i < |cells| && 0 <= j < |cells| && i != j :: CellsApart(cells, i, j))
  }

  /** No region but `tableCell` holds the table. */
  ghost predicate NoOtherTable(cells: seq<Cell>, id: nat, tableLen: nat, tableCell: nat)
    requires id < |cells|
  {
    cells[id].kind == Table ==> id == tableCell && tableLen > 0
  }

  ghost predicate TableOk(table: int, tableLen: nat, cells: seq<Cell>, tableCell: nat) {
    && tableLen <= MAX_TABLE
    && (forall id | 0 <= id < |cells| :: NoOtherTable(cells, id, tableLen, tableCell))
    && (tableLen > 0 ==>
          && tableCell < |cells|
          && cells[tableCell].kind == Table
          && cells[tableCell].addr == table
          && WORD * tableLen <= cells[tableCell].size)
  }

  /** A region on free list i is marked so, and is big enough for every request that looks there. */
  ghost predicate EntryOk(cells: seq<Cell>, list: seq<nat>, i: nat, k: nat)
    requires k < |list|
  {
    list[k] < |cells| && cells[list[k]].kind == Cached(i) && cells[list[k]].size >= Pow2(i + 4)
  }

  ghost predicate Differ(list: seq<nat>, k: nat, l: nat)
    requires k < |list| && l < |list|
  {
    list[k] != list[l]
  }

  /** A region marked as being on a free list is on that list. */
  ghost predicate OnItsList(cells: seq<Cell>, lists: seq<seq<nat>>, id: nat)
    requires id < |cells|
  {
    cells[id].kind.Cached? ==> cells[id].kind.index < |lists| && id in lists[cells[id].kind.index]
  }

  /** Each free list holds exactly the regions marked with its index, each once. */
  ghost predicate ListsOk(cells: seq<Cell>, lists: seq<seq<nat>>) {
    && (forall i, k | 0 <= i < |lists| && 0 <= k < |lists[i]| :: EntryOk(cells, lists[i], i, k))
    && (forall i, k, l | 0 <= i < |lists| && 0 <= k < l < |lists[i]| :: Differ(lists[i], k, l))
    && (forall id | 0 <= id < |cells| :: OnItsList(cells, lists, id))
  }

  /** The address of the k-th region of a free list, or null past its end. */
  function LinkAt(cells: seq<Cell>, list: seq<nat>, k: nat): int {
    if k < |list| && list[k] < |cells| then cells[list[k]].addr else 0
  }

  ghost predicate LinkOk(m: Memory, cells: seq<Cell>, list: seq<nat>, k: nat) {
    Load(m, LinkAt(cells, list, k)) == LinkAt(cells, list, k + 1)
  }

  ghost predicate ListLinked(m: Memory, slot: int, cells: seq<Cell>, list: seq<nat>) {
    && Load(m, slot) == LinkAt(cells, list, 0)
    && (forall k | 0 <= k < |list| :: LinkOk(m, cells, list, k))
  }

  ghost predicate ListsLinked(m: Memory, table: int, cells: seq<Cell>, lists: seq<seq<nat>>) {
    forall i | 0 <= i < |lists| :: ListLinked(m, table + WORD * i, cells, lists[i])
  }

  function TotalSize(bs: seq<Block>): int {
    if |bs| == 0 then 0 else TotalSize(bs[..|bs| - 1]) + bs[|bs| - 1].size
  }

  ghost predicate Core(a: Arena, L: Layout) {
    && BlocksOk(L.blocks)
    && BumpOk(a, L.blocks)
    && HeadersOk(a.mem, L.blocks)
    && NodesOk(a.mem, L.blocks)
    && CellsOk(L.cells, L.blocks, a.ptr)
    && |L.lists| == a.tableLen
    && TableOk(a.table, a.tableLen, L.cells, L.tableCell)
    && ListsOk(L.cells, L.lists)
    && ListsLinked(a.mem, a.table, L.cells, L.lists)
    && a.spaceAllocated == TotalSize(L.blocks)
  }

  /** The nodes of the first block start from its size rounded down to a multiple of 8, those of
      every other block from its size as it is. */
  predicate TopOk(bs: seq<Block>, i: nat)
    requires i < |bs|
  {
    bs[i].top == bs[i].addr + if i == 0 then bs[i].size - bs[i].size % 8 else bs[i].size
  }

  ghost predicate TopsOk(bs: seq<Block>) { forall i | 0 <= i < |bs| :: TopOk(bs, i) }

  predicate BlockAligned(bs: seq<Block>, i: nat)
    requires i < |bs|
  {
    bs[i].addr % 8 == 0
  }

  predicate CellAligned(cells: seq<Cell>, id: nat)
    requires id < |cells|
  {
    cells[id].addr % 8 == 0
  }

  ghost predicate Aligned(a: Arena, L: Layout) {
    && a.ptr % 8 == 0
    && TopsOk(L.blocks)
    && (forall i | 0 <= i < |L.blocks| :: BlockAligned(L.blocks, i))
    && (forall id | 0 <= id < |L.cells| :: CellAligned(L.cells, id))
  }

  ghost predicate Inv(a: Arena, L: Layout) { Core(a, L) && Aligned(a, L) }
}
