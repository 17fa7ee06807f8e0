/**
 What every step of a SerialArena keeps, one group of lemmas a step.  The theorems about whole runs
 are in SerialArenaRuns.
 */
module SerialArenaProofs {
  import opened Bits
  import opened SerialArenaModel

  // ----- What the steps do to the layout --------------------------------------------------------

  function LayoutBump(L: Layout, ptr: int, n: int): Layout
    requires |L.blocks| > 0
  {
    L.(cells := L.cells + [Cell(ptr, n, |L.blocks| - 1, Live)])
  }

  function AddNode(bs: seq<Block>, c: Cleanup): seq<Block>
    requires |bs| > 0
  {
    var last := |bs| - 1;
    bs[last := bs[last].(nodes := bs[last].nodes + [c])]
  }

  function LayoutNode(L: Layout, c: Cleanup): Layout
    requires |L.blocks| > 0
  {
    L.(blocks := AddNode(L.blocks, c))
  }

  function AddBlock(bs: seq<Block>, addr: int, size: int): seq<Block> { bs + [Block(addr, size, addr + size, [])] }

  function LayoutNewBlock(L: Layout, addr: int, size: int): Layout { L.(blocks := AddBlock(L.blocks, addr, size)) }

  /** The region at the head of free list i goes to the caller. */
  function LayoutPop(L: Layout, i: nat, n: int): Layout
    requires i < |L.lists| && |L.lists[i]| > 0 && L.lists[i][0] < |L.cells|
  {
    var id := L.lists[i][0];
    L.(cells := L.cells[id := L.cells[id].(size := n, kind := Live)], lists := L.lists[i := L.lists[i][1..]])
  }

  function LayoutPush(L: Layout, i: nat, id: nat, size: int): Layout
    requires i < |L.lists| && id < |L.cells|
  {
    L.(cells := L.cells[id := L.cells[id].(size := size, kind := Cached(i))],
       lists := L.lists[i := [id] + L.lists[i]])
  }

  /** The old table, if there is one, is dead; the returned region is the new table. */
  function LayoutTable(L: Layout, id: nat, size: int): Layout
    requires id < |L.cells|
  {
    var cells := if |L.lists| > 0 && L.tableCell < |L.cells|
                 then L.cells[L.tableCell := L.cells[L.tableCell].(kind := Dead)] else L.cells;
    var n := Min(MAX_TABLE, size / WORD);
    L.(cells := cells[id := cells[id].(size := size, kind := Table)],
       lists := L.lists + seq(Max(0, n - |L.lists|), _ => []), tableCell := id)
  }

  // ----- Frames: writes inside one region leave the words outside it alone ----------------------

  ghost predicate InBlock(bs: seq<Block>, b: nat, lo: int, hi: int)
    requires b < |bs|
  {
    bs[b].addr + BLOCK_HEADER_SIZE <= lo && hi <= Start(bs, b)
  }

  lemma CellInBlock(a: Arena, L: Layout, id: nat)
    requires BumpBasics(a, L) && id < |L.cells|
    ensures L.cells[id].blk < |L.blocks|
    ensures InBlock(L.blocks, L.cells[id].blk, L.cells[id].addr, L.cells[id].addr + L.cells[id].size)
  {
    assert CellOk(L.cells, id, L.blocks, a.ptr);
  }

  ghost predicate BumpBasics(a: Arena, L: Layout) {
    BlocksOk(L.blocks) && BumpOk(a, L.blocks) && CellsOk(L.cells, L.blocks, a.ptr)
  }

  lemma FrameHeaders(m: Memory, m': Memory, bs: seq<Block>, b: nat, lo: int, hi: int)
    requires BlocksOk(bs) && HeadersOk(m, bs) && b < |bs| && InBlock(bs, b, lo, hi) && AgreeOutside(m, m', lo, hi)
    ensures HeadersOk(m', bs)
  {
    forall i | 0 <= i < |bs| ensures HeaderOk(m', bs, i) {
      assert HeaderOk(m, bs, i) && BlockOk(bs, i) && BlockOk(bs, b);
      assert i != b ==> BlocksApart(bs, i, b);
    }
  }

  lemma FrameNodes(m: Memory, m': Memory, bs: seq<Block>, b: nat, lo: int, hi: int)
    requires BlocksOk(bs) && NodesOk(m, bs) && b < |bs| && InBlock(bs, b, lo, hi) && AgreeOutside(m, m', lo, hi)
    ensures NodesOk(m', bs)
  {
    forall i, k | 0 <= i < |bs| && 0 <= k < |bs[i].nodes| ensures NodeOk(m', bs, i, k) {
      assert NodeOk(m, bs, i, k) && BlockOk(bs, i) && BlockOk(bs, b);
      assert i != b ==> BlocksApart(bs, i, b);
    }
  }

  /** What the frame lemmas need of a free list: its members exist and have room for a link. */
  ghost predicate Listed(cells: seq<Cell>, list: seq<nat>) {
    forall k | 0 <= k < |list| :: HasRoom(cells, list, k)
  }

  ghost predicate HasRoom(cells: seq<Cell>, list: seq<nat>, k: nat)
    requires k < |list|
  {
    list[k] < |cells| && cells[list[k]].size >= 16
  }

  lemma ListIsListed(cells: seq<Cell>, lists: seq<seq<nat>>, i: nat)
    requires ListsOk(cells, lists) && i < |lists|
    ensures Listed(cells, lists[i])
  {
    forall k | 0 <= k < |lists[i]| ensures HasRoom(cells, lists[i], k) {
      assert EntryOk(cells, lists[i], i, k);
      Pow2Monotone(4, i + 4);
      assert Pow2(4) == 16 by { Log2AtLeast3And4(16); }
    }
  }

  lemma OthersNotListed(cells: seq<Cell>, lists: seq<seq<nat>>, i: nat, id: nat)
    requires ListsOk(cells, lists) && i < |lists| && id < |cells| && cells[id].kind != Cached(i)
    ensures id !in lists[i]
  {
    forall k | 0 <= k < |lists[i]| ensures lists[i][k] != id {
      assert EntryOk(cells, lists[i], i, k);
    }
  }

  /** A list is what it was when its slot and the links in its members are. */
  lemma FrameLinks(m: Memory, m': Memory, slot: int, cells: seq<Cell>, list: seq<nat>)
    requires ListLinked(m, slot, cells, list) && Load(m', slot) == Load(m, slot)
    requires forall k | 0 <= k < |list| :: SameLink(m, m', cells, list, k)
    ensures ListLinked(m', slot, cells, list)
  {
    forall k | 0 <= k < |list| ensures LinkOk(m', cells, list, k) {
      assert LinkOk(m, cells, list, k) && SameLink(m, m', cells, list, k);
    }
  }

  ghost predicate SameLink(m: Memory, m': Memory, cells: seq<Cell>, list: seq<nat>, k: nat)
    requires k < |list|
  {
    Load(m', LinkAt(cells, list, k)) == Load(m, LinkAt(cells, list, k))
  }

  // ----- Steps that write outside all regions ---------------------------------------------------

  /** The words of the stretch lo..hi are in no region. */
  ghost predicate OffCells(cells: seq<Cell>, lo: int, hi: int) {
    forall id | 0 <= id < |cells| :: OffCell(cells, id, lo, hi)
  }

  ghost predicate OffCell(cells: seq<Cell>, id: nat, lo: int, hi: int)
    requires id < |cells|
  {
    Disjoint(cells[id].addr, cells[id].addr + cells[id].size, lo, hi)
  }

  lemma FrameLists(m: Memory, m': Memory, table: int, L: Layout, lo: int, hi: int)
    requires TableOk(table, |L.lists|, L.cells, L.tableCell)
    requires ListsOk(L.cells, L.lists) && ListsLinked(m, table, L.cells, L.lists)
    requires OffCells(L.cells, lo, hi) && AgreeOutside(m, m', lo, hi)
    ensures ListsLinked(m', table, L.cells, L.lists)
  {
    forall i | 0 <= i < |L.lists| ensures ListLinked(m', table + WORD * i, L.cells, L.lists[i]) {
      var list := L.lists[i];
      assert ListLinked(m, table + WORD * i, L.cells, list);
      ListIsListed(L.cells, L.lists, i);
      assert OffCell(L.cells, L.tableCell, lo, hi);
      forall k | 0 <= k < |list| ensures SameLink(m, m', L.cells, list, k) {
        assert HasRoom(L.cells, list, k) && OffCell(L.cells, list[k], lo, hi);
      }
      FrameLinks(m, m', table + WORD * i, L.cells, list);
    }
  }

  // ----- The caller writes into a region it holds -----------------------------------------------

  /** A write inside region `id`, which is neither the table nor free. */
  lemma FrameHeldLists(m: Memory, m': Memory, a: Arena, L: Layout, id: nat)
    requires CellsOk(L.cells, L.blocks, a.ptr) && TableOk(a.table, |L.lists|, L.cells, L.tableCell)
    requires ListsOk(L.cells, L.lists) && ListsLinked(m, a.table, L.cells, L.lists)
    requires id < |L.cells| && L.cells[id].kind == Live
    requires AgreeOutside(m, m', L.cells[id].addr, L.cells[id].addr + L.cells[id].size)
    ensures ListsLinked(m', a.table, L.cells, L.lists)
  {
    forall i | 0 <= i < |L.lists| ensures ListLinked(m', a.table + WORD * i, L.cells, L.lists[i]) {
      var list := L.lists[i];
      assert ListLinked(m, a.table + WORD * i, L.cells, list);
      ListIsListed(L.cells, L.lists, i);
      OthersNotListed(L.cells, L.lists, i, id);
      assert CellsApart(L.cells, L.tableCell, id);
      forall k | 0 <= k < |list| ensures SameLink(m, m', L.cells, list, k) {
        assert HasRoom(L.cells, list, k) && CellsApart(L.cells, list[k], id);
      }
      FrameLinks(m, m', a.table + WORD * i, L.cells, list);
    }
  }

  /** The allocator's own words survive whatever the caller stores in the regions it holds. */
  lemma ClientWriteKeepsCore(a: Arena, L: Layout, id: nat, w: int, v: int)
    requires Core(a, L)
    requires id < |L.cells| && L.cells[id].kind == Live
    requires L.cells[id].addr <= w < L.cells[id].addr + L.cells[id].size
    ensures Core(a.(mem := a.mem[w := v]), L)
  {
    var m', c := a.mem[w := v], L.cells[id];
    assert AgreeOutside(a.mem, m', c.addr, c.addr + c.size);
    CellInBlock(a, L, id);
    FrameHeaders(a.mem, m', L.blocks, c.blk, c.addr, c.addr + c.size);
    FrameNodes(a.mem, m', L.blocks, c.blk, c.addr, c.addr + c.size);
    FrameHeldLists(a.mem, m', a, L, id);
  }

  // ----- Carving a region -----------------------------------------------------------------------

  lemma BumpCells(a: Arena, L: Layout, n: int)
    requires BumpBasics(a, L) && n >= 0 && HasSpace(a, n)
    ensures CellsOk(LayoutBump(L, a.ptr, n).cells, L.blocks, a.ptr + n)
  {
    var cells, ptr' := LayoutBump(L, a.ptr, n).cells, a.ptr + n;
    forall id | 0 <= id < |cells| ensures CellOk(cells, id, L.blocks, ptr') {
      if id < |L.cells| {
        assert CellOk(L.cells, id, L.blocks, a.ptr);
      }
    }
    forall i, j | 0 <= i < |cells| && 0 <= j < |cells| && i != j ensures CellsApart(cells, i, j) {
      if i < |L.cells| && j < |L.cells| {
        assert CellsApart(L.cells, i, j);
      } else {
        var o := if i < |L.cells| then i else j;
        NewCellApart(a, L, o, n);
      }
    }
  }

  /** The free space of the head block is above every region in it, and in no other block. */
  lemma NewCellApart(a: Arena, L: Layout, id: nat, n: int)
    requires BumpBasics(a, L) && id < |L.cells| && n >= 0 && HasSpace(a, n)
    ensures Disjoint(L.cells[id].addr, L.cells[id].addr + L.cells[id].size, a.ptr, a.ptr + n)
  {
    var b, last := L.cells[id].blk, |L.blocks| - 1;
    assert CellOk(L.cells, id, L.blocks, a.ptr);
    if b != last {
      assert BlockOk(L.blocks, b) && BlockOk(L.blocks, last) && BlocksApart(L.blocks, b, last);
    }
  }

  /** Regions carved later change no free list. */
  lemma CellsAppended(m: Memory, table: int, tableLen: nat, L: Layout, c: Cell)
    requires ListsOk(L.cells, L.lists) && ListsLinked(m, table, L.cells, L.lists)
    requires TableOk(table, tableLen, L.cells, L.tableCell) && c.kind == Live
    ensures var cells := L.cells + [c];
            ListsOk(cells, L.lists) && ListsLinked(m, table, cells, L.lists)
            && TableOk(table, tableLen, cells, L.tableCell)
  {
    var cells := L.cells + [c];
    forall i, k | 0 <= i < |L.lists| && 0 <= k < |L.lists[i]| ensures EntryOk(cells, L.lists[i], i, k) {
      assert EntryOk(L.cells, L.lists[i], i, k);
    }
    forall id | 0 <= id < |cells| ensures OnItsList(cells, L.lists, id) {
      assert id < |L.cells| ==> OnItsList(L.cells, L.lists, id);
    }
    forall id | 0 <= id < |cells| ensures NoOtherTable(cells, id, tableLen, L.tableCell) {
      assert id < |L.cells| ==> NoOtherTable(L.cells, id, tableLen, L.tableCell);
    }
    forall i | 0 <= i < |L.lists| ensures ListLinked(m, table + WORD * i, cells, L.lists[i]) {
      var list := L.lists[i];
      assert ListLinked(m, table + WORD * i, L.cells, list);
      assert |list| > 0 ==> EntryOk(L.cells, list, i, 0);
      forall k | 0 <= k < |list| ensures LinkOk(m, cells, list, k) {
        assert LinkOk(m, L.cells, list, k) && EntryOk(L.cells, list, i, k);
        assert k + 1 < |list| ==> EntryOk(L.cells, list, i, k + 1);
      }
    }
  }

  lemma BumpKeepsCore(a: Arena, L: Layout, n: int)
    requires Core(a, L) && n >= 0 && HasSpace(a, n)
    ensures Core(Bump(a, n), LayoutBump(L, a.ptr, n))
  {
    BumpCells(a, L, n);
    CellsAppended(a.mem, a.table, a.tableLen, L, Cell(a.ptr, n, |L.blocks| - 1, Live));
  }

  // ----- Pushing a cleanup node -----------------------------------------------------------------

  lemma AddNodeFacts(bs: seq<Block>, c: Cleanup)
    requires |bs| > 0
    ensures var bs' := AddNode(bs, c);
            && |bs'| == |bs|
            && TotalSize(bs') == TotalSize(bs)
            && (forall i | 0 <= i < |bs| ::
                  bs'[i].addr == bs[i].addr && bs'[i].size == bs[i].size && bs'[i].top == bs[i].top)
            && (forall i | 0 <= i < |bs| - 1 :: bs'[i] == bs[i])
            && bs'[|bs| - 1].nodes == bs[|bs| - 1].nodes + [c]
  {
    var bs' := AddNode(bs, c);
    assert bs'[..|bs| - 1] == bs[..|bs| - 1];
  }

  lemma NodeBlocks(a: Arena, L: Layout, c: Cleanup)
    requires BumpBasics(a, L) && HasSpace(a, CLEANUP_SIZE)
    ensures BlocksOk(AddNode(L.blocks, c)) && CellsOk(L.cells, AddNode(L.blocks, c), a.ptr)
    ensures OffCells(L.cells, a.limit - CLEANUP_SIZE, a.limit)
  {
    var bs, bs' := L.blocks, AddNode(L.blocks, c);
    AddNodeFacts(bs, c);
    forall i | 0 <= i < |bs'| ensures BlockOk(bs', i) {
      assert BlockOk(bs, i);
    }
    forall i, j | 0 <= i < |bs'| && 0 <= j < |bs'| && i != j ensures BlocksApart(bs', i, j) {
      assert BlocksApart(bs, i, j);
    }
    forall id | 0 <= id < |L.cells| ensures CellOk(L.cells, id, bs', a.ptr) {
      assert CellOk(L.cells, id, bs, a.ptr);
    }
    var lo := a.limit - CLEANUP_SIZE;
    forall id | 0 <= id < |L.cells| ensures OffCell(L.cells, id, lo, a.limit) {
      NodeOffCell(a, L, id);
    }
  }

  lemma NodeOffCell(a: Arena, L: Layout, id: nat)
    requires BumpBasics(a, L) && HasSpace(a, CLEANUP_SIZE) && id < |L.cells|
    ensures OffCell(L.cells, id, a.limit - CLEANUP_SIZE, a.limit)
  {
    var b, last := L.cells[id].blk, |L.blocks| - 1;
    assert CellOk(L.cells, id, L.blocks, a.ptr);
    if b != last {
      assert BlockOk(L.blocks, b) && BlockOk(L.blocks, last) && BlocksApart(L.blocks, b, last);
    }
  }

  lemma NodeWords(a: Arena, bs: seq<Block>, c: Cleanup, m': Memory)
    requires BlocksOk(bs) && BumpOk(a, bs) && HeadersOk(a.mem, bs) && NodesOk(a.mem, bs) && HasSpace(a, CLEANUP_SIZE)
    requires AgreeOutside(a.mem, m', a.limit - CLEANUP_SIZE, a.limit)
    requires Load(m', a.limit - CLEANUP_SIZE) == c.elem && Load(m', a.limit - CLEANUP_SIZE + WORD) == c.fn
    ensures HeadersOk(m', AddNode(bs, c)) && NodesOk(m', AddNode(bs, c))
  {
    var bs', last := AddNode(bs, c), |bs| - 1;
    AddNodeFacts(bs, c);
    forall i | 0 <= i < |bs'| ensures HeaderOk(m', bs', i) {
      assert HeaderOk(a.mem, bs, i) && BlockOk(bs, i) && BlockOk(bs, last);
      assert i != last ==> BlocksApart(bs, i, last);
    }
    forall i, k | 0 <= i < |bs'| && 0 <= k < |bs'[i].nodes| ensures NodeOk(m', bs', i, k) {
      if k < |bs[i].nodes| {
        assert NodeOk(a.mem, bs, i, k) && BlockOk(bs, i) && BlockOk(bs, last);
        assert i != last ==> BlocksApart(bs, i, last);
      }
    }
  }

  lemma NodeKeepsCore(a: Arena, L: Layout, c: Cleanup)
    requires Core(a, L) && HasSpace(a, CLEANUP_SIZE)
    ensures Core(PushNode(a, 0, c.elem, c.fn), LayoutNode(L, c))
  {
    var m' := PushNode(a, 0, c.elem, c.fn).mem;
    AddNodeFacts(L.blocks, c);
    NodeBlocks(a, L, c);
    assert AgreeOutside(a.mem, m', a.limit - CLEANUP_SIZE, a.limit);
    NodeWords(a, L.blocks, c, m');
    FrameLists(a.mem, m', a.table, L, a.limit - CLEANUP_SIZE, a.limit);
  }

  // ----- A new block ----------------------------------------------------------------------------

  /** What the block allocator owes: memory that overlaps no block it gave out before. */
  ghost predicate GoodBase(bs: seq<Block>, base: int, size: int) {
    && base > 0
    && (forall i | 0 <= i < |bs| :: OffBlock(bs, i, base, size))
  }

  ghost predicate OffBlock(bs: seq<Block>, i: nat, base: int, size: int)
    requires i < |bs|
  {
    Disjoint(bs[i].addr, bs[i].addr + bs[i].size, base, base + size)
  }

  lemma NewBlockBlocks(a: Arena, L: Layout, base: int, size: int)
    requires BumpBasics(a, L) && GoodBase(L.blocks, base, size) && size >= BLOCK_HEADER_SIZE
    ensures BlocksOk(AddBlock(L.blocks, base, size))
    ensures CellsOk(L.cells, AddBlock(L.blocks, base, size), base + BLOCK_HEADER_SIZE)
    ensures OffCells(L.cells, a.head, a.head + BLOCK_HEADER_SIZE) && OffCells(L.cells, base, base + BLOCK_HEADER_SIZE)
  {
    var bs, bs' := L.blocks, AddBlock(L.blocks, base, size);
    forall i | 0 <= i < |bs'| ensures BlockOk(bs', i) {
      assert i < |bs| ==> BlockOk(bs, i);
    }
    forall i, j | 0 <= i < |bs'| && 0 <= j < |bs'| && i != j ensures BlocksApart(bs', i, j) {
      if i < |bs| && j < |bs| {
        assert BlocksApart(bs, i, j);
      } else {
        assert OffBlock(bs, if i < |bs| then i else j, base, size);
      }
    }
    var ptr', headHi := base + BLOCK_HEADER_SIZE, a.head + BLOCK_HEADER_SIZE;
    forall id | 0 <= id < |L.cells| ensures CellOk(L.cells, id, bs', ptr') {
      assert CellOk(L.cells, id, bs, a.ptr);
    }
    forall id | 0 <= id < |L.cells|
      ensures OffCell(L.cells, id, a.head, headHi)
      ensures OffCell(L.cells, id, base, ptr')
    {
      NewBlockOffCell(a, L, base, size, id);
    }
  }

  lemma NewBlockOffCell(a: Arena, L: Layout, base: int, size: int, id: nat)
    requires BumpBasics(a, L) && GoodBase(L.blocks, base, size) && size >= BLOCK_HEADER_SIZE && id < |L.cells|
    ensures OffCell(L.cells, id, a.head, a.head + BLOCK_HEADER_SIZE)
    ensures OffCell(L.cells, id, base, base + BLOCK_HEADER_SIZE)
  {
    var bs, b, last := L.blocks, L.cells[id].blk, |L.blocks| - 1;
    assert CellOk(L.cells, id, bs, a.ptr) && BlockOk(bs, b) && BlockOk(bs, last) && OffBlock(bs, b, base, size);
    assert b != last ==> BlocksApart(bs, b, last);
  }

  /** The memory in two moves: the start word of the block left behind, then the new header. */
  lemma NewBlockHeaders(a: Arena, bs: seq<Block>, base: int, size: int, m1: Memory, m': Memory)
    requires BlocksOk(bs) && BumpOk(a, bs) && HeadersOk(a.mem, bs)
    requires GoodBase(bs, base, size) && size >= BLOCK_HEADER_SIZE
    requires m1 == a.mem[a.head + 16 := a.limit] && m' == m1[base := a.head][base + 8 := size][base + 16 := 0]
    ensures HeadersOk(m', AddBlock(bs, base, size))
  {
    var bs', last := AddBlock(bs, base, size), |bs| - 1;
    assert AgreeOutside(m1, m', base, base + BLOCK_HEADER_SIZE);
    assert AgreeOutside(a.mem, m1, a.head + 16, a.head + 17);
    assert BlockOk(bs, last);
    forall i | 0 <= i < |bs'| ensures HeaderOk(m', bs', i) {
      if i < |bs| {
        assert HeaderOk(a.mem, bs, i) && BlockOk(bs, i) && OffBlock(bs, i, base, size);
        assert i != last ==> BlocksApart(bs, i, last);
      }
    }
  }

  lemma NewBlockNodes(a: Arena, bs: seq<Block>, base: int, size: int, m1: Memory, m': Memory)
    requires BlocksOk(bs) && BumpOk(a, bs) && NodesOk(a.mem, bs)
    requires GoodBase(bs, base, size) && size >= BLOCK_HEADER_SIZE
    requires m1 == a.mem[a.head + 16 := a.limit] && m' == m1[base := a.head][base + 8 := size][base + 16 := 0]
    ensures NodesOk(m', AddBlock(bs, base, size))
  {
    var bs', last := AddBlock(bs, base, size), |bs| - 1;
    assert AgreeOutside(m1, m', base, base + BLOCK_HEADER_SIZE);
    assert AgreeOutside(a.mem, m1, a.head + 16, a.head + 17);
    assert BlockOk(bs, last);
    forall i, k | 0 <= i < |bs'| && 0 <= k < |bs'[i].nodes| ensures NodeOk(m', bs', i, k) {
      assert NodeOk(a.mem, bs, i, k) && BlockOk(bs, i) && OffBlock(bs, i, base, size);
      assert i != last ==> BlocksApart(bs, i, last);
    }
  }

  lemma NewBlockKeepsCore(a: Arena, L: Layout, policy: Policy, n: int, base: int, size: int)
    requires Core(a, L) && n >= 0
    requires size == NextBlockSize(policy, L.blocks[|L.blocks| - 1].size, n)
    requires GoodBase(L.blocks, base, size)
    ensures Core(NewBlock(a, policy, n, base), LayoutNewBlock(L, base, size))
    ensures HasSpace(NewBlock(a, policy, n, base), n)
  {
    assert HeaderOk(a.mem, L.blocks, |L.blocks| - 1);
    var m1, m' := a.mem[a.head + 16 := a.limit], NewBlock(a, policy, n, base).mem;
    NewBlockBlocks(a, L, base, size);
    NewBlockHeaders(a, L.blocks, base, size, m1, m');
    NewBlockNodes(a, L.blocks, base, size, m1, m');
    assert AgreeOutside(a.mem, m1, a.head, a.head + BLOCK_HEADER_SIZE);
    FrameLists(a.mem, m1, a.table, L, a.head, a.head + BLOCK_HEADER_SIZE);
    assert AgreeOutside(m1, m', base, base + BLOCK_HEADER_SIZE);
    FrameLists(m1, m', a.table, L, base, base + BLOCK_HEADER_SIZE);
    assert AddBlock(L.blocks, base, size)[..|L.blocks|] == L.blocks;
  }

  // ----- Taking a region from a free list -------------------------------------------------------

  /** A free list is big enough: what was returned to it fits every request that looks there. */
  lemma CachedFits(size: nat, n: nat)
    requires size >= 16 && n >= 16 && ReturnIndex(size) == RequestIndex(n)
    ensures n <= Pow2(RequestIndex(n) + 4) <= size
  {
  }

  /** The head of a non-empty free list is the address that the table holds. */
  lemma PopTakesHead(a: Arena, L: Layout, n: nat)
    requires Core(a, L) && CanPop(a, n)
    ensures var i := RequestIndex(n);
            && i < |L.lists| && |L.lists[i]| > 0 && L.lists[i][0] < |L.cells|
            && L.cells[L.lists[i][0]].kind == Cached(i)
            && L.cells[L.lists[i][0]].addr == Load(a.mem, a.table + WORD * i)
            && L.cells[L.lists[i][0]].size >= n
  {
    var i := RequestIndex(n);
    assert ListLinked(a.mem, a.table + WORD * i, L.cells, L.lists[i]);
    assert EntryOk(L.cells, L.lists[i], i, 0);
  }

  lemma CellShrinks(cells: seq<Cell>, bs: seq<Block>, ptr: int, id: nat, n: int, kind: Kind)
    requires CellsOk(cells, bs, ptr) && id < |cells| && 0 <= n <= cells[id].size
    ensures CellsOk(cells[id := cells[id].(size := n, kind := kind)], bs, ptr)
  {
    var cells' := cells[id := cells[id].(size := n, kind := kind)];
    forall i | 0 <= i < |cells'| ensures CellOk(cells', i, bs, ptr) {
      assert CellOk(cells, i, bs, ptr);
    }
    forall i, j | 0 <= i < |cells'| && 0 <= j < |cells'| && i != j ensures CellsApart(cells', i, j) {
      assert CellsApart(cells, i, j);
    }
  }

  /** A region that neither was nor becomes the table may change its holder. */
  lemma TableStays(table: int, tableLen: nat, cells: seq<Cell>, tableCell: nat, id: nat, c: Cell)
    requires TableOk(table, tableLen, cells, tableCell) && id < |cells| && cells[id].kind != Table && c.kind != Table
    ensures TableOk(table, tableLen, cells[id := c], tableCell)
  {
    var cells' := cells[id := c];
    forall i | 0 <= i < |cells| ensures NoOtherTable(cells', i, tableLen, tableCell) {
      assert NoOtherTable(cells, i, tableLen, tableCell);
    }
  }

  lemma PopLists(L: Layout, i: nat, n: int)
    requires ListsOk(L.cells, L.lists) && i < |L.lists| && |L.lists[i]| > 0 && L.lists[i][0] < |L.cells|
    ensures ListsOk(LayoutPop(L, i, n).cells, LayoutPop(L, i, n).lists)
  {
    var id, L' := L.lists[i][0], LayoutPop(L, i, n);
    var cells, lists := L'.cells, L'.lists;
    assert EntryOk(L.cells, L.lists[i], i, 0);
    forall j, k | 0 <= j < |lists| && 0 <= k < |lists[j]| ensures EntryOk(cells, lists[j], j, k) {
      var d := if j == i then 1 else 0;
      assert lists[j][k] == L.lists[j][k + d] && EntryOk(L.cells, L.lists[j], j, k + d);
      assert j == i ==> Differ(L.lists[i], 0, k + d);
    }
    forall j, k, l | 0 <= j < |lists| && 0 <= k < l < |lists[j]| ensures Differ(lists[j], k, l) {
      var d := if j == i then 1 else 0;
      assert Differ(L.lists[j], k + d, l + d);
    }
    forall x | 0 <= x < |cells| ensures OnItsList(cells, lists, x) {
      assert OnItsList(L.cells, L.lists, x);
    }
  }

  lemma PopLinks(a: Arena, L: Layout, i: nat, n: int, j: nat)
    requires CellsOk(L.cells, L.blocks, a.ptr) && TableOk(a.table, |L.lists|, L.cells, L.tableCell)
    requires i < |L.lists| && j < |L.lists| && |L.lists[i]| > 0 && L.lists[i][0] < |L.cells|
    requires Listed(L.cells, L.lists[j]) && L.tableCell !in L.lists[j]
    requires ListLinked(a.mem, a.table + WORD * i, L.cells, L.lists[i])
    requires ListLinked(a.mem, a.table + WORD * j, L.cells, L.lists[j])
    ensures var L' := LayoutPop(L, i, n);
            ListLinked(Pop(a, i).mem, a.table + WORD * j, L'.cells, L'.lists[j])
  {
    var L', m' := LayoutPop(L, i, n), Pop(a, i).mem;
    var was, list := L.lists[j], L'.lists[j];
    var d := if j == i then 1 else 0;
    assert list == was[d..];
    assert LinkOk(a.mem, L.cells, L.lists[i], 0);
    SameLinkAt(L.cells, L'.cells, was, list, d, 0);
    forall k | 0 <= k < |list| ensures LinkOk(m', L'.cells, list, k) {
      assert LinkOk(a.mem, L.cells, was, k + d) && HasRoom(L.cells, was, k + d);
      assert CellsApart(L.cells, L.tableCell, was[k + d]);
      SameLinkAt(L.cells, L'.cells, was, list, d, k);
      SameLinkAt(L.cells, L'.cells, was, list, d, k + 1);
    }
  }

  /** Addresses do not change when regions change hands. */
  lemma SameLinkAt(cells: seq<Cell>, cells': seq<Cell>, was: seq<nat>, list: seq<nat>, d: nat, k: nat)
    requires |cells'| == |cells| && forall id | 0 <= id < |cells| :: cells'[id].addr == cells[id].addr
    requires d <= |was| && list == was[d..] && k <= |list|
    ensures LinkAt(cells', list, k) == LinkAt(cells, was, k + d)
  {
  }

  lemma PopLinksAll(a: Arena, L: Layout, i: nat, n: int)
    requires CellsOk(L.cells, L.blocks, a.ptr) && TableOk(a.table, |L.lists|, L.cells, L.tableCell)
    requires ListsOk(L.cells, L.lists) && ListsLinked(a.mem, a.table, L.cells, L.lists)
    requires i < |L.lists| && |L.lists[i]| > 0 && L.lists[i][0] < |L.cells|
    ensures var L' := LayoutPop(L, i, n); ListsLinked(Pop(a, i).mem, a.table, L'.cells, L'.lists)
  {
    var m', L' := Pop(a, i).mem, LayoutPop(L, i, n);
    assert ListLinked(a.mem, a.table + WORD * i, L.cells, L.lists[i]);
    forall j | 0 <= j < |L'.lists| ensures ListLinked(m', a.table + WORD * j, L'.cells, L'.lists[j]) {
      ListIsListed(L.cells, L.lists, j);
      OthersNotListed(L.cells, L.lists, j, L.tableCell);
      assert ListLinked(a.mem, a.table + WORD * j, L.cells, L.lists[j]);
      PopLinks(a, L, i, n, j);
    }
  }

  lemma PopFrames(a: Arena, L: Layout, i: nat)
    requires BumpBasics(a, L) && HeadersOk(a.mem, L.blocks) && NodesOk(a.mem, L.blocks)
    requires TableOk(a.table, a.tableLen, L.cells, L.tableCell) && i < a.tableLen
    ensures HeadersOk(Pop(a, i).mem, L.blocks) && NodesOk(Pop(a, i).mem, L.blocks)
  {
    var t := L.cells[L.tableCell];
    assert AgreeOutside(a.mem, Pop(a, i).mem, t.addr, t.addr + t.size);
    CellInBlock(a, L, L.tableCell);
    FrameHeaders(a.mem, Pop(a, i).mem, L.blocks, t.blk, t.addr, t.addr + t.size);
    FrameNodes(a.mem, Pop(a, i).mem, L.blocks, t.blk, t.addr, t.addr + t.size);
  }

  lemma PopKeepsCore(a: Arena, L: Layout, n: nat)
    requires Core(a, L) && CanPop(a, n)
    requires RequestIndex(n) < |L.lists| && |L.lists[RequestIndex(n)]| > 0 && L.lists[RequestIndex(n)][0] < |L.cells|
    ensures Core(Pop(a, RequestIndex(n)), LayoutPop(L, RequestIndex(n), n))
  {
    PopTakesHead(a, L, n);
    var i := RequestIndex(n);
    var id := L.lists[i][0];
    PopFrames(a, L, i);
    CellShrinks(L.cells, L.blocks, a.ptr, id, n, Live);
    TableStays(a.table, a.tableLen, L.cells, L.tableCell, id, L.cells[id].(size := n, kind := Live));
    PopLists(L, i, n);
    PopLinksAll(a, L, i, n);
  }

  // ----- Returning a region to a free list ------------------------------------------------------

  ghost predicate Returnable(L: Layout, id: nat, size: int) {
    id < |L.cells| && L.cells[id].kind == Live && 16 <= size <= L.cells[id].size
  }

  lemma PushLists(L: Layout, i: nat, id: nat, size: int)
    requires ListsOk(L.cells, L.lists) && i < |L.lists| && Returnable(L, id, size) && size >= Pow2(i + 4)
    ensures ListsOk(LayoutPush(L, i, id, size).cells, LayoutPush(L, i, id, size).lists)
  {
    var L' := LayoutPush(L, i, id, size);
    var cells, lists := L'.cells, L'.lists;
    forall j, k | 0 <= j < |lists| && 0 <= k < |lists[j]| ensures EntryOk(cells, lists[j], j, k) {
      var d := if j == i then 1 else 0;
      if k >= d {
        assert lists[j][k] == L.lists[j][k - d] && EntryOk(L.cells, L.lists[j], j, k - d);
      }
    }
    forall j, k, l | 0 <= j < |lists| && 0 <= k < l < |lists[j]| ensures Differ(lists[j], k, l) {
      var d := if j == i then 1 else 0;
      assert lists[j][l] == L.lists[j][l - d];
      if k >= d {
        assert Differ(L.lists[j], k - d, l - d);
      } else {
        assert EntryOk(L.cells, L.lists[j], j, l - d);
      }
    }
    forall x | 0 <= x < |cells| ensures OnItsList(cells, lists, x) {
      assert OnItsList(L.cells, L.lists, x);
      assert lists[i][0] == id;
    }
  }

  lemma PushLinks(a: Arena, L: Layout, i: nat, id: nat, size: int, j: nat)
    requires CellsOk(L.cells, L.blocks, a.ptr) && TableOk(a.table, |L.lists|, L.cells, L.tableCell)
    requires i < |L.lists| && j < |L.lists| && Returnable(L, id, size)
    requires Listed(L.cells, L.lists[j]) && L.tableCell !in L.lists[j] && id !in L.lists[j] && id != L.tableCell
    requires ListLinked(a.mem, a.table + WORD * i, L.cells, L.lists[i])
    requires ListLinked(a.mem, a.table + WORD * j, L.cells, L.lists[j])
    ensures var L' := LayoutPush(L, i, id, size);
            ListLinked(PushCached(a, i, L.cells[id].addr).mem, a.table + WORD * j, L'.cells, L'.lists[j])
  {
    var L', m' := LayoutPush(L, i, id, size), PushCached(a, i, L.cells[id].addr).mem;
    var was, list := L.lists[j], L'.lists[j];
    var d := if j == i then 1 else 0;
    assert CellsApart(L.cells, L.tableCell, id);
    assert was == list[d..];
    SameLinkAt(L'.cells, L.cells, list, was, d, 0);
    forall k | 0 <= k < |list| ensures LinkOk(m', L'.cells, list, k) {
      if k >= d {
        assert LinkOk(a.mem, L.cells, was, k - d) && HasRoom(L.cells, was, k - d);
        assert CellsApart(L.cells, L.tableCell, was[k - d]) && CellsApart(L.cells, id, was[k - d]);
        SameLinkAt(L'.cells, L.cells, list, was, d, k - d);
        SameLinkAt(L'.cells, L.cells, list, was, d, k - d + 1);
      }
    }
  }

  lemma PushLinksAll(a: Arena, L: Layout, i: nat, id: nat, size: int)
    requires CellsOk(L.cells, L.blocks, a.ptr) && TableOk(a.table, |L.lists|, L.cells, L.tableCell)
    requires ListsOk(L.cells, L.lists) && ListsLinked(a.mem, a.table, L.cells, L.lists)
    requires i < |L.lists| && Returnable(L, id, size)
    ensures var L' := LayoutPush(L, i, id, size);
            ListsLinked(PushCached(a, i, L.cells[id].addr).mem, a.table, L'.cells, L'.lists)
  {
    var m', L' := PushCached(a, i, L.cells[id].addr).mem, LayoutPush(L, i, id, size);
    assert ListLinked(a.mem, a.table + WORD * i, L.cells, L.lists[i]);
    forall j | 0 <= j < |L'.lists| ensures ListLinked(m', a.table + WORD * j, L'.cells, L'.lists[j]) {
      ListIsListed(L.cells, L.lists, j);
      OthersNotListed(L.cells, L.lists, j, L.tableCell);
      OthersNotListed(L.cells, L.lists, j, id);
      assert ListLinked(a.mem, a.table + WORD * j, L.cells, L.lists[j]);
      PushLinks(a, L, i, id, size, j);
    }
  }

  lemma PushFrames(a: Arena, L: Layout, i: nat, id: nat, size: int)
    requires BumpBasics(a, L) && HeadersOk(a.mem, L.blocks) && NodesOk(a.mem, L.blocks)
    requires TableOk(a.table, a.tableLen, L.cells, L.tableCell) && i < a.tableLen && Returnable(L, id, size)
    ensures var m' := PushCached(a, i, L.cells[id].addr).mem; HeadersOk(m', L.blocks) && NodesOk(m', L.blocks)
  {
    var p, t := L.cells[id], L.cells[L.tableCell];
    var m' := PushCached(a, i, p.addr).mem;
    var m1 := a.mem[p.addr := Load(a.mem, a.table + WORD * i)];
    CellInBlock(a, L, id);
    CellInBlock(a, L, L.tableCell);
    assert AgreeOutside(a.mem, m1, p.addr, p.addr + p.size);
    FrameHeaders(a.mem, m1, L.blocks, p.blk, p.addr, p.addr + p.size);
    FrameNodes(a.mem, m1, L.blocks, p.blk, p.addr, p.addr + p.size);
    assert AgreeOutside(m1, m', t.addr, t.addr + t.size);
    FrameHeaders(m1, m', L.blocks, t.blk, t.addr, t.addr + t.size);
    FrameNodes(m1, m', L.blocks, t.blk, t.addr, t.addr + t.size);
  }

  lemma PushKeepsCore(a: Arena, L: Layout, id: nat, size: int)
    requires Core(a, L) && Returnable(L, id, size) && ReturnIndex(size) < a.tableLen
    ensures Core(PushCached(a, ReturnIndex(size), L.cells[id].addr), LayoutPush(L, ReturnIndex(size), id, size))
  {
    var i := ReturnIndex(size);
    PushFrames(a, L, i, id, size);
    CellShrinks(L.cells, L.blocks, a.ptr, id, size, Cached(i));
    TableStays(a.table, a.tableLen, L.cells, L.tableCell, id, L.cells[id].(size := size, kind := Cached(i)));
    PushLists(L, i, id, size);
    PushLinksAll(a, L, i, id, size);
  }

  // ----- Returning a region that becomes the free-list table ------------------------------------

  /** A region too big for the table is big enough to hold a strictly bigger table. */
  lemma TableGrows(tableLen: nat, size: nat)
    requires size >= 16 && size < SIZE_LIMIT && ReturnIndex(size) >= tableLen
    ensures tableLen < MAX_TABLE && size / WORD >= 2 * tableLen + 1
    ensures tableLen < Min(MAX_TABLE, size / WORD)
  {
    Pow2Monotone(tableLen + 4, Log2Floor(size));
    Pow2Grows(tableLen);
    Pow2Times16(tableLen);
    if Log2Floor(size) >= 64 {
      Pow2Of64();
      Pow2Monotone(64, Log2Floor(size));
    }
  }

  lemma Pow2Times16(e: nat)
    ensures Pow2(e + 4) == 16 * Pow2(e)
  {
    assert Pow2(e + 4) == 2 * Pow2(e + 3) && Pow2(e + 2) == 2 * Pow2(e + 1);
  }

  lemma Pow2Of64()
    ensures Pow2(64) == SIZE_LIMIT
  {
    assert Pow2(0) == 1 && Pow2(1) == 2 && Pow2(2) == 4;
    assert Pow2(4) == 16 by { Pow2Adds(2, 2); }
    assert Pow2(8) == 0x100 by { Pow2Adds(4, 4); }
    assert Pow2(16) == 0x1_0000 by { Pow2Adds(8, 8); }
    assert Pow2(32) == 0x1_0000_0000 by { Pow2Adds(16, 16); }
    Pow2Adds(32, 32);
  }

  lemma {:induction false} WriteTableWords(m: Memory, dst: int, src: int, len: nat, n: nat)
    ensures forall j | 0 <= j < n ::
              Load(WriteTable(m, dst, src, len, n), dst + WORD * j) == if j < len then Load(m, src + WORD * j) else 0
    ensures AgreeOutside(m, WriteTable(m, dst, src, len, n), dst, dst + WORD * n)
  {
    if n > 0 {
      WriteTableWords(m, dst, src, len, n - 1);
      var m' := WriteTable(m, dst, src, len, n - 1);
      var m'' := WriteTable(m, dst, src, len, n);
      forall j | 0 <= j < n
        ensures Load(m'', dst + WORD * j) == if j < len then Load(m, src + WORD * j) else 0
      {
        if j < n - 1 {
          assert Load(m'', dst + WORD * j) == Load(m', dst + WORD * j);
        }
      }
    }
  }

  lemma TableCells(a: Arena, L: Layout, id: nat, size: int)
    requires CellsOk(L.cells, L.blocks, a.ptr) && TableOk(a.table, |L.lists|, L.cells, L.tableCell)
    requires Returnable(L, id, size) && size / WORD >= |L.lists|
    ensures var L' := LayoutTable(L, id, size);
            && CellsOk(L'.cells, L.blocks, a.ptr)
            && TableOk(L.cells[id].addr, Min(MAX_TABLE, size / WORD), L'.cells, L'.tableCell)
            && |L'.lists| == Min(MAX_TABLE, size / WORD)
  {
    var L' := LayoutTable(L, id, size);
    if |L.lists| > 0 {
      CellShrinks(L.cells, L.blocks, a.ptr, L.tableCell, L.cells[L.tableCell].size, Dead);
      CellShrinks(L.cells[L.tableCell := L.cells[L.tableCell].(kind := Dead)], L.blocks, a.ptr, id, size, Table);
    } else {
      CellShrinks(L.cells, L.blocks, a.ptr, id, size, Table);
    }
    forall x | 0 <= x < |L'.cells| ensures NoOtherTable(L'.cells, x, |L'.lists|, id) {
      assert NoOtherTable(L.cells, x, |L.lists|, L.tableCell);
    }
  }

  lemma TableLists(L: Layout, id: nat, size: int)
    requires ListsOk(L.cells, L.lists) && Returnable(L, id, size) && size / WORD >= |L.lists|
    requires |L.lists| > 0 ==> L.tableCell < |L.cells| && L.cells[L.tableCell].kind == Table
    ensures var L' := LayoutTable(L, id, size); ListsOk(L'.cells, L'.lists)
  {
    var L' := LayoutTable(L, id, size);
    forall j, k | 0 <= j < |L'.lists| && 0 <= k < |L'.lists[j]| ensures EntryOk(L'.cells, L'.lists[j], j, k) {
      assert EntryOk(L.cells, L.lists[j], j, k);
    }
    forall j, k, l | 0 <= j < |L'.lists| && 0 <= k < l < |L'.lists[j]| ensures Differ(L'.lists[j], k, l) {
      assert Differ(L.lists[j], k, l);
    }
    forall x | 0 <= x < |L'.cells| ensures OnItsList(L'.cells, L'.lists, x) {
      assert OnItsList(L.cells, L.lists, x);
    }
  }

  lemma TableLinks(a: Arena, L: Layout, id: nat, size: int, j: nat)
    requires CellsOk(L.cells, L.blocks, a.ptr) && a.tableLen == |L.lists|
    requires Returnable(L, id, size) && size / WORD >= |L.lists| && j < Min(MAX_TABLE, size / WORD)
    requires j < |L.lists| ==>
               && Listed(L.cells, L.lists[j]) && id !in L.lists[j]
               && ListLinked(a.mem, a.table + WORD * j, L.cells, L.lists[j])
    ensures var L', p := LayoutTable(L, id, size), L.cells[id].addr;
            j < |L'.lists| && ListLinked(ReplaceTable(a, p, size).mem, p + WORD * j, L'.cells, L'.lists[j])
  {
    var L', p := LayoutTable(L, id, size), L.cells[id];
    var m' := ReplaceTable(a, p.addr, size).mem;
    WriteTableWords(a.mem, p.addr, a.table, a.tableLen, size / WORD);
    if j < |L.lists| {
      var list := L.lists[j];
      assert L'.lists[j] == list;
      SameLinkAt(L.cells, L'.cells, list, list, 0, 0);
      forall k | 0 <= k < |list| ensures LinkOk(m', L'.cells, list, k) {
        assert LinkOk(a.mem, L.cells, list, k) && HasRoom(L.cells, list, k) && CellsApart(L.cells, id, list[k]);
        SameLinkAt(L.cells, L'.cells, list, list, 0, k);
        SameLinkAt(L.cells, L'.cells, list, list, 0, k + 1);
      }
    } else {
      assert L'.lists[j] == [];
    }
  }

  lemma TableLinksAll(a: Arena, L: Layout, id: nat, size: int)
    requires CellsOk(L.cells, L.blocks, a.ptr) && a.tableLen == |L.lists|
    requires ListsOk(L.cells, L.lists) && ListsLinked(a.mem, a.table, L.cells, L.lists)
    requires Returnable(L, id, size) && Min(MAX_TABLE, size / WORD) >= |L.lists|
    ensures var L', p := LayoutTable(L, id, size), L.cells[id].addr;
            ListsLinked(ReplaceTable(a, p, size).mem, p, L'.cells, L'.lists)
  {
    var L', p := LayoutTable(L, id, size), L.cells[id].addr;
    var m' := ReplaceTable(a, p, size).mem;
    assert |L'.lists| == Min(MAX_TABLE, size / WORD);
    forall j | 0 <= j < |L'.lists| ensures ListLinked(m', p + WORD * j, L'.cells, L'.lists[j]) {
      if j < |L.lists| {
        ListIsListed(L.cells, L.lists, j);
        OthersNotListed(L.cells, L.lists, j, id);
        assert ListLinked(a.mem, a.table + WORD * j, L.cells, L.lists[j]);
      }
      TableLinks(a, L, id, size, j);
    }
  }

  lemma TableFrames(a: Arena, L: Layout, id: nat, size: int)
    requires BumpBasics(a, L) && HeadersOk(a.mem, L.blocks) && NodesOk(a.mem, L.blocks) && Returnable(L, id, size)
    ensures var m' := ReplaceTable(a, L.cells[id].addr, size).mem; HeadersOk(m', L.blocks) && NodesOk(m', L.blocks)
  {
    var p := L.cells[id];
    var m' := ReplaceTable(a, p.addr, size).mem;
    WriteTableWords(a.mem, p.addr, a.table, a.tableLen, size / WORD);
    assert AgreeOutside(a.mem, m', p.addr, p.addr + p.size);
    CellInBlock(a, L, id);
    FrameHeaders(a.mem, m', L.blocks, p.blk, p.addr, p.addr + p.size);
    FrameNodes(a.mem, m', L.blocks, p.blk, p.addr, p.addr + p.size);
  }

  lemma TableKeepsCore(a: Arena, L: Layout, id: nat, size: int)
    requires Core(a, L) && Returnable(L, id, size) && size < SIZE_LIMIT && ReturnIndex(size) >= a.tableLen
    ensures Core(ReplaceTable(a, L.cells[id].addr, size), LayoutTable(L, id, size))
  {
    TableGrows(a.tableLen, size);
    TableFrames(a, L, id, size);
    TableCells(a, L, id, size);
    TableLists(L, id, size);
    TableLinksAll(a, L, id, size);
  }
}
