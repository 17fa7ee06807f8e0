/**
 Whole runs of one SerialArena: any sequence of allocations, array allocations, returned arrays,
 registered cleanups and stores by the callers into the regions they hold.
 */
module SerialArenaRuns {
  import opened Bits
  import opened SerialArenaModel
  import opened SerialArenaProofs

  /** `base` is where the block allocator would put a new block, if the step needs one. */
  datatype Op =
    | Alloc(n: nat, forArray: bool, base: int)
    | AllocWithCleanup(n: nat, cleanup: Cleanup, base: int)
    | Return(id: nat, size: nat)
    | Store(id: nat, w: int, v: int)

  datatype State = State(a: Arena, L: Layout)

  function FirstBlock(addr: int, size: int): Block { Block(addr, size, addr + (size - size % 8), []) }

  function Init(mem: Memory, addr: int, size: int): State {
    State(NewArena(mem, addr, size), Layout([FirstBlock(addr, size)], [], [], 0))
  }

  /** What SerialArena::New demands of the memory it is given. */
  predicate GoodFirstBlock(addr: int, size: int) {
    addr > 0 && addr % 8 == 0 && BLOCK_HEADER_SIZE + SERIAL_ARENA_SIZE <= size
  }

  function LastSize(L: Layout): int
    requires |L.blocks| > 0
  {
    L.blocks[|L.blocks| - 1].size
  }

  /** The allocator's memory: needed only when the head block has too little room. */
  ghost predicate BaseFor(s: State, policy: Policy, n: int, base: int)
    requires |s.L.blocks| > 0
  {
    !HasSpace(s.a, n) ==> base % 8 == 0 && GoodBase(s.L.blocks, base, NextBlockSize(policy, LastSize(s.L), n))
  }

  predicate Holds(L: Layout, id: nat) { id < |L.cells| && L.cells[id].kind == Live }

  predicate InRegion(L: Layout, id: nat, w: int) {
    id < |L.cells| && L.cells[id].addr <= w < L.cells[id].addr + L.cells[id].size
  }

  /** What the callers must respect: aligned sizes, and only regions they hold. */
  ghost predicate Legal(s: State, policy: Policy, op: Op) {
    |s.L.blocks| > 0 &&
    match op
    case Alloc(n, _, base) => n % 8 == 0 && BaseFor(s, policy, n, base)
    case AllocWithCleanup(n, _, base) => n % 8 == 0 && BaseFor(s, policy, n + CLEANUP_SIZE, base)
    case Return(id, size) => Returnable(s.L, id, size) && size < SIZE_LIMIT
    case Store(id, w, _) => Holds(s.L, id) && InRegion(s.L, id, w)
  }

  /** Grow by a block when the head block has too little room. */
  function Grow(s: State, policy: Policy, n: int, base: int): State
    requires |s.L.blocks| > 0
  {
    if HasSpace(s.a, n) then s
    else State(NewBlock(s.a, policy, n, base), LayoutNewBlock(s.L, base, NextBlockSize(policy, LastSize(s.L), n)))
  }

  function Carve(s: State, n: int): State
    requires |s.L.blocks| > 0
  {
    State(Bump(s.a, n), LayoutBump(s.L, s.a.ptr, n))
  }

  function Register(s: State, c: Cleanup): State
    requires |s.L.blocks| > 0
  {
    State(PushNode(s.a, 0, c.elem, c.fn), LayoutNode(s.L, c))
  }

  function TakeCached(s: State, n: nat): State
    requires n >= 16
  {
    var i, lists := RequestIndex(n), s.L.lists;
    State(Pop(s.a, i),
          if i < |lists| && |lists[i]| > 0 && lists[i][0] < |s.L.cells| then LayoutPop(s.L, i, n) else s.L)
  }

  function GiveBack(s: State, id: nat, size: nat): State
    requires id < |s.L.cells| && size >= 16
  {
    var i := ReturnIndex(size);
    if i < s.a.tableLen then
      State(PushCached(s.a, i, s.L.cells[id].addr), if i < |s.L.lists| then LayoutPush(s.L, i, id, size) else s.L)
    else
      State(ReplaceTable(s.a, s.L.cells[id].addr, size), LayoutTable(s.L, id, size))
  }

  ghost function Step(s: State, policy: Policy, op: Op): State
    requires Legal(s, policy, op)
  {
    match op
    case Alloc(n, forArray, base) =>
      if forArray && CanPop(s.a, n) then TakeCached(s, n) else Carve(Grow(s, policy, n, base), n)
    case AllocWithCleanup(n, c, base) => Register(Carve(Grow(s, policy, n + CLEANUP_SIZE, base), n), c)
    case Return(id, size) => GiveBack(s, id, size)
    case Store(_, w, v) => s.(a := s.a.(mem := s.a.mem[w := v]))
  }

  // ----- One step -------------------------------------------------------------------------------

  lemma InitOk(mem: Memory, addr: int, size: int)
    requires GoodFirstBlock(addr, size)
    ensures Inv(Init(mem, addr, size).a, Init(mem, addr, size).L)
  {
    var s := Init(mem, addr, size);
    assert HeaderOk(s.a.mem, s.L.blocks, 0) && BlockOk(s.L.blocks, 0) && TopOk(s.L.blocks, 0);
    assert s.L.blocks[..0] == [];
  }

  lemma GrowKeepsCore(s: State, policy: Policy, n: int, base: int)
    requires Core(s.a, s.L) && n >= 0 && BaseFor(s, policy, n, base)
    ensures Core(Grow(s, policy, n, base).a, Grow(s, policy, n, base).L) && HasSpace(Grow(s, policy, n, base).a, n)
  {
    if !HasSpace(s.a, n) {
      NewBlockKeepsCore(s.a, s.L, policy, n, base, NextBlockSize(policy, LastSize(s.L), n));
    }
  }

  lemma TakeCachedKeepsCore(s: State, n: nat)
    requires Core(s.a, s.L) && CanPop(s.a, n)
    ensures Core(TakeCached(s, n).a, TakeCached(s, n).L)
  {
    PopTakesHead(s.a, s.L, n);
    PopKeepsCore(s.a, s.L, n);
  }

  lemma GiveBackKeepsCore(s: State, id: nat, size: nat)
    requires Core(s.a, s.L) && Returnable(s.L, id, size) && size < SIZE_LIMIT
    ensures Core(GiveBack(s, id, size).a, GiveBack(s, id, size).L)
  {
    if ReturnIndex(size) < s.a.tableLen {
      PushKeepsCore(s.a, s.L, id, size);
    } else {
      TableKeepsCore(s.a, s.L, id, size);
    }
  }

  lemma CarveKeepsCore(s: State, policy: Policy, n: nat, more: nat, base: int)
    requires Core(s.a, s.L) && BaseFor(s, policy, n + more, base)
    ensures var g := Grow(s, policy, n + more, base);
            Core(g.a, g.L) && Core(Carve(g, n).a, Carve(g, n).L) && HasSpace(Carve(g, n).a, more)
  {
    var g := Grow(s, policy, n + more, base);
    GrowKeepsCore(s, policy, n + more, base);
    BumpKeepsCore(g.a, g.L, n);
  }

  lemma RegisterKeepsCore(s: State, policy: Policy, n: nat, c: Cleanup, base: int)
    requires Core(s.a, s.L) && BaseFor(s, policy, n + CLEANUP_SIZE, base)
    ensures var r := Register(Carve(Grow(s, policy, n + CLEANUP_SIZE, base), n), c); Core(r.a, r.L)
  {
    var carved := Carve(Grow(s, policy, n + CLEANUP_SIZE, base), n);
    CarveKeepsCore(s, policy, n, CLEANUP_SIZE, base);
    NodeKeepsCore(carved.a, carved.L, c);
  }

  lemma AllocKeepsCore(s: State, policy: Policy, n: nat, forArray: bool, base: int)
    requires Core(s.a, s.L) && Legal(s, policy, Alloc(n, forArray, base))
    ensures var s' := Step(s, policy, Alloc(n, forArray, base)); Core(s'.a, s'.L)
  {
    if forArray && CanPop(s.a, n) {
      TakeCachedKeepsCore(s, n);
    } else {
      CarveKeepsCore(s, policy, n, 0, base);
    }
  }

  lemma StepKeepsCore(s: State, policy: Policy, op: Op)
    requires Core(s.a, s.L) && Legal(s, policy, op)
    ensures Core(Step(s, policy, op).a, Step(s, policy, op).L)
  {
    match op
    case Alloc(n, forArray, base) => AllocKeepsCore(s, policy, n, forArray, base);
    case AllocWithCleanup(n, c, base) => RegisterKeepsCore(s, policy, n, c, base);
    case Return(id, size) => GiveBackKeepsCore(s, id, size);
    case Store(id, w, v) => ClientWriteKeepsCore(s.a, s.L, id, w, v);
  }

  /** Moving regions between holders, and carving aligned ones, keeps everything aligned. */
  lemma CellsStayAligned(L: Layout, cells: seq<Cell>)
    requires forall id | 0 <= id < |L.cells| :: CellAligned(L.cells, id)
    requires |L.cells| <= |cells| && forall id | 0 <= id < |L.cells| :: cells[id].addr == L.cells[id].addr
    requires forall id | |L.cells| <= id < |cells| :: cells[id].addr % 8 == 0
    ensures forall id | 0 <= id < |cells| :: CellAligned(cells, id)
  {
    forall id | 0 <= id < |cells| ensures CellAligned(cells, id) {
      assert id < |L.cells| ==> CellAligned(L.cells, id);
    }
  }

  lemma GrowKeepsAligned(s: State, policy: Policy, n: int, base: int)
    requires Aligned(s.a, s.L) && |s.L.blocks| > 0 && BaseFor(s, policy, n, base)
    ensures Aligned(Grow(s, policy, n, base).a, Grow(s, policy, n, base).L)
  {
    var bs := Grow(s, policy, n, base).L.blocks;
    forall i | 0 <= i < |bs| ensures TopOk(bs, i) && BlockAligned(bs, i) {
      assert i < |s.L.blocks| ==> TopOk(s.L.blocks, i) && BlockAligned(s.L.blocks, i);
    }
  }

  lemma NodeKeepsAligned(s: State, c: Cleanup)
    requires Aligned(s.a, s.L) && |s.L.blocks| > 0
    ensures Aligned(Register(s, c).a, Register(s, c).L)
  {
    var bs := AddNode(s.L.blocks, c);
    AddNodeFacts(s.L.blocks, c);
    forall i | 0 <= i < |bs| ensures TopOk(bs, i) && BlockAligned(bs, i) {
      assert TopOk(s.L.blocks, i) && BlockAligned(s.L.blocks, i);
    }
  }

  lemma CarveKeepsAligned(s: State, n: nat)
    requires Aligned(s.a, s.L) && |s.L.blocks| > 0 && n % 8 == 0
    ensures Aligned(Carve(s, n).a, Carve(s, n).L)
  {
    CellsStayAligned(s.L, Carve(s, n).L.cells);
  }

  lemma StepKeepsAligned(s: State, policy: Policy, op: Op)
    requires Aligned(s.a, s.L) && Legal(s, policy, op)
    ensures Aligned(Step(s, policy, op).a, Step(s, policy, op).L)
  {
    match op
    case Alloc(n, forArray, base) =>
      if forArray && CanPop(s.a, n) {
        CellsStayAligned(s.L, TakeCached(s, n).L.cells);
      } else {
        GrowKeepsAligned(s, policy, n, base);
        CarveKeepsAligned(Grow(s, policy, n, base), n);
      }
    case AllocWithCleanup(n, c, base) =>
      var g := Grow(s, policy, n + CLEANUP_SIZE, base);
      GrowKeepsAligned(s, policy, n + CLEANUP_SIZE, base);
      CarveKeepsAligned(g, n);
      NodeKeepsAligned(Carve(g, n), c);
    case Return(id, size) => CellsStayAligned(s.L, GiveBack(s, id, size).L.cells);
    case Store(_, _, _) =>
  }

  lemma StepKeepsInv(s: State, policy: Policy, op: Op)
    requires Inv(s.a, s.L) && Legal(s, policy, op)
    ensures Inv(Step(s, policy, op).a, Step(s, policy, op).L)
  {
    StepKeepsCore(s, policy, op);
    StepKeepsAligned(s, policy, op);
  }

  lemma TakeCachedKeepsInv(s: State, n: nat)
    requires Inv(s.a, s.L) && CanPop(s.a, n)
    ensures Inv(TakeCached(s, n).a, TakeCached(s, n).L)
  {
    TakeCachedKeepsCore(s, n);
    CellsStayAligned(s.L, TakeCached(s, n).L.cells);
  }

  lemma GiveBackKeepsInv(s: State, id: nat, size: nat)
    requires Inv(s.a, s.L) && Returnable(s.L, id, size) && size < SIZE_LIMIT
    ensures Inv(GiveBack(s, id, size).a, GiveBack(s, id, size).L)
  {
    GiveBackKeepsCore(s, id, size);
    CellsStayAligned(s.L, GiveBack(s, id, size).L.cells);
  }

  lemma GrowKeepsInv(s: State, policy: Policy, n: int, base: int)
    requires Inv(s.a, s.L) && n >= 0 && BaseFor(s, policy, n, base)
    ensures Inv(Grow(s, policy, n, base).a, Grow(s, policy, n, base).L) && HasSpace(Grow(s, policy, n, base).a, n)
  {
    GrowKeepsCore(s, policy, n, base);
    GrowKeepsAligned(s, policy, n, base);
  }

  // ----- Runs -----------------------------------------------------------------------------------

  ghost predicate StepAt(states: seq<State>, policy: Policy, ops: seq<Op>, i: nat)
    requires i < |ops| && i + 1 < |states|
  {
    Legal(states[i], policy, ops[i]) && states[i + 1] == Step(states[i], policy, ops[i])
  }

  /** The states that a run of `ops` from the initial state goes through. */
  ghost predicate IsRun(states: seq<State>, policy: Policy, ops: seq<Op>) {
    && |states| == |ops| + 1
    && (exists mem, addr, size :: GoodFirstBlock(addr, size) && states[0] == Init(mem, addr, size))
    && (forall i | 0 <= i < |ops| :: StepAt(states, policy, ops, i))
  }

  lemma {:induction false} RunKeepsInv(states: seq<State>, policy: Policy, ops: seq<Op>, i: nat)
    requires IsRun(states, policy, ops) && i < |states|
    ensures Inv(states[i].a, states[i].L)
  {
    if i == 0 {
      var mem, addr, size :| GoodFirstBlock(addr, size) && states[0] == Init(mem, addr, size);
      InitOk(mem, addr, size);
    } else {
      RunKeepsInv(states, policy, ops, i - 1);
      assert StepAt(states, policy, ops, i - 1);
      StepKeepsInv(states[i - 1], policy, ops[i - 1]);
    }
  }

  // ----- Nothing overlaps -----------------------------------------------------------------------

  /** Everything a block is divided into: its header (with the SerialArena in the first block), the
      regions carved from it, whoever holds them, and its cleanup nodes. */
  datatype Part = Header(blk: nat) | Region(id: nat) | Node(blk: nat, k: nat)

  predicate IsPart(L: Layout, p: Part) {
    match p
    case Header(i) => i < |L.blocks|
    case Region(id) => id < |L.cells| && L.cells[id].blk < |L.blocks|
    case Node(i, k) => i < |L.blocks| && k < |L.blocks[i].nodes|
  }

  function PartBlock(L: Layout, p: Part): nat
    requires IsPart(L, p)
  {
    match p
    case Header(i) => i
    case Region(id) => L.cells[id].blk
    case Node(i, _) => i
  }

  function PartLo(L: Layout, p: Part): int
    requires IsPart(L, p)
  {
    match p
    case Header(i) => L.blocks[i].addr
    case Region(id) => L.cells[id].addr
    case Node(i, k) => L.blocks[i].top - CLEANUP_SIZE * (k + 1)
  }

  function PartHi(L: Layout, p: Part): int
    requires IsPart(L, p)
  {
    match p
    case Header(i) => Lo(L.blocks, i)
    case Region(id) => L.cells[id].addr + L.cells[id].size
    case Node(i, k) => PartLo(L, p) + CLEANUP_SIZE
  }

  /** Every part lies inside its own block: first the header, then the regions, then the nodes. */
  lemma PartsInside(a: Arena, L: Layout, p: Part)
    requires Core(a, L) && IsPart(L, p)
    ensures var i := PartBlock(L, p);
            && L.blocks[i].addr <= PartLo(L, p) <= PartHi(L, p) <= L.blocks[i].addr + L.blocks[i].size
            && match p
               case Header(_) => PartHi(L, p) == Lo(L.blocks, i) <= Start(L.blocks, i)
               case Region(_) => Lo(L.blocks, i) <= PartLo(L, p) && PartHi(L, p) <= Start(L.blocks, i)
               case Node(_, _) => Start(L.blocks, i) <= PartLo(L, p)
  {
    assert BlockOk(L.blocks, PartBlock(L, p));
    match p
    case Header(_) =>
    case Region(id) => assert CellOk(L.cells, id, L.blocks, a.ptr);
    case Node(i, k) => assert CLEANUP_SIZE * (k + 1) <= CLEANUP_SIZE * |L.blocks[i].nodes|;
  }

  lemma PartsDisjoint(a: Arena, L: Layout, p: Part, q: Part)
    requires Core(a, L) && IsPart(L, p) && IsPart(L, q) && p != q
    ensures Disjoint(PartLo(L, p), PartHi(L, p), PartLo(L, q), PartHi(L, q))
  {
    PartsInside(a, L, p);
    PartsInside(a, L, q);
    if PartBlock(L, p) != PartBlock(L, q) {
      assert BlocksApart(L.blocks, PartBlock(L, p), PartBlock(L, q));
    } else if p.Region? && q.Region? {
      assert CellsApart(L.cells, p.id, q.id);
    }
  }

  /** In every state of every run: the regions with the callers, the free regions, the free-list
      table, the cleanup nodes and the headers are pairwise disjoint, each inside its own block. */
  lemma RunsKeepPartsApart(states: seq<State>, policy: Policy, ops: seq<Op>, i: nat, p: Part, q: Part)
    requires IsRun(states, policy, ops) && i < |states|
    requires IsPart(states[i].L, p) && IsPart(states[i].L, q) && p != q
    ensures var L := states[i].L;
            && Disjoint(PartLo(L, p), PartHi(L, p), PartLo(L, q), PartHi(L, q))
            && L.blocks[PartBlock(L, p)].addr <= PartLo(L, p)
            && PartHi(L, p) <= L.blocks[PartBlock(L, p)].addr + L.blocks[PartBlock(L, p)].size
  {
    RunKeepsInv(states, policy, ops, i);
    PartsInside(states[i].a, states[i].L, p);
    PartsDisjoint(states[i].a, states[i].L, p, q);
  }

  /** Headers and regions are 8-aligned in every state.  A cleanup node is exactly when the size of
      its block is a multiple of 8, except in the first block, whose limit is rounded down. */
  lemma RunsKeepAlignment(states: seq<State>, policy: Policy, ops: seq<Op>, i: nat, p: Part)
    requires IsRun(states, policy, ops) && i < |states| && IsPart(states[i].L, p)
    ensures if p.Node?
            then PartLo(states[i].L, p) % 8 == 0 <==> p.blk == 0 || states[i].L.blocks[p.blk].size % 8 == 0
            else PartLo(states[i].L, p) % 8 == 0
  {
    RunKeepsInv(states, policy, ops, i);
    if p.Header? {
      assert BlockAligned(states[i].L.blocks, p.blk);
    } else if p.Region? {
      assert CellAligned(states[i].L.cells, p.id);
    } else {
      var b := states[i].L.blocks[p.blk];
      assert TopOk(states[i].L.blocks, p.blk) && BlockAligned(states[i].L.blocks, p.blk);
      RoundedDown(b.addr, b.size, p.k + 1);
    }
  }

  lemma RoundedDown(addr: int, size: int, k: int)
    requires addr % 8 == 0
    ensures (addr + size - CLEANUP_SIZE * k) % 8 == size % 8
    ensures (addr + (size - size % 8) - CLEANUP_SIZE * k) % 8 == 0
  {
    var q := addr / 8 + size / 8 - 2 * k;
    assert addr + size - CLEANUP_SIZE * k == 8 * q + size % 8;
    assert addr + (size - size % 8) - CLEANUP_SIZE * k == 8 * q;
  }

  // ----- A region with a caller is left alone ---------------------------------------------------

  predicate Untouched(s: State, s': State, id: nat, w: int)
    requires id < |s.L.cells|
  {
    Holds(s'.L, id) && s'.L.cells[id] == s.L.cells[id] && Load(s'.a.mem, w) == Load(s.a.mem, w)
  }

  lemma TakeCachedLeavesHeld(s: State, n: nat, id: nat, w: int)
    requires Core(s.a, s.L) && CanPop(s.a, n) && Holds(s.L, id) && InRegion(s.L, id, w)
    ensures Untouched(s, TakeCached(s, n), id, w)
  {
    PopTakesHead(s.a, s.L, n);
    assert CellsApart(s.L.cells, id, s.L.tableCell);
  }

  lemma CarveLeavesHeld(s: State, policy: Policy, n: nat, base: int, id: nat, w: int)
    requires Core(s.a, s.L) && BaseFor(s, policy, n, base) && Holds(s.L, id) && InRegion(s.L, id, w)
    ensures Untouched(s, Carve(Grow(s, policy, n, base), n), id, w)
  {
    GrowLeavesHeld(s, policy, n, base, id, w);
  }

  lemma RegisterLeavesHeld(s: State, policy: Policy, n: nat, c: Cleanup, base: int, id: nat, w: int)
    requires Core(s.a, s.L) && BaseFor(s, policy, n + CLEANUP_SIZE, base) && Holds(s.L, id) && InRegion(s.L, id, w)
    ensures Untouched(s, Register(Carve(Grow(s, policy, n + CLEANUP_SIZE, base), n), c), id, w)
  {
    var g := Grow(s, policy, n + CLEANUP_SIZE, base);
    GrowLeavesHeld(s, policy, n + CLEANUP_SIZE, base, id, w);
    GrowKeepsCore(s, policy, n + CLEANUP_SIZE, base);
    NodeOffCell(g.a, g.L, id);
  }

  lemma GiveBackLeavesHeld(s: State, x: nat, size: nat, id: nat, w: int)
    requires Core(s.a, s.L) && Returnable(s.L, x, size) && size < SIZE_LIMIT && x != id
    requires Holds(s.L, id) && InRegion(s.L, id, w)
    ensures Untouched(s, GiveBack(s, x, size), id, w)
  {
    assert CellsApart(s.L.cells, id, x);
    if ReturnIndex(size) < s.a.tableLen {
      assert CellsApart(s.L.cells, id, s.L.tableCell);
    } else {
      WriteTableWords(s.a.mem, s.L.cells[x].addr, s.a.table, s.a.tableLen, size / WORD);
    }
  }

  /** Until its holder returns it or stores in it, a region keeps its address, its size and every
      word in it, whatever else happens. */
  lemma StepLeavesHeldRegions(s: State, policy: Policy, op: Op, id: nat, w: int)
    requires Core(s.a, s.L) && Legal(s, policy, op) && Holds(s.L, id) && InRegion(s.L, id, w)
    requires !(op.Return? && op.id == id) && !(op.Store? && op.id == id)
    ensures Untouched(s, Step(s, policy, op), id, w)
  {
    match op
    case Alloc(n, forArray, base) =>
      if forArray && CanPop(s.a, n) {
        TakeCachedLeavesHeld(s, n, id, w);
      } else {
        CarveLeavesHeld(s, policy, n, base, id, w);
      }
    case AllocWithCleanup(n, c, base) => RegisterLeavesHeld(s, policy, n, c, base, id, w);
    case Return(x, size) => GiveBackLeavesHeld(s, x, size, id, w);
    case Store(x, _, _) => assert CellsApart(s.L.cells, id, x);
  }

  lemma GrowLeavesHeld(s: State, policy: Policy, n: int, base: int, id: nat, w: int)
    requires Core(s.a, s.L) && n >= 0 && Holds(s.L, id) && BaseFor(s, policy, n, base) && InRegion(s.L, id, w)
    ensures Grow(s, policy, n, base).L.cells == s.L.cells
    ensures Load(Grow(s, policy, n, base).a.mem, w) == Load(s.a.mem, w)
  {
    if !HasSpace(s.a, n) {
      NewBlockOffCell(s.a, s.L, base, NextBlockSize(policy, LastSize(s.L), n), id);
    }
  }

  // ----- Taking from a free list ----------------------------------------------------------------

  /** An array request answered from a free list gets a region that was returned, is on no free
      list any more, and is at least as large as the request. */
  lemma CachedRegionFits(s: State, n: nat)
    requires Core(s.a, s.L) && CanPop(s.a, n)
    ensures var L, L' := s.L, TakeCached(s, n).L;
            exists id: nat ::
              && id < |L.cells| == |L'.cells|
              && L.cells[id].kind.Cached? && n <= L.cells[id].size
              && L.cells[id].addr == Load(s.a.mem, s.a.table + WORD * RequestIndex(n))
              && L'.cells[id] == L.cells[id].(size := n, kind := Live)
              && (forall j | 0 <= j < |L'.lists| :: id !in L'.lists[j])
  {
    PopTakesHead(s.a, s.L, n);
    TakeCachedKeepsCore(s, n);
    var L', id := TakeCached(s, n).L, s.L.lists[RequestIndex(n)][0];
    assert L'.cells[id] == s.L.cells[id].(size := n, kind := Live);
    forall j | 0 <= j < |L'.lists| ensures id !in L'.lists[j] {
      OthersNotListed(L'.cells, L'.lists, j, id);
    }
  }

  // ----- The table ------------------------------------------------------------------------------

  predicate Replaces(s: State, op: Op) {
    op.Return? && op.size >= 16 && ReturnIndex(op.size) >= s.a.tableLen
  }

  function Stage(tableLen: nat): nat {
    if tableLen == 0 then 0 else if tableLen < 8 then 1 else if tableLen < MAX_TABLE then 2 else 3
  }

  /** How often the first i steps replaced the table. */
  function Replacements(states: seq<State>, ops: seq<Op>, i: nat): nat
    requires i <= |ops| < |states|
  {
    if i == 0 then 0
    else Replacements(states, ops, i - 1) + if Replaces(states[i - 1], ops[i - 1]) then 1 else 0
  }

  lemma TableStages(tableLen: nat, size: nat)
    requires size >= 16 && size < SIZE_LIMIT && ReturnIndex(size) >= tableLen != 1
    ensures Stage(tableLen) < Stage(Min(MAX_TABLE, size / WORD)) && Min(MAX_TABLE, size / WORD) >= 2
  {
    TableGrows(tableLen, size);
    assert Pow2(5) == 32 && Pow2(6) == 64 by { assert Pow2(3) == 8; }
    if tableLen >= 8 {
      assert Pow2(9) == 512 by { assert Pow2(7) == 128; }
      Pow2Monotone(9, Log2Floor(size));
    } else if tableLen >= 2 {
      Pow2Monotone(6, Log2Floor(size));
    }
  }

  lemma StepGrowsTable(s: State, policy: Policy, op: Op)
    requires Legal(s, policy, op) && s.a.tableLen != 1
    ensures var a' := Step(s, policy, op).a;
            if Replaces(s, op)
            then s.a.tableLen < a'.tableLen && Stage(s.a.tableLen) < Stage(a'.tableLen) && a'.tableLen != 1
            else a'.tableLen == s.a.tableLen && a'.table == s.a.table
  {
    if Replaces(s, op) {
      TableGrows(s.a.tableLen, op.size);
      TableStages(s.a.tableLen, op.size);
    }
  }

  /** In any run the table is replaced at most three times, and each time by a longer one. */
  lemma {:induction false} TableReplacedAtMostThrice(states: seq<State>, policy: Policy, ops: seq<Op>, i: nat)
    requires IsRun(states, policy, ops) && i <= |ops|
    ensures Replacements(states, ops, i) <= Stage(states[i].a.tableLen) <= 3
    ensures states[i].a.tableLen != 1
  {
    if i == 0 {
      var mem, addr, size :| GoodFirstBlock(addr, size) && states[0] == Init(mem, addr, size);
    } else {
      TableReplacedAtMostThrice(states, policy, ops, i - 1);
      assert StepAt(states, policy, ops, i - 1);
      StepGrowsTable(states[i - 1], policy, ops[i - 1]);
    }
  }
}
