/**
 What a single call of a SerialArena does to its layout, stated without the steps of the model: which
 region the caller gets, which list or table takes a returned one, how large a new block is, and that
 the space reported as used is what was handed out.
 */
module SerialArenaLaws {
  import opened Bits
  import opened SerialArenaModel
  import opened SerialArenaProofs
  import opened SerialArenaRuns

  /** Free list i serves the requests of more than 2 to the i + 3 and at most 2 to the i + 4 bytes. */
  predicate Serves(i: nat, n: nat) { Pow2(i + 3) < n <= Pow2(i + 4) }

  /** Free list i takes the regions of at least 2 to the i + 4 and less than 2 to the i + 5 bytes. */
  predicate Takes(i: nat, size: nat) { Pow2(i + 4) <= size < Pow2(i + 5) }

  lemma ServesIndex(i: nat, n: nat)
    requires Serves(i, n) && n >= 16
    ensures RequestIndex(n) == i
  {
    Log2Is(n - 1, i + 3);
  }

  lemma TakesIndex(i: nat, size: nat)
    requires Takes(i, size) && size >= 16
    ensures ReturnIndex(size) == i
  {
    Log2Is(size, i + 4);
  }

  /** Every request of 16 bytes and more is served by one list, and every such region taken by one. */
  lemma OneListEach(n: nat)
    requires n >= 16
    ensures exists i :: Serves(i, n)
    ensures exists i :: Takes(i, n)
  {
    Log2AtLeast3And4(n - 1);
    Log2AtLeast3And4(n);
    assert Serves(Log2Floor(n - 1) - 3, n);
    assert Takes(Log2Floor(n) - 4, n);
  }

  lemma CellAddressPositive(a: Arena, L: Layout, id: nat)
    requires Core(a, L) && id < |L.cells|
    ensures L.cells[id].addr > 0
  {
    assert CellOk(L.cells, id, L.blocks, a.ptr) && BlockOk(L.blocks, L.cells[id].blk);
  }

  /** The words of the table say of a list whether it is empty. */
  lemma CanPopExactly(a: Arena, L: Layout, i: nat, n: nat)
    requires Core(a, L) && n >= 16 && Serves(i, n)
    ensures CanPop(a, n) <==> i < |L.lists| && L.lists[i] != []
  {
    ServesIndex(i, n);
    if i < |L.lists| {
      assert ListLinked(a.mem, a.table + WORD * i, L.cells, L.lists[i]);
      if L.lists[i] != [] {
        assert EntryOk(L.cells, L.lists[i], i, 0);
        CellAddressPositive(a, L, L.lists[i][0]);
      }
    }
  }

  /** The bump pointer, the head block and the table are as they were. */
  predicate SameBump(s: State, s': State) {
    && s'.a.ptr == s.a.ptr && s'.a.limit == s.a.limit && s'.a.head == s.a.head && s'.L.blocks == s.L.blocks
    && s'.a.table == s.a.table && s'.a.tableLen == s.a.tableLen && |s'.L.cells| == |s.L.cells|
  }

  /** An array request that a free list can serve is served by its head, and nothing is carved. */
  lemma ArrayRequestTakesHead(s: State, policy: Policy, i: nat, n: nat, base: int)
    requires Core(s.a, s.L) && Legal(s, policy, Alloc(n, true, base)) && n >= 16 && Serves(i, n)
    requires i < |s.L.lists| && s.L.lists[i] != []
    ensures s.L.lists[i][0] < |s.L.cells|
    ensures var s', id := Step(s, policy, Alloc(n, true, base)), s.L.lists[i][0];
            && SameBump(s, s')
            && s'.L.lists == s.L.lists[i := s.L.lists[i][1..]]
            && s'.L.cells == s.L.cells[id := Cell(s.L.cells[id].addr, n, s.L.cells[id].blk, Live)]
  {
    ServesIndex(i, n);
    CanPopExactly(s.a, s.L, i, n);
    PopTakesHead(s.a, s.L, n);
  }

  /** The size of a block that is added: at least the request and a header, the doubled last size up to
      the largest size where that is enough, and never more than one of these. */
  lemma GrowthSize(policy: Policy, last: int, n: int)
    requires last > 0 && n >= 0
    ensures var size := NextBlockSize(policy, last, n);
            && size >= 24 + n
            && (2 * last <= policy.maxBlockSize && 24 + n <= 2 * last ==> size == 2 * last)
            && (policy.maxBlockSize < 2 * last && 24 + n <= policy.maxBlockSize ==> size == policy.maxBlockSize)
            && (24 + n > 2 * last || 24 + n > policy.maxBlockSize ==> size == 24 + n)
  {
  }

  /** A first block has the start size, or what it must hold. */
  lemma FirstSize(policy: Policy, n: int)
    requires n >= 0
    ensures NextBlockSize(policy, 0, n) == if policy.startBlockSize >= 24 + n then policy.startBlockSize else 24 + n
    ensures DEFAULT_POLICY.startBlockSize == 256 && DEFAULT_POLICY.maxBlockSize == 8192
  {
  }

  /** One block is added exactly when the head block has too little room for `room` bytes. */
  ghost predicate Grown(s: State, s': State, policy: Policy, room: nat, base: int) {
    if room <= s.a.limit - s.a.ptr then s'.L.blocks == s.L.blocks && s'.a.head == s.a.head
    else
      && |s.L.blocks| > 0 && |s'.L.blocks| == |s.L.blocks| + 1
      && s'.L.blocks[..|s.L.blocks|] == s.L.blocks && s'.a.head == base
      && var b := s'.L.blocks[|s.L.blocks|];
         var size := NextBlockSize(policy, LastSize(s.L), room);
         b == Block(base, size, base + size, [])
  }

  /** One region of n bytes is carved where the bump pointer was, or at the start of the new block. */
  predicate Carved(s: State, s': State, room: nat, n: nat, base: int) {
    var at := if room <= s.a.limit - s.a.ptr then s.a.ptr else base + 24;
    && |s'.L.cells| == |s.L.cells| + 1
    && s'.L.cells[..|s.L.cells|] == s.L.cells
    && s'.L.cells[|s.L.cells|].addr == at
    && s'.L.cells[|s.L.cells|].size == n
    && s'.L.cells[|s.L.cells|].kind == Live
    && s'.a.ptr == at + n
    && s'.L.lists == s.L.lists && s'.a.table == s.a.table && s'.a.tableLen == s.a.tableLen
  }

  /** Every other request carves: one that is not for an array, or is small, or whose list is empty. */
  lemma OtherRequestCarves(s: State, policy: Policy, n: nat, forArray: bool, base: int)
    requires Core(s.a, s.L) && Legal(s, policy, Alloc(n, forArray, base))
    requires forArray && n >= 16 ==> forall i | 0 <= i < |s.L.lists| && Serves(i, n) :: s.L.lists[i] == []
    ensures var s' := Step(s, policy, Alloc(n, forArray, base));
            Carved(s, s', n, n, base) && Grown(s, s', policy, n, base)
  {
    if forArray && n >= 16 {
      OneListEach(n);
      var i :| Serves(i, n);
      CanPopExactly(s.a, s.L, i, n);
    }
    assert |s.L.blocks| > 0 && s.L.blocks + [] == s.L.blocks;
  }

  /** A request with a cleanup carves its bytes and puts one node below the limit. */
  lemma CleanupRequestCarves(s: State, policy: Policy, n: nat, c: Cleanup, base: int)
    requires Core(s.a, s.L) && Legal(s, policy, AllocWithCleanup(n, c, base))
    ensures var s' := Step(s, policy, AllocWithCleanup(n, c, base));
            && Carved(s, s', n + 16, n, base)
            && |s'.L.blocks| == |s.L.blocks| + (if n + 16 <= s.a.limit - s.a.ptr then 0 else 1)
            && s'.L.blocks[|s'.L.blocks| - 1].nodes ==
               (if n + 16 <= s.a.limit - s.a.ptr then s.L.blocks[|s.L.blocks| - 1].nodes else []) + [c]
            && Load(s'.a.mem, s'.a.limit) == c.elem && Load(s'.a.mem, s'.a.limit + 8) == c.fn
  {
  }

  /** A returned region that the table has a list for becomes the head of that list. */
  lemma ReturnedToItsList(s: State, policy: Policy, id: nat, size: nat, i: nat)
    requires Core(s.a, s.L) && Legal(s, policy, Return(id, size)) && Takes(i, size) && i < s.a.tableLen
    ensures var s' := Step(s, policy, Return(id, size));
            && SameBump(s, s')
            && s'.L.lists == s.L.lists[i := [id] + s.L.lists[i]]
            && s'.L.cells == s.L.cells[id := Cell(s.L.cells[id].addr, size, s.L.cells[id].blk, Cached(i))]
  {
    TakesIndex(i, size);
  }

  /** Any other returned region becomes the table, with one list for each of its words up to 64: the old
      lists, and empty ones. */
  lemma ReturnedBecomesTable(s: State, policy: Policy, id: nat, size: nat, i: nat)
    requires Core(s.a, s.L) && Legal(s, policy, Return(id, size)) && Takes(i, size) && i >= s.a.tableLen
    ensures var s' := Step(s, policy, Return(id, size));
            && s'.a.ptr == s.a.ptr && s'.a.head == s.a.head && s'.L.blocks == s.L.blocks
            && s'.a.table == s.L.cells[id].addr
            && s'.a.tableLen == |s'.L.lists| == (if size / 8 <= 64 then size / 8 else 64)
            && |s.L.lists| < |s'.L.lists| && s'.L.lists[..|s.L.lists|] == s.L.lists
            && (forall j | |s.L.lists| <= j < |s'.L.lists| :: s'.L.lists[j] == [])
            && |s'.L.cells| == |s.L.cells| && s'.L.cells[id].kind == Table
  {
    TakesIndex(i, size);
    TableGrows(s.a.tableLen, size);
  }

  // ----- The space used -----------------------------------------------------------------------------

  /** SerialArena::SpaceUsed. */
  function SpaceUsed(a: Arena): int { a.ptr - (a.head + BLOCK_HEADER_SIZE) + a.spaceUsed - SERIAL_ARENA_SIZE }

  /** The bytes that a step carves for its caller. */
  function CarvedBytes(s: State, op: Op): nat {
    match op
    case Alloc(n, forArray, _) => if forArray && CanPop(s.a, n) then 0 else n
    case AllocWithCleanup(n, _, _) => n
    case _ => 0
  }

  function TotalCarved(states: seq<State>, ops: seq<Op>, i: nat): nat
    requires i <= |ops| < |states|
  {
    if i == 0 then 0 else TotalCarved(states, ops, i - 1) + CarvedBytes(states[i - 1], ops[i - 1])
  }

  lemma StepUsesSpace(s: State, policy: Policy, op: Op)
    requires Core(s.a, s.L) && Legal(s, policy, op)
    ensures SpaceUsed(Step(s, policy, op).a) == SpaceUsed(s.a) + CarvedBytes(s, op)
  {
  }

  /** In any run the space used is exactly what was carved for callers: neither headers, nor cleanup
      nodes, nor what is left in full blocks, nor what the free lists gave out again. */
  lemma {:induction false} SpaceUsedIsCarved(states: seq<State>, policy: Policy, ops: seq<Op>, i: nat)
    requires IsRun(states, policy, ops) && i <= |ops|
    ensures SpaceUsed(states[i].a) == TotalCarved(states, ops, i)
  {
    if i == 0 {
      var mem, addr, size :| GoodFirstBlock(addr, size) && states[0] == Init(mem, addr, size);
    } else {
      SpaceUsedIsCarved(states, policy, ops, i - 1);
      RunKeepsInv(states, policy, ops, i - 1);
      assert StepAt(states, policy, ops, i - 1);
      StepUsesSpace(states[i - 1], policy, ops[i - 1]);
    }
  }
}
