/**
 The order in which SerialArena::CleanupList runs the registered cleanups, and the blocks whose
 cleanups it misses.
 */
module SerialArenaCleanup {
  import opened SerialArenaModel
  import opened SerialArenaProofs
  import opened SerialArenaRuns

  function Reverse<T>(s: seq<T>): (r: seq<T>)
    ensures |r| == |s|
  {
    if |s| == 0 then [] else Reverse(s[1..]) + [s[0]]
  }

  lemma {:induction false} ReverseAppends<T>(s: seq<T>, t: seq<T>)
    ensures Reverse(s + t) == Reverse(t) + Reverse(s)
  {
    if |s| == 0 {
      assert s + t == t;
    } else {
      ReverseAppends(s[1..], t);
      assert (s + t)[1..] == s[1..] + t;
    }
  }

  lemma {:induction false} ReverseAt<T>(s: seq<T>, k: nat)
    requires k < |s|
    ensures Reverse(s)[k] == s[|s| - 1 - k]
  {
    if k < |s| - 1 {
      ReverseAt(s[1..], k);
    }
  }

  /** All cleanups in the order they were registered. */
  function AllNodes(bs: seq<Block>): seq<Cleanup> {
    if |bs| == 0 then [] else AllNodes(bs[..|bs| - 1]) + bs[|bs| - 1].nodes
  }

  /** CleanupList takes the distance from the start of the nodes to the block size rounded down to a
      multiple of 8, in nodes, and skips the block unless it is positive.  The distance is rounded
      towards zero here; C++ leaves it undefined when it is not a whole number of nodes. */
  predicate Skipped(bs: seq<Block>, i: nat)
    requires i < |bs|
  {
    var b := bs[i];
    var distance := b.addr + (b.size - b.size % 8) - Start(bs, i);
    distance < CLEANUP_SIZE
  }

  predicate LosesCleanup(bs: seq<Block>, i: nat)
    requires i < |bs|
  {
    |bs[i].nodes| == 1 && i > 0 && bs[i].size % 8 != 0
  }

  /** That is the case for an empty block, and for a block with one cleanup, other than the first,
      whose size is not a multiple of 8. */
  lemma SkippedExactly(bs: seq<Block>, i: nat)
    requires i < |bs| && TopOk(bs, i)
    ensures Skipped(bs, i) <==> |bs[i].nodes| == 0 || LosesCleanup(bs, i)
  {
  }

  /** A compiler may as well compare the two pointers. */
  predicate SkippedByComparison(bs: seq<Block>, i: nat)
    requires i < |bs|
  {
    bs[i].addr + (bs[i].size - bs[i].size % 8) <= Start(bs, i)
  }

  /** Then only empty blocks are skipped, and nothing is lost.  The two readings agree on every block
      but those that lose a cleanup. */
  lemma ComparisonSkipsExactly(bs: seq<Block>, i: nat)
    requires i < |bs| && TopOk(bs, i)
    ensures SkippedByComparison(bs, i) <==> |bs[i].nodes| == 0
    ensures Skipped(bs, i) == SkippedByComparison(bs, i) <==> !LosesCleanup(bs, i)
  {
    SkippedExactly(bs, i);
  }

  function BlockOrder(bs: seq<Block>, i: nat): seq<Cleanup>
    requires i < |bs|
  {
    if Skipped(bs, i) then [] else Reverse(bs[i].nodes)
  }

  /** What CleanupList runs in the blocks 0..n, newest block first. */
  function CleanupOrder(bs: seq<Block>, n: nat): seq<Cleanup>
    requires n <= |bs|
  {
    if n == 0 then [] else BlockOrder(bs, n - 1) + CleanupOrder(bs, n - 1)
  }

  lemma CleanupOrderStep(log: seq<Cleanup>, bs: seq<Block>, n: nat)
    requires 0 < n <= |bs|
    ensures log + CleanupOrder(bs, n) == (log + BlockOrder(bs, n - 1)) + CleanupOrder(bs, n - 1)
  {
  }

  /** How many of the blocks 0..n lose a cleanup. */
  function Lost(bs: seq<Block>, n: nat): nat
    requires n <= |bs|
  {
    if n == 0 then 0 else Lost(bs, n - 1) + if LosesCleanup(bs, n - 1) then 1 else 0
  }

  /** CleanupList runs all registered cleanups but one for each such block. */
  lemma {:induction false} CleanupOrderLength(bs: seq<Block>, n: nat)
    requires n <= |bs| && TopsOk(bs)
    ensures |CleanupOrder(bs, n)| + Lost(bs, n) == |AllNodes(bs[..n])|
  {
    if n > 0 {
      CleanupOrderLength(bs, n - 1);
      assert TopOk(bs, n - 1);
      SkippedExactly(bs, n - 1);
      assert bs[..n][..n - 1] == bs[..n - 1];
    }
  }

  lemma {:induction false} LostIsPositive(bs: seq<Block>, n: nat, i: nat)
    requires i < n <= |bs| && LosesCleanup(bs, i)
    ensures Lost(bs, n) > 0
  {
    if i < n - 1 {
      LostIsPositive(bs, n - 1, i);
    }
  }

  lemma {:induction false} CleanupOrderReverses(bs: seq<Block>, n: nat)
    requires n <= |bs| && TopsOk(bs) && forall i | 0 <= i < n :: !LosesCleanup(bs, i)
    ensures CleanupOrder(bs, n) == Reverse(AllNodes(bs[..n]))
  {
    if n > 0 {
      CleanupOrderReverses(bs, n - 1);
      assert TopOk(bs, n - 1) && !LosesCleanup(bs, n - 1);
      SkippedExactly(bs, n - 1);
      var older, nodes := AllNodes(bs[..n - 1]), bs[n - 1].nodes;
      assert AllNodes(bs[..n]) == older + nodes by {
        assert bs[..n][..n - 1] == bs[..n - 1];
      }
      ReverseAppends(older, nodes);
      assert Skipped(bs, n - 1) ==> Reverse(nodes) == [];
    }
  }

  /** CleanupList runs every registered cleanup, each once, the last registered first, exactly when
      no block other than the first has an odd size and a single cleanup. */
  lemma CleanupReversesRegistration(bs: seq<Block>)
    requires TopsOk(bs)
    ensures CleanupOrder(bs, |bs|) == Reverse(AllNodes(bs)) <==> forall i | 0 <= i < |bs| :: !LosesCleanup(bs, i)
  {
    assert bs[..|bs|] == bs;
    if i :| 0 <= i < |bs| && LosesCleanup(bs, i) {
      CleanupOrderLength(bs, |bs|);
      LostIsPositive(bs, |bs|, i);
    } else {
      CleanupOrderReverses(bs, |bs|);
    }
  }

  // ----- Over runs ------------------------------------------------------------------------------

  function Registered(ops: seq<Op>): seq<Cleanup> {
    if |ops| == 0 then []
    else Registered(ops[..|ops| - 1]) +
         if ops[|ops| - 1].AllocWithCleanup? then [ops[|ops| - 1].cleanup] else []
  }

  lemma StepRegisters(s: State, policy: Policy, op: Op)
    requires Legal(s, policy, op)
    ensures AllNodes(Step(s, policy, op).L.blocks)
         == AllNodes(s.L.blocks) + if op.AllocWithCleanup? then [op.cleanup] else []
  {
    match op
    case Alloc(n, _, base) => GrowAddsNoNodes(s, policy, n, base);
    case AllocWithCleanup(n, c, base) =>
      var g := Grow(s, policy, n + CLEANUP_SIZE, base);
      GrowAddsNoNodes(s, policy, n + CLEANUP_SIZE, base);
      var bs, bs', last := g.L.blocks, AddNode(g.L.blocks, c), |g.L.blocks| - 1;
      assert bs'[..last] == bs[..last];
    case _ =>
  }

  lemma GrowAddsNoNodes(s: State, policy: Policy, n: int, base: int)
    requires |s.L.blocks| > 0
    ensures AllNodes(Grow(s, policy, n, base).L.blocks) == AllNodes(s.L.blocks)
  {
    var bs := Grow(s, policy, n, base).L.blocks;
    if !HasSpace(s.a, n) {
      assert bs[..|bs| - 1] == s.L.blocks;
    }
  }

  /** After any run the cleanups on the blocks are those the run registered, in that order. */
  lemma {:induction false} RunRegisters(states: seq<State>, policy: Policy, ops: seq<Op>, i: nat)
    requires IsRun(states, policy, ops) && i < |states|
    ensures AllNodes(states[i].L.blocks) == Registered(ops[..i])
  {
    if i == 0 {
      var mem, addr, size :| GoodFirstBlock(addr, size) && states[0] == Init(mem, addr, size);
      assert states[0].L.blocks[..0] == [];
    } else {
      RunRegisters(states, policy, ops, i - 1);
      assert StepAt(states, policy, ops, i - 1);
      StepRegisters(states[i - 1], policy, ops[i - 1]);
      assert ops[..i][..i - 1] == ops[..i - 1];
    }
  }

  /** CleanupList at the end of a run undoes its registrations in exact reverse order, or a block
      of odd size holds a single cleanup. */
  lemma RunCleansUpInReverse(states: seq<State>, policy: Policy, ops: seq<Op>)
    requires IsRun(states, policy, ops)
    ensures var bs := states[|ops|].L.blocks;
            CleanupOrder(bs, |bs|) == Reverse(Registered(ops)) <==> forall i | 0 <= i < |bs| :: !LosesCleanup(bs, i)
  {
    RunRegisters(states, policy, ops, |ops|);
    RunKeepsInv(states, policy, ops, |ops|);
    assert ops[..|ops|] == ops;
    CleanupReversesRegistration(states[|ops|].L.blocks);
  }

  /** So rounded, it does happen: a first block of 1001 bytes, as a caller may provide, is followed under the
      default policy by one of 2002 bytes; the only cleanup registered there never runs. */
  lemma OddFirstBlockLosesCleanup(c: Cleanup)
    ensures var s0 := Init(map[], 4096, 1001);
            var op := AllocWithCleanup(888, c, 8192);
            && GoodFirstBlock(4096, 1001)
            && Legal(s0, DEFAULT_POLICY, op)
            && var bs := Step(s0, DEFAULT_POLICY, op).L.blocks;
               AllNodes(bs) == [c] && CleanupOrder(bs, |bs|) == []
  {
    var s0 := Init(map[], 4096, 1001);
    var op := AllocWithCleanup(888, c, 8192);
    InitOk(map[], 4096, 1001);
    var bs := Step(s0, DEFAULT_POLICY, op).L.blocks;
    assert |bs| == 2 && bs[1] == Block(8192, 2002, 10194, [c]) && bs[0] == FirstBlock(4096, 1001);
    SkippedExactly(bs, 0);
    SkippedExactly(bs, 1);
    assert CleanupOrder(bs, 1) == [];
    StepRegisters(s0, DEFAULT_POLICY, op);
    assert s0.L.blocks[..0] == [];
  }

  predicate EvenSizes(bs: seq<Block>) {
    |bs| > 0 && bs[0].size % 4 == 0 && (forall j | 1 <= j < |bs| :: bs[j].size % 8 == 0)
  }

  lemma StepKeepsEvenSizes(s: State, policy: Policy, op: Op)
    requires Legal(s, policy, op) && EvenSizes(s.L.blocks) && LastSize(s.L) > 0 && policy.maxBlockSize % 8 == 0
    ensures EvenSizes(Step(s, policy, op).L.blocks)
  {
    match op
    case Alloc(n, _, base) => GrowKeepsEvenSizes(s, policy, n, base);
    case AllocWithCleanup(n, c, base) =>
      GrowKeepsEvenSizes(s, policy, n + CLEANUP_SIZE, base);
      AddNodeFacts(Grow(s, policy, n + CLEANUP_SIZE, base).L.blocks, c);
    case _ =>
  }

  lemma GrowKeepsEvenSizes(s: State, policy: Policy, n: int, base: int)
    requires EvenSizes(s.L.blocks) && LastSize(s.L) > 0 && policy.maxBlockSize % 8 == 0 && n % 8 == 0
    ensures EvenSizes(Grow(s, policy, n, base).L.blocks)
  {
    assert LastSize(s.L) % 4 == 0;
    assert NextBlockSize(policy, LastSize(s.L), n) % 8 == 0;
  }

  lemma {:induction false} RunKeepsEvenSizes(states: seq<State>, policy: Policy, ops: seq<Op>, i: nat)
    requires IsRun(states, policy, ops) && i < |states|
    requires policy.maxBlockSize % 8 == 0 && EvenSizes(states[0].L.blocks)
    ensures EvenSizes(states[i].L.blocks)
  {
    if i > 0 {
      RunKeepsEvenSizes(states, policy, ops, i - 1);
      assert StepAt(states, policy, ops, i - 1);
      RunKeepsInv(states, policy, ops, i - 1);
      assert BlockOk(states[i - 1].L.blocks, |states[i - 1].L.blocks| - 1);
      StepKeepsEvenSizes(states[i - 1], policy, ops[i - 1]);
    }
  }

  /** A caller can rule it out: with a first block whose size is a multiple of 4 and a largest block
      size that is a multiple of 8, every later block size is a multiple of 8 and nothing is lost. */
  lemma EvenSizesLoseNothing(states: seq<State>, policy: Policy, ops: seq<Op>, i: nat)
    requires IsRun(states, policy, ops) && i < |states|
    requires policy.maxBlockSize % 8 == 0 && EvenSizes(states[0].L.blocks)
    ensures CleanupOrder(states[i].L.blocks, |states[i].L.blocks|) == Reverse(Registered(ops[..i]))
  {
    RunKeepsEvenSizes(states, policy, ops, i);
    RunRegisters(states, policy, ops, i);
    RunKeepsInv(states, policy, ops, i);
    CleanupReversesRegistration(states[i].L.blocks);
  }
}
