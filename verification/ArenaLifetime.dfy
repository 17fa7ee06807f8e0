/**
 The blocks of a ThreadSafeArena from its construction to its end: growing, adding up, freeing by
 reset and by destruction.  Block headers, SerialArena objects and the allocation policy are kept by
 address; freeing a block takes away whatever lies in it, so that reading a header or the policy
 after its block is gone is a missing key.
 */
module ArenaLifetime {
  import opened SerialArenaModel

  const POLICY_SIZE := 40
  const SERIAL_OFFSET := BLOCK_HEADER_SIZE
  const POLICY_OFFSET := BLOCK_HEADER_SIZE + SERIAL_ARENA_SIZE
  const MINIMUM_SIZE := POLICY_OFFSET + POLICY_SIZE

  datatype BlockHeader = BlockHeader(next: int, size: nat)

  datatype SerialHeader = SerialHeader(owner: int, head: int, next: int, spaceAllocated: int)

  /** An AllocationPolicy: 0 stands for no allocation function and no metrics collector. */
  datatype AllocationPolicy = AllocationPolicy(sizes: Policy, blockAlloc: int, blockDealloc: int, collector: int)

  /** AllocationPolicy::IsDefault, which compares the start size with the default maximum. */
  predicate IsDefault(p: AllocationPolicy) {
    p == AllocationPolicy(Policy(DEFAULT_POLICY.maxBlockSize, DEFAULT_POLICY.maxBlockSize), 0, 0, 0)
  }

  /** The policy counts as default exactly when both sizes are 8192 and nothing is installed; one that
      keeps the default start size of 256 does not. */
  lemma DefaultExactly(p: AllocationPolicy)
    ensures IsDefault(p) <==> && p.sizes.startBlockSize == 8192 && p.sizes.maxBlockSize == 8192
                              && p.blockAlloc == 0 && p.blockDealloc == 0 && p.collector == 0
    ensures !IsDefault(AllocationPolicy(Policy(256, 8192), 0, 0, 0))
  {
  }

  datatype Mem = Mem(ptr: int, size: nat)

  datatype Deallocation = Deallocation(mem: Mem, fn: int)

  /** The memory the arena works in, and every deallocation so far. */
  datatype Heap = Heap(blocks: map<int, BlockHeader>, serials: map<int, SerialHeader>,
                       policies: map<int, AllocationPolicy>, freed: seq<Deallocation>)

  // ----- The shape of the lists -----------------------------------------------------------------

  /** The list of SerialArenas in order, and all blocks in the order they will be freed: those of the
      i-th SerialArena, newest first, are flat[cut[i]..cut[i + 1]]. */
  datatype Shape = Shape(serials: seq<int>, cut: seq<nat>, flat: seq<int>)

  predicate Increasing(cut: seq<nat>, i: nat)
    requires i + 1 < |cut|
  {
    cut[i] < cut[i + 1]
  }

  predicate Address(flat: seq<int>, p: nat)
    requires p < |flat|
  {
    flat[p] > 0
  }

  predicate Distinct(flat: seq<int>, p: nat, q: nat)
    requires p < |flat| && q < |flat|
  {
    flat[p] != flat[q]
  }

  ghost predicate GoodShape(s: Shape) {
    && |s.cut| == |s.serials| + 1
    && s.cut[0] == 0 && s.cut[|s.serials|] == |s.flat|
    && (forall i | 0 <= i < |s.serials| :: Increasing(s.cut, i))
    && (forall p | 0 <= p < |s.flat| :: Address(s.flat, p))
    && (forall p, q | 0 <= p < |s.flat| && 0 <= q < |s.flat| && p != q :: Distinct(s.flat, p, q))
  }

  lemma {:induction false} CutMonotone(s: Shape, i: nat, j: nat)
    requires GoodShape(s) && i <= j <= |s.serials|
    ensures s.cut[i] <= s.cut[j]
  {
    if i < j {
      CutMonotone(s, i, j - 1);
      assert Increasing(s.cut, j - 1);
    }
  }

  lemma CutBounds(s: Shape, i: nat)
    requires GoodShape(s) && i < |s.serials|
    ensures s.cut[i] < s.cut[i + 1] <= |s.flat|
  {
    assert Increasing(s.cut, i);
    CutMonotone(s, i + 1, |s.serials|);
  }

  function SetOf(s: seq<int>): set<int> { set x | x in s }

  function SumSizes(blocks: map<int, BlockHeader>, s: seq<int>): int {
    if |s| == 0 then 0
    else SumSizes(blocks, s[..|s| - 1]) + if s[|s| - 1] in blocks then blocks[s[|s| - 1]].size else 0
  }

  lemma {:induction false} SumSizesConcat(blocks: map<int, BlockHeader>, s: seq<int>, t: seq<int>)
    ensures SumSizes(blocks, s + t) == SumSizes(blocks, s) + SumSizes(blocks, t)
  {
    if |t| == 0 {
      assert s + t == s;
    } else {
      SumSizesConcat(blocks, s, t[..|t| - 1]);
      assert (s + t)[..|s + t| - 1] == s + t[..|t| - 1];
    }
  }

  /** A block that is not among them does not change the sum. */
  lemma {:induction false} SumSizesUnchanged(blocks: map<int, BlockHeader>, x: int, b: BlockHeader, s: seq<int>)
    requires x !in s
    ensures SumSizes(blocks[x := b], s) == SumSizes(blocks, s)
  {
    if |s| > 0 {
      SumSizesUnchanged(blocks, x, b, s[..|s| - 1]);
    }
  }

  lemma SumOfOne(blocks: map<int, BlockHeader>, x: int)
    requires x in blocks
    ensures SumSizes(blocks, [x]) == blocks[x].size
  {
    assert [x][..0] == [];
  }

  lemma SumWithLast(blocks: map<int, BlockHeader>, flat: seq<int>, lo: nat, hi: nat)
    requires lo < hi <= |flat| && flat[hi - 1] in blocks
    ensures SumSizes(blocks, flat[..hi])
         == SumSizes(blocks, flat[..lo]) + SumSizes(blocks, flat[lo..hi - 1]) + blocks[flat[hi - 1]].size
    ensures SumSizes(blocks, flat[..0]) == 0
  {
    SumSizesConcat(blocks, flat[..lo], flat[lo..hi - 1]);
    assert flat[..lo] + flat[lo..hi - 1] == flat[..hi - 1];
    assert flat[..hi][..hi - 1] == flat[..hi - 1];
  }

  lemma SumOneMore(blocks: map<int, BlockHeader>, flat: seq<int>, lo: nat, p: nat)
    requires lo <= p < |flat| && flat[p] in blocks
    ensures SumSizes(blocks, flat[lo..p + 1]) == SumSizes(blocks, flat[lo..p]) + blocks[flat[p]].size
  {
    assert flat[lo..p + 1][..p - lo] == flat[lo..p];
  }

  /** The header words of block p of the free order: it belongs to SerialArena i. */
  ghost predicate BlockLinked(blocks: map<int, BlockHeader>, s: Shape, i: nat, p: nat)
    requires i + 1 < |s.cut| && p < |s.flat|
  {
    && s.flat[p] in blocks
    && blocks[s.flat[p]].next == if p + 1 < s.cut[i + 1] && p + 1 < |s.flat| then s.flat[p + 1] else 0
  }

  /** The i-th SerialArena lies in its oldest block and heads the chain of its blocks. */
  ghost predicate SerialLinked(h: Heap, s: Shape, i: nat)
    requires |s.cut| == |s.serials| + 1 && i < |s.serials|
  {
    var a := s.serials[i];
    && s.cut[i] < s.cut[i + 1] <= |s.flat|
    && a == s.flat[s.cut[i + 1] - 1] + SERIAL_OFFSET
    && a in h.serials
    && h.serials[a].head == s.flat[s.cut[i]]
    && h.serials[a].next == (if i + 1 < |s.serials| then s.serials[i + 1] else 0)
    && h.serials[a].spaceAllocated == SumSizes(h.blocks, s.flat[s.cut[i]..s.cut[i + 1]])
  }

  ghost predicate Linked(h: Heap, s: Shape)
    requires GoodShape(s)
  {
    && (forall i, p | 0 <= i < |s.serials| && s.cut[i] <= p < s.cut[i + 1] && p < |s.flat| ::
          BlockLinked(h.blocks, s, i, p))
    && (forall i | 0 <= i < |s.serials| :: SerialLinked(h, s, i))
  }

  lemma SerialPositive(h: Heap, s: Shape, i: nat)
    requires GoodShape(s) && Linked(h, s) && i < |s.serials|
    ensures s.serials[i] > 0
  {
    assert SerialLinked(h, s, i) && Address(s.flat, s.cut[i + 1] - 1);
  }

  // ----- Freeing blocks in order ----------------------------------------------------------------

  predicate IsBlock(mem: Mem, blocks: map<int, BlockHeader>, x: int) {
    mem.ptr == x && x in blocks && mem.size == blocks[x].size
  }

  /** What is left of `m`, keyed by addresses at distance d from their block's, without `gone`. */
  function Without<V>(m: map<int, V>, gone: seq<int>, d: int): map<int, V> { map h | h in m && h - d !in gone :: m[h] }

  /** The deallocations that free the blocks of s in order. */
  function FreeLog(blocks: map<int, BlockHeader>, s: seq<int>, fn: int): seq<Deallocation> {
    if |s| == 0 then []
    else
      var x := s[|s| - 1];
      FreeLog(blocks, s[..|s| - 1], fn) + [Deallocation(Mem(x, if x in blocks then blocks[x].size else 0), fn)]
  }

  /** The heap when the blocks `gone` have been freed in order, each once. */
  function Freed(h: Heap, gone: seq<int>, fn: int): Heap {
    Heap(Without(h.blocks, gone, 0), Without(h.serials, gone, SERIAL_OFFSET), Without(h.policies, gone, POLICY_OFFSET),
         h.freed + FreeLog(h.blocks, gone, fn))
  }

  /** What one deallocation does. */
  function Release(h: Heap, d: Deallocation): Heap {
    Heap(h.blocks - {d.mem.ptr}, h.serials - {d.mem.ptr + SERIAL_OFFSET}, h.policies - {d.mem.ptr + POLICY_OFFSET},
         h.freed + [d])
  }

  lemma FreedNothing(h: Heap, fn: int)
    ensures Freed(h, [], fn) == h
  {
    assert Without(h.blocks, [], 0) == h.blocks;
    assert Without(h.serials, [], SERIAL_OFFSET) == h.serials;
    assert Without(h.policies, [], POLICY_OFFSET) == h.policies;
  }

  lemma WithoutOneMore<V>(m: map<int, V>, gone: seq<int>, x: int, d: int)
    ensures Without(m, gone + [x], d) == Without(m, gone, d) - {x + d}
  {
    var gone' := gone + [x];
    assert forall y :: y in gone' <==> y in gone || y == x;
  }

  lemma FreedAppend(h: Heap, gone: seq<int>, x: int, fn: int)
    requires x in h.blocks
    ensures Freed(h, gone + [x], fn) == Release(Freed(h, gone, fn), Deallocation(Mem(x, h.blocks[x].size), fn))
  {
    assert (gone + [x])[..|gone|] == gone;
    WithoutOneMore(h.blocks, gone, x, 0);
    WithoutOneMore(h.serials, gone, x, SERIAL_OFFSET);
    WithoutOneMore(h.policies, gone, x, POLICY_OFFSET);
  }

  lemma FreedOneMore(h: Heap, s: Shape, k: nat, fn: int)
    requires GoodShape(s) && k < |s.flat| && s.flat[k] in h.blocks
    ensures var x := s.flat[k];
            && x > 0 && x in Freed(h, s.flat[..k], fn).blocks
            && Freed(h, s.flat[..k + 1], fn)
               == Release(Freed(h, s.flat[..k], fn), Deallocation(Mem(x, h.blocks[x].size), fn))
  {
    StillThere(h.blocks, s, k, k, 0);
    assert Address(s.flat, k);
    assert s.flat[..k + 1] == s.flat[..k] + [s.flat[k]];
    FreedAppend(h, s.flat[..k], s.flat[k], fn);
  }

  lemma StillThere<V>(m: map<int, V>, s: Shape, k: nat, p: nat, d: int)
    requires GoodShape(s) && k <= p < |s.flat| && s.flat[p] + d in m
    ensures s.flat[p] + d in Without(m, s.flat[..k], d)
  {
    forall q | 0 <= q < k ensures s.flat[..k][q] != s.flat[p] {
      assert Distinct(s.flat, q, p);
    }
  }

  /** The header of a block is readable until the block's own turn comes. */
  lemma HeaderReadable(h: Heap, s: Shape, i: nat, p: nat, fn: int)
    requires GoodShape(s) && Linked(h, s) && i < |s.serials| && s.cut[i] <= p < s.cut[i + 1]
    ensures p < |s.flat| && s.cut[i + 1] <= |s.flat| && s.flat[p] in h.blocks
    ensures var left := Freed(h, s.flat[..p], fn).blocks;
            && s.flat[p] in left && left[s.flat[p]] == h.blocks[s.flat[p]]
            && h.blocks[s.flat[p]].next == if p + 1 < s.cut[i + 1] then s.flat[p + 1] else 0
    ensures p + 1 < s.cut[i + 1] ==> s.flat[p + 1] != 0
  {
    CutBounds(s, i);
    assert BlockLinked(h.blocks, s, i, p);
    StillThere(h.blocks, s, p, p, 0);
    assert p + 1 < s.cut[i + 1] ==> Address(s.flat, p + 1);
  }

  /** The header of a SerialArena is readable when its turn comes. */
  lemma HeadReadable(h: Heap, s: Shape, i: nat, fn: int)
    requires GoodShape(s) && Linked(h, s) && i < |s.serials|
    ensures s.cut[i] < s.cut[i + 1] <= |s.flat|
    ensures var left := Freed(h, s.flat[..s.cut[i]], fn).serials;
            s.serials[i] in left && left[s.serials[i]].head == s.flat[s.cut[i]]
  {
    assert SerialLinked(h, s, i);
    StillThere(h.serials, s, s.cut[i], s.cut[i + 1] - 1, SERIAL_OFFSET);
  }

  /** The header of the SerialArena just visited is still there: its block is only pending. */
  lemma NextReadable(h: Heap, s: Shape, i: nat, fn: int)
    requires GoodShape(s) && Linked(h, s) && i < |s.serials|
    ensures 0 < s.cut[i + 1] <= |s.flat|
    ensures var left := Freed(h, s.flat[..s.cut[i + 1] - 1], fn).serials;
            && s.serials[i] in left
            && left[s.serials[i]].next == if i + 1 < |s.serials| then s.serials[i + 1] else 0
  {
    assert SerialLinked(h, s, i);
    StillThere(h.serials, s, s.cut[i + 1] - 1, s.cut[i + 1] - 1, SERIAL_OFFSET);
  }

  /** Once all blocks but the last are gone, nothing but the last block is left, and its policy is. */
  lemma OnlyLastLeft(h: Heap, s: Shape, fn: int)
    requires GoodShape(s) && |s.flat| > 0 && h.blocks.Keys == SetOf(s.flat)
    ensures var n := |s.flat|;
            && Freed(h, s.flat[..n - 1], fn).blocks.Keys == {s.flat[n - 1]}
            && Freed(h, s.flat, fn).blocks.Keys == {}
            && (s.flat[n - 1] + POLICY_OFFSET in h.policies ==>
                s.flat[n - 1] + POLICY_OFFSET in Freed(h, s.flat[..n - 1], fn).policies)
  {
    var n := |s.flat|;
    assert s.flat[n - 1] in h.blocks;
    StillThere(h.blocks, s, n - 1, n - 1, 0);
    if s.flat[n - 1] + POLICY_OFFSET in h.policies {
      StillThere(h.policies, s, n - 1, n - 1, POLICY_OFFSET);
    }
    assert s.flat == s.flat[..n - 1] + [s.flat[n - 1]];
  }

  // ----- Adding blocks --------------------------------------------------------------------------

  /** SerialArena::New on a block `mem`, linked before the SerialArena `next`. */
  function NewSerial(h: Heap, mem: Mem, owner: int, next: int): Heap {
    h.(blocks := h.blocks[mem.ptr := BlockHeader(0, mem.size)],
       serials := h.serials[mem.ptr + SERIAL_OFFSET := SerialHeader(owner, mem.ptr, next, mem.size)])
  }

  function ShiftedCut(cut: seq<nat>, from: nat): seq<nat> {
    seq(|cut|, i requires 0 <= i < |cut| => if i < from then cut[i] else cut[i] + 1)
  }

  function WithSerial(s: Shape, base: int): Shape {
    Shape([base + SERIAL_OFFSET] + s.serials, [0] + ShiftedCut(s.cut, 0), [base] + s.flat)
  }

  function WithBlock(s: Shape, i: nat, base: int): Shape
    requires i < |s.cut| && s.cut[i] <= |s.flat|
  {
    Shape(s.serials, ShiftedCut(s.cut, i + 1), s.flat[..s.cut[i]] + [base] + s.flat[s.cut[i]..])
  }

  /** A new block of the SerialArena at `a`, in front of its head. */
  function NewHead(h: Heap, a: int, mem: Mem): Heap
    requires a in h.serials
  {
    var serial := h.serials[a];
    h.(blocks := h.blocks[mem.ptr := BlockHeader(serial.head, mem.size)],
       serials := h.serials[a := serial.(head := mem.ptr, spaceAllocated := serial.spaceAllocated + mem.size)])
  }

  lemma WithSerialGood(s: Shape, base: int)
    requires GoodShape(s) && base > 0 && base !in s.flat
    ensures GoodShape(WithSerial(s, base))
  {
    var s' := WithSerial(s, base);
    forall i | 0 <= i < |s'.serials| ensures Increasing(s'.cut, i) {
      assert i > 0 ==> Increasing(s.cut, i - 1);
    }
    forall p | 0 <= p < |s'.flat| ensures Address(s'.flat, p) {
      assert p > 0 ==> Address(s.flat, p - 1);
    }
    forall p, q | 0 <= p < |s'.flat| && 0 <= q < |s'.flat| && p != q ensures Distinct(s'.flat, p, q) {
      assert p > 0 && q > 0 ==> Distinct(s.flat, p - 1, q - 1);
      assert p > 0 ==> s'.flat[p] in s.flat;
      assert q > 0 ==> s'.flat[q] in s.flat;
    }
  }

  function First(s: seq<int>): int { if |s| > 0 then s[0] else 0 }

  lemma WithSerialBlocks(h: Heap, s: Shape, mem: Mem, owner: int, i: nat, p: nat)
    requires GoodShape(s) && Linked(h, s) && mem.ptr !in s.flat
    requires var s' := WithSerial(s, mem.ptr); i < |s'.serials| && s'.cut[i] <= p < s'.cut[i + 1] && p < |s'.flat|
    ensures BlockLinked(NewSerial(h, mem, owner, First(s.serials)).blocks, WithSerial(s, mem.ptr), i, p)
  {
    if i > 0 {
      assert BlockLinked(h.blocks, s, i - 1, p - 1);
      assert s.flat[p - 1] in s.flat;
    }
  }

  lemma WithSerialSerials(h: Heap, s: Shape, mem: Mem, owner: int, i: nat)
    requires GoodShape(s) && Linked(h, s) && mem.ptr !in s.flat && i <= |s.serials|
    ensures SerialLinked(NewSerial(h, mem, owner, First(s.serials)), WithSerial(s, mem.ptr), i)
  {
    var s', h' := WithSerial(s, mem.ptr), NewSerial(h, mem, owner, First(s.serials));
    if i == 0 {
      assert s'.flat[0..1] == [mem.ptr];
      SumOfOne(h'.blocks, mem.ptr);
    } else {
      assert SerialLinked(h, s, i - 1);
      var mine := s.flat[s.cut[i - 1]..s.cut[i]];
      assert s'.flat[s'.cut[i]..s'.cut[i + 1]] == mine;
      SumSizesUnchanged(h.blocks, mem.ptr, BlockHeader(0, mem.size), mine);
      assert s.flat[s.cut[i] - 1] in s.flat;
    }
  }

  lemma WithSerialLinked(h: Heap, s: Shape, mem: Mem, owner: int)
    requires GoodShape(s) && Linked(h, s) && mem.ptr > 0 && mem.ptr !in s.flat
    ensures GoodShape(WithSerial(s, mem.ptr))
    ensures Linked(NewSerial(h, mem, owner, First(s.serials)), WithSerial(s, mem.ptr))
  {
    WithSerialGood(s, mem.ptr);
    var s', h' := WithSerial(s, mem.ptr), NewSerial(h, mem, owner, First(s.serials));
    forall i, p | 0 <= i < |s'.serials| && s'.cut[i] <= p < s'.cut[i + 1] && p < |s'.flat|
      ensures BlockLinked(h'.blocks, s', i, p) {
      WithSerialBlocks(h, s, mem, owner, i, p);
    }
    forall i | 0 <= i < |s'.serials| ensures SerialLinked(h', s', i) {
      WithSerialSerials(h, s, mem, owner, i);
    }
  }

  lemma WithBlockGood(s: Shape, i: nat, base: int)
    requires GoodShape(s) && i < |s.serials| && base > 0 && base !in s.flat
    ensures s.cut[i] < s.cut[i + 1] <= |s.flat| && GoodShape(WithBlock(s, i, base))
  {
    CutBounds(s, i);
    var s', c := WithBlock(s, i, base), s.cut[i];
    forall j | 0 <= j < |s'.serials| ensures Increasing(s'.cut, j) {
      assert Increasing(s.cut, j);
    }
    forall p | 0 <= p < |s'.flat| ensures Address(s'.flat, p) {
      assert p < c ==> Address(s.flat, p);
      assert p > c ==> Address(s.flat, p - 1);
    }
    forall p, q | 0 <= p < |s'.flat| && 0 <= q < |s'.flat| && p != q ensures Distinct(s'.flat, p, q) {
      var p0, q0 := if p < c then p else p - 1, if q < c then q else q - 1;
      assert p != c ==> s'.flat[p] == s.flat[p0] && s'.flat[p] in s.flat;
      assert q != c ==> s'.flat[q] == s.flat[q0] && s'.flat[q] in s.flat;
      assert p != c && q != c ==> Distinct(s.flat, p0, q0);
    }
  }

  lemma WithBlockBlocks(h: Heap, s: Shape, i: nat, mem: Mem, j: nat, p: nat)
    requires GoodShape(s) && Linked(h, s) && i < |s.serials| && mem.ptr > 0 && mem.ptr !in s.flat
    requires s.cut[i] < s.cut[i + 1] <= |s.flat| && s.serials[i] in h.serials
    requires var s' := WithBlock(s, i, mem.ptr); j < |s'.serials| && s'.cut[j] <= p < s'.cut[j + 1] && p < |s'.flat|
    ensures BlockLinked(NewHead(h, s.serials[i], mem).blocks, WithBlock(s, i, mem.ptr), j, p)
  {
    var c := s.cut[i];
    assert SerialLinked(h, s, i);
    if j < i {
      CutMonotone(s, j + 1, i);
      assert BlockLinked(h.blocks, s, j, p) && s.flat[p] in s.flat;
    } else {
      CutMonotone(s, i, j);
      if p != c {
        assert BlockLinked(h.blocks, s, j, p - 1) && s.flat[p - 1] in s.flat;
      }
    }
  }

  lemma SerialsDistinct(h: Heap, s: Shape, i: nat, j: nat)
    requires GoodShape(s) && Linked(h, s) && i < j < |s.serials|
    ensures s.serials[i] != s.serials[j]
  {
    assert SerialLinked(h, s, i) && SerialLinked(h, s, j);
    CutMonotone(s, i + 1, j);
    assert Distinct(s.flat, s.cut[i + 1] - 1, s.cut[j + 1] - 1);
  }

  lemma GrownSlice(s: Shape, i: nat, base: int)
    requires |s.cut| == |s.serials| + 1 && i < |s.serials| && s.cut[i] < s.cut[i + 1] <= |s.flat|
    ensures var s' := WithBlock(s, i, base);
            && s'.cut[i] == s.cut[i] && s'.cut[i + 1] == s.cut[i + 1] + 1
            && s'.flat[s'.cut[i]..s'.cut[i + 1]] == [base] + s.flat[s.cut[i]..s.cut[i + 1]]
            && s'.flat[s'.cut[i]] == base && s'.flat[s'.cut[i + 1] - 1] == s.flat[s.cut[i + 1] - 1]
  {
    var lo, hi := s.cut[i], s.cut[i + 1];
    assert s.flat[lo..] == s.flat[lo..hi] + s.flat[hi..];
    assert WithBlock(s, i, base).flat == s.flat[..lo] + ([base] + s.flat[lo..hi]) + s.flat[hi..];
  }

  lemma SliceOfInserted(flat: seq<int>, c: nat, base: int, lo: nat, hi: nat)
    requires lo <= hi <= |flat| && c <= |flat|
    ensures hi <= c ==> (flat[..c] + [base] + flat[c..])[lo..hi] == flat[lo..hi]
    ensures c <= lo ==> (flat[..c] + [base] + flat[c..])[lo + 1..hi + 1] == flat[lo..hi]
  {
    if c <= lo {
      var mine, long := flat[lo..hi], flat[..c] + [base] + flat[c..];
      assert |long| == |flat| + 1;
      forall k | 0 <= k < hi - lo ensures long[lo + 1..hi + 1][k] == mine[k] {
        assert long[lo + 1 + k] == flat[lo + k];
      }
    }
  }

  lemma OtherSlice(s: Shape, i: nat, base: int, j: nat)
    requires GoodShape(s) && i < |s.serials| && j < |s.serials| && i != j
    ensures s.cut[i] <= |s.flat| && s.cut[j] < s.cut[j + 1] <= |s.flat|
    ensures var s' := WithBlock(s, i, base);
            && s'.cut[j + 1] - s'.cut[j] == s.cut[j + 1] - s.cut[j] && s'.cut[j + 1] <= |s'.flat|
            && s'.flat[s'.cut[j]..s'.cut[j + 1]] == s.flat[s.cut[j]..s.cut[j + 1]]
  {
    CutBounds(s, i);
    CutBounds(s, j);
    SliceOfInserted(s.flat, s.cut[i], base, s.cut[j], s.cut[j + 1]);
    if j < i {
      CutMonotone(s, j + 1, i);
    } else {
      CutMonotone(s, i + 1, j);
    }
  }

  lemma WithBlockOwn(h: Heap, s: Shape, i: nat, mem: Mem)
    requires |s.cut| == |s.serials| + 1 && i < |s.serials| && SerialLinked(h, s, i) && mem.ptr !in s.flat
    ensures SerialLinked(NewHead(h, s.serials[i], mem), WithBlock(s, i, mem.ptr), i)
  {
    var h', mine := NewHead(h, s.serials[i], mem), s.flat[s.cut[i]..s.cut[i + 1]];
    GrownSlice(s, i, mem.ptr);
    SumSizesUnchanged(h.blocks, mem.ptr, h'.blocks[mem.ptr], mine);
    SumOfOne(h'.blocks, mem.ptr);
    SumSizesConcat(h'.blocks, [mem.ptr], mine);
  }

  lemma WithBlockOther(h: Heap, s: Shape, i: nat, mem: Mem, j: nat)
    requires GoodShape(s) && i < |s.serials| && j < |s.serials| && i != j && mem.ptr !in s.flat
    requires SerialLinked(h, s, i) && SerialLinked(h, s, j) && s.serials[i] != s.serials[j]
    ensures SerialLinked(NewHead(h, s.serials[i], mem), WithBlock(s, i, mem.ptr), j)
  {
    var s', h' := WithBlock(s, i, mem.ptr), NewHead(h, s.serials[i], mem);
    var mine := s.flat[s.cut[j]..s.cut[j + 1]];
    OtherSlice(s, i, mem.ptr, j);
    SumSizesUnchanged(h.blocks, mem.ptr, h'.blocks[mem.ptr], mine);
    var lo, hi, n := s'.cut[j], s'.cut[j + 1], |mine|;
    assert s'.flat[lo] == s'.flat[lo..hi][0] == mine[0] == s.flat[s.cut[j]];
    assert s'.flat[hi - 1] == s'.flat[lo..hi][n - 1] == mine[n - 1] == s.flat[s.cut[j + 1] - 1];
  }

  lemma WithBlockLinked(h: Heap, s: Shape, i: nat, mem: Mem)
    requires GoodShape(s) && Linked(h, s) && i < |s.serials| && mem.ptr > 0 && mem.ptr !in s.flat
    ensures s.cut[i] < s.cut[i + 1] <= |s.flat| && s.serials[i] in h.serials
    ensures GoodShape(WithBlock(s, i, mem.ptr)) && Linked(NewHead(h, s.serials[i], mem), WithBlock(s, i, mem.ptr))
  {
    WithBlockGood(s, i, mem.ptr);
    assert SerialLinked(h, s, i);
    var s', h' := WithBlock(s, i, mem.ptr), NewHead(h, s.serials[i], mem);
    forall j, p | 0 <= j < |s'.serials| && s'.cut[j] <= p < s'.cut[j + 1] && p < |s'.flat|
      ensures BlockLinked(h'.blocks, s', j, p) {
      WithBlockBlocks(h, s, i, mem, j, p);
    }
    forall j | 0 <= j < |s'.serials| ensures SerialLinked(h', s', j) {
      assert SerialLinked(h, s, j);
      if j == i {
        WithBlockOwn(h, s, i, mem);
      } else {
        SerialsDistinct(h, s, if i < j then i else j, if i < j then j else i);
        WithBlockOther(h, s, i, mem, j);
      }
    }
  }

  lemma HeadIsBlock(h: Heap, s: Shape, i: nat)
    requires GoodShape(s) && Linked(h, s) && i < |s.serials| && h.blocks.Keys == SetOf(s.flat)
    ensures s.serials[i] in h.serials && h.serials[s.serials[i]].head in h.blocks
  {
    assert SerialLinked(h, s, i);
    assert s.flat[s.cut[i]] in SetOf(s.flat);
  }

  lemma PoliciesKeepLinked(h: Heap, h': Heap, s: Shape)
    requires GoodShape(s) && Linked(h, s) && h'.blocks == h.blocks && h'.serials == h.serials
    ensures Linked(h', s)
  {
    forall i | 0 <= i < |s.serials| ensures SerialLinked(h', s, i) {
      assert SerialLinked(h, s, i);
    }
    forall i, p | 0 <= i < |s.serials| && s.cut[i] <= p < s.cut[i + 1] && p < |s.flat|
      ensures BlockLinked(h'.blocks, s, i, p) {
      assert BlockLinked(h.blocks, s, i, p);
    }
  }

  lemma WithBlockExtends(s: Shape, i: nat, base: int)
    requires GoodShape(s) && i < |s.serials|
    ensures s.cut[i] < |s.flat|
    ensures var t := WithBlock(s, i, base).flat;
            && t[|t| - 1] == s.flat[|s.flat| - 1]
            && SetOf(t) == SetOf(s.flat) + {base}
  {
    CutBounds(s, i);
    var c, t := s.cut[i], WithBlock(s, i, base).flat;
    assert s.flat == s.flat[..c] + s.flat[c..];
  }

  lemma {:induction false} SumNotNegative(blocks: map<int, BlockHeader>, s: seq<int>)
    ensures SumSizes(blocks, s) >= 0
  {
    if |s| > 0 {
      SumNotNegative(blocks, s[..|s| - 1]);
    }
  }

  /** What Free leaves: the last block, and the policy in it. */
  lemma AfterFree(h: Heap, s: Shape, fn: int)
    requires GoodShape(s) && h.blocks.Keys == SetOf(s.flat)
    ensures Freed(h, s.flat, fn).blocks == map[]
    ensures |s.flat| > 0 ==>
              var left, last := Freed(h, s.flat[..|s.flat| - 1], fn), s.flat[|s.flat| - 1];
              && last > 0 && left.blocks.Keys == {last}
              && (last + POLICY_OFFSET in h.policies ==>
                  && last + POLICY_OFFSET in left.policies
                  && left.policies[last + POLICY_OFFSET] == h.policies[last + POLICY_OFFSET])
  {
    if |s.flat| > 0 {
      OnlyLastLeft(h, s, fn);
      assert Address(s.flat, |s.flat| - 1);
    } else {
      FreedNothing(h, fn);
    }
  }

  lemma {:induction false} FreeLogAt(blocks: map<int, BlockHeader>, s: seq<int>, fn: int, k: nat)
    requires k < |s| && s[k] in blocks
    ensures |FreeLog(blocks, s, fn)| == |s|
    ensures FreeLog(blocks, s, fn)[k] == Deallocation(Mem(s[k], blocks[s[k]].size), fn)
  {
    if k + 1 < |s| {
      FreeLogAt(blocks, s[..|s| - 1], fn, k);
    } else if |s| > 1 {
      FreeLogLength(blocks, s[..|s| - 1], fn);
    }
  }

  lemma {:induction false} FreeLogLength(blocks: map<int, BlockHeader>, s: seq<int>, fn: int)
    ensures |FreeLog(blocks, s, fn)| == |s|
  {
    if |s| > 0 {
      FreeLogLength(blocks, s[..|s| - 1], fn);
    }
  }

  predicate Frees(log: seq<Deallocation>, k: nat, x: int, size: nat)
    requires k < |log|
  {
    log[k].mem == Mem(x, size)
  }

  /** Freeing the first k blocks of the free order gives back each of them once, with its size, and
      none of the others. */
  lemma EachFreedOnce(h: Heap, s: Shape, k: nat, fn: int, p: nat)
    requires GoodShape(s) && h.blocks.Keys == SetOf(s.flat) && k <= |s.flat| && p < |s.flat|
    ensures s.flat[p] in h.blocks
    ensures var log := FreeLog(h.blocks, s.flat[..k], fn);
            forall j | 0 <= j < |log| :: Frees(log, j, s.flat[p], h.blocks[s.flat[p]].size) <==> j == p
    ensures |FreeLog(h.blocks, s.flat[..k], fn)| == k
  {
    var log, x := FreeLog(h.blocks, s.flat[..k], fn), s.flat[p];
    FreeLogLength(h.blocks, s.flat[..k], fn);
    assert x in SetOf(s.flat);
    forall j | 0 <= j < |log| ensures Frees(log, j, x, h.blocks[x].size) <==> j == p {
      assert s.flat[j] in SetOf(s.flat);
      FreeLogAt(h.blocks, s.flat[..k], fn, j);
      assert j != p ==> Distinct(s.flat, j, p);
    }
  }

  /** What SpaceAllocated adds for the i-th SerialArena, and where it goes next. */
  lemma SumOfSerial(h: Heap, s: Shape, i: nat)
    requires GoodShape(s) && Linked(h, s) && i < |s.serials|
    ensures s.cut[i] < s.cut[i + 1] <= |s.flat|
    ensures var a := s.serials[i];
            && a in h.serials
            && h.serials[a].next == (if i + 1 < |s.serials| then s.serials[i + 1] else 0)
            && SumSizes(h.blocks, s.flat[..s.cut[i + 1]])
               == SumSizes(h.blocks, s.flat[..s.cut[i]]) + h.serials[a].spaceAllocated
    ensures i + 1 < |s.serials| ==> s.serials[i + 1] > 0
  {
    assert SerialLinked(h, s, i);
    var lo, hi := s.cut[i], s.cut[i + 1];
    SumSizesConcat(h.blocks, s.flat[..lo], s.flat[lo..hi]);
    assert s.flat[..hi] == s.flat[..lo] + s.flat[lo..hi];
    if i + 1 < |s.serials| {
      SerialPositive(h, s, i + 1);
    }
  }

  // ----- The arena ------------------------------------------------------------------------------

  class ThreadSafeArena {
    var heap: Heap
    var threads: int
    var policy: int
    var userOwned: bool
    /** The block the user passed in, meaningful when userOwned. */
    ghost var initial: Mem
    ghost var shape: Shape

    ghost predicate Valid()
      reads this
    {
      && GoodShape(shape)
      && Linked(heap, shape)
      && heap.blocks.Keys == SetOf(shape.flat)
      && threads == First(shape.serials)
      && (policy != 0 ==>
          && |shape.flat| > 0
          && policy == shape.flat[|shape.flat| - 1] + POLICY_OFFSET
          && policy in heap.policies && !IsDefault(heap.policies[policy]))
      && (userOwned ==>
          && |shape.flat| > 0
          && IsBlock(initial, heap.blocks, shape.flat[|shape.flat| - 1])
          && initial.size >= if policy != 0 then MINIMUM_SIZE else POLICY_OFFSET)
    }

    /** The sizes that AllocateMemory goes by. */
    ghost function SizesInForce(): Policy
      reads this
    {
      if policy != 0 && policy in heap.policies then heap.policies[policy].sizes else Policy(256, 8192)
    }

    /** The policy's sizes, for AllocateMemory. */
    method PolicySizes() returns (sizes: Policy)
      requires policy != 0 ==> policy in heap.policies
      ensures sizes == SizesInForce()
    {
      sizes := if policy != 0 then heap.policies[policy].sizes else DEFAULT_POLICY;
    }

    /** GetDeallocator: the function that blocks are given back to. */
    method GetDeallocator() returns (fn: int)
      requires policy != 0 ==> policy in heap.policies
      ensures fn == if policy != 0 then heap.policies[policy].blockDealloc else 0
    {
      fn := if policy != 0 then heap.policies[policy].blockDealloc else 0;
    }

    // ----- Growing ------------------------------------------------------------------------------

    /** ThreadSafeArena::Init, as far as the lists go. */
    method Init()
      modifies this`threads, this`shape
      ensures threads == 0 && shape == Shape([], [0], [])
    {
      threads := 0;
      shape := Shape([], [0], []);
    }

    method SetInitialBlock(mem: Mem, owner: int)
      requires mem.ptr > 0 && heap.blocks.Keys <= {mem.ptr}
      modifies this`heap, this`threads, this`shape
      ensures heap == NewSerial(old(heap), mem, owner, 0)
      ensures shape == Shape([mem.ptr + SERIAL_OFFSET], [0, 1], [mem.ptr]) && threads == mem.ptr + SERIAL_OFFSET
      ensures GoodShape(shape) && Linked(heap, shape) && heap.blocks.Keys == SetOf(shape.flat)
    {
      ghost var s := Shape([], [0], []);
      WithSerialLinked(heap, s, mem, owner);
      heap := NewSerial(heap, mem, owner, 0);
      threads := mem.ptr + SERIAL_OFFSET;
      shape := Shape([mem.ptr + SERIAL_OFFSET], [0, 1], [mem.ptr]);
      assert shape == WithSerial(s, mem.ptr);
      assert shape.flat[0] == mem.ptr;
    }

    method InitializeFrom(mem: Mem, owner: int)
      requires mem.ptr >= 0 && heap.blocks.Keys <= {mem.ptr} && (mem.ptr == 0 ==> heap.blocks == map[])
      requires policy == 0
      requires userOwned ==> mem == initial && mem.ptr > 0 && mem.size >= POLICY_OFFSET
      requires !userOwned && !(mem.ptr != 0 && mem.size >= POLICY_OFFSET) ==> heap.blocks == map[]
      modifies this
      ensures Valid() && policy == 0 && heap.freed == old(heap.freed)
      ensures userOwned == (mem.ptr != 0 && mem.size >= POLICY_OFFSET)
      ensures shape.flat == if userOwned then [mem.ptr] else []
      ensures userOwned ==> initial == mem
      ensures userOwned ==> threads in heap.serials && heap.serials[threads].owner == owner
    {
      Init();
      if mem.ptr != 0 && mem.size >= POLICY_OFFSET {
        userOwned := true;
        initial := mem;
        SetInitialBlock(mem, owner);
      }
    }

    /** `base` is the address the block allocator gives, should the first block be too small. */
    method InitializeWithPolicy(mem: Mem, owner: int, p: AllocationPolicy, base: int)
      requires mem.ptr >= 0 && heap.blocks.Keys <= {mem.ptr} && base > 0
      requires userOwned ==> mem == initial && mem.ptr > 0 && mem.size >= MINIMUM_SIZE && !IsDefault(p)
      requires !userOwned ==> heap.blocks == map[]
      requires IsDefault(p) ==> policy == 0
      modifies this
      ensures Valid() && heap.freed == old(heap.freed)
      ensures userOwned == (mem.ptr != 0 && mem.size >= if IsDefault(p) then POLICY_OFFSET else MINIMUM_SIZE)
      ensures userOwned ==> initial == mem && shape.flat == [mem.ptr]
      ensures IsDefault(p) ==> policy == 0 && (!userOwned ==> shape.flat == [])
      ensures !IsDefault(p) ==> policy != 0 && heap.policies[policy] == p
      ensures userOwned || !IsDefault(p) ==> threads in heap.serials && heap.serials[threads].owner == owner
      ensures !IsDefault(p) && !userOwned ==>
                && shape.flat == [base]
                && var wanted := p.sizes.startBlockSize;
                   heap.blocks[base].size == if wanted >= 24 + MINIMUM_SIZE then wanted else 24 + MINIMUM_SIZE
    {
      if IsDefault(p) {
        InitializeFrom(mem, owner);
        return;
      }
      Init();
      var mem := mem;
      if mem.ptr != 0 && mem.size >= MINIMUM_SIZE {
        userOwned := true;
        initial := mem;
      } else {
        mem := Mem(base, NextBlockSize(p.sizes, 0, MINIMUM_SIZE));
      }
      SetInitialBlock(mem, owner);
      ghost var linked := heap;
      policy := mem.ptr + POLICY_OFFSET;
      heap := heap.(policies := heap.policies[policy := p]);
      PoliciesKeepLinked(linked, heap, shape);
    }

    constructor ()
      ensures Valid() && !userOwned && policy == 0 && shape.flat == [] && heap.freed == []
    {
      heap := Heap(map[], map[], map[], []);
      threads, policy, userOwned := 0, 0, false;
      shape := Shape([], [0], []);
    }

    constructor WithInitialBlock(mem: Mem, owner: int)
      requires mem.ptr >= 0
      ensures Valid() && policy == 0 && heap.freed == []
      ensures userOwned == (mem.ptr != 0 && mem.size >= POLICY_OFFSET)
      ensures shape.flat == if userOwned then [mem.ptr] else []
      ensures userOwned ==> initial == mem
    {
      heap := Heap(map[], map[], map[], []);
      policy, userOwned := 0, false;
      new;
      InitializeFrom(mem, owner);
    }

    constructor WithPolicy(mem: Mem, owner: int, p: AllocationPolicy, base: int)
      requires mem.ptr >= 0 && base > 0
      ensures Valid() && heap.freed == []
      ensures userOwned == (mem.ptr != 0 && mem.size >= if IsDefault(p) then POLICY_OFFSET else MINIMUM_SIZE)
      ensures userOwned ==> initial == mem && shape.flat == [mem.ptr]
      ensures if IsDefault(p) then policy == 0 else policy != 0 && heap.policies[policy] == p
    {
      heap := Heap(map[], map[], map[], []);
      policy, userOwned := 0, false;
      new;
      InitializeWithPolicy(mem, owner, p, base);
    }

    /** GetSerialArenaFallback for a thread that is not in the list, its compare-and-swap succeeding. */
    method AddSerialArena(owner: int, base: int) returns (serial: int)
      requires Valid() && base > 0 && base !in heap.blocks
      modifies this`heap, this`threads, this`shape
      ensures Valid() && shape == WithSerial(old(shape), base) && serial == threads == base + SERIAL_OFFSET
      ensures serial in heap.serials && heap.serials[serial].owner == owner
      ensures heap.freed == old(heap.freed) && heap.policies == old(heap.policies)
      ensures forall x | x in old(heap.blocks) :: x in heap.blocks && heap.blocks[x] == old(heap.blocks[x])
      ensures forall a | a in old(heap.serials) && a != base + SERIAL_OFFSET ::
                a in heap.serials && heap.serials[a].owner == old(heap.serials[a].owner)
      ensures base in heap.blocks
      ensures var wanted := old(SizesInForce()).startBlockSize;
              heap.blocks[base].size == if wanted >= 24 + 80 then wanted else 24 + 80
    {
      var sizes := PolicySizes();
      var mem := Mem(base, NextBlockSize(sizes, 0, SERIAL_ARENA_SIZE));
      WithSerialLinked(heap, shape, mem, owner);
      heap := NewSerial(heap, mem, owner, threads);
      serial := base + SERIAL_OFFSET;
      threads := serial;
      ghost var was := shape;
      shape := WithSerial(shape, base);
      assert forall x :: x in shape.flat <==> x == base || x in was.flat;
      assert |was.flat| > 0 ==> shape.flat[|shape.flat| - 1] == was.flat[|was.flat| - 1];
    }

    /** SerialArena::AllocateNewBlock on the i-th SerialArena, for n bytes. */
    method AllocateNewBlock(serial: int, n: nat, base: int, ghost i: nat)
      requires Valid() && i < |shape.serials| && serial == shape.serials[i] && base > 0 && base !in heap.blocks
      modifies this`heap, this`shape
      ensures i < |old(shape).serials| && old(shape).cut[i] <= |old(shape).flat|
      ensures Valid() && shape == WithBlock(old(shape), i, base) && heap.freed == old(heap.freed)
      ensures heap.policies == old(heap.policies)
      ensures forall x | x in old(heap.blocks) :: x in heap.blocks && heap.blocks[x] == old(heap.blocks[x])
      ensures forall a | a in old(heap.serials) ::
                a in heap.serials && heap.serials[a].owner == old(heap.serials[a].owner)
      ensures serial in old(heap.serials) && old(heap.serials[serial].head) in old(heap.blocks)
      ensures base in heap.blocks
      ensures var last, sizes := old(heap.blocks[heap.serials[serial].head].size), old(SizesInForce());
              var wanted := if last == 0 then sizes.startBlockSize
                            else if 2 * last <= sizes.maxBlockSize then 2 * last
                            else sizes.maxBlockSize;
              heap.blocks[base].size == if wanted >= 24 + n then wanted else 24 + n
    {
      HeadIsBlock(heap, shape, i);
      var sizes := PolicySizes();
      var last := heap.blocks[heap.serials[serial].head].size;
      LinkBlock(serial, Mem(base, NextBlockSize(sizes, last, n)), i);
    }

    /** The block becomes the head of the i-th SerialArena. */
    method LinkBlock(serial: int, mem: Mem, ghost i: nat)
      requires Valid() && i < |shape.serials| && serial == shape.serials[i] && mem.ptr > 0 && mem.ptr !in heap.blocks
      modifies this`heap, this`shape
      ensures i < |old(shape).serials| && old(shape).cut[i] <= |old(shape).flat| && serial in old(heap.serials)
      ensures Valid() && shape == WithBlock(old(shape), i, mem.ptr) && heap == NewHead(old(heap), serial, mem)
    {
      WithBlockExtends(shape, i, mem.ptr);
      HeadIsBlock(heap, shape, i);
      WithBlockLinked(heap, shape, i, mem);
      heap := NewHead(heap, serial, mem);
      shape := WithBlock(shape, i, mem.ptr);
    }

    /** ThreadSafeArena::SpaceAllocated: the sum of all block sizes. */
    method SpaceAllocated() returns (total: nat)
      requires Valid()
      ensures total == SumSizes(heap.blocks, shape.flat)
    {
      var res, serial := 0, threads;
      ghost var i := 0;
      assert shape.flat[..0] == [];
      if |shape.serials| > 0 {
        SerialPositive(heap, shape, 0);
      }
      while serial != 0
        invariant 0 <= i <= |shape.serials| && shape.cut[i] <= |shape.flat|
        invariant serial == if i < |shape.serials| then shape.serials[i] else 0
        invariant i < |shape.serials| ==> serial > 0
        invariant res == SumSizes(heap.blocks, shape.flat[..shape.cut[i]])
        decreases |shape.serials| - i
      {
        SumOfSerial(heap, shape, i);
        res := res + heap.serials[serial].spaceAllocated;
        serial := heap.serials[serial].next;
        i := i + 1;
      }
      assert shape.flat[..|shape.flat|] == shape.flat;
      SumNotNegative(heap.blocks, shape.flat);
      total := res;
    }

    // ----- Freeing ------------------------------------------------------------------------------

    method Deallocate(mem: Mem, fn: int, space: nat) returns (total: nat)
      requires mem.ptr != 0 ==> mem.ptr in heap.blocks && heap.blocks[mem.ptr].size == mem.size
      modifies this`heap
      ensures total == space + mem.size
      ensures heap == if mem.ptr == 0 then old(heap) else Release(old(heap), Deallocation(mem, fn))
    {
      if mem.ptr != 0 {
        heap := Release(heap, Deallocation(mem, fn));
      }
      total := space + mem.size;
    }

    /** Freeing the next block in order. */
    method DeallocateNext(mem: Mem, fn: int, space: nat, ghost h0: Heap, ghost k: nat) returns (total: nat)
      requires GoodShape(shape) && k < |shape.flat| && heap == Freed(h0, shape.flat[..k], fn)
      requires IsBlock(mem, h0.blocks, shape.flat[k])
      modifies this`heap
      ensures heap == Freed(h0, shape.flat[..k + 1], fn)
      ensures total == space + mem.size
    {
      FreedOneMore(h0, shape, k, fn);
      total := Deallocate(mem, fn, space);
    }

    /** SerialArena::Free on the i-th SerialArena: all its blocks but the oldest, which it returns. */
    method SerialFree(a: int, fn: int, space: nat, ghost i: nat, ghost h0: Heap) returns (mem: Mem, total: nat)
      requires GoodShape(shape) && Linked(h0, shape) && i < |shape.serials| && a == shape.serials[i]
      requires shape.cut[i] < shape.cut[i + 1] <= |shape.flat|
      requires heap == Freed(h0, shape.flat[..shape.cut[i]], fn)
      modifies this`heap
      ensures heap == Freed(h0, shape.flat[..shape.cut[i + 1] - 1], fn)
      ensures IsBlock(mem, h0.blocks, shape.flat[shape.cut[i + 1] - 1])
      ensures total == space + SumSizes(h0.blocks, shape.flat[shape.cut[i]..shape.cut[i + 1] - 1])
    {
      ghost var lo, hi, p := shape.cut[i], shape.cut[i + 1], shape.cut[i];
      var b := Head(a, fn, h0, i);
      var header := Header(b, fn, h0, i, p);
      mem := Mem(b, header.size);
      total := space;
      assert shape.flat[lo..lo] == [];
      while header.next != 0
        invariant lo <= p < hi && b == shape.flat[p] && b in h0.blocks && header == h0.blocks[b]
        invariant header.next == if p + 1 < hi then shape.flat[p + 1] else 0
        invariant p + 1 < hi ==> shape.flat[p + 1] != 0
        invariant mem == Mem(b, header.size) && heap == Freed(h0, shape.flat[..p], fn)
        invariant total == space + SumSizes(h0.blocks, shape.flat[lo..p])
        decreases hi - p
      {
        b := header.next;
        total := DeallocateNext(mem, fn, total, h0, p);
        SumOneMore(h0.blocks, shape.flat, lo, p);
        p := p + 1;
        header := Header(b, fn, h0, i, p);
        mem := Mem(b, header.size);
      }
    }

    /** Reading the head of the i-th SerialArena, all blocks before its own being gone. */
    method Head(a: int, fn: int, ghost h0: Heap, ghost i: nat) returns (b: int)
      requires GoodShape(shape) && Linked(h0, shape) && i < |shape.serials| && a == shape.serials[i]
      requires shape.cut[i] < |shape.flat| && heap == Freed(h0, shape.flat[..shape.cut[i]], fn)
      ensures b == shape.flat[shape.cut[i]]
    {
      HeadReadable(h0, shape, i, fn);
      b := heap.serials[a].head;
    }

    /** Reading the header of block p of the free order, all blocks before it being gone. */
    method Header(b: int, fn: int, ghost h0: Heap, ghost i: nat, ghost p: nat) returns (header: BlockHeader)
      requires GoodShape(shape) && Linked(h0, shape) && i < |shape.serials|
      requires shape.cut[i] <= p < shape.cut[i + 1] <= |shape.flat| && b == shape.flat[p]
      requires heap == Freed(h0, shape.flat[..p], fn)
      ensures b in h0.blocks && header == h0.blocks[b]
      ensures header.next == if p + 1 < shape.cut[i + 1] then shape.flat[p + 1] else 0
      ensures p + 1 < shape.cut[i + 1] ==> shape.flat[p + 1] != 0
    {
      HeaderReadable(h0, shape, i, p, fn);
      header := heap.blocks[b];
    }

    /** Before the SerialArena whose blocks start at k is visited, all blocks before are freed but the
        last one, which is pending; `space` adds up what is freed. */
    ghost predicate Pending(mem: Mem, fn: int, space: int, space0: int, h0: Heap, k: nat)
      reads this
    {
      k <= |shape.flat| &&
      if k == 0 then mem == Mem(0, 0) && space == space0 && heap == h0
      else
        && heap == Freed(h0, shape.flat[..k - 1], fn)
        && IsBlock(mem, h0.blocks, shape.flat[k - 1])
        && space + mem.size == space0 + SumSizes(h0.blocks, shape.flat[..k])
    }

    /** What ThreadSafeArena::Free does for each SerialArena. */
    method FreeOne(serial: int, fn: int, pending: Mem, space: nat, ghost i: nat, ghost space0: nat, ghost h0: Heap)
      returns (mem: Mem, total: nat)
      requires GoodShape(shape) && Linked(h0, shape) && i < |shape.serials| && serial == shape.serials[i]
      requires Pending(pending, fn, space, space0, h0, shape.cut[i])
      modifies this`heap
      ensures Pending(mem, fn, total, space0, h0, shape.cut[i + 1])
    {
      CutBounds(shape, i);
      ghost var lo, hi := shape.cut[i], shape.cut[i + 1];
      total := space;
      if lo > 0 {
        assert Address(shape.flat, lo - 1);
      } else {
        FreedNothing(h0, fn);
      }
      if pending.ptr != 0 {
        total := DeallocateNext(pending, fn, total, h0, lo - 1);
      }
      mem, total := SerialFree(serial, fn, total, i, h0);
      SumWithLast(h0.blocks, shape.flat, lo, hi);
    }

    /** ThreadSafeArena::Free: every block but the last, which is returned. */
    method Free(fn: int, space: nat) returns (mem: Mem, total: nat)
      requires Valid()
      modifies this`heap
      ensures Pending(mem, fn, total, space, old(heap), |shape.flat|)
    {
      ghost var h0 := heap;
      mem, total := Mem(0, 0), space;
      var serial := threads;
      ghost var i, n := 0, |shape.serials|;
      if n > 0 {
        SerialPositive(h0, shape, 0);
      }
      while serial != 0
        invariant 0 <= i <= n && serial == if i < n then shape.serials[i] else 0
        invariant i < n ==> serial > 0
        invariant Pending(mem, fn, total, space, h0, shape.cut[i])
        decreases n - i
      {
        mem, total := FreeOne(serial, fn, mem, total, i, space, h0);
        NextReadable(h0, shape, i, fn);
        serial := heap.serials[serial].next;
        i := i + 1;
        if i < n {
          SerialPositive(h0, shape, i);
        }
      }
    }

    /** The blocks the arena gives back itself: all but a user-owned initial block. */
    ghost function Owned(): seq<int>
      reads this
    {
      if userOwned && |shape.flat| > 0 then shape.flat[..|shape.flat| - 1] else shape.flat
    }

    /** The common start of destruction and reset; the policy is still there for what follows. */
    method FreeAllButLast() returns (mem: Mem, fn: int, total: nat)
      requires Valid()
      modifies this`heap
      ensures fn == if policy != 0 then old(heap.policies[policy].blockDealloc) else 0
      ensures Pending(mem, fn, total, 0, old(heap), |shape.flat|) && shape.flat[..|shape.flat|] == shape.flat
      ensures policy != 0 ==> policy in heap.policies && heap.policies[policy] == old(heap.policies[policy])
      ensures heap.blocks.Keys == if |shape.flat| > 0 then {mem.ptr} else {}
      ensures |shape.flat| > 0 ==> mem.ptr > 0
      ensures Freed(old(heap), shape.flat, fn).blocks == map[]
    {
      ghost var h0 := heap;
      fn := GetDeallocator();
      mem, total := Free(fn, 0);
      AfterFree(h0, shape, fn);
      assert shape.flat[..|shape.flat|] == shape.flat;
    }

    /** The destructor, after its cleanups have run; `total` goes to the collector, if there is one. */
    method Destroy() returns (collector: int, total: nat)
      requires Valid()
      modifies this`heap
      ensures total == SumSizes(old(heap.blocks), shape.flat)
      ensures collector == if policy != 0 then old(heap.policies[policy].collector) else 0
      ensures var fn := if policy != 0 then old(heap.policies[policy].blockDealloc) else 0;
              heap == Freed(old(heap), Owned(), fn)
    {
      ghost var h0 := heap;
      var mem, fn, space := FreeAllButLast();
      total := space;
      collector := if policy != 0 then heap.policies[policy].collector else 0;
      if userOwned {
        total := total + mem.size;
      } else {
        fn := GetDeallocator();
        total := LastDeallocation(mem, fn, total, h0);
      }
    }

    /** Giving back the block that Free returned, if there is any block. */
    method LastDeallocation(mem: Mem, fn: int, space: nat, ghost h0: Heap) returns (total: nat)
      requires GoodShape(shape) && Pending(mem, fn, space, 0, h0, |shape.flat|)
      modifies this`heap
      ensures total == SumSizes(h0.blocks, shape.flat) && heap == Freed(h0, shape.flat, fn)
    {
      assert shape.flat[..|shape.flat|] == shape.flat;
      if |shape.flat| == 0 {
        FreedNothing(h0, fn);
      } else {
        FreedOneMore(h0, shape, |shape.flat| - 1, fn);
      }
      total := Deallocate(mem, fn, space);
    }

    /** Reset, after its cleanups have run.  `owner` is the calling thread; `base` is the address that
        the block allocator gives, should a block for the policy be needed. */
    method Reset(owner: int, base: int) returns (total: nat)
      requires Valid() && base > 0
      modifies this
      ensures Valid()
      ensures total == SumSizes(old(heap.blocks), old(shape.flat))
      ensures var fn := if old(policy) != 0 then old(heap.policies[policy].blockDealloc) else 0;
              heap.freed == old(heap.freed) + FreeLog(old(heap.blocks), old(Owned()), fn)
      ensures userOwned == old(userOwned)
      ensures userOwned ==> initial == old(initial) && shape.flat == [initial.ptr]
      ensures old(policy) == 0 ==> policy == 0 && (!userOwned ==> shape.flat == [])
      ensures old(policy) != 0 ==> policy != 0 && heap.policies[policy] == old(heap.policies[policy])
      ensures old(policy) != 0 && !userOwned ==>
                && shape.flat == [base]
                && var wanted := heap.policies[policy].sizes.startBlockSize;
                   heap.blocks[base].size == if wanted >= 24 + MINIMUM_SIZE then wanted else 24 + MINIMUM_SIZE
      ensures userOwned || policy != 0 ==> threads in heap.serials && heap.serials[threads].owner == owner
    {
      ghost var h0 := heap;
      var mem, fn, space := FreeAllButLast();
      total := space;
      if policy != 0 {
        var saved := heap.policies[policy];
        if userOwned {
          total := total + mem.size;
        } else {
          fn := GetDeallocator();
          total := LastDeallocation(mem, fn, total, h0);
          mem := Mem(0, 0);
        }
        InitializeWithPolicy(mem, owner, saved, base);
      } else if userOwned {
        total := total + mem.size;
        InitializeFrom(mem, owner);
      } else {
        total := LastDeallocation(mem, fn, total, h0);
        Init();
      }
    }
  }
}
