/**
 How a thread finds its SerialArena in a ThreadSafeArena: its cache, the arena's hint, and the list
 grown by compare-and-swap.  Threads take turns; every read or write of something shared is a step
 of its own.  Addresses of SerialArenas are used again once their arena is reset or destroyed.
 */
module ThreadCacheModel {
  import opened LifecycleIds

  /** last_lifecycle_id_seen and last_serial_arena of a thread. */
  datatype Cache = Cache(lastSeen: int, lastSerial: int)

  const EMPTY_CACHE := Cache(-1, 0)

  /** A SerialArena's owner and next pointer, and the arena that it was made for. */
  datatype Serial = Serial(owner: nat, next: int, home: nat)

  /** The fields of a ThreadSafeArena, with the contents that its list should have. */
  datatype Arena = Arena(tag: int, threads: int, hint: int, list: seq<int>)

  /** Where a thread is.  `left` counts the entries of the list still to visit. */
  datatype Pc =
    | Idle
    | AtHint(arena: nat)
    | AtOwner(arena: nat, p: int)
    | AtHead(arena: nat)
    | Walking(arena: nat, p: int, left: nat)
    | AtExpected(arena: nat, q: int)
    | AtSetNext(arena: nat, q: int, head: int)
    | AtSwap(arena: nat, q: int, head: int)
    | AtCache(arena: nat, q: int)
    | AtStoreHint(arena: nat, q: int)

  /** The arenas alive, and the SerialArenas not yet freed. */
  datatype Memory = Memory(arenas: map<nat, Arena>, serials: map<int, Serial>)

  /** A SerialArena handed to the code that called for one. */
  datatype Handout = Handout(thread: nat, arena: nat, p: int)

  /** `log` is every call for a SerialArena that got one, in order. */
  datatype State = State(ids: Ids, mem: Memory, caches: map<nat, Cache>, pcs: map<nat, Pc>, log: seq<Handout>)

  const START := State(NO_IDS, Memory(map[], map[]), map[], map[], [])

  datatype Action =
    | Restart
    | Create(arena: nat, owned: bool, block: int)
    | Destroy(arena: nat)
    | Call(arena: nat)
    | LoadHint
    | ReadOwner
    | GiveUp
    | LoadHead
    | Visit
    | Allocate(block: int)
    | LoadExpected
    | SetNext
    | Swap(spurious: bool)
    | WriteCache
    | StoreHint

  function CacheOf(caches: map<nat, Cache>, t: nat): Cache { if t in caches then caches[t] else EMPTY_CACHE }

  function PcOf(pcs: map<nat, Pc>, t: nat): Pc { if t in pcs then pcs[t] else Idle }

  function OwnerOf(m: Memory, p: int): int { if p in m.serials then m.serials[p].owner else -1 }

  function NextPtr(m: Memory, p: int): int { if p in m.serials then m.serials[p].next else 0 }

  function First(s: seq<int>): int { if |s| > 0 then s[0] else 0 }

  /** LifeCycleId: the tag without the message-owned bit. */
  function IdOf(tag: int): int { tag - tag % 2 }

  predicate Away(pcs: map<nat, Pc>, t: nat, a: nat) { PcOf(pcs, t).Idle? || PcOf(pcs, t).arena != a }

  ghost predicate NobodyIn(pcs: map<nat, Pc>, a: nat) { forall t: nat :: Away(pcs, t, a) }

  /** The SerialArenas that stay when arena a's blocks are freed. */
  function Survivors(m: Memory, a: nat): map<int, Serial> {
    map p | p in m.serials && m.serials[p].home != a :: m.serials[p]
  }

  // ----- Steps ----------------------------------------------------------------------------------

  /** Restart is the end of a thread and the start of another whose cache has the same address.  Create
      is construction of an arena or, on one that is alive, Reset: nobody may be using it. */
  ghost predicate Enabled(s: State, t: nat, act: Action) {
    var pc := PcOf(s.pcs, t);
    match act
    case Restart => pc.Idle?
    case Create(a, _, block) =>
      && pc.Idle? && NobodyIn(s.pcs, a)
      && (block == 0 || (block > 0 && block !in Survivors(s.mem, a)))
    case Destroy(a) => pc.Idle? && a in s.mem.arenas && NobodyIn(s.pcs, a)
    case Call(a) => pc.Idle? && a in s.mem.arenas
    case LoadHint => pc.AtHint?
    case ReadOwner => pc.AtOwner?
    case GiveUp => pc.AtHead?
    case LoadHead => pc.AtHead?
    case Visit => pc.Walking? && pc.p != 0
    case Allocate(block) => pc.Walking? && pc.p == 0 && block > 0 && block !in s.mem.serials
    case LoadExpected => pc.AtExpected?
    case SetNext => pc.AtSetNext?
    case Swap(_) => pc.AtSwap?
    case WriteCache => pc.AtCache?
    case StoreHint => pc.AtStoreHint?
  }

  function Goto(s: State, t: nat, pc: Pc): State { s.(pcs := s.pcs[t := pc]) }

  /** The call of thread t returns SerialArena p of arena a. */
  function Return(s: State, t: nat, a: nat, p: int): State {
    Goto(s, t, Idle).(log := s.log + [Handout(t, a, p)])
  }

  function Freed(m: Memory, a: nat): Memory { Memory(m.arenas - {a}, Survivors(m, a)) }

  /** An arena with that tag, and its initial block unless block is 0. */
  function WithArena(m: Memory, t: nat, a: nat, tag: int, block: int): Memory {
    if block == 0 then Memory(m.arenas[a := Arena(tag, 0, 0, [])], Survivors(m, a))
    else Memory(m.arenas[a := Arena(tag, block, block, [block])], Survivors(m, a)[block := Serial(t, 0, a)])
  }

  /** The message-owned bit, which a reset keeps. */
  function TagBit(m: Memory, a: nat, owned: bool): (bit: int)
    ensures 0 <= bit <= 1
  {
    if a in m.arenas then m.arenas[a].tag % 2 else if owned then 1 else 0
  }

  /** Init, and SetInitialBlock unless block is 0. */
  function Created(s: State, t: nat, a: nat, owned: bool, block: int): State {
    var tag := TakenId(s.ids, t) + TagBit(s.mem, a, owned);
    State(Take(s.ids, t), WithArena(s.mem, t, a, tag, block),
          if block == 0 then s.caches else s.caches[t := Cache(tag, block)], s.pcs, s.log)
  }

  /** The compare-and-swap that puts q before the list of arena a. */
  function Pushed(m: Memory, a: nat, q: int): Memory
    requires a in m.arenas
  {
    m.(arenas := m.arenas[a := m.arenas[a].(threads := q, list := [q] + m.arenas[a].list)])
  }

  function Relinked(m: Memory, q: int, head: int): Memory
    requires q in m.serials
  {
    m.(serials := m.serials[q := m.serials[q].(next := head)])
  }

  function Hinted(m: Memory, a: nat, q: int): Memory
    requires a in m.arenas
  {
    m.(arenas := m.arenas[a := m.arenas[a].(hint := q)])
  }

  function Next(s: State, t: nat, act: Action): State {
    var pc := PcOf(s.pcs, t);
    match act
    case Restart => s.(ids := Forget(s.ids, t), caches := s.caches - {t})
    case Create(a, owned, block) => Created(s, t, a, owned, block)
    case Destroy(a) => s.(mem := Freed(s.mem, a))
    case Call(a) =>
      if a in s.mem.arenas && CacheOf(s.caches, t).lastSeen == s.mem.arenas[a].tag
      then Return(s, t, a, CacheOf(s.caches, t).lastSerial)
      else Goto(s, t, AtHint(a))
    case LoadHint =>
      if pc.AtHint? && pc.arena in s.mem.arenas then Goto(s, t, AtOwner(pc.arena, s.mem.arenas[pc.arena].hint)) else s
    case ReadOwner =>
      if !pc.AtOwner? then s
      else if pc.p != 0 && OwnerOf(s.mem, pc.p) == t then Return(s, t, pc.arena, pc.p)
      else Goto(s, t, AtHead(pc.arena))
    case GiveUp => Goto(s, t, Idle)
    case LoadHead =>
      if pc.AtHead? && pc.arena in s.mem.arenas
      then Goto(s, t, Walking(pc.arena, s.mem.arenas[pc.arena].threads, |s.mem.arenas[pc.arena].list|))
      else s
    case Visit =>
      if !pc.Walking? || pc.left == 0 then s
      else if OwnerOf(s.mem, pc.p) == t then Goto(s, t, AtCache(pc.arena, pc.p))
      else Goto(s, t, Walking(pc.arena, NextPtr(s.mem, pc.p), pc.left - 1))
    case Allocate(block) =>
      if !pc.Walking? then s
      else
        var m := s.mem.(serials := s.mem.serials[block := Serial(t, 0, pc.arena)]);
        Goto(s.(mem := m), t, AtExpected(pc.arena, block))
    case LoadExpected =>
      if pc.AtExpected? && pc.arena in s.mem.arenas
      then Goto(s, t, AtSetNext(pc.arena, pc.q, s.mem.arenas[pc.arena].threads))
      else s
    case SetNext =>
      if pc.AtSetNext? && pc.q in s.mem.serials
      then Goto(s.(mem := Relinked(s.mem, pc.q, pc.head)), t, AtSwap(pc.arena, pc.q, pc.head))
      else s
    case Swap(spurious) =>
      if !pc.AtSwap? || pc.arena !in s.mem.arenas then s
      else if !spurious && s.mem.arenas[pc.arena].threads == pc.head
      then Goto(s.(mem := Pushed(s.mem, pc.arena, pc.q)), t, AtCache(pc.arena, pc.q))
      else Goto(s, t, AtSetNext(pc.arena, pc.q, s.mem.arenas[pc.arena].threads))
    case WriteCache =>
      if pc.AtCache? && pc.arena in s.mem.arenas
      then Goto(s.(caches := s.caches[t := Cache(s.mem.arenas[pc.arena].tag, pc.q)]), t, AtStoreHint(pc.arena, pc.q))
      else s
    case StoreHint =>
      if pc.AtStoreHint? && pc.arena in s.mem.arenas
      then Return(s.(mem := Hinted(s.mem, pc.arena, pc.q)), t, pc.arena, pc.q)
      else s
  }

  /** What following the next pointers from p finds: the first SerialArena owned by t, or 0. */
  function Lookup(m: Memory, p: int, t: nat, fuel: nat): int
    decreases fuel
  {
    if fuel == 0 || p !in m.serials then 0
    else if m.serials[p].owner == t then p
    else Lookup(m, m.serials[p].next, t, fuel - 1)
  }

  // ----- The invariant --------------------------------------------------------------------------

  /** Entry i of a's list is a SerialArena of a, linked to entry i + 1. */
  predicate EntryOk(m: Memory, a: nat, i: nat)
    requires a in m.arenas && i < |m.arenas[a].list|
  {
    var list := m.arenas[a].list;
    && list[i] > 0 && list[i] in m.serials
    && m.serials[list[i]].home == a
    && m.serials[list[i]].next == if i + 1 < |list| then list[i + 1] else 0
  }

  predicate OwnersApart(m: Memory, a: nat, i: nat, j: nat)
    requires a in m.arenas && i < |m.arenas[a].list| && j < |m.arenas[a].list|
  {
    OwnerOf(m, m.arenas[a].list[i]) != OwnerOf(m, m.arenas[a].list[j])
  }

  /** Entry i of a's list belongs to another thread. */
  predicate NotMine(m: Memory, a: nat, t: nat, i: nat)
    requires a in m.arenas && i < |m.arenas[a].list|
  {
    OwnerOf(m, m.arenas[a].list[i]) != t
  }

  predicate FieldsOk(m: Memory, issued: seq<nat>, a: nat)
    requires a in m.arenas
  {
    var arena := m.arenas[a];
    && arena.tag >= 0 && IdOf(arena.tag) in issued
    && arena.threads == First(arena.list)
    && (arena.hint == 0 || arena.hint in arena.list)
  }

  predicate TagsApart(m: Memory, a: nat, b: nat)
    requires a in m.arenas && b in m.arenas
  {
    IdOf(m.arenas[a].tag) != IdOf(m.arenas[b].tag)
  }

  ghost predicate ListOk(m: Memory, issued: seq<nat>, a: nat)
    requires a in m.arenas
  {
    && FieldsOk(m, issued, a)
    && (forall i | 0 <= i < |m.arenas[a].list| :: EntryOk(m, a, i))
    && (forall i, j | 0 <= i < |m.arenas[a].list| && 0 <= j < |m.arenas[a].list| && i != j :: OwnersApart(m, a, i, j))
  }

  predicate CacheSeen(caches: map<nat, Cache>, issued: seq<nat>, t: nat) {
    var c := CacheOf(caches, t);
    c.lastSeen == -1 || (c.lastSeen >= 0 && IdOf(c.lastSeen) in issued)
  }

  /** p is what thread t should get from arena a. */
  predicate Mine(m: Memory, t: nat, a: nat, p: int) {
    a in m.arenas && p in m.arenas[a].list && OwnerOf(m, p) == t
  }

  predicate CacheOk(caches: map<nat, Cache>, m: Memory, t: nat, a: nat)
    requires a in m.arenas
  {
    CacheOf(caches, t).lastSeen == m.arenas[a].tag ==> Mine(m, t, a, CacheOf(caches, t).lastSerial)
  }

  ghost predicate NoneMine(m: Memory, t: nat, a: nat, n: nat)
    requires a in m.arenas && n <= |m.arenas[a].list|
  {
    forall i | 0 <= i < n :: NotMine(m, a, t, i)
  }

  /** q is t's own new SerialArena, not yet in the list of arena a, which has none of t's. */
  ghost predicate Unlisted(m: Memory, t: nat, a: nat, q: int)
    requires a in m.arenas
  {
    && q > 0 && q in m.serials && m.serials[q].owner == t && m.serials[q].home == a
    && NoneMine(m, t, a, |m.arenas[a].list|)
  }

  ghost predicate PcOk(m: Memory, t: nat, pc: Pc) {
    pc.Idle? || (
      && pc.arena in m.arenas
      && var list := m.arenas[pc.arena].list;
         match pc
         case AtOwner(a, p) => p == 0 || p in list
         case Walking(a, p, left) =>
           left <= |list| && p == First(list[|list| - left..]) && NoneMine(m, t, a, |list| - left)
         case AtExpected(a, q) => Unlisted(m, t, a, q)
         case AtSetNext(a, q, _) => Unlisted(m, t, a, q)
         case AtSwap(a, q, head) => Unlisted(m, t, a, q) && m.serials[q].next == head
         case AtCache(a, q) => Mine(m, t, a, q)
         case AtStoreHint(a, q) => Mine(m, t, a, q)
         case _ => true)
  }

  ghost predicate ArenasOk(m: Memory, issued: seq<nat>) {
    && (forall a | a in m.arenas :: ListOk(m, issued, a))
    && (forall a, b | a in m.arenas && b in m.arenas && a != b :: TagsApart(m, a, b))
  }

  ghost predicate CachesOk(caches: map<nat, Cache>, m: Memory, issued: seq<nat>) {
    && (forall t: nat :: CacheSeen(caches, issued, t))
    && (forall t: nat, a | a in m.arenas :: CacheOk(caches, m, t, a))
  }

  ghost predicate PcsOk(pcs: map<nat, Pc>, m: Memory) {
    forall t: nat :: PcOk(m, t, PcOf(pcs, t))
  }

  ghost predicate Safe(s: State) {
    && Inv(s.ids)
    && ArenasOk(s.mem, s.ids.issued)
    && CachesOk(s.caches, s.mem, s.ids.issued)
    && PcsOk(s.pcs, s.mem)
  }
}
