/**
 What every run of the threads promises: the SerialArena that a caller gets is its own one in the
 arena's list, and what is pushed on the list stays there.
 */
module ThreadCache {
  import opened LifecycleIds
  import opened ThreadCacheModel
  import opened ThreadCacheProofs

  ghost predicate StepAt(states: seq<State>, who: seq<nat>, acts: seq<Action>, i: nat)
    requires |states| == |who| + 1 == |acts| + 1 && i < |acts|
  {
    Enabled(states[i], who[i], acts[i]) && states[i + 1] == Next(states[i], who[i], acts[i])
  }

  ghost predicate IsRun(states: seq<State>, who: seq<nat>, acts: seq<Action>) {
    && |states| == |who| + 1 == |acts| + 1
    && states[0] == START
    && forall i | 0 <= i < |acts| :: StepAt(states, who, acts, i)
  }

  lemma {:induction false} RunIsSafe(states: seq<State>, who: seq<nat>, acts: seq<Action>, i: nat)
    requires IsRun(states, who, acts) && i < |states|
    ensures Safe(states[i])
  {
    if i == 0 {
      StartIsSafe();
    } else {
      RunIsSafe(states, who, acts, i - 1);
      assert StepAt(states, who, acts, i - 1);
      StepKeepsSafe(states[i - 1], who[i - 1], acts[i - 1]);
    }
  }

  // ----- What a caller gets ---------------------------------------------------------------------

  /** Following the real next pointers from entry i passes the entries of other threads until t's. */
  lemma {:induction false} LookupFrom(m: Memory, issued: seq<nat>, t: nat, a: nat, i: nat, k: nat, fuel: nat)
    requires a in m.arenas && ListOk(m, issued, a) && i <= k < |m.arenas[a].list| && fuel > k - i
    requires OwnerOf(m, m.arenas[a].list[k]) == t
    ensures Lookup(m, m.arenas[a].list[i], t, fuel) == m.arenas[a].list[k]
    decreases k - i
  {
    assert EntryOk(m, a, i) && EntryOk(m, a, k);
    if i < k {
      assert OwnersApart(m, a, i, k);
      LookupFrom(m, issued, t, a, i + 1, k, fuel - 1);
    }
  }

  lemma LookupFindsMine(m: Memory, issued: seq<nat>, t: nat, a: nat, p: int)
    requires a in m.arenas && ListOk(m, issued, a) && Mine(m, t, a, p)
    ensures Lookup(m, m.arenas[a].threads, t, |m.arenas[a].list|) == p
  {
    var list := m.arenas[a].list;
    var k :| 0 <= k < |list| && list[k] == p;
    assert FieldsOk(m, issued, a);
    LookupFrom(m, issued, t, a, 0, k, |list|);
  }

  /** In every interleaving: what a step hands to its caller, from the cache, the hint or the list, is in
      the arena's current list, the caller's own, and the one that walking the list finds. */
  lemma CallersGetTheirOwn(states: seq<State>, who: seq<nat>, acts: seq<Action>, i: nat, e: Handout)
    requires IsRun(states, who, acts) && i < |acts| && states[i + 1].log == states[i].log + [e]
    ensures var m := states[i + 1].mem;
            && e.thread == who[i]
            && e.arena in m.arenas && e.p in m.arenas[e.arena].list
            && e.p in m.serials && m.serials[e.p].owner == who[i]
            && Lookup(m, m.arenas[e.arena].threads, who[i], |m.arenas[e.arena].list|) == e.p
  {
    RunIsSafe(states, who, acts, i);
    RunIsSafe(states, who, acts, i + 1);
    assert StepAt(states, who, acts, i);
    HandoutIsMine(states[i], who[i], acts[i], e);
    var m, issued := states[i + 1].mem, states[i + 1].ids.issued;
    assert ListOk(m, issued, e.arena);
    LookupFindsMine(m, issued, who[i], e.arena, e.p);
  }

  lemma HandoutIsMine(s: State, t: nat, act: Action, e: Handout)
    requires Safe(s) && Enabled(s, t, act) && Next(s, t, act).log == s.log + [e]
    ensures e.thread == t && Mine(Next(s, t, act).mem, t, e.arena, e.p)
  {
    var log, pc := s.log, PcOf(s.pcs, t);
    assert log != log + [e] && (log + [e])[|log|] == e;
    assert PcOk(s.mem, t, pc);
    match act
    case Call(a) => assert CacheOk(s.caches, s.mem, t, a);
    case ReadOwner => assert pc.p != 0 && OwnerOf(s.mem, pc.p) == t;
    case _ =>
  }

  /** Every call that ends is accounted for: a thread that is not busy after a step of a call has been
      handed exactly one SerialArena by it, unless it gave up after the fast path, and nothing else is
      ever handed out. */
  lemma EveryEndingIsLogged(states: seq<State>, who: seq<nat>, acts: seq<Action>, i: nat)
    requires IsRun(states, who, acts) && i < |acts|
    ensures var s, s', t := states[i], states[i + 1], who[i];
            var calling := !acts[i].Create? && !acts[i].Destroy? && !acts[i].Restart? && !acts[i].GiveUp?;
            if calling && PcOf(s'.pcs, t).Idle?
            then exists a, p :: s'.log == s.log + [Handout(t, a, p)]
            else s'.log == s.log
  {
    RunIsSafe(states, who, acts, i);
    var s, t := states[i], who[i];
    assert PcOk(s.mem, t, PcOf(s.pcs, t)) && StepAt(states, who, acts, i);
    EndingIsLogged(s, t, acts[i]);
  }

  lemma EndingIsLogged(s: State, t: nat, act: Action)
    requires Enabled(s, t, act) && PcOk(s.mem, t, PcOf(s.pcs, t))
    ensures var s' := Next(s, t, act);
            var calling := !act.Create? && !act.Destroy? && !act.Restart? && !act.GiveUp?;
            if calling && PcOf(s'.pcs, t).Idle?
            then exists a, p :: s'.log == s.log + [Handout(t, a, p)]
            else s'.log == s.log
  {
    var s', pc := Next(s, t, act), PcOf(s.pcs, t);
    match act
    case Call(a) =>
      assert PcOf(s'.pcs, t).Idle? ==> s'.log == s.log + [Handout(t, a, CacheOf(s.caches, t).lastSerial)];
    case ReadOwner => assert PcOf(s'.pcs, t).Idle? ==> s'.log == s.log + [Handout(t, pc.arena, pc.p)];
    case StoreHint => assert s'.log == s.log + [Handout(t, pc.arena, pc.q)];
    case _ =>
  }

  /** A thread that gets no hit finds no entry of its own, in the same walk, exactly when it allocates. */
  lemma AllocatesOnlyWithoutOwn(states: seq<State>, who: seq<nat>, acts: seq<Action>, i: nat)
    requires IsRun(states, who, acts) && i < |acts| && acts[i].Allocate?
    ensures var s, t := states[i], who[i];
            var pc := PcOf(s.pcs, t);
            pc.Walking? && forall p :: !Mine(s.mem, t, pc.arena, p)
  {
    RunIsSafe(states, who, acts, i);
    var s, t := states[i], who[i];
    var pc := PcOf(s.pcs, t);
    assert StepAt(states, who, acts, i) && PcOk(s.mem, t, pc);
    var list := s.mem.arenas[pc.arena].list;
    assert ListOk(s.mem, s.ids.issued, pc.arena);
    assert pc.left > 0 ==> EntryOk(s.mem, pc.arena, |list| - pc.left);
    forall p ensures !Mine(s.mem, t, pc.arena, p) {
      if p in list {
        var k :| 0 <= k < |list| && list[k] == p;
        assert NotMine(s.mem, pc.arena, t, k);
      }
    }
  }

  /** No step follows a pointer to a SerialArena that has been freed. */
  lemma PointersAreAlive(states: seq<State>, who: seq<nat>, acts: seq<Action>, i: nat)
    requires IsRun(states, who, acts) && i < |acts|
    ensures var pc, m := PcOf(states[i].pcs, who[i]), states[i].mem;
            match acts[i]
            case ReadOwner => pc.AtOwner? && (pc.p != 0 ==> pc.p in m.serials && m.serials[pc.p].home == pc.arena)
            case Visit => pc.Walking? && pc.p in m.serials && m.serials[pc.p].home == pc.arena
            case SetNext => pc.AtSetNext? && pc.q in m.serials && m.serials[pc.q].home == pc.arena
            case _ => true
  {
    RunIsSafe(states, who, acts, i);
    var s, t := states[i], who[i];
    var pc := PcOf(s.pcs, t);
    assert PcOk(s.mem, t, pc) && StepAt(states, who, acts, i);
    if pc.AtOwner? || pc.Walking? {
      var list := s.mem.arenas[pc.arena].list;
      assert ListOk(s.mem, s.ids.issued, pc.arena);
      if pc.p in list {
        var k :| 0 <= k < |list| && list[k] == pc.p;
        assert EntryOk(s.mem, pc.arena, k);
      }
    }
  }

  /** The list of an arena never holds two entries of one thread. */
  lemma OneEntryPerThread(states: seq<State>, who: seq<nat>, acts: seq<Action>, i: nat, a: nat, p: int, q: int)
    requires IsRun(states, who, acts) && i < |states|
    requires a in states[i].mem.arenas && p in states[i].mem.arenas[a].list && q in states[i].mem.arenas[a].list
    requires OwnerOf(states[i].mem, p) == OwnerOf(states[i].mem, q)
    ensures p == q
  {
    RunIsSafe(states, who, acts, i);
    var m, list := states[i].mem, states[i].mem.arenas[a].list;
    assert ListOk(m, states[i].ids.issued, a);
    var j :| 0 <= j < |list| && list[j] == p;
    var k :| 0 <= k < |list| && list[k] == q;
    assert j != k ==> OwnersApart(m, a, j, k);
  }

  // ----- Nothing pushed is lost -----------------------------------------------------------------

  /** The step resets or destroys arena a. */
  predicate Ends(act: Action, a: nat) {
    (act.Create? || act.Destroy?) && act.arena == a
  }

  predicate Suffix(s: seq<int>, t: seq<int>) {
    |s| <= |t| && t[|t| - |s|..] == s
  }

  lemma SuffixChain(r: seq<int>, s: seq<int>, t: seq<int>)
    requires Suffix(r, s) && Suffix(s, t)
    ensures Suffix(r, t)
  {
    assert t[|t| - |s|..][|s| - |r|..] == t[|t| - |r|..];
  }

  lemma SuffixOfSelf(s: seq<int>, q: int)
    ensures Suffix(s, s) && Suffix(s, [q] + s)
  {
    assert s[0..] == s && ([q] + s)[1..] == s;
  }

  predicate KeepsEntries(m: Memory, m': Memory, a: nat)
    requires a in m.arenas
  {
    a in m'.arenas && m'.arenas[a].tag == m.arenas[a].tag && Suffix(m.arenas[a].list, m'.arenas[a].list)
  }

  lemma FreedKeepsEntries(m: Memory, b: nat, a: nat)
    requires a in m.arenas && a != b
    ensures KeepsEntries(m, Freed(m, b), a)
  {
    SuffixOfSelf(m.arenas[a].list, 0);
  }

  lemma WithArenaKeepsEntries(m: Memory, t: nat, b: nat, tag: int, block: int, a: nat)
    requires a in m.arenas && a != b
    ensures KeepsEntries(m, WithArena(m, t, b, tag, block), a)
  {
    SuffixOfSelf(m.arenas[a].list, 0);
  }

  lemma PushedKeepsEntries(m: Memory, b: nat, q: int, a: nat)
    requires a in m.arenas && b in m.arenas
    ensures KeepsEntries(m, Pushed(m, b, q), a) && KeepsEntries(m, m, a)
  {
    SuffixOfSelf(m.arenas[a].list, q);
  }

  /** The other steps change no list. */
  lemma OtherKeepsEntries(s: State, t: nat, act: Action, a: nat)
    requires Enabled(s, t, act) && a in s.mem.arenas && !act.Create? && !act.Destroy? && !act.Swap?
    ensures KeepsEntries(s.mem, Next(s, t, act).mem, a)
  {
    SuffixOfSelf(s.mem.arenas[a].list, 0);
  }

  lemma StepKeepsEntries(s: State, t: nat, act: Action, a: nat)
    requires Enabled(s, t, act) && a in s.mem.arenas && !Ends(act, a)
    ensures KeepsEntries(s.mem, Next(s, t, act).mem, a)
  {
    var pc := PcOf(s.pcs, t);
    match act
    case Create(b, owned, block) =>
      WithArenaKeepsEntries(s.mem, t, b, TakenId(s.ids, t) + TagBit(s.mem, b, owned), block, a);
    case Destroy(b) => FreedKeepsEntries(s.mem, b, a);
    case Swap(_) =>
      PushedKeepsEntries(s.mem, if pc.arena in s.mem.arenas then pc.arena else a, pc.q, a);
    case _ => OtherKeepsEntries(s, t, act, a);
  }

  /** Until a reset, the list of an arena only grows at its front, and no push is undone by another. */
  lemma {:induction false} RunKeepsEntries(states: seq<State>, who: seq<nat>, acts: seq<Action>, i: nat, j: nat, a: nat)
    requires IsRun(states, who, acts) && i <= j < |states| && a in states[i].mem.arenas
    requires forall k | i <= k < j :: !Ends(acts[k], a)
    ensures a in states[j].mem.arenas && states[j].mem.arenas[a].tag == states[i].mem.arenas[a].tag
    ensures Suffix(states[i].mem.arenas[a].list, states[j].mem.arenas[a].list)
    decreases j
  {
    if i == j {
      assert states[i].mem.arenas[a].list[0..] == states[i].mem.arenas[a].list;
    } else {
      RunKeepsEntries(states, who, acts, i, j - 1, a);
      RunIsSafe(states, who, acts, j - 1);
      assert StepAt(states, who, acts, j - 1);
      assert !Ends(acts[j - 1], a);
      StepKeepsEntries(states[j - 1], who[j - 1], acts[j - 1], a);
      assert KeepsEntries(states[j - 1].mem, states[j].mem, a);
      SuffixChain(states[i].mem.arenas[a].list, states[j - 1].mem.arenas[a].list, states[j].mem.arenas[a].list);
    }
  }

  /** A successful compare-and-swap puts the new entry on the list, where it stays until a reset. */
  lemma PushIsKept(states: seq<State>, who: seq<nat>, acts: seq<Action>, i: nat, j: nat)
    requires IsRun(states, who, acts) && i < j < |states|
    requires var pc, arenas := PcOf(states[i].pcs, who[i]), states[i].mem.arenas;
             && acts[i] == Swap(false) && pc.AtSwap? && pc.arena in arenas && arenas[pc.arena].threads == pc.head
             && forall k | i <= k < j :: !Ends(acts[k], pc.arena)
    ensures var pc := PcOf(states[i].pcs, who[i]);
            Mine(states[j].mem, who[i], pc.arena, pc.q)
  {
    var pc := PcOf(states[i].pcs, who[i]);
    var a, q := pc.arena, pc.q;
    RunIsSafe(states, who, acts, i);
    assert StepAt(states, who, acts, i) && PcOk(states[i].mem, who[i], pc);
    RunKeepsEntries(states, who, acts, i + 1, j, a);
    var was, now := states[i + 1].mem.arenas[a].list, states[j].mem.arenas[a].list;
    assert was[0] == q;
    assert now[|now| - |was|..][0] == q;
    RunKeepsOwners(states, who, acts, i, i + 1, q, a);
    RunKeepsOwners(states, who, acts, i + 1, j, q, a);
  }

  lemma StepKeepsOwner(s: State, t: nat, act: Action, p: int, a: nat)
    requires Safe(s) && Enabled(s, t, act) && p in s.mem.serials && s.mem.serials[p].home == a && !Ends(act, a)
    ensures var m' := Next(s, t, act).mem;
            p in m'.serials && m'.serials[p].home == a && m'.serials[p].owner == s.mem.serials[p].owner
  {
    if act.Create? || act.Destroy? {
      SurvivorsOf(s.mem, act.arena, a, p);
    }
  }

  lemma {:induction false} RunKeepsOwners(states: seq<State>, who: seq<nat>, acts: seq<Action>, i: nat, j: nat, p: int,
                                          a: nat)
    requires IsRun(states, who, acts) && i <= j < |states|
    requires p in states[i].mem.serials && states[i].mem.serials[p].home == a
    requires forall k | i <= k < j :: !Ends(acts[k], a)
    ensures p in states[j].mem.serials && states[j].mem.serials[p].home == a
    ensures states[j].mem.serials[p].owner == states[i].mem.serials[p].owner
    decreases j
  {
    if i < j {
      RunKeepsOwners(states, who, acts, i, j - 1, p, a);
      RunIsSafe(states, who, acts, j - 1);
      assert StepAt(states, who, acts, j - 1) && !Ends(acts[j - 1], a);
      StepKeepsOwner(states[j - 1], who[j - 1], acts[j - 1], p, a);
    }
  }

  // ----- Lifecycle ids --------------------------------------------------------------------------

  /** No two lifetimes of arenas, by any threads and across resets, have the same id. */
  lemma LifetimesAreDistinct(states: seq<State>, who: seq<nat>, acts: seq<Action>, i: nat, j: nat, a: nat, b: nat)
    requires IsRun(states, who, acts) && i < j < |acts| && acts[i].Create? && acts[j].Create?
    requires acts[i].arena == a && acts[j].arena == b
    ensures a in states[i + 1].mem.arenas && b in states[j + 1].mem.arenas
    ensures var id, id' := IdOf(states[i + 1].mem.arenas[a].tag), IdOf(states[j + 1].mem.arenas[b].tag);
            id != id' && id % DELTA == 0 && id' % DELTA == 0
  {
    RunIsSafe(states, who, acts, i);
    RunIsSafe(states, who, acts, j);
    assert StepAt(states, who, acts, i) && StepAt(states, who, acts, j);
    CreateGivesNewId(states[i], who[i], acts[i]);
    CreateGivesNewId(states[j], who[j], acts[j]);
    RunKeepsIssued(states, who, acts, i + 1, j);
  }

  lemma CreateGivesNewId(s: State, t: nat, act: Action)
    requires Safe(s) && Enabled(s, t, act) && act.Create?
    ensures var s' := Next(s, t, act);
            && act.arena in s'.mem.arenas
            && var id := IdOf(s'.mem.arenas[act.arena].tag);
               id !in s.ids.issued && id in s'.ids.issued && id % DELTA == 0
  {
    CreatedTag(s, t, act.arena, act.owned, act.block);
  }

  lemma {:induction false} RunKeepsIssued(states: seq<State>, who: seq<nat>, acts: seq<Action>, i: nat, j: nat)
    requires IsRun(states, who, acts) && i <= j < |states|
    ensures states[i].ids.issued <= states[j].ids.issued
    decreases j
  {
    if i < j {
      RunKeepsIssued(states, who, acts, i, j - 1);
      assert StepAt(states, who, acts, j - 1);
    }
  }

  /** A reset keeps the message-owned bit; a new arena has the one it is made with, and only its initial
      block, if any, in its list. */
  lemma CreateStartsAfresh(s: State, t: nat, a: nat, owned: bool, block: int)
    requires Safe(s) && Enabled(s, t, Create(a, owned, block))
    ensures var s' := Next(s, t, Create(a, owned, block));
            && a in s'.mem.arenas
            && s'.mem.arenas[a].tag % 2 ==
               (if a in s.mem.arenas then s.mem.arenas[a].tag % 2 else if owned then 1 else 0)
            && s'.mem.arenas[a].list == (if block == 0 then [] else [block])
            && s'.log == s.log && s'.pcs == s.pcs
  {
    TakenIsEven(s.ids, t);
    var id, bit := TakenId(s.ids, t), TagBit(s.mem, a, owned);
    EvenPlusBit(id, bit);
  }

  lemma EvenPlusBit(id: nat, bit: int)
    requires id % DELTA == 0 && 0 <= bit <= 1
    ensures (id + bit) % 2 == bit
  {
    var half := id / 2;
    assert id + bit == 2 * half + bit;
  }

  // ----- The fast path ----------------------------------------------------------------------------

  /** The step changes what thread t has cached. */
  predicate Recaches(u: nat, act: Action, t: nat) {
    u == t && (act.Create? || act.Restart? || act.WriteCache?)
  }

  lemma StepKeepsCache(s: State, u: nat, act: Action, t: nat)
    requires Enabled(s, u, act) && !Recaches(u, act, t)
    ensures CacheOf(Next(s, u, act).caches, t) == CacheOf(s.caches, t)
  {
  }

  /** Until t caches something else and a is reset, t has q of arena a cached. */
  lemma {:induction false} CacheStays(states: seq<State>, who: seq<nat>, acts: seq<Action>, i: nat, j: nat, t: nat,
                                      a: nat)
    requires IsRun(states, who, acts) && i <= j < |states| && a in states[i].mem.arenas
    requires forall k | i <= k < j :: !Recaches(who[k], acts[k], t) && !Ends(acts[k], a)
    ensures CacheOf(states[j].caches, t) == CacheOf(states[i].caches, t)
    ensures a in states[j].mem.arenas && states[j].mem.arenas[a].tag == states[i].mem.arenas[a].tag
    decreases j
  {
    if i < j {
      CacheStays(states, who, acts, i, j - 1, t, a);
      assert StepAt(states, who, acts, j - 1) && !Recaches(who[j - 1], acts[j - 1], t) && !Ends(acts[j - 1], a);
      StepKeepsCache(states[j - 1], who[j - 1], acts[j - 1], t);
      StepKeepsEntries(states[j - 1], who[j - 1], acts[j - 1], a);
      assert KeepsEntries(states[j - 1].mem, states[j].mem, a);
    }
  }

  /** A thread that cached its SerialArena of an arena gets it at once in its next call there, whatever
      other threads do, unless it cached another one in between or the arena was reset. */
  lemma CacheServesNextCall(states: seq<State>, who: seq<nat>, acts: seq<Action>, i: nat, j: nat, a: nat, q: int)
    requires IsRun(states, who, acts) && i < j < |acts|
    requires acts[i] == WriteCache && PcOf(states[i].pcs, who[i]) == AtCache(a, q)
    requires who[j] == who[i] && acts[j] == Call(a)
    requires forall k | i < k < j :: !Recaches(who[k], acts[k], who[i])
    requires forall k | i <= k < j :: !Ends(acts[k], a)
    ensures states[j + 1].log == states[j].log + [Handout(who[i], a, q)]
  {
    RunIsSafe(states, who, acts, i);
    assert StepAt(states, who, acts, i) && StepAt(states, who, acts, j);
    assert PcOk(states[i].mem, who[i], PcOf(states[i].pcs, who[i]));
    CacheStays(states, who, acts, i + 1, j, who[i], a);
  }

  /** A call that ends leaves its SerialArena as the arena's hint, and a caller that the hint belongs to
      gets it. */
  lemma HintServesOwner(s: State, t: nat, a: nat, q: int)
    requires a in s.mem.arenas
    ensures PcOf(s.pcs, t) == AtStoreHint(a, q) ==> Next(s, t, StoreHint).mem.arenas[a].hint == q
    ensures PcOf(s.pcs, t) == AtHint(a) ==> PcOf(Next(s, t, LoadHint).pcs, t) == AtOwner(a, s.mem.arenas[a].hint)
    ensures PcOf(s.pcs, t) == AtOwner(a, q) && q != 0 && OwnerOf(s.mem, q) == t ==>
              Next(s, t, ReadOwner).log == s.log + [Handout(t, a, q)]
  {
  }

  // ----- A thread on its own ends its call ----------------------------------------------------------

  /** The next step of thread t in its call; `block` is the address it would be given. */
  function Solo(s: State, t: nat, block: int): Action {
    match PcOf(s.pcs, t)
    case Idle => GiveUp
    case AtHint(_) => LoadHint
    case AtOwner(_, _) => ReadOwner
    case AtHead(_) => LoadHead
    case Walking(_, p, _) => if p == 0 then Allocate(block) else Visit
    case AtExpected(_, _) => LoadExpected
    case AtSetNext(_, _, _) => SetNext
    case AtSwap(_, _, _) => Swap(false)
    case AtCache(_, _) => WriteCache
    case AtStoreHint(_, _) => StoreHint
  }

  /** How many steps are left at most, when no other thread comes between. */
  function StepsLeft(s: State, t: nat): nat {
    var pc := PcOf(s.pcs, t);
    if pc.Idle? || pc.arena !in s.mem.arenas then 0
    else
      var arena := s.mem.arenas[pc.arena];
      match pc
      case AtHint(_) => |arena.list| + 10
      case AtOwner(_, _) => |arena.list| + 9
      case AtHead(_) => |arena.list| + 8
      case Walking(_, _, left) => left + 7
      case AtExpected(_, _) => 5
      case AtSetNext(_, _, head) => if head == arena.threads then 4 else 6
      case AtSwap(_, _, head) => if head == arena.threads then 3 else 5
      case AtCache(_, _) => 2
      case AtStoreHint(_, _) => 1
  }

  /** Left alone, a thread in a call can always go on, and comes nearer to the end with every step. */
  lemma SoloProgress(s: State, t: nat, block: int)
    requires Safe(s) && !PcOf(s.pcs, t).Idle? && block > 0 && block !in s.mem.serials
    ensures Enabled(s, t, Solo(s, t, block))
    ensures StepsLeft(Next(s, t, Solo(s, t, block)), t) < StepsLeft(s, t)
    ensures PcOf(Next(s, t, Solo(s, t, block)).pcs, t).Idle? <==> StepsLeft(Next(s, t, Solo(s, t, block)), t) == 0
  {
    var m, pc := s.mem, PcOf(s.pcs, t);
    assert PcOk(m, t, pc) && ListOk(m, s.ids.issued, pc.arena);
    var list := m.arenas[pc.arena].list;
    if pc.Walking? && pc.left > 0 {
      assert EntryOk(m, pc.arena, |list| - pc.left);
    }
  }
}
