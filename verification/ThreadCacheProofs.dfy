/**
 Every step of every thread keeps the invariant of ThreadCacheModel: one lemma for each kind of
 change to the shared memory.
 */
module ThreadCacheProofs {
  import opened LifecycleIds
  import opened ThreadCacheModel

  // ----- Changing one SerialArena that is in no list --------------------------------------------

  predicate Same(m: Memory, m': Memory, p: int, q: int)
    requires p in m.serials
  {
    && p in m'.serials
    && m'.serials[p].owner == m.serials[p].owner && m'.serials[p].home == m.serials[p].home
    && (p != q ==> m'.serials[p].next == m.serials[p].next)
  }

  /** m' has the SerialArenas of m, changed at most in the next pointer of q, and maybe more. */
  ghost predicate Extends(m: Memory, m': Memory, q: int) {
    m'.arenas == m.arenas && forall p | p in m.serials :: Same(m, m', p, q)
  }

  lemma ExtendsList(m: Memory, m': Memory, q: int, issued: seq<nat>, a: nat)
    requires Extends(m, m', q) && a in m.arenas && ListOk(m, issued, a) && q !in m.arenas[a].list
    ensures ListOk(m', issued, a)
  {
    var list := m.arenas[a].list;
    assert FieldsOk(m', issued, a);
    forall i | 0 <= i < |list| ensures EntryOk(m', a, i) {
      assert EntryOk(m, a, i) && Same(m, m', list[i], q);
    }
    forall i, j | 0 <= i < |list| && 0 <= j < |list| && i != j ensures OwnersApart(m', a, i, j) {
      assert OwnersApart(m, a, i, j) && EntryOk(m, a, i) && EntryOk(m, a, j);
      assert Same(m, m', list[i], q) && Same(m, m', list[j], q);
    }
  }

  lemma ExtendsMine(m: Memory, m': Memory, q: int, t: nat, a: nat, p: int)
    requires Extends(m, m', q) && Mine(m, t, a, p)
    ensures Mine(m', t, a, p)
  {
    assert p in m.serials ==> Same(m, m', p, q);
  }

  lemma ExtendsNoneMine(m: Memory, m': Memory, q: int, issued: seq<nat>, t: nat, a: nat, n: nat)
    requires Extends(m, m', q) && a in m.arenas && ListOk(m, issued, a)
    requires n <= |m.arenas[a].list| && NoneMine(m, t, a, n)
    ensures NoneMine(m', t, a, n)
  {
    forall i | 0 <= i < n ensures NotMine(m', a, t, i) {
      assert NotMine(m, a, t, i) && EntryOk(m, a, i) && Same(m, m', m.arenas[a].list[i], q);
    }
  }

  lemma ExtendsPc(m: Memory, m': Memory, q: int, issued: seq<nat>, t: nat, pc: Pc)
    requires Extends(m, m', q) && PcOk(m, t, pc) && (pc.AtSwap? ==> pc.q != q)
    requires forall a | a in m.arenas :: ListOk(m, issued, a)
    ensures PcOk(m', t, pc)
  {
    if !pc.Idle? {
      var a := pc.arena;
      assert ListOk(m, issued, a);
      if pc.Walking? {
        ExtendsNoneMine(m, m', q, issued, t, a, |m.arenas[a].list| - pc.left);
      } else if pc.AtExpected? || pc.AtSetNext? || pc.AtSwap? {
        ExtendsNoneMine(m, m', q, issued, t, a, |m.arenas[a].list|);
        assert Same(m, m', pc.q, q);
      } else if pc.AtCache? || pc.AtStoreHint? {
        ExtendsMine(m, m', q, t, a, pc.q);
      }
    }
  }

  lemma ExtendsArenas(m: Memory, m': Memory, q: int, issued: seq<nat>)
    requires Extends(m, m', q) && ArenasOk(m, issued)
    requires forall a | a in m.arenas :: q !in m.arenas[a].list
    ensures ArenasOk(m', issued)
  {
    forall a | a in m'.arenas ensures ListOk(m', issued, a) {
      assert ListOk(m, issued, a);
      ExtendsList(m, m', q, issued, a);
    }
    forall a, b | a in m'.arenas && b in m'.arenas && a != b ensures TagsApart(m', a, b) {
      assert TagsApart(m, a, b);
    }
  }

  lemma ExtendsCaches(m: Memory, m': Memory, q: int, caches: map<nat, Cache>, issued: seq<nat>)
    requires Extends(m, m', q) && CachesOk(caches, m, issued)
    ensures CachesOk(caches, m', issued)
  {
    forall t: nat, a | a in m'.arenas ensures CacheOk(caches, m', t, a) {
      assert CacheOk(caches, m, t, a);
      if CacheOf(caches, t).lastSeen == m.arenas[a].tag {
        ExtendsMine(m, m', q, t, a, CacheOf(caches, t).lastSerial);
      }
    }
  }

  lemma UnlistedNowhere(m: Memory, issued: seq<nat>, t: nat, a: nat, q: int, b: nat)
    requires ArenasOk(m, issued) && a in m.arenas && b in m.arenas && Unlisted(m, t, a, q)
    ensures q !in m.arenas[b].list
  {
    var list := m.arenas[b].list;
    assert ListOk(m, issued, b);
    forall i | 0 <= i < |list| ensures list[i] != q {
      assert EntryOk(m, b, i);
      assert b == a ==> NotMine(m, a, t, i);
    }
  }

  lemma FreshNowhere(m: Memory, issued: seq<nat>, q: int, b: nat)
    requires ArenasOk(m, issued) && b in m.arenas && q !in m.serials
    ensures q !in m.arenas[b].list
  {
    var list := m.arenas[b].list;
    assert ListOk(m, issued, b);
    forall i | 0 <= i < |list| ensures list[i] != q {
      assert EntryOk(m, b, i);
    }
  }

  /** A thread's new SerialArena is not another thread's. */
  lemma OthersAway(s: State, t: nat, q: int, u: nat)
    requires PcsOk(s.pcs, s.mem) && OwnerOf(s.mem, q) == t && u != t
    ensures PcOf(s.pcs, u).AtSwap? ==> PcOf(s.pcs, u).q != q
  {
    assert PcOk(s.mem, u, PcOf(s.pcs, u));
  }

  // ----- Steps ----------------------------------------------------------------------------------

  lemma GotoKeepsSafe(s: State, t: nat, pc: Pc)
    requires Safe(s) && PcOk(s.mem, t, pc)
    ensures Safe(Goto(s, t, pc))
  {
    var pcs' := s.pcs[t := pc];
    forall u: nat ensures PcOk(s.mem, u, PcOf(pcs', u)) {
      assert PcOk(s.mem, u, PcOf(s.pcs, u));
    }
  }

  lemma ExtendKeepsSafe(s: State, m': Memory, t: nat, q: int, pc: Pc)
    requires Safe(s) && Extends(s.mem, m', q) && PcOk(m', t, pc)
    requires forall a | a in s.mem.arenas :: q !in s.mem.arenas[a].list
    requires q !in s.mem.serials || OwnerOf(s.mem, q) == t
    ensures Safe(Goto(s.(mem := m'), t, pc))
  {
    var m, issued := s.mem, s.ids.issued;
    ExtendsArenas(m, m', q, issued);
    ExtendsCaches(m, m', q, s.caches, issued);
    var pcs' := s.pcs[t := pc];
    forall u: nat ensures PcOk(m', u, PcOf(pcs', u)) {
      if u != t {
        assert PcOk(m, u, PcOf(s.pcs, u));
        if q in m.serials {
          OthersAway(s, t, q, u);
        }
        ExtendsPc(m, m', q, issued, u, PcOf(s.pcs, u));
      }
    }
  }

  lemma AllocateKeepsSafe(s: State, t: nat, q: int)
    requires Safe(s) && Enabled(s, t, Allocate(q))
    ensures Safe(Next(s, t, Allocate(q)))
  {
    var m, pc := s.mem, PcOf(s.pcs, t);
    var a := pc.arena;
    var m' := m.(serials := m.serials[q := Serial(t, 0, a)]);
    assert PcOk(m, t, pc) && ListOk(m, s.ids.issued, a);
    var list := m.arenas[a].list;
    assert pc.left == 0 by {
      assert pc.left > 0 ==> EntryOk(m, a, |list| - pc.left);
    }
    assert Extends(m, m', q);
    ExtendsNoneMine(m, m', q, s.ids.issued, t, a, |list|);
    forall b | b in m.arenas ensures q !in m.arenas[b].list {
      FreshNowhere(m, s.ids.issued, q, b);
    }
    ExtendKeepsSafe(s, m', t, q, AtExpected(a, q));
  }

  lemma SetNextKeepsSafe(s: State, t: nat)
    requires Safe(s) && Enabled(s, t, SetNext)
    ensures Safe(Next(s, t, SetNext))
  {
    var m, pc := s.mem, PcOf(s.pcs, t);
    var a, q := pc.arena, pc.q;
    assert PcOk(m, t, pc) && ListOk(m, s.ids.issued, a);
    var m' := Relinked(m, q, pc.head);
    assert Extends(m, m', q);
    ExtendsNoneMine(m, m', q, s.ids.issued, t, a, |m.arenas[a].list|);
    forall b | b in m.arenas ensures q !in m.arenas[b].list {
      UnlistedNowhere(m, s.ids.issued, t, a, q, b);
    }
    ExtendKeepsSafe(s, m', t, q, AtSwap(a, q, pc.head));
  }

  /** Arenas other than a are untouched, and so is what threads know about them. */
  lemma OtherList(m: Memory, m': Memory, issued: seq<nat>, issued': seq<nat>, b: nat)
    requires b in m.arenas && b in m'.arenas && m'.arenas[b] == m.arenas[b] && ListOk(m, issued, b)
    requires forall p | p in m.serials && m.serials[p].home == b :: p in m'.serials && m'.serials[p] == m.serials[p]
    requires issued <= issued'
    ensures ListOk(m', issued', b)
  {
    var list := m.arenas[b].list;
    assert FieldsOk(m, issued, b);
    assert IdOf(m.arenas[b].tag) in issued';
    forall i | 0 <= i < |list| ensures EntryOk(m', b, i) {
      assert EntryOk(m, b, i);
    }
    forall i, j | 0 <= i < |list| && 0 <= j < |list| && i != j ensures OwnersApart(m', b, i, j) {
      assert OwnersApart(m, b, i, j) && EntryOk(m, b, i) && EntryOk(m, b, j);
    }
  }

  lemma OtherMine(m: Memory, m': Memory, issued: seq<nat>, t: nat, b: nat, p: int)
    requires b in m.arenas && b in m'.arenas && m'.arenas[b] == m.arenas[b] && ListOk(m, issued, b)
    requires forall p | p in m.serials && m.serials[p].home == b :: p in m'.serials && m'.serials[p] == m.serials[p]
    requires Mine(m, t, b, p)
    ensures Mine(m', t, b, p)
  {
    var i :| 0 <= i < |m.arenas[b].list| && m.arenas[b].list[i] == p;
    assert EntryOk(m, b, i);
  }

  lemma OtherPc(m: Memory, m': Memory, issued: seq<nat>, t: nat, pc: Pc)
    requires !pc.Idle? && PcOk(m, t, pc)
    requires var b := pc.arena;
             && b in m.arenas && b in m'.arenas && m'.arenas[b] == m.arenas[b] && ListOk(m, issued, b)
             && forall p | p in m.serials && m.serials[p].home == b :: p in m'.serials && m'.serials[p] == m.serials[p]
    ensures PcOk(m', t, pc)
  {
    var b := pc.arena;
    var list := m.arenas[b].list;
    forall i | 0 <= i < |list| && NotMine(m, b, t, i) ensures NotMine(m', b, t, i) {
      assert EntryOk(m, b, i);
    }
    if pc.AtCache? || pc.AtStoreHint? {
      OtherMine(m, m', issued, t, b, pc.q);
    }
  }

  /** The successful compare-and-swap. */
  lemma PushedList(m: Memory, issued: seq<nat>, t: nat, a: nat, q: int)
    requires a in m.arenas && ListOk(m, issued, a) && Unlisted(m, t, a, q)
    requires m.serials[q].next == m.arenas[a].threads
    ensures ListOk(Pushed(m, a, q), issued, a)
  {
    var m', list := Pushed(m, a, q), m.arenas[a].list;
    assert FieldsOk(m, issued, a);
    assert FieldsOk(m', issued, a);
    forall i | 0 <= i < |list| + 1 ensures EntryOk(m', a, i) {
      assert i > 0 ==> EntryOk(m, a, i - 1);
    }
    forall i, j | 0 <= i < |list| + 1 && 0 <= j < |list| + 1 && i != j ensures OwnersApart(m', a, i, j) {
      assert i > 0 && j > 0 ==> OwnersApart(m, a, i - 1, j - 1);
      assert i > 0 ==> NotMine(m, a, t, i - 1);
      assert j > 0 ==> NotMine(m, a, t, j - 1);
    }
  }

  /** What threads other than t know about arena a stays true when t's entry is put before its list. */
  lemma PushedPc(m: Memory, issued: seq<nat>, t: nat, a: nat, q: int, u: nat, pc: Pc)
    requires a in m.arenas && ListOk(m, issued, a) && Unlisted(m, t, a, q) && u != t && PcOk(m, u, pc)
    ensures PcOk(Pushed(m, a, q), u, pc)
  {
    var m', list := Pushed(m, a, q), m.arenas[a].list;
    if !pc.Idle? && pc.arena == a {
      if pc.Walking? {
        assert ([q] + list)[|list| + 1 - pc.left..] == list[|list| - pc.left..];
        PushedNoneMine(m, t, a, q, u, |list| - pc.left);
      } else if pc.AtExpected? || pc.AtSetNext? || pc.AtSwap? {
        PushedNoneMine(m, t, a, q, u, |list|);
      }
    } else if !pc.Idle? {
      var b := pc.arena;
      forall i | 0 <= i < |m.arenas[b].list| && NotMine(m, b, u, i) ensures NotMine(m', b, u, i) {
      }
    }
  }

  lemma PushedNoneMine(m: Memory, t: nat, a: nat, q: int, u: nat, n: nat)
    requires a in m.arenas && Unlisted(m, t, a, q) && u != t && n <= |m.arenas[a].list| && NoneMine(m, u, a, n)
    ensures NoneMine(Pushed(m, a, q), u, a, n + 1)
  {
    forall i | 0 <= i < n + 1 ensures NotMine(Pushed(m, a, q), a, u, i) {
      assert i > 0 ==> NotMine(m, a, u, i - 1);
    }
  }

  lemma PushKeepsSafe(s: State, t: nat)
    requires Safe(s) && Enabled(s, t, Swap(false))
    requires PcOf(s.pcs, t).arena in s.mem.arenas
    requires s.mem.arenas[PcOf(s.pcs, t).arena].threads == PcOf(s.pcs, t).head
    ensures Safe(Next(s, t, Swap(false)))
  {
    var m, pc, issued := s.mem, PcOf(s.pcs, t), s.ids.issued;
    var a, q := pc.arena, pc.q;
    assert PcOk(m, t, pc) && ListOk(m, issued, a);
    var m' := Pushed(m, a, q);
    forall b | b in m'.arenas ensures ListOk(m', issued, b) {
      assert ListOk(m, issued, b);
      if b == a {
        PushedList(m, issued, t, a, q);
      } else {
        OtherList(m, m', issued, issued, b);
      }
    }
    forall b, c | b in m'.arenas && c in m'.arenas && b != c ensures TagsApart(m', b, c) {
      assert TagsApart(m, b, c);
    }
    forall u: nat, b | b in m'.arenas ensures CacheOk(s.caches, m', u, b) {
      assert CacheOk(s.caches, m, u, b);
    }
    var pcs' := s.pcs[t := AtCache(a, q)];
    forall u: nat ensures PcOk(m', u, PcOf(pcs', u)) {
      assert PcOk(m, u, PcOf(s.pcs, u));
      if u != t {
        PushedPc(m, issued, t, a, q, u, PcOf(s.pcs, u));
      }
    }
  }

  lemma StoreHintKeepsSafe(s: State, t: nat)
    requires Safe(s) && Enabled(s, t, StoreHint)
    ensures Safe(Next(s, t, StoreHint))
  {
    var m, pc, issued := s.mem, PcOf(s.pcs, t), s.ids.issued;
    var a, q := pc.arena, pc.q;
    assert PcOk(m, t, pc) && ListOk(m, issued, a);
    var m' := Hinted(m, a, q);
    forall b | b in m'.arenas ensures ListOk(m', issued, b) {
      HintedList(m, issued, a, q, b);
    }
    forall b, c | b in m'.arenas && c in m'.arenas && b != c ensures TagsApart(m', b, c) {
      assert TagsApart(m, b, c);
    }
    forall u: nat, b | b in m'.arenas ensures CacheOk(s.caches, m', u, b) {
      assert CacheOk(s.caches, m, u, b);
    }
    var pcs' := s.pcs[t := Idle];
    forall u: nat ensures PcOk(m', u, PcOf(pcs', u)) {
      assert PcOk(m, u, PcOf(s.pcs, u));
      HintedPc(m, a, q, u, PcOf(s.pcs, u));
    }
  }

  lemma HintedList(m: Memory, issued: seq<nat>, a: nat, q: int, b: nat)
    requires ArenasOk(m, issued) && a in m.arenas && b in m.arenas && q in m.arenas[a].list
    ensures ListOk(Hinted(m, a, q), issued, b)
  {
    var m', list := Hinted(m, a, q), m.arenas[b].list;
    assert ListOk(m, issued, b) && FieldsOk(m, issued, b);
    forall i | 0 <= i < |list| ensures EntryOk(m', b, i) {
      assert EntryOk(m, b, i);
    }
    forall i, j | 0 <= i < |list| && 0 <= j < |list| && i != j ensures OwnersApart(m', b, i, j) {
      assert OwnersApart(m, b, i, j);
    }
  }

  lemma HintedPc(m: Memory, a: nat, q: int, u: nat, pc: Pc)
    requires a in m.arenas && PcOk(m, u, pc)
    ensures PcOk(Hinted(m, a, q), u, pc)
  {
    if !pc.Idle? {
      var b := pc.arena;
      forall i | 0 <= i < |m.arenas[b].list| && NotMine(m, b, u, i) ensures NotMine(Hinted(m, a, q), b, u, i) {
      }
    }
  }

  lemma WriteCacheKeepsSafe(s: State, t: nat)
    requires Safe(s) && Enabled(s, t, WriteCache)
    ensures Safe(Next(s, t, WriteCache))
  {
    var m, pc := s.mem, PcOf(s.pcs, t);
    var a, q := pc.arena, pc.q;
    assert PcOk(m, t, pc) && ListOk(m, s.ids.issued, a) && FieldsOk(m, s.ids.issued, a);
    var caches' := s.caches[t := Cache(m.arenas[a].tag, q)];
    forall u: nat ensures CacheSeen(caches', s.ids.issued, u) {
      assert CacheSeen(s.caches, s.ids.issued, u);
    }
    forall u: nat, b | b in m.arenas ensures CacheOk(caches', m, u, b) {
      assert CacheOk(s.caches, m, u, b);
      assert b != a ==> TagsApart(m, a, b);
    }
    GotoKeepsSafe(s.(caches := caches'), t, AtStoreHint(a, q));
  }

  // ----- Creating, resetting and destroying arenas ----------------------------------------------

  /** Freeing arena a leaves the SerialArenas of the others alone. */
  lemma SurvivorsOf(m: Memory, a: nat, b: nat, p: int)
    requires p in m.serials && m.serials[p].home == b && b != a
    ensures p in Survivors(m, a) && Survivors(m, a)[p] == m.serials[p]
  {
  }

  lemma DestroyKeepsSafe(s: State, t: nat, a: nat)
    requires Safe(s) && Enabled(s, t, Destroy(a))
    ensures Safe(Next(s, t, Destroy(a)))
  {
    var m, m', issued := s.mem, Freed(s.mem, a), s.ids.issued;
    OthersKept(s, m', a, issued);
    forall u: nat, b | b in m'.arenas ensures CacheOk(s.caches, m', u, b) {
      assert CacheOk(s.caches, m, u, b) && ListOk(m, issued, b);
      if CacheOf(s.caches, u).lastSeen == m.arenas[b].tag {
        OtherMine(m, m', issued, u, b, CacheOf(s.caches, u).lastSerial);
      }
    }
    forall b, c | b in m'.arenas && c in m'.arenas && b != c ensures TagsApart(m', b, c) {
      assert TagsApart(m, b, c);
    }
  }

  /** m' keeps the arenas other than a. */
  ghost predicate KeepsOthers(m: Memory, m': Memory, a: nat) {
    && m'.arenas.Keys - {a} == m.arenas.Keys - {a}
    && (forall b | b in m.arenas && b != a :: b in m'.arenas && m'.arenas[b] == m.arenas[b])
    && (forall p | p in m.serials && m.serials[p].home != a :: p in m'.serials && m'.serials[p] == m.serials[p])
  }

  lemma OthersKept(s: State, m': Memory, a: nat, issued': seq<nat>)
    requires Safe(s) && NobodyIn(s.pcs, a) && KeepsOthers(s.mem, m', a) && s.ids.issued <= issued'
    ensures forall b | b in m'.arenas && b != a :: ListOk(m', issued', b)
    ensures PcsOk(s.pcs, m')
  {
    var m, issued := s.mem, s.ids.issued;
    forall b | b in m'.arenas && b != a ensures ListOk(m', issued', b) {
      assert b in m'.arenas.Keys - {a};
      assert ListOk(m, issued, b);
      OtherList(m, m', issued, issued', b);
    }
    forall u: nat ensures PcOk(m', u, PcOf(s.pcs, u)) {
      var pc := PcOf(s.pcs, u);
      assert PcOk(m, u, pc) && Away(s.pcs, u, a);
      if !pc.Idle? {
        assert pc.arena in m.arenas.Keys - {a};
        assert ListOk(m, issued, pc.arena);
        OtherPc(m, m', issued, u, pc);
      }
    }
  }

  lemma IdOfTag(id: nat, bit: int)
    requires id % DELTA == 0 && 0 <= bit <= 1
    ensures IdOf(id + bit) == id
  {
    var half := id / DELTA;
    assert id + bit == 2 * half + bit;
  }

  lemma TakenIsEven(ids: Ids, t: nat)
    requires Inv(ids)
    ensures TakenId(ids, t) % DELTA == 0
  {
    assert BatchReserved(ids, t);
    BatchStart(ids.gen);
  }

  lemma NewTag(ids: Ids, t: nat, bit: int)
    requires Inv(ids) && 0 <= bit <= 1
    ensures var id := TakenId(ids, t);
            && IdOf(id + bit) == id && id % DELTA == 0
            && id !in ids.issued && Take(ids, t).issued == ids.issued + [id]
  {
    TakenIsEven(ids, t);
    IdOfTag(TakenId(ids, t), bit);
    forall k | 0 <= k < |ids.issued| ensures ids.issued[k] != TakenId(ids, t) {
      TakenIsNew(ids, t, k);
    }
  }

  /** The tag that Created gives, and what is known of its id. */
  lemma CreatedTag(s: State, t: nat, a: nat, owned: bool, block: int)
    requires Inv(s.ids)
    ensures var s' := Created(s, t, a, owned, block);
            && a in s'.mem.arenas
            && var tag := s'.mem.arenas[a].tag;
               && tag >= 0 && s'.mem == WithArena(s.mem, t, a, tag, block)
               && s'.caches == (if block == 0 then s.caches else s.caches[t := Cache(tag, block)])
               && IdOf(tag) !in s.ids.issued && IdOf(tag) in s'.ids.issued && IdOf(tag) % DELTA == 0
               && s.ids.issued <= s'.ids.issued
  {
    NewTag(s.ids, t, TagBit(s.mem, a, owned));
  }

  lemma CreatedArena(m: Memory, t: nat, a: nat, tag: int, block: int, issued: seq<nat>)
    requires tag >= 0 && IdOf(tag) in issued && block >= 0
    ensures ListOk(WithArena(m, t, a, tag, block), issued, a)
    ensures block != 0 ==> Mine(WithArena(m, t, a, tag, block), t, a, block)
  {
    var m' := WithArena(m, t, a, tag, block);
    assert FieldsOk(m', issued, a);
    assert block != 0 ==> EntryOk(m', a, 0);
  }

  lemma CreatedTags(s: State, m': Memory, a: nat)
    requires ArenasOk(s.mem, s.ids.issued) && KeepsOthers(s.mem, m', a) && a in m'.arenas
    requires IdOf(m'.arenas[a].tag) !in s.ids.issued
    ensures forall b, c | b in m'.arenas && c in m'.arenas && b != c :: TagsApart(m', b, c)
  {
    var m, issued := s.mem, s.ids.issued;
    forall b | b in m'.arenas && b != a ensures b in m.arenas && IdOf(m'.arenas[b].tag) in issued {
      assert b in m'.arenas.Keys - {a};
      assert ListOk(m, issued, b) && FieldsOk(m, issued, b);
    }
    forall b, c | b in m'.arenas && c in m'.arenas && b != c ensures TagsApart(m', b, c) {
      if b != a && c != a {
        assert TagsApart(m, b, c);
      }
    }
  }

  lemma CreatedCaches(s: State, m': Memory, t: nat, a: nat, caches': map<nat, Cache>, issued': seq<nat>)
    requires Safe(s) && KeepsOthers(s.mem, m', a) && a in m'.arenas && s.ids.issued <= issued'
    requires m'.arenas[a].tag >= 0
    requires IdOf(m'.arenas[a].tag) !in s.ids.issued && IdOf(m'.arenas[a].tag) in issued'
    requires || caches' == s.caches
             || exists p :: caches' == s.caches[t := Cache(m'.arenas[a].tag, p)] && Mine(m', t, a, p)
    ensures CachesOk(caches', m', issued')
  {
    var m, issued, tag := s.mem, s.ids.issued, m'.arenas[a].tag;
    forall u: nat ensures CacheSeen(caches', issued', u) {
      assert CacheSeen(s.caches, issued, u);
    }
    forall u: nat, b | b in m'.arenas ensures CacheOk(caches', m', u, b) {
      assert CacheSeen(s.caches, issued, u);
      if b != a {
        assert b in m'.arenas.Keys - {a};
        assert CacheOk(s.caches, m, u, b) && ListOk(m, issued, b) && FieldsOk(m, issued, b);
        if CacheOf(s.caches, u).lastSeen == m.arenas[b].tag {
          OtherMine(m, m', issued, u, b, CacheOf(s.caches, u).lastSerial);
        }
      }
    }
  }

  lemma CreateWithTag(s: State, t: nat, a: nat, tag: int, block: int, ids': Ids)
    requires Safe(s) && NobodyIn(s.pcs, a) && (block == 0 || (block > 0 && block !in Survivors(s.mem, a)))
    requires Inv(ids') && s.ids.issued <= ids'.issued
    requires tag >= 0 && IdOf(tag) !in s.ids.issued && IdOf(tag) in ids'.issued
    ensures var caches' := if block == 0 then s.caches else s.caches[t := Cache(tag, block)];
            Safe(State(ids', WithArena(s.mem, t, a, tag, block), caches', s.pcs, s.log))
  {
    var m' := WithArena(s.mem, t, a, tag, block);
    var caches' := if block == 0 then s.caches else s.caches[t := Cache(tag, block)];
    CreatedArena(s.mem, t, a, tag, block, ids'.issued);
    OthersKept(s, m', a, ids'.issued);
    CreatedTags(s, m', a);
    CreatedCaches(s, m', t, a, caches', ids'.issued);
  }

  lemma CreateKeepsSafe(s: State, t: nat, a: nat, owned: bool, block: int)
    requires Safe(s) && Enabled(s, t, Create(a, owned, block))
    ensures Safe(Next(s, t, Create(a, owned, block)))
  {
    var s' := Created(s, t, a, owned, block);
    TakeKeepsInv(s.ids, t);
    CreatedTag(s, t, a, owned, block);
    CreateWithTag(s, t, a, s'.mem.arenas[a].tag, block, s'.ids);
  }

  /** A new thread owns what its predecessor at the same address owned, with nothing in its cache. */
  lemma RestartKeepsSafe(s: State, t: nat)
    requires Safe(s)
    ensures Safe(Next(s, t, Restart))
  {
    var caches', issued := s.caches - {t}, s.ids.issued;
    ForgetKeepsInv(s.ids, t);
    forall u: nat ensures CacheSeen(caches', issued, u) {
      assert CacheSeen(s.caches, issued, u);
    }
    forall u: nat, b | b in s.mem.arenas ensures CacheOk(caches', s.mem, u, b) {
      assert CacheOk(s.caches, s.mem, u, b);
      assert ListOk(s.mem, issued, b) && FieldsOk(s.mem, issued, b);
    }
  }

  // ----- Any step -------------------------------------------------------------------------------

  lemma VisitPc(s: State, t: nat)
    requires Safe(s) && Enabled(s, t, Visit)
    ensures Safe(Next(s, t, Visit))
  {
    var m, pc := s.mem, PcOf(s.pcs, t);
    assert PcOk(m, t, pc) && ListOk(m, s.ids.issued, pc.arena);
    var list := m.arenas[pc.arena].list;
    var i := |list| - pc.left;
    assert EntryOk(m, pc.arena, i);
    if OwnerOf(m, pc.p) == t {
      GotoKeepsSafe(s, t, AtCache(pc.arena, pc.p));
    } else {
      forall k | 0 <= k < i + 1 ensures NotMine(m, pc.arena, t, k) {
        assert k < i ==> NotMine(m, pc.arena, t, k);
      }
      GotoKeepsSafe(s, t, Walking(pc.arena, NextPtr(m, pc.p), pc.left - 1));
    }
  }

  lemma StepKeepsSafe(s: State, t: nat, act: Action)
    requires Safe(s) && Enabled(s, t, act)
    ensures Safe(Next(s, t, act))
  {
    var m, pc := s.mem, PcOf(s.pcs, t);
    assert PcOk(m, t, pc);
    if !pc.Idle? {
      assert ListOk(m, s.ids.issued, pc.arena) && FieldsOk(m, s.ids.issued, pc.arena);
    }
    match act
    case Restart => RestartKeepsSafe(s, t);
    case Create(a, owned, block) => CreateKeepsSafe(s, t, a, owned, block);
    case Destroy(a) => DestroyKeepsSafe(s, t, a);
    case Call(a) =>
      GotoKeepsSafe(s, t, Idle);
      GotoKeepsSafe(s, t, AtHint(a));
    case LoadHint => GotoKeepsSafe(s, t, AtOwner(pc.arena, m.arenas[pc.arena].hint));
    case ReadOwner =>
      GotoKeepsSafe(s, t, Idle);
      GotoKeepsSafe(s, t, AtHead(pc.arena));
    case GiveUp => GotoKeepsSafe(s, t, Idle);
    case LoadHead =>
      var list := m.arenas[pc.arena].list;
      assert list[0..] == list;
      GotoKeepsSafe(s, t, Walking(pc.arena, m.arenas[pc.arena].threads, |list|));
    case Visit => VisitPc(s, t);
    case Allocate(block) => AllocateKeepsSafe(s, t, block);
    case LoadExpected => GotoKeepsSafe(s, t, AtSetNext(pc.arena, pc.q, m.arenas[pc.arena].threads));
    case SetNext => SetNextKeepsSafe(s, t);
    case Swap(spurious) =>
      if !spurious && m.arenas[pc.arena].threads == pc.head {
        PushKeepsSafe(s, t);
      } else {
        GotoKeepsSafe(s, t, AtSetNext(pc.arena, pc.q, m.arenas[pc.arena].threads));
      }
    case WriteCache => WriteCacheKeepsSafe(s, t);
    case StoreHint => StoreHintKeepsSafe(s, t);
  }

  lemma StartIsSafe()
    ensures Safe(START)
  {
  }
}
