/**
 The ids that tell the lifetimes of arenas apart.  A thread reserves a batch of 512 numbers from a
 shared counter and hands out the even ones itself.
 */
module LifecycleIds {

  const DELTA := 2
  const BATCH := 512

  /** `gen` counts the batches reserved; `next` is each thread's next_lifecycle_id; `issued` logs the
      ids handed out, in order. */
  datatype Ids = Ids(gen: nat, next: map<nat, nat>, issued: seq<nat>)

  const NO_IDS := Ids(0, map[], [])

  /** next_lifecycle_id of thread t, which starts at 0. */
  function NextOf(s: Ids, t: nat): nat { if t in s.next then s.next[t] else 0 }

  /** Whether t must reserve a batch before it can hand out an id. */
  predicate Exhausted(s: Ids, t: nat) { NextOf(s, t) % BATCH == 0 }

  /** The id that thread t gets in ThreadSafeArena::Init. */
  function TakenId(s: Ids, t: nat): nat {
    if Exhausted(s, t) then s.gen * BATCH else NextOf(s, t)
  }

  function Take(s: Ids, t: nat): Ids {
    var id := TakenId(s, t);
    Ids(if Exhausted(s, t) then s.gen + 1 else s.gen, s.next[t := id + DELTA], s.issued + [id])
  }

  /** A new thread whose cache lies where that of t was: it starts without a batch. */
  function Forget(s: Ids, t: nat): Ids { s.(next := s.next - {t}) }

  /** The batch that t is working through is one of those reserved. */
  predicate BatchReserved(s: Ids, t: nat) {
    NextOf(s, t) % DELTA == 0 && (!Exhausted(s, t) ==> NextOf(s, t) / BATCH < s.gen)
  }

  predicate BatchesApart(s: Ids, t: nat, u: nat) {
    !Exhausted(s, t) && !Exhausted(s, u) ==> NextOf(s, t) / BATCH != NextOf(s, u) / BATCH
  }

  predicate Reserved(s: Ids, k: nat)
    requires k < |s.issued|
  {
    s.issued[k] % DELTA == 0 && s.issued[k] < s.gen * BATCH
  }

  /** Thread t will not hand out the k-th id again. */
  predicate Spent(s: Ids, k: nat, t: nat)
    requires k < |s.issued|
  {
    !Exhausted(s, t) && s.issued[k] / BATCH == NextOf(s, t) / BATCH ==> s.issued[k] < NextOf(s, t)
  }

  predicate Different(s: Ids, j: nat, k: nat)
    requires j < |s.issued| && k < |s.issued|
  {
    s.issued[j] != s.issued[k]
  }

  ghost predicate Inv(s: Ids) {
    && (forall t: nat :: BatchReserved(s, t))
    && (forall t: nat, u: nat | t != u :: BatchesApart(s, t, u))
    && (forall k | 0 <= k < |s.issued| :: Reserved(s, k))
    && (forall k, t: nat | 0 <= k < |s.issued| :: Spent(s, k, t))
    && (forall j, k | 0 <= j < |s.issued| && 0 <= k < |s.issued| && j != k :: Different(s, j, k))
  }

  lemma TakenIsNew(s: Ids, t: nat, k: nat)
    requires Inv(s) && k < |s.issued|
    ensures s.issued[k] != TakenId(s, t)
  {
    assert Reserved(s, k) && Spent(s, k, t);
  }

  /** Stepping by two from an even number that is not a batch's end stays in the batch. */
  lemma StepInBatch(n: nat)
    requires n % DELTA == 0
    ensures (n + DELTA) % DELTA == 0
    ensures (n + DELTA) % BATCH != 0 ==> (n + DELTA) / BATCH == n / BATCH
  {
    var q, r, half := n / BATCH, n % BATCH, n / DELTA;
    assert r == 2 * (half - 256 * q);
    EvenIs(half + 1);
    if r + DELTA < BATCH {
      DivisionIs(n + DELTA, q, r + DELTA);
    } else {
      assert half - 256 * q == 255;
      DivisionIs(n + DELTA, q + 1, 0);
    }
  }

  lemma EvenIs(half: int)
    ensures 2 * half % DELTA == 0
  {
  }

  lemma DivisionIs(n: int, q: int, r: int)
    requires n == BATCH * q + r && 0 <= r < BATCH
    ensures n / BATCH == q && n % BATCH == r
  {
  }

  lemma BatchStart(gen: nat)
    ensures gen * BATCH % DELTA == 0 && gen * BATCH % BATCH == 0 && gen * BATCH / BATCH == gen
  {
  }

  lemma TakeKeepsBatches(s: Ids, t: nat)
    requires Inv(s)
    ensures forall u: nat :: BatchReserved(Take(s, t), u)
    ensures forall u: nat, v: nat | u != v :: BatchesApart(Take(s, t), u, v)
  {
    var s', id := Take(s, t), TakenId(s, t);
    assert BatchReserved(s, t);
    BatchStart(s.gen);
    StepInBatch(id);
    forall u: nat ensures BatchReserved(s', u) {
      assert BatchReserved(s, u);
    }
    forall u: nat, v: nat | u != v ensures BatchesApart(s', u, v) {
      assert BatchesApart(s, u, v) && BatchReserved(s, u) && BatchReserved(s, v);
    }
  }

  lemma TakeKeepsIssued(s: Ids, t: nat)
    requires Inv(s)
    ensures var s' := Take(s, t);
            && (forall k | 0 <= k < |s'.issued| :: Reserved(s', k))
            && (forall k, u: nat | 0 <= k < |s'.issued| :: Spent(s', k, u))
            && (forall j, k | 0 <= j < |s'.issued| && 0 <= k < |s'.issued| && j != k :: Different(s', j, k))
  {
    var s', id, n := Take(s, t), TakenId(s, t), |s.issued|;
    assert BatchReserved(s, t);
    BatchStart(s.gen);
    StepInBatch(id);
    forall k | 0 <= k < |s'.issued| ensures Reserved(s', k) {
      assert k < n ==> Reserved(s, k);
    }
    forall k, u: nat | 0 <= k < |s'.issued| ensures Spent(s', k, u) {
      assert k < n ==> Reserved(s, k) && Spent(s, k, u);
      assert u != t ==> BatchesApart(s, u, t) && BatchReserved(s, u);
    }
    forall j, k | 0 <= j < |s'.issued| && 0 <= k < |s'.issued| && j != k ensures Different(s', j, k) {
      if j < n && k < n {
        assert Different(s, j, k);
      } else {
        TakenIsNew(s, t, if j < n then j else k);
      }
    }
  }

  lemma TakeKeepsInv(s: Ids, t: nat)
    requires Inv(s)
    ensures Inv(Take(s, t))
  {
    TakeKeepsBatches(s, t);
    TakeKeepsIssued(s, t);
  }

  lemma ForgetKeepsInv(s: Ids, t: nat)
    requires Inv(s)
    ensures Inv(Forget(s, t))
  {
    var s' := Forget(s, t);
    forall u: nat ensures BatchReserved(s', u) {
      assert BatchReserved(s, u);
    }
    forall u: nat, v: nat | u != v ensures BatchesApart(s', u, v) {
      assert BatchesApart(s, u, v);
    }
    forall k | 0 <= k < |s'.issued| ensures Reserved(s', k) {
      assert Reserved(s, k);
    }
    forall k, u: nat | 0 <= k < |s'.issued| ensures Spent(s', k, u) {
      assert Spent(s, k, u);
    }
    forall j, k | 0 <= j < |s'.issued| && 0 <= k < |s'.issued| && j != k ensures Different(s', j, k) {
      assert Different(s, j, k);
    }
  }

  /** The ids after the threads `who` have taken one each, in that order. */
  function TakeAll(who: seq<nat>): Ids {
    if |who| == 0 then NO_IDS else Take(TakeAll(who[..|who| - 1]), who[|who| - 1])
  }

  lemma {:induction false} TakeAllInv(who: seq<nat>)
    ensures Inv(TakeAll(who)) && |TakeAll(who).issued| == |who|
  {
    if |who| > 0 {
      TakeAllInv(who[..|who| - 1]);
      TakeKeepsInv(TakeAll(who[..|who| - 1]), who[|who| - 1]);
    }
  }

  /** Whichever threads take ids in whichever order, all ids are even and no two are the same. */
  lemma IdsAreDistinct(who: seq<nat>, j: nat, k: nat)
    requires j < k < |who|
    ensures |TakeAll(who).issued| == |who|
    ensures TakeAll(who).issued[j] != TakeAll(who).issued[k]
    ensures TakeAll(who).issued[j] % DELTA == 0 && TakeAll(who).issued[k] % DELTA == 0
  {
    TakeAllInv(who);
    var s := TakeAll(who);
    assert Different(s, j, k) && Reserved(s, j) && Reserved(s, k);
  }

  /** A thread hands out two numbers apart; a second thread starts its own batch of 512. */
  lemma FirstIds()
    ensures TakeAll([0, 0, 1]).issued == [0, 2, 512]
    ensures TakeAll([0, 0, 1]).gen == 2
  {
    var one, two, three := [0], [0, 0], [0, 0, 1];
    assert three[..2] == two && two[..1] == one && one[..0] == [];
    assert TakeAll([]) == NO_IDS;
    assert TakeAll(one).issued == [0] && TakeAll(two).issued == [0, 2];
  }

  /** One batch serves 256 lifetimes. */
  lemma {:induction false} BatchServes(t: nat, n: nat)
    requires 1 <= n <= 256
    ensures var s := TakeAll(seq(n, _ => t)); s.gen == 1 && NextOf(s, t) == 2 * n
  {
    var who := seq(n, _ => t);
    assert who[..n - 1] == seq(n - 1, _ => t);
    if n > 1 {
      BatchServes(t, n - 1);
      DivisionIs(2 * (n - 1), 0, 2 * (n - 1));
    } else {
      assert TakeAll(who[..0]) == NO_IDS;
    }
  }
}
