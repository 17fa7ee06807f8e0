/**
 File names and extensions in EncodedDescriptorDatabase: a set, and a vector sorted by key that may
 hold several entries of one key.  The vector is kept by its runs of equal keys, in order.
 */
module EncodedKeys {
  import opened Options
  import opened SymbolNames

  datatype Keyed<K(==)> = Keyed(entries: map<K, nat>, flat: map<K, seq<nat>>)

  /** InsertIfNotPresent on the set and then binary_search in the vector; true is success. */
  function TryInsert<K>(s: Keyed<K>, key: K, offset: nat): (Keyed<K>, bool) {
    if key in s.entries then (s, false)
    else (s.(entries := s.entries[key := offset]), key !in s.flat)
  }

  function Run<K>(s: Keyed<K>, key: K): seq<nat> { if key in s.flat then s.flat[key] else [] }

  /** MergeIntoFlat: std::merge puts what was in the set before its equals. */
  function Flatten<K>(s: Keyed<K>): Keyed<K> {
    Keyed(map[], map key | key in s.entries.Keys + s.flat.Keys ::
                   (if key in s.entries then [s.entries[key]] else []) + Run(s, key))
  }

  /** EnsureFlat and lower_bound: the first entry of the key. */
  function Found<K>(s: Keyed<K>, key: K): Option<nat> {
    var run := Run(Flatten(s), key);
    if |run| > 0 then Some(run[0]) else None
  }

  // ----- The attempt that succeeded -------------------------------------------------------------

  /** The oldest entry of a key: the one whose insertion succeeded. */
  function Original<K>(s: Keyed<K>, key: K): Option<nat> {
    var run := Run(s, key);
    if |run| > 0 then Some(run[|run| - 1])
    else if key in s.entries then Some(s.entries[key])
    else None
  }

  /** The oldest entry stays what it is, and a success makes it. */
  lemma OriginalStays<K>(s: Keyed<K>, key: K, offset: nat, k: K)
    ensures Original(s, k).Some? ==> Original(TryInsert(s, key, offset).0, k) == Original(s, k)
    ensures TryInsert(s, key, offset).1 ==> Original(TryInsert(s, key, offset).0, key) == Some(offset)
  {
  }

  lemma OriginalFlattened<K>(s: Keyed<K>, key: K)
    ensures Original(Flatten(s), key) == Original(s, key)
  {
  }

  /** Some entry of the key has that offset. */
  predicate Has<K>(s: Keyed<K>, key: K, offset: nat) {
    (key in s.entries && s.entries[key] == offset) || offset in Run(s, key)
  }

  lemma HasAfter<K>(s: Keyed<K>, key: K, offset: nat)
    ensures forall k, o :: Has(TryInsert(s, key, offset).0, k, o) ==> Has(s, k, o) || (k == key && o == offset)
    ensures forall k, o :: Has(Flatten(s), k, o) ==> Has(s, k, o)
    ensures Found(s, key).Some? ==> Has(s, key, Found(s, key).value)
  {
  }

  // ----- Any sequence of insertions and lookups -------------------------------------------------

  /** One attempt to insert. */
  datatype Attempt<K> = Attempt(key: K, offset: nat)

  function InsertAll<K>(s: Keyed<K>, attempts: seq<Attempt<K>>): Keyed<K> {
    if |attempts| == 0 then s
    else
      var last := attempts[|attempts| - 1];
      TryInsert(InsertAll(s, attempts[..|attempts| - 1]), last.key, last.offset).0
  }

  /** Rounds of attempts, with a lookup after each round. */
  function AfterRounds<K>(rounds: seq<seq<Attempt<K>>>): Keyed<K> {
    if |rounds| == 0 then Keyed(map[], map[])
    else Flatten(InsertAll(AfterRounds(rounds[..|rounds| - 1]), rounds[|rounds| - 1]))
  }

  /** The offset of the first attempt for a key. */
  function FirstOf<K(==)>(attempts: seq<Attempt<K>>, key: K): Option<nat> {
    if |attempts| == 0 then None
    else if attempts[0].key == key then Some(attempts[0].offset)
    else FirstOf(attempts[1..], key)
  }

  /** The offset of the first attempt in the first round that has one: the only one that succeeded. */
  function Accepted<K(==)>(rounds: seq<seq<Attempt<K>>>, key: K): Option<nat> {
    if |rounds| == 0 then None
    else
      var before := Accepted(rounds[..|rounds| - 1], key);
      if before.Some? then before else FirstOf(rounds[|rounds| - 1], key)
  }

  /** The offset of the first attempt in the last round that has one. */
  function Latest<K(==)>(rounds: seq<seq<Attempt<K>>>, key: K): Option<nat> {
    if |rounds| == 0 then None
    else
      var now := FirstOf(rounds[|rounds| - 1], key);
      if now.Some? then now else Latest(rounds[..|rounds| - 1], key)
  }

  lemma {:induction false} FirstOfAppend<K>(attempts: seq<Attempt<K>>, key: K)
    requires |attempts| > 0
    ensures var n := |attempts|;
            FirstOf(attempts, key) ==
            if FirstOf(attempts[..n - 1], key).Some? then FirstOf(attempts[..n - 1], key)
            else if attempts[n - 1].key == key then Some(attempts[n - 1].offset) else None
  {
    var n := |attempts|;
    if n == 1 {
      assert attempts[1..] == [];
      assert FirstOf(attempts[..0], key) == None;
      assert FirstOf<K>([], key) == None;
    } else {
      assert attempts[1..][..n - 2] == attempts[..n - 1][1..];
      FirstOfAppend(attempts[1..], key);
    }
  }

  /** After a flattened state, a round leaves its first attempt for a key before what there was. */
  lemma {:induction false} InsertAllRun<K>(s: Keyed<K>, attempts: seq<Attempt<K>>, key: K)
    requires s.entries == map[]
    ensures var s', first := InsertAll(s, attempts), FirstOf(attempts, key);
            && s'.flat == s.flat
            && (key in s'.entries <==> first.Some?)
            && (first.Some? ==> s'.entries[key] == first.value)
  {
    if |attempts| > 0 {
      InsertAllRun(s, attempts[..|attempts| - 1], key);
      FirstOfAppend(attempts, key);
    }
  }

  /** A lookup finds the first attempt of the last round that tried the key, accepted or not. */
  lemma {:induction false} FindsLatest<K>(rounds: seq<seq<Attempt<K>>>, key: K)
    ensures AfterRounds(rounds).entries == map[]
    ensures Found(AfterRounds(rounds), key) == Latest(rounds, key)
    ensures key in AfterRounds(rounds).flat <==> Accepted(rounds, key).Some?
    ensures key in AfterRounds(rounds).flat ==> |AfterRounds(rounds).flat[key]| > 0
  {
    if |rounds| > 0 {
      var before, round := AfterRounds(rounds[..|rounds| - 1]), rounds[|rounds| - 1];
      FindsLatest(rounds[..|rounds| - 1], key);
      InsertAllRun(before, round, key);
      var s := InsertAll(before, round);
      assert Run(Flatten(Flatten(s)), key) == Run(Flatten(s), key);
      assert Run(Flatten(before), key) == Run(before, key);
    }
  }

  lemma OriginalInserted<K>(s: Keyed<K>, attempts: seq<Attempt<K>>, key: K)
    requires s.entries == map[]
    ensures Original(InsertAll(s, attempts), key) ==
            if Original(s, key).Some? then Original(s, key) else FirstOf(attempts, key)
  {
    InsertAllRun(s, attempts, key);
  }

  /** It is the accepted one of any rounds of attempts. */
  lemma {:induction false} OriginalIsAccepted<K>(rounds: seq<seq<Attempt<K>>>, key: K)
    ensures Original(AfterRounds(rounds), key) == Accepted(rounds, key)
  {
    if |rounds| > 0 {
      var n := |rounds| - 1;
      var before := AfterRounds(rounds[..n]);
      OriginalIsAccepted(rounds[..n], key);
      FindsLatest(rounds[..n], key);
      OriginalInserted(before, rounds[n], key);
      OriginalFlattened(InsertAll(before, rounds[n]), key);
    }
  }

  /** An attempt succeeds exactly when no attempt for its key was made before. */
  lemma SucceedsExactly<K>(rounds: seq<seq<Attempt<K>>>, round: seq<Attempt<K>>, key: K, offset: nat)
    ensures TryInsert(InsertAll(AfterRounds(rounds), round), key, offset).1
            <==> Accepted(rounds, key) == None && FirstOf(round, key) == None
  {
    FindsLatest(rounds, key);
    InsertAllRun(AfterRounds(rounds), round, key);
  }

  predicate Tries<K(==)>(rounds: seq<seq<Attempt<K>>>, i: nat, key: K)
    requires i < |rounds|
  {
    FirstOf(rounds[i], key).Some?
  }

  /** Attempts of different rounds have different offsets: each AddFile takes a new one. */
  predicate OffsetsDiffer<K(==)>(rounds: seq<seq<Attempt<K>>>, i: nat, j: nat, key: K)
    requires i < |rounds| && j < |rounds|
  {
    Tries(rounds, i, key) && Tries(rounds, j, key) ==> FirstOf(rounds[i], key) != FirstOf(rounds[j], key)
  }

  lemma {:induction false} AcceptedIs<K>(rounds: seq<seq<Attempt<K>>>, key: K) returns (i: nat)
    requires Accepted(rounds, key).Some?
    ensures i < |rounds| && Accepted(rounds, key) == FirstOf(rounds[i], key) && Tries(rounds, i, key)
  {
    var n := |rounds| - 1;
    if Accepted(rounds[..n], key).Some? {
      i := AcceptedIs(rounds[..n], key);
    } else {
      i := n;
    }
  }

  lemma {:induction false} LatestIs<K>(rounds: seq<seq<Attempt<K>>>, key: K) returns (i: nat)
    requires Latest(rounds, key).Some?
    ensures i < |rounds| && Latest(rounds, key) == FirstOf(rounds[i], key) && Tries(rounds, i, key)
    ensures forall j | i < j < |rounds| :: !Tries(rounds, j, key)
  {
    var n := |rounds| - 1;
    if FirstOf(rounds[n], key).Some? {
      i := n;
    } else {
      i := LatestIs(rounds[..n], key);
      forall j | i < j < |rounds| ensures !Tries(rounds, j, key) {
        assert j < n ==> !Tries(rounds[..n], j, key);
      }
    }
  }

  lemma {:induction false} AcceptedIsFirst<K>(rounds: seq<seq<Attempt<K>>>, key: K, i: nat)
    requires i < |rounds| && Tries(rounds, i, key) && forall j | 0 <= j < i :: !Tries(rounds, j, key)
    ensures Accepted(rounds, key) == FirstOf(rounds[i], key)
  {
    var n := |rounds| - 1;
    forall j | 0 <= j < n && j < i ensures !Tries(rounds[..n], j, key) {
      assert !Tries(rounds, j, key);
    }
    if i < n {
      assert Tries(rounds[..n], i, key);
      AcceptedIsFirst(rounds[..n], key, i);
    } else {
      NoneAccepted(rounds[..n], key);
    }
  }

  lemma {:induction false} NoneAccepted<K>(rounds: seq<seq<Attempt<K>>>, key: K)
    requires forall j | 0 <= j < |rounds| :: !Tries(rounds, j, key)
    ensures Accepted(rounds, key) == None && Latest(rounds, key) == None
  {
    var n := |rounds| - 1;
    if |rounds| > 0 {
      assert !Tries(rounds, n, key);
      forall j | 0 <= j < n ensures !Tries(rounds[..n], j, key) {
        assert !Tries(rounds, j, key);
      }
      NoneAccepted(rounds[..n], key);
    }
  }

  /** A lookup gives the accepted entry of a key exactly when the key was not tried again in a later
      round: a rejected duplicate stays behind in the set and then hides the accepted entry. */
  lemma FindsAcceptedExactly<K>(rounds: seq<seq<Attempt<K>>>, key: K)
    requires forall i, j | 0 <= i < j < |rounds| :: OffsetsDiffer(rounds, i, j, key)
    ensures Found(AfterRounds(rounds), key) == Accepted(rounds, key) <==>
            forall i, j | 0 <= i < |rounds| && 0 <= j < |rounds| && Tries(rounds, i, key) && Tries(rounds, j, key) ::
              i == j
  {
    FindsLatest(rounds, key);
    if forall j | 0 <= j < |rounds| :: !Tries(rounds, j, key) {
      NoneAccepted(rounds, key);
    } else {
      var i := LeastTry(rounds, key);
      AcceptedIsFirst(rounds, key, i);
      LatestSome(rounds, key, i);
      var k := LatestIs(rounds, key);
      if i < k {
        assert OffsetsDiffer(rounds, i, k, key);
      }
      assert i <= k;
      forall j | 0 <= j < |rounds| && Tries(rounds, j, key) ensures i <= j <= k {
      }
    }
  }

  lemma LeastTry<K>(rounds: seq<seq<Attempt<K>>>, key: K) returns (i: nat)
    requires exists j | 0 <= j < |rounds| :: Tries(rounds, j, key)
    ensures i < |rounds| && Tries(rounds, i, key) && forall j | 0 <= j < i :: !Tries(rounds, j, key)
  {
    i := 0;
    while !Tries(rounds, i, key)
      invariant i < |rounds| && forall j | 0 <= j < i :: !Tries(rounds, j, key)
      decreases |rounds| - i
    {
      i := i + 1;
    }
  }

  lemma {:induction false} LatestSome<K>(rounds: seq<seq<Attempt<K>>>, key: K, i: nat)
    requires i < |rounds| && Tries(rounds, i, key)
    ensures Latest(rounds, key).Some?
  {
    var n := |rounds| - 1;
    if i < n {
      assert Tries(rounds[..n], i, key);
      LatestSome(rounds[..n], key, i);
    }
  }

  /** Two files of one name with a lookup between: the second is refused, and found from then on. */
  lemma RefusedButFound()
    ensures var rounds := [[Attempt("a.proto", 0)], [Attempt("a.proto", 1)]];
            && !TryInsert(AfterRounds(rounds[..1]), "a.proto", 1).1
            && Found(AfterRounds(rounds), "a.proto") == Some(1)
            && Accepted(rounds, "a.proto") == Some(0)
  {
    var rounds := [[Attempt("a.proto", 0)], [Attempt("a.proto", 1)]];
    FindsLatest(rounds, "a.proto");
    AcceptedIsFirst(rounds, "a.proto", 0);
    var before := rounds[..1];
    assert before[..0] == [] && before[0] == [Attempt("a.proto", 0)];
    AcceptedIsFirst(before, "a.proto", 0);
    FindsLatest(before, "a.proto");
  }
}
