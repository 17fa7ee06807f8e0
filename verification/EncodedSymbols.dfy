/**
 The symbols of EncodedDescriptorDatabase: a set that takes new entries and a sorted vector that the
 set is merged into before each lookup.
 */
module EncodedSymbols {
  import opened Options
  import opened SymbolNames
  import opened SymbolCompare
  import opened Descriptors

  /** A file added, in place of its encoded bytes, and its package. */
  datatype EncodedEntry = EncodedEntry(file: File, package: string)

  datatype SymbolEntry = SymbolEntry(offset: nat, symbol: string)

  function TermOf(values: seq<EncodedEntry>, e: SymbolEntry): Term {
    Entry(if e.offset < |values| then values[e.offset].package else "", e.symbol)
  }

  function NameOf(values: seq<EncodedEntry>, e: SymbolEntry): string { FullName(TermOf(values, e)) }

  function Names(values: seq<EncodedEntry>, es: seq<SymbolEntry>): seq<string> {
    seq(|es|, i requires 0 <= i < |es| => NameOf(values, es[i]))
  }

  // ----- The operations of the set and the vector -----------------------------------------------

  predicate After(values: seq<EncodedEntry>, es: seq<SymbolEntry>, i: nat, t: Term)
    requires i < |es|
  {
    Compare(t, TermOf(values, es[i]))
  }

  predicate Before(values: seq<EncodedEntry>, es: seq<SymbolEntry>, i: nat, t: Term)
    requires i < |es|
  {
    Compare(TermOf(values, es[i]), t)
  }

  /** upper_bound by Compare, from k on. */
  function UpperBoundBy(values: seq<EncodedEntry>, es: seq<SymbolEntry>, t: Term, k: nat): (u: nat)
    requires k <= |es|
    ensures k <= u <= |es|
    ensures forall i | k <= i < u :: !After(values, es, i, t)
    ensures u < |es| ==> After(values, es, u, t)
    decreases |es| - k
  {
    if k == |es| || After(values, es, k, t) then k else UpperBoundBy(values, es, t, k + 1)
  }

  /** lower_bound by Compare, from k on. */
  function LowerBoundBy(values: seq<EncodedEntry>, es: seq<SymbolEntry>, t: Term, k: nat): (u: nat)
    requires k <= |es|
    ensures k <= u <= |es|
    ensures forall i | k <= i < u :: Before(values, es, i, t)
    ensures u < |es| ==> !Before(values, es, u, t)
    decreases |es| - k
  {
    if k == |es| || !Before(values, es, k, t) then k else LowerBoundBy(values, es, t, k + 1)
  }

  function LastLessOrEqual(values: seq<EncodedEntry>, es: seq<SymbolEntry>, t: Term): (i: nat)
    ensures i <= |es|
  {
    var u := UpperBoundBy(values, es, t, 0);
    if u != 0 then u - 1 else u
  }

  /** FindLastLessOrEqual and CheckForMutualSubsymbols. */
  predicate AdmitsBy(values: seq<EncodedEntry>, es: seq<SymbolEntry>, t: Term) {
    CheckForMutualSubsymbols(Names(values, es), LastLessOrEqual(values, es, t), FullName(t))
  }

  /** std::set::insert: nothing happens when an entry is equivalent. */
  function SetInsert(values: seq<EncodedEntry>, es: seq<SymbolEntry>, e: SymbolEntry): seq<SymbolEntry> {
    var k := LowerBoundBy(values, es, TermOf(values, e), 0);
    if k < |es| && !After(values, es, k, TermOf(values, e)) then es else Inserted(es, k, e)
  }

  /** std::merge. */
  function Merge(values: seq<EncodedEntry>, a: seq<SymbolEntry>, b: seq<SymbolEntry>): seq<SymbolEntry> {
    if |a| == 0 then b
    else if |b| == 0 then a
    else if Compare(TermOf(values, b[0]), TermOf(values, a[0])) then [b[0]] + Merge(values, a, b[1..])
    else [a[0]] + Merge(values, a[1..], b)
  }

  /** The probe of FindSymbolOnlyFlat. */
  function ProbeBy(values: seq<EncodedEntry>, flat: seq<SymbolEntry>, name: string): Option<nat> {
    var i := LastLessOrEqual(values, flat, Str(name));
    if i < |flat| && IsSubSymbol(NameOf(values, flat[i]), name) then Some(i) else None
  }

  // ----- Where Compare is the order of the names ------------------------------------------------

  /** Compare puts entry i after the term exactly when the names are in that order. */
  predicate AfterAgrees(values: seq<EncodedEntry>, es: seq<SymbolEntry>, t: Term, i: nat)
    requires i < |es|
  {
    After(values, es, i, t) == Less(FullName(t), NameOf(values, es[i]))
  }

  /** Both ways. */
  predicate Agrees(values: seq<EncodedEntry>, es: seq<SymbolEntry>, t: Term, i: nat)
    requires i < |es|
  {
    && AfterAgrees(values, es, t, i)
    && Before(values, es, i, t) == Less(NameOf(values, es[i]), FullName(t))
  }

  lemma UnrelatedAgrees(values: seq<EncodedEntry>, es: seq<SymbolEntry>, t: Term, i: nat)
    requires i < |es| && !Conflicts(Names(values, es), i, FullName(t))
    ensures Agrees(values, es, t, i)
  {
    CompareExactly(t, TermOf(values, es[i]));
    CompareExactly(TermOf(values, es[i]), t);
  }

  lemma {:induction false} UpperBoundAgrees(values: seq<EncodedEntry>, es: seq<SymbolEntry>, t: Term, k: nat)
    requires k <= |es| && forall i | 0 <= i < |es| :: AfterAgrees(values, es, t, i)
    requires forall i | 0 <= i < k :: !Above(Names(values, es), i, FullName(t))
    ensures UpperBoundBy(values, es, t, k) == FirstAbove(Names(values, es), FullName(t), k)
    decreases |es| - k
  {
    if k < |es| {
      assert AfterAgrees(values, es, t, k);
      if !Above(Names(values, es), k, FullName(t)) {
        UpperBoundAgrees(values, es, t, k + 1);
      }
    }
  }

  lemma {:induction false} LowerBoundAgrees(values: seq<EncodedEntry>, es: seq<SymbolEntry>, t: Term, k: nat)
    requires k <= |es| && forall i | 0 <= i < |es| :: Agrees(values, es, t, i) && NameOf(values, es[i]) != FullName(t)
    requires forall i | 0 <= i < k :: !Above(Names(values, es), i, FullName(t))
    ensures LowerBoundBy(values, es, t, k) == FirstAbove(Names(values, es), FullName(t), k)
    decreases |es| - k
  {
    if k < |es| {
      assert Agrees(values, es, t, k);
      LessTotal(FullName(t), NameOf(values, es[k]));
      if !Above(Names(values, es), k, FullName(t)) {
        LowerBoundAgrees(values, es, t, k + 1);
      }
    }
  }

  /** The checks on one list are those of the simple database. */
  lemma AdmitsAgrees(values: seq<EncodedEntry>, es: seq<SymbolEntry>, t: Term)
    requires UpperBoundBy(values, es, t, 0) == UpperBound(Names(values, es), FullName(t))
    ensures AdmitsBy(values, es, t) == Admits(Names(values, es), FullName(t))
  {
    var names, name := Names(values, es), FullName(t);
    assert LastLessOrEqual(values, es, t) == FindLastLessOrEqual(names, name);
  }

  // ----- Inserting ------------------------------------------------------------------------------

  lemma InsertPosition(values: seq<EncodedEntry>, es: seq<SymbolEntry>, e: SymbolEntry)
    requires forall i | 0 <= i < |es| :: !Conflicts(Names(values, es), i, NameOf(values, e))
    ensures SetInsert(values, es, e) == Inserted(es, UpperBound(Names(values, es), NameOf(values, e)), e)
    ensures forall i | 0 <= i < |es| :: !Same(Names(values, es), i, NameOf(values, e))
  {
    var t, names, name := TermOf(values, e), Names(values, es), NameOf(values, e);
    forall i | 0 <= i < |es|
      ensures Agrees(values, es, t, i) && NameOf(values, es[i]) != name && !Same(names, i, name) {
      assert !Conflicts(names, i, name);
      UnrelatedAgrees(values, es, t, i);
    }
    LowerBoundAgrees(values, es, t, 0);
    var k := LowerBoundBy(values, es, t, 0);
    if k < |es| {
      assert Above(names, k, FullName(t)) && Agrees(values, es, t, k);
    }
  }

  lemma InsertedEntries<T>(s: seq<T>, k: nat, x: T)
    requires k <= |s|
    ensures multiset(Inserted(s, k, x)) == multiset(s) + multiset{x}
  {
    assert s == s[..k] + s[k..];
  }

  lemma InsertedNames(values: seq<EncodedEntry>, es: seq<SymbolEntry>, k: nat, e: SymbolEntry)
    requires k <= |es|
    ensures Names(values, Inserted(es, k, e)) == Inserted(Names(values, es), k, NameOf(values, e))
  {
  }

  /** An entry that conflicts with none goes where its name says. */
  lemma InsertAgrees(values: seq<EncodedEntry>, es: seq<SymbolEntry>, e: SymbolEntry)
    requires Sorted(Names(values, es))
    requires forall i | 0 <= i < |es| :: !Conflicts(Names(values, es), i, NameOf(values, e))
    ensures Sorted(Names(values, SetInsert(values, es, e)))
    ensures multiset(SetInsert(values, es, e)) == multiset(es) + multiset{e}
  {
    var u := UpperBound(Names(values, es), NameOf(values, e));
    InsertPosition(values, es, e);
    InsertedEntries(es, u, e);
    InsertedNames(values, es, u, e);
    InsertKeepsSorted(Names(values, es), NameOf(values, e));
  }

  // ----- Merging --------------------------------------------------------------------------------

  lemma {:induction false} MergeKeepsEntries(values: seq<EncodedEntry>, a: seq<SymbolEntry>, b: seq<SymbolEntry>)
    ensures multiset(Merge(values, a, b)) == multiset(a) + multiset(b)
    decreases |a| + |b|
  {
    if |a| > 0 && |b| > 0 {
      assert a == [a[0]] + a[1..] && b == [b[0]] + b[1..];
      if Compare(TermOf(values, b[0]), TermOf(values, a[0])) {
        MergeKeepsEntries(values, a, b[1..]);
      } else {
        MergeKeepsEntries(values, a[1..], b);
      }
    }
  }

  predicate Higher(values: seq<EncodedEntry>, name: string, e: SymbolEntry) { Less(name, NameOf(values, e)) }

  lemma SortedCons(values: seq<EncodedEntry>, e: SymbolEntry, es: seq<SymbolEntry>)
    requires Sorted(Names(values, es)) && forall x | x in es :: Higher(values, NameOf(values, e), x)
    ensures Sorted(Names(values, [e] + es))
  {
    forall j | 0 <= j < |es| ensures Above(Names(values, es), j, NameOf(values, e)) {
      assert es[j] in es && Higher(values, NameOf(values, e), es[j]);
    }
    ConsKeepsSorted(NameOf(values, e), Names(values, es));
    assert Names(values, [e] + es) == [NameOf(values, e)] + Names(values, es);
  }

  lemma SortedTail(values: seq<EncodedEntry>, es: seq<SymbolEntry>)
    requires Sorted(Names(values, es)) && |es| > 0
    ensures Sorted(Names(values, es[1..])) && forall x | x in es[1..] :: Higher(values, NameOf(values, es[0]), x)
  {
    var names, tail := Names(values, es), Names(values, es[1..]);
    forall i, j | 0 <= i < j < |es| - 1 ensures InOrder(tail, i, j) {
      assert InOrder(names, i + 1, j + 1) && tail[i] == names[i + 1] && tail[j] == names[j + 1];
    }
    forall x | x in es[1..] ensures Higher(values, NameOf(values, es[0]), x) {
      var j :| 0 <= j < |es| - 1 && es[1..][j] == x;
      assert InOrder(names, 0, j + 1);
    }
  }

  predicate Apart(values: seq<EncodedEntry>, x: SymbolEntry, y: SymbolEntry) {
    !IsSubSymbol(NameOf(values, x), NameOf(values, y)) && !IsSubSymbol(NameOf(values, y), NameOf(values, x))
  }

  /** MergeIntoFlat keeps the order where no entry of the one is the parent of one of the other. */
  lemma {:induction false} MergeKeepsSorted(values: seq<EncodedEntry>, a: seq<SymbolEntry>, b: seq<SymbolEntry>)
    requires Sorted(Names(values, a)) && Sorted(Names(values, b))
    requires forall x, y | x in a && y in b :: Apart(values, x, y)
    ensures Sorted(Names(values, Merge(values, a, b)))
    decreases |a| + |b|
  {
    if |a| > 0 && |b| > 0 {
      SortedTail(values, a);
      SortedTail(values, b);
      assert Apart(values, a[0], b[0]);
      CompareExactly(TermOf(values, b[0]), TermOf(values, a[0]));
      LessTotal(NameOf(values, b[0]), NameOf(values, a[0]));
      if Compare(TermOf(values, b[0]), TermOf(values, a[0])) {
        MergeKeepsSorted(values, a, b[1..]);
        MergeKeepsEntries(values, a, b[1..]);
        MergedHigher(values, b[0], a, b[1..], Merge(values, a, b[1..]));
        SortedCons(values, b[0], Merge(values, a, b[1..]));
      } else {
        MergeKeepsSorted(values, a[1..], b);
        MergeKeepsEntries(values, a[1..], b);
        MergedHigher(values, a[0], b, a[1..], Merge(values, a[1..], b));
        SortedCons(values, a[0], Merge(values, a[1..], b));
      }
    }
  }

  /** What is merged after e comes after it. */
  lemma MergedHigher(values: seq<EncodedEntry>, e: SymbolEntry, s: seq<SymbolEntry>, t: seq<SymbolEntry>,
                     m: seq<SymbolEntry>)
    requires |s| > 0 && Sorted(Names(values, s)) && Less(NameOf(values, e), NameOf(values, s[0]))
    requires forall x | x in t :: Higher(values, NameOf(values, e), x)
    requires multiset(m) == multiset(s) + multiset(t)
    ensures forall x | x in m :: Higher(values, NameOf(values, e), x)
  {
    SortedTail(values, s);
    forall x | x in m ensures Higher(values, NameOf(values, e), x) {
      assert x in multiset(m);
      if x in s && x != s[0] {
        assert s == [s[0]] + s[1..];
        assert Higher(values, NameOf(values, s[0]), x);
        LessTransitive(NameOf(values, e), NameOf(values, s[0]), NameOf(values, x));
      }
    }
  }

  // ----- Set and vector against the entries accepted --------------------------------------------

  ghost predicate InRange(values: seq<EncodedEntry>, es: seq<SymbolEntry>) {
    forall e | e in es :: e.offset < |values|
  }

  /** The set and the vector are in the order of the names, and hold the accepted entries. */
  ghost predicate Flat(values: seq<EncodedEntry>, accepted: seq<SymbolEntry>, entries: seq<SymbolEntry>,
                       flat: seq<SymbolEntry>) {
    && Sorted(Names(values, entries)) && Sorted(Names(values, flat))
    && multiset(entries) + multiset(flat) == multiset(accepted)
  }

  lemma NamesStay(values: seq<EncodedEntry>, more: seq<EncodedEntry>, es: seq<SymbolEntry>)
    requires InRange(values, es) && |values| <= |more|
    requires forall i | 0 <= i < |values| :: more[i].package == values[i].package
    ensures Names(more, es) == Names(values, es)
  {
    forall i | 0 <= i < |es| ensures NameOf(more, es[i]) == NameOf(values, es[i]) {
      assert es[i] in es;
    }
  }

  lemma IndexOf(s: seq<SymbolEntry>, x: SymbolEntry) returns (i: nat)
    requires x in s
    ensures i < |s| && s[i] == x
  {
    i :| 0 <= i < |s| && s[i] == x;
  }

  /** No entry is accepted twice. */
  lemma AcceptedOnce(values: seq<EncodedEntry>, accepted: seq<SymbolEntry>, x: SymbolEntry)
    requires NoPairs(Names(values, accepted))
    ensures multiset(accepted)[x] <= 1
  {
    if x in accepted {
      var i := IndexOf(accepted, x);
      var l, r := accepted[..i], accepted[i + 1..];
      assert accepted == l + [x] + r;
      forall j | 0 <= j < |l| ensures l[j] != x {
        assert Unrelated(Names(values, accepted), j, i);
      }
      forall j | 0 <= j < |r| ensures r[j] != x {
        assert Unrelated(Names(values, accepted), i, i + 1 + j);
      }
    }
  }

  lemma AcceptedApart(values: seq<EncodedEntry>, accepted: seq<SymbolEntry>, x: SymbolEntry, y: SymbolEntry)
    requires NoPairs(Names(values, accepted)) && x in accepted && y in accepted && x != y
    ensures Apart(values, x, y)
  {
    var i := IndexOf(accepted, x);
    var j := IndexOf(accepted, y);
    assert Unrelated(Names(values, accepted), i, j) && Unrelated(Names(values, accepted), j, i);
  }

  lemma NoPairsAmong(values: seq<EncodedEntry>, accepted: seq<SymbolEntry>, es: seq<SymbolEntry>)
    requires NoPairs(Names(values, accepted)) && multiset(es) <= multiset(accepted)
    ensures NoPairs(Names(values, es))
  {
    var names := Names(values, es);
    forall i, j | 0 <= i < |es| && 0 <= j < |es| && i != j ensures Unrelated(names, i, j) {
      var x, y := es[i], es[j];
      assert x in multiset(es) && y in multiset(es);
      if x == y {
        var lo, hi := if i < j then i else j, if i < j then j else i;
        assert es == es[..lo] + [x] + es[lo + 1..hi] + [x] + es[hi + 1..];
        AcceptedOnce(values, accepted, x);
        assert false;
      }
      AcceptedApart(values, accepted, x, y);
    }
  }

  /** An accepted entry goes into the set. */
  lemma AddKeepsFlat(values: seq<EncodedEntry>, accepted: seq<SymbolEntry>, entries: seq<SymbolEntry>,
                     flat: seq<SymbolEntry>, e: SymbolEntry)
    requires Flat(values, accepted, entries, flat) && NoPairs(Names(values, accepted + [e]))
    ensures Flat(values, accepted + [e], SetInsert(values, entries, e), flat)
  {
    var names, n := Names(values, accepted + [e]), |accepted|;
    forall i | 0 <= i < |entries| ensures !Conflicts(Names(values, entries), i, NameOf(values, e)) {
      assert entries[i] in multiset(entries);
      assert entries[i] in multiset(accepted);
      var k := IndexOf(accepted, entries[i]);
      assert Unrelated(names, k, n) && Unrelated(names, n, k);
    }
    InsertAgrees(values, entries, e);
  }

  lemma NoPairsOfPrefix(keys: seq<string>, name: string)
    requires NoPairs(keys + [name])
    ensures NoPairs(keys)
  {
    forall i, j | 0 <= i < |keys| && 0 <= j < |keys| && i != j ensures Unrelated(keys, i, j) {
      assert Unrelated(keys + [name], i, j);
    }
  }

  lemma MergeKeepsFlat(values: seq<EncodedEntry>, accepted: seq<SymbolEntry>, entries: seq<SymbolEntry>,
                       flat: seq<SymbolEntry>)
    requires Flat(values, accepted, entries, flat) && NoPairs(Names(values, accepted))
    ensures Flat(values, accepted, [], Merge(values, entries, flat))
  {
    forall x, y | x in entries && y in flat ensures Apart(values, x, y) {
      assert x in multiset(entries) && y in multiset(flat);
      assert x in multiset(accepted) && y in multiset(accepted);
      AcceptedOnce(values, accepted, x);
      AcceptedApart(values, accepted, x, y);
    }
    MergeKeepsEntries(values, entries, flat);
    MergeKeepsSorted(values, entries, flat);
  }

  // ----- Looking up -----------------------------------------------------------------------------

  lemma DottedConflict(k: string, name: string)
    requires IsSubSymbol(k, name)
    ensures IsSubSymbol(k, name + ".") && k != name + "."
  {
    assert (name + ".")[..|name|] == name;
    if k != name {
      assert (name + ".")[..|k|] == name[..|k|];
    }
  }

  /** Entry i is a packaged entry without a symbol, and the term is just its package. */
  predicate ConfusedBy(values: seq<EncodedEntry>, es: seq<SymbolEntry>, t: Term, i: nat)
    requires i < |es|
  {
    Confused(t, TermOf(values, es[i]))
  }

  lemma ConfusedNotCovered(values: seq<EncodedEntry>, es: seq<SymbolEntry>, t: Term, j: nat)
    requires NoPairs(Names(values, es)) && j < |es| && ConfusedBy(values, es, t, j)
    ensures Names(values, es)[j] == FullName(t) + "."
    ensures forall i | 0 <= i < |es| :: !Covers(Names(values, es), i, FullName(t))
  {
    var names, name := Names(values, es), FullName(t);
    ConfusedName(t, TermOf(values, es[j]));
    forall i | 0 <= i < |es| ensures !Covers(names, i, name) {
      assert i != j ==> Unrelated(names, i, j);
      if Covers(names, i, name) {
        DottedConflict(names[i], name);
      }
    }
  }

  /** Though the comparison with a string can be confused, the probe is right. */
  lemma ProbeByIsScan(values: seq<EncodedEntry>, flat: seq<SymbolEntry>, name: string)
    requires var names := Names(values, flat); Sorted(names) && AllValid(names) && NoPairs(names)
    ensures match ProbeBy(values, flat, name)
            case Some(k) => k < |flat| && forall i | 0 <= i < |flat| :: Covers(Names(values, flat), i, name) <==> i == k
            case None => forall i | 0 <= i < |flat| :: !Covers(Names(values, flat), i, name)
  {
    var names, t := Names(values, flat), Str(name);
    if j :| 0 <= j < |flat| && ConfusedBy(values, flat, t, j) {
      ConfusedNotCovered(values, flat, t, j);
      assert ProbeBy(values, flat, name).Some? ==> Covers(names, ProbeBy(values, flat, name).value, name);
    } else {
      forall i | 0 <= i < |flat| ensures AfterAgrees(values, flat, t, i) {
        assert !ConfusedBy(values, flat, t, i);
        CompareExactly(t, TermOf(values, flat[i]));
      }
      UpperBoundAgrees(values, flat, t, 0);
      ProbeIsScan(names, name);
    }
  }

  /** Confused or not, the entries that a string sorts before are the last ones of the vector, so that
      a binary search for the first of them finds it. */
  lemma ProbeIsPartitioned(values: seq<EncodedEntry>, flat: seq<SymbolEntry>, name: string, i: nat, j: nat)
    requires var names := Names(values, flat); Sorted(names) && AllValid(names)
    requires i < j < |flat| && After(values, flat, i, Str(name))
    ensures After(values, flat, j, Str(name))
  {
    var names, t := Names(values, flat), Str(name);
    CompareExactly(t, TermOf(values, flat[i]));
    CompareExactly(t, TermOf(values, flat[j]));
    assert InOrder(names, i, j) && ValidKey(names, i);
    LessTransitive(name, names[i], names[j]);
    if Confused(t, TermOf(values, flat[j])) {
      assert names[j] == name + ".";
      DottedIsNext(name, names[i]);
    }
  }

  // ----- Accepting ------------------------------------------------------------------------------

  /** The checks do not look at entry i: it is the first and the name sorts below it, or the term
      is confused with it. */
  predicate Escapes(values: seq<EncodedEntry>, es: seq<SymbolEntry>, t: Term, i: nat)
    requires i < |es|
  {
    (i == 0 && BelowAll(Names(values, es), FullName(t))) || ConfusedBy(values, es, t, i)
  }

  /** All that a confusion means for a sorted list: the term is no entry's child, entry j is its first
      child, and the search for the term stops right after entry j. */
  lemma ConfusedPosition(values: seq<EncodedEntry>, es: seq<SymbolEntry>, t: Term, j: nat)
    requires var names := Names(values, es); Sorted(names) && AllValid(names) && NoPairs(names)
    requires j < |es| && ConfusedBy(values, es, t, j)
    ensures UpperBoundBy(values, es, t, 0) == j + 1
    ensures Names(values, es)[j] == FullName(t) + "."
    ensures forall i | 0 <= i < |es| :: !Covers(Names(values, es), i, FullName(t))
    ensures forall i | 0 <= i < j :: Below(Names(values, es), i, FullName(t))
  {
    var names, name := Names(values, es), FullName(t);
    ConfusedNotCovered(values, es, t, j);
    forall i | 0 <= i < j ensures Below(names, i, name) && !After(values, es, i, t) {
      assert !Covers(names, i, name);
      EntryBeforeDotted(values, es, t, i, j);
    }
    CompareExactly(t, TermOf(values, es[j]));
    if j + 1 < |es| {
      EntryAfterDotted(values, es, t, j);
    }
    UpperBoundIs(values, es, t, j + 1);
  }

  lemma UpperBoundIs(values: seq<EncodedEntry>, es: seq<SymbolEntry>, t: Term, u: nat)
    requires u <= |es| && forall i | 0 <= i < u :: !After(values, es, i, t)
    requires u < |es| ==> After(values, es, u, t)
    ensures UpperBoundBy(values, es, t, 0) == u
  {
  }

  lemma EntryBeforeDotted(values: seq<EncodedEntry>, es: seq<SymbolEntry>, t: Term, i: nat, j: nat)
    requires Sorted(Names(values, es)) && AllValid(Names(values, es))
    requires i < j < |es| && Names(values, es)[j] == FullName(t) + "."
    requires !Covers(Names(values, es), i, FullName(t))
    ensures Below(Names(values, es), i, FullName(t)) && !After(values, es, i, t)
  {
    var names, name := Names(values, es), FullName(t);
    assert InOrder(names, i, j) && ValidKey(names, i);
    if Less(name, names[i]) {
      DottedIsNext(name, names[i]);
    }
    LessTotal(names[i], name);
    CompareExactly(t, TermOf(values, es[i]));
  }

  lemma EntryAfterDotted(values: seq<EncodedEntry>, es: seq<SymbolEntry>, t: Term, j: nat)
    requires Sorted(Names(values, es)) && j + 1 < |es| && Names(values, es)[j] == FullName(t) + "."
    ensures After(values, es, j + 1, t)
  {
    var names, name, rhs := Names(values, es), FullName(t), TermOf(values, es[j + 1]);
    assert InOrder(names, j, j + 1);
    DottedAbove(name);
    LessTransitive(name, names[j], names[j + 1]);
    LessIrreflexive(names[j]);
    if Confused(t, rhs) {
      ConfusedName(t, rhs);
    }
    CompareExactly(t, rhs);
  }

  lemma DottedAbove(name: string)
    ensures Less(name, name + ".")
  {
    LessThanExtended(name, ".");
    LessTotal(name, name + ".");
    assert |name + "."| != |name|;
  }

  /** A confused list: its other entries are all looked at. */
  lemma AdmitsConfused(values: seq<EncodedEntry>, es: seq<SymbolEntry>, t: Term, j: nat)
    requires var names := Names(values, es); Sorted(names) && AllValid(names) && NoPairs(names)
    requires j < |es| && ConfusedBy(values, es, t, j)
    ensures AdmitsBy(values, es, t) <==>
            forall i | 0 <= i < |es| && Conflicts(Names(values, es), i, FullName(t)) :: i == j
  {
    var names, name := Names(values, es), FullName(t);
    ConfusedPosition(values, es, t, j);
    assert LastLessOrEqual(values, es, t) == j && !IsSubSymbol(names[j], name);
    forall i | 0 <= i < |es| && Conflicts(names, i, name) ensures j <= i && (j < i ==> Under(names, j + 1, name)) {
      assert !Covers(names, i, name);
      SubSymbolAtMost(name, names[i]);
      assert i < j ==> Below(names, i, name);
      if j < i {
        UnderAfterDotted(names, name, i, j);
      }
    }
    assert j + 1 < |es| && Under(names, j + 1, name) ==> Conflicts(names, j + 1, name);
  }

  lemma UnderAfterDotted(keys: seq<string>, name: string, i: nat, j: nat)
    requires Sorted(keys) && AllValid(keys) && j < i < |keys| && keys[j] == name + "." && Under(keys, i, name)
    requires keys[i] != name
    ensures Under(keys, j + 1, name)
  {
    DottedAbove(name);
    assert Above(keys, j, name);
    UnderIsNext(keys, name, i, j + 1);
  }

  /** One list, whatever is in it and whatever the name: the checks hold exactly when every entry that
      conflicts with the name escapes them. */
  lemma AdmitsByExactly(values: seq<EncodedEntry>, es: seq<SymbolEntry>, t: Term)
    requires var names := Names(values, es); Sorted(names) && AllValid(names) && NoPairs(names)
    ensures AdmitsBy(values, es, t) <==>
            forall i | 0 <= i < |es| && Conflicts(Names(values, es), i, FullName(t)) :: Escapes(values, es, t, i)
  {
    var names, name := Names(values, es), FullName(t);
    if j :| 0 <= j < |es| && ConfusedBy(values, es, t, j) {
      AdmitsConfused(values, es, t, j);
      ConfusedPosition(values, es, t, j);
      forall i | 0 <= i < |es| && Conflicts(names, i, name) ensures Escapes(values, es, t, i) <==> i == j {
        EscapesOnlyConfused(values, es, t, i, j);
      }
    } else {
      forall i | 0 <= i < |es| ensures AfterAgrees(values, es, t, i) {
        assert !ConfusedBy(values, es, t, i);
        CompareExactly(t, TermOf(values, es[i]));
      }
      UpperBoundAgrees(values, es, t, 0);
      AdmitsAgrees(values, es, t);
      AdmitsWhatEscapes(names, name);
    }
  }

  lemma EscapesOnlyConfused(values: seq<EncodedEntry>, es: seq<SymbolEntry>, t: Term, i: nat, j: nat)
    requires Sorted(Names(values, es)) && i < |es| && j < |es| && ConfusedBy(values, es, t, j)
    requires Names(values, es)[j] == FullName(t) + "."
    requires forall k | 0 <= k < j :: Below(Names(values, es), k, FullName(t))
    ensures Escapes(values, es, t, i) <==> i == j
  {
    var names, name := Names(values, es), FullName(t);
    if i != j {
      DistinctKeys(names, i, j);
      if ConfusedBy(values, es, t, i) {
        ConfusedName(t, TermOf(values, es[i]));
      }
      if BelowAll(names, name) && j > 0 {
        assert Below(names, 0, name);
        LessTotal(name, names[0]);
      }
    }
  }

  lemma ValidAmong(values: seq<EncodedEntry>, accepted: seq<SymbolEntry>, es: seq<SymbolEntry>)
    requires AllValid(Names(values, accepted)) && multiset(es) <= multiset(accepted)
    ensures AllValid(Names(values, es))
  {
    forall i | 0 <= i < |es| ensures ValidKey(Names(values, es), i) {
      assert es[i] in multiset(es);
      var k := IndexOf(accepted, es[i]);
      assert ValidKey(Names(values, accepted), k);
    }
  }

  /** A conflict with an accepted entry is a conflict in the set or in the vector. */
  lemma ConflictsSplit(values: seq<EncodedEntry>, accepted: seq<SymbolEntry>, entries: seq<SymbolEntry>,
                       flat: seq<SymbolEntry>, name: string)
    requires multiset(entries) + multiset(flat) == multiset(accepted)
    ensures (forall i | 0 <= i < |accepted| :: !Conflicts(Names(values, accepted), i, name)) <==>
            && (forall i | 0 <= i < |entries| :: !Conflicts(Names(values, entries), i, name))
            && (forall i | 0 <= i < |flat| :: !Conflicts(Names(values, flat), i, name))
  {
    ConflictsAmong(values, accepted, entries, name);
    ConflictsAmong(values, accepted, flat, name);
    forall i | 0 <= i < |accepted| && Conflicts(Names(values, accepted), i, name)
      ensures || (exists k | 0 <= k < |entries| :: Conflicts(Names(values, entries), k, name))
              || (exists k | 0 <= k < |flat| :: Conflicts(Names(values, flat), k, name)) {
      assert accepted[i] in multiset(accepted);
      if accepted[i] in entries {
        var k := IndexOf(entries, accepted[i]);
        assert Conflicts(Names(values, entries), k, name);
      } else {
        assert accepted[i] in flat;
        var k := IndexOf(flat, accepted[i]);
        assert Conflicts(Names(values, flat), k, name);
      }
    }
  }

  lemma ConflictsAmong(values: seq<EncodedEntry>, accepted: seq<SymbolEntry>, es: seq<SymbolEntry>, name: string)
    requires multiset(es) <= multiset(accepted)
    ensures forall i | 0 <= i < |es| && Conflicts(Names(values, es), i, name) ::
              exists k | 0 <= k < |accepted| :: Conflicts(Names(values, accepted), k, name)
  {
    forall i | 0 <= i < |es| && Conflicts(Names(values, es), i, name)
      ensures exists k | 0 <= k < |accepted| :: Conflicts(Names(values, accepted), k, name) {
      assert es[i] in multiset(es);
      var k := IndexOf(accepted, es[i]);
      assert Conflicts(Names(values, accepted), k, name);
    }
  }

  /** AddSymbol accepts a name exactly when every accepted entry that conflicts with it, in the set or
      in the vector, escapes the checks on its list. */
  lemma AcceptsExactly(values: seq<EncodedEntry>, accepted: seq<SymbolEntry>, entries: seq<SymbolEntry>,
                       flat: seq<SymbolEntry>, t: Term)
    requires Flat(values, accepted, entries, flat)
    requires AllValid(Names(values, accepted)) && NoPairs(Names(values, accepted))
    ensures AdmitsBy(values, entries, t) && AdmitsBy(values, flat, t) <==>
            && (forall i | 0 <= i < |entries| && Conflicts(Names(values, entries), i, FullName(t)) ::
                  Escapes(values, entries, t, i))
            && (forall i | 0 <= i < |flat| && Conflicts(Names(values, flat), i, FullName(t)) ::
                  Escapes(values, flat, t, i))
  {
    ListsAreGood(values, accepted, entries, flat);
    AdmitsByExactly(values, entries, t);
    AdmitsByExactly(values, flat, t);
  }

  /** In particular, where no entry of either list can escape, a name is accepted exactly when it
      conflicts with no accepted entry. */
  lemma AcceptsWithoutEscapes(values: seq<EncodedEntry>, accepted: seq<SymbolEntry>, entries: seq<SymbolEntry>,
                              flat: seq<SymbolEntry>, t: Term)
    requires Flat(values, accepted, entries, flat)
    requires AllValid(Names(values, accepted)) && NoPairs(Names(values, accepted))
    requires !BelowAll(Names(values, entries), FullName(t)) && !BelowAll(Names(values, flat), FullName(t))
    requires forall i | 0 <= i < |entries| :: !ConfusedBy(values, entries, t, i)
    requires forall i | 0 <= i < |flat| :: !ConfusedBy(values, flat, t, i)
    ensures AdmitsBy(values, entries, t) && AdmitsBy(values, flat, t)
            <==> forall i | 0 <= i < |accepted| :: !Conflicts(Names(values, accepted), i, FullName(t))
  {
    AcceptsExactly(values, accepted, entries, flat, t);
    ConflictsSplit(values, accepted, entries, flat, FullName(t));
  }

  lemma ListsAreGood(values: seq<EncodedEntry>, accepted: seq<SymbolEntry>, entries: seq<SymbolEntry>,
                     flat: seq<SymbolEntry>)
    requires Flat(values, accepted, entries, flat)
    requires AllValid(Names(values, accepted)) && NoPairs(Names(values, accepted))
    ensures AllValid(Names(values, entries)) && NoPairs(Names(values, entries))
    ensures AllValid(Names(values, flat)) && NoPairs(Names(values, flat))
  {
    assert multiset(entries) <= multiset(accepted) && multiset(flat) <= multiset(accepted);
    ValidAmong(values, accepted, entries);
    ValidAmong(values, accepted, flat);
    NoPairsAmong(values, accepted, entries);
    NoPairsAmong(values, accepted, flat);
  }

  /** On one list, the checks miss a child of the term: the first entry, below which the name sorts, or
      an entry that the term is confused with. */
  predicate Hides(values: seq<EncodedEntry>, es: seq<SymbolEntry>, t: Term) {
    || (BelowAll(Names(values, es), FullName(t)) && IsSubSymbol(FullName(t), NameOf(values, es[0])))
    || exists i | 0 <= i < |es| :: ConfusedBy(values, es, t, i)
  }

  lemma HidesIsConflict(values: seq<EncodedEntry>, es: seq<SymbolEntry>, t: Term)
    requires var names := Names(values, es); Sorted(names) && AllValid(names) && NoPairs(names)
    requires AdmitsBy(values, es, t)
    ensures !Hides(values, es, t) <==> forall i | 0 <= i < |es| :: !Conflicts(Names(values, es), i, FullName(t))
  {
    var names, name := Names(values, es), FullName(t);
    AdmitsByExactly(values, es, t);
    forall i | 0 <= i < |es| && ConfusedBy(values, es, t, i) ensures Conflicts(names, i, name) {
      CompareExactly(t, TermOf(values, es[i]));
    }
    if BelowAll(names, name) {
      LessTotal(name, names[0]);
      assert Conflicts(names, 0, name) <==> IsSubSymbol(name, names[0]) by {
        if Covers(names, 0, name) {
          SubSymbolAtMost(names[0], name);
        }
      }
    }
    forall i | 0 <= i < |es| && Conflicts(names, i, name) ensures Hides(values, es, t) {
      assert Escapes(values, es, t, i);
    }
  }

  /** An accepted name leaves the accepted symbols without parent and child exactly when neither list
      hides one. */
  lemma AcceptedKeepsNoPairs(values: seq<EncodedEntry>, accepted: seq<SymbolEntry>, entries: seq<SymbolEntry>,
                             flat: seq<SymbolEntry>, e: SymbolEntry)
    requires Flat(values, accepted, entries, flat)
    requires AllValid(Names(values, accepted)) && NoPairs(Names(values, accepted))
    requires AdmitsBy(values, entries, TermOf(values, e)) && AdmitsBy(values, flat, TermOf(values, e))
    ensures NoPairs(Names(values, accepted + [e]))
            <==> !Hides(values, entries, TermOf(values, e)) && !Hides(values, flat, TermOf(values, e))
  {
    var t := TermOf(values, e);
    ListsAreGood(values, accepted, entries, flat);
    HidesIsConflict(values, entries, t);
    HidesIsConflict(values, flat, t);
    ConflictsSplit(values, accepted, entries, flat, FullName(t));
    NamesWithOneMore(values, accepted, e);
    NoPairsWithOneMore(Names(values, accepted), FullName(t));
  }

  lemma NamesWithOneMore(values: seq<EncodedEntry>, es: seq<SymbolEntry>, e: SymbolEntry)
    ensures Names(values, es + [e]) == Names(values, es) + [FullName(TermOf(values, e))]
  {
  }

  lemma NoPairsWithOneMore(keys: seq<string>, name: string)
    requires NoPairs(keys)
    ensures NoPairs(keys + [name]) <==> forall i | 0 <= i < |keys| :: !Conflicts(keys, i, name)
  {
    var keys', n := keys + [name], |keys|;
    if NoPairs(keys') {
      forall i | 0 <= i < n ensures !Conflicts(keys, i, name) {
        assert Unrelated(keys', i, n) && Unrelated(keys', n, i);
      }
    }
    if forall i | 0 <= i < n :: !Conflicts(keys, i, name) {
      forall i, j | 0 <= i <= n && 0 <= j <= n && i != j ensures Unrelated(keys', i, j) {
        assert i < n && j < n ==> Unrelated(keys, i, j);
        assert i < n ==> !Conflicts(keys, i, name);
        assert j < n ==> !Conflicts(keys, j, name);
      }
    }
  }

  /** Not every accepted symbol gets into the set: std::set::insert takes it for a duplicate exactly
      when it is confused with an entry of the set, a packaged one without a symbol. */
  lemma InsertedExactly(values: seq<EncodedEntry>, es: seq<SymbolEntry>, e: SymbolEntry)
    requires var names := Names(values, es); Sorted(names) && AllValid(names) && NoPairs(names)
    requires AdmitsBy(values, es, TermOf(values, e))
    ensures SetInsert(values, es, e) == es <==> exists i | 0 <= i < |es| :: ConfusedBy(values, es, TermOf(values, e), i)
  {
    var t := TermOf(values, e);
    if j :| 0 <= j < |es| && ConfusedBy(values, es, t, j) {
      ConfusedPosition(values, es, t, j);
      CompareExactly(t, TermOf(values, es[j]));
      forall i | 0 <= i < j ensures Before(values, es, i, t) {
        assert Below(Names(values, es), i, FullName(t));
        LessTotal(NameOf(values, es[i]), FullName(t));
        CompareExactly(TermOf(values, es[i]), t);
      }
      assert !Before(values, es, j, t) && !After(values, es, j, t);
    } else {
      forall i | 0 <= i < |es| ensures Before(values, es, i, t) || After(values, es, i, t) {
        assert !ConfusedBy(values, es, t, i);
        AdmittedNotEquivalent(values, es, t, i);
      }
      var k := LowerBoundBy(values, es, t, 0);
      assert |SetInsert(values, es, e)| == |es| + 1;
    }
  }

  lemma AdmittedNotEquivalent(values: seq<EncodedEntry>, es: seq<SymbolEntry>, t: Term, i: nat)
    requires var names := Names(values, es); Sorted(names) && AllValid(names) && NoPairs(names)
    requires AdmitsBy(values, es, t) && i < |es| && !ConfusedBy(values, es, t, i)
    ensures Before(values, es, i, t) || After(values, es, i, t)
  {
    var names, name := Names(values, es), FullName(t);
    AdmitsByExactly(values, es, t);
    if Covers(names, i, name) {
      assert Conflicts(names, i, name) && Escapes(values, es, t, i);
      SubSymbolAtMost(names[i], name);
    }
    CompareExactly(t, TermOf(values, es[i]));
    CompareExactly(TermOf(values, es[i]), t);
    LessTotal(name, names[i]);
  }

  /** For instance: after a message that has no name in package "a", the name "a" is accepted and lost. */
  lemma AcceptedButNotInserted(file: File)
    ensures var values := [EncodedEntry(file, "a"), EncodedEntry(file, "")];
            var entries, e := [SymbolEntry(0, "")], SymbolEntry(1, "a");
            && NameOf(values, e) == "a" && NameOf(values, entries[0]) == "a."
            && AdmitsBy(values, entries, TermOf(values, e)) && SetInsert(values, entries, e) == entries
  {
    var values := [EncodedEntry(file, "a"), EncodedEntry(file, "")];
    var entries, e := [SymbolEntry(0, "")], SymbolEntry(1, "a");
    assert Confused(TermOf(values, e), TermOf(values, entries[0]));
    CompareExactly(TermOf(values, e), TermOf(values, entries[0]));
    assert !After(values, entries, 0, TermOf(values, e)) && !Before(values, entries, 0, TermOf(values, e));
    assert UpperBoundBy(values, entries, TermOf(values, e), 0) == 1;
    assert Names(values, entries)[0] == "a.";
  }

  /** The same confusion in the vector, with a name below neither list: "a" is accepted next to its
      child "a.". */
  lemma AcceptedNextToChild(file: File)
    ensures var values := [EncodedEntry(file, ""), EncodedEntry(file, "a"), EncodedEntry(file, "")];
            var flat, t := [SymbolEntry(0, "A"), SymbolEntry(1, "")], TermOf(values, SymbolEntry(2, "a"));
            && Names(values, flat) == ["A", "a."] && !BelowAll(Names(values, flat), FullName(t))
            && AdmitsBy(values, [], t) && AdmitsBy(values, flat, t) && Hides(values, flat, t)
            && IsSubSymbol(FullName(t), "a.")
  {
    var values := [EncodedEntry(file, ""), EncodedEntry(file, "a"), EncodedEntry(file, "")];
    var flat, t := [SymbolEntry(0, "A"), SymbolEntry(1, "")], TermOf(values, SymbolEntry(2, "a"));
    assert NameOf(values, flat[0]) == "A" && NameOf(values, flat[1]) == "a" + "." + "" == "a.";
    assert ConfusedBy(values, flat, t, 1);
    CompareExactly(t, TermOf(values, flat[1]));
    CompareExactly(t, TermOf(values, flat[0]));
    assert !After(values, flat, 0, t) && !After(values, flat, 1, t);
    assert UpperBoundBy(values, flat, t, 0) == 2;
  }
}
