/**
 Symbol names, their order, and what one probe of a sorted list of them can find.
 */
module SymbolNames {
  import opened Options

  // ----- Names ----------------------------------------------------------------------------------

  predicate ValidChar(c: char) {
    c == '.' || c == '_' || '0' <= c <= '9' || 'A' <= c <= 'Z' || 'a' <= c <= 'z'
  }

  predicate ValidateSymbolName(name: string) {
    forall i | 0 <= i < |name| :: ValidChar(name[i])
  }

  /** a is b itself or the parent of b. */
  predicate IsSubSymbol(a: string, b: string) {
    a == b || (|a| < |b| && a == b[..|a|] && b[|a|] == '.')
  }

  /** A parent is what is left of its child without a last part, dot and all. */
  lemma IsSubSymbolExactly(a: string, b: string)
    ensures IsSubSymbol(a, b) <==> a == b || exists rest: string :: b == a + "." + rest
  {
    if IsSubSymbol(a, b) && a != b {
      assert b == a + "." + b[|a| + 1..];
    }
    forall rest: string | b == a + "." + rest ensures IsSubSymbol(a, b) {
      assert b[..|a|] == a && b[|a|] == '.';
    }
  }

  /** The legal characters by their codes. */
  lemma LegalExactly(c: char)
    ensures ValidChar(c) <==>
            var n := c as int;
            n == 46 || n == 95 || 48 <= n <= 57 || 65 <= n <= 90 || 97 <= n <= 122
  {
  }

  /** The order of std::string. */
  predicate Less(a: string, b: string) {
    |b| > 0 && (|a| == 0 || a[0] < b[0] || (a[0] == b[0] && Less(a[1..], b[1..])))
  }

  predicate AtMost(a: string, b: string) { !Less(b, a) }

  lemma {:induction false} LessIrreflexive(a: string)
    ensures !Less(a, a)
  {
    if |a| > 0 {
      LessIrreflexive(a[1..]);
    }
  }

  lemma {:induction false} LessTransitive(a: string, b: string, c: string)
    requires Less(a, b) && Less(b, c)
    ensures Less(a, c)
  {
    if |a| > 0 && a[0] == b[0] == c[0] {
      LessTransitive(a[1..], b[1..], c[1..]);
    }
  }

  lemma {:induction false} LessTotal(a: string, b: string)
    ensures Less(a, b) || Less(b, a) || a == b
    ensures !(Less(a, b) && Less(b, a))
  {
    if |a| > 0 && |b| > 0 && a[0] == b[0] {
      LessTotal(a[1..], b[1..]);
      assert a == [a[0]] + a[1..] && b == [b[0]] + b[1..];
    }
  }

  lemma {:induction false} SubSymbolAtMost(a: string, b: string)
    requires IsSubSymbol(a, b)
    ensures AtMost(a, b)
    ensures a != b ==> Less(a, b)
  {
    LessIrreflexive(a);
    if a != b && |a| > 0 {
      assert a[0] == b[0] && b[1..][..|a| - 1] == a[1..];
      SubSymbolAtMost(a[1..], b[1..]);
    }
    LessTotal(a, b);
  }

  /** '.' sorts below every other legal character: nothing legal sorts between a parent and its child
      but children of the same parent. */
  lemma {:induction false} NothingBetween(a: string, m: string, b: string)
    requires IsSubSymbol(a, b) && AtMost(a, m) && AtMost(m, b) && ValidateSymbolName(m)
    ensures IsSubSymbol(a, m)
  {
    if a == b {
      LessTotal(a, m);
    } else if |a| == 0 {
      if |m| > 0 {
        assert ValidChar(m[0]);
      }
    } else {
      assert m[0] == a[0] == b[0];
      assert b[1..][..|a| - 1] == a[1..];
      assert forall i | 0 <= i < |m[1..]| :: m[1..][i] == m[i + 1];
      assert m == [m[0]] + m[1..] && a == [a[0]] + a[1..];
      NothingBetween(a[1..], m[1..], b[1..]);
      if a[1..] != m[1..] {
        assert m[..|a|] == [m[0]] + m[1..][..|a| - 1];
      }
    }
  }

  lemma {:induction false} LessThanExtended(a: string, b: string)
    ensures !Less(a + b, a)
  {
    if |a| > 0 {
      assert (a + b)[1..] == a[1..] + b;
      LessThanExtended(a[1..], b);
    }
  }

  /** No legal name sorts between a name and that name with a dot. */
  lemma DottedIsNext(name: string, m: string)
    requires ValidateSymbolName(m) && Less(name, m)
    ensures !Less(m, name + ".")
  {
    var dotted := name + ".";
    if Less(m, dotted) {
      LessTotal(name, m);
      LessTotal(m, dotted);
      assert dotted[..|name|] == name;
      NothingBetween(name, m, dotted);
      LessIrreflexive(name);
      assert m == dotted + m[|dotted|..];
      LessThanExtended(dotted, m[|dotted|..]);
    }
  }

  // ----- Sorted lists of names ------------------------------------------------------------------

  predicate InOrder(keys: seq<string>, i: nat, j: nat)
    requires i < |keys| && j < |keys|
  {
    Less(keys[i], keys[j])
  }

  ghost predicate Sorted(keys: seq<string>) {
    forall i, j | 0 <= i < j < |keys| :: InOrder(keys, i, j)
  }

  predicate ValidKey(keys: seq<string>, i: nat)
    requires i < |keys|
  {
    ValidateSymbolName(keys[i])
  }

  ghost predicate AllValid(keys: seq<string>) {
    forall i | 0 <= i < |keys| :: ValidKey(keys, i)
  }

  predicate Unrelated(keys: seq<string>, i: nat, j: nat)
    requires i < |keys| && j < |keys|
  {
    !IsSubSymbol(keys[i], keys[j])
  }

  /** No key is the parent of another. */
  ghost predicate NoPairs(keys: seq<string>) {
    forall i, j | 0 <= i < |keys| && 0 <= j < |keys| && i != j :: Unrelated(keys, i, j)
  }

  /** Key i is the name or its parent. */
  predicate Covers(keys: seq<string>, i: nat, name: string)
    requires i < |keys|
  {
    IsSubSymbol(keys[i], name)
  }

  /** Key i is the name or one of its children. */
  predicate Under(keys: seq<string>, i: nat, name: string)
    requires i < |keys|
  {
    IsSubSymbol(name, keys[i])
  }

  predicate Above(keys: seq<string>, i: nat, name: string)
    requires i < |keys|
  {
    Less(name, keys[i])
  }

  lemma ConsKeepsSorted(name: string, keys: seq<string>)
    requires Sorted(keys) && forall i | 0 <= i < |keys| :: Above(keys, i, name)
    ensures Sorted([name] + keys)
  {
    forall i, j | 0 <= i < j < |keys| + 1 ensures InOrder([name] + keys, i, j) {
      assert if i > 0 then InOrder(keys, i - 1, j - 1) else Above(keys, j - 1, name);
    }
  }

  predicate Below(keys: seq<string>, i: nat, name: string)
    requires i < |keys|
  {
    Less(keys[i], name)
  }

  /** upper_bound: the first key greater than `name`. */
  function UpperBound(keys: seq<string>, name: string): (u: nat)
    ensures u <= |keys|
    ensures forall i | 0 <= i < u :: !Above(keys, i, name)
    ensures u < |keys| ==> Above(keys, u, name)
  {
    FirstAbove(keys, name, 0)
  }

  function FirstAbove(keys: seq<string>, name: string, k: nat): (u: nat)
    requires k <= |keys|
    requires forall i | 0 <= i < k :: !Above(keys, i, name)
    ensures k <= u <= |keys|
    ensures forall i | 0 <= i < u :: !Above(keys, i, name)
    ensures u < |keys| ==> Above(keys, u, name)
    decreases |keys| - k
  {
    if k == |keys| || Above(keys, k, name) then k else FirstAbove(keys, name, k + 1)
  }

  /** FindLastLessOrEqual: |keys| stands for end(). */
  function FindLastLessOrEqual(keys: seq<string>, name: string): (i: nat)
    ensures i <= |keys|
  {
    var u := UpperBound(keys, name);
    if u != 0 then u - 1 else u
  }

  /** The probe of FindSymbol. */
  function Probe(keys: seq<string>, name: string): Option<nat> {
    var i := FindLastLessOrEqual(keys, name);
    if i < |keys| && IsSubSymbol(keys[i], name) then Some(i) else None
  }

  lemma AboveFrom(keys: seq<string>, name: string, i: nat)
    requires Sorted(keys) && UpperBound(keys, name) <= i < |keys|
    ensures Above(keys, i, name)
  {
    var u := UpperBound(keys, name);
    if u < i {
      assert InOrder(keys, u, i);
      LessTransitive(name, keys[u], keys[i]);
    }
  }

  /** The key that covers a name, if there is one, is the last that is not above it. */
  lemma CoverIsLast(keys: seq<string>, name: string, i: nat)
    requires Sorted(keys) && AllValid(keys) && NoPairs(keys) && i < |keys| && Covers(keys, i, name)
    ensures UpperBound(keys, name) == i + 1
  {
    var u := UpperBound(keys, name);
    SubSymbolAtMost(keys[i], name);
    if u <= i {
      AboveFrom(keys, name, i);
    } else if i + 1 < u {
      assert InOrder(keys, i, i + 1) && ValidKey(keys, i + 1) && !Above(keys, i + 1, name);
      assert Unrelated(keys, i, i + 1);
      LessTotal(keys[i], keys[i + 1]);
      NothingBetween(keys[i], keys[i + 1], name);
    }
  }

  /** One probe answers like a scan of all keys for the one that is the name or its parent. */
  lemma ProbeIsScan(keys: seq<string>, name: string)
    requires Sorted(keys) && AllValid(keys) && NoPairs(keys)
    ensures match Probe(keys, name)
            case Some(k) => k < |keys| && forall i | 0 <= i < |keys| :: Covers(keys, i, name) <==> i == k
            case None => forall i | 0 <= i < |keys| :: !Covers(keys, i, name)
  {
    forall i | 0 <= i < |keys| && Covers(keys, i, name) ensures Probe(keys, name) == Some(i) {
      CoverIsLast(keys, name, i);
    }
    match Probe(keys, name) {
      case Some(k) => assert Covers(keys, k, name);
      case None =>
    }
  }

  /** A key itself is always found. */
  lemma ProbeFindsKey(keys: seq<string>, i: nat)
    requires Sorted(keys) && i < |keys|
    ensures Probe(keys, keys[i]) == Some(i)
  {
    LessIrreflexive(keys[i]);
    assert !Above(keys, i, keys[i]);
    forall k | i < k < |keys| ensures Above(keys, k, keys[i]) {
      assert InOrder(keys, i, k);
    }
    var u := UpperBound(keys, keys[i]);
    if u <= i {
      AboveFrom(keys, keys[i], i);
    }
    assert u > i && (i + 1 < |keys| ==> Above(keys, i + 1, keys[i]));
    assert u == i + 1;
  }

  // ----- Lost lookups ---------------------------------------------------------------------------

  predicate FoundIfCovered(keys: seq<string>, name: string, i: nat)
    requires i < |keys|
  {
    Covers(keys, i, name) ==> Probe(keys, name).Some?
  }

  function Underscores(n: nat): string { seq(n, _ => '_') }

  lemma ParentOfLonger(a: string, b: string, tail: string)
    requires IsSubSymbol(a, b) && a != b
    ensures IsSubSymbol(a, b + tail)
  {
    assert (b + tail)[..|a|] == b[..|a|];
  }

  /** What covers a name and a tail without dots is the whole, or lies within the name. */
  lemma CoversNoTail(m: string, name: string, n: nat)
    requires IsSubSymbol(m, name + Underscores(n))
    ensures m == name + Underscores(n) || (|m| < |name| && m == name[..|m|])
  {
    var long := name + Underscores(n);
    assert forall k | |name| <= k < |long| :: long[k] == '_';
    assert forall k | 0 <= k < |name| :: long[..k] == name[..k];
  }

  /** A name that is not below key j is found only if some key from j on covers it. */
  lemma ProbeMisses(keys: seq<string>, name: string, j: nat)
    requires Sorted(keys) && j < |keys| && !Less(name, keys[j])
    requires forall k | j <= k < |keys| :: !Covers(keys, k, name)
    ensures Probe(keys, name) == None
  {
    var u := UpperBound(keys, name);
    if u <= j {
      AboveFrom(keys, name, j);
    }
    assert u > j && !Covers(keys, u - 1, name);
  }

  lemma LaterDoesNotCover(keys: seq<string>, j: nat, k: nat, n: nat)
    requires Sorted(keys) && j <= k < |keys| && |keys[k]| < n
    ensures !IsSubSymbol(keys[k], keys[j] + Underscores(n))
  {
    var m, child := keys[k], keys[j];
    LastIsAtLeast(keys, j, k);
    if IsSubSymbol(m, child + Underscores(n)) {
      CoversNoTail(m, child, n);
      ProperPrefixLess(m, child);
    }
  }

  predicate Shorter(keys: seq<string>, k: nat, n: nat)
    requires k < |keys|
  {
    |keys[k]| < n
  }

  /** Where a key is the parent of another, a long enough name that starts with the child is covered
      by the parent and not found. */
  lemma PairLosesName(keys: seq<string>, i: nat, j: nat, n: nat)
    requires Sorted(keys) && i < |keys| && j < |keys| && i != j && IsSubSymbol(keys[i], keys[j])
    requires forall k | 0 <= k < |keys| :: Shorter(keys, k, n)
    ensures !FoundIfCovered(keys, keys[j] + Underscores(n), i)
  {
    var name := keys[j] + Underscores(n);
    DistinctKeys(keys, i, j);
    ParentOfLonger(keys[i], keys[j], Underscores(n));
    LessThanExtended(keys[j], Underscores(n));
    forall k | j <= k < |keys| ensures !Covers(keys, k, name) {
      assert Shorter(keys, k, n);
      LaterDoesNotCover(keys, j, k, n);
    }
    ProbeMisses(keys, name, j);
  }

  lemma DistinctKeys(keys: seq<string>, i: nat, j: nat)
    requires Sorted(keys) && i < |keys| && j < |keys| && i != j
    ensures keys[i] != keys[j]
  {
    LessIrreflexive(keys[i]);
    assert InOrder(keys, if i < j then i else j, if i < j then j else i);
  }

  lemma LastIsAtLeast(keys: seq<string>, j: nat, k: nat)
    requires Sorted(keys) && j <= k < |keys|
    ensures !Less(keys[k], keys[j])
  {
    LessTotal(keys[k], keys[j]);
    LessIrreflexive(keys[k]);
    if j < k {
      assert InOrder(keys, j, k);
    }
  }

  lemma {:induction false} ProperPrefixLess(a: string, b: string)
    requires |a| < |b| && a == b[..|a|]
    ensures Less(a, b)
  {
    if |a| > 0 {
      assert a[1..] == b[1..][..|a| - 1];
      ProperPrefixLess(a[1..], b[1..]);
    }
  }

  lemma MoreThanAll(keys: seq<string>) returns (n: nat)
    ensures forall k | 0 <= k < |keys| :: Shorter(keys, k, n)
  {
    n := 0;
    for i := 0 to |keys|
      invariant forall k | 0 <= k < i :: Shorter(keys, k, n)
    {
      var was := n;
      n := was + |keys[i]| + 1;
      forall k | 0 <= k < i + 1 ensures Shorter(keys, k, n) {
        assert k < i ==> Shorter(keys, k, was);
      }
    }
  }

  /** Every name that some key covers is found exactly when no key is the parent of another. */
  lemma FindsAllExactly(keys: seq<string>)
    requires Sorted(keys) && AllValid(keys)
    ensures (forall name, i | 0 <= i < |keys| :: FoundIfCovered(keys, name, i)) <==> NoPairs(keys)
  {
    if NoPairs(keys) {
      forall name, i | 0 <= i < |keys| ensures FoundIfCovered(keys, name, i) {
        ProbeIsScan(keys, name);
      }
    } else {
      var i, j :| 0 <= i < |keys| && 0 <= j < |keys| && i != j && !Unrelated(keys, i, j);
      var n := MoreThanAll(keys);
      PairLosesName(keys, i, j, n);
    }
  }

  // ----- Adding a name --------------------------------------------------------------------------

  /** CheckForMutualSubsymbols, with the iterator at key i. */
  predicate CheckForMutualSubsymbols(keys: seq<string>, i: nat, name: string)
    requires i <= |keys|
  {
    i == |keys| || (
      && !IsSubSymbol(keys[i], name)
      && (i + 1 == |keys| || !IsSubSymbol(name, keys[i + 1])))
  }

  /** The checks of AddSymbol on one sorted list. */
  predicate Admits(keys: seq<string>, name: string) {
    CheckForMutualSubsymbols(keys, FindLastLessOrEqual(keys, name), name)
  }

  predicate BelowAll(keys: seq<string>, name: string) {
    |keys| > 0 && Less(name, keys[0])
  }

  predicate Conflicts(keys: seq<string>, i: nat, name: string)
    requires i < |keys|
  {
    Covers(keys, i, name) || Under(keys, i, name)
  }

  /** The keys under a name start right after it. */
  lemma UnderIsNext(keys: seq<string>, name: string, i: nat, j: nat)
    requires Sorted(keys) && AllValid(keys) && i < |keys| && Under(keys, i, name) && keys[i] != name
    requires UpperBound(keys, name) <= j <= i
    ensures Under(keys, j, name)
  {
    AboveFrom(keys, name, j);
    LessTotal(name, keys[j]);
    if j < i {
      assert InOrder(keys, j, i);
      LessTotal(keys[j], keys[i]);
    } else {
      LessIrreflexive(keys[i]);
    }
    assert ValidKey(keys, j);
    NothingBetween(name, keys[j], keys[i]);
  }

  /** A name that does not sort below every key is admitted exactly when it conflicts with no key. */
  lemma AdmitsExactly(keys: seq<string>, name: string)
    requires Sorted(keys) && AllValid(keys) && NoPairs(keys) && !BelowAll(keys, name)
    ensures Admits(keys, name) <==> forall i | 0 <= i < |keys| :: !Conflicts(keys, i, name)
  {
    var u := UpperBound(keys, name);
    assert |keys| > 0 ==> u > 0;
    if |keys| > 0 {
      forall i | 0 <= i < |keys| && Conflicts(keys, i, name) ensures !Admits(keys, name) {
        if Covers(keys, i, name) {
          CoverIsLast(keys, name, i);
        } else {
          SubSymbolAtMost(name, keys[i]);
          assert Above(keys, i, name);
          UnderIsNext(keys, name, i, u);
        }
      }
      assert Conflicts(keys, u - 1, name) <==> Covers(keys, u - 1, name) || Under(keys, u - 1, name);
      assert u < |keys| ==> (Under(keys, u, name) ==> Conflicts(keys, u, name));
    }
  }

  /** A name that sorts below every key is admitted exactly when at most one key is under it: the
      first key, and no other, escapes the check. */
  lemma AdmitsBelowAll(keys: seq<string>, name: string)
    requires Sorted(keys) && AllValid(keys) && BelowAll(keys, name)
    ensures Admits(keys, name) <==> forall i | 1 <= i < |keys| :: !Under(keys, i, name)
    ensures Admits(keys, name) <==>
            forall i, j | 0 <= i < |keys| && 0 <= j < |keys| && Under(keys, i, name) && Under(keys, j, name) :: i == j
    ensures forall i | 0 <= i < |keys| :: !Covers(keys, i, name)
  {
    assert Above(keys, 0, name);
    assert UpperBound(keys, name) == 0;
    forall i | 0 <= i < |keys| ensures Above(keys, i, name) && !Covers(keys, i, name) && keys[i] != name {
      AboveFrom(keys, name, i);
      LessIrreflexive(name);
      if Covers(keys, i, name) {
        SubSymbolAtMost(keys[i], name);
      }
    }
    assert !Covers(keys, 0, name);
    forall i | 1 <= i < |keys| && Under(keys, i, name) ensures Under(keys, 0, name) && Under(keys, 1, name) {
      UnderIsNext(keys, name, i, 0);
      UnderIsNext(keys, name, i, 1);
    }
    assert Admits(keys, name) <==> |keys| == 1 || !Under(keys, 1, name);
  }

  /** Both cases together: a name is admitted exactly when no key conflicts with it but perhaps the
      first, and that only if the name sorts below every key. */
  lemma AdmitsWhatEscapes(keys: seq<string>, name: string)
    requires Sorted(keys) && AllValid(keys) && NoPairs(keys)
    ensures Admits(keys, name) <==>
            forall i | 0 <= i < |keys| && Conflicts(keys, i, name) :: BelowAll(keys, name) && i == 0
  {
    if BelowAll(keys, name) {
      AdmitsBelowAll(keys, name);
      forall i | 0 <= i < |keys| ensures Conflicts(keys, i, name) <==> Under(keys, i, name) {
        assert !Covers(keys, i, name);
      }
    } else {
      AdmitsExactly(keys, name);
    }
  }

  /** The list with a name put where its order says. */
  function Inserted<T>(s: seq<T>, k: nat, x: T): seq<T>
    requires k <= |s|
  {
    s[..k] + [x] + s[k..]
  }

  function InsertKey(keys: seq<string>, name: string): seq<string> { Inserted(keys, UpperBound(keys, name), name) }

  lemma InsertKeepsSorted(keys: seq<string>, name: string)
    requires Sorted(keys) && forall i | 0 <= i < |keys| :: !Same(keys, i, name)
    ensures Sorted(InsertKey(keys, name))
  {
    var u, keys' := UpperBound(keys, name), InsertKey(keys, name);
    forall i, j | 0 <= i < j < |keys'| ensures InOrder(keys', i, j) {
      var i0, j0 := if i < u then i else i - 1, if j < u then j else j - 1;
      if i == u {
        AboveFrom(keys, name, j0);
      } else if j == u {
        assert !Same(keys, i0, name) && !Above(keys, i0, name);
        LessTotal(keys[i0], name);
      } else {
        assert InOrder(keys, i0, j0);
      }
    }
  }

  predicate Same(keys: seq<string>, i: nat, name: string)
    requires i < |keys|
  {
    keys[i] == name
  }

  lemma InsertKeepsValid(keys: seq<string>, name: string)
    requires AllValid(keys) && ValidateSymbolName(name)
    ensures AllValid(InsertKey(keys, name))
  {
    var u, keys' := UpperBound(keys, name), InsertKey(keys, name);
    forall i | 0 <= i < |keys'| ensures ValidKey(keys', i) {
      assert i < u ==> ValidKey(keys, i);
      assert i > u ==> ValidKey(keys, i - 1);
    }
  }

  /** Inserting keeps the no-pairs property exactly when the name conflicts with no key. */
  lemma InsertKeepsNoPairs(keys: seq<string>, name: string)
    requires NoPairs(keys)
    ensures NoPairs(InsertKey(keys, name)) <==> forall i | 0 <= i < |keys| :: !Conflicts(keys, i, name)
  {
    var u, keys' := UpperBound(keys, name), InsertKey(keys, name);
    if NoPairs(keys') {
      forall i | 0 <= i < |keys| ensures !Conflicts(keys, i, name) {
        var i' := if i < u then i else i + 1;
        assert Unrelated(keys', i', u) && Unrelated(keys', u, i');
      }
    }
    if forall i | 0 <= i < |keys| :: !Conflicts(keys, i, name) {
      forall i, j | 0 <= i < |keys'| && 0 <= j < |keys'| && i != j ensures Unrelated(keys', i, j) {
        var i0, j0 := if i < u then i else i - 1, if j < u then j else j - 1;
        assert i != u && j != u ==> Unrelated(keys, i0, j0);
        assert i == u ==> !Conflicts(keys, j0, name);
        assert j == u ==> !Conflicts(keys, i0, name);
      }
    }
  }

  /** The one way in which AddSymbol breaks the no-pairs property: the name sorts below every key and
      is the parent of the first. */
  lemma AdmittedKeepsNoPairs(keys: seq<string>, name: string)
    requires Sorted(keys) && AllValid(keys) && NoPairs(keys) && Admits(keys, name)
    ensures NoPairs(InsertKey(keys, name)) <==> !(BelowAll(keys, name) && IsSubSymbol(name, keys[0]))
  {
    InsertKeepsNoPairs(keys, name);
    if BelowAll(keys, name) {
      AdmitsBelowAll(keys, name);
      assert Conflicts(keys, 0, name) <==> Covers(keys, 0, name) || Under(keys, 0, name);
      forall i | 1 <= i < |keys| ensures !Conflicts(keys, i, name) {
        assert !Under(keys, i, name) && !Covers(keys, i, name);
      }
    } else {
      AdmitsExactly(keys, name);
    }
  }

  lemma AdmittedIsNew(keys: seq<string>, name: string)
    requires Sorted(keys) && Admits(keys, name)
    ensures forall i | 0 <= i < |keys| :: !Same(keys, i, name)
  {
    var u := UpperBound(keys, name);
    forall i | 0 <= i < |keys| ensures !Same(keys, i, name) {
      LessIrreflexive(name);
      if i >= u {
        AboveFrom(keys, name, i);
      } else if i + 1 < u {
        assert InOrder(keys, i, u - 1) && !Above(keys, u - 1, name);
      }
    }
  }

  /** For instance, after "a.b" the name "a" is admitted, and then "a.z" is not found. */
  lemma ParentAfterChildIsLost()
    ensures var keys := InsertKey(["a.b"], "a");
            && Admits(["a.b"], "a") && keys == ["a", "a.b"]
            && IsSubSymbol(keys[0], "a.z") && Probe(keys, "a.z") == None
  {
    assert BelowAll(["a.b"], "a");
    var keys := ["a", "a.b"];
    assert !Above(keys, 0, "a.z");
    assert "a.b"[1..] == ".b" && "a.z"[1..] == ".z" && ".b"[1..] == "b" && ".z"[1..] == "z";
    assert Less(".b", ".z") && Less("a.b", "a.z");
    LessTotal("a.b", "a.z");
    assert !Above(keys, 1, "a.z");
    assert UpperBound(keys, "a.z") == 2;
  }
}
