/**
 What is added to the encoded database is found: the file by its name, the symbols by their full
 names, and the extensions; the extensions with their history of attempts.
 */
module EncodedLaws {
  import opened Options
  import opened SymbolNames
  import opened Descriptors
  import opened EncodedSymbols
  import opened EncodedKeys
  import opened EncodedIndex
  import SymbolCompare

  // ----- Histories grow ---------------------------------------------------------------------------

  /** Values and accepted symbols are only appended. */
  predicate GrowsTo(ix: Index, ix': Index) { ix.values <= ix'.values && ix.accepted <= ix'.accepted }

  /** The file at its place, its name tried, and nothing else. */
  function Entered(ix: Index, file: File): Index {
    ix.(values := ix.values + [EncodedEntry(file, file.package)],
        files := TryInsert(ix.files, file.name, |ix.values|).0)
  }

  lemma AddFileGrows(ix: Index, file: File)
    ensures GrowsTo(ix, AddFileTo(ix, file).0)
    ensures |AddFileTo(ix, file).0.values| == |ix.values| + 1
    ensures AddFileTo(ix, file).0.values[|ix.values|].file == file
  {
    if ValidateSymbolName(file.package) {
      AcceptsInOrder(Entered(ix, file), Declared(file, ""));
      AddDeclsKeepsFiles(Entered(ix, file), Declared(file, ""));
    }
  }

  lemma SuccessIs(ix: Index, file: File)
    requires AddFileTo(ix, file).1
    ensures AddFileTo(ix, file) == AddDecls(Entered(ix, file), Declared(file, ""))
    ensures AddFileTo(ix, file).0.values == ix.values + [EncodedEntry(file, file.package)]
  {
    AddDeclsKeepsFiles(Entered(ix, file), Declared(file, ""));
  }

  lemma NextFile(ix: Index, files: seq<File>, k: nat)
    requires k < |files|
    ensures AddAll(ix, files[..k + 1]) == AddFileTo(AddAll(ix, files[..k]), files[k]).0
  {
    assert files[..k + 1][..k] == files[..k];
  }

  lemma NextRound(rounds: seq<seq<File>>, r: nat)
    requires r < |rounds|
    ensures AfterFiles(rounds[..r + 1]) == Flattened(AddAll(AfterFiles(rounds[..r]), rounds[r]))
  {
    assert rounds[..r + 1][..r] == rounds[..r];
  }

  lemma {:induction false} AddAllGrows(ix: Index, files: seq<File>, k: nat)
    requires k <= |files|
    ensures GrowsTo(AddAll(ix, files[..k]), AddAll(ix, files))
    decreases |files| - k
  {
    if k < |files| {
      NextFile(ix, files, k);
      AddFileGrows(AddAll(ix, files[..k]), files[k]);
      AddAllGrows(ix, files, k + 1);
    } else {
      assert files[..k] == files;
    }
  }

  lemma {:induction false} RoundsGrow(rounds: seq<seq<File>>, r: nat)
    requires r <= |rounds|
    ensures GrowsTo(AfterFiles(rounds[..r]), AfterFiles(rounds))
    decreases |rounds| - r
  {
    if r < |rounds| {
      NextRound(rounds, r);
      AddAllGrows(AfterFiles(rounds[..r]), rounds[r], 0);
      RoundsGrow(rounds, r + 1);
    } else {
      assert rounds[..r] == rounds;
    }
  }

  /** File k of round r, when its turn comes. */
  function Before(rounds: seq<seq<File>>, r: nat, k: nat): Index
    requires r < |rounds| && k < |rounds[r]|
  {
    AddAll(AfterFiles(rounds[..r]), rounds[r][..k])
  }

  /** It was added without a refusal. */
  predicate Succeeds(rounds: seq<seq<File>>, r: nat, k: nat)
    requires r < |rounds| && k < |rounds[r]|
  {
    AddFileTo(Before(rounds, r, k), rounds[r][k]).1
  }

  lemma BeforeGrows(rounds: seq<seq<File>>, r: nat, k: nat)
    requires r < |rounds| && k < |rounds[r]|
    ensures GrowsTo(AddFileTo(Before(rounds, r, k), rounds[r][k]).0, AfterFiles(rounds))
  {
    var before, files := AfterFiles(rounds[..r]), rounds[r];
    NextFile(before, files, k);
    AddAllGrows(before, files, k + 1);
    NextRound(rounds, r);
    RoundsGrow(rounds, r + 1);
  }

  // ----- Symbols ----------------------------------------------------------------------------------

  lemma {:induction false} SymbolListed(ds: seq<Decl>, offset: nat, name: string)
    requires Symbol(name) in ds
    ensures SymbolEntry(offset, name) in SymbolsOf(ds, offset)
  {
    if ds[0] != Symbol(name) {
      SymbolListed(ds[1..], offset, name);
    }
  }

  /** A successful AddFile accepts all names that the file declares, as those of the file's place. */
  lemma SuccessAccepts(ix: Index, file: File, name: string)
    requires AddFileTo(ix, file).1 && Declares(file, name)
    ensures var ix' := AddFileTo(ix, file).0;
            && SymbolEntry(|ix.values|, name) in ix'.accepted
            && ix'.values == ix.values + [EncodedEntry(file, file.package)]
  {
    SuccessIs(ix, file);
    DeclaredExactly(file, "", name, "", 0);
    assert "" + name == name;
    DeclIsAccepted(Entered(ix, file), Declared(file, ""), name);
  }

  lemma DeclIsAccepted(ix: Index, ds: seq<Decl>, name: string)
    requires AddDecls(ix, ds).1 && Symbol(name) in ds
    ensures SymbolEntry(Offset(ix.values), name) in AddDecls(ix, ds).0.accepted
  {
    SymbolListed(ds, Offset(ix.values), name);
    AcceptsInOrder(ix, ds);
    var e := SymbolEntry(Offset(ix.values), name);
    assert e in AddDecls(ix, ds).0.accepted[|ix.accepted|..];
  }

  /** The full name of each message, enum type, extension and service of a file that was added is found
      as that file, after any interleaving on which no AddSymbol missed a child. */
  lemma AddedSymbolIsFound(rounds: seq<seq<File>>, r: nat, k: nat, name: string)
    requires r < |rounds| && k < |rounds[r]| && Succeeds(rounds, r, k) && Declares(rounds[r][k], name)
    requires !HidesInRounds(rounds)
    ensures Lookup(AfterFiles(rounds), QualifiedName(rounds[r][k], name)) == Some(rounds[r][k])
  {
    var file, before, ix := rounds[r][k], Before(rounds, r, k), AfterFiles(rounds);
    SuccessAccepts(before, file, name);
    BeforeGrows(rounds, r, k);
    var e := SymbolEntry(|before.values|, name);
    assert ix.values[e.offset] == EncodedEntry(file, file.package);
    assert Holds(ix, e, QualifiedName(file, name), file);
    RoundsSeparateExactly(rounds);
    ReachableIsGood(rounds, []);
    assert AddAll(AfterFiles(rounds), []) == ix;
    LookupIsScan(ix, QualifiedName(file, name), file);
  }

  // ----- Files by name ----------------------------------------------------------------------------

  lemma {:induction false} OriginalStaysInFiles(ix: Index, files: seq<File>, k: nat, name: string)
    requires k <= |files| && Original(AddAll(ix, files[..k]).files, name).Some?
    ensures Original(AddAll(ix, files).files, name) == Original(AddAll(ix, files[..k]).files, name)
    decreases |files| - k
  {
    if k < |files| {
      NextFile(ix, files, k);
      var before := AddAll(ix, files[..k]);
      FilesAfterAdd(before, files[k]);
      OriginalStays(before.files, files[k].name, |before.values|, name);
      OriginalStaysInFiles(ix, files, k + 1, name);
    } else {
      assert files[..k] == files;
    }
  }

  lemma {:induction false} OriginalStaysInRounds(rounds: seq<seq<File>>, r: nat, name: string)
    requires r <= |rounds| && Original(AfterFiles(rounds[..r]).files, name).Some?
    ensures Original(AfterFiles(rounds).files, name) == Original(AfterFiles(rounds[..r]).files, name)
    decreases |rounds| - r
  {
    if r < |rounds| {
      var before := AfterFiles(rounds[..r]);
      OriginalStaysInFiles(before, rounds[r], 0, name);
      OriginalFlattened(AddAll(before, rounds[r]).files, name);
      NextRound(rounds, r);
      OriginalStaysInRounds(rounds, r + 1, name);
    } else {
      assert rounds[..r] == rounds;
    }
  }

  /** The place of a file that was added is the accepted one of its name. */
  lemma AddedIsOriginal(rounds: seq<seq<File>>, r: nat, k: nat)
    requires r < |rounds| && k < |rounds[r]| && Succeeds(rounds, r, k)
    ensures Original(AfterFiles(rounds).files, rounds[r][k].name) == Some(|Before(rounds, r, k).values|)
  {
    var before, start, files, name := Before(rounds, r, k), AfterFiles(rounds[..r]), rounds[r], rounds[r][k].name;
    FilesAfterAdd(before, rounds[r][k]);
    OriginalStays(before.files, name, |before.values|, name);
    NextFile(start, files, k);
    OriginalStaysInFiles(start, files, k + 1, name);
    OriginalFlattened(AddAll(start, files).files, name);
    NextRound(rounds, r);
    OriginalStaysInRounds(rounds, r + 1, name);
  }

  /** A file that was added, and whose name no other round tried, is found by its name. */
  lemma AddedFileIsFound(rounds: seq<seq<File>>, r: nat, k: nat)
    requires r < |rounds| && k < |rounds[r]| && Succeeds(rounds, r, k) && TriedOnce(rounds, rounds[r][k].name)
    ensures FileNamed(AfterFiles(rounds), rounds[r][k].name) == Some(rounds[r][k])
  {
    var before, ix, file := Before(rounds, r, k), AfterFiles(rounds), rounds[r][k];
    AddedIsOriginal(rounds, r, k);
    FilesAfterRounds(rounds);
    OriginalIsAccepted(Attempts(rounds), file.name);
    FindsAcceptedFileExactly(rounds, file.name);
    BeforeGrows(rounds, r, k);
    AddFileGrows(before, file);
  }

  // ----- Extensions: the attempts ------------------------------------------------------------------

  type Key = (string, int)

  /** The attempts to insert extensions while adding `ds`: those declared, up to the first refusal. */
  function Tried(ix: Index, ds: seq<Decl>): seq<Attempt<Key>>
    decreases |ds|
  {
    if |ds| == 0 then []
    else
      var (next, ok) := AddDecl(ix, ds[0]);
      (if ds[0].Extension? then [Attempt((ds[0].extendee, ds[0].number), Offset(ix.values))] else [])
      + if ok then Tried(next, ds[1..]) else []
  }

  function TriedInFile(ix: Index, file: File): seq<Attempt<Key>> {
    if !ValidateSymbolName(file.package) || !TryInsert(ix.files, file.name, |ix.values|).1 then []
    else Tried(Entered(ix, file), Declared(file, ""))
  }

  function TriedInFiles(ix: Index, files: seq<File>): seq<Attempt<Key>> {
    if |files| == 0 then []
    else
      var n := |files| - 1;
      TriedInFiles(ix, files[..n]) + TriedInFile(AddAll(ix, files[..n]), files[n])
  }

  function TriedInRounds(rounds: seq<seq<File>>): seq<seq<Attempt<Key>>> {
    if |rounds| == 0 then []
    else
      var n := |rounds| - 1;
      TriedInRounds(rounds[..n]) + [TriedInFiles(AfterFiles(rounds[..n]), rounds[n])]
  }

  lemma {:induction false} InsertAllConcat(s: Keyed<Key>, a: seq<Attempt<Key>>, b: seq<Attempt<Key>>)
    ensures InsertAll(s, a + b) == InsertAll(InsertAll(s, a), b)
  {
    if |b| == 0 {
      assert a + b == a;
    } else {
      InsertAllConcat(s, a, b[..|b| - 1]);
      assert (a + b)[..|a + b| - 1] == a + b[..|b| - 1];
    }
  }

  lemma InsertOne(s: Keyed<Key>, x: Attempt<Key>)
    ensures InsertAll(s, [x]) == TryInsert(s, x.key, x.offset).0
  {
    assert [x][..0] == [];
  }

  lemma {:induction false} ExtensionsAfterDecls(ix: Index, ds: seq<Decl>)
    ensures AddDecls(ix, ds).0.extensions == InsertAll(ix.extensions, Tried(ix, ds))
    decreases |ds|
  {
    if |ds| > 0 {
      var (next, ok) := AddDecl(ix, ds[0]);
      if ds[0].Extension? {
        var x := Attempt((ds[0].extendee, ds[0].number), Offset(ix.values));
        InsertOne(ix.extensions, x);
        if ok {
          ExtensionsAfterDecls(next, ds[1..]);
          InsertAllConcat(ix.extensions, [x], Tried(next, ds[1..]));
        }
      } else if ok {
        ExtensionsAfterDecls(next, ds[1..]);
        assert [] + Tried(next, ds[1..]) == Tried(next, ds[1..]);
      }
    }
  }

  lemma ExtensionsAfterFile(ix: Index, file: File)
    ensures AddFileTo(ix, file).0.extensions == InsertAll(ix.extensions, TriedInFile(ix, file))
  {
    if ValidateSymbolName(file.package) {
      ExtensionsAfterDecls(Entered(ix, file), Declared(file, ""));
    }
  }

  lemma {:induction false} ExtensionsAfterFiles(ix: Index, files: seq<File>)
    ensures AddAll(ix, files).extensions == InsertAll(ix.extensions, TriedInFiles(ix, files))
  {
    if |files| > 0 {
      var n := |files| - 1;
      ExtensionsAfterFiles(ix, files[..n]);
      ExtensionsAfterFile(AddAll(ix, files[..n]), files[n]);
      InsertAllConcat(ix.extensions, TriedInFiles(ix, files[..n]), TriedInFile(AddAll(ix, files[..n]), files[n]));
    }
  }

  /** The extensions kept are those that any rounds of attempts leave. */
  lemma {:induction false} ExtensionsAfterRounds(rounds: seq<seq<File>>)
    ensures AfterFiles(rounds).extensions == AfterRounds(TriedInRounds(rounds))
    ensures |TriedInRounds(rounds)| == |rounds|
  {
    if |rounds| > 0 {
      var n := |rounds| - 1;
      ExtensionsAfterRounds(rounds[..n]);
      ExtensionsAfterFiles(AfterFiles(rounds[..n]), rounds[n]);
      assert TriedInRounds(rounds)[..n] == TriedInRounds(rounds[..n]);
    }
  }

  lemma {:induction false} TriedByRound(rounds: seq<seq<File>>, r: nat)
    requires r < |rounds|
    ensures |TriedInRounds(rounds)| == |rounds|
    ensures TriedInRounds(rounds)[r] == TriedInFiles(AfterFiles(rounds[..r]), rounds[r])
  {
    ExtensionsAfterRounds(rounds);
    ExtensionsAfterRounds(rounds[..r]);
    assert rounds[..r + 1][..r] == rounds[..r];
    TriedGrows(rounds, r + 1);
  }

  lemma {:induction false} TriedGrows(rounds: seq<seq<File>>, r: nat)
    requires r <= |rounds|
    ensures TriedInRounds(rounds[..r]) <= TriedInRounds(rounds)
    decreases |rounds| - r
  {
    if r < |rounds| {
      assert rounds[..r + 1][..r] == rounds[..r];
      TriedGrows(rounds, r + 1);
    } else {
      assert rounds[..r] == rounds;
    }
  }

  // ----- Extensions: what is found -----------------------------------------------------------------

  /** All offsets of the attempts lie between two bounds. */
  predicate Within(attempts: seq<Attempt<Key>>, lo: nat, hi: nat) {
    forall x | x in attempts :: lo <= x.offset < hi
  }

  lemma {:induction false} TriedWithin(ix: Index, ds: seq<Decl>)
    ensures Within(Tried(ix, ds), Offset(ix.values), Offset(ix.values) + 1)
    decreases |ds|
  {
    if |ds| > 0 && AddDecl(ix, ds[0]).1 {
      AcceptsOne(ix, ds[0]);
      TriedWithin(AddDecl(ix, ds[0]).0, ds[1..]);
    }
  }

  lemma {:induction false} FilesWithin(ix: Index, files: seq<File>)
    ensures |AddAll(ix, files).values| == |ix.values| + |files|
    ensures Within(TriedInFiles(ix, files), |ix.values|, |ix.values| + |files|)
  {
    if |files| > 0 {
      var n := |files| - 1;
      FilesWithin(ix, files[..n]);
      FileWithin(AddAll(ix, files[..n]), files[n]);
    }
  }

  lemma FileWithin(ix: Index, file: File)
    ensures |AddFileTo(ix, file).0.values| == |ix.values| + 1
    ensures Within(TriedInFile(ix, file), |ix.values|, |ix.values| + 1)
  {
    AddFileGrows(ix, file);
    if ValidateSymbolName(file.package) {
      TriedWithin(Entered(ix, file), Declared(file, ""));
    }
  }

  lemma {:induction false} FirstWithin(attempts: seq<Attempt<Key>>, key: Key, lo: nat, hi: nat)
    requires Within(attempts, lo, hi)
    ensures FirstOf(attempts, key).Some? ==> lo <= FirstOf(attempts, key).value < hi
  {
    if |attempts| > 0 && attempts[0].key != key {
      FirstWithin(attempts[1..], key, lo, hi);
    }
  }

  lemma {:induction false} PlacesGrow(rounds: seq<seq<File>>, i: nat, j: nat)
    requires i <= j <= |rounds|
    ensures |AfterFiles(rounds[..i]).values| <= |AfterFiles(rounds[..j]).values|
  {
    assert rounds[..j][..i] == rounds[..i];
    RoundsGrow(rounds[..j], i);
  }

  lemma RoundOffsets(rounds: seq<seq<File>>, r: nat, key: Key)
    requires r < |rounds|
    ensures |TriedInRounds(rounds)| == |rounds|
    ensures var first := FirstOf(TriedInRounds(rounds)[r], key);
            first.Some? ==> |AfterFiles(rounds[..r]).values| <= first.value < |AfterFiles(rounds[..r + 1]).values|
  {
    TriedByRound(rounds, r);
    var before := AfterFiles(rounds[..r]);
    FilesWithin(before, rounds[r]);
    FirstWithin(TriedInFiles(before, rounds[r]), key, |before.values|, |before.values| + |rounds[r]|);
    NextRound(rounds, r);
  }

  lemma RoundsDiffer(rounds: seq<seq<File>>, i: nat, j: nat, key: Key)
    requires i < j < |rounds|
    ensures |TriedInRounds(rounds)| == |rounds| && OffsetsDiffer(TriedInRounds(rounds), i, j, key)
  {
    RoundOffsets(rounds, i, key);
    RoundOffsets(rounds, j, key);
    PlacesGrow(rounds, i + 1, j);
  }

  /** No two rounds tried to add the extension. */
  predicate ExtensionTriedOnce(rounds: seq<seq<File>>, key: Key) {
    var tried := TriedInRounds(rounds);
    forall i, j | 0 <= i < |tried| && 0 <= j < |tried| && Tries(tried, i, key) && Tries(tried, j, key) :: i == j
  }

  /** An extension is found as the one that was accepted exactly when no other round tried to add it. */
  lemma FindsAcceptedExtensionExactly(rounds: seq<seq<File>>, key: Key)
    ensures Found(AfterFiles(rounds).extensions, key) == Accepted(TriedInRounds(rounds), key)
            <==> ExtensionTriedOnce(rounds, key)
  {
    ExtensionsAfterRounds(rounds);
    var tried := TriedInRounds(rounds);
    forall i, j | 0 <= i < j < |tried| ensures OffsetsDiffer(tried, i, j, key) {
      RoundsDiffer(rounds, i, j, key);
    }
    FindsAcceptedExactly(tried, key);
  }

  lemma {:induction false} ExtensionStored(ix: Index, ds: seq<Decl>, extendee: string, number: int)
    requires AddDecls(ix, ds).1 && Extension(extendee, number) in ds
    ensures Original(AddDecls(ix, ds).0.extensions, (extendee, number)) == Some(Offset(ix.values))
    decreases |ds|
  {
    var next := AddDecl(ix, ds[0]).0;
    AcceptsOne(ix, ds[0]);
    if ds[0] == Extension(extendee, number) {
      OriginalStays(ix.extensions, (extendee, number), Offset(ix.values), (extendee, number));
      OriginalStaysInDecls(next, ds[1..], (extendee, number));
    } else {
      ExtensionStored(next, ds[1..], extendee, number);
    }
  }

  lemma {:induction false} OriginalStaysInDecls(ix: Index, ds: seq<Decl>, key: Key)
    requires Original(ix.extensions, key).Some?
    ensures Original(AddDecls(ix, ds).0.extensions, key) == Original(ix.extensions, key)
    decreases |ds|
  {
    if |ds| > 0 {
      if ds[0].Extension? {
        OriginalStays(ix.extensions, (ds[0].extendee, ds[0].number), Offset(ix.values), key);
      }
      if AddDecl(ix, ds[0]).1 {
        OriginalStaysInDecls(AddDecl(ix, ds[0]).0, ds[1..], key);
      }
    }
  }

  lemma ExtensionStaysInFile(ix: Index, file: File, key: Key)
    requires Original(ix.extensions, key).Some?
    ensures Original(AddFileTo(ix, file).0.extensions, key) == Original(ix.extensions, key)
  {
    if ValidateSymbolName(file.package) {
      OriginalStaysInDecls(Entered(ix, file), Declared(file, ""), key);
    }
  }

  lemma {:induction false} ExtensionStaysInFiles(ix: Index, files: seq<File>, k: nat, key: Key)
    requires k <= |files| && Original(AddAll(ix, files[..k]).extensions, key).Some?
    ensures Original(AddAll(ix, files).extensions, key) == Original(AddAll(ix, files[..k]).extensions, key)
    decreases |files| - k
  {
    if k < |files| {
      NextFile(ix, files, k);
      ExtensionStaysInFile(AddAll(ix, files[..k]), files[k], key);
      ExtensionStaysInFiles(ix, files, k + 1, key);
    } else {
      assert files[..k] == files;
    }
  }

  lemma {:induction false} ExtensionStaysInRounds(rounds: seq<seq<File>>, r: nat, key: Key)
    requires r <= |rounds| && Original(AfterFiles(rounds[..r]).extensions, key).Some?
    ensures Original(AfterFiles(rounds).extensions, key) == Original(AfterFiles(rounds[..r]).extensions, key)
    decreases |rounds| - r
  {
    if r < |rounds| {
      var before := AfterFiles(rounds[..r]);
      ExtensionStaysInFiles(before, rounds[r], 0, key);
      OriginalFlattened(AddAll(before, rounds[r]).extensions, key);
      NextRound(rounds, r);
      ExtensionStaysInRounds(rounds, r + 1, key);
    } else {
      assert rounds[..r] == rounds;
    }
  }

  lemma AddedExtensionIsOriginal(rounds: seq<seq<File>>, r: nat, k: nat, extendee: string, number: int)
    requires r < |rounds| && k < |rounds[r]| && Succeeds(rounds, r, k)
    requires Extension(extendee, number) in Declared(rounds[r][k], "")
    ensures Original(AfterFiles(rounds).extensions, (extendee, number)) == Some(|Before(rounds, r, k).values|)
  {
    var before, start, file, key := Before(rounds, r, k), AfterFiles(rounds[..r]), rounds[r][k], (extendee, number);
    SuccessIs(before, file);
    ExtensionStored(Entered(before, file), Declared(file, ""), extendee, number);
    NextFile(start, rounds[r], k);
    ExtensionStaysInFiles(start, rounds[r], k + 1, key);
    OriginalFlattened(AddAll(start, rounds[r]).extensions, key);
    NextRound(rounds, r);
    ExtensionStaysInRounds(rounds, r + 1, key);
  }

  /** An extension that a file declares, at the top level or in a message at any depth, is found as that
      file once it was added, if no other round tried to add the extension. */
  lemma AddedExtensionIsFound(rounds: seq<seq<File>>, r: nat, k: nat, extendee: string, number: int)
    requires r < |rounds| && k < |rounds[r]| && Succeeds(rounds, r, k)
    requires var file := rounds[r][k];
             SomeExtends(file.extensions, extendee, number) || AnyMessageExtends(file.messages, extendee, number)
    requires ExtensionTriedOnce(rounds, (extendee, number))
    ensures FileExtending(AfterFiles(rounds), (extendee, number)) == Some(rounds[r][k])
  {
    var key, file := (extendee, number), rounds[r][k];
    DeclaredExactly(file, "", "", extendee, number);
    AddedExtensionIsOriginal(rounds, r, k, extendee, number);
    ExtensionsAfterRounds(rounds);
    OriginalIsAccepted(TriedInRounds(rounds), key);
    FindsAcceptedExtensionExactly(rounds, key);
    BeforeGrows(rounds, r, k);
    AddFileGrows(Before(rounds, r, k), file);
  }

  // ----- What is refused --------------------------------------------------------------------------

  /** No attempt for the key was made. */
  predicate Absent<K(==)>(s: Keyed<K>, key: K) { key !in s.entries && key !in s.flat }

  predicate Differs(ds: seq<Decl>, i: nat, j: nat)
    requires i < |ds| && j < |ds|
  {
    ds[i] != ds[j]
  }

  predicate NewKey(ix: Index, ds: seq<Decl>, i: nat)
    requires i < |ds| && ds[i].Extension?
  {
    && Absent(ix.extensions, (ds[i].extendee, ds[i].number))
    && forall j | 0 <= j < i :: Differs(ds, j, i)
  }

  /** The symbols are legal, no accepted name and none of them is another one's parent or child, and the
      extensions are new. */
  ghost predicate Clear(ix: Index, ds: seq<Decl>) {
    && (forall d | d in ds && d.Symbol? :: ValidateSymbolName(d.name))
    && NoPairs(Names(ix.values, ix.accepted + SymbolsOf(ds, Offset(ix.values))))
    && NewKeys(ix, ds)
  }

  ghost predicate NewKeys(ix: Index, ds: seq<Decl>) {
    forall i | 0 <= i < |ds| && ds[i].Extension? :: NewKey(ix, ds, i)
  }

  lemma AcceptsClear(ix: Index, name: string)
    requires Good(ix) && LastIsValid(ix.values) && Separate(ix)
    ensures Accepts(ix, name) && !HidesNow(ix, name) <==>
            ValidateSymbolName(name) && NoPairs(Names(ix.values, ix.accepted + [SymbolEntry(Offset(ix.values), name)]))
  {
    var e := SymbolEntry(Offset(ix.values), name);
    var t := TermOf(ix.values, e);
    NamesWithOneMore(ix.values, ix.accepted, e);
    NoPairsWithOneMore(Names(ix.values, ix.accepted), SymbolCompare.FullName(t));
    ConflictsSplit(ix.values, ix.accepted, ix.entries, ix.flat, SymbolCompare.FullName(t));
    AcceptsExactly(ix.values, ix.accepted, ix.entries, ix.flat, t);
    if Accepts(ix, name) {
      AcceptedKeepsNoPairs(ix.values, ix.accepted, ix.entries, ix.flat, e);
    }
  }

  lemma OneClear(ix: Index, d: Decl)
    requires Good(ix) && LastIsValid(ix.values) && Separate(ix)
    ensures AddDecl(ix, d).1 && !(d.Symbol? && HidesNow(ix, d.name)) <==> Clear(ix, [d])
  {
    assert [d][1..] == [];
    if d.Symbol? {
      AcceptsClear(ix, d.name);
      assert SymbolsOf([d], Offset(ix.values)) == [SymbolEntry(Offset(ix.values), d.name)];
    } else {
      assert SymbolsOf([d], Offset(ix.values)) == [] && ix.accepted + [] == ix.accepted;
      assert AddDecl(ix, d).1 <==> NewKey(ix, [d], 0);
    }
  }

  lemma ClearSymbols(ix: Index, ds: seq<Decl>)
    requires |ds| > 0 && AddDecl(ix, ds[0]).1
    ensures var next := AddDecl(ix, ds[0]).0;
            ix.accepted + SymbolsOf(ds, Offset(ix.values)) == next.accepted + SymbolsOf(ds[1..], Offset(ix.values))
  {
    AcceptsOne(ix, ds[0]);
    var offset := Offset(ix.values);
    var first := if ds[0].Symbol? then [SymbolEntry(offset, ds[0].name)] else [];
    Associates(ix.accepted, first, SymbolsOf(ds[1..], offset));
  }

  lemma Associates(a: seq<SymbolEntry>, b: seq<SymbolEntry>, c: seq<SymbolEntry>)
    ensures a + (b + c) == a + b + c
  {
  }

  lemma DiffersTail(ds: seq<Decl>, i: nat)
    requires 0 < i < |ds|
    ensures (forall j | 0 <= j < i :: Differs(ds, j, i)) <==>
            Differs(ds, 0, i) && var k := i - 1; forall j | 0 <= j < k :: Differs(ds[1..], j, k)
  {
    var rest, k := ds[1..], i - 1;
    if forall j | 0 <= j < i :: Differs(ds, j, i) {
      forall j | 0 <= j < k ensures Differs(rest, j, k) {
        assert Differs(ds, j + 1, i);
      }
    }
    if Differs(ds, 0, i) && forall j | 0 <= j < k :: Differs(rest, j, k) {
      forall j | 0 <= j < i ensures Differs(ds, j, i) {
        assert j > 0 ==> Differs(rest, j - 1, k);
      }
    }
  }

  lemma ClearKey(ix: Index, ds: seq<Decl>, i: nat)
    requires 0 < i < |ds| && AddDecl(ix, ds[0]).1 && ds[i].Extension?
    ensures NewKey(ix, ds, i) <==> NewKey(AddDecl(ix, ds[0]).0, ds[1..], i - 1)
  {
    var key := (ds[i].extendee, ds[i].number);
    assert Absent(AddDecl(ix, ds[0]).0.extensions, key) <==> Absent(ix.extensions, key) && Differs(ds, 0, i);
    DiffersTail(ds, i);
  }

  lemma KeysSplit(ix: Index, ds: seq<Decl>)
    requires |ds| > 0 && AddDecl(ix, ds[0]).1
    ensures NewKeys(ix, ds) <==> NewKeys(AddDecl(ix, ds[0]).0, ds[1..])
  {
    var next, rest := AddDecl(ix, ds[0]).0, ds[1..];
    assert ds[0].Extension? ==> NewKey(ix, ds, 0);
    if NewKeys(next, rest) {
      forall i | 0 < i < |ds| && ds[i].Extension? ensures NewKey(ix, ds, i) {
        ClearKey(ix, ds, i);
      }
    }
    if NewKeys(ix, ds) {
      forall i | 0 <= i < |rest| && rest[i].Extension? ensures NewKey(next, rest, i) {
        ClearKey(ix, ds, i + 1);
      }
    }
  }

  lemma ClearSplit(ix: Index, ds: seq<Decl>)
    requires |ds| > 0 && AddDecl(ix, ds[0]).1 && Clear(ix, [ds[0]])
    ensures Clear(ix, ds) <==> Clear(AddDecl(ix, ds[0]).0, ds[1..])
  {
    AcceptsOne(ix, ds[0]);
    ClearSymbols(ix, ds);
    KeysSplit(ix, ds);
    assert ds[0] in [ds[0]];
    assert forall d :: d in ds <==> d == ds[0] || d in ds[1..];
  }

  lemma ClearStart(ix: Index, ds: seq<Decl>)
    requires |ds| > 0 && Clear(ix, ds)
    ensures Clear(ix, [ds[0]])
  {
    assert [ds[0]][1..] == [];
    assert ds[0] in ds;
    assert ds[0].Extension? ==> NewKey(ix, ds, 0) && NewKey(ix, [ds[0]], 0);
    var offset := Offset(ix.values);
    assert SymbolsOf([ds[0]], offset) <= SymbolsOf(ds, offset);
    NoPairsOfShorter(Names(ix.values, ix.accepted + SymbolsOf([ds[0]], offset)),
                     Names(ix.values, ix.accepted + SymbolsOf(ds, offset)));
  }

  /** Everything is added, and no child is missed on the way, exactly when all entries are clear. */
  lemma {:induction false} AddsExactly(ix: Index, ds: seq<Decl>)
    requires Good(ix) && LastIsValid(ix.values) && Separate(ix)
    ensures AddDecls(ix, ds).1 && !HidesChild(ix, ds) <==> Clear(ix, ds)
    decreases |ds|
  {
    if |ds| == 0 {
      assert ix.accepted + SymbolsOf(ds, Offset(ix.values)) == ix.accepted;
    } else {
      OneClear(ix, ds[0]);
      if Clear(ix, [ds[0]]) {
        ClearSplit(ix, ds);
        AddDeclKeepsGood(ix, ds[0]);
        AddDeclSeparateExactly(ix, ds[0]);
        AddsExactly(AddDecl(ix, ds[0]).0, ds[1..]);
      } else if Clear(ix, ds) {
        ClearStart(ix, ds);
      }
    }
  }

  /** After any interleaving on which no AddSymbol missed a child, AddFile succeeds and misses none
      exactly when the package is legal, the file's name is new, and so is all that it declares. */
  lemma AddFileSucceedsExactly(rounds: seq<seq<File>>, files: seq<File>, file: File)
    requires !HidesInRounds(rounds) && !HidesInFiles(AfterFiles(rounds), files)
    ensures var ix := AddAll(AfterFiles(rounds), files);
            AddFileTo(ix, file).1 && !HidesInFile(ix, file) <==>
            && ValidateSymbolName(file.package)
            && Absent(ix.files, file.name)
            && Clear(Entered(ix, file), Declared(file, ""))
  {
    var ix := AddAll(AfterFiles(rounds), files);
    var value, named := EncodedEntry(file, file.package), Entered(ix, file);
    ReachableIsGood(rounds, files);
    RoundsSeparateExactly(rounds);
    ReachableIsGood(rounds, []);
    assert AddAll(AfterFiles(rounds), []) == AfterFiles(rounds);
    FilesSeparateExactly(AfterFiles(rounds), files);
    MoreValuesKeepGood(ix, value, named.files);
    MoreValuesKeepSeparate(ix, value, named.files);
    if ValidateSymbolName(file.package) {
      AddsExactly(named, Declared(file, ""));
    }
  }
}
