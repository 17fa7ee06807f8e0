/**
 EncodedDescriptorDatabase::DescriptorIndex: entries go into sets, and lookups merge the sets into
 sorted vectors first.
 */
module EncodedIndex {
  import opened Options
  import opened SymbolNames
  import opened Descriptors
  import opened EncodedSymbols
  import opened EncodedKeys
  import SymbolCompare

  /** The fields of the index.  `accepted` logs the symbols for which AddSymbol returned true. */
  datatype Index = Index(values: seq<EncodedEntry>, files: Keyed<string>, entries: seq<SymbolEntry>,
                         flat: seq<SymbolEntry>, extensions: Keyed<(string, int)>, accepted: seq<SymbolEntry>)

  const NO_FILES := Keyed<string>.Keyed(map[], map[])
  const NO_EXTENSIONS := Keyed<(string, int)>.Keyed(map[], map[])
  const EMPTY := Index([], NO_FILES, [], [], NO_EXTENSIONS, [])

  // ----- Specification --------------------------------------------------------------------------

  /** The place of the file being added. */
  function Offset(values: seq<EncodedEntry>): nat { if |values| > 0 then |values| - 1 else 0 }

  predicate Accepts(ix: Index, symbol: string) {
    var t := TermOf(ix.values, SymbolEntry(Offset(ix.values), symbol));
    ValidateSymbolName(symbol) && AdmitsBy(ix.values, ix.entries, t) && AdmitsBy(ix.values, ix.flat, t)
  }

  function AddDecl(ix: Index, d: Decl): (Index, bool) {
    match d
    case Symbol(name) =>
      var e := SymbolEntry(Offset(ix.values), name);
      if !Accepts(ix, name) then (ix, false)
      else (ix.(entries := SetInsert(ix.values, ix.entries, e), accepted := ix.accepted + [e]), true)
    case Extension(extendee, number) =>
      var (extensions, ok) := TryInsert(ix.extensions, (extendee, number), Offset(ix.values));
      (ix.(extensions := extensions), ok)
  }

  /** Adding entries in order, until the first that is refused. */
  function AddDecls(ix: Index, ds: seq<Decl>): (Index, bool)
    decreases |ds|
  {
    if |ds| == 0 then (ix, true)
    else
      var (ix', ok) := AddDecl(ix, ds[0]);
      if !ok then (ix', false) else AddDecls(ix', ds[1..])
  }

  function AddFileTo(ix: Index, file: File): (Index, bool) {
    if !ValidateSymbolName(file.package) then (ix.(values := ix.values + [EncodedEntry(file, "")]), false)
    else
      var (files, ok) := TryInsert(ix.files, file.name, |ix.values|);
      var named := ix.(values := ix.values + [EncodedEntry(file, file.package)], files := files);
      if !ok then (named, false) else AddDecls(named, Declared(file, ""))
  }

  /** EnsureFlat. */
  function Flattened(ix: Index): Index {
    ix.(files := Flatten(ix.files), entries := [], flat := Merge(ix.values, ix.entries, ix.flat),
        extensions := Flatten(ix.extensions))
  }

  /** FindSymbol on the merged vector, up to the file's place among the values. */
  function LookupPlace(ix: Index, name: string): Option<nat> {
    match ProbeBy(ix.values, Flattened(ix).flat, name)
    case Some(k) => if k < |Flattened(ix).flat| then Some(Flattened(ix).flat[k].offset) else None
    case None => None
  }

  /** The file at a place. */
  function FileAt(ix: Index, place: Option<nat>): Option<File> {
    if place.Some? && place.value < |ix.values| then Some(ix.values[place.value].file) else None
  }

  function Lookup(ix: Index, name: string): Option<File> { FileAt(ix, LookupPlace(ix, name)) }

  /** FindFile and FindExtension. */
  function FileNamed(ix: Index, name: string): Option<File> { FileAt(ix, Found(ix.files, name)) }

  function FileExtending(ix: Index, key: (string, int)): Option<File> { FileAt(ix, Found(ix.extensions, key)) }

  lemma {:induction false} AddDeclsConcat(ix: Index, ds: seq<Decl>, es: seq<Decl>)
    ensures AddDecls(ix, ds + es) ==
            if AddDecls(ix, ds).1 then AddDecls(AddDecls(ix, ds).0, es) else AddDecls(ix, ds)
    decreases |ds|
  {
    if |ds| == 0 {
      assert ds + es == es;
    } else {
      assert (ds + es)[1..] == ds[1..] + es;
      if AddDecl(ix, ds[0]).1 {
        AddDeclsConcat(AddDecl(ix, ds[0]).0, ds[1..], es);
      }
    }
  }

  // ----- The invariant --------------------------------------------------------------------------

  /** Unless an accepted symbol is the parent of another, set and vector are in order and hold the
      accepted symbols. */
  ghost predicate Good(ix: Index) {
    && InRange(ix.values, ix.accepted) && InRange(ix.values, ix.entries) && InRange(ix.values, ix.flat)
    && AllValid(Names(ix.values, ix.accepted))
    && (NoPairs(Names(ix.values, ix.accepted)) ==> Flat(ix.values, ix.accepted, ix.entries, ix.flat))
  }

  lemma InsertInRange(values: seq<EncodedEntry>, es: seq<SymbolEntry>, e: SymbolEntry)
    requires InRange(values, es) && e.offset < |values|
    ensures InRange(values, SetInsert(values, es, e))
  {
    forall x | x in SetInsert(values, es, e) ensures x.offset < |values| {
      assert x in es || x == e;
    }
  }

  lemma NameIsValid(values: seq<EncodedEntry>, accepted: seq<SymbolEntry>, e: SymbolEntry)
    requires AllValid(Names(values, accepted)) && e.offset < |values|
    requires ValidateSymbolName(values[e.offset].package) && ValidateSymbolName(e.symbol)
    ensures AllValid(Names(values, accepted + [e]))
  {
    var names, names' := Names(values, accepted), Names(values, accepted + [e]);
    assert ValidChar('.');
    forall i | 0 <= i < |names'| ensures ValidKey(names', i) {
      if i < |names| {
        assert ValidKey(names, i) && names'[i] == names[i];
      }
    }
  }

  predicate LastIsValid(values: seq<EncodedEntry>) {
    |values| > 0 && ValidateSymbolName(values[|values| - 1].package)
  }

  lemma AddDeclKeepsGood(ix: Index, d: Decl)
    requires Good(ix) && LastIsValid(ix.values)
    ensures Good(AddDecl(ix, d).0) && AddDecl(ix, d).0.values == ix.values
  {
    if d.Symbol? && Accepts(ix, d.name) {
      var e := SymbolEntry(Offset(ix.values), d.name);
      AcceptKeepsGood(ix, e);
    }
  }

  lemma AcceptKeepsFlat(values: seq<EncodedEntry>, accepted: seq<SymbolEntry>, entries: seq<SymbolEntry>,
                        flat: seq<SymbolEntry>, e: SymbolEntry)
    requires NoPairs(Names(values, accepted)) ==> Flat(values, accepted, entries, flat)
    requires NoPairs(Names(values, accepted + [e]))
    ensures Flat(values, accepted + [e], SetInsert(values, entries, e), flat)
  {
    NamesWithOneMore(values, accepted, e);
    NoPairsOfPrefix(Names(values, accepted), NameOf(values, e));
    AddKeepsFlat(values, accepted, entries, flat, e);
  }

  lemma AcceptKeepsGood(ix: Index, e: SymbolEntry)
    requires Good(ix) && e.offset < |ix.values|
    requires ValidateSymbolName(ix.values[e.offset].package) && ValidateSymbolName(e.symbol)
    ensures Good(ix.(entries := SetInsert(ix.values, ix.entries, e), accepted := ix.accepted + [e]))
  {
    InsertInRange(ix.values, ix.entries, e);
    NameIsValid(ix.values, ix.accepted, e);
    if NoPairs(Names(ix.values, ix.accepted + [e])) {
      AcceptKeepsFlat(ix.values, ix.accepted, ix.entries, ix.flat, e);
    }
  }

  lemma {:induction false} AddDeclsKeepsGood(ix: Index, ds: seq<Decl>)
    requires Good(ix) && LastIsValid(ix.values)
    ensures Good(AddDecls(ix, ds).0) && AddDecls(ix, ds).0.values == ix.values
    decreases |ds|
  {
    if |ds| > 0 {
      AddDeclKeepsGood(ix, ds[0]);
      if AddDecl(ix, ds[0]).1 {
        AddDeclsKeepsGood(AddDecl(ix, ds[0]).0, ds[1..]);
      }
    }
  }

  lemma MoreValuesKeepGood(ix: Index, value: EncodedEntry, files: Keyed<string>)
    requires Good(ix)
    ensures Good(ix.(values := ix.values + [value], files := files))
  {
    var more := ix.values + [value];
    NamesStay(ix.values, more, ix.accepted);
    NamesStay(ix.values, more, ix.entries);
    NamesStay(ix.values, more, ix.flat);
  }

  lemma AddFileKeepsGood(ix: Index, file: File)
    requires Good(ix)
    ensures Good(AddFileTo(ix, file).0)
    ensures |AddFileTo(ix, file).0.values| == |ix.values| + 1
  {
    if !ValidateSymbolName(file.package) {
      MoreValuesKeepGood(ix, EncodedEntry(file, ""), ix.files);
    } else {
      var (files, ok) := TryInsert(ix.files, file.name, |ix.values|);
      MoreValuesKeepGood(ix, EncodedEntry(file, file.package), files);
      var named := ix.(values := ix.values + [EncodedEntry(file, file.package)], files := files);
      AddDeclsKeepsGood(named, Declared(file, ""));
    }
  }

  lemma FlattenKeepsGood(ix: Index)
    requires Good(ix)
    ensures Good(Flattened(ix))
  {
    MergeKeepsEntries(ix.values, ix.entries, ix.flat);
    var flat := Merge(ix.values, ix.entries, ix.flat);
    forall x | x in flat ensures x.offset < |ix.values| {
      assert x in multiset(flat);
    }
    if NoPairs(Names(ix.values, ix.accepted)) {
      MergeKeepsFlat(ix.values, ix.accepted, ix.entries, ix.flat);
    }
  }

  // ----- What is accepted -----------------------------------------------------------------------

  /** The symbols among `ds`, as entries of the file at `offset`. */
  function SymbolsOf(ds: seq<Decl>, offset: nat): seq<SymbolEntry> {
    if |ds| == 0 then []
    else (if ds[0].Symbol? then [SymbolEntry(offset, ds[0].name)] else []) + SymbolsOf(ds[1..], offset)
  }

  lemma PrefixesChain(a: seq<SymbolEntry>, b: seq<SymbolEntry>, c: seq<SymbolEntry>, rest: seq<SymbolEntry>)
    requires a <= b <= c && c[|b|..] <= rest
    ensures a <= c && c[|a|..] == b[|a|..] + c[|b|..] && c[|a|..] <= b[|a|..] + rest
  {
  }

  lemma AcceptsOne(ix: Index, d: Decl)
    ensures var (ix', ok) := AddDecl(ix, d);
            && ix'.values == ix.values
            && ix'.accepted == ix.accepted + if ok && d.Symbol? then [SymbolEntry(Offset(ix.values), d.name)] else []
  {
  }

  /** A file's symbols are accepted in order up to the first entry refused. */
  lemma {:induction false} AcceptsInOrder(ix: Index, ds: seq<Decl>)
    ensures var (ix', ok) := AddDecls(ix, ds);
            && ix.accepted <= ix'.accepted
            && ix'.accepted[|ix.accepted|..] <= SymbolsOf(ds, Offset(ix.values))
            && (ok ==> ix'.accepted[|ix.accepted|..] == SymbolsOf(ds, Offset(ix.values)))
    decreases |ds|
  {
    if |ds| > 0 {
      var (next, ok) := AddDecl(ix, ds[0]);
      AcceptsOne(ix, ds[0]);
      if ok {
        AcceptsInOrder(next, ds[1..]);
        var rest := SymbolsOf(ds[1..], Offset(ix.values));
        PrefixesChain(ix.accepted, next.accepted, AddDecls(next, ds[1..]).0.accepted, rest);
      }
    }
  }

  // ----- Any interleaving of adding and looking up ----------------------------------------------

  function AddAll(ix: Index, files: seq<File>): Index {
    if |files| == 0 then ix else AddFileTo(AddAll(ix, files[..|files| - 1]), files[|files| - 1]).0
  }

  /** Rounds of files added, with a lookup after each round. */
  function AfterFiles(rounds: seq<seq<File>>): Index {
    if |rounds| == 0 then EMPTY
    else Flattened(AddAll(AfterFiles(rounds[..|rounds| - 1]), rounds[|rounds| - 1]))
  }

  lemma {:induction false} AddAllKeepsGood(ix: Index, files: seq<File>)
    requires Good(ix)
    ensures Good(AddAll(ix, files))
  {
    if |files| > 0 {
      AddAllKeepsGood(ix, files[..|files| - 1]);
      AddFileKeepsGood(AddAll(ix, files[..|files| - 1]), files[|files| - 1]);
    }
  }

  lemma {:induction false} ReachableIsGood(rounds: seq<seq<File>>, files: seq<File>)
    ensures Good(AddAll(AfterFiles(rounds), files))
    decreases |rounds|
  {
    if |rounds| > 0 {
      var n := |rounds| - 1;
      ReachableIsGood(rounds[..n], rounds[n]);
      FlattenKeepsGood(AddAll(AfterFiles(rounds[..n]), rounds[n]));
    } else {
      assert Good(EMPTY);
    }
    AddAllKeepsGood(AfterFiles(rounds), files);
  }

  /** An accepted symbol is the name or its parent, and it is a symbol of `file`. */
  predicate Holds(ix: Index, e: SymbolEntry, name: string, file: File) {
    && e in ix.accepted && IsSubSymbol(NameOf(ix.values, e), name)
    && e.offset < |ix.values| && ix.values[e.offset].file == file
  }

  lemma LookupIsScan(ix: Index, name: string, file: File)
    requires Good(ix) && NoPairs(Names(ix.values, ix.accepted))
    ensures Lookup(ix, name) == Some(file) <==> exists e :: Holds(ix, e, name, file)
  {
    FlattenKeepsGood(ix);
    var flat, names := Flattened(ix).flat, Names(ix.values, Flattened(ix).flat);
    assert multiset(flat) == multiset(ix.accepted);
    NoPairsAmong(ix.values, ix.accepted, flat);
    ValidAmong(ix.values, ix.accepted, flat);
    ProbeByIsScan(ix.values, flat, name);
    if Lookup(ix, name) == Some(file) {
      var k := ProbeBy(ix.values, flat, name).value;
      assert Covers(names, k, name) && flat[k] in multiset(flat);
      assert Holds(ix, flat[k], name, file);
    }
    forall e | Holds(ix, e, name, file) ensures Lookup(ix, name) == Some(file) {
      assert e in multiset(ix.accepted);
      var i := IndexOf(flat, e);
      assert Covers(names, i, name);
    }
  }

  // ----- When parents and children get in together ----------------------------------------------

  /** Adding the symbol now, the checks on the set or on the vector miss a child of it. */
  predicate HidesNow(ix: Index, symbol: string) {
    var t := TermOf(ix.values, SymbolEntry(Offset(ix.values), symbol));
    Hides(ix.values, ix.entries, t) || Hides(ix.values, ix.flat, t)
  }

  /** That happens at some point of adding `ds`. */
  predicate HidesChild(ix: Index, ds: seq<Decl>)
    decreases |ds|
  {
    && |ds| > 0 && AddDecl(ix, ds[0]).1
    && ((ds[0].Symbol? && HidesNow(ix, ds[0].name)) || HidesChild(AddDecl(ix, ds[0]).0, ds[1..]))
  }

  /** At some point of adding a file. */
  predicate HidesInFile(ix: Index, file: File) {
    && ValidateSymbolName(file.package)
    && var (files, ok) := TryInsert(ix.files, file.name, |ix.values|);
       var named := ix.(values := ix.values + [EncodedEntry(file, file.package)], files := files);
       ok && HidesChild(named, Declared(file, ""))
  }

  predicate HidesInFiles(ix: Index, files: seq<File>) {
    && |files| > 0
    && var n := |files| - 1;
       HidesInFiles(ix, files[..n]) || HidesInFile(AddAll(ix, files[..n]), files[n])
  }

  predicate HidesInRounds(rounds: seq<seq<File>>) {
    && |rounds| > 0
    && var n := |rounds| - 1;
       HidesInRounds(rounds[..n]) || HidesInFiles(AfterFiles(rounds[..n]), rounds[n])
  }

  /** No accepted symbol is the parent of another. */
  ghost predicate Separate(ix: Index) { NoPairs(Names(ix.values, ix.accepted)) }

  lemma NoPairsOfShorter(keys: seq<string>, more: seq<string>)
    requires keys <= more && NoPairs(more)
    ensures NoPairs(keys)
  {
    forall i, j | 0 <= i < |keys| && 0 <= j < |keys| && i != j ensures Unrelated(keys, i, j) {
      assert Unrelated(more, i, j);
    }
  }

  /** Symbols are only added, so what is not separate stays so. */
  lemma {:induction false} StaysMixed(ix: Index, ds: seq<Decl>)
    requires Separate(AddDecls(ix, ds).0)
    ensures Separate(ix)
  {
    AcceptsInOrder(ix, ds);
    AddDeclsKeepsFiles(ix, ds);
    NoPairsOfShorter(Names(ix.values, ix.accepted), Names(ix.values, AddDecls(ix, ds).0.accepted));
  }

  lemma AddDeclSeparateExactly(ix: Index, d: Decl)
    requires Good(ix) && LastIsValid(ix.values) && Separate(ix) && AddDecl(ix, d).1
    ensures Separate(AddDecl(ix, d).0) <==> !(d.Symbol? && HidesNow(ix, d.name))
  {
    if d.Symbol? {
      var e := SymbolEntry(Offset(ix.values), d.name);
      AcceptedKeepsNoPairs(ix.values, ix.accepted, ix.entries, ix.flat, e);
    }
  }

  /** Adding entries keeps the accepted symbols separate exactly when no child is missed. */
  lemma {:induction false} SeparateExactly(ix: Index, ds: seq<Decl>)
    requires Good(ix) && LastIsValid(ix.values) && Separate(ix)
    ensures Separate(AddDecls(ix, ds).0) <==> !HidesChild(ix, ds)
    decreases |ds|
  {
    if |ds| > 0 && AddDecl(ix, ds[0]).1 {
      var next := AddDecl(ix, ds[0]).0;
      AddDeclKeepsGood(ix, ds[0]);
      AddDeclSeparateExactly(ix, ds[0]);
      if Separate(next) {
        SeparateExactly(next, ds[1..]);
      } else if Separate(AddDecls(next, ds[1..]).0) {
        StaysMixed(next, ds[1..]);
      }
    } else if |ds| > 0 {
      AcceptsOne(ix, ds[0]);
    }
  }

  lemma MoreValuesKeepSeparate(ix: Index, value: EncodedEntry, files: Keyed<string>)
    requires Good(ix)
    ensures Separate(ix.(values := ix.values + [value], files := files)) <==> Separate(ix)
  {
    NamesStay(ix.values, ix.values + [value], ix.accepted);
  }

  lemma FileSeparateExactly(ix: Index, file: File)
    requires Good(ix)
    ensures Separate(AddFileTo(ix, file).0) <==> Separate(ix) && !HidesInFile(ix, file)
  {
    if !ValidateSymbolName(file.package) {
      MoreValuesKeepSeparate(ix, EncodedEntry(file, ""), ix.files);
    } else {
      var (files, ok) := TryInsert(ix.files, file.name, |ix.values|);
      var named := ix.(values := ix.values + [EncodedEntry(file, file.package)], files := files);
      MoreValuesKeepGood(ix, EncodedEntry(file, file.package), files);
      MoreValuesKeepSeparate(ix, EncodedEntry(file, file.package), files);
      if ok && Separate(named) {
        SeparateExactly(named, Declared(file, ""));
      } else if ok && Separate(AddDecls(named, Declared(file, "")).0) {
        StaysMixed(named, Declared(file, ""));
      }
    }
  }

  lemma {:induction false} FilesSeparateExactly(ix: Index, files: seq<File>)
    requires Good(ix)
    ensures Separate(AddAll(ix, files)) <==> Separate(ix) && !HidesInFiles(ix, files)
  {
    if |files| > 0 {
      var n := |files| - 1;
      FilesSeparateExactly(ix, files[..n]);
      AddAllKeepsGood(ix, files[..n]);
      FileSeparateExactly(AddAll(ix, files[..n]), files[n]);
    }
  }

  /** After any interleaving of adding and looking up, no accepted symbol is the parent of another
      exactly when no AddSymbol on the way missed a child. */
  lemma {:induction false} RoundsSeparateExactly(rounds: seq<seq<File>>)
    ensures Separate(AfterFiles(rounds)) <==> !HidesInRounds(rounds)
  {
    if |rounds| > 0 {
      var n := |rounds| - 1;
      RoundsSeparateExactly(rounds[..n]);
      ReachableIsGood(rounds[..n], []);
      assert AddAll(AfterFiles(rounds[..n]), []) == AfterFiles(rounds[..n]);
      FilesSeparateExactly(AfterFiles(rounds[..n]), rounds[n]);
    }
  }

  /** After any interleaving of adding files and looking up on which no AddSymbol missed a child, a
      lookup answers like a scan of all the accepted symbols. */
  lemma SearchIsScan(rounds: seq<seq<File>>, files: seq<File>, name: string, file: File)
    requires !HidesInRounds(rounds) && !HidesInFiles(AfterFiles(rounds), files)
    ensures var ix := AddAll(AfterFiles(rounds), files);
            Lookup(ix, name) == Some(file) <==> exists e :: Holds(ix, e, name, file)
  {
    ReachableIsGood(rounds, []);
    assert AddAll(AfterFiles(rounds), []) == AfterFiles(rounds);
    RoundsSeparateExactly(rounds);
    FilesSeparateExactly(AfterFiles(rounds), files);
    ReachableIsGood(rounds, files);
    LookupIsScan(AddAll(AfterFiles(rounds), files), name, file);
  }

  // ----- Files by name --------------------------------------------------------------------------

  /** The attempts to insert file names: files without a valid package make none. */
  function AttemptsOf(files: seq<File>, offset: nat): seq<Attempt<string>> {
    if |files| == 0 then []
    else
      var n := |files| - 1;
      AttemptsOf(files[..n], offset)
      + if ValidateSymbolName(files[n].package) then [Attempt(files[n].name, offset + n)] else []
  }

  function Count(rounds: seq<seq<File>>): nat {
    if |rounds| == 0 then 0 else Count(rounds[..|rounds| - 1]) + |rounds[|rounds| - 1]|
  }

  function Attempts(rounds: seq<seq<File>>): seq<seq<Attempt<string>>> {
    if |rounds| == 0 then []
    else
      var n := |rounds| - 1;
      Attempts(rounds[..n]) + [AttemptsOf(rounds[n], Count(rounds[..n]))]
  }

  lemma {:induction false} AddDeclsKeepsFiles(ix: Index, ds: seq<Decl>)
    ensures AddDecls(ix, ds).0.files == ix.files && AddDecls(ix, ds).0.values == ix.values
    decreases |ds|
  {
    if |ds| > 0 && AddDecl(ix, ds[0]).1 {
      AddDeclsKeepsFiles(AddDecl(ix, ds[0]).0, ds[1..]);
    }
  }

  lemma FilesAfterAdd(ix: Index, file: File)
    ensures var ix' := AddFileTo(ix, file).0;
            && |ix'.values| == |ix.values| + 1
            && ix'.files == if ValidateSymbolName(file.package) then TryInsert(ix.files, file.name, |ix.values|).0
                            else ix.files
  {
    if ValidateSymbolName(file.package) {
      var (files, ok) := TryInsert(ix.files, file.name, |ix.values|);
      var named := ix.(values := ix.values + [EncodedEntry(file, file.package)], files := files);
      AddDeclsKeepsFiles(named, Declared(file, ""));
    }
  }

  lemma InsertAllAppend(s: Keyed<string>, attempts: seq<Attempt<string>>, name: string, offset: nat)
    ensures InsertAll(s, attempts + [Attempt(name, offset)]) == TryInsert(InsertAll(s, attempts), name, offset).0
  {
    var more := attempts + [Attempt(name, offset)];
    assert more[..|more| - 1] == attempts;
  }

  lemma AttemptsAppend(files: seq<File>, offset: nat)
    requires |files| > 0
    ensures var n, before, all := |files| - 1, AttemptsOf(files[..|files| - 1], offset), AttemptsOf(files, offset);
            if ValidateSymbolName(files[n].package)
            then all == before + [Attempt(files[n].name, offset + n)] && all[..|all| - 1] == before
            else all == before
  {
  }

  lemma AttemptsStep(s: Keyed<string>, files: seq<File>, offset: nat)
    requires |files| > 0
    ensures var n := |files| - 1;
            var before := InsertAll(s, AttemptsOf(files[..n], offset));
            InsertAll(s, AttemptsOf(files, offset)) ==
            if ValidateSymbolName(files[n].package) then TryInsert(before, files[n].name, offset + n).0 else before
  {
    var n := |files| - 1;
    AttemptsAppend(files, offset);
    if ValidateSymbolName(files[n].package) {
      InsertAllAppend(s, AttemptsOf(files[..n], offset), files[n].name, offset + n);
    }
  }

  lemma {:induction false} FilesAfterAdds(ix: Index, files: seq<File>)
    ensures |AddAll(ix, files).values| == |ix.values| + |files|
    ensures AddAll(ix, files).files == InsertAll(ix.files, AttemptsOf(files, |ix.values|))
  {
    if |files| > 0 {
      FilesAfterAdds(ix, files[..|files| - 1]);
      FilesAfterAdd(AddAll(ix, files[..|files| - 1]), files[|files| - 1]);
      AttemptsStep(ix.files, files, |ix.values|);
    }
  }

  lemma RoundsStep(before: Keyed<string>, attempts: seq<seq<Attempt<string>>>, round: seq<Attempt<string>>)
    requires before == AfterRounds(attempts)
    ensures AfterRounds(attempts + [round]) == Flatten(InsertAll(before, round))
  {
    var more := attempts + [round];
    assert more[..|more| - 1] == attempts;
  }

  lemma FilesAfterRound(ix: Index, files: seq<File>)
    ensures var ix' := Flattened(AddAll(ix, files));
            && |ix'.values| == |ix.values| + |files|
            && ix'.files == Flatten(InsertAll(ix.files, AttemptsOf(files, |ix.values|)))
  {
    FilesAfterAdds(ix, files);
  }

  lemma {:induction false} FilesAfterRounds(rounds: seq<seq<File>>)
    ensures AfterFiles(rounds).files == AfterRounds(Attempts(rounds))
    ensures |AfterFiles(rounds).values| == Count(rounds)
    ensures |Attempts(rounds)| == |rounds|
  {
    if |rounds| > 0 {
      var pre, last := rounds[..|rounds| - 1], rounds[|rounds| - 1];
      var before := AfterFiles(pre);
      FilesAfterRounds(pre);
      FilesAfterRound(before, last);
      RoundsStep(before.files, Attempts(pre), AttemptsOf(last, Count(pre)));
    }
  }

  lemma {:induction false} AttemptOffsets(files: seq<File>, offset: nat, name: string)
    ensures var first := FirstOf(AttemptsOf(files, offset), name);
            first.Some? ==> offset <= first.value < offset + |files|
  {
    if |files| > 0 {
      AttemptOffsets(files[..|files| - 1], offset, name);
      AttemptsAppend(files, offset);
      if ValidateSymbolName(files[|files| - 1].package) {
        FirstOfAppend(AttemptsOf(files, offset), name);
      }
    }
  }

  lemma {:induction false} AttemptsByRound(rounds: seq<seq<File>>, i: nat)
    requires i < |rounds|
    ensures |Attempts(rounds)| == |rounds|
    ensures Attempts(rounds)[i] == AttemptsOf(rounds[i], Count(rounds[..i]))
    ensures Count(rounds[..i + 1]) == Count(rounds[..i]) + |rounds[i]|
  {
    var n := |rounds| - 1;
    assert rounds[..i + 1][..i] == rounds[..i];
    if i < n {
      AttemptsByRound(rounds[..n], i);
      assert rounds[..n][..i] == rounds[..i] && rounds[..n][..i + 1] == rounds[..i + 1];
    } else if n > 0 {
      AttemptsByRound(rounds[..n], n - 1);
    }
  }

  lemma {:induction false} CountGrows(rounds: seq<seq<File>>, i: nat, j: nat)
    requires i <= j <= |rounds|
    ensures Count(rounds[..i]) <= Count(rounds[..j])
  {
    if i < j {
      CountGrows(rounds, i, j - 1);
      assert rounds[..j][..j - 1] == rounds[..j - 1];
    }
  }

  /** No two rounds tried to add a file of that name. */
  predicate TriedOnce(rounds: seq<seq<File>>, name: string) {
    var attempts := Attempts(rounds);
    forall i, j | 0 <= i < |attempts| && 0 <= j < |attempts| && Tries(attempts, i, name) && Tries(attempts, j, name) ::
      i == j
  }

  /** A file is found by its name as the one that was accepted exactly when no later round, in vain,
      added a file of that name again. */
  lemma FindsAcceptedFileExactly(rounds: seq<seq<File>>, name: string)
    ensures Found(AfterFiles(rounds).files, name) == Accepted(Attempts(rounds), name) <==> TriedOnce(rounds, name)
  {
    FilesAfterRounds(rounds);
    var attempts := Attempts(rounds);
    forall i, j | 0 <= i < j < |attempts| ensures OffsetsDiffer(attempts, i, j, name) {
      AttemptsByRound(rounds, i);
      AttemptsByRound(rounds, j);
      AttemptOffsets(rounds[i], Count(rounds[..i]), name);
      AttemptOffsets(rounds[j], Count(rounds[..j]), name);
      CountGrows(rounds, i + 1, j);
    }
    FindsAcceptedExactly(attempts, name);
  }

  // ----- The file of a symbol, by its name ------------------------------------------------------

  /** The file at that place is the one whose name was accepted. */
  predicate Owned(values: seq<EncodedEntry>, files: Keyed<string>, place: nat) {
    place < |values| && Original(files, values[place].file.name) == Some(place)
  }

  predicate NamedSo(values: seq<EncodedEntry>, name: string, place: nat) {
    place < |values| && values[place].file.name == name
  }

  ghost predicate SymbolsOwned(values: seq<EncodedEntry>, files: Keyed<string>, es: seq<SymbolEntry>) {
    forall e | e in es :: Owned(values, files, e.offset)
  }

  ghost predicate ExtensionsOwned(values: seq<EncodedEntry>, files: Keyed<string>, extensions: Keyed<(string, int)>) {
    forall key, place: nat | Has(extensions, key, place) :: Owned(values, files, place)
  }

  ghost predicate FilesNamed(values: seq<EncodedEntry>, files: Keyed<string>) {
    forall name, place: nat | Has(files, name, place) :: NamedSo(values, name, place)
  }

  /** Symbols and extensions are those of files whose names were accepted. */
  ghost predicate Registered(ix: Index) {
    && SymbolsOwned(ix.values, ix.files, ix.entries)
    && SymbolsOwned(ix.values, ix.files, ix.flat)
    && ExtensionsOwned(ix.values, ix.files, ix.extensions)
    && FilesNamed(ix.values, ix.files)
  }

  /** What is owned stays so while files are named after it. */
  ghost predicate KeepsOwned(values: seq<EncodedEntry>, files: Keyed<string>, values': seq<EncodedEntry>,
                             files': Keyed<string>) {
    forall place: nat | Owned(values, files, place) :: Owned(values', files', place)
  }

  lemma OwnersStay(ix: Index, values': seq<EncodedEntry>, files': Keyed<string>)
    requires Registered(ix) && KeepsOwned(ix.values, ix.files, values', files')
    ensures SymbolsOwned(values', files', ix.entries) && SymbolsOwned(values', files', ix.flat)
    ensures ExtensionsOwned(values', files', ix.extensions)
  {
  }

  lemma InsertOwned(values: seq<EncodedEntry>, files: Keyed<string>, es: seq<SymbolEntry>, e: SymbolEntry)
    requires SymbolsOwned(values, files, es) && Owned(values, files, e.offset)
    ensures SymbolsOwned(values, files, SetInsert(values, es, e))
  {
    forall x | x in SetInsert(values, es, e) ensures Owned(values, files, x.offset) {
      assert x in es || x == e;
    }
  }

  lemma MergeOwned(values: seq<EncodedEntry>, files: Keyed<string>, a: seq<SymbolEntry>, b: seq<SymbolEntry>)
    requires SymbolsOwned(values, files, a) && SymbolsOwned(values, files, b)
    ensures SymbolsOwned(values, files, Merge(values, a, b))
  {
    MergeKeepsEntries(values, a, b);
    forall x | x in Merge(values, a, b) ensures Owned(values, files, x.offset) {
      assert x in multiset(Merge(values, a, b));
    }
  }

  lemma ExtensionOwned(values: seq<EncodedEntry>, files: Keyed<string>, extensions: Keyed<(string, int)>,
                       key: (string, int), place: nat)
    requires ExtensionsOwned(values, files, extensions) && Owned(values, files, place)
    ensures ExtensionsOwned(values, files, TryInsert(extensions, key, place).0)
  {
    HasAfter(extensions, key, place);
  }

  lemma AddDeclKeepsRegistered(ix: Index, d: Decl)
    requires Registered(ix) && Owned(ix.values, ix.files, Offset(ix.values))
    ensures var ix' := AddDecl(ix, d).0;
            Registered(ix') && ix'.values == ix.values && ix'.files == ix.files
  {
    match d
    case Symbol(name) => InsertOwned(ix.values, ix.files, ix.entries, SymbolEntry(Offset(ix.values), name));
    case Extension(extendee, number) =>
      ExtensionOwned(ix.values, ix.files, ix.extensions, (extendee, number), Offset(ix.values));
  }

  lemma {:induction false} AddDeclsKeepsRegistered(ix: Index, ds: seq<Decl>)
    requires Registered(ix) && Owned(ix.values, ix.files, Offset(ix.values))
    ensures Registered(AddDecls(ix, ds).0)
    decreases |ds|
  {
    if |ds| > 0 {
      AddDeclKeepsRegistered(ix, ds[0]);
      if AddDecl(ix, ds[0]).1 {
        AddDeclsKeepsRegistered(AddDecl(ix, ds[0]).0, ds[1..]);
      }
    }
  }

  lemma NamedStays(values: seq<EncodedEntry>, value: EncodedEntry, files: Keyed<string>)
    requires FilesNamed(values, files)
    ensures FilesNamed(values + [value], files)
    ensures FilesNamed(values + [value], TryInsert(files, value.file.name, |values|).0)
    ensures KeepsOwned(values, files, values + [value], files)
    ensures KeepsOwned(values, files, values + [value], TryInsert(files, value.file.name, |values|).0)
  {
    var more, files' := values + [value], TryInsert(files, value.file.name, |values|).0;
    HasAfter(files, value.file.name, |values|);
    forall name, place: nat | Has(files, name, place) ensures NamedSo(more, name, place) {
      assert NamedSo(values, name, place);
    }
    forall name, place: nat | Has(files', name, place) ensures NamedSo(more, name, place) {
      assert Has(files, name, place) ==> NamedSo(values, name, place);
    }
    forall place: nat | Owned(values, files, place) ensures Owned(more, files', place) {
      OriginalStays(files, value.file.name, |values|, values[place].file.name);
    }
  }

  lemma AddFileKeepsRegistered(ix: Index, file: File)
    requires Registered(ix)
    ensures Registered(AddFileTo(ix, file).0)
  {
    if !ValidateSymbolName(file.package) {
      NamedStays(ix.values, EncodedEntry(file, ""), ix.files);
      OwnersStay(ix, ix.values + [EncodedEntry(file, "")], ix.files);
    } else {
      var value := EncodedEntry(file, file.package);
      var (files, ok) := TryInsert(ix.files, file.name, |ix.values|);
      NamedStays(ix.values, value, ix.files);
      OwnersStay(ix, ix.values + [value], files);
      if ok {
        OriginalStays(ix.files, file.name, |ix.values|, file.name);
        AddDeclsKeepsRegistered(ix.(values := ix.values + [value], files := files), Declared(file, ""));
      }
    }
  }

  lemma FlattenKeepsOwned(values: seq<EncodedEntry>, files: Keyed<string>)
    ensures KeepsOwned(values, files, values, Flatten(files)) && KeepsOwned(values, Flatten(files), values, files)
  {
    forall place: nat | place < |values| ensures Owned(values, Flatten(files), place) <==> Owned(values, files, place) {
      OriginalFlattened(files, values[place].file.name);
    }
  }

  lemma FlattenKeepsRegistered(ix: Index)
    requires Registered(ix)
    ensures Registered(Flattened(ix))
  {
    FlattenKeepsOwned(ix.values, ix.files);
    OwnersStay(ix, ix.values, Flatten(ix.files));
    MergeOwned(ix.values, Flatten(ix.files), ix.entries, ix.flat);
    HasAfter(ix.files, "", 0);
    HasAfter(ix.extensions, ("", 0), 0);
  }

  lemma {:induction false} AddAllKeepsRegistered(ix: Index, files: seq<File>)
    requires Registered(ix)
    ensures Registered(AddAll(ix, files))
  {
    if |files| > 0 {
      AddAllKeepsRegistered(ix, files[..|files| - 1]);
      AddFileKeepsRegistered(AddAll(ix, files[..|files| - 1]), files[|files| - 1]);
    }
  }

  lemma {:induction false} ReachableIsRegistered(rounds: seq<seq<File>>)
    ensures Registered(AfterFiles(rounds))
  {
    if |rounds| > 0 {
      var n := |rounds| - 1;
      ReachableIsRegistered(rounds[..n]);
      AddAllKeepsRegistered(AfterFiles(rounds[..n]), rounds[n]);
      FlattenKeepsRegistered(AddAll(AfterFiles(rounds[..n]), rounds[n]));
    } else {
      assert Registered(EMPTY);
    }
  }

  /** A file found by a name has that name. */
  lemma FoundIsNamed(ix: Index, name: string)
    requires Registered(ix)
    ensures FileNamed(ix, name).Some? ==> FileNamed(ix, name).value.name == name
  {
    HasAfter(ix.files, name, 0);
    assert Found(ix.files, name).Some? ==> NamedSo(ix.values, name, Found(ix.files, name).value);
  }

  /** The file found for a symbol is the one found by its own name exactly when no two rounds tried to
      add a file of that name. */
  lemma SymbolFileExactly(rounds: seq<seq<File>>, symbol: string)
    ensures var ix, place := AfterFiles(rounds), LookupPlace(AfterFiles(rounds), symbol);
            place.Some? ==>
              && place.value < |ix.values|
              && var name := ix.values[place.value].file.name;
                 Found(ix.files, name) == place <==> TriedOnce(rounds, name)
  {
    var ix, place := AfterFiles(rounds), LookupPlace(AfterFiles(rounds), symbol);
    if place.Some? {
      ReachableIsRegistered(rounds);
      FlattenKeepsRegistered(ix);
      var e := Flattened(ix).flat[ProbeBy(ix.values, Flattened(ix).flat, symbol).value];
      assert e in Flattened(ix).flat;
      FlattenKeepsOwned(ix.values, ix.files);
      PlaceFileExactly(rounds, place.value);
    }
  }

  /** The same for an extension. */
  lemma ExtensionFileExactly(rounds: seq<seq<File>>, key: (string, int))
    ensures var ix, place := AfterFiles(rounds), Found(AfterFiles(rounds).extensions, key);
            place.Some? ==>
              && place.value < |ix.values|
              && var name := ix.values[place.value].file.name;
                 Found(ix.files, name) == place <==> TriedOnce(rounds, name)
  {
    var ix, place := AfterFiles(rounds), Found(AfterFiles(rounds).extensions, key);
    if place.Some? {
      ReachableIsRegistered(rounds);
      HasAfter(ix.extensions, key, 0);
      PlaceFileExactly(rounds, place.value);
    }
  }

  lemma PlaceFileExactly(rounds: seq<seq<File>>, place: nat)
    requires Owned(AfterFiles(rounds).values, AfterFiles(rounds).files, place)
    ensures var ix := AfterFiles(rounds);
            && place < |ix.values|
            && var name := ix.values[place].file.name;
               Found(ix.files, name) == Some(place) <==> TriedOnce(rounds, name)
  {
    var ix := AfterFiles(rounds);
    var name := ix.values[place].file.name;
    FilesAfterRounds(rounds);
    OriginalIsAccepted(Attempts(rounds), name);
    FindsAcceptedFileExactly(rounds, name);
  }

  // ----- The class ------------------------------------------------------------------------------

  class DescriptorIndex {
    var allValues: seq<EncodedEntry>
    var byName: map<string, nat>
    var byNameFlat: map<string, seq<nat>>
    var bySymbol: seq<SymbolEntry>
    var bySymbolFlat: seq<SymbolEntry>
    var byExtension: map<(string, int), nat>
    var byExtensionFlat: map<(string, int), seq<nat>>
    ghost var accepted: seq<SymbolEntry>

    ghost function State(): Index
      reads this
    {
      Index(allValues, Keyed(byName, byNameFlat), bySymbol, bySymbolFlat, Keyed(byExtension, byExtensionFlat), accepted)
    }

    constructor ()
      ensures State() == EMPTY
    {
      allValues, bySymbol, bySymbolFlat, accepted := [], [], [], [];
      byName, byNameFlat, byExtension, byExtensionFlat := map[], map[], map[], map[];
    }

    method AddFile(file: File) returns (ok: bool)
      modifies this
      ensures (State(), ok) == AddFileTo(old(State()), file)
    {
      allValues := allValues + [EncodedEntry(file, "")];
      if !ValidateSymbolName(file.package) {
        return false;
      }
      allValues := allValues[|allValues| - 1 := EncodedEntry(file, file.package)];
      assert allValues == old(allValues) + [EncodedEntry(file, file.package)];
      var inserted := file.name !in byName;
      if inserted {
        byName := byName[file.name := |allValues| - 1];
      }
      if !inserted || file.name in byNameFlat {
        return false;
      }
      ok := AddContents(file);
    }

    /** The four loops of AddFile. */
    method AddContents(file: File) returns (ok: bool)
      modifies this
      ensures (State(), ok) == AddDecls(old(State()), Declared(file, ""))
    {
      ghost var d1, d2 := DeclsOfMessages("", file.messages), DeclsOfNames("", file.enums);
      ghost var d3, d4 := DeclsOfTopExtensions("", file.extensions), DeclsOfNames("", file.services);
      AddDeclsConcat(State(), d1, d2 + (d3 + d4));
      ok := AddMessages(file.messages);
      if !ok { return; }
      AddDeclsConcat(State(), d2, d3 + d4);
      ok := AddNames(file.enums);
      if !ok { return; }
      AddDeclsConcat(State(), d3, d4);
      ok := AddTopExtensions(file.extensions);
      if !ok { return; }
      ok := AddNames(file.services);
    }

    method AddMessages(messages: seq<Message>) returns (ok: bool)
      modifies this
      ensures (State(), ok) == AddDecls(old(State()), DeclsOfMessages("", messages))
    {
      ghost var start := State();
      for i := 0 to |messages|
        invariant AddDecls(start, DeclsOfMessages("", messages))
               == AddDecls(State(), DeclsOfMessages("", messages[i..]))
      {
        var m := messages[i];
        assert messages[i..][1..] == messages[i + 1..];
        assert "" + m.name == m.name;
        AddDeclsConcat(State(), [Symbol(m.name)] + NestedExtensions(m), DeclsOfMessages("", messages[i + 1..]));
        AddDeclsConcat(State(), [Symbol(m.name)], NestedExtensions(m));
        ok := AddSymbol(m.name);
        if !ok { return; }
        ok := AddNestedExtensions(m);
        if !ok { return; }
      }
      ok := true;
    }

    method AddNames(names: seq<string>) returns (ok: bool)
      modifies this
      ensures (State(), ok) == AddDecls(old(State()), DeclsOfNames("", names))
    {
      ghost var start := State();
      for i := 0 to |names|
        invariant AddDecls(start, DeclsOfNames("", names)) == AddDecls(State(), DeclsOfNames("", names[i..]))
      {
        assert names[i..][1..] == names[i + 1..];
        assert "" + names[i] == names[i];
        AddDeclsConcat(State(), [Symbol(names[i])], DeclsOfNames("", names[i + 1..]));
        ok := AddSymbol(names[i]);
        if !ok { return; }
      }
      ok := true;
    }

    method AddTopExtensions(fields: seq<Field>) returns (ok: bool)
      modifies this
      ensures (State(), ok) == AddDecls(old(State()), DeclsOfTopExtensions("", fields))
    {
      ghost var start := State();
      for i := 0 to |fields|
        invariant AddDecls(start, DeclsOfTopExtensions("", fields))
               == AddDecls(State(), DeclsOfTopExtensions("", fields[i..]))
      {
        var f := fields[i];
        assert fields[i..][1..] == fields[i + 1..];
        assert "" + f.name == f.name;
        AddDeclsConcat(State(), [Symbol(f.name)] + DeclOfExtension(f), DeclsOfTopExtensions("", fields[i + 1..]));
        AddDeclsConcat(State(), [Symbol(f.name)], DeclOfExtension(f));
        ok := AddSymbol(f.name);
        if !ok { return; }
        ok := AddExtension(f);
        if !ok { return; }
      }
      ok := true;
    }

    method AddNestedExtensions(m: Message) returns (ok: bool)
      modifies this
      ensures (State(), ok) == AddDecls(old(State()), NestedExtensions(m))
      decreases m
    {
      ghost var start := State();
      AddDeclsConcat(start, NestedInAll(m.nested), DeclsOfExtensions(m.extensions));
      for i := 0 to |m.nested|
        invariant AddDecls(start, NestedInAll(m.nested)) == AddDecls(State(), NestedInAll(m.nested[i..]))
      {
        assert m.nested[i..][1..] == m.nested[i + 1..];
        AddDeclsConcat(State(), NestedExtensions(m.nested[i]), NestedInAll(m.nested[i + 1..]));
        ok := AddNestedExtensions(m.nested[i]);
        if !ok { return; }
      }
      ghost var middle := State();
      for i := 0 to |m.extensions|
        invariant AddDecls(middle, DeclsOfExtensions(m.extensions))
               == AddDecls(State(), DeclsOfExtensions(m.extensions[i..]))
      {
        assert m.extensions[i..][1..] == m.extensions[i + 1..];
        AddDeclsConcat(State(), DeclOfExtension(m.extensions[i]), DeclsOfExtensions(m.extensions[i + 1..]));
        ok := AddExtension(m.extensions[i]);
        if !ok { return; }
      }
      ok := true;
    }

    method AddSymbol(symbol: string) returns (ok: bool)
      modifies this
      ensures (State(), ok) == AddDecls(old(State()), [Symbol(symbol)])
    {
      var entry := SymbolEntry(Offset(allValues), symbol);
      var t := TermOf(allValues, entry);
      if !ValidateSymbolName(symbol) {
        return false;
      }
      if !AdmitsBy(allValues, bySymbol, t) {
        return false;
      }
      if !AdmitsBy(allValues, bySymbolFlat, t) {
        return false;
      }
      bySymbol := SetInsert(allValues, bySymbol, entry);
      accepted := accepted + [entry];
      return true;
    }

    method AddExtension(field: Field) returns (ok: bool)
      modifies this
      ensures (State(), ok) == AddDecls(old(State()), DeclOfExtension(field))
    {
      if |field.extendee| > 0 && field.extendee[0] == '.' {
        var key := (field.extendee[1..], field.number);
        if key in byExtension {
          return false;
        }
        byExtension := byExtension[key := Offset(allValues)];
        if key in byExtensionFlat {
          return false;
        }
      }
      return true;
    }

    method EnsureFlat()
      modifies this
      ensures State() == Flattened(old(State()))
    {
      if |bySymbol| > 0 {
        bySymbolFlat := Merge(allValues, bySymbol, bySymbolFlat);
        bySymbol := [];
      }
      var files, extensions := Flatten(Keyed(byName, byNameFlat)), Flatten(Keyed(byExtension, byExtensionFlat));
      byName, byNameFlat := files.entries, files.flat;
      byExtension, byExtensionFlat := extensions.entries, extensions.flat;
    }

    method FindSymbol(name: string) returns (found: Option<File>)
      requires Good(State())
      modifies this
      ensures State() == Flattened(old(State())) && found == Lookup(old(State()), name)
    {
      FlattenKeepsGood(State());
      EnsureFlat();
      var iter := LastLessOrEqual(allValues, bySymbolFlat, SymbolCompare.Str(name));
      if iter != |bySymbolFlat| && IsSubSymbol(NameOf(allValues, bySymbolFlat[iter]), name) {
        assert bySymbolFlat[iter] in bySymbolFlat;
        found := Some(allValues[bySymbolFlat[iter].offset].file);
      } else {
        found := None;
      }
    }

    method FindFile(name: string) returns (found: Option<File>)
      requires Registered(State())
      modifies this
      ensures State() == Flattened(old(State())) && found == FileNamed(old(State()), name)
    {
      HasAfter(State().files, name, 0);
      EnsureFlat();
      if name in byNameFlat && |byNameFlat[name]| > 0 {
        found := Some(allValues[byNameFlat[name][0]].file);
      } else {
        found := None;
      }
    }

    method FindExtension(containingType: string, number: int) returns (found: Option<File>)
      requires Registered(State())
      modifies this
      ensures State() == Flattened(old(State()))
      ensures found == FileExtending(old(State()), (containingType, number))
    {
      var key := (containingType, number);
      HasAfter(State().extensions, key, 0);
      EnsureFlat();
      if key in byExtensionFlat && |byExtensionFlat[key]| > 0 {
        found := Some(allValues[byExtensionFlat[key][0]].file);
      } else {
        found := None;
      }
    }
  }
}
