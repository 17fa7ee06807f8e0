/**
 SimpleDescriptorDatabase: three ordered maps over files kept by value.
 */
module SimpleIndex {
  import opened Options
  import opened SymbolNames
  import opened Descriptors

  /** An entry of the ordered map by_symbol_. */
  datatype Entry = Entry(key: string, file: File)

  datatype Index = Index(byName: map<string, File>, bySymbol: seq<Entry>, byExtension: map<(string, int), File>)

  const EMPTY := Index(map[], [], map[])

  function Keys(entries: seq<Entry>): seq<string> {
    seq(|entries|, i requires 0 <= i < |entries| => entries[i].key)
  }

  // ----- Specification of adding ----------------------------------------------------------------

  predicate Accepts(ix: Index, d: Decl) {
    match d
    case Symbol(name) => ValidateSymbolName(name) && Admits(Keys(ix.bySymbol), name)
    case Extension(extendee, number) => (extendee, number) !in ix.byExtension
  }

  function With(ix: Index, d: Decl, file: File): Index {
    match d
    case Symbol(name) =>
      ix.(bySymbol := Inserted(ix.bySymbol, UpperBound(Keys(ix.bySymbol), name), Entry(name, file)))
    case Extension(extendee, number) => ix.(byExtension := ix.byExtension[(extendee, number) := file])
  }

  /** Adding entries in order, until the first that is refused. */
  function AddDecls(ix: Index, ds: seq<Decl>, file: File): (Index, bool)
    decreases |ds|
  {
    if |ds| == 0 then (ix, true)
    else if !Accepts(ix, ds[0]) then (ix, false)
    else AddDecls(With(ix, ds[0], file), ds[1..], file)
  }

  function AddFileTo(ix: Index, file: File): (Index, bool) {
    if file.name in ix.byName then (ix, false)
    else AddDecls(ix.(byName := ix.byName[file.name := file]), Declared(file, PackagePath(file.package)), file)
  }

  lemma {:induction false} AddDeclsConcat(ix: Index, ds: seq<Decl>, es: seq<Decl>, file: File)
    ensures AddDecls(ix, ds + es, file) ==
            if AddDecls(ix, ds, file).1 then AddDecls(AddDecls(ix, ds, file).0, es, file) else AddDecls(ix, ds, file)
    decreases |ds|
  {
    if |ds| == 0 {
      assert ds + es == es;
    } else {
      assert (ds + es)[1..] == ds[1..] + es;
      if Accepts(ix, ds[0]) {
        AddDeclsConcat(With(ix, ds[0], file), ds[1..], es, file);
      }
    }
  }

  // ----- The index as AddFile keeps it ----------------------------------------------------------

  /** The file of a symbol, or of an extension, is the one registered under its own name. */
  predicate SymbolRegistered(ix: Index, i: nat)
    requires i < |ix.bySymbol|
  {
    var f := ix.bySymbol[i].file;
    f.name in ix.byName && ix.byName[f.name] == f
  }

  predicate ExtensionRegistered(ix: Index, key: (string, int))
    requires key in ix.byExtension
  {
    var f := ix.byExtension[key];
    f.name in ix.byName && ix.byName[f.name] == f
  }

  ghost predicate Consistent(ix: Index) {
    && (forall i | 0 <= i < |ix.bySymbol| :: SymbolRegistered(ix, i))
    && (forall key | key in ix.byExtension :: ExtensionRegistered(ix, key))
    && (forall name | name in ix.byName :: ix.byName[name].name == name)
  }

  ghost predicate WellFormed(ix: Index) {
    Sorted(Keys(ix.bySymbol)) && AllValid(Keys(ix.bySymbol)) && Consistent(ix)
  }

  lemma WithKeepsWellFormed(ix: Index, d: Decl, file: File)
    requires WellFormed(ix) && Accepts(ix, d) && file.name in ix.byName && ix.byName[file.name] == file
    ensures WellFormed(With(ix, d, file)) && With(ix, d, file).byName == ix.byName
  {
    var ix' := With(ix, d, file);
    match d {
      case Symbol(name) =>
        var keys := Keys(ix.bySymbol);
        KeysOfInserted(ix.bySymbol, name, file);
        AdmittedIsNew(keys, name);
        InsertKeepsSorted(keys, name);
        InsertKeepsValid(keys, name);
        var u := UpperBound(keys, name);
        forall i | 0 <= i < |ix'.bySymbol| ensures SymbolRegistered(ix', i) {
          assert i < u ==> SymbolRegistered(ix, i);
          assert i > u ==> SymbolRegistered(ix, i - 1);
        }
        forall key | key in ix'.byExtension ensures ExtensionRegistered(ix', key) {
          assert ExtensionRegistered(ix, key);
        }
      case Extension(_, _) =>
        forall key | key in ix'.byExtension ensures ExtensionRegistered(ix', key) {
          assert key in ix.byExtension ==> ExtensionRegistered(ix, key);
        }
        forall i | 0 <= i < |ix'.bySymbol| ensures SymbolRegistered(ix', i) {
          assert SymbolRegistered(ix, i);
        }
    }
  }

  lemma KeysOfInserted(entries: seq<Entry>, name: string, file: File)
    ensures var u := UpperBound(Keys(entries), name);
            Keys(Inserted(entries, u, Entry(name, file))) == InsertKey(Keys(entries), name)
  {
  }

  lemma {:induction false} AddDeclsKeepsWellFormed(ix: Index, ds: seq<Decl>, file: File)
    requires WellFormed(ix) && file.name in ix.byName && ix.byName[file.name] == file
    ensures WellFormed(AddDecls(ix, ds, file).0)
    decreases |ds|
  {
    if |ds| > 0 && Accepts(ix, ds[0]) {
      WithKeepsWellFormed(ix, ds[0], file);
      AddDeclsKeepsWellFormed(With(ix, ds[0], file), ds[1..], file);
    }
  }

  lemma AddFileKeepsWellFormed(ix: Index, file: File)
    requires WellFormed(ix)
    ensures WellFormed(AddFileTo(ix, file).0)
  {
    if file.name !in ix.byName {
      NamedIsWellFormed(ix, file);
      AddDeclsKeepsWellFormed(ix.(byName := ix.byName[file.name := file]),
                              Declared(file, PackagePath(file.package)), file);
    }
  }

  lemma NamedIsWellFormed(ix: Index, file: File)
    requires WellFormed(ix) && file.name !in ix.byName
    ensures WellFormed(ix.(byName := ix.byName[file.name := file]))
  {
    var named := ix.(byName := ix.byName[file.name := file]);
    forall i | 0 <= i < |named.bySymbol| ensures SymbolRegistered(named, i) {
      assert SymbolRegistered(ix, i);
    }
    forall key | key in named.byExtension ensures ExtensionRegistered(named, key) {
      assert ExtensionRegistered(ix, key);
    }
  }

  // ----- When parents and children get in together ----------------------------------------------

  /** The name sorts below every key and the first key is its child. */
  predicate HidesNow(ix: Index, d: Decl) {
    d.Symbol? && BelowAll(Keys(ix.bySymbol), d.name) && IsSubSymbol(d.name, ix.bySymbol[0].key)
  }

  /** That happens at some point of adding `ds`. */
  predicate HidesChild(ix: Index, ds: seq<Decl>, file: File)
    decreases |ds|
  {
    && |ds| > 0 && Accepts(ix, ds[0])
    && (HidesNow(ix, ds[0]) || HidesChild(With(ix, ds[0], file), ds[1..], file))
  }

  lemma {:induction false} AddDeclsOnlyGrows(ix: Index, ds: seq<Decl>, file: File)
    requires NoPairs(Keys(AddDecls(ix, ds, file).0.bySymbol))
    ensures NoPairs(Keys(ix.bySymbol))
    decreases |ds|
  {
    if |ds| > 0 && Accepts(ix, ds[0]) {
      AddDeclsOnlyGrows(With(ix, ds[0], file), ds[1..], file);
      if ds[0].Symbol? {
        KeysOfInserted(ix.bySymbol, ds[0].name, file);
        InsertHasAll(Keys(ix.bySymbol), ds[0].name);
      }
    }
  }

  lemma InsertHasAll(keys: seq<string>, name: string)
    requires NoPairs(InsertKey(keys, name))
    ensures NoPairs(keys)
  {
    var u, keys' := UpperBound(keys, name), InsertKey(keys, name);
    forall i, j | 0 <= i < |keys| && 0 <= j < |keys| && i != j ensures Unrelated(keys, i, j) {
      var i', j' := if i < u then i else i + 1, if j < u then j else j + 1;
      assert Unrelated(keys', i', j');
    }
  }

  /** Adding keeps parents and children apart exactly when that never happens. */
  lemma {:induction false} NoPairsExactly(ix: Index, ds: seq<Decl>, file: File)
    requires WellFormed(ix) && file.name in ix.byName && ix.byName[file.name] == file
    requires NoPairs(Keys(ix.bySymbol))
    ensures NoPairs(Keys(AddDecls(ix, ds, file).0.bySymbol)) <==> !HidesChild(ix, ds, file)
    decreases |ds|
  {
    if |ds| > 0 && Accepts(ix, ds[0]) {
      var ix' := With(ix, ds[0], file);
      WithKeepsWellFormed(ix, ds[0], file);
      if ds[0].Symbol? {
        KeysOfInserted(ix.bySymbol, ds[0].name, file);
        AdmittedKeepsNoPairs(Keys(ix.bySymbol), ds[0].name);
      }
      if NoPairs(Keys(ix'.bySymbol)) {
        NoPairsExactly(ix', ds[1..], file);
      } else if NoPairs(Keys(AddDecls(ix', ds[1..], file).0.bySymbol)) {
        AddDeclsOnlyGrows(ix', ds[1..], file);
      }
    }
  }

  // ----- The database as files are added to it --------------------------------------------------

  function AddAll(files: seq<File>): Index {
    if |files| == 0 then EMPTY else AddFileTo(AddAll(files[..|files| - 1]), files[|files| - 1]).0
  }

  lemma {:induction false} ReachableIsWellFormed(files: seq<File>)
    ensures WellFormed(AddAll(files))
  {
    if |files| > 0 {
      ReachableIsWellFormed(files[..|files| - 1]);
      AddFileKeepsWellFormed(AddAll(files[..|files| - 1]), files[|files| - 1]);
    }
  }

  function Lookup(ix: Index, name: string): Option<File> {
    match Probe(Keys(ix.bySymbol), name)
    case Some(i) => if i < |ix.bySymbol| then Some(ix.bySymbol[i].file) else None
    case None => None
  }

  predicate Holds(ix: Index, i: nat, name: string, file: File)
    requires i < |ix.bySymbol|
  {
    IsSubSymbol(ix.bySymbol[i].key, name) && ix.bySymbol[i].file == file
  }

  /** Where no key is the parent of another, a lookup is a scan of all entries. */
  lemma LookupIsScan(ix: Index, name: string, file: File)
    requires WellFormed(ix) && NoPairs(Keys(ix.bySymbol))
    ensures Lookup(ix, name) == Some(file) <==> exists i | 0 <= i < |ix.bySymbol| :: Holds(ix, i, name, file)
  {
    var keys := Keys(ix.bySymbol);
    ProbeIsScan(keys, name);
    if Lookup(ix, name) == Some(file) {
      var k := Probe(keys, name).value;
      assert Covers(keys, k, name);
      assert Holds(ix, k, name, file);
    }
    forall i | 0 <= i < |ix.bySymbol| && Holds(ix, i, name, file) ensures Lookup(ix, name) == Some(file) {
      assert Covers(keys, i, name);
    }
  }

  /** In every reachable database, after failed AddFiles too, a file found by a symbol or extension is
      the one that FindFile gives for its name. */
  lemma FoundIsRegistered(files: seq<File>, name: string, key: (string, int))
    ensures var ix := AddAll(files);
            && (Lookup(ix, name).Some? ==>
                var f := Lookup(ix, name).value; f.name in ix.byName && ix.byName[f.name] == f)
            && (key in ix.byExtension ==>
                var f := ix.byExtension[key]; f.name in ix.byName && ix.byName[f.name] == f)
  {
    ReachableIsWellFormed(files);
    var ix := AddAll(files);
    if Lookup(ix, name).Some? {
      assert SymbolRegistered(ix, Probe(Keys(ix.bySymbol), name).value);
    }
    if key in ix.byExtension {
      assert ExtensionRegistered(ix, key);
    }
  }

  // ----- What is added stays and is found -----------------------------------------------------------

  /** Everything that was there is there, and what is new is the file's and declared. */
  ghost predicate Grows(ix: Index, ix': Index, ds: seq<Decl>, file: File) {
    && (forall e | e in ix.bySymbol :: e in ix'.bySymbol)
    && (forall e | e in ix'.bySymbol :: e in ix.bySymbol || (e.file == file && Symbol(e.key) in ds))
    && (forall key | key in ix.byExtension :: key in ix'.byExtension && ix'.byExtension[key] == ix.byExtension[key])
    && (forall key | key in ix'.byExtension ::
          || key in ix.byExtension
          || (ix'.byExtension[key] == file && Extension(key.0, key.1) in ds))
  }

  lemma WithGrows(ix: Index, d: Decl, file: File)
    requires Accepts(ix, d)
    ensures Grows(ix, With(ix, d, file), [d], file) && With(ix, d, file).byName == ix.byName
    ensures d.Symbol? ==> Entry(d.name, file) in With(ix, d, file).bySymbol
    ensures d.Extension? ==>
              var key := (d.extendee, d.number);
              key in With(ix, d, file).byExtension && With(ix, d, file).byExtension[key] == file
  {
    if d.Symbol? {
      var u := UpperBound(Keys(ix.bySymbol), d.name);
      assert ix.bySymbol == ix.bySymbol[..u] + ix.bySymbol[u..];
    }
  }

  lemma {:induction false} AddDeclsGrows(ix: Index, ds: seq<Decl>, file: File)
    ensures Grows(ix, AddDecls(ix, ds, file).0, ds, file) && AddDecls(ix, ds, file).0.byName == ix.byName
    decreases |ds|
  {
    if |ds| > 0 && Accepts(ix, ds[0]) {
      WithGrows(ix, ds[0], file);
      AddDeclsGrows(With(ix, ds[0], file), ds[1..], file);
      assert forall d :: d in ds <==> d == ds[0] || d in ds[1..];
    }
  }

  /** When nothing was refused, everything declared is there. */
  lemma {:induction false} AddDeclsStores(ix: Index, ds: seq<Decl>, file: File, d: Decl)
    requires AddDecls(ix, ds, file).1 && d in ds
    ensures d.Symbol? ==> Entry(d.name, file) in AddDecls(ix, ds, file).0.bySymbol
    ensures d.Extension? ==>
              var key, byExtension := (d.extendee, d.number), AddDecls(ix, ds, file).0.byExtension;
              key in byExtension && byExtension[key] == file
    decreases |ds|
  {
    WithGrows(ix, ds[0], file);
    AddDeclsGrows(With(ix, ds[0], file), ds[1..], file);
    if d != ds[0] {
      AddDeclsStores(With(ix, ds[0], file), ds[1..], file, d);
    }
  }

  /** AddFile adds what the file declares, replaces nothing, and refuses a name it has. */
  lemma AddFileGrows(ix: Index, file: File)
    ensures Grows(ix, AddFileTo(ix, file).0, Declared(file, PackagePath(file.package)), file)
    ensures AddFileTo(ix, file).0.byName ==
            if file.name in ix.byName then ix.byName else ix.byName[file.name := file]
    ensures file.name in ix.byName ==> AddFileTo(ix, file) == (ix, false)
  {
    AddDeclsGrows(ix.(byName := ix.byName[file.name := file]), Declared(file, PackagePath(file.package)), file);
  }

  lemma EntryIsFound(ix: Index, key: string, file: File)
    requires WellFormed(ix) && Entry(key, file) in ix.bySymbol
    ensures Lookup(ix, key) == Some(file)
  {
    var i :| 0 <= i < |ix.bySymbol| && ix.bySymbol[i] == Entry(key, file);
    ProbeFindsKey(Keys(ix.bySymbol), i);
  }

  /** After a successful AddFile the file is found by its name, by the full name of each of its
      messages, enum types, extensions and services, and by each of its extensions. */
  lemma AddedIsFound(ix: Index, file: File, name: string, extendee: string, number: int)
    requires WellFormed(ix) && AddFileTo(ix, file).1
    ensures var ix' := AddFileTo(ix, file).0;
            && file.name in ix'.byName && ix'.byName[file.name] == file
            && (Declares(file, name) ==> Entry(QualifiedName(file, name), file) in ix'.bySymbol)
            && (Declares(file, name) ==> Lookup(ix', QualifiedName(file, name)) == Some(file))
            && (SomeExtends(file.extensions, extendee, number) || AnyMessageExtends(file.messages, extendee, number) ==>
                (extendee, number) in ix'.byExtension && ix'.byExtension[(extendee, number)] == file)
  {
    var path := PackagePath(file.package);
    var named, ds := ix.(byName := ix.byName[file.name := file]), Declared(file, path);
    AddFileGrows(ix, file);
    AddFileKeepsWellFormed(ix, file);
    DeclaredExactly(file, path, name, extendee, number);
    QualifiedNames(file, name);
    if Declares(file, name) {
      AddDeclsStores(named, ds, file, Symbol(path + name));
      EntryIsFound(AddFileTo(ix, file).0, path + name, file);
    }
    if Extension(extendee, number) in ds {
      AddDeclsStores(named, ds, file, Extension(extendee, number));
    }
  }

  lemma {:induction false} StaysThere(files: seq<File>, i: nat, e: Entry, key: (string, int), name: string)
    requires i <= |files|
    ensures e in AddAll(files[..i]).bySymbol ==> e in AddAll(files).bySymbol
    ensures key in AddAll(files[..i]).byExtension ==>
              key in AddAll(files).byExtension && AddAll(files).byExtension[key] == AddAll(files[..i]).byExtension[key]
    ensures name in AddAll(files[..i]).byName ==>
              name in AddAll(files).byName && AddAll(files).byName[name] == AddAll(files[..i]).byName[name]
    decreases |files| - i
  {
    if i < |files| {
      NextAdded(files, i);
      AddFileGrows(AddAll(files[..i]), files[i]);
      StaysThere(files, i + 1, e, key, name);
    } else {
      assert files[..i] == files;
    }
  }

  /** And it is found so from then on, whatever files are added or refused after it. */
  lemma AddedIsFoundForever(files: seq<File>, i: nat, name: string, extendee: string, number: int)
    requires i < |files| && AddFileTo(AddAll(files[..i]), files[i]).1
    ensures var ix, file := AddAll(files), files[i];
            && file.name in ix.byName && ix.byName[file.name] == file
            && (Declares(file, name) ==> Lookup(ix, QualifiedName(file, name)) == Some(file))
            && (SomeExtends(file.extensions, extendee, number) || AnyMessageExtends(file.messages, extendee, number) ==>
                (extendee, number) in ix.byExtension && ix.byExtension[(extendee, number)] == file)
  {
    var file, before := files[i], AddAll(files[..i]);
    ReachableIsWellFormed(files[..i]);
    AddedIsFound(before, file, name, extendee, number);
    NextAdded(files, i);
    StaysThere(files, i + 1, Entry(QualifiedName(file, name), file), (extendee, number), file.name);
    if Declares(file, name) {
      ReachableIsWellFormed(files);
      EntryIsFound(AddAll(files), QualifiedName(file, name), file);
    }
  }

  lemma NextAdded(files: seq<File>, i: nat)
    requires i < |files|
    ensures AddAll(files[..i + 1]) == AddFileTo(AddAll(files[..i]), files[i]).0
  {
    assert files[..i + 1][..i] == files[..i];
  }

  // ----- What is refused ------------------------------------------------------------------------

  predicate Apart(a: string, b: string) { !IsSubSymbol(a, b) && !IsSubSymbol(b, a) }

  /** The name is legal and neither name, parent nor child of what is there; the extension is not there. */
  ghost predicate Free(ix: Index, d: Decl) {
    match d
    case Symbol(name) => ValidateSymbolName(name) && forall e | e in ix.bySymbol :: Apart(e.key, name)
    case Extension(extendee, number) => (extendee, number) !in ix.byExtension
  }

  predicate Compatible(ds: seq<Decl>, i: nat, j: nat)
    requires i < |ds| && j < |ds|
  {
    ds[i] != ds[j] && (ds[i].Symbol? && ds[j].Symbol? ==> Apart(ds[i].name, ds[j].name))
  }

  /** All entries are free, and none is in the way of another. */
  ghost predicate Clear(ix: Index, ds: seq<Decl>) {
    && (forall d | d in ds :: Free(ix, d))
    && (forall i, j | 0 <= i < j < |ds| :: Compatible(ds, i, j))
  }

  lemma FreeExactly(ix: Index, d: Decl)
    requires WellFormed(ix) && NoPairs(Keys(ix.bySymbol))
    ensures Accepts(ix, d) && !HidesNow(ix, d) <==> Free(ix, d)
  {
    if d.Symbol? {
      var keys, name := Keys(ix.bySymbol), d.name;
      assert forall e | e in ix.bySymbol :: exists i | 0 <= i < |keys| :: ix.bySymbol[i] == e && keys[i] == e.key;
      forall i | 0 <= i < |keys| ensures Conflicts(keys, i, name) <==> !Apart(ix.bySymbol[i].key, name) {
      }
      if BelowAll(keys, name) {
        AdmitsBelowAll(keys, name);
        forall i | 0 <= i < |keys| ensures Conflicts(keys, i, name) <==> Under(keys, i, name) {
          assert !Covers(keys, i, name);
        }
      } else {
        AdmitsExactly(keys, name);
      }
    }
  }

  lemma FreeAfter(ix: Index, d: Decl, file: File, other: Decl)
    requires Accepts(ix, d)
    ensures Free(With(ix, d, file), other) <==> Free(ix, other) && Compatible([d, other], 0, 1)
  {
    WithGrows(ix, d, file);
    if other.Symbol? && d.Symbol? {
      assert Apart(d.name, other.name) ==> d != other;
      assert Entry(d.name, file) in With(ix, d, file).bySymbol;
    }
  }

  lemma ClearSplit(ix: Index, ds: seq<Decl>, file: File)
    requires |ds| > 0 && Free(ix, ds[0]) && Accepts(ix, ds[0])
    ensures Clear(ix, ds) <==> Clear(With(ix, ds[0], file), ds[1..])
  {
    var next, rest := With(ix, ds[0], file), ds[1..];
    forall j | 0 < j < |ds|
      ensures Free(next, rest[j - 1]) <==> Free(ix, ds[j]) && Compatible(ds, 0, j)
    {
      FreeAfter(ix, ds[0], file, ds[j]);
    }
    if Clear(ix, ds) {
      forall d | d in rest ensures Free(next, d) {
        var j :| 0 < j < |ds| && ds[j] == d;
        assert Compatible(ds, 0, j) && ds[j] in ds;
      }
      forall i, j | 0 <= i < j < |rest| ensures Compatible(rest, i, j) {
        assert Compatible(ds, i + 1, j + 1);
      }
    }
    if Clear(next, rest) {
      forall j | 0 < j < |ds| ensures Free(ix, ds[j]) && Compatible(ds, 0, j) {
        assert rest[j - 1] in rest;
      }
      forall i, j | 0 <= i < j < |ds| ensures Compatible(ds, i, j) {
        assert i > 0 ==> Compatible(rest, i - 1, j - 1);
      }
    }
  }

  /** Everything is added, and no child is hidden on the way, exactly when all entries are clear. */
  lemma {:induction false} AddsExactly(ix: Index, ds: seq<Decl>, file: File)
    requires WellFormed(ix) && NoPairs(Keys(ix.bySymbol)) && file.name in ix.byName && ix.byName[file.name] == file
    ensures AddDecls(ix, ds, file).1 && !HidesChild(ix, ds, file) <==> Clear(ix, ds)
    decreases |ds|
  {
    if |ds| > 0 {
      FreeExactly(ix, ds[0]);
      assert ds[0] in ds;
      if Free(ix, ds[0]) {
        ClearSplit(ix, ds, file);
        WithKeepsWellFormed(ix, ds[0], file);
        NoPairsExactly(ix, [ds[0]], file);
        AddDeclsOne(ix, ds[0], file);
        AddsExactly(With(ix, ds[0], file), ds[1..], file);
      }
    }
  }

  lemma AddDeclsOne(ix: Index, d: Decl, file: File)
    requires Accepts(ix, d)
    ensures AddDecls(ix, [d], file) == (With(ix, d, file), true)
    ensures HidesChild(ix, [d], file) <==> HidesNow(ix, d)
  {
    assert [d][1..] == [];
    assert AddDecls(With(ix, d, file), [], file) == (With(ix, d, file), true);
    assert !HidesChild(With(ix, d, file), [], file);
  }

  /** Where parents and children are apart, AddFile succeeds and leaves them so exactly when the file's
      name is new, and all that it declares is legal, free, and not in the way of itself. */
  lemma AddFileSucceedsExactly(ix: Index, file: File)
    requires WellFormed(ix) && NoPairs(Keys(ix.bySymbol))
    ensures var (ix', ok) := AddFileTo(ix, file);
            ok && NoPairs(Keys(ix'.bySymbol)) <==>
            file.name !in ix.byName && Clear(ix, Declared(file, PackagePath(file.package)))
  {
    if file.name !in ix.byName {
      var named, ds := ix.(byName := ix.byName[file.name := file]), Declared(file, PackagePath(file.package));
      NamedIsWellFormed(ix, file);
      AddsExactly(named, ds, file);
      NoPairsExactly(named, ds, file);
      assert forall d | d in ds :: Free(named, d) <==> Free(ix, d);
    }
  }

  // ----- SimpleDescriptorDatabase::DescriptorIndex ----------------------------------------------

  class DescriptorIndex {
    var byName: map<string, File>
    var bySymbol: seq<Entry>
    var byExtension: map<(string, int), File>

    ghost function State(): Index
      reads this
    {
      Index(byName, bySymbol, byExtension)
    }

    constructor ()
      ensures State() == EMPTY && WellFormed(State())
    {
      byName, bySymbol, byExtension := map[], [], map[];
    }

    method AddFile(file: File) returns (ok: bool)
      requires WellFormed(State())
      modifies this
      ensures WellFormed(State())
      ensures (State(), ok) == AddFileTo(old(State()), file)
    {
      AddFileKeepsWellFormed(State(), file);
      if file.name in byName {
        return false;
      }
      byName := byName[file.name := file];
      var path := if file.package != "" then file.package + "." else "";
      ghost var all, start := Declared(file, path), State();
      ghost var topLevel := DeclsOfTopExtensions(path, file.extensions);
      ghost var services := DeclsOfNames(path, file.services);
      ghost var afterMessages := DeclsOfNames(path, file.enums) + (topLevel + services);

      ok := AddMessages(file, path, file.messages);
      AddDeclsConcat(start, DeclsOfMessages(path, file.messages), afterMessages, file);
      if !ok { return; }

      ghost var afterFirst := State();
      ok := AddNames(file, path, file.enums);
      AddDeclsConcat(afterFirst, DeclsOfNames(path, file.enums), topLevel + services, file);
      if !ok { return; }

      ghost var afterEnums := State();
      ok := AddTopExtensions(file, path);
      AddDeclsConcat(afterEnums, topLevel, services, file);
      if !ok { return; }

      ok := AddNames(file, path, file.services);
    }

    /** The loop over the message types. */
    method AddMessages(file: File, path: string, messages: seq<Message>) returns (ok: bool)
      modifies this
      ensures (State(), ok) == AddDecls(old(State()), DeclsOfMessages(path, messages), file)
    {
      ghost var start := State();
      for i := 0 to |messages|
        invariant AddDecls(start, DeclsOfMessages(path, messages), file)
               == AddDecls(State(), DeclsOfMessages(path, messages[i..]), file)
      {
        var m := messages[i];
        ghost var rest := DeclsOfMessages(path, messages[i + 1..]);
        assert messages[i..][1..] == messages[i + 1..];
        AddDeclsConcat(State(), [Symbol(path + m.name)] + NestedExtensions(m), rest, file);
        AddDeclsConcat(State(), [Symbol(path + m.name)], NestedExtensions(m), file);
        ok := AddSymbol(path + m.name, file);
        if !ok { return; }
        ok := AddNestedExtensions(m, file);
        if !ok { return; }
      }
      ok := true;
    }

    /** The loops over the enum types and over the services. */
    method AddNames(file: File, path: string, names: seq<string>) returns (ok: bool)
      modifies this
      ensures (State(), ok) == AddDecls(old(State()), DeclsOfNames(path, names), file)
    {
      ghost var start := State();
      for i := 0 to |names|
        invariant AddDecls(start, DeclsOfNames(path, names), file)
               == AddDecls(State(), DeclsOfNames(path, names[i..]), file)
      {
        assert names[i..][1..] == names[i + 1..];
        AddDeclsConcat(State(), [Symbol(path + names[i])], DeclsOfNames(path, names[i + 1..]), file);
        ok := AddSymbol(path + names[i], file);
        if !ok { return; }
      }
      ok := true;
    }

    /** The loop over the top-level extensions. */
    method AddTopExtensions(file: File, path: string) returns (ok: bool)
      modifies this
      ensures (State(), ok) == AddDecls(old(State()), DeclsOfTopExtensions(path, file.extensions), file)
    {
      ghost var start := State();
      var fields := file.extensions;
      for i := 0 to |fields|
        invariant AddDecls(start, DeclsOfTopExtensions(path, fields), file)
               == AddDecls(State(), DeclsOfTopExtensions(path, fields[i..]), file)
      {
        var f := fields[i];
        ghost var rest := DeclsOfTopExtensions(path, fields[i + 1..]);
        assert fields[i..][1..] == fields[i + 1..];
        AddDeclsConcat(State(), [Symbol(path + f.name)] + DeclOfExtension(f), rest, file);
        AddDeclsConcat(State(), [Symbol(path + f.name)], DeclOfExtension(f), file);
        ok := AddSymbol(path + f.name, file);
        if !ok { return; }
        ok := AddExtension(f, file);
        if !ok { return; }
      }
      ok := true;
    }

    method AddNestedExtensions(m: Message, file: File) returns (ok: bool)
      modifies this
      ensures (State(), ok) == AddDecls(old(State()), NestedExtensions(m), file)
      decreases m
    {
      ghost var start := State();
      AddDeclsConcat(start, NestedInAll(m.nested), DeclsOfExtensions(m.extensions), file);
      for i := 0 to |m.nested|
        invariant AddDecls(start, NestedInAll(m.nested), file) == AddDecls(State(), NestedInAll(m.nested[i..]), file)
      {
        assert m.nested[i..][1..] == m.nested[i + 1..];
        AddDeclsConcat(State(), NestedExtensions(m.nested[i]), NestedInAll(m.nested[i + 1..]), file);
        ok := AddNestedExtensions(m.nested[i], file);
        if !ok { return; }
      }
      ghost var middle := State();
      for i := 0 to |m.extensions|
        invariant AddDecls(middle, DeclsOfExtensions(m.extensions), file)
               == AddDecls(State(), DeclsOfExtensions(m.extensions[i..]), file)
      {
        assert m.extensions[i..][1..] == m.extensions[i + 1..];
        AddDeclsConcat(State(), DeclOfExtension(m.extensions[i]), DeclsOfExtensions(m.extensions[i + 1..]), file);
        ok := AddExtension(m.extensions[i], file);
        if !ok { return; }
      }
      ok := true;
    }

    method AddSymbol(name: string, value: File) returns (ok: bool)
      modifies this
      ensures (State(), ok) == AddDecls(old(State()), [Symbol(name)], value)
    {
      if !ValidateSymbolName(name) {
        return false;
      }
      ghost var keys := Keys(bySymbol);
      var u := UpperBound(Keys(bySymbol), name);
      var iter := if u != 0 then u - 1 else u;
      if iter == |bySymbol| {
        bySymbol := bySymbol[..iter] + [Entry(name, value)] + bySymbol[iter..];
        return true;
      }
      if IsSubSymbol(bySymbol[iter].key, name) {
        return false;
      }
      iter := iter + 1;
      if iter != |bySymbol| && IsSubSymbol(name, bySymbol[iter].key) {
        return false;
      }
      bySymbol := bySymbol[..u] + [Entry(name, value)] + bySymbol[u..];
      return true;
    }

    method AddExtension(field: Field, value: File) returns (ok: bool)
      modifies this
      ensures (State(), ok) == AddDecls(old(State()), DeclOfExtension(field), value)
    {
      if |field.extendee| > 0 && field.extendee[0] == '.' {
        var key := (field.extendee[1..], field.number);
        if key in byExtension {
          return false;
        }
        byExtension := byExtension[key := value];
      }
      return true;
    }

    method FindFile(name: string) returns (found: Option<File>)
      ensures found == if name in byName then Some(byName[name]) else None
    {
      found := if name in byName then Some(byName[name]) else None;
    }

    method FindSymbol(name: string) returns (found: Option<File>)
      requires WellFormed(State())
      ensures found == Lookup(State(), name)
      ensures NoPairs(Keys(bySymbol)) ==>
                forall i | 0 <= i < |bySymbol| :: Covers(Keys(bySymbol), i, name) ==> found == Some(bySymbol[i].file)
      ensures found.Some? ==> exists i | 0 <= i < |bySymbol| :: Holds(State(), i, name, found.value)
      ensures found.Some? ==> found.value.name in byName && byName[found.value.name] == found.value
    {
      var u := UpperBound(Keys(bySymbol), name);
      var iter := if u != 0 then u - 1 else u;
      found := if iter != |bySymbol| && IsSubSymbol(bySymbol[iter].key, name) then Some(bySymbol[iter].file) else None;
      if NoPairs(Keys(bySymbol)) {
        ProbeIsScan(Keys(bySymbol), name);
      }
      assert found.Some? ==> SymbolRegistered(State(), iter) && Holds(State(), iter, name, found.value);
    }

    method FindExtension(containingType: string, number: int) returns (found: Option<File>)
      requires WellFormed(State())
      ensures found.Some? <==> (containingType, number) in byExtension
      ensures found.Some? ==> found.value == byExtension[(containingType, number)]
      ensures found.Some? ==> found.value.name in byName && byName[found.value.name] == found.value
    {
      var key := (containingType, number);
      found := if key in byExtension then Some(byExtension[key]) else None;
      assert found.Some? ==> ExtensionRegistered(State(), key);
    }
  }
}
