/**
 MergedDescriptorDatabase: the databases it is made of are asked in order, and a file that an earlier
 one hides is not given out.
 */
module MergedDatabase {
  import opened Options
  import opened SymbolNames
  import opened Descriptors
  import SimpleIndex
  import EncodedIndex
  import EncodedLaws

  /** A database: a simple one, an encoded one, one known by its answers only, or a merged one. */
  datatype Database =
    | Simple(index: SimpleIndex.Index)
    | Encoded(encoded: EncodedIndex.Index)
    | Other(file: string -> Option<File>, symbol: string -> Option<File>, extension: (string, int) -> Option<File>)
    | Merged(sources: seq<Database>)

  /** What is looked up: a symbol or an extension. */
  datatype Query = Symbol(name: string) | Extension(extendee: string, number: int)

  // ----- What each lookup gives -----------------------------------------------------------------

  function FileByName(db: Database, name: string): Option<File>
    decreases db
  {
    match db
    case Simple(ix) => if name in ix.byName then Some(ix.byName[name]) else None
    case Encoded(ix) => EncodedIndex.FileNamed(ix, name)
    case Other(file, _, _) => file(name)
    case Merged(sources) => FirstFile(sources, name)
  }

  function FirstFile(sources: seq<Database>, name: string): Option<File>
    decreases sources
  {
    if |sources| == 0 then None
    else
      var found := FileByName(sources[0], name);
      if found.Some? then found else FirstFile(sources[1..], name)
  }

  function FileContaining(db: Database, q: Query): Option<File>
    decreases db
  {
    match db
    case Simple(ix) =>
      (match q
       case Symbol(name) => SimpleIndex.Lookup(ix, name)
       case Extension(e, n) => if (e, n) in ix.byExtension then Some(ix.byExtension[(e, n)]) else None)
    case Encoded(ix) =>
      (match q
       case Symbol(name) => EncodedIndex.Lookup(ix, name)
       case Extension(e, n) => EncodedIndex.FileExtending(ix, (e, n)))
    case Other(_, symbol, extension) =>
      (match q
       case Symbol(name) => symbol(name)
       case Extension(e, n) => extension(e, n))
    case Merged(sources) =>
      var found := FirstContaining(sources, q);
      match found
      case None => None
      case Some((i, f)) => if i <= |sources| && FirstFile(sources[..i], f.name).Some? then None else Some(f)
  }

  /** The first source that answers, and its answer. */
  function FirstContaining(sources: seq<Database>, q: Query): Option<(nat, File)>
    decreases sources
  {
    if |sources| == 0 then None
    else
      var found := FileContaining(sources[0], q);
      if found.Some? then Some((0, found.value))
      else
        match FirstContaining(sources[1..], q)
        case None => None
        case Some((i, f)) => Some((i + 1, f))
  }

  // ----- Self-consistency -----------------------------------------------------------------------

  predicate NamedRight(db: Database, name: string) {
    var found := FileByName(db, name);
    found.Some? ==> found.value.name == name
  }

  predicate AnswersRegistered(db: Database, q: Query) {
    var found := FileContaining(db, q);
    found.Some? ==> FileByName(db, found.value.name) == found
  }

  /** A file found by symbol or extension is the one the database has under the file's name. */
  ghost predicate SelfConsistent(db: Database) {
    && (forall name :: NamedRight(db, name))
    && (forall q :: AnswersRegistered(db, q))
  }

  ghost predicate AllConsistent(dbs: seq<Database>) { forall i | 0 <= i < |dbs| :: Consistent(dbs, i) }

  ghost predicate Consistent(dbs: seq<Database>, i: nat)
    requires i < |dbs|
  {
    SelfConsistent(dbs[i])
  }

  lemma TailConsistent(dbs: seq<Database>)
    requires AllConsistent(dbs) && |dbs| > 0
    ensures SelfConsistent(dbs[0]) && AllConsistent(dbs[1..])
  {
    assert Consistent(dbs, 0);
    forall i | 0 <= i < |dbs[1..]| ensures Consistent(dbs[1..], i) {
      assert Consistent(dbs, i + 1);
    }
  }

  lemma {:induction false} FirstFileNamedRight(sources: seq<Database>, name: string)
    requires AllConsistent(sources)
    ensures FirstFile(sources, name).Some? ==> FirstFile(sources, name).value.name == name
  {
    if |sources| > 0 {
      TailConsistent(sources);
      assert NamedRight(sources[0], name);
      FirstFileNamedRight(sources[1..], name);
    }
  }

  /** The answering source registers its file; unless an earlier source hides it, so does the merge. */
  lemma {:induction false} FirstContainingRegistered(sources: seq<Database>, q: Query)
    requires AllConsistent(sources) && FirstContaining(sources, q).Some?
    ensures var (i, f) := FirstContaining(sources, q).value;
            && i < |sources|
            && (FirstFile(sources[..i], f.name).None? ==> FirstFile(sources, f.name) == Some(f))
  {
    TailConsistent(sources);
    var (i, f) := FirstContaining(sources, q).value;
    assert AnswersRegistered(sources[0], q);
    if FileContaining(sources[0], q).None? {
      FirstContainingRegistered(sources[1..], q);
      assert sources[..i][0] == sources[0];
      assert sources[..i][1..] == sources[1..][..i - 1];
    }
  }

  lemma MergedIsConsistent(sources: seq<Database>)
    requires AllConsistent(sources)
    ensures SelfConsistent(Merged(sources))
  {
    var db := Merged(sources);
    forall name ensures NamedRight(db, name) {
      FirstFileNamedRight(sources, name);
    }
    forall q ensures AnswersRegistered(db, q) {
      if FirstContaining(sources, q).Some? {
        FirstContainingRegistered(sources, q);
      }
    }
  }

  /** An encoded database in which no file name was tried again after a lookup. */
  ghost predicate GoodEncoded(ix: EncodedIndex.Index, rounds: seq<seq<File>>) {
    ix == EncodedIndex.AfterFiles(rounds) && forall name :: EncodedIndex.TriedOnce(rounds, name)
  }

  /** Every database at the leaves is self-consistent; a simple one may be any that files were added to. */
  ghost predicate GoodLeaves(db: Database)
    decreases db
  {
    match db
    case Simple(ix) => exists files :: ix == SimpleIndex.AddAll(files)
    case Encoded(ix) => exists rounds :: GoodEncoded(ix, rounds)
    case Other(_, _, _) => SelfConsistent(db)
    case Merged(sources) => forall i | 0 <= i < |sources| :: GoodLeaves(sources[i])
  }

  lemma SimpleIsConsistent(files: seq<File>)
    ensures SelfConsistent(Simple(SimpleIndex.AddAll(files)))
  {
    var ix := SimpleIndex.AddAll(files);
    var db := Simple(ix);
    SimpleIndex.ReachableIsWellFormed(files);
    forall q ensures AnswersRegistered(db, q) {
      match q
      case Symbol(name) => SimpleIndex.FoundIsRegistered(files, name, ("", 0));
      case Extension(e, n) => SimpleIndex.FoundIsRegistered(files, "", (e, n));
    }
  }

  lemma EncodedIsConsistent(ix: EncodedIndex.Index, rounds: seq<seq<File>>)
    requires GoodEncoded(ix, rounds)
    ensures SelfConsistent(Encoded(ix))
  {
    var db := Encoded(ix);
    EncodedIndex.ReachableIsRegistered(rounds);
    forall name ensures NamedRight(db, name) {
      EncodedIndex.FoundIsNamed(ix, name);
    }
    forall q ensures AnswersRegistered(db, q) {
      match q
      case Symbol(name) =>
        EncodedIndex.SymbolFileExactly(rounds, name);
      case Extension(e, n) =>
        EncodedIndex.ExtensionFileExactly(rounds, (e, n));
    }
  }

  /** A simple database gives out each file that was added to it: by its name, by the full names of what
      it declares and by its extensions. */
  lemma SimpleFindsAdded(files: seq<File>, i: nat, name: string, extendee: string, number: int)
    requires i < |files| && SimpleIndex.AddFileTo(SimpleIndex.AddAll(files[..i]), files[i]).1
    ensures var db, file := Simple(SimpleIndex.AddAll(files)), files[i];
            && FileByName(db, file.name) == Some(file)
            && (Declares(file, name) ==> FileContaining(db, Query.Symbol(QualifiedName(file, name))) == Some(file))
            && (SomeExtends(file.extensions, extendee, number) || AnyMessageExtends(file.messages, extendee, number) ==>
                FileContaining(db, Query.Extension(extendee, number)) == Some(file))
  {
    SimpleIndex.AddedIsFoundForever(files, i, name, extendee, number);
  }

  /** So does an encoded one, unless a lookup came between two attempts or a child was missed. */
  lemma EncodedFindsAdded(rounds: seq<seq<File>>, r: nat, k: nat, name: string, extendee: string, number: int)
    requires r < |rounds| && k < |rounds[r]| && EncodedLaws.Succeeds(rounds, r, k)
    ensures var db, file := Encoded(EncodedIndex.AfterFiles(rounds)), rounds[r][k];
            && (EncodedIndex.TriedOnce(rounds, file.name) ==> FileByName(db, file.name) == Some(file))
            && (Declares(file, name) && !EncodedIndex.HidesInRounds(rounds) ==>
                FileContaining(db, Query.Symbol(QualifiedName(file, name))) == Some(file))
            && ((SomeExtends(file.extensions, extendee, number) || AnyMessageExtends(file.messages, extendee, number))
                && EncodedLaws.ExtensionTriedOnce(rounds, (extendee, number)) ==>
                FileContaining(db, Query.Extension(extendee, number)) == Some(file))
  {
    var file := rounds[r][k];
    if EncodedIndex.TriedOnce(rounds, file.name) {
      EncodedLaws.AddedFileIsFound(rounds, r, k);
    }
    if Declares(file, name) && !EncodedIndex.HidesInRounds(rounds) {
      EncodedLaws.AddedSymbolIsFound(rounds, r, k, name);
    }
    if (SomeExtends(file.extensions, extendee, number) || AnyMessageExtends(file.messages, extendee, number))
       && EncodedLaws.ExtensionTriedOnce(rounds, (extendee, number))
    {
      EncodedLaws.AddedExtensionIsFound(rounds, r, k, extendee, number);
    }
  }

  /** A merged database over self-consistent ones is self-consistent, at any nesting. */
  lemma {:induction false} AnyNestingIsConsistent(db: Database)
    requires GoodLeaves(db)
    ensures SelfConsistent(db)
    decreases db
  {
    match db
    case Simple(ix) =>
      var files :| ix == SimpleIndex.AddAll(files);
      SimpleIsConsistent(files);
    case Encoded(ix) =>
      var rounds :| GoodEncoded(ix, rounds);
      EncodedIsConsistent(ix, rounds);
    case Other(_, _, _) =>
    case Merged(sources) =>
      forall i | 0 <= i < |sources| ensures Consistent(sources, i) {
        AnyNestingIsConsistent(sources[i]);
      }
      MergedIsConsistent(sources);
  }

  predicate Silent(sources: seq<Database>, j: nat, q: Query)
    requires j < |sources|
  {
    FileContaining(sources[j], q) == None
  }

  predicate Lacks(sources: seq<Database>, j: nat, name: string)
    requires j < |sources|
  {
    FileByName(sources[j], name) == None
  }

  /** Source i is the first to answer, with f, and no source before it has a file of that name. */
  ghost predicate Answers(sources: seq<Database>, i: nat, q: Query, f: File)
    requires i < |sources|
  {
    && FileContaining(sources[i], q) == Some(f)
    && forall j | 0 <= j < i :: Silent(sources, j, q) && Lacks(sources, j, f.name)
  }

  lemma {:induction false} FirstFileIs(sources: seq<Database>, name: string)
    ensures FirstFile(sources, name) == None <==> forall j | 0 <= j < |sources| :: Lacks(sources, j, name)
  {
    if |sources| > 0 {
      var tail := sources[1..];
      FirstFileIs(tail, name);
      assert FirstFile(sources, name).None? ==> Lacks(sources, 0, name);
      assert Lacks(sources, 0, name) <==> FileByName(sources[0], name).None?;
      forall j | 1 <= j < |sources| ensures Lacks(sources, j, name) <==> Lacks(tail, j - 1, name) {
      }
      forall j | 0 <= j < |tail| ensures Lacks(tail, j, name) <==> Lacks(sources, j + 1, name) {
      }
    }
  }

  lemma {:induction false} FirstContainingIs(sources: seq<Database>, q: Query)
    ensures match FirstContaining(sources, q)
            case Some((i, f)) =>
              && i < |sources| && FileContaining(sources[i], q) == Some(f)
              && forall j | 0 <= j < i :: Silent(sources, j, q)
            case None => forall j | 0 <= j < |sources| :: Silent(sources, j, q)
  {
    if |sources| > 0 {
      var tail := sources[1..];
      FirstContainingIs(tail, q);
      forall j | 1 <= j < |sources| ensures Silent(sources, j, q) <==> Silent(tail, j - 1, q) {
      }
    }
  }

  /** A merged database answers with the first source that does, unless an earlier one hides the file. */
  lemma MergedAnswersExactly(sources: seq<Database>, q: Query, f: File)
    ensures FileContaining(Merged(sources), q) == Some(f) <==>
            exists i | 0 <= i < |sources| :: Answers(sources, i, q, f)
  {
    FirstContainingIs(sources, q);
    match FirstContaining(sources, q)
    case None =>
      forall i | 0 <= i < |sources| ensures !Answers(sources, i, q, f) {
        assert Silent(sources, i, q);
      }
    case Some((k, g)) =>
      FirstFileIs(sources[..k], g.name);
      forall j | 0 <= j < k ensures Lacks(sources[..k], j, g.name) <==> Lacks(sources, j, g.name) {
      }
      assert !Silent(sources, k, q);
      forall i | 0 <= i < |sources| && Answers(sources, i, q, f) ensures i == k {
        assert i < k ==> Silent(sources, i, q);
      }
      if FileContaining(Merged(sources), q) == Some(f) {
        assert Answers(sources, k, q, f);
      }
  }

  // ----- The lookups ----------------------------------------------------------------------------

  lemma {:induction false} FirstFileAppend(sources: seq<Database>, i: nat, name: string)
    requires i < |sources|
    ensures FirstFile(sources[..i + 1], name) ==
            if FirstFile(sources[..i], name).Some? then FirstFile(sources[..i], name) else FileByName(sources[i], name)
  {
    if i == 0 {
      assert sources[..1][1..] == [];
      assert FirstFile([], name) == None;
    } else {
      assert sources[..i + 1][1..] == sources[1..][..i];
      assert sources[..i][1..] == sources[1..][..i - 1];
      FirstFileAppend(sources[1..], i - 1, name);
    }
  }

  lemma {:induction false} FirstContainingAppend(sources: seq<Database>, i: nat, q: Query)
    requires i < |sources|
    ensures var before := FirstContaining(sources[..i], q);
            FirstContaining(sources[..i + 1], q) ==
            if before.Some? then before
            else if FileContaining(sources[i], q).Some? then Some((i, FileContaining(sources[i], q).value))
            else None
  {
    if i == 0 {
      assert sources[..1][1..] == [];
      assert FirstContaining([], q) == None;
    } else {
      assert sources[..i + 1][1..] == sources[1..][..i];
      assert sources[..i][1..] == sources[1..][..i - 1];
      FirstContainingAppend(sources[1..], i - 1, q);
    }
  }

  lemma {:induction false} FirstContainingPrefix(sources: seq<Database>, i: nat, q: Query)
    requires i <= |sources| && FirstContaining(sources[..i], q).Some?
    ensures FirstContaining(sources, q) == FirstContaining(sources[..i], q)
  {
    if FileContaining(sources[0], q).None? {
      assert sources[..i][1..] == sources[1..][..i - 1];
      FirstContainingPrefix(sources[1..], i - 1, q);
    }
  }

  lemma {:induction false} FirstFilePrefix(sources: seq<Database>, i: nat, name: string)
    requires i <= |sources| && FirstFile(sources[..i], name).Some?
    ensures FirstFile(sources, name) == FirstFile(sources[..i], name)
  {
    if FileByName(sources[0], name).None? {
      assert sources[..i][1..] == sources[1..][..i - 1];
      FirstFilePrefix(sources[1..], i - 1, name);
    }
  }

  method FindFileByName(sources: seq<Database>, name: string) returns (output: Option<File>)
    ensures output == FileByName(Merged(sources), name)
  {
    for i := 0 to |sources|
      invariant FirstFile(sources[..i], name) == None
    {
      FirstFileAppend(sources, i, name);
      output := FileByName(sources[i], name);
      if output.Some? {
        FirstFilePrefix(sources, i + 1, name);
        return;
      }
    }
    assert sources[..|sources|] == sources;
    return None;
  }

  /** FindFileContainingSymbol and FindFileContainingExtension. */
  method FindFileContaining(sources: seq<Database>, q: Query) returns (output: Option<File>)
    ensures output == FileContaining(Merged(sources), q)
  {
    for i := 0 to |sources|
      invariant FirstContaining(sources[..i], q) == None
    {
      FirstContainingAppend(sources, i, q);
      output := FileContaining(sources[i], q);
      if output.Some? {
        var file := output.value;
        FirstContainingPrefix(sources, i + 1, q);
        for j := 0 to i
          invariant FirstFile(sources[..j], file.name) == None
        {
          FirstFileAppend(sources, j, file.name);
          var temp := FileByName(sources[j], file.name);
          if temp.Some? {
            assert sources[..i][..j + 1] == sources[..j + 1];
            FirstFilePrefix(sources[..i], j + 1, file.name);
            return None;
          }
        }
        return;
      }
    }
    assert sources[..|sources|] == sources;
    return None;
  }
}
