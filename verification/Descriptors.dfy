/**
 The parts of a FileDescriptorProto that the descriptor databases index, and the order in which
 AddFile goes through them.
 */
module Descriptors {

  datatype Field = Field(name: string, extendee: string, number: int)

  datatype Message = Message(name: string, nested: seq<Message>, extensions: seq<Field>)

  datatype File = File(name: string, package: string, messages: seq<Message>, enums: seq<string>,
                       extensions: seq<Field>, services: seq<string>)

  /** One entry that AddFile tries to make. */
  datatype Decl = Symbol(name: string) | Extension(extendee: string, number: int)

  /** Only a fully-qualified extendee is indexed, without its leading dot. */
  function DeclOfExtension(f: Field): seq<Decl> {
    if |f.extendee| > 0 && f.extendee[0] == '.' then [Extension(f.extendee[1..], f.number)] else []
  }

  function DeclsOfExtensions(fs: seq<Field>): seq<Decl> {
    if |fs| == 0 then [] else DeclOfExtension(fs[0]) + DeclsOfExtensions(fs[1..])
  }

  /** AddNestedExtensions: the extensions in nested messages, then the message's own. */
  function NestedExtensions(m: Message): seq<Decl>
    decreases m
  {
    NestedInAll(m.nested) + DeclsOfExtensions(m.extensions)
  }

  function NestedInAll(ms: seq<Message>): seq<Decl>
    decreases ms
  {
    if |ms| == 0 then [] else NestedExtensions(ms[0]) + NestedInAll(ms[1..])
  }

  function DeclsOfMessages(path: string, ms: seq<Message>): seq<Decl> {
    if |ms| == 0 then []
    else [Symbol(path + ms[0].name)] + NestedExtensions(ms[0]) + DeclsOfMessages(path, ms[1..])
  }

  function DeclsOfNames(path: string, names: seq<string>): seq<Decl> {
    if |names| == 0 then [] else [Symbol(path + names[0])] + DeclsOfNames(path, names[1..])
  }

  function DeclsOfTopExtensions(path: string, fs: seq<Field>): seq<Decl> {
    if |fs| == 0 then []
    else [Symbol(path + fs[0].name)] + DeclOfExtension(fs[0]) + DeclsOfTopExtensions(path, fs[1..])
  }

  /** Everything AddFile tries to add for a file, in order. */
  function Declared(file: File, path: string): seq<Decl> {
    DeclsOfMessages(path, file.messages)
    + (DeclsOfNames(path, file.enums)
    + (DeclsOfTopExtensions(path, file.extensions)
    + DeclsOfNames(path, file.services)))
  }

  /** The package and a dot, or nothing. */
  function PackagePath(package: string): string {
    if package == "" then "" else package + "."
  }

  // ----- What a file declares ---------------------------------------------------------------------

  /** Field i of a list is an extension of `extendee`, fully qualified, with that number. */
  predicate Extends(fs: seq<Field>, i: nat, extendee: string, number: int)
    requires i < |fs|
  {
    fs[i].extendee == "." + extendee && fs[i].number == number
  }

  ghost predicate SomeExtends(fs: seq<Field>, extendee: string, number: int) {
    exists i | 0 <= i < |fs| :: Extends(fs, i, extendee, number)
  }

  /** A message declares an extension itself or in a message nested in it, at any depth. */
  ghost predicate MessageExtends(m: Message, extendee: string, number: int)
    decreases m
  {
    || SomeExtends(m.extensions, extendee, number)
    || exists i | 0 <= i < |m.nested| :: MessageExtends(m.nested[i], extendee, number)
  }

  ghost predicate AnyMessageExtends(ms: seq<Message>, extendee: string, number: int) {
    exists i | 0 <= i < |ms| :: MessageExtends(ms[i], extendee, number)
  }

  lemma DeclOfExtensionExactly(f: Field, extendee: string, number: int)
    ensures Extension(extendee, number) in DeclOfExtension(f) <==> f.extendee == "." + extendee && f.number == number
    ensures forall name :: Symbol(name) !in DeclOfExtension(f)
  {
    if |f.extendee| > 0 && f.extendee[0] == '.' {
      assert f.extendee == "." + f.extendee[1..];
    }
    assert ("." + extendee)[1..] == extendee;
  }

  lemma SomeExtendsSplit(fs: seq<Field>, extendee: string, number: int)
    requires |fs| > 0
    ensures SomeExtends(fs, extendee, number) <==>
            Extends(fs, 0, extendee, number) || SomeExtends(fs[1..], extendee, number)
  {
    if SomeExtends(fs[1..], extendee, number) {
      var i :| 0 <= i < |fs[1..]| && Extends(fs[1..], i, extendee, number);
      assert Extends(fs, i + 1, extendee, number);
    }
    if i :| 0 < i < |fs| && Extends(fs, i, extendee, number) {
      assert Extends(fs[1..], i - 1, extendee, number);
    }
  }

  lemma {:induction false} ExtensionsExactly(fs: seq<Field>, extendee: string, number: int)
    ensures Extension(extendee, number) in DeclsOfExtensions(fs) <==> SomeExtends(fs, extendee, number)
    ensures forall name :: Symbol(name) !in DeclsOfExtensions(fs)
  {
    if |fs| > 0 {
      DeclOfExtensionExactly(fs[0], extendee, number);
      ExtensionsExactly(fs[1..], extendee, number);
      SomeExtendsSplit(fs, extendee, number);
    }
  }

  lemma {:induction false} NestedExactly(m: Message, extendee: string, number: int)
    ensures Extension(extendee, number) in NestedExtensions(m) <==> MessageExtends(m, extendee, number)
    ensures forall name :: Symbol(name) !in NestedExtensions(m)
    decreases m
  {
    NestedInAllExactly(m.nested, extendee, number);
    ExtensionsExactly(m.extensions, extendee, number);
  }

  lemma {:induction false} NestedInAllExactly(ms: seq<Message>, extendee: string, number: int)
    ensures Extension(extendee, number) in NestedInAll(ms) <==> AnyMessageExtends(ms, extendee, number)
    ensures forall name :: Symbol(name) !in NestedInAll(ms)
    decreases ms
  {
    if |ms| > 0 {
      NestedExactly(ms[0], extendee, number);
      NestedInAllExactly(ms[1..], extendee, number);
      AnyMessageSplit(ms, extendee, number);
    }
  }

  lemma AnyMessageSplit(ms: seq<Message>, extendee: string, number: int)
    requires |ms| > 0
    ensures AnyMessageExtends(ms, extendee, number) <==>
            MessageExtends(ms[0], extendee, number) || AnyMessageExtends(ms[1..], extendee, number)
  {
    if AnyMessageExtends(ms[1..], extendee, number) {
      var i :| 0 <= i < |ms[1..]| && MessageExtends(ms[1..][i], extendee, number);
      assert MessageExtends(ms[i + 1], extendee, number);
    }
    if i :| 0 < i < |ms| && MessageExtends(ms[i], extendee, number) {
      assert ms[1..][i - 1] == ms[i];
    }
  }

  lemma {:induction false} MessagesExactly(path: string, ms: seq<Message>, name: string, extendee: string, number: int)
    ensures Symbol(name) in DeclsOfMessages(path, ms) <==> exists m | m in ms :: name == path + m.name
    ensures Extension(extendee, number) in DeclsOfMessages(path, ms) <==> AnyMessageExtends(ms, extendee, number)
  {
    if |ms| > 0 {
      NestedExactly(ms[0], extendee, number);
      MessagesExactly(path, ms[1..], name, extendee, number);
      AnyMessageSplit(ms, extendee, number);
      assert forall m :: m in ms <==> m == ms[0] || m in ms[1..];
    }
  }

  lemma {:induction false} NamesExactly(path: string, names: seq<string>, name: string)
    ensures Symbol(name) in DeclsOfNames(path, names) <==> exists n | n in names :: name == path + n
    ensures forall extendee, number :: Extension(extendee, number) !in DeclsOfNames(path, names)
  {
    if |names| > 0 {
      NamesExactly(path, names[1..], name);
      assert forall n :: n in names <==> n == names[0] || n in names[1..];
    }
  }

  lemma {:induction false} TopExtensionsExactly(path: string, fs: seq<Field>, name: string, extendee: string,
                                                number: int)
    ensures Symbol(name) in DeclsOfTopExtensions(path, fs) <==> exists f | f in fs :: name == path + f.name
    ensures Extension(extendee, number) in DeclsOfTopExtensions(path, fs) <==> SomeExtends(fs, extendee, number)
  {
    if |fs| > 0 {
      DeclOfExtensionExactly(fs[0], extendee, number);
      TopExtensionsExactly(path, fs[1..], name, extendee, number);
      SomeExtendsSplit(fs, extendee, number);
      assert forall f :: f in fs <==> f == fs[0] || f in fs[1..];
    }
  }

  /** The name of a message, enum type, extension or service of the file. */
  ghost predicate Declares(file: File, name: string) {
    || (exists m | m in file.messages :: name == m.name)
    || name in file.enums
    || (exists f | f in file.extensions :: name == f.name)
    || name in file.services
  }

  /** A file declares the top-level names under the path, and the fully-qualified extensions at the top
      level and in messages at any depth, and nothing else. */
  lemma DeclaredExactly(file: File, path: string, name: string, extendee: string, number: int)
    ensures Symbol(path + name) in Declared(file, path) <==> Declares(file, name)
    ensures Extension(extendee, number) in Declared(file, path) <==>
            SomeExtends(file.extensions, extendee, number) || AnyMessageExtends(file.messages, extendee, number)
  {
    MessagesExactly(path, file.messages, path + name, extendee, number);
    NamesExactly(path, file.enums, path + name);
    TopExtensionsExactly(path, file.extensions, path + name, extendee, number);
    NamesExactly(path, file.services, path + name);
    forall n | path + n == path + name ensures n == name {
      assert (path + n)[|path|..] == n && (path + name)[|path|..] == name;
    }
  }

  /** The full name of something in the file. */
  function QualifiedName(file: File, name: string): string {
    if file.package == "" then name else file.package + "." + name
  }

  lemma QualifiedNames(file: File, name: string)
    ensures PackagePath(file.package) + name == QualifiedName(file, name)
  {
    assert "" + name == name;
  }

  /** The order within a message: its name, the extensions in messages nested in it, its own. */
  lemma MessageInOrder(path: string, m: Message, inner: Message, rest: seq<Message>)
    requires m.nested == [inner]
    ensures DeclsOfMessages(path, [m] + rest) ==
            [Symbol(path + m.name)] + (NestedExtensions(inner) + DeclsOfExtensions(m.extensions))
            + DeclsOfMessages(path, rest)
  {
    assert ([m] + rest)[1..] == rest && [inner][1..] == [];
    assert NestedInAll([inner]) == NestedExtensions(inner) + NestedInAll([]);
  }

  /** The order in a file: messages, enum types, extensions with their entries, services. */
  lemma FileInOrder(e: string, f: Field, s: string, m: Message)
    requires m.nested == [] && m.extensions == []
    ensures Declared(File("f", "", [m], [e], [f], [s]), "") ==
            [Symbol(m.name), Symbol(e), Symbol(f.name)] + DeclOfExtension(f) + [Symbol(s)]
  {
    assert "" + m.name == m.name && "" + e == e && "" + f.name == f.name && "" + s == s;
    assert [m][1..] == [] && [f][1..] == [];
    assert NestedExtensions(m) == [];
    assert DeclsOfMessages("", [m]) == [Symbol(m.name)];
    assert DeclsOfTopExtensions("", [f]) == [Symbol(f.name)] + DeclOfExtension(f);
    OneName("", e);
    OneName("", s);
  }

  lemma OneName(path: string, name: string)
    ensures DeclsOfNames(path, [name]) == [Symbol(path + name)]
  {
    assert [name][1..] == [];
    assert DeclsOfNames(path, [name][1..]) == [];
  }
}
