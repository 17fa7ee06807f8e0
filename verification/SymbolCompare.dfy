/**
 The fast comparison of EncodedDescriptorDatabase, against the order of the full dotted names.
 */
module SymbolCompare {
  import opened SymbolNames

  /** What is compared: an entry, as its package and its symbol, or the string of a lookup. */
  datatype Term = Entry(package: string, symbol: string) | Str(text: string)

  /** AsString. */
  function FullName(t: Term): string {
    match t
    case Entry(package, symbol) => if package == "" then symbol else package + "." + symbol
    case Str(text) => text
  }

  function GetParts(t: Term): (string, string) {
    match t
    case Entry(package, symbol) => if package == "" then (symbol, "") else (package, symbol)
    case Str(text) => (text, "")
  }

  /** substr(0, n), which stops at the end of the string. */
  function Cut(s: string, n: nat): string { if n <= |s| then s[..n] else s }

  predicate Compare(lhs: Term, rhs: Term) {
    var l, r := GetParts(lhs), GetParts(rhs);
    var lcut, rcut := Cut(l.0, |r.0|), Cut(r.0, |l.0|);
    if lcut != rcut then Less(lcut, rcut)
    else if |l.0| == |r.0| then Less(l.1, r.1)
    else Less(FullName(lhs), FullName(rhs))
  }

  lemma {:induction false} LessOnCommonPrefix(p: string, a: string, b: string)
    ensures Less(p + a, p + b) == Less(a, b)
  {
    if |p| == 0 {
      assert p + a == a && p + b == b;
    } else {
      assert (p + a)[1..] == p[1..] + a && (p + b)[1..] == p[1..] + b;
      LessOnCommonPrefix(p[1..], a, b);
    }
  }

  /** Two strings of one length that differ are in order as any two that start with them are. */
  lemma {:induction false} LessByStart(a: string, b: string, u: string, v: string)
    requires |a| == |b| && a != b
    ensures Less(a + u, b + v) == Less(a, b)
  {
    assert (a + u)[1..] == a[1..] + u && (b + v)[1..] == b[1..] + v;
    if a[0] == b[0] {
      assert a == [a[0]] + a[1..] && b == [b[0]] + b[1..];
      LessByStart(a[1..], b[1..], u, v);
    }
  }

  predicate Unpackaged(t: Term) { t.Str? || t.package == "" }

  /** A packaged entry without a symbol against just its package: the one confusion of Compare. */
  predicate Confused(lhs: Term, rhs: Term) {
    Unpackaged(lhs) && rhs.Entry? && rhs.package != "" && rhs.symbol == "" && FullName(lhs) == rhs.package
  }

  lemma ConfusedName(lhs: Term, rhs: Term)
    requires Confused(lhs, rhs)
    ensures FullName(rhs) == FullName(lhs) + "."
  {
    assert FullName(rhs) == rhs.package + "." + "";
  }

  lemma PartsOf(t: Term)
    ensures var p := GetParts(t);
            FullName(t) == if Unpackaged(t) then p.0 else p.0 + ("." + p.1)
    ensures Unpackaged(t) ==> GetParts(t).1 == ""
  {
  }

  /** The parts differ within their common length: the full names do too, in the same way. */
  lemma CompareByParts(lhs: Term, rhs: Term)
    requires var l, r := GetParts(lhs).0, GetParts(rhs).0; Cut(l, |r|) != Cut(r, |l|)
    ensures Compare(lhs, rhs) == Less(FullName(lhs), FullName(rhs))
  {
    var l, r := GetParts(lhs).0, GetParts(rhs).0;
    var n := if |l| < |r| then |l| else |r|;
    StartOf(lhs, n);
    StartOf(rhs, n);
    LessByStart(l[..n], r[..n], FullName(lhs)[n..], FullName(rhs)[n..]);
    assert Cut(l, |r|) == l[..n] && Cut(r, |l|) == r[..n];
  }

  lemma StartOf(t: Term, n: nat)
    requires n <= |GetParts(t).0|
    ensures |FullName(t)| >= n && FullName(t) == GetParts(t).0[..n] + FullName(t)[n..]
  {
    PartsOf(t);
  }

  /** The first parts are the same. */
  lemma CompareBySymbols(lhs: Term, rhs: Term)
    requires GetParts(lhs).0 == GetParts(rhs).0
    ensures Compare(lhs, rhs) == Less(FullName(lhs), FullName(rhs)) <==> !Confused(lhs, rhs)
  {
    var p, x, y := GetParts(lhs).0, GetParts(lhs).1, GetParts(rhs).1;
    PartsOf(lhs);
    PartsOf(rhs);
    assert p + "" == p;
    var u, v := if Unpackaged(lhs) then "" else "." + x, if Unpackaged(rhs) then "" else "." + y;
    LessOnCommonPrefix(p, u, v);
    assert ("." + x)[1..] == x && ("." + y)[1..] == y;
  }

  /** Compare is the order of the full names, except when it is confused. */
  lemma CompareExactly(lhs: Term, rhs: Term)
    ensures Compare(lhs, rhs) == Less(FullName(lhs), FullName(rhs)) <==> !Confused(lhs, rhs)
    ensures Confused(lhs, rhs) ==> !Compare(lhs, rhs) && !Compare(rhs, lhs) && IsSubSymbol(FullName(lhs), FullName(rhs))
  {
    var l, r := GetParts(lhs).0, GetParts(rhs).0;
    if Cut(l, |r|) != Cut(r, |l|) {
      CompareByParts(lhs, rhs);
    } else if |l| == |r| {
      CompareBySymbols(lhs, rhs);
    }
    if Confused(lhs, rhs) {
      assert FullName(rhs) == FullName(lhs) + ".";
    }
  }

  /** Among terms whose packaged entries all have a symbol, Compare is a strict weak order whose
      equivalence is equality of the full names. */
  lemma CompareIsOrder(a: Term, b: Term, c: Term)
    requires forall t | t in [a, b, c] :: t.Entry? && t.package != "" ==> t.symbol != ""
    ensures !Compare(a, a)
    ensures Compare(a, b) && Compare(b, c) ==> Compare(a, c)
    ensures !Compare(a, b) && !Compare(b, a) <==> FullName(a) == FullName(b)
  {
    assert a in [a, b, c] && b in [a, b, c] && c in [a, b, c];
    CompareExactly(a, a);
    CompareExactly(a, b);
    CompareExactly(b, a);
    CompareExactly(b, c);
    CompareExactly(a, c);
    LessIrreflexive(FullName(a));
    LessTotal(FullName(a), FullName(b));
    if Compare(a, b) && Compare(b, c) {
      LessTransitive(FullName(a), FullName(b), FullName(c));
    }
  }
}
