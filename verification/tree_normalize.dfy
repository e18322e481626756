/**
 * PackageModule.normalizeTree: afterwards every package holds only packages or only types.
 * A package holding both gets a synthetic child package `<classes>`, and its types move there.
 */
module TreeNormalize {
  import opened Wrappers
  import opened Kinds
  import opened Sequences
  import opened ModuleTree

  /** The name of the synthetic package that receives the types of a mixed package. */
  const ClassesPackageName: string := "<classes>"

  /** The packages among `cs`, in order (the `packages` list of normalizeTree). */
  function PackagesOf(cs: seq<Node>): (r: seq<Node>)
    ensures |r| <= |cs|
    ensures forall c :: c in r <==> c.Package? && c in cs
    ensures r == [] <==> forall c :: c in cs ==> c.Class?
  {
    if cs == [] then []
    else
      var last := cs[|cs| - 1];
      assert cs == cs[..|cs| - 1] + [last];
      PackagesOf(cs[..|cs| - 1]) + if last.Package? then [last] else []
  }

  /** The types among `cs`, in order (the `nonPackages` list of normalizeTree). */
  function TypesOf(cs: seq<Node>): (r: seq<Node>)
    ensures |r| <= |cs|
    ensures forall c :: c in r <==> c.Class? && c in cs
    ensures r == [] <==> forall c :: c in cs ==> c.Package?
  {
    if cs == [] then []
    else
      var last := cs[|cs| - 1];
      assert cs == cs[..|cs| - 1] + [last];
      TypesOf(cs[..|cs| - 1]) + if last.Class? then [last] else []
  }

  /** A normal tree: no package mixes packages and types, at any depth. */
  predicate IsNormal(m: Node) {
    match m
    case Class(_, _, _, _) => true
    case Package(_, _, cs) =>
      ((forall c :: c in cs ==> c.Package?) || (forall c :: c in cs ==> c.Class?))
      && forall c :: c in cs ==> IsNormal(c)
  }

  /**
   * The tree after normalizeTree. Each child package is normalised in place; if both packages
   * and types remain, the types move under a new `<classes>` package that was appended after
   * the packages.
   */
  function Normalized(m: Node): (r: Node)
    ensures r.id == m.id && r.name == m.name && r.Package? == m.Package?
    ensures r.Class? ==> r == m
    ensures IsNormal(r)
  {
    match m
    case Class(_, _, _, _) => m
    case Package(id, name, cs) =>
      var ns := NormalizeEach(cs);
      var packages := PackagesOf(ns);
      var types := TypesOf(ns);
      if packages != [] && types != [] then
        Package(id, name, packages + [Package(ClassesOf(id), ClassesPackageName, types)])
      else
        Package(id, name, ns)
  }

  /** The children list once every child package has normalised itself in place. */
  function NormalizeEach(cs: seq<Node>): (r: seq<Node>)
    ensures |r| == |cs|
    ensures forall i :: 0 <= i < |cs| ==> r[i].Package? == cs[i].Package?
    ensures forall c :: c in r ==> IsNormal(c)
  {
    if cs == [] then []
    else NormalizeEach(cs[..|cs| - 1]) + [Normalized(cs[|cs| - 1])]
  }

  /** Java's removeAll: drops every element that occurs in `xs`, keeping the order of the rest. */
  function RemoveAll(s: seq<Node>, xs: seq<Node>): (r: seq<Node>)
    ensures |r| <= |s|
    ensures forall y :: y in r <==> y in s && y !in xs
  {
    if s == [] then []
    else
      var last := s[|s| - 1];
      assert s == s[..|s| - 1] + [last];
      RemoveAll(s[..|s| - 1], xs) + if last in xs then [] else [last]
  }

  /**
   * PackageModule.normalizeTree: one pass over the children normalises each child package
   * and sorts the children into packages and types; for a mixed package the `<classes>`
   * package is appended and the types are removed from the children.
   */
  method NormalizeTree(m: Node) returns (r: Node)
    requires m.Package?
    ensures r == Normalized(m)
    decreases m
  {
    var children := [];
    var packages := [];
    var nonPackages := [];
    for i := 0 to |m.children|
      invariant children == NormalizeEach(m.children[..i])
      invariant packages == PackagesOf(children)
      invariant nonPackages == TypesOf(children)
    {
      var child := m.children[i];
      NormalizeEachStep(m.children, i);
      if child.Package? {
        var pm := NormalizeTree(child);
        AppendPackage(children, pm);
        packages := packages + [pm];
        children := children + [pm];
      } else {
        AppendType(children, child);
        nonPackages := nonPackages + [child];
        children := children + [child];
      }
    }
    assert m.children[..|m.children|] == m.children;
    if packages != [] && nonPackages != [] {
      var pseudoPackage := Package(ClassesOf(m.id), ClassesPackageName, nonPackages);
      RemoveTypesAfterPseudoPackage(children, pseudoPackage);
      children := RemoveAll(children + [pseudoPackage], nonPackages);
    }
    r := m.(children := children);
  }

  /** One more child: the list grows by that child, normalised. */
  lemma NormalizeEachStep(cs: seq<Node>, i: nat)
    requires i < |cs|
    ensures NormalizeEach(cs[..i + 1]) == NormalizeEach(cs[..i]) + [Normalized(cs[i])]
  {
    assert cs[..i + 1][..i] == cs[..i];
  }

  /** Appending a package extends the packages and leaves the types. */
  lemma AppendPackage(s: seq<Node>, x: Node)
    requires x.Package?
    ensures PackagesOf(s + [x]) == PackagesOf(s) + [x]
    ensures TypesOf(s + [x]) == TypesOf(s)
  {
    assert (s + [x])[..|s|] == s;
  }

  /** Appending a type extends the types and leaves the packages. */
  lemma AppendType(s: seq<Node>, x: Node)
    requires x.Class?
    ensures PackagesOf(s + [x]) == PackagesOf(s)
    ensures TypesOf(s + [x]) == TypesOf(s) + [x]
  {
    assert (s + [x])[..|s|] == s;
  }

  /** removeAll of the types, after the `<classes>` package was appended, leaves the packages and it. */
  lemma RemoveTypesAfterPseudoPackage(s: seq<Node>, pseudoPackage: Node)
    requires pseudoPackage.Package?
    ensures RemoveAll(s + [pseudoPackage], TypesOf(s)) == PackagesOf(s) + [pseudoPackage]
  {
    assert (s + [pseudoPackage])[..|s|] == s;
    assert pseudoPackage !in TypesOf(s);
    RemoveTypes(s, TypesOf(s));
  }

  /** removeAll works element by element: the survivors of `s + t` are those of `s`, then those of `t`. */
  lemma {:induction false} RemoveAllAppend(s: seq<Node>, t: seq<Node>, xs: seq<Node>)
    ensures RemoveAll(s + t, xs) == RemoveAll(s, xs) + RemoveAll(t, xs)
  {
    if t != [] {
      var init := t[..|t| - 1];
      var last := t[|t| - 1];
      assert (s + t)[..|s + t| - 1] == s + init;
      RemoveAllAppend(s, init, xs);
    } else {
      assert s + t == s;
    }
  }

  /** Removing a list that holds every type of `s` and nothing else leaves the packages. */
  lemma {:induction false} RemoveTypes(s: seq<Node>, xs: seq<Node>)
    requires forall c :: c in s && c.Class? ==> c in xs
    requires forall x :: x in xs ==> x.Class?
    ensures RemoveAll(s, xs) == PackagesOf(s)
  {
    if s != [] {
      var init := s[..|s| - 1];
      assert forall c :: c in init ==> c in s;
      RemoveTypes(init, xs);
    }
  }

  /** A normal tree is left unchanged by normalisation. */
  lemma {:induction false} NormalUnchanged(m: Node)
    requires IsNormal(m)
    ensures Normalized(m) == m
    decreases m, 1
  {
    if m.Package? {
      NormalizeEachUnchanged(m.children);
    }
  }

  /** Siblings that are all normal are left unchanged. */
  lemma {:induction false} NormalizeEachUnchanged(cs: seq<Node>)
    requires forall c :: c in cs ==> IsNormal(c)
    ensures NormalizeEach(cs) == cs
    decreases cs, 0
  {
    if cs != [] {
      var init := cs[..|cs| - 1];
      assert forall c :: c in init ==> c in cs;
      NormalizeEachUnchanged(init);
      NormalUnchanged(cs[|cs| - 1]);
      assert cs == init + [cs[|cs| - 1]];
    }
  }

  /** Normalising twice is normalising once. */
  lemma NormalizeIdempotent(m: Node)
    ensures Normalized(Normalized(m)) == Normalized(m)
  {
    NormalUnchanged(Normalized(m));
  }

  /** Appending a module adds its leaves to the sum. */
  lemma SumLeafCountsAppend(s: seq<Node>, x: Node)
    ensures SumLeafCounts(s + [x]) == SumLeafCounts(s) + LeafCount(x)
  {
    assert (s + [x])[..|s|] == s;
  }

  /** The leaf count of a list of siblings is additive: the two halves' counts add up. */
  lemma {:induction false} SumLeafCountsConcat(s: seq<Node>, t: seq<Node>)
    ensures SumLeafCounts(s + t) == SumLeafCounts(s) + SumLeafCounts(t)
  {
    if t == [] {
      assert s + t == s;
    } else {
      var init, last := t[..|t| - 1], t[|t| - 1];
      SumLeafCountsConcat(s, init);
      assert s + t == (s + init) + [last];
      SumLeafCountsAppend(s + init, last);
    }
  }

  /** The leaves under a list are those under its packages plus its types. */
  lemma {:induction false} SumLeafCountsSplit(s: seq<Node>)
    ensures SumLeafCounts(s) == SumLeafCounts(PackagesOf(s)) + SumLeafCounts(TypesOf(s))
  {
    if s != [] {
      var init := s[..|s| - 1];
      var last := s[|s| - 1];
      SumLeafCountsSplit(init);
      assert SumLeafCounts(s) == SumLeafCounts(init) + LeafCount(last);
      if last.Package? {
        assert PackagesOf(s) == PackagesOf(init) + [last] && TypesOf(s) == TypesOf(init);
        SumLeafCountsAppend(PackagesOf(init), last);
      } else {
        assert PackagesOf(s) == PackagesOf(init) && TypesOf(s) == TypesOf(init) + [last];
        SumLeafCountsAppend(TypesOf(init), last);
      }
    }
  }

  /** Normalisation neither adds nor loses a leaf: countLeafsUnder is unchanged. */
  lemma {:induction false} NormalizedLeafCount(m: Node)
    ensures LeafCount(Normalized(m)) == LeafCount(m)
    decreases m, 1
  {
    if m.Package? && m.children != [] {
      var ns := NormalizeEach(m.children);
      NormalizeEachLeafCount(m.children);
      var packages := PackagesOf(ns);
      var types := TypesOf(ns);
      var r := Normalized(m);
      if packages != [] && types != [] {
        var pseudoPackage := Package(ClassesOf(m.id), ClassesPackageName, types);
        assert r.children == packages + [pseudoPackage];
        assert LeafCount(pseudoPackage) == SumLeafCounts(types);
        SumLeafCountsAppend(packages, pseudoPackage);
        SumLeafCountsSplit(ns);
      } else {
        assert r.children == ns && ns != [];
      }
    }
  }

  /** Normalising each sibling keeps the sum of their leaf counts. */
  lemma {:induction false} NormalizeEachLeafCount(cs: seq<Node>)
    ensures SumLeafCounts(NormalizeEach(cs)) == SumLeafCounts(cs)
    decreases cs, 0
  {
    if cs != [] {
      var init := cs[..|cs| - 1];
      NormalizeEachLeafCount(init);
      NormalizedLeafCount(cs[|cs| - 1]);
      SumLeafCountsAppend(NormalizeEach(init), Normalized(cs[|cs| - 1]));
    }
  }

  /** Normalising one more sibling appends its normal form. */
  lemma NormalizeEachAppend(s: seq<Node>, x: Node)
    ensures NormalizeEach(s + [x]) == NormalizeEach(s) + [Normalized(x)]
  {
    assert (s + [x])[..|s|] == s;
  }

  /** Normalising siblings one by one distributes over concatenation. */
  lemma {:induction false} NormalizeEachConcat(s: seq<Node>, t: seq<Node>)
    ensures NormalizeEach(s + t) == NormalizeEach(s) + NormalizeEach(t)
  {
    if t == [] {
      assert s + t == s;
    } else {
      var init, last := t[..|t| - 1], t[|t| - 1];
      assert t == init + [last];
      assert s + t == (s + init) + [last];
      NormalizeEachConcat(s, init);
      NormalizeEachAppend(s + init, last);
      NormalizeEachAppend(init, last);
      var ns, ni, nl := NormalizeEach(s), NormalizeEach(init), Normalized(last);
      assert (ns + ni) + [nl] == ns + (ni + [nl]);
    }
  }

  /** Normalising the children leaves the types as they were, in order. */
  lemma {:induction false} NormalizeEachTypes(cs: seq<Node>)
    ensures TypesOf(NormalizeEach(cs)) == TypesOf(cs)
  {
    if cs != [] {
      var init := cs[..|cs| - 1];
      var last := cs[|cs| - 1];
      NormalizeEachTypes(init);
      if last.Class? {
        AppendType(NormalizeEach(init), last);
      } else {
        AppendPackage(NormalizeEach(init), Normalized(last));
      }
    }
  }

  /** The packages among the normalised children are the original packages, each normalised, in order. */
  lemma {:induction false} NormalizeEachPackages(cs: seq<Node>)
    ensures PackagesOf(NormalizeEach(cs)) == NormalizeEach(PackagesOf(cs))
  {
    if cs != [] {
      var init := cs[..|cs| - 1];
      var last := cs[|cs| - 1];
      NormalizeEachPackages(init);
      assert NormalizeEach(cs) == NormalizeEach(init) + [Normalized(last)];
      if last.Class? {
        AppendType(NormalizeEach(init), last);
        assert PackagesOf(cs) == PackagesOf(init);
      } else {
        AppendPackage(NormalizeEach(init), Normalized(last));
        NormalizeEachAppend(PackagesOf(init), last);
        assert PackagesOf(cs) == PackagesOf(init) + [last];
      }
    }
  }

  /**
   * A package holding both sub-packages and types ends up with its sub-packages, each
   * normalised and in their order, followed by one `<classes>` package holding its types in
   * their order.
   */
  lemma NormalizedMixed(m: Node)
    requires m.Package? && PackagesOf(m.children) != [] && TypesOf(m.children) != []
    ensures Normalized(m).children
      == NormalizeEach(PackagesOf(m.children)) + [Package(ClassesOf(m.id), ClassesPackageName, TypesOf(m.children))]
  {
    NormalizeEachTypes(m.children);
    NormalizeEachPackages(m.children);
  }

  /** A package that does not mix sub-packages and types only has its children normalised. */
  lemma NormalizedUnmixed(m: Node)
    requires m.Package? && (PackagesOf(m.children) == [] || TypesOf(m.children) == [])
    ensures Normalized(m).children == NormalizeEach(m.children)
  {
    NormalizeEachTypes(m.children);
    NormalizeEachPackages(m.children);
  }

  /**
   * A package `p1` holding a sub-package `p2` and a type `T` ends up with exactly two children:
   * `p2` and a `<classes>` package holding `T`.
   */
  lemma NormalizeMixedPackage()
    ensures
      var p2 := Package(Numbered(2), "p1.p2", []);
      var t := Class(Numbered(3), "p1.T", true, Some(ConcreteClass));
      Normalized(Package(Numbered(1), "p1", [p2, t]))
      == Package(Numbered(1), "p1", [p2, Package(ClassesOf(Numbered(1)), "<classes>", [t])])
  {
    var p2 := Package(Numbered(2), "p1.p2", []);
    var t := Class(Numbered(3), "p1.T", true, Some(ConcreteClass));
    assert [p2, t][..1] == [p2];
    assert [p2][..0] == [];
    assert Normalized(p2) == p2;
    assert NormalizeEach([p2, t]) == [p2, t];
    assert PackagesOf([p2, t]) == [p2];
    assert TypesOf([p2, t]) == [t];
  }
}
