/**
 * filterNonProgramReferences (PackageModule.java, ClassModule.java): after ingestion the tree
 * also holds types that were only referenced, never part of the analysed program. Filtering
 * drops every child that is not a program module and filters the children it keeps.
 */
module TreeFilter {
  import opened Sequences
  import opened Wrappers
  import opened Kinds
  import opened ModuleTree

  /** The tree after filterNonProgramReferences; a type is left as it is. */
  function Filtered(m: Node): (r: Node)
    ensures r.id == m.id && r.name == m.name && r.Package? == m.Package?
    ensures r.Class? ==> r == m
    ensures ProgramModule(r) == ProgramModule(m)
    ensures NoNonProgramBelow(r)
  {
    match m
    case Class(_, _, _, _) => m
    case Package(id, name, cs) =>
      var kept := FilterChildren(cs);
      assert kept != [] ==> kept[0] in kept;
      Package(id, name, kept)
  }

  /**
   * The children the removal loop keeps, each filtered in turn. The kept ones are exactly the
   * program modules, so the list is empty precisely when no child is a program module.
   */
  function FilterChildren(cs: seq<Node>): (r: seq<Node>)
    ensures |r| <= |cs|
    ensures forall c :: c in r ==> ProgramModule(c) && NoNonProgramBelow(c)
    ensures r == [] <==> forall c :: c in cs ==> !ProgramModule(c)
  {
    if cs == [] then []
    else
      var last := cs[|cs| - 1];
      assert cs == cs[..|cs| - 1] + [last];
      assert (forall c :: c in cs ==> !ProgramModule(c))
         <==> (forall c :: c in cs[..|cs| - 1] ==> !ProgramModule(c)) && !ProgramModule(last);
      FilterChildren(cs[..|cs| - 1]) + if ProgramModule(last) then [Filtered(last)] else []
  }

  /** Every module strictly below `m` is a program module. */
  predicate NoNonProgramBelow(m: Node) {
    match m
    case Class(_, _, _, _) => true
    case Package(_, _, cs) => forall c :: c in cs ==> ProgramModule(c) && NoNonProgramBelow(c)
  }

  /**
   * PackageModule.filterNonProgramReferences: walks the children with an iterator, removing a
   * child that is not a program module and filtering one that is.
   */
  method FilterNonProgramReferences(m: Node) returns (r: Node)
    ensures r == Filtered(m)
    decreases m
  {
    if m.Class? {
      return m;
    }
    var cs := m.children;
    var i := 0;
    ghost var k := 0;
    while i < |cs|
      invariant 0 <= i <= |cs| && 0 <= k <= |m.children|
      invariant cs[..i] == FilterChildren(m.children[..k])
      invariant cs[i..] == m.children[k..]
      decreases |cs| - i
    {
      SuffixHead(cs, m.children, i, k);
      var child := cs[i];
      FilterChildrenStep(m.children, k);
      if ProgramModule(child) {
        var filtered := FilterNonProgramReferences(child);
        ReplaceAtSlices(cs, i, filtered);
        cs := cs[i := filtered];
        i := i + 1;
      } else {
        RemoveAtSlices(cs, i);
        cs := RemoveAt(cs, i);
      }
      k := k + 1;
    }
    assert m.children[k..] == [];
    assert cs == cs[..i];
    assert m.children[..k] == m.children;
    r := m.(children := cs);
  }

  /** One more child considered: it is kept, filtered, exactly when it is a program module. */
  lemma FilterChildrenStep(cs: seq<Node>, k: nat)
    requires k < |cs|
    ensures FilterChildren(cs[..k + 1])
         == FilterChildren(cs[..k]) + if ProgramModule(cs[k]) then [Filtered(cs[k])] else []
  {
    assert cs[..k + 1][..k] == cs[..k];
  }

  /** Filtering keeps whether a module is a program module, and leaves nothing else below it. */
  lemma FilteredKeepsProgramModules(m: Node)
    ensures ProgramModule(Filtered(m)) == ProgramModule(m)
    ensures NoNonProgramBelow(Filtered(m))
    ensures m.Package? ==> |Filtered(m).children| <= |m.children|
  {
  }

  /** A tree with nothing to remove is left unchanged. */
  lemma {:induction false} FilterUnchanged(m: Node)
    requires NoNonProgramBelow(m)
    ensures Filtered(m) == m
    decreases m, 1
  {
    if m.Package? {
      FilterChildrenUnchanged(m.children);
    }
  }

  /** Siblings that are all program modules with nothing to remove below them are all kept. */
  lemma {:induction false} FilterChildrenUnchanged(cs: seq<Node>)
    requires forall c :: c in cs ==> ProgramModule(c) && NoNonProgramBelow(c)
    ensures FilterChildren(cs) == cs
    decreases cs, 0
  {
    if cs != [] {
      var init, last := cs[..|cs| - 1], cs[|cs| - 1];
      assert forall c :: c in init ==> c in cs;
      assert last in cs;
      FilterChildrenUnchanged(init);
      FilterUnchanged(last);
      InitLast(cs);
    }
  }

  /** Filtering twice is filtering once. */
  lemma FilterIdempotent(m: Node)
    ensures Filtered(Filtered(m)) == Filtered(m)
  {
    FilterUnchanged(Filtered(m));
  }

  /**
   * A referenced-only type `X` in one package and a program type `Y` in another: filtering
   * the root drops `X` together with the package that held nothing else, and keeps `Y`.
   */
  lemma FilterDropsReferencedOnlyPackage()
    ensures
      var x := Class(Numbered(2), "p.X", false, None);
      var y := Class(Numbered(4), "q.Y", true, Some(ConcreteClass));
      var p := Package(Numbered(1), "p", [x]);
      var q := Package(Numbered(3), "q", [y]);
      Filtered(Package(Numbered(0), "", [p, q])) == Package(Numbered(0), "", [q])
  {
    var x := Class(Numbered(2), "p.X", false, None);
    var y := Class(Numbered(4), "q.Y", true, Some(ConcreteClass));
    var p := Package(Numbered(1), "p", [x]);
    var q := Package(Numbered(3), "q", [y]);
    assert ProgramModule(y) && y in [y];
    assert !ProgramModule(p);
    assert [y][..0] == [] && [p][..0] == [] && [p, q][..1] == [p];
    assert FilterChildren([y]) == [y];
    assert Filtered(q) == q;
    assert FilterChildren([p]) == [];
    assert FilterChildren([p, q]) == [q];
  }
}
