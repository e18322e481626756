/**
 * The module tree of the domain layer: a package (PackageModule.java) owns an ordered list of
 * child modules; a type (ClassModule.java) is always a leaf. Java objects are modelled as
 * values; the identity Java gets from object references is the `id` every node carries.
 */
module ModuleTree {
  import opened Wrappers
  import opened Kinds

  /**
   * Object identity of a module. Modules created during ingestion are numbered; the synthetic
   * `<classes>` package created by normalisation takes its identity from its parent.
   */
  datatype ModuleId = Numbered(n: nat) | ClassesOf(parent: ModuleId)

  /** A module of the tree: a package with its ordered children, or a type. */
  datatype Node =
    | Package(id: ModuleId, name: string, children: seq<Node>)
    | Class(id: ModuleId, name: string, programModule: bool, typ: Option<TypeType>)

  /** `new PackageModule(name, parent)`, before anything is added to it. */
  function NewPackageModule(id: ModuleId, name: string): (p: Node)
    ensures p.Package? && p.id == id && p.name == name
    ensures IsLeaf(p) && !ProgramModule(p) && LeafCount(p) == 1
  {
    Package(id, name, [])
  }

  /** `new ClassModule(name, parent)`: not yet visited, so no type kind is known. */
  function NewClassModule(id: ModuleId, name: string): (c: Node)
    ensures c.Class? && c.id == id && c.name == name
    ensures !ProgramModule(c) && !IsAbstract(c)
    ensures IsLeaf(c) && GetChildren(c) == [] && LeafCount(c) == 1
  {
    Class(id, name, false, None)
  }

  /** ClassModule.markAsProgramModule: the type was seen in the analysed program. */
  function MarkAsProgramModule(c: Node, t: TypeType): (r: Node)
    requires c.Class?
    ensures r.Class? && r.id == c.id && r.name == c.name
    ensures ProgramModule(r)
    ensures IsAbstract(r) == t.IsAbstract()
  {
    c.(programModule := true, typ := Some(t))
  }

  /** ClassModule.isAbstract: false until the type kind is known. */
  predicate IsAbstract(c: Node)
    requires c.Class?
    ensures IsAbstract(c) ==> c.typ.Some?
  {
    c.typ.Some? && c.typ.value.IsAbstract()
  }

  /** isLeaf: a type always is; a package is when it has no children. */
  predicate IsLeaf(m: Node)
    ensures m.Class? ==> IsLeaf(m)
    ensures IsLeaf(m) ==> LeafCount(m) == 1
  {
    match m
    case Class(_, _, _, _) => true
    case Package(_, _, cs) => cs == []
  }

  /** getChildren: a type has none. */
  function GetChildren(m: Node): (cs: seq<Node>)
    ensures IsLeaf(m) <==> cs == []
  {
    match m
    case Class(_, _, _, _) => []
    case Package(_, _, cs) => cs
  }

  /** PackageModule.addChild: the child is appended. */
  function AddChild(p: Node, child: Node): (r: Node)
    requires p.Package?
    ensures r.Package? && r.id == p.id && r.name == p.name
    ensures r.children == p.children + [child] && !IsLeaf(r)
  {
    p.(children := p.children + [child])
  }

  /** isProgramModule: a type when it was marked; a package when some child is. */
  predicate ProgramModule(m: Node)
    ensures m.Package? && m.children == [] ==> !ProgramModule(m)
  {
    match m
    case Class(_, _, pm, _) => pm
    case Package(_, _, cs) => exists c :: c in cs && ProgramModule(c)
  }

  /** countLeafsUnder: 1 for a leaf, otherwise the sum over the children; never below 1. */
  function LeafCount(m: Node): (n: nat)
    ensures n >= 1
  {
    match m
    case Class(_, _, _, _) => 1
    case Package(_, _, cs) => if cs == [] then 1 else SumLeafCounts(cs)
  }

  /** The leaf counts of a list of siblings added up; each contributes at least 1. */
  function SumLeafCounts(cs: seq<Node>): (n: nat)
    ensures n >= |cs|
  {
    if cs == [] then 0 else SumLeafCounts(cs[..|cs| - 1]) + LeafCount(cs[|cs| - 1])
  }

  /** PackageModule.isProgramModule / ClassModule.isProgramModule, with the early-exit loop. */
  method IsProgramModule(m: Node) returns (b: bool)
    ensures b == ProgramModule(m)
    ensures m.Package? && m.children == [] ==> !b
  {
    match m
    case Class(_, _, pm, _) =>
      b := pm;
    case Package(_, _, cs) =>
      for i := 0 to |cs|
        invariant forall j :: 0 <= j < i ==> !ProgramModule(cs[j])
      {
        var p := IsProgramModule(cs[i]);
        if p {
          return true;
        }
      }
      b := false;
  }

  /** PackageModule.countLeafsUnder / ClassModule.countLeafsUnder, accumulating in a loop. */
  method CountLeafsUnder(m: Node) returns (count: nat)
    ensures count == LeafCount(m) && count >= 1
  {
    if IsLeaf(m) {
      return 1;
    }
    var cs := GetChildren(m);
    count := 0;
    for i := 0 to |cs|
      invariant count == SumLeafCounts(cs[..i])
    {
      assert cs[..i + 1][..i] == cs[..i];
      var n := CountLeafsUnder(cs[i]);
      count := count + n;
    }
    assert cs[..|cs|] == cs;
  }
}
