/**
 * Finding and replacing nodes of the module tree by identity. In Java a module object is
 * changed in place and the change is seen through every reference to it, the root included;
 * on the value tree the same effect is a replacement of every node with that identity.
 */
module TreeEdit {
  import opened Wrappers
  import opened ModuleTree

  /** The first node, in pre-order, with identity `id`. */
  function Find(m: Node, id: ModuleId): (r: Option<Node>)
    ensures r.Some? ==> r.value.id == id
    ensures m.id == id ==> r == Some(m)
    decreases m, 1
  {
    if m.id == id then Some(m)
    else
      match m
      case Class(_, _, _, _) => None
      case Package(_, _, cs) => FindIn(cs, id)
  }

  /** The first node, in pre-order over the siblings `cs` and their subtrees, with identity `id`. */
  function FindIn(cs: seq<Node>, id: ModuleId): (r: Option<Node>)
    ensures r.Some? ==> r.value.id == id
    decreases cs, 0
  {
    if cs == [] then None
    else
      match Find(cs[0], id)
      case Some(x) => Some(x)
      case None => FindIn(cs[1..], id)
  }

  /** The tree with every node of identity `id` replaced by `n`. */
  function Replace(m: Node, id: ModuleId, n: Node): (r: Node)
    ensures m.id == id ==> r == n
    ensures m.id != id ==> r.id == m.id && r.name == m.name && r.Package? == m.Package?
    decreases m, 1
  {
    if m.id == id then n
    else
      match m
      case Class(_, _, _, _) => m
      case Package(pid, name, cs) => Package(pid, name, ReplaceIn(cs, id, n))
  }

  /** `Replace` on each of the siblings `cs`. */
  function ReplaceIn(cs: seq<Node>, id: ModuleId, n: Node): (r: seq<Node>)
    ensures |r| == |cs|
    decreases cs, 0
  {
    if cs == [] then [] else [Replace(cs[0], id, n)] + ReplaceIn(cs[1..], id, n)
  }

  /** The first child of `cs` with identity `id`, if any. */
  function ChildWithId(cs: seq<Node>, id: ModuleId): (r: Option<Node>)
    ensures r.Some? ==> r.value in cs && r.value.id == id
    ensures r.None? <==> forall c :: c in cs ==> c.id != id
  {
    if cs == [] then None
    else if cs[0].id == id then Some(cs[0])
    else
      var r := ChildWithId(cs[1..], id);
      assert forall c :: c in cs ==> c == cs[0] || c in cs[1..];
      r
  }

  /**
   * The package holding the node of identity `id` as a direct child (the first such package in
   * pre-order): the parent link of the newer Module class.
   */
  function ParentOf(m: Node, id: ModuleId): (r: Option<Node>)
    ensures r.Some? ==> r.value.Package? && ChildWithId(r.value.children, id).Some?
    decreases m, 1
  {
    match m
    case Class(_, _, _, _) => None
    case Package(_, _, cs) =>
      if ChildWithId(cs, id).Some? then Some(m) else ParentIn(cs, id)
  }

  /** `ParentOf` over the siblings `cs`, the first match in order. */
  function ParentIn(cs: seq<Node>, id: ModuleId): (r: Option<Node>)
    ensures r.Some? ==> r.value.Package? && ChildWithId(r.value.children, id).Some?
    decreases cs, 0
  {
    if cs == [] then None
    else
      match ParentOf(cs[0], id)
      case Some(p) => Some(p)
      case None => ParentIn(cs[1..], id)
  }

  /** Replacing an identity that does not occur leaves the tree as it is. */
  lemma {:induction false} ReplaceAbsent(m: Node, id: ModuleId, n: Node)
    requires Find(m, id).None?
    ensures Replace(m, id, n) == m
    decreases m, 1
  {
    if m.Package? {
      ReplaceInAbsent(m.children, id, n);
    }
  }

  /** `ReplaceAbsent` over siblings. */
  lemma {:induction false} ReplaceInAbsent(cs: seq<Node>, id: ModuleId, n: Node)
    requires FindIn(cs, id).None?
    ensures ReplaceIn(cs, id, n) == cs
    decreases cs, 0
  {
    if cs != [] {
      ReplaceAbsent(cs[0], id, n);
      ReplaceInAbsent(cs[1..], id, n);
      assert cs == [cs[0]] + cs[1..];
    }
  }

  /**
   * After the replacement, looking the identity up finds the new node: a change made through
   * one reference is seen from the root.
   */
  lemma {:induction false} FindReplaced(m: Node, id: ModuleId, n: Node)
    requires Find(m, id).Some? && n.id == id
    ensures Find(Replace(m, id, n), id) == Some(n)
    decreases m, 1
  {
    if m.id != id {
      FindInReplaced(m.children, id, n);
    }
  }

  /** `FindReplaced` over siblings. */
  lemma {:induction false} FindInReplaced(cs: seq<Node>, id: ModuleId, n: Node)
    requires FindIn(cs, id).Some? && n.id == id
    ensures FindIn(ReplaceIn(cs, id, n), id) == Some(n)
    decreases cs, 0
  {
    var rs := ReplaceIn(cs, id, n);
    assert rs[0] == Replace(cs[0], id, n) && rs[1..] == ReplaceIn(cs[1..], id, n);
    if Find(cs[0], id).Some? {
      FindReplaced(cs[0], id, n);
    } else {
      ReplaceAbsent(cs[0], id, n);
      FindInReplaced(cs[1..], id, n);
    }
  }
}
